# Verified models of ToolBOSLib's containers, protocols and parsers

ToolBOSLib is a C library of containers, synchronization objects, parsers and system helpers. This project
models ten of its parts in Dafny, in the form the C code has (objects whose methods change fields, loops over
arrays and buffers), and proves what each is for.

| Part of the library | Dafny files | Main results |
|---|---|---|
| `src/HashTable.c` | `ChainedTable.dfy`, `HashTable.dfy` | every run over linked entries answers as a flat association list; load bound |
| `src/HashTable.c`, hash function | `Lookup3.dfy`, `Lookup3Example.dfy` | the three read loops compute one function; mixing is a bijection; one published hash |
| `src/HashTableIterator.c` | `HashTableIterator.dfy` | deleting while iterating is exact |
| `src/Barrier.c` | `Barrier.dfy` | safety and conservation for any threads and any schedule |
| `src/AnyTracing.c` | `AnyTracing.dfy` | messages survive any split into partial transfers |
| `src/ArgvParser.c` | `ArgvParser.dfy` | the parser accepts exactly what a printer can say |
| `src/BBCM-C.h`, `src/BBDM-C.h` | `InitString.dfy` | what is written as fields is scanned as those fields |
| `src/BaseMath.c` | `BaseMath.dfy` | rectangles as sets of points |
| `src/FileSystem.c` | `FileSystem.dfy` | join and split undo each other; `mkdir -p` |
| `src/ArrayList.c` | `ArrayList.dfy` | a stack, with amortized growth |

`CTypes.dfy` holds C's number ranges, `Wrappers.dfy` the optional value and `Sequences.dfy` a fact about sequences.
`dafny verify dfyconfig.toml`
checks everything.

## How to read it

Where the C code updates an object in place, a method does the same, and its contract equates the object's new
state and result with a specification function of the old state. The theorems are lemmas about those functions.

**Hash table.** `ChainedTable.Table` is the bucket array as a value, `ChainedTable.Assoc` a plain list of items
that is searched from its front. `HashTable.Table` is the object: an array of links to heap entries, relinked
entry by entry when the table grows, with the pointer-to-pointer deletion of the C code. 32-bit counters wrap
(`% WORD`). The outcomes of the two allocations of an insertion are parameters, and `hashFunc` and `eqFunc` are
pure functions about which nothing is assumed, not even that equality is symmetric or agrees with the hash.
Insertions reverse the list just when the table really grows, because relinking reverses the order of equal
hashes. `HashTable_change` returns -1 on success and 0 on a miss (`src/HashTable.c:513-518`), the other way
round than its header comment says; the model follows the code.

**Barrier.** One step per statement of `Barrier_wait`, the mutex and the condition variable included, so rounds
overlap freely: a fast thread may be back for the next round before the woken ones have left. Assumed is that a
wait ends only after a broadcast; the code has no loop around `pthread_cond_wait`, which IEEE Std 1003.1 lets
return without one, and `SpuriousWakeupBreaks` shows the consequence. `Barrier_isEmpty` reads
`gone` twice. However rounds overlap, its answer is right at one of the two reads, as long as no more threads use
the barrier than it is for, or it is for one; `IsEmptyExact` says that this is the limit.

**Tracing.** The channel is a plan of what each `IOChannel` call does: take or hand over any part of the request,
have nothing, fail, report an error or the end of the file. The struct layout is that of 64-bit Linux, with
arbitrary bytes as padding. `AnyTracingMsgRegistration_trace` makes its second write even when the first failed,
so a frame can be torn; `Trace` says exactly what is sent then. An end-of-file flag makes a read fail even when
it comes with the last bytes asked for (`src/AnyTracing.c:210-214`); `ReceivingExact` says when a read succeeds.

**Command line.** The documented result `ARGVPARSER_UNKNOWN_OPTION` never occurs: an ignored unknown option is
reported as `ARGVPARSER_NO_OPTION` (`src/ArgvParser.c:317-325`). A short name `-` cannot be reached, because `--`
starts a long name. Both show in `ArgvParser.Sayable`, which says exactly what a command line can express.

**Init strings.** One scanner with the two dialects as a parameter. A quoted BBCM value ends behind a backslash
and one more character, whatever that is; `QuotedExact` says for which texts the scan still goes on behind the
closing quote. BBDM lets a field name be abbreviated; `PrefixHandler` says when that makes no difference.

**Rectangles.** `Base2DRect_and` and `_or` read their operands after writing the corner. With `self` as one of the
operands that is right for some values only; the contracts of `SetAnd` and `SetOr` say for which.

**Paths.** `decomposePath` checks the buffers' sizes in two cases only. `BranchTop` and `LeafTop` are the highest
indices that it writes in the others, and `SizeForAll` says which buffers that is right for with every path. A
last delimiter in front of the path makes the old content count: the branch is appended to it, and nothing ends
the leaf; `FilledIsSplit` says when that goes well, and the documentation's example zeroes its buffers.
`implode` tests the lengths before it knows whether a delimiter is needed, and so refuses a join without one that
would just fill the buffer. Its documentation does not say so; `AcceptedHasRoom` has the exact condition.

## Model

| member | source | states |
|---|---|---|
| HashTable.Replay | src/HashTable.c:316-519 | any run of calls on a new table of linked entries, with any allocation failing or not, gives the answers of the flat association list, and ends with the list's items and the list's bookkeeping |
| ChainedTable.RunRefines | src/HashTable.c:316-519 | over every run the bucket array and the flat list give the same answers and end with the same items, each the same number of times |
| ChainedTable.StepRefines | src/HashTable.c:316-519 | one call keeps, for each full hash, the bucket chain filtered by it equal to the flat list filtered by it, and both answer alike |
| ChainedTable.RehashReverses | src/HashTable.c:610-629 | moving all entries, old buckets in index order, each to the front of its new bucket, is reversing the flat list |
| ChainedTable.LookupAgrees | src/HashTable.c:366-393 | searching only the chain that the key hashes to finds what searching the whole flat list finds |
| ChainedTable.WalkRefines | src/HashTable.c:616-625 | every well-formed bucket array stands for a flat list, namely its own walk |
| ChainedTable.LookupMeans | src/HashTable.c:366-393 | looking up gives nothing if and only if no item was stored under the key's hash with a key that eqFunc accepts, and otherwise the value of the first such item |
| ChainedTable.DeleteAtHit | src/HashTable.c:396-439 | deleting takes out that item alone, and nothing if there is none |
| ChainedTable.UpdateAtHit | src/HashTable.c:494-519 | updating changes the value of that item alone, and nothing if there is none |
| ChainedTable.InsertThenSearch | src/HashTable.c:316-393 | after an insertion a search for a key of the same hash that eqFunc accepts finds the new value; any other key is answered as before, unless the table grew |
| ChainedTable.RemoveIsFetch | src/HashTable.c:396-491 | fetch hands back what search finds; remove leaves the same table as fetch, and hands back nothing with a value destructor and the same as fetch without one |
| ChainedTable.ChangeThenSearch | src/HashTable.c:494-519 | change answers -1 just when search finds the key, and search then finds the new value; a miss answers 0 and changes nothing |
| ChainedTable.InsertAnswersAndGrows | src/HashTable.c:316-363 | insert succeeds iff the entry's allocation does; the table grows iff the new count passes the limit, a longer length is left and the allocation succeeds, and then the limit is the wrapped product divided by 100 |
| ChainedTable.FactorThenInsert | src/HashTable.c:259-265 | a new load factor moves nothing and leaves the limit alone until the table next grows, and counts from then on |
| ChainedTable.PrimesGrow | src/HashTable.c:174-183 | there are 26 lengths, each about twice the one before it and none divisible by a prime up to 13 |
| ChainedTable.InitialFields | src/HashTable.c:200-256 | a new table has the first length above minSize, no entries, load factor 65 and the limit that follows from the two |
| ChainedTable.StepWellFormed | src/HashTable.c:328-359 | every call, also one whose entry allocation fails, keeps each entry in bucket hash % length, the length equal to the prime at primeIndex, and entryCount equal to the number of linked entries modulo 2^32 |
| ChainedTable.InitialRefines | src/HashTable.c:200-256 | a new table has more than minSize buckets, is well-formed and stands for the empty list |
| ChainedTable.LoadLimitExact | src/HashTable.c:644 | the 32-bit limit is 65 percent of the length exactly for the primes up to 50331653; from 100663319 on the product wraps |
| ChainedTable.LoadLimitForFactor | src/HashTable.c:644 | for every load factor, the limit is that percentage of the length if and only if the product is below 2^32 |
| ChainedTable.InsertBound | src/HashTable.c:328-343 | with both allocations granted an insertion keeps entryCount within the limit, unless the table is full and stands at one of three named primes: if and only if |
| ChainedTable.LoadBound | src/HashTable.c:174-183 | from a new table, any run that leaves the load factor alone and is granted its table allocations keeps at most 65 entries per 100 buckets, up to 50331653 buckets |
| ChainedTable.LoadBoundByInsertions | src/HashTable.c:174-183 | from a new table made for fewer than 50331653 entries, up to 32715574 insertions never leave 50331653 buckets, whatever allocations fail; so the documented load holds for them |
| HashTable.Relink | src/HashTable.c:610-629 | the nested relinking loops terminate and leave in new bucket j the reverse of all old entries with hash % newSize == j, in index order, as acyclic disjoint chains |
| HashTable.Splice | src/HashTable.c:411-436 | deleting through the link that points at the entry takes just that entry out of its chain and leaves all other chains as they were |
| HashTable.Table.constructor | src/HashTable.c:200-256 | the new object is in good order and reads as the empty table of the first prime above minSize |
| HashTable.Table.Locate | src/HashTable.c:372-390 | the walk stops at the first entry of the key's chain whose cached hash and key match, with its predecessor |
| HashTable.Table.Insert | src/HashTable.c:316-363 | new state and result are the specified step, and the object stays in good order |
| HashTable.Table.Search | src/HashTable.c:366-393 | the result is the value of the first match |
| HashTable.Table.Fetch | src/HashTable.c:396-439 | new state and result are the specified step: the first match is gone and its value handed back |
| HashTable.Table.Remove | src/HashTable.c:442-491 | as fetch, but the value is not handed back when a destructor took it |
| HashTable.Table.Change | src/HashTable.c:494-519 | only the value of the first match changes; the result is -1 if there is one and 0 if not |
| HashTable.Table.Expand | src/HashTable.c:581-648 | a granted expansion moves to the next prime with the wrapped limit and the relinked buckets; a refused one changes nothing |
| HashTableIterator.Cursor.Sweep | src/HashTableIterator.c:115-207 | for every interleaving of next and remove each entry is current exactly once, in walking order, and exactly the entries not removed stay, in their order and with their keys and values; the table's items are the kept ones, and it keeps its invariant |
| HashTableIterator.Cursor.Next | src/HashTableIterator.c:115-170 | the current entry moves from the entries to come to those left behind; the result is 0 exactly when none is to come, and then for ever; the cursor invariant holds again |
| HashTableIterator.Cursor.Remove | src/HashTableIterator.c:173-207 | the current entry leaves its chain and the count, the cursor stands on its successor, nothing left behind or to come changes, the cursor invariant holds again, and the table keeps its own invariant, placement and the count of linked entries included |
| HashTableIterator.Cursor.MoveOff | src/HashTableIterator.c:187-206 | after the entry is unlinked, the fix-up of parent restores the invariant: null iff the new entry heads its bucket, else its predecessor |
| HashTableIterator.Cursor.First | src/HashTableIterator.c:66-94 | the first entry of the first non-empty bucket is current, with all entries to come |
| HashTableIterator.NextWalk | src/HashTableIterator.c:115-170 | going on within a chain or to the next non-empty bucket is one step of the flat walk |
| HashTableIterator.RemovalWalk | src/HashTableIterator.c:173-207 | taking the element at the cursor out of its bucket takes exactly it out of the flat walk |
| Lookup3.HashGeneric | src/HashTable.c:670-929 | whichever of the aligned-word, half-word and byte loops the address and the machine select, the result is one function of the key's bytes and initVal, for every length |
| Lookup3.HashByWords | src/HashTable.c:688-782 | the word loop with its thirteen masked tails computes that function, reading at most to the end of the key's last aligned word |
| Lookup3.HashByHalves | src/HashTable.c:783-858 | the half-word loop with its tails computes it |
| Lookup3.HashByBytes | src/HashTable.c:859-924 | the byte loop with its falling-through tails computes it |
| Lookup3.MixReversible | src/HashTable.c:126-134 | mixing is a bijection on triples of words, with an explicit inverse both ways |
| Lookup3.FinalReversible | src/HashTable.c:162-171 | final mixing is a bijection on triples of words, with an explicit inverse both ways |
| Lookup3.DigestInjective | src/HashTable.c:864-926 | no key, of any length, makes two different starting triples meet |
| Lookup3.OneBlockShows | src/HashTable.c:864-926 | keys of one length that differ in exactly one 12-byte block, or in the tail only, end in different triples, whatever the number of blocks |
| Lookup3.BlockByBlock | src/HashTable.c:864-926 | a 12-byte block at the end of the key gets the final mixing, every other one the ordinary mixing before the rest is taken in |
| Lookup3.ZerosBehind | src/HashTable.c:877-924 | an incomplete last block gives the triple that it gives with a zero byte behind it, from the same starting triple |
| Lookup3.SeedShows | src/HashTable.c:684 | two initial values never give one key the same triple of words |
| Lookup3.EmptyKey | src/HashTable.c:684 | the empty key hashes to 0xdeadbeef plus the initial value |
| Lookup3.RotBack | src/HashTable.c:72 | rotating by k and then by 32 - k changes nothing |
| Lookup3Example.KnownHash | src/HashTable.c:126-171 | `Four score and seven years ago` with initial value 0 hashes to 0x17770551, the value published with lookup3; this fixes every constant and rotation amount |
| Barrier.EveryRun | src/Barrier.c:126-200 | for any threads and any schedule: nobody gets past the wait before required different threads arrived for the same round; in a released round those returned and those inside make up required, and once nobody is inside one has returned true and required - 1 false; with the mutex free, arrived counts the waiting, they are fewer than required, and arrivals are required times rounds plus waiting |
| Barrier.StepInvariant | src/Barrier.c:126-200 | every statement of every thread keeps the protocol invariant, in any overlap of rounds |
| Barrier.NobodyPassesEarly | src/Barrier.c:147-186 | a thread on its way out or returned proves that required distinct threads, it among them, are on its round's roster |
| Barrier.ReturnsOfRound | src/Barrier.c:147-200 | of a released round only the last arriver returns true, the others false; once nobody is inside, that is one true and required - 1 false |
| Barrier.ArrivalsConserved | src/Barrier.c:147-186 | with the mutex free, arrivals equal required times the released rounds plus the waiting |
| Barrier.RestsOnlyIncomplete | src/Barrier.c:126-200 | no wake-up is lost: when no thread can move, the mutex is free and only threads of one incomplete round are blocked |
| Barrier.CallsComplete | src/Barrier.c:126-200 | without new calls every schedule ends after a bounded number of steps |
| Barrier.IsEmptyExact | src/Barrier.c:193-208 | in every run, with any overlap of rounds and any steps between the two reads of gone, isEmpty says whether every released thread had left at one of the two reads, if and only if the barrier is for one thread or at most required threads use it; likewise when both reads find the same |
| Barrier.IsEmptySeparated | src/Barrier.c:202-208 | in a run whose rounds do not overlap isEmpty is right at one of its two reads, for any number of threads |
| Barrier.GoneStays | src/Barrier.c:152-193 | once a release has set gone, no step makes it zero again, as long as it tells who is still to leave |
| Barrier.NeverReset | src/Barrier.c:193 | with at most required threads, or required 1, the compare never finds gone equal to arrived |
| Barrier.OverlapFoolsIsEmpty | src/Barrier.c:193 | for every barrier for more than one thread that more than required threads use, some schedule makes isEmpty hold although a released thread is still to leave |
| Barrier.SpuriousWakeupBreaks | src/Barrier.c:178-186 | in every state that keeps the invariant, with the mutex free, one wake-up without a broadcast lets any waiting thread return from a round with fewer than required arrivals |
| Barrier.PassedAlone | src/Barrier.c:178-186 | for every barrier for two or more there is a run in which such a wake-up lets a thread through that nobody has joined |
| AnyTracing.Relay | src/AnyTracing.c:284-413 | messages traced into a stream and read from it come back as the same list, whole and in order, however writes and reads are split; if reading breaks off, what came back is a prefix |
| AnyTracing.DrainStream | src/AnyTracing.c:284-334 | from the stream, or any beginning of it, nothing but the frames that are whole there is received, in order; and exactly all of those over a channel that does not fail |
| AnyTracing.Write | src/AnyTracing.c:126-183 | the loop with its advancing pointer sends a prefix of the buffer, all of it exactly on success, and leaves the channel as specified |
| AnyTracing.Read | src/AnyTracing.c:186-251 | the loop fills the buffer with the next bytes of the stream, in order and without gaps, and touches nothing else of it |
| AnyTracing.ReadMsg | src/AnyTracing.c:284-334 | a message returned is what the stream held next, header and rest as long as the header says |
| AnyTracing.Trace | src/AnyTracing.c:363-413 | what is sent, for every outcome of the two writes; a whole frame when both succeed |
| AnyTracing.FrameParses | src/AnyTracing.h:172-233 | a frame reads back as its message, whatever its padding holds and whatever follows it, and declares its own length, the sum of the two writes |
| AnyTracing.UnpackPack | src/AnyTracing.h:172-233 | reading a packed struct gives its fields back, for every layout |
| AnyTracing.HeaderRead | src/AnyTracing.h:172-198 | the byte range in which the receiver finds each of the eleven header fields; sizeOfStruct is in bytes 8 to 11 |
| AnyTracing.BodyRead | src/AnyTracing.h:218-233 | the same for nameType, msgId and msgLen |
| AnyTracing.HeaderSent | src/AnyTracing.c:363-413 | the sender has put each header field of the message there, with the number of bytes of the whole frame as sizeOfStruct |
| AnyTracing.BodySent | src/AnyTracing.c:363-413 | the same for the three fields behind the header; then the text follows, with one NUL |
| AnyTracing.ValueOfBytes | src/AnyTracing.h:172-233 | numbers of two, four and eight bytes have their least significant byte first |
| AnyTracing.BrokenReading | src/AnyTracing.c:284-334 | a failing read, and an error or end-of-file flag that comes with the header, give no message |
| AnyTracing.DeliveredReceiving | src/AnyTracing.c:186-251 | a channel that never fails meets every request that it has the bytes for, however it splits them |
| AnyTracing.ReceivingExact | src/AnyTracing.c:186-251 | a request succeeds if and only if its bytes are there and rounds at the start of the plan, all without failure, error or end of file, hand over that many |
| AnyTracing.SendingExact | src/AnyTracing.c:126-183 | a write succeeds if and only if rounds at the start of the plan, all writable and without error, are ready to take all of it |
| ArgvParser.AcceptsExactly | src/ArgvParser.c:217-339 | the parser reaches the end without an error if and only if the arguments are the print of something that can be said, and of one such thing only |
| ArgvParser.ParsePrinted | src/ArgvParser.c:217-383 | whatever can be said, once printed, is parsed without an error to exactly the items said, in order |
| ArgvParser.PrintParsed | src/ArgvParser.c:217-383 | whatever is parsed without an error is the print of what was recognized |
| ArgvParser.Parser.Advance | src/ArgvParser.c:217-339 | one call moves on as specified: the result, index, parameter, recorded error and arguments left, also at and behind the end |
| ArgvParser.Parser.Search | src/ArgvParser.c:282-312 | the loops find the first descriptor of that name before the terminator |
| ArgvParser.Parser.GetCurrentArgument | src/ArgvParser.c:342-383 | the index and parameter stored, with the names of the descriptor found, if any |
| ArgvParser.Parser.Setup | src/ArgvParser.c:60-84 | success exactly when all inputs are there and the first argument is no error; then that one is current |
| ArgvParser.Parse | src/ArgvParser.c:172-194 | set up, then look and advance: the program sees all arguments up to the first error, and learns whether there was one |
| ArgvParser.DocumentedExample | src/ArgvParser.h:154-176 | the documented command line, with the documented descriptors, gives the program name, `-b`, `-s` with `arg1` and `--long` with `arg2` |
| ArgvParser.ErrorExamples | src/ArgvParser.c:246-336 | with these, two letters behind one dash and a missing parameter are errors, an unknown option is one unless ignored, and a lone dash is plain |
| InitString.ScanRendered | src/BBCM-C.h:410-523 | any list of well-formed fields, in either dialect, is handed over by name in order, each at the start of its value |
| InitString.QuotedExact | src/BBCM-C.h:486-510 | the scan goes on right behind a quoted value if and only if its text has no such quote in it and, in BBCM, no backslash except as its last character |
| InitString.ValueEndExact | src/BBCM-C.h:486-519 | exactly where the scan goes on after any value: behind the quote, or in BBCM behind the character after a backslash, or behind the NUL; at white space or the end without quotes |
| InitString.RoundOnField | src/BBCM-C.h:427-519 | name, equals sign and value, with white space around: the field is handed over, and its value passed over |
| InitString.RoundOnWord | src/BBCM-C.h:427-482 | a name without an equals sign: nothing is handed over, and what follows is scanned afresh |
| InitString.RoundOnStray | src/BBCM-C.h:427-519 | anything else but white space: nothing is handed over, and it is passed over like a value |
| InitString.DigitsInNames | src/BBCM-C.h:439 | a digit behind a letter belongs to the name |
| InitString.SingleQuotes | src/BBCM-C.h:488 | a value in single quotes is one value in BBCM and ends at the first blank in BBDM |
| InitString.Backslashes | src/BBCM-C.h:495-509 | a backslash in a quoted value ends it behind the next character in BBCM, and does nothing in BBDM |
| InitString.Parse | src/BBDM-C.h:358-461 | the scanner hands over the specified fields; it terminates on every string, and reads nothing behind the NUL |
| InitString.Round | src/BBCM-C.h:421-522 | every round of the outer loop moves the position on, to at most one behind the NUL, and a value starts within the string |
| InitString.ExactHandler | src/BBCM-C.h:571-578 | a field goes to the first handler declared with exactly its name, if there is one |
| InitString.PrefixHandler | src/BBDM-C.h:509-516 | BBDM dispatches alike if and only if no name that merely starts with the token is declared too early |
| BaseMath.AndIsIntersection | src/BaseMath.c:315-335 | a point is inside the `and` of two rectangles iff it is inside both, for all rectangles |
| BaseMath.OrIsLeast | src/BaseMath.c:259-286 | the `or` of valid rectangles is the least rectangle that contains both |
| BaseMath.OrIsMonoid | src/BaseMath.c:259-286 | `or` is commutative and associative, with every invalid rectangle as identity |
| BaseMath.Absorption | src/BaseMath.c:259-335 | `and` and `or` absorb each other, both ways |
| BaseMath.ContainsIsInclusion | src/BaseMath.c:228-236 | isRectInside is inclusion of points, for valid rectangles |
| BaseMath.SamePoints | src/BaseMath.c:57-68 | two rectangles have the same points iff they are equal or both invalid |
| BaseMath.Base2DRect.SetOr | src/BaseMath.c:259-286 | the `or` of the operands; with self as one of them iff the named condition on the corners holds; with self as both, always |
| BaseMath.Base2DRect.OrWith | src/BaseMath.c:289-312 | the same rectangle as the three-argument form gives, or both results are invalid |
| BaseMath.Base2DRect.SetAnd | src/BaseMath.c:315-335 | the `and` of the operands; with self as one of them the fields are right iff the named condition on the corners holds, and the points iff a wider one does; with self as both, always |
| BaseMath.Base2DRect.AndWith | src/BaseMath.c:338-361 | the same points as the three-argument form gives |
| BaseMath.Base2DPoint.ClipToRect | src/BaseMath.c:99-110 | the rectangle's point nearest to the source in both coordinates, the source itself if it is inside |
| BaseMath.Base2DPoint.SetCenter | src/BaseMath.c:247-256 | a point of the rectangle, at most half a pixel off the middle |
| FileSystem.SplitJoined | src/FileSystem.c:960-1058 | splitting what was joined gives branch and leaf back |
| FileSystem.JoinedSplit | src/FileSystem.c:1441-1477 | joining what was split gives the path without trailing delimiters back, if and only if it has a delimiter and only one in that place |
| FileSystem.SplitOthers | src/FileSystem.c:960-1058 | a delimiter at the end makes no difference to the split, and a path without any has the branch `.` |
| FileSystem.JoinedExamples | src/FileSystem.c:1441-1477 | one delimiter is put in where there is none |
| FileSystem.Implode | src/FileSystem.c:1441-1477 | the buffer holds the joined path, with its NUL within `size`; when the code's length test refuses, and only then, the error is returned and nothing changes |
| FileSystem.AcceptedHasRoom | src/FileSystem.c:1456 | what the length test accepts has room; what has room is accepted if and only if a delimiter is needed or the two lengths are not one less than `size` |
| FileSystem.RefusedWithRoom | src/FileSystem.c:1456 | two joins that have room and are refused: `abcd` into an empty buffer of five, `abc` behind `/` in one of five |
| FileSystem.JoinAndSplit | src/FileSystem.c:960-1477 | on real buffers, implode and then decomposePath give branch and leaf back |
| FileSystem.Decompose | src/FileSystem.c:960-1058 | what both buffers hold afterwards, whatever they held before, which of their characters change, and that the error is returned exactly in the two cases that are checked |
| FileSystem.FillBranch | src/FileSystem.c:1005-1049 | the branch is `.`, or what is before the last delimiter, closed by a NUL behind which nothing changes; a delimiter in front is put behind the old content if that fits |
| FileSystem.FillLeaf | src/FileSystem.c:1013-1054 | the leaf is what is behind the last delimiter, or the whole path if there is none, with NULs up to the buffer's last character; with the delimiter in front, the old content behind the copy follows, and the buffer ends at all iff there is a NUL in that |
| FileSystem.FilledIsSplit | src/FileSystem.c:960-1058 | the branch buffer holds the branch if and only if the last delimiter is not in front or the buffer held an empty string; the leaf buffer likewise, for what it held behind the copy |
| FileSystem.TooSmallExact | src/FileSystem.c:1013-1049 | the two checks refuse exactly the buffers that what is to be written, with its NUL, does not fit |
| FileSystem.SizeForAll | src/FileSystem.c:1007-1054 | all unchecked writes of every path stay within a buffer if and only if it has at least 4094 characters, for branch and leaf alike |
| FileSystem.MadeIfOpen | src/FileSystem.c:2094-2134 | the place is a directory in the end if and only if nothing that is no directory and no refusal is in the way; and then all places on the way are directories |
| FileSystem.MadeIsTree | src/FileSystem.c:2094-2134 | nothing but places on the way is added, and after every step what is there has its parents there |
| FileSystem.NamesJoined | src/FileSystem.c:2115-2128 | two paths with a delimiter in between lead over the names of the first and then those of the second |
| FileSystem.WhereFrom | src/FileSystem.c:2094-2134 | a path with a delimiter in front starts at the root, every other one at the current directory |
| FileSystem.Disk.MakeDirectories | src/FileSystem.c:2094-2134 | the directories made, and the result, for every path |
| FileSystem.Disk.MakeAbove | src/FileSystem.c:2115-2128 | the loop makes every directory above the last name and restores every delimiter it overwrote |
| ArrayList.Replay | src/ArrayList.c:116-221 | any run answers as a stack does; the buffer is 50 slots doubled some times, and growing has copied fewer than two slots per push |
| ArrayList.ArrayList.Allocate | src/ArrayList.c:24-48 | the items stay, the capacity becomes 50 or doubles, and as many slots are copied as there were |
| ArrayList.ArrayList.Push | src/ArrayList.c:116-135 | the item is on top; the buffer grows exactly when no slot is free |
| ArrayList.ArrayList.Pop | src/ArrayList.c:138-158 | the top item is taken off and handed back, NULL from an empty list |

## Left out

- `HashTable_clear`, `HashTable_delete`, the destructors' effects and all release of memory: nothing is freed in the model.
- A failing allocation in `HashTable_init`, its NULL arguments, and the `valid` tags: a table is either initialized or not there.
- HashTable.Table.Search: a stored NULL and a miss are told apart, as they are by Fetch and Remove; in C all three return NULL for both.
- Keys that change while they are stored, and hash or equality functions with effects.
- The table's internal lock flag and `HASHTABLE_FOREACH`; several cursors on one table, or changes to the table by other calls during an iteration.
- `HashTableIterator_getKey` and `_getValue`: at the end of an iteration they follow a NULL pointer.
- HashTableIterator.Cursor.Sweep: a table whose 32-bit count has wrapped to 0 is taken for empty, as the code takes it.
- `HashTable_hashString` and `AnyTracing_computeId`: short loops of one formula each.
- Lookup3.HashByWords: the bytes behind the key within its last aligned word are part of the argument, since the code reads and masks them.
- Barrier.CallsComplete: fairness is not modelled; the bound is on the number of steps of whatever schedule is run.
- The barrier's callback, `Barrier_clear`, process-shared attributes, and the wrap-around of its counters.
- AnyTracing.ReadMsg: a declared size that leaves nothing to read, or is larger than the buffer, which the code does not check, ends in a result of its own instead of what C leaves undefined.
- AnyTracing.Relay: after a failed write nothing is promised, since the second write is made all the same and the stream is torn.
- Waiting: a plan that gives out stands for a loop that goes on polling.
- Connecting, logging, host ids and `AnyTracing_buildHeader`; other struct layouts than that of 64-bit Linux; the second message type `AnyTracingMsg`.
- The text of the argument parser's error messages (only that there is one), its help output, `int` overflow of the index after 2^31 calls behind the end.
- What `sscanf` makes of an init string's values; characters beyond ASCII, for which `isspace` and `isalpha` depend on the locale.
- InitString.ScanRendered: names without an equals sign and stray text are covered by RoundOnWord and RoundOnStray, but not by the round trip.
- Overflow of 32-bit rectangle coordinates; the floating-point `scale` operations, `Base2DRect_clipToSize` and the `Base2DSize` operations.
- FileSystem.Decompose: not for the empty path, for which the code reads in front of its buffer, nor for buffers that its unchecked writes go beyond.
- FileSystem.Implode: not for a `size` below 1, which cannot hold a NUL.
- FileSystem.Disk.MakeDirectories: the names `.` and `..`, symbolic links and other processes are not modelled; the refusals of `mkdir` are a fixed set of places.
- All other functions of `src/FileSystem.c`.
- `ArrayList_remove`: its `memmove` moves bytes where items are meant (`src/ArrayList.c:175`).
- ArrayList.ArrayList.Push: locking, failing allocations and `int` overflow beyond 2^30 items are not modelled.
