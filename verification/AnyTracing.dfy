/** The message framing of src/AnyTracing.c: length-prefixed messages written to, and reassembled from, a
    channel that moves whatever part of a request it likes. */
module AnyTracing {
  import opened CTypes
  import opened Sequences

  // ---------------------------------------------------------------------------
  // The channel
  // ---------------------------------------------------------------------------

  /** One round of the write loop, as the channel decides it: no write access, a negative result, or some
      bytes taken (possibly none), with or without the error flag raised. */
  datatype WriteEvent = NotWritable | WriteFailed | Took(n: nat, error: bool)

  /** One round of the read loop: nothing there yet, a negative result, or some bytes handed over. */
  datatype ReadEvent = NoData | ReadFailed | Gave(n: nat, eof: bool, error: bool)

  /** How a transfer ends; Pending means that the channel's plan gives out while the loop is still going. */
  datatype Outcome = Done | Failed | Pending

  class Channel {
    var sent: seq<byte>
    var incoming: seq<byte>
    var writePlan: seq<WriteEvent>
    var readPlan: seq<ReadEvent>
  }

  /** How `size` offered bytes fare: the outcome, how many are taken, and what is left of the plan. */
  function Sending(plan: seq<WriteEvent>, size: nat): (r: (Outcome, nat, seq<WriteEvent>))
    ensures r.1 <= size && (r.0.Done? ==> r.1 == size)
    decreases |plan|
  {
    if plan == [] then (Pending, 0, [])
    else
      match plan[0]
      case NotWritable => (Failed, 0, plan[1..])
      case WriteFailed => (Failed, 0, plan[1..])
      case Took(k, error) =>
        var n := Min(k, size);
        if error then (Failed, n, plan[1..])
        else if n == size then (Done, n, plan[1..])
        else
          var (o, n', rest) := Sending(plan[1..], size - n);
          (o, n + n', rest)
  }

  /** How a request for `size` of `available` bytes fares. An end-of-file flag fails the request even when it
      comes with the last bytes asked for. */
  function Receiving(plan: seq<ReadEvent>, size: nat, available: nat): (r: (Outcome, nat, seq<ReadEvent>))
    requires 0 < size
    ensures r.1 <= size && r.1 <= available && (r.0.Done? ==> r.1 == size)
    ensures r.0.Done? ==> |r.2| < |plan|
    decreases |plan|
  {
    if plan == [] then (Pending, 0, [])
    else
      match plan[0]
      case NoData => Receiving(plan[1..], size, available)
      case ReadFailed => (Failed, 0, plan[1..])
      case Gave(k, eof, error) =>
        var n := Min(k, Min(size, available));
        if eof || error then (Failed, n, plan[1..])
        else if n == size then (Done, n, plan[1..])
        else
          var (o, n', rest) := Receiving(plan[1..], size - n, available - n);
          (o, n + n', rest)
  }

  /** Rounds that neither fail nor raise a flag, and how many bytes they hand over if these are asked for. */
  predicate Clean(plan: seq<ReadEvent>) {
    forall i | 0 <= i < |plan| :: !plan[i].ReadFailed? && (plan[i].Gave? ==> !plan[i].eof && !plan[i].error)
  }

  function Handed(plan: seq<ReadEvent>): nat {
    if plan == [] then 0 else (if plan[0].Gave? then plan[0].n else 0) + Handed(plan[1..])
  }

  ghost predicate Suffices(plan: seq<ReadEvent>, k: nat, size: nat) {
    k <= |plan| && Clean(plan[..k]) && size <= Handed(plan[..k])
  }

  /** A request succeeds if and only if its bytes are there and some rounds at the start of the plan, all
      without failure, error or end of file, hand over that many. */
  lemma {:induction false} ReceivingExact(plan: seq<ReadEvent>, size: nat, available: nat)
    requires 0 < size
    ensures Receiving(plan, size, available).0.Done? <==> size <= available && exists k: nat :: Suffices(plan, k, size)
    decreases |plan|
  {
    if plan != [] {
      var e, rest := plan[0], plan[1..];
      var n := if e.Gave? then Min(e.n, Min(size, available)) else 0;
      assert [e][0] == e;
      if n < size && (e.NoData? || (e.Gave? && !e.eof && !e.error)) {
        ReceivingExact(rest, size - n, available - n);
        var need := size - n;
        if k: nat :| size <= available && Suffices(rest, k, need) {
          SufficesNext(plan, k, size);
          assert Suffices(plan, k + 1, size);
        }
        if k: nat :| size <= available && Suffices(plan, k, size) {
          SufficesNext(plan, k - 1, size);
          assert Suffices(rest, k - 1, need);
        }
      } else if n == size && Clean([e]) {
        assert plan[..1] == [e];
        assert Suffices(plan, 1, size);
      } else {
        forall k: nat ensures !Suffices(plan, k, size) {
          FlaggedAtOnce(plan, k, size);
        }
      }
    }
  }

  lemma FlaggedAtOnce(plan: seq<ReadEvent>, k: nat, size: nat)
    requires plan != [] && 0 < size && !Clean([plan[0]])
    ensures !Suffices(plan, k, size)
  {
    if 0 < k <= |plan| {
      assert plan[..k][0] == plan[0] == [plan[0]][0];
    }
  }

  /** One round less to look at. */
  lemma SufficesNext(plan: seq<ReadEvent>, k: nat, size: nat)
    requires plan != []
    ensures var n := if plan[0].Gave? then plan[0].n else 0;
            Suffices(plan, k + 1, size)
            <==> Clean(plan[..1]) && Suffices(plan[1..], k, if n < size then size - n else 0)
  {
    if k + 1 <= |plan| {
      assert plan[..k + 1][0] == plan[0] && plan[..k + 1][1..] == plan[1..][..k];
      assert forall i | 0 <= i < k :: plan[1..][..k][i] == plan[..k + 1][i + 1];
    }
  }

  /** Rounds in which the channel is writable and raises no error, and how many bytes they are ready to take. */
  predicate Unbroken(plan: seq<WriteEvent>) {
    forall i | 0 <= i < |plan| :: plan[i].Took? && !plan[i].error
  }

  function Taken(plan: seq<WriteEvent>): nat {
    if plan == [] then 0 else (if plan[0].Took? then plan[0].n else 0) + Taken(plan[1..])
  }

  ghost predicate Takes(plan: seq<WriteEvent>, k: nat, size: nat) {
    k <= |plan| && Unbroken(plan[..k]) && size <= Taken(plan[..k])
  }

  /** A write succeeds if and only if some rounds at the start of the plan, all writable and without error, are
      ready to take all of it. */
  lemma {:induction false} SendingExact(plan: seq<WriteEvent>, size: nat)
    requires 0 < size
    ensures Sending(plan, size).0.Done? <==> exists k: nat :: Takes(plan, k, size)
    decreases |plan|
  {
    if plan != [] {
      var e, rest := plan[0], plan[1..];
      assert [e][0] == e;
      if !Unbroken([e]) {
        forall k: nat ensures !Takes(plan, k, size) {
          BrokenAtOnce(plan, k, size);
        }
      } else if e.n < size {
        var need := size - e.n;
        SendingExact(rest, need);
        if k: nat :| Takes(rest, k, need) {
          TakesNext(plan, k, size);
          assert Takes(plan, k + 1, size);
        }
        if k: nat :| Takes(plan, k, size) {
          TakesNext(plan, k - 1, size);
          assert Takes(rest, k - 1, need);
        }
      } else {
        assert plan[..1] == [e];
        assert Takes(plan, 1, size);
      }
    }
  }

  lemma BrokenAtOnce(plan: seq<WriteEvent>, k: nat, size: nat)
    requires plan != [] && 0 < size && !Unbroken([plan[0]])
    ensures !Takes(plan, k, size)
  {
    if 0 < k <= |plan| {
      assert plan[..k][0] == plan[0] == [plan[0]][0];
    }
  }

  lemma TakesNext(plan: seq<WriteEvent>, k: nat, size: nat)
    requires plan != []
    ensures var n := if plan[0].Took? then plan[0].n else 0;
            Takes(plan, k + 1, size)
            <==> Unbroken(plan[..1]) && Takes(plan[1..], k, if n < size then size - n else 0)
  {
    if k + 1 <= |plan| {
      assert plan[..k + 1][0] == plan[0] && plan[..k + 1][1..] == plan[1..][..k];
      assert forall i | 0 <= i < k :: plan[1..][..k][i] == plan[..k + 1][i + 1];
    }
  }

  /** The write loop: a pointer that advances, a count that shrinks. */
  method Write(ch: Channel, buf: seq<byte>) returns (outcome: Outcome)
    requires buf != []
    modifies ch`sent, ch`writePlan
    ensures var (o, n, rest) := Sending(old(ch.writePlan), |buf|);
            outcome == o && ch.sent == old(ch.sent) + buf[..n] && ch.writePlan == rest
  {
    var sizeToWrite, ptr := |buf|, 0;
    while ch.writePlan != []
      invariant 0 <= ptr && 0 < sizeToWrite && ptr + sizeToWrite == |buf|
      invariant ch.sent == old(ch.sent) + buf[..ptr]
      invariant var (o, n, rest) := Sending(ch.writePlan, sizeToWrite);
                Sending(old(ch.writePlan), |buf|) == (o, ptr + n, rest)
      decreases |ch.writePlan|
    {
      var event := ch.writePlan[0];
      ch.writePlan := ch.writePlan[1..];
      if event.NotWritable? || event.WriteFailed? {
        return Failed;
      }
      var writtenBytes := Min(event.n, sizeToWrite);
      ch.sent := ch.sent + buf[ptr..ptr + writtenBytes];
      assert buf[..ptr] + buf[ptr..ptr + writtenBytes] == buf[..ptr + writtenBytes];
      if event.error {
        return Failed;
      }
      if writtenBytes == sizeToWrite {
        return Done;
      }
      sizeToWrite := sizeToWrite - writtenBytes;
      ptr := ptr + writtenBytes;
    }
    return Pending;
  }

  /** buf holds `data` from position `at` on, and elsewhere what it held before. */
  ghost predicate Filled(before: seq<byte>, now: seq<byte>, at: nat, data: seq<byte>) {
    && |now| == |before| && at + |data| <= |now|
    && (forall i | at <= i < at + |data| :: now[i] == data[i - at])
    && (forall i | 0 <= i < |now| && !(at <= i < at + |data|) :: now[i] == before[i])
  }

  /** What IOChannel_read does with the first n bytes that are waiting. */
  method Deliver(ch: Channel, buf: array<byte>, ptr: nat, n: nat)
    requires n <= |ch.incoming| && ptr + n <= buf.Length
    modifies ch`incoming, buf
    ensures ch.incoming == old(ch.incoming)[n..]
    ensures Filled(old(buf[..]), buf[..], ptr, old(ch.incoming)[..n])
  {
    forall i | 0 <= i < n {
      buf[ptr + i] := ch.incoming[i];
    }
    ch.incoming := ch.incoming[n..];
  }

  lemma FilledOn(a: seq<byte>, b: seq<byte>, c: seq<byte>, at: nat, all: seq<byte>, m: nat, n: nat)
    requires m + n <= |all| && Filled(a, b, at, all[..m]) && Filled(b, c, at + m, all[m..][..n])
    ensures Filled(a, c, at, all[..m + n])
  {
    forall i | at <= i < at + m + n ensures c[i] == all[..m + n][i - at] {
      if at + m <= i {
        assert c[i] == all[m..][..n][i - at - m];
      } else {
        assert b[i] == all[..m][i - at];
      }
    }
  }

  /** The read loop, filling buf from position `at`. */
  method Read(ch: Channel, buf: array<byte>, at: nat, size: nat) returns (outcome: Outcome)
    requires 0 < size && at + size <= buf.Length
    modifies ch`incoming, ch`readPlan, buf
    ensures var (o, n, rest) := Receiving(old(ch.readPlan), size, |old(ch.incoming)|);
            && outcome == o && ch.readPlan == rest
            && ch.incoming == old(ch.incoming)[n..]
            && Filled(old(buf[..]), buf[..], at, old(ch.incoming)[..n])
  {
    hide Filled, Receiving;
    var sizeToRead, ptr := size, at;
    ghost var all, before := ch.incoming, buf[..];
    FilledNone(before, at);
    while ch.readPlan != []
      invariant at <= ptr && 0 < sizeToRead && ptr + sizeToRead == at + size
      invariant ptr - at <= |all| && ch.incoming == all[ptr - at..]
      invariant Filled(before, buf[..], at, all[..ptr - at])
      invariant var (o, n, rest) := Receiving(ch.readPlan, sizeToRead, |ch.incoming|);
                Receiving(old(ch.readPlan), size, |all|) == (o, ptr - at + n, rest)
      decreases |ch.readPlan|
    {
      var event := ch.readPlan[0];
      ReceivingRound(ch.readPlan, sizeToRead, |ch.incoming|);
      ch.readPlan := ch.readPlan[1..];
      if event.ReadFailed? {
        return Failed;
      }
      if event.Gave? {
        var readBytes := Min(event.n, Min(sizeToRead, |ch.incoming|));
        ghost var b := buf[..];
        Deliver(ch, buf, ptr, readBytes);
        FilledOn(before, b, buf[..], at, all, ptr - at, readBytes);
        if event.eof || event.error {
          return Failed;
        }
        if readBytes == sizeToRead {
          return Done;
        }
        sizeToRead := sizeToRead - readBytes;
        ptr := ptr + readBytes;
      }
    }
    ReceivingRound([], sizeToRead, |ch.incoming|);
    return Pending;
  }

  /** The first round of a request. */
  lemma ReceivingRound(plan: seq<ReadEvent>, size: nat, available: nat)
    requires 0 < size
    ensures plan == [] ==> Receiving(plan, size, available) == (Pending, 0, [])
    ensures plan != [] ==>
              var e, rest := plan[0], plan[1..];
              var n := if e.Gave? then Min(e.n, Min(size, available)) else 0;
              if e.ReadFailed? || (e.Gave? && (e.eof || e.error)) then Receiving(plan, size, available) == (Failed, n, rest)
              else if n == size then Receiving(plan, size, available) == (Done, n, rest)
              else
                var (o, n', rest') := Receiving(rest, size - n, available - n);
                Receiving(plan, size, available) == (o, n + n', rest')
  {
  }

  lemma FilledNone(buf: seq<byte>, at: nat)
    requires at <= |buf|
    ensures Filled(buf, buf, at, [])
  {
  }

  // ---------------------------------------------------------------------------
  // Messages in memory (64-bit Linux layout)
  // ---------------------------------------------------------------------------

  /** The layout of a C struct: unsigned numbers of so many bytes, and padding the compiler puts in. */
  datatype Struct = End | Num(width: nat, rest: Struct) | Gap(width: nat, rest: Struct)

  /** AnyTracingHeader: valid, sizeOfStruct, timestamp, msgCategory, logLevel, hostId, pid, threadId,
      moduleId, fileNameId, codeLine. */
  const HEADER: Struct :=
    Num(8, Num(4, Gap(4, Num(8, Num(8, Num(4, Gap(4, Num(8, Num(4, Num(4, Num(8, Num(8, Num(4, Gap(4, End))))))))))))))

  /** The rest of AnyTracingMsgRegistration before its text: nameType, msgId, msgLen. */
  const BODY: Struct := Num(2, Gap(6, Num(8, Num(4, Gap(4, End)))))

  const HEADER_SIZE: nat := 80
  const META_SIZE: nat := 104

  function Width(l: Struct): nat {
    if l.End? then 0 else l.width + Width(l.rest)
  }

  function Numbers(l: Struct): nat {
    match l
    case End => 0
    case Num(_, rest) => 1 + Numbers(rest)
    case Gap(_, rest) => Numbers(rest)
  }

  function Padding(l: Struct): nat {
    match l
    case End => 0
    case Num(_, rest) => Padding(rest)
    case Gap(w, rest) => w + Padding(rest)
  }

  function Pow256(k: nat): (p: nat)
    ensures 0 < p
  {
    if k == 0 then 1 else 256 * Pow256(k - 1)
  }

  function LittleEndian(n: nat, width: nat): (b: seq<byte>)
    ensures |b| == width
  {
    if width == 0 then [] else [n % 256] + LittleEndian(n / 256, width - 1)
  }

  function Value(b: seq<byte>): nat {
    if b == [] then 0 else b[0] + 256 * Value(b[1..])
  }

  lemma {:induction false} ValueOfLittleEndian(n: nat, width: nat)
    requires n < Pow256(width)
    ensures Value(LittleEndian(n, width)) == n
  {
    if 0 < width {
      ValueOfLittleEndian(n / 256, width - 1);
      assert LittleEndian(n, width)[1..] == LittleEndian(n / 256, width - 1);
    }
  }

  /** The least significant byte comes first. */
  lemma ValueOfBytes(b: seq<byte>)
    ensures |b| == 2 ==> var b0: int, b1: int := b[0], b[1]; Value(b) == b0 + 0x100 * b1
    ensures |b| == 4 ==>
              var b0: int, b1: int, b2: int, b3: int := b[0], b[1], b[2], b[3];
              Value(b) == b0 + 0x100 * b1 + 0x1_0000 * b2 + 0x100_0000 * b3
    ensures |b| == 8 ==> Value(b) == Value(b[..4]) + 0x1_0000_0000 * Value(b[4..])
  {
    if |b| == 8 {
      FourBytes(b);
      FourBytes(b[..4]);
      assert Value(b[..4][4..]) == 0;
    } else if |b| == 4 {
      FourBytes(b);
      assert Value(b[4..]) == 0;
    } else if |b| == 2 {
      var rest := b[1..];
      assert Value(rest[1..]) == 0 && Value(rest) == rest[0] == b[1];
    }
  }

  lemma FourBytes(b: seq<byte>)
    requires 4 <= |b|
    ensures var b0: int, b1: int, b2: int, b3: int := b[0], b[1], b[2], b[3];
            Value(b) == b0 + 0x100 * b1 + 0x1_0000 * b2 + 0x100_0000 * b3 + 0x1_0000_0000 * Value(b[4..])
  {
    assert b[1..][1..] == b[2..] && b[2..][1..] == b[3..] && b[3..][1..] == b[4..];
  }

  /** A struct's bytes; the padding is whatever was in memory. */
  function Pack(l: Struct, values: seq<nat>, junk: seq<byte>): (b: seq<byte>)
    requires |values| == Numbers(l) && |junk| == Padding(l)
    ensures |b| == Width(l)
  {
    match l
    case End => []
    case Num(w, rest) => LittleEndian(values[0], w) + Pack(rest, values[1..], junk)
    case Gap(w, rest) => junk[..w] + Pack(rest, values, junk[w..])
  }

  function Unpack(l: Struct, b: seq<byte>): (values: seq<nat>)
    requires Width(l) <= |b|
    ensures |values| == Numbers(l)
  {
    match l
    case End => []
    case Num(w, rest) => [Value(b[..w])] + Unpack(rest, b[w..])
    case Gap(w, rest) => Unpack(rest, b[w..])
  }

  ghost predicate Fits(l: Struct, values: seq<nat>)
    requires |values| == Numbers(l)
  {
    match l
    case End => true
    case Num(w, rest) => values[0] < Pow256(w) && Fits(rest, values[1..])
    case Gap(_, rest) => Fits(rest, values)
  }

  /** Reading a struct back, whatever its padding holds and whatever follows it. */
  lemma {:induction false} UnpackPack(l: Struct, values: seq<nat>, junk: seq<byte>, tail: seq<byte>)
    requires |values| == Numbers(l) && |junk| == Padding(l) && Fits(l, values)
    ensures Unpack(l, Pack(l, values, junk) + tail) == values
  {
    hide Value, LittleEndian;
    var b := Pack(l, values, junk) + tail;
    match l
    case End =>
    case Num(w, rest) =>
      UnpackPack(rest, values[1..], junk, tail);
      ValueOfLittleEndian(values[0], w);
      assert b[..w] == LittleEndian(values[0], w);
      assert b[w..] == Pack(rest, values[1..], junk) + tail;
    case Gap(w, rest) =>
      UnpackPack(rest, values, junk[w..], tail);
      assert b[w..] == Pack(rest, values, junk[w..]) + tail;
  }

  /** The two structs' sizes and field counts. */
  lemma Layouts()
    ensures Width(HEADER) == HEADER_SIZE && Numbers(HEADER) == 11 && Padding(HEADER) == 12
    ensures HEADER_SIZE + Width(BODY) == META_SIZE && Numbers(BODY) == 3 && Padding(BODY) == 10
  {
  }

  // ---------------------------------------------------------------------------
  // Where the fields are
  // ---------------------------------------------------------------------------

  /** The place and the width of the number of that rank. */
  function Offset(l: Struct, rank: nat): nat
    requires rank < Numbers(l)
  {
    match l
    case Num(w, rest) => if rank == 0 then 0 else w + Offset(rest, rank - 1)
    case Gap(w, rest) => w + Offset(rest, rank)
  }

  function WidthOf(l: Struct, rank: nat): (w: nat)
    requires rank < Numbers(l)
    ensures Offset(l, rank) + w <= Width(l)
  {
    match l
    case Num(w, rest) => if rank == 0 then w else WidthOf(rest, rank - 1)
    case Gap(_, rest) => WidthOf(rest, rank)
  }

  lemma Behind(b: seq<byte>, w: nat, at: nat, end: nat)
    requires w <= at <= end <= |b|
    ensures b[w..][at - w..end - w] == b[at..end]
  {
  }

  /** The number of that rank takes the bytes from `at` to `end`. */
  predicate Lies(l: Struct, rank: nat, at: nat, end: nat) {
    rank < Numbers(l) && Offset(l, rank) == at && at + WidthOf(l, rank) == end <= Width(l)
  }

  lemma {:induction false} UnpackAt(l: Struct, b: seq<byte>, rank: nat, at: nat, end: nat)
    requires Width(l) <= |b| && Lies(l, rank, at, end)
    ensures Unpack(l, b)[rank] == Value(b[at..end])
  {
    hide Value;
    if l.Gap? || 0 < rank {
      var w := l.width;
      UnpackAt(l.rest, b[w..], if l.Gap? then rank else rank - 1, at - w, end - w);
      Behind(b, w, at, end);
    }
  }

  // AnyTracingHeader, and then the rest of the registration struct, counted from the header's end.

  lemma FirstPlaces()
    ensures Lies(HEADER, 0, 0, 8) && Lies(HEADER, 1, 8, 12) && Lies(HEADER, 2, 16, 24)
    ensures Lies(HEADER, 3, 24, 32) && Lies(HEADER, 4, 32, 36)
  {
  }

  lemma MiddlePlaces()
    ensures Lies(HEADER, 5, 40, 48) && Lies(HEADER, 6, 48, 52)
  {
  }

  lemma LaterPlaces()
    ensures Lies(HEADER, 7, 52, 56) && Lies(HEADER, 8, 56, 64)
  {
  }

  lemma LastPlaces()
    ensures Lies(HEADER, 9, 64, 72) && Lies(HEADER, 10, 72, 76)
  {
  }

  lemma BodyPlaces()
    ensures Lies(BODY, 0, 0, 2) && Lies(BODY, 1, 8, 16) && Lies(BODY, 2, 16, 20)
  {
  }

  // ---------------------------------------------------------------------------
  // Registration messages
  // ---------------------------------------------------------------------------

  /** A registration message, without the two lengths that the sender computes. */
  datatype Msg = Msg(
    valid: nat, timestamp: nat, msgCategory: nat, logLevel: nat, hostId: nat, pid: nat, threadId: nat,
    moduleId: nat, fileNameId: nat, codeLine: nat, nameType: nat, msgId: nat, text: seq<byte>)

  function SizeOfStruct(m: Msg): nat {
    META_SIZE + |m.text| + 1
  }

  function HeaderValues(m: Msg): (v: seq<nat>)
    ensures |v| == Numbers(HEADER)
  {
    hide *;
    Layouts();
    [m.valid, SizeOfStruct(m), m.timestamp, m.msgCategory, m.logLevel, m.hostId, m.pid, m.threadId,
     m.moduleId, m.fileNameId, m.codeLine]
  }

  function BodyValues(m: Msg): (v: seq<nat>)
    ensures |v| == Numbers(BODY)
  {
    hide *;
    Layouts();
    [m.nameType, m.msgId, |m.text|]
  }

  /** A message whose fields have the C types' ranges; its text is a C string. */
  ghost predicate Sendable(m: Msg) {
    Fits(HEADER, HeaderValues(m)) && Fits(BODY, BodyValues(m)) && 0 !in m.text
  }

  /** The "meta information" of the first write; `junk` is what the structs' padding happens to hold. */
  function Meta(m: Msg, junk: seq<byte>): (b: seq<byte>)
    requires |junk| == 22
    ensures |b| == META_SIZE
  {
    hide Pack, Width, Numbers, Padding;
    Layouts();
    Pack(HEADER, HeaderValues(m), junk[..12]) + Pack(BODY, BodyValues(m), junk[12..])
  }

  /** A whole message on the wire. */
  function Frame(m: Msg, junk: seq<byte>): (b: seq<byte>)
    requires |junk| == 22
    ensures |b| == META_SIZE + |m.text| + 1
  {
    Meta(m, junk) + (m.text + [0])
  }

  /** The fields of the header at the start of b. */
  function HeaderAt(b: seq<byte>): (v: seq<nat>)
    requires HEADER_SIZE <= |b|
    ensures |v| == 11
  {
    hide *;
    Layouts();
    Unpack(HEADER, b)
  }

  function BodyAt(b: seq<byte>): (v: seq<nat>)
    requires META_SIZE <= |b|
    ensures |v| == 3
  {
    hide *;
    Layouts();
    Unpack(BODY, b[HEADER_SIZE..])
  }

  /** header->sizeOfStruct. */
  function DeclaredSize(b: seq<byte>): nat
    requires HEADER_SIZE <= |b|
  {
    HeaderAt(b)[1]
  }

  /** The message at the start of b, as the receiver sees it by casting its buffer. */
  function Parse(b: seq<byte>): Msg
    requires META_SIZE <= |b|
  {
    var h, r := HeaderAt(b), BodyAt(b);
    Msg(h[0], h[2], h[3], h[4], h[5], h[6], h[7], h[8], h[9], h[10], r[0], r[1],
        b[META_SIZE..][..Min(r[2], |b| - META_SIZE)])
  }

  /** Where the receiver finds the header's fields; sizeOfStruct is the second. */
  lemma HeaderRead(b: seq<byte>)
    requires HEADER_SIZE <= |b|
    ensures var h := HeaderAt(b);
            && h[0] == Value(b[0..8])
            && h[1] == Value(b[8..12])
            && h[2] == Value(b[16..24])
            && h[3] == Value(b[24..32])
            && h[4] == Value(b[32..36])
            && h[5] == Value(b[40..48])
            && h[6] == Value(b[48..52])
            && h[7] == Value(b[52..56])
            && h[8] == Value(b[56..64])
            && h[9] == Value(b[64..72])
            && h[10] == Value(b[72..76])
    ensures DeclaredSize(b) == Value(b[8..12])
  {
    Layouts();
    FirstPlaces();
    MiddlePlaces();
    LaterPlaces();
    LastPlaces();
    hide *;
    ReadAt(b, 0, 0, 8);
    ReadAt(b, 1, 8, 12);
    ReadAt(b, 2, 16, 24);
    ReadAt(b, 3, 24, 32);
    ReadAt(b, 4, 32, 36);
    ReadAt(b, 5, 40, 48);
    ReadAt(b, 6, 48, 52);
    ReadAt(b, 7, 52, 56);
    ReadAt(b, 8, 56, 64);
    ReadAt(b, 9, 64, 72);
    ReadAt(b, 10, 72, 76);
    DeclaredIs(b);
  }

  lemma ReadAt(b: seq<byte>, rank: nat, at: nat, end: nat)
    requires HEADER_SIZE <= |b| && Lies(HEADER, rank, at, end)
    ensures rank < 11 && at <= end <= 80 && HeaderAt(b)[rank] == Value(b[at..end])
  {
    var l := HEADER;
    HeaderIs(b, l);
    hide *;
    NumberAt(b, l, rank, at, end);
  }

  lemma HeaderIs(b: seq<byte>, l: Struct)
    requires HEADER_SIZE <= |b| && l == HEADER
    ensures Width(l) == 80 && Numbers(l) == 11 && HeaderAt(b) == Unpack(l, b)
  {
    hide Unpack, Width, Numbers;
    Layouts();
  }

  lemma NumberAt(b: seq<byte>, l: Struct, rank: nat, at: nat, end: nat)
    requires Width(l) <= |b| && Lies(l, rank, at, end)
    ensures rank < Numbers(l) && at <= end <= Width(l) && Unpack(l, b)[rank] == Value(b[at..end])
  {
    UnpackAt(l, b, rank, at, end);
  }

  lemma DeclaredIs(b: seq<byte>)
    requires HEADER_SIZE <= |b|
    ensures DeclaredSize(b) == HeaderAt(b)[1]
  {
  }

  /** And those behind it: nameType, msgId and msgLen. */
  lemma BodyRead(b: seq<byte>)
    requires META_SIZE <= |b|
    ensures var r := BodyAt(b);
            r[0] == Value(b[80..82]) && r[1] == Value(b[88..96]) && r[2] == Value(b[96..100])
  {
    hide *;
    var l := BODY;
    BodyPlaces();
    BodyIs(b, l);
    ReadBehind(b, l, 0, 0, 2);
    ReadBehind(b, l, 1, 8, 16);
    ReadBehind(b, l, 2, 16, 20);
  }

  lemma ReadBehind(b: seq<byte>, l: Struct, rank: nat, at: nat, end: nat)
    requires 104 <= |b| && Width(l) == 24 && Lies(l, rank, at, end)
    ensures rank < Numbers(l) && at <= end <= 24 && Unpack(l, b[80..])[rank] == Value(b[80 + at..80 + end])
  {
    hide *;
    NumberAt(b[80..], l, rank, at, end);
    Behind(b, 80, 80 + at, 80 + end);
  }

  lemma BodyIs(b: seq<byte>, l: Struct)
    requires META_SIZE <= |b| && l == BODY
    ensures 104 <= |b| && Width(l) == 24 && Numbers(l) == 3
    ensures BodyAt(b) == Unpack(l, b[80..])
  {
    BodyWidth(l);
    hide Unpack, Width, Numbers, BODY;
  }

  lemma BodyWidth(l: Struct)
    requires l == BODY
    ensures Width(l) == 24 && Numbers(l) == 3
  {
  }

  /** A frame reads back as the message it was made from, whatever follows it and whatever its padding holds. */
  lemma FrameParses(m: Msg, junk: seq<byte>, tail: seq<byte>)
    requires |junk| == 22 && Sendable(m)
    ensures Parse(Frame(m, junk) + tail) == m
    ensures DeclaredSize(Frame(m, junk) + tail) == SizeOfStruct(m)
  {
    FrameUnpacks(m, junk, tail);
    var b := Frame(m, junk) + tail;
    assert HeaderAt(b) == HeaderValues(m) && BodyAt(b) == BodyValues(m);
    assert (m.text + ([0] + tail))[..|m.text|] == m.text;
  }

  lemma FrameUnpacks(m: Msg, junk: seq<byte>, tail: seq<byte>)
    requires |junk| == 22 && Sendable(m)
    ensures var b := Frame(m, junk) + tail; Width(HEADER) == HEADER_SIZE && Width(BODY) <= |b| - HEADER_SIZE
    ensures var b := Frame(m, junk) + tail;
            && Unpack(HEADER, b) == HeaderValues(m)
            && Unpack(BODY, b[HEADER_SIZE..]) == BodyValues(m)
            && b[META_SIZE..] == m.text + ([0] + tail)
  {
    Layouts();
    hide Pack, Unpack, Width, Numbers, Padding, HeaderValues, BodyValues, Fits;
    var b := Frame(m, junk) + tail;
    var head, body := Pack(HEADER, HeaderValues(m), junk[..12]), Pack(BODY, BodyValues(m), junk[12..]);
    var rest := m.text + [0] + tail;
    assert b == head + (body + rest);
    UnpackPack(HEADER, HeaderValues(m), junk[..12], body + rest);
    UnpackPack(BODY, BodyValues(m), junk[12..], rest);
    assert b[HEADER_SIZE..] == body + rest;
    assert rest == m.text + ([0] + tail);
  }

  /** Where the sender puts the header's fields. */
  lemma HeaderSent(m: Msg, junk: seq<byte>)
    requires |junk| == 22 && Sendable(m)
    ensures var b := Frame(m, junk);
            && |b| == 105 + |m.text|
            && Value(b[0..8]) == m.valid
            && Value(b[8..12]) == |b|
            && Value(b[16..24]) == m.timestamp
            && Value(b[24..32]) == m.msgCategory
            && Value(b[32..36]) == m.logLevel
            && Value(b[40..48]) == m.hostId
            && Value(b[48..52]) == m.pid
            && Value(b[52..56]) == m.threadId
            && Value(b[56..64]) == m.moduleId
            && Value(b[64..72]) == m.fileNameId
            && Value(b[72..76]) == m.codeLine
  {
    hide *;
    FrameValues(m, junk);
    HeaderRead(Frame(m, junk));
  }

  /** And those behind it, and then the text with its NUL. */
  lemma BodySent(m: Msg, junk: seq<byte>)
    requires |junk| == 22 && Sendable(m)
    ensures var b := Frame(m, junk);
            && |b| == 105 + |m.text|
            && Value(b[80..82]) == m.nameType
            && Value(b[88..96]) == m.msgId
            && Value(b[96..100]) == |m.text|
            && b[104..] == m.text + [0]
  {
    hide *;
    FrameValues(m, junk);
    FrameText(m, junk);
    BodyRead(Frame(m, junk));
  }

  lemma FrameValues(m: Msg, junk: seq<byte>)
    requires |junk| == 22 && Sendable(m)
    ensures var b := Frame(m, junk);
            && |b| == 105 + |m.text| && HEADER_SIZE <= META_SIZE <= |b|
            && HeaderAt(b) == [m.valid, |b|, m.timestamp, m.msgCategory, m.logLevel, m.hostId, m.pid, m.threadId,
                               m.moduleId, m.fileNameId, m.codeLine]
            && BodyAt(b) == [m.nameType, m.msgId, |m.text|]
  {
    FrameUnpacks(m, junk, []);
    assert Frame(m, junk) + [] == Frame(m, junk);
    hide Unpack, Width, Numbers, Meta, Fits, HEADER, BODY;
  }

  lemma FrameText(m: Msg, junk: seq<byte>)
    requires |junk| == 22
    ensures |Frame(m, junk)| == 105 + |m.text| && Frame(m, junk)[104..] == m.text + [0]
  {
    hide Meta;
  }

  // ---------------------------------------------------------------------------
  // Sending
  // ---------------------------------------------------------------------------

  /** AnyTracingMsgRegistration_trace: two writes, the second made whether or not the first succeeded. */
  method Trace(ch: Channel, m: Msg, junk: seq<byte>) returns (complete: bool)
    requires |junk| == 22
    modifies ch`sent, ch`writePlan
    ensures var (o1, n1, rest1) := Sending(old(ch.writePlan), META_SIZE);
            var (o2, n2, rest2) := Sending(rest1, |m.text| + 1);
            && complete == (o1.Done? && o2.Done?) && ch.writePlan == rest2
            && ch.sent == old(ch.sent) + Meta(m, junk)[..n1] + (m.text + [0])[..n2]
    ensures complete ==> ch.sent == old(ch.sent) + Frame(m, junk)
  {
    var metaOutcome := Write(ch, Meta(m, junk));
    var textOutcome := Write(ch, m.text + [0]);
    complete := metaOutcome.Done? && textOutcome.Done?;
    if complete {
      Regroup(old(ch.sent), Meta(m, junk), m.text + [0]);
    }
  }

  lemma Regroup(a: seq<byte>, b: seq<byte>, c: seq<byte>)
    ensures a + b[..|b|] + c[..|c|] == a + (b + c)
  {
  }

  /** What a list of messages looks like on the wire. */
  function Stream(ms: seq<Msg>, junks: seq<seq<byte>>): seq<byte>
    requires |ms| == |junks| && forall i | 0 <= i < |junks| :: |junks[i]| == 22
  {
    if ms == [] then [] else Frame(ms[0], junks[0]) + Stream(ms[1..], junks[1..])
  }

  /** The channel takes at least one byte in each of at least `size` rounds, and never fails. */
  predicate Accepts(plan: seq<WriteEvent>, size: nat)
    decreases |plan|
  {
    if plan == [] then size == 0
    else
      && plan[0].Took? && !plan[0].error
      && Accepts(plan[1..], if plan[0].n > 0 && size > 0 then size - 1 else size)
  }

  lemma {:induction false} AcceptsLess(plan: seq<WriteEvent>, size: nat, less: nat)
    requires Accepts(plan, size) && less <= size
    ensures Accepts(plan, less)
    decreases |plan|
  {
    if plan != [] {
      var step := (n: nat) => if plan[0].n > 0 && n > 0 then n - 1 else n;
      AcceptsLess(plan[1..], step(size), step(less));
    }
  }

  /** However such a channel splits the writes, each goes through completely. */
  lemma {:induction false} AcceptedSending(plan: seq<WriteEvent>, size: nat, total: nat)
    requires 0 < size <= total && Accepts(plan, total)
    ensures var (o, n, rest) := Sending(plan, size); o.Done? && n == size && Accepts(rest, total - size)
    decreases |plan|
  {
    var n := Min(plan[0].n, size);
    var total' := if plan[0].n > 0 then total - 1 else total;
    AcceptsLess(plan[1..], total', total - n);
    if n < size {
      AcceptedSending(plan[1..], size - n, total - n);
    }
  }

  lemma FrameAccepted(plan: seq<WriteEvent>, text: nat, total: nat)
    requires 0 < text && META_SIZE + text <= total && Accepts(plan, total)
    ensures var (o1, _, rest1) := Sending(plan, META_SIZE);
            var (o2, _, rest2) := Sending(rest1, text);
            o1.Done? && o2.Done? && Accepts(rest2, total - META_SIZE - text)
  {
    AcceptedSending(plan, META_SIZE, total);
    AcceptedSending(Sending(plan, META_SIZE).2, text, total - META_SIZE);
  }

  lemma StreamAt(ms: seq<Msg>, junks: seq<seq<byte>>, i: nat)
    requires |ms| == |junks| && (forall j | 0 <= j < |junks| :: |junks[j]| == 22) && i < |ms|
    ensures Stream(ms[i..], junks[i..]) == Frame(ms[i], junks[i]) + Stream(ms[i + 1..], junks[i + 1..])
  {
    assert ms[i..][1..] == ms[i + 1..] && junks[i..][1..] == junks[i + 1..];
  }

  /** Tracing one message after the other. */
  method TraceAll(ch: Channel, ms: seq<Msg>, junks: seq<seq<byte>>) returns (complete: bool)
    requires |ms| == |junks| && forall i | 0 <= i < |junks| :: |junks[i]| == 22
    modifies ch`sent, ch`writePlan
    ensures complete ==> ch.sent == old(ch.sent) + Stream(ms, junks)
    ensures Accepts(old(ch.writePlan), |Stream(ms, junks)|) ==> complete
  {
    hide Accepts, Sending, Meta, Stream, Frame, SizeOfStruct;
    complete := true;
    var i := 0;
    ghost var accepts := Accepts(ch.writePlan, |Stream(ms, junks)|);
    assert ms[0..] == ms && junks[0..] == junks;
    while i < |ms|
      invariant 0 <= i <= |ms|
      invariant complete ==> ch.sent + Stream(ms[i..], junks[i..]) == old(ch.sent) + Stream(ms, junks)
      invariant accepts ==> complete && Accepts(ch.writePlan, |Stream(ms[i..], junks[i..])|)
    {
      ghost var rest := Stream(ms[i + 1..], junks[i + 1..]);
      ghost var frame := Frame(ms[i], junks[i]);
      StreamAt(ms, junks, i);
      Associate(ch.sent, frame, rest);
      if accepts {
        FrameAccepted(ch.writePlan, |ms[i].text| + 1, |frame + rest|);
      }
      var traced := Trace(ch, ms[i], junks[i]);
      complete := complete && traced;
      i := i + 1;
    }
    assert Stream(ms[|ms|..], junks[|ms|..]) == [] by { StreamNone(); }
  }

  lemma StreamNone()
    ensures Stream([], []) == []
  {
  }

  // ---------------------------------------------------------------------------
  // Receiving
  // ---------------------------------------------------------------------------

  /** What readMsg comes back with: a message of so many bytes, no message, a wait that the plan does not
      end, or a declared size that leaves nothing to read or does not fit the buffer, which readMsg does not
      check. */
  datatype Reading = Message(size: nat) | NoMessage | Waiting | Unusable

  function Ended(o: Outcome): Reading {
    if o.Failed? then NoMessage else Waiting
  }

  /** readMsg on a plan and the bytes that are coming: its result, how many bytes it takes, the plan left. */
  function Fetching(plan: seq<ReadEvent>, incoming: seq<byte>, capacity: nat): (r: (Reading, nat, seq<ReadEvent>))
    ensures r.1 <= |incoming|
    ensures r.0.Message? ==> r.0.size == r.1 && HEADER_SIZE < r.1 <= capacity && |r.2| < |plan|
  {
    var (o, n, rest) := Receiving(plan, HEADER_SIZE, |incoming|);
    if !o.Done? then (Ended(o), n, rest)
    else
      var size := DeclaredSize(incoming);
      if !(HEADER_SIZE < size <= capacity) then (Unusable, HEADER_SIZE, rest)
      else
        var (o', n', rest') := Receiving(rest, size - HEADER_SIZE, |incoming| - HEADER_SIZE);
        (if o'.Done? then Message(size) else Ended(o'), HEADER_SIZE + n', rest')
  }

  /** A failure, and a flag that comes with the header, leave no message, even if the header is complete. */
  lemma BrokenReading(plan: seq<ReadEvent>, incoming: seq<byte>, capacity: nat)
    ensures plan == [] ==> Fetching(plan, incoming, capacity).0 == Waiting
    ensures plan != [] && (plan[0].ReadFailed? || (plan[0].Gave? && (plan[0].eof || plan[0].error))) ==>
              Fetching(plan, incoming, capacity).0 == NoMessage
  {
    hide DeclaredSize;
  }

  lemma FilledPrefix(before: seq<byte>, middle: seq<byte>, after: seq<byte>, m: nat, n: nat, all: seq<byte>)
    requires m + n <= |all|
    requires Filled(before, middle, 0, all[..m]) && Filled(middle, after, m, all[m..][..n])
    ensures after[..m + n] == all[..m + n]
  {
    FilledOn(before, middle, after, 0, all, m, n);
    assert forall i | 0 <= i < m + n :: after[i] == all[..m + n][i - 0];
  }

  lemma HeaderKept(before: seq<byte>, now: seq<byte>, all: seq<byte>)
    requires HEADER_SIZE <= |all| && Filled(before, now, 0, all[..HEADER_SIZE])
    ensures now[..HEADER_SIZE] == all[..HEADER_SIZE] && HeaderAt(now) == HeaderAt(all)
  {
    assert forall i | 0 <= i < HEADER_SIZE :: now[i] == all[..HEADER_SIZE][i - 0];
    HeaderLooksAhead(now, all);
  }

  lemma {:induction false} UnpackLooksAhead(l: Struct, a: seq<byte>, b: seq<byte>)
    requires Width(l) <= |a| && Width(l) <= |b| && a[..Width(l)] == b[..Width(l)]
    ensures Unpack(l, a) == Unpack(l, b)
  {
    if !l.End? {
      var w, n := l.width, Width(l);
      assert a[..w] == a[..n][..w] && b[..w] == b[..n][..w];
      assert a[w..][..n - w] == a[..n][w..] && b[w..][..n - w] == b[..n][w..];
      UnpackLooksAhead(l.rest, a[w..], b[w..]);
    }
  }

  lemma HeaderLooksAhead(a: seq<byte>, b: seq<byte>)
    requires HEADER_SIZE <= |a| && HEADER_SIZE <= |b| && a[..HEADER_SIZE] == b[..HEADER_SIZE]
    ensures HeaderAt(a) == HeaderAt(b)
  {
    hide HEADER, Width, Numbers, Unpack;
    Layouts();
    UnpackLooksAhead(HEADER, a, b);
  }

  /** AnyTracing_readMsg: the header first, then as much as it says. */
  method ReadMsg(ch: Channel, buf: array<byte>) returns (r: Reading)
    requires HEADER_SIZE < buf.Length
    modifies ch`incoming, ch`readPlan, buf
    ensures var (f, n, rest) := Fetching(old(ch.readPlan), old(ch.incoming), buf.Length);
            r == f && ch.readPlan == rest && ch.incoming == old(ch.incoming)[n..]
    ensures r.Message? ==> r.size <= buf.Length && buf[..r.size] == old(ch.incoming)[..r.size]
  {
    hide Receiving, Filled, HeaderAt;
    ghost var all, before := ch.incoming, buf[..];
    var outcome := Read(ch, buf, 0, HEADER_SIZE);
    if !outcome.Done? {
      return Ended(outcome);
    }
    ghost var middle := buf[..];
    HeaderKept(before, middle, all);
    var size := DeclaredSize(buf[..]);
    if !(HEADER_SIZE < size <= buf.Length) {
      return Unusable;
    }
    outcome := Read(ch, buf, HEADER_SIZE, size - HEADER_SIZE);
    if !outcome.Done? {
      return Ended(outcome);
    }
    FilledPrefix(before, middle, buf[..], HEADER_SIZE, size - HEADER_SIZE, all);
    return Message(size);
  }

  /** A plan that never fails, and hands over at least one byte in each of at least `size` rounds. */
  predicate Delivers(plan: seq<ReadEvent>, size: nat)
    decreases |plan|
  {
    if plan == [] then size == 0
    else
      match plan[0]
      case ReadFailed => false
      case NoData => Delivers(plan[1..], size)
      case Gave(n, eof, error) =>
        !eof && !error && Delivers(plan[1..], if n > 0 && size > 0 then size - 1 else size)
  }

  lemma {:induction false} DeliversLess(plan: seq<ReadEvent>, size: nat, less: nat)
    requires Delivers(plan, size) && less <= size
    ensures Delivers(plan, less)
    decreases |plan|
  {
    if plan != [] {
      var step := (n: nat) => if plan[0].Gave? && plan[0].n > 0 && n > 0 then n - 1 else n;
      DeliversLess(plan[1..], step(size), step(less));
    }
  }

  /** However the channel splits what it has, a request it can meet is met completely. */
  lemma {:induction false} DeliveredReceiving(plan: seq<ReadEvent>, size: nat, available: nat, total: nat)
    requires 0 < size <= available && size <= total && Delivers(plan, total)
    ensures var (o, n, rest) := Receiving(plan, size, available); o.Done? && n == size && Delivers(rest, total - size)
    decreases |plan|
  {
    if plan[0].NoData? {
      DeliveredReceiving(plan[1..], size, available, total);
    } else {
      var n := Min(plan[0].n, size);
      DeliversLess(plan[1..], if plan[0].n > 0 then total - 1 else total, total - n);
      if n < size {
        DeliveredReceiving(plan[1..], size - n, available - n, total - n);
      }
    }
  }

  /** The size declared by the start of a frame, once its header is there. */
  lemma DeclaredEarly(m: Msg, junk: seq<byte>, tail: seq<byte>, incoming: seq<byte>)
    requires |junk| == 22 && Sendable(m) && HEADER_SIZE <= |incoming| && incoming <= Frame(m, junk) + tail
    ensures DeclaredSize(incoming) == |Frame(m, junk)|
  {
    hide Frame, HEADER, HeaderAt;
    FrameParses(m, junk, tail);
    HeaderLooksAhead(incoming, Frame(m, junk) + tail);
  }

  /** One readMsg on bytes that start a frame, complete or not: if it returns a message, that is the frame,
      whole. */
  lemma FetchedFrame(plan: seq<ReadEvent>, m: Msg, junk: seq<byte>, tail: seq<byte>, incoming: seq<byte>, capacity: nat)
    requires |junk| == 22 && Sendable(m) && incoming <= Frame(m, junk) + tail
    ensures var (r, n, _) := Fetching(plan, incoming, capacity); var frame := Frame(m, junk);
            r.Message? ==> n == |frame| <= |incoming| && incoming[..n] == frame && incoming[n..] <= tail
  {
    hide Receiving, DeclaredSize, Frame, Sendable;
    var (r, n, _) := Fetching(plan, incoming, capacity);
    if r.Message? {
      DeclaredEarly(m, junk, tail, incoming);
      PrefixSplit(incoming, Frame(m, junk), tail);
    }
  }

  /** A well-behaved channel makes readMsg return a message that is there and fits. */
  lemma FrameFetched(plan: seq<ReadEvent>, m: Msg, junk: seq<byte>, tail: seq<byte>, capacity: nat)
    requires |junk| == 22 && Sendable(m) && |Frame(m, junk)| <= capacity
    requires Delivers(plan, |Frame(m, junk) + tail|)
    ensures var (r, _, rest) := Fetching(plan, Frame(m, junk) + tail, capacity);
            r.Message? && Delivers(rest, |tail|)
  {
    hide Receiving, Delivers, DeclaredSize, Frame, Sendable;
    var frame := Frame(m, junk);
    var all := |frame + tail|;
    DeclaredEarly(m, junk, tail, frame + tail);
    DeliveredReceiving(plan, HEADER_SIZE, all, all);
    var rest := Receiving(plan, HEADER_SIZE, all).2;
    DeliveredReceiving(rest, |frame| - HEADER_SIZE, all - HEADER_SIZE, all - HEADER_SIZE);
  }

  lemma PrefixSplit(s: seq<byte>, a: seq<byte>, b: seq<byte>)
    requires s <= a + b && |a| <= |s|
    ensures s[..|a|] == a && s[|a|..] <= b
  {
    assert s == (a + b)[..|s|];
  }

  /** Reading messages until there is none: what the buffer held each time. */
  function Draining(plan: seq<ReadEvent>, incoming: seq<byte>, capacity: nat): seq<seq<byte>>
    decreases |plan|
  {
    var (r, n, rest) := Fetching(plan, incoming, capacity);
    if r.Message? then [incoming[..n]] + Draining(rest, incoming[n..], capacity) else []
  }

  method Drain(ch: Channel, buf: array<byte>) returns (got: seq<seq<byte>>)
    requires HEADER_SIZE < buf.Length
    modifies ch`incoming, ch`readPlan, buf
    ensures got == Draining(old(ch.readPlan), old(ch.incoming), buf.Length)
  {
    hide Fetching;
    got := [];
    var going := true;
    while going
      invariant got + (if going then Draining(ch.readPlan, ch.incoming, buf.Length) else [])
             == Draining(old(ch.readPlan), old(ch.incoming), buf.Length)
      decreases going, |ch.readPlan|
    {
      ghost var rest := Draining(ch.readPlan, ch.incoming, buf.Length);
      var r := ReadMsg(ch, buf);
      if r.Message? {
        Associate(got, [buf[..r.size]], Draining(ch.readPlan, ch.incoming, buf.Length));
        got := got + [buf[..r.size]];
      } else {
        going := false;
      }
    }
  }

  /** How many of the messages are whole in the first n bytes of their stream. */
  function Whole(ms: seq<Msg>, n: nat): (k: nat)
    ensures k <= |ms|
  {
    if ms == [] || n < SizeOfStruct(ms[0]) then 0 else 1 + Whole(ms[1..], n - SizeOfStruct(ms[0]))
  }

  lemma {:induction false} WholeStream(ms: seq<Msg>, junks: seq<seq<byte>>)
    requires |ms| == |junks| && (forall i | 0 <= i < |junks| :: |junks[i]| == 22)
    ensures Whole(ms, |Stream(ms, junks)|) == |ms|
  {
    if ms != [] {
      hide Frame;
      WholeStream(ms[1..], junks[1..]);
    }
  }

  /** From what the sender put on the wire, or any beginning of it, nothing is received but the frames that
      are whole there, in order; and all of those over a channel that hands over what it has. */
  lemma {:induction false} DrainStream(
      plan: seq<ReadEvent>, ms: seq<Msg>, junks: seq<seq<byte>>, incoming: seq<byte>, capacity: nat)
    requires |ms| == |junks| && (forall i | 0 <= i < |junks| :: |junks[i]| == 22)
    requires (forall i | 0 <= i < |ms| :: Sendable(ms[i]) && SizeOfStruct(ms[i]) <= capacity)
    requires incoming <= Stream(ms, junks)
    ensures var got := Draining(plan, incoming, capacity);
            && |got| <= Whole(ms, |incoming|)
            && (forall i | 0 <= i < |got| :: got[i] == Frame(ms[i], junks[i]))
            && (Delivers(plan, |incoming|) ==> |got| == Whole(ms, |incoming|))
    decreases |ms|
  {
    hide Fetching, Delivers, Frame, Sendable;
    if ms == [] {
      NothingToFetch(plan, capacity);
    } else {
      var frame, rest := Frame(ms[0], junks[0]), Stream(ms[1..], junks[1..]);
      FetchedFrame(plan, ms[0], junks[0], rest, incoming, capacity);
      if |frame| <= |incoming| && Delivers(plan, |incoming|) {
        PrefixSplit(incoming, frame, rest);
        assert incoming == frame + incoming[|frame|..];
        FrameFetched(plan, ms[0], junks[0], incoming[|frame|..], capacity);
      }
      var (r, n, plan') := Fetching(plan, incoming, capacity);
      if r.Message? {
        DrainStream(plan', ms[1..], junks[1..], incoming[n..], capacity);
      }
    }
  }

  lemma NothingToFetch(plan: seq<ReadEvent>, capacity: nat)
    ensures !Fetching(plan, [], capacity).0.Message?
  {
  }

  /** Both ends: messages traced into a stream, and made again from the frames that are read from it. */
  method Relay(ch: Channel, ms: seq<Msg>, junks: seq<seq<byte>>, buf: array<byte>)
      returns (complete: bool, got: seq<Msg>)
    requires |ms| == |junks| && (forall i | 0 <= i < |junks| :: |junks[i]| == 22) && ch.sent == []
    requires HEADER_SIZE < buf.Length && forall i | 0 <= i < |ms| :: Sendable(ms[i]) && SizeOfStruct(ms[i]) <= buf.Length
    modifies ch, buf
    ensures Accepts(old(ch.writePlan), |Stream(ms, junks)|) ==> complete
    ensures complete ==> got <= ms
    ensures complete && Delivers(old(ch.readPlan), |Stream(ms, junks)|) ==> got == ms
  {
    hide Accepts, Delivers, Sendable, Draining, Stream, Whole, Frame, Parse;
    got := [];
    complete := TraceAll(ch, ms, junks);
    if complete {
      assert ch.sent == Stream(ms, junks);
      ch.incoming := ch.sent;
      DrainStream(ch.readPlan, ms, junks, ch.incoming, buf.Length);
      WholeStream(ms, junks);
      var frames := Drain(ch, buf);
      for i := 0 to |frames|
        invariant got == ms[..i]
      {
        FrameParses(ms[i], junks[i], []);
        assert Frame(ms[i], junks[i]) + [] == frames[i];
        got := got + [Parse(frames[i])];
      }
    }
  }
}
