/** The value-level meaning of src/HashTable.c: what each operation does to the bucket array, and the
    flat association list that the bucket array stands for.

    Two readings of the table live side by side. `Table` is the bucket array as the code arranges it.
    `Assoc` is a plain list of items searched from the front. `RunRefines` says that no caller can
    tell them apart, over any sequence of calls. */
module ChainedTable {
  import opened CTypes
  import opened Wrappers
  import opened Sequences

  /** A table length. */
  type length32 = x: int | 0 < x < 0x1_0000_0000 witness 1

  const PRIMES: seq<length32> := [
    53, 97, 193, 389,
    769, 1543, 3079, 6151,
    12289, 24593, 49157, 98317,
    196613, 393241, 786433, 1572869,
    3145739, 6291469, 12582917, 25165843,
    50331653, 100663319, 201326611, 402653189,
    805306457, 1610612741]

  const DEFAULT_LOAD_FACTOR: uint32 := 65

  /** One stored association, with the hash that was cached when it was inserted. */
  datatype Item<K, V> = Item(key: K, value: V, hash: uint32)

  /** What the owner of a table supplies. `valueDtor` says whether a value destructor was registered. */
  datatype Funcs<!K> = Funcs(hash: K -> uint32, eq: (K, K) -> bool, valueDtor: bool)

  /** The bookkeeping fields that decide when the table grows. */
  datatype Control = Control(entryCount: uint32, loadLimit: uint32, loadFactor: uint32, primeIndex: nat)

  datatype Table<K, V> = Table(buckets: seq<seq<Item<K, V>>>, ctl: Control)

  datatype Assoc<K, V> = Assoc(items: seq<Item<K, V>>, ctl: Control)

  // ---------------------------------------------------------------------------
  // Association lists
  // ---------------------------------------------------------------------------

  /** The test the chain loops make: cheap hash comparison first, then the key comparison. */
  predicate Hit<K, V>(f: Funcs<K>, k: K, it: Item<K, V>) {
    f.hash(k) == it.hash && f.eq(k, it.key)
  }

  function Lookup<K, V>(f: Funcs<K>, k: K, c: seq<Item<K, V>>): Option<V> {
    if c == [] then None
    else if Hit(f, k, c[0]) then Some(c[0].value)
    else Lookup(f, k, c[1..])
  }

  function Delete<K, V>(f: Funcs<K>, k: K, c: seq<Item<K, V>>): seq<Item<K, V>> {
    if c == [] then []
    else if Hit(f, k, c[0]) then c[1..]
    else [c[0]] + Delete(f, k, c[1..])
  }

  function Update<K, V>(f: Funcs<K>, k: K, v: V, c: seq<Item<K, V>>): seq<Item<K, V>> {
    if c == [] then []
    else if Hit(f, k, c[0]) then [c[0].(value := v)] + c[1..]
    else [c[0]] + Update(f, k, v, c[1..])
  }

  function Reverse<T>(s: seq<T>): seq<T> {
    if s == [] then [] else Reverse(s[1..]) + [s[0]]
  }

  function Flatten<T>(ss: seq<seq<T>>): seq<T> {
    if ss == [] then [] else ss[0] + Flatten(ss[1..])
  }

  /** The items carrying the full hash h, in order. */
  function OnHash<K, V>(c: seq<Item<K, V>>, h: uint32): seq<Item<K, V>> {
    if c == [] then []
    else if c[0].hash == h then [c[0]] + OnHash(c[1..], h)
    else OnHash(c[1..], h)
  }

  /** The items that an n-bucket table keeps in bucket b, in order. */
  function InBucket<K, V>(c: seq<Item<K, V>>, n: nat, b: nat): seq<Item<K, V>>
    requires 0 < n
  {
    if c == [] then []
    else if c[0].hash % n == b then [c[0]] + InBucket(c[1..], n, b)
    else InBucket(c[1..], n, b)
  }

  /** s with the element at position j taken out. */
  function Without<T>(s: seq<T>, j: nat): (r: seq<T>)
    requires j < |s|
    ensures |r| == |s| - 1
    ensures forall i | 0 <= i < |r| :: r[i] == if i < j then s[i] else s[i + 1]
  {
    s[..j] + s[j + 1..]
  }

  lemma WithoutTail<T>(s: seq<T>, j: nat)
    requires 0 < j
    ensures j < |s| ==> Without(s, j) == [s[0]] + Without(s[1..], j - 1)
  {
  }

  /** j is the place of the first item that was stored under the key's hash and whose key equals it, or the
      end if there is none. */
  ghost predicate FirstHit<K, V>(f: Funcs<K>, k: K, c: seq<Item<K, V>>, j: nat) {
    && j <= |c|
    && (forall i | 0 <= i < j :: !(f.hash(k) == c[i].hash && f.eq(k, c[i].key)))
    && (j < |c| ==> f.hash(k) == c[j].hash && f.eq(k, c[j].key))
  }

  lemma {:induction false} SomeFirstHit<K, V>(f: Funcs<K>, k: K, c: seq<Item<K, V>>) returns (j: nat)
    ensures FirstHit(f, k, c, j)
  {
    if c == [] || (f.hash(k) == c[0].hash && f.eq(k, c[0].key)) {
      return 0;
    }
    j := SomeFirstHit(f, k, c[1..]);
    j := j + 1;
    assert forall i | 0 < i < j :: c[i] == c[1..][i - 1];
  }

  /** Looking up gives the value of the first match, and nothing just when there is none. */
  lemma {:induction false} LookupAtHit<K, V>(f: Funcs<K>, k: K, c: seq<Item<K, V>>, j: nat)
    requires FirstHit(f, k, c, j)
    ensures Lookup(f, k, c) == if j < |c| then Some(c[j].value) else None
  {
    if 0 < j {
      LookupAtHit(f, k, c[1..], j - 1);
    }
  }

  /** The same with nothing between it and the hash and equality functions. */
  lemma {:induction false} LookupMeans<K, V>(f: Funcs<K>, k: K, c: seq<Item<K, V>>)
    ensures Lookup(f, k, c) == None <==> forall i | 0 <= i < |c| :: !(f.hash(k) == c[i].hash && f.eq(k, c[i].key))
    ensures Lookup(f, k, c).Some? ==>
              exists j: nat | j < |c| ::
                && f.hash(k) == c[j].hash && f.eq(k, c[j].key) && Lookup(f, k, c) == Some(c[j].value)
                && forall i | 0 <= i < j :: !(f.hash(k) == c[i].hash && f.eq(k, c[i].key))
  {
    var j := SomeFirstHit(f, k, c);
    LookupAtHit(f, k, c, j);
  }

  /** Deleting takes out the first match alone. */
  lemma {:induction false} DeleteAtHit<K, V>(f: Funcs<K>, k: K, c: seq<Item<K, V>>, j: nat)
    requires FirstHit(f, k, c, j)
    ensures Delete(f, k, c) == if j < |c| then Without(c, j) else c
  {
    if 0 < j {
      hide Without;
      DeleteAtHit(f, k, c[1..], j - 1);
      WithoutTail(c, j);
      assert c == [c[0]] + c[1..];
    }
  }

  /** Updating changes the value of the first match alone. */
  lemma {:induction false} UpdateAtHit<K, V>(f: Funcs<K>, k: K, v: V, c: seq<Item<K, V>>, j: nat)
    requires FirstHit(f, k, c, j)
    ensures Update(f, k, v, c) == if j < |c| then c[j := c[j].(value := v)] else c
  {
    if 0 < j {
      UpdateAtHit(f, k, v, c[1..], j - 1);
      assert j < |c| ==> c[j := c[j].(value := v)] == [c[0]] + c[1..][j - 1 := c[j].(value := v)];
      assert c == [c[0]] + c[1..];
    }
  }

  // ---------------------------------------------------------------------------
  // The bucket array
  // ---------------------------------------------------------------------------

  /** Every item of c belongs in bucket b of an n-bucket table. */
  ghost predicate BelongsIn<K, V>(c: seq<Item<K, V>>, n: nat, b: nat)
    requires 0 < n
  {
    forall it | it in c :: it.hash % n == b
  }

  ghost predicate WellPlaced<K, V>(buckets: seq<seq<Item<K, V>>>) {
    forall b | 0 <= b < |buckets| :: BelongsIn(buckets[b], |buckets|, b)
  }

  ghost predicate WellFormed<K, V>(t: Table<K, V>) {
    && t.ctl.primeIndex < |PRIMES|
    && |t.buckets| == PRIMES[t.ctl.primeIndex]
    && WellPlaced(t.buckets)
    && t.ctl.entryCount == |Flatten(t.buckets)| % WORD
  }

  /** Whether an insertion really enlarges the table. */
  predicate Expands(ctl: Control, tableAlloc: bool) {
    (ctl.entryCount + 1) % WORD > ctl.loadLimit && ctl.primeIndex + 1 < |PRIMES| && tableAlloc
  }

  function LoadLimit(size: uint32, loadFactor: uint32): uint32 {
    (size * loadFactor) % WORD / 100
  }

  /** The bookkeeping after an insertion; both readings of the table share it. */
  function Account(ctl: Control, tableAlloc: bool, entryAlloc: bool): Control {
    var count := if entryAlloc then (ctl.entryCount + 1) % WORD else ctl.entryCount;
    if Expands(ctl, tableAlloc) then
      Control(count, LoadLimit(PRIMES[ctl.primeIndex + 1], ctl.loadFactor), ctl.loadFactor, ctl.primeIndex + 1)
    else
      ctl.(entryCount := count)
  }

  function Uncount(ctl: Control, found: bool): Control {
    if found then ctl.(entryCount := (ctl.entryCount - 1) % WORD) else ctl
  }

  /** Bucket b of an n-bucket array holding exactly c, the last item of c in front. */
  function Spread<K, V>(c: seq<Item<K, V>>, n: nat): seq<seq<Item<K, V>>>
    requires 0 < n
  {
    seq(n, b requires 0 <= b < n => Reverse(InBucket(c, n, b)))
  }

  /** Every bucket of the enlarged array, in closed form: the old entries in walking order, reversed. */
  function Rehash<K, V>(buckets: seq<seq<Item<K, V>>>, n: nat): seq<seq<Item<K, V>>>
    requires 0 < n
  {
    Spread(Flatten(buckets), n)
  }

  function Put<K, V>(buckets: seq<seq<Item<K, V>>>, it: Item<K, V>): seq<seq<Item<K, V>>>
    requires 0 < |buckets|
  {
    var b := it.hash % |buckets|;
    buckets[b := [it] + buckets[b]]
  }

  /** The first half of an insertion: the entry is counted, and the table enlarged if that passes the limit. */
  function Reserve<K, V>(t: Table<K, V>, tableAlloc: bool): Table<K, V>
    requires 0 < |t.buckets|
  {
    Table(if Expands(t.ctl, tableAlloc) then Rehash(t.buckets, PRIMES[t.ctl.primeIndex + 1]) else t.buckets,
          Account(t.ctl, tableAlloc, true))
  }

  /** The second half: the entry is linked, or no longer counted. */
  function Place<K, V>(f: Funcs<K>, t: Table<K, V>, k: K, v: V, entryAlloc: bool): Table<K, V>
    requires 0 < |t.buckets|
  {
    if entryAlloc then t.(buckets := Put(t.buckets, Item(k, v, f.hash(k)))) else t.(ctl := Uncount(t.ctl, true))
  }

  function Insert<K, V>(f: Funcs<K>, t: Table<K, V>, k: K, v: V, tableAlloc: bool, entryAlloc: bool): Table<K, V>
    requires 0 < |t.buckets|
  {
    Place(f, Reserve(t, tableAlloc), k, v, entryAlloc)
  }

  function BucketOf<K, V>(f: Funcs<K>, t: Table<K, V>, k: K): (b: nat)
    requires 0 < |t.buckets|
    ensures b < |t.buckets|
  {
    f.hash(k) % |t.buckets|
  }

  /** Unlinking the first match; `fetch` and `remove` differ only in what they hand back. */
  function Unlink<K, V>(f: Funcs<K>, t: Table<K, V>, k: K): Table<K, V>
    requires 0 < |t.buckets|
  {
    var b := BucketOf(f, t, k);
    Table(t.buckets[b := Delete(f, k, t.buckets[b])], Uncount(t.ctl, Lookup(f, k, t.buckets[b]).Some?))
  }

  function Change<K, V>(f: Funcs<K>, t: Table<K, V>, k: K, v: V): Table<K, V>
    requires 0 < |t.buckets|
  {
    var b := BucketOf(f, t, k);
    t.(buckets := t.buckets[b := Update(f, k, v, t.buckets[b])])
  }

  // ---------------------------------------------------------------------------
  // Runs
  // ---------------------------------------------------------------------------

  /** A call on the table. The two flags of Insert are the outcomes of the two allocations. */
  datatype Op<K, V> =
    | OpInsert(key: K, value: V, tableAlloc: bool, entryAlloc: bool)
    | OpSearch(key: K)
    | OpFetch(key: K)
    | OpRemove(key: K)
    | OpChange(key: K, value: V)
    | OpSetLoadFactor(factor: uint32)

  datatype Out<V> = Inserted(ok: bool) | Found(result: Option<V>) | Changed(code: int) | Nothing

  /** What a call hands back, given the list (or bucket) it looks through. */
  function Answer<K, V>(f: Funcs<K>, c: seq<Item<K, V>>, op: Op<K, V>): Out<V> {
    match op
    case OpInsert(_, _, _, entryAlloc) => Inserted(entryAlloc)
    case OpSearch(k) => Found(Lookup(f, k, c))
    case OpFetch(k) => Found(Lookup(f, k, c))
    case OpRemove(k) => Found(if f.valueDtor then None else Lookup(f, k, c))
    case OpChange(k, _) => Changed(if Lookup(f, k, c).Some? then -1 else 0)
    case OpSetLoadFactor(_) => Nothing
  }

  function Step<K, V>(f: Funcs<K>, t: Table<K, V>, op: Op<K, V>): (Table<K, V>, Out<V>)
    requires 0 < |t.buckets|
  {
    match op
    case OpInsert(k, v, ta, ea) => (Insert(f, t, k, v, ta, ea), Answer(f, [], op))
    case OpSearch(k) => (t, Answer(f, t.buckets[BucketOf(f, t, k)], op))
    case OpFetch(k) => (Unlink(f, t, k), Answer(f, t.buckets[BucketOf(f, t, k)], op))
    case OpRemove(k) => (Unlink(f, t, k), Answer(f, t.buckets[BucketOf(f, t, k)], op))
    case OpChange(k, v) => (Change(f, t, k, v), Answer(f, t.buckets[BucketOf(f, t, k)], op))
    case OpSetLoadFactor(n) => (t.(ctl := t.ctl.(loadFactor := n)), Answer(f, [], op))
  }

  /** The same call on the flat list: an enlargement shows up as a reversal of the list. */
  function AssocStep<K, V>(f: Funcs<K>, a: Assoc<K, V>, op: Op<K, V>): (Assoc<K, V>, Out<V>) {
    (match op
     case OpInsert(k, v, ta, ea) =>
       var l := if Expands(a.ctl, ta) then Reverse(a.items) else a.items;
       Assoc(if ea then [Item(k, v, f.hash(k))] + l else l, Account(a.ctl, ta, ea))
     case OpSearch(k) => a
     case OpFetch(k) => Assoc(Delete(f, k, a.items), Uncount(a.ctl, Lookup(f, k, a.items).Some?))
     case OpRemove(k) => Assoc(Delete(f, k, a.items), Uncount(a.ctl, Lookup(f, k, a.items).Some?))
     case OpChange(k, v) => a.(items := Update(f, k, v, a.items))
     case OpSetLoadFactor(n) => a.(ctl := a.ctl.(loadFactor := n)),
     Answer(f, a.items, op))
  }

  function Run<K, V>(f: Funcs<K>, t: Table<K, V>, ops: seq<Op<K, V>>): (r: (Table<K, V>, seq<Out<V>>))
    requires 0 < |t.buckets|
    ensures 0 < |r.0.buckets|
    decreases |ops|
  {
    if ops == [] then (t, [])
    else
      var (t', out) := Step(f, t, ops[0]);
      var (t'', outs) := Run(f, t', ops[1..]);
      (t'', [out] + outs)
  }

  function AssocRun<K, V>(f: Funcs<K>, a: Assoc<K, V>, ops: seq<Op<K, V>>): (Assoc<K, V>, seq<Out<V>>)
    decreases |ops|
  {
    if ops == [] then (a, [])
    else
      var (a', out) := AssocStep(f, a, ops[0]);
      var (a'', outs) := AssocRun(f, a', ops[1..]);
      (a'', [out] + outs)
  }

  /** On every full hash, bucket chain and flat list agree, in order. */
  ghost predicate Agree<K, V>(bs: seq<seq<Item<K, V>>>, l: seq<Item<K, V>>) {
    && 0 < |bs|
    && WellPlaced(bs)
    && forall h: uint32 :: OnHash(bs[h % |bs|], h) == OnHash(l, h)
  }

  /** The link between the two readings. */
  ghost predicate Refines<K, V>(t: Table<K, V>, a: Assoc<K, V>) {
    && t.ctl == a.ctl
    && t.ctl.primeIndex < |PRIMES|
    && |t.buckets| == PRIMES[t.ctl.primeIndex]
    && a.ctl.entryCount == |a.items| % WORD
    && Agree(t.buckets, a.items)
  }

  // ---------------------------------------------------------------------------
  // Lists: how the operations meet the hash filter
  // ---------------------------------------------------------------------------

  lemma {:induction false} OnHashConcat<K, V>(a: seq<Item<K, V>>, b: seq<Item<K, V>>, h: uint32)
    ensures OnHash(a + b, h) == OnHash(a, h) + OnHash(b, h)
  {
    if a == [] {
      assert a + b == b;
    } else {
      OnHashConcat(a[1..], b, h);
      assert (a + b)[1..] == a[1..] + b;
    }
  }

  lemma {:induction false} OnHashReverse<K, V>(c: seq<Item<K, V>>, h: uint32)
    ensures OnHash(Reverse(c), h) == Reverse(OnHash(c, h))
  {
    if c != [] {
      OnHashReverse(c[1..], h);
      OnHashConcat(Reverse(c[1..]), [c[0]], h);
      assert [c[0]][1..] == [];
      if c[0].hash == h {
        assert ([c[0]] + OnHash(c[1..], h))[1..] == OnHash(c[1..], h);
      }
    }
  }

  /** Items of hash h sit in bucket h % n, so filtering by bucket first loses none of them. */
  lemma {:induction false} OnHashInBucket<K, V>(c: seq<Item<K, V>>, n: nat, h: uint32)
    requires 0 < n
    ensures OnHash(InBucket(c, n, h % n), h) == OnHash(c, h)
  {
    if c != [] {
      OnHashInBucket(c[1..], n, h);
      var rest := InBucket(c[1..], n, h % n);
      if c[0].hash % n == h % n {
        assert ([c[0]] + rest)[1..] == rest;
      }
    }
  }

  lemma {:induction false} OnHashNone<K, V>(c: seq<Item<K, V>>, h: uint32)
    requires forall it | it in c :: it.hash != h
    ensures OnHash(c, h) == []
  {
    if c != [] {
      OnHashNone(c[1..], h);
    }
  }

  /** Among well-placed buckets only bucket h % n contributes to hash h. */
  lemma {:induction false} OnHashFlatten<K, V>(bs: seq<seq<Item<K, V>>>, n: nat, first: nat, h: uint32)
    requires 0 < n
    requires forall b | 0 <= b < |bs| :: BelongsIn(bs[b], n, first + b)
    ensures OnHash(Flatten(bs), h) == if first <= h % n < first + |bs| then OnHash(bs[h % n - first], h) else []
  {
    if bs != [] {
      forall b | 0 <= b < |bs[1..]| ensures BelongsIn(bs[1..][b], n, first + 1 + b) {
        assert BelongsIn(bs[b + 1], n, first + (b + 1));
      }
      OnHashFlatten(bs[1..], n, first + 1, h);
      OnHashConcat(bs[0], Flatten(bs[1..]), h);
      if h % n != first {
        assert BelongsIn(bs[0], n, first + 0);
        OnHashNone(bs[0], h);
      }
    }
  }

  lemma {:induction false} LookupOnHash<K, V>(f: Funcs<K>, k: K, c: seq<Item<K, V>>)
    ensures Lookup(f, k, c) == Lookup(f, k, OnHash(c, f.hash(k)))
  {
    if c != [] {
      LookupOnHash(f, k, c[1..]);
      var rest := OnHash(c[1..], f.hash(k));
      assert ([c[0]] + rest)[1..] == rest;
    }
  }

  lemma {:induction false} DeleteOnHash<K, V>(f: Funcs<K>, k: K, c: seq<Item<K, V>>, h: uint32)
    ensures OnHash(Delete(f, k, c), h) == if h == f.hash(k) then Delete(f, k, OnHash(c, h)) else OnHash(c, h)
  {
    if c != [] {
      DeleteOnHash(f, k, c[1..], h);
      var rest := OnHash(c[1..], h);
      assert ([c[0]] + rest)[1..] == rest;
      assert ([c[0]] + Delete(f, k, c[1..]))[1..] == Delete(f, k, c[1..]);
    }
  }

  lemma {:induction false} UpdateOnHash<K, V>(f: Funcs<K>, k: K, v: V, c: seq<Item<K, V>>, h: uint32)
    ensures OnHash(Update(f, k, v, c), h) == if h == f.hash(k) then Update(f, k, v, OnHash(c, h)) else OnHash(c, h)
  {
    if c != [] {
      UpdateOnHash(f, k, v, c[1..], h);
      var rest := OnHash(c[1..], h);
      assert ([c[0]] + rest)[1..] == rest;
      assert ([c[0]] + Update(f, k, v, c[1..]))[1..] == Update(f, k, v, c[1..]);
      assert ([c[0].(value := v)] + c[1..])[1..] == c[1..];
    }
  }

  // ---------------------------------------------------------------------------
  // The same content, whatever the reading
  // ---------------------------------------------------------------------------

  lemma {:induction false} CountOnHash<K, V>(c: seq<Item<K, V>>, it: Item<K, V>)
    ensures multiset(c)[it] == multiset(OnHash(c, it.hash))[it]
  {
    if c != [] {
      CountOnHash(c[1..], it);
      assert c == [c[0]] + c[1..];
    }
  }

  /** Lists that agree on every hash hold the same items, the same number of times. */
  lemma SameOnHashSameItems<K, V>(x: seq<Item<K, V>>, y: seq<Item<K, V>>)
    requires forall h: uint32 :: OnHash(x, h) == OnHash(y, h)
    ensures multiset(x) == multiset(y) && |x| == |y|
  {
    forall it: Item<K, V> ensures multiset(x)[it] == multiset(y)[it] {
      CountOnHash(x, it);
      CountOnHash(y, it);
    }
    assert multiset(x) == multiset(y);
    assert |multiset(x)| == |x| && |multiset(y)| == |y|;
  }

  /** The walk over all buckets meets exactly the items of the flat list. */
  lemma RefinesSameItems<K, V>(t: Table<K, V>, a: Assoc<K, V>)
    requires Refines(t, a)
    ensures multiset(Flatten(t.buckets)) == multiset(a.items)
    ensures WellFormed(t)
  {
    forall h: uint32 ensures OnHash(Flatten(t.buckets), h) == OnHash(a.items, h) {
      OnHashFlatten(t.buckets, |t.buckets|, 0, h);
    }
    SameOnHashSameItems(Flatten(t.buckets), a.items);
  }

  /** Every well-formed table is some list: the one met by walking its buckets. */
  lemma WalkRefines<K, V>(t: Table<K, V>)
    requires WellFormed(t)
    ensures Refines(t, Assoc(Flatten(t.buckets), t.ctl))
  {
    forall h: uint32 ensures OnHash(t.buckets[h % |t.buckets|], h) == OnHash(Flatten(t.buckets), h) {
      OnHashFlatten(t.buckets, |t.buckets|, 0, h);
    }
  }

  // ---------------------------------------------------------------------------
  // Placement and length of what the operations build
  // ---------------------------------------------------------------------------

  lemma {:induction false} DeleteFacts<K, V>(f: Funcs<K>, k: K, c: seq<Item<K, V>>)
    ensures forall it | it in Delete(f, k, c) :: it in c
    ensures |Delete(f, k, c)| == if Lookup(f, k, c).Some? then |c| - 1 else |c|
  {
    if c != [] {
      DeleteFacts(f, k, c[1..]);
    }
  }

  lemma {:induction false} UpdateFacts<K, V>(f: Funcs<K>, k: K, v: V, c: seq<Item<K, V>>, n: nat, b: nat)
    requires 0 < n && BelongsIn(c, n, b)
    ensures BelongsIn(Update(f, k, v, c), n, b)
    ensures |Update(f, k, v, c)| == |c|
  {
    if c != [] {
      UpdateFacts(f, k, v, c[1..], n, b);
      assert c[0] in c;
    }
  }

  lemma {:induction false} ReverseFacts<T>(s: seq<T>)
    ensures |Reverse(s)| == |s|
    ensures forall x | x in Reverse(s) :: x in s
  {
    if s != [] {
      ReverseFacts(s[1..]);
    }
  }

  lemma {:induction false} InBucketPlaced<K, V>(c: seq<Item<K, V>>, n: nat, b: nat)
    requires 0 < n
    ensures BelongsIn(InBucket(c, n, b), n, b)
  {
    if c != [] {
      InBucketPlaced(c[1..], n, b);
    }
  }

  lemma RehashPlaced<K, V>(bs: seq<seq<Item<K, V>>>, n: nat)
    requires 0 < n
    ensures WellPlaced(Rehash(bs, n))
  {
    forall b | 0 <= b < n ensures BelongsIn(Rehash(bs, n)[b], n, b) {
      InBucketPlaced(Flatten(bs), n, b);
      ReverseFacts(InBucket(Flatten(bs), n, b));
    }
  }

  // ---------------------------------------------------------------------------
  // Each change of the bucket array is a change of the flat list
  // ---------------------------------------------------------------------------

  /** Enlarging the bucket array is reversing the flat list. */
  lemma RehashReverses<K, V>(bs: seq<seq<Item<K, V>>>, l: seq<Item<K, V>>, n: nat)
    requires Agree(bs, l) && 0 < n
    ensures Agree(Rehash(bs, n), Reverse(l))
  {
    hide OnHash, Reverse, InBucket, Flatten;
    RehashPlaced(bs, n);
    forall h: uint32 ensures OnHash(Rehash(bs, n)[h % n], h) == OnHash(Reverse(l), h) {
      OnHashReverse(InBucket(Flatten(bs), n, h % n), h);
      OnHashInBucket(Flatten(bs), n, h);
      OnHashFlatten(bs, |bs|, 0, h);
      OnHashReverse(l, h);
    }
  }

  /** Pushing onto a chain is pushing onto the flat list. */
  lemma PutPrepends<K, V>(bs: seq<seq<Item<K, V>>>, l: seq<Item<K, V>>, it: Item<K, V>)
    requires Agree(bs, l)
    ensures Agree(Put(bs, it), [it] + l)
  {
    var b := it.hash % |bs|;
    assert BelongsIn(bs[b], |bs|, b);
    forall h: uint32 ensures OnHash(Put(bs, it)[h % |bs|], h) == OnHash([it] + l, h) {
      OnHashConcat([it], l, h);
      OnHashConcat([it], bs[b], h);
      if h % |bs| != b {
        assert h != it.hash;
        assert OnHash([it], h) == [];
      }
    }
  }

  /** The chain a key hashes to finds the key exactly as the flat list does. */
  lemma LookupAgrees<K, V>(f: Funcs<K>, bs: seq<seq<Item<K, V>>>, l: seq<Item<K, V>>, k: K)
    requires Agree(bs, l)
    ensures Lookup(f, k, bs[f.hash(k) % |bs|]) == Lookup(f, k, l)
  {
    LookupOnHash(f, k, bs[f.hash(k) % |bs|]);
    LookupOnHash(f, k, l);
  }

  lemma DeleteAgrees<K, V>(f: Funcs<K>, bs: seq<seq<Item<K, V>>>, l: seq<Item<K, V>>, k: K, b: nat)
    requires Agree(bs, l) && b == f.hash(k) % |bs|
    ensures Agree(bs[b := Delete(f, k, bs[b])], Delete(f, k, l))
  {
    DeleteFacts(f, k, bs[b]);
    assert BelongsIn(bs[b], |bs|, b);
    forall h: uint32 ensures OnHash(bs[b := Delete(f, k, bs[b])][h % |bs|], h) == OnHash(Delete(f, k, l), h) {
      DeleteOnHash(f, k, bs[b], h);
      DeleteOnHash(f, k, l, h);
    }
  }

  lemma UpdateAgrees<K, V>(f: Funcs<K>, bs: seq<seq<Item<K, V>>>, l: seq<Item<K, V>>, k: K, v: V, b: nat)
    requires Agree(bs, l) && b == f.hash(k) % |bs|
    ensures Agree(bs[b := Update(f, k, v, bs[b])], Update(f, k, v, l))
  {
    assert BelongsIn(bs[b], |bs|, b);
    UpdateFacts(f, k, v, bs[b], |bs|, b);
    forall h: uint32 ensures OnHash(bs[b := Update(f, k, v, bs[b])][h % |bs|], h) == OnHash(Update(f, k, v, l), h) {
      UpdateOnHash(f, k, v, bs[b], h);
      UpdateOnHash(f, k, v, l, h);
    }
  }

  // ---------------------------------------------------------------------------
  // Main results
  // ---------------------------------------------------------------------------

  lemma AccountCounts(ctl: Control, tableAlloc: bool, entryAlloc: bool, count: nat)
    requires ctl.entryCount == count % WORD
    ensures Account(ctl, tableAlloc, entryAlloc).entryCount == (count + if entryAlloc then 1 else 0) % WORD
  {
  }

  /** Taking the advance count back leaves the count as it was, and the growth in place. */
  lemma UndoCount(ctl: Control, tableAlloc: bool)
    ensures Uncount(Account(ctl, tableAlloc, true), true) == Account(ctl, tableAlloc, false)
  {
  }

  lemma ReserveAgrees<K, V>(t: Table<K, V>, a: Assoc<K, V>, tableAlloc: bool)
    requires Agree(t.buckets, a.items) && t.ctl == a.ctl
    ensures Agree(Reserve(t, tableAlloc).buckets, if Expands(a.ctl, tableAlloc) then Reverse(a.items) else a.items)
  {
    if Expands(t.ctl, tableAlloc) {
      RehashReverses(t.buckets, a.items, PRIMES[t.ctl.primeIndex + 1]);
    }
  }

  lemma InsertRefines<K, V>(f: Funcs<K>, t: Table<K, V>, a: Assoc<K, V>, op: Op<K, V>)
    requires Refines(t, a) && op.OpInsert?
    ensures Refines(Step(f, t, op).0, AssocStep(f, a, op).0)
  {
    hide Agree, Reverse, LoadLimit, Flatten, InBucket, PRIMES;
    var l := if Expands(a.ctl, op.tableAlloc) then Reverse(a.items) else a.items;
    ReserveAgrees(t, a, op.tableAlloc);
    if op.entryAlloc {
      PutPrepends(Reserve(t, op.tableAlloc).buckets, l, Item(op.key, op.value, f.hash(op.key)));
    }
    ReverseFacts(a.items);
    AccountCounts(t.ctl, op.tableAlloc, op.entryAlloc, |a.items|);
    UndoCount(t.ctl, op.tableAlloc);
  }

  lemma UncountCounts(ctl: Control, found: bool, count: nat)
    requires ctl.entryCount == count % WORD && (found ==> 0 < count)
    ensures Uncount(ctl, found).entryCount == (count - if found then 1 else 0) % WORD
  {
  }

  lemma UnlinkRefines<K, V>(f: Funcs<K>, t: Table<K, V>, a: Assoc<K, V>, k: K)
    requires Refines(t, a)
    ensures Refines(Unlink(f, t, k), Assoc(Delete(f, k, a.items), Uncount(a.ctl, Lookup(f, k, a.items).Some?)))
  {
    LookupAgrees(f, t.buckets, a.items, k);
    DeleteFacts(f, k, a.items);
    UncountCounts(a.ctl, Lookup(f, k, a.items).Some?, |a.items|);
    DeleteAgrees(f, t.buckets, a.items, k, BucketOf(f, t, k));
  }

  lemma ChangeRefines<K, V>(f: Funcs<K>, t: Table<K, V>, a: Assoc<K, V>, k: K, v: V)
    requires Refines(t, a)
    ensures Refines(Change(f, t, k, v), a.(items := Update(f, k, v, a.items)))
  {
    UpdateFacts(f, k, v, a.items, 1, 0);
    UpdateAgrees(f, t.buckets, a.items, k, v, BucketOf(f, t, k));
  }

  /** One call: the same answer, and the two readings stay linked. */
  lemma StepRefines<K, V>(f: Funcs<K>, t: Table<K, V>, a: Assoc<K, V>, op: Op<K, V>)
    requires Refines(t, a)
    ensures Step(f, t, op).1 == AssocStep(f, a, op).1
    ensures Refines(Step(f, t, op).0, AssocStep(f, a, op).0)
  {
    if op.OpInsert? {
      InsertRefines(f, t, a, op);
    } else if !op.OpSetLoadFactor? {
      LookupAgrees(f, t.buckets, a.items, op.key);
      if op.OpChange? {
        ChangeRefines(f, t, a, op.key, op.value);
      } else {
        UnlinkRefines(f, t, a, op.key);
      }
    }
  }

  /** Every run of the table gives the answers of the flat list, and ends holding the same items. */
  lemma {:induction false} RunRefines<K, V>(f: Funcs<K>, t: Table<K, V>, a: Assoc<K, V>, ops: seq<Op<K, V>>)
    requires Refines(t, a)
    ensures Run(f, t, ops).1 == AssocRun(f, a, ops).1
    ensures Refines(Run(f, t, ops).0, AssocRun(f, a, ops).0)
    ensures multiset(Flatten(Run(f, t, ops).0.buckets)) == multiset(AssocRun(f, a, ops).0.items)
    decreases |ops|
  {
    if ops == [] {
      RefinesSameItems(t, a);
    } else {
      StepRefines(f, t, a, ops[0]);
      RunRefines(f, Step(f, t, ops[0]).0, AssocStep(f, a, ops[0]).0, ops[1..]);
    }
  }

  /** One call on a well-formed table leaves it well-formed. */
  lemma StepWellFormed<K, V>(f: Funcs<K>, t: Table<K, V>, op: Op<K, V>)
    requires WellFormed(t)
    ensures WellFormed(Step(f, t, op).0)
  {
    WalkRefines(t);
    var a := Assoc(Flatten(t.buckets), t.ctl);
    StepRefines(f, t, a, op);
    RefinesSameItems(Step(f, t, op).0, AssocStep(f, a, op).0);
  }

  // ---------------------------------------------------------------------------
  // What a caller sees of one call after another
  // ---------------------------------------------------------------------------

  /** What was inserted is found by every key that equals its key, and by no other; without growth, all other
      keys are answered as before. */
  lemma InsertThenSearch<K, V>(f: Funcs<K>, t: Table<K, V>, k: K, v: V, tableAlloc: bool, other: K)
    requires WellFormed(t)
    ensures var t' := Step(f, t, OpInsert(k, v, tableAlloc, true)).0;
            var same := f.hash(other) == f.hash(k) && f.eq(other, k);
            && (same ==> Step(f, t', OpSearch(other)).1 == Found(Some(v)))
            && (!same && |t'.buckets| == |t.buckets| ==>
                  Step(f, t', OpSearch(other)).1 == Step(f, t, OpSearch(other)).1)
  {
    var a, op := Assoc(Flatten(t.buckets), t.ctl), OpInsert(k, v, tableAlloc, true);
    WalkRefines(t);
    StepRefines(f, t, a, op);
    StepRefines(f, t, a, OpSearch(other));
    StepRefines(f, Step(f, t, op).0, AssocStep(f, a, op).0, OpSearch(other));
    hide Flatten, Reverse, Agree, Rehash, LoadLimit;
    PrimesGrow(t.ctl.primeIndex);
  }

  /** Each length is about twice the one before it, and none has a small factor. */
  lemma PrimesGrow(i: nat)
    requires i < |PRIMES|
    ensures |PRIMES| == 26
    ensures var p: int := PRIMES[i];
            && p % 2 != 0 && p % 3 != 0 && p % 5 != 0 && p % 7 != 0 && p % 11 != 0 && p % 13 != 0
            && (i < 25 ==> p < PRIMES[i + 1] && 2 * p - 180 < PRIMES[i + 1] < 2 * p + 80)
  {
  }

  /** insert says whether the entry could be allocated. It enlarges the table just when the new count passes the
      limit, there is a longer length and it could be allocated, and then takes the limit from the load factor. */
  lemma InsertAnswersAndGrows<K, V>(f: Funcs<K>, t: Table<K, V>, k: K, v: V, tableAlloc: bool, entryAlloc: bool)
    requires WellFormed(t)
    ensures var (t', out) := Step(f, t, OpInsert(k, v, tableAlloc, entryAlloc));
            var grows := (t.ctl.entryCount + 1) % 0x1_0000_0000 > t.ctl.loadLimit && t.ctl.primeIndex < 25 && tableAlloc;
            && out == Inserted(entryAlloc)
            && t'.ctl.entryCount == (t.ctl.entryCount + if entryAlloc then 1 else 0) % 0x1_0000_0000
            && t'.ctl.loadFactor == t.ctl.loadFactor
            && t'.ctl.primeIndex == (if grows then t.ctl.primeIndex + 1 else t.ctl.primeIndex)
            && t'.ctl.loadLimit == (if grows then (|t'.buckets| * t.ctl.loadFactor) % 0x1_0000_0000 / 100
                                    else t.ctl.loadLimit)
  {
    hide *;
    LengthIs(t);
    StepWellFormed(f, t, OpInsert(k, v, tableAlloc, entryAlloc));
    LengthIs(Step(f, t, OpInsert(k, v, tableAlloc, entryAlloc)).0);
    InsertControl(f, t, k, v, tableAlloc, entryAlloc);
    Accounted(t.ctl, tableAlloc, entryAlloc);
  }

  lemma LengthIs<K, V>(t: Table<K, V>)
    requires WellFormed(t)
    ensures t.ctl.primeIndex < |PRIMES| && |t.buckets| == PRIMES[t.ctl.primeIndex] && 0 < |t.buckets|
  {
    hide WellPlaced, Flatten;
  }

  lemma Accounted(ctl: Control, tableAlloc: bool, entryAlloc: bool)
    requires ctl.primeIndex < |PRIMES|
    ensures var ctl' := Account(ctl, tableAlloc, entryAlloc);
            var grows := (ctl.entryCount + 1) % 0x1_0000_0000 > ctl.loadLimit && ctl.primeIndex < 25 && tableAlloc;
            && ctl'.primeIndex == (if grows then ctl.primeIndex + 1 else ctl.primeIndex) < |PRIMES|
            && ctl'.entryCount == (ctl.entryCount + if entryAlloc then 1 else 0) % 0x1_0000_0000
            && ctl'.loadFactor == ctl.loadFactor
            && ctl'.loadLimit == if grows then (PRIMES[ctl'.primeIndex] * ctl.loadFactor) % 0x1_0000_0000 / 100
                                 else ctl.loadLimit
  {
    PrimesGrow(ctl.primeIndex);
    hide PRIMES;
  }

  /** A new load factor moves nothing; it counts from the next enlargement on. */
  lemma FactorThenInsert<K, V>(
      f: Funcs<K>, t: Table<K, V>, n: uint32, k: K, v: V, tableAlloc: bool, entryAlloc: bool)
    requires WellFormed(t)
    ensures var changed := Step(f, t, OpSetLoadFactor(n)).0;
            var t' := Step(f, changed, OpInsert(k, v, tableAlloc, entryAlloc)).0;
            && changed.buckets == t.buckets
            && t'.ctl.loadLimit == if |t'.buckets| == |t.buckets| then t.ctl.loadLimit
                                   else (|t'.buckets| * n) % 0x1_0000_0000 / 100
  {
    var changed := Step(f, t, OpSetLoadFactor(n)).0;
    StepWellFormed(f, t, OpSetLoadFactor(n));
    assert changed == t.(ctl := t.ctl.(loadFactor := n));
    hide *;
    LengthIs(t);
    StepWellFormed(f, changed, OpInsert(k, v, tableAlloc, entryAlloc));
    LengthIs(Step(f, changed, OpInsert(k, v, tableAlloc, entryAlloc)).0);
    InsertAnswersAndGrows(f, changed, k, v, tableAlloc, entryAlloc);
    PrimesGrow(t.ctl.primeIndex);
  }

  lemma InsertControl<K, V>(f: Funcs<K>, t: Table<K, V>, k: K, v: V, tableAlloc: bool, entryAlloc: bool)
    requires WellFormed(t)
    ensures var (t', out) := Step(f, t, OpInsert(k, v, tableAlloc, entryAlloc));
            t'.ctl == Account(t.ctl, tableAlloc, entryAlloc) && out == Inserted(entryAlloc)
  {
    UndoCount(t.ctl, tableAlloc);
    hide PRIMES, Flatten, Rehash, Account, Uncount;
  }

  /** fetch hands back what search finds, and so does remove, unless a destructor takes it; both leave the same
      table. */
  lemma RemoveIsFetch<K, V>(f: Funcs<K>, t: Table<K, V>, k: K)
    requires 0 < |t.buckets|
    ensures Step(f, t, OpFetch(k)).1 == Step(f, t, OpSearch(k)).1
    ensures Step(f, t, OpRemove(k)).0 == Step(f, t, OpFetch(k)).0
    ensures Step(f, t, OpRemove(k)).1 == if f.valueDtor then Found(None) else Step(f, t, OpFetch(k)).1
  {
  }

  /** change says -1 just when search finds the key, and search then finds the new value; a miss is 0 and
      changes nothing. */
  lemma ChangeThenSearch<K, V>(f: Funcs<K>, t: Table<K, V>, k: K, v: V)
    requires 0 < |t.buckets|
    ensures var (t', out) := Step(f, t, OpChange(k, v));
            if Step(f, t, OpSearch(k)).1 == Found(None) then out == Changed(0) && t' == t
            else out == Changed(-1) && Step(f, t', OpSearch(k)).1 == Found(Some(v))
  {
    var b := BucketOf(f, t, k);
    UpdateThenLookup(f, k, v, t.buckets[b]);
    assert t.buckets[b := t.buckets[b]] == t.buckets;
  }

  lemma {:induction false} UpdateThenLookup<K, V>(f: Funcs<K>, k: K, v: V, c: seq<Item<K, V>>)
    ensures if Lookup(f, k, c) == None then Update(f, k, v, c) == c else Lookup(f, k, Update(f, k, v, c)) == Some(v)
  {
    if c != [] {
      UpdateThenLookup(f, k, v, c[1..]);
    }
  }

  // ---------------------------------------------------------------------------
  // Growth: how far the load bound holds
  // ---------------------------------------------------------------------------

  /** The index of the first prime above minSize (the caller keeps minSize below 2^30). */
  function InitialIndex(minSize: nat, i: nat := 0): (r: nat)
    requires i < |PRIMES| && minSize < 0x4000_0000
    ensures i <= r < |PRIMES| && PRIMES[r] > minSize
    ensures forall j | i <= j < r :: PRIMES[j] <= minSize
    decreases |PRIMES| - i
  {
    if PRIMES[i] > minSize then i
    else assert i + 1 < |PRIMES|; InitialIndex(minSize, i + 1)
  }

  function InitialTable<K, V>(minSize: nat): Table<K, V>
    requires minSize < 0x4000_0000
  {
    var i := InitialIndex(minSize);
    Table(seq(PRIMES[i], _ => []),
          Control(0, LoadLimit(PRIMES[i], DEFAULT_LOAD_FACTOR), DEFAULT_LOAD_FACTOR, i))
  }

  /** The largest length at which 65 * length still fits in 32 bits. */
  const LAST_EXACT: nat := 20

  /** The limit is the promised percentage of the length as long as the 32-bit product does not wrap. */
  lemma LoadLimitExact(i: nat)
    requires i < |PRIMES|
    ensures LoadLimit(PRIMES[i], DEFAULT_LOAD_FACTOR) == PRIMES[i] * DEFAULT_LOAD_FACTOR / 100 <==> i <= LAST_EXACT
    ensures PRIMES[i] <= 50331653 <==> i <= LAST_EXACT
  {
  }

  /** The same for any factor: the limit is that percentage of the length exactly if the product fits. */
  lemma LoadLimitForFactor(size: uint32, loadFactor: uint32)
    ensures LoadLimit(size, loadFactor) == size * loadFactor / 100 <==> size * loadFactor < 0x1_0000_0000
  {
  }

  /** Growing by one step makes room for one more entry, except across the two wrapping limits. */
  lemma NextLimit(i: nat)
    requires i + 1 < |PRIMES|
    ensures LoadLimit(PRIMES[i], DEFAULT_LOAD_FACTOR) + 1 <= LoadLimit(PRIMES[i + 1], DEFAULT_LOAD_FACTOR)
            <==> i != LAST_EXACT && i != LAST_EXACT + 1
  {
    if i < LAST_EXACT {
      hide PRIMES;
      LimitsGrow(i);
    } else {
      LastLimits(i);
    }
  }

  /** From the last exact limit on. */
  lemma LastLimits(i: nat)
    requires LAST_EXACT <= i < |PRIMES| - 1
    ensures LoadLimit(PRIMES[i], DEFAULT_LOAD_FACTOR) + 1 <= LoadLimit(PRIMES[i + 1], DEFAULT_LOAD_FACTOR)
            <==> i != LAST_EXACT && i != LAST_EXACT + 1
  {
  }

  /** Up to the last exact limit each prime exceeds the one before it by more than 40. */
  lemma LimitsGrow(i: nat)
    requires i < LAST_EXACT
    ensures PRIMES[i] + 40 < PRIMES[i + 1] <= 50331653
  {
  }

  ghost predicate Bounded(ctl: Control) {
    && ctl.primeIndex < |PRIMES|
    && ctl.loadFactor == DEFAULT_LOAD_FACTOR
    && ctl.loadLimit == LoadLimit(PRIMES[ctl.primeIndex], DEFAULT_LOAD_FACTOR)
    && ctl.entryCount <= ctl.loadLimit
  }

  /** With both allocations granted, an insertion keeps the bound unless the table is full and its
      length is the last exact one, the one after it, or the last of the list. */
  lemma InsertBound(ctl: Control)
    requires Bounded(ctl)
    ensures Bounded(Account(ctl, true, true)) <==>
            !(ctl.entryCount == ctl.loadLimit && ctl.primeIndex in {LAST_EXACT, LAST_EXACT + 1, |PRIMES| - 1})
  {
    if ctl.primeIndex + 1 < |PRIMES| {
      NextLimit(ctl.primeIndex);
    }
  }

  /** Default load factor left alone, table allocations granted. */
  predicate Friendly<K, V>(op: Op<K, V>) {
    !op.OpSetLoadFactor? && (op.OpInsert? ==> op.tableAlloc)
  }

  lemma {:induction false} NeverShrinks<K, V>(f: Funcs<K>, a: Assoc<K, V>, ops: seq<Op<K, V>>)
    ensures a.ctl.primeIndex <= AssocRun(f, a, ops).0.ctl.primeIndex
    decreases |ops|
  {
    if ops != [] {
      NeverShrinks(f, AssocStep(f, a, ops[0]).0, ops[1..]);
    }
  }

  lemma UncountBound(ctl: Control, found: bool)
    requires Bounded(ctl) && (found ==> 0 < ctl.entryCount)
    ensures Bounded(Uncount(ctl, found))
    ensures Uncount(ctl, found).entryCount == ctl.entryCount - if found then 1 else 0
  {
  }

  lemma GrantedBound(ctl: Control, entryAlloc: bool)
    requires Bounded(ctl) && Account(ctl, true, entryAlloc).primeIndex <= LAST_EXACT
    ensures Bounded(Account(ctl, true, entryAlloc))
    ensures Account(ctl, true, entryAlloc).entryCount == ctl.entryCount + if entryAlloc then 1 else 0
  {
    InsertBound(ctl);
  }

  lemma StepBound<K, V>(f: Funcs<K>, a: Assoc<K, V>, op: Op<K, V>)
    requires Bounded(a.ctl) && a.ctl.entryCount == |a.items| && Friendly(op)
    requires AssocStep(f, a, op).0.ctl.primeIndex <= LAST_EXACT
    ensures var a' := AssocStep(f, a, op).0; Bounded(a'.ctl) && a'.ctl.entryCount == |a'.items|
  {
    if op.OpInsert? {
      GrantedBound(a.ctl, op.entryAlloc);
      ReverseFacts(a.items);
    } else if op.OpChange? {
      UpdateFacts(f, op.key, op.value, a.items, 1, 0);
    } else if !op.OpSearch? {
      DeleteFacts(f, op.key, a.items);
      UncountBound(a.ctl, Lookup(f, op.key, a.items).Some?);
    }
  }

  lemma {:induction false} RunBound<K, V>(f: Funcs<K>, a: Assoc<K, V>, ops: seq<Op<K, V>>)
    requires Bounded(a.ctl) && a.ctl.entryCount == |a.items| && forall op | op in ops :: Friendly(op)
    requires AssocRun(f, a, ops).0.ctl.primeIndex <= LAST_EXACT
    ensures var a' := AssocRun(f, a, ops).0; Bounded(a'.ctl) && a'.ctl.entryCount == |a'.items|
    decreases |ops|
  {
    if ops != [] {
      var a' := AssocStep(f, a, ops[0]).0;
      NeverShrinks(f, a', ops[1..]);
      StepBound(f, a, ops[0]);
      RunBound(f, a', ops[1..]);
    }
  }

  lemma {:induction false} FlattenEmpty<T>(ss: seq<seq<T>>)
    requires forall i | 0 <= i < |ss| :: ss[i] == []
    ensures Flatten(ss) == []
  {
    if ss != [] {
      FlattenEmpty(ss[1..]);
    }
  }

  /** A fresh table reads as the empty list. */
  lemma InitialRefines<K, V>(minSize: nat)
    requires minSize < 0x4000_0000
    ensures var t := InitialTable<K, V>(minSize); WellFormed(t) && Refines(t, Assoc([], t.ctl))
    ensures |InitialTable<K, V>(minSize).buckets| > minSize
  {
    var t := InitialTable<K, V>(minSize);
    FlattenEmpty(t.buckets);
    WalkRefines(t);
  }

  /** It has the first length above minSize, no entries, and the default load factor of 65 percent. */
  lemma InitialFields<K, V>(minSize: nat)
    requires minSize < 0x4000_0000
    ensures var t := InitialTable<K, V>(minSize);
            && |t.buckets| > minSize && (forall i | 0 <= i < InitialIndex(minSize) :: PRIMES[i] <= minSize)
            && t.ctl == Control(0, (|t.buckets| * 65) % 0x1_0000_0000 / 100, 65, InitialIndex(minSize))
  {
    hide PRIMES;
  }

  /** The documented load: from a fresh table, any run that leaves the load factor alone and is granted its
      table allocations keeps at most 65 entries per 100 buckets, up to 50331653 buckets. */
  lemma LoadBound<K, V>(f: Funcs<K>, minSize: nat, ops: seq<Op<K, V>>)
    requires minSize < 0x4000_0000
    requires forall op | op in ops :: Friendly(op)
    requires |Run(f, InitialTable<K, V>(minSize), ops).0.buckets| <= 50331653
    ensures var t := Run(f, InitialTable<K, V>(minSize), ops).0;
            && |Flatten(t.buckets)| == t.ctl.entryCount
            && |Flatten(t.buckets)| <= |t.buckets| * DEFAULT_LOAD_FACTOR / 100
  {
    var t := InitialTable<K, V>(minSize);
    var a: Assoc<K, V> := Assoc([], t.ctl);
    InitialRefines<K, V>(minSize);
    RunRefines(f, t, a, ops);
    var t', a' := Run(f, t, ops).0, AssocRun(f, a, ops).0;
    LoadLimitExact(t'.ctl.primeIndex);
    RunBound(f, a, ops);
    assert |multiset(Flatten(t'.buckets))| == |multiset(a'.items)|;
  }

  /** What the last exact limit is: the entries that a table of 50331653 buckets takes without growing. */
  const LAST_EXACT_LIMIT: nat := 32715574

  function Insertions<K, V>(ops: seq<Op<K, V>>): nat {
    if ops == [] then 0 else (if ops[0].OpInsert? then 1 else 0) + Insertions(ops[1..])
  }

  /** After n insertions under the default load factor: no more entries than that, and no growth but past a
      limit. */
  ghost predicate Modest<K, V>(a: Assoc<K, V>, n: nat) {
    && a.ctl.primeIndex <= LAST_EXACT
    && a.ctl.loadFactor == DEFAULT_LOAD_FACTOR
    && a.ctl.loadLimit == LoadLimit(PRIMES[a.ctl.primeIndex], DEFAULT_LOAD_FACTOR)
    && a.ctl.entryCount == |a.items| <= n
  }

  lemma ModestInsertion(ctl: Control, tableAlloc: bool, entryAlloc: bool)
    requires ctl.primeIndex <= LAST_EXACT && ctl.loadFactor == DEFAULT_LOAD_FACTOR
    requires ctl.loadLimit == LoadLimit(PRIMES[ctl.primeIndex], DEFAULT_LOAD_FACTOR)
    requires ctl.entryCount < LAST_EXACT_LIMIT
    ensures var ctl' := Account(ctl, tableAlloc, entryAlloc);
            && ctl'.primeIndex <= LAST_EXACT && ctl'.loadFactor == DEFAULT_LOAD_FACTOR
            && ctl'.loadLimit == LoadLimit(PRIMES[ctl'.primeIndex], DEFAULT_LOAD_FACTOR)
            && ctl'.entryCount == ctl.entryCount + if entryAlloc then 1 else 0
  {
    assert LoadLimit(PRIMES[LAST_EXACT], DEFAULT_LOAD_FACTOR) == LAST_EXACT_LIMIT;
    hide LoadLimit;
  }

  lemma ModestStep<K, V>(f: Funcs<K>, a: Assoc<K, V>, op: Op<K, V>, n: nat)
    requires Modest(a, n) && !op.OpSetLoadFactor? && (op.OpInsert? ==> n < LAST_EXACT_LIMIT)
    ensures Modest(AssocStep(f, a, op).0, if op.OpInsert? then n + 1 else n)
  {
    hide LoadLimit;
    if op.OpInsert? {
      ModestInsertion(a.ctl, op.tableAlloc, op.entryAlloc);
      ReverseFacts(a.items);
      hide Account;
    } else if op.OpChange? {
      UpdateFacts(f, op.key, op.value, a.items, 1, 0);
    } else if !op.OpSearch? {
      DeleteFacts(f, op.key, a.items);
    }
  }

  lemma {:induction false} ModestRun<K, V>(f: Funcs<K>, a: Assoc<K, V>, ops: seq<Op<K, V>>, n: nat)
    requires Modest(a, n) && n + Insertions(ops) <= LAST_EXACT_LIMIT && forall op | op in ops :: !op.OpSetLoadFactor?
    ensures Modest(AssocRun(f, a, ops).0, n + Insertions(ops))
    decreases |ops|
  {
    if ops != [] {
      hide Modest, AssocStep;
      ModestStep(f, a, ops[0], n);
      ModestRun(f, AssocStep(f, a, ops[0]).0, ops[1..], if ops[0].OpInsert? then n + 1 else n);
    }
  }

  lemma InitialIndexFits(minSize: nat)
    requires minSize < 50331653
    ensures InitialIndex(minSize) <= LAST_EXACT
  {
    assert PRIMES[LAST_EXACT] == 50331653;
  }

  /** Up to 32715574 insertions, allocations failing or not, never take a table made for fewer than 50331653
      entries past the lengths with an exact limit; so granted its table allocations it keeps the documented
      load. */
  lemma LoadBoundByInsertions<K, V>(f: Funcs<K>, minSize: nat, ops: seq<Op<K, V>>)
    requires minSize < 50331653 && Insertions(ops) <= LAST_EXACT_LIMIT
    requires forall op | op in ops :: !op.OpSetLoadFactor?
    ensures var t := Run(f, InitialTable<K, V>(minSize), ops).0;
            && |t.buckets| <= 50331653 && |Flatten(t.buckets)| == t.ctl.entryCount <= Insertions(ops)
            && ((forall op | op in ops :: Friendly(op)) ==>
                  |Flatten(t.buckets)| <= |t.buckets| * DEFAULT_LOAD_FACTOR / 100)
  {
    hide *;
    var t := InitialTable<K, V>(minSize);
    InitialRefines<K, V>(minSize);
    InitialModest<K, V>(minSize);
    RunRefines(f, t, Assoc([], t.ctl), ops);
    ModestRun(f, Assoc([], t.ctl), ops, 0);
    ModestSize(Run(f, t, ops).0, AssocRun(f, Assoc([], t.ctl), ops).0, Insertions(ops));
    if forall op | op in ops :: Friendly(op) {
      LoadBound(f, minSize, ops);
    }
  }

  lemma InitialModest<K, V>(minSize: nat)
    requires minSize < 50331653
    ensures Modest<K, V>(Assoc([], InitialTable<K, V>(minSize).ctl), 0)
  {
    hide LoadLimit;
    InitialIndexFits(minSize);
  }

  lemma ModestSize<K, V>(t: Table<K, V>, a: Assoc<K, V>, n: nat)
    requires Refines(t, a) && Modest(a, n)
    ensures |t.buckets| <= 50331653 && |Flatten(t.buckets)| == t.ctl.entryCount <= n
  {
    RefinesSameItems(t, a);
    hide LoadLimit, Agree, Flatten;
    LoadLimitExact(t.ctl.primeIndex);
    assert |multiset(Flatten(t.buckets))| == |multiset(a.items)|;
  }

  // ---------------------------------------------------------------------------
  // Relinking one entry at a time
  // ---------------------------------------------------------------------------

  lemma {:induction false} InBucketConcat<K, V>(a: seq<Item<K, V>>, c: seq<Item<K, V>>, n: nat, b: nat)
    requires 0 < n
    ensures InBucket(a + c, n, b) == InBucket(a, n, b) + InBucket(c, n, b)
  {
    if a == [] {
      assert a + c == c;
    } else {
      InBucketConcat(a[1..], c, n, b);
      assert (a + c)[0] == a[0] && (a + c)[1..] == a[1..] + c;
      assert [a[0]] + (InBucket(a[1..], n, b) + InBucket(c, n, b)) == [a[0]] + InBucket(a[1..], n, b) + InBucket(c, n, b);
    }
  }

  lemma {:induction false} ReverseSnoc<T>(s: seq<T>, x: T)
    ensures Reverse(s + [x]) == [x] + Reverse(s)
  {
    if s == [] {
      assert [x][1..] == [];
    } else {
      ReverseSnoc(s[1..], x);
      assert (s + [x])[1..] == s[1..] + [x];
    }
  }

  /** Moving one more entry to the front of its new bucket is spreading one more item. */
  lemma SpreadSnoc<K, V>(c: seq<Item<K, V>>, it: Item<K, V>, n: nat)
    requires 0 < n
    ensures Spread(c + [it], n) == Put(Spread(c, n), it)
  {
    forall b | 0 <= b < n ensures Spread(c + [it], n)[b] == Put(Spread(c, n), it)[b] {
      InBucketConcat(c, [it], n, b);
      assert InBucket([it], n, b) == if it.hash % n == b then [it] else [];
      assert InBucket(c, n, b) + [] == InBucket(c, n, b);
      ReverseSnoc(InBucket(c, n, b), it);
    }
  }

  lemma {:induction false} FlattenSnoc<T>(ss: seq<seq<T>>, x: seq<T>)
    ensures Flatten(ss + [x]) == Flatten(ss) + x
  {
    if ss == [] {
      assert [x][1..] == [];
    } else {
      FlattenSnoc(ss[1..], x);
      assert (ss + [x])[1..] == ss[1..] + [x];
    }
  }

  // ---------------------------------------------------------------------------
  // Removal at a position, as the iterator does it
  // ---------------------------------------------------------------------------

  lemma {:induction false} FlattenConcat<T>(a: seq<seq<T>>, b: seq<seq<T>>)
    ensures Flatten(a + b) == Flatten(a) + Flatten(b)
  {
    if a == [] {
      assert a + b == b;
    } else {
      hide Flatten;
      FlattenConcat(a[1..], b);
      Around(a, 0);
      FlattenFirst(a[0], a[1..]);
      FlattenFirst(a[0], a[1..] + b);
      assert a == [a[0]] + a[1..] && a + b == [a[0]] + (a[1..] + b);
      Associate(a[0], Flatten(a[1..]), Flatten(b));
    }
  }

  /** The walk, cut around bucket b. */
  lemma FlattenAround<T>(ss: seq<seq<T>>, b: nat)
    requires b < |ss|
    ensures Flatten(ss) == Flatten(ss[..b]) + ss[b] + Flatten(ss[b + 1..])
  {
    hide Flatten;
    Around(ss, b);
    FlattenConcat(ss[..b], [ss[b]] + ss[b + 1..]);
    FlattenFirst(ss[b], ss[b + 1..]);
    Associate(Flatten(ss[..b]), ss[b], Flatten(ss[b + 1..]));
  }

  lemma Around<T>(ss: seq<T>, b: nat)
    requires b < |ss|
    ensures ss == ss[..b] + ([ss[b]] + ss[b + 1..])
  {
  }

  lemma FlattenFirst<T>(first: seq<T>, rest: seq<seq<T>>)
    ensures Flatten([first] + rest) == first + Flatten(rest)
  {
    assert ([first] + rest)[1..] == rest;
  }

  /** Empty buckets add nothing to the walk. */
  lemma {:induction false} FlattenSkip<T>(ss: seq<seq<T>>, a: nat, b: nat)
    requires a <= b <= |ss| && forall i | a <= i < b :: ss[i] == []
    ensures Flatten(ss[a..]) == Flatten(ss[b..])
    decreases b - a
  {
    if a < b {
      FlattenSkip(ss, a + 1, b);
      assert ss[a..][1..] == ss[a + 1..];
    }
  }

  /** Taking any one item out of a bucket, and counting it out, keeps the table well-formed. */
  lemma RemovalWellFormed<K, V>(t: Table<K, V>, b: nat, c: seq<Item<K, V>>)
    requires WellFormed(t) && b < |t.buckets| && |c| + 1 == |t.buckets[b]| && forall it | it in c :: it in t.buckets[b]
    ensures WellFormed(Table(t.buckets[b := c], Uncount(t.ctl, true)))
  {
    var bs := t.buckets[b := c];
    FlattenAround(t.buckets, b);
    FlattenAround(bs, b);
    assert bs[..b] == t.buckets[..b] && bs[b + 1..] == t.buckets[b + 1..];
    UncountCounts(t.ctl, true, |Flatten(t.buckets)|);
    forall i | 0 <= i < |bs| ensures BelongsIn(bs[i], |bs|, i) {
      assert BelongsIn(t.buckets[i], |bs|, i);
    }
  }
}
