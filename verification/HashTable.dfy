/** src/HashTable.c on the heap: entries linked through `next`, bucket heads in an array, chains relinked
    and unlinked in place. Every method is tied to the value-level meaning in ChainedTable. */
module HashTable {
  import opened CTypes
  import opened Wrappers
  import opened ChainedTable
  import opened Sequences

  class Entry<K, V> {
    var key: K
    var value: V
    var hash: uint32
    var next: Entry?<K, V>
    ghost var slot: nat  // names the bucket whose chain holds this entry

    constructor (key: K, value: V, hash: uint32, next: Entry?<K, V>, ghost slot: nat)
      ensures this.key == key && this.value == value && this.hash == hash && this.next == next && this.slot == slot
    {
      this.key, this.value, this.hash, this.next, this.slot := key, value, hash, next, slot;
    }

    ghost function AsItem(): Item<K, V>
      reads this
    {
      Item(key, value, hash)
    }
  }

  /** The entry at position j of a chain, or NULL past its end. */
  ghost function At<K, V>(c: seq<Entry<K, V>>, j: nat): Entry?<K, V> {
    if j < |c| then c[j] else null
  }

  ghost predicate Distinct<T>(s: seq<T>) {
    forall i, j | 0 <= i < j < |s| :: s[i] != s[j]
  }

  lemma WithoutDistinct<T>(s: seq<T>, j: nat)
    requires j < |s| && Distinct(s)
    ensures Distinct(Without(s, j)) && s[j] !in Without(s, j)
    ensures forall x | x in Without(s, j) :: x in s
  {
    forall i | 0 <= i < |s| - 1 ensures Without(s, j)[i] in s && Without(s, j)[i] != s[j] {
    }
  }

  /** The whole-table readings of a deletion and of an update, once the first match is known. */
  lemma UnlinkAtHit<K, V>(f: Funcs<K>, t: ChainedTable.Table<K, V>, k: K, b: nat, j: nat)
    requires b < |t.buckets| && b == BucketOf(f, t, k) && FirstHit(f, k, t.buckets[b], j)
    ensures Step(f, t, OpFetch(k)) ==
            if j < |t.buckets[b]|
            then (ChainedTable.Table(t.buckets[b := Without(t.buckets[b], j)], Uncount(t.ctl, true)),
                  Found(Some(t.buckets[b][j].value)))
            else (t, Found(None))
    ensures Step(f, t, OpSearch(k)).1 == Step(f, t, OpFetch(k)).1
  {
    LookupAtHit(f, k, t.buckets[b], j);
    DeleteAtHit(f, k, t.buckets[b], j);
    assert t.buckets[b := t.buckets[b]] == t.buckets;
  }

  lemma ChangeAtHit<K, V>(f: Funcs<K>, t: ChainedTable.Table<K, V>, k: K, v: V, b: nat, j: nat)
    requires b < |t.buckets| && b == BucketOf(f, t, k) && FirstHit(f, k, t.buckets[b], j)
    ensures Step(f, t, OpChange(k, v)) ==
            if j < |t.buckets[b]|
            then (t.(buckets := t.buckets[b := t.buckets[b][j := t.buckets[b][j].(value := v)]]), Changed(-1))
            else (t, Changed(0))
  {
    LookupAtHit(f, k, t.buckets[b], j);
    UpdateAtHit(f, k, v, t.buckets[b], j);
    assert t.buckets[b := t.buckets[b]] == t.buckets;
  }

  /** The list hanging off `head` runs through c, holds its, and carries the bucket's name. */
  ghost predicate Chain<K, V>(head: Entry?<K, V>, c: seq<Entry<K, V>>, its: seq<Item<K, V>>, slot: nat)
    reads c
  {
    && head == At(c, 0)
    && |c| == |its|
    && Distinct(c)
    && (forall j {:trigger c[j].next} | 0 <= j < |c| :: c[j].next == At(c, j + 1))
    && (forall j | 0 <= j < |c| :: c[j].AsItem() == its[j] && c[j].slot == slot)
  }

  /** What a bucket array holds: the entries of each chain, their items, and the chains' names
      from + 0, from + 1, and so on. */
  datatype Layout<K, V> = Layout(chains: seq<seq<Entry<K, V>>>, items: seq<seq<Item<K, V>>>, from: nat)

  ghost predicate Linked<K, V>(table: array<Entry?<K, V>>, l: Layout<K, V>, nodes: set<Entry<K, V>>)
    reads table, nodes
  {
    && table.Length == |l.chains| == |l.items|
    && (forall b, e | 0 <= b < |l.chains| && e in l.chains[b] :: e in nodes)
    && (forall b | 0 <= b < |l.chains| :: Chain(table[b], l.chains[b], l.items[b], l.from + b))
  }

  /** A list whose links skip position j is a chain without that position. */
  lemma SkippedChain<K, V>(head: Entry?<K, V>, c: seq<Entry<K, V>>, its: seq<Item<K, V>>, slot: nat, j: nat)
    requires j < |c| == |its| && Distinct(c)
    requires head == if j == 0 then At(c, 1) else c[0]
    requires 0 < j ==> c[j - 1].next == At(c, j + 1)
    requires forall i | 0 <= i < |c| && i != j && i + 1 != j :: c[i].next == At(c, i + 1)
    requires forall i | 0 <= i < |c| :: c[i].AsItem() == its[i] && c[i].slot == slot
    ensures Chain(head, Without(c, j), Without(its, j), slot)
    ensures forall x | x in Without(c, j) :: x in c
  {
    WithoutDistinct(c, j);
    var d, ds := Without(c, j), Without(its, j);
    forall i | 0 <= i < |d| ensures d[i].next == At(d, i + 1) && d[i].AsItem() == ds[i] {
      var i' := if i < j then i else i + 1;
      assert d[i] == c[i'];
      if i + 1 < |d| {
        assert d[i + 1] == if i + 1 < j then c[i + 1] else c[i + 2];
      }
    }
  }

  /** Takes the entry at position j out of the chain of bucket b: the bucket slot is overwritten when the
      entry heads the chain (prev null), the predecessor's `next` otherwise. */
  method Unhook<K, V>(table: array<Entry?<K, V>>, b: nat, prev: Entry?<K, V>, entry: Entry<K, V>,
                      ghost c: seq<Entry<K, V>>, ghost its: seq<Item<K, V>>, ghost slot: nat, ghost j: nat)
    requires b < table.Length && j < |c| && Chain(table[b], c, its, slot)
    requires entry == c[j] && prev == if j == 0 then null else c[j - 1]
    modifies table, prev
    ensures Chain(table[b], Without(c, j), Without(its, j), slot)
    ensures forall x | x in Without(c, j) :: x in c
    ensures forall i | 0 <= i < table.Length && i != b :: table[i] == old(table[i])
    ensures prev != null ==> prev.slot == old(prev.slot) && prev.AsItem() == old(prev.AsItem())
  {
    if prev == null {
      table[b] := entry.next;
    } else {
      prev.next := entry.next;
    }
    SkippedChain(table[b], c, its, slot, j);
  }

  /** Moves the head of one chain to the front of another: the inner loop's four assignments. */
  method MoveHead<K, V>(source: array<Entry?<K, V>>, i: nat, target: array<Entry?<K, V>>, b: nat, entry: Entry<K, V>,
                        ghost rest: seq<Entry<K, V>>, ghost its: seq<Item<K, V>>, ghost slot: nat,
                        ghost c: seq<Entry<K, V>>, ghost cits: seq<Item<K, V>>, ghost name: nat)
    requires source != target && i < source.Length && b < target.Length && slot != name
    requires Chain(source[i], rest, its, slot) && Chain(target[b], c, cits, name)
    requires rest != [] && entry == rest[0]
    modifies source, target, {entry}
    ensures Chain(source[i], rest[1..], its[1..], slot) && Chain(target[b], [entry] + c, [its[0]] + cits, name)
    ensures forall k | 0 <= k < source.Length && k != i :: source[k] == old(source[k])
    ensures forall k | 0 <= k < target.Length && k != b :: target[k] == old(target[k])
  {
    source[i] := entry.next;
    entry.next := target[b];
    target[b] := entry;
    entry.slot := name;
  }

  /** The deletion the C code makes through pEntry, seen on the whole bucket array. */
  method Splice<K, V>(table: array<Entry?<K, V>>, index: nat, prev: Entry?<K, V>, entry: Entry<K, V>,
                      ghost l: Layout<K, V>, ghost nodes: set<Entry<K, V>>, ghost j: nat)
    returns (ghost l': Layout<K, V>)
    requires Linked(table, l, nodes) && index < table.Length && j < |l.chains[index]|
    requires entry == l.chains[index][j] && prev == if j == 0 then null else l.chains[index][j - 1]
    modifies table, prev
    ensures Linked(table, l', nodes)
    ensures l' == Layout(l.chains[index := Without(l.chains[index], j)],
                         l.items[index := Without(l.items[index], j)], l.from)
    ensures entry.next == old(entry.next) && forall e | e in nodes :: e.AsItem() == old(e.AsItem())
  {
    hide Distinct, Without;
    Unhook(table, index, prev, entry, l.chains[index], l.items[index], l.from + index, j);
    forall b | 0 <= b < |l.chains| && b != index ensures Chain(table[b], l.chains[b], l.items[b], l.from + b) {
      assert old(Chain(table[b], l.chains[b], l.items[b], l.from + b));
    }
    l' := Layout(l.chains[index := Without(l.chains[index], j)],
                 l.items[index := Without(l.items[index], j)], l.from);
  }

  /** Overwrites the value stored at position j of bucket `index`. */
  method SetValue<K, V>(table: array<Entry?<K, V>>, index: nat, entry: Entry<K, V>, value: V,
                        ghost l: Layout<K, V>, ghost nodes: set<Entry<K, V>>, ghost j: nat)
    returns (ghost l': Layout<K, V>)
    requires Linked(table, l, nodes) && index < table.Length && j < |l.chains[index]|
    requires entry == l.chains[index][j]
    modifies entry`value
    ensures Linked(table, l', nodes)
    ensures l' == l.(items := l.items[index := l.items[index][j := l.items[index][j].(value := value)]])
  {
    ghost var its := l.items[index][j := l.items[index][j].(value := value)];
    entry.value := value;
    assert Chain(table[index], l.chains[index], its, l.from + index);
    forall b | 0 <= b < |l.chains| && b != index ensures Chain(table[b], l.chains[b], l.items[b], l.from + b) {
      assert old(Chain(table[b], l.chains[b], l.items[b], l.from + b));
    }
    l' := l.(items := l.items[index := its]);
  }

  /** One round of the inner relinking loop, seen on the whole new array. */
  method MoveEntry<K, V>(source: array<Entry?<K, V>>, i: nat, target: array<Entry?<K, V>>, entry: Entry<K, V>,
                         ghost rest: seq<Entry<K, V>>, ghost its: seq<Item<K, V>>, ghost slot: nat,
                         ghost t: Layout<K, V>, ghost nodes: set<Entry<K, V>>) returns (ghost t': Layout<K, V>)
    requires source != target && i < source.Length && 0 < target.Length
    requires Chain(source[i], rest, its, slot) && rest != [] && entry == rest[0] && entry in nodes
    requires Linked(target, t, nodes) && slot < t.from
    modifies source, target, {entry}
    ensures Chain(source[i], rest[1..], its[1..], slot)
    ensures forall k | 0 <= k < source.Length && k != i :: source[k] == old(source[k])
    ensures Linked(target, t', nodes) && t'.from == t.from && t'.items == Put(t.items, its[0])
  {
    hide Distinct;
    var index := entry.hash % target.Length;
    assert its[0] == entry.AsItem() && |its| == |rest|;
    hide Chain;
    MoveHead(source, i, target, index, entry, rest, its, slot, t.chains[index], t.items[index], t.from + index);
    forall b | 0 <= b < |t.chains| && b != index ensures Chain(target[b], t.chains[b], t.items[b], t.from + b) {
      assert old(Chain(target[b], t.chains[b], t.items[b], t.from + b));
    }
    t' := Layout(t.chains[index := [entry] + t.chains[index]], Put(t.items, its[0]), t.from);
  }

  /** The inner relinking loop: empties bucket i of the old array into the new one. */
  method RelinkChain<K, V>(source: array<Entry?<K, V>>, i: nat, target: array<Entry?<K, V>>,
                           ghost c: seq<Entry<K, V>>, ghost cits: seq<Item<K, V>>, ghost slot: nat,
                           ghost before: Layout<K, V>, ghost nodes: set<Entry<K, V>>, ghost moved: seq<Item<K, V>>)
    returns (ghost t: Layout<K, V>)
    requires source != target && i < source.Length && 0 < target.Length
    requires Chain(source[i], c, cits, slot) && (forall e | e in c :: e in nodes)
    requires Linked(target, before, nodes) && before.items == Spread(moved, target.Length) && slot < before.from
    modifies source, target, c
    ensures Linked(target, t, nodes) && t.items == Spread(moved + cits, target.Length) && t.from == before.from
    ensures forall k | 0 <= k < source.Length && k != i :: source[k] == old(source[k])
  {
    ghost var rest, its, done := c, cits, moved;
    t := before;
    while source[i] != null
      invariant Chain(source[i], rest, its, slot) && forall e | e in rest :: e in c
      invariant Linked(target, t, nodes) && t.items == Spread(done, target.Length) && t.from == before.from
      invariant done + its == moved + cits
      invariant forall k | 0 <= k < source.Length && k != i :: source[k] == old(source[k])
      decreases |rest|
    {
      assert rest[0] in rest;
      t := MoveEntry(source, i, target, source[i], rest, its, slot, t, nodes);
      SpreadSnoc(done, its[0], target.Length);
      done := done + [its[0]];
      rest, its := rest[1..], its[1..];
    }
    assert done + [] == done;
  }

  /** The outer relinking loop, over the old buckets. */
  method Relink<K, V>(source: array<Entry?<K, V>>, target: array<Entry?<K, V>>, ghost l: Layout<K, V>,
                      ghost nodes: set<Entry<K, V>>) returns (ghost t: Layout<K, V>)
    requires source != target && 0 < target.Length && Linked(source, l, nodes)
    requires forall b | 0 <= b < target.Length :: target[b] == null
    modifies source, target, nodes
    ensures Linked(target, t, nodes) && t.items == Rehash(l.items, target.Length)
  {
    t := Layout(seq(target.Length, _ => []), Spread([], target.Length), l.from + |l.chains|);
    var i := 0;
    while i < source.Length
      invariant 0 <= i <= |l.chains|
      invariant t.from == l.from + |l.chains|
      invariant Linked(target, t, nodes) && t.items == Spread(Flatten(l.items[..i]), target.Length)
      invariant forall b | i <= b < |l.chains| :: Chain(source[b], l.chains[b], l.items[b], l.from + b)
    {
      FlattenSnoc(l.items[..i], l.items[i]);
      assert l.items[..i + 1] == l.items[..i] + [l.items[i]];
      label Before:
      t := RelinkChain(source, i, target, l.chains[i], l.items[i], l.from + i, t, nodes, Flatten(l.items[..i]));
      forall b | i < b < |l.chains| ensures Chain(source[b], l.chains[b], l.items[b], l.from + b) {
        assert old@Before(Chain(source[b], l.chains[b], l.items[b], l.from + b));
      }
      i := i + 1;
    }
    assert l.items[..i] == l.items;
  }

  /** One chain with a new head, all others as they were, is the bucket array with one more item. */
  lemma PushedLinked<K, V>(table: array<Entry?<K, V>>, l: Layout<K, V>, nodes: set<Entry<K, V>>,
                           index: nat, entry: Entry<K, V>)
    requires table.Length == |l.chains| == |l.items| && index < table.Length
    requires forall b, e | 0 <= b < |l.chains| && e in l.chains[b] :: e in nodes
    requires forall b | 0 <= b < |l.chains| && b != index :: Chain(table[b], l.chains[b], l.items[b], l.from + b)
    requires Chain(table[index], [entry] + l.chains[index], [entry.AsItem()] + l.items[index], l.from + index)
    ensures Linked(table, Layout(l.chains[index := [entry] + l.chains[index]],
                                 l.items[index := [entry.AsItem()] + l.items[index]], l.from), nodes + {entry})
  {
  }

  /** Links a new entry in front of a chain. */
  method Push<K, V>(table: array<Entry?<K, V>>, index: nat, key: K, value: V, hash: uint32,
                    ghost l: Layout<K, V>, ghost nodes: set<Entry<K, V>>)
    returns (entry: Entry<K, V>, ghost l': Layout<K, V>)
    requires Linked(table, l, nodes) && index < table.Length && index == hash % table.Length
    modifies table
    ensures fresh(entry) && Linked(table, l', nodes + {entry})
    ensures l'.items == Put(l.items, Item(key, value, hash)) && l'.from == l.from
  {
    entry := new Entry(key, value, hash, table[index], l.from + index);
    assert Chain(entry, [entry] + l.chains[index], [entry.AsItem()] + l.items[index], l.from + index);
    table[index] := entry;
    forall b | 0 <= b < |l.chains| && b != index ensures Chain(table[b], l.chains[b], l.items[b], l.from + b) {
      assert old(Chain(table[b], l.chains[b], l.items[b], l.from + b));
    }
    PushedLinked(table, l, nodes, index, entry);
    l' := Layout(l.chains[index := [entry] + l.chains[index]],
                 l.items[index := [entry.AsItem()] + l.items[index]], l.from);
  }

  /** The first prime above minSize. */
  method TrimSize(minSize: nat) returns (size: length32, i: nat)
    requires minSize < 0x4000_0000
    ensures i == InitialIndex(minSize) && size == PRIMES[i]
  {
    size, i := PRIMES[0], 0;
    while i < |PRIMES|
      invariant i < |PRIMES| && InitialIndex(minSize) == InitialIndex(minSize, i)
    {
      if PRIMES[i] > minSize {
        size := PRIMES[i];
        break;
      }
      i := i + 1;
    }
  }

  class Table<K(==), V> {
    const f: Funcs<K>
    var table: array<Entry?<K, V>>
    var tableLength: length32
    var entryCount: uint32
    var loadLimit: uint32
    var loadFactor: uint32
    var primeIndex: nat

    /** What the bucket array holds, and every entry ever linked into it. */
    ghost var layout: Layout<K, V>
    ghost var nodes: set<Entry<K, V>>

    ghost predicate Shape()
      reads this, table, nodes
    {
      tableLength == table.Length && Linked(table, layout, nodes)
    }

    ghost function View(): ChainedTable.Table<K, V>
      reads this
    {
      ChainedTable.Table(layout.items, Control(entryCount, loadLimit, loadFactor, primeIndex))
    }

    ghost predicate Valid()
      reads this, table, nodes
    {
      Shape() && WellFormed(View())
    }

    /** The walk that search, fetch, remove and change all make: to the first entry of the key's chain that
        matches. `prev` is the entry whose `next` the C code's pEntry points at, null while pEntry still
        points at the bucket slot. */
    method Locate(key: K) returns (index: nat, prev: Entry?<K, V>, entry: Entry?<K, V>, ghost j: nat)
      requires Shape()
      ensures index == BucketOf(f, View(), key) && j <= |layout.chains[index]|
      ensures entry == At(layout.chains[index], j)
      ensures prev == if j == 0 then null else layout.chains[index][j - 1]
      ensures FirstHit(f, key, layout.items[index], j) && |layout.items[index]| == |layout.chains[index]|
      ensures entry != null ==> entry.AsItem() == layout.items[index][j]
    {
      var hashValue := f.hash(key);
      index := hashValue % tableLength;
      prev, entry, j := null, table[index], 0;
      ghost var c, its := layout.chains[index], layout.items[index];
      while entry != null && !(hashValue == entry.hash && f.eq(key, entry.key))
        invariant 0 <= j <= |c|
        invariant entry == At(c, j) && prev == if j == 0 then null else c[j - 1]
        invariant forall i | 0 <= i < j :: !(f.hash(key) == its[i].hash && f.eq(key, its[i].key))
        decreases |c| - j
      {
        prev := entry;
        entry := entry.next;
        j := j + 1;
      }
    }

    /** The value of the first match. */
    method Search(key: K) returns (r: Option<V>)
      requires Valid()
      ensures Found(r) == Step(f, View(), OpSearch(key)).1
      ensures var c := View().buckets[f.hash(key) % tableLength];
              exists j: nat :: FirstHit(f, key, c, j) && r == if j < |c| then Some(c[j].value) else None
    {
      var index, prev, entry, j := Locate(key);
      UnlinkAtHit(f, View(), key, index, j);
      r := if entry == null then None else Some(entry.value);
    }

    method UnlinkFirst(key: K) returns (r: Option<V>)
      requires Shape()
      modifies this`layout, this`entryCount, table, nodes
      ensures Shape()
      ensures (View(), Found(r)) == Step(f, old(View()), OpFetch(key))
    {
      hide Chain, Distinct;
      var index, prev, entry, j := Locate(key);
      UnlinkAtHit(f, View(), key, index, j);
      if entry == null {
        return None;
      }
      r := Some(entry.value);
      entryCount := (entryCount - 1) % WORD;
      layout := Splice(table, index, prev, entry, layout, nodes, j);
    }

    method ChangeFirst(key: K, value: V) returns (r: int)
      requires Shape()
      modifies this`layout, nodes
      ensures Shape()
      ensures (View(), Changed(r)) == Step(f, old(View()), OpChange(key, value))
    {
      hide Chain, Distinct;
      var index, prev, entry, j := Locate(key);
      ChangeAtHit(f, View(), key, value, index, j);
      if entry == null {
        return 0;
      }
      layout := SetValue(table, index, entry, value, layout, nodes, j);
      return -1;
    }

    /** Unlinks the first match and hands back its value. */
    method Fetch(key: K) returns (r: Option<V>)
      requires Valid()
      modifies this`layout, this`entryCount, table, nodes
      ensures Valid()
      ensures (View(), Found(r)) == Step(f, old(View()), OpFetch(key))
    {
      StepWellFormed(f, View(), OpFetch(key));
      r := UnlinkFirst(key);
    }

    /** As fetch, but a registered value destructor consumes the value. */
    method Remove(key: K) returns (r: Option<V>)
      requires Valid()
      modifies this`layout, this`entryCount, table, nodes
      ensures Valid()
      ensures (View(), Found(r)) == Step(f, old(View()), OpRemove(key))
    {
      StepWellFormed(f, View(), OpRemove(key));
      r := UnlinkFirst(key);
      if f.valueDtor {
        r := None;
      }
    }

    /** Overwrites the value of the first match; the code's result is -1 on success and 0 on a miss. */
    method Change(key: K, value: V) returns (r: int)
      requires Valid()
      modifies this`layout, nodes
      ensures Valid()
      ensures (View(), Changed(r)) == Step(f, old(View()), OpChange(key, value))
    {
      StepWellFormed(f, View(), OpChange(key, value));
      r := ChangeFirst(key, value);
    }

    /** Replaces the bucket array by one of newSize buckets. */
    method Enlarge(newSize: length32)
      requires Shape()
      modifies this`table, this`tableLength, this`layout, table, nodes
      ensures Shape() && fresh(table)
      ensures layout.items == Rehash(old(layout.items), newSize)
    {
      var newTable := new Entry?<K, V>[newSize](_ => null);
      ghost var t := Relink(table, newTable, layout, nodes);
      layout, table, tableLength := t, newTable, newSize;
    }

    /** Moves on to the next prime length, unless the list is at its end or the allocation fails. */
    method Expand(tableAlloc: bool) returns (ok: bool)
      requires Shape() && primeIndex < |PRIMES|
      modifies this`table, this`tableLength, this`loadLimit, this`primeIndex, this`layout, table, nodes
      ensures Shape() && (table == old(table) || fresh(table))
      ensures ok == (old(primeIndex) + 1 < |PRIMES| && tableAlloc)
      ensures !ok ==> View() == old(View())
      ensures ok ==> primeIndex == old(primeIndex) + 1 && loadLimit == LoadLimit(PRIMES[primeIndex], loadFactor)
      ensures ok ==> layout.items == Rehash(old(layout.items), PRIMES[primeIndex])
    {
      if primeIndex == |PRIMES| - 1 || !tableAlloc {
        return false;
      }
      var newSize := PRIMES[primeIndex + 1];
      Enlarge(newSize);
      primeIndex := primeIndex + 1;
      loadLimit := (newSize * loadFactor) % WORD / 100;
      return true;
    }

    constructor (f: Funcs<K>, minSize: nat)
      requires minSize < 0x4000_0000
      ensures Valid() && this.f == f && nodes == {} && fresh(table)
      ensures View() == InitialTable(minSize)
    {
      var size, i := TrimSize(minSize);
      InitialRefines<K, V>(minSize);
      this.f := f;
      table := new Entry?<K, V>[size](_ => null);
      tableLength, entryCount, loadFactor, primeIndex := size, 0, DEFAULT_LOAD_FACTOR, i;
      loadLimit := (size * DEFAULT_LOAD_FACTOR) % WORD / 100;
      layout, nodes := Layout(seq(size, _ => []), seq(size, _ => []), 0), {};
    }

    /** The growth half of an insertion, as far as the new entry's allocation. */
    method Reserve(tableAlloc: bool)
      requires Shape() && primeIndex < |PRIMES|
      modifies this`table, this`tableLength, this`loadLimit, this`primeIndex, this`entryCount, this`layout, table, nodes
      ensures Shape() && (table == old(table) || fresh(table))
      ensures View() == ChainedTable.Reserve(old(View()), tableAlloc)
    {
      entryCount := (entryCount + 1) % WORD;
      if entryCount > loadLimit {
        var expanded := Expand(tableAlloc);
      }
    }

    /** The second half: link the new entry, or take the advance count back. */
    method Place(key: K, value: V, entryAlloc: bool)
      requires Shape()
      modifies this`entryCount, this`layout, this`nodes, table
      ensures Shape() && fresh(nodes - old(nodes)) && old(nodes) <= nodes
      ensures View() == ChainedTable.Place(f, old(View()), key, value, entryAlloc)
    {
      if !entryAlloc {
        entryCount := (entryCount - 1) % WORD;
        return;
      }
      var hash := f.hash(key);
      var entry;
      entry, layout := Push(table, hash % tableLength, key, value, hash, layout, nodes);
      nodes := nodes + {entry};
    }

    method Add(key: K, value: V, tableAlloc: bool, entryAlloc: bool)
      requires Shape() && primeIndex < |PRIMES|
      modifies this, table, nodes
      ensures Shape() && (table == old(table) || fresh(table)) && fresh(nodes - old(nodes)) && old(nodes) <= nodes
      ensures View() == ChainedTable.Insert(f, old(View()), key, value, tableAlloc, entryAlloc)
    {
      Reserve(tableAlloc);
      Place(key, value, entryAlloc);
    }

    /** Inserts in front of the key's chain, after growing the table if the load limit is passed. */
    method Insert(key: K, value: V, tableAlloc: bool, entryAlloc: bool) returns (ok: bool)
      requires Valid()
      modifies this, table, nodes
      ensures Valid() && (table == old(table) || fresh(table)) && fresh(nodes - old(nodes)) && old(nodes) <= nodes
      ensures (View(), Inserted(ok)) == Step(f, old(View()), OpInsert(key, value, tableAlloc, entryAlloc))
    {
      StepWellFormed(f, View(), OpInsert(key, value, tableAlloc, entryAlloc));
      Add(key, value, tableAlloc, entryAlloc);
      return entryAlloc;
    }

    method SetLoadFactor(factor: uint32)
      requires Valid()
      modifies this`loadFactor
      ensures Valid()
      ensures (View(), Nothing) == Step(f, old(View()), OpSetLoadFactor(factor))
    {
      StepWellFormed(f, View(), OpSetLoadFactor(factor));
      loadFactor := factor;
    }
  }

  // ---------------------------------------------------------------------------
  // Runs
  // ---------------------------------------------------------------------------

  method Perform<K, V>(t: Table<K, V>, op: Op<K, V>) returns (out: Out<V>)
    requires t.Valid()
    modifies t, t.table, t.nodes
    ensures t.Valid() && (t.table == old(t.table) || fresh(t.table))
    ensures fresh(t.nodes - old(t.nodes)) && old(t.nodes) <= t.nodes
    ensures (t.View(), out) == Step(t.f, old(t.View()), op)
  {
    SomeBuckets(t);
    hide *;
    match op {
      case OpInsert(key, value, tableAlloc, entryAlloc) =>
        var ok := t.Insert(key, value, tableAlloc, entryAlloc);
        out := Inserted(ok);
      case OpSearch(key) =>
        SearchKeeps(t.f, t.View(), key);
        var r := t.Search(key);
        out := Found(r);
      case OpFetch(key) =>
        var r := t.Fetch(key);
        out := Found(r);
      case OpRemove(key) =>
        var r := t.Remove(key);
        out := Found(r);
      case OpChange(key, value) =>
        var r := t.Change(key, value);
        out := Changed(r);
      case OpSetLoadFactor(factor) =>
        t.SetLoadFactor(factor);
        out := Nothing;
    }
  }

  lemma SomeBuckets<K, V>(t: Table<K, V>)
    requires t.Valid()
    ensures 0 < |t.View().buckets|
  {
  }

  lemma SearchKeeps<K, V>(f: Funcs<K>, t: ChainedTable.Table<K, V>, k: K)
    requires 0 < |t.buckets|
    ensures Step(f, t, OpSearch(k)).0 == t
  {
  }

  /** Any run of calls on a new table, with any outcome of any allocation: the answers are those of the flat
      association list, and in the end the table holds the list's items. */
  method Replay<K, V>(f: Funcs<K>, minSize: nat, ops: seq<Op<K, V>>) returns (t: Table<K, V>, outs: seq<Out<V>>)
    requires minSize < 0x4000_0000
    ensures t.Valid() && t.f == f
    ensures var (a, answers) := AssocRun(f, Assoc([], InitialTable<K, V>(minSize).ctl), ops);
            outs == answers && multiset(Flatten(t.View().buckets)) == multiset(a.items) && t.View().ctl == a.ctl
  {
    t := new Table(f, minSize);
    outs := [];
    ghost var start := t.View();
    InitialRefines<K, V>(minSize);
    RunRefines(f, start, Assoc([], start.ctl), ops);
    RefinesControl(Run(f, start, ops).0, AssocRun(f, Assoc([], start.ctl), ops).0);
    hide *;
    assert ops[0..] == ops && outs + Run(f, start, ops).1 == Run(f, start, ops).1;
    for i := 0 to |ops|
      invariant t.Valid() && t.f == f && fresh(t) && fresh(t.table) && fresh(t.nodes)
      invariant Run(f, start, ops) == (Run(f, t.View(), ops[i..]).0, outs + Run(f, t.View(), ops[i..]).1)
    {
      SomeBuckets(t);
      RunHead(f, t.View(), ops, i);
      var out := Perform(t, ops[i]);
      Associate(outs, [out], Run(f, t.View(), ops[i + 1..]).1);
      outs := outs + [out];
    }
    RunEnd(f, t.View(), ops);
  }

  lemma RefinesControl<K, V>(t: ChainedTable.Table<K, V>, a: Assoc<K, V>)
    requires Refines(t, a)
    ensures t.ctl == a.ctl
  {
  }

  lemma RunHead<K, V>(f: Funcs<K>, t: ChainedTable.Table<K, V>, ops: seq<Op<K, V>>, i: nat)
    requires 0 < |t.buckets| && i < |ops|
    ensures var (next, out) := Step(f, t, ops[i]);
            0 < |next.buckets| && Run(f, t, ops[i..]) == (Run(f, next, ops[i + 1..]).0, [out] + Run(f, next, ops[i + 1..]).1)
  {
    assert ops[i..][1..] == ops[i + 1..];
  }

  lemma RunEnd<K, V>(f: Funcs<K>, t: ChainedTable.Table<K, V>, ops: seq<Op<K, V>>)
    requires 0 < |t.buckets|
    ensures Run(f, t, ops[|ops|..]) == (t, [])
  {
  }
}
