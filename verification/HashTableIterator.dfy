/** src/HashTableIterator.c: a cursor over the chains of a table, which can delete the entry it stands on. */
module HashTableIterator {
  import opened CTypes
  import opened ChainedTable
  import opened HashTable
  import opened Sequences

  /** The walk over the entries is as long as the walk over their items. */
  lemma SameWalkLength<K, V>(table: array<Entry?<K, V>>, l: Layout<K, V>, nodes: set<Entry<K, V>>)
    requires Linked(table, l, nodes)
    ensures |Flatten(l.chains)| == |Flatten(l.items)|
  {
    forall b | 0 <= b < |l.chains| ensures |l.chains[b]| == |l.items[b]| {
      assert Chain(table[b], l.chains[b], l.items[b], l.from + b);
    }
    SameLengths(l.chains, l.items);
  }

  lemma {:induction false} SameLengths<S, T>(a: seq<seq<S>>, b: seq<seq<T>>)
    requires |a| == |b| && forall i | 0 <= i < |a| :: |a[i]| == |b[i]|
    ensures |Flatten(a)| == |Flatten(b)|
  {
    if a != [] {
      SameLengths(a[1..], b[1..]);
    }
  }

  /** Buckets passed over empty leave nothing behind. */
  lemma SkippedPrefix<T>(ss: seq<seq<T>>, a: nat, b: nat)
    requires a <= b <= |ss| && forall i | a <= i < b :: ss[i] == []
    ensures Flatten(ss[..b]) == Flatten(ss[..a])
  {
    assert ss[..b] == ss[..a] + ss[a..b];
    FlattenConcat(ss[..a], ss[a..b]);
    FlattenEmpty(ss[a..b]);
  }

  // ---------------------------------------------------------------------------
  // Cutting a walk at place p of bucket i
  // ---------------------------------------------------------------------------

  function Past<T>(ss: seq<seq<T>>, i: nat, p: nat): seq<T>
    requires i < |ss| ==> p <= |ss[i]|
  {
    if i < |ss| then Flatten(ss[..i]) + ss[i][..p] else Flatten(ss)
  }

  function Ahead<T>(ss: seq<seq<T>>, i: nat, p: nat): seq<T>
    requires i < |ss| ==> p <= |ss[i]|
  {
    if i < |ss| then ss[i][p..] + Flatten(ss[i + 1..]) else []
  }

  lemma Regroup<T>(a: seq<T>, b: seq<T>, c: seq<T>, d: seq<T>)
    ensures a + (b + c) + d == (a + b) + (c + d)
  {
    Associate(a, b, c);
    Associate(a + b, c, d);
  }

  lemma WholeWalk<T>(ss: seq<seq<T>>, i: nat, p: nat)
    requires i < |ss| ==> p <= |ss[i]|
    ensures Past(ss, i, p) + Ahead(ss, i, p) == Flatten(ss)
  {
    if i < |ss| {
      FlattenAround(ss, i);
      assert ss[i] == ss[i][..p] + ss[i][p..];
      Regroup(Flatten(ss[..i]), ss[i][..p], ss[i][p..], Flatten(ss[i + 1..]));
    }
  }

  lemma StartOfWalk<T>(ss: seq<seq<T>>, i: nat)
    requires i <= |ss| && forall b | 0 <= b < i :: ss[b] == []
    ensures Past(ss, i, 0) == [] && Ahead(ss, i, 0) == Flatten(ss)
  {
    FlattenEmpty(ss[..i]);
    assert i == |ss| ==> ss[..i] == ss;
    WholeWalk(ss, i, 0);
  }

  lemma StepWithin<T>(ss: seq<seq<T>>, i: nat, p: nat)
    requires i < |ss| && p < |ss[i]|
    ensures Ahead(ss, i, p) == [ss[i][p]] + Ahead(ss, i, p + 1)
    ensures Past(ss, i, p + 1) == Past(ss, i, p) + [ss[i][p]]
  {
    hide Flatten;
    assert ss[i][p..] == [ss[i][p]] + ss[i][p + 1..];
    assert ss[i][..p + 1] == ss[i][..p] + [ss[i][p]];
    Associate([ss[i][p]], ss[i][p + 1..], Flatten(ss[i + 1..]));
    Associate(Flatten(ss[..i]), ss[i][..p], [ss[i][p]]);
  }

  lemma StepOver<T>(ss: seq<seq<T>>, i: nat, i': nat)
    requires i < i' <= |ss| && forall b | i < b < i' :: ss[b] == []
    ensures Ahead(ss, i, |ss[i]|) == Ahead(ss, i', 0)
    ensures Past(ss, i, |ss[i]|) == Past(ss, i', 0)
  {
    hide Flatten;
    FlattenSkip(ss, i + 1, i');
    SkippedPrefix(ss, i + 1, i');
    FlattenSnoc(ss[..i], ss[i]);
    assert ss[..i + 1] == ss[..i] + [ss[i]];
    AtBucket(ss, i');
    assert ss[i][|ss[i]|..] == [] && ss[i][..|ss[i]|] == ss[i];
  }

  /** In front of bucket i. */
  lemma AtBucket<T>(ss: seq<seq<T>>, i: nat)
    requires i <= |ss|
    ensures Ahead(ss, i, 0) == Flatten(ss[i..]) && Past(ss, i, 0) == Flatten(ss[..i])
  {
    if i == |ss| {
      assert ss[..i] == ss;
    } else {
      hide Flatten;
      assert ss[i..] == [ss[i]] + ss[i + 1..];
      FlattenFirst(ss[i], ss[i + 1..]);
      assert ss[i][0..] == ss[i] && ss[i][..0] == [] && Flatten(ss[..i]) + [] == Flatten(ss[..i]);
    }
  }

  /** Place (i', p') follows place q of bucket i: in the same bucket, or at the next non-empty one. */
  ghost predicate Follows<T>(ss: seq<seq<T>>, i: nat, q: nat, i': nat, p': nat)
    requires i < |ss| && q <= |ss[i]|
  {
    && (i' < |ss| ==> p' < |ss[i']|)
    && if q < |ss[i]| then i' == i && p' == q
       else i < i' <= |ss| && p' == 0 && forall b | i < b < i' :: ss[b] == []
  }

  lemma FollowingWalk<T>(ss: seq<seq<T>>, i: nat, q: nat, i': nat, p': nat)
    requires i < |ss| && q <= |ss[i]| && Follows(ss, i, q, i', p')
    ensures Ahead(ss, i', p') == Ahead(ss, i, q) && Past(ss, i', p') == Past(ss, i, q)
    ensures if i' < |ss| then Ahead(ss, i', p') != [] && Ahead(ss, i', p')[0] == ss[i'][p'] else Ahead(ss, i', p') == []
  {
    if q == |ss[i]| {
      StepOver(ss, i, i');
    }
  }

  /** Moving on leaves exactly the current element behind. */
  lemma NextWalk<T>(ss: seq<seq<T>>, i: nat, p: nat, i': nat, p': nat)
    requires i < |ss| && p < |ss[i]| && Follows(ss, i, p + 1, i', p')
    ensures Ahead(ss, i', p') == Ahead(ss, i, p)[1..] && Past(ss, i', p') == Past(ss, i, p) + [ss[i][p]]
    ensures if i' < |ss| then Ahead(ss, i', p') != [] && Ahead(ss, i', p')[0] == ss[i'][p'] else Ahead(ss, i', p') == []
  {
    StepWithin(ss, i, p);
    FollowingWalk(ss, i, p + 1, i', p');
  }

  /** Taking the current element out, then standing on what follows, drops exactly that element. */
  lemma RemovalWalk<T>(ss: seq<seq<T>>, ss': seq<seq<T>>, i: nat, p: nat, i': nat, p': nat)
    requires i < |ss| && p < |ss[i]| && ss' == ss[i := Without(ss[i], p)] && Follows(ss', i, p, i', p')
    ensures Ahead(ss', i', p') == Ahead(ss, i, p)[1..] && Past(ss', i', p') == Past(ss, i, p)
    ensures if i' < |ss'| then Ahead(ss', i', p') != [] && Ahead(ss', i', p')[0] == ss'[i'][p'] else Ahead(ss', i', p') == []
    ensures |Flatten(ss')| == |Flatten(ss)| - 1
  {
    assert ss'[..i] == ss[..i] && ss'[i + 1..] == ss[i + 1..];
    assert ss'[i][..p] == ss[i][..p] && ss'[i][p..] == ss[i][p + 1..];
    StepWithin(ss, i, p);
    FollowingWalk(ss', i, p, i', p');
    WholeWalk(ss, i, p);
    WholeWalk(ss', i, p);
  }

  // ---------------------------------------------------------------------------
  // Whole iterations
  // ---------------------------------------------------------------------------

  /** What stays of s when the elements marked in `drop` are taken out. */
  function Kept<T>(s: seq<T>, drop: seq<bool>): seq<T>
    requires |s| == |drop|
  {
    if s == [] then []
    else if drop[0] then Kept(s[1..], drop[1..])
    else [s[0]] + Kept(s[1..], drop[1..])
  }

  lemma KeptNone<T>(drop: seq<bool>)
    requires drop == []
    ensures Kept<T>([], drop) == []
  {
  }

  lemma KeptFirst<T>(x: T, rest: seq<T>, drop: seq<bool>, before: seq<T>, after: seq<T>)
    requires |drop| == |rest| + 1
    requires after == before + (if drop[0] then [] else [x]) + Kept(rest, drop[1..])
    ensures after == before + Kept([x] + rest, drop)
  {
    hide Kept;
    KeptSplit(x, rest, drop);
    Associate(before, if drop[0] then [] else [x], Kept(rest, drop[1..]));
  }

  lemma KeptSplit<T>(x: T, rest: seq<T>, drop: seq<bool>)
    requires |drop| == |rest| + 1
    ensures Kept([x] + rest, drop) == (if drop[0] then [] else [x]) + Kept(rest, drop[1..])
  {
    assert ([x] + rest)[1..] == rest;
  }

  /** The items of a walk, entry by entry. */
  lemma {:induction false} WalkItems<K, V>(chains: seq<seq<Entry<K, V>>>, items: seq<seq<Item<K, V>>>)
    requires |chains| == |items| && forall b | 0 <= b < |chains| :: Carries(chains[b], items[b])
    ensures Carries(Flatten(chains), Flatten(items))
  {
    if chains != [] {
      WalkItems(chains[1..], items[1..]);
      assert Carries(chains[0], items[0]);
    }
  }

  lemma {:induction false} WalkWithin<T>(ss: seq<seq<T>>, all: set<T>)
    requires forall b, e | 0 <= b < |ss| && e in ss[b] :: e in all
    ensures forall e | e in Flatten(ss) :: e in all
  {
    if ss != [] {
      WalkWithin(ss[1..], all);
    }
  }

  ghost predicate Carries<K, V>(es: seq<Entry<K, V>>, its: seq<Item<K, V>>)
    reads es
  {
    |es| == |its| && forall i | 0 <= i < |es| :: es[i].AsItem() == its[i]
  }

  lemma {:induction false} KeptItems<K, V>(es: seq<Entry<K, V>>, its: seq<Item<K, V>>, drop: seq<bool>)
    requires Carries(es, its) && |drop| == |es|
    ensures Carries(Kept(es, drop), Kept(its, drop))
  {
    if es != [] {
      KeptItems(es[1..], its[1..], drop[1..]);
    }
  }

  lemma SameItems<K, V>(es: seq<Entry<K, V>>, a: seq<Item<K, V>>, b: seq<Item<K, V>>)
    requires Carries(es, a) && Carries(es, b)
    ensures a == b
  {
    forall i | 0 <= i < |a| ensures a[i] == b[i] {
      assert es[i].AsItem() == a[i];
    }
  }

  class Cursor<K(==), V> {
    const hashTable: HashTable.Table<K, V>
    var entry: Entry?<K, V>
    var parent: Entry?<K, V>
    var index: nat
    var initialized: bool

    /** The place of the current entry within its chain. */
    ghost var pos: nat

    constructor (hashTable: HashTable.Table<K, V>)
      requires hashTable.Valid()
      ensures Valid() && this.hashTable == hashTable && !initialized
    {
      this.hashTable := hashTable;
      entry, parent, index, initialized, pos := null, null, 0, false, 0;
      SameWalkLength(hashTable.table, hashTable.layout, hashTable.nodes);
    }

    ghost function Chains(): seq<seq<Entry<K, V>>>
      reads this, hashTable
    {
      hashTable.layout.chains
    }

    /** Standing on an entry, `parent` is its predecessor in the chain, or null at the chain's head. */
    ghost predicate Standing()
      reads this, hashTable
    {
      && index < |Chains()| && pos < |Chains()[index]|
      && entry == Chains()[index][pos]
      && parent == if pos == 0 then null else Chains()[index][pos - 1]
    }

    ghost predicate AtEnd()
      reads this, hashTable
    {
      entry == null && parent == null && index == |Chains()|
    }

    ghost predicate Valid()
      reads this, hashTable, hashTable.table, hashTable.nodes
    {
      && hashTable.Shape()
      && hashTable.entryCount == |Flatten(Chains())| % WORD
      && (initialized ==> if entry != null then Standing() else AtEnd())
    }

    /** The entries still to come, the current one first. */
    ghost function Todo(): seq<Entry<K, V>>
      requires Valid()
      reads this, hashTable, hashTable.table, hashTable.nodes
    {
      if !initialized then (if hashTable.entryCount == 0 then [] else Flatten(Chains()))
      else Ahead(Chains(), index, pos)
    }

    /** The entries of the table that have been left behind. */
    ghost function Done(): seq<Entry<K, V>>
      requires Valid()
      reads this, hashTable, hashTable.table, hashTable.nodes
    {
      if !initialized then []
      else Past(Chains(), index, pos)
    }

    /** The search for a non-empty bucket that first and next share, from bucket j on. */
    method Seek(j: nat)
      requires hashTable.Shape() && j <= hashTable.tableLength
      modifies this`entry, this`parent, this`index, this`pos
      ensures j <= index <= |Chains()| && pos == 0 && parent == null
      ensures forall b | j <= b < index :: Chains()[b] == []
      ensures if index < |Chains()| then Chains()[index] != [] && entry == Chains()[index][0] else entry == null
    {
      parent, pos := null, 0;
      var i := j;
      while i < hashTable.tableLength
        invariant j <= i <= |Chains()| && parent == null && pos == 0
        invariant forall b | j <= b < i :: Chains()[b] == []
      {
        if hashTable.table[i] != null {
          entry, index := hashTable.table[i], i;
          return;
        }
        i := i + 1;
      }
      entry, index := null, hashTable.tableLength;
    }

    /** Goes to the first entry of the table. */
    method First()
      requires Valid()
      modifies this`entry, this`parent, this`index, this`initialized, this`pos
      ensures Valid() && (initialized <==> hashTable.entryCount != 0)
      ensures Done() == [] && Todo() == if hashTable.entryCount == 0 then [] else Flatten(Chains())
      ensures entry == At(Todo(), 0)
    {
      if hashTable.entryCount == 0 {
        entry, parent, index, initialized := null, null, hashTable.tableLength, false;
        return;
      }
      Seek(0);
      initialized := true;
      StartOfWalk(Chains(), index);
    }

    ghost predicate Placed()
      reads this, hashTable
    {
      if entry != null then Standing() else AtEnd()
    }

    /** The second half of next: leaves the current entry for its successor, at place q of the chain in bucket
        `index`, or for the next non-empty bucket. */
    method MoveOn(ghost q: nat)
      requires hashTable.Shape() && index < |Chains()| && q <= |Chains()[index]|
      requires entry != null && entry.next == At(Chains()[index], q)
      modifies this`entry, this`parent, this`index, this`pos
      ensures Follows(Chains(), old(index), q, index, pos)
      ensures if index < |Chains()| then entry == Chains()[index][pos] else entry == null
      ensures parent == if q < |Chains()[old(index)]| then old(entry) else null
    {
      var next := entry.next;
      if next != null {
        parent, entry, pos := entry, next, q;
        return;
      }
      Seek(index + 1);
    }

    /** next, standing on an entry. */
    method Advance()
      requires hashTable.Shape() && Standing()
      modifies this`entry, this`parent, this`index, this`pos
      ensures Placed() && Follows(Chains(), old(index), old(pos) + 1, index, pos)
    {
      assert Chain(hashTable.table[index], Chains()[index], hashTable.layout.items[index], hashTable.layout.from + index);
      MoveOn(pos + 1);
    }

    /** Goes to the next entry; the result is 0 exactly when there is none. */
    method Next() returns (r: int)
      requires Valid()
      modifies this`entry, this`parent, this`index, this`initialized, this`pos
      ensures Valid() && entry == At(Todo(), 0) && r == if Todo() == [] then 0 else -1
      ensures !old(initialized) || old(entry) == null ==> Todo() == old(Todo()) && Done() == old(Done())
      ensures old(initialized) && old(entry) != null ==>
                Todo() == old(Todo())[1..] && Done() == old(Done()) + [old(entry)]
      ensures initialized <==> old(initialized) || hashTable.entryCount != 0
      ensures Chains() == old(Chains())
    {
      if !initialized {
        First();
      } else if entry != null {
        ghost var i, p := index, pos;
        Advance();
        NextWalk(Chains(), i, p, index, pos);
      }
      return if entry != null then -1 else 0;
    }

    /** The start of remove: takes the current entry out of its chain and out of the count. */
    method Unlink()
      requires hashTable.Shape() && Standing()
      modifies hashTable`layout, hashTable`entryCount, hashTable.table, hashTable.nodes
      ensures hashTable.Shape()
      ensures Chains() == old(Chains())[index := Without(old(Chains())[index], pos)]
      ensures hashTable.View() == ChainedTable.Table(
                                    old(hashTable.layout.items)[index := Without(old(hashTable.layout.items)[index], pos)],
                                    Uncount(old(hashTable.View().ctl), true))
      ensures entry.next == At(Chains()[index], pos) && entry !in Chains()[index]
      ensures forall e | e in hashTable.nodes :: e.AsItem() == old(e.AsItem())
    {
      hide Flatten;
      ghost var c := Chains()[index];
      assert Chain(hashTable.table[index], c, hashTable.layout.items[index], hashTable.layout.from + index);
      assert entry.next == At(c, pos + 1);
      WithoutDistinct(c, pos);
      hashTable.layout := Splice(hashTable.table, index, parent, entry, hashTable.layout, hashTable.nodes, pos);
      hashTable.entryCount := (hashTable.entryCount - 1) % WORD;
    }

    /** The end of remove: the current entry is out of its chain already, and `parent` must not stay on it. */
    method MoveOff()
      requires hashTable.Shape() && index < |Chains()| && pos <= |Chains()[index]|
      requires entry != null && entry.next == At(Chains()[index], pos) && entry !in Chains()[index]
      requires parent == if pos == 0 then null else Chains()[index][pos - 1]
      modifies this`entry, this`parent, this`index, this`pos
      ensures Placed() && Follows(Chains(), old(index), old(pos), index, pos)
    {
      var rememberE, rememberParent := entry, parent;
      MoveOn(pos);
      if parent == rememberE {
        parent := rememberParent;
      }
    }

    /** The body of remove, in terms of places. */
    method Detach()
      requires hashTable.Shape() && Standing()
      modifies this`entry, this`parent, this`index, this`pos,
               hashTable`layout, hashTable`entryCount, hashTable.table, hashTable.nodes
      ensures hashTable.Shape() && Placed()
      ensures Chains() == old(Chains()[index := Without(Chains()[index], pos)])
      ensures Follows(Chains(), old(index), old(pos), index, pos)
      ensures hashTable.View() == ChainedTable.Table(
                old(hashTable.layout.items[index := Without(hashTable.layout.items[index], pos)]),
                Uncount(old(hashTable.View().ctl), true))
      ensures forall e | e in hashTable.nodes :: e.AsItem() == old(e.AsItem())
    {
      Unlink();
      MoveOff();
    }

    /** The same, in terms of the walk. */
    method Take()
      requires Valid() && initialized && entry != null
      modifies this`entry, this`parent, this`index, this`pos,
               hashTable`layout, hashTable`entryCount, hashTable.table, hashTable.nodes
      ensures Valid() && initialized && entry == At(Todo(), 0)
      ensures Done() == old(Done()) && Todo() == old(Todo())[1..]
      ensures hashTable.View() == ChainedTable.Table(
                old(hashTable.layout.items[index := Without(hashTable.layout.items[index], pos)]),
                Uncount(old(hashTable.View().ctl), true))
      ensures forall e | e in hashTable.nodes :: e.AsItem() == old(e.AsItem())
    {
      hide Linked, Flatten, Past, Ahead, Follows, Without;
      ghost var i, p, ss := index, pos, Chains();
      ghost var ctl := hashTable.View().ctl;
      Detach();
      RemovalWalk(ss, Chains(), i, p, index, pos);
      UncountCounts(ctl, true, |Flatten(ss)|);
    }

    /** Deletes the current entry and stands on its successor; a table in good order stays in good order. */
    method Remove()
      requires Valid() && initialized && entry != null
      modifies this`entry, this`parent, this`index, this`pos,
               hashTable`layout, hashTable`entryCount, hashTable.table, hashTable.nodes
      ensures Valid() && initialized && entry == At(Todo(), 0)
      ensures Done() == old(Done()) && Todo() == old(Todo())[1..]
      ensures hashTable.View() == ChainedTable.Table(
                old(hashTable.layout.items[index := Without(hashTable.layout.items[index], pos)]),
                Uncount(old(hashTable.View().ctl), true))
      ensures forall e | e in hashTable.nodes :: e.AsItem() == old(e.AsItem())
      ensures old(hashTable.Valid()) ==> hashTable.Valid()
    {
      hide Flatten, Past, Ahead;
      ghost var t, c := hashTable.View(), Without(hashTable.layout.items[index], pos);
      if hashTable.Valid() {
        RemovalWellFormed(t, index, c);
      }
      hide Linked, Without, WellFormed;
      Take();
    }

    /** Answers the current entry with next or remove. */
    method Visit(drop: bool)
      requires Valid() && initialized && entry != null
      modifies this`entry, this`parent, this`index, this`initialized, this`pos,
               hashTable`layout, hashTable`entryCount, hashTable.table, hashTable.nodes
      ensures Valid() && initialized
      ensures old(Todo()) == [old(entry)] + Todo()
      ensures Done() == old(Done()) + if drop then [] else [old(entry)]
      ensures old(hashTable.Valid()) ==> hashTable.Valid()
      ensures forall e | e in hashTable.nodes :: e.AsItem() == old(e.AsItem())
    {
      hide *;
      StandingWalk();
      if drop {
        Remove();
      } else {
        var r := Next();
      }
    }

    lemma StandingWalk()
      requires Valid() && initialized
      ensures if entry == null then Todo() == [] else Todo() != [] && Todo()[0] == entry
    {
      if entry != null {
        StepWithin(Chains(), index, pos);
      }
    }

    /** Answers every entry from the current one on. */
    method SweepOn(drop: seq<bool>) returns (ghost visited: seq<Entry<K, V>>)
      requires Valid() && initialized && |drop| == |Todo()|
      modifies this`entry, this`parent, this`index, this`initialized, this`pos,
               hashTable`layout, hashTable`entryCount, hashTable.table, hashTable.nodes
      ensures Valid() && initialized && entry == null && Todo() == []
      ensures visited == old(Todo()) && Done() == old(Done()) + Kept(old(Todo()), drop)
      ensures old(hashTable.Valid()) ==> hashTable.Valid()
      ensures forall e | e in hashTable.nodes :: e.AsItem() == old(e.AsItem())
      decreases |drop|
    {
      hide *;
      visited := [];
      StandingWalk();
      if entry == null {
        KeptNone<Entry<K, V>>(drop);
      } else {
        ghost var current: Entry<K, V>, done := entry, Done();
        Visit(drop[0]);
        visited := SweepOn(drop[1..]);
        KeptFirst(current, visited, drop, done, Done());
        visited := [current] + visited;
      }
    }

    lemma Whole()
      requires Valid()
      ensures initialized || hashTable.entryCount != 0 ==> Done() + Todo() == Flatten(Chains())
    {
      if initialized {
        WholeWalk(Chains(), index, pos);
      }
    }

    /** An iteration over an otherwise unchanged table that answers each entry with next or remove, as `drop`
        says. Every entry of the table is current exactly once, in walking order; exactly the others stay, in
        their order and with their keys and values. (A count that wrapped to 0 ends the iteration before it starts.) */
    method Sweep(drop: seq<bool>) returns (ghost visited: seq<Entry<K, V>>)
      requires Valid() && !initialized && |drop| == |Todo()|
      modifies this`entry, this`parent, this`index, this`initialized, this`pos,
               hashTable`layout, hashTable`entryCount, hashTable.table, hashTable.nodes
      ensures Valid() && entry == null
      ensures visited == old(Todo())
      ensures Flatten(Chains()) == if old(hashTable.entryCount) == 0 then old(Flatten(Chains()))
                                   else Kept(old(Flatten(Chains())), drop)
      ensures old(hashTable.entryCount) != 0 ==>
                && |drop| == |old(Flatten(hashTable.View().buckets))|
                && Flatten(hashTable.View().buckets) == Kept(old(Flatten(hashTable.View().buckets)), drop)
      ensures old(hashTable.Valid()) ==> hashTable.Valid()
      ensures forall e | e in hashTable.nodes :: e.AsItem() == old(e.AsItem())
    {
      hide *;
      NotStarted();
      EntriesCarry();
      ghost var todo, es, its := Todo(), Flatten(Chains()), Flatten(hashTable.View().buckets);
      visited := [];
      var r := Next();
      if initialized {
        visited := SweepOn(drop);
        Whole();
        assert [] + Kept(todo, drop) == Kept(todo, drop) && Done() + [] == Done();
        SweptItems(es, its, drop);
      }
    }

    /** Each entry of the walk carries its item. */
    lemma EntriesCarry()
      requires hashTable.Shape()
      ensures Carries(Flatten(Chains()), Flatten(hashTable.View().buckets))
      ensures forall e | e in Flatten(Chains()) :: e in hashTable.nodes
    {
      var l := hashTable.layout;
      forall b | 0 <= b < |l.chains| ensures Carries(l.chains[b], l.items[b]) {
        assert Chain(hashTable.table[b], l.chains[b], l.items[b], l.from + b);
      }
      WalkItems(l.chains, l.items);
      WalkWithin(l.chains, hashTable.nodes);
    }

    lemma SweptItems(es: seq<Entry<K, V>>, its: seq<Item<K, V>>, drop: seq<bool>)
      requires Valid() && Carries(es, its) && |drop| == |es| && Flatten(Chains()) == Kept(es, drop)
      ensures Flatten(hashTable.View().buckets) == Kept(its, drop)
    {
      EntriesCarry();
      KeptItems(es, its, drop);
      SameItems(Flatten(Chains()), Flatten(hashTable.View().buckets), Kept(its, drop));
    }

    lemma NotStarted()
      requires Valid() && !initialized
      ensures Done() == [] && Todo() == if hashTable.entryCount == 0 then [] else Flatten(Chains())
      ensures At<K, V>([], 0) == null && hashTable.Shape()
    {
    }
  }
}
