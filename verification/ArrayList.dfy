/** The growable stack of src/ArrayList.c. */
module ArrayList {
  import opened CTypes
  import opened Wrappers
  import opened Sequences

  const FIRST_SIZE: nat := 50

  /** Items are pointers; None stands for NULL. */
  type Item<T> = Option<T>

  class ArrayList<T> {
    var free: int
    var count: int
    var buffer: array?<Item<T>>

    /** How often the buffer has been doubled, how many slots have been copied, and how many items pushed. */
    ghost var doublings: nat
    ghost var copied: nat
    ghost var pushes: nat

    ghost function Capacity(): nat
      reads this
    {
      if buffer == null then 0 else buffer.Length
    }

    ghost predicate Valid()
      reads this
    {
      && 0 <= count && 0 <= free && count + free == Capacity()
      && (buffer == null ==> copied == 0 && doublings == 0)
      && (buffer != null ==> && buffer.Length == FIRST_SIZE * Pow2(doublings)
                             && copied == buffer.Length - FIRST_SIZE
                             && 0 < pushes && (0 < doublings ==> buffer.Length < 2 * pushes))
      && count <= pushes
    }

    ghost function Items(): seq<Item<T>>
      requires Valid()
      reads this, buffer
    {
      if buffer == null then [] else buffer[..count]
    }

    /** ArrayList_init. */
    constructor ()
      ensures Valid() && Items() == [] && buffer == null && pushes == 0
    {
      free, count, buffer := 0, 0, null;
      doublings, copied, pushes := 0, 0, 0;
    }

    /** ArrayList_allocate, for a full list that is about to take an item: `pushes` counts it already. */
    method Allocate()
      requires Valid() && free == 0 && count < pushes
      modifies this`buffer, this`free, this`doublings, this`copied
      ensures Valid() && Items() == old(Items()) && fresh(buffer) && 0 < free
      ensures Capacity() == if old(Capacity()) == 0 then 50 else 2 * old(Capacity())
      ensures copied == old(copied) + old(Capacity())
    {
      var newSize := count * 2;
      if newSize == 0 {
        newSize := FIRST_SIZE;
      }
      var newBuffer := new Item<T>[newSize](_ => None);
      if buffer != null {
        forall i | 0 <= i < count {
          newBuffer[i] := buffer[i];
        }
        assert 0 < count;
        copied := copied + count;
        doublings := doublings + 1;
      }
      buffer := newBuffer;
      free := newSize - count;
    }

    method Push(item: Item<T>)
      requires Valid()
      modifies this, buffer
      ensures Valid() && Items() == old(Items()) + [item]
      ensures buffer == old(buffer) || fresh(buffer)
      ensures pushes == old(pushes) + 1
      ensures Capacity() == old(Capacity()) <==> old(free) > 0
    {
      pushes := pushes + 1;
      if free <= 0 {
        Allocate();
      }
      buffer[count] := item;
      count := count + 1;
      free := free - 1;
    }

    method Pop() returns (item: Item<T>)
      requires Valid()
      modifies this`count, this`free
      ensures Valid()
      ensures if old(Items()) == [] then item == None && Items() == []
              else old(Items()) == Items() + [item]
    {
      item := None;
      if count > 0 {
        count := count - 1;
        item := buffer[count];
        free := free + 1;
      }
    }

    method Get(index: int) returns (item: Item<T>)
      requires Valid()
      ensures item == if 0 <= index < |Items()| then Items()[index] else None
    {
      item := None;
      if index >= 0 && index < count {
        item := buffer[index];
      }
    }

    method Length() returns (n: int)
      requires Valid()
      ensures n == |Items()|
    {
      return count;
    }

    method Reset()
      requires Valid()
      modifies this`count, this`free
      ensures Valid() && Items() == []
    {
      free := free + count;
      count := 0;
    }
  }

  // ---------------------------------------------------------------------------
  // Runs
  // ---------------------------------------------------------------------------

  datatype Op<T> = PushOp(item: Item<T>) | PopOp | GetOp(index: int) | LengthOp | ResetOp

  datatype Out<T> = Nothing | Got(item: Item<T>) | Counted(n: int)

  /** One operation on a stack, whose top is its end. */
  function Step<T>(stack: seq<Item<T>>, op: Op<T>): (seq<Item<T>>, Out<T>) {
    match op
    case PushOp(x) => (stack + [x], Nothing)
    case PopOp => if stack == [] then (stack, Got(None)) else (stack[..|stack| - 1], Got(stack[|stack| - 1]))
    case GetOp(i) => (stack, Got(if 0 <= i < |stack| then stack[i] else None))
    case LengthOp => (stack, Counted(|stack|))
    case ResetOp => ([], Nothing)
  }

  function Run<T>(stack: seq<Item<T>>, ops: seq<Op<T>>): seq<Out<T>>
    decreases |ops|
  {
    if ops == [] then []
    else
      var (next, out) := Step(stack, ops[0]);
      [out] + Run(next, ops[1..])
  }

  function Pushes<T>(ops: seq<Op<T>>): nat {
    if ops == [] then 0 else (if ops[0].PushOp? then 1 else 0) + Pushes(ops[1..])
  }

  method Perform<T>(list: ArrayList<T>, op: Op<T>) returns (out: Out<T>)
    requires list.Valid()
    modifies list, list.buffer
    ensures list.Valid() && (list.Items(), out) == Step(old(list.Items()), op)
    ensures list.buffer == old(list.buffer) || fresh(list.buffer)
    ensures list.pushes == old(list.pushes) + if op.PushOp? then 1 else 0
  {
    out := Nothing;
    match op {
      case PushOp(x) =>
        list.Push(x);
      case PopOp =>
        ghost var before := list.Items();
        var item := list.Pop();
        assert before != [] ==> list.Items() == before[..|before| - 1];
        out := Got(item);
      case GetOp(i) =>
        var item := list.Get(i);
        out := Got(item);
      case LengthOp =>
        var n := list.Length();
        out := Counted(n);
      case ResetOp =>
        list.Reset();
    }
  }

  /** Any run on a new list: it answers as a stack does, its buffer is a doubled first one, and growing has
      copied fewer than two slots per push, however the pushes are mixed with the other operations. */
  method Replay<T>(ops: seq<Op<T>>) returns (list: ArrayList<T>, outs: seq<Out<T>>)
    ensures outs == Run([], ops)
    ensures list.Valid() && list.pushes == Pushes(ops)
    ensures list.Capacity() == 0 || list.Capacity() == 50 * Pow2(list.doublings)
    ensures list.copied == 0 || list.copied < 2 * Pushes(ops)
  {
    list := new ArrayList();
    outs := [];
    var i := 0;
    assert ops[0..] == ops;
    while i < |ops|
      invariant 0 <= i <= |ops| && list.Valid() && fresh(list) && (list.buffer == null || fresh(list.buffer))
      invariant list.pushes + Pushes(ops[i..]) == Pushes(ops)
      invariant outs + Run(list.Items(), ops[i..]) == Run([], ops)
    {
      assert ops[i..][1..] == ops[i + 1..];
      ghost var before := list.Items();
      var out := Perform(list, ops[i]);
      Associate(outs, [out], Run(list.Items(), ops[i + 1..]));
      outs := outs + [out];
      i := i + 1;
    }
  }
}
