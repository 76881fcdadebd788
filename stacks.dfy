/**
 * The stack abstract data type of abstraction.cpp: the `Stack<T>` interface with its
 * `pushMultiple`/`popMultiple` helpers, the array-backed `ArrayStack<T>` (a fixed buffer of
 * `MAX_SIZE` slots and a `top_index_`) and the vector-backed `VectorStack<T>`.
 *
 * A stack's abstract value is a sequence, bottom first and top last. The functions below give
 * the meaning of each operation on that value; the two classes are proved against them, and
 * `ArrayMatchesVector` proves the two implementations agree on exactly the operation
 * sequences that never need more than `MAX_SIZE` slots.
 */
module Stacks {
  import opened Wrappers

  /** `ArrayStack::MAX_SIZE` */
  const MAX_SIZE: nat := 1000

  /**
   * The exceptions: `std::overflow_error("Stack overflow")` from `push`,
   * `std::underflow_error("Stack underflow")` from `pop` and
   * `std::underflow_error("Stack is empty")` from `top`.
   */
  datatype StackError = Overflow | Underflow | StackEmpty

  // ----- Meaning of the operations on the abstract value -----

  /** `push(x)`; `bounded` selects the capacity check of the array-backed stack. */
  function Pushed<T>(bounded: bool, s: seq<T>, x: T): (r: Result<seq<T>, StackError>)
    ensures r.Failure? <==> bounded && |s| >= MAX_SIZE
    ensures r.Success? ==> |r.value| == |s| + 1
  {
    if bounded && |s| >= MAX_SIZE then Failure(Overflow) else Success(s + [x])
  }

  /** `pop()`: the top item and the stack without it. */
  function Popped<T>(s: seq<T>): (r: Result<(T, seq<T>), StackError>)
    ensures r.Failure? <==> |s| == 0
    ensures r.Success? ==> |r.value.1| == |s| - 1
  {
    if |s| == 0 then Failure(Underflow) else Success((s[|s| - 1], s[..|s| - 1]))
  }

  /** `top()` */
  function TopOf<T>(s: seq<T>): (r: Result<T, StackError>)
    ensures r.Failure? <==> |s| == 0
  {
    if |s| == 0 then Failure(StackEmpty) else Success(s[|s| - 1])
  }

  /**
   * `pushMultiple(items)`: pushes in order and lets the first exception escape, so the items
   * pushed before it stay. Gives the new value and the exception, if one escaped.
   */
  function PushAll<T>(bounded: bool, s: seq<T>, items: seq<T>): (r: (seq<T>, Option<StackError>))
    ensures |s| <= |r.0| <= |s| + |items|
    ensures r.1.Some? ==> bounded && r.1 == Some(Overflow)
    decreases |items|
  {
    if items == [] then (s, None)
    else
      match Pushed(bounded, s, items[0])
      case Failure(e) => (s, Some(e))
      case Success(t) => PushAll(bounded, t, items[1..])
  }

  /** `popMultiple(count)`: pops while fewer than `count` were popped and the stack is not empty. Gives the popped items and the value left. */
  function PopMany<T>(s: seq<T>, count: nat): (r: (seq<T>, seq<T>))
    ensures |r.0| + |r.1| == |s| && |r.0| <= count
  {
    if count == 0 || |s| == 0 then ([], s)
    else
      var more := PopMany(s[..|s| - 1], count - 1);
      ([s[|s| - 1]] + more.0, more.1)
  }

  function Min(a: nat, b: nat): nat { if a <= b then a else b }

  /** One round of `popMultiple`'s loop. */
  lemma PopOne<T>(s: seq<T>, count: nat)
    requires |s| > 0 && count > 0
    ensures PopMany(s, count).0 == [Popped(s).value.0] + PopMany(Popped(s).value.1, count - 1).0
    ensures PopMany(s, count).1 == PopMany(Popped(s).value.1, count - 1).1
  {
  }

  // ----- Properties of the operations -----

  /**
   * `push` fails exactly on a full array-backed stack and then changes nothing; otherwise the
   * size grows by one, `top()` is the item and `pop()` gives the item back and restores the stack.
   */
  lemma PushThenPop<T>(bounded: bool, s: seq<T>, x: T)
    ensures Pushed(bounded, s, x).Failure? <==> bounded && |s| >= MAX_SIZE
    ensures Pushed(bounded, s, x).Failure? ==> Pushed(bounded, s, x).error == Overflow
    ensures Pushed(bounded, s, x).Success? ==>
      var t := Pushed(bounded, s, x).value;
      && |t| == |s| + 1
      && TopOf(t) == Success(x)
      && Popped(t) == Success((x, s))
  {
    if !(bounded && |s| >= MAX_SIZE) {
      var t := s + [x];
      assert t[..|t| - 1] == s;
    }
  }

  /** `pop` and `top` fail exactly on the empty stack; a `pop` shrinks the stack by one and leaves the rest as it was. */
  lemma PopShrinks<T>(s: seq<T>)
    ensures Popped(s).Failure? <==> |s| == 0
    ensures TopOf(s).Failure? <==> |s| == 0
    ensures Popped(s).Failure? ==> Popped(s).error == Underflow && TopOf(s).error == StackEmpty
    ensures Popped(s).Success? ==>
      && TopOf(s) == Success(Popped(s).value.0)
      && |Popped(s).value.1| == |s| - 1
      && s == Popped(s).value.1 + [Popped(s).value.0]
  {
  }

  /**
   * `pushMultiple` appends all the items, unless the array-backed stack fills up: then it
   * appends as many as fit and the overflow escapes.
   */
  lemma {:induction false} PushAllFills<T>(bounded: bool, s: seq<T>, items: seq<T>)
    requires !bounded || |s| <= MAX_SIZE
    ensures bounded && |s| + |items| > MAX_SIZE ==>
      && PushAll(bounded, s, items).0 == s + items[..MAX_SIZE - |s|]
      && PushAll(bounded, s, items).1 == Some(Overflow)
    ensures !(bounded && |s| + |items| > MAX_SIZE) ==>
      && PushAll(bounded, s, items).0 == s + items
      && PushAll(bounded, s, items).1 == None
    decreases |items|
  {
    if items != [] {
      if bounded && |s| >= MAX_SIZE {
        assert items[..MAX_SIZE - |s|] == [];
      } else {
        var t := s + [items[0]];
        PushAllFills(bounded, t, items[1..]);
        assert items == [items[0]] + items[1..];
        if bounded && |s| + |items| > MAX_SIZE {
          assert items[..MAX_SIZE - |s|] == [items[0]] + items[1..][..MAX_SIZE - |t|];
        }
      }
    }
  }

  /** `popMultiple(count)` pops `min(count, size)` items, most recently pushed first, and leaves the rest. */
  lemma {:induction false} PopManyTakesTop<T>(s: seq<T>, count: nat)
    ensures |PopMany(s, count).0| == Min(count, |s|)
    ensures forall i :: 0 <= i < |PopMany(s, count).0| ==> PopMany(s, count).0[i] == s[|s| - 1 - i]
    ensures PopMany(s, count).1 == s[..|s| - Min(count, |s|)]
  {
    if count > 0 && |s| > 0 {
      var rest := s[..|s| - 1];
      PopManyTakesTop(rest, count - 1);
      var p := PopMany(s, count).0;
      forall i | 0 <= i < |p|
        ensures p[i] == s[|s| - 1 - i]
      {
        if i > 0 {
          assert p[i] == PopMany(rest, count - 1).0[i - 1];
        }
      }
      assert rest[..|rest| - Min(count - 1, |rest|)] == s[..|s| - Min(count, |s|)];
    }
  }

  // ----- Operation sequences -----

  /** One call on the `Stack<T>` interface. */
  datatype Op<T> =
    | Push(item: T)
    | Pop
    | Top
    | Empty
    | Size
    | PushMultiple(items: seq<T>)
    | PopMultiple(count: nat)

  /** What a caller observes of one call: its return value or the exception it threw. */
  datatype Reply<T> =
    | Done
    | Item(value: T)
    | Items(values: seq<T>)
    | Flag(b: bool)
    | Count(n: nat)
    | Thrown(error: StackError)

  function Step<T>(bounded: bool, s: seq<T>, op: Op<T>): (seq<T>, Reply<T>)
  {
    match op
    case Push(x) =>
      (match Pushed(bounded, s, x)
       case Success(t) => (t, Done)
       case Failure(e) => (s, Thrown(e)))
    case Pop =>
      (match Popped(s)
       case Success(p) => (p.1, Item(p.0))
       case Failure(e) => (s, Thrown(e)))
    case Top =>
      (match TopOf(s)
       case Success(x) => (s, Item(x))
       case Failure(e) => (s, Thrown(e)))
    case Empty => (s, Flag(|s| == 0))
    case Size => (s, Count(|s|))
    case PushMultiple(items) =>
      var r := PushAll(bounded, s, items);
      (r.0, if r.1.Some? then Thrown(r.1.value) else Done)
    case PopMultiple(count) =>
      var r := PopMany(s, count);
      (r.1, Items(r.0))
  }

  /** The replies to a sequence of calls on a stack that starts as `s`. */
  function Run<T>(bounded: bool, s: seq<T>, ops: seq<Op<T>>): seq<Reply<T>>
    decreases |ops|
  {
    if ops == [] then []
    else
      var (t, r) := Step(bounded, s, ops[0]);
      [r] + Run(bounded, t, ops[1..])
  }

  /** The call fits in `MAX_SIZE` slots. */
  predicate StepFits<T>(s: seq<T>, op: Op<T>)
  {
    match op
    case Push(_) => |s| < MAX_SIZE
    case PushMultiple(items) => |s| + |items| <= MAX_SIZE
    case _ => true
  }

  /** No call of the sequence, run on a growable stack from `s`, needs more than `MAX_SIZE` slots. */
  predicate Fits<T>(s: seq<T>, ops: seq<Op<T>>)
    decreases |ops|
  {
    ops == [] || (StepFits(s, ops[0]) && Fits(Step(false, s, ops[0]).0, ops[1..]))
  }

  /** A call that fits behaves the same on both stacks and leaves at most `MAX_SIZE` items; one that does not fit throws only on the array-backed one. */
  lemma StepAgreement<T>(s: seq<T>, op: Op<T>)
    requires |s| <= MAX_SIZE
    ensures StepFits(s, op) ==> Step(true, s, op) == Step(false, s, op) && |Step(false, s, op).0| <= MAX_SIZE
    ensures !StepFits(s, op) ==> Step(true, s, op).1 == Thrown(Overflow) && Step(false, s, op).1 == Done
  {
    match op
    case PushMultiple(items) =>
      PushAllFills(true, s, items);
      PushAllFills(false, s, items);
    case PopMultiple(count) =>
      PopManyTakesTop(s, count);
    case _ =>
  }

  /**
   * `ArrayStack` and `VectorStack` give the same replies to a sequence of calls exactly when
   * the sequence never needs more than `MAX_SIZE` slots.
   */
  lemma {:induction false} ArrayMatchesVector<T>(s: seq<T>, ops: seq<Op<T>>)
    requires |s| <= MAX_SIZE
    ensures Run(true, s, ops) == Run(false, s, ops) <==> Fits(s, ops)
    decreases |ops|
  {
    if ops != [] {
      StepAgreement(s, ops[0]);
      var a, v := Run(true, s, ops), Run(false, s, ops);
      if StepFits(s, ops[0]) {
        var t := Step(false, s, ops[0]).0;
        ArrayMatchesVector(t, ops[1..]);
        assert a[1..] == Run(true, t, ops[1..]);
        assert v[1..] == Run(false, t, ops[1..]);
        assert a[0] == v[0];
      } else {
        assert a[0] != v[0];
      }
    }
  }

  /**
   * The stack test of the demonstration: `pushMultiple({1, 2, 3, 4, 5})`, then size 5 and top 5,
   * then `popMultiple(3)` gives 5 4 3 and leaves size 2, on both stacks.
   */
  lemma StackDemo(bounded: bool)
    ensures Run(bounded, [], [PushMultiple([1, 2, 3, 4, 5]), Size, Top, PopMultiple(3), Size])
         == [Done, Count(5), Item(5), Items([5, 4, 3]), Count(2)]
  {
    var s := [1, 2, 3, 4, 5];
    DemoPush(bounded, s);
    DemoAfterPush(bounded, s);
    RunCons(bounded, [], PushMultiple(s), [Size, Top, PopMultiple(3), Size]);
  }

  lemma DemoAfterPush(bounded: bool, s: seq<int>)
    requires s == [1, 2, 3, 4, 5]
    ensures Run(bounded, s, [Size, Top, PopMultiple(3), Size]) == [Count(5), Item(5), Items([5, 4, 3]), Count(2)]
  {
    var left := [1, 2];
    DemoPop(s);
    assert Step(bounded, s, Top) == (s, Item(5));
    assert Step(bounded, s, PopMultiple(3)) == (left, Items([5, 4, 3]));
    RunCons(bounded, left, Size, []);
    RunCons(bounded, s, PopMultiple(3), [Size]);
    RunCons(bounded, s, Top, [PopMultiple(3), Size]);
    RunCons(bounded, s, Size, [Top, PopMultiple(3), Size]);
  }

  lemma RunCons<T>(bounded: bool, s: seq<T>, op: Op<T>, rest: seq<Op<T>>)
    ensures Run(bounded, s, [op] + rest) == [Step(bounded, s, op).1] + Run(bounded, Step(bounded, s, op).0, rest)
  {
    assert ([op] + rest)[1..] == rest;
  }

  lemma DemoPush(bounded: bool, s: seq<int>)
    requires s == [1, 2, 3, 4, 5]
    ensures Step(bounded, [], PushMultiple(s)) == (s, Done)
  {
    PushAllFills(bounded, [], s);
    assert [] + s == s;
  }

  lemma DemoPop(s: seq<int>)
    requires s == [1, 2, 3, 4, 5]
    ensures PopMany(s, 3) == ([5, 4, 3], [1, 2])
  {
    PopManyTakesTop(s, 3);
    assert PopMany(s, 3).0 == [5, 4, 3];
    assert PopMany(s, 3).1 == [1, 2];
  }

  // ----- The implementations -----

  /** `ArrayStack<T>`: the items live in `data[..topIndex]`. */
  class ArrayStack<T(0)> {
    var data: array<T>
    var topIndex: nat

    ghost predicate Valid()
      reads this
    {
      data.Length == MAX_SIZE && topIndex <= MAX_SIZE
    }

    /** The abstract value: the items, bottom first. */
    ghost function Contents(): seq<T>
      reads this, data
      requires Valid()
    {
      data[..topIndex]
    }

    constructor ()
      ensures Valid() && fresh(data) && Contents() == []
    {
      data := new T[MAX_SIZE];
      topIndex := 0;
    }

    method Push(item: T) returns (thrown: Option<StackError>)
      requires Valid()
      modifies this`topIndex, data
      ensures Valid() && data == old(data)
      ensures Pushed(true, old(Contents()), item).Failure? ==>
        thrown == Some(Overflow) && Contents() == old(Contents())
      ensures Pushed(true, old(Contents()), item).Success? ==>
        thrown == None && Contents() == Pushed(true, old(Contents()), item).value
    {
      if topIndex >= MAX_SIZE {
        return Some(Overflow);
      }
      data[topIndex] := item;
      topIndex := topIndex + 1;
      thrown := None;
    }

    method Pop() returns (r: Result<T, StackError>)
      requires Valid()
      modifies this`topIndex
      ensures Valid()
      ensures Popped(old(Contents())).Failure? ==> r == Failure(Underflow) && Contents() == old(Contents())
      ensures Popped(old(Contents())).Success? ==>
        r == Success(Popped(old(Contents())).value.0) && Contents() == Popped(old(Contents())).value.1
    {
      var e := Empty();
      if e {
        return Failure(Underflow);
      }
      topIndex := topIndex - 1;
      r := Success(data[topIndex]);
    }

    method Top() returns (r: Result<T, StackError>)
      requires Valid()
      ensures r == TopOf(Contents())
    {
      var e := Empty();
      if e {
        return Failure(StackEmpty);
      }
      r := Success(data[topIndex - 1]);
    }

    method Empty() returns (b: bool)
      requires Valid()
      ensures b <==> Contents() == []
    {
      b := topIndex == 0;
    }

    method Size() returns (n: nat)
      requires Valid()
      ensures n == |Contents()|
    {
      n := topIndex;
    }

    /** `Stack::pushMultiple`, inherited by `ArrayStack`. */
    method PushMultiple(items: seq<T>) returns (thrown: Option<StackError>)
      requires Valid()
      modifies this`topIndex, data
      ensures Valid() && data == old(data)
      ensures Contents() == PushAll(true, old(Contents()), items).0
      ensures thrown == PushAll(true, old(Contents()), items).1
    {
      thrown := None;
      var i := 0;
      while i < |items|
        invariant Valid() && data == old(data) && i <= |items| && thrown == None
        invariant PushAll(true, old(Contents()), items) == PushAll(true, Contents(), items[i..])
      {
        assert items[i..][1..] == items[i + 1..];
        thrown := Push(items[i]);
        if thrown.Some? {
          return;
        }
        i := i + 1;
      }
    }

    /** `Stack::popMultiple`, inherited by `ArrayStack`. */
    method PopMultiple(count: nat) returns (popped: seq<T>)
      requires Valid()
      modifies this`topIndex
      ensures Valid()
      ensures popped == PopMany(old(Contents()), count).0
      ensures Contents() == PopMany(old(Contents()), count).1
    {
      ghost var start := Contents();
      popped := [];
      var i := 0;
      while i < count
        invariant Valid() && i <= count
        invariant PopMany(start, count).0 == popped + PopMany(Contents(), count - i).0
        invariant PopMany(start, count).1 == PopMany(Contents(), count - i).1
      {
        var e := Empty();
        if e {
          assert PopMany(Contents(), count - i).0 == [] && popped + [] == popped;
          break;
        }
        ghost var before := Contents();
        var r := Pop();
        PopOne(before, count - i);
        ghost var rest := PopMany(Contents(), count - i - 1).0;
        assert popped + ([r.value] + rest) == (popped + [r.value]) + rest;
        popped := popped + [r.value];
        i := i + 1;
      }
    }
  }

  /** `VectorStack<T>`: the items live in the growable `data`, bottom first. */
  class VectorStack<T> {
    var data: seq<T>

    constructor ()
      ensures data == []
    {
      data := [];
    }

    method Push(item: T)
      modifies this
      ensures data == old(data) + [item]
    {
      data := data + [item];
    }

    method Pop() returns (r: Result<T, StackError>)
      modifies this
      ensures Popped(old(data)).Failure? ==> r == Failure(Underflow) && data == old(data)
      ensures Popped(old(data)).Success? ==>
        r == Success(Popped(old(data)).value.0) && data == Popped(old(data)).value.1
    {
      var e := Empty();
      if e {
        return Failure(Underflow);
      }
      var item := data[|data| - 1];
      data := data[..|data| - 1];
      r := Success(item);
    }

    method Top() returns (r: Result<T, StackError>)
      ensures r == TopOf(data)
    {
      var e := Empty();
      if e {
        return Failure(StackEmpty);
      }
      r := Success(data[|data| - 1]);
    }

    method Empty() returns (b: bool)
      ensures b <==> data == []
    {
      b := |data| == 0;
    }

    method Size() returns (n: nat)
      ensures n == |data|
    {
      n := |data|;
    }

    /** `Stack::pushMultiple`, inherited by `VectorStack`. */
    method PushMultiple(items: seq<T>)
      modifies this
      ensures data == old(data) + items
    {
      var i := 0;
      while i < |items|
        invariant i <= |items|
        invariant data == old(data) + items[..i]
      {
        Push(items[i]);
        assert items[..i + 1] == items[..i] + [items[i]];
        i := i + 1;
      }
      assert items[..i] == items;
    }

    /** `Stack::popMultiple`, inherited by `VectorStack`. */
    method PopMultiple(count: nat) returns (popped: seq<T>)
      modifies this
      ensures popped == PopMany(old(data), count).0
      ensures data == PopMany(old(data), count).1
    {
      ghost var start := data;
      popped := [];
      var i := 0;
      while i < count
        invariant i <= count
        invariant PopMany(start, count).0 == popped + PopMany(data, count - i).0
        invariant PopMany(start, count).1 == PopMany(data, count - i).1
      {
        var e := Empty();
        if e {
          assert PopMany(data, count - i).0 == [] && popped + [] == popped;
          break;
        }
        ghost var before := data;
        var r := Pop();
        PopOne(before, count - i);
        ghost var rest := PopMany(data, count - i - 1).0;
        assert popped + ([r.value] + rest) == (popped + [r.value]) + rest;
        popped := popped + [r.value];
        i := i + 1;
      }
    }
  }
}
