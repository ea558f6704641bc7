/**
 * Concrete situations from the library's unit tests, stated on the model:
 * each method builds a fresh list or stack and its contract says what the
 * test expects.
 */
module Scenarios {
  import opened Errors
  import opened LinkedLists
  import Stacks
  import Enumerators

  /** A list of the values `vs`, appended in order. */
  method ListOf(vs: seq<int>) returns (l: LinkedList<int>)
    ensures fresh(l) && l.Valid() && l.Contents == vs
    ensures forall n :: n in l.nodes ==> fresh(n)
  {
    l := new LinkedList();
    for i := 0 to |vs|
      invariant fresh(l) && l.Valid() && l.Contents == vs[..i]
      invariant forall n :: n in l.nodes ==> fresh(n)
    {
      var _ := l.AddLast(vs[i]);
    }
    assert vs[..|vs|] == vs;
  }

  /** Copying `[1, 2, 3]` into five zeroed cells at index 0. */
  method CopyToAtStart() returns (cells: seq<int>)
    ensures cells == [1, 2, 3, 0, 0]
  {
    var l := ListOf([1, 2, 3]);
    var a := new int[5](_ => 0);
    assert a[..] == [0, 0, 0, 0, 0];
    var _ := l.CopyTo(a, 0);
    cells := a[..];
  }

  /** Copying `[1, 2, 3]` into five zeroed cells at index 1. */
  method CopyToAtOne() returns (cells: seq<int>)
    ensures cells == [0, 1, 2, 3, 0]
  {
    var l := ListOf([1, 2, 3]);
    var a := new int[5](_ => 0);
    assert a[..] == [0, 0, 0, 0, 0];
    var _ := l.CopyTo(a, 1);
    cells := a[..];
  }

  /** A one-element list: the index equal to the array's length, past it and below zero. */
  method CopyToRefusesBadIndex() returns (atLength: Outcome, pastLength: Outcome, negative: Outcome)
    ensures atLength == Fail(Argument)
    ensures pastLength == Fail(ArgumentOutOfRange) && negative == Fail(ArgumentOutOfRange)
  {
    var l := ListOf([1]);
    var a := new int[1](_ => 0);
    atLength := l.CopyTo(a, 1);
    pastLength := l.CopyTo(a, 2);
    negative := l.CopyTo(a, -5);
  }

  /**
   * Setting `Head`'s predecessor to null through the public setter makes
   * `RemoveLast` refuse the list with InvalidOperationException.
   */
  method RemoveLastAfterHeadPreviousCleared() returns (r: Outcome)
    ensures r == Fail(InvalidOperation)
  {
    var l := ListOf([1]);
    l.head.SetPrev(null);
    r := l.RemoveLast();
  }

  /** In `[1, 3, 3, 4]`, `FindLast(3)` is the third node. */
  method FindLastSearchesCorrectly() returns (l: LinkedList<int>, actual: Node?<int>)
    ensures l.Valid() && |l.nodes| == 4 && actual == l.nodes[2]
  {
    l := ListOf([1, 3, 3, 4]);
    actual := l.FindLast(3);
  }

  /**
   * In `[3, 1]` the only 3 is at `Head`: `FindLast` as written misses it,
   * the corrected walk finds it.
   */
  method FindLastMissesHeadValue() returns (head: Node<int>, asWritten: Node?<int>, corrected: Node?<int>)
    ensures asWritten == null && corrected == head
  {
    var l := new LinkedList();
    head := l.AddLast(3);
    var _ := l.AddLast(1);
    assert l.Contents == [3, 1];
    asWritten := l.FindLast(3);
    corrected := l.FindLastIncludingHead(3);
  }

  /** A new stack after pushing 1, 2 and 3. */
  method StackOf123() returns (s: Stacks.Stack<int>)
    ensures fresh(s) && fresh(s.list) && s.Valid() && s.Elements() == [1, 2, 3] && s.zero == 0
    ensures forall n :: n in s.list.nodes ==> fresh(n)
  {
    s := new Stacks.Stack(0);
    s.Push(1);
    s.Push(2);
    s.Push(3);
  }

  /** Pushing 1, 2 and 3 and popping four times: 3, 2, 1, then an empty-stack error. */
  method StackIsLastInFirstOut() returns (a: Result<int>, b: Result<int>, c: Result<int>, d: Result<int>)
    ensures a == Success(3) && b == Success(2) && c == Success(1)
    ensures d == Failure(InvalidOperation)
  {
    var s := StackOf123();
    a := s.Pop();
    b := s.Pop();
    c := s.Pop();
    d := s.Pop();
  }

  /** `TryPop` on an empty stack answers false and `default(int)`. */
  method TryPopOnEmptyStack() returns (ok: bool, v: int)
    ensures !ok && v == 0
  {
    var s := new Stacks.Stack(0);
    ok, v := s.TryPop();
  }

  /** Enumerating a stack after pushing 1, 2 and 3 yields 1, 2, 3: bottom first. */
  method StackEnumeratesBottomFirst() returns (ys: seq<int>)
    ensures ys == [1, 2, 3]
  {
    var s := StackOf123();
    var e := s.GetEnumerator();
    ys := Enumerators.Drain(e);
  }

  /** After one `MoveNext` over `[1, 2]`, `Reset` puts `Current` back to `default(int)`. */
  method ResetResetsEnumerator() returns (c: int)
    ensures c == 0
  {
    var l := ListOf([1, 2]);
    var e := Enumerators.GetEnumerator(l, 0);
    var _ := e.MoveNext();
    e.Reset();
    c := e.Current();
  }
}
