/**
 * `CustomStack<T>`: a last-in-first-out stack kept in a private list, whose
 * `Last` is the top of the stack.
 */
module Stacks {
  import opened Errors
  import opened LinkedLists
  import Enumerators

  class Stack<T(==)> {
    /** The private list; nothing outside the stack refers to it. */
    const list: LinkedList<T>
    /** The value of `default(T)`, which the `Try` operations return on an empty stack. */
    const zero: T

    ghost predicate Valid()
      reads this, list, list.nodes
    {
      list.Valid()
    }

    /** The elements from bottom to top. */
    ghost function Elements(): seq<T>
      reads this, list
    {
      list.Contents
    }

    /** A new stack holds a new, empty list. */
    constructor (zero: T)
      ensures Valid() && fresh(list) && Elements() == [] && this.zero == zero
    {
      list := new LinkedList();
      this.zero := zero;
    }

    /** `TryPeek`: false and `default(T)` on an empty stack, otherwise true and the top. */
    method TryPeek() returns (ok: bool, result: T)
      requires Valid()
      ensures ok <==> Elements() != []
      ensures ok ==> result == Elements()[|Elements()| - 1]
      ensures !ok ==> result == zero
    {
      if list.count == 0 {
        return false, zero;
      }
      result := list.Last().value;
      return true, result;
    }

    /** `Peek`: InvalidOperationException on an empty stack, otherwise the top. */
    method Peek() returns (r: Result<T>)
      requires Valid()
      ensures Elements() == [] ==> r == Failure(InvalidOperation)
      ensures Elements() != [] ==> r == Success(Elements()[|Elements()| - 1])
    {
      if list.count == 0 {
        return Failure(InvalidOperation);
      }
      return Success(list.Last().value);
    }

    /** `CopyTo`: the list's `CopyTo`, bottom of the stack first. */
    method CopyTo(a: array?<T>, index: int) returns (r: Outcome)
      requires Valid()
      modifies a
      ensures a == null ==> r == Fail(ArgumentNull)
      ensures a != null && index < 0 ==> r == Fail(ArgumentOutOfRange)
      ensures a != null && 0 <= index && a.Length < index ==> r == Fail(ArgumentOutOfRange)
      ensures a != null && 0 <= index <= a.Length && a.Length - index < |Elements()| ==> r == Fail(Argument)
      ensures r.Pass? <==> a != null && 0 <= index && index + |Elements()| <= a.Length
      ensures r.Fail? && a != null ==> a[..] == old(a[..])
      ensures r.Pass? ==> a[..] == old(a[..index]) + Elements() + old(a[index + |Elements()|..])
    {
      r := list.CopyTo(a, index);
    }

    /** `Contains`: whether some element equals `v`. */
    method Contains(v: T) returns (b: bool)
      requires Valid()
      ensures b <==> v in Elements()
    {
      b := list.Contains(v);
    }

    /** `Clear`: the stack becomes empty. */
    method Clear()
      requires Valid()
      modifies list, list.nodes
      ensures Valid() && Elements() == []
      ensures list.nodes == []
    {
      list.Clear();
    }

    /** `TryPop`: false and `default(T)` on an empty stack; otherwise true, the top, and the top is removed. */
    method TryPop() returns (ok: bool, result: T)
      requires Valid()
      modifies list, list.nodes
      ensures Valid()
      ensures ok <==> old(Elements()) != []
      ensures !ok ==> result == zero && Elements() == old(Elements())
      ensures ok ==>
                var n := |old(Elements())|;
                result == old(Elements())[n - 1] && Elements() == old(Elements())[..n - 1]
      ensures list.nodes == if old(Elements()) == [] then old(list.nodes) else old(list.nodes)[..|old(list.nodes)| - 1]
    {
      if list.count == 0 {
        return false, zero;
      }
      result := list.Last().value;
      var _ := list.RemoveLast();
      return true, result;
    }

    /** `Pop`: InvalidOperationException on an empty stack; otherwise the top, which is removed. */
    method Pop() returns (r: Result<T>)
      requires Valid()
      modifies list, list.nodes
      ensures Valid()
      ensures old(Elements()) == [] ==> r == Failure(InvalidOperation) && Elements() == []
      ensures old(Elements()) != [] ==>
                var n := |old(Elements())|;
                r == Success(old(Elements())[n - 1]) && Elements() == old(Elements())[..n - 1]
      ensures list.nodes == if old(Elements()) == [] then old(list.nodes) else old(list.nodes)[..|old(list.nodes)| - 1]
    {
      if list.count == 0 {
        return Failure(InvalidOperation);
      }
      var top := list.Last().value;
      var _ := list.RemoveLast();
      return Success(top);
    }

    /** `Push`: `v` becomes the new top. */
    method Push(v: T)
      requires Valid()
      modifies list, list.nodes
      ensures Valid() && Elements() == old(Elements()) + [v]
      ensures |list.nodes| == |old(list.nodes)| + 1 && list.nodes[..|old(list.nodes)|] == old(list.nodes)
      ensures fresh(list.nodes[|old(list.nodes)|])
    {
      var _ := list.AddLast(v);
    }

    /** `Count`: the number of elements. */
    function Count(): (n: int)
      reads this, list, list.nodes
      requires Valid()
      ensures n == |Elements()|
    {
      list.count
    }

    /** `GetEnumerator`: the list's enumerator, which yields the elements from bottom to top. */
    method GetEnumerator() returns (e: Enumerators.Enumerator<T>)
      requires Valid()
      ensures fresh(e) && e.Valid() && e.list == list && e.pos == 0
      ensures e.zero == zero && e.current == if Elements() != [] then Elements()[0] else zero
    {
      e := Enumerators.GetEnumerator(list, zero);
    }
  }

  /**
   * Pushing and then popping on any valid stack gives back the pushed value
   * and leaves the stack as it was.
   */
  method PushThenPop<T(==)>(s: Stack<T>, v: T) returns (r: Result<T>)
    requires s.Valid()
    modifies s.list, s.list.nodes
    ensures s.Valid() && r == Success(v) && s.Elements() == old(s.Elements())
  {
    s.Push(v);
    r := s.Pop();
  }

  /** Popping and then pushing the popped value back leaves a non-empty stack as it was. */
  method PopThenPush<T(==)>(s: Stack<T>) returns (r: Result<T>)
    requires s.Valid() && s.Elements() != []
    modifies s.list, s.list.nodes
    ensures s.Valid() && r == Success(old(s.Elements())[|old(s.Elements())| - 1])
    ensures s.Elements() == old(s.Elements())
  {
    r := s.Pop();
    s.Push(r.value);
  }
}
