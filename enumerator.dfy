/**
 * The forward enumerator `CustomLinkedListEnumerator<T>`: a cursor that
 * walks the list from `Head` through the public `Next` getter and yields one
 * value per `MoveNext`.
 */
module Enumerators {
  import opened LinkedLists

  class Enumerator<T(==)> {
    const list: LinkedList<T>
    /** The value of `default(T)`, which `Current` holds before any value was read. */
    const zero: T
    /** The node whose value the next `MoveNext` yields; null once the walk is over. */
    var cursor: Node?<T>
    /** What `Current` returns. */
    var current: T
    /** How many values were yielded since construction or the last `Reset`. */
    ghost var pos: nat

    /**
     * The enumerator invariant: over a valid list, `cursor` is the node at
     * position `pos` (null once all `count` values were yielded), and after
     * at least one value `current` is the last value yielded.
     */
    ghost predicate Valid()
      reads this, list, list.nodes
    {
      && list.Valid()
      && pos <= list.count
      && cursor == (if pos < list.count then list.nodes[pos] else null)
      && (0 < pos ==> current == list.Contents[pos - 1])
    }

    /**
     * The constructor: the cursor starts at `Head`, and `Current` is `Head`'s
     * value on a non-empty list and `default(T)` on an empty one.
     */
    constructor (list: LinkedList<T>, zero: T)
      requires list.Valid()
      ensures Valid() && this.list == list && this.zero == zero && pos == 0
      ensures current == if list.count != 0 then list.Contents[0] else zero
    {
      this.list := list;
      this.zero := zero;
      cursor := list.head;
      pos := 0;
      if list.count != 0 {
        current := list.head.value;
      } else {
        current := zero;
      }
    }

    /**
     * `MoveNext`: when values are left, yields the next one into `Current`
     * and answers true; otherwise answers false and changes nothing. The
     * source also drops the cursor when it comes back to `Head`; through the
     * filtered getter that cannot happen, and the check is kept as written.
     */
    method MoveNext() returns (b: bool)
      requires Valid()
      modifies this
      ensures Valid()
      ensures b <==> old(pos) < list.count
      ensures b ==> pos == old(pos) + 1 && current == list.Contents[old(pos)]
      ensures !b ==> pos == old(pos) && current == old(current)
    {
      if cursor == null {
        return false;
      }
      ViewsAreLinearAt(list, pos);
      current := cursor.value;
      var next := cursor.NextView();
      cursor := if next == list.head then null else next;
      pos := pos + 1;
      return true;
    }

    /** `Reset`: `Current` goes back to `default(T)` and the cursor back to `Head`. */
    method Reset()
      requires Valid()
      modifies this
      ensures Valid() && pos == 0 && current == zero
    {
      current := zero;
      cursor := list.head;
      pos := 0;
    }

    /** `Current`: once a value was yielded, the last value yielded. */
    function Current(): (c: T)
      reads this, list, list.nodes
      requires Valid()
      ensures 0 < pos ==> c == list.Contents[pos - 1]
    {
      current
    }
  }

  /** The filtered successor of the node at position `i` is the node at `i + 1`, or null at the tail. */
  lemma ViewsAreLinearAt<T>(l: LinkedList<T>, i: nat)
    requires l.Valid() && i < l.count
    ensures l.nodes[i].NextView() == if i + 1 < l.count then l.nodes[i + 1] else null
  {
    l.ViewsAreLinear();
  }

  /** `GetEnumerator` of the list: a fresh enumerator positioned before `Head`. */
  method GetEnumerator<T(==)>(l: LinkedList<T>, zero: T) returns (e: Enumerator<T>)
    requires l.Valid()
    ensures fresh(e) && e.Valid() && e.list == l && e.pos == 0
    ensures e.zero == zero && e.current == if l.count != 0 then l.Contents[0] else zero
  {
    e := new Enumerator(l, zero);
  }

  /**
   * Runs `MoveNext` until it answers false, collecting `Current` after each
   * true answer: the values from position `pos` to `Last`.
   */
  method Drain<T(==)>(e: Enumerator<T>) returns (ys: seq<T>)
    requires e.Valid()
    modifies e
    ensures e.Valid() && e.pos == e.list.count
    ensures ys == e.list.Contents[old(e.pos)..]
  {
    ghost var start := e.pos;
    ys := [];
    while true
      invariant e.Valid() && start <= e.pos && ys == e.list.Contents[start..e.pos]
      decreases e.list.count - e.pos
    {
      var more := e.MoveNext();
      if !more {
        break;
      }
      ys := ys + [e.Current()];
    }
  }

  /**
   * A fresh enumerator over a list of `n` values yields exactly those `n`
   * values from `Head` to `Last`, after which `MoveNext` answers false, and
   * keeps answering false.
   */
  method EnumerateAll<T(==)>(l: LinkedList<T>, zero: T) returns (ys: seq<T>, more: bool, again: bool)
    requires l.Valid()
    ensures ys == l.Contents && !more && !again
  {
    var e := GetEnumerator(l, zero);
    ys := Drain(e);
    more := e.MoveNext();
    again := e.MoveNext();
  }

  /** After `Reset` a second pass yields the same values as the first. */
  method ResetReplays<T(==)>(l: LinkedList<T>, zero: T) returns (first: seq<T>, second: seq<T>)
    requires l.Valid()
    ensures first == l.Contents && second == first
  {
    var e := GetEnumerator(l, zero);
    first := Drain(e);
    e.Reset();
    second := Drain(e);
  }
}
