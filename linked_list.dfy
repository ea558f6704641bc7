/**
 * The circular doubly-linked list `CustomLinkedList<T>` and its node cell
 * `CustomLinkedListNode<T>`.
 *
 * Links. A node stores raw links (`next`, `prev`) that always form a ring
 * on a live list: the successor of `Last` is `Head` and the predecessor of
 * `Head` is `Last`. The node's public getters `Next` and `Previous` hide the
 * two wrap-around links (`NextView`, `PrevView` below). The list code reads
 * its links through those getters, yet behaves as a ring only if it reads
 * the raw links. This model therefore reads the raw fields `next`/`prev`
 * everywhere the getter would break the list (Last, the insertion and
 * removal splices, the RemoveLast guard, AddAfter, Find, FindLast, CopyTo).
 * It uses the filtered getter where it is correct as written (Clear's walk).
 * `LastThroughGetter` shows what Last would be if read through the getter.
 */
module LinkedLists {
  import opened Errors
  import opened Sequences

  /** A cell of the list: a value, raw links to its neighbours and its owning list. */
  class Node<T(==)> {
    var next: Node?<T>
    var prev: Node?<T>
    var list: LinkedList?<T>
    var value: T

    /** The constructor used by the list itself, which always passes a list. */
    constructor (list: LinkedList<T>, value: T)
      ensures this.list == list && this.value == value
      ensures next == null && prev == null
    {
      this.list := list;
      this.value := value;
      next := null;
      prev := null;
    }

    /**
     * The public `Next` getter: the raw successor, except null when that
     * successor is null or is the owning list's `Head`.
     */
    function NextView(): (r: Node?<T>)
      reads this, list
      requires next != null ==> list != null
      ensures r == null <==> next == null || next == list.head
      ensures r != null ==> r == next
    {
      if next != null && next != list.head then next else null
    }

    /**
     * The public `Previous` getter: the raw predecessor, except null when that
     * predecessor is null or when this node is the owning list's `Head`.
     */
    function PrevView(): (r: Node?<T>)
      reads this, list
      requires prev != null ==> list != null
      ensures r == null <==> prev == null || this == list.head
      ensures r != null ==> r == prev
    {
      if prev != null && this != list.head then prev else null
    }

    /** The public `Next` setter writes the raw link unconditionally. */
    method SetNext(n: Node?<T>)
      modifies this
      ensures next == n
      ensures prev == old(prev) && list == old(list) && value == old(value)
    {
      next := n;
    }

    /** The public `Previous` setter writes the raw link unconditionally. */
    method SetPrev(p: Node?<T>)
      modifies this
      ensures prev == p
      ensures next == old(next) && list == old(list) && value == old(value)
    {
      prev := p;
    }

    /** The `Value` setter (and a write through `ValueRef`): the stored value becomes `v`. */
    method SetValue(v: T)
      modifies this
      ensures value == v
      ensures next == old(next) && prev == old(prev) && list == old(list)
    {
      value := v;
    }

    /** The `Value` getter (and a read through `ValueRef`): the stored value. */
    function GetValue(): (v: T)
      reads this
      ensures v == value
    {
      value
    }

    /** Detaches the node: the owner and both raw links become null; the value stays. */
    method Clear()
      modifies this
      ensures list == null && next == null && prev == null
      ensures value == old(value)
    {
      list := null;
      next := null;
      prev := null;
    }
  }

  /**
   * The public node constructor: a null list throws ArgumentNullException,
   * otherwise the node belongs to `list` and holds `value`.
   */
  method NewNode<T(==)>(list: LinkedList?<T>, value: T) returns (r: Result<Node<T>>)
    ensures r.Failure? <==> list == null
    ensures r.Failure? ==> r.error == ArgumentNull
    ensures r.Success? ==> fresh(r.value) && r.value.list == list && r.value.value == value
    ensures r.Success? ==> r.value.next == null && r.value.prev == null
  {
    if list == null {
      return Failure(ArgumentNull);
    }
    var n := new Node(list, value);
    return Success(n);
  }

  /**
   * The public collection constructor: a null collection throws
   * ArgumentNullException, otherwise every item is appended in order.
   */
  method FromCollection<T(==)>(collection: Option<seq<T>>) returns (r: Result<LinkedList<T>>)
    ensures r.Failure? <==> collection.None?
    ensures r.Failure? ==> r.error == ArgumentNull
    ensures r.Success? ==> fresh(r.value) && r.value.Valid() && r.value.Contents == collection.value
  {
    if collection.None? {
      return Failure(ArgumentNull);
    }
    var items := collection.value;
    var l := new LinkedList();
    for i := 0 to |items|
      invariant l.Valid() && fresh(l) && l.Contents == items[..i]
      invariant forall n :: n in l.nodes ==> fresh(n)
    {
      var _ := l.AddLast(items[i]);
    }
    assert items[..|items|] == items;
    return Success(l);
  }

  /** A C# reference argument that may be null. */
  datatype Option<+X> = None | Some(value: X)

  /**
   * The raw links of `s` form a ring in the order of `s`: each node's `next`
   * is the following node and the last node's `next` is the first; `prev`
   * runs the other way. Writing `n` for `|s|`, this is
   * `s[i].next == s[(i + 1) % n]` and `s[i].prev == s[(i - 1 + n) % n]`
   * with the wrap-around case written out (see `RingModular`).
   */
  ghost predicate Ring<T>(s: seq<Node<T>>)
    reads s`next, s`prev
  {
    && (forall i {:trigger s[i].next} :: 0 <= i < |s| - 1 ==> s[i].next == s[i + 1])
    && (forall i {:trigger s[i].prev} :: 0 < i < |s| ==> s[i].prev == s[i - 1])
    && (s != [] ==> s[|s| - 1].next == s[0] && s[0].prev == s[|s| - 1])
  }

  /** Every node of `s` is owned by `l` and holds the matching value of `c`. */
  ghost predicate Owned<T>(s: seq<Node<T>>, c: seq<T>, l: LinkedList<T>)
    reads s`list, s`value
  {
    |c| == |s| && forall i :: 0 <= i < |s| ==> s[i].list == l && s[i].value == c[i]
  }

  /** Inserting an owned node and its value at the same position keeps ownership. */
  lemma OwnedInsert<T>(s: seq<Node<T>>, c: seq<T>, l: LinkedList<T>, m: nat, nn: Node<T>)
    requires Owned(s, c, l) && nn.list == l && m <= |s|
    ensures Owned(Insert(s, m, nn), Insert(c, m, nn.value), l)
  {
    var s', c' := Insert(s, m, nn), Insert(c, m, nn.value);
    forall i | 0 <= i < |s'| ensures s'[i].list == l && s'[i].value == c'[i] {
      if i < m {
        assert s'[i] == s[i] && c'[i] == c[i];
      } else if i > m {
        assert s'[i] == s[i - 1] && c'[i] == c[i - 1];
      }
    }
  }

  /** Deleting a node and its value at the same position keeps ownership. */
  lemma OwnedDelete<T>(s: seq<Node<T>>, c: seq<T>, l: LinkedList<T>, k: nat)
    requires Owned(s, c, l) && k < |s|
    ensures Owned(Delete(s, k), Delete(c, k), l)
  {
    var s', c' := Delete(s, k), Delete(c, k);
    forall i | 0 <= i < |s'| ensures s'[i].list == l && s'[i].value == c'[i] {
      if i < k {
        assert s'[i] == s[i] && c'[i] == c[i];
      } else {
        assert s'[i] == s[i + 1] && c'[i] == c[i + 1];
      }
    }
  }

  /** Moving the last node of a ring to the front leaves a ring. */
  lemma RingRotate<T>(s: seq<Node<T>>)
    requires Ring(s) && s != []
    ensures Ring([s[|s| - 1]] + s[..|s| - 1])
  {
    var r := [s[|s| - 1]] + s[..|s| - 1];
    forall i | 0 <= i < |r| - 1 ensures r[i].next == r[i + 1] {
      if i == 0 {
        assert r[1] == s[0];
      } else {
        assert r[i] == s[i - 1] && r[i + 1] == s[i];
      }
    }
    forall i | 0 < i < |r| ensures r[i].prev == r[i - 1] {
      if i == 1 {
        assert r[1] == s[0];
      } else {
        assert r[i] == s[i - 1] && r[i - 1] == s[i - 2];
      }
    }
  }

  /**
   * The link rewiring of `InsertNodeBefore` leaves a ring: `N0` is a ring
   * except that `nn` now sits between `N0[m - 1]` and `N0[k]` (where `k` is
   * `m` wrapped into range), so the nodes with `nn` at position `m` form one.
   */
  lemma SpliceKeepsRing<T>(N0: seq<Node<T>>, k: nat, m: nat, nn: Node<T>)
    requires 0 < m <= |N0| && k == (if m == |N0| then 0 else m)
    requires nn.next == N0[k] && nn.prev == N0[m - 1] && N0[m - 1].next == nn && N0[k].prev == nn
    requires forall i :: 0 <= i < |N0| - 1 && i != m - 1 ==> N0[i].next == N0[i + 1]
    requires forall i :: 0 < i < |N0| && i != k ==> N0[i].prev == N0[i - 1]
    requires m != |N0| ==> N0[|N0| - 1].next == N0[0]
    requires k != 0 ==> N0[0].prev == N0[|N0| - 1]
    ensures Ring(Insert(N0, m, nn))
  {
    var r := Insert(N0, m, nn);
    forall i | 0 <= i < |r| - 1 ensures r[i].next == r[i + 1] {
      if i < m - 1 {
        assert r[i] == N0[i] && r[i + 1] == N0[i + 1];
      } else if i > m {
        assert r[i] == N0[i - 1] && r[i + 1] == N0[i];
      }
    }
    forall i | 0 < i < |r| ensures r[i].prev == r[i - 1] {
      if i < m {
        assert r[i] == N0[i] && r[i - 1] == N0[i - 1];
      } else if i > m + 1 {
        assert r[i] == N0[i - 1] && r[i - 1] == N0[i - 2];
      }
    }
  }

  /**
   * The four link writes of `InsertNodeBefore`: puts `nn` between `p == N0[m - 1]`
   * and `e == N0[k]`. Every other raw link of `N0` keeps its ring value, and
   * no owner or value changes.
   */
  method Splice<T>(ghost N0: seq<Node<T>>, ghost k: nat, ghost m: nat, p: Node<T>, e: Node<T>, nn: Node<T>)
    requires Ring(N0) && Distinct(N0) && nn !in N0
    requires 0 < m <= |N0| && k == (if m == |N0| then 0 else m) && p == N0[m - 1] && e == N0[k]
    modifies p, e, nn
    ensures nn.next == e && nn.prev == p && p.next == nn && e.prev == nn
    ensures forall i :: 0 <= i < |N0| - 1 && i != m - 1 ==> N0[i].next == N0[i + 1]
    ensures forall i :: 0 < i < |N0| && i != k ==> N0[i].prev == N0[i - 1]
    ensures m != |N0| ==> N0[|N0| - 1].next == N0[0]
    ensures k != 0 ==> N0[0].prev == N0[|N0| - 1]
    ensures p.list == old(p.list) && e.list == old(e.list) && nn.list == old(nn.list)
    ensures p.value == old(p.value) && e.value == old(e.value) && nn.value == old(nn.value)
  {
    nn.next := e;
    nn.prev := p;
    p.next := nn;
    e.prev := nn;
    forall i | 0 <= i < |N0| - 1 && i != m - 1 ensures N0[i].next == N0[i + 1] {
      assert N0[i] != p;
    }
    forall i | 0 < i < |N0| && i != k ensures N0[i].prev == N0[i - 1] {
      assert N0[i] != e;
    }
  }

  /**
   * The link rewiring of `RemoveNode` leaves a ring: `N0` is a ring except
   * that the neighbours `N0[pk]` and `N0[qk]` of `N0[k]` now point at each
   * other, so the nodes without `N0[k]` form one.
   */
  lemma UnspliceKeepsRing<T>(N0: seq<Node<T>>, k: nat, pk: nat, qk: nat)
    requires 2 <= |N0| && k < |N0|
    requires pk == (if k == 0 then |N0| - 1 else k - 1) && qk == (if k == |N0| - 1 then 0 else k + 1)
    requires N0[pk].next == N0[qk] && N0[qk].prev == N0[pk]
    requires forall i :: 0 <= i < |N0| - 1 && i != pk ==> N0[i].next == N0[i + 1]
    requires forall i :: 0 < i < |N0| && i != qk ==> N0[i].prev == N0[i - 1]
    requires pk != |N0| - 1 ==> N0[|N0| - 1].next == N0[0]
    requires qk != 0 ==> N0[0].prev == N0[|N0| - 1]
    ensures Ring(Delete(N0, k))
  {
    var r := Delete(N0, k);
    forall i | 0 <= i < |r| - 1 ensures r[i].next == r[i + 1] {
      if i < k - 1 {
        assert r[i] == N0[i] && r[i + 1] == N0[i + 1];
      } else if i >= k {
        assert r[i] == N0[i + 1] && r[i + 1] == N0[i + 2];
      }
    }
    forall i | 0 < i < |r| ensures r[i].prev == r[i - 1] {
      if i < k {
        assert r[i] == N0[i] && r[i - 1] == N0[i - 1];
      } else if i > k {
        assert r[i] == N0[i + 1] && r[i - 1] == N0[i];
      }
    }
  }

  /**
   * The two link writes of `RemoveNode`: the two neighbours of `node == N0[k]` are
   * linked to each other. Every other raw link of `N0` keeps its ring value,
   * and no owner or value changes, so the remaining nodes stay owned.
   */
  method Unsplice<T>(ghost N0: seq<Node<T>>, ghost C0: seq<T>, ghost l: LinkedList<T>, ghost k: nat, node: Node<T>)
    requires Ring(N0) && Distinct(N0) && 2 <= |N0| && k < |N0| && node == N0[k] && |C0| == |N0|
    requires Owned(Delete(N0, k), Delete(C0, k), l)
    modifies N0
    ensures Ring(Delete(N0, k)) && Owned(Delete(N0, k), Delete(C0, k), l)
    ensures node.next == old(node.next) && node.prev == old(node.prev) && node.value == old(node.value)
  {
    ghost var pk := if k == 0 then |N0| - 1 else k - 1;
    ghost var qk := if k == |N0| - 1 then 0 else k + 1;
    var p, q := node.prev, node.next;
    assert p == N0[pk] && q == N0[qk];
    q.prev := p;
    p.next := q;
    forall i | 0 <= i < |N0| - 1 && i != pk ensures N0[i].next == N0[i + 1] {
      assert N0[i] != p;
    }
    forall i | 0 < i < |N0| && i != qk ensures N0[i].prev == N0[i - 1] {
      assert N0[i] != q;
    }
    UnspliceKeepsRing(N0, k, pk, qk);
  }

  /**
   * `FindLast` as written misses a value held only by `Head`: on two or
   * more values whose only `v` is the first, the scan finds nothing, although
   * the last `v` of the whole list is at position 0.
   */
  lemma FindLastMissesHead<X>(s: seq<X>, v: X)
    requires 2 <= |s| && s[0] == v && v !in s[1..]
    ensures LastIndexFrom(s, FindLastLow(|s|), v) == -1
    ensures LastIndexFrom(s, 0, v) == 0
  {
    forall j | 1 <= j < |s|
      ensures s[j] != v
    {
      assert s[j] == s[1..][j - 1];
    }
  }

  /**
   * The ring laws in the form `next(i) == (i + 1) % n` and
   * `prev(i) == (i - 1 + n) % n` for `n == |s|`.
   */
  lemma RingModular<T>(s: seq<Node<T>>)
    requires Ring(s)
    ensures forall i :: 0 <= i < |s| ==>
              s[i].next == s[(i + 1) % |s|] && s[i].prev == s[(i - 1 + |s|) % |s|]
  {
    forall i | 0 <= i < |s|
      ensures s[i].next == s[(i + 1) % |s|] && s[i].prev == s[(i - 1 + |s|) % |s|]
    {
      WrapAround(i, |s|);
    }
  }

  /** Arithmetic helper: the successor and predecessor positions modulo `n` wrap only at the ends. */
  lemma WrapAround(i: int, n: int)
    requires 0 <= i < n
    ensures (i + 1) % n == if i + 1 < n then i + 1 else 0
    ensures (i - 1 + n) % n == if 0 < i then i - 1 else n - 1
  {
  }

  /** Where FindLast's backward scan stops: it never compares `Head` unless `Head` is the only node. */
  function FindLastLow(n: nat): (lo: nat)
    ensures lo <= n
    ensures lo == 0 <==> n <= 1
  {
    if n <= 1 then 0 else 1
  }

  /** The circular doubly-linked list. */
  class LinkedList<T(==)> {
    var head: Node?<T>
    var count: int
    /** The live nodes, from `Head` to `Last`. */
    ghost var nodes: seq<Node<T>>
    /** The values of the live nodes, from `Head` to `Last`. */
    ghost var Contents: seq<T>

    /**
     * The list invariant: `count` is the number of live nodes, `Head` is the
     * first of them (null exactly when there is none), no node occurs twice,
     * every live node is owned by this list and holds the matching value, and
     * the raw links form a ring in list order.
     */
    ghost predicate Valid()
      reads this, nodes
    {
      && count == |nodes|
      && (head == null <==> nodes == [])
      && (nodes != [] ==> head == nodes[0])
      && Distinct(nodes)
      && Owned(nodes, Contents, this)
      && Ring(nodes)
    }

    constructor ()
      ensures Valid() && Contents == [] && nodes == []
    {
      head := null;
      count := 0;
      nodes := [];
      Contents := [];
    }

    /** `First`: the head node, null on an empty list. */
    function First(): (r: Node?<T>)
      reads this, nodes
      requires Valid()
      ensures r == if count == 0 then null else nodes[0]
    {
      head
    }

    /** `Last`, read through the raw link: the tail node, null on an empty list. */
    function Last(): (r: Node?<T>)
      reads this, nodes
      requires Valid()
      ensures r == if count == 0 then null else nodes[count - 1]
    {
      if head == null then null else head.prev
    }

    /**
     * `Last` as the source writes it, `Head?.Previous` through the filtered
     * getter: it is null on every valid list, empty or not.
     */
    function LastThroughGetter(): (r: Node?<T>)
      reads this, nodes
      requires Valid()
      ensures r == null
    {
      if head == null then null else head.PrevView()
    }

    /** `ValidateNode`: a null node or a node of another list is refused. */
    method ValidateNode(node: Node?<T>) returns (r: Outcome)
      ensures r.Pass? <==> node != null && node.list == this
      ensures node == null ==> r == Fail(ArgumentNull)
      ensures node != null && node.list != this ==> r == Fail(InvalidOperation)
    {
      if node == null {
        return Fail(ArgumentNull);
      }
      if node.list != this {
        return Fail(InvalidOperation);
      }
      return Pass;
    }

    /**
     * `AddNodeToEmptyList`: makes `nn` a one-node ring. Its guard is written
     * `Head is not null && Count != 0`; on a valid list both conjuncts say the
     * same, so it refuses exactly a non-empty list.
     */
    method AddNodeToEmptyList(nn: Node<T>) returns (r: Outcome)
      requires Valid()
      requires nn !in nodes && nn.list == this
      modifies this, nn
      ensures r.Fail? <==> old(head) != null
      ensures r.Fail? ==> r.error == InvalidOperation && unchanged(this, nn)
      ensures r.Pass? ==> Valid() && nodes == [nn] && Contents == [nn.value] && head == nn
      ensures r.Pass? ==> nn.next == nn && nn.prev == nn && nn.value == old(nn.value)
    {
      if head != null && count != 0 {
        return Fail(InvalidOperation);
      }
      nn.next := nn;
      nn.prev := nn;
      head := nn;
      count := count + 1;
      nodes := [nn];
      Contents := [nn.value];
      return Pass;
    }

    /**
     * `InsertNodeBefore`: after validating `existing`, links `nn` between
     * `existing` and its predecessor. `Head` does not move, so inserting
     * before `Head` (position 0) puts `nn` at the tail, position `count`.
     */
    method InsertNodeBefore(existing: Node?<T>, nn: Node<T>) returns (r: Outcome)
      requires Valid()
      requires nn !in nodes && nn.list == this
      requires existing != null && existing.list == this ==> existing in nodes
      modifies this, nodes, nn
      ensures r.Pass? <==> existing != null && old(existing.list) == this
      ensures r.Fail? ==> r.error == (if existing == null then ArgumentNull else InvalidOperation)
      ensures r.Fail? ==> unchanged(this, nn) && unchanged(old(nodes))
      ensures r.Pass? ==>
                var k := IndexOf(old(nodes), existing);
                var m := if k == 0 then |old(nodes)| else k;
                && Valid() && head == old(head) && nn.value == old(nn.value)
                && nodes == Insert(old(nodes), m, nn)
                && Contents == Insert(old(Contents), m, nn.value)
    {
      r := ValidateNode(existing);
      if r.Fail? {
        return;
      }
      ghost var N0, C0 := nodes, Contents;
      ghost var k := IndexOf(nodes, existing);
      // `m` is where `nn` lands; its predecessor is N0[m - 1] in both cases.
      ghost var m := if k == 0 then |nodes| else k;
      var p := existing.prev;
      assert p == N0[m - 1];
      Splice(N0, k, m, p, existing, nn);
      count := count + 1;
      nodes := Insert(N0, m, nn);
      Contents := Insert(C0, m, nn.value);
      InsertKeepsValid(N0, C0, k, m, nn);
    }

    /**
     * The state `InsertNodeBefore` leaves is valid: the old nodes, still
     * owned and holding their values, with `nn` spliced in at position `m`.
     */
    lemma InsertKeepsValid(N0: seq<Node<T>>, C0: seq<T>, k: nat, m: nat, nn: Node<T>)
      requires Owned(N0, C0, this) && N0 != [] && head == N0[0]
      requires Distinct(N0) && nn !in N0 && nn.list == this
      requires 0 < m <= |N0| && k == (if m == |N0| then 0 else m)
      requires nn.next == N0[k] && nn.prev == N0[m - 1] && N0[m - 1].next == nn && N0[k].prev == nn
      requires forall i :: 0 <= i < |N0| - 1 && i != m - 1 ==> N0[i].next == N0[i + 1]
      requires forall i :: 0 < i < |N0| && i != k ==> N0[i].prev == N0[i - 1]
      requires m != |N0| ==> N0[|N0| - 1].next == N0[0]
      requires k != 0 ==> N0[0].prev == N0[|N0| - 1]
      requires count == |N0| + 1 && nodes == Insert(N0, m, nn) && Contents == Insert(C0, m, nn.value)
      ensures Valid()
    {
      SpliceKeepsRing(N0, k, m, nn);
      DistinctInsert(N0, m, nn);
      OwnedInsert(N0, C0, this, m, nn);
    }

    /**
     * The state left after moving the last node of the ring `N` to the front
     * is valid once `Head` is that node: `AddFirst` and `AddBefore` on `Head`
     * insert at the tail and then move `Head` back by one.
     */
    lemma RotateKeepsValid(N: seq<Node<T>>, C: seq<T>)
      requires N != [] && Owned(N, C, this) && Distinct(N) && Ring(N)
      requires count == |N| && head == N[|N| - 1]
      requires nodes == [N[|N| - 1]] + N[..|N| - 1] && Contents == [C[|C| - 1]] + C[..|C| - 1]
      ensures Valid()
    {
      RingRotate(N);
      forall i, j | 0 <= i < j < |nodes| ensures nodes[i] != nodes[j] {
        if i == 0 {
          assert nodes[j] == N[j - 1];
        } else {
          assert nodes[i] == N[i - 1] && nodes[j] == N[j - 1];
        }
      }
      forall i | 0 <= i < |nodes| ensures nodes[i].list == this && nodes[i].value == Contents[i] {
        if 0 < i {
          assert nodes[i] == N[i - 1] && Contents[i] == C[i - 1];
        }
      }
    }

    /**
     * The state `RemoveNode` leaves is valid: the nodes of `N0` other than
     * `N0[k]`, still owned and holding their values, in a ring.
     */
    lemma RemoveKeepsValid(N0: seq<Node<T>>, C0: seq<T>, k: nat)
      requires |C0| == |N0| && k < |N0| && Distinct(N0) && Ring(Delete(N0, k))
      requires Owned(Delete(N0, k), Delete(C0, k), this)
      requires count == |N0| - 1 && nodes == Delete(N0, k) && Contents == Delete(C0, k)
      requires head == (if |N0| == 1 then null else if k == 0 then N0[1] else N0[0])
      ensures Valid()
    {
      DistinctDelete(N0, k);
    }

    /**
     * The `Head = ...` assignment of `AddFirst` and `AddBefore` after a node
     * was inserted before `Head`, that is, at the tail: `Head` moves back to
     * that node, which makes it the first node and leaves the ring as it is.
     */
    method MoveHeadToTail(nn: Node<T>)
      requires Valid() && nodes != [] && nn == nodes[|nodes| - 1]
      modifies this
      ensures Valid() && head == nn
      ensures nodes == [nn] + old(nodes)[..|old(nodes)| - 1]
      ensures Contents == [old(Contents)[|old(Contents)| - 1]] + old(Contents)[..|old(Contents)| - 1]
    {
      ghost var N, C := nodes, Contents;
      head := nn;
      nodes := [nn] + N[..|N| - 1];
      Contents := [C[|C| - 1]] + C[..|C| - 1];
      RotateKeepsValid(N, C);
    }

    /**
     * `Head = nodeToAdd` after `nn` was inserted before `Head`, that is, at
     * the tail: the list then holds `nn` at position 0 instead.
     */
    method MoveHeadToInserted(ghost N0: seq<Node<T>>, ghost C0: seq<T>, nn: Node<T>)
      requires Valid() && N0 != [] && |C0| == |N0|
      requires nodes == Insert(N0, |N0|, nn) && Contents == Insert(C0, |C0|, nn.value)
      modifies this
      ensures Valid() && head == nn
      ensures nodes == Insert(N0, 0, nn) && Contents == Insert(C0, 0, nn.value)
    {
      assert nodes[..|nodes| - 1] == N0 && Contents[..|Contents| - 1] == C0;
      MoveHeadToTail(nn);
      assert nodes == Insert(N0, 0, nn) && Contents == Insert(C0, 0, nn.value);
    }

    /** `AddLast`: appends a new node holding `v`; `Head` stays unless the list was empty. */
    method AddLast(v: T) returns (r: Node<T>)
      requires Valid()
      modifies this, nodes
      ensures Valid() && fresh(r) && r.value == v
      ensures nodes == old(nodes) + [r] && Contents == old(Contents) + [v]
      ensures old(head) != null ==> head == old(head)
      ensures Last() == r
    {
      r := new Node(this, v);
      if head == null {
        var _ := AddNodeToEmptyList(r);
      } else {
        var _ := InsertNodeBefore(head, r);
      }
    }

    /** `AddFirst`: prepends a new node holding `v`, which becomes `Head`; `Last` does not change. */
    method AddFirst(v: T) returns (r: Node<T>)
      requires Valid()
      modifies this, nodes
      ensures Valid() && fresh(r) && r.value == v
      ensures nodes == [r] + old(nodes) && Contents == [v] + old(Contents)
      ensures First() == r
      ensures old(count) != 0 ==> Last() == old(Last())
    {
      r := new Node(this, v);
      if head == null {
        var _ := AddNodeToEmptyList(r);
      } else {
        ghost var N0, C0 := nodes, Contents;
        var _ := InsertNodeBefore(head, r);
        assert nodes[..|nodes| - 1] == N0 && Contents[..|Contents| - 1] == C0;
        MoveHeadToTail(r);
      }
    }

    /**
     * `AddBefore`: inserts a new node holding `v` immediately before
     * `existing`, at its position `k`; `Head` moves to the new node exactly
     * when `existing` was `Head`. A null node or a node of another list is
     * refused before anything changes.
     */
    method AddBefore(existing: Node?<T>, v: T) returns (r: Outcome)
      requires Valid()
      requires existing != null && existing.list == this ==> existing in nodes
      modifies this, nodes
      ensures r.Pass? <==> existing != null && old(existing.list) == this
      ensures r.Fail? ==> r.error == (if existing == null then ArgumentNull else InvalidOperation)
      ensures r.Fail? ==> unchanged(this) && unchanged(old(nodes))
      ensures r.Pass? ==>
                var k := IndexOf(old(nodes), existing);
                && Valid() && |nodes| == |old(nodes)| + 1 && fresh(nodes[k])
                && nodes == Insert(old(nodes), k, nodes[k])
                && Contents == Insert(old(Contents), k, v)
                && head == (if existing == old(head) then nodes[k] else old(head))
    {
      var nn := new Node(this, v);
      ghost var N0, C0 := nodes, Contents;
      r := InsertNodeBefore(existing, nn);
      if r.Fail? {
        return;
      }
      if existing == head {
        MoveHeadToInserted(N0, C0, nn);
      } else {
        IndexOfDistinct(N0, 0);
      }
    }

    /**
     * `AddAfter`: inserts a new node holding `v` immediately after
     * `existing`, at position `k + 1`; `Head` stays, so after the tail the
     * new node becomes `Last`. The checks are those of `AddBefore`.
     */
    method AddAfter(existing: Node?<T>, v: T) returns (r: Outcome)
      requires Valid()
      requires existing != null && existing.list == this ==> existing in nodes
      modifies this, nodes
      ensures r.Pass? <==> existing != null && old(existing.list) == this
      ensures r.Fail? ==> r.error == (if existing == null then ArgumentNull else InvalidOperation)
      ensures r.Fail? ==> unchanged(this) && unchanged(old(nodes))
      ensures r.Pass? ==>
                var k := IndexOf(old(nodes), existing);
                && Valid() && head == old(head) && |nodes| == |old(nodes)| + 1 && fresh(nodes[k + 1])
                && nodes == Insert(old(nodes), k + 1, nodes[k + 1])
                && Contents == Insert(old(Contents), k + 1, v)
      ensures r.Pass? ==> (Last() == nodes[IndexOf(old(nodes), existing) + 1] <==> existing == old(Last()))
    {
      r := ValidateNode(existing);
      if r.Fail? {
        return;
      }
      ghost var k := IndexOf(nodes, existing);
      ghost var n := |nodes|;
      var nn := new Node(this, v);
      var next := existing.next;
      assert next == nodes[if k + 1 == n then 0 else k + 1];
      IndexOfDistinct(nodes, if k + 1 == n then 0 else k + 1);
      var _ := InsertNodeBefore(next, nn);
    }

    /**
     * `RemoveNode`: after validating `node` and refusing an empty list,
     * unlinks `node` (position `k`) and clears it. A one-node ring becomes
     * empty; removing `Head` moves `Head` to its successor. The guard at the
     * self-loop is written `Head != node && Count != 1`; on a valid list a
     * node is its own successor only in a one-node list, where it is `Head`,
     * so the guard never fires.
     */
    method RemoveNode(node: Node?<T>) returns (r: Outcome)
      requires Valid()
      requires node != null && node.list == this && head != null ==> node in nodes
      modifies this, nodes
      ensures r.Pass? <==> node != null && old(node.list) == this && old(head) != null
      ensures r.Fail? ==> r.error == (if node == null then ArgumentNull else InvalidOperation)
      ensures r.Fail? ==> unchanged(this) && unchanged(old(nodes))
      ensures r.Pass? ==>
                var k := IndexOf(old(nodes), node);
                && Valid() && nodes == Delete(old(nodes), k) && Contents == Delete(old(Contents), k)
                && node.list == null && node.next == null && node.prev == null
                && node.value == old(node.value)
    {
      r := ValidateNode(node);
      if r.Fail? {
        return;
      }
      if head == null {
        return Fail(InvalidOperation);
      }
      ghost var N0, C0 := nodes, Contents;
      ghost var k := IndexOf(nodes, node);
      OwnedDelete(N0, C0, this, k);
      DistinctDelete(N0, k);
      if node.next == node {
        if |N0| > 1 {
          assert false;
        }
        if head != node && count != 1 {
          return Fail(InvalidOperation);
        }
        head := null;
      } else {
        Unsplice(N0, C0, this, k, node);
        if head == node {
          head := node.next;
        }
      }
      DetachNode(N0, C0, k, node);
    }

    /**
     * The end of `RemoveNode` (clearing the node, decrementing `Count`), once `node == N0[k]` is unlinked and
     * `Head` is updated: clears `node`, decrements `Count`, and the list is
     * the old one without position `k`.
     */
    method DetachNode(ghost N0: seq<Node<T>>, ghost C0: seq<T>, ghost k: nat, node: Node<T>)
      requires |C0| == |N0| && k < |N0| && node == N0[k] && count == |N0| && Distinct(N0)
      requires Ring(Delete(N0, k)) && Owned(Delete(N0, k), Delete(C0, k), this)
      requires head == (if |N0| == 1 then null else if k == 0 then N0[1] else N0[0])
      modifies this, node
      ensures Valid() && nodes == Delete(N0, k) && Contents == Delete(C0, k)
      ensures node.list == null && node.next == null && node.prev == null && node.value == old(node.value)
    {
      DistinctDelete(N0, k);
      node.Clear();
      count := count - 1;
      nodes := Delete(N0, k);
      Contents := Delete(C0, k);
      RemoveKeepsValid(N0, C0, k);
    }

    /**
     * `RemoveFirst`: an empty list is refused; otherwise `Head` is removed and
     * the list keeps its other elements in order.
     */
    method RemoveFirst() returns (r: Outcome)
      requires Valid()
      modifies this, nodes
      ensures r.Pass? <==> old(count) != 0
      ensures r.Fail? ==> r.error == InvalidOperation && unchanged(this)
      ensures r.Pass? ==>
                && Valid() && nodes == old(nodes)[1..] && Contents == old(Contents)[1..]
                && old(head).list == null && old(head).next == null && old(head).prev == null
    {
      if head == null {
        return Fail(InvalidOperation);
      }
      IndexOfDistinct(nodes, 0);
      r := RemoveNode(head);
    }

    /**
     * `RemoveLast`: refuses an empty list and, separately, a `Head` whose raw
     * predecessor was set to null through the public setter; otherwise the
     * tail is removed and the list keeps its other elements in order. Only a
     * list past those two checks needs to be valid.
     */
    method RemoveLast() returns (r: Outcome)
      requires head != null && head.prev != null ==> Valid()
      modifies this, nodes
      ensures r.Pass? <==> old(head) != null && old(head.prev) != null
      ensures r.Fail? ==> r.error == InvalidOperation && unchanged(this) && unchanged(old(nodes))
      ensures r.Pass? ==>
                var n := |old(nodes)|;
                && Valid() && nodes == old(nodes)[..n - 1] && Contents == old(Contents)[..n - 1]
                && old(nodes)[n - 1].list == null && old(nodes)[n - 1].next == null && old(nodes)[n - 1].prev == null
    {
      if head == null {
        return Fail(InvalidOperation);
      }
      if head.prev == null {
        return Fail(InvalidOperation);
      }
      IndexOfDistinct(nodes, |nodes| - 1);
      r := RemoveNode(head.prev);
    }

    /**
     * `Remove`: deletes the first node holding `v` and answers true, or
     * answers false and changes nothing when no node holds `v`.
     */
    method Remove(v: T) returns (b: bool)
      requires Valid()
      modifies this, nodes
      ensures Valid()
      ensures b <==> v in old(Contents)
      ensures !b ==> unchanged(this)
      ensures b ==>
                var k := IndexOf(old(Contents), v);
                && nodes == Delete(old(nodes), k) && Contents == Delete(old(Contents), k)
                && old(nodes)[k].list == null && old(nodes)[k].next == null && old(nodes)[k].prev == null
    {
      var found := Find(v);
      if found == null {
        return false;
      }
      IndexOfDistinct(nodes, IndexOf(Contents, v));
      var _ := RemoveNode(found);
      return true;
    }

    /**
     * `Find`: the first node from `Head` whose value equals `v`, or null when
     * there is none (an empty list included). It walks the raw `next` links
     * and stops once the walk is back at `Head`.
     */
    method Find(v: T) returns (r: Node?<T>)
      requires Valid()
      ensures var k := IndexOf(Contents, v); r == if k < count then nodes[k] else null
    {
      var current := head;
      if current == null {
        return null;
      }
      ghost var i := 0;
      while true
        invariant 0 <= i < count && current == nodes[i]
        invariant forall j :: 0 <= j < i ==> Contents[j] != v
        decreases count - i
      {
        if current.value == v {
          return current;
        }
        current := current.next;
        i := i + 1;
        if current == head {
          return null;
        }
      }
    }

    /** `Contains`: whether some node holds `v`. */
    method Contains(v: T) returns (b: bool)
      requires Valid()
      ensures b <==> v in Contents
    {
      var found := Find(v);
      return found != null;
    }

    /**
     * `FindLast` as written: walks the raw `prev` links backward from `Last`
     * and stops once the walk reaches `Head`, before comparing it. So it finds
     * the last match among positions `FindLastLow(count) .. count - 1`: all
     * positions on a one-node list, every position but `Head`'s otherwise.
     * `Head.prev` is never null on a valid list, so the branch of the source
     * that handles a null `Last` is not reached and not modelled.
     */
    method FindLast(v: T) returns (r: Node?<T>)
      requires Valid()
      ensures var k := LastIndexFrom(Contents, FindLastLow(count), v);
              r == if k < 0 then null else nodes[k]
    {
      if head == null {
        return null;
      }
      var last := head.prev;
      var current := last;
      if current != null {
        ghost var i := count - 1;
        while true
          invariant FindLastLow(count) <= i < count && current == nodes[i]
          invariant forall j :: i < j < count ==> Contents[j] != v
          decreases i
        {
          if current.value == v {
            return current;
          }
          current := current.prev;
          if current == head {
            break;
          }
          i := i - 1;
        }
      }
      return null;
    }

    /**
     * `FindLast` as evidently intended: the backward walk from `Last` also
     * compares `Head` and stops when it comes back to `Last`, so it finds the
     * last node in the whole list whose value equals `v`.
     */
    method FindLastIncludingHead(v: T) returns (r: Node?<T>)
      requires Valid()
      ensures var k := LastIndexFrom(Contents, 0, v); r == if k < 0 then null else nodes[k]
    {
      if head == null {
        return null;
      }
      var last := head.prev;
      var current := last;
      ghost var i := count - 1;
      while true
        invariant 0 <= i < count && current == nodes[i]
        invariant forall j :: i < j < count ==> Contents[j] != v
        decreases i
      {
        if current.value == v {
          return current;
        }
        current := current.prev;
        if current == last {
          break;
        }
        i := i - 1;
      }
      return null;
    }

    /**
     * `CopyTo`: refuses, in this order and before writing anything, a null
     * array, a negative index, an index past the end and too little room
     * after the index; otherwise writes the values from `Head` to `Last` at
     * `a[index ..]` and leaves every other cell alone.
     */
    method CopyTo(a: array?<T>, index: int) returns (r: Outcome)
      requires Valid()
      modifies a
      ensures a == null ==> r == Fail(ArgumentNull)
      ensures a != null && index < 0 ==> r == Fail(ArgumentOutOfRange)
      ensures a != null && 0 <= index && a.Length < index ==> r == Fail(ArgumentOutOfRange)
      ensures a != null && 0 <= index <= a.Length && a.Length - index < count ==> r == Fail(Argument)
      ensures r.Pass? <==> a != null && 0 <= index && index + count <= a.Length
      ensures r.Fail? && a != null ==> a[..] == old(a[..])
      ensures r.Pass? ==> a[..] == old(a[..index]) + Contents + old(a[index + count..])
    {
      if a == null {
        return Fail(ArgumentNull);
      }
      if index < 0 {
        return Fail(ArgumentOutOfRange);
      }
      if index > a.Length {
        return Fail(ArgumentOutOfRange);
      }
      if a.Length - index < count {
        return Fail(Argument);
      }
      var temp := head;
      if temp == null {
        return Pass;
      }
      var at := index;
      ghost var i := 0;
      while true
        invariant 0 <= i < count && temp == nodes[i] && at == index + i
        invariant forall j :: 0 <= j < a.Length ==>
                    a[j] == if index <= j < at then Contents[j - index] else old(a[j])
        decreases count - i
      {
        a[at] := temp.value;
        at := at + 1;
        temp := temp.next;
        i := i + 1;
        if temp == head {
          break;
        }
      }
      assert a[..] == old(a[..index]) + Contents + old(a[index + count..]);
      return Pass;
    }

    /**
     * `Clear`: walks the list through the filtered `Next` getter, which turns
     * null exactly at the tail, clearing each node; then the list is empty.
     * Every former node is detached and keeps its value.
     */
    method Clear()
      requires Valid()
      modifies this, nodes
      ensures Valid() && nodes == [] && Contents == []
      ensures forall j :: 0 <= j < |old(nodes)| ==>
                old(nodes)[j].list == null && old(nodes)[j].next == null && old(nodes)[j].prev == null
      ensures forall j :: 0 <= j < |old(nodes)| ==> old(nodes)[j].value == old(nodes[j].value)
    {
      ghost var N0 := nodes;
      var current := head;
      ghost var i := 0;
      while current != null
        invariant 0 <= i <= |N0| && unchanged(this)
        invariant current == if i < |N0| then N0[i] else null
        invariant forall j :: 0 <= j < i ==> N0[j].list == null && N0[j].next == null && N0[j].prev == null
        invariant forall j :: 0 <= j < |N0| ==> N0[j].value == old(N0[j].value)
        invariant forall j :: i <= j < |N0| ==> N0[j].list == this && N0[j].next == old(N0[j].next)
        decreases |N0| - i
      {
        var temp := current;
        current := current.NextView();
        temp.Clear();
        i := i + 1;
      }
      head := null;
      count := 0;
      nodes := [];
      Contents := [];
    }

    /**
     * Each live node is the predecessor of its successor and the successor of
     * its predecessor, a one-node ring points to itself both ways, and
     * `Head`'s raw predecessor is `Last`, whose raw successor is `Head`.
     */
    lemma RingInverse()
      requires Valid()
      ensures forall i :: 0 <= i < count ==>
                nodes[i].next != null && nodes[i].next.prev == nodes[i] &&
                nodes[i].prev != null && nodes[i].prev.next == nodes[i]
      ensures count == 1 ==> head.next == head && head.prev == head
      ensures count != 0 ==> head.prev == Last() && Last().next == head
    {
      forall i | 0 <= i < count
        ensures nodes[i].next != null && nodes[i].next.prev == nodes[i]
        ensures nodes[i].prev != null && nodes[i].prev.next == nodes[i]
      {
        if i + 1 < count {
          assert nodes[i].next == nodes[i + 1];
        }
        if 0 < i {
          assert nodes[i].prev == nodes[i - 1];
        }
      }
    }

    /**
     * Along the live nodes the filtered getters behave as a linear list:
     * `Next` is null exactly at the tail and `Previous` exactly at `Head`.
     */
    lemma ViewsAreLinear()
      requires Valid()
      ensures forall i :: 0 <= i < count ==>
                nodes[i].NextView() == if i + 1 < count then nodes[i + 1] else null
      ensures forall i :: 0 <= i < count ==>
                nodes[i].PrevView() == if 0 < i then nodes[i - 1] else null
    {
      forall i | 0 <= i < count
        ensures nodes[i].NextView() == if i + 1 < count then nodes[i + 1] else null
      {
        assert nodes[i].list == this;
        if i + 1 < count {
          assert nodes[i].next == nodes[i + 1] && nodes[i + 1] != nodes[0];
        } else {
          assert nodes[i].next == head;
        }
      }
      forall i | 0 <= i < count
        ensures nodes[i].PrevView() == if 0 < i then nodes[i - 1] else null
      {
        assert nodes[i].list == this;
        if 0 < i {
          assert nodes[i].prev == nodes[i - 1] && nodes[i] != head;
        } else {
          assert nodes[i] == head;
        }
      }
    }

    /** The raw successor of a live node is a live node. */
    lemma NextIsLive(x: Node<T>)
      requires Valid() && x in nodes
      ensures x.next != null && x.next in nodes
    {
      var j :| 0 <= j < |nodes| && nodes[j] == x;
      assert x.next == nodes[if j + 1 < |nodes| then j + 1 else 0];
    }

    /** The node reached from `x` by following the raw `next` link `k` times. */
    ghost function Walk(x: Node<T>, k: nat): (y: Node<T>)
      reads this, nodes
      requires Valid() && x in nodes
      ensures y in nodes
      decreases k
    {
      if k == 0 then x
      else
        NextIsLive(x);
        Walk(x.next, k - 1)
    }

    /** Walking `k` links forward from position `i`, without passing `Head`, reaches position `i + k`. */
    lemma {:induction false} WalkFrom(i: nat, k: nat)
      requires Valid() && i < count && i + k <= count
      ensures Walk(nodes[i], k) == if i + k < count then nodes[i + k] else head
      decreases k
    {
      if k != 0 {
        if i + 1 < count {
          WalkFrom(i + 1, k - 1);
        } else {
          assert nodes[i].next == nodes[0];
        }
      }
    }

    /** `count` is the length of the ring: the walk from `Head` first returns to `Head` after `count` links. */
    lemma CountIsRingLength()
      requires Valid() && count != 0
      ensures Walk(head, count) == head
      ensures forall k :: 0 < k < count ==> Walk(head, k) != head
    {
      WalkFrom(0, count);
      forall k | 0 < k < count
        ensures Walk(head, k) != head
      {
        WalkFrom(0, k);
      }
    }
  }
}
