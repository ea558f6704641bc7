/**
 * The linear searches of the list, stated on the abstract sequence of values
 * (or of nodes) that the list holds from `Head` to `Last`.
 */
module Sequences {

  /** Index of the first occurrence of `x` in `s`, or `|s|` when `x` does not occur. */
  function IndexOf<X(==)>(s: seq<X>, x: X): (k: nat)
    ensures k <= |s|
    ensures k < |s| <==> x in s
    ensures k < |s| ==> s[k] == x
    ensures forall j :: 0 <= j < k ==> s[j] != x
  {
    if |s| == 0 then 0
    else if s[0] == x then 0
    else 1 + IndexOf(s[1..], x)
  }

  /**
   * Index of the last occurrence of `x` among the positions `lo .. |s| - 1`
   * of `s`, or -1 when none of those positions holds `x`.
   */
  function LastIndexFrom<X(==)>(s: seq<X>, lo: nat, x: X): (k: int)
    requires lo <= |s|
    ensures k == -1 || lo <= k < |s|
    ensures k == -1 <==> forall j :: lo <= j < |s| ==> s[j] != x
    ensures 0 <= k ==> s[k] == x
    ensures forall j :: k < j < |s| && lo <= j ==> s[j] != x
    decreases |s|
  {
    if lo == |s| then -1
    else if s[|s| - 1] == x then |s| - 1
    else LastIndexFrom(s[..|s| - 1], lo, x)
  }

  /** `s` with `x` inserted so that it lands at position `m`. */
  function Insert<X>(s: seq<X>, m: nat, x: X): (r: seq<X>)
    requires m <= |s|
    ensures |r| == |s| + 1 && r[m] == x
    ensures forall i {:trigger r[i]} :: 0 <= i < m ==> r[i] == s[i]
    ensures forall i {:trigger r[i]} :: m < i < |r| ==> r[i] == s[i - 1]
  {
    s[..m] + [x] + s[m..]
  }

  /** `s` without its element at position `k`. */
  function Delete<X>(s: seq<X>, k: nat): (r: seq<X>)
    requires k < |s|
    ensures |r| == |s| - 1
    ensures forall i {:trigger r[i]} :: 0 <= i < k ==> r[i] == s[i]
    ensures forall i {:trigger r[i]} :: k <= i < |r| ==> r[i] == s[i + 1]
  {
    s[..k] + s[k + 1..]
  }

  /** Deleting what was just inserted gives back the original sequence. */
  lemma DeleteInsert<X>(s: seq<X>, m: nat, x: X)
    requires m <= |s|
    ensures Delete(Insert(s, m, x), m) == s
  {
  }

  /** No element occurs twice. */
  ghost predicate Distinct<X>(s: seq<X>) {
    forall i, j :: 0 <= i < j < |s| ==> s[i] != s[j]
  }

  /** Inserting an element that does not occur keeps a sequence free of repetitions. */
  lemma DistinctInsert<X>(s: seq<X>, m: nat, x: X)
    requires Distinct(s) && m <= |s| && x !in s
    ensures Distinct(Insert(s, m, x))
  {
  }

  /** Deleting an element keeps a sequence free of repetitions, and the deleted element is gone. */
  lemma DistinctDelete<X>(s: seq<X>, k: nat)
    requires Distinct(s) && k < |s|
    ensures Distinct(Delete(s, k)) && s[k] !in Delete(s, k)
  {
  }

  /** In a sequence without repetitions, the first occurrence of `s[k]` is at `k`. */
  lemma IndexOfDistinct<X>(s: seq<X>, k: nat)
    requires Distinct(s) && k < |s|
    ensures IndexOf(s, s[k]) == k
  {
  }

  /**
   * Appending `v` and then searching for `x` finds the old first occurrence
   * when there is one, and otherwise finds `v` at the new last position when
   * `x` is `v`.
   */
  lemma {:induction false} IndexOfAppend<X>(s: seq<X>, v: X, x: X)
    ensures IndexOf(s + [v], x) ==
              if x in s then IndexOf(s, x) else if x == v then |s| else |s| + 1
  {
    if |s| > 0 {
      assert (s + [v])[1..] == s[1..] + [v];
      IndexOfAppend(s[1..], v, x);
    }
  }

  /**
   * Deleting the first occurrence of `x` leaves `x` in the sequence exactly
   * when it occurred again after that occurrence.
   */
  lemma RemoveFirstOccurrence<X>(s: seq<X>, x: X)
    requires x in s
    ensures var k := IndexOf(s, x);
            x in s[..k] + s[k + 1..] <==> x in s[k + 1..]
  {
    var k := IndexOf(s, x);
    assert x !in s[..k];
  }
}
