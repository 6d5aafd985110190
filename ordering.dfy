/**
 * The order NaryExpr keeps its children in. `Expr.compareTo` is not part of
 * this model: it is a parameter `le`, where `le(x, y)` stands for
 * `x.compareTo(y) <= 0`. Both constructors of NaryExpr sort their input
 * with a stable library sort; `Sort` below is a stable insertion sort.
 */
module Ordering {
  import opened Ast

  type Le = (Expr, Expr) -> bool

  ghost predicate Total(le: Le) {
    forall x, y :: le(x, y) || le(y, x)
  }

  ghost predicate Transitive(le: Le) {
    forall x, y, z :: le(x, y) && le(y, z) ==> le(x, z)
  }

  ghost predicate Antisymmetric(le: Le) {
    forall x, y :: le(x, y) && le(y, x) ==> x == y
  }

  /** `compareTo` consistent with `equals`, as Comparable recommends. */
  ghost predicate TotalOrder(le: Le) {
    Total(le) && Transitive(le) && Antisymmetric(le)
  }

  /** Every adjacent pair is in order (what `repOk` checks); duplicates allowed. */
  predicate Sorted(le: Le, s: seq<Expr>) {
    forall i | 0 < i < |s| :: le(s[i - 1], s[i])
  }

  /** Sorted with no two equal neighbours. */
  predicate StrictlySorted(le: Le, s: seq<Expr>) {
    Sorted(le, s) && forall i | 0 < i < |s| :: s[i - 1] != s[i]
  }

  /** Insert `x` before the first element it is not above. */
  function Insert(le: Le, x: Expr, s: seq<Expr>): (r: seq<Expr>)
    ensures multiset(r) == multiset(s) + multiset{x}
    ensures |r| == |s| + 1
    ensures r[0] == x || (|s| > 0 && r[0] == s[0])
    ensures Total(le) && Sorted(le, s) ==> Sorted(le, r)
  {
    if s == [] then [x]
    else if le(x, s[0]) then [x] + s
    else
      var r := [s[0]] + Insert(le, x, s[1..]);
      assert s == [s[0]] + s[1..];
      r
  }

  function Sort(le: Le, s: seq<Expr>): (r: seq<Expr>)
    ensures multiset(r) == multiset(s)
    ensures Total(le) ==> Sorted(le, r)
  {
    if s == [] then []
    else
      var t := Sort(le, s[1..]);
      assert s == [s[0]] + s[1..];
      Insert(le, s[0], t)
  }

  /** Sorting an already sorted sequence changes nothing (stability). */
  lemma {:induction false} SortOfSorted(le: Le, s: seq<Expr>)
    requires Sorted(le, s)
    ensures Sort(le, s) == s
  {
    if s != [] {
      SortOfSorted(le, s[1..]);
      assert Sort(le, s[1..]) == s[1..];
      if |s| > 1 {
        assert le(s[0], s[1]);
      }
      assert [s[0]] + s[1..] == s;
    }
  }

  /** Under a transitive order, adjacent order gives order between any two positions. */
  lemma {:induction false} SortedPairwise(le: Le, s: seq<Expr>, i: int, j: int)
    requires Transitive(le) && Sorted(le, s)
    requires 0 <= i < j < |s|
    ensures le(s[i], s[j])
    decreases j - i
  {
    if i + 1 < j {
      SortedPairwise(le, s, i + 1, j);
    }
  }

  /** Under a total order, a strictly sorted sequence has no repeated element. */
  lemma StrictlySortedDistinct(le: Le, s: seq<Expr>, i: int, j: int)
    requires TotalOrder(le) && StrictlySorted(le, s)
    requires 0 <= i < j < |s|
    ensures s[i] != s[j]
  {
    if i + 1 < j {
      SortedPairwise(le, s, i + 1, j);
    }
    assert le(s[i], s[i + 1]) && s[i] != s[i + 1];
  }

  /**
   * Under a total order, a strictly sorted sequence is determined by its
   * elements: two of them holding the same elements are equal.
   */
  lemma {:induction false} StrictlySortedUnique(le: Le, a: seq<Expr>, b: seq<Expr>)
    requires TotalOrder(le) && StrictlySorted(le, a) && StrictlySorted(le, b)
    requires forall x :: x in a <==> x in b
    ensures a == b
  {
    assert a != [] ==> a[0] in a;
    assert b != [] ==> b[0] in b;
    if a != [] && b != [] {
      var ia :| 0 <= ia < |a| && a[ia] == b[0];
      var ib :| 0 <= ib < |b| && b[ib] == a[0];
      if ia > 0 { SortedPairwise(le, a, 0, ia); }
      if ib > 0 { SortedPairwise(le, b, 0, ib); }
      assert a[0] == b[0];
      TailsSameElements(le, a, b);
      StrictlySortedUnique(le, a[1..], b[1..]);
      assert a == [a[0]] + a[1..] && b == [b[0]] + b[1..];
    }
  }

  /** Two strictly sorted sequences with the same elements and the same head have tails with the same elements. */
  lemma TailsSameElements(le: Le, a: seq<Expr>, b: seq<Expr>)
    requires TotalOrder(le) && StrictlySorted(le, a) && StrictlySorted(le, b)
    requires a != [] && b != [] && a[0] == b[0]
    requires forall x :: x in a <==> x in b
    ensures forall x :: x in a[1..] <==> x in b[1..]
  {
    forall x | x in a[1..] ensures x in b[1..] {
      var k :| 1 <= k < |a| && a[k] == x;
      StrictlySortedDistinct(le, a, 0, k);
      assert x in b;
      var m :| 0 <= m < |b| && b[m] == x;
      assert m != 0;
    }
    forall x | x in b[1..] ensures x in a[1..] {
      var k :| 1 <= k < |b| && b[k] == x;
      StrictlySortedDistinct(le, b, 0, k);
      assert x in a;
      var m :| 0 <= m < |a| && a[m] == x;
      assert m != 0;
    }
  }
}
