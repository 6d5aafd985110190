/**
 * Stages 5 and 6 of `NaryExpr.simplifyOnce`: folding complementary
 * children into the absorbing element, and removing duplicate children.
 * Both rebind a local result across a loop over a fixed list of children,
 * exactly as the code does; the loop list is evaluated once, before any
 * rebinding.
 */
module Folds {
  import opened Ast
  import opened Ordering
  import opened NaryExpr
  import opened Stages

  /** Membership after `append`. */
  lemma AppendMembers(le: Le, n: NaryExpr, e: Expr)
    ensures forall x :: x in Append(le, n, e).kids <==> x in n.kids || x == e
  {
    var r := Append(le, n, e);
    forall x ensures x in r.kids <==> x in n.kids || x == e {
      assert x in r.kids <==> multiset(r.kids)[x] > 0;
      assert x in n.kids <==> multiset(n.kids)[x] > 0;
    }
  }

  /** Membership after `removeAll`. */
  lemma RemoveAllMembers(le: Le, n: NaryExpr, targets: seq<Expr>, ex: Examiner)
    ensures forall x :: x in RemoveAll(le, n, targets, ex).kids <==>
      x in n.kids && !exists t :: t in targets && ex(x, t)
  {
    var r := RemoveAll(le, n, targets, ex);
    forall x ensures x in r.kids <==> x in n.kids && !exists t :: t in targets && ex(x, t) {
      assert x in r.kids <==> multiset(r.kids)[x] > 0;
      assert x in n.kids <==> multiset(n.kids)[x] > 0;
    }
  }

  // ---------------------------------------------------------------- stage 5

  /** Some child is a negation whose operand is equivalent to a child. */
  ghost predicate HasComplements(eqv: Examiner, s: seq<Expr>) {
    exists i, j :: 0 <= i < |s| && 0 <= j < |s| && s[i].Not? && eqv(s[j], s[i].inner)
  }

  /**
   * Stage 5, `foldComplements`: if some child `!x` has a child equivalent
   * to `x` beside it, every child equivalent to `!x` or to `x` is removed
   * and the absorbing element is appended; this is repeated for every
   * negated child of the (re-sorted) original list.
   */
  method FoldComplements(le: Le, eqv: Examiner, n: NaryExpr) returns (r: NaryExpr)
    ensures r.op == n.op
    ensures !HasComplements(eqv, n.kids) ==> r == Make(le, n.op, n.kids)
    ensures HasComplements(eqv, n.kids) ==> AbsorbingElement(n.op) in r.kids
    ensures forall x :: x in r.kids ==> x in n.kids || x == AbsorbingElement(n.op)
    ensures forall x :: x in r.kids <==>
              (x in n.kids && !FoldedAway(eqv, n.kids, n.kids, x)) || (HasComplements(eqv, n.kids) && x == AbsorbingElement(n.op))
    ensures n.kids != [] ==> r.kids != []
    ensures Total(le) ==> Sorted(le, r.kids)
    ensures EquivalenceSound(eqv) ==> SameMeaning(r, n)
  {
    var op, kids, a := n.op, n.kids, AbsorbingElement(n.op);
    r := Make(le, op, kids);
    var start := r;
    var init := r.kids;
    forall x | x in init ensures x in kids {
      assert x in multiset(init);
    }
    forall x ensures x in init <==> x in kids {
      assert x in init <==> x in multiset(init);
      assert x in kids <==> x in multiset(kids);
    }
    assert init[..0] == [];
    ghost var folded := false;
    for i := 0 to |init|
      invariant FoldInvariant(eqv, kids, init, i, start, r, folded)
      invariant Total(le) ==> Sorted(le, r.kids)
    {
      r, folded := FoldVisit(le, eqv, kids, init, i, start, r, folded);
    }
    if !folded {
      ComplementsFound(eqv, kids, init);
      if kids != [] {
        assert kids[0] in multiset(r.kids);
      }
    }
    assert init[..|init|] == init;
    assert ExactlyKept(eqv, kids, init, r, folded, a);
    FoldedAwaySameMembers(eqv, kids, init, kids);
    FoldComplementsMeaning(le, eqv, n, r);
  }

  /** What the loop of `foldComplements` keeps after visiting `init[..i]`. */
  ghost predicate FoldInvariant(eqv: Examiner, kids: seq<Expr>, init: seq<Expr>, i: int, start: NaryExpr, r: NaryExpr, folded: bool)
    requires 0 <= i <= |init|
  {
    var a := AbsorbingElement(start.op);
    && r.op == start.op
    && (!folded ==> r == start)
    && (folded ==> a in r.kids && HasComplements(eqv, kids))
    && (forall x :: x in r.kids ==> x in kids || x == a)
    && ExactlyKept(eqv, kids, init[..i], r, folded, a)
    && (!folded ==> forall p :: 0 <= p < i ==> !Complemented(eqv, kids, init[p]))
  }

  /**
   * The children of `r` are exactly those of `kids` not folded away by a
   * negation among `cs`, plus `a` once a fold has happened.
   */
  ghost predicate ExactlyKept(eqv: Examiner, kids: seq<Expr>, cs: seq<Expr>, r: NaryExpr, folded: bool, a: Expr) {
    forall x :: x in r.kids <==> (x in kids && !FoldedAway(eqv, kids, cs, x)) || (folded && x == a)
  }

  /**
   * `x` is removed by the fold of some complemented negation `c` among
   * `cs`: the examiner relates it to `c` or to the operand of `c`.
   */
  ghost predicate FoldedAway(eqv: Examiner, kids: seq<Expr>, cs: seq<Expr>, x: Expr) {
    exists c :: c in cs && Complemented(eqv, kids, c) && (eqv(x, c) || eqv(x, c.inner))
  }

  lemma FoldedAwaySnoc(eqv: Examiner, kids: seq<Expr>, init: seq<Expr>, i: int)
    requires 0 <= i < |init|
    ensures forall x :: FoldedAway(eqv, kids, init[..i + 1], x) <==>
              FoldedAway(eqv, kids, init[..i], x) || (Complemented(eqv, kids, init[i]) && (eqv(x, init[i]) || eqv(x, init[i].inner)))
  {
    assert init[..i + 1] == init[..i] + [init[i]];
  }

  lemma FoldedAwaySameMembers(eqv: Examiner, kids: seq<Expr>, cs: seq<Expr>, ds: seq<Expr>)
    requires multiset(cs) == multiset(ds)
    ensures forall x :: FoldedAway(eqv, kids, cs, x) <==> FoldedAway(eqv, kids, ds, x)
  {
    forall c ensures c in cs <==> c in ds {
      assert c in cs <==> c in multiset(cs);
      assert c in ds <==> c in multiset(ds);
    }
  }

  /** One pass of the loop body: the child `init[i]`. */
  method FoldVisit(le: Le, eqv: Examiner, kids: seq<Expr>, init: seq<Expr>, i: int, start: NaryExpr, r: NaryExpr, ghost folded: bool)
    returns (r': NaryExpr, ghost folded': bool)
    requires multiset(init) == multiset(kids) && 0 <= i < |init|
    requires FoldInvariant(eqv, kids, init, i, start, r, folded)
    ensures FoldInvariant(eqv, kids, init, i + 1, start, r', folded')
    ensures Total(le) && Sorted(le, r.kids) ==> Sorted(le, r'.kids)
  {
    r', folded' := r, folded;
    var child := init[i];
    if child.Not? && Contains(Nary(r.op, kids), child.inner, eqv) {
      var a := AbsorbingElement(r.op);
      FoldStep(le, eqv, kids, init, i, start, r, folded);
      r' := Append(le, RemoveAll(le, r, [child, child.inner], eqv), a);
      folded' := true;
    } else {
      NoFoldStep(eqv, kids, init, i, start, r, folded);
    }
  }

  /** The loop body when `init[i]` is folded. */
  lemma FoldStep(le: Le, eqv: Examiner, kids: seq<Expr>, init: seq<Expr>, i: int, start: NaryExpr, r: NaryExpr, folded: bool)
    requires multiset(init) == multiset(kids) && 0 <= i < |init|
    requires r.op == start.op && forall x :: x in r.kids ==> x in kids || x == AbsorbingElement(start.op)
    requires ExactlyKept(eqv, kids, init[..i], r, folded, AbsorbingElement(start.op))
    requires Complemented(eqv, kids, init[i])
    ensures var c, a := init[i], AbsorbingElement(start.op);
      FoldInvariant(eqv, kids, init, i + 1, start, Append(le, RemoveAll(le, r, [c, c.inner], eqv), a), true)
  {
    var c, a := init[i], AbsorbingElement(start.op);
    var r' := Append(le, RemoveAll(le, r, [c, c.inner], eqv), a);
    ComplementWitness(eqv, kids, init, i);
    FoldStepMembers(le, eqv, r, [c, c.inner], kids, a);
    assert r'.op == start.op && a in r'.kids;
    assert forall x :: x in r'.kids ==> x in kids || x == a;
    FoldStepExact(le, eqv, kids, init, i, r, folded, a);
  }

  /** The loop body when `init[i]` is not folded: nothing changes. */
  lemma NoFoldStep(eqv: Examiner, kids: seq<Expr>, init: seq<Expr>, i: int, start: NaryExpr, r: NaryExpr, folded: bool)
    requires 0 <= i < |init|
    requires FoldInvariant(eqv, kids, init, i, start, r, folded)
    requires !Complemented(eqv, kids, init[i])
    ensures FoldInvariant(eqv, kids, init, i + 1, start, r, folded)
  {
    FoldedAwaySnoc(eqv, kids, init, i);
  }

  /** One fold: exactly the children not yet folded away and unrelated to `init[i]` or its operand remain, plus `a`. */
  lemma FoldStepExact(le: Le, eqv: Examiner, kids: seq<Expr>, init: seq<Expr>, i: int, r: NaryExpr, folded: bool, a: Expr)
    requires 0 <= i < |init| && Complemented(eqv, kids, init[i])
    requires ExactlyKept(eqv, kids, init[..i], r, folded, a)
    ensures var c := init[i];
      ExactlyKept(eqv, kids, init[..i + 1], Append(le, RemoveAll(le, r, [c, c.inner], eqv), a), true, a)
  {
    var c := init[i];
    var removed := RemoveAll(le, r, [c, c.inner], eqv);
    var r' := Append(le, removed, a);
    FoldedAwaySnoc(eqv, kids, init, i);
    RemoveAllMembers(le, r, [c, c.inner], eqv);
    AppendMembers(le, removed, a);
    forall x ensures x in r'.kids <==> (x in kids && !FoldedAway(eqv, kids, init[..i + 1], x)) || x == a {
      var hit := eqv(x, c) || eqv(x, c.inner);
      assert (exists t :: t in [c, c.inner] && eqv(x, t)) <==> hit by {
        if eqv(x, c) {
          assert c in [c, c.inner];
        }
        if eqv(x, c.inner) {
          assert c.inner in [c, c.inner];
        }
      }
      assert x in removed.kids <==> x in r.kids && !hit;
      assert FoldedAway(eqv, kids, init[..i + 1], x) <==> FoldedAway(eqv, kids, init[..i], x) || hit;
    }
  }

  /** One fold keeps the children within those of `kids` plus `a`, and holds `a`. */
  lemma FoldStepMembers(le: Le, eqv: Examiner, r: NaryExpr, targets: seq<Expr>, kids: seq<Expr>, a: Expr)
    requires forall x :: x in r.kids ==> x in kids || x == a
    ensures var r' := Append(le, RemoveAll(le, r, targets, eqv), a);
      r'.op == r.op && a in r'.kids && forall x :: x in r'.kids ==> x in kids || x == a
  {
    RemoveAllMembers(le, r, targets, eqv);
    AppendMembers(le, RemoveAll(le, r, targets, eqv), a);
  }

  /** `child` is a negation whose operand is equivalent to some element of `kids`. */
  predicate Complemented(eqv: Examiner, kids: seq<Expr>, child: Expr) {
    child.Not? && Contains(Nary(AndOp, kids), child.inner, eqv)
  }

  lemma ComplementWitness(eqv: Examiner, kids: seq<Expr>, init: seq<Expr>, i: int)
    requires multiset(init) == multiset(kids) && 0 <= i < |init|
    requires init[i].Not? && Contains(Nary(AndOp, kids), init[i].inner, eqv)
    ensures HasComplements(eqv, kids)
  {
    assert init[i] in multiset(kids);
    var ci :| 0 <= ci < |kids| && kids[ci] == init[i];
    var cj :| 0 <= cj < |kids| && eqv(kids[cj], init[i].inner);
  }

  /** A loop over a permutation of the children that met no complemented negation: there is none. */
  lemma ComplementsFound(eqv: Examiner, kids: seq<Expr>, init: seq<Expr>)
    requires multiset(init) == multiset(kids)
    requires forall p :: 0 <= p < |init| ==> !Complemented(eqv, kids, init[p])
    ensures !HasComplements(eqv, kids)
  {
    forall i, j | 0 <= i < |kids| && 0 <= j < |kids| && kids[i].Not?
      ensures !eqv(kids[j], kids[i].inner)
    {
      assert kids[i] in multiset(init);
      var p :| 0 <= p < |init| && init[p] == kids[i];
      assert !Complemented(eqv, kids, init[p]);
    }
  }

  /**
   * A container with a complementary pair means its absorbing element, so
   * any container of the same operator holding the absorbing element and
   * otherwise only children of it means the same.
   */
  lemma FoldComplementsMeaning(le: Le, eqv: Examiner, n: NaryExpr, r: NaryExpr)
    requires r.op == n.op
    requires !HasComplements(eqv, n.kids) ==> r == Make(le, n.op, n.kids)
    requires HasComplements(eqv, n.kids) ==> AbsorbingElement(n.op) in r.kids
    ensures EquivalenceSound(eqv) ==> SameMeaning(r, n)
  {
    var a := AbsorbingElement(n.op);
    if !HasComplements(eqv, n.kids) {
      forall x ensures x in r.kids <==> x in n.kids {
        assert x in r.kids <==> x in multiset(r.kids);
      }
      SameElementsSameMeaning(n.op, r.kids, n.kids);
    } else if EquivalenceSound(eqv) {
      var i, j :| 0 <= i < |n.kids| && 0 <= j < |n.kids| && n.kids[i].Not? && eqv(n.kids[j], n.kids[i].inner);
      assert SameMeaning(n.kids[j], n.kids[i].inner);
      forall env ensures Eval(env, r) == Eval(env, n) {
        AbsorbingLaw(env, n.op, r.kids);
        EvalNary(env, n.op, n.kids);
        assert n.kids[i] in n.kids && n.kids[j] in n.kids;
        assert Eval(env, n.kids[j]) != Eval(env, n.kids[i]);
      }
    }
  }

  // ---------------------------------------------------------------- stage 6

  /**
   * `x` is one of the two children of some adjacent pair `s[k-1], s[k]`,
   * `k < i`, that the examiner finds equivalent.
   */
  predicate Touched(eqv: Examiner, s: seq<Expr>, i: nat, x: Expr)
    requires i <= |s|
  {
    i >= 2 && (Touched(eqv, s, i - 1, x) || (eqv(s[i - 1], s[i - 2]) && (x == s[i - 1] || x == s[i - 2])))
  }

  /** What holds of the result after the pairs before index `i` were visited. */
  ghost predicate DedupInvariant(eqv: Examiner, kids: seq<Expr>, i: nat, r: NaryExpr)
    requires i <= |kids|
  {
    && (forall x :: x in r.kids ==> x in kids)
    && (forall x :: !Touched(eqv, kids, i, x) ==> multiset(r.kids)[x] == multiset(kids)[x])
    && (forall x :: Touched(eqv, kids, i, x) ==> multiset(r.kids)[x] <= 1)
    && (EquivalenceSound(eqv) ==> forall y :: y in kids ==> exists j :: 0 <= j < |r.kids| && SameMeaning(y, r.kids[j]))
  }

  /**
   * Stage 6, `removeDuplicates`: for every adjacent pair of equivalent
   * children, every copy of both is removed and one copy of the second is
   * appended. Containers of at most one child are returned unchanged.
   */
  method RemoveDuplicates(le: Le, eqv: Examiner, n: NaryExpr) returns (r: NaryExpr)
    ensures r.op == n.op
    ensures |n.kids| <= 1 ==> r == n
    ensures forall x :: x in r.kids ==> x in n.kids
    ensures forall x :: !Touched(eqv, n.kids, |n.kids|, x) ==> multiset(r.kids)[x] == multiset(n.kids)[x]
    ensures forall x :: Touched(eqv, n.kids, |n.kids|, x) ==> multiset(r.kids)[x] <= 1
    ensures n.kids != [] ==> r.kids != []
    ensures Total(le) ==> Sorted(le, r.kids)
    ensures EquivalenceSound(eqv) ==> SameMeaning(r, n)
  {
    if |n.kids| <= 1 {
      return n;
    }
    r := DedupPairs(le, eqv, n.op, n.kids);
    DedupResult(eqv, n, r);
  }

  /** The loop of `removeDuplicates` over the adjacent pairs of `kids`. */
  method DedupPairs(le: Le, eqv: Examiner, op: Op, kids: seq<Expr>) returns (r: NaryExpr)
    requires |kids| > 1
    ensures r.op == op && DedupInvariant(eqv, kids, |kids|, r)
    ensures r.kids != [] && (Total(le) ==> Sorted(le, r.kids))
  {
    r := DedupFirst(le, eqv, op, kids);
    for i := 1 to |kids|
      invariant r.op == op
      invariant DedupInvariant(eqv, kids, i, r)
      invariant r.kids != [] && (Total(le) ==> Sorted(le, r.kids))
    {
      r := DedupVisit(le, eqv, kids, i, r);
    }
  }

  /** Before the loop: the sorted children, with the first one visited. */
  method DedupFirst(le: Le, eqv: Examiner, op: Op, kids: seq<Expr>) returns (r: NaryExpr)
    requires |kids| > 1
    ensures r.op == op && DedupInvariant(eqv, kids, 1, r)
    ensures r.kids != [] && (Total(le) ==> Sorted(le, r.kids))
  {
    r := Make(le, op, kids);
    DedupStart(eqv, kids, r);
    assert kids[0] in multiset(r.kids);
  }

  /** One pass of the loop body: the pair `kids[i-1], kids[i]`. */
  method DedupVisit(le: Le, eqv: Examiner, kids: seq<Expr>, i: nat, r: NaryExpr) returns (r': NaryExpr)
    requires 1 <= i < |kids| && DedupInvariant(eqv, kids, i, r)
    ensures r'.op == r.op && DedupInvariant(eqv, kids, i + 1, r')
    ensures r.kids != [] ==> r'.kids != []
    ensures Total(le) && Sorted(le, r.kids) ==> Sorted(le, r'.kids)
  {
    r' := r;
    if eqv(kids[i], kids[i - 1]) {
      r' := Append(le, RemoveAll(le, r, [kids[i], kids[i - 1]], Equals), kids[i]);
      ReplacePair(le, r, kids[i], kids[i - 1]);
      assert kids[i] in multiset(r'.kids);
    }
    DedupStep(eqv, kids, i, r, r');
  }

  lemma DedupStart(eqv: Examiner, kids: seq<Expr>, r: NaryExpr)
    requires 1 <= |kids| && multiset(r.kids) == multiset(kids)
    ensures DedupInvariant(eqv, kids, 1, r)
  {
    forall x ensures x in r.kids <==> x in kids {
      assert x in r.kids <==> x in multiset(r.kids);
    }
    forall y | y in kids ensures exists j :: 0 <= j < |r.kids| && SameMeaning(y, r.kids[j]) {
      var j :| 0 <= j < |r.kids| && r.kids[j] == y;
      assert SameMeaning(y, r.kids[j]);
    }
  }

  /** Removing every copy of `cur` and `prev`, then appending `cur`. */
  lemma ReplacePair(le: Le, r: NaryExpr, cur: Expr, prev: Expr)
    ensures var r' := Append(le, RemoveAll(le, r, [cur, prev], Equals), cur);
      forall x :: multiset(r'.kids)[x] == if x == cur then 1 else if x == prev then 0 else multiset(r.kids)[x]
  {
    var targets := [cur, prev];
    forall x ensures (exists t :: t in targets && Equals(x, t)) == (x in targets) {
      if x in targets {
        assert Equals(x, x);
      }
    }
  }

  /** Every child still has a child of equal meaning after a pair is replaced. */
  lemma ReplacePairCovers(eqv: Examiner, kids: seq<Expr>, r: NaryExpr, r': NaryExpr, cur: Expr, prev: Expr)
    requires EquivalenceSound(eqv) && eqv(cur, prev)
    requires forall x :: multiset(r'.kids)[x] == if x == cur then 1 else if x == prev then 0 else multiset(r.kids)[x]
    requires forall y :: y in kids ==> exists j :: 0 <= j < |r.kids| && SameMeaning(y, r.kids[j])
    ensures forall y :: y in kids ==> exists j :: 0 <= j < |r'.kids| && SameMeaning(y, r'.kids[j])
  {
    assert cur in multiset(r'.kids);
    var jc :| 0 <= jc < |r'.kids| && r'.kids[jc] == cur;
    forall y | y in kids ensures exists j :: 0 <= j < |r'.kids| && SameMeaning(y, r'.kids[j]) {
      var j :| 0 <= j < |r.kids| && SameMeaning(y, r.kids[j]);
      var w := r.kids[j];
      if w == cur {
        assert SameMeaning(y, r'.kids[jc]);
      } else if w == prev {
        assert SameMeaning(cur, prev);
        SameMeaningTransitive(y, prev, cur);
        assert SameMeaning(y, r'.kids[jc]);
      } else {
        assert w in multiset(r.kids);
        assert w in multiset(r'.kids);
        var j' :| 0 <= j' < |r'.kids| && r'.kids[j'] == w;
        assert SameMeaning(y, r'.kids[j']);
      }
    }
  }

  /** One visited pair keeps the invariant. */
  lemma DedupStep(eqv: Examiner, kids: seq<Expr>, i: nat, r: NaryExpr, r': NaryExpr)
    requires 1 <= i < |kids| && DedupInvariant(eqv, kids, i, r)
    requires !eqv(kids[i], kids[i - 1]) ==> r' == r
    requires eqv(kids[i], kids[i - 1]) ==> forall x :: (multiset(r'.kids)[x] ==
      if x == kids[i] then 1 else if x == kids[i - 1] then 0 else multiset(r.kids)[x])
    ensures DedupInvariant(eqv, kids, i + 1, r')
  {
    var cur, prev := kids[i], kids[i - 1];
    if eqv(cur, prev) {
      forall x | x in r'.kids ensures x in kids {
        assert x in multiset(r'.kids);
        if x != cur {
          assert x in multiset(r.kids);
        }
      }
      forall x ensures !Touched(eqv, kids, i + 1, x) ==> multiset(r'.kids)[x] == multiset(kids)[x] {
        assert Touched(eqv, kids, i + 1, x) == (Touched(eqv, kids, i, x) || x == cur || x == prev);
      }
      forall x ensures Touched(eqv, kids, i + 1, x) ==> multiset(r'.kids)[x] <= 1 {
        assert Touched(eqv, kids, i + 1, x) == (Touched(eqv, kids, i, x) || x == cur || x == prev);
      }
      if EquivalenceSound(eqv) {
        ReplacePairCovers(eqv, kids, r, r', cur, prev);
      }
    } else {
      assert forall x :: Touched(eqv, kids, i + 1, x) == Touched(eqv, kids, i, x);
    }
  }

  lemma DedupResult(eqv: Examiner, n: NaryExpr, r: NaryExpr)
    requires r.op == n.op && DedupInvariant(eqv, n.kids, |n.kids|, r)
    ensures forall x :: x in r.kids ==> x in n.kids
    ensures forall x :: !Touched(eqv, n.kids, |n.kids|, x) ==> multiset(r.kids)[x] == multiset(n.kids)[x]
    ensures forall x :: Touched(eqv, n.kids, |n.kids|, x) ==> multiset(r.kids)[x] <= 1
    ensures EquivalenceSound(eqv) ==> SameMeaning(r, n)
  {
    if EquivalenceSound(eqv) {
      CoversSameMeaning(n.op, r.kids, n.kids);
    }
  }

  /**
   * With the children sorted by a total order and an examiner that relates
   * every expression to itself, every repeated child is `Touched`, so
   * `RemoveDuplicates` leaves at most one copy of any child.
   */
  lemma RepeatedIsTouched(le: Le, eqv: Examiner, s: seq<Expr>, x: Expr)
    requires TotalOrder(le) && Sorted(le, s)
    requires forall y :: eqv(y, y)
    requires multiset(s)[x] >= 2
    ensures Touched(eqv, s, |s|, x)
  {
    var p, q := TwoOccurrences(s, x);
    if p + 1 < q {
      SortedPairwise(le, s, p + 1, q);
    }
    assert le(s[p], s[p + 1]) && le(s[p + 1], s[q]);
    assert s[p + 1] == x;
    assert eqv(s[p + 1], s[p]);
    assert Touched(eqv, s, p + 2, x);
    TouchedMonotone(eqv, s, p + 2, |s|, x);
  }

  /** A child touched before `i` stays touched. */
  lemma {:induction false} TouchedMonotone(eqv: Examiner, s: seq<Expr>, i: nat, j: nat, x: Expr)
    requires i <= j <= |s| && Touched(eqv, s, i, x)
    ensures Touched(eqv, s, j, x)
    decreases j - i
  {
    if i < j {
      assert Touched(eqv, s, i + 1, x);
      TouchedMonotone(eqv, s, i + 1, j, x);
    }
  }

  /** A value occurring at least twice occurs at two positions. */
  lemma {:induction false} TwoOccurrences(s: seq<Expr>, x: Expr) returns (p: nat, q: nat)
    requires multiset(s)[x] >= 2
    ensures p < q < |s| && s[p] == x && s[q] == x
  {
    assert s == [s[0]] + s[1..];
    if s[0] == x {
      assert x in multiset(s[1..]);
      var k :| 0 <= k < |s[1..]| && s[1..][k] == x;
      p, q := 0, k + 1;
    } else {
      var p', q' := TwoOccurrences(s[1..], x);
      p, q := p' + 1, q' + 1;
    }
  }
}
