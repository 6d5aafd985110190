/**
 * Stages 7 and 8 of `NaryExpr.simplifyOnce`: absorption. A child of the
 * dual operator is dropped when its own children show it is implied by
 * (for OR) or implies (for AND) what its siblings already say:
 *   x + (x . y) = x        x . (x + y) = x          (simple absorption)
 *   (a . b) + (a . b . c) = a . b                   (subset absorption, case 1)
 *   a . b . ((a . b) + c) = a . b                   (subset absorption, case 2)
 */
module Absorption {
  import opened Ast
  import opened Ordering
  import opened NaryExpr
  import opened Stages

  /** The children of `s` that are containers of the dual operator, i.e. `filter(getThatClass(), true)`. */
  function DualChildren(le: Le, n: NaryExpr): (r: seq<Expr>)
    ensures forall x :: multiset(r)[x] == if SameKind(Dual(n.op), x) then multiset(n.kids)[x] else 0
    ensures forall x :: x in r <==> x in n.kids && SameKind(Dual(n.op), x)
  {
    var f := FilterClass(le, n, ClassOfOp(Dual(n.op)), true);
    assert forall x :: (ClassOf(x) == ClassOfOp(Dual(n.op))) == SameKind(Dual(n.op), x);
    forall x ensures x in f.kids <==> x in n.kids && SameKind(Dual(n.op), x) {
      assert x in f.kids <==> x in multiset(f.kids);
      assert x in n.kids <==> x in multiset(n.kids);
    }
    f.kids
  }

  // ---------------------------------------------------------------- stage 7

  /** Some variable `kids[k]`, `k < i`, is a child of `x`. */
  ghost predicate AbsorbedUpTo(kids: seq<Expr>, i: nat, x: Expr)
    requires i <= |kids| && x.Nary?
  {
    i > 0 && (AbsorbedUpTo(kids, i - 1, x) || (kids[i - 1].Var? && kids[i - 1] in x.kids))
  }

  /** `x` is a dual container one of whose children is a variable child of `kids`. */
  ghost predicate SimplyAbsorbed(op: Op, kids: seq<Expr>, x: Expr) {
    SameKind(Dual(op), x) && exists v :: v in kids && v.Var? && v in x.kids
  }

  /**
   * Stage 7, `simpleAbsorption`: every dual container having a variable
   * sibling among its own children is removed (all copies of it). With no
   * dual child at all, `n` itself is returned.
   */
  method SimpleAbsorption(le: Le, n: NaryExpr) returns (r: NaryExpr)
    ensures r.op == n.op
    ensures (forall x :: x in n.kids ==> !SameKind(Dual(n.op), x)) ==> r == n
    ensures forall x :: multiset(r.kids)[x] == if SimplyAbsorbed(n.op, n.kids, x) then 0 else multiset(n.kids)[x]
    ensures n.kids != [] ==> r.kids != []
    ensures Total(le) && Sorted(le, n.kids) ==> Sorted(le, r.kids)
    ensures SameMeaning(r, n)
  {
    var others := DualChildren(le, n);
    if others == [] {
      forall x | SimplyAbsorbed(n.op, n.kids, x) ensures multiset(n.kids)[x] == 0 {
        assert x !in others;
      }
      return n;
    }
    assert others[0] in others;
    assert forall j :: 0 <= j < |others| ==> others[j].Nary? by {
      forall j | 0 <= j < |others| ensures others[j].Nary? {
        assert others[j] in others;
      }
    }
    r := AbsorbVariables(le, n.op, n.kids, others);
    SimpleAbsorptionResult(n, others, r);
    SimpleAbsorptionKeepsChild(n, r);
  }

  /** A variable child is never absorbed, so a non-empty container stays non-empty. */
  lemma SimpleAbsorptionKeepsChild(n: NaryExpr, r: NaryExpr)
    requires forall x :: multiset(r.kids)[x] == if SimplyAbsorbed(n.op, n.kids, x) then 0 else multiset(n.kids)[x]
    ensures n.kids != [] ==> r.kids != []
  {
    if n.kids != [] {
      var k := n.kids[0];
      if SimplyAbsorbed(n.op, n.kids, k) {
        var v :| v in n.kids && v.Var? && v in k.kids;
        assert v in multiset(r.kids);
      } else {
        assert k in multiset(r.kids);
      }
    }
  }

  /** The outer loop: the containers holding each variable child in turn are removed. */
  method AbsorbVariables(le: Le, op: Op, kids: seq<Expr>, others: seq<Expr>) returns (r: NaryExpr)
    requires forall j :: 0 <= j < |others| ==> others[j].Nary?
    ensures r.op == op
    ensures forall x :: multiset(r.kids)[x] ==
              if x.Nary? && x in others && AbsorbedUpTo(kids, |kids|, x) then 0 else multiset(kids)[x]
    ensures Total(le) ==> Sorted(le, r.kids)
  {
    r := Make(le, op, kids);
    for i := 0 to |kids|
      invariant r.op == op
      invariant Total(le) ==> Sorted(le, r.kids)
      invariant forall x :: multiset(r.kids)[x] ==
                  if x.Nary? && x in others && AbsorbedUpTo(kids, i, x) then 0 else multiset(kids)[x]
    {
      var child := kids[i];
      ghost var before := r;
      if child.Var? {
        r := RemoveContaining(le, r, others, child);
      }
      AbsorbStep(kids, i, others, before, r);
    }
  }

  lemma AbsorbStep(kids: seq<Expr>, i: nat, others: seq<Expr>, r: NaryExpr, r': NaryExpr)
    requires i < |kids|
    requires forall x :: multiset(r.kids)[x] ==
               if x.Nary? && x in others && AbsorbedUpTo(kids, i, x) then 0 else multiset(kids)[x]
    requires !kids[i].Var? ==> r' == r
    requires kids[i].Var? ==> forall x :: (multiset(r'.kids)[x] ==
               if x.Nary? && x in others && kids[i] in x.kids then 0 else multiset(r.kids)[x])
    ensures forall x :: multiset(r'.kids)[x] ==
              if x.Nary? && x in others && AbsorbedUpTo(kids, i + 1, x) then 0 else multiset(kids)[x]
  {
  }

  /** The containers among `others[..j]` that hold `child`. */
  ghost predicate HoldsUpTo(others: seq<Expr>, j: nat, child: Expr, x: Expr)
    requires j <= |others|
  {
    j > 0 && (HoldsUpTo(others, j - 1, child, x) || (x == others[j - 1] && x.Nary? && child in x.kids))
  }

  lemma {:induction false} HoldsUpToAll(others: seq<Expr>, j: nat, child: Expr, x: Expr)
    requires j <= |others|
    ensures HoldsUpTo(others, j, child, x) <==> x in others[..j] && x.Nary? && child in x.kids
  {
    if j > 0 {
      HoldsUpToAll(others, j - 1, child, x);
      assert others[..j] == others[..j - 1] + [others[j - 1]];
    }
  }

  /** Removing every copy of one child. */
  lemma RemoveOne(le: Le, r: NaryExpr, o: Expr)
    ensures forall x :: multiset(RemoveAll(le, r, [o], Equals).kids)[x] == if x == o then 0 else multiset(r.kids)[x]
  {
    forall x ensures multiset(RemoveAll(le, r, [o], Equals).kids)[x] == if x == o then 0 else multiset(r.kids)[x] {
      if x == o {
        assert o in [o] && Equals(x, o);
      }
    }
  }

  /** The inner loop: every container of `others` holding `child` is removed. */
  method RemoveContaining(le: Le, r: NaryExpr, others: seq<Expr>, child: Expr) returns (r': NaryExpr)
    requires forall j :: 0 <= j < |others| ==> others[j].Nary?
    ensures r'.op == r.op
    ensures forall x :: multiset(r'.kids)[x] ==
              if x.Nary? && x in others && child in x.kids then 0 else multiset(r.kids)[x]
    ensures Total(le) && Sorted(le, r.kids) ==> Sorted(le, r'.kids)
  {
    r' := r;
    for j := 0 to |others|
      invariant r'.op == r.op
      invariant Total(le) && Sorted(le, r.kids) ==> Sorted(le, r'.kids)
      invariant forall x :: multiset(r'.kids)[x] == if HoldsUpTo(others, j, child, x) then 0 else multiset(r.kids)[x]
    {
      var o: NaryExpr := others[j];
      if Contains(o, child, Equals) {
        RemoveOne(le, r', o);
        r' := RemoveAll(le, r', [o], Equals);
      }
    }
    forall x ensures HoldsUpTo(others, |others|, child, x) <==> x.Nary? && x in others && child in x.kids {
      HoldsUpToAll(others, |others|, child, x);
      assert others[..|others|] == others;
    }
  }

  lemma SimpleAbsorptionResult(n: NaryExpr, others: seq<Expr>, r: NaryExpr)
    requires forall x :: x in others <==> x in n.kids && SameKind(Dual(n.op), x)
    requires r.op == n.op
    requires forall x :: multiset(r.kids)[x] ==
               if x.Nary? && x in others && AbsorbedUpTo(n.kids, |n.kids|, x) then 0 else multiset(n.kids)[x]
    ensures forall x :: multiset(r.kids)[x] == if SimplyAbsorbed(n.op, n.kids, x) then 0 else multiset(n.kids)[x]
    ensures SameMeaning(r, n)
  {
    forall x ensures multiset(r.kids)[x] == if SimplyAbsorbed(n.op, n.kids, x) then 0 else multiset(n.kids)[x] {
      if x.Nary? {
        AbsorbedUpToAll(n.kids, |n.kids|, x);
        assert n.kids[..|n.kids|] == n.kids;
      }
      assert x !in n.kids ==> multiset(n.kids)[x] == 0;
    }
    SimpleAbsorptionMeaning(n, r);
  }

  lemma {:induction false} AbsorbedUpToAll(kids: seq<Expr>, i: nat, x: Expr)
    requires i <= |kids| && x.Nary?
    ensures AbsorbedUpTo(kids, i, x) <==> exists v :: v in kids[..i] && v.Var? && v in x.kids
  {
    if i > 0 {
      AbsorbedUpToAll(kids, i - 1, x);
      assert kids[..i] == kids[..i - 1] + [kids[i - 1]];
    }
  }

  /** Dropping absorbed containers keeps the meaning: `x + (x . y) = x`, `x . (x + y) = x`. */
  lemma SimpleAbsorptionMeaning(n: NaryExpr, r: NaryExpr)
    requires r.op == n.op
    requires forall x :: multiset(r.kids)[x] == if SimplyAbsorbed(n.op, n.kids, x) then 0 else multiset(n.kids)[x]
    ensures SameMeaning(r, n)
  {
    forall x ensures x in r.kids <==> x in n.kids && !SimplyAbsorbed(n.op, n.kids, x) {
      assert x in r.kids <==> x in multiset(r.kids);
      assert x in n.kids <==> x in multiset(n.kids);
    }
    forall env ensures Eval(env, r) == Eval(env, n) {
      EvalNary(env, n.op, r.kids);
      EvalNary(env, n.op, n.kids);
      if n.op == OrOp && Eval(env, n) {
        var k :| k in n.kids && Eval(env, k);
        if SimplyAbsorbed(n.op, n.kids, k) {
          var v :| v in n.kids && v.Var? && v in k.kids;
          EvalNary(env, k.op, k.kids);
          assert v in r.kids && Eval(env, v);
        } else {
          assert k in r.kids;
        }
      }
      if n.op == AndOp && Eval(env, r) {
        forall k | k in n.kids ensures Eval(env, k) {
          if SimplyAbsorbed(n.op, n.kids, k) {
            var v :| v in n.kids && v.Var? && v in k.kids;
            EvalNary(env, k.op, k.kids);
            assert v in r.kids;
          } else {
            assert k in r.kids;
          }
        }
      }
    }
  }

  // ---------------------------------------------------------------- stage 8

  /** `x` occurs among `s[..i]`. */
  ghost predicate InPrefix(s: seq<Expr>, i: nat, x: Expr)
    requires i <= |s|
  {
    i > 0 && (InPrefix(s, i - 1, x) || s[i - 1] == x)
  }

  lemma {:induction false} InPrefixAll(s: seq<Expr>, i: nat, x: Expr)
    requires i <= |s|
    ensures InPrefix(s, i, x) <==> x in s[..i]
  {
    if i > 0 {
      InPrefixAll(s, i - 1, x);
      assert s[..i] == s[..i - 1] + [s[i - 1]];
    }
  }

  /** `m` and `o` are different containers of one operator, and every child of `m` is a child of `o`. */
  predicate SubsetOf(m: Expr, o: Expr) {
    m.Nary? && o.Nary? && m != o && m.op == o.op && forall k :: k in m.kids ==> k in o.kids
  }

  /** Case 1: a dual container having a different dual sibling whose children are all among its own. */
  ghost predicate HasSubsetSibling(op: Op, kids: seq<Expr>, x: Expr) {
    SameKind(Dual(op), x) && exists m :: m in kids && SubsetOf(m, x)
  }

  /** A container all of whose children are children of `n`. */
  predicate Subsumed(n: NaryExpr, g: Expr) {
    g.Nary? && forall k :: k in g.kids ==> k in n.kids
  }

  /** Case 2: a dual container having a container child (a grandchild of `n`) subsumed by `n`. */
  ghost predicate HasSubsumedChild(n: NaryExpr, x: Expr) {
    SameKind(Dual(n.op), x) && exists g :: g in x.kids && Subsumed(n, g)
  }

  /** What `subsetAbsorption` removes. */
  ghost predicate SubsetAbsorbed(n: NaryExpr, x: Expr) {
    HasSubsetSibling(n.op, n.kids, x) || HasSubsumedChild(n, x)
  }

  /**
   * Stage 8, `subsetAbsorption`. Case 1 removes (every copy of) each dual
   * child that has a different dual sibling whose children are all among
   * its own; case 2 then removes each remaining dual child that has a
   * container child all of whose children are children of `n`. With no
   * dual child at all, `n` itself is returned.
   */
  method SubsetAbsorption(le: Le, n: NaryExpr) returns (r: NaryExpr)
    ensures r.op == n.op
    ensures (forall x :: x in n.kids ==> !SameKind(Dual(n.op), x)) ==> r == n
    ensures forall x :: multiset(r.kids)[x] == if SubsetAbsorbed(n, x) then 0 else multiset(n.kids)[x]
    ensures DistinctSiblingSets(n) && NonEmptyGrandchildren(n) ==> SameMeaning(r, n)
    ensures DistinctSiblingSets(n) && NonEmptyGrandchildren(n) && n.kids != [] ==> r.kids != []
    ensures Total(le) && Sorted(le, n.kids) ==> Sorted(le, r.kids)
  {
    var others := DualChildren(le, n);
    if others == [] {
      forall x | SubsetAbsorbed(n, x) ensures multiset(n.kids)[x] == 0 {
        assert x !in others;
      }
      SameMeaningReflexive(n);
      return n;
    }
    assert others[0] in others;
    AllNary(others, n.op);
    var r1 := RemoveSubsetSiblings(le, n.op, n.kids, others);
    var others2 := DualChildren(le, r1);
    AllNary(others2, n.op);
    r := RemoveSubsumedParents(le, n, r1, others2);
    SubsetAbsorptionResult(n, others, r1, others2, r);
    if DistinctSiblingSets(n) && NonEmptyGrandchildren(n) {
      SubsetAbsorptionMeaning(n, r);
      if n.kids != [] {
        SomeChildSurvives(n, r, n.kids[0]);
      }
    }
  }

  lemma AllNary(others: seq<Expr>, op: Op)
    requires forall x :: x in others ==> SameKind(Dual(op), x)
    ensures forall j :: 0 <= j < |others| ==> others[j].Nary?
  {
    forall j | 0 <= j < |others| ensures others[j].Nary? {
      assert others[j] in others;
    }
  }

  /** Case 1, outer loop: each dual child with a subset sibling is removed. */
  method RemoveSubsetSiblings(le: Le, op: Op, kids: seq<Expr>, others: seq<Expr>) returns (r: NaryExpr)
    requires forall j :: 0 <= j < |others| ==> others[j].Nary?
    ensures r.op == op
    ensures forall x :: multiset(r.kids)[x] ==
              if x in others && exists m :: m in others && SubsetOf(m, x) then 0 else multiset(kids)[x]
    ensures Total(le) ==> Sorted(le, r.kids)
  {
    r := Make(le, op, kids);
    for i := 0 to |others|
      invariant r.op == op
      invariant Total(le) ==> Sorted(le, r.kids)
      invariant forall x :: multiset(r.kids)[x] ==
                  if InPrefix(others, i, x) && exists m :: m in others && SubsetOf(m, x) then 0 else multiset(kids)[x]
    {
      var o1: NaryExpr := others[i];
      ghost var before := r;
      r := RemoveIfSubsetSibling(le, r, o1, others);
      RemovedOneStep(others, i, kids, before, r, o1, exists m :: m in others && SubsetOf(m, o1));
    }
    forall x ensures InPrefix(others, |others|, x) <==> x in others {
      InPrefixAll(others, |others|, x);
      assert others[..|others|] == others;
    }
  }

  /**
   * One step of an outer loop that removes `others[i]` exactly when `p`
   * (a property of `others[i]`) holds.
   */
  lemma RemovedOneStep(others: seq<Expr>, i: nat, kids: seq<Expr>, r: NaryExpr, r': NaryExpr, o: Expr, p: bool)
    requires i < |others| && o == others[i]
    requires forall x :: multiset(r.kids)[x] ==
               if InPrefix(others, i, x) && exists m :: m in others && SubsetOf(m, x) then 0 else multiset(kids)[x]
    requires p == exists m :: m in others && SubsetOf(m, o)
    requires forall x :: multiset(r'.kids)[x] == if x == o && p then 0 else multiset(r.kids)[x]
    ensures forall x :: multiset(r'.kids)[x] ==
              if InPrefix(others, i + 1, x) && exists m :: m in others && SubsetOf(m, x) then 0 else multiset(kids)[x]
  {
  }

  /** Case 1, inner loop: `o1` is removed if some container of `others` is a subset of it. */
  method RemoveIfSubsetSibling(le: Le, r: NaryExpr, o1: NaryExpr, others: seq<Expr>) returns (r': NaryExpr)
    requires forall j :: 0 <= j < |others| ==> others[j].Nary?
    ensures r'.op == r.op
    ensures forall x :: multiset(r'.kids)[x] ==
              if x == o1 && exists m :: m in others && SubsetOf(m, o1) then 0 else multiset(r.kids)[x]
    ensures Total(le) && Sorted(le, r.kids) ==> Sorted(le, r'.kids)
  {
    r' := r;
    for j := 0 to |others|
      invariant r'.op == r.op
      invariant Total(le) && Sorted(le, r.kids) ==> Sorted(le, r'.kids)
      invariant forall x :: multiset(r'.kids)[x] == if x == o1 && SubsetUpTo(others, j, o1) then 0 else multiset(r.kids)[x]
    {
      var o2: NaryExpr := others[j];
      if ContainsNaryExprSubset(o1, o2, Equals) {
        RemoveOne(le, r', o1);
        r' := RemoveAll(le, r', [o1], Equals);
      }
    }
    SubsetUpToAll(others, |others|, o1);
  }

  /** Some container among `others[..j]` is a subset of `o`. */
  ghost predicate SubsetUpTo(others: seq<Expr>, j: nat, o: Expr)
    requires j <= |others|
  {
    j > 0 && (SubsetUpTo(others, j - 1, o) || SubsetOf(others[j - 1], o))
  }

  lemma {:induction false} SubsetUpToAll(others: seq<Expr>, j: nat, o: Expr)
    requires j == |others|
    ensures SubsetUpTo(others, j, o) <==> exists m :: m in others && SubsetOf(m, o)
  {
    SubsetUpToPrefix(others, j, o);
    assert others[..j] == others;
  }

  lemma {:induction false} SubsetUpToPrefix(others: seq<Expr>, j: nat, o: Expr)
    requires j <= |others|
    ensures SubsetUpTo(others, j, o) <==> exists m :: m in others[..j] && SubsetOf(m, o)
  {
    if j > 0 {
      SubsetUpToPrefix(others, j - 1, o);
      assert others[..j] == others[..j - 1] + [others[j - 1]];
    }
  }

  /** Case 2, outer loop over the dual children left by case 1. */
  method RemoveSubsumedParents(le: Le, n: NaryExpr, r1: NaryExpr, others: seq<Expr>) returns (r: NaryExpr)
    requires forall j :: 0 <= j < |others| ==> others[j].Nary?
    ensures r.op == r1.op
    ensures forall x :: multiset(r.kids)[x] ==
              if x in others && x.Nary? && ParentOfSubsumed(n, x) then 0 else multiset(r1.kids)[x]
    ensures Total(le) && Sorted(le, r1.kids) ==> Sorted(le, r.kids)
  {
    r := r1;
    for i := 0 to |others|
      invariant r.op == r1.op
      invariant Total(le) && Sorted(le, r1.kids) ==> Sorted(le, r.kids)
      invariant forall x :: multiset(r.kids)[x] ==
                  if InPrefix(others, i, x) && x.Nary? && ParentOfSubsumed(n, x) then 0 else multiset(r1.kids)[x]
    {
      var o: NaryExpr := others[i];
      r := RemoveIfSubsumedChild(le, n, r, o);
    }
    forall x ensures InPrefix(others, |others|, x) <==> x in others {
      InPrefixAll(others, |others|, x);
      assert others[..|others|] == others;
    }
  }

  /** Some child of the container `x` is subsumed by `n`. */
  ghost predicate ParentOfSubsumed(n: NaryExpr, x: NaryExpr) {
    exists g :: g in x.kids && Subsumed(n, g)
  }

  /**
   * Case 2, the loop over one dual child's children, left at the first
   * container child subsumed by `n` (the `break`).
   */
  method RemoveIfSubsumedChild(le: Le, n: NaryExpr, r: NaryExpr, o: NaryExpr) returns (r': NaryExpr)
    ensures r'.op == r.op
    ensures forall x :: multiset(r'.kids)[x] == if x == o && ParentOfSubsumed(n, o) then 0 else multiset(r.kids)[x]
    ensures Total(le) && Sorted(le, r.kids) ==> Sorted(le, r'.kids)
  {
    r' := r;
    var grandchildren := o.kids;
    for j := 0 to |grandchildren|
      invariant r' == r
      invariant forall k :: 0 <= k < j ==> !Subsumed(n, grandchildren[k])
    {
      var g := grandchildren[j];
      if g.Nary? {
        var canBeAbsorbed := CanBeAbsorbed(n, g);
        if canBeAbsorbed {
          RemoveOne(le, r, o);
          assert Subsumed(n, g);
          r' := RemoveAll(le, r', [o], Equals);
          break;
        }
      }
    }
  }

  /** The flag loop: every child of `g` is a child of `n`. */
  method CanBeAbsorbed(n: NaryExpr, g: NaryExpr) returns (canBeAbsorbed: bool)
    ensures canBeAbsorbed <==> Subsumed(n, g)
  {
    canBeAbsorbed := true;
    var ks := g.kids;
    for k := 0 to |ks|
      invariant canBeAbsorbed <==> forall j :: 0 <= j < k ==> ks[j] in n.kids
    {
      if !Contains(n, ks[k], Equals) {
        canBeAbsorbed := false;
      }
    }
  }

  /** The two cases together remove exactly the `SubsetAbsorbed` children. */
  lemma SubsetAbsorptionResult(n: NaryExpr, others: seq<Expr>, r1: NaryExpr, others2: seq<Expr>, r: NaryExpr)
    requires forall x :: x in others <==> x in n.kids && SameKind(Dual(n.op), x)
    requires r1.op == n.op
    requires forall x :: multiset(r1.kids)[x] ==
               if x in others && exists m :: m in others && SubsetOf(m, x) then 0 else multiset(n.kids)[x]
    requires forall x :: x in others2 <==> x in r1.kids && SameKind(Dual(r1.op), x)
    requires r.op == r1.op
    requires forall x :: multiset(r.kids)[x] ==
               if x in others2 && x.Nary? && ParentOfSubsumed(n, x) then 0 else multiset(r1.kids)[x]
    ensures forall x :: multiset(r.kids)[x] == if SubsetAbsorbed(n, x) then 0 else multiset(n.kids)[x]
  {
    forall x ensures multiset(r.kids)[x] == if SubsetAbsorbed(n, x) then 0 else multiset(n.kids)[x] {
      assert x in r1.kids <==> x in multiset(r1.kids);
      assert x in n.kids <==> x in multiset(n.kids);
      if x in others && (exists m :: m in others && SubsetOf(m, x)) {
        var m :| m in others && SubsetOf(m, x);
        assert HasSubsetSibling(n.op, n.kids, x);
      }
    }
  }

  // ------------------------------------------------ stage 8: meaning

  /** Nesting depth of an expression tree. */
  function Depth(e: Expr): nat {
    match e
    case Var(_) => 0
    case Const(_) => 0
    case Not(x) => Depth(x) + 1
    case And2(l, r) => (if Depth(l) < Depth(r) then Depth(r) else Depth(l)) + 1
    case Or2(l, r) => (if Depth(l) < Depth(r) then Depth(r) else Depth(l)) + 1
    case Nary(_, ks) => MaxDepth(ks) + 1
  }

  function MaxDepth(ks: seq<Expr>): nat
    decreases ks
  {
    if ks == [] then 0
    else
      var d, rest := Depth(ks[0]), MaxDepth(ks[1..]);
      if d < rest then rest else d
  }

  lemma {:induction false} MaxDepthBound(ks: seq<Expr>, x: Expr)
    requires x in ks
    ensures Depth(x) <= MaxDepth(ks)
  {
    if ks[0] != x {
      MaxDepthBound(ks[1..], x);
    }
  }

  lemma {:induction false} MaxDepthSubset(a: seq<Expr>, b: seq<Expr>)
    requires forall x :: x in a ==> x in b
    ensures MaxDepth(a) <= MaxDepth(b)
  {
    if a != [] {
      assert a[0] in a;
      MaxDepthBound(b, a[0]);
      assert forall x :: x in a[1..] ==> x in a;
      MaxDepthSubset(a[1..], b);
    }
  }

  /** The children of a container, as a set. */
  ghost function Elements(e: Expr): set<Expr> {
    if e.Nary? then set k | k in e.kids else {}
  }

  lemma ProperSubsetSmaller(a: set<Expr>, b: set<Expr>)
    requires a <= b && a != b
    ensures |a| < |b|
  {
    var z :| z in b && z !in a;
    var c := b - {z};
    assert b == c + {z} && z !in c;
    assert |b| == |c| + 1;
    assert c == a + (c - a) && a * (c - a) == {};
    assert |c| == |a| + |c - a|;
  }

  /**
   * Distinct dual children have distinct sets of children. Holds when every
   * dual child is strictly sorted under a total order (see CanonicalSiblings).
   */
  ghost predicate DistinctSiblingSets(n: NaryExpr) {
    forall a, b :: a in n.kids && b in n.kids && SameKind(Dual(n.op), a) && SameKind(Dual(n.op), b) && a != b
      ==> Elements(a) != Elements(b)
  }

  /** No container grandchild is empty. */
  ghost predicate NonEmptyGrandchildren(n: NaryExpr) {
    forall x, g :: x in n.kids && x.Nary? && g in x.kids && g.Nary? ==> g.kids != []
  }

  /** Hypotheses of `SubsetAbsorptionMeaning` about the removed children. */
  ghost predicate SubsetAbsorptionState(n: NaryExpr, r: NaryExpr) {
    && r.op == n.op
    && (forall x :: multiset(r.kids)[x] == if SubsetAbsorbed(n, x) then 0 else multiset(n.kids)[x])
    && DistinctSiblingSets(n)
    && NonEmptyGrandchildren(n)
  }

  lemma ChildOfResult(n: NaryExpr, r: NaryExpr, k: Expr)
    requires SubsetAbsorptionState(n, r) && k in n.kids && !SubsetAbsorbed(n, k)
    ensures k in r.kids
  {
    assert k in multiset(n.kids);
  }

  lemma InResult(n: NaryExpr, r: NaryExpr, k: Expr)
    requires SubsetAbsorptionState(n, r) && k in r.kids
    ensures k in n.kids
  {
    assert k in multiset(r.kids);
  }

  /** The two orderings the induction below descends along. */
  lemma SiblingSmaller(n: NaryExpr, m: Expr, k: Expr)
    requires DistinctSiblingSets(n) && m in n.kids && k in n.kids
    requires SameKind(Dual(n.op), k) && SubsetOf(m, k)
    ensures Depth(m) <= Depth(k) && |Elements(m)| < |Elements(k)|
  {
    MaxDepthSubset(m.kids, k.kids);
    assert Elements(m) <= Elements(k);
    ProperSubsetSmaller(Elements(m), Elements(k));
  }

  lemma GrandchildSmaller(k: Expr, g: Expr, z: Expr)
    requires k.Nary? && g in k.kids && g.Nary? && z in g.kids
    ensures Depth(z) < Depth(k)
  {
    MaxDepthBound(g.kids, z);
    MaxDepthBound(k.kids, g);
  }

  /** Under AND, when every child of `r` holds, every child of `n` holds. */
  lemma {:induction false} AndChildHolds(env: string -> bool, n: NaryExpr, r: NaryExpr, k: Expr)
    requires n.op == AndOp && SubsetAbsorptionState(n, r)
    requires forall y :: y in r.kids ==> Eval(env, y)
    requires k in n.kids
    ensures Eval(env, k)
    decreases Depth(k), |Elements(k)|
  {
    if !SubsetAbsorbed(n, k) {
      ChildOfResult(n, r, k);
    } else if HasSubsetSibling(n.op, n.kids, k) {
      var m :| m in n.kids && SubsetOf(m, k);
      SiblingSmaller(n, m, k);
      AndChildHolds(env, n, r, m);
      EvalNary(env, OrOp, m.kids);
      var z :| z in m.kids && Eval(env, z);
      EvalNary(env, OrOp, k.kids);
    } else {
      var g :| g in k.kids && Subsumed(n, g);
      forall z | z in g.kids ensures Eval(env, z) {
        GrandchildSmaller(k, g, z);
        AndChildHolds(env, n, r, z);
      }
      EvalNary(env, g.op, g.kids);
      assert g.kids != [] ==> g.kids[0] in g.kids;
      assert Eval(env, g);
      EvalNary(env, OrOp, k.kids);
    }
  }

  /** Under OR, a child of `n` that holds gives a child of `r` that holds. */
  lemma {:induction false} OrChildWitness(env: string -> bool, n: NaryExpr, r: NaryExpr, k: Expr)
    requires n.op == OrOp && SubsetAbsorptionState(n, r)
    requires k in n.kids && Eval(env, k)
    ensures exists y :: y in r.kids && Eval(env, y)
    decreases Depth(k), |Elements(k)|
  {
    if !SubsetAbsorbed(n, k) {
      ChildOfResult(n, r, k);
    } else if HasSubsetSibling(n.op, n.kids, k) {
      var m :| m in n.kids && SubsetOf(m, k);
      SiblingSmaller(n, m, k);
      EvalNary(env, AndOp, k.kids);
      EvalNary(env, AndOp, m.kids);
      OrChildWitness(env, n, r, m);
    } else {
      var g :| g in k.kids && Subsumed(n, g);
      EvalNary(env, AndOp, k.kids);
      EvalNary(env, g.op, g.kids);
      assert g.kids != [] ==> g.kids[0] in g.kids;
      var z :| z in g.kids && Eval(env, z);
      GrandchildSmaller(k, g, z);
      OrChildWitness(env, n, r, z);
    }
  }

  /**
   * Subset absorption keeps the meaning, provided distinct dual children
   * have distinct sets of children and no container grandchild is empty.
   */
  lemma SubsetAbsorptionMeaning(n: NaryExpr, r: NaryExpr)
    requires r.op == n.op
    requires forall x :: multiset(r.kids)[x] == if SubsetAbsorbed(n, x) then 0 else multiset(n.kids)[x]
    requires DistinctSiblingSets(n) && NonEmptyGrandchildren(n)
    ensures SameMeaning(r, n)
  {
    assert SubsetAbsorptionState(n, r);
    forall env ensures Eval(env, r) == Eval(env, n) {
      EvalNary(env, n.op, r.kids);
      EvalNary(env, n.op, n.kids);
      if n.op == AndOp {
        if Eval(env, r) {
          forall k | k in n.kids ensures Eval(env, k) {
            AndChildHolds(env, n, r, k);
          }
        }
        if Eval(env, n) {
          forall y | y in r.kids ensures Eval(env, y) {
            InResult(n, r, y);
          }
        }
      } else {
        if Eval(env, n) {
          var k :| k in n.kids && Eval(env, k);
          OrChildWitness(env, n, r, k);
        }
        if Eval(env, r) {
          var y :| y in r.kids && Eval(env, y);
          InResult(n, r, y);
        }
      }
    }
  }

  /**
   * Some child always survives subset absorption: descending from any
   * removed child along the same orders as the meaning proof reaches one
   * that is kept.
   */
  lemma {:induction false} SomeChildSurvives(n: NaryExpr, r: NaryExpr, k: Expr)
    requires SubsetAbsorptionState(n, r) && k in n.kids
    ensures r.kids != []
    decreases Depth(k), |Elements(k)|
  {
    if !SubsetAbsorbed(n, k) {
      ChildOfResult(n, r, k);
    } else if HasSubsetSibling(n.op, n.kids, k) {
      var m :| m in n.kids && SubsetOf(m, k);
      SiblingSmaller(n, m, k);
      SomeChildSurvives(n, r, m);
    } else {
      var g :| g in k.kids && Subsumed(n, g);
      assert g.kids[0] in g.kids;
      GrandchildSmaller(k, g, g.kids[0]);
      SomeChildSurvives(n, r, g.kids[0]);
    }
  }

  lemma SameMeaningReflexive(e: Expr)
    ensures SameMeaning(e, e)
  {
  }

  /**
   * Dual children kept in canonical form (strictly sorted by a total order)
   * satisfy `DistinctSiblingSets`.
   */
  lemma CanonicalSiblings(le: Le, n: NaryExpr)
    requires TotalOrder(le)
    requires forall x :: x in n.kids && x.Nary? ==> StrictlySorted(le, x.kids)
    ensures DistinctSiblingSets(n)
  {
    forall a, b | a in n.kids && b in n.kids && SameKind(Dual(n.op), a) && SameKind(Dual(n.op), b) && Elements(a) == Elements(b)
      ensures a == b
    {
      forall x ensures x in a.kids <==> x in b.kids {
        assert x in a.kids <==> x in Elements(a);
        assert x in b.kids <==> x in Elements(b);
      }
      StrictlySortedUnique(le, a.kids, b.kids);
    }
  }

  /** `(a . a . b) + (a . b) + c`: two conjunctions with the same set of children. */
  function SameSetSiblings(): NaryExpr {
    Nary(OrOp, [Nary(AndOp, [Var("a"), Var("a"), Var("b")]), Nary(AndOp, [Var("a"), Var("b")]), Var("c")])
  }

  lemma OnlyVariableLeft(r: NaryExpr)
    requires forall x :: multiset(r.kids)[x] ==
               if SubsetAbsorbed(SameSetSiblings(), x) then 0 else multiset(SameSetSiblings().kids)[x]
    ensures forall k :: k in r.kids ==> k == Var("c")
  {
    var n := SameSetSiblings();
    var x, y, c := n.kids[0], n.kids[1], n.kids[2];
    assert n.kids == [x, y, c];
    assert SubsetOf(y, x) && SubsetOf(x, y);
    assert y in n.kids && x in n.kids;
    assert SubsetAbsorbed(n, x) && SubsetAbsorbed(n, y);
    forall k | k in r.kids ensures k == c {
      assert k in multiset(r.kids);
      assert k in n.kids;
    }
  }

  /**
   * Without `DistinctSiblingSets` the meaning can change: in
   * `SameSetSiblings()` each conjunction's children are among the other's,
   * so case 1 removes both, leaving `c`.
   */
  lemma SubsetAbsorptionNeedsDistinctSets(r: NaryExpr)
    requires r.op == OrOp
    requires forall x :: multiset(r.kids)[x] ==
               if SubsetAbsorbed(SameSetSiblings(), x) then 0 else multiset(SameSetSiblings().kids)[x]
    ensures !SameMeaning(r, SameSetSiblings())
  {
    var n := SameSetSiblings();
    var x, y, c := n.kids[0], n.kids[1], n.kids[2];
    OnlyVariableLeft(r);
    var env := (v: string) => v != "c";
    EvalNary(env, OrOp, r.kids);
    EvalNary(env, OrOp, n.kids);
    EvalNary(env, AndOp, y.kids);
    assert Eval(env, n) && !Eval(env, r);
  }
}
