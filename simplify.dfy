/**
 * `NaryExpr.simplifyOnce`: the nine stages applied in order, and the
 * theorem that the whole pipeline keeps the meaning of the container.
 *
 * The theorem needs four facts about collaborators that are parameters
 * here: the child simplifier keeps meaning and returns normalised
 * expressions, the Equivalent examiner only relates expressions of equal
 * meaning, and `compareTo` is a total order.
 */
module Simplify {
  import opened Ast
  import opened Ordering
  import opened NaryExpr
  import opened Stages
  import opened Folds
  import opened Absorption

  /**
   * Normal form as the fixed-point simplifier leaves it: every container
   * in the tree has at least two children and is strictly sorted.
   */
  ghost predicate Canonical(le: Le, e: Expr) {
    match e
    case Var(_) => true
    case Const(_) => true
    case Not(x) => Canonical(le, x)
    case And2(l, r) => Canonical(le, l) && Canonical(le, r)
    case Or2(l, r) => Canonical(le, l) && Canonical(le, r)
    case Nary(_, ks) => |ks| > 1 && StrictlySorted(le, ks) && forall k | k in ks :: Canonical(le, k)
  }

  /** The child simplifier returns normalised expressions. */
  ghost predicate SimplifierCanonical(le: Le, simp: Expr -> Expr) {
    forall e :: Canonical(le, simp(e))
  }

  ghost predicate AllCanonical(le: Le, s: seq<Expr>) {
    forall x :: x in s ==> Canonical(le, x)
  }

  /**
   * `simplifyOnce`: simplifyChildren, mergeGrandchildren,
   * foldIdentityElements, foldAbsorbingElements, foldComplements,
   * removeDuplicates, simpleAbsorption, subsetAbsorption, singletonify.
   */
  method SimplifyOnce(le: Le, eqv: Examiner, simp: Expr -> Expr, n: NaryExpr) returns (r: Expr)
    ensures SimplifierSound(simp) && EquivalenceSound(eqv) && TotalOrder(le) && SimplifierCanonical(le, simp)
            ==> SameMeaning(r, n)
    ensures TotalOrder(le) && SimplifierCanonical(le, simp) && r.Nary? ==> |r.kids| > 1 && Sorted(le, r.kids)
  {
    var s2 := ChildStages(le, simp, n);
    var s6 := FoldStages(le, eqv, s2);
    var s8 := AbsorptionStages(le, s6);
    r := Singletonify(s8);
    if SimplifierSound(simp) && EquivalenceSound(eqv) && TotalOrder(le) && SimplifierCanonical(le, simp) {
      SameMeaningTransitive(s6, s2, n);
      SameMeaningTransitive(s8, s6, n);
      SameMeaningTransitive(r, s8, n);
    }
    if TotalOrder(le) && SimplifierCanonical(le, simp) && |s8.kids| == 1 {
      assert s8.kids[0] in s8.kids;
    }
  }

  /** Stages 1 and 2, which rework the children. */
  method ChildStages(le: Le, simp: Expr -> Expr, n: NaryExpr) returns (s2: NaryExpr)
    ensures s2.op == n.op
    ensures SimplifierSound(simp) ==> SameMeaning(s2, n)
    ensures SimplifierCanonical(le, simp) ==> AllCanonical(le, s2.kids)
    ensures Total(le) ==> Sorted(le, s2.kids)
  {
    var s1 := SimplifyChildren(le, simp, n);
    s2 := MergeGrandchildren(le, s1);
    if SimplifierSound(simp) {
      SameMeaningTransitive(s2, s1, n);
    }
    if SimplifierCanonical(le, simp) {
      MappedCanonical(le, simp, n, s1);
      MergedCanonical(le, s1, s2);
    }
  }

  /** Stages 3 to 6, which fold constants, complements and duplicates. */
  method FoldStages(le: Le, eqv: Examiner, s2: NaryExpr) returns (s6: NaryExpr)
    ensures s6.op == s2.op
    ensures EquivalenceSound(eqv) ==> SameMeaning(s6, s2)
    ensures AllCanonical(le, s2.kids) ==> AllCanonical(le, s6.kids)
    ensures s6.kids != []
    ensures Total(le) ==> Sorted(le, s6.kids)
  {
    var s3 := FoldIdentityElements(le, s2);
    var s4 := FoldAbsorbingElements(le, s3);
    var s5 := FoldComplements(le, eqv, s4);
    s6 := RemoveDuplicates(le, eqv, s5);
    if EquivalenceSound(eqv) {
      SameMeaningTransitive(s4, s3, s2);
      SameMeaningTransitive(s5, s4, s2);
      SameMeaningTransitive(s6, s5, s2);
    }
    if AllCanonical(le, s2.kids) {
      IdentityFoldedCanonical(le, s2, s3);
      AddedConstantCanonical(le, s3, s4, AbsorbingElement(s3.op));
      AddedConstantCanonical(le, s4, s5, AbsorbingElement(s4.op));
      AddedConstantCanonical(le, s5, s6, AbsorbingElement(s5.op));
    }
  }

  /** Stages 7 and 8, absorption. */
  method AbsorptionStages(le: Le, s6: NaryExpr) returns (s8: NaryExpr)
    ensures s8.op == s6.op
    ensures TotalOrder(le) && AllCanonical(le, s6.kids) ==> SameMeaning(s8, s6)
    ensures AllCanonical(le, s6.kids) ==> AllCanonical(le, s8.kids)
    ensures TotalOrder(le) && AllCanonical(le, s6.kids) && s6.kids != [] ==> s8.kids != []
    ensures Total(le) && Sorted(le, s6.kids) ==> Sorted(le, s8.kids)
  {
    var s7 := SimpleAbsorption(le, s6);
    s8 := SubsetAbsorption(le, s7);
    if AllCanonical(le, s6.kids) {
      AbsorbedCanonical(le, s6, s7);
      SubsetAbsorbedCanonical(le, s7, s8);
    }
    if TotalOrder(le) && AllCanonical(le, s6.kids) {
      CanonicalChildren(le, s7);
      CanonicalSiblings(le, s7);
      SameMeaningTransitive(s8, s7, s6);
    }
  }

  /** Stage 1: the children are outputs of the child simplifier. */
  lemma MappedCanonical(le: Le, simp: Expr -> Expr, n: NaryExpr, s1: NaryExpr)
    requires SimplifierCanonical(le, simp)
    requires multiset(s1.kids) == multiset(Mapped(simp, n.kids))
    ensures AllCanonical(le, s1.kids)
  {
    forall x | x in s1.kids ensures Canonical(le, x) {
      assert x in multiset(Mapped(simp, n.kids));
      var i :| 0 <= i < |n.kids| && Mapped(simp, n.kids)[i] == x;
    }
  }

  /** Stage 2: children and grandchildren of normalised children are normalised. */
  lemma MergedCanonical(le: Le, s1: NaryExpr, s2: NaryExpr)
    requires AllCanonical(le, s1.kids)
    requires forall x :: x in s2.kids <==> Merged(s1, x)
    ensures AllCanonical(le, s2.kids)
  {
    forall x | x in s2.kids ensures Canonical(le, x) {
      if !(x in s1.kids) {
        var c :| c in s1.kids && SameKind(s1.op, c) && x in c.kids;
        assert Canonical(le, c);
      }
    }
  }

  /** Stage 3: only the identity element is added. */
  lemma IdentityFoldedCanonical(le: Le, s2: NaryExpr, s3: NaryExpr)
    requires AllCanonical(le, s2.kids)
    requires |s2.kids| == 1 ==> s3 == s2
    requires |s2.kids| != 1 ==> IdentityFolded(s2, s3)
    ensures AllCanonical(le, s3.kids)
  {
    var id := IdentityElement(s2.op);
    if |s2.kids| != 1 {
      if exists x :: x in s2.kids && x != id {
        forall x | x in s3.kids ensures Canonical(le, x) {
          assert x in multiset(s3.kids);
          assert x in multiset(s2.kids);
        }
      } else {
        assert s3.kids == [id];
      }
    }
  }

  /** Stages 4 and 5 add only the absorbing element; stage 6 only removes. */
  lemma AddedConstantCanonical(le: Le, s: NaryExpr, t: NaryExpr, c: Expr)
    requires AllCanonical(le, s.kids) && c.Const?
    requires forall x :: x in t.kids ==> x in s.kids || x == c
    ensures AllCanonical(le, t.kids)
  {
  }

  /** Stage 7 only removes. */
  lemma AbsorbedCanonical(le: Le, s6: NaryExpr, s7: NaryExpr)
    requires AllCanonical(le, s6.kids)
    requires forall x :: multiset(s7.kids)[x] == if SimplyAbsorbed(s6.op, s6.kids, x) then 0 else multiset(s6.kids)[x]
    ensures AllCanonical(le, s7.kids)
  {
    forall x | x in s7.kids ensures Canonical(le, x) {
      assert x in multiset(s7.kids);
      assert x in multiset(s6.kids);
    }
  }

  /** Stage 8 only removes. */
  lemma SubsetAbsorbedCanonical(le: Le, s7: NaryExpr, s8: NaryExpr)
    requires AllCanonical(le, s7.kids)
    requires forall x :: multiset(s8.kids)[x] == if SubsetAbsorbed(s7, x) then 0 else multiset(s7.kids)[x]
    ensures AllCanonical(le, s8.kids)
  {
    forall x | x in s8.kids ensures Canonical(le, x) {
      assert x in multiset(s8.kids);
      assert x in multiset(s7.kids);
    }
  }

  /** What subset absorption needs of normalised children. */
  lemma CanonicalChildren(le: Le, n: NaryExpr)
    requires AllCanonical(le, n.kids)
    ensures forall x :: x in n.kids && x.Nary? ==> StrictlySorted(le, x.kids)
    ensures NonEmptyGrandchildren(n)
  {
    forall x, g | x in n.kids && x.Nary? && g in x.kids && g.Nary? ensures g.kids != [] {
      assert Canonical(le, x);
      assert Canonical(le, g);
    }
  }
}
