/**
 * The rewrite stages of `NaryExpr.simplifyOnce`, one method each, in
 * pipeline order. Every stage returns a new container; the loop-based ones
 * rebind a local result across iterations exactly as the code does.
 *
 * Extra parameters stand for collaborators not in this model:
 *   simp -- `child.simplify()`, the fixed-point driver of the children
 *   eqv  -- Examiner.Equivalent (and `Expr.equivalent`)
 */
module Stages {
  import opened Ast
  import opened Ordering
  import opened NaryExpr

  /** The child simplifier keeps the meaning of what it simplifies. */
  ghost predicate SimplifierSound(simp: Expr -> Expr) {
    forall e :: SameMeaning(simp(e), e)
  }

  /** The Equivalent examiner only relates expressions of equal meaning. */
  ghost predicate EquivalenceSound(eqv: Examiner) {
    forall a, b :: eqv(a, b) ==> SameMeaning(a, b)
  }

  /** A child of `n` of the same operator (same concrete class as `n`). */
  predicate SameKind(op: Op, x: Expr) {
    x.Nary? && x.op == op
  }

  lemma SameMeaningTransitive(a: Expr, b: Expr, c: Expr)
    requires SameMeaning(a, b) && SameMeaning(b, c)
    ensures SameMeaning(a, c)
  {
    forall env ensures Eval(env, a) == Eval(env, c) {
      assert Eval(env, a) == Eval(env, b);
    }
  }

  /** A container with the same children (as a set) means the same. */
  lemma SameElementsSameMeaning(op: Op, a: seq<Expr>, b: seq<Expr>)
    requires forall x :: x in a <==> x in b
    ensures SameMeaning(Nary(op, a), Nary(op, b))
  {
    forall env ensures Eval(env, Nary(op, a)) == Eval(env, Nary(op, b)) {
      EvalSameElements(env, op, a, b);
    }
  }

  /**
   * `r` holds only children of `s`, and every child of `s` has one of equal
   * meaning in `r`: then the two containers mean the same.
   */
  ghost predicate Covers(r: seq<Expr>, s: seq<Expr>) {
    && (forall x :: x in r ==> x in s)
    && (forall y :: y in s ==> exists j :: 0 <= j < |r| && SameMeaning(y, r[j]))
  }

  lemma CoversSameMeaning(op: Op, r: seq<Expr>, s: seq<Expr>)
    requires Covers(r, s)
    ensures SameMeaning(Nary(op, r), Nary(op, s))
  {
    forall env ensures Eval(env, Nary(op, r)) == Eval(env, Nary(op, s)) {
      CoversEval(env, op, r, s);
    }
  }

  lemma CoversEval(env: string -> bool, op: Op, r: seq<Expr>, s: seq<Expr>)
    requires Covers(r, s)
    ensures Eval(env, Nary(op, r)) == Eval(env, Nary(op, s))
  {
    if y :| y in s && Eval(env, y) {
      var j :| 0 <= j < |r| && SameMeaning(y, r[j]);
      assert Eval(env, r[j]) && r[j] in r;
    }
    if y :| y in s && !Eval(env, y) {
      var j :| 0 <= j < |r| && SameMeaning(y, r[j]);
      assert !Eval(env, r[j]) && r[j] in r;
    }
    EvalByValues(env, op, r, s);
  }

  // ---------------------------------------------------------------- stage 1

  /** The children, each simplified, in the same order. */
  function Mapped(simp: Expr -> Expr, s: seq<Expr>): (r: seq<Expr>)
    ensures |r| == |s| && forall i :: 0 <= i < |s| ==> r[i] == simp(s[i])
  {
    if s == [] then [] else [simp(s[0])] + Mapped(simp, s[1..])
  }

  lemma MappedSnoc(simp: Expr -> Expr, s: seq<Expr>, x: Expr)
    ensures Mapped(simp, s + [x]) == Mapped(simp, s) + [simp(x)]
  {
  }

  /** Some child of `s` holds under `env`. */
  predicate SomeTrue(env: string -> bool, s: seq<Expr>) {
    exists x :: x in s && Eval(env, x)
  }

  /** Some child of `s` fails under `env`. */
  predicate SomeFalse(env: string -> bool, s: seq<Expr>) {
    exists x :: x in s && !Eval(env, x)
  }

  /**
   * Two containers of the same operator whose children take the same set of
   * truth values under `env` evaluate alike.
   */
  lemma EvalByValues(env: string -> bool, op: Op, a: seq<Expr>, b: seq<Expr>)
    requires SomeTrue(env, a) == SomeTrue(env, b) && SomeFalse(env, a) == SomeFalse(env, b)
    ensures Eval(env, Nary(op, a)) == Eval(env, Nary(op, b))
  {
    EvalNary(env, op, a);
    EvalNary(env, op, b);
  }

  /** Containers whose children agree position by position under `env` agree. */
  lemma EvalPointwise(env: string -> bool, op: Op, a: seq<Expr>, b: seq<Expr>)
    requires |a| == |b| && forall i :: 0 <= i < |a| ==> Eval(env, a[i]) == Eval(env, b[i])
    ensures Eval(env, Nary(op, a)) == Eval(env, Nary(op, b))
  {
    if x :| x in a && Eval(env, x) {
      var i :| 0 <= i < |a| && a[i] == x;
      assert b[i] in b;
    }
    if x :| x in a && !Eval(env, x) {
      var i :| 0 <= i < |a| && a[i] == x;
      assert b[i] in b;
    }
    if y :| y in b && Eval(env, y) {
      var i :| 0 <= i < |b| && b[i] == y;
      assert a[i] in a;
    }
    if y :| y in b && !Eval(env, y) {
      var i :| 0 <= i < |b| && b[i] == y;
      assert a[i] in a;
    }
    EvalByValues(env, op, a, b);
  }

  lemma MappedSameMeaning(simp: Expr -> Expr, op: Op, s: seq<Expr>)
    requires SimplifierSound(simp)
    ensures SameMeaning(Nary(op, Mapped(simp, s)), Nary(op, s))
  {
    var m := Mapped(simp, s);
    forall env ensures Eval(env, Nary(op, m)) == Eval(env, Nary(op, s)) {
      forall i | 0 <= i < |m| ensures Eval(env, m[i]) == Eval(env, s[i]) {
        assert SameMeaning(simp(s[i]), s[i]);
      }
      EvalPointwise(env, op, m, s);
    }
  }

  /** Stage 1, `simplifyChildren`: every child simplified, re-sorted. */
  method SimplifyChildren(le: Le, simp: Expr -> Expr, n: NaryExpr) returns (r: NaryExpr)
    ensures r.op == n.op && multiset(r.kids) == multiset(Mapped(simp, n.kids))
    ensures Total(le) ==> Sorted(le, r.kids)
    ensures SimplifierSound(simp) ==> SameMeaning(r, n)
  {
    var op, kids := n.op, n.kids;
    r := Make(le, op, []);
    for i := 0 to |kids|
      invariant r.op == op
      invariant multiset(r.kids) == multiset(Mapped(simp, kids[..i]))
      invariant Total(le) ==> Sorted(le, r.kids)
    {
      MappedPrefixStep(simp, kids, i);
      r := Append(le, r, simp(kids[i]));
    }
    assert kids[..|kids|] == kids;
    SimplifiedSameMeaning(simp, n, r);
  }

  lemma MappedPrefixStep(simp: Expr -> Expr, kids: seq<Expr>, i: int)
    requires 0 <= i < |kids|
    ensures multiset(Mapped(simp, kids[..i + 1])) == multiset(Mapped(simp, kids[..i])) + multiset{simp(kids[i])}
  {
    assert kids[..i + 1] == kids[..i] + [kids[i]];
    MappedSnoc(simp, kids[..i], kids[i]);
  }

  lemma SimplifiedSameMeaning(simp: Expr -> Expr, n: NaryExpr, r: NaryExpr)
    requires r.op == n.op && multiset(r.kids) == multiset(Mapped(simp, n.kids))
    ensures SimplifierSound(simp) ==> SameMeaning(r, n)
  {
    var rk := r.kids;
    var m := Mapped(simp, n.kids);
    assert forall x :: x in rk <==> x in m by {
      forall x ensures x in rk <==> x in m {
        assert x in rk <==> x in multiset(rk);
        assert x in m <==> x in multiset(m);
      }
    }
    if SimplifierSound(simp) {
      MappedSameMeaning(simp, n.op, n.kids);
      SameElementsSameMeaning(n.op, rk, m);
      SameMeaningTransitive(Nary(n.op, rk), Nary(n.op, m), n);
    }
  }

  // ---------------------------------------------------------------- stage 2

  /** The children of the container children, concatenated. */
  function Grandchildren(s: seq<Expr>): seq<Expr> {
    if s == [] then []
    else (if s[0].Nary? then s[0].kids else []) + Grandchildren(s[1..])
  }

  lemma {:induction false} GrandchildrenMember(s: seq<Expr>, x: Expr)
    ensures x in Grandchildren(s) <==> exists c :: c in s && c.Nary? && x in c.kids
  {
    if s != [] {
      GrandchildrenMember(s[1..], x);
      assert forall c :: c in s <==> c == s[0] || c in s[1..];
    }
  }

  /** A container holding no child of its own kind. */
  predicate Flat(op: Op, s: seq<Expr>) {
    forall x :: x in s ==> !SameKind(op, x)
  }

  /**
   * Stage 2, `mergeGrandchildren` (associativity): the children of every
   * same-kind child are spliced in place of that child.
   */
  method MergeGrandchildren(le: Le, n: NaryExpr) returns (r: NaryExpr)
    ensures r.op == n.op
    ensures Flat(n.op, n.kids) ==> r == n
    ensures !Flat(n.op, n.kids) ==> (multiset(r.kids) ==
              multiset(FilterClass(le, n, ClassOf(n), false).kids) + multiset(Grandchildren(FilterClass(le, n, ClassOf(n), true).kids)))
    ensures forall x :: x in r.kids <==> Merged(n, x)
    ensures (forall c :: c in n.kids && SameKind(n.op, c) ==> Flat(n.op, c.kids)) ==> Flat(n.op, r.kids)
    ensures Total(le) && Sorted(le, n.kids) ==> Sorted(le, r.kids)
    ensures SameMeaning(r, n)
  {
    var same := FilterClass(le, n, ClassOf(n), true);
    FilterClassMembers(le, n, true);
    if same.kids == [] {
      assert forall x :: x in n.kids ==> !SameKind(n.op, x);
      return n;
    }
    assert same.kids[0] in same.kids;
    r := FilterClass(le, n, ClassOf(n), false);
    FilterClassMembers(le, n, false);
    ghost var others := r.kids;
    var sk := same.kids;
    forall c | c in sk ensures c.Nary? {
      assert c in same.kids;
    }
    r := AppendGrandchildren(le, r, sk);
    MultisetMembers(r.kids, others, Grandchildren(sk));
    MergeSameMeaning(n, r, others, sk);
    MergeChildren(n, r, others, sk);
  }

  /** The loop of `mergeGrandchildren`: the children of each of `cs`, appended in turn. */
  method AppendGrandchildren(le: Le, n: NaryExpr, cs: seq<Expr>) returns (r: NaryExpr)
    requires forall c :: c in cs ==> c.Nary?
    ensures r.op == n.op
    ensures multiset(r.kids) == multiset(n.kids) + multiset(Grandchildren(cs))
    ensures Total(le) && Sorted(le, n.kids) ==> Sorted(le, r.kids)
  {
    r := n;
    for i := 0 to |cs|
      invariant r.op == n.op
      invariant multiset(r.kids) == multiset(n.kids) + multiset(Grandchildren(cs[..i]))
      invariant Total(le) && Sorted(le, n.kids) ==> Sorted(le, r.kids)
    {
      assert cs[i] in cs;
      GrandchildrenPrefixStep(cs, i);
      r := AppendAll(le, r, cs[i].kids);
    }
    assert cs[..|cs|] == cs;
  }

  lemma GrandchildrenPrefixStep(cs: seq<Expr>, i: int)
    requires 0 <= i < |cs| && cs[i].Nary?
    ensures multiset(Grandchildren(cs[..i + 1])) == multiset(Grandchildren(cs[..i])) + multiset(cs[i].kids)
  {
    var c := cs[i];
    assert cs[..i + 1] == cs[..i] + [c];
    GrandchildrenAppend(cs[..i], [c]);
    assert [c][1..] == [];
  }

  /** The same-kind (`keep`) or other (`!keep`) children of `n`, as a set. */
  lemma FilterClassMembers(le: Le, n: NaryExpr, keep: bool)
    ensures forall x :: x in FilterClass(le, n, ClassOf(n), keep).kids <==> x in n.kids && SameKind(n.op, x) == keep
  {
    var f := FilterClass(le, n, ClassOf(n), keep);
    forall x ensures x in f.kids <==> x in n.kids && SameKind(n.op, x) == keep {
      assert x in f.kids <==> multiset(f.kids)[x] > 0;
    }
  }

  lemma MultisetMembers(r: seq<Expr>, a: seq<Expr>, b: seq<Expr>)
    requires multiset(r) == multiset(a) + multiset(b)
    ensures forall x :: x in r <==> x in a || x in b
  {
    forall x ensures x in r <==> x in a || x in b {
      assert x in r <==> x in multiset(r);
      assert x in a <==> x in multiset(a);
      assert x in b <==> x in multiset(b);
    }
  }

  /** What a child of the merged container is: a non-same-kind child or a grandchild. */
  ghost predicate Merged(n: NaryExpr, x: Expr) {
    (x in n.kids && !SameKind(n.op, x)) || (exists c :: c in n.kids && SameKind(n.op, c) && x in c.kids)
  }

  lemma MergeChildren(n: NaryExpr, r: NaryExpr, others: seq<Expr>, same: seq<Expr>)
    requires forall x :: x in others <==> x in n.kids && !SameKind(n.op, x)
    requires forall x :: x in same <==> x in n.kids && SameKind(n.op, x)
    requires forall x :: x in r.kids <==> x in others || x in Grandchildren(same)
    ensures forall x :: x in r.kids <==> Merged(n, x)
    ensures (forall c :: c in n.kids && SameKind(n.op, c) ==> Flat(n.op, c.kids)) ==> Flat(n.op, r.kids)
  {
    forall x ensures x in Grandchildren(same) <==> exists c :: c in same && c.Nary? && x in c.kids {
      GrandchildrenMember(same, x);
    }
  }

  lemma {:induction false} GrandchildrenAppend(a: seq<Expr>, b: seq<Expr>)
    ensures Grandchildren(a + b) == Grandchildren(a) + Grandchildren(b)
  {
    if a != [] {
      assert (a + b)[1..] == a[1..] + b;
      GrandchildrenAppend(a[1..], b);
    } else {
      assert a + b == b;
    }
  }

  lemma MergeSameMeaning(n: NaryExpr, r: NaryExpr, others: seq<Expr>, same: seq<Expr>)
    requires r.op == n.op
    requires forall x :: x in others <==> x in n.kids && !SameKind(n.op, x)
    requires forall x :: x in same <==> x in n.kids && SameKind(n.op, x)
    requires forall x :: x in r.kids <==> x in others || x in Grandchildren(same)
    ensures SameMeaning(r, n)
  {
    forall env ensures Eval(env, r) == Eval(env, n) {
      MergeMeaning(env, n, r.kids, others, same);
    }
  }

  lemma MergeMeaning(env: string -> bool, n: NaryExpr, rk: seq<Expr>, others: seq<Expr>, same: seq<Expr>)
    requires forall x :: x in others <==> x in n.kids && !SameKind(n.op, x)
    requires forall x :: x in same <==> x in n.kids && SameKind(n.op, x)
    requires forall x :: x in rk <==> x in others || x in Grandchildren(same)
    ensures Eval(env, Nary(n.op, rk)) == Eval(env, n)
  {
    EvalNary(env, n.op, rk);
    EvalNary(env, n.op, n.kids);
    if n.op == AndOp {
      if Eval(env, n) {
        forall x | x in rk ensures Eval(env, x) {
          if x !in others {
            GrandchildrenMember(same, x);
            var c :| c in same && c.Nary? && x in c.kids;
            EvalNary(env, c.op, c.kids);
          }
        }
      } else {
        var k :| k in n.kids && !Eval(env, k);
        if SameKind(n.op, k) {
          EvalNary(env, k.op, k.kids);
          var g :| g in k.kids && !Eval(env, g);
          GrandchildrenMember(same, g);
          assert g in rk;
        } else {
          assert k in rk;
        }
      }
    } else {
      if Eval(env, n) {
        var k :| k in n.kids && Eval(env, k);
        if SameKind(n.op, k) {
          EvalNary(env, k.op, k.kids);
          var g :| g in k.kids && Eval(env, g);
          GrandchildrenMember(same, g);
          assert g in rk;
        } else {
          assert k in rk;
        }
      } else {
        forall x | x in rk ensures !Eval(env, x) {
          if x !in others {
            GrandchildrenMember(same, x);
            var c :| c in same && c.Nary? && x in c.kids;
            EvalNary(env, c.op, c.kids);
          }
        }
      }
    }
  }

  // ---------------------------------------------------------------- stage 3

  /**
   * Stage 3, `foldIdentityElements`: a one-child container is returned
   * unchanged; otherwise every identity element is dropped, and if nothing
   * else was there, exactly one identity element is left.
   */
  method FoldIdentityElements(le: Le, n: NaryExpr) returns (r: NaryExpr)
    ensures r.op == n.op
    ensures |n.kids| == 1 ==> r == n
    ensures |n.kids| != 1 ==> IdentityFolded(n, r)
    ensures r.kids != []
    ensures Total(le) ==> Sorted(le, r.kids)
    ensures SameMeaning(r, n)
  {
    if |n.kids| == 1 {
      return n;
    }
    var id := IdentityElement(n.op);
    r := DropIdentity(le, n.op, n.kids, id);
    ghost var r0 := r;
    if r.kids == [] {
      r := Append(le, r, id);
    }
    FoldIdentityResult(le, n, r0, r);
  }

  /** The loop of `foldIdentityElements`: every child other than `id`, appended in turn. */
  method DropIdentity(le: Le, op: Op, kids: seq<Expr>, id: Expr) returns (r: NaryExpr)
    ensures r.op == op && multiset(r.kids) == multiset(Without(kids, |kids|, id))
    ensures Total(le) ==> Sorted(le, r.kids)
  {
    r := Make(le, op, []);
    // The last `append` made, so sortedness needs no loop invariant of its own.
    ghost var prev, last, appended := r, id, false;
    for i := 0 to |kids|
      invariant r.op == op
      invariant multiset(r.kids) == multiset(Without(kids, i, id))
      invariant r == if appended then Append(le, prev, last) else Make(le, op, [])
    {
      WithoutStep(kids, i, id);
      if id != kids[i] {
        prev, last, appended := r, kids[i], true;
        r := Append(le, r, kids[i]);
      }
    }
  }

  /**
   * No identity element is left among other children, every other child
   * keeps its multiplicity, and a container of identity elements alone (or
   * none at all) becomes one holding a single identity element.
   */
  ghost predicate IdentityFolded(n: NaryExpr, r: NaryExpr) {
    var id := IdentityElement(n.op);
    && ((forall x :: x in n.kids ==> x == id) ==> r.kids == [id])
    && ((exists x :: x in n.kids && x != id) ==>
          id !in r.kids && forall x :: x != id ==> multiset(r.kids)[x] == multiset(n.kids)[x])
  }

  lemma FoldIdentityResult(le: Le, n: NaryExpr, r0: NaryExpr, r: NaryExpr)
    requires r0.op == n.op && multiset(r0.kids) == multiset(Without(n.kids, |n.kids|, IdentityElement(n.op)))
    requires r == if r0.kids == [] then Append(le, r0, IdentityElement(n.op)) else r0
    ensures r.op == n.op && IdentityFolded(n, r) && SameMeaning(r, n) && r.kids != []
  {
    var id := IdentityElement(n.op);
    WithoutFacts(r0.kids, n.kids, id);
    if r0.kids == [] {
      assert r.kids == [id] by {
        assert |r.kids| == 1 && r.kids[0] in multiset(r.kids);
      }
    } else {
      assert r0.kids[0] in r0.kids;
    }
    IdentityFoldMeaning(n, r);
  }

  /** The elements of `s[..i]` other than `id`, in order. */
  function Without(s: seq<Expr>, i: nat, id: Expr): seq<Expr>
    requires i <= |s|
  {
    if i == 0 then [] else Without(s, i - 1, id) + (if s[i - 1] == id then [] else [s[i - 1]])
  }

  lemma WithoutStep(s: seq<Expr>, i: nat, id: Expr)
    requires i < |s|
    ensures multiset(Without(s, i + 1, id)) == multiset(Without(s, i, id)) + if s[i] == id then multiset{} else multiset{s[i]}
  {
  }

  lemma {:induction false} WithoutCount(s: seq<Expr>, i: nat, id: Expr)
    requires i <= |s|
    ensures forall x :: multiset(Without(s, i, id))[x] == if x == id then 0 else multiset(s[..i])[x]
  {
    if i > 0 {
      WithoutCount(s, i - 1, id);
      assert s[..i] == s[..i - 1] + [s[i - 1]];
    }
  }

  /** A sequence holding the elements of `s` other than `id`, each as often. */
  lemma WithoutFacts(r: seq<Expr>, s: seq<Expr>, id: Expr)
    requires multiset(r) == multiset(Without(s, |s|, id))
    ensures forall x :: x in r <==> x in s && x != id
    ensures forall x :: x != id ==> multiset(r)[x] == multiset(s)[x]
    ensures (forall x :: x in s ==> x == id) ==> r == []
  {
    WithoutCount(s, |s|, id);
    assert s[..|s|] == s;
    forall x ensures x in r <==> x in s && x != id {
      assert x in r <==> multiset(r)[x] > 0;
      assert x in s <==> multiset(s)[x] > 0;
    }
    if r != [] {
      assert r[0] in r;
    }
  }

  /** Dropping or adding identity elements keeps the meaning. */
  lemma IdentityFoldMeaning(n: NaryExpr, r: NaryExpr)
    requires r.op == n.op
    requires forall x :: x in r.kids ==> x in n.kids || x == IdentityElement(n.op)
    requires forall x :: x in n.kids ==> x in r.kids || x == IdentityElement(n.op)
    ensures SameMeaning(r, n)
  {
    forall env ensures Eval(env, r) == Eval(env, n) {
      EvalNary(env, n.op, r.kids);
      EvalNary(env, n.op, n.kids);
      assert Eval(env, IdentityElement(n.op)) == (n.op == AndOp);
    }
  }

  // ---------------------------------------------------------------- stage 4

  /**
   * Stage 4, `foldAbsorbingElements`: if some child is the absorbing
   * element, a container holding just that element; otherwise `n` itself.
   */
  method FoldAbsorbingElements(le: Le, n: NaryExpr) returns (r: NaryExpr)
    ensures r == if AbsorbingElement(n.op) in n.kids then Nary(n.op, [AbsorbingElement(n.op)]) else n
    ensures Total(le) && Sorted(le, n.kids) ==> Sorted(le, r.kids)
    ensures SameMeaning(r, n)
  {
    var a := AbsorbingElement(n.op);
    for i := 0 to |n.kids|
      invariant a !in n.kids[..i]
    {
      assert n.kids[..i + 1] == n.kids[..i] + [n.kids[i]];
      if a == n.kids[i] {
        var empty := Make(le, n.op, []);
        r := Append(le, empty, a);
        assert r.kids == [a] by {
          assert empty.kids == [];
          assert Sort(le, [a]) == [a];
        }
        assert a in n.kids;
        forall env ensures Eval(env, r) == Eval(env, n) {
          assert a in r.kids;
          AbsorbingLaw(env, n.op, r.kids);
          AbsorbingLaw(env, n.op, n.kids);
        }
        return;
      }
    }
    assert n.kids[..|n.kids|] == n.kids;
    r := n;
  }
}
