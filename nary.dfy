/**
 * The n-ary AND/OR container: an immutable child list kept sorted on every
 * construction, and the primitive tree-surgery operations the
 * simplification pipeline is built from. Nothing here mutates: every
 * operation returns a new node.
 *
 * Parameters that stand for collaborators not in this model:
 *   le  -- `x.compareTo(y) <= 0`
 *   ex  -- an `Examiner` strategy's `examine(a, b)`
 * Examiner.Equals is Dafny's structural equality `==` (see ExamineEqualsIsEquality).
 */
module NaryExpr {
  import opened Ast
  import opened Ordering

  /** An AND or OR container. */
  type NaryExpr = e: Expr | e.Nary? witness Nary(AndOp, [])

  type Examiner = (Expr, Expr) -> bool

  /** `Examiner.Equals`: structural equality. */
  predicate Equals(a: Expr, b: Expr) {
    a == b
  }

  /** `getIdentityElement`: 1 for AND, 0 for OR. */
  function IdentityElement(op: Op): (c: Expr)
    ensures c.Const?
  {
    Const(op == AndOp)
  }

  /** `getAbsorbingElement`: 0 for AND, 1 for OR. */
  function AbsorbingElement(op: Op): (c: Expr)
    ensures c.Const? && c != IdentityElement(op)
  {
    Const(op == OrOp)
  }

  /** `e op x = x`: the identity element next to any children changes nothing. */
  lemma IdentityLaw(env: string -> bool, op: Op, ks: seq<Expr>)
    ensures Eval(env, Nary(op, [IdentityElement(op)] + ks)) == Eval(env, Nary(op, ks))
  {
    var s := [IdentityElement(op)] + ks;
    assert s[1..] == ks;
    assert AllTrue(env, s) == (Eval(env, s[0]) && AllTrue(env, s[1..]));
    assert AnyTrue(env, s) == (Eval(env, s[0]) || AnyTrue(env, s[1..]));
  }

  /** `e op x = e`: a container holding the absorbing element evaluates to it. */
  lemma AbsorbingLaw(env: string -> bool, op: Op, ks: seq<Expr>)
    requires AbsorbingElement(op) in ks
    ensures Eval(env, Nary(op, ks)) == AbsorbingElement(op).value
  {
    EvalNary(env, op, ks);
  }

  /** Both constructors and `newNaryExpr`: the children, sorted. */
  function Make(le: Le, op: Op, s: seq<Expr>): (r: NaryExpr)
    ensures r.op == op && multiset(r.kids) == multiset(s)
    ensures Total(le) ==> Sorted(le, r.kids)
  {
    Nary(op, Sort(le, s))
  }

  /** `append`: the old children plus `e`, re-sorted. */
  function Append(le: Le, n: NaryExpr, e: Expr): (r: NaryExpr)
    ensures r.op == n.op && multiset(r.kids) == multiset(n.kids) + multiset{e}
    ensures Total(le) ==> Sorted(le, r.kids)
  {
    Make(le, n.op, n.kids + [e])
  }

  /** `appendAll`: the old children plus all of `l`, one re-sort. */
  function AppendAll(le: Le, n: NaryExpr, l: seq<Expr>): (r: NaryExpr)
    ensures r.op == n.op && multiset(r.kids) == multiset(n.kids) + multiset(l)
    ensures Total(le) ==> Sorted(le, r.kids)
  {
    Make(le, n.op, n.kids + l)
  }

  /** The elements of `s` whose class is (`keep`) or is not (`!keep`) `c`, in order. */
  function KeepClass(s: seq<Expr>, c: Class, keep: bool): (r: seq<Expr>)
    ensures forall x :: multiset(r)[x] == if (ClassOf(x) == c) == keep then multiset(s)[x] else 0
  {
    if s == [] then []
    else
      var t := KeepClass(s[1..], c, keep);
      assert s == [s[0]] + s[1..];
      if (ClassOf(s[0]) == c) == keep then [s[0]] + t else t
  }

  /** The elements of `s` related (`keep`) or unrelated (`!keep`) to `f`, in order. */
  function KeepRelated(s: seq<Expr>, f: Expr, ex: Examiner, keep: bool): (r: seq<Expr>)
    ensures forall x :: multiset(r)[x] == if ex(x, f) == keep then multiset(s)[x] else 0
  {
    if s == [] then []
    else
      var t := KeepRelated(s[1..], f, ex, keep);
      assert s == [s[0]] + s[1..];
      if ex(s[0], f) == keep then [s[0]] + t else t
  }

  /** `filter(cls, keep)`: the children whose class is / is not `c`. */
  function FilterClass(le: Le, n: NaryExpr, c: Class, keep: bool): (r: NaryExpr)
    ensures r.op == n.op
    ensures forall x :: multiset(r.kids)[x] == if (ClassOf(x) == c) == keep then multiset(n.kids)[x] else 0
    ensures Total(le) ==> Sorted(le, r.kids)
  {
    Make(le, n.op, KeepClass(n.kids, c, keep))
  }

  /** `filter(f, examiner, keep)`: the children related / unrelated to `f`. */
  function FilterBy(le: Le, n: NaryExpr, f: Expr, ex: Examiner, keep: bool): (r: NaryExpr)
    ensures r.op == n.op
    ensures forall x :: multiset(r.kids)[x] == if ex(x, f) == keep then multiset(n.kids)[x] else 0
    ensures Total(le) ==> Sorted(le, r.kids)
  {
    Make(le, n.op, KeepRelated(n.kids, f, ex, keep))
  }

  /**
   * `removeAll`: drops EVERY child related to any target, not one copy;
   * the other children keep their multiplicity.
   */
  function RemoveAll(le: Le, n: NaryExpr, targets: seq<Expr>, ex: Examiner): (r: NaryExpr)
    ensures r.op == n.op
    ensures forall x :: multiset(r.kids)[x] == (if exists t :: t in targets && ex(x, t) then 0 else multiset(n.kids)[x])
    ensures Total(le) && (targets != [] || Sorted(le, n.kids)) ==> Sorted(le, r.kids)
    decreases |targets|
  {
    if targets == [] then n
    else
      var r := RemoveAll(le, FilterBy(le, n, targets[0], ex, false), targets[1..], ex);
      assert forall t :: t in targets <==> t == targets[0] || t in targets[1..];
      r
  }

  /** `contains`: some child is related to `e`. */
  function Contains(n: NaryExpr, e: Expr, ex: Examiner): (b: bool)
    ensures b <==> exists i :: 0 <= i < |n.kids| && ex(n.kids[i], e)
    decreases |n.kids|
  {
    if n.kids == [] then false
    else ex(n.kids[0], e) || Contains(Nary(n.op, n.kids[1..]), e, ex)
  }

  /** Every element of `ks` is a child of `n` (under Equals). */
  function ContainsEvery(n: NaryExpr, ks: seq<Expr>): (b: bool)
    ensures b <==> forall k :: k in ks ==> k in n.kids
  {
    if ks == [] then true
    else
      assert forall k :: k in ks <==> k == ks[0] || k in ks[1..];
      var here := Contains(n, ks[0], Equals);
      assert here <==> ks[0] in n.kids;
      here && ContainsEvery(n, ks[1..])
  }

  /**
   * `containsNaryExprSubset`: `m` is a container of the same class, different
   * from `n`, all of whose children are children of `n`. The examiner
   * argument is ignored: the code always compares with Equals.
   */
  function ContainsNaryExprSubset(n: NaryExpr, m: NaryExpr, ex: Examiner): (b: bool)
    ensures b <==> n != m && n.op == m.op && forall k :: k in m.kids ==> k in n.kids
  {
    if n == m then false
    else if ClassOf(n) != ClassOf(m) then false
    else ContainsEvery(n, m.kids)
  }

  /** The examiner relates `a[i]` and `b[i]` at every index. */
  function Pairwise(ex: Examiner, a: seq<Expr>, b: seq<Expr>): (r: bool)
    requires |a| == |b|
    ensures r <==> forall i :: 0 <= i < |a| ==> ex(a[i], b[i])
  {
    if a == [] then true
    else ex(a[0], b[0]) && Pairwise(ex, a[1..], b[1..])
  }

  /**
   * `examine`: false for null or for a different concrete class or child
   * count; otherwise whether the children are related position by position.
   */
  function Examine(ex: Examiner, n: NaryExpr, obj: Option<Expr>): (b: bool)
    ensures b <==> obj.Some? && ClassOf(obj.value) == ClassOf(n)
                   && |obj.value.kids| == |n.kids|
                   && forall i :: 0 <= i < |n.kids| ==> ex(n.kids[i], obj.value.kids[i])
  {
    if obj.None? then false
    else if ClassOf(n) != ClassOf(obj.value) then false
    else if |n.kids| != |obj.value.kids| then false
    else Pairwise(ex, n.kids, obj.value.kids)
  }

  /**
   * A consistency check of modelling `Examiner.Equals` as Dafny `==`: with
   * that examiner, `examine` (and so `equals`) is structural equality. It
   * says nothing about `examine` under other examiners.
   */
  lemma ExamineEqualsIsEquality(n: NaryExpr, m: Expr)
    ensures Examine(Equals, n, Some(m)) <==> n == m
  {
    if Examine(Equals, n, Some(m)) {
      assert n.kids == m.kids;
    }
  }

  /** `singletonify`: a one-child container is replaced by its child. */
  function Singletonify(n: NaryExpr): (r: Expr)
    ensures |n.kids| == 1 ==> r == n.kids[0]
    ensures |n.kids| != 1 ==> r == n
    ensures SameMeaning(r, n)
  {
    if |n.kids| == 1 then
      assert n.kids == [n.kids[0]];
      assert forall env :: Eval(env, n.kids[0]) == Eval(env, n) by {
        forall env ensures Eval(env, n.kids[0]) == Eval(env, n) {
          EvalSingleton(env, n.op, n.kids[0]);
        }
      }
      n.kids[0]
    else n
  }

  /**
   * `repOk`: false stands for one of its assertions failing. Holds iff there
   * are at least two children and every adjacent pair is in order.
   */
  method RepOk(le: Le, n: NaryExpr) returns (ok: bool)
    ensures ok <==> |n.kids| > 1 && Sorted(le, n.kids)
  {
    var kids := n.kids;
    if |kids| <= 1 {
      return false;
    }
    var i, j := 0, 1;
    while j < |kids|
      invariant 1 <= j <= |kids| && i == j - 1
      invariant forall k | 0 < k < j :: le(kids[k - 1], kids[k])
    {
      if !le(kids[i], kids[j]) {
        return false;
      }
      i, j := i + 1, j + 1;
    }
    return true;
  }

  /** The children printed one after another, `sep` between neighbours. */
  function Infix(ks: seq<Expr>, show: Expr -> string, sep: string): string {
    if ks == [] then ""
    else if |ks| == 1 then show(ks[0])
    else show(ks[0]) + sep + Infix(ks[1..], show, sep)
  }

  lemma {:induction false} InfixSnoc(ks: seq<Expr>, x: Expr, show: Expr -> string, sep: string)
    requires ks != []
    ensures Infix(ks + [x], show, sep) == Infix(ks, show, sep) + sep + show(x)
  {
    if |ks| > 1 {
      assert (ks + [x])[1..] == ks[1..] + [x];
      InfixSnoc(ks[1..], x, show, sep);
    }
  }

  /**
   * `toString`: the children in order, the operator between neighbours,
   * in parentheses. `show` is the children's own `toString`, `opName` the
   * subclass's `operator()`.
   */
  method ToString(n: NaryExpr, show: Expr -> string, opName: string) returns (s: string)
    ensures s == "(" + Infix(n.kids, show, " " + opName + " ") + ")"
  {
    var sep, kids := " " + opName + " ", n.kids;
    var b := "(";
    var count := 0;
    while count < |kids|
      invariant 0 <= count <= |kids|
      invariant b == "(" + Infix(kids[..count], show, sep) + (if 0 < count < |kids| then sep else "")
    {
      var c := kids[count];
      PrintStep(kids, count, show, sep, b);
      b := b + show(c);
      count := count + 1;
      if count < |kids| {
        b := b + sep;
      }
    }
    assert kids[..count] == kids;
    s := b + ")";
  }

  /** One child printed by the loop of `toString`, and the separator if another follows. */
  lemma PrintStep(kids: seq<Expr>, count: int, show: Expr -> string, sep: string, b: string)
    requires 0 <= count < |kids|
    requires b == "(" + Infix(kids[..count], show, sep) + (if 0 < count < |kids| then sep else "")
    ensures count + 1 < |kids| ==> b + show(kids[count]) + sep == "(" + Infix(kids[..count + 1], show, sep) + sep
    ensures count + 1 == |kids| ==> b + show(kids[count]) == "(" + Infix(kids[..count + 1], show, sep) + ""
  {
    var c := kids[count];
    var prefix, x := Infix(kids[..count], show, sep), show(c);
    assert kids[..count + 1] == kids[..count] + [c];
    if count > 0 {
      InfixSnoc(kids[..count], c, show, sep);
      assert b == "(" + prefix + sep;
      assert "(" + prefix + sep + x == "(" + (prefix + sep + x);
    } else {
      assert kids[..1] == [c];
      assert b == "(";
    }
  }

  /** `filter(c, true)` and `filter(c, false)` partition the children. */
  lemma FilterClassPartition(le: Le, n: NaryExpr, c: Class)
    ensures multiset(FilterClass(le, n, c, true).kids) + multiset(FilterClass(le, n, c, false).kids)
            == multiset(n.kids)
  {
    var a, b := FilterClass(le, n, c, true), FilterClass(le, n, c, false);
    assert forall x :: (multiset(a.kids) + multiset(b.kids))[x] == multiset(n.kids)[x];
  }

  /** After `removeAll`, no child is related to any target. */
  lemma RemoveAllLeavesNoMatch(le: Le, n: NaryExpr, targets: seq<Expr>, ex: Examiner, x: Expr, t: Expr)
    requires t in targets && ex(x, t)
    ensures x !in RemoveAll(le, n, targets, ex).kids
  {
    var r := RemoveAll(le, n, targets, ex);
    assert multiset(r.kids)[x] == 0;
  }
}
