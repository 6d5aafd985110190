/**
 * The expression and statement trees shared by every pass: variables,
 * constants, negation, the binary AND/OR nodes the parsers build, and the
 * n-ary AND/OR containers the simplifier works on.
 */
module Ast {

  /** A reference that may be null. */
  datatype Option<T> = None | Some(value: T)

  /** The two commutative operators of an n-ary container. */
  datatype Op = AndOp | OrOp

  datatype Expr =
    | Var(id: string)                    // VarExpr
    | Const(value: bool)                 // ConstantExpr: '0' is false, '1' is true
    | Not(inner: Expr)                   // NotExpr
    | And2(left: Expr, right: Expr)      // AndExpr (binary)
    | Or2(left: Expr, right: Expr)       // OrExpr (binary)
    | Nary(op: Op, kids: seq<Expr>)      // NaryAndExpr / NaryOrExpr

  /** The concrete run-time class of a node, as `getClass()` reports it. */
  datatype Class = VarClass | ConstClass | NotClass | AndClass | OrClass | NaryAndClass | NaryOrClass

  function ClassOfOp(op: Op): Class {
    if op == AndOp then NaryAndClass else NaryOrClass
  }

  function ClassOf(e: Expr): (c: Class)
    ensures e.Nary? <==> c in {NaryAndClass, NaryOrClass}
    ensures e.Nary? ==> c == ClassOfOp(e.op)
  {
    match e
    case Var(_) => VarClass
    case Const(_) => ConstClass
    case Not(_) => NotClass
    case And2(_, _) => AndClass
    case Or2(_, _) => OrClass
    case Nary(op, _) => ClassOfOp(op)
  }

  /** The complementary operator: `getThatClass()`. */
  function Dual(op: Op): (d: Op)
    ensures d != op
  {
    if op == AndOp then OrOp else AndOp
  }

  /** An assignment `outputVar <= expr`. */
  datatype Assignment = Assignment(outputVar: string, expr: Expr)

  /** Boolean meaning of an expression under an assignment of its variables. */
  function Eval(env: string -> bool, e: Expr): bool {
    match e
    case Var(x) => env(x)
    case Const(b) => b
    case Not(x) => !Eval(env, x)
    case And2(l, r) => Eval(env, l) && Eval(env, r)
    case Or2(l, r) => Eval(env, l) || Eval(env, r)
    case Nary(op, ks) => if op == AndOp then AllTrue(env, ks) else AnyTrue(env, ks)
  }

  /** Every expression of `ks` holds. */
  function AllTrue(env: string -> bool, ks: seq<Expr>): bool
    decreases ks
  {
    ks == [] || (Eval(env, ks[0]) && AllTrue(env, ks[1..]))
  }

  /** Some expression of `ks` holds. */
  function AnyTrue(env: string -> bool, ks: seq<Expr>): bool
    decreases ks
  {
    ks != [] && (Eval(env, ks[0]) || AnyTrue(env, ks[1..]))
  }

  /** AND holds iff every child holds; OR holds iff some child holds. */
  lemma {:induction false} EvalNary(env: string -> bool, op: Op, ks: seq<Expr>)
    ensures op == AndOp ==> (Eval(env, Nary(op, ks)) <==> forall k :: k in ks ==> Eval(env, k))
    ensures op == OrOp ==> (Eval(env, Nary(op, ks)) <==> exists k :: k in ks && Eval(env, k))
    decreases |ks|
  {
    if ks != [] {
      EvalNary(env, op, ks[1..]);
      assert forall k :: k in ks <==> k == ks[0] || k in ks[1..];
      assert AllTrue(env, ks) == (Eval(env, ks[0]) && AllTrue(env, ks[1..]));
      assert AnyTrue(env, ks) == (Eval(env, ks[0]) || AnyTrue(env, ks[1..]));
      assert Eval(env, Nary(op, ks[1..])) == if op == AndOp then AllTrue(env, ks[1..]) else AnyTrue(env, ks[1..]);
      if op == AndOp && (forall k :: k in ks ==> Eval(env, k)) {
        assert ks[0] in ks;
      }
      if op == OrOp && Eval(env, Nary(op, ks)) {
        if Eval(env, ks[0]) {
          assert ks[0] in ks;
        } else {
          var k :| k in ks[1..] && Eval(env, k);
          assert k in ks;
        }
      }
    }
  }

  /** Two expressions denote the same Boolean function. */
  ghost predicate SameMeaning(a: Expr, b: Expr) {
    forall env :: Eval(env, a) == Eval(env, b)
  }

  /** An expression with no n-ary container anywhere in it (what the parsers build). */
  predicate NoNary(e: Expr) {
    match e
    case Var(_) => true
    case Const(_) => true
    case Not(x) => NoNary(x)
    case And2(l, r) => NoNary(l) && NoNary(r)
    case Or2(l, r) => NoNary(l) && NoNary(r)
    case Nary(_, _) => false
  }

  /**
   * The meaning of a container depends only on which children it holds:
   * order and multiplicity do not matter.
   */
  lemma EvalSameElements(env: string -> bool, op: Op, a: seq<Expr>, b: seq<Expr>)
    requires forall x :: x in a <==> x in b
    ensures Eval(env, Nary(op, a)) == Eval(env, Nary(op, b))
  {
    EvalNary(env, op, a);
    EvalNary(env, op, b);
  }

  /** A container holding exactly one child means that child. */
  lemma EvalSingleton(env: string -> bool, op: Op, x: Expr)
    ensures Eval(env, Nary(op, [x])) == Eval(env, x)
  {
    assert [x][1..] == [];
    assert AllTrue(env, [x]) == Eval(env, x);
    assert AnyTrue(env, [x]) == Eval(env, x);
  }
}
