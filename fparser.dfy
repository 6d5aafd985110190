/**
 * `FRecursiveDescentParser`: the recursive-descent parser of the Boolean
 * equation language.
 *
 *   program  := formula+ EOF
 *   formula  := var "<=" expr ";"
 *   expr     := term ("or" term)*
 *   term     := factor ("and" factor)*
 *   factor   := "not" factor | "(" expr ")" | constant | var
 *   constant := "'" ("0" | "1") "'"
 *
 * The grammar functions below say what each rule reads from a token
 * sequence; the methods of the parser class do it on a shared `Lexer`,
 * loop for loop as the rules do, and are proved to agree with them. A rule
 * that throws `IllegalArgumentException` returns `None`.
 */
module FParser {
  import opened Ast
  import opened Lexing

  /** `var`: an identifier becomes a variable; anything else is rejected. */
  function VarOf(ts: seq<Token>): (r: Option<Parsed<Expr>>)
    ensures r.Some? <==> ts != [] && ts[0].Id?
    ensures r.Some? ==> r.value.value.Var? && |r.value.rest| < |ts|
  {
    if ts != [] && ts[0].Id? then Some(Parsed(Var(ts[0].name), ts[1..])) else None
  }

  /** `constant`: exactly the three tokens `'`, `0` or `1`, `'`. */
  function ConstantOf(ts: seq<Token>): (r: Option<Parsed<Expr>>)
    ensures r.Some? <==> |ts| >= 3 && ts[0] == Sym(Quote) && ts[1] in {Sym(Zero), Sym(One)} && ts[2] == Sym(Quote)
    ensures r.Some? ==> r.value == Parsed(Const(ts[1] == Sym(One)), ts[3..])
  {
    if StartsWith(ts, Quote) then
      var ts1 := ts[1..];
      if StartsWith(ts1, Zero) || StartsWith(ts1, One) then
        var ts2 := ts1[1..];
        if StartsWith(ts2, Quote) then Some(Parsed(Const(ts1[0] == Sym(One)), ts2[1..])) else None
      else None
    else None
  }

  /** `expr`: a term followed by any number of `or term`, grouped to the left. */
  function ExprOf(ts: seq<Token>): (r: Option<Parsed<Expr>>)
    ensures r.Some? ==> |r.value.rest| < |ts| && NoNary(r.value.value)
    ensures r.Some? ==> !StartsWith(r.value.rest, KwOr) && !StartsWith(r.value.rest, KwAnd)
    decreases |ts|, 3
  {
    match TermOf(ts)
    case None => None
    case Some(t) => ExprTail(t.value, t.rest)
  }

  /** The `while (inspect("or"))` loop of `expr`, with the tree built so far. */
  function ExprTail(acc: Expr, ts: seq<Token>): (r: Option<Parsed<Expr>>)
    requires NoNary(acc) && !StartsWith(ts, KwAnd)
    ensures r.Some? ==> |r.value.rest| <= |ts| && NoNary(r.value.value)
    ensures r.Some? ==> !StartsWith(r.value.rest, KwOr) && !StartsWith(r.value.rest, KwAnd)
    decreases |ts|, 0
  {
    if StartsWith(ts, KwOr) then
      match TermOf(ts[1..])
      case None => None
      case Some(t) => ExprTail(Or2(acc, t.value), t.rest)
    else Some(Parsed(acc, ts))
  }

  /** `term`: a factor followed by any number of `and factor`, grouped to the left. */
  function TermOf(ts: seq<Token>): (r: Option<Parsed<Expr>>)
    ensures r.Some? ==> |r.value.rest| < |ts| && NoNary(r.value.value)
    ensures r.Some? ==> !StartsWith(r.value.rest, KwAnd)
    decreases |ts|, 2
  {
    match FactorOf(ts)
    case None => None
    case Some(f) => TermTail(f.value, f.rest)
  }

  /** The `while (inspect("and"))` loop of `term`. */
  function TermTail(acc: Expr, ts: seq<Token>): (r: Option<Parsed<Expr>>)
    requires NoNary(acc)
    ensures r.Some? ==> |r.value.rest| <= |ts| && NoNary(r.value.value)
    ensures r.Some? ==> !StartsWith(r.value.rest, KwAnd)
    decreases |ts|, 0
  {
    if StartsWith(ts, KwAnd) then
      match FactorOf(ts[1..])
      case None => None
      case Some(f) => TermTail(And2(acc, f.value), f.rest)
    else Some(Parsed(acc, ts))
  }

  /** `factor`: negation, a parenthesised expression, a constant or a variable. */
  function FactorOf(ts: seq<Token>): (r: Option<Parsed<Expr>>)
    ensures r.Some? ==> |r.value.rest| < |ts| && NoNary(r.value.value)
    decreases |ts|, 1
  {
    if StartsWith(ts, KwNot) then
      match FactorOf(ts[1..])
      case None => None
      case Some(f) => Some(Parsed(Not(f.value), f.rest))
    else if StartsWith(ts, LParen) then
      match ExprOf(ts[1..])
      case None => None
      case Some(e) => if StartsWith(e.rest, RParen) then Some(Parsed(e.value, e.rest[1..])) else None
    else if StartsWith(ts, Quote) then ConstantOf(ts)
    else VarOf(ts)
  }

  /** `formula`: `var <= expr ;` becomes an assignment. */
  function FormulaOf(ts: seq<Token>): (r: Option<Parsed<Assignment>>)
    ensures r.Some? ==> |r.value.rest| < |ts| && NoNary(r.value.value.expr)
  {
    match VarOf(ts)
    case None => None
    case Some(v) =>
      if !StartsWith(v.rest, Gets) then None
      else match ExprOf(v.rest[1..])
        case None => None
        case Some(e) =>
          if !StartsWith(e.rest, Semi) then None
          else Some(Parsed(Assignment(v.value.id, e.value), e.rest[1..]))
  }

  /** `program`: one or more formulas, read until the input is used up. */
  function ProgramOf(ts: seq<Token>): (r: Option<seq<Assignment>>)
    ensures r.Some? ==> |r.value| >= 1 && forall a | a in r.value :: NoNary(a.expr)
    decreases |ts|
  {
    match FormulaOf(ts)
    case None => None
    case Some(f) =>
      if f.rest == [] then Some([f.value])
      else match ProgramOf(f.rest)
        case None => None
        case Some(fs) => Some([f.value] + fs)
  }

  /** `fs` followed by the formulas `more` reads, or failure if `more` failed. */
  function Then(fs: seq<Assignment>, more: Option<seq<Assignment>>): Option<seq<Assignment>> {
    match more
    case None => None
    case Some(gs) => Some(fs + gs)
  }

  /** One more element read after `fs`: the rest of the reading follows it. */
  lemma ProgramStep(ts: seq<Token>, fs: seq<Assignment>, before: seq<Token>, x: Assignment, after: seq<Token>)
    requires before != [] && ProgramOf(ts) == Then(fs, ProgramOf(before))
    requires FormulaOf(before) == Some(Parsed(x, after))
    ensures after == [] ==> ProgramOf(ts) == Some(fs + [x])
    ensures after != [] ==> ProgramOf(ts) == Then(fs + [x], ProgramOf(after))
  {
    if after != [] {
      match ProgramOf(after)
      case None =>
      case Some(gs) => assert fs + [x] + gs == fs + ([x] + gs);
    }
  }

  /** A failure to read the next element fails the whole reading. */
  lemma ProgramStops(ts: seq<Token>, fs: seq<Assignment>, before: seq<Token>)
    requires before != [] && ProgramOf(ts) == Then(fs, ProgramOf(before))
    requires FormulaOf(before).None?
    ensures ProgramOf(ts).None?
  {
  }

  class FRecursiveDescentParser {
    const lexer: Lexer

    constructor(lexer: Lexer)
      ensures this.lexer == lexer
    {
      this.lexer := lexer;
    }

    /** `program`: formulas until the end of the input. */
    method ParseProgram() returns (r: Option<seq<Assignment>>)
      modifies lexer
      ensures r == ProgramOf(old(lexer.rest))
      ensures r.Some? ==> lexer.rest == []
    {
      ghost var ts := lexer.rest;
      var f := ParseFormula();
      if f.None? {
        return None;
      }
      var fp := [f.value];
      ghost var x, after := f.value, lexer.rest;
      assert FormulaOf(ts) == Some(Parsed(x, after));
      assert ProgramOf(ts) == if after == [] then Some([x]) else Then([x], ProgramOf(after));
      while !lexer.InspectEOF()
        invariant lexer.rest == [] ==> ProgramOf(ts) == Some(fp)
        invariant lexer.rest != [] ==> ProgramOf(ts) == Then(fp, ProgramOf(lexer.rest))
        decreases |lexer.rest|
      {
        ghost var before := lexer.rest;
        f := ParseFormula();
        if f.None? {
          ProgramStops(ts, fp, before);
          return None;
        }
        ProgramStep(ts, fp, before, f.value, lexer.rest);
        fp := fp + [f.value];
      }
      var ok := lexer.ConsumeEOF();
      return Some(fp);
    }

    method ParseFormula() returns (r: Option<Assignment>)
      modifies lexer
      ensures Agrees(r, FormulaOf(old(lexer.rest)), lexer.rest)
    {
      var v := ParseVar();
      if v.None? {
        return None;
      }
      var ok := lexer.Consume(Gets);
      if !ok {
        return None;
      }
      var e := ParseExpr();
      if e.None? {
        return None;
      }
      ok := lexer.Consume(Semi);
      if !ok {
        return None;
      }
      return Some(Assignment(v.value.id, e.value));
    }

    method ParseExpr() returns (r: Option<Expr>)
      modifies lexer
      ensures Agrees(r, ExprOf(old(lexer.rest)), lexer.rest)
      decreases |lexer.rest|, 3
    {
      ghost var ts := lexer.rest;
      var t := ParseTerm();
      if t.None? {
        return None;
      }
      var expr := t.value;
      while lexer.Inspect(KwOr)
        invariant |lexer.rest| < |ts|
        invariant NoNary(expr) && !StartsWith(lexer.rest, KwAnd)
        invariant ExprOf(ts) == ExprTail(expr, lexer.rest)
        decreases |lexer.rest|
      {
        var ok := lexer.Consume(KwOr);
        t := ParseTerm();
        if t.None? {
          return None;
        }
        expr := Or2(expr, t.value);
      }
      return Some(expr);
    }

    method ParseTerm() returns (r: Option<Expr>)
      modifies lexer
      ensures Agrees(r, TermOf(old(lexer.rest)), lexer.rest)
      decreases |lexer.rest|, 2
    {
      ghost var ts := lexer.rest;
      var f := ParseFactor();
      if f.None? {
        return None;
      }
      var term := f.value;
      while lexer.Inspect(KwAnd)
        invariant |lexer.rest| < |ts|
        invariant NoNary(term)
        invariant TermOf(ts) == TermTail(term, lexer.rest)
        decreases |lexer.rest|
      {
        var ok := lexer.Consume(KwAnd);
        f := ParseFactor();
        if f.None? {
          return None;
        }
        term := And2(term, f.value);
      }
      return Some(term);
    }

    method ParseFactor() returns (r: Option<Expr>)
      modifies lexer
      ensures Agrees(r, FactorOf(old(lexer.rest)), lexer.rest)
      decreases |lexer.rest|, 1
    {
      if lexer.Inspect(KwNot) {
        var ok := lexer.Consume(KwNot);
        var f := ParseFactor();
        if f.None? {
          return None;
        }
        return Some(Not(f.value));
      } else if lexer.Inspect(LParen) {
        var ok := lexer.Consume(LParen);
        var e := ParseExpr();
        if e.None? {
          return None;
        }
        ok := lexer.Consume(RParen);
        if !ok {
          return None;
        }
        return e;
      } else if PeekConstant() {
        r := ParseConstant();
      } else {
        r := ParseVar();
      }
    }

    method ParseVar() returns (r: Option<Expr>)
      modifies lexer
      ensures Agrees(r, VarOf(old(lexer.rest)), lexer.rest)
    {
      if lexer.InspectID() {
        var id := lexer.ConsumeID();
        return Some(Var(id.value));
      } else {
        return None;
      }
    }

    method ParseConstant() returns (r: Option<Expr>)
      modifies lexer
      ensures Agrees(r, ConstantOf(old(lexer.rest)), lexer.rest)
    {
      if PeekConstant() {
        var ok := lexer.Consume(Quote);
        if lexer.Inspect(Zero) || lexer.Inspect(One) {
          var val := lexer.ConsumeEither(Zero, One);
          if PeekConstant() {
            ok := lexer.Consume(Quote);
            return Some(Const(val.value == One));
          }
        }
      }
      return None;
    }

    /** `peekConstant`: a constant starts here. */
    predicate PeekConstant()
      reads lexer
    {
      lexer.Inspect(Quote)
    }
  }

  // ---------------------------------------------------------------------
  // What the grammar means: a printer, and the parse of what it prints.
  // ---------------------------------------------------------------------

  /**
   * The tokens of `e` written at precedence `level` (0 expression, 1 term,
   * 2 factor), with parentheses only where the grammar needs them.
   */
  function Show(e: Expr, level: nat): seq<Token>
    requires NoNary(e) && level <= 2
    decreases e, level
  {
    match e
    case Var(x) => [Id(x)]
    case Const(b) => [Sym(Quote), Sym(if b then One else Zero), Sym(Quote)]
    case Not(x) => [Sym(KwNot)] + Show(x, 2)
    case And2(l, r) =>
      if level <= 1 then Show(l, 1) + [Sym(KwAnd)] + Show(r, 2)
      else [Sym(LParen)] + Show(e, 0) + [Sym(RParen)]
    case Or2(l, r) =>
      if level == 0 then Show(l, 0) + [Sym(KwOr)] + Show(r, 1)
      else [Sym(LParen)] + Show(e, 0) + [Sym(RParen)]
  }

  /*
   * The three lemmas below are proved together. A parenthesised expression
   * is read by `factor` through `expr` and `term` at the same tree, so each
   * lemma's measure after the tree is a rank that falls along that path.
   */
  function ExprRank(e: Expr): nat { if e.Or2? then 0 else if e.And2? then 1 else 2 }
  function TermRank(e: Expr): nat { if e.Or2? then 2 else if e.And2? then 0 else 1 }
  function FactorRank(e: Expr): nat { if e.Or2? then 1 else if e.And2? then 2 else 0 }

  /** A factor reads back exactly what was written, whatever follows it. */
  lemma {:induction false} FactorShown(e: Expr, rest: seq<Token>)
    requires NoNary(e)
    ensures FactorOf(Show(e, 2) + rest) == Some(Parsed(e, rest))
    decreases e, FactorRank(e)
  {
    match e
    case Var(x) =>
      FactorShownVar(x, rest);
    case Const(b) =>
      FactorShownConst(b, rest);
    case Not(x) =>
      FactorShown(x, rest);
      FactorShownNot(x, rest);
    case And2(_, _) =>
      ExprShown(e, [Sym(RParen)] + rest);
      FactorShownParenthesised(e, rest);
    case Or2(_, _) =>
      ExprShown(e, [Sym(RParen)] + rest);
      FactorShownParenthesised(e, rest);
  }

  /** A term reads back what was written and then goes on looking for `and`. */
  lemma {:induction false} TermShown(e: Expr, rest: seq<Token>)
    requires NoNary(e)
    ensures TermOf(Show(e, 1) + rest) == TermTail(e, rest)
    decreases e, TermRank(e)
  {
    match e
    case And2(l, r) =>
      TermShown(l, [Sym(KwAnd)] + (Show(r, 2) + rest));
      FactorShown(r, rest);
      TermShownAnd(l, r, rest);
    case Or2(_, _) =>
      FactorShown(e, rest);
      TermShownFactor(e, rest);
    case Not(_) =>
      FactorShown(e, rest);
      TermShownFactor(e, rest);
    case Var(_) =>
      FactorShown(e, rest);
      TermShownFactor(e, rest);
    case Const(_) =>
      FactorShown(e, rest);
      TermShownFactor(e, rest);
  }

  /** An expression reads back what was written and then goes on looking for `or`. */
  lemma {:induction false} ExprShown(e: Expr, rest: seq<Token>)
    requires NoNary(e) && !StartsWith(rest, KwAnd)
    ensures ExprOf(Show(e, 0) + rest) == ExprTail(e, rest)
    decreases e, ExprRank(e)
  {
    match e
    case Or2(l, r) =>
      ExprShown(l, [Sym(KwOr)] + (Show(r, 1) + rest));
      TermShown(r, rest);
      ExprShownOr(l, r, rest);
    case And2(_, _) =>
      TermShown(e, rest);
      ExprShownTerm(e, rest);
    case Not(_) =>
      TermShown(e, rest);
      ExprShownTerm(e, rest);
    case Var(_) =>
      TermShown(e, rest);
      ExprShownTerm(e, rest);
    case Const(_) =>
      TermShown(e, rest);
      ExprShownTerm(e, rest);
  }

  lemma FactorShownVar(x: string, rest: seq<Token>)
    ensures FactorOf(Show(Var(x), 2) + rest) == Some(Parsed(Var(x), rest))
  {
    assert Show(Var(x), 2) + rest == [Id(x)] + rest;
  }

  lemma FactorShownConst(b: bool, rest: seq<Token>)
    ensures FactorOf(Show(Const(b), 2) + rest) == Some(Parsed(Const(b), rest))
  {
    var ts := Show(Const(b), 2) + rest;
    assert ts == [Sym(Quote), Sym(if b then One else Zero), Sym(Quote)] + rest;
    assert ts[3..] == rest;
  }

  lemma FactorShownNot(x: Expr, rest: seq<Token>)
    requires NoNary(x) && FactorOf(Show(x, 2) + rest) == Some(Parsed(x, rest))
    ensures FactorOf(Show(Not(x), 2) + rest) == Some(Parsed(Not(x), rest))
  {
    assert Show(Not(x), 2) == [Sym(KwNot)] + Show(x, 2);
    Regroup2([Sym(KwNot)], Show(x, 2), rest);
    Negated(x, Show(x, 2), rest);
  }

  lemma FactorShownParenthesised(e: Expr, rest: seq<Token>)
    requires NoNary(e) && (e.And2? || e.Or2?)
    requires ExprOf(Show(e, 0) + ([Sym(RParen)] + rest)) == ExprTail(e, [Sym(RParen)] + rest)
    ensures FactorOf(Show(e, 2) + rest) == Some(Parsed(e, rest))
  {
    var close := [Sym(RParen)] + rest;
    assert ExprTail(e, close) == Some(Parsed(e, close));
    ShowParenthesised(e);
    Regroup([Sym(LParen)], Show(e, 0), [Sym(RParen)], rest);
    Parenthesised(e, Show(e, 0), close);
  }

  /** Outside an expression or a term, an `and` or `or` node is written in parentheses. */
  lemma ShowParenthesised(e: Expr)
    requires NoNary(e) && (e.And2? || e.Or2?)
    ensures Show(e, 2) == [Sym(LParen)] + Show(e, 0) + [Sym(RParen)]
  {
  }

  lemma Regroup(a: seq<Token>, u: seq<Token>, b: seq<Token>, rest: seq<Token>)
    ensures a + u + b + rest == a + (u + (b + rest))
  {
  }

  lemma Parenthesised(e: Expr, u: seq<Token>, close: seq<Token>)
    requires StartsWith(close, RParen) && ExprOf(u + close) == Some(Parsed(e, close))
    ensures FactorOf([Sym(LParen)] + (u + close)) == Some(Parsed(e, close[1..]))
  {
    var ts := [Sym(LParen)] + (u + close);
    assert ts[1..] == u + close;
    FactorOfParenthesised(ts, e, close);
  }

  lemma Negated(x: Expr, u: seq<Token>, rest: seq<Token>)
    requires FactorOf(u + rest) == Some(Parsed(x, rest))
    ensures FactorOf([Sym(KwNot)] + (u + rest)) == Some(Parsed(Not(x), rest))
  {
    var ts := [Sym(KwNot)] + (u + rest);
    assert ts[1..] == u + rest;
    FactorOfNegated(ts, x, rest);
  }

  lemma Regroup2(a: seq<Token>, u: seq<Token>, rest: seq<Token>)
    ensures a + u + rest == a + (u + rest)
  {
  }

  /** `not` followed by a factor is the negation of that factor. */
  lemma FactorOfNegated(ts: seq<Token>, x: Expr, rest: seq<Token>)
    requires StartsWith(ts, KwNot) && FactorOf(ts[1..]) == Some(Parsed(x, rest))
    ensures FactorOf(ts) == Some(Parsed(Not(x), rest))
  {
  }

  /** A parenthesised expression is a factor with the same tree. */
  lemma FactorOfParenthesised(ts: seq<Token>, e: Expr, close: seq<Token>)
    requires StartsWith(ts, LParen) && ExprOf(ts[1..]) == Some(Parsed(e, close)) && StartsWith(close, RParen)
    ensures FactorOf(ts) == Some(Parsed(e, close[1..]))
  {
  }

  lemma TermShownAnd(l: Expr, r: Expr, rest: seq<Token>)
    requires NoNary(l) && NoNary(r)
    requires TermOf(Show(l, 1) + ([Sym(KwAnd)] + (Show(r, 2) + rest))) == TermTail(l, [Sym(KwAnd)] + (Show(r, 2) + rest))
    requires FactorOf(Show(r, 2) + rest) == Some(Parsed(r, rest))
    ensures TermOf(Show(And2(l, r), 1) + rest) == TermTail(And2(l, r), rest)
  {
    ShowJoined(And2(l, r));
    Regroup(Show(l, 1), [Sym(KwAnd)], Show(r, 2), rest);
    AndStep(l, r, Show(r, 2), rest);
  }

  /** One more `and factor` read by the loop of `term`. */
  lemma AndStep(acc: Expr, x: Expr, u: seq<Token>, rest: seq<Token>)
    requires NoNary(acc) && FactorOf(u + rest) == Some(Parsed(x, rest))
    ensures TermTail(acc, [Sym(KwAnd)] + (u + rest)) == TermTail(And2(acc, x), rest)
  {
    assert ([Sym(KwAnd)] + (u + rest))[1..] == u + rest;
  }

  lemma TermShownFactor(e: Expr, rest: seq<Token>)
    requires NoNary(e) && !e.And2? && FactorOf(Show(e, 2) + rest) == Some(Parsed(e, rest))
    ensures TermOf(Show(e, 1) + rest) == TermTail(e, rest)
  {
    assert Show(e, 1) == Show(e, 2);
  }

  lemma ExprShownOr(l: Expr, r: Expr, rest: seq<Token>)
    requires NoNary(l) && NoNary(r) && !StartsWith(rest, KwAnd)
    requires ExprOf(Show(l, 0) + ([Sym(KwOr)] + (Show(r, 1) + rest))) == ExprTail(l, [Sym(KwOr)] + (Show(r, 1) + rest))
    requires TermOf(Show(r, 1) + rest) == TermTail(r, rest)
    ensures ExprOf(Show(Or2(l, r), 0) + rest) == ExprTail(Or2(l, r), rest)
  {
    ShowJoined(Or2(l, r));
    Regroup(Show(l, 0), [Sym(KwOr)], Show(r, 1), rest);
    OrStep(l, r, Show(r, 1), rest);
  }

  /** One more `or term` read by the loop of `expr`. */
  lemma OrStep(acc: Expr, x: Expr, u: seq<Token>, rest: seq<Token>)
    requires NoNary(acc) && NoNary(x) && !StartsWith(rest, KwAnd) && TermOf(u + rest) == TermTail(x, rest)
    ensures ExprTail(acc, [Sym(KwOr)] + (u + rest)) == ExprTail(Or2(acc, x), rest)
  {
    assert ([Sym(KwOr)] + (u + rest))[1..] == u + rest;
  }

  /** Inside an expression or a term, an `and` or `or` node is written without parentheses. */
  lemma ShowJoined(e: Expr)
    requires NoNary(e) && (e.And2? || e.Or2?)
    ensures e.And2? ==> Show(e, 1) == Show(e.left, 1) + [Sym(KwAnd)] + Show(e.right, 2)
    ensures e.Or2? ==> Show(e, 0) == Show(e.left, 0) + [Sym(KwOr)] + Show(e.right, 1)
  {
  }

  lemma ExprShownTerm(e: Expr, rest: seq<Token>)
    requires NoNary(e) && !e.Or2? && !StartsWith(rest, KwAnd) && TermOf(Show(e, 1) + rest) == TermTail(e, rest)
    ensures ExprOf(Show(e, 0) + rest) == ExprTail(e, rest)
  {
    assert Show(e, 0) == Show(e, 1);
  }

  /**
   * Round trip: every expression the parser can build is read back from its
   * printed form, leaving a following token that cannot continue it.
   */
  lemma ExprRoundTrip(e: Expr, rest: seq<Token>)
    requires NoNary(e) && !StartsWith(rest, KwOr) && !StartsWith(rest, KwAnd)
    ensures ExprOf(Show(e, 0) + rest) == Some(Parsed(e, rest))
  {
    ExprShown(e, rest);
  }

  function ShowFormula(a: Assignment): seq<Token>
    requires NoNary(a.expr)
  {
    [Id(a.outputVar), Sym(Gets)] + Show(a.expr, 0) + [Sym(Semi)]
  }

  function ShowProgram(fs: seq<Assignment>): seq<Token>
    requires forall a | a in fs :: NoNary(a.expr)
  {
    if fs == [] then [] else ShowFormula(fs[0]) + ShowProgram(fs[1..])
  }

  lemma FormulaRoundTrip(a: Assignment, rest: seq<Token>)
    requires NoNary(a.expr)
    ensures FormulaOf(ShowFormula(a) + rest) == Some(Parsed(a, rest))
  {
    var ts := ShowFormula(a) + rest;
    var tail := [Sym(Semi)] + rest;
    ExprRoundTrip(a.expr, tail);
    assert ts[1..][1..] == Show(a.expr, 0) + tail;
  }

  /**
   * Round trip of a whole program: one assignment per formula, in input
   * order, and the input is accepted only when it ends after a formula.
   */
  lemma {:induction false} ProgramRoundTrip(fs: seq<Assignment>)
    requires fs != [] && forall a | a in fs :: NoNary(a.expr)
    ensures ProgramOf(ShowProgram(fs)) == Some(fs)
    decreases |fs|
  {
    var rest := ShowProgram(fs[1..]);
    FormulaRoundTrip(fs[0], rest);
    assert ShowProgram(fs) == ShowFormula(fs[0]) + rest;
    assert FormulaOf(ShowProgram(fs)) == Some(Parsed(fs[0], rest));
    if |fs| > 1 {
      ProgramRoundTrip(fs[1..]);
      assert rest == ShowFormula(fs[1]) + ShowProgram(fs[2..]);
      assert rest != [];
      assert fs == [fs[0]] + fs[1..];
    } else {
      assert rest == [];
      assert fs == [fs[0]];
    }
  }

  /** `a or b or c` is `(a or b) or c`. */
  lemma OrIsLeftAssociative(a: string, b: string, c: string)
    ensures ExprOf([Id(a), Sym(KwOr), Id(b), Sym(KwOr), Id(c)])
            == Some(Parsed(Or2(Or2(Var(a), Var(b)), Var(c)), []))
  {
    var e := Or2(Or2(Var(a), Var(b)), Var(c));
    ExprRoundTrip(e, []);
    assert Show(Or2(Var(a), Var(b)), 0) == [Id(a), Sym(KwOr), Id(b)];
    assert Show(e, 0) + [] == [Id(a), Sym(KwOr), Id(b), Sym(KwOr), Id(c)];
  }

  /** `a or b and c` is `a or (b and c)`. */
  lemma AndBindsTighter(a: string, b: string, c: string)
    ensures ExprOf([Id(a), Sym(KwOr), Id(b), Sym(KwAnd), Id(c)])
            == Some(Parsed(Or2(Var(a), And2(Var(b), Var(c))), []))
  {
    var e := Or2(Var(a), And2(Var(b), Var(c)));
    ExprRoundTrip(e, []);
    assert Show(And2(Var(b), Var(c)), 1) == [Id(b), Sym(KwAnd), Id(c)];
    assert Show(e, 0) + [] == [Id(a), Sym(KwOr), Id(b), Sym(KwAnd), Id(c)];
  }

  /** `not a and b` is `(not a) and b`: `not` takes a single factor. */
  lemma NotTakesAFactor(a: string, b: string)
    ensures ExprOf([Sym(KwNot), Id(a), Sym(KwAnd), Id(b)])
            == Some(Parsed(And2(Not(Var(a)), Var(b)), []))
  {
    var e := And2(Not(Var(a)), Var(b));
    ExprRoundTrip(e, []);
    assert Show(Not(Var(a)), 1) == [Sym(KwNot), Id(a)];
    assert Show(e, 0) + [] == [Sym(KwNot), Id(a), Sym(KwAnd), Id(b)];
  }

  /** `(a or b)` is the tree of `a or b` itself: parentheses add no node. */
  lemma ParenthesesAddNoNode(e: Expr, rest: seq<Token>)
    requires NoNary(e)
    ensures FactorOf([Sym(LParen)] + Show(e, 0) + [Sym(RParen)] + rest) == Some(Parsed(e, rest))
  {
    var close := [Sym(RParen)] + rest;
    ExprRoundTrip(e, close);
    Regroup([Sym(LParen)], Show(e, 0), [Sym(RParen)], rest);
    Parenthesised(e, Show(e, 0), close);
  }
}
