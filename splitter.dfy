/**
 * The VHDL program tree the process splitter works on, after desugaring
 * and elaboration: an architecture holds concurrent statements and
 * processes; a process holds sequential statements and a sensitivity list.
 */
module VAst {
  import opened Ast

  /** `IfElseStatement`: `if condition then ifBody else elseBody end if`. */
  datatype IfElse = IfElse(ifBody: seq<Assignment>, elseBody: seq<Assignment>, condition: Expr)

  /** A statement inside a process. */
  datatype SeqStmt = SeqAssign(assign: Assignment) | SeqIfElse(ifElse: IfElse)

  /** A statement of an architecture. */
  datatype Stmt =
    | Concurrent(assign: Assignment)                               // AssignmentStatement
    | Instantiation(instanceName: string, componentName: string, ports: seq<string>)
    | ProcessStmt(body: seq<SeqStmt>, sensitivity: seq<string>)    // Process

  /** The component declarations are copied unchanged and are kept by name only. */
  datatype Architecture = Architecture(
    statements: seq<Stmt>,
    components: seq<string>,
    signals: seq<string>,
    entityName: string,
    architectureName: string)

  datatype Entity = Entity(name: string, inputs: seq<string>, outputs: seq<string>)

  datatype DesignUnit = DesignUnit(arch: Architecture, entity: Entity)

  datatype VProgram = VProgram(designUnits: seq<DesignUnit>)
}

/**
 * `Splitter`: every process whose body is if/else statements becomes one
 * process per output, each with the sensitivity list of the variables it
 * reads, distinct and in the order the traversal first meets them.
 */
module Splitter {
  import opened Ast
  import opened VAst

  // ---------------------------------------------------------------------
  // The sensitivity set: a LinkedHashSet of identifiers.
  // ---------------------------------------------------------------------

  predicate NoDuplicates(s: seq<string>) {
    forall i, j | 0 <= i < j < |s| :: s[i] != s[j]
  }

  /** `LinkedHashSet.add`: a new element goes to the end; a present one stays where it is. */
  function Add(d: seq<string>, x: string): seq<string> {
    if x in d then d else d + [x]
  }

  /** Adding the elements of `s` one after the other. */
  function AddAll(d: seq<string>, s: seq<string>): seq<string>
    decreases |s|
  {
    if s == [] then d else AddAll(Add(d, s[0]), s[1..])
  }

  /** The distinct elements of `s`, each where it first occurs. */
  function Distinct(s: seq<string>): seq<string>
    decreases |s|
  {
    if s == [] then [] else Add(Distinct(s[..|s| - 1]), s[|s| - 1])
  }

  /** The position of the first occurrence of `x` in `s`. */
  function FirstIndex(s: seq<string>, x: string): (k: nat)
    requires x in s
    ensures k < |s| && s[k] == x && x !in s[..k]
  {
    if s[0] == x then 0 else 1 + FirstIndex(s[1..], x)
  }

  /** Post-order traversal: the identifiers of `e`, left to right, repeats included. */
  function VarsOf(e: Expr): seq<string>
    decreases e
  {
    match e
    case Var(x) => [x]
    case Const(_) => []
    case Not(x) => VarsOf(x)
    case And2(l, r) => VarsOf(l) + VarsOf(r)
    case Or2(l, r) => VarsOf(l) + VarsOf(r)
    case Nary(_, ks) => VarsOfAll(ks)
  }

  function VarsOfAll(ks: seq<Expr>): seq<string>
    decreases ks
  {
    if ks == [] then [] else VarsOf(ks[0]) + VarsOfAll(ks[1..])
  }

  /** The sensitivity list of a process assigning `a`, with else-branch `b`, under `cond`. */
  function Sensitivity(a: Expr, b: Expr, cond: Expr): seq<string> {
    Distinct(VarsOf(a) + VarsOf(b) + VarsOf(cond))
  }

  // ---------------------------------------------------------------------
  // What the pass produces.
  // ---------------------------------------------------------------------

  /** The process for one (if-branch, else-branch) pair with the same output. */
  function SplitProcess(a: Assignment, b: Assignment, cond: Expr): Stmt {
    ProcessStmt([SeqIfElse(IfElse([a], [b], cond))], Sensitivity(a.expr, b.expr, cond))
  }

  /** The processes for `a` and every else-branch assignment to its output, in order. */
  function Matches(a: Assignment, eb: seq<Assignment>, cond: Expr): seq<Stmt>
    decreases |eb|
  {
    if eb == [] then []
    else
      Matches(a, eb[..|eb| - 1], cond)
      + (if a.outputVar == eb[|eb| - 1].outputVar then [SplitProcess(a, eb[|eb| - 1], cond)] else [])
  }

  /** The inner and outer loop: if-branch statements major, else-branch minor. */
  function Pairs(ib: seq<Assignment>, eb: seq<Assignment>, cond: Expr): seq<Stmt>
    decreases |ib|
  {
    if ib == [] then [] else Pairs(ib[..|ib| - 1], eb, cond) + Matches(ib[|ib| - 1], eb, cond)
  }

  /**
   * `splitIfElseStatement`. With at most one if-branch statement the whole
   * statement becomes one process, whose sensitivity list is read from the
   * first statement of each branch and the condition; `get(0)` on an empty
   * branch throws.
   */
  function SplitIfElse(s: IfElse): Option<seq<Stmt>> {
    if |s.ifBody| <= 1 then
      if s.ifBody == [] || s.elseBody == [] then None
      else Some([ProcessStmt([SeqIfElse(s)], Sensitivity(s.ifBody[0].expr, s.elseBody[0].expr, s.condition))])
    else Some(Pairs(s.ifBody, s.elseBody, s.condition))
  }

  function Join(a: Option<seq<Stmt>>, b: Option<seq<Stmt>>): Option<seq<Stmt>> {
    if a.Some? && b.Some? then Some(a.value + b.value) else None
  }

  /** A process that starts with an if/else statement is split. */
  predicate Splittable(s: Stmt) {
    s.ProcessStmt? && s.body != [] && s.body[0].SeqIfElse?
  }

  /** Every statement of a split process is cast to an if/else statement, which throws for an assignment. */
  function SplitBody(body: seq<SeqStmt>): Option<seq<Stmt>>
    decreases |body|
  {
    if body == [] then Some([])
    else
      var last := body[|body| - 1];
      Join(SplitBody(body[..|body| - 1]), if last.SeqIfElse? then SplitIfElse(last.ifElse) else None)
  }

  function SplitStatement(s: Stmt): Option<seq<Stmt>> {
    if Splittable(s) then SplitBody(s.body) else Some([s])
  }

  function SplitStatements(ss: seq<Stmt>): Option<seq<Stmt>>
    decreases |ss|
  {
    if ss == [] then Some([])
    else Join(SplitStatements(ss[..|ss| - 1]), SplitStatement(ss[|ss| - 1]))
  }

  /** A design unit with its statements split and everything else kept. */
  function SplitUnit(u: DesignUnit): Option<DesignUnit> {
    match SplitStatements(u.arch.statements)
    case None => None
    case Some(ss) => Some(DesignUnit(u.arch.(statements := ss), u.entity))
  }

  function SplitUnits(us: seq<DesignUnit>): Option<seq<DesignUnit>>
    decreases |us|
  {
    if us == [] then Some([])
    else match (SplitUnits(us[..|us| - 1]), SplitUnit(us[|us| - 1]))
      case (Some(vs), Some(v)) => Some(vs + [v])
      case _ => None
  }

  /** `splitit`. */
  function SplitProgram(p: VProgram): Option<VProgram> {
    match SplitUnits(p.designUnits)
    case None => None
    case Some(us) => Some(VProgram(us))
  }

  // ---------------------------------------------------------------------
  // The pass, with the sensitivity set as a field it clears and refills.
  // ---------------------------------------------------------------------

  /** The sensitivity list of the last process in `ps`, or `d` if there is none. */
  function LastSensitivity(ps: seq<Stmt>, d: seq<string>): seq<string> {
    if ps != [] && ps[|ps| - 1].ProcessStmt? then ps[|ps| - 1].sensitivity else d
  }

  class Splitter {
    /** `usedVarsInExpr`. */
    var usedVarsInExpr: seq<string>

    ghost predicate Valid()
      reads this
    {
      NoDuplicates(usedVarsInExpr)
    }

    constructor()
      ensures usedVarsInExpr == [] && Valid()
    {
      usedVarsInExpr := [];
    }

    /** `visitVar`: record the identifier. */
    method VisitVar(id: string)
      modifies this
      ensures usedVarsInExpr == Add(old(usedVarsInExpr), id)
    {
      if id !in usedVarsInExpr {
        usedVarsInExpr := usedVarsInExpr + [id];
      }
    }

    /** `traverseExpr`: visit the tree in post-order; only variables are recorded. */
    method TraverseExpr(e: Expr)
      modifies this
      ensures usedVarsInExpr == AddAll(old(usedVarsInExpr), VarsOf(e))
      decreases e, 1
    {
      match e
      case Var(x) =>
        VisitVar(x);
      case Const(_) =>
      case Not(x) =>
        TraverseExpr(x);
      case And2(l, r) =>
        TraverseExpr(l);
        TraverseExpr(r);
        AddAllAppend(old(usedVarsInExpr), VarsOf(l), VarsOf(r));
      case Or2(l, r) =>
        TraverseExpr(l);
        TraverseExpr(r);
        AddAllAppend(old(usedVarsInExpr), VarsOf(l), VarsOf(r));
      case Nary(_, ks) =>
        TraverseAll(ks);
    }

    /** The children of a container, in order. */
    method TraverseAll(ks: seq<Expr>)
      modifies this
      ensures usedVarsInExpr == AddAll(old(usedVarsInExpr), VarsOfAll(ks))
      decreases ks, 0
    {
      for i := 0 to |ks|
        invariant usedVarsInExpr == AddAll(old(usedVarsInExpr), VarsOfAll(ks[..i]))
      {
        ghost var before := usedVarsInExpr;
        TraverseExpr(ks[i]);
        AddAllAppend(old(usedVarsInExpr), VarsOfAll(ks[..i]), VarsOf(ks[i]));
        VarsOfAllSnoc(ks, i);
      }
      assert ks[..|ks|] == ks;
    }

    /** The `for (String usedVar : usedVarsInExpr)` copy into an immutable list. */
    method CopyUsedVars() returns (list: seq<string>)
      ensures list == usedVarsInExpr
    {
      list := [];
      for i := 0 to |usedVarsInExpr|
        invariant list == usedVarsInExpr[..i]
      {
        list := list + [usedVarsInExpr[i]];
      }
    }

    /** Clear the set, traverse the two assignments and the condition, copy the set. */
    method SensitivityOf(a: Expr, b: Expr, cond: Expr) returns (list: seq<string>)
      modifies this
      ensures list == Sensitivity(a, b, cond) && usedVarsInExpr == list
    {
      usedVarsInExpr := [];
      TraverseExpr(a);
      TraverseExpr(b);
      TraverseExpr(cond);
      Collected(a, b, cond);
      list := CopyUsedVars();
    }

    /** `splitIfElseStatement`. */
    method SplitIfElseStatement(ifStmt: IfElse) returns (r: Option<seq<Stmt>>)
      modifies this
      ensures r == SplitIfElse(ifStmt)
      ensures r.Some? ==> usedVarsInExpr == LastSensitivity(r.value, old(usedVarsInExpr))
      ensures r.None? ==> usedVarsInExpr == if ifStmt.ifBody == [] then [] else Distinct(VarsOf(ifStmt.ifBody[0].expr))
    {
      if |ifStmt.ifBody| <= 1 {
        r := SplitWhole(ifStmt);
      } else {
        var processes := SplitPairs(ifStmt.ifBody, ifStmt.elseBody, ifStmt.condition);
        r := Some(processes);
      }
    }

    /** At most one if-branch statement: one process for the whole statement. */
    method SplitWhole(ifStmt: IfElse) returns (r: Option<seq<Stmt>>)
      requires |ifStmt.ifBody| <= 1
      modifies this
      ensures r == SplitIfElse(ifStmt)
      ensures r.Some? ==> usedVarsInExpr == LastSensitivity(r.value, old(usedVarsInExpr))
      ensures r.None? ==> usedVarsInExpr == if ifStmt.ifBody == [] then [] else Distinct(VarsOf(ifStmt.ifBody[0].expr))
    {
      usedVarsInExpr := [];
      if ifStmt.ifBody == [] {
        return None;
      }
      var a := ifStmt.ifBody[0].expr;
      TraverseExpr(a);
      if ifStmt.elseBody == [] {
        AddAllDistinct([], VarsOf(a));
        assert [] + VarsOf(a) == VarsOf(a);
        return None;
      }
      var b, cond := ifStmt.elseBody[0].expr, ifStmt.condition;
      TraverseExpr(b);
      TraverseExpr(cond);
      Collected(a, b, cond);
      var sensitivityList := CopyUsedVars();
      var processes: seq<Stmt> := [];
      processes := processes + [ProcessStmt([SeqIfElse(ifStmt)], sensitivityList)];
      assert processes == [ProcessStmt([SeqIfElse(ifStmt)], Sensitivity(a, b, cond))];
      return Some(processes);
    }

    /** Several if-branch statements: the outer loop over them. */
    method SplitPairs(ib: seq<Assignment>, eb: seq<Assignment>, cond: Expr) returns (processes: seq<Stmt>)
      modifies this
      ensures processes == Pairs(ib, eb, cond)
      ensures usedVarsInExpr == LastSensitivity(processes, old(usedVarsInExpr))
    {
      processes := [];
      for i := 0 to |ib|
        invariant processes == Pairs(ib[..i], eb, cond)
        invariant usedVarsInExpr == LastSensitivity(processes, old(usedVarsInExpr))
      {
        processes := AppendMatches(processes, ib[i], eb, cond, old(usedVarsInExpr));
        assert ib[..i + 1][..i] == ib[..i];
      }
      assert ib[..|ib|] == ib;
    }

    /** The inner loop: one process for each else-branch assignment to the output of `a`. */
    method AppendMatches(processes: seq<Stmt>, a: Assignment, eb: seq<Assignment>, cond: Expr, ghost d: seq<string>)
      returns (ps: seq<Stmt>)
      requires usedVarsInExpr == LastSensitivity(processes, d)
      modifies this
      ensures ps == processes + Matches(a, eb, cond)
      ensures usedVarsInExpr == LastSensitivity(ps, d)
    {
      ps := processes;
      for j := 0 to |eb|
        invariant ps == processes + Matches(a, eb[..j], cond)
        invariant usedVarsInExpr == LastSensitivity(ps, d)
      {
        var elseBodyStatement := eb[j];
        MatchesStep(a, eb, j, cond);
        if a.outputVar == elseBodyStatement.outputVar {
          var sensitivityList := SensitivityOf(a.expr, elseBodyStatement.expr, cond);
          var ifElseStatement := IfElse([a], [elseBodyStatement], cond);
          ghost var m := Matches(a, eb[..j], cond);
          ghost var p := SplitProcess(a, elseBodyStatement, cond);
          ps := ps + [ProcessStmt([SeqIfElse(ifElseStatement)], sensitivityList)];
          assert ps == processes + (m + [p]);
        }
      }
      assert eb[..|eb|] == eb;
    }

    /** The loop over the statements of a process that is split. */
    method SplitProcessBody(body: seq<SeqStmt>) returns (r: Option<seq<Stmt>>)
      requires Valid()
      modifies this
      ensures Valid()
      ensures r == SplitBody(body)
    {
      var statements: seq<Stmt> := [];
      for k := 0 to |body|
        invariant Valid()
        invariant SplitBody(body[..k]) == Some(statements)
      {
        if !body[k].SeqIfElse? {
          BodyStops(body, k, statements);
          return None;
        }
        var processes := SplitIfElseStatement(body[k].ifElse);
        if processes.None? {
          FailureLeavesValid(body[k].ifElse);
          BodyStops(body, k, statements);
          return None;
        }
        SplitLeavesValid(body[k].ifElse, processes.value, old(usedVarsInExpr));
        BodyStep(body, k, statements, processes.value);
        statements := statements + processes.value;
      }
      assert body[..|body|] == body;
      return Some(statements);
    }

    /** The loop over the statements of one architecture. */
    method SplitArchitecture(ss: seq<Stmt>) returns (r: Option<seq<Stmt>>)
      requires Valid()
      modifies this
      ensures Valid()
      ensures r == SplitStatements(ss)
    {
      var statements: seq<Stmt> := [];
      for k := 0 to |ss|
        invariant Valid()
        invariant SplitStatements(ss[..k]) == Some(statements)
      {
        var statement := ss[k];
        var processes: Option<seq<Stmt>>;
        if statement.ProcessStmt? {
          if statement.body != [] && statement.body[0].SeqIfElse? {
            processes := SplitProcessBody(statement.body);
          } else {
            processes := Some([statement]);
          }
        } else {
          processes := Some([statement]);
        }
        StatementStep(ss, k, statements, processes);
        if processes.None? {
          StatementFailureSpreads(ss, k + 1);
          return None;
        }
        statements := statements + processes.value;
      }
      assert ss[..|ss|] == ss;
      return Some(statements);
    }

    /** `splitit`: every design unit, in order. */
    method SplitIt(program: VProgram) returns (r: Option<VProgram>)
      requires Valid()
      modifies this
      ensures Valid()
      ensures r == SplitProgram(program)
    {
      var result: seq<DesignUnit> := [];
      var us := program.designUnits;
      for u := 0 to |us|
        invariant Valid()
        invariant SplitUnits(us[..u]) == Some(result)
      {
        var designUnit := us[u];
        var statements := SplitArchitecture(designUnit.arch.statements);
        if statements.None? {
          UnitStops(us, u, result);
          return None;
        }
        var newDesignUnit := DesignUnit(
          Architecture(statements.value, designUnit.arch.components, designUnit.arch.signals,
                       designUnit.arch.entityName, designUnit.arch.architectureName),
          designUnit.entity);
        UnitStep(us, u, result, newDesignUnit);
        result := result + [newDesignUnit];
      }
      assert us[..|us|] == us;
      return Some(VProgram(result));
    }
  }

  // ---------------------------------------------------------------------
  // Lemmas about the sensitivity set.
  // ---------------------------------------------------------------------

  /** One more else-branch assignment visited by the inner loop. */
  lemma MatchesStep(a: Assignment, eb: seq<Assignment>, j: int, cond: Expr)
    requires 0 <= j < |eb|
    ensures Matches(a, eb[..j + 1], cond) ==
            Matches(a, eb[..j], cond) + if a.outputVar == eb[j].outputVar then [SplitProcess(a, eb[j], cond)] else []
  {
    assert eb[..j + 1][..j] == eb[..j];
  }

  /** One if/else statement of a split process, split and appended. */
  lemma BodyStep(body: seq<SeqStmt>, k: int, st: seq<Stmt>, ps: seq<Stmt>)
    requires 0 <= k < |body| && SplitBody(body[..k]) == Some(st)
    requires body[k].SeqIfElse? && SplitIfElse(body[k].ifElse) == Some(ps)
    ensures SplitBody(body[..k + 1]) == Some(st + ps)
  {
    assert body[..k + 1][..k] == body[..k];
  }

  /** A statement of a split process that cannot be split abandons the process. */
  lemma BodyStops(body: seq<SeqStmt>, k: int, st: seq<Stmt>)
    requires 0 <= k < |body| && SplitBody(body[..k]) == Some(st)
    requires !body[k].SeqIfElse? || SplitIfElse(body[k].ifElse).None?
    ensures SplitBody(body).None?
  {
    assert body[..k + 1][..k] == body[..k];
    BodyFailureSpreads(body, k + 1);
  }

  lemma FailureLeavesValid(s: IfElse)
    ensures NoDuplicates(if s.ifBody == [] then [] else Distinct(VarsOf(s.ifBody[0].expr)))
  {
    if s.ifBody != [] {
      DistinctNoDuplicates(VarsOf(s.ifBody[0].expr));
    }
  }

  /** One statement of an architecture, split or copied, and appended. */
  lemma StatementStep(ss: seq<Stmt>, k: int, st: seq<Stmt>, ps: Option<seq<Stmt>>)
    requires 0 <= k < |ss| && SplitStatements(ss[..k]) == Some(st) && ps == SplitStatement(ss[k])
    ensures SplitStatements(ss[..k + 1]) == Join(Some(st), ps)
  {
    assert ss[..k + 1][..k] == ss[..k];
  }

  /** One design unit, split and appended. */
  lemma UnitStep(us: seq<DesignUnit>, u: int, res: seq<DesignUnit>, v: DesignUnit)
    requires 0 <= u < |us| && SplitUnits(us[..u]) == Some(res) && SplitUnit(us[u]) == Some(v)
    ensures SplitUnits(us[..u + 1]) == Some(res + [v])
  {
    assert us[..u + 1][..u] == us[..u];
  }

  /** A design unit that cannot be split abandons the program. */
  lemma UnitStops(us: seq<DesignUnit>, u: int, res: seq<DesignUnit>)
    requires 0 <= u < |us| && SplitUnits(us[..u]) == Some(res) && SplitUnit(us[u]).None?
    ensures SplitUnits(us).None?
  {
    assert us[..u + 1][..u] == us[..u];
    UnitFailureSpreads(us, u + 1);
  }

  /** An exception while splitting a process abandons the whole process. */
  lemma {:induction false} BodyFailureSpreads(body: seq<SeqStmt>, k: nat)
    requires k <= |body| && SplitBody(body[..k]).None?
    ensures SplitBody(body).None?
    decreases |body| - k
  {
    if k < |body| {
      assert body[..k + 1][..k] == body[..k];
      BodyFailureSpreads(body, k + 1);
    } else {
      assert body[..k] == body;
    }
  }

  lemma {:induction false} StatementFailureSpreads(ss: seq<Stmt>, k: nat)
    requires k <= |ss| && SplitStatements(ss[..k]).None?
    ensures SplitStatements(ss).None?
    decreases |ss| - k
  {
    if k < |ss| {
      assert ss[..k + 1][..k] == ss[..k];
      StatementFailureSpreads(ss, k + 1);
    } else {
      assert ss[..k] == ss;
    }
  }

  lemma {:induction false} UnitFailureSpreads(us: seq<DesignUnit>, k: nat)
    requires k <= |us| && SplitUnits(us[..k]).None?
    ensures SplitUnits(us).None?
    decreases |us| - k
  {
    if k < |us| {
      assert us[..k + 1][..k] == us[..k];
      UnitFailureSpreads(us, k + 1);
    } else {
      assert us[..k] == us;
    }
  }

  /** Adding `s` then `t` is adding `s + t`. */
  lemma {:induction false} AddAllAppend(d: seq<string>, s: seq<string>, t: seq<string>)
    ensures AddAll(d, s + t) == AddAll(AddAll(d, s), t)
    decreases |s|
  {
    if s != [] {
      AddAllAppend(Add(d, s[0]), s[1..], t);
      assert (s + t)[1..] == s[1..] + t;
    } else {
      assert s + t == t;
    }
  }

  /** The traversal of a container's children, one child at a time. */
  lemma {:induction false} VarsOfAllSnoc(ks: seq<Expr>, i: int)
    requires 0 <= i < |ks|
    ensures VarsOfAll(ks[..i + 1]) == VarsOfAll(ks[..i]) + VarsOf(ks[i])
    decreases i
  {
    if i == 0 {
      assert ks[..1][1..] == [];
    } else {
      VarsOfAllSnoc(ks[1..], i - 1);
      assert ks[..i + 1][1..] == ks[1..][..i];
      assert ks[..i][1..] == ks[1..][..i - 1];
    }
  }

  /** Filling a set that holds the distinct elements of `s` with `t` gives those of `s + t`. */
  lemma {:induction false} AddAllDistinct(s: seq<string>, t: seq<string>)
    ensures AddAll(Distinct(s), t) == Distinct(s + t)
    decreases |t|
  {
    if t == [] {
      assert s + t == s;
    } else {
      var s' := s + [t[0]];
      assert s'[..|s'| - 1] == s;
      AddAllDistinct(s', t[1..]);
      assert s' + t[1..] == s + t;
    }
  }

  /** Clearing the set and traversing three expressions leaves their sensitivity list. */
  lemma Collected(a: Expr, b: Expr, cond: Expr)
    ensures AddAll(AddAll(AddAll([], VarsOf(a)), VarsOf(b)), VarsOf(cond)) == Sensitivity(a, b, cond)
  {
    AddAllDistinct([], VarsOf(a));
    assert [] + VarsOf(a) == VarsOf(a);
    AddAllDistinct(VarsOf(a), VarsOf(b));
    AddAllDistinct(VarsOf(a) + VarsOf(b), VarsOf(cond));
  }

  /** The set never holds an element twice. */
  lemma {:induction false} DistinctNoDuplicates(s: seq<string>)
    ensures NoDuplicates(Distinct(s))
    decreases |s|
  {
    if s != [] {
      DistinctNoDuplicates(s[..|s| - 1]);
    }
  }

  /** The set holds exactly the elements of `s`. */
  lemma {:induction false} DistinctElements(s: seq<string>)
    ensures forall x :: x in Distinct(s) <==> x in s
    decreases |s|
  {
    if s != [] {
      DistinctElements(s[..|s| - 1]);
      assert s == s[..|s| - 1] + [s[|s| - 1]];
    }
  }

  lemma FirstIndexAppend(p: seq<string>, t: seq<string>, x: string)
    requires x in p
    ensures FirstIndex(p + t, x) == FirstIndex(p, x)
  {
    var k := FirstIndex(p, x);
    assert (p + t)[k] == x;
    assert (p + t)[..k] == p[..k];
  }

  /**
   * The set keeps first-occurrence order: an element before another in
   * the list first occurs before it in `s`.
   */
  lemma {:induction false} DistinctFirstOrder(s: seq<string>)
    ensures forall i, j | 0 <= i < j < |Distinct(s)| ::
              Distinct(s)[i] in s && Distinct(s)[j] in s && FirstIndex(s, Distinct(s)[i]) < FirstIndex(s, Distinct(s)[j])
    decreases |s|
  {
    if s != [] {
      var p, y := s[..|s| - 1], s[|s| - 1];
      var d := Distinct(p);
      DistinctFirstOrder(p);
      DistinctElements(p);
      assert s == p + [y];
      forall i, j | 0 <= i < j < |Distinct(s)|
        ensures Distinct(s)[i] in s && Distinct(s)[j] in s && FirstIndex(s, Distinct(s)[i]) < FirstIndex(s, Distinct(s)[j])
      {
        assert d[i] in p;
        FirstIndexAppend(p, [y], d[i]);
        if j < |d| {
          FirstIndexAppend(p, [y], d[j]);
        } else {
          assert Distinct(s)[j] == y && y !in p;
          assert s[|p|] == y && s[..|p|] == p;
        }
      }
    }
  }

  /**
   * A sensitivity list: no duplicates, exactly the identifiers of the three
   * expressions, in the order the traversal first meets them.
   */
  lemma SensitivityCorrect(a: Expr, b: Expr, cond: Expr)
    ensures NoDuplicates(Sensitivity(a, b, cond))
    ensures forall x :: x in Sensitivity(a, b, cond) <==> x in VarsOf(a) || x in VarsOf(b) || x in VarsOf(cond)
    ensures forall i, j | 0 <= i < j < |Sensitivity(a, b, cond)| ::
              FirstIndex(VarsOf(a) + VarsOf(b) + VarsOf(cond), Sensitivity(a, b, cond)[i])
              < FirstIndex(VarsOf(a) + VarsOf(b) + VarsOf(cond), Sensitivity(a, b, cond)[j])
  {
    var s := VarsOf(a) + VarsOf(b) + VarsOf(cond);
    DistinctNoDuplicates(s);
    DistinctElements(s);
    DistinctFirstOrder(s);
  }

  /** After a successful split the set holds a sensitivity list, or what it held before. */
  lemma SplitLeavesValid(s: IfElse, ps: seq<Stmt>, d: seq<string>)
    requires NoDuplicates(d) && Some(ps) == SplitIfElse(s)
    ensures NoDuplicates(LastSensitivity(ps, d))
  {
    if ps != [] {
      if |s.ifBody| <= 1 {
        SensitivityCorrect(s.ifBody[0].expr, s.elseBody[0].expr, s.condition);
      } else {
        var last := ps[|ps| - 1];
        assert last in Pairs(s.ifBody, s.elseBody, s.condition);
        SplitProcessShape(s.ifBody, s.elseBody, s.condition, last);
        var a, b :| a in s.ifBody && b in s.elseBody && a.outputVar == b.outputVar && last == SplitProcess(a, b, s.condition);
        SensitivityCorrect(a.expr, b.expr, s.condition);
      }
    }
  }

  // ---------------------------------------------------------------------
  // Lemmas about the split processes.
  // ---------------------------------------------------------------------

  /** The processes for one if-branch assignment are those for each else-branch assignment with its output. */
  lemma {:induction false} MatchesMembers(a: Assignment, eb: seq<Assignment>, cond: Expr, p: Stmt)
    ensures p in Matches(a, eb, cond) <==> exists b :: b in eb && a.outputVar == b.outputVar && p == SplitProcess(a, b, cond)
    decreases |eb|
  {
    if eb != [] {
      MatchesMembers(a, eb[..|eb| - 1], cond, p);
      assert eb == eb[..|eb| - 1] + [eb[|eb| - 1]];
    }
  }

  /**
   * Each split process pairs an if-branch and an else-branch assignment to
   * the same output, and every such pair gives one.
   */
  lemma {:induction false} PairsMembers(ib: seq<Assignment>, eb: seq<Assignment>, cond: Expr, p: Stmt)
    ensures p in Pairs(ib, eb, cond) <==>
            exists a, b :: a in ib && b in eb && a.outputVar == b.outputVar && p == SplitProcess(a, b, cond)
    decreases |ib|
  {
    if ib != [] {
      var init, a := ib[..|ib| - 1], ib[|ib| - 1];
      PairsMembers(init, eb, cond, p);
      MatchesMembers(a, eb, cond, p);
      assert ib == init + [a];
    }
  }

  lemma SplitProcessShape(ib: seq<Assignment>, eb: seq<Assignment>, cond: Expr, p: Stmt)
    requires p in Pairs(ib, eb, cond)
    ensures exists a, b :: a in ib && b in eb && a.outputVar == b.outputVar && p == SplitProcess(a, b, cond)
  {
    PairsMembers(ib, eb, cond, p);
  }

  /** If-branch major: the processes of the first `k` if-branch assignments come first. */
  lemma {:induction false} PairsAppend(ib: seq<Assignment>, jb: seq<Assignment>, eb: seq<Assignment>, cond: Expr)
    ensures Pairs(ib + jb, eb, cond) == Pairs(ib, eb, cond) + Pairs(jb, eb, cond)
    decreases |jb|
  {
    if jb == [] {
      assert ib + jb == ib;
    } else {
      var init, last := jb[..|jb| - 1], jb[|jb| - 1];
      PairsAppend(ib, init, eb, cond);
      assert (ib + jb)[..|ib + jb| - 1] == ib + init;
      assert (ib + jb)[|ib + jb| - 1] == last;
      var x, y, z := Pairs(ib, eb, cond), Pairs(init, eb, cond), Matches(last, eb, cond);
      assert Pairs(ib + jb, eb, cond) == x + y + z;
      assert Pairs(jb, eb, cond) == y + z;
      assert x + y + z == x + (y + z);
    }
  }

  /** Else-branch minor: for one if-branch assignment, processes follow the else-branch order. */
  lemma {:induction false} MatchesAppend(a: Assignment, eb: seq<Assignment>, fb: seq<Assignment>, cond: Expr)
    ensures Matches(a, eb + fb, cond) == Matches(a, eb, cond) + Matches(a, fb, cond)
    decreases |fb|
  {
    if fb == [] {
      assert eb + fb == eb;
    } else {
      var init, last := fb[..|fb| - 1], fb[|fb| - 1];
      MatchesAppend(a, eb, init, cond);
      assert (eb + fb)[..|eb + fb| - 1] == eb + init;
      assert (eb + fb)[|eb + fb| - 1] == last;
      var x, y, z := Matches(a, eb, cond), Matches(a, init, cond),
        if a.outputVar == last.outputVar then [SplitProcess(a, last, cond)] else [];
      assert Matches(a, eb + fb, cond) == x + y + z;
      assert Matches(a, fb, cond) == y + z;
      assert x + y + z == x + (y + z);
    }
  }

  /** Statements are split one at a time and the results kept in order. */
  lemma {:induction false} SplitStatementsAppend(ss: seq<Stmt>, ts: seq<Stmt>)
    ensures SplitStatements(ss + ts) == Join(SplitStatements(ss), SplitStatements(ts))
    decreases |ts|
  {
    if ts == [] {
      assert ss + ts == ss;
      if SplitStatements(ss).Some? {
        assert SplitStatements(ss).value + [] == SplitStatements(ss).value;
      }
    } else {
      var init, last := ts[..|ts| - 1], ts[|ts| - 1];
      SplitStatementsAppend(ss, init);
      assert (ss + ts)[..|ss + ts| - 1] == ss + init;
      assert (ss + ts)[|ss + ts| - 1] == last;
      JoinAssociative(SplitStatements(ss), SplitStatements(init), SplitStatement(last));
    }
  }

  lemma JoinAssociative(a: Option<seq<Stmt>>, b: Option<seq<Stmt>>, c: Option<seq<Stmt>>)
    ensures Join(Join(a, b), c) == Join(a, Join(b, c))
  {
    if a.Some? && b.Some? && c.Some? {
      assert a.value + b.value + c.value == a.value + (b.value + c.value);
    }
  }

  /** Statements that are not split processes are copied unchanged and in order. */
  lemma {:induction false} UnsplitStatementsKept(ss: seq<Stmt>)
    requires forall i | 0 <= i < |ss| :: !Splittable(ss[i])
    ensures SplitStatements(ss) == Some(ss)
    decreases |ss|
  {
    if ss != [] {
      var init, last := ss[..|ss| - 1], ss[|ss| - 1];
      assert ss == init + [last];
      UnsplitStatementsKept(init);
      assert !Splittable(last);
      assert SplitStatements(ss) == Join(Some(init), SplitStatement(last));
    }
  }

  /** A split process with an assignment among its statements is rejected. */
  lemma {:induction false} AssignmentInSplitBodyRejected(body: seq<SeqStmt>, k: int)
    requires 0 <= k < |body| && body[k].SeqAssign?
    ensures SplitBody(body) == None
    decreases |body|
  {
    if k < |body| - 1 {
      AssignmentInSplitBodyRejected(body[..|body| - 1], k);
    }
  }

  /**
   * Every design unit is kept, in order, with its components, signals,
   * entity name, architecture name and entity.
   */
  lemma {:induction false} SplitUnitsKeepShape(us: seq<DesignUnit>)
    requires SplitUnits(us).Some?
    ensures |SplitUnits(us).value| == |us|
    ensures forall i | 0 <= i < |us| ::
              var v, u := SplitUnits(us).value[i], us[i];
              v.entity == u.entity && v.arch.components == u.arch.components && v.arch.signals == u.arch.signals
              && v.arch.entityName == u.arch.entityName && v.arch.architectureName == u.arch.architectureName
              && Some(v.arch.statements) == SplitStatements(u.arch.statements)
    decreases |us|
  {
    if us != [] {
      SplitUnitsKeepShape(us[..|us| - 1]);
    }
  }

  // ---------------------------------------------------------------------
  // The single-branch sensitivity list.
  // ---------------------------------------------------------------------

  /** The variables a process reads: every assignment of every if/else statement, and its condition. */
  function ReadsOf(body: seq<SeqStmt>): seq<string>
    decreases |body|
  {
    if body == [] then []
    else
      ReadsOf(body[..|body| - 1])
      + match body[|body| - 1]
        case SeqAssign(a) => VarsOf(a.expr)
        case SeqIfElse(s) => AssignedReads(s.ifBody) + AssignedReads(s.elseBody) + VarsOf(s.condition)
  }

  function AssignedReads(asg: seq<Assignment>): seq<string>
    decreases |asg|
  {
    if asg == [] then [] else AssignedReads(asg[..|asg| - 1]) + VarsOf(asg[|asg| - 1].expr)
  }

  /** A process whose sensitivity list names every variable it reads. */
  predicate Complete(p: Stmt) {
    p.ProcessStmt? ==> forall x :: x in ReadsOf(p.body) ==> x in p.sensitivity
  }

  /**
   * As written, the single-branch case reads the sensitivity list from the
   * first else-branch assignment only: `if c then x <= a else x <= b;
   * y <= d` yields a process that reads `d` but is not sensitive to it.
   */
  lemma SingleBranchMissesElseReads()
    ensures var s := IfElse([Assignment("x", Var("a"))], [Assignment("x", Var("b")), Assignment("y", Var("d"))], Var("c"));
            SplitIfElse(s).Some? && |SplitIfElse(s).value| == 1 && !Complete(SplitIfElse(s).value[0])
  {
    var s := IfElse([Assignment("x", Var("a"))], [Assignment("x", Var("b")), Assignment("y", Var("d"))], Var("c"));
    var p := SplitIfElse(s).value[0];
    assert "d" !in Sensitivity(Var("a"), Var("b"), Var("c")) by {
      assert VarsOf(Var("a")) + VarsOf(Var("b")) + VarsOf(Var("c")) == ["a", "b", "c"];
      DistinctElements(["a", "b", "c"]);
    }
    assert AssignedReads(s.elseBody) == ["b", "d"] by {
      assert s.elseBody[..1] == [Assignment("x", Var("b"))];
      assert s.elseBody[..1][..0] == [];
    }
    assert "d" in ReadsOf(p.body) by {
      assert p.body[..0] == [];
      assert ReadsOf(p.body) == AssignedReads(s.ifBody) + AssignedReads(s.elseBody) + VarsOf(s.condition);
    }
    assert "d" !in p.sensitivity;
  }

  /** The evidently intended single-branch sensitivity list: every assignment of both branches and the condition. */
  function SplitIfElseComplete(s: IfElse): Option<seq<Stmt>> {
    if |s.ifBody| <= 1 then
      if s.ifBody == [] || s.elseBody == [] then None
      else Some([ProcessStmt([SeqIfElse(s)], Distinct(AssignedReads(s.ifBody) + AssignedReads(s.elseBody) + VarsOf(s.condition)))])
    else Some(Pairs(s.ifBody, s.elseBody, s.condition))
  }

  /** Every process the corrected split makes is sensitive to every variable it reads. */
  lemma SplitIfElseCompleteCovers(s: IfElse)
    requires SplitIfElseComplete(s).Some?
    ensures forall p | p in SplitIfElseComplete(s).value :: Complete(p)
  {
    var ps := SplitIfElseComplete(s).value;
    if |s.ifBody| <= 1 {
      var rd := AssignedReads(s.ifBody) + AssignedReads(s.elseBody) + VarsOf(s.condition);
      DistinctElements(rd);
      assert [SeqIfElse(s)][..0] == [];
      assert ReadsOf([SeqIfElse(s)]) == rd;
    } else {
      forall p | p in ps ensures Complete(p) {
        SplitProcessShape(s.ifBody, s.elseBody, s.condition, p);
        var a, b :| a in s.ifBody && b in s.elseBody && a.outputVar == b.outputVar && p == SplitProcess(a, b, s.condition);
        SplitProcessComplete(a, b, s.condition);
      }
    }
  }

  /** A process for one pair reads exactly what its sensitivity list names. */
  lemma SplitProcessComplete(a: Assignment, b: Assignment, cond: Expr)
    ensures Complete(SplitProcess(a, b, cond))
  {
    var p := SplitProcess(a, b, cond);
    var body := [SeqIfElse(IfElse([a], [b], cond))];
    assert body[..0] == [];
    assert [a][..0] == [] && [b][..0] == [];
    assert AssignedReads([a]) == VarsOf(a.expr) && AssignedReads([b]) == VarsOf(b.expr);
    assert ReadsOf(body) == VarsOf(a.expr) + VarsOf(b.expr) + VarsOf(cond);
    SensitivityCorrect(a.expr, b.expr, cond);
  }
}
