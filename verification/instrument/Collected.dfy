/** The functions of a program, and the conditions under which instrumenting keeps its meaning. */
module Collected {
  import opened Options
  import opened Syntax
  import opened Instrumentation

  // ----- The functions in a tree -----

  function InExpr(e: Expr): map<nat, Body>
  {
    match e
    case Op(_, kids) => InExprs(kids)
    case Function(id, body) => map[id := body] + InBody(body)
  }

  function InExprs(es: Exprs): map<nat, Body>
  {
    match es
    case ENil => map[]
    case ECons(e, rest) => InExpr(e) + InExprs(rest)
  }

  function InOption(e: Option<Expr>): map<nat, Body>
  {
    match e
    case None => map[]
    case Some(e') => InExpr(e')
  }

  function InBody(b: Body): map<nat, Body>
  {
    match b
    case Statements(list) => InList(list)
    case Closure(_, e) => InExpr(e)
  }

  function InList(list: Stmts): map<nat, Body>
  {
    match list
    case SNil => map[]
    case SCons(s, rest) => InStmt(s) + InList(rest)
  }

  function InStmt(s: Stmt): map<nat, Body>
  {
    match s
    case Block(list) => InList(list)
    case Seq(_, list) => InList(list)
    case Scope(list) => InList(list)
    case Declare(_, id, code) => map[id := code] + InBody(code)
    case Simple(_, e) => InOption(e)
    case If(_, cond, yes, _, no, _) => InExpr(cond) + InStmt(yes) + if no.Some? then InStmt(no.value) else map[]
    case Switch(_, subject, cases) => InExpr(subject) + InCases(cases)
    case While(_, cond, body) => InExpr(cond) + InStmt(body)
    case DoWhile(_, body, cond) => InStmt(body) + InExpr(cond)
    case For(_, init, test, step, body) => InOption(init) + InOption(test) + InOption(step) + InStmt(body)
    case ForIn(_, target, subject, body) => InExpr(target) + InExpr(subject) + InStmt(body)
    case Throw(_, e) => InExpr(e)
    case Try(_, block, catches, last) =>
      InStmt(block) + InCatches(catches) + if last.Some? then InStmt(last.value) else map[]
    case Break(_, _) => map[]
    case Continue(_, _) => map[]
    case With(_, subject, body) => InExpr(subject) + InStmt(body)
    case Return(_, e) => InOption(e)
    case Labelled(_, _, body) => InStmt(body)
    case Count(_) => map[]
    case SetConditional(_, _) => map[]
  }

  function InCases(cases: Cases): map<nat, Body>
  {
    match cases
    case NoCase => map[]
    case Case(test, body, more) => InOption(test) + InList(body) + InCases(more)
  }

  function InCatches(catches: Catches): map<nat, Body>
  {
    match catches
    case NoCatch => map[]
    case Catch(target, guard, body, more) => InExpr(target) + InOption(guard) + InStmt(body) + InCatches(more)
  }

  // ----- The functions of the instrumented program -----

  function InstrumentAll(code: map<nat, Body>, ds: seq<bool>): map<nat, Body>
  {
    map id | id in code :: InstrumentBody(code[id], ds)
  }

  lemma AllOfSum(a: map<nat, Body>, b: map<nat, Body>, ds: seq<bool>)
    ensures InstrumentAll(a + b, ds) == InstrumentAll(a, ds) + InstrumentAll(b, ds)
  {
  }

  lemma {:induction false} InAppend(a: Stmts, b: Stmts)
    ensures InList(Append(a, b)) == InList(a) + InList(b)
  {
    match a
    case SNil =>
    case SCons(s, rest) =>
      InAppend(rest, b);
  }

  /** Statements without functions in front of a list do not matter. */
  lemma InPlain(s: Stmt, list: Stmts)
    requires InStmt(s) == map[]
    ensures InList(SCons(s, list)) == InList(list)
  {
    assert InList(SCons(s, list)) == map[] + InList(list);
  }

  lemma InOne(s: Stmt)
    ensures InList(One(s)) == InStmt(s)
  {
  }

  lemma {:induction false} ExprFunctions(e: Expr, ds: seq<bool>)
    ensures InExpr(InstrumentExpr(e, ds)) == InstrumentAll(InExpr(e), ds)
  {
    match e
    case Op(_, kids) => ExprsFunctions(kids, ds);
    case Function(id, body) =>
      BodyFunctions(body, ds);
      AllOfSum(map[id := body], InBody(body), ds);
  }

  lemma {:induction false} ExprsFunctions(es: Exprs, ds: seq<bool>)
    ensures InExprs(InstrumentExprs(es, ds)) == InstrumentAll(InExprs(es), ds)
  {
    match es
    case ENil =>
    case ECons(e, rest) =>
      ExprFunctions(e, ds);
      ExprsFunctions(rest, ds);
      AllOfSum(InExpr(e), InExprs(rest), ds);
  }

  lemma {:induction false} OptionFunctions(e: Option<Expr>, ds: seq<bool>)
    ensures InOption(InstrumentOption(e, ds)) == InstrumentAll(InOption(e), ds)
  {
    match e
    case None =>
    case Some(e') => ExprFunctions(e', ds);
  }

  lemma {:induction false} BodyFunctions(b: Body, ds: seq<bool>)
    ensures InBody(InstrumentBody(b, ds)) == InstrumentAll(InBody(b), ds)
  {
    match b
    case Statements(list) => ListFunctions(list, ds);
    case Closure(line, e) =>
      ExprFunctions(e, ds);
      InOne(Return(line, Some(InstrumentExpr(e, ds))));
  }

  lemma {:induction false} ListFunctions(list: Stmts, ds: seq<bool>)
    ensures InList(InstrumentList(list, ds)) == InstrumentAll(InList(list), ds)
  {
    match list
    case SNil =>
    case SCons(s, rest) =>
      StmtFunctions(s, false, ds);
      ListFunctions(rest, ds);
      AllOfSum(InStmt(s), InList(rest), ds);
      InAppend(Instrument(s, false, ds), InstrumentList(rest, ds));
  }

  lemma {:induction false} StmtFunctions(s: Stmt, inherit: bool, ds: seq<bool>)
    ensures InList(Instrument(s, inherit, ds)) == InstrumentAll(InStmt(s), ds)
    ensures InStmt(Block(Instrument(s, inherit, ds))) == InstrumentAll(InStmt(s), ds)
    decreases s, 2
  {
    OutputFunctions(s, inherit, ds);
    hide InstrumentAll, Output;
    InPlain(Count(LineOf(s)), Output(s, inherit, ds));
    assert InStmt(Block(Instrument(s, inherit, ds))) == InList(Instrument(s, inherit, ds));
  }

  lemma {:induction false} PrefixFunctions(line: nat, name: Name, list: Stmts)
    ensures InList(Prefix(line, name, list)) == InList(list)
  {
  }

  lemma MarkedFunctions(mark: bool, first: nat, end: nat, list: Stmts)
    ensures InStmt(Block(Marked(mark, first, end, list))) == InList(list)
  {
    InPlain(SetConditional(first, end), list);
    assert InStmt(Block(Marked(mark, first, end, list))) == InList(Marked(mark, first, end, list));
  }

  lemma Sum3(a: map<nat, Body>, b: map<nat, Body>, c: map<nat, Body>, ds: seq<bool>)
    ensures InstrumentAll(a + b + c, ds) == InstrumentAll(a, ds) + InstrumentAll(b, ds) + InstrumentAll(c, ds)
  {
    AllOfSum(a + b, c, ds);
    AllOfSum(a, b, ds);
  }

  lemma {:induction false} OutputFunctions(s: Stmt, inherit: bool, ds: seq<bool>)
    ensures InList(Output(s, inherit, ds)) == InstrumentAll(InStmt(s), ds)
    decreases s, 1
  {
    hide InstrumentAll, Instrument, InstrumentExpr, InstrumentOption, InstrumentList, InstrumentCases, InstrumentCatches,
         InExpr, InOption, InCases, InCatches;
    InNothing(ds);
    match s {
      case Block(list) => ListFunctions(list, ds);
      case Seq(_, list) => ListFunctions(list, ds);
      case Scope(list) => ListFunctions(list, ds); InOne(Scope(InstrumentList(list, ds)));
      case Declare(line, id, code) =>
        BodyFunctions(code, ds);
        AllOfSum(map[id := code], InBody(code), ds);
        AllOfOne(id, code, ds);
      case Simple(line, e) => OptionFunctions(e, ds);
      case If(_, _, _, _, _, _) => IfFunctions(s, inherit, ds);
      case Switch(line, subject, cases) =>
        ExprFunctions(subject, ds);
        CasesFunctions(cases, ds);
        AllOfSum(InExpr(subject), InCases(cases), ds);
      case While(_, _, _) => LoopFunctions(s, inherit, ds);
      case DoWhile(_, _, _) => LoopFunctions(s, inherit, ds);
      case For(_, _, _, _, _) => LoopFunctions(s, inherit, ds);
      case ForIn(_, _, _, _) => LoopFunctions(s, inherit, ds);
      case Throw(line, e) => ExprFunctions(e, ds);
      case Try(_, block, catches, last) =>
        StmtFunctions(block, false, ds);
        CatchesFunctions(catches, ds);
        if last.Some? {
          StmtFunctions(last.value, false, ds);
        }
        Sum3(InStmt(block), InCatches(catches), if last.Some? then InStmt(last.value) else map[], ds);
      case Break(_, _) =>
      case Continue(_, _) =>
      case With(_, subject, body) =>
        ExprFunctions(subject, ds);
        StmtFunctions(body, false, ds);
        AllOfSum(InExpr(subject), InStmt(body), ds);
      case Return(_, e) => OptionFunctions(e, ds);
      case Labelled(line, name, body) =>
        if body.Block? {
          ListFunctions(body.list, ds);
          InOne(Labelled(line, name, Block(InstrumentList(body.list, ds))));
        } else {
          OutputFunctions(body, false, ds);
          PrefixFunctions(line, name, Output(body, false, ds));
        }
      case Count(_) =>
      case SetConditional(_, _) =>
    }
    if !s.Block? && !s.Seq? && !s.Labelled? {
      InOne(Output(s, inherit, ds).head);
    }
  }

  lemma {:induction false} LoopFunctions(s: Stmt, inherit: bool, ds: seq<bool>)
    requires s.While? || s.DoWhile? || s.For? || s.ForIn?
    ensures InList(Output(s, inherit, ds)) == InstrumentAll(InStmt(s), ds)
    decreases s, 0
  {
    hide InstrumentAll, InstrumentExpr, InstrumentOption, Instrument, InExpr, InOption;
    InOne(Output(s, inherit, ds).head);
    StmtFunctions(s.body, false, ds);
    match s
    case While(line, cond, body) =>
      ExprFunctions(cond, ds);
      AllOfSum(InExpr(cond), InStmt(body), ds);
    case DoWhile(line, body, cond) =>
      ExprFunctions(cond, ds);
      AllOfSum(InStmt(body), InExpr(cond), ds);
    case For(line, init, test, step, body) =>
      OptionFunctions(init, ds);
      OptionFunctions(test, ds);
      OptionFunctions(step, ds);
      Sum3(InOption(init), InOption(test), InOption(step), ds);
      AllOfSum(InOption(init) + InOption(test) + InOption(step), InStmt(body), ds);
    case ForIn(line, target, subject, body) =>
      ExprFunctions(target, ds);
      ExprFunctions(subject, ds);
      Sum3(InExpr(target), InExpr(subject), InStmt(body), ds);
  }

  lemma InNothing(ds: seq<bool>)
    ensures InstrumentAll(map[], ds) == map[]
  {
  }

  lemma AllOfOne(id: nat, b: Body, ds: seq<bool>)
    ensures InstrumentAll(map[id := b], ds) == map[id := InstrumentBody(b, ds)]
  {
  }

  lemma {:induction false} IfFunctions(s: Stmt, inherit: bool, ds: seq<bool>)
    requires s.If?
    ensures InList(Output(s, inherit, ds)) == InstrumentAll(InStmt(s), ds)
    decreases s, 0
  {
    hide InstrumentAll;
    InNothing(ds);
    var mark := inherit || Directive(ds, s.line);
    ExprFunctions(s.cond, ds);
    StmtFunctions(s.yes, false, ds);
    MarkedFunctions(mark && s.no.Some?, s.noAt.begin, s.noAt.end + 1, Instrument(s.yes, false, ds));
    if s.no.Some? {
      StmtFunctions(s.no.value, mark, ds);
      MarkedFunctions(mark, s.yesAt.begin + 1, s.yesAt.end + 1, Instrument(s.no.value, mark, ds));
    }
    var t := Output(s, inherit, ds).head;
    var no := if s.no.Some? then InStmt(s.no.value) else map[];
    assert t.no.Some? ==> InStmt(t.no.value) == InstrumentAll(no, ds) by {
      if t.no.Some? && s.no.None? {
        assert InStmt(t.no.value) == InList(One(SetConditional(s.yesAt.begin + 1, s.yesAt.end + 1))) == map[];
      }
    }
    Sum3(InExpr(s.cond), InStmt(s.yes), no, ds);
    InOne(t);
  }

  lemma {:induction false} CasesFunctions(cases: Cases, ds: seq<bool>)
    ensures InCases(InstrumentCases(cases, ds)) == InstrumentAll(InCases(cases), ds)
  {
    match cases
    case NoCase =>
    case Case(test, body, more) =>
      OptionFunctions(test, ds);
      ListFunctions(body, ds);
      CasesFunctions(more, ds);
      Sum3(InOption(test), InList(body), InCases(more), ds);
  }

  lemma {:induction false} CatchesFunctions(catches: Catches, ds: seq<bool>)
    ensures InCatches(InstrumentCatches(catches, ds)) == InstrumentAll(InCatches(catches), ds)
  {
    match catches
    case NoCatch =>
    case Catch(target, guard, body, more) =>
      ExprFunctions(target, ds);
      OptionFunctions(guard, ds);
      StmtFunctions(body, false, ds);
      CatchesFunctions(more, ds);
      Sum3(InExpr(target), InOption(guard), InStmt(body), ds);
      AllOfSum(InExpr(target) + InOption(guard) + InStmt(body), InCatches(more), ds);
  }
}
