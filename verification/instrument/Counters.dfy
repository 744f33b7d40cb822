/** The counters in a tree, which are those that have to be set to zero first. */
module Counters {
  import opened Options
  import opened Syntax
  import opened Instrumentation
  import opened Sound

  // ----- The lines with an increment somewhere in the tree, nested functions included -----

  function OfExpr(e: Expr): set<nat>
  {
    match e
    case Op(_, kids) => OfExprs(kids)
    case Function(id, body) => OfBody(body)
  }

  function OfExprs(es: Exprs): set<nat>
  {
    match es
    case ENil => {}
    case ECons(e, rest) => OfExpr(e) + OfExprs(rest)
  }

  function OfOption(e: Option<Expr>): set<nat>
  {
    match e
    case None => {}
    case Some(e') => OfExpr(e')
  }

  function OfBody(b: Body): set<nat>
  {
    match b
    case Statements(list) => OfList(list)
    case Closure(_, e) => OfExpr(e)
  }

  function OfList(list: Stmts): set<nat>
  {
    match list
    case SNil => {}
    case SCons(s, rest) => OfStmt(s) + OfList(rest)
  }

  function OfStmt(s: Stmt): set<nat>
  {
    match s
    case Block(list) => OfList(list)
    case Seq(_, list) => OfList(list)
    case Scope(list) => OfList(list)
    case Declare(_, id, code) => OfBody(code)
    case Simple(_, e) => OfOption(e)
    case If(_, cond, yes, _, no, _) => OfExpr(cond) + OfStmt(yes) + if no.Some? then OfStmt(no.value) else {}
    case Switch(_, subject, cases) => OfExpr(subject) + OfCases(cases)
    case While(_, cond, body) => OfExpr(cond) + OfStmt(body)
    case DoWhile(_, body, cond) => OfStmt(body) + OfExpr(cond)
    case For(_, init, test, step, body) => OfOption(init) + OfOption(test) + OfOption(step) + OfStmt(body)
    case ForIn(_, target, subject, body) => OfExpr(target) + OfExpr(subject) + OfStmt(body)
    case Throw(_, e) => OfExpr(e)
    case Try(_, block, catches, last) =>
      OfStmt(block) + OfCatches(catches) + if last.Some? then OfStmt(last.value) else {}
    case Break(_, _) => {}
    case Continue(_, _) => {}
    case With(_, subject, body) => OfExpr(subject) + OfStmt(body)
    case Return(_, e) => OfOption(e)
    case Labelled(_, _, body) => OfStmt(body)
    case Count(line) => {line}
    case SetConditional(_, _) => {}
  }

  function OfCases(cases: Cases): set<nat>
  {
    match cases
    case NoCase => {}
    case Case(test, body, more) => OfOption(test) + OfList(body) + OfCases(more)
  }

  function OfCatches(catches: Catches): set<nat>
  {
    match catches
    case NoCatch => {}
    case Catch(target, guard, body, more) => OfExpr(target) + OfOption(guard) + OfStmt(body) + OfCatches(more)
  }

  // ----- Every counted statement has its increment -----

  lemma {:induction false} OfAppend(a: Stmts, b: Stmts)
    ensures OfList(Append(a, b)) == OfList(a) + OfList(b)
  {
    match a
    case SNil =>
    case SCons(s, rest) => OfAppend(rest, b);
  }

  lemma OfOne(s: Stmt)
    ensures OfList(One(s)) == OfStmt(s)
  {
  }

  lemma OfPrefix(line: nat, name: Name, list: Stmts)
    ensures OfList(Prefix(line, name, list)) == OfList(list)
  {
  }

  lemma OfMarked(mark: bool, first: nat, end: nat, list: Stmts)
    ensures OfStmt(Block(Marked(mark, first, end, list))) == OfList(list)
  {
    assert OfList(SCons(SetConditional(first, end), list)) == {} + OfList(list);
    assert OfStmt(Block(Marked(mark, first, end, list))) == OfList(Marked(mark, first, end, list));
  }

  lemma {:induction false} ExprKnown(e: Expr, ds: seq<bool>, any: set<nat>, lines: set<nat>)
    requires SoundExpr(e, any) && OfExpr(InstrumentExpr(e, ds)) <= lines
    ensures SoundExpr(e, lines)
  {
    match e
    case Op(_, kids) => ExprsKnown(kids, ds, any, lines);
    case Function(_, body) => BodyKnown(body, ds, any, lines);
  }

  lemma {:induction false} ExprsKnown(es: Exprs, ds: seq<bool>, any: set<nat>, lines: set<nat>)
    requires SoundExprs(es, any) && OfExprs(InstrumentExprs(es, ds)) <= lines
    ensures SoundExprs(es, lines)
  {
    match es
    case ENil =>
    case ECons(e, rest) => ExprKnown(e, ds, any, lines); ExprsKnown(rest, ds, any, lines);
  }

  lemma {:induction false} OptionKnown(e: Option<Expr>, ds: seq<bool>, any: set<nat>, lines: set<nat>)
    requires SoundOption(e, any) && OfOption(InstrumentOption(e, ds)) <= lines
    ensures SoundOption(e, lines)
  {
    match e
    case None =>
    case Some(e') => ExprKnown(e', ds, any, lines);
  }

  lemma {:induction false} BodyKnown(b: Body, ds: seq<bool>, any: set<nat>, lines: set<nat>)
    requires SoundBody(b, any) && OfBody(InstrumentBody(b, ds)) <= lines
    ensures SoundBody(b, lines)
  {
    match b
    case Statements(list) => ListKnown(list, ds, any, lines);
    case Closure(line, e) =>
      OfOne(Return(line, Some(InstrumentExpr(e, ds))));
      ExprKnown(e, ds, any, lines);
  }

  lemma {:induction false} ListKnown(list: Stmts, ds: seq<bool>, any: set<nat>, lines: set<nat>)
    requires SoundList(list, any) && OfList(InstrumentList(list, ds)) <= lines
    ensures SoundList(list, lines)
  {
    match list
    case SNil =>
    case SCons(s, rest) =>
      OfAppend(Instrument(s, false, ds), InstrumentList(rest, ds));
      ItemKnown(s, false, ds, any, lines);
      ListKnown(rest, ds, any, lines);
  }

  /** The lines of the counted statements are those of the counters that are written for them. */
  lemma {:induction false} ItemKnown(s: Stmt, inherit: bool, ds: seq<bool>, any: set<nat>, lines: set<nat>)
    requires SoundItem(s, any) && OfList(Instrument(s, inherit, ds)) <= lines
    ensures SoundItem(s, lines)
    decreases s, 2
  {
    if Counted(s) {
      assert OfList(Instrument(s, inherit, ds)) == {LineOf(s)} + OfList(Output(s, inherit, ds));
    }
    StmtKnown(s, inherit, ds, any, lines);
  }

  lemma {:induction false} StmtKnown(s: Stmt, inherit: bool, ds: seq<bool>, any: set<nat>, lines: set<nat>)
    requires SoundStmt(s, any) && OfList(Output(s, inherit, ds)) <= lines
    ensures SoundStmt(s, lines)
    decreases s, 1
  {
    if !s.Block? && !s.Seq? && !s.Labelled? {
      OfOne(Output(s, inherit, ds).head);
    }
    match s
    case Block(list) => ListKnown(list, ds, any, lines);
    case Seq(_, list) => ListKnown(list, ds, any, lines);
    case Scope(list) => ListKnown(list, ds, any, lines);
    case Declare(_, _, code) => BodyKnown(code, ds, any, lines);
    case Simple(_, e) => OptionKnown(e, ds, any, lines);
    case If(_, _, _, _, _, _) => IfKnown(s, inherit, ds, any, lines);
    case Switch(_, subject, cases) => ExprKnown(subject, ds, any, lines); CasesKnown(cases, ds, any, lines);
    case While(_, cond, body) => ExprKnown(cond, ds, any, lines); ItemKnown(body, false, ds, any, lines);
    case DoWhile(_, body, cond) => ExprKnown(cond, ds, any, lines); ItemKnown(body, false, ds, any, lines);
    case For(_, init, test, step, body) =>
      OptionKnown(init, ds, any, lines);
      OptionKnown(test, ds, any, lines);
      OptionKnown(step, ds, any, lines);
      ItemKnown(body, false, ds, any, lines);
    case ForIn(_, target, subject, body) =>
      ExprKnown(target, ds, any, lines);
      ExprKnown(subject, ds, any, lines);
      ItemKnown(body, false, ds, any, lines);
    case Throw(_, e) => ExprKnown(e, ds, any, lines);
    case Try(_, block, catches, last) =>
      ItemKnown(block, false, ds, any, lines);
      CatchesKnown(catches, ds, any, lines);
      if last.Some? {
        ItemKnown(last.value, false, ds, any, lines);
      }
    case Break(_, _) =>
    case Continue(_, _) =>
    case With(_, subject, body) => ExprKnown(subject, ds, any, lines); ItemKnown(body, false, ds, any, lines);
    case Return(_, e) => OptionKnown(e, ds, any, lines);
    case Labelled(line, name, body) =>
      if body.Block? {
        OfOne(Labelled(line, name, Block(InstrumentList(body.list, ds))));
        ListKnown(body.list, ds, any, lines);
      } else {
        OfPrefix(line, name, Output(body, false, ds));
        StmtKnown(body, false, ds, any, lines);
      }
  }

  lemma {:induction false} IfKnown(s: Stmt, inherit: bool, ds: seq<bool>, any: set<nat>, lines: set<nat>)
    requires s.If? && SoundStmt(s, any) && OfStmt(Output(s, inherit, ds).head) <= lines
    ensures SoundStmt(s, lines)
    decreases s, 0
  {
    var mark := inherit || Directive(ds, s.line);
    OfMarked(mark && s.no.Some?, s.noAt.begin, s.noAt.end + 1, Instrument(s.yes, false, ds));
    ExprKnown(s.cond, ds, any, lines);
    ItemKnown(s.yes, false, ds, any, lines);
    if s.no.Some? {
      OfMarked(mark, s.yesAt.begin + 1, s.yesAt.end + 1, Instrument(s.no.value, mark, ds));
      ItemKnown(s.no.value, mark, ds, any, lines);
    }
  }

  lemma {:induction false} CasesKnown(cases: Cases, ds: seq<bool>, any: set<nat>, lines: set<nat>)
    requires SoundCases(cases, any) && OfCases(InstrumentCases(cases, ds)) <= lines
    ensures SoundCases(cases, lines)
  {
    match cases
    case NoCase =>
    case Case(test, body, more) =>
      OptionKnown(test, ds, any, lines);
      ListKnown(body, ds, any, lines);
      CasesKnown(more, ds, any, lines);
  }

  lemma {:induction false} CatchesKnown(catches: Catches, ds: seq<bool>, any: set<nat>, lines: set<nat>)
    requires SoundCatches(catches, any) && OfCatches(InstrumentCatches(catches, ds)) <= lines
    ensures SoundCatches(catches, lines)
  {
    match catches
    case NoCatch =>
    case Catch(target, guard, body, more) =>
      ExprKnown(target, ds, any, lines);
      OptionKnown(guard, ds, any, lines);
      ItemKnown(body, false, ds, any, lines);
      CatchesKnown(more, ds, any, lines);
  }
}
