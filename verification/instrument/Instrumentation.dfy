/** What instrument_statement and output_statement write, as a function from trees to trees. */
module Instrumentation {
  import opened Options
  import opened Syntax

  /** `//#JSCOVERAGE_IF` with nothing else on the line before; directives are kept by line, from 0. */
  predicate Directive(directives: seq<bool>, line: nat)
  {
    2 <= line < |directives| + 2 && directives[line - 2]
  }

  function One(s: Stmt): Stmts
  {
    SCons(s, SNil)
  }

  /** instrument_statement: a counter, unless it is a block, and the statement. */
  function Instrument(s: Stmt, inherit: bool, ds: seq<bool>): Stmts
    decreases s, 1
  {
    if Counted(s) then SCons(Count(LineOf(s)), Output(s, inherit, ds)) else Output(s, inherit, ds)
  }

  function InstrumentList(list: Stmts, ds: seq<bool>): Stmts
  {
    match list
    case SNil => SNil
    case SCons(s, rest) => Append(Instrument(s, false, ds), InstrumentList(rest, ds))
  }

  function Marked(mark: bool, first: nat, end: nat, list: Stmts): Stmts
  {
    if mark then SCons(SetConditional(first, end), list) else list
  }

  /** What comes to stand directly after a label is what the label labels. */
  function Prefix(line: nat, name: Name, list: Stmts): Stmts
  {
    match list
    case SNil => SNil
    case SCons(s, rest) => SCons(Labelled(line, name, s), rest)
  }

  /** output_statement. A block directly in a list loses its braces. */
  function Output(s: Stmt, inherit: bool, ds: seq<bool>): Stmts
    decreases s, 0
  {
    match s
    case Block(list) => InstrumentList(list, ds)
    case Seq(_, list) => InstrumentList(list, ds)
    case Scope(list) => One(Scope(InstrumentList(list, ds)))
    case Declare(line, id, code) => One(Declare(line, id, InstrumentBody(code, ds)))
    case Simple(line, e) => One(Simple(line, InstrumentOption(e, ds)))
    case If(line, cond, yes, yesAt, no, noAt) =>
      var mark := inherit || Directive(ds, line);
      var yes' := Block(Marked(mark && no.Some?, noAt.begin, noAt.end + 1, Instrument(yes, false, ds)));
      var no' :=
        if no.Some? then Some(Block(Marked(mark, yesAt.begin + 1, yesAt.end + 1, Instrument(no.value, mark, ds))))
        else if mark then Some(Block(One(SetConditional(yesAt.begin + 1, yesAt.end + 1))))
        else None;
      One(If(line, InstrumentExpr(cond, ds), yes', yesAt, no', noAt))
    case Switch(line, subject, cases) => One(Switch(line, InstrumentExpr(subject, ds), InstrumentCases(cases, ds)))
    case While(line, cond, body) => One(While(line, InstrumentExpr(cond, ds), Block(Instrument(body, false, ds))))
    case DoWhile(line, body, cond) => One(DoWhile(line, Block(Instrument(body, false, ds)), InstrumentExpr(cond, ds)))
    case For(line, init, test, step, body) =>
      One(For(line, InstrumentOption(init, ds), InstrumentOption(test, ds), InstrumentOption(step, ds),
              Block(Instrument(body, false, ds))))
    case ForIn(line, target, subject, body) =>
      One(ForIn(line, InstrumentExpr(target, ds), InstrumentExpr(subject, ds), Block(Instrument(body, false, ds))))
    case Throw(line, e) => One(Throw(line, InstrumentExpr(e, ds)))
    case Try(line, block, catches, last) =>
      One(Try(line, Block(Instrument(block, false, ds)), InstrumentCatches(catches, ds),
              if last.Some? then Some(Block(Instrument(last.value, false, ds))) else None))
    case Break(line, l) => One(s)
    case Continue(line, l) => One(s)
    case With(line, subject, body) => One(With(line, InstrumentExpr(subject, ds), Block(Instrument(body, false, ds))))
    case Return(line, e) => One(Return(line, InstrumentOption(e, ds)))
    case Labelled(line, name, body) =>
      if body.Block? then One(Labelled(line, name, Block(InstrumentList(body.list, ds))))
      else Prefix(line, name, Output(body, false, ds))
    case Count(_) => One(s)
    case SetConditional(_, _) => One(s)
  }

  function InstrumentExpr(e: Expr, ds: seq<bool>): Expr
  {
    match e
    case Op(op, kids) => Op(op, InstrumentExprs(kids, ds))
    case Function(id, body) => Function(id, InstrumentBody(body, ds))
  }

  function InstrumentExprs(es: Exprs, ds: seq<bool>): Exprs
  {
    match es
    case ENil => ENil
    case ECons(e, rest) => ECons(InstrumentExpr(e, ds), InstrumentExprs(rest, ds))
  }

  function InstrumentOption(e: Option<Expr>, ds: seq<bool>): Option<Expr>
  {
    match e
    case None => None
    case Some(e') => Some(InstrumentExpr(e', ds))
  }

  /** instrument_function. An expression closure becomes an ordinary function with an uncounted return. */
  function InstrumentBody(b: Body, ds: seq<bool>): Body
  {
    match b
    case Statements(list) => Statements(InstrumentList(list, ds))
    case Closure(line, e) => Statements(One(Return(line, Some(InstrumentExpr(e, ds)))))
  }

  function InstrumentCases(cases: Cases, ds: seq<bool>): Cases
  {
    match cases
    case NoCase => NoCase
    case Case(test, body, more) =>
      Case(InstrumentOption(test, ds), InstrumentList(body, ds), InstrumentCases(more, ds))
  }

  function InstrumentCatches(catches: Catches, ds: seq<bool>): Catches
  {
    match catches
    case NoCatch => NoCatch
    case Catch(target, guard, body, more) =>
      Catch(InstrumentExpr(target, ds), InstrumentOption(guard, ds), Block(Instrument(body, false, ds)),
            InstrumentCatches(more, ds))
  }
}
