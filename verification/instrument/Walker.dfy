/** The walk over the parse tree, which notes the lines it has written counters for. */
module Walker {
  import opened Options
  import opened Syntax
  import opened Instrumentation
  import opened Counters

  // ----- Trees whose lines are all within the file -----

  predicate FitsItem(s: Stmt, n: nat)
    decreases s, 1
  {
    (Counted(s) ==> LineOf(s) <= n) && FitsStmt(s, n)
  }

  predicate FitsStmt(s: Stmt, n: nat)
    decreases s, 0
  {
    match s
    case Block(list) => FitsList(list, n)
    case Seq(_, list) => FitsList(list, n)
    case Scope(list) => FitsList(list, n)
    case Declare(_, _, code) => FitsBody(code, n)
    case Simple(_, e) => FitsOption(e, n)
    case If(line, cond, yes, _, no, _) =>
      line <= n && FitsExpr(cond, n) && FitsItem(yes, n) && (no.Some? ==> FitsItem(no.value, n))
    case Switch(_, subject, cases) => FitsExpr(subject, n) && FitsCases(cases, n)
    case While(_, cond, body) => FitsExpr(cond, n) && FitsItem(body, n)
    case DoWhile(_, body, cond) => FitsExpr(cond, n) && FitsItem(body, n)
    case For(_, init, test, step, body) =>
      FitsOption(init, n) && FitsOption(test, n) && FitsOption(step, n) && FitsItem(body, n)
    case ForIn(_, target, subject, body) =>
      FitsExpr(target, n) && FitsExpr(subject, n) && FitsItem(body, n)
    case Throw(_, e) => FitsExpr(e, n)
    case Try(_, block, catches, last) =>
      FitsItem(block, n) && FitsCatches(catches, n) && (last.Some? ==> FitsItem(last.value, n))
    case Break(_, _) => true
    case Continue(_, _) => true
    case With(_, subject, body) => FitsExpr(subject, n) && FitsItem(body, n)
    case Return(_, e) => FitsOption(e, n)
    case Labelled(_, _, body) => FitsStmt(body, n)
    case Count(_) => false
    case SetConditional(_, _) => false
  }

  predicate FitsList(list: Stmts, n: nat)
  {
    match list
    case SNil => true
    case SCons(s, rest) => FitsItem(s, n) && FitsList(rest, n)
  }

  predicate FitsExpr(e: Expr, n: nat)
  {
    match e
    case Op(_, kids) => FitsExprs(kids, n)
    case Function(_, body) => FitsBody(body, n)
  }

  predicate FitsExprs(es: Exprs, n: nat)
  {
    match es
    case ENil => true
    case ECons(e, rest) => FitsExpr(e, n) && FitsExprs(rest, n)
  }

  predicate FitsOption(e: Option<Expr>, n: nat)
  {
    e.Some? ==> FitsExpr(e.value, n)
  }

  predicate FitsBody(b: Body, n: nat)
  {
    match b
    case Statements(list) => FitsList(list, n)
    case Closure(_, e) => FitsExpr(e, n)
  }

  predicate FitsCases(cases: Cases, n: nat)
  {
    match cases
    case NoCase => true
    case Case(test, body, more) => FitsOption(test, n) && FitsList(body, n) && FitsCases(more, n)
  }

  predicate FitsCatches(catches: Catches, n: nat)
  {
    match catches
    case NoCatch => true
    case Catch(target, guard, body, more) =>
      FitsExpr(target, n) && FitsOption(guard, n) && FitsItem(body, n) && FitsCatches(more, n)
  }

  // ----- The marks -----

  /** The lines marked now are those marked before and the given ones, counted from 1. */
  ghost predicate Marks(now: seq<bool>, before: seq<bool>, lines: set<nat>)
  {
    && |now| == |before| && (forall l :: l in lines ==> 1 <= l <= |now|)
    && forall i :: 0 <= i < |now| ==> (now[i] <==> before[i] || i + 1 in lines)
  }

  class Instrumenter {
    const numLines: nat
    const lines: array<bool>       // by line, from 0: has a counter
    const directives: array<bool>  // by line, from 0: has an exclusive directive

    ghost predicate Valid()
    {
      lines.Length == numLines == directives.Length && lines != directives
    }

    /** xmalloc and xnew, and the loops that clear the arrays. */
    constructor (numLines: nat)
      ensures Valid() && this.numLines == numLines && fresh(lines) && fresh(directives)
      ensures forall i :: 0 <= i < numLines ==> !lines[i] && !directives[i]
    {
      this.numLines := numLines;
      lines := new bool[numLines](i => false);
      directives := new bool[numLines](i => false);
    }

    /** instrument_statement; not ok stands for the fatal error on a line beyond the end of the file. */
    method Statement(s: Stmt, inherit: bool) returns (ok: bool, out: Stmts)
      requires Valid()
      modifies lines
      ensures ok <==> FitsItem(s, numLines)
      ensures ok ==> out == Instrument(s, inherit, directives[..])
      ensures ok ==> Marks(lines[..], old(lines[..]), OfList(out))
      decreases s, 3
    {
      out := SNil;
      if Counted(s) {
        var line := LineOf(s);
        if line > numLines {
          return false, SNil;
        }
        lines[line - 1] := true;
        ok, out := OutputStatement(s, inherit);
        out := SCons(Count(line), out);
      } else {
        ok, out := OutputStatement(s, inherit);
      }
    }

    /** The loop over the statements of a block or body. */
    method List(list: Stmts) returns (ok: bool, out: Stmts)
      requires Valid()
      modifies lines
      ensures ok <==> FitsList(list, numLines)
      ensures ok ==> out == InstrumentList(list, directives[..])
      ensures ok ==> Marks(lines[..], old(lines[..]), OfList(out))
      decreases list, 0
    {
      match list
      case SNil =>
        return true, SNil;
      case SCons(s, rest) =>
        var head, tail;
        ok, head := Statement(s, false);
        if !ok {
          return false, SNil;
        }
        ok, tail := List(rest);
        OfAppend(head, tail);
        out := Append(head, tail);
    }

    /** A statement between braces. */
    method Braced(s: Stmt) returns (ok: bool, out: Stmt)
      requires Valid()
      modifies lines
      ensures ok <==> FitsItem(s, numLines)
      ensures ok ==> out == Block(Instrument(s, false, directives[..]))
      ensures ok ==> Marks(lines[..], old(lines[..]), OfStmt(out))
      decreases s, 4
    {
      var list;
      ok, list := Statement(s, false);
      out := Block(list);
    }

    method Optional(e: Option<Expr>) returns (ok: bool, out: Option<Expr>)
      requires Valid()
      modifies lines
      ensures ok <==> FitsOption(e, numLines)
      ensures ok ==> out == InstrumentOption(e, directives[..])
      ensures ok ==> Marks(lines[..], old(lines[..]), OfOption(out))
      decreases e, 0
    {
      match e
      case None =>
        return true, None;
      case Some(e') =>
        var r;
        ok, r := Expression(e');
        out := Some(r);
    }

    /** output_expression: only the functions in it are changed. */
    method Expression(e: Expr) returns (ok: bool, out: Expr)
      requires Valid()
      modifies lines
      ensures ok <==> FitsExpr(e, numLines)
      ensures ok ==> out == InstrumentExpr(e, directives[..])
      ensures ok ==> Marks(lines[..], old(lines[..]), OfExpr(out))
      decreases e, 0
    {
      match e
      case Op(op, kids) =>
        var r;
        ok, r := Expressions(kids);
        out := Op(op, r);
      case Function(id, body) =>
        var r;
        ok, r := FunctionBody(body);
        out := Function(id, r);
    }

    method Expressions(es: Exprs) returns (ok: bool, out: Exprs)
      requires Valid()
      modifies lines
      ensures ok <==> FitsExprs(es, numLines)
      ensures ok ==> out == InstrumentExprs(es, directives[..])
      ensures ok ==> Marks(lines[..], old(lines[..]), OfExprs(out))
      decreases es, 0
    {
      match es
      case ENil =>
        return true, ENil;
      case ECons(e, rest) =>
        var head, tail;
        ok, head := Expression(e);
        if !ok {
          return false, ENil;
        }
        ok, tail := Expressions(rest);
        out := ECons(head, tail);
    }

    /** instrument_function, as far as the body goes. */
    method FunctionBody(b: Body) returns (ok: bool, out: Body)
      requires Valid()
      modifies lines
      ensures ok <==> FitsBody(b, numLines)
      ensures ok ==> out == InstrumentBody(b, directives[..])
      ensures ok ==> Marks(lines[..], old(lines[..]), OfBody(out))
      decreases b, 0
    {
      match b
      case Statements(list) =>
        var r;
        ok, r := List(list);
        out := Statements(r);
      case Closure(line, e) =>
        var r;
        ok, r := Expression(e);
        OfOne(Return(line, Some(r)));
        out := Statements(One(Return(line, Some(r))));
    }

    method SwitchCases(cases: Cases) returns (ok: bool, out: Cases)
      requires Valid()
      modifies lines
      ensures ok <==> FitsCases(cases, numLines)
      ensures ok ==> out == InstrumentCases(cases, directives[..])
      ensures ok ==> Marks(lines[..], old(lines[..]), OfCases(out))
      decreases cases, 0
    {
      match cases
      case NoCase =>
        return true, NoCase;
      case Case(test, body, more) =>
        var test', body', more';
        ok, test' := Optional(test);
        if ok {
          ok, body' := List(body);
        }
        if !ok {
          return false, NoCase;
        }
        ok, more' := SwitchCases(more);
        out := Case(test', body', more');
    }

    method CatchClauses(catches: Catches) returns (ok: bool, out: Catches)
      requires Valid()
      modifies lines
      ensures ok <==> FitsCatches(catches, numLines)
      ensures ok ==> out == InstrumentCatches(catches, directives[..])
      ensures ok ==> Marks(lines[..], old(lines[..]), OfCatches(out))
      decreases catches, 0
    {
      match catches
      case NoCatch =>
        return true, NoCatch;
      case Catch(target, guard, body, more) =>
        var target', guard', body', more';
        ok, target' := Expression(target);
        if !ok {
          return false, NoCatch;
        }
        ok, guard' := Optional(guard);
        if !ok {
          return false, NoCatch;
        }
        ok, body' := Braced(body);
        if !ok {
          return false, NoCatch;
        }
        ok, more' := CatchClauses(more);
        out := Catch(target', guard', body', more');
    }

    /** output_statement. */
    method OutputStatement(s: Stmt, inherit: bool) returns (ok: bool, out: Stmts)
      requires Valid() && (inherit && s.If? ==> s.line <= numLines)
      modifies lines
      ensures ok <==> FitsStmt(s, numLines)
      ensures ok ==> out == Output(s, inherit, directives[..])
      ensures ok ==> Marks(lines[..], old(lines[..]), OfList(out))
      decreases s, 2
    {
      match s {
        case Block(list) => ok, out := List(list);
        case Seq(_, list) => ok, out := List(list);
        case Labelled(line, name, body) => ok, out := LabelledStatement(s);
        case Count(_) => return false, SNil;
        case SetConditional(_, _) => return false, SNil;
        case If(_, _, _, _, _, _) =>
          var r;
          ok, r := IfStatement(s, inherit);
          OfOne(r);
          out := One(r);
        case _ =>
          var r;
          ok, r := OneStatement(s);
          OfOne(r);
          out := One(r);
      }
    }

    /** A labelled statement: no counter comes between the label and what it labels, a block gets braces. */
    method LabelledStatement(s: Stmt) returns (ok: bool, out: Stmts)
      requires Valid() && s.Labelled?
      modifies lines
      ensures ok <==> FitsStmt(s, numLines)
      ensures ok ==> out == Output(s, false, directives[..])
      ensures ok ==> Marks(lines[..], old(lines[..]), OfList(out))
      decreases s, 0
    {
      var list;
      if s.body.Block? {
        ok, list := List(s.body.list);
        out := One(Labelled(s.line, s.name, Block(list)));
        OfOne(Labelled(s.line, s.name, Block(list)));
      } else {
        ok, list := OutputStatement(s.body, false);
        OfPrefix(s.line, s.name, list);
        out := Prefix(s.line, s.name, list);
      }
    }

    /** TOK_IF: which branches note that lines of the other branch were not executed. */
    method IfStatement(s: Stmt, inherit: bool) returns (ok: bool, out: Stmt)
      requires Valid() && s.If? && (inherit ==> s.line <= numLines)
      modifies lines
      ensures ok <==> FitsStmt(s, numLines)
      ensures ok ==> One(out) == Output(s, inherit, directives[..])
      ensures ok ==> Marks(lines[..], old(lines[..]), OfStmt(out))
      decreases s, 0
    {
      var mark := inherit;
      if !mark {
        if s.line > numLines {
          return false, s;
        }
        if s.line >= 2 && directives[s.line - 2] {
          mark := true;
        }
      }
      var cond, yes;
      ok, cond := Expression(s.cond);
      if !ok {
        return false, s;
      }
      ok, yes := Statement(s.yes, false);
      if !ok {
        return false, s;
      }
      OfMarked(mark && s.no.Some?, s.noAt.begin, s.noAt.end + 1, yes);
      yes := Marked(mark && s.no.Some?, s.noAt.begin, s.noAt.end + 1, yes);
      var no := None;
      if s.no.Some? {
        var list;
        ok, list := Statement(s.no.value, mark);
        if !ok {
          return false, s;
        }
        OfMarked(mark, s.yesAt.begin + 1, s.yesAt.end + 1, list);
        no := Some(Block(Marked(mark, s.yesAt.begin + 1, s.yesAt.end + 1, list)));
      } else if mark {
        OfMarked(true, s.yesAt.begin + 1, s.yesAt.end + 1, SNil);
        no := Some(Block(One(SetConditional(s.yesAt.begin + 1, s.yesAt.end + 1))));
      }
      out := If(s.line, cond, Block(yes), s.yesAt, no, s.noAt);
    }

    /** The other kinds of statement. */
    method OneStatement(s: Stmt) returns (ok: bool, out: Stmt)
      requires Valid() && !s.Block? && !s.Seq? && !s.Labelled? && !s.If? && !s.Count? && !s.SetConditional?
      modifies lines
      ensures ok <==> FitsStmt(s, numLines)
      ensures ok ==> One(out) == Output(s, false, directives[..])
      ensures ok ==> Marks(lines[..], old(lines[..]), OfStmt(out))
      decreases s, 1
    {
      out := s;
      match s {
        case Scope(list) =>
          var r;
          ok, r := List(list);
          out := Scope(r);
        case Declare(line, id, code) =>
          var r;
          ok, r := FunctionBody(code);
          out := Declare(line, id, r);
        case Simple(line, e) =>
          var r;
          ok, r := Optional(e);
          out := Simple(line, r);
        case Throw(line, e) =>
          var r;
          ok, r := Expression(e);
          out := Throw(line, r);
        case Return(line, e) =>
          var r;
          ok, r := Optional(e);
          out := Return(line, r);
        case Break(_, _) => ok := true;
        case Continue(_, _) => ok := true;
        case Switch(line, subject, cases) =>
          var r, c;
          ok, r := Expression(subject);
          if ok {
            ok, c := SwitchCases(cases);
            out := Switch(line, r, c);
          }
        case With(line, subject, body) =>
          var r, b;
          ok, r := Expression(subject);
          if ok {
            ok, b := Braced(body);
            out := With(line, r, b);
          }
        case Try(_, _, _, _) => ok, out := TryStatement(s);
        case While(_, _, _) => ok, out := LoopStatement(s);
        case DoWhile(_, _, _) => ok, out := LoopStatement(s);
        case For(_, _, _, _, _) => ok, out := ForStatement(s);
        case ForIn(_, _, _, _) => ok, out := LoopStatement(s);
      }
    }

    method TryStatement(s: Stmt) returns (ok: bool, out: Stmt)
      requires Valid() && s.Try?
      modifies lines
      ensures ok <==> FitsStmt(s, numLines)
      ensures ok ==> One(out) == Output(s, false, directives[..])
      ensures ok ==> Marks(lines[..], old(lines[..]), OfStmt(out))
      decreases s, 0
    {
      var block, catches;
      ok, block := Braced(s.block);
      if !ok {
        return false, s;
      }
      ok, catches := CatchClauses(s.catches);
      if !ok {
        return false, s;
      }
      var last := None;
      if s.last.Some? {
        var r;
        ok, r := Braced(s.last.value);
        last := Some(r);
      }
      out := Try(s.line, block, catches, last);
    }

    method LoopStatement(s: Stmt) returns (ok: bool, out: Stmt)
      requires Valid() && (s.While? || s.DoWhile? || s.ForIn?)
      modifies lines
      ensures ok <==> FitsStmt(s, numLines)
      ensures ok ==> One(out) == Output(s, false, directives[..])
      ensures ok ==> Marks(lines[..], old(lines[..]), OfStmt(out))
      decreases s, 0
    {
      out := s;
      var body;
      match s {
        case While(line, cond, _) =>
          var c;
          ok, c := Expression(cond);
          if ok {
            ok, body := Braced(s.body);
            out := While(line, c, body);
          }
        case DoWhile(line, _, cond) =>
          var c;
          ok, body := Braced(s.body);
          if ok {
            ok, c := Expression(cond);
            out := DoWhile(line, body, c);
          }
        case ForIn(line, target, subject, _) =>
          var t, u;
          ok, t := Expression(target);
          if ok {
            ok, u := Expression(subject);
          }
          if ok {
            ok, body := Braced(s.body);
            out := ForIn(line, t, u, body);
          }
      }
    }

    method ForStatement(s: Stmt) returns (ok: bool, out: Stmt)
      requires Valid() && s.For?
      modifies lines
      ensures ok <==> FitsStmt(s, numLines)
      ensures ok ==> One(out) == Output(s, false, directives[..])
      ensures ok ==> Marks(lines[..], old(lines[..]), OfStmt(out))
      decreases s, 0
    {
      out := s;
      var i, t, u, body;
      ok, i := Optional(s.init);
      if ok {
        ok, t := Optional(s.test);
      }
      if ok {
        ok, u := Optional(s.step);
      }
      if ok {
        ok, body := Braced(s.body);
        out := For(s.line, i, t, u, body);
      }
    }
  }
}
