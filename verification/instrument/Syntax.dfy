/**
 * JavaScript parse trees, as far as the instrumenter tells their nodes apart. The output of the
 * instrumenter is described by trees as well; two kinds of statement occur only there.
 */
module Syntax {
  import opened Options

  type Name = string

  /** Lines on which a node begins and ends. */
  datatype Span = Span(begin: nat, end: nat)

  /** Operators, names and literals, and function expressions. Each function has a number of its own. */
  datatype Expr =
    | Op(op: string, kids: Exprs)
    | Function(id: nat, body: Body)

  datatype Exprs = ENil | ECons(head: Expr, tail: Exprs)

  /** Statements between braces, or the single expression of an expression closure. */
  datatype Body = Statements(list: Stmts) | Closure(line: nat, result: Expr)

  datatype Stmt =
    | Block(list: Stmts)                                        // TOK_LC
    | Scope(list: Stmts)                                        // TOK_LEXICALSCOPE around a TOK_LC
    | Seq(line: nat, list: Stmts)                               // TOK_SEQ
    | Declare(line: nat, id: nat, code: Body)                   // TOK_FUNCTION
    | Simple(line: nat, e: Option<Expr>)                        // TOK_SEMI, TOK_VAR, TOK_DEBUGGER
    | If(line: nat, cond: Expr, yes: Stmt, yesAt: Span, no: Option<Stmt>, noAt: Span)
    | Switch(line: nat, subject: Expr, cases: Cases)
    | While(line: nat, cond: Expr, body: Stmt)
    | DoWhile(line: nat, body: Stmt, cond: Expr)
    | For(line: nat, init: Option<Expr>, test: Option<Expr>, step: Option<Expr>, body: Stmt)
    | ForIn(line: nat, target: Expr, subject: Expr, body: Stmt)
    | Throw(line: nat, value: Expr)
    | Try(line: nat, block: Stmt, catches: Catches, last: Option<Stmt>)
    | Break(line: nat, jump: Option<Name>)
    | Continue(line: nat, jump: Option<Name>)
    | With(line: nat, subject: Expr, body: Stmt)
    | Return(line: nat, e: Option<Expr>)
    | Labelled(line: nat, name: Name, body: Stmt)               // TOK_COLON
    | Count(counter: nat)                                       // _$jscoverage[file][counter]++
    | SetConditional(first: nat, end: nat)                      // _$jscoverage[file].conditionals[first] = last

  datatype Stmts = SNil | SCons(head: Stmt, tail: Stmts)

  /** A case without a test is the default. */
  datatype Cases = NoCase | Case(test: Option<Expr>, body: Stmts, more: Cases)

  datatype Catches = NoCatch | Catch(target: Expr, guard: Option<Expr>, body: Stmt, more: Catches)

  function Append(a: Stmts, b: Stmts): Stmts
  {
    match a
    case SNil => b
    case SCons(s, rest) => SCons(s, Append(rest, b))
  }

  lemma {:induction false} AppendNil(a: Stmts)
    ensures Append(a, SNil) == a
  {
    if a.SCons? {
      AppendNil(a.tail);
    }
  }

  /** The line by which instrument_statement counts a statement; blocks are not counted. */
  function LineOf(s: Stmt): nat
  {
    match s
    case Block(_) => 0
    case Scope(_) => 0
    case Count(_) => 0
    case SetConditional(_, _) => 0
    case _ => s.line
  }

  /** instrument_statement counts a statement if it is no block and its line is not 0. */
  predicate Counted(s: Stmt)
  {
    LineOf(s) != 0
  }
}
