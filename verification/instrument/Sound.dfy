/** Programs that mean the same when they are instrumented. */
module Sound {
  import opened Options
  import opened Syntax
  import opened Instrumentation
  import opened Collected

  // A program is sound for a set of lines if all its counted statements are on these lines, no
  // label directly before a for-in loop with an initialiser is jumped to, and no function is
  // declared in a block that is directly in a function body or program.

  /** A statement that is written as one statement. */
  predicate Single(s: Stmt)
  {
    match s
    case Block(_) => false
    case Seq(_, _) => false
    case Labelled(_, _, body) => body.Block? || Single(body)
    case _ => true
  }

  lemma {:induction false} SingleOutput(s: Stmt, inherit: bool, ds: seq<bool>)
    requires Single(s)
    ensures Output(s, inherit, ds).SCons? && Output(s, inherit, ds).tail == SNil
  {
    if s.Labelled? && !s.body.Block? {
      SingleOutput(s.body, false, ds);
    }
  }

  /** A for-in loop with an initialiser, as the parser makes it of a declaration and the loop, and labels before it. */
  predicate Initialised(s: Stmt)
  {
    match s
    case Seq(_, list) =>
      list.SCons? && list.head.Simple? && list.tail.SCons? && list.tail.head.ForIn? && list.tail.tail.SNil?
    case Labelled(_, _, body) => Initialised(body)
    case _ => false
  }

  lemma {:induction false} InitialisedIsNotSingle(s: Stmt)
    requires Initialised(s)
    ensures !Single(s) && !s.Block?
  {
    if s.Labelled? {
      InitialisedIsNotSingle(s.body);
    }
  }

  // ----- Jumps to a label, outside of the functions in a statement -----

  predicate JumpsTo(s: Stmt, l: Name)
  {
    match s
    case Block(list) => ListJumpsTo(list, l)
    case Seq(_, list) => ListJumpsTo(list, l)
    case Scope(list) => ListJumpsTo(list, l)
    case If(_, _, yes, _, no, _) => JumpsTo(yes, l) || (no.Some? && JumpsTo(no.value, l))
    case Switch(_, _, cases) => CasesJumpTo(cases, l)
    case While(_, _, body) => JumpsTo(body, l)
    case DoWhile(_, body, _) => JumpsTo(body, l)
    case For(_, _, _, _, body) => JumpsTo(body, l)
    case ForIn(_, _, _, body) => JumpsTo(body, l)
    case Try(_, block, catches, last) =>
      JumpsTo(block, l) || CatchesJumpTo(catches, l) || (last.Some? && JumpsTo(last.value, l))
    case Break(_, jump) => jump == Some(l)
    case Continue(_, jump) => jump == Some(l)
    case With(_, _, body) => JumpsTo(body, l)
    case Labelled(_, _, body) => JumpsTo(body, l)
    case _ => false
  }

  predicate ListJumpsTo(list: Stmts, l: Name)
  {
    match list
    case SNil => false
    case SCons(s, rest) => JumpsTo(s, l) || ListJumpsTo(rest, l)
  }

  predicate CasesJumpTo(cases: Cases, l: Name)
  {
    match cases
    case NoCase => false
    case Case(_, body, more) => ListJumpsTo(body, l) || CasesJumpTo(more, l)
  }

  predicate CatchesJumpTo(catches: Catches, l: Name)
  {
    match catches
    case NoCatch => false
    case Catch(_, _, body, more) => JumpsTo(body, l) || CatchesJumpTo(more, l)
  }

  // ----- Sound programs -----

  /** No function declaration comes to stand in the enclosing list when this statement is written. */
  predicate Undeclaring(s: Stmt)
  {
    match s
    case Declare(_, _, _) => false
    case Block(list) => NoneDeclared(list)
    case Seq(_, list) => NoneDeclared(list)
    case Labelled(_, _, _) => Single(s) || Initialised(s)
    case _ => true
  }

  predicate NoneDeclared(list: Stmts)
  {
    match list
    case SNil => true
    case SCons(s, rest) => Undeclaring(s) && NoneDeclared(rest)
  }

  predicate OnlyDirect(list: Stmts)
  {
    match list
    case SNil => true
    case SCons(s, rest) => (s.Declare? || Undeclaring(s)) && OnlyDirect(rest)
  }

  predicate SoundItem(s: Stmt, lines: set<nat>)
    decreases s, 1
  {
    (Counted(s) ==> LineOf(s) in lines) && SoundStmt(s, lines)
  }

  predicate SoundStmt(s: Stmt, lines: set<nat>)
    decreases s, 0
  {
    match s
    case Block(list) => SoundList(list, lines)
    case Seq(_, list) => SoundList(list, lines)
    case Scope(list) => SoundList(list, lines)
    case Declare(_, _, code) => SoundBody(code, lines)
    case Simple(_, e) => SoundOption(e, lines)
    case If(_, cond, yes, _, no, _) =>
      SoundExpr(cond, lines) && SoundItem(yes, lines) && (no.Some? ==> SoundItem(no.value, lines))
    case Switch(_, subject, cases) => SoundExpr(subject, lines) && SoundCases(cases, lines)
    case While(_, cond, body) => SoundExpr(cond, lines) && SoundItem(body, lines)
    case DoWhile(_, body, cond) => SoundExpr(cond, lines) && SoundItem(body, lines)
    case For(_, init, test, step, body) =>
      SoundOption(init, lines) && SoundOption(test, lines) && SoundOption(step, lines) && SoundItem(body, lines)
    case ForIn(_, target, subject, body) =>
      SoundExpr(target, lines) && SoundExpr(subject, lines) && SoundItem(body, lines)
    case Throw(_, e) => SoundExpr(e, lines)
    case Try(_, block, catches, last) =>
      SoundItem(block, lines) && SoundCatches(catches, lines) && (last.Some? ==> SoundItem(last.value, lines))
    case Break(_, _) => true
    case Continue(_, _) => true
    case With(_, subject, body) => SoundExpr(subject, lines) && SoundItem(body, lines)
    case Return(_, e) => SoundOption(e, lines)
    case Labelled(_, l, body) =>
      (body.Block? || Single(body) || (Initialised(body) && !JumpsTo(body, l))) && SoundStmt(body, lines)
    case Count(_) => false
    case SetConditional(_, _) => false
  }

  predicate SoundList(list: Stmts, lines: set<nat>)
  {
    match list
    case SNil => true
    case SCons(s, rest) => SoundItem(s, lines) && SoundList(rest, lines)
  }

  predicate SoundExpr(e: Expr, lines: set<nat>)
  {
    match e
    case Op(_, kids) => SoundExprs(kids, lines)
    case Function(_, body) => SoundBody(body, lines)
  }

  predicate SoundExprs(es: Exprs, lines: set<nat>)
  {
    match es
    case ENil => true
    case ECons(e, rest) => SoundExpr(e, lines) && SoundExprs(rest, lines)
  }

  predicate SoundOption(e: Option<Expr>, lines: set<nat>)
  {
    e.Some? ==> SoundExpr(e.value, lines)
  }

  predicate SoundBody(b: Body, lines: set<nat>)
  {
    match b
    case Statements(list) => OnlyDirect(list) && SoundList(list, lines)
    case Closure(_, e) => SoundExpr(e, lines)
  }

  predicate SoundCases(cases: Cases, lines: set<nat>)
  {
    match cases
    case NoCase => true
    case Case(test, body, more) => SoundOption(test, lines) && SoundList(body, lines) && SoundCases(more, lines)
  }

  predicate SoundCatches(catches: Catches, lines: set<nat>)
  {
    match catches
    case NoCatch => true
    case Catch(target, guard, body, more) =>
      SoundExpr(target, lines) && SoundOption(guard, lines) && SoundItem(body, lines) && SoundCatches(more, lines)
  }

  predicate AllSound(code: map<nat, Body>, lines: set<nat>)
  {
    forall id :: id in code ==> SoundBody(code[id], lines)
  }

  // ----- All functions in a sound tree are sound -----

  lemma {:induction false} ExprSound(e: Expr, lines: set<nat>)
    requires SoundExpr(e, lines)
    ensures AllSound(InExpr(e), lines)
  {
    match e
    case Op(_, kids) => ExprsSound(kids, lines);
    case Function(_, body) => BodySound(body, lines);
  }

  lemma {:induction false} ExprsSound(es: Exprs, lines: set<nat>)
    requires SoundExprs(es, lines)
    ensures AllSound(InExprs(es), lines)
  {
    match es
    case ENil =>
    case ECons(e, rest) => ExprSound(e, lines); ExprsSound(rest, lines);
  }

  lemma {:induction false} OptionSound(e: Option<Expr>, lines: set<nat>)
    requires SoundOption(e, lines)
    ensures AllSound(InOption(e), lines)
  {
    match e
    case None =>
    case Some(e') => ExprSound(e', lines);
  }

  lemma {:induction false} BodySound(b: Body, lines: set<nat>)
    requires SoundBody(b, lines)
    ensures AllSound(InBody(b), lines)
  {
    match b
    case Statements(list) => ListSound(list, lines);
    case Closure(_, e) => ExprSound(e, lines);
  }

  lemma {:induction false} ListSound(list: Stmts, lines: set<nat>)
    requires SoundList(list, lines)
    ensures AllSound(InList(list), lines)
  {
    match list
    case SNil =>
    case SCons(s, rest) => StmtSound(s, lines); ListSound(rest, lines);
  }

  lemma {:induction false} StmtSound(s: Stmt, lines: set<nat>)
    requires SoundStmt(s, lines)
    ensures AllSound(InStmt(s), lines)
  {
    match s
    case Block(list) => ListSound(list, lines);
    case Seq(_, list) => ListSound(list, lines);
    case Scope(list) => ListSound(list, lines);
    case Declare(_, _, code) => BodySound(code, lines);
    case Simple(_, e) => OptionSound(e, lines);
    case If(_, cond, yes, _, no, _) =>
      ExprSound(cond, lines);
      StmtSound(yes, lines);
      if no.Some? {
        StmtSound(no.value, lines);
      }
    case Switch(_, subject, cases) => ExprSound(subject, lines); CasesSound(cases, lines);
    case While(_, cond, body) => ExprSound(cond, lines); StmtSound(body, lines);
    case DoWhile(_, body, cond) => ExprSound(cond, lines); StmtSound(body, lines);
    case For(_, init, test, step, body) =>
      OptionSound(init, lines);
      OptionSound(test, lines);
      OptionSound(step, lines);
      StmtSound(body, lines);
    case ForIn(_, target, subject, body) =>
      ExprSound(target, lines);
      ExprSound(subject, lines);
      StmtSound(body, lines);
    case Throw(_, e) => ExprSound(e, lines);
    case Try(_, block, catches, last) =>
      StmtSound(block, lines);
      CatchesSound(catches, lines);
      if last.Some? {
        StmtSound(last.value, lines);
      }
    case Break(_, _) =>
    case Continue(_, _) =>
    case With(_, subject, body) => ExprSound(subject, lines); StmtSound(body, lines);
    case Return(_, e) => OptionSound(e, lines);
    case Labelled(_, _, body) => StmtSound(body, lines);
    case Count(_) =>
    case SetConditional(_, _) =>
  }

  lemma {:induction false} CasesSound(cases: Cases, lines: set<nat>)
    requires SoundCases(cases, lines)
    ensures AllSound(InCases(cases), lines)
  {
    match cases
    case NoCase =>
    case Case(test, body, more) => OptionSound(test, lines); ListSound(body, lines); CasesSound(more, lines);
  }

  lemma {:induction false} CatchesSound(catches: Catches, lines: set<nat>)
    requires SoundCatches(catches, lines)
    ensures AllSound(InCatches(catches), lines)
  {
    match catches
    case NoCatch =>
    case Catch(target, guard, body, more) =>
      ExprSound(target, lines);
      OptionSound(guard, lines);
      StmtSound(body, lines);
      CatchesSound(more, lines);
  }
}
