/** The instrumented program does what the original does, and its counters count what is entered. */
module Preservation {
  import opened Options
  import opened Syntax
  import opened Semantics
  import opened Instrumentation
  import opened Collected
  import opened Sound
  import opened Jumps

  /**
   * The worlds of the original and of the instrumented program: equal stores, and each counter
   * shows how often a counted statement on its line has been entered.
   */
  ghost predicate Related<S>(lines: set<nat>, w1: World<S>, w2: World<S>)
  {
    && w1.store == w2.store
    && (forall n :: n in w1.log ==> n in lines)
    && w2.counts.Keys == lines
    && forall n :: n in lines ==> w2.counts[n] == Num(multiset(w1.log)[n])
  }

  ghost predicate Alike<S, R>(lines: set<nat>, p: (R, World<S>), q: (R, World<S>))
  {
    p.0 == q.0 && Related(lines, p.1, q.1)
  }

  /** The two programs: c2 is c1 with all functions instrumented. */
  datatype Pair<!S, !V> = Pair(c1: Config<S, V>, c2: Config<S, V>, lines: set<nat>, ds: seq<bool>)
  {
    ghost predicate Good()
    {
      c1.m == c2.m && c2.code == InstrumentAll(c1.code, ds) && AllSound(c1.code, lines)
    }
  }

  // ----- Steps of the instrumented program -----

  lemma CountStep<S>(lines: set<nat>, w1: World<S>, w2: World<S>, s: Stmt)
    requires Related(lines, w1, w2) && Counted(s) && LineOf(s) in lines
    ensures Related(lines, Logged(w1, s), Bump(w2, LineOf(s)))
  {
    var l := LineOf(s);
    assert multiset(w1.log + [l]) == multiset(w1.log) + multiset{l};
  }

  lemma LoggedStep<S>(lines: set<nat>, w1: World<S>, w2: World<S>, s: Stmt)
    requires Related(lines, w1, w2)
    ensures Related(lines, w1, Logged(w2, s))
  {
  }

  /** A list of one statement. */
  lemma OneItem<S, V>(c: Config<S, V>, fuel: nat, s: Stmt, top: bool, w: World<S>)
    ensures Items(c, fuel, One(s), top, w) == Exec(c, fuel, s, {}, top, Logged(w, s))
  {
  }

  lemma {:induction false} ItemsAppend<S, V>(c: Config<S, V>, fuel: nat, a: Stmts, b: Stmts, top: bool, w: World<S>)
    ensures Items(c, fuel, Append(a, b), top, w)
         == var (k, w1) := Items(c, fuel, a, top, w);
            if k.Normal? then Items(c, fuel, b, top, w1) else (k, w1)
  {
    match a
    case SNil =>
    case SCons(s, rest) =>
      var (k, w1) := Item<S, V>(c, fuel, s, top, w);
      if k.Normal? {
        ItemsAppend(c, fuel, rest, b, top, w1);
      }
  }

  // ----- Hoisting -----

  lemma {:induction false} HoistedAppend(a: Stmts, b: Stmts)
    ensures Hoisted(Append(a, b)) == Hoisted(a) + Hoisted(b)
  {
    match a
    case SNil =>
    case SCons(s, rest) => HoistedAppend(rest, b);
  }

  /** What a statement without declarations turns into has none either. */
  lemma {:induction false} NothingHoisted(s: Stmt, inherit: bool, ds: seq<bool>)
    requires Undeclaring(s)
    ensures Hoisted(Instrument(s, inherit, ds)) == Hoisted(Output(s, inherit, ds)) == []
    decreases s
  {
    match s
    case Block(list) => NothingHoistedList(list, ds);
    case Seq(_, list) => NothingHoistedList(list, ds);
    case Labelled(_, _, body) =>
      if Single(s) {
        SingleOutput(s, inherit, ds);
      } else {
        InitialisedIsUndeclaring(body);
        NothingHoisted(body, false, ds);
      }
    case _ => SingleOutput(s, inherit, ds);
  }

  lemma InitialisedIsUndeclaring(s: Stmt)
    requires Initialised(s)
    ensures Undeclaring(s)
  {
    if s.Seq? {
      assert NoneDeclared(s.list.tail.tail) && NoneDeclared(s.list.tail);
    }
  }

  lemma {:induction false} NothingHoistedList(list: Stmts, ds: seq<bool>)
    requires NoneDeclared(list)
    ensures Hoisted(InstrumentList(list, ds)) == []
  {
    match list
    case SNil =>
    case SCons(s, rest) =>
      NothingHoisted(s, false, ds);
      NothingHoistedList(rest, ds);
      HoistedAppend(Instrument(s, false, ds), InstrumentList(rest, ds));
  }

  /** The functions hoisted from a body are the same, in the same order. */
  lemma {:induction false} SameHoisted(list: Stmts, ds: seq<bool>)
    requires OnlyDirect(list)
    ensures Hoisted(InstrumentList(list, ds)) == Hoisted(list)
  {
    match list
    case SNil =>
    case SCons(s, rest) =>
      SameHoisted(rest, ds);
      HoistedAppend(Instrument(s, false, ds), InstrumentList(rest, ds));
      if s.Declare? {
        assert Hoisted(Output(s, false, ds)) == [s.id] + Hoisted(SNil);
      } else {
        NothingHoisted(s, false, ds);
      }
  }

  /** Without declarations it does not matter whether a list is that of a body. */
  lemma {:induction false} TopIrrelevant<S, V>(c: Config<S, V>, fuel: nat, list: Stmts, w: World<S>)
    requires Hoisted(list) == []
    ensures Items(c, fuel, list, true, w) == Items(c, fuel, list, false, w)
  {
    match list
    case SNil =>
    case SCons(s, rest) =>
      assert !s.Declare?;
      var (k, w1) := Item<S, V>(c, fuel, s, true, w);
      assert Exec<S, V>(c, fuel, s, {}, true, Logged(w, s)) == Exec<S, V>(c, fuel, s, {}, false, Logged(w, s));
      if k.Normal? {
        TopIrrelevant(c, fuel, rest, w1);
      }
  }

  // ----- Expressions -----

  lemma {:induction false} SimEval<S, V>(x: Pair<S, V>, fuel: nat, e: Expr, w1: World<S>, w2: World<S>)
    requires x.Good() && SoundExpr(e, x.lines) && Related(x.lines, w1, w2)
    ensures Alike(x.lines, Eval(x.c1, fuel, e, w1), Eval(x.c2, fuel, InstrumentExpr(e, x.ds), w2))
    decreases fuel, e, 1
  {
    match e
    case Op(op, kids) => SimOperate(x, fuel, op, kids, [], w1, w2);
    case Function(_, _) =>
  }

  lemma {:induction false} SimOperate<S, V>(x: Pair<S, V>, fuel: nat, op: string, kids: Exprs, h: seq<V>,
      w1: World<S>, w2: World<S>)
    requires x.Good() && SoundExprs(kids, x.lines) && Related(x.lines, w1, w2)
    ensures Alike(x.lines, Operate(x.c1, fuel, op, kids, h, w1), Operate(x.c2, fuel, op, InstrumentExprs(kids, x.ds), h, w2))
    decreases fuel, kids, 1
  {
    if fuel > 0 {
      match x.c1.m.step(op, h, w1.store)
      case Done(_, _) =>
      case Fail(_, _) =>
      case Kid(i, s) =>
        SimKid(x, fuel, kids, i, Set(w1, s), Set(w2, s));
        var (r, v1) := EvalKid(x.c1, fuel, kids, i, Set(w1, s));
        var (_, v2) := EvalKid(x.c2, fuel, InstrumentExprs(kids, x.ds), i, Set(w2, s));
        if r.Value? {
          SimOperate(x, fuel - 1, op, kids, h + [r.v], v1, v2);
        }
      case Enter(id, s) =>
        SimCall(x, fuel - 1, id, Set(w1, s), Set(w2, s));
        var (r, v1) := Call(x.c1, fuel - 1, id, Set(w1, s));
        var (_, v2) := Call(x.c2, fuel - 1, id, Set(w2, s));
        if r.Value? {
          SimOperate(x, fuel - 1, op, kids, h + [r.v], v1, v2);
        }
    }
  }

  lemma {:induction false} SimKid<S, V>(x: Pair<S, V>, fuel: nat, kids: Exprs, i: nat, w1: World<S>, w2: World<S>)
    requires x.Good() && SoundExprs(kids, x.lines) && Related(x.lines, w1, w2)
    ensures Alike(x.lines, EvalKid(x.c1, fuel, kids, i, w1), EvalKid(x.c2, fuel, InstrumentExprs(kids, x.ds), i, w2))
    decreases fuel, kids, 0
  {
    match kids
    case ENil =>
    case ECons(e, rest) =>
      if i == 0 {
        SimEval(x, fuel, e, w1, w2);
      } else {
        SimKid(x, fuel, rest, i - 1, w1, w2);
      }
  }

  lemma {:induction false} SimOption<S, V>(x: Pair<S, V>, fuel: nat, e: Option<Expr>, w1: World<S>, w2: World<S>)
    requires x.Good() && SoundOption(e, x.lines) && Related(x.lines, w1, w2)
    ensures Alike(x.lines, EvalOption(x.c1, fuel, e, w1), EvalOption(x.c2, fuel, InstrumentOption(e, x.ds), w2))
    decreases fuel, e, 0
  {
    match e
    case None =>
    case Some(e') => SimEval(x, fuel, e', w1, w2);
  }

  lemma {:induction false} SimAssign<S, V>(x: Pair<S, V>, fuel: nat, e: Expr, v: V, w1: World<S>, w2: World<S>)
    requires x.Good() && SoundExpr(e, x.lines) && Related(x.lines, w1, w2)
    ensures Alike(x.lines, Assign(x.c1, fuel, e, v, w1), Assign(x.c2, fuel, InstrumentExpr(e, x.ds), v, w2))
    decreases fuel, e, 1
  {
    match e
    case Op(op, kids) => SimOperate(x, fuel, op, kids, [v], w1, w2);
    case Function(_, _) =>
  }

  lemma {:induction false} SimCall<S, V>(x: Pair<S, V>, fuel: nat, id: nat, w1: World<S>, w2: World<S>)
    requires x.Good() && Related(x.lines, w1, w2)
    ensures Alike(x.lines, Call(x.c1, fuel, id, w1), Call(x.c2, fuel, id, w2))
    decreases fuel, 0, 0
  {
    hide Run;
    if fuel > 0 && id in x.c1.code {
      SimRun(x, fuel - 1, x.c1.code[id], w1, w2);
      SameCode(x, id);
    }
  }

  lemma SameCode<S, V>(x: Pair<S, V>, id: nat)
    requires x.Good() && id in x.c1.code
    ensures id in x.c2.code && x.c2.code[id] == InstrumentBody(x.c1.code[id], x.ds)
  {
  }

  lemma {:induction false} SimRun<S, V>(x: Pair<S, V>, fuel: nat, b: Body, w1: World<S>, w2: World<S>)
    requires x.Good() && SoundBody(b, x.lines) && Related(x.lines, w1, w2)
    ensures Alike(x.lines, Run(x.c1, fuel, b, w1), Run(x.c2, fuel, InstrumentBody(b, x.ds), w2))
    decreases fuel, b, 0
  {
    match b
    case Statements(list) =>
      SameHoisted(list, x.ds);
      var s := DeclareAll(x.c1, Hoisted(list), w1.store);
      SameDeclared(x, Hoisted(list), w1.store);
      SimItems(x, fuel, list, true, Set(w1, s), Set(w2, s));
    case Closure(line, e) =>
      var t := Return(line, Some(InstrumentExpr(e, x.ds)));
      LoggedStep(x.lines, w1, w2, t);
      SimEval(x, fuel, e, w1, Logged(w2, t));
      RunReturn(x.c2, fuel, line, InstrumentExpr(e, x.ds), w2);
  }

  /** An expression closure written as a function. */
  lemma RunReturn<S, V>(c: Config<S, V>, fuel: nat, line: nat, e: Expr, w: World<S>)
    ensures Run(c, fuel, Statements(One(Return(line, Some(e)))), w)
         == var (r, w1) := Eval(c, fuel, e, Logged(w, Return(line, Some(e))));
            (if r.Value? then Returned(r.v) else Abrupt(r), w1)
  {
    var t := Return(line, Some(e));
    assert Hoisted(One(t)) == [];
    assert Set(w, w.store) == w;
    OneItem(c, fuel, t, true, w);
    assert EvalOption(c, fuel, Some(e), Logged(w, t)) == Eval(c, fuel, e, Logged(w, t));
  }

  lemma {:induction false} SameDeclared<S, V>(x: Pair<S, V>, ids: seq<nat>, s: S)
    requires x.Good()
    ensures DeclareAll(x.c1, ids, s) == DeclareAll(x.c2, ids, s)
    decreases |ids|
  {
    if |ids| > 0 {
      SameDeclared(x, ids[1..], x.c1.m.declare(ids[0], s));
    }
  }

  // ----- Statements -----

  lemma {:induction false} SimItems<S, V>(x: Pair<S, V>, fuel: nat, list: Stmts, top: bool, w1: World<S>, w2: World<S>)
    requires x.Good() && SoundList(list, x.lines) && Related(x.lines, w1, w2) && (top ==> OnlyDirect(list))
    ensures Alike(x.lines, Items(x.c1, fuel, list, top, w1), Items(x.c2, fuel, InstrumentList(list, x.ds), top, w2))
    decreases fuel, list, 0
  {
    match list
    case SNil =>
    case SCons(s, rest) =>
      SimItem(x, fuel, s, false, top, w1, w2);
      ItemsAppend(x.c2, fuel, Instrument(s, false, x.ds), InstrumentList(rest, x.ds), top, w2);
      var (k, v1) := Item(x.c1, fuel, s, top, w1);
      var (_, v2) := Items(x.c2, fuel, Instrument(s, false, x.ds), top, w2);
      if k.Normal? {
        SimItems(x, fuel, rest, top, v1, v2);
      }
  }

  /** instrument_statement: a statement and what is written for it. */
  lemma {:induction false} SimItem<S, V>(x: Pair<S, V>, fuel: nat, s: Stmt, inherit: bool, top: bool,
      w1: World<S>, w2: World<S>)
    requires x.Good() && SoundItem(s, x.lines) && Related(x.lines, w1, w2) && (top ==> s.Declare? || Undeclaring(s))
    ensures Alike(x.lines, Item(x.c1, fuel, s, top, w1), Items(x.c2, fuel, Instrument(s, inherit, x.ds), top, w2))
    decreases fuel, s, 5
  {
    if Counted(s) {
      CountStep(x.lines, w1, w2, s);
      CountItem(x.c2, fuel, LineOf(s), Output(s, inherit, x.ds), top, w2);
      SimOutput(x, fuel, s, inherit, top, Logged(w1, s), Bump(w2, LineOf(s)));
    } else {
      SimOutput(x, fuel, s, inherit, top, w1, w2);
    }
  }

  lemma CountItem<S, V>(c: Config<S, V>, fuel: nat, line: nat, rest: Stmts, top: bool, w: World<S>)
    ensures Items(c, fuel, SCons(Count(line), rest), top, w) == Items(c, fuel, rest, top, Bump(w, line))
  {
    assert Item<S, V>(c, fuel, Count(line), top, w) == (Normal, Bump(w, line));
  }

  /** A statement that is not in the list of a function body, with braces around what is written for it. */
  lemma {:induction false} SimBraced<S, V>(x: Pair<S, V>, fuel: nat, s: Stmt, w1: World<S>, w2: World<S>)
    requires x.Good() && SoundItem(s, x.lines) && Related(x.lines, w1, w2)
    ensures Alike(x.lines, Item(x.c1, fuel, s, false, w1),
                  Item(x.c2, fuel, Block(Instrument(s, false, x.ds)), false, w2))
    decreases fuel, s, 6
  {
    SimItem(x, fuel, s, false, false, w1, w2);
  }

  lemma {:induction false} SeqIsItems<S, V>(c: Config<S, V>, fuel: nat, list: Stmts, w: World<S>)
    ensures ExecLast(c, fuel, list, {}, w) == Items(c, fuel, list, false, w)
  {
    match list
    case SNil =>
    case SCons(s, rest) =>
      var (k, w1) := Item<S, V>(c, fuel, s, false, w);
      if rest.SNil? {
        assert Items<S, V>(c, fuel, SNil, false, w1) == (Normal, w1);
      } else if k.Normal? {
        SeqIsItems(c, fuel, rest, w1);
      }
  }

  /** output_statement, where there are no labels. */
  lemma {:induction false} SimOutput<S, V>(x: Pair<S, V>, fuel: nat, s: Stmt, inherit: bool, top: bool,
      w1: World<S>, w2: World<S>)
    requires x.Good() && SoundStmt(s, x.lines) && Related(x.lines, w1, w2) && (top ==> s.Declare? || Undeclaring(s))
    ensures Alike(x.lines, Exec(x.c1, fuel, s, {}, top, w1), Items(x.c2, fuel, Output(s, inherit, x.ds), top, w2))
    decreases fuel, s, 4
  {
    if s.Block? || s.Seq? {
      SimItems(x, fuel, s.list, false, w1, w2);
      if s.Seq? {
        SeqIsItems(x.c1, fuel, s.list, w1);
      }
      if top {
        NothingHoistedList(s.list, x.ds);
        TopIrrelevant(x.c2, fuel, InstrumentList(s.list, x.ds), w2);
      }
    } else if !Single(s) {
      SoundIsSingle(s, x.lines);
      SimSeparated(x, fuel, s, inherit, top, w1, w2);
    } else {
      SingleOutput(s, inherit, x.ds);
      var t := Output(s, inherit, x.ds).head;
      OneItem(x.c2, fuel, t, top, w2);
      LoggedStep(x.lines, w1, w2, t);
      SimSingle(x, fuel, s, inherit, {}, top, w1, Logged(w2, t));
    }
  }

  lemma {:induction false} SoundIsSingle(s: Stmt, lines: set<nat>)
    requires SoundStmt(s, lines) && !s.Block? && !s.Seq?
    ensures Single(s) || Initialised(s)
  {
  }

  // ----- Labels that are separated from their loop, and not jumped to -----

  /** What comes to stand after such labels: a counter, or a declaration without one. */
  predicate Plain(s: Stmt)
  {
    s.Count? || (s.Simple? && s.line == 0) || (s.Labelled? && Plain(s.body))
  }

  function Core(s: Stmt): Stmt
  {
    if s.Labelled? then Core(s.body) else s
  }

  lemma {:induction false} PlainExec<S, V>(c: Config<S, V>, fuel: nat, s: Stmt, labels: set<Name>, top: bool, w: World<S>)
    requires Plain(s)
    ensures Exec(c, fuel, s, labels, top, w) == Exec(c, fuel, Core(s), {}, top, w)
    ensures var k := Exec(c, fuel, s, labels, top, w).0; !k.Broken?
    ensures Logged(w, Core(s)) == w
    decreases s
  {
    if s.Labelled? {
      PlainExec(c, fuel, s.body, labels + {s.name}, false, w);
      CoreIsPlain(s);
      assert Exec<S, V>(c, fuel, Core(s), {}, false, w) == Exec<S, V>(c, fuel, Core(s), {}, top, w);
    }
  }

  /** The labels stand before the first of the statements that are written for the loop. */
  lemma {:induction false} LabelsFirst(s: Stmt, inherit: bool, ds: seq<bool>)
    requires Initialised(s)
    ensures var out := Output(s, inherit, ds);
            out.SCons? && Plain(out.head) && InstrumentList(Parts(s), ds) == SCons(Core(out.head), out.tail)
    decreases s
  {
    if s.Labelled? {
      InitialisedIsNotSingle(s.body);
      LabelsFirst(s.body, false, ds);
    } else {
      var first := s.list.head;
      var t := Simple(first.line, InstrumentOption(first.e, ds));
      var rest := InstrumentList(s.list.tail, ds);
      assert Output(first, false, ds) == One(t);
      assert Append(One(t), rest) == SCons(t, rest) by {
        assert Append(SNil, rest) == rest;
      }
      assert Output(s, inherit, ds) == Append(Instrument(first, false, ds), rest);
    }
  }

  lemma {:induction false} SimParts<S, V>(x: Pair<S, V>, fuel: nat, s: Stmt, w1: World<S>, w2: World<S>)
    requires x.Good() && SoundStmt(s, x.lines) && Initialised(s) && Related(x.lines, w1, w2)
    ensures Alike(x.lines, Items(x.c1, fuel, Parts(s), false, w1), Items(x.c2, fuel, InstrumentList(Parts(s), x.ds), false, w2))
    decreases fuel, s, 2
  {
    if s.Labelled? {
      SimParts(x, fuel, s.body, w1, w2);
    } else {
      SimItems(x, fuel, s.list, false, w1, w2);
    }
  }

  lemma {:induction false} SimSeparated<S, V>(x: Pair<S, V>, fuel: nat, s: Stmt, inherit: bool, top: bool,
                                              w1: World<S>, w2: World<S>)
    requires x.Good() && SoundStmt(s, x.lines) && Initialised(s) && Related(x.lines, w1, w2)
    ensures Alike(x.lines, Exec(x.c1, fuel, s, {}, top, w1), Items(x.c2, fuel, Output(s, inherit, x.ds), top, w2))
    decreases fuel, s, 3
  {
    var out := Output(s, inherit, x.ds);
    LabelsFirst(s, inherit, x.ds);
    LabelsAside(x.c1, fuel, s, {}, x.lines, top, w1);
    LoggedStep(x.lines, w1, w2, out.head);
    SimParts(x, fuel, s, w1, Logged(w2, out.head));
    PlainFirst(x.c2, fuel, out.head, out.tail, top, w2);
    if top {
      InitialisedIsUndeclaring(s);
      NothingHoisted(s, inherit, x.ds);
      TopIrrelevant(x.c2, fuel, InstrumentList(Parts(s), x.ds), Logged(w2, out.head));
    }
  }

  lemma PlainFirst<S, V>(c: Config<S, V>, fuel: nat, s: Stmt, rest: Stmts, top: bool, w: World<S>)
    requires Plain(s)
    ensures Items(c, fuel, SCons(s, rest), top, w) == Items(c, fuel, SCons(Core(s), rest), top, Logged(w, s))
    ensures !Core(s).Declare?
  {
    PlainExec(c, fuel, s, {}, top, Logged(w, s));
    CoreIsPlain(s);
  }

  lemma {:induction false} CoreIsPlain(s: Stmt)
    requires Plain(s)
    ensures var t := Core(s); t.Count? || (t.Simple? && t.line == 0)
  {
    if s.Labelled? {
      CoreIsPlain(s.body);
    }
  }

  /** output_statement for a statement that has labels in front of it, none of them separated from it. */
  lemma {:induction false} SimSingle<S, V>(x: Pair<S, V>, fuel: nat, s: Stmt, inherit: bool, labels: set<Name>, top: bool,
                                           w1: World<S>, w2: World<S>)
    requires x.Good() && SoundStmt(s, x.lines) && Related(x.lines, w1, w2) && Single(s) && Output(s, inherit, x.ds).SCons?
    ensures Alike(x.lines, Exec(x.c1, fuel, s, labels, top, w1),
                  Exec(x.c2, fuel, Output(s, inherit, x.ds).head, labels, top, w2))
    decreases fuel, s, 3
  {
    match s
    case Scope(list) =>
      var store := x.c1.m.open(None, w1.store);
      SimItems(x, fuel, list, false, Set(w1, store), Set(w2, store));
    case Declare(_, _, _) =>
    case Simple(_, e) => SimOption(x, fuel, e, w1, w2);
    case If(_, _, _, _, _, _) => SimIf(x, fuel, s, inherit, labels, top, w1, w2);
    case Switch(_, subject, cases) =>
      SimEval(x, fuel, subject, w1, w2);
      var (r, v1) := Eval(x.c1, fuel, subject, w1);
      var (_, v2) := Eval(x.c2, fuel, InstrumentExpr(subject, x.ds), w2);
      if r.Value? {
        SimSelect(x, fuel, r.v, cases, cases, v1, v2);
      }
    case While(_, _, _) => SimWhile(x, fuel, s, labels, w1, w2);
    case DoWhile(_, _, _) => SimDo(x, fuel, s, labels, w1, w2);
    case For(_, init, _, _, _) =>
      SimOption(x, fuel, init, w1, w2);
      var (r, v1) := EvalOption(x.c1, fuel, init, w1);
      var (_, v2) := EvalOption(x.c2, fuel, InstrumentOption(init, x.ds), w2);
      if r.Value? {
        SimFor(x, fuel, s, labels, v1, v2);
      }
    case ForIn(_, _, subject, _) =>
      SimEval(x, fuel, subject, w1, w2);
      var (r, v1) := Eval(x.c1, fuel, subject, w1);
      var (_, v2) := Eval(x.c2, fuel, InstrumentExpr(subject, x.ds), w2);
      if r.Value? {
        SimForIn(x, fuel, s, labels, r.v, 0, v1, v2);
      }
    case Throw(_, e) => SimEval(x, fuel, e, w1, w2);
    case Try(_, _, _, _) => SimTry(x, fuel, s, labels, top, w1, w2);
    case Break(_, _) =>
    case Continue(_, _) =>
    case With(_, subject, body) => SimWith(x, fuel, s, labels, top, w1, w2);
    case Return(_, e) => SimOption(x, fuel, e, w1, w2);
    case Labelled(_, l, body) =>
      if body.Block? {
        SimItems(x, fuel, body.list, false, w1, w2);
      } else {
        SimSingle(x, fuel, body, false, labels + {l}, false, w1, w2);
      }
  }

  lemma {:induction false} SimIf<S, V>(x: Pair<S, V>, fuel: nat, s: Stmt, inherit: bool, labels: set<Name>, top: bool,
                                       w1: World<S>, w2: World<S>)
    requires x.Good() && s.If? && SoundStmt(s, x.lines) && Related(x.lines, w1, w2)
    ensures Alike(x.lines, Exec(x.c1, fuel, s, labels, top, w1),
                  Exec(x.c2, fuel, Output(s, inherit, x.ds).head, labels, top, w2))
    decreases fuel, s, 2
  {
    var mark := inherit || Directive(x.ds, s.line);
    SimEval(x, fuel, s.cond, w1, w2);
    var (r, v1) := Eval(x.c1, fuel, s.cond, w1);
    var (_, v2) := Eval(x.c2, fuel, InstrumentExpr(s.cond, x.ds), w2);
    if r.Value? && x.c1.m.truthy(r.v) {
      SimMarked(x, fuel, s.yes, false, mark && s.no.Some?, s.noAt.begin, s.noAt.end + 1, v1, v2);
    } else if r.Value? && s.no.Some? {
      SimMarked(x, fuel, s.no.value, mark, mark, s.yesAt.begin + 1, s.yesAt.end + 1, v1, v2);
    } else if r.Value? && mark {
      MarkItem(x.c2, fuel, s.yesAt.begin + 1, s.yesAt.end + 1, SNil, v2);
    }
  }

  lemma MarkItem<S, V>(c: Config<S, V>, fuel: nat, first: nat, end: nat, rest: Stmts, w: World<S>)
    ensures Item(c, fuel, Block(SCons(SetConditional(first, end), rest)), false, w)
         == Items(c, fuel, rest, false, w.(conditionals := w.conditionals[first := end]))
  {
    var v := w.(conditionals := w.conditionals[first := end]);
    assert Item<S, V>(c, fuel, SetConditional(first, end), false, w) == (Normal, v);
    assert Items<S, V>(c, fuel, SCons(SetConditional(first, end), rest), false, w) == Items<S, V>(c, fuel, rest, false, v);
  }

  /** A branch of an if, with or without the note that the other one is not to be counted. */
  lemma {:induction false} SimMarked<S, V>(x: Pair<S, V>, fuel: nat, s: Stmt, inherit: bool, mark: bool,
      first: nat, end: nat,
                                           w1: World<S>, w2: World<S>)
    requires x.Good() && SoundItem(s, x.lines) && Related(x.lines, w1, w2)
    ensures Alike(x.lines, Item(x.c1, fuel, s, false, w1),
                  Item(x.c2, fuel, Block(Marked(mark, first, end, Instrument(s, inherit, x.ds))), false, w2))
    decreases fuel, s, 6
  {
    if mark {
      var v2 := w2.(conditionals := w2.conditionals[first := end]);
      MarkItem(x.c2, fuel, first, end, Instrument(s, inherit, x.ds), w2);
      SimItem(x, fuel, s, inherit, false, w1, v2);
    } else {
      SimItem(x, fuel, s, inherit, false, w1, w2);
    }
  }

  lemma {:induction false} SimWhile<S, V>(x: Pair<S, V>, fuel: nat, s: Stmt, labels: set<Name>, w1: World<S>,
      w2: World<S>)
    requires x.Good() && s.While? && SoundStmt(s, x.lines) && Related(x.lines, w1, w2)
    ensures Alike(x.lines, WhileLoop(x.c1, fuel, s, labels, w1),
                  WhileLoop(x.c2, fuel, Output(s, false, x.ds).head, labels, w2))
    decreases fuel, s, 2
  {
    if fuel > 0 {
      SimEval(x, fuel, s.cond, w1, w2);
      var (r, v1) := Eval(x.c1, fuel, s.cond, w1);
      var (_, v2) := Eval(x.c2, fuel, InstrumentExpr(s.cond, x.ds), w2);
      if r.Value? && x.c1.m.truthy(r.v) {
        SimBraced(x, fuel, s.body, v1, v2);
        var (k, u1) := Item(x.c1, fuel, s.body, false, v1);
        var (_, u2) := Item(x.c2, fuel, Block(Instrument(s.body, false, x.ds)), false, v2);
        if GoesOn(k, labels) {
          SimWhile(x, fuel - 1, s, labels, u1, u2);
        }
      }
    }
  }

  lemma {:induction false} SimDo<S, V>(x: Pair<S, V>, fuel: nat, s: Stmt, labels: set<Name>, w1: World<S>, w2: World<S>)
    requires x.Good() && s.DoWhile? && SoundStmt(s, x.lines) && Related(x.lines, w1, w2)
    ensures Alike(x.lines, DoLoop(x.c1, fuel, s, labels, w1),
                  DoLoop(x.c2, fuel, Output(s, false, x.ds).head, labels, w2))
    decreases fuel, s, 2
  {
    if fuel > 0 {
      SimBraced(x, fuel, s.body, w1, w2);
      var (k, v1) := Item(x.c1, fuel, s.body, false, w1);
      var (_, v2) := Item(x.c2, fuel, Block(Instrument(s.body, false, x.ds)), false, w2);
      if GoesOn(k, labels) {
        SimEval(x, fuel, s.cond, v1, v2);
        var (r, u1) := Eval(x.c1, fuel, s.cond, v1);
        var (_, u2) := Eval(x.c2, fuel, InstrumentExpr(s.cond, x.ds), v2);
        if r.Value? && x.c1.m.truthy(r.v) {
          SimDo(x, fuel - 1, s, labels, u1, u2);
        }
      }
    }
  }

  lemma {:induction false} SimFor<S, V>(x: Pair<S, V>, fuel: nat, s: Stmt, labels: set<Name>, w1: World<S>, w2: World<S>)
    requires x.Good() && s.For? && SoundStmt(s, x.lines) && Related(x.lines, w1, w2)
    ensures Alike(x.lines, ForLoop(x.c1, fuel, s, labels, w1),
                  ForLoop(x.c2, fuel, Output(s, false, x.ds).head, labels, w2))
    decreases fuel, s, 2
  {
    if fuel > 0 {
      SimOption(x, fuel, s.test, w1, w2);
      var (r, v1) := EvalOption(x.c1, fuel, s.test, w1);
      var (_, v2) := EvalOption(x.c2, fuel, InstrumentOption(s.test, x.ds), w2);
      if r.Value? && !(s.test.Some? && !x.c1.m.truthy(r.v)) {
        SimBraced(x, fuel, s.body, v1, v2);
        var (k, u1) := Item(x.c1, fuel, s.body, false, v1);
        var (_, u2) := Item(x.c2, fuel, Block(Instrument(s.body, false, x.ds)), false, v2);
        if GoesOn(k, labels) {
          SimOption(x, fuel, s.step, u1, u2);
          var (r1, t1) := EvalOption(x.c1, fuel, s.step, u1);
          var (_, t2) := EvalOption(x.c2, fuel, InstrumentOption(s.step, x.ds), u2);
          if r1.Value? {
            SimFor(x, fuel - 1, s, labels, t1, t2);
          }
        }
      }
    }
  }

  lemma {:induction false} SimForIn<S, V>(x: Pair<S, V>, fuel: nat, s: Stmt, labels: set<Name>, v: V, i: nat,
      w1: World<S>, w2: World<S>)
    requires x.Good() && s.ForIn? && SoundStmt(s, x.lines) && Related(x.lines, w1, w2)
    ensures Alike(x.lines, ForInLoop(x.c1, fuel, s, labels, v, i, w1),
                  ForInLoop(x.c2, fuel, Output(s, false, x.ds).head, labels, v, i, w2))
    decreases fuel, s, 2
  {
    if fuel > 0 {
      match x.c1.m.nextKey(v, i, w1.store)
      case None =>
      case Some((key, store)) =>
        SimAssign(x, fuel, s.target, key, Set(w1, store), Set(w2, store));
        var (r, v1) := Assign(x.c1, fuel, s.target, key, Set(w1, store));
        var (_, v2) := Assign(x.c2, fuel, InstrumentExpr(s.target, x.ds), key, Set(w2, store));
        if r.Value? {
          SimBraced(x, fuel, s.body, v1, v2);
          var (k, u1) := Item(x.c1, fuel, s.body, false, v1);
          var (_, u2) := Item(x.c2, fuel, Block(Instrument(s.body, false, x.ds)), false, v2);
          if GoesOn(k, labels) {
            SimForIn(x, fuel - 1, s, labels, v, i + 1, u1, u2);
          }
        }
    }
  }

  lemma {:induction false} SimWith<S, V>(x: Pair<S, V>, fuel: nat, s: Stmt, labels: set<Name>, top: bool,
      w1: World<S>, w2: World<S>)
    requires x.Good() && s.With? && SoundStmt(s, x.lines) && Related(x.lines, w1, w2)
    ensures Alike(x.lines, Exec(x.c1, fuel, s, labels, top, w1), Exec(x.c2, fuel, Output(s, false, x.ds).head, labels, top, w2))
    decreases fuel, s, 2
  {
    SimEval(x, fuel, s.subject, w1, w2);
    var (r, v1) := Eval(x.c1, fuel, s.subject, w1);
    var (_, v2) := Eval(x.c2, fuel, InstrumentExpr(s.subject, x.ds), w2);
    if r.Value? {
      var store := x.c1.m.open(Some(r.v), v1.store);
      SimBraced(x, fuel, s.body, Set(v1, store), Set(v2, store));
    }
  }

  lemma {:induction false} SimLast<S, V>(x: Pair<S, V>, fuel: nat, s: Option<Stmt>, w1: World<S>, w2: World<S>)
    requires x.Good() && (s.Some? ==> SoundItem(s.value, x.lines)) && Related(x.lines, w1, w2)
    ensures Alike(x.lines, ItemOption(x.c1, fuel, s, w1),
                  ItemOption(x.c2, fuel, if s.Some? then Some(Block(Instrument(s.value, false, x.ds))) else None, w2))
    decreases fuel, s, 0
  {
    if s.Some? {
      SimBraced(x, fuel, s.value, w1, w2);
    }
  }

  lemma {:induction false} SimTry<S, V>(x: Pair<S, V>, fuel: nat, s: Stmt, labels: set<Name>, top: bool,
      w1: World<S>, w2: World<S>)
    requires x.Good() && s.Try? && SoundStmt(s, x.lines) && Related(x.lines, w1, w2)
    ensures Alike(x.lines, Exec(x.c1, fuel, s, labels, top, w1), Exec(x.c2, fuel, Output(s, false, x.ds).head, labels, top, w2))
    decreases fuel, s, 2
  {
    SimBraced(x, fuel, s.block, w1, w2);
    var (k, v1) := Item(x.c1, fuel, s.block, false, w1);
    var (_, v2) := Item(x.c2, fuel, Block(Instrument(s.block, false, x.ds)), false, w2);
    var k1, u1, u2 := k, v1, v2;
    if k.Thrown? {
      SimHandle(x, fuel, k.v, s.catches, v1, v2);
      var (k', u1') := Handle(x.c1, fuel, k.v, s.catches, v1);
      var (_, u2') := Handle(x.c2, fuel, k.v, InstrumentCatches(s.catches, x.ds), v2);
      k1, u1, u2 := k', u1', u2';
    }
    if !k1.Halted? {
      SimLast(x, fuel, s.last, u1, u2);
    }
  }

  lemma {:induction false} SimHandle<S, V>(x: Pair<S, V>, fuel: nat, v: V, catches: Catches, w1: World<S>, w2: World<S>)
    requires x.Good() && SoundCatches(catches, x.lines) && Related(x.lines, w1, w2)
    ensures Alike(x.lines, Handle(x.c1, fuel, v, catches, w1), Handle(x.c2, fuel, v, InstrumentCatches(catches, x.ds), w2))
    decreases fuel, catches, 0
  {
    match catches
    case NoCatch =>
    case Catch(target, guard, body, more) =>
      var store := x.c1.m.open(None, w1.store);
      SimAssign(x, fuel, target, v, Set(w1, store), Set(w2, store));
      var (r, v1) := Assign(x.c1, fuel, target, v, Set(w1, store));
      var (_, v2) := Assign(x.c2, fuel, InstrumentExpr(target, x.ds), v, Set(w2, store));
      if r.Value? {
        SimOption(x, fuel, guard, v1, v2);
        var (r1, u1) := EvalOption(x.c1, fuel, guard, v1);
        var (_, u2) := EvalOption(x.c2, fuel, InstrumentOption(guard, x.ds), v2);
        if r1.Value? {
          if guard.Some? && !x.c1.m.truthy(r1.v) {
            SimHandle(x, fuel, v, more, Set(u1, x.c1.m.close(u1.store)), Set(u2, x.c1.m.close(u2.store)));
          } else {
            SimBraced(x, fuel, body, u1, u2);
          }
        }
      }
  }

  lemma {:induction false} SimSelect<S, V>(x: Pair<S, V>, fuel: nat, v: V, rest: Cases, all: Cases,
      w1: World<S>, w2: World<S>)
    requires x.Good() && SoundCases(rest, x.lines) && SoundCases(all, x.lines) && Related(x.lines, w1, w2)
    ensures Alike(x.lines, Select(x.c1, fuel, v, rest, all, w1),
                  Select(x.c2, fuel, v, InstrumentCases(rest, x.ds), InstrumentCases(all, x.ds), w2))
    decreases fuel, rest, 1
  {
    if fuel > 0 {
      match rest
      case NoCase => SimDefault(x, fuel - 1, all, w1, w2);
      case Case(test, body, more) =>
        if test.None? {
          SimSelect(x, fuel, v, more, all, w1, w2);
        } else {
          SimEval(x, fuel, test.value, w1, w2);
          var (r, v1) := Eval(x.c1, fuel, test.value, w1);
          var (_, v2) := Eval(x.c2, fuel, InstrumentExpr(test.value, x.ds), w2);
          if r.Value? {
            if x.c1.m.same(v, r.v) {
              SimFall(x, fuel - 1, rest, v1, v2);
            } else {
              SimSelect(x, fuel, v, more, all, v1, v2);
            }
          }
        }
    }
  }

  lemma {:induction false} SimDefault<S, V>(x: Pair<S, V>, fuel: nat, cases: Cases, w1: World<S>, w2: World<S>)
    requires x.Good() && SoundCases(cases, x.lines) && Related(x.lines, w1, w2)
    ensures Alike(x.lines, FromDefault(x.c1, fuel, cases, w1), FromDefault(x.c2, fuel, InstrumentCases(cases, x.ds), w2))
    decreases fuel, cases, 1
  {
    match cases
    case NoCase =>
    case Case(test, _, more) =>
      if test.None? {
        SimFall(x, fuel, cases, w1, w2);
      } else {
        SimDefault(x, fuel, more, w1, w2);
      }
  }

  lemma {:induction false} SimFall<S, V>(x: Pair<S, V>, fuel: nat, cases: Cases, w1: World<S>, w2: World<S>)
    requires x.Good() && SoundCases(cases, x.lines) && Related(x.lines, w1, w2)
    ensures Alike(x.lines, FallThrough(x.c1, fuel, cases, w1), FallThrough(x.c2, fuel, InstrumentCases(cases, x.ds), w2))
    decreases fuel, cases, 0
  {
    match cases
    case NoCase =>
    case Case(_, body, more) =>
      SimItems(x, fuel, body, false, w1, w2);
      var (k, v1) := Items(x.c1, fuel, body, false, w1);
      var (_, v2) := Items(x.c2, fuel, InstrumentList(body, x.ds), false, w2);
      if k.Normal? {
        SimFall(x, fuel, more, v1, v2);
      }
  }
}
