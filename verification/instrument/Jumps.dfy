/** Which labels a statement can jump to when it is run. */
module Jumps {
  import opened Options
  import opened Syntax
  import opened Semantics
  import opened Sound

  /** The completion is no jump to this label. */
  predicate Stays<V>(k: Completion<V>, l: Name)
  {
    k != Broken(Some(l)) && k != Continued(Some(l))
  }

  lemma {:induction false} ItemsStay<S, V>(c: Config<S, V>, fuel: nat, list: Stmts, top: bool, w: World<S>, l: Name)
    requires !ListJumpsTo(list, l)
    ensures Stays(Items(c, fuel, list, top, w).0, l)
    decreases fuel, list, 0
  {
    match list
    case SNil =>
    case SCons(s, rest) =>
      ItemStays(c, fuel, s, top, w, l);
      var (k, w1) := Item(c, fuel, s, top, w);
      if k.Normal? {
        ItemsStay(c, fuel, rest, top, w1, l);
      }
  }

  lemma {:induction false} ItemStays<S, V>(c: Config<S, V>, fuel: nat, s: Stmt, top: bool, w: World<S>, l: Name)
    requires !JumpsTo(s, l)
    ensures Stays(Item(c, fuel, s, top, w).0, l)
    decreases fuel, s, 3
  {
    ExecStays(c, fuel, s, {}, top, Logged(w, s), l);
  }

  lemma {:induction false} ItemOptionStays<S, V>(c: Config<S, V>, fuel: nat, s: Option<Stmt>, w: World<S>, l: Name)
    requires s.Some? ==> !JumpsTo(s.value, l)
    ensures Stays(ItemOption(c, fuel, s, w).0, l)
    decreases fuel, s, 0
  {
    if s.Some? {
      ItemStays(c, fuel, s.value, false, w, l);
    }
  }

  /** A statement in which a label is not jumped to does not end with a jump to it. */
  lemma {:induction false} ExecStays<S, V>(c: Config<S, V>, fuel: nat, s: Stmt, labels: set<Name>, top: bool,
                                           w: World<S>, l: Name)
    requires !JumpsTo(s, l)
    ensures Stays(Exec(c, fuel, s, labels, top, w).0, l)
    decreases fuel, s, 2
  {
    match s
    case Block(list) => ItemsStay(c, fuel, list, false, w, l);
    case Scope(list) => ItemsStay(c, fuel, list, false, Set(w, c.m.open(None, w.store)), l);
    case Seq(_, list) => LastStays(c, fuel, list, labels, w, l);
    case Declare(_, _, _) =>
    case Simple(_, _) =>
    case If(_, cond, yes, _, no, _) =>
      var (r, w1) := Eval(c, fuel, cond, w);
      ItemStays(c, fuel, yes, false, w1, l);
      ItemOptionStays(c, fuel, no, w1, l);
    case Switch(_, subject, cases) =>
      var (r, w1) := Eval(c, fuel, subject, w);
      if r.Value? {
        SelectStays(c, fuel, r.v, cases, cases, w1, l);
      }
    case While(_, _, _) => WhileStays(c, fuel, s, labels, w, l);
    case DoWhile(_, _, _) => DoStays(c, fuel, s, labels, w, l);
    case For(_, init, _, _, _) => ForStays(c, fuel, s, labels, EvalOption(c, fuel, init, w).1, l);
    case ForIn(_, _, subject, _) =>
      var (r, w1) := Eval(c, fuel, subject, w);
      if r.Value? {
        ForInStays(c, fuel, s, labels, r.v, 0, w1, l);
      }
    case Throw(_, _) =>
    case Try(_, _, _, _) => TryStays(c, fuel, s, labels, top, w, l);
    case Break(_, _) =>
    case Continue(_, _) =>
    case With(_, subject, body) =>
      var (r, w1) := Eval(c, fuel, subject, w);
      if r.Value? {
        ItemStays(c, fuel, body, false, Set(w1, c.m.open(Some(r.v), w1.store)), l);
      }
    case Return(_, _) =>
    case Labelled(_, name, body) => ExecStays(c, fuel, body, labels + {name}, false, w, l);
    case Count(_) =>
    case SetConditional(_, _) =>
  }

  lemma {:induction false} LastStays<S, V>(c: Config<S, V>, fuel: nat, list: Stmts, labels: set<Name>, w: World<S>, l: Name)
    requires !ListJumpsTo(list, l)
    ensures Stays(ExecLast(c, fuel, list, labels, w).0, l)
    decreases fuel, list, 1
  {
    match list
    case SNil =>
    case SCons(s, rest) =>
      if rest.SNil? {
        ExecStays(c, fuel, s, labels, false, Logged(w, s), l);
      } else {
        ItemStays(c, fuel, s, false, w, l);
        var (k, w1) := Item(c, fuel, s, false, w);
        if k.Normal? {
          LastStays(c, fuel, rest, labels, w1, l);
        }
      }
  }

  lemma {:induction false} WhileStays<S, V>(c: Config<S, V>, fuel: nat, s: Stmt, labels: set<Name>, w: World<S>, l: Name)
    requires s.While? && !JumpsTo(s, l)
    ensures Stays(WhileLoop(c, fuel, s, labels, w).0, l)
    decreases fuel, s, 1
  {
    if fuel > 0 {
      var (r, w1) := Eval(c, fuel, s.cond, w);
      ItemStays(c, fuel, s.body, false, w1, l);
      WhileStays(c, fuel - 1, s, labels, Item(c, fuel, s.body, false, w1).1, l);
    }
  }

  lemma {:induction false} DoStays<S, V>(c: Config<S, V>, fuel: nat, s: Stmt, labels: set<Name>, w: World<S>, l: Name)
    requires s.DoWhile? && !JumpsTo(s, l)
    ensures Stays(DoLoop(c, fuel, s, labels, w).0, l)
    decreases fuel, s, 1
  {
    if fuel > 0 {
      ItemStays(c, fuel, s.body, false, w, l);
      var (k, w1) := Item(c, fuel, s.body, false, w);
      DoStays(c, fuel - 1, s, labels, Eval(c, fuel, s.cond, w1).1, l);
    }
  }

  lemma {:induction false} ForStays<S, V>(c: Config<S, V>, fuel: nat, s: Stmt, labels: set<Name>, w: World<S>, l: Name)
    requires s.For? && !JumpsTo(s, l)
    ensures Stays(ForLoop(c, fuel, s, labels, w).0, l)
    decreases fuel, s, 1
  {
    if fuel > 0 {
      var (r, w1) := EvalOption(c, fuel, s.test, w);
      ItemStays(c, fuel, s.body, false, w1, l);
      var (k, w2) := Item(c, fuel, s.body, false, w1);
      ForStays(c, fuel - 1, s, labels, EvalOption(c, fuel, s.step, w2).1, l);
    }
  }

  lemma {:induction false} ForInStays<S, V>(c: Config<S, V>, fuel: nat, s: Stmt, labels: set<Name>, v: V, i: nat,
                                            w: World<S>, l: Name)
    requires s.ForIn? && !JumpsTo(s, l)
    ensures Stays(ForInLoop(c, fuel, s, labels, v, i, w).0, l)
    decreases fuel, s, 1
  {
    if fuel > 0 {
      match c.m.nextKey(v, i, w.store)
      case None =>
      case Some((key, store)) =>
        var (r, w1) := Assign(c, fuel, s.target, key, Set(w, store));
        ItemStays(c, fuel, s.body, false, w1, l);
        ForInStays(c, fuel - 1, s, labels, v, i + 1, Item(c, fuel, s.body, false, w1).1, l);
    }
  }

  lemma {:induction false} TryStays<S, V>(c: Config<S, V>, fuel: nat, s: Stmt, labels: set<Name>, top: bool,
                                          w: World<S>, l: Name)
    requires s.Try? && !JumpsTo(s, l)
    ensures Stays(Exec(c, fuel, s, labels, top, w).0, l)
    decreases fuel, s, 1
  {
    ItemStays(c, fuel, s.block, false, w, l);
    var (k, w1) := Item(c, fuel, s.block, false, w);
    var w2 := w1;
    if k.Thrown? {
      HandleStays(c, fuel, k.v, s.catches, w1, l);
      w2 := Handle(c, fuel, k.v, s.catches, w1).1;
    }
    ItemOptionStays(c, fuel, s.last, w2, l);
  }

  lemma {:induction false} HandleStays<S, V>(c: Config<S, V>, fuel: nat, v: V, catches: Catches, w: World<S>, l: Name)
    requires !CatchesJumpTo(catches, l)
    ensures Stays(Handle(c, fuel, v, catches, w).0, l)
    decreases fuel, catches, 0
  {
    match catches
    case NoCatch =>
    case Catch(target, guard, body, more) =>
      var (r, w1) := Assign(c, fuel, target, v, Set(w, c.m.open(None, w.store)));
      var (r1, w2) := EvalOption(c, fuel, guard, w1);
      HandleStays(c, fuel, v, more, Set(w2, c.m.close(w2.store)), l);
      ItemStays(c, fuel, body, false, w2, l);
  }

  lemma {:induction false} SelectStays<S, V>(c: Config<S, V>, fuel: nat, v: V, rest: Cases, all: Cases, w: World<S>, l: Name)
    requires !CasesJumpTo(rest, l) && !CasesJumpTo(all, l)
    ensures Stays(Select(c, fuel, v, rest, all, w).0, l)
    decreases fuel, rest, 1
  {
    if fuel > 0 {
      match rest
      case NoCase => DefaultStays(c, fuel - 1, all, w, l);
      case Case(test, body, more) =>
        if test.None? {
          SelectStays(c, fuel, v, more, all, w, l);
        } else {
          var (r, w1) := Eval(c, fuel, test.value, w);
          FallStays(c, fuel - 1, rest, w1, l);
          SelectStays(c, fuel, v, more, all, w1, l);
        }
    }
  }

  lemma {:induction false} DefaultStays<S, V>(c: Config<S, V>, fuel: nat, cases: Cases, w: World<S>, l: Name)
    requires !CasesJumpTo(cases, l)
    ensures Stays(FromDefault(c, fuel, cases, w).0, l)
    decreases fuel, cases, 1
  {
    match cases
    case NoCase =>
    case Case(test, _, more) =>
      if test.None? {
        FallStays(c, fuel, cases, w, l);
      } else {
        DefaultStays(c, fuel, more, w, l);
      }
  }

  lemma {:induction false} FallStays<S, V>(c: Config<S, V>, fuel: nat, cases: Cases, w: World<S>, l: Name)
    requires !CasesJumpTo(cases, l)
    ensures Stays(FallThrough(c, fuel, cases, w).0, l)
    decreases fuel, cases, 0
  {
    match cases
    case NoCase =>
    case Case(_, body, more) =>
      ItemsStay(c, fuel, body, false, w, l);
      var (k, w1) := Items(c, fuel, body, false, w);
      if k.Normal? {
        FallStays(c, fuel, more, w1, l);
      }
  }

  // ----- Labels that are not used -----

  predicate NoneUsed(s: Stmt, labels: set<Name>)
  {
    forall l :: l in labels ==> !JumpsTo(s, l)
  }

  /** Labels that are not jumped to make no difference to a loop. */
  lemma {:induction false} UnusedLabels<S, V>(c: Config<S, V>, fuel: nat, s: Stmt, labels: set<Name>, v: V, i: nat, w: World<S>)
    requires s.ForIn? && NoneUsed(s, labels)
    ensures ForInLoop(c, fuel, s, labels, v, i, w) == ForInLoop(c, fuel, s, {}, v, i, w)
    decreases fuel
  {
    if fuel > 0 {
      match c.m.nextKey(v, i, w.store)
      case None =>
      case Some((key, store)) =>
        var (r, w1) := Assign(c, fuel, s.target, key, Set(w, store));
        var (k, w2) := Item(c, fuel, s.body, false, w1);
        if k.Continued? && k.jump.Some? && k.jump.value in labels {
          ItemStays(c, fuel, s.body, false, w1, k.jump.value);
          assert false;
        }
        UnusedLabels(c, fuel - 1, s, labels, v, i + 1, w2);
    }
  }

  /** A for-in loop with an initialiser, without its labels. */
  function Parts(s: Stmt): Stmts
    requires Initialised(s)
  {
    if s.Seq? then s.list else Parts(s.body)
  }

  lemma {:induction false} PartsJump(s: Stmt, l: Name)
    requires Initialised(s)
    ensures JumpsTo(s, l) <==> ListJumpsTo(Parts(s), l)
  {
    if s.Labelled? {
      PartsJump(s.body, l);
    }
  }

  /** If no label is jumped to, the loop with all its labels does what it does without them. */
  lemma {:induction false} LabelsAside<S, V>(c: Config<S, V>, fuel: nat, s: Stmt, labels: set<Name>, lines: set<nat>,
                                             top: bool, w: World<S>)
    requires Initialised(s) && SoundStmt(s, lines) && NoneUsed(s, labels)
    ensures Exec(c, fuel, s, labels, top, w) == Items(c, fuel, Parts(s), false, w)
    decreases s
  {
    if s.Seq? {
      var first, loop := s.list.head, s.list.tail.head;
      assert s.list.tail == SCons(loop, SNil);
      forall l | l in labels ensures !JumpsTo(loop, l) {
        assert ListJumpsTo(s.list, l) == (JumpsTo(first, l) || ListJumpsTo(s.list.tail, l));
        assert JumpsTo(s, l) == ListJumpsTo(s.list, l);
        assert ListJumpsTo(SCons(loop, SNil), l) == (JumpsTo(loop, l) || ListJumpsTo(SNil, l));
      }
      var (k, w1) := Item<S, V>(c, fuel, first, false, w);
      LoopLabelsAside(c, fuel, loop, labels, Logged(w1, loop));
      LastOfTwo(c, fuel, first, loop, labels, w);
    } else {
      var all := labels + {s.name};
      LabelledUnused(s, lines);
      LabelsAside(c, fuel, s.body, all, lines, false, w);
      PartsJump(s.body, s.name);
      ItemsStay(c, fuel, Parts(s), false, w, s.name);
    }
  }

  lemma LabelledUnused(s: Stmt, lines: set<nat>)
    requires s.Labelled? && Initialised(s) && SoundStmt(s, lines)
    ensures !JumpsTo(s.body, s.name)
  {
    InitialisedIsNotSingle(s.body);
  }

  lemma LoopLabelsAside<S, V>(c: Config<S, V>, fuel: nat, s: Stmt, labels: set<Name>, w: World<S>)
    requires s.ForIn? && NoneUsed(s, labels)
    ensures Exec(c, fuel, s, labels, false, w) == Exec(c, fuel, s, {}, false, w)
  {
    var (r, w1) := Eval<S, V>(c, fuel, s.subject, w);
    if r.Value? {
      UnusedLabels(c, fuel, s, labels, r.v, 0, w1);
    }
  }

  lemma LastOfTwo<S, V>(c: Config<S, V>, fuel: nat, first: Stmt, last: Stmt, labels: set<Name>, w: World<S>)
    ensures var list := SCons(first, SCons(last, SNil));
            var (k, w1) := Item(c, fuel, first, false, w);
            && ExecLast(c, fuel, list, labels, w)
               == (if k.Normal? then Exec(c, fuel, last, labels, false, Logged(w1, last)) else (k, w1))
            && Items(c, fuel, list, false, w)
               == (if k.Normal? then Exec(c, fuel, last, {}, false, Logged(w1, last)) else (k, w1))
  {
    var (k, w1) := Item<S, V>(c, fuel, first, false, w);
    assert Items<S, V>(c, fuel, SCons(last, SNil), false, w1) == Exec(c, fuel, last, {}, false, Logged(w1, last));
  }
}
