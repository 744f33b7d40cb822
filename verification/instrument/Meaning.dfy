/** The claims of the instrumenter about whole programs, and the two kinds of program that break them. */
module Meaning {
  import opened Options
  import opened Syntax
  import opened Semantics
  import opened Instrumentation
  import opened Collected
  import opened Sound
  import opened Counters
  import opened Preservation

  /** No jump to a label before a for-in loop with an initialiser, no function in a block of a body, no counters yet. */
  ghost predicate WellBehaved(program: Stmts)
  {
    exists lines :: SoundBody(Statements(program), lines)
  }

  /** Running a program from its beginning. */
  function RunProgram<S, V>(m: Machine<S, V>, fuel: nat, program: Stmts, store: S, counts: map<nat, Counter>)
    : (Completion<V>, World<S>)
  {
    Run(Config(m, InList(program)), fuel, Statements(program), World(store, [], counts, map[]))
  }

  /** The initialisation section: a zero for every line that has a counter somewhere. */
  function Zeros(lines: set<nat>): map<nat, Counter>
  {
    map n | n in lines :: Num(0)
  }

  /**
   * Instrumenting a program changes neither how it ends nor what it does to the store, for any
   * number of steps; and after any run the counter of line n shows how often a counted statement
   * on line n has been entered. All counters that are incremented have been initialised.
   */
  lemma InstrumentedRun<S, V>(m: Machine<S, V>, fuel: nat, program: Stmts, ds: seq<bool>, store: S)
    requires WellBehaved(program)
    ensures var out := InstrumentList(program, ds);
            var lines := OfList(out);
            var (k1, w1) := RunProgram(m, fuel, program, store, map[]);
            var (k2, w2) := RunProgram(m, fuel, out, store, Zeros(lines));
            && k1 == k2 && w1.store == w2.store
            && w2.counts.Keys == lines && (forall n :: n in w1.log ==> n in lines)
            && (forall n :: n in lines ==> w2.counts[n] == Num(multiset(w1.log)[n]))
  {
    var out := InstrumentList(program, ds);
    var lines := OfList(out);
    var any :| SoundBody(Statements(program), any);
    BodyKnown(Statements(program), ds, any, lines);
    BodySound(Statements(program), lines);
    ListFunctions(program, ds);
    var x := Pair(Config(m, InList(program)), Config(m, InList(out)), lines, ds);
    var w1, w2 := World(store, [], map[], map[]), World(store, [], Zeros(lines), map[]);
    assert Related(lines, w1, w2);
    SimRun(x, fuel, Statements(program), w1, w2);
  }

  // ----- Functions in blocks -----

  lemma {:induction false} HoistedAtLeast(s: Stmt, inherit: bool, ds: seq<bool>, any: set<nat>)
    requires SoundStmt(s, any) && !s.Declare?
    ensures Hoisted(Instrument(s, inherit, ds)) == Hoisted(Output(s, inherit, ds))
    ensures |Hoisted(Output(s, inherit, ds))| == 0 <==> Undeclaring(s)
  {
    match s
    case Block(list) => HoistedInList(list, ds, any);
    case Seq(_, list) => HoistedInList(list, ds, any);
    case _ =>
      SoundIsSingle(s, any);
      NothingHoisted(s, inherit, ds);
  }

  lemma {:induction false} HoistedInList(list: Stmts, ds: seq<bool>, any: set<nat>)
    requires SoundList(list, any)
    ensures |Hoisted(InstrumentList(list, ds))| == 0 <==> NoneDeclared(list)
  {
    match list
    case SNil =>
    case SCons(s, rest) =>
      HoistedInList(rest, ds, any);
      HoistedAppend(Instrument(s, false, ds), InstrumentList(rest, ds));
      if s.Declare? {
        assert Hoisted(Output(s, false, ds)) == [s.id] + Hoisted(SNil);
      } else {
        HoistedAtLeast(s, false, ds, any);
      }
  }

  lemma {:induction false} HoistedCount(list: Stmts, ds: seq<bool>, any: set<nat>)
    requires SoundList(list, any)
    ensures |Hoisted(list)| <= |Hoisted(InstrumentList(list, ds))|
    ensures |Hoisted(list)| == |Hoisted(InstrumentList(list, ds))| ==> OnlyDirect(list)
  {
    match list
    case SNil =>
    case SCons(s, rest) =>
      HoistedCount(rest, ds, any);
      HoistedAppend(Instrument(s, false, ds), InstrumentList(rest, ds));
      if s.Declare? {
        assert Hoisted(Output(s, false, ds)) == [s.id] + Hoisted(SNil);
      } else {
        HoistedAtLeast(s, false, ds, any);
      }
  }

  /**
   * The functions declared before a body runs stay the same exactly if no block directly in the
   * body contains a function declaration: such blocks lose their braces.
   */
  lemma HoistingKept(list: Stmts, ds: seq<bool>, any: set<nat>)
    requires SoundList(list, any)
    ensures Hoisted(InstrumentList(list, ds)) == Hoisted(list) <==> OnlyDirect(list)
  {
    HoistedCount(list, ds, any);
    if OnlyDirect(list) {
      SameHoisted(list, ds);
    }
  }

  /** A machine with an integer for a store: operators double it, declarations add one. */
  function Doubling(): Machine<int, int>
  {
    Machine((op: string, h: seq<int>, s: int) => Done(0, 2 * s),
            (id: nat, s: int) => (0, s),
            (id: nat, s: int) => s + 1,
            (s: int) => s,
            0,
            (v: int) => true,
            (v: int, w: int) => v == w,
            (v: Option<int>, s: int) => s,
            (s: int) => s,
            (v: int, i: nat, s: int) => if i < 1 then Some((0, s)) else None)
  }

  const LEAF: Expr := Op("leaf", ENil)

  /** `leaf; { function f() {} }`: the function is declared before the block is reached. */
  function FunctionInBlock(): Stmts
  {
    SCons(Simple(1, Some(LEAF)), One(Block(One(Declare(2, 7, Statements(SNil))))))
  }

  lemma LeafStep(c: Config<int, int>, fuel: nat, w: World<int>)
    requires c.m == Doubling() && fuel > 0
    ensures Eval(c, fuel, LEAF, w) == (Value(0), Set(w, 2 * w.store))
    ensures EvalOption(c, fuel, Some(LEAF), w) == (Value(0), Set(w, 2 * w.store))
    ensures forall v :: Assign(c, fuel, LEAF, v, w) == (Value(0), Set(w, 2 * w.store))
  {
  }

  lemma BlockOfFunction(c: Config<int, int>, fuel: nat, w: World<int>)
    requires c.m == Doubling() && fuel > 0
    ensures Items(c, fuel, FunctionInBlock(), true, w).1.store == 2 * w.store + 1
  {
    var leaf, f := Simple(1, Some(LEAF)), Declare(2, 7, Statements(SNil));
    LeafStep(c, fuel, Logged(w, leaf));
    var w1 := Set(Logged(w, leaf), 2 * w.store);
    assert Item<int, int>(c, fuel, leaf, true, w) == (Normal, w1);
    OneItem(c, fuel, Block(One(f)), true, w1);
    OneItem(c, fuel, f, false, w1);
    hide Items, Item;
    OneMoreItem(c, fuel, leaf, One(Block(One(f))), true, w);
  }

  lemma OneMoreItem<S, V>(c: Config<S, V>, fuel: nat, s: Stmt, rest: Stmts, top: bool, w: World<S>)
    ensures Items(c, fuel, SCons(s, rest), top, w)
         == var (k, w1) := Item(c, fuel, s, top, w); if k.Normal? then Items(c, fuel, rest, top, w1) else (k, w1)
  {
  }

  lemma FlattenedFunction(c: Config<int, int>, fuel: nat, w: World<int>)
    requires c.m == Doubling() && fuel > 0
    ensures Items(c, fuel, InstrumentList(FunctionInBlock(), []), true, w).1.store == 2 * w.store
    ensures Hoisted(InstrumentList(FunctionInBlock(), [])) == [7]
  {
    var leaf, f := Simple(1, Some(LEAF)), Declare(2, 7, Statements(SNil));
    var rest2 := One(f);
    var rest1 := SCons(Count(2), rest2);
    FlattenedList();
    CountItem(c, fuel, 1, SCons(leaf, rest1), true, w);
    var v := Bump(w, 1);
    LeafStep(c, fuel, Logged(v, leaf));
    var w1 := Set(Logged(v, leaf), 2 * w.store);
    assert Item<int, int>(c, fuel, leaf, true, v) == (Normal, w1);
    OneMoreItem(c, fuel, leaf, rest1, true, v);
    CountItem(c, fuel, 2, rest2, true, w1);
    OneItem(c, fuel, f, true, Bump(w1, 2));
  }

  lemma FlattenedList()
    ensures InstrumentList(FunctionInBlock(), [])
         == SCons(Count(1), SCons(Simple(1, Some(LEAF)), SCons(Count(2), One(Declare(2, 7, Statements(SNil))))))
  {
    var leaf, f := Simple(1, Some(LEAF)), Declare(2, 7, Statements(SNil));
    assert InstrumentExpr(LEAF, []) == LEAF;
    assert Instrument(leaf, false, []) == SCons(Count(1), One(leaf));
    assert Instrument(f, false, []) == SCons(Count(2), One(f));
    assert InstrumentList(One(f), []) == Append(SCons(Count(2), One(f)), SNil) == SCons(Count(2), One(f));
    assert Instrument(Block(One(f)), false, []) == InstrumentList(One(f), []);
    assert InstrumentList(One(Block(One(f))), []) == Append(SCons(Count(2), One(f)), SNil);
  }

  lemma FunctionInBlockDiffers(fuel: nat)
    requires fuel > 0
    ensures SoundList(FunctionInBlock(), {1, 2}) && !OnlyDirect(FunctionInBlock())
    ensures RunProgram(Doubling(), fuel, FunctionInBlock(), 0, map[]).1.store == 1
    ensures RunProgram(Doubling(), fuel, InstrumentList(FunctionInBlock(), []), 0, map[]).1.store == 2
  {
    FunctionInBlockIsNotDirect();
    hide InList, Items, Doubling, InstrumentList, SoundList, OnlyDirect, FunctionInBlock;
    var p, q := FunctionInBlock(), InstrumentList(FunctionInBlock(), []);
    BlockOfFunction(Config(Doubling(), InList(p)), fuel, World(0, [], map[], map[]));
    FlattenedFunction(Config(Doubling(), InList(q)), fuel, World(1, [], map[], map[]));
    DeclareOne(Config(Doubling(), InList(q)), 7, 0);
  }

  lemma FunctionInBlockIsNotDirect()
    ensures SoundList(FunctionInBlock(), {1, 2}) && !OnlyDirect(FunctionInBlock()) && Hoisted(FunctionInBlock()) == []
  {
  }

  lemma DeclareOne(c: Config<int, int>, id: nat, s: int)
    requires c.m == Doubling()
    ensures DeclareAll(c, [id], s) == s + 1
  {
    assert DeclareAll(c, [], s + 1) == s + 1;
  }

  // ----- Labelled for-in loops with an initialiser -----

  /** `l: for (var a = leaf in leaf) continue l;` */
  function LabelledSeq(): Stmts
  {
    One(Labelled(1, "l", Seq(1, SCons(Simple(1, Some(LEAF)), One(ForIn(1, LEAF, LEAF, Continue(1, Some("l"))))))))
  }

  /** Its parts. */
  function Loop(): Stmt
  {
    ForIn(1, LEAF, LEAF, Continue(1, Some("l")))
  }

  /** With its label the loop ends normally; without it the jump leaves it. */
  lemma LoopRun(c: Config<int, int>, fuel: nat, body: Stmt, labels: set<Name>, w: World<int>)
    requires c.m == Doubling() && fuel > 1
    requires forall v :: Item(c, fuel, body, false, v).0 == Continued(Some("l"))
    ensures ForInLoop(c, fuel, ForIn(1, LEAF, LEAF, body), labels, 0, 0, w).0
         == if "l" in labels then Normal else Continued(Some("l"))
  {
    var s := ForIn(1, LEAF, LEAF, body);
    LeafStep(c, fuel, Set(w, w.store));
    var (r, w1) := Assign<int, int>(c, fuel, LEAF, 0, Set(w, w.store));
    var (k, w2) := Item<int, int>(c, fuel, body, false, w1);
    assert ForInLoop<int, int>(c, fuel - 1, s, labels, 0, 1, w2) == (Normal, w2);
  }

  lemma LoopExec(c: Config<int, int>, fuel: nat, body: Stmt, labels: set<Name>, w: World<int>)
    requires c.m == Doubling() && fuel > 1
    requires forall v :: Item(c, fuel, body, false, v).0 == Continued(Some("l"))
    ensures Exec(c, fuel, ForIn(1, LEAF, LEAF, body), labels, false, w).0
         == if "l" in labels then Normal else Continued(Some("l"))
  {
    LeafStep(c, fuel, w);
    LoopRun(c, fuel, body, labels, Set(w, 2 * w.store));
  }

  lemma JumpItems(c: Config<int, int>, fuel: nat, w: World<int>)
    ensures var jump := Continue(1, Some("l"));
            && Item(c, fuel, jump, false, w).0 == Continued(Some("l"))
            && Item(c, fuel, Block(SCons(Count(1), One(jump))), false, w).0 == Continued(Some("l"))
  {
    var jump := Continue(1, Some("l"));
    CountItem(c, fuel, 1, One(jump), false, w);
    OneItem(c, fuel, jump, false, Bump(w, 1));
  }

  lemma LabelledLoop(c: Config<int, int>, fuel: nat, w: World<int>)
    requires c.m == Doubling() && fuel > 1
    ensures Items(c, fuel, LabelledSeq(), true, w).0 == Normal
  {
    var first := Simple(1, Some(LEAF));
    var list := SCons(first, One(Loop()));
    forall v ensures Item<int, int>(c, fuel, Continue(1, Some("l")), false, v).0 == Continued(Some("l")) {
      JumpItems(c, fuel, v);
    }
    var w0 := Logged(w, Labelled(1, "l", Seq(1, list)));
    LeafStep(c, fuel, Logged(w0, first));
    var w1 := Set(Logged(w0, first), 2 * w.store);
    assert Item<int, int>(c, fuel, first, false, w0) == (Normal, w1);
    LoopExec(c, fuel, Continue(1, Some("l")), {"l"}, Logged(w1, Loop()));
    assert ExecLast<int, int>(c, fuel, One(Loop()), {"l"}, w1).0 == Normal;
    assert ExecLast<int, int>(c, fuel, list, {"l"}, w0).0 == Normal;
    assert {} + {"l"} == {"l"};
    assert Exec<int, int>(c, fuel, Labelled(1, "l", Seq(1, list)), {}, true, w0).0 == Normal;
    OneItem(c, fuel, Labelled(1, "l", Seq(1, list)), true, w);
  }

  /** The label now stands before the counter. */
  function Separated(): Stmts
  {
    var body := Block(SCons(Count(1), One(Continue(1, Some("l")))));
    SCons(Count(1), SCons(Labelled(1, "l", Count(1)),
      SCons(Simple(1, Some(LEAF)), SCons(Count(1), One(ForIn(1, LEAF, LEAF, body))))))
  }

  lemma LoopOutput()
    ensures Instrument(Simple(1, Some(LEAF)), false, []) == SCons(Count(1), One(Simple(1, Some(LEAF))))
    ensures Instrument(Loop(), false, [])
         == SCons(Count(1), One(ForIn(1, LEAF, LEAF, Block(SCons(Count(1), One(Continue(1, Some("l"))))))))
  {
    var jump := Continue(1, Some("l"));
    assert InstrumentExpr(LEAF, []) == LEAF;
    assert Instrument(jump, false, []) == SCons(Count(1), One(jump));
  }

  lemma SeparatedOutput()
    ensures InstrumentList(LabelledSeq(), []) == Separated()
  {
    var first, jump := Simple(1, Some(LEAF)), Continue(1, Some("l"));
    var body := Block(SCons(Count(1), One(jump)));
    var loop := ForIn(1, LEAF, LEAF, body);
    LoopOutput();
    AppendNil(SCons(Count(1), One(loop)));
    var list := SCons(first, One(Loop()));
    assert InstrumentList(list, []) == Append(SCons(Count(1), One(first)), SCons(Count(1), One(loop)));
    assert Output(Seq(1, list), false, []) == InstrumentList(list, []);
    var s := Labelled(1, "l", Seq(1, list));
    assert Output(s, false, []) == Prefix(1, "l", InstrumentList(list, []));
    assert InstrumentList(One(s), []) == Append(SCons(Count(1), Output(s, false, [])), SNil);
    AppendNil(SCons(Count(1), Output(s, false, [])));
  }

  lemma SeparatedLoop(c: Config<int, int>, fuel: nat, w: World<int>)
    requires c.m == Doubling() && fuel > 1
    ensures Items(c, fuel, Separated(), true, w).0 == Continued(Some("l"))
  {
    var first, labelled := Simple(1, Some(LEAF)), Labelled(1, "l", Count(1));
    var body := Block(SCons(Count(1), One(Continue(1, Some("l")))));
    var loop := ForIn(1, LEAF, LEAF, body);
    forall v ensures Item<int, int>(c, fuel, body, false, v).0 == Continued(Some("l")) {
      JumpItems(c, fuel, v);
    }
    CountItem(c, fuel, 1, Separated().tail, true, w);
    var v := Bump(w, 1);
    var v1 := Bump(Logged(v, labelled), 1);
    assert Exec<int, int>(c, fuel, Count(1), {"l"}, false, Logged(v, labelled)) == (Normal, v1);
    assert {} + {"l"} == {"l"};
    assert Exec<int, int>(c, fuel, labelled, {}, true, Logged(v, labelled)) == (Normal, v1);
    assert Item<int, int>(c, fuel, labelled, true, v) == (Normal, v1);
    OneMoreItem(c, fuel, labelled, Separated().tail.tail, true, v);
    LeafStep(c, fuel, Logged(v1, first));
    var v2 := Set(Logged(v1, first), 2 * v1.store);
    assert Item<int, int>(c, fuel, first, true, v1) == (Normal, v2);
    OneMoreItem(c, fuel, first, SCons(Count(1), One(loop)), true, v1);
    CountItem(c, fuel, 1, One(loop), true, v2);
    LoopAtTop(c, fuel, body, Logged(Bump(v2, 1), loop));
    OneItem(c, fuel, loop, true, Bump(v2, 1));
  }

  lemma LoopAtTop(c: Config<int, int>, fuel: nat, body: Stmt, w: World<int>)
    requires c.m == Doubling() && fuel > 1
    requires forall v :: Item(c, fuel, body, false, v).0 == Continued(Some("l"))
    ensures Exec(c, fuel, ForIn(1, LEAF, LEAF, body), {}, true, w).0 == Continued(Some("l"))
  {
    LoopExec(c, fuel, body, {}, w);
    assert Exec<int, int>(c, fuel, ForIn(1, LEAF, LEAF, body), {}, true, w)
        == Exec<int, int>(c, fuel, ForIn(1, LEAF, LEAF, body), {}, false, w);
  }

  /** The original runs to its end; in the instrumented program the jump finds no such label. */
  lemma LabelledSeqDiffers(fuel: nat)
    requires fuel > 1
    ensures RunProgram(Doubling(), fuel, LabelledSeq(), 0, map[]).0 == Normal
    ensures RunProgram(Doubling(), fuel, InstrumentList(LabelledSeq(), []), 0, map[]).0 == Continued(Some("l"))
  {
    SeparatedOutput();
    hide Items;
    var p := LabelledSeq();
    LabelledLoop(Config(Doubling(), InList(p)), fuel,
                 Set(World(0, [], map[], map[]), DeclareAll(Config(Doubling(), InList(p)), Hoisted(p), 0)));
    var q := Separated();
    SeparatedLoop(Config(Doubling(), InList(q)), fuel,
                  Set(World(0, [], map[], map[]), DeclareAll(Config(Doubling(), InList(q)), Hoisted(q), 0)));
  }
}
