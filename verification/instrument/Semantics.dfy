/**
 * What a program does. Everything the instrumenter does not touch is left to a machine: what the
 * operators do with their operands and the store, which function a call enters, how scopes open.
 */
module Semantics {
  import opened Options
  import opened Syntax

  /** What an operator does next: evaluate an operand, enter a function, or end. */
  datatype Step<S, V> =
    | Kid(i: nat, s: S)
    | Enter(id: nat, s: S)
    | Done(v: V, s: S)
    | Fail(v: V, s: S)

  datatype Machine<!S, !V> = Machine(
    step: (string, seq<V>, S) -> Step<S, V>,      // given the values the operator has obtained so far
    closure: (nat, S) -> (V, S),                  // a function expression
    declare: (nat, S) -> S,                       // a function statement
    leave: S -> S,                                // on return from a function
    nothing: V,
    truthy: V -> bool,
    same: (V, V) -> bool,                         // ===
    open: (Option<V>, S) -> S,                    // a block, a catch clause, or an object for with
    close: S -> S,
    nextKey: (V, nat, S) -> Option<(V, S)>)       // for-in

  /** The code of the functions, by number. */
  datatype Config<!S, !V> = Config(m: Machine<S, V>, code: map<nat, Body>)

  datatype Counter = Num(n: nat) | NaN

  /** log lists the counted statements that have been entered. */
  datatype World<S> = World(store: S, log: seq<nat>, counts: map<nat, Counter>, conditionals: map<nat, nat>)

  /** Halt: out of fuel. */
  datatype Result<V> = Value(v: V) | Raised(v: V) | Halt

  datatype Completion<V> =
    | Normal
    | Broken(jump: Option<Name>)
    | Continued(jump: Option<Name>)
    | Returned(v: V)
    | Thrown(v: V)
    | Halted

  function Set<S>(w: World<S>, s: S): World<S>
  {
    w.(store := s)
  }

  /** Adding one to a counter that does not exist gives NaN. */
  function Bump<S>(w: World<S>, line: nat): World<S>
  {
    var n := if line in w.counts && w.counts[line].Num? then Num(w.counts[line].n + 1) else NaN;
    w.(counts := w.counts[line := n])
  }

  function Logged<S>(w: World<S>, s: Stmt): World<S>
  {
    if Counted(s) then w.(log := w.log + [LineOf(s)]) else w
  }

  // ----- Expressions -----

  function Eval<S, V>(c: Config<S, V>, fuel: nat, e: Expr, w: World<S>): (Result<V>, World<S>)
    decreases fuel, e, 1
  {
    match e
    case Op(op, kids) => Operate(c, fuel, op, kids, [], w)
    case Function(id, _) => var (v, s) := c.m.closure(id, w.store); (Value(v), Set(w, s))
  }

  /** The operator, when it has obtained the values h. */
  function Operate<S, V>(c: Config<S, V>, fuel: nat, op: string, kids: Exprs, h: seq<V>,
      w: World<S>): (Result<V>, World<S>)
    decreases fuel, kids, 1
  {
    if fuel == 0 then (Halt, w) else
    match c.m.step(op, h, w.store)
    case Done(v, s) => (Value(v), Set(w, s))
    case Fail(v, s) => (Raised(v), Set(w, s))
    case Kid(i, s) =>
      var (r, w1) := EvalKid(c, fuel, kids, i, Set(w, s));
      if r.Value? then Operate(c, fuel - 1, op, kids, h + [r.v], w1) else (r, w1)
    case Enter(id, s) =>
      var (r, w1) := Call(c, fuel - 1, id, Set(w, s));
      if r.Value? then Operate(c, fuel - 1, op, kids, h + [r.v], w1) else (r, w1)
  }

  function EvalKid<S, V>(c: Config<S, V>, fuel: nat, kids: Exprs, i: nat, w: World<S>): (Result<V>, World<S>)
    decreases fuel, kids, 0
  {
    match kids
    case ENil => (Value(c.m.nothing), w)
    case ECons(e, rest) => if i == 0 then Eval(c, fuel, e, w) else EvalKid(c, fuel, rest, i - 1, w)
  }

  function EvalOption<S, V>(c: Config<S, V>, fuel: nat, e: Option<Expr>, w: World<S>): (Result<V>, World<S>)
    decreases fuel, e, 0
  {
    match e
    case None => (Value(c.m.nothing), w)
    case Some(e') => Eval(c, fuel, e', w)
  }

  /** An expression that receives a value: the target of a for-in loop or of a catch clause. */
  function Assign<S, V>(c: Config<S, V>, fuel: nat, e: Expr, v: V, w: World<S>): (Result<V>, World<S>)
    decreases fuel, e, 1
  {
    match e
    case Op(op, kids) => Operate(c, fuel, op, kids, [v], w)
    case Function(_, _) => (Value(v), w)
  }

  function Call<S, V>(c: Config<S, V>, fuel: nat, id: nat, w: World<S>): (Result<V>, World<S>)
    decreases fuel, 0, 0
  {
    if fuel == 0 then (Halt, w)
    else if id !in c.code then (Value(c.m.nothing), w)
    else
      var (k, w1) := Run(c, fuel - 1, c.code[id], w);
      var w2 := Set(w1, c.m.leave(w1.store));
      match k
      case Returned(v) => (Value(v), w2)
      case Thrown(v) => (Raised(v), w2)
      case Halted => (Halt, w1)
      case _ => (Value(c.m.nothing), w2)
  }

  // ----- Bodies -----

  /** The functions declared by a list itself, not by the blocks in it. */
  function Hoisted(list: Stmts): seq<nat>
  {
    match list
    case SNil => []
    case SCons(s, rest) => (if s.Declare? then [s.id] else []) + Hoisted(rest)
  }

  function DeclareAll<S, V>(c: Config<S, V>, ids: seq<nat>, s: S): S
    decreases |ids|
  {
    if |ids| == 0 then s else DeclareAll(c, ids[1..], c.m.declare(ids[0], s))
  }

  /** Function declarations come first. */
  function Run<S, V>(c: Config<S, V>, fuel: nat, b: Body, w: World<S>): (Completion<V>, World<S>)
    decreases fuel, b, 0
  {
    match b
    case Statements(list) => Items(c, fuel, list, true, Set(w, DeclareAll(c, Hoisted(list), w.store)))
    case Closure(_, e) =>
      var (r, w1) := Eval(c, fuel, e, w);
      if r.Value? then (Returned(r.v), w1) else (Abrupt(r), w1)
  }

  // ----- Statements -----

  function Abrupt<V>(r: Result<V>): Completion<V>
  {
    match r
    case Value(_) => Normal
    case Raised(v) => Thrown(v)
    case Halt => Halted
  }

  /** A loop with these labels goes on after this completion of its body. */
  predicate GoesOn<V>(k: Completion<V>, labels: set<Name>)
  {
    k.Normal? || (k.Continued? && (k.jump.None? || k.jump.value in labels))
  }

  /** What a loop makes of a completion that ends it. */
  function LoopEnd<V>(k: Completion<V>): Completion<V>
  {
    if k == Broken(None) then Normal else k
  }

  /** Statements in a list; top says whether it is that of a function body or program. */
  function Items<S, V>(c: Config<S, V>, fuel: nat, list: Stmts, top: bool, w: World<S>): (Completion<V>, World<S>)
    decreases fuel, list, 0
  {
    match list
    case SNil => (Normal, w)
    case SCons(s, rest) =>
      var (k, w1) := Item(c, fuel, s, top, w);
      if k.Normal? then Items(c, fuel, rest, top, w1) else (k, w1)
  }

  /** A statement in statement position: if it is of a kind that is counted, its being entered is logged. */
  function Item<S, V>(c: Config<S, V>, fuel: nat, s: Stmt, top: bool, w: World<S>): (Completion<V>, World<S>)
    decreases fuel, s, 3
  {
    Exec(c, fuel, s, {}, top, Logged(w, s))
  }

  /** The statement itself, which has the given labels. */
  function Exec<S, V>(c: Config<S, V>, fuel: nat, s: Stmt, labels: set<Name>, top: bool,
      w: World<S>): (Completion<V>, World<S>)
    decreases fuel, s, 2
  {
    match s
    case Block(list) => Items(c, fuel, list, false, w)
    case Scope(list) =>
      var (k, w1) := Items(c, fuel, list, false, Set(w, c.m.open(None, w.store)));
      (k, Set(w1, c.m.close(w1.store)))
    case Seq(_, list) => ExecLast(c, fuel, list, labels, w)
    case Declare(_, id, _) => (Normal, if top then w else Set(w, c.m.declare(id, w.store)))
    case Simple(_, e) => var (r, w1) := EvalOption(c, fuel, e, w); (Abrupt(r), w1)
    case If(_, cond, yes, _, no, _) =>
      var (r, w1) := Eval(c, fuel, cond, w);
      if !r.Value? then (Abrupt(r), w1)
      else if c.m.truthy(r.v) then Item(c, fuel, yes, false, w1)
      else ItemOption(c, fuel, no, w1)
    case Switch(_, subject, cases) =>
      var (r, w1) := Eval(c, fuel, subject, w);
      if !r.Value? then (Abrupt(r), w1)
      else
        var (k, w2) := Select(c, fuel, r.v, cases, cases, w1);
        (LoopEnd(k), w2)
    case While(_, _, _) => WhileLoop(c, fuel, s, labels, w)
    case DoWhile(_, _, _) => DoLoop(c, fuel, s, labels, w)
    case For(_, init, _, _, _) =>
      var (r, w1) := EvalOption(c, fuel, init, w);
      if !r.Value? then (Abrupt(r), w1) else ForLoop(c, fuel, s, labels, w1)
    case ForIn(_, _, subject, _) =>
      var (r, w1) := Eval(c, fuel, subject, w);
      if !r.Value? then (Abrupt(r), w1) else ForInLoop(c, fuel, s, labels, r.v, 0, w1)
    case Throw(_, e) =>
      var (r, w1) := Eval(c, fuel, e, w);
      (if r.Value? then Thrown(r.v) else Abrupt(r), w1)
    case Try(_, block, catches, last) =>
      var (k, w1) := Item(c, fuel, block, false, w);
      var (k1, w2) := if k.Thrown? then Handle(c, fuel, k.v, catches, w1) else (k, w1);
      if k1.Halted? then (k1, w2)
      else
        var (k2, w3) := ItemOption(c, fuel, last, w2);
        (if k2.Normal? then k1 else k2, w3)
    case Break(_, l) => (Broken(l), w)
    case Continue(_, l) => (Continued(l), w)
    case With(_, subject, body) =>
      var (r, w1) := Eval(c, fuel, subject, w);
      if !r.Value? then (Abrupt(r), w1)
      else
        var (k, w2) := Item(c, fuel, body, false, Set(w1, c.m.open(Some(r.v), w1.store)));
        (k, Set(w2, c.m.close(w2.store)))
    case Return(_, e) =>
      var (r, w1) := EvalOption(c, fuel, e, w);
      (if r.Value? then Returned(r.v) else Abrupt(r), w1)
    case Labelled(_, l, body) =>
      var (k, w1) := Exec(c, fuel, body, labels + {l}, false, w);
      (if k == Broken(Some(l)) then Normal else k, w1)
    case Count(line) => (Normal, Bump(w, line))
    case SetConditional(first, end) => (Normal, w.(conditionals := w.conditionals[first := end]))
  }

  /** The statements of a TOK_SEQ: the last one is the loop, and has the labels of the whole. */
  function ExecLast<S, V>(c: Config<S, V>, fuel: nat, list: Stmts, labels: set<Name>,
      w: World<S>): (Completion<V>, World<S>)
    decreases fuel, list, 1
  {
    match list
    case SNil => (Normal, w)
    case SCons(s, rest) =>
      if rest.SNil? then Exec(c, fuel, s, labels, false, Logged(w, s))
      else
        var (k, w1) := Item(c, fuel, s, false, w);
        if k.Normal? then ExecLast(c, fuel, rest, labels, w1) else (k, w1)
  }

  function ItemOption<S, V>(c: Config<S, V>, fuel: nat, s: Option<Stmt>, w: World<S>): (Completion<V>, World<S>)
    decreases fuel, s, 0
  {
    match s
    case None => (Normal, w)
    case Some(s') => Item(c, fuel, s', false, w)
  }

  function WhileLoop<S, V>(c: Config<S, V>, fuel: nat, s: Stmt, labels: set<Name>, w: World<S>): (Completion<V>, World<S>)
    requires s.While?
    decreases fuel, s, 1
  {
    if fuel == 0 then (Halted, w) else
    var (r, w1) := Eval(c, fuel, s.cond, w);
    if !r.Value? then (Abrupt(r), w1)
    else if !c.m.truthy(r.v) then (Normal, w1)
    else
      var (k, w2) := Item(c, fuel, s.body, false, w1);
      if GoesOn(k, labels) then WhileLoop(c, fuel - 1, s, labels, w2) else (LoopEnd(k), w2)
  }

  function DoLoop<S, V>(c: Config<S, V>, fuel: nat, s: Stmt, labels: set<Name>, w: World<S>): (Completion<V>, World<S>)
    requires s.DoWhile?
    decreases fuel, s, 1
  {
    if fuel == 0 then (Halted, w) else
    var (k, w1) := Item(c, fuel, s.body, false, w);
    if !GoesOn(k, labels) then (LoopEnd(k), w1)
    else
      var (r, w2) := Eval(c, fuel, s.cond, w1);
      if !r.Value? then (Abrupt(r), w2)
      else if c.m.truthy(r.v) then DoLoop(c, fuel - 1, s, labels, w2)
      else (Normal, w2)
  }

  function ForLoop<S, V>(c: Config<S, V>, fuel: nat, s: Stmt, labels: set<Name>, w: World<S>): (Completion<V>, World<S>)
    requires s.For?
    decreases fuel, s, 1
  {
    if fuel == 0 then (Halted, w) else
    var (r, w1) := EvalOption(c, fuel, s.test, w);
    if !r.Value? then (Abrupt(r), w1)
    else if s.test.Some? && !c.m.truthy(r.v) then (Normal, w1)
    else
      var (k, w2) := Item(c, fuel, s.body, false, w1);
      if !GoesOn(k, labels) then (LoopEnd(k), w2)
      else
        var (r1, w3) := EvalOption(c, fuel, s.step, w2);
        if !r1.Value? then (Abrupt(r1), w3) else ForLoop(c, fuel - 1, s, labels, w3)
  }

  /** From the i-th key of v on. */
  function ForInLoop<S, V>(c: Config<S, V>, fuel: nat, s: Stmt, labels: set<Name>, v: V, i: nat, w: World<S>)
    : (Completion<V>, World<S>)
    requires s.ForIn?
    decreases fuel, s, 1
  {
    if fuel == 0 then (Halted, w) else
    match c.m.nextKey(v, i, w.store)
    case None => (Normal, w)
    case Some((key, store)) =>
      var (r, w1) := Assign(c, fuel, s.target, key, Set(w, store));
      if !r.Value? then (Abrupt(r), w1)
      else
        var (k, w2) := Item(c, fuel, s.body, false, w1);
        if GoesOn(k, labels) then ForInLoop(c, fuel - 1, s, labels, v, i + 1, w2) else (LoopEnd(k), w2)
  }

  /** Looks for the case to start from: the first one whose test is v, or else the default. */
  function Select<S, V>(c: Config<S, V>, fuel: nat, v: V, rest: Cases, all: Cases, w: World<S>): (Completion<V>, World<S>)
    decreases fuel, rest, 1
  {
    if fuel == 0 then (Halted, w) else
    match rest
    case NoCase => FromDefault(c, fuel - 1, all, w)
    case Case(test, body, more) =>
      if test.None? then Select(c, fuel, v, more, all, w)
      else
        var (r, w1) := Eval(c, fuel, test.value, w);
        if !r.Value? then (Abrupt(r), w1)
        else if c.m.same(v, r.v) then FallThrough(c, fuel - 1, rest, w1)
        else Select(c, fuel, v, more, all, w1)
  }

  function FromDefault<S, V>(c: Config<S, V>, fuel: nat, cases: Cases, w: World<S>): (Completion<V>, World<S>)
    decreases fuel, cases, 1
  {
    match cases
    case NoCase => (Normal, w)
    case Case(test, _, more) => if test.None? then FallThrough(c, fuel, cases, w) else FromDefault(c, fuel, more, w)
  }

  function FallThrough<S, V>(c: Config<S, V>, fuel: nat, cases: Cases, w: World<S>): (Completion<V>, World<S>)
    decreases fuel, cases, 0
  {
    match cases
    case NoCase => (Normal, w)
    case Case(_, body, more) =>
      var (k, w1) := Items(c, fuel, body, false, w);
      if k.Normal? then FallThrough(c, fuel, more, w1) else (k, w1)
  }

  /** The catch clauses, in order; without one that takes it the exception goes on. */
  function Handle<S, V>(c: Config<S, V>, fuel: nat, v: V, catches: Catches, w: World<S>): (Completion<V>, World<S>)
    decreases fuel, catches, 0
  {
    match catches
    case NoCatch => (Thrown(v), w)
    case Catch(target, guard, body, more) =>
      var (r, w1) := Assign(c, fuel, target, v, Set(w, c.m.open(None, w.store)));
      if !r.Value? then (Abrupt(r), Set(w1, c.m.close(w1.store)))
      else
        var (r1, w2) := EvalOption(c, fuel, guard, w1);
        if !r1.Value? then (Abrupt(r1), Set(w2, c.m.close(w2.store)))
        else if guard.Some? && !c.m.truthy(r1.v) then Handle(c, fuel, v, more, Set(w2, c.m.close(w2.store)))
        else
          var (k, w3) := Item(c, fuel, body, false, w2);
          (k, Set(w3, c.m.close(w3.store)))
  }
}
