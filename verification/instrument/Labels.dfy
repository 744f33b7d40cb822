/**
 * Whether the jumps of an instrumented program find their labels. A program in which one does not
 * is no JavaScript program at all: it is a syntax error to break or continue to an unknown label.
 */
module Labels {
  import opened Options
  import opened Syntax
  import opened Instrumentation
  import opened Sound

  // ----- Jumps and labels within one function body or program -----

  predicate Bound(s: Stmt, labels: set<Name>)
  {
    match s
    case Block(list) => BoundList(list, labels)
    case Seq(_, list) => BoundList(list, labels)
    case Scope(list) => BoundList(list, labels)
    case If(_, _, yes, _, no, _) => Bound(yes, labels) && (no.Some? ==> Bound(no.value, labels))
    case Switch(_, _, cases) => BoundCases(cases, labels)
    case While(_, _, body) => Bound(body, labels)
    case DoWhile(_, body, _) => Bound(body, labels)
    case For(_, _, _, _, body) => Bound(body, labels)
    case ForIn(_, _, _, body) => Bound(body, labels)
    case Try(_, block, catches, last) =>
      Bound(block, labels) && BoundCatches(catches, labels) && (last.Some? ==> Bound(last.value, labels))
    case Break(_, l) => l.Some? ==> l.value in labels
    case Continue(_, l) => l.Some? ==> l.value in labels
    case With(_, _, body) => Bound(body, labels)
    case Labelled(_, l, body) => Bound(body, labels + {l})
    case _ => true
  }

  predicate BoundList(list: Stmts, labels: set<Name>)
  {
    match list
    case SNil => true
    case SCons(s, rest) => Bound(s, labels) && BoundList(rest, labels)
  }

  predicate BoundCases(cases: Cases, labels: set<Name>)
  {
    match cases
    case NoCase => true
    case Case(_, body, more) => BoundList(body, labels) && BoundCases(more, labels)
  }

  predicate BoundCatches(catches: Catches, labels: set<Name>)
  {
    match catches
    case NoCatch => true
    case Catch(_, _, body, more) => Bound(body, labels) && BoundCatches(more, labels)
  }

  // ----- The same, without the labels of for-in loops with an initialiser -----

  predicate Kept(s: Stmt, labels: set<Name>)
  {
    match s
    case Block(list) => KeptList(list, labels)
    case Seq(_, list) => KeptList(list, labels)
    case Scope(list) => KeptList(list, labels)
    case If(_, _, yes, _, no, _) => Kept(yes, labels) && (no.Some? ==> Kept(no.value, labels))
    case Switch(_, _, cases) => KeptCases(cases, labels)
    case While(_, _, body) => Kept(body, labels)
    case DoWhile(_, body, _) => Kept(body, labels)
    case For(_, _, _, _, body) => Kept(body, labels)
    case ForIn(_, _, _, body) => Kept(body, labels)
    case Try(_, block, catches, last) =>
      Kept(block, labels) && KeptCatches(catches, labels) && (last.Some? ==> Kept(last.value, labels))
    case Break(_, l) => l.Some? ==> l.value in labels
    case Continue(_, l) => l.Some? ==> l.value in labels
    case With(_, _, body) => Kept(body, labels)
    case Labelled(_, l, body) => Kept(body, if Single(s) then labels + {l} else labels)
    case _ => true
  }

  predicate KeptList(list: Stmts, labels: set<Name>)
  {
    match list
    case SNil => true
    case SCons(s, rest) => Kept(s, labels) && KeptList(rest, labels)
  }

  predicate KeptCases(cases: Cases, labels: set<Name>)
  {
    match cases
    case NoCase => true
    case Case(_, body, more) => KeptList(body, labels) && KeptCases(more, labels)
  }

  predicate KeptCatches(catches: Catches, labels: set<Name>)
  {
    match catches
    case NoCatch => true
    case Catch(_, _, body, more) => Kept(body, labels) && KeptCatches(more, labels)
  }

  // ----- What the parser makes of a for-in loop with an initialiser: a declaration, and the loop -----

  predicate Shaped(s: Stmt)
  {
    match s
    case Block(list) => ShapedList(list)
    case Seq(_, list) => list.SCons? && list.head.Simple? && ShapedList(list.tail)
    case Scope(list) => ShapedList(list)
    case If(_, _, yes, _, no, _) => Shaped(yes) && (no.Some? ==> Shaped(no.value))
    case Switch(_, _, cases) => ShapedCases(cases)
    case While(_, _, body) => Shaped(body)
    case DoWhile(_, body, _) => Shaped(body)
    case For(_, _, _, _, body) => Shaped(body)
    case ForIn(_, _, _, body) => Shaped(body)
    case Try(_, block, catches, last) => Shaped(block) && ShapedCatches(catches) && (last.Some? ==> Shaped(last.value))
    case With(_, _, body) => Shaped(body)
    case Labelled(_, _, body) => Shaped(body)
    case _ => true
  }

  predicate ShapedList(list: Stmts)
  {
    match list
    case SNil => true
    case SCons(s, rest) => Shaped(s) && ShapedList(rest)
  }

  predicate ShapedCases(cases: Cases)
  {
    match cases
    case NoCase => true
    case Case(_, body, more) => ShapedList(body) && ShapedCases(more)
  }

  predicate ShapedCatches(catches: Catches)
  {
    match catches
    case NoCatch => true
    case Catch(_, _, body, more) => Shaped(body) && ShapedCatches(more)
  }

  // ----- Which jumps of the instrumented program find their labels -----

  lemma {:induction false} BoundAppend(a: Stmts, b: Stmts, labels: set<Name>)
    ensures BoundList(Append(a, b), labels) <==> BoundList(a, labels) && BoundList(b, labels)
  {
    match a
    case SNil =>
    case SCons(s, rest) => BoundAppend(rest, b, labels);
  }

  lemma {:induction false} ListBound(list: Stmts, ds: seq<bool>, labels: set<Name>)
    requires ShapedList(list)
    ensures BoundList(InstrumentList(list, ds), labels) <==> KeptList(list, labels)
  {
    match list
    case SNil =>
    case SCons(s, rest) =>
      ItemBound(s, false, ds, labels);
      ListBound(rest, ds, labels);
      BoundAppend(Instrument(s, false, ds), InstrumentList(rest, ds), labels);
  }

  lemma {:induction false} ItemBound(s: Stmt, inherit: bool, ds: seq<bool>, labels: set<Name>)
    requires Shaped(s)
    ensures BoundList(Instrument(s, inherit, ds), labels) <==> Kept(s, labels)
    ensures Bound(Block(Instrument(s, inherit, ds)), labels) <==> Kept(s, labels)
    decreases s, 2
  {
    StmtBound(s, inherit, ds, labels);
    if Counted(s) {
      assert Bound(Count(LineOf(s)), labels);
    }
  }

  lemma MarkedBound(mark: bool, first: nat, end: nat, list: Stmts, labels: set<Name>)
    ensures Bound(Block(Marked(mark, first, end, list)), labels) <==> BoundList(list, labels)
  {
    assert Bound(SetConditional(first, end), labels);
    assert Bound(Block(Marked(mark, first, end, list)), labels) == BoundList(Marked(mark, first, end, list), labels);
  }

  lemma OneBound(s: Stmt, labels: set<Name>)
    ensures BoundList(One(s), labels) <==> Bound(s, labels)
  {
  }

  /**
   * All jumps in what is written for a statement find their labels exactly if those in the
   * statement do without the labels of for-in loops with an initialiser.
   */
  lemma {:induction false} StmtBound(s: Stmt, inherit: bool, ds: seq<bool>, labels: set<Name>)
    requires Shaped(s)
    ensures BoundList(Output(s, inherit, ds), labels) <==> Kept(s, labels)
    decreases s, 1
  {
    if !s.Block? && !s.Seq? && !s.Labelled? {
      OneBound(Output(s, inherit, ds).head, labels);
    }
    match s
    case Block(list) => ListBound(list, ds, labels);
    case Seq(_, list) => SeqBound(s, ds, labels);
    case Scope(list) => ListBound(list, ds, labels);
    case If(_, _, yes, yesAt, no, noAt) => IfBound(s, inherit, ds, labels);
    case Switch(_, _, cases) => CasesBound(cases, ds, labels);
    case While(_, _, body) => ItemBound(body, false, ds, labels);
    case DoWhile(_, body, _) => ItemBound(body, false, ds, labels);
    case For(_, _, _, _, body) => ItemBound(body, false, ds, labels);
    case ForIn(_, _, _, body) => ItemBound(body, false, ds, labels);
    case Try(_, block, catches, last) =>
      ItemBound(block, false, ds, labels);
      CatchesBound(catches, ds, labels);
      if last.Some? {
        ItemBound(last.value, false, ds, labels);
      }
    case With(_, _, body) => ItemBound(body, false, ds, labels);
    case Labelled(_, _, _) => LabelledBound(s, inherit, ds, labels);
    case _ =>
  }

  lemma {:induction false} LabelledBound(s: Stmt, inherit: bool, ds: seq<bool>, labels: set<Name>)
    requires s.Labelled? && Shaped(s)
    ensures BoundList(Output(s, inherit, ds), labels) <==> Kept(s, labels)
    decreases s, 0
  {
    var line, l, body := s.line, s.name, s.body;
    if body.Block? {
      ListBound(body.list, ds, labels + {l});
      OneBound(Labelled(line, l, Block(InstrumentList(body.list, ds))), labels);
    } else if Single(s) {
      StmtBound(body, false, ds, labels + {l});
      SingleOutput(body, false, ds);
      var t := Output(body, false, ds).head;
      OneBound(t, labels + {l});
      OneBound(Labelled(line, l, t), labels);
      assert Output(body, false, ds) == One(t);
    } else {
      StmtBound(body, false, ds, labels);
      HeadHasNoJumps(body, ds);
    }
  }

  /** A statement in which there are no jumps. */
  predicate NoJump(s: Stmt)
  {
    match s
    case Count(_) => true
    case Simple(_, _) => true
    case Labelled(_, _, body) => NoJump(body)
    case _ => false
  }

  lemma {:induction false} NoJumpBound(s: Stmt, labels: set<Name>)
    requires NoJump(s)
    ensures Bound(s, labels)
  {
    if s.Labelled? {
      NoJumpBound(s.body, labels + {s.name});
    }
  }

  /** What comes to stand directly after such a label contains no jumps. */
  lemma {:induction false} HeadHasNoJumps(s: Stmt, ds: seq<bool>)
    requires Shaped(s) && !s.Block? && !Single(s)
    ensures Output(s, false, ds).SCons? && NoJump(Output(s, false, ds).head)
    ensures forall l, line, labels :: Bound(Labelled(line, l, Output(s, false, ds).head), labels)
    ensures forall labels :: Bound(Output(s, false, ds).head, labels)
  {
    match s
    case Seq(_, list) =>
      assert Instrument(list.head, false, ds).SCons?;
      assert Output(s, false, ds).head == Instrument(list.head, false, ds).head;
    case Labelled(_, _, body) => HeadHasNoJumps(body, ds);
    var t := Output(s, false, ds).head;
    forall labels ensures Bound(t, labels) {
      NoJumpBound(t, labels);
    }
  }

  lemma {:induction false} SeqBound(s: Stmt, ds: seq<bool>, labels: set<Name>)
    requires s.Seq? && Shaped(s)
    ensures BoundList(Output(s, false, ds), labels) <==> Kept(s, labels)
    decreases s, 0
  {
    var first, rest := s.list.head, s.list.tail;
    ListBound(rest, ds, labels);
    BoundAppend(Instrument(first, false, ds), InstrumentList(rest, ds), labels);
    OneBound(Simple(first.line, InstrumentOption(first.e, ds)), labels);
    assert Output(first, false, ds) == One(Simple(first.line, InstrumentOption(first.e, ds)));
    assert Bound(Count(LineOf(first)), labels);
    assert BoundList(Instrument(first, false, ds), labels);
    assert Output(s, false, ds) == InstrumentList(s.list, ds);
    assert Kept(s, labels) == KeptList(s.list, labels);
    assert Kept(first, labels);
  }

  lemma {:induction false} IfBound(s: Stmt, inherit: bool, ds: seq<bool>, labels: set<Name>)
    requires s.If? && Shaped(s)
    ensures Bound(Output(s, inherit, ds).head, labels) <==> Kept(s, labels)
    decreases s, 0
  {
    var mark := inherit || Directive(ds, s.line);
    ItemBound(s.yes, false, ds, labels);
    MarkedBound(mark && s.no.Some?, s.noAt.begin, s.noAt.end + 1, Instrument(s.yes, false, ds), labels);
    if s.no.Some? {
      ItemBound(s.no.value, mark, ds, labels);
      MarkedBound(mark, s.yesAt.begin + 1, s.yesAt.end + 1, Instrument(s.no.value, mark, ds), labels);
    } else {
      MarkedBound(true, s.yesAt.begin + 1, s.yesAt.end + 1, SNil, labels);
    }
  }

  lemma {:induction false} CasesBound(cases: Cases, ds: seq<bool>, labels: set<Name>)
    requires ShapedCases(cases)
    ensures BoundCases(InstrumentCases(cases, ds), labels) <==> KeptCases(cases, labels)
  {
    match cases
    case NoCase =>
    case Case(_, body, more) => ListBound(body, ds, labels); CasesBound(more, ds, labels);
  }

  lemma {:induction false} CatchesBound(catches: Catches, ds: seq<bool>, labels: set<Name>)
    requires ShapedCatches(catches)
    ensures BoundCatches(InstrumentCatches(catches, ds), labels) <==> KeptCatches(catches, labels)
  {
    match catches
    case NoCatch =>
    case Catch(_, _, body, more) => ItemBound(body, false, ds, labels); CatchesBound(more, ds, labels);
  }

  /** An example: the original finds its label, the instrumented program does not. */
  lemma LabelLost()
    ensures var leaf := Op("leaf", ENil);
            var s := Labelled(1, "l", Seq(1, SCons(Simple(1, Some(leaf)), One(ForIn(1, leaf, leaf, Continue(1, Some("l")))))));
            Shaped(s) && Bound(s, {}) && !BoundList(Instrument(s, false, []), {})
  {
    var leaf := Op("leaf", ENil);
    var loop := ForIn(1, leaf, leaf, Continue(1, Some("l")));
    var s := Labelled(1, "l", Seq(1, SCons(Simple(1, Some(leaf)), One(loop))));
    assert ShapedList(One(loop));
    assert Bound(Continue(1, Some("l")), {} + {"l"});
    assert Bound(loop, {} + {"l"});
    assert BoundList(One(loop), {} + {"l"});
    assert Bound(s.body, {} + {"l"});
    assert !Kept(Continue(1, Some("l")), {});
    assert !Kept(loop, {});
    assert !KeptList(One(loop), {});
    ItemBound(s, false, [], {});
  }
}
