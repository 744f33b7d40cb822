/** Whole runs of the interning protocol: what the atoms returned by different calls have to do with each other. */
module InternRuns {
  import opened Options
  import opened AtomTable
  import opened Interning

  ghost predicate IsRun<C>(states: seq<State<C>>, steps: seq<Step<C>>)
  {
    && |states| == |steps| + 1 && Init(states[0])
    && forall i :: 0 <= i < |steps| ==> Next(states[i], steps[i], states[i + 1])
  }

  ghost predicate AlwaysRecent<C>(states: seq<State<C>>)
  {
    forall i :: 0 <= i < |states| ==> Recent(states[i])
  }

  /** A call that returns in this step: the string it was for, its flag, and the atom. */
  datatype Return<C> = Return(content: C, pin: bool, key: nat)

  function Returned<C>(s: State<C>, step: Step<C>): Option<Return<C>>
  {
    match step
    case Begin(_, c, _, pin, _, Got(k)) => Some(Return(c, pin, k))
    case End(t, _, _, k) => if t in s.waiting then Some(Return(s.waiting[t].content, s.waiting[t].pin, k)) else None
    case _ => None
  }

  ghost predicate Lives<C>(t: Table<C>, r: Return<C>)
  {
    exists p :: p in t.entries && IsEntryOf(t.entries[p], r)
  }

  predicate IsEntryOf<C(==)>(e: Entry<C>, r: Return<C>)
  {
    Matches(e, r.content) && e.key == r.key && (r.pin ==> e.pinned)
  }

  lemma {:induction false} RunKeeps<C>(states: seq<State<C>>, steps: seq<Step<C>>, i: nat)
    requires IsRun(states, steps) && AlwaysRecent(states) && i <= |steps|
    ensures Inv(states[i])
  {
    if i == 0 {
      InvInit(states[0]);
    } else {
      RunKeeps(states, steps, i - 1);
      InvNext(states[i - 1], steps[i - 1], states[i]);
    }
  }

  lemma LivesRehashed<C>(t: Table<C>, from: Option<map<nat, nat>>, r: Return<C>)
    requires Lives(t, r) && (from.Some? ==> Rearranges(t.entries, from.value))
    ensures Lives(Rehashed(t, from), r)
  {
    if from.Some? {
      var p :| p in t.entries && IsEntryOf(t.entries[p], r);
      assert p in from.value.Values;
      var q :| q in from.value && from.value[q] == p;
      assert q in Rehashed(t, from).entries && IsEntryOf(Rehashed(t, from).entries[q], r);
    }
  }

  lemma LivesFlagged<C>(t: Table<C>, p: nat, pin: bool, r: Return<C>)
    requires Lives(t, r) && p in t.entries && t.entries[p].Atom?
    ensures Lives(Put(t, p, Pinned(t.entries[p], pin)), r)
  {
    var q :| q in t.entries && IsEntryOf(t.entries[q], r);
    var t' := Put(t, p, Pinned(t.entries[p], pin));
    assert q in t'.entries && IsEntryOf(t'.entries[q], r);
  }

  /** Filling a slot that holds no atom. */
  lemma LivesFilled<C>(t: Table<C>, p: nat, e: Entry<C>, r: Return<C>, t': Table<C>)
    requires Lives(t, r) && (p in t.entries ==> t.entries[p].Placeholder?) && t'.entries == t.entries[p := e]
    ensures Lives(t', r)
  {
    var q :| q in t.entries && IsEntryOf(t.entries[q], r);
    assert q in t'.entries && IsEntryOf(t'.entries[q], r);
  }

  lemma LivesPut<C>(t: Table<C>, p: nat, r: Return<C>)
    requires p in t.entries && IsEntryOf(t.entries[p], r)
    ensures Lives(t, r)
  {
  }

  lemma LivingIsFound<C>(t: Table<C>, r: Return<C>)
    requires Lives(t, r)
    ensures Has(t, r.content)
  {
    var p :| p in t.entries && IsEntryOf(t.entries[p], r);
    assert p in t.entries && Matches(t.entries[p], r.content);
  }

  lemma FoundIsLiving<C>(t: Table<C>, p: nat, r: Return<C>)
    requires Unique(t) && Lives(t, r) && p in t.entries && Matches(t.entries[p], r.content)
    ensures t.entries[p].key == r.key
  {
    var q :| q in t.entries && IsEntryOf(t.entries[q], r);
    assert SameAtom(t.entries[p], t.entries[q]);
  }

  // ----- One step -----

  /** The table that the critical sections look the string up in. */
  lemma Looked<C>(t: Table<C>, room: Room)
    requires Unique(t) && t.generation == t.changes % UINT32 && Possible(t, room)
    ensures Unique(Rehashed(t, room.from)) && room.slot !in Rehashed(t, room.from).entries
    ensures room.from.Some? ==> Rearranges(t.entries, room.from.value)
  {
    RehashMoves(t, room.from);
    FreeSlot(t, room);
  }

  /** The atom a call returns is in the table then, with its flag. */
  lemma ReturnedLives<C>(s: State<C>, step: Step<C>, s': State<C>)
    requires Inv(s) && Next(s, step, s') && Returned(s, step).Some?
    ensures Lives(s'.table, Returned(s, step).value)
  {
    hide Possible, Rehashed, Unique, AllWaitWell, Has, Lives;
    var t, r := s.table, Returned(s, step).value;
    if step.End? && t.generation == s.waiting[step.thread].gen {
      LivesPut(s'.table, s.waiting[step.thread].slot, r);
    } else {
      Looked(t, step.room);
      var t1 := Rehashed(t, step.room.from);
      if Has(t1, r.content) {
        var p :| p in t1.entries && Matches(t1.entries[p], r.content) && r.key == t1.entries[p].key
          && s'.table == Put(t1, p, Pinned(t1.entries[p], r.pin));
        LivesPut(s'.table, p, r);
      } else {
        LivesPut(s'.table, step.room.slot, r);
      }
    }
  }

  predicate Collects<C>(step: Step<C>, r: Return<C>)
  {
    step.Sweep? && r.key in step.dead && !r.pin
  }

  lemma LivesThroughLookUp<C>(t: Table<C>, room: Room, r: Return<C>)
    requires Unique(t) && t.generation == t.changes % UINT32 && Possible(t, room) && Lives(t, r)
    ensures room.from.Some? ==> Rearranges(t.entries, room.from.value)
    ensures Lives(Rehashed(t, room.from), r)
    ensures room.slot !in Rehashed(t, room.from).entries
  {
    Looked(t, room);
    LivesRehashed(t, room.from, r);
  }

  /** Only a sweep that finds it unreachable and not pinned takes an atom away. */
  lemma StaysAlive<C>(s: State<C>, step: Step<C>, s': State<C>, r: Return<C>)
    requires Inv(s) && Recent(s) && Next(s, step, s') && Lives(s.table, r) && !Collects(step, r)
    ensures Lives(s'.table, r)
  {
    match step
    case Begin(_, _, _, _, _, _) => StaysAliveInBegin(s, step, s', r);
    case End(_, _, _, _) => StaysAliveInEnd(s, step, s', r);
    case GiveUp(_) =>
    case Sweep(dead, from) => StaysAliveInSweep(s.table, dead, from, s'.table, r);
  }

  lemma StaysAliveInBegin<C>(s: State<C>, step: Step<C>, s': State<C>, r: Return<C>)
    requires Inv(s) && Next(s, step, s') && step.Begin? && Lives(s.table, r)
    ensures Lives(s'.table, r)
  {
    hide Possible, Rehashed, Unique, AllWaitWell, Has, Lives;
    assert Possible(s.table, step.room);
    LivesThroughLookUp(s.table, step.room, r);
    var t1, c := Rehashed(s.table, step.room.from), step.content;
    if Has(t1, c) {
      var p :| p in t1.entries && Matches(t1.entries[p], c) && s'.table == Put(t1, p, Pinned(t1.entries[p], step.pin));
      LivesFlagged(t1, p, step.pin, r);
    } else if step.own.Some? {
      LivesFilled(t1, step.room.slot, Atom(c, step.own.value, step.pin), r, s'.table);
    } else {
      LivesFilled(t1, step.room.slot, Placeholder(c), r, s'.table);
    }
  }

  lemma StaysAliveInEnd<C>(s: State<C>, step: Step<C>, s': State<C>, r: Return<C>)
    requires Inv(s) && Recent(s) && Next(s, step, s') && step.End? && Lives(s.table, r)
    ensures Lives(s'.table, r)
  {
    hide Possible, Rehashed, Unique, AllWaitWell, Has, Lives;
    var w := s.waiting[step.thread];
    var e := Atom(w.content, step.key, w.pin);
    if s.table.generation == w.gen {
      PlaceholderReused(s, step.thread);
      LivesFilled(s.table, w.slot, e, r, s'.table);
    } else {
      assert Possible(s.table, step.room);
      LivesThroughLookUp(s.table, step.room, r);
      var t1 := Rehashed(s.table, step.room.from);
      if Has(t1, w.content) {
        var p :| p in t1.entries && Matches(t1.entries[p], w.content) && s'.table == Put(t1, p, Pinned(t1.entries[p], w.pin));
        LivesFlagged(t1, p, w.pin, r);
      } else {
        LivesFilled(t1, step.room.slot, e, r, s'.table);
      }
    }
  }

  lemma StaysAliveInSweep<C>(t: Table<C>, dead: set<nat>, from: Option<map<nat, nat>>, t': Table<C>, r: Return<C>)
    requires Sweeps(t, dead, from, t') && Lives(t, r) && (r.key in dead ==> r.pin)
    ensures Lives(t', r)
  {
    var t1 := t.(entries := Swept(t.entries, dead));
    var p :| p in t.entries && IsEntryOf(t.entries[p], r);
    LivesPut(t1, p, r);
    LivesRehashed(t1, from, r);
    var q :| q in Rehashed(t1, from).entries && IsEntryOf(Rehashed(t1, from).entries[q], r);
    LivesPut(t', q, r);
  }

  /** While an atom is in the table, a call for an equal string returns it. */
  lemma LivingIsReturned<C>(s: State<C>, step: Step<C>, s': State<C>, r: Return<C>)
    requires Inv(s) && Recent(s) && Next(s, step, s') && Lives(s.table, r)
    requires Returned(s, step).Some? && Returned(s, step).value.content == r.content
    ensures Returned(s, step).value.key == r.key
  {
    hide Possible, Rehashed, Unique, AllWaitWell, Has, Lives;
    var t, c, key, pin := s.table, r.content, Returned(s, step).value.key, Returned(s, step).value.pin;
    if step.End? && t.generation == s.waiting[step.thread].gen {
      PlaceholderReused(s, step.thread);
      LivingIsFound(t, r);
      assert false;
    } else {
      Looked(t, step.room);
      LivesRehashed(t, step.room.from, r);
      var t1 := Rehashed(t, step.room.from);
      LivingIsFound(t1, r);
      var p :| p in t1.entries && Matches(t1.entries[p], c) && key == t1.entries[p].key
        && s'.table == Put(t1, p, Pinned(t1.entries[p], pin));
      FoundIsLiving(t1, p, r);
    }
  }

  // ----- Runs -----

  lemma {:induction false} StaysAliveUntil<C>(states: seq<State<C>>, steps: seq<Step<C>>, i: nat, j: nat, r: Return<C>)
    requires IsRun(states, steps) && AlwaysRecent(states) && i <= j <= |steps| && Lives(states[i].table, r)
    requires forall m :: i <= m < j ==> !Collects(steps[m], r)
    ensures Lives(states[j].table, r)
  {
    hide Lives, Inv, Next, Recent;
    if i < j {
      StaysAliveUntil(states, steps, i, j - 1, r);
      RunKeeps(states, steps, j - 1);
      assert Next(states[j - 1], steps[j - 1], states[j - 1 + 1]);
      StaysAlive(states[j - 1], steps[j - 1], states[j], r);
    }
  }

  /**
   * In every run of any number of threads, two calls for equal strings return the same atom, unless
   * in between the sweeper found the first atom unreachable, and then only if it was not pinned.
   */
  lemma EqualStringsSameAtom<C>(states: seq<State<C>>, steps: seq<Step<C>>, i: nat, j: nat, r: Return<C>, r': Return<C>)
    requires IsRun(states, steps) && AlwaysRecent(states) && i < j < |steps|
    requires Returned(states[i], steps[i]) == Some(r) && Returned(states[j], steps[j]) == Some(r')
    requires r.content == r'.content
    requires forall m :: i < m < j ==> !Collects(steps[m], r)
    ensures r.key == r'.key
  {
    hide Lives, Inv, Next, Recent, Returned;
    assert Next(states[i], steps[i], states[i + 1]) && Next(states[j], steps[j], states[j + 1]);
    RunKeeps(states, steps, i);
    ReturnedLives(states[i], steps[i], states[i + 1]);
    StaysAliveUntil(states, steps, i + 1, j, r);
    RunKeeps(states, steps, j);
    LivingIsReturned(states[j], steps[j], states[j + 1], r);
  }

  // ----- When the generation comes round again -----

  lemma Congruent(x: nat, y: nat)
    requires x <= y
    ensures x % UINT32 == y % UINT32 <==> (y - x) % UINT32 == 0
  {
  }

  /** A thread takes its placeholder for unchanged if the number of changes is a multiple of 2^32. */
  lemma WhenPlaceholderReused<C>(s: State<C>, t: nat)
    requires Inv(s) && t in s.waiting
    ensures s.table.generation == s.waiting[t].gen <==> (s.table.changes - s.waiting[t].at) % UINT32 == 0
  {
    Congruent(s.waiting[t].at, s.table.changes);
  }

  /** The step that completes a call leaves two equal atoms exactly if this holds before it. */
  ghost predicate Doubles<C>(s: State<C>, t: nat)
    requires t in s.waiting
  {
    var w := s.waiting[t];
    s.table.generation == w.gen && exists p :: p in s.table.entries && p != w.slot && Matches(s.table.entries[p], w.content)
  }

  lemma UniqueUnlessDoubled<C>(s: State<C>, step: Step<C>, s': State<C>)
    requires Inv(s) && Next(s, step, s') && step.End?
    ensures Unique(s'.table) <==> !Doubles(s, step.thread)
  {
    var t, w := s.table, s.waiting[step.thread];
    if t.generation == w.gen {
      FillIsUnique(t, w.slot, Atom(w.content, step.key, w.pin));
    } else {
      LookUpIsUnique(s, step, s');
    }
  }

  lemma FillIsUnique<C>(t: Table<C>, slot: nat, e: Entry<C>)
    requires Unique(t) && e.Atom?
    ensures Unique(Put(t, slot, e)) <==> !exists p :: p in t.entries && p != slot && Matches(t.entries[p], e.content)
  {
    var t' := Put(t, slot, e);
    if p :| p in t.entries && p != slot && Matches(t.entries[p], e.content) {
      assert slot in t'.entries && p in t'.entries && SameAtom(t'.entries[p], t'.entries[slot]);
    } else {
      forall p | p in t.entries && p != slot ensures !SameAtom(t.entries[p], e) {
        assert !Matches(t.entries[p], e.content);
      }
    }
  }

  lemma LookUpIsUnique<C>(s: State<C>, step: Step<C>, s': State<C>)
    requires Inv(s) && Next(s, step, s') && step.End? && s.table.generation != s.waiting[step.thread].gen
    ensures Unique(s'.table)
  {
    hide Possible, Rehashed, Unique, AllWaitWell, Has;
    var t, w := s.table, s.waiting[step.thread];
    assert Possible(t, step.room);
    Looked(t, step.room);
    var t1 := Rehashed(t, step.room.from);
    if Has(t1, w.content) {
      var p :| p in t1.entries && Matches(t1.entries[p], w.content) && s'.table == Put(t1, p, Pinned(t1.entries[p], w.pin));
      UniqueFlags(t1, p, w.pin);
    } else {
      UniqueInit(t1, step.room.slot, w.content, step.key, w.pin);
      SameEntries(Put(t1, step.room.slot, Atom(w.content, step.key, w.pin)), s'.table);
    }
  }

  function Last<C>(states: seq<State<C>>): State<C>
    requires |states| > 0
  {
    states[|states| - 1]
  }

  lemma Extend<C>(states: seq<State<C>>, steps: seq<Step<C>>, step: Step<C>, s': State<C>)
    requires IsRun(states, steps) && Next(Last(states), step, s')
    ensures IsRun(states + [s'], steps + [step])
  {
    hide Next;
    var states1, steps1 := states + [s'], steps + [step];
    forall i | 0 <= i < |steps1| ensures Next(states1[i], steps1[i], states1[i + 1]) {
      if i < |steps| {
        assert Next(states[i], steps[i], states[i + 1]);
      }
    }
  }

  /** Nothing but sweeps of an empty table. */
  lemma {:induction false} ManySweeps(states: seq<State<nat>>, steps: seq<Step<nat>>, n: nat)
    returns (states1: seq<State<nat>>, steps1: seq<Step<nat>>)
    requires IsRun(states, steps) && Last(states).table.entries == map[]
    requires Last(states).table.generation == Last(states).table.changes % UINT32
    ensures IsRun(states1, steps1)
    ensures Last(states1).table.entries == map[] && Last(states1).waiting == Last(states).waiting
    ensures Last(states1).table.changes == Last(states).table.changes + n
    ensures Last(states1).table.generation == Last(states1).table.changes % UINT32
  {
    states1, steps1 := states, steps;
    if n > 0 {
      states1, steps1 := ManySweeps(states, steps, n - 1);
      var s := Last(states1);
      var s' := s.(table := Bumped(s.table));
      WrapStep(s.table.changes);
      Extend(states1, steps1, Sweep({}, None), s');
      states1, steps1 := states1 + [s'], steps1 + [Sweep({}, None)];
    }
  }

  /** A thread has left a placeholder, and a sweep has removed it. */
  lemma PlaceholderSwept(c: nat, w: Wait<nat>) returns (states: seq<State<nat>>, steps: seq<Step<nat>>)
    requires w == Wait(c, 0, 1, 1, false)
    ensures IsRun(states, steps) && Last(states) == State(Table(map[], 2, 2), map[0 := w])
  {
    var s0: State<nat> := State(Table(map[], 0, 0), map[]);
    var s1 := State(Table(map[0 := Placeholder(c)], 1, 1), map[0 := w]);
    var s2: State<nat> := State(Table(map[], 2, 2), map[0 := w]);
    NothingThere(s0.table, c);
    var begin := Begin(0, c, None, false, Room(None, 0), Started(0, 1));
    Extend([s0], [], begin, s1);
    states, steps := [s0] + [s1], [] + [begin];
    Extend(states, steps, Sweep({}, None), s2);
    states, steps := states + [s2], steps + [Sweep({}, None)];
  }

  /** So a thread that is away for exactly 2^32 changes can make a second atom for the same string. */
  lemma TwoAtomsAfterWrapAround()
    ensures exists states: seq<State<nat>>, steps: seq<Step<nat>> :: IsRun(states, steps) && !Unique(Last(states).table)
  {
    hide IsRun;
    var c, slot, other := 3, 0, 1;
    var w := Wait(c, slot, 1, 1, false);
    var states, steps := PlaceholderSwept(c, w);
    states, steps := ManySweeps(states, steps, UINT32 - 2);
    var s := Last(states);
    NothingThere(s.table, c);
    var begin := Begin(1, c, Some(5), false, Room(None, other), Got(5));
    var s1 := State(Table(map[other := Atom(c, 5, false)], 1, UINT32 + 1), map[0 := w]);
    Extend(states, steps, begin, s1);
    var s2 := State(Put(s1.table, slot, Atom(c, 7, false)), map[0 := w] - {0});
    Extend(states + [s1], steps + [begin], End(0, 7, Room(None, 2), 7), s2);
    assert SameAtom(s2.table.entries[slot], s2.table.entries[other]);
    assert Last(states + [s1] + [s2]) == s2;
  }

  lemma NothingThere(t: Table<nat>, c: nat)
    requires t.entries == map[]
    ensures !Has(t, c)
  {
  }
}
