/** Any number of threads interning strings, with sweeps in between: the protocol of js_AtomizeString. */
module Interning {
  import opened Options
  import opened AtomTable

  /** A thread between the two critical sections; at is the number of changes when it left the first. */
  datatype Wait<C> = Wait(content: C, slot: nat, gen: nat, at: nat, pin: bool)

  datatype State<C> = State(table: Table<C>, waiting: map<nat, Wait<C>>)

  datatype Step<C> =
    | Begin(thread: nat, content: C, own: Option<nat>, pin: bool, room: Room, begun: Begun)
    | End(thread: nat, key: nat, room: Room, answer: nat)
    | GiveUp(thread: nat)                                  // no memory for the string
    | Sweep(dead: set<nat>, from: Option<map<nat, nat>>)

  ghost predicate Next<C>(s: State<C>, step: Step<C>, s': State<C>)
  {
    match step
    case Begin(t, c, own, pin, room, r) =>
      && t !in s.waiting && Begins(s.table, c, own, pin, room, s'.table, r)
      && s'.waiting == (if r.Got? then s.waiting else s.waiting[t := Wait(c, r.slot, r.gen, s'.table.changes, pin)])
    case End(t, key, room, answer) =>
      && t in s.waiting && s'.waiting == s.waiting - {t}
      && var w := s.waiting[t];
         Ends(s.table, w.content, w.slot, w.gen, key, w.pin, room, s'.table, answer)
    case GiveUp(t) => t in s.waiting && s' == s.(waiting := s.waiting - {t})
    case Sweep(dead, from) => s'.waiting == s.waiting && Sweeps(s.table, dead, from, s'.table)
  }

  predicate Init<C>(s: State<C>)
  {
    s == State(Table(map[], 0, 0), map[])
  }

  // ----- The invariant -----

  predicate SameAtom<C(==)>(e: Entry<C>, f: Entry<C>)
  {
    e.Atom? && f.Atom? && e.content == f.content
  }

  /** No two initialised entries are equal. */
  ghost predicate Unique<C>(t: Table<C>)
  {
    forall p, q :: p in t.entries && q in t.entries && SameAtom(t.entries[p], t.entries[q]) ==> p == q
  }

  /** If nothing has changed since, the placeholder is still there, and no one has added the string. */
  ghost predicate Reusable<C>(t: Table<C>, w: Wait<C>)
  {
    w.slot in t.entries && t.entries[w.slot] == Placeholder(w.content) && !Has(t, w.content)
  }

  ghost predicate WaitsWell<C>(t: Table<C>, w: Wait<C>)
  {
    w.gen == w.at % UINT32 && w.at <= t.changes && (w.at == t.changes ==> Reusable(t, w))
  }

  ghost predicate AllWaitWell<C>(t: Table<C>, waiting: map<nat, Wait<C>>)
  {
    && (forall i :: i in waiting ==> WaitsWell(t, waiting[i]))
    && forall i, j :: i in waiting && j in waiting && waiting[i].at == waiting[j].at ==> i == j
  }

  ghost predicate Inv<C>(s: State<C>)
  {
    Unique(s.table) && s.table.generation == s.table.changes % UINT32 && AllWaitWell(s.table, s.waiting)
  }

  /** After a change all placeholders are out of date. */
  lemma WaitAfterChange<C>(t: Table<C>, waiting: map<nat, Wait<C>>, t': Table<C>)
    requires AllWaitWell(t, waiting) && t'.changes > t.changes
    ensures AllWaitWell(t', waiting)
  {
  }

  /** No thread is away from the table for 2^32 changes. */
  ghost predicate Recent<C>(s: State<C>)
  {
    forall t :: t in s.waiting ==> s.table.changes - s.waiting[t].at < UINT32
  }

  lemma InvInit<C>(s: State<C>)
    requires Init(s)
    ensures Inv(s)
  {
  }

  lemma WrapStep(n: nat)
    ensures (n % UINT32 + 1) % UINT32 == (n + 1) % UINT32
  {
  }

  lemma UniqueRehashed<C>(t: Table<C>, from: Option<map<nat, nat>>)
    requires Unique(t) && (from.Some? ==> Rearranges(t.entries, from.value))
    ensures Unique(Rehashed(t, from))
    ensures forall c :: Has(Rehashed(t, from), c) <==> Has(t, c)
  {
    if from.Some? {
      var m, t1 := from.value, Rehashed(t, from);
      forall c ensures Has(t1, c) <==> Has(t, c) {
        if Has(t, c) {
          var p :| p in t.entries && Matches(t.entries[p], c);
          assert p in m.Values;
          var q :| q in m && m[q] == p;
          assert q in t1.entries && Matches(t1.entries[q], c);
        }
        if Has(t1, c) {
          var q :| q in t1.entries && Matches(t1.entries[q], c);
          assert m[q] in t.entries && Matches(t.entries[m[q]], c);
        }
      }
    }
  }

  lemma UniqueFlags<C>(t: Table<C>, p: nat, pin: bool)
    requires Unique(t) && p in t.entries && t.entries[p].Atom?
    ensures Unique(Put(t, p, Pinned(t.entries[p], pin)))
  {
  }

  /** Filling a slot that is free or holds a placeholder. */
  lemma UniqueInit<C>(t: Table<C>, p: nat, c: C, key: nat, pin: bool)
    requires Unique(t) && !Has(t, c) && (p in t.entries ==> t.entries[p].Placeholder?)
    ensures Unique(Put(t, p, Atom(c, key, pin)))
  {
    forall q | q in t.entries && t.entries[q].Atom? ensures t.entries[q].content != c {
      assert !Matches(t.entries[q], c);
    }
  }

  /** The table after a rehash, as far as the rest of the proof needs it. */
  ghost predicate MayHaveMoved<C>(t: Table<C>, t1: Table<C>)
  {
    && Unique(t1) && t1.generation == t1.changes % UINT32
    && (t1 == t || t1.changes > t.changes)
  }

  lemma RehashMoves<C>(t: Table<C>, from: Option<map<nat, nat>>)
    requires Unique(t) && t.generation == t.changes % UINT32
    requires from.Some? ==> Rearranges(t.entries, from.value)
    ensures MayHaveMoved(t, Rehashed(t, from))
  {
    UniqueRehashed(t, from);
    WrapStep(t.changes);
  }

  lemma FreeSlot<C>(t: Table<C>, room: Room)
    requires Possible(t, room)
    ensures room.slot !in Rehashed(t, room.from).entries
  {
  }

  lemma BeginKeeps<C>(s: State<C>, step: Step<C>, s': State<C>)
    requires Inv(s) && Next(s, step, s') && step.Begin?
    ensures Inv(s')
  {
    hide Possible, Rehashed, Unique, AllWaitWell, Has;
    var t, c := s.table, step.content;
    assert Possible(t, step.room);
    FromOfRoom(t, step.room);
    var t1 := Rehashed(t, step.room.from);
    RehashMoves(t, step.room.from);
    if Has(t1, c) {
      var p :| p in t1.entries && Matches(t1.entries[p], c)
        && step.begun == Got(t1.entries[p].key) && s'.table == Put(t1, p, Pinned(t1.entries[p], step.pin));
      FoundKeeps(s, t1, p, step.pin, s');
    } else {
      FreeSlot(t, step.room);
      StartKeeps(s, step, t1, s');
    }
  }

  lemma FromOfRoom<C>(t: Table<C>, room: Room)
    requires Possible(t, room)
    ensures room.from.Some? ==> Rearranges(t.entries, room.from.value)
  {
  }

  /** The string is new: the thread leaves an atom or a placeholder behind. */
  lemma StartKeeps<C>(s: State<C>, step: Step<C>, t1: Table<C>, s': State<C>)
    requires Inv(s) && step.Begin? && MayHaveMoved(s.table, t1) && !Has(t1, step.content)
    requires step.room.slot !in t1.entries && step.thread !in s.waiting
    requires var t2 := Bumped(Put(t1, step.room.slot, Placeholder(step.content)));
             if step.own.Some? then
               s' == State(Put(t2, step.room.slot, Atom(step.content, step.own.value, step.pin)), s.waiting)
             else s' == State(t2, s.waiting[step.thread :=
               Wait(step.content, step.room.slot, t2.generation, t2.changes, step.pin)])
    ensures Inv(s')
  {
    hide Unique, AllWaitWell, Has;
    var c, slot := step.content, step.room.slot;
    WrapStep(t1.changes);
    WaitAfterChange(s.table, s.waiting, s'.table);
    if step.own.Some? {
      UniqueInit(t1, slot, c, step.own.value, step.pin);
      SameEntries(Put(t1, slot, Atom(c, step.own.value, step.pin)), s'.table);
    } else {
      PlaceholderNotFound(t1, slot, c, s'.table);
      StartedWaitsWell(s, s'.waiting[step.thread], step.thread, s');
    }
  }

  lemma SameEntries<C>(t: Table<C>, t': Table<C>)
    requires Unique(t) && t'.entries == t.entries
    ensures Unique(t')
  {
  }

  /** An equal atom has been found, perhaps after a rehash. */
  lemma FoundKeeps<C>(s: State<C>, t1: Table<C>, p: nat, pin: bool, s': State<C>)
    requires Inv(s) && Unique(t1) && t1.generation == t1.changes % UINT32
    requires t1 == s.table || t1.changes > s.table.changes
    requires p in t1.entries && t1.entries[p].Atom? && s'.table == Put(t1, p, Pinned(t1.entries[p], pin))
    requires s'.waiting == s.waiting
    ensures Inv(s')
  {
    UniqueFlags(t1, p, pin);
    if t1 == s.table {
      FlagsKeepWaiting(s, p, pin, s');
    } else {
      WaitAfterChange(s.table, s.waiting, s'.table);
    }
  }

  lemma StartedWaitsWell<C>(s: State<C>, w: Wait<C>, thread: nat, s': State<C>)
    requires AllWaitWell(s.table, s.waiting) && AllWaitWell(s'.table, s.waiting) && thread !in s.waiting
    requires s'.table.changes > s.table.changes && s'.waiting == s.waiting[thread := w]
    requires WaitsWell(s'.table, w) && w.at == s'.table.changes
    ensures AllWaitWell(s'.table, s'.waiting)
  {
    hide Has, Reusable;
    assert forall i :: i in s.waiting ==> s.waiting[i].at < s'.table.changes;
  }

  lemma PlaceholderNotFound<C>(t: Table<C>, slot: nat, c: C, t': Table<C>)
    requires Unique(t) && !Has(t, c) && slot !in t.entries && t'.entries == t.entries[slot := Placeholder(c)]
    ensures !Has(t', c) && Unique(t')
  {
    forall p | p in t'.entries ensures !Matches(t'.entries[p], c) {
      assert p != slot ==> t'.entries[p] == t.entries[p] && !Matches(t.entries[p], c);
    }
  }

  lemma FlagsNotFound<C>(t: Table<C>, p: nat, pin: bool, c: C)
    requires p in t.entries && t.entries[p].Atom?
    ensures Has(Put(t, p, Pinned(t.entries[p], pin)), c) <==> Has(t, c)
  {
    var t1 := Put(t, p, Pinned(t.entries[p], pin));
    assert t1.entries.Keys == t.entries.Keys;
    forall q | q in t.entries ensures Matches(t1.entries[q], c) <==> Matches(t.entries[q], c) {
    }
  }

  /** Setting a flag without moving anything leaves placeholders alone. */
  lemma FlagsKeepWaiting<C>(s: State<C>, p: nat, pin: bool, s': State<C>)
    requires Inv(s) && s'.waiting == s.waiting
    requires p in s.table.entries && s.table.entries[p].Atom? && s'.table == Put(s.table, p, Pinned(s.table.entries[p], pin))
    ensures forall t :: t in s.waiting && s.waiting[t].at == s'.table.changes ==> Reusable(s'.table, s.waiting[t])
  {
    forall t | t in s.waiting && s.waiting[t].at == s'.table.changes
      ensures Reusable(s'.table, s.waiting[t])
    {
      FlagsNotFound(s.table, p, pin, s.waiting[t].content);
    }
  }

  lemma SameGeneration(x: nat, y: nat)
    requires x <= y && y - x < UINT32 && x % UINT32 == y % UINT32
    ensures x == y
  {
  }

  /** A thread that finds its generation unchanged finds its placeholder unchanged. */
  lemma PlaceholderReused<C>(s: State<C>, t: nat)
    requires Inv(s) && Recent(s) && t in s.waiting
    ensures s.table.generation == s.waiting[t].gen <==> s.waiting[t].at == s.table.changes
    ensures s.table.generation == s.waiting[t].gen ==> Reusable(s.table, s.waiting[t])
  {
    if s.table.generation == s.waiting[t].gen {
      SameGeneration(s.waiting[t].at, s.table.changes);
    }
  }

  lemma EndKeeps<C>(s: State<C>, step: Step<C>, s': State<C>)
    requires Inv(s) && Recent(s) && Next(s, step, s') && step.End?
    ensures Inv(s')
  {
    hide Possible, Rehashed, Unique, AllWaitWell, Has;
    var t, w := s.table, s.waiting[step.thread];
    PlaceholderReused(s, step.thread);
    OthersWaitWell(t, s.waiting, step.thread);
    if t.generation == w.gen {
      UniqueInit(t, w.slot, w.content, step.key, w.pin);
      FilledKeepsWaiting(s, step.thread, s'.table);
    } else {
      assert Possible(t, step.room);
      FromOfRoom(t, step.room);
      var t1 := Rehashed(t, step.room.from);
      RehashMoves(t, step.room.from);
      if Has(t1, w.content) {
        var p :| p in t1.entries && Matches(t1.entries[p], w.content)
          && step.answer == t1.entries[p].key && s'.table == Put(t1, p, Pinned(t1.entries[p], w.pin));
        FoundKeeps(State(t, s'.waiting), t1, p, w.pin, s');
      } else {
        FreeSlot(t, step.room);
        WrapStep(t1.changes);
        UniqueInit(t1, step.room.slot, w.content, step.key, w.pin);
        SameEntries(Put(t1, step.room.slot, Atom(w.content, step.key, w.pin)), s'.table);
        WaitAfterChange(t, s'.waiting, s'.table);
      }
    }
  }

  lemma OthersWaitWell<C>(t: Table<C>, waiting: map<nat, Wait<C>>, thread: nat)
    requires AllWaitWell(t, waiting)
    ensures AllWaitWell(t, waiting - {thread})
  {
    hide Has, Reusable;
  }

  /** Everyone else has been overtaken by the placeholder that is filled now. */
  lemma FilledKeepsWaiting<C>(s: State<C>, thread: nat, t': Table<C>)
    requires AllWaitWell(s.table, s.waiting) && thread in s.waiting && s.waiting[thread].at == s.table.changes
    requires t'.changes == s.table.changes
    ensures AllWaitWell(t', s.waiting - {thread})
  {
    hide Has, Reusable;
    assert forall i :: i in s.waiting - {thread} ==> s.waiting[i].at < t'.changes;
  }

  lemma SweepKeeps<C>(s: State<C>, step: Step<C>, s': State<C>)
    requires Inv(s) && Next(s, step, s') && step.Sweep?
    ensures Inv(s')
  {
    var t1 := s.table.(entries := Swept(s.table.entries, step.dead));
    assert Unique(t1);
    UniqueRehashed(t1, step.from);
    WrapStep(t1.changes);
    WrapStep(Rehashed(t1, step.from).changes);
    WaitAfterChange(s.table, s.waiting, s'.table);
  }

  /** Every step of every thread keeps the invariant. */
  lemma InvNext<C>(s: State<C>, step: Step<C>, s': State<C>)
    requires Inv(s) && Recent(s) && Next(s, step, s')
    ensures Inv(s')
  {
    match step
    case Begin(_, _, _, _, _, _) => BeginKeeps(s, step, s');
    case End(_, _, _, _) => EndKeeps(s, step, s');
    case GiveUp(_) =>
    case Sweep(_, _) => SweepKeeps(s, step, s');
  }
}
