/**
 * The table of atoms: what the two critical sections of js_AtomizeString and the sweep of the
 * garbage collector do to it. C stands for what atoms are compared by: the characters of a
 * string, or a double with all NaNs taken as one and the two zeros as one.
 */
module AtomTable {
  import opened Options

  const UINT32: nat := 0x1_0000_0000

  /** A placeholder is an entry whose keyAndFlags is still 0; it has a hash code but no key. */
  datatype Entry<C> = Placeholder(content: C) | Atom(content: C, key: nat, pinned: bool)

  /** changes counts the increments of generation, which itself wraps around. */
  datatype Table<C> = Table(entries: map<nat, Entry<C>>, generation: nat, changes: nat)

  /**
   * What the hash table does when something is added: it may move all entries first, from gives
   * the old slot of each new one, and then it takes a free slot if the key is not found.
   */
  datatype Room = Room(from: Option<map<nat, nat>>, slot: nat)

  /** MatchString and MatchDouble: a placeholder never matches. */
  predicate Matches<C(==)>(e: Entry<C>, c: C)
  {
    e.Atom? && e.content == c
  }

  function Bumped<C>(t: Table<C>): Table<C>
  {
    t.(generation := (t.generation + 1) % UINT32, changes := t.changes + 1)
  }

  predicate Rearranges<C>(entries: map<nat, Entry<C>>, from: map<nat, nat>)
  {
    from.Values == entries.Keys && forall p, q :: p in from && q in from && from[p] == from[q] ==> p == q
  }

  predicate Possible<C>(t: Table<C>, room: Room)
  {
    if room.from.Some? then Rearranges(t.entries, room.from.value) && room.slot !in room.from.value
    else room.slot !in t.entries
  }

  function Moved<C>(entries: map<nat, Entry<C>>, from: map<nat, nat>): map<nat, Entry<C>>
    requires Rearranges(entries, from)
  {
    map q | q in from :: entries[from[q]]
  }

  /** A rehash also counts as a change. */
  function Rehashed<C>(t: Table<C>, from: Option<map<nat, nat>>): Table<C>
    requires from.Some? ==> Rearranges(t.entries, from.value)
  {
    if from.Some? then Bumped(t.(entries := Moved(t.entries, from.value))) else t
  }

  predicate Has<C(==)>(t: Table<C>, c: C)
  {
    exists p :: p in t.entries && Matches(t.entries[p], c)
  }

  function Put<C>(t: Table<C>, p: nat, e: Entry<C>): Table<C>
  {
    t.(entries := t.entries[p := e])
  }

  /** ADD_ATOM_ENTRY_FLAGS */
  function Pinned<C>(e: Entry<C>, pin: bool): Entry<C>
    requires e.Atom?
  {
    e.(pinned := e.pinned || pin)
  }

  /** The first critical section ends with an atom, or with a placeholder and the generation. */
  datatype Begun = Got(key: nat) | Started(slot: nat, gen: nat)

  /** What the first critical section may do; own is the string itself if it can be the key. */
  ghost predicate Begins<C>(t: Table<C>, c: C, own: Option<nat>, pin: bool, room: Room, t': Table<C>, r: Begun)
  {
    Possible(t, room) &&
    var t1 := Rehashed(t, room.from);
    if Has(t1, c) then
      exists p :: p in t1.entries && Matches(t1.entries[p], c)
        && r == Got(t1.entries[p].key) && t' == Put(t1, p, Pinned(t1.entries[p], pin))
    else
      var t2 := Bumped(Put(t1, room.slot, Placeholder(c)));
      if own.Some? then r == Got(own.value) && t' == Put(t2, room.slot, Atom(c, own.value, pin))
      else r == Started(room.slot, t2.generation) && t' == t2
  }

  /** What the second one may do, for the placeholder in slot and the generation of that time. */
  ghost predicate Ends<C>(t: Table<C>, c: C, slot: nat, gen: nat, key: nat, pin: bool, room: Room, t': Table<C>, r: nat)
  {
    if t.generation == gen then r == key && t' == Put(t, slot, Atom(c, key, pin))
    else
      Possible(t, room) &&
      var t1 := Rehashed(t, room.from);
      if Has(t1, c) then
        exists p :: p in t1.entries && Matches(t1.entries[p], c)
          && r == t1.entries[p].key && t' == Put(t1, p, Pinned(t1.entries[p], pin))
      else r == key && t' == Bumped(Put(t1, room.slot, Atom(c, key, pin)))
  }

  /** js_atom_sweeper keeps an atom that is pinned or interned, or still reachable. */
  predicate Survives<C>(e: Entry<C>, dead: set<nat>)
  {
    e.Atom? && (e.pinned || e.key !in dead)
  }

  function Swept<C>(entries: map<nat, Entry<C>>, dead: set<nat>): map<nat, Entry<C>>
  {
    map p | p in entries && Survives(entries[p], dead) :: entries[p]
  }

  /** js_SweepAtomState: after removing entries the table may shrink, and in any case it has changed. */
  ghost predicate Sweeps<C>(t: Table<C>, dead: set<nat>, from: Option<map<nat, nat>>, t': Table<C>)
  {
    var t1 := t.(entries := Swept(t.entries, dead));
    (from.Some? ==> Rearranges(t1.entries, from.value)) && t' == Bumped(Rehashed(t1, from))
  }

  // ----- The sections as the code has them -----

  class AtomState<C(==, !new)> {
    var entries: map<nat, Entry<C>>
    var generation: nat
    ghost var changes: nat

    ghost function Value(): Table<C>
      reads this
    {
      Table(entries, generation, changes)
    }

    constructor ()
      ensures Value() == Table(map[], 0, 0)
    {
      entries, generation, changes := map[], 0, 0;
    }

    method Bump()
      modifies this
      ensures Value() == old(Bumped(Value()))
    {
      generation := (generation + 1) % UINT32;
      changes := changes + 1;
    }

    /** JS_DHashTableOperate with JS_DHASH_ADD. */
    method HashAdd(c: C, room: Room) returns (p: nat)
      requires Possible(Value(), room)
      modifies this
      ensures var t1 := old(Rehashed(Value(), room.from));
              if Has(t1, c) then p in t1.entries && Matches(t1.entries[p], c) && Value() == t1
              else p == room.slot && Value() == Put(t1, p, Placeholder(c))
    {
      if room.from.Some? {
        entries := Moved(entries, room.from.value);
        Bump();
      }
      ghost var t1 := Value();
      if q :| q in entries && Matches(entries[q], c) {
        assert Has(t1, c);
        return q;
      }
      assert !Has(t1, c);
      p := room.slot;
      entries := entries[p := Placeholder(c)];
    }

    /** From the first JS_LOCK to the JS_UNLOCK that follows. */
    method AtomizeBegin(c: C, own: Option<nat>, pin: bool, room: Room) returns (r: Begun)
      requires Possible(Value(), room)
      modifies this
      ensures Begins(old(Value()), c, own, pin, room, Value(), r)
    {
      ghost var t := Value();
      var p := HashAdd(c, room);
      ghost var t1 := Rehashed(t, room.from);
      if entries[p].Atom? {
        assert Has(t1, c);
        r := Got(entries[p].key);
        entries := entries[p := Pinned(entries[p], pin)];
      } else {
        Bump();
        if own.Some? {
          entries := entries[p := Atom(c, own.value, pin)];
          r := Got(own.value);
        } else {
          r := Started(p, generation);
        }
      }
    }

    /** From the second JS_LOCK on: the string has been made, and is to become the key. */
    method AtomizeEnd(c: C, slot: nat, gen: nat, key: nat, pin: bool, room: Room) returns (r: nat)
      requires Possible(Value(), room)
      modifies this
      ensures Ends(old(Value()), c, slot, gen, key, pin, room, Value(), r)
    {
      ghost var t := Value();
      var p := slot;
      if generation != gen {
        p := HashAdd(c, room);
        ghost var t1 := Rehashed(t, room.from);
        if entries[p].Atom? {
          assert Has(t1, c);
          r := entries[p].key;
          entries := entries[p := Pinned(entries[p], pin)];
          return;
        }
        Bump();
      }
      entries := entries[p := Atom(c, key, pin)];
      r := key;
    }

    /** js_SweepAtomState, while no other thread is running. */
    method Sweep(dead: set<nat>, from: Option<map<nat, nat>>)
      requires from.Some? ==> Rearranges(Swept(entries, dead), from.value)
      modifies this
      ensures Sweeps(old(Value()), dead, from, Value())
    {
      entries := Swept(entries, dead);
      if from.Some? {
        entries := Moved(entries, from.value);
        Bump();
      }
      Bump();
    }
  }
}
