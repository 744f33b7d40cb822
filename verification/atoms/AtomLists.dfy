/**
 * The lists of atoms the compiler keeps. A list finds by walking along and moving what it has found
 * to the front, and turns into a hash table when it gets long; contents is the sequence that it
 * stands for all the time: SHADOW adds in front, HOIST behind, and nothing else is ever moved.
 */
module AtomLists {
  import opened Chains
  import opened HashTables
  import opened Options

  const HASH_THRESHOLD: nat := 12
  const FEW: nat := 0x4000_0000

  datatype AddHow = Unique | Shadow | Hoist

  /** Which allocations succeed: of an element, of the table, and of more buckets for it. */
  datatype Memory = Memory(element: bool, table: bool, buckets: bool)

  predicate Alike(s: seq<Element>, t: seq<Element>, a: nat)
  {
    Only(s, a) == Only(t, a)
  }

  /** The plain sequence after add has put e in. */
  function Added(s: seq<Element>, e: Element, how: AddHow): seq<Element>
  {
    if how.Hoist? then s + [e] else [e] + s
  }

  /** The plain sequence without its first element for an atom. */
  function Removed(s: seq<Element>, a: nat): seq<Element>
  {
    if s == [] then [] else if s[0].atom == a then s[1..] else [s[0]] + Removed(s[1..], a)
  }

  lemma FirstIsFor(s: seq<Element>, a: nat)
    requires Only(s, a) != []
    ensures Only(s, a)[0].atom == a
  {
    OnlyHolds(s, a, Only(s, a)[0]);
  }

  lemma {:induction false} RemovedIsWithout(s: seq<Element>, a: nat)
    requires Only(s, a) != []
    ensures Without(s, Only(s, a)[0], Removed(s, a))
  {
    FirstIsFor(s, a);
    if s[0].atom != a {
      var t := Removed(s[1..], a);
      RemovedIsWithout(s[1..], a);
      forall x ensures Only(s, x) == if x == a then [Only(s, a)[0]] + Only([s[0]] + t, x) else Only([s[0]] + t, x) {
        OnlyFirst(s[0], t, x);
        assert Only(s[1..], x) == if x == a then [Only(s, a)[0]] + Only(t, x) else Only(t, x);
      }
    } else {
      forall x ensures Only(s, x) == if x == a then [Only(s, a)[0]] + Only(s[1..], x) else Only(s[1..], x) {
      }
    }
  }

  ghost predicate Lists(list: seq<Element>, s: seq<Element>)
  {
    |list| == |s| && forall a :: Only(list, a) == Only(s, a)
  }

  /** The loop that walks along and moves what it finds. */
  lemma ListsMove(s: seq<Element>, before: seq<Element>, e: Element, after: seq<Element>)
    requires Lists(before + [e] + after, s) && Free(before, e.atom)
    ensures Lists([e] + (before + after), s)
  {
    forall a ensures Only([e] + (before + after), a) == Only(s, a) {
      MovedToFront(before, e, after, a);
    }
  }

  lemma ListsAdd(list: seq<Element>, s: seq<Element>, e: Element, how: AddHow)
    requires Lists(list, s)
    ensures Lists(Added(list, e, how), Added(s, e, how))
  {
    forall a ensures Only(Added(list, e, how), a) == Only(Added(s, e, how), a) {
      OnlyFirst(e, list, a);
      OnlyFirst(e, s, a);
      OnlyLast(list, e, a);
      OnlyLast(s, e, a);
    }
  }

  lemma ListsFound(list: seq<Element>, s: seq<Element>, a: nat)
    requires Lists(list, s) && list != [] && list[0].atom == a
    ensures Only(s, a) != [] && Only(s, a)[0] == list[0]
  {
    assert list == [list[0]] + list[1..];
    OnlyFirst(list[0], list[1..], a);
  }

  lemma ListsDrop(s: seq<Element>, before: seq<Element>, e: Element, after: seq<Element>)
    requires Lists(before + [e] + after, s) && Free(before, e.atom)
    ensures Lists(before + after, Removed(s, e.atom))
  {
    var s', moved := Removed(s, e.atom), [e] + (before + after);
    ListsMove(s, before, e, after);
    ListsFound(moved, s, e.atom);
    RemovedIsWithout(s, e.atom);
    forall x ensures Only(before + after, x) == Only(s', x) {
      OnlyFirst(e, before + after, x);
      if x == e.atom {
        SameTail(e, Only(before + after, x), Only(s', x));
      }
    }
  }

  lemma ListsUnlink(list: seq<Element>, i: nat, s: seq<Element>)
    requires Lists(list, s) && i < |list| && Free(list[..i], list[i].atom)
    ensures Lists(list[..i] + list[i + 1..], Removed(s, list[i].atom))
  {
    assert list == list[..i] + [list[i]] + list[i + 1..];
    ListsDrop(s, list[..i], list[i], list[i + 1..]);
  }

  /** Passing an element that is not the first one for the atom. */
  lemma ListsPass(list: seq<Element>, i: nat, e: Element)
    requires i < |list| && Free(list[..i], e.atom) && list[i] != e
    requires Only(list[i..], e.atom) != [] && Only(list[i..], e.atom)[0] == e
    ensures Free(list[..i + 1], e.atom)
    ensures Only(list[i + 1..], e.atom) == Only(list[i..], e.atom)
  {
    assert list[i..][1..] == list[i + 1..];
  }

  class AtomList {
    const hash: nat -> nat
    var list: seq<Element>
    var table: HashTable?
    var count: nat
    ghost var contents: seq<Element>

    ghost predicate Valid()
      reads this, table
    {
      && count == |contents|
      && if table == null then Lists(list, contents) && count <= HASH_THRESHOLD
         else list == [] && table.hash == hash && table.Valid(contents)
    }

    constructor (hash: nat -> nat)
      ensures Valid() && contents == [] && table == null
    {
      this.hash := hash;
      list, table, count, contents := [], null, 0, [];
    }

    /** What a lookup leaves for add and rawRemove: a place in the table, if there is one. */
    ghost predicate LookedUp(a: nat, hep: Option<Link>)
      reads this, table
    {
      if table != null then hep.Some? && Stops(table.buckets, hash, table.shift, a, hep.value)
      else hep.None?
    }

    method RawLookup(a: nat) returns (r: Option<Element>, hep: Option<Link>)
      requires Valid()
      modifies this`list, table
      ensures Valid() && LookedUp(a, hep)
      ensures r == if Only(contents, a) == [] then None else Some(Only(contents, a)[0])
      ensures r.Some? ==> r.value.atom == a && (table == null ==> list[0] == r.value)
      ensures contents == old(contents)
    {
      if Only(contents, a) != [] {
        FirstIsFor(contents, a);
      }
      if table != null {
        var h := table.RawLookup(a, contents);
        FoundIfStopped(table.buckets, hash, table.shift, contents, a, h);
        var chain := table.buckets[h.bucket];
        return if h.at < |chain| then Some(chain[h.at]) else None, Some(h);
      }
      hep := None;
      var i := 0;
      while i < |list|
        invariant i <= |list| && Free(list[..i], a) && list == old(list)
      {
        if list[i].atom == a {
          var e := list[i];
          assert list == list[..i] + [e] + list[i + 1..];
          ListsMove(contents, list[..i], e, list[i + 1..]);
          list := [e] + (list[..i] + list[i + 1..]);
          ListsFound(list, contents, a);
          return Some(e), None;
        }
        i := i + 1;
      }
      assert list[..i] == list;
      OnlyFree(list, a);
      r := None;
    }

    /** The list becomes a table. */
    method MakeTable() returns (t: HashTable)
      requires Valid() && table == null
      ensures fresh(t) && t.hash == hash && t.Valid(contents)
    {
      t := new HashTable(count + 1, hash);
      t.nentries := count;
      var i := 0;
      assert list[..0] == [];
      while i < |list|
        invariant i <= |list| && t.hash == hash && t.nentries == count
        invariant Orders(t.buckets, hash, t.shift, list[..i])
      {
        var ale := list[i];
        var hep := t.RawLookup(ale.atom, list[..i]);
        OrdersAppend(t.buckets, hash, t.shift, list[..i], hep.bucket, ale);
        assert list[..i + 1] == list[..i] + [ale];
        t.buckets := t.buckets[hep.bucket := t.buckets[hep.bucket] + [ale]];
        i := i + 1;
      }
      assert list[..i] == list;
      OrdersLike(t.buckets, hash, t.shift, list, contents);
    }

    /** The element with its index count goes into the chain, and on to the end of it if hoisted. */
    method AddToTable(e: Element, hep: Link, how: AddHow, memory: Memory) returns (ok: bool)
      requires Valid() && table != null && count < FEW
      requires Stops(table.buckets, hash, table.shift, e.atom, hep)
      requires how.Unique? ==> Only(contents, e.atom) == []
      modifies table
      ensures table.hash == hash
      ensures table.Valid(if ok then Added(contents, e, how) else contents)
      ensures memory.element && memory.buckets ==> ok
    {
      var link;
      ok, link := table.RawAdd(hep, e, memory.buckets, memory.element, contents);
      if !ok {
        return;
      }
      var chain := table.buckets[link.bucket];
      if how.Hoist? && link.at + 1 < |chain| {
        var rest := chain[1..];
        OrdersRotate(table.buckets, hash, table.shift, contents, link.bucket, e, rest);
        table.buckets := table.buckets[link.bucket := rest + [e]];
      } else {
        AddedAlike(table.buckets, hash, table.shift, contents, link.bucket, link.at, e, how);
      }
    }

    method Add(a: nat, how: AddHow, memory: Memory) returns (r: Option<Element>)
      requires Valid() && count < FEW
      modifies this, table
      ensures Valid() && (table == old(table) || fresh(table))
      ensures var s := old(contents);
              if how.Unique? && Only(s, a) != [] then r == Some(Only(s, a)[0]) && contents == s
              else if r.None? then contents == s
              else r.value == Element(a, old(count)) && contents == Added(s, r.value, how)
      ensures memory == Memory(true, true, true) ==> r.Some?
    {
      var hep;
      r, hep := RawLookup(a);
      if r.None? || !how.Unique? {
        var ale := Element(a, count);
        if count < HASH_THRESHOLD && table == null {
          if !memory.element {
            return None;
          }
          ListsAdd(list, contents, ale, how);
          list := if how.Hoist? then list + [ale] else [ale] + list;
        } else {
          var link;
          if table == null {
            if !memory.table {
              return None;
            }
            table := MakeTable();
            list := [];
            link := table.RawLookup(a, contents);
          } else {
            link := hep.value;
          }
          var ok := AddToTable(ale, link, how, memory);
          if !ok {
            return None;
          }
        }
        contents := Added(contents, ale, how);
        count := count + 1;
        r := Some(ale);
      }
    }

    /** rawRemove, of the element that has just been looked up. */
    method RawRemove(ale: Element, hep: Option<Link>, memory: bool)
      requires Valid() && LookedUp(ale.atom, hep)
      requires Only(contents, ale.atom) != [] && ale == Only(contents, ale.atom)[0]
      modifies this, table
      ensures Valid() && table == old(table)
      ensures contents == Removed(old(contents), ale.atom)
    {
      RemovedIsWithout(contents, ale.atom);
      ghost var s' := Removed(contents, ale.atom);
      if table != null {
        table.RawRemove(hep.value, ale, memory, contents, s');
      } else {
        var l, i := list, 0;
        ghost var s := contents;
        assert l[0..] == l;
        while l[i] != ale
          invariant i < |l| && Free(l[..i], ale.atom)
          invariant Only(l[i..], ale.atom) != [] && Only(l[i..], ale.atom)[0] == ale
          modifies {}
          decreases |l| - i
        {
          ListsPass(l, i, ale);
          i := i + 1;
        }
        ListsUnlink(l, i, s);
        list := l[..i] + l[i + 1..];
      }
      contents := s';
      count := count - 1;
    }

    method Remove(a: nat, memory: bool)
      requires Valid()
      modifies this, table
      ensures Valid() && table == old(table)
      ensures contents == if Only(old(contents), a) == [] then old(contents) else Removed(old(contents), a)
    {
      hide Only, Removed;
      var ale, hep := RawLookup(a);
      if ale.Some? {
        RawRemove(ale.value, hep, memory);
      }
    }
  }

  lemma OrdersLike(chains: Buckets, hash: nat -> nat, shift: nat, list: seq<Element>, s: seq<Element>)
    requires Orders(chains, hash, shift, list) && Lists(list, s)
    ensures Orders(chains, hash, shift, s)
  {
    hide Slot, Flat;
  }

  /** The new element moves from the front of its chain to the end. */
  lemma OrdersRotate(chains: Buckets, hash: nat -> nat, shift: nat, s: seq<Element>, b: nat, e: Element,
      rest: seq<Element>)
    requires Orders(chains, hash, shift, [e] + s) && b < |chains| && b == Slot(hash(e.atom), shift) && chains[b] == [e] + rest
    ensures Orders(chains[b := rest + [e]], hash, shift, s + [e])
  {
    hide Slot, Flat, Only;
    InPlace(chains, hash, shift, b);
    forall f | f in rest + [e] ensures f in chains[b] {
    }
    forall a ensures Slot(hash(a), shift) != b ==> Only(s + [e], a) == Only([e] + s, a) {
      OnlyFirst(e, s, a);
      OnlyLast(s, e, a);
    }
    forall a | Slot(hash(a), shift) == b ensures Only(rest + [e], a) == Only(s + [e], a) {
      OnlyFirst(e, s, a);
      OnlyLast(s, e, a);
      OnlyFirst(e, rest, a);
      OnlyLast(rest, e, a);
      assert Only(Chain(chains, hash, shift, a), a) == Only([e] + s, a);
      if a == e.atom {
        SameTail(e, Only(rest, a), Only(s, a));
      }
    }
    OrdersUpdate(chains, hash, shift, [e] + s, b, rest + [e], s + [e]);
  }

  /** Where RawAdd has put it, it need not be moved if it is not hoisted, or is at the end already. */
  lemma AddedAlike(chains: Buckets, hash: nat -> nat, shift: nat, s: seq<Element>, b: nat, at: nat, e: Element,
      how: AddHow)
    requires Orders(chains, hash, shift, if Only(s, e.atom) == [] then s + [e] else [e] + s)
    requires how.Unique? ==> Only(s, e.atom) == []
    requires b < |chains| && b == Slot(hash(e.atom), shift) && at < |chains[b]| && chains[b][at] == e
    requires if Only(s, e.atom) == [] then at + 1 == |chains[b]| else at == 0
    requires how.Hoist? ==> at + 1 >= |chains[b]|
    ensures Orders(chains, hash, shift, Added(s, e, how))
  {
    hide Slot, Flat;
    if Only(s, e.atom) == [] {
      forall a ensures Only([e] + s, a) == Only(s + [e], a) {
        OnlyFirst(e, s, a);
        OnlyLast(s, e, a);
      }
    } else if how.Hoist? {
      assert chains[b] == [e];
      assert Only(Chain(chains, hash, shift, e.atom), e.atom) == Only([e] + s, e.atom);
      OnlyFirst(e, s, e.atom);
      OnlyOne(e, e.atom);
      assert false;
    }
  }
}
