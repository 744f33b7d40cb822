/** The indices in an atom list number its elements, and js_InitAtomMap turns them round. */
module AtomMaps {
  import opened AtomLists
  import opened Chains
  import opened HashTables

  /** The indices are 0, ..., |s| - 1, each once. */
  ghost predicate Indexed(s: seq<Element>)
  {
    && (forall i :: 0 <= i < |s| ==> s[i].index < |s|)
    && (forall i, j :: 0 <= i < |s| && 0 <= j < |s| && s[i].index == s[j].index ==> i == j)
    && forall n: nat :: n < |s| ==> HasIndex(s, n)
  }

  ghost predicate HasIndex(s: seq<Element>, n: nat)
  {
    exists i :: 0 <= i < |s| && s[i].index == n
  }

  lemma AddKeepsIndexed(s: seq<Element>, e: Element, how: AddHow)
    requires Indexed(s) && e.index == |s|
    ensures Indexed(Added(s, e, how))
  {
    var t := Added(s, e, how);
    forall n: nat | n < |t| ensures HasIndex(t, n) {
      if n < |s| {
        assert HasIndex(s, n);
        var i :| 0 <= i < |s| && s[i].index == n;
        assert t[if how.Hoist? then i else i + 1].index == n;
      } else {
        assert t[if how.Hoist? then |s| else 0].index == n;
      }
    }
  }

  lemma {:induction false} RemovedAt(s: seq<Element>, a: nat) returns (i: nat)
    requires Only(s, a) != []
    ensures i < |s| && s[i] == Only(s, a)[0] && Removed(s, a) == s[..i] + s[i + 1..]
  {
    if s[0].atom == a {
      i := 0;
    } else {
      i := RemovedAt(s[1..], a);
      i := i + 1;
      assert [s[0]] + s[1..][..i - 1] == s[..i];
      assert s[1..][i..] == s[i + 1..];
    }
  }

  lemma WithoutLast(s: seq<Element>, i: nat)
    requires Indexed(s) && i < |s| && s[i].index == |s| - 1
    ensures Indexed(s[..i] + s[i + 1..])
  {
    var t := s[..i] + s[i + 1..];
    forall j | 0 <= j < |t| ensures t[j] == s[if j < i then j else j + 1] && t[j].index < |t| {
    }
    forall n: nat | n < |t| ensures HasIndex(t, n) {
      assert HasIndex(s, n);
      var j :| 0 <= j < |s| && s[j].index == n;
      assert t[if j < i then j else j - 1].index == n;
    }
  }

  lemma WithoutOther(s: seq<Element>, i: nat)
    requires Indexed(s) && i < |s| && s[i].index != |s| - 1
    ensures !Indexed(s[..i] + s[i + 1..])
  {
    var t := s[..i] + s[i + 1..];
    assert HasIndex(s, |s| - 1);
    var j :| 0 <= j < |s| && s[j].index == |s| - 1;
    assert t[if j < i then j else j - 1].index == |t|;
  }

  /** The count goes back by one, so the indices stay a numbering only if the last index is removed. */
  lemma RemoveKeepsIndexed(s: seq<Element>, a: nat)
    requires Indexed(s) && Only(s, a) != []
    ensures Indexed(Removed(s, a)) <==> Only(s, a)[0].index == |s| - 1
  {
    var i := RemovedAt(s, a);
    if s[i].index == |s| - 1 {
      WithoutLast(s, i);
    } else {
      WithoutOther(s, i);
    }
  }

  /** At most one element for an atom. */
  ghost predicate OneEach(s: seq<Element>)
  {
    forall a :: |Only(s, a)| <= 1
  }

  lemma AddKeepsOneEach(s: seq<Element>, e: Element, how: AddHow)
    requires OneEach(s)
    ensures OneEach(Added(s, e, how)) <==> Only(s, e.atom) == []
  {
    forall a ensures |Only(Added(s, e, how), a)| == |Only(s, a)| + if a == e.atom then 1 else 0 {
      OnlyFirst(e, s, a);
      OnlyLast(s, e, a);
    }
  }

  /** What the first n of the elements have put into the vector. */
  ghost predicate Filled(v: seq<nat>, s: seq<Element>)
  {
    forall e :: e in s ==> e.index < |v| && v[e.index] == e.atom
  }

  lemma SameIndexSame(s: seq<Element>, e: Element, f: Element)
    requires Indexed(s) && e in s && f in s && e.index == f.index
    ensures e == f
  {
    var i :| 0 <= i < |s| && s[i] == e;
    var j :| 0 <= j < |s| && s[j] == f;
  }

  lemma FillOne(v: seq<nat>, done: seq<Element>, e: Element, s: seq<Element>)
    requires Indexed(s) && |v| == |s| && e in s && (forall f :: f in done ==> f in s) && Filled(v, done)
    ensures e.index < |v| && Filled(v[e.index := e.atom], done + [e])
  {
    forall f | f in done + [e] ensures f.index < |v| && v[e.index := e.atom][f.index] == f.atom {
      if f.index == e.index {
        SameIndexSame(s, e, f);
      }
    }
  }

  lemma SameElements(list: seq<Element>, s: seq<Element>)
    requires forall a :: Only(list, a) == Only(s, a)
    ensures forall e :: e in list <==> e in s
  {
    forall e ensures e in list <==> e in s {
      OnlyHolds(list, e.atom, e);
      OnlyHolds(s, e.atom, e);
    }
  }

  lemma FlatElements(chains: Buckets, hash: nat -> nat, shift: nat, s: seq<Element>)
    requires Orders(chains, hash, shift, s)
    ensures forall e :: e in Flat(chains) <==> e in s
  {
    OrdersFlat(chains, hash, shift);
    forall a ensures Only(Flat(chains), a) == Only(s, a) {
      assert Only(Chain(chains, hash, shift, a), a) == Only(Flat(chains), a);
      assert Only(Chain(chains, hash, shift, a), a) == Only(s, a);
    }
    SameElements(Flat(chains), s);
  }

  /** js_map_atom for every entry of the table, as JS_HashTableEnumerateEntries goes through them. */
  method MapTable(vector: array<nat>, t: HashTable, ghost s: seq<Element>)
    requires t.Valid(s) && Indexed(s) && vector.Length == |s|
    modifies vector
    ensures Filled(vector[..], s)
  {
    var chains := t.buckets;
    FlatElements(chains, t.hash, t.shift, s);
    var n, b := 0, 0;
    while n != t.nentries
      invariant b <= |chains| && n == |Flat(chains[..b])| && n <= |s|
      invariant Filled(vector[..], Flat(chains[..b]))
      decreases |chains| - b
    {
      RestOfFlat(chains, b);
      FlatNext(chains, b);
      ghost var done := Flat(chains[..b]);
      var i := 0;
      assert done + chains[b][..0] == done;
      while i < |chains[b]|
        invariant i <= |chains[b]| && n == |done| + i
        invariant Filled(vector[..], done + chains[b][..i])
      {
        var ale := chains[b][i];
        InFlat(chains, b, i);
        FillOne(vector[..], done + chains[b][..i], ale, s);
        assert done + chains[b][..i + 1] == done + chains[b][..i] + [ale];
        vector[ale.index] := ale.atom;
        n, i := n + 1, i + 1;
      }
      assert chains[b][..i] == chains[b];
      b := b + 1;
    }
    RestIsEmpty(chains, b);
  }

  /** What has been visited, and the next element, are among all. */
  lemma InFlat(chains: Buckets, b: nat, i: nat)
    requires b < |chains| && i < |chains[b]|
    ensures chains[b][i] in Flat(chains)
    ensures forall f :: f in Flat(chains[..b]) + chains[b][..i] ==> f in Flat(chains)
  {
    FlatAround(chains[..b], chains[b], chains[b + 1..]);
    assert chains == chains[..b] + [chains[b]] + chains[b + 1..];
  }

  method InitAtomMap(vector: array<nat>, al: AtomList)
    requires al.Valid() && vector.Length == al.count && Indexed(al.contents)
    modifies vector, al
    ensures Filled(vector[..], old(al.contents))
    ensures al.Valid() && al.contents == []
  {
    ghost var s := al.contents;
    if al.list == [] && al.table == null {
      return;
    }
    if al.table != null {
      MapTable(vector, al.table, s);
    } else {
      var list, i := al.list, 0;
      SameElements(list, s);
      while i < |list|
        invariant i <= |list| && Filled(vector[..], list[..i])
        modifies vector
      {
        FillOne(vector[..], list[..i], list[i], s);
        assert list[..i + 1] == list[..i] + [list[i]];
        vector[list[i].index] := list[i].atom;
        i := i + 1;
      }
      assert list[..i] == list;
    }
    al.list, al.table, al.count, al.contents := [], null, 0, [];
  }

  /** The vector gives every atom its index back: entry n is an atom if and only if the atom has index n. */
  lemma MapInverts(v: seq<nat>, s: seq<Element>, n: nat, a: nat)
    requires Indexed(s) && OneEach(s) && |v| == |s| && Filled(v, s) && n < |v|
    ensures v[n] == a <==> Only(s, a) == [Element(a, n)]
  {
    assert HasIndex(s, n);
    var i :| 0 <= i < |s| && s[i].index == n;
    OnlyHolds(s, s[i].atom, s[i]);
    assert |Only(s, s[i].atom)| <= 1 && |Only(s, a)| <= 1;
    if Only(s, a) == [Element(a, n)] {
      OnlyHolds(s, a, Element(a, n));
    }
  }
}
