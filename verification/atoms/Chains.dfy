/** Chains of list elements, and what of a chain belongs to one atom. */
module Chains {
  /** A JSAtomListElement: the atom is its key, the index its value. */
  datatype Element = Element(atom: nat, index: nat)

  /** The elements for one atom, in their order. */
  function Only(s: seq<Element>, a: nat): seq<Element>
  {
    if s == [] then []
    else if s[0].atom == a then [s[0]] + Only(s[1..], a)
    else Only(s[1..], a)
  }

  lemma {:induction false} OnlyConcat(s: seq<Element>, t: seq<Element>, a: nat)
    ensures Only(s + t, a) == Only(s, a) + Only(t, a)
  {
    if s == [] {
      assert s + t == t;
    } else {
      OnlyConcat(s[1..], t, a);
      assert (s + t)[1..] == s[1..] + t;
    }
  }

  lemma OnlyOne(e: Element, a: nat)
    ensures Only([e], a) == if e.atom == a then [e] else []
  {
    assert Only([e][1..], a) == [];
  }

  lemma OnlyFirst(e: Element, s: seq<Element>, a: nat)
    ensures Only([e] + s, a) == if e.atom == a then [e] + Only(s, a) else Only(s, a)
  {
    OnlyConcat([e], s, a);
    OnlyOne(e, a);
  }

  lemma OnlyLast(s: seq<Element>, e: Element, a: nat)
    ensures Only(s + [e], a) == if e.atom == a then Only(s, a) + [e] else Only(s, a)
  {
    OnlyConcat(s, [e], a);
    OnlyOne(e, a);
  }

  predicate Free(s: seq<Element>, a: nat)
  {
    forall i :: 0 <= i < |s| ==> s[i].atom != a
  }

  lemma {:induction false} OnlyFree(s: seq<Element>, a: nat)
    ensures Free(s, a) <==> Only(s, a) == []
  {
    if s != [] {
      OnlyFree(s[1..], a);
      assert Free(s, a) <==> s[0].atom != a && Free(s[1..], a);
    }
  }

  lemma {:induction false} OnlyHolds(s: seq<Element>, a: nat, e: Element)
    ensures e in Only(s, a) <==> e in s && e.atom == a
  {
    if s != [] {
      OnlyHolds(s[1..], a, e);
    }
  }

  /** Moving the first element for its atom to the front changes no atom's elements. */
  lemma MovedToFront(s: seq<Element>, e: Element, t: seq<Element>, a: nat)
    requires Free(s, e.atom)
    ensures Only([e] + (s + t), a) == Only(s + [e] + t, a)
  {
    OnlyFirst(e, s + t, a);
    OnlyConcat(s, t, a);
    OnlyConcat(s + [e], t, a);
    OnlyLast(s, e, a);
    OnlyFree(s, e.atom);
  }

  /** All chains one after the other. */
  function Flat(chains: seq<seq<Element>>): seq<Element>
  {
    if chains == [] then [] else Flat(chains[..|chains| - 1]) + chains[|chains| - 1]
  }

  lemma FlatNext(chains: seq<seq<Element>>, i: nat)
    requires i < |chains|
    ensures Flat(chains[..i + 1]) == Flat(chains[..i]) + chains[i]
  {
    assert chains[..i + 1][..i] == chains[..i];
  }

  lemma {:induction false} FlatConcat(s: seq<seq<Element>>, t: seq<seq<Element>>)
    ensures Flat(s + t) == Flat(s) + Flat(t)
  {
    if t == [] {
      assert s + t == s;
    } else {
      var n := |t| - 1;
      FlatConcat(s, t[..n]);
      assert (s + t)[..|s + t| - 1] == s + t[..n];
    }
  }

  lemma FlatAround(s: seq<seq<Element>>, chain: seq<Element>, t: seq<seq<Element>>)
    ensures Flat(s + [chain] + t) == Flat(s) + chain + Flat(t)
  {
    FlatConcat(s + [chain], t);
    assert (s + [chain])[..|s|] == s;
  }

  lemma FlatUpdate(chains: seq<seq<Element>>, b: nat, chain: seq<Element>)
    requires b < |chains|
    ensures |Flat(chains[b := chain])| == |Flat(chains)| - |chains[b]| + |chain|
  {
    FlatAround(chains[..b], chains[b], chains[b + 1..]);
    FlatAround(chains[..b], chain, chains[b + 1..]);
    assert chains == chains[..b] + [chains[b]] + chains[b + 1..];
    assert chains[b := chain] == chains[..b] + [chain] + chains[b + 1..];
  }

  lemma {:induction false} FlatEmpty(chains: seq<seq<Element>>)
    requires forall b :: 0 <= b < |chains| ==> chains[b] == []
    ensures Flat(chains) == []
  {
    if chains != [] {
      FlatEmpty(chains[..|chains| - 1]);
    }
  }

  /** If an atom occurs in no chain but one, all together have of it what that chain has. */
  lemma {:induction false} OnlyFlat(chains: seq<seq<Element>>, b: nat, a: nat)
    requires b < |chains| && forall i :: 0 <= i < |chains| && i != b ==> Free(chains[i], a)
    ensures Only(Flat(chains), a) == Only(chains[b], a)
  {
    var n := |chains| - 1;
    var s := chains[..n];
    OnlyConcat(Flat(s), chains[n], a);
    if b == n {
      OnlyNowhere(s, a);
    } else {
      OnlyFlat(s, b, a);
      OnlyFree(chains[n], a);
    }
  }

  lemma {:induction false} OnlyNowhere(chains: seq<seq<Element>>, a: nat)
    requires forall i :: 0 <= i < |chains| ==> Free(chains[i], a)
    ensures Only(Flat(chains), a) == []
  {
    if chains != [] {
      var n := |chains| - 1;
      OnlyNowhere(chains[..n], a);
      OnlyConcat(Flat(chains[..n]), chains[n], a);
      OnlyFree(chains[n], a);
    }
  }
}
