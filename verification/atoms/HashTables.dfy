/**
 * Hash tables with chains, as atom lists use them: several elements with the same key may be
 * there, and their order counts. Finding an element moves it to the front of its chain.
 */
module HashTables {
  import opened Addresses
  import opened Chains
  import opened Options

  const HASH_BITS: nat := 32
  const HASHES: nat := 0x1_0000_0000
  const GOLDEN_RATIO: nat := 0x9E3779B9
  const MIN_BUCKETS_LOG2: nat := 4
  const MIN_BUCKETS: nat := 16

  type Buckets = seq<seq<Element>>

  /** BUCKET_HEAD: multiplicative hashing with 32-bit words. */
  function Slot(keyHash: nat, shift: nat): nat
  {
    NonNegative(keyHash, GOLDEN_RATIO);
    QuotientNat((keyHash * GOLDEN_RATIO) % HASHES, Power(shift));
    (keyHash * GOLDEN_RATIO) % HASHES / Power(shift)
  }

  lemma QuotientNat(x: nat, d: nat)
    requires d >= 1
    ensures x / d >= 0
  {
    Times(x / d, 0, d);
  }

  lemma {:induction false} PowerSum(j: nat, k: nat)
    ensures Power(j) * Power(k) == Power(j + k)
  {
    if j > 0 {
      PowerSum(j - 1, k);
    }
  }

  lemma PowerOfBits(n: nat)
    requires n == HASH_BITS
    ensures Power(n) == HASHES
  {
    assert Power(8) == 256;
    PowerSum(8, 8);
    PowerSum(16, 16);
  }

  lemma QuotientBelow(x: nat, d: nat, q: nat)
    requires d >= 1 && x < d * q
    ensures x / d < q
  {
    assert x == d * (x / d) + x % d;
    AtLeast(d, q, x / d);
  }

  lemma AtLeast(d: nat, q: nat, k: nat)
    ensures k >= q ==> d * k >= d * q
  {
    if k >= q {
      NonNegative(k - q, d);
      Distributes(q, k - q, d);
    }
  }

  lemma SlotInRange(keyHash: nat, shift: nat)
    requires shift <= HASH_BITS
    ensures Slot(keyHash, shift) < Power(HASH_BITS - shift)
  {
    PowerOfBits(HASH_BITS);
    PowerSum(shift, HASH_BITS - shift);
    QuotientBelow((keyHash * GOLDEN_RATIO) % HASHES, Power(shift), Power(HASH_BITS - shift));
  }

  /** How a table of chains is laid out: every element is in the chain of its key. */
  ghost predicate Placed(chains: Buckets, hash: nat -> nat, shift: nat)
  {
    && 1 <= shift <= HASH_BITS - MIN_BUCKETS_LOG2 && |chains| == Power(HASH_BITS - shift)
    && forall b, i :: 0 <= b < |chains| && 0 <= i < |chains[b]| ==> Slot(hash(chains[b][i].atom), shift) == b
  }

  function Chain(chains: Buckets, hash: nat -> nat, shift: nat, a: nat): (s: seq<Element>)
    requires shift <= HASH_BITS && |chains| == Power(HASH_BITS - shift)
  {
    SlotInRange(hash(a), shift);
    chains[Slot(hash(a), shift)]
  }

  /** The table has these elements, each atom's in this order. */
  ghost predicate Orders(chains: Buckets, hash: nat -> nat, shift: nat, s: seq<Element>)
  {
    && Placed(chains, hash, shift) && |Flat(chains)| == |s|
    && forall a :: Only(Chain(chains, hash, shift, a), a) == Only(s, a)
  }

  lemma FreeElsewhere(chains: Buckets, hash: nat -> nat, shift: nat, a: nat)
    requires Placed(chains, hash, shift)
    ensures Slot(hash(a), shift) < |chains|
    ensures forall b :: 0 <= b < |chains| && b != Slot(hash(a), shift) ==> Free(chains[b], a)
  {
    SlotInRange(hash(a), shift);
  }

  lemma OrdersFlat(chains: Buckets, hash: nat -> nat, shift: nat)
    requires Placed(chains, hash, shift)
    ensures Orders(chains, hash, shift, Flat(chains))
  {
    forall a ensures Only(Chain(chains, hash, shift, a), a) == Only(Flat(chains), a) {
      FreeElsewhere(chains, hash, shift, a);
      OnlyFlat(chains, Slot(hash(a), shift), a);
    }
  }

  lemma OrdersNothing(chains: Buckets, hash: nat -> nat, shift: nat)
    requires 1 <= shift <= HASH_BITS - MIN_BUCKETS_LOG2 && |chains| == Power(HASH_BITS - shift)
    requires forall b :: 0 <= b < |chains| ==> chains[b] == []
    ensures Orders(chains, hash, shift, [])
  {
    FlatEmpty(chains);
    forall a ensures Chain(chains, hash, shift, a) == [] {
      SlotInRange(hash(a), shift);
    }
  }

  lemma PlacedUpdate(chains: Buckets, hash: nat -> nat, shift: nat, b: nat, chain: seq<Element>)
    requires Placed(chains, hash, shift) && b < |chains|
    requires forall e :: e in chain ==> Slot(hash(e.atom), shift) == b
    ensures Placed(chains[b := chain], hash, shift)
  {
    hide Slot, Power;
    var chains': Buckets := chains[b := chain];
    forall c, i | 0 <= c < |chains'| && 0 <= i < |chains'[c]| ensures Slot(hash(chains'[c][i].atom), shift) == c {
      if c == b {
        assert chain[i] in chain;
      }
    }
  }

  lemma ChainUpdate(chains: Buckets, hash: nat -> nat, shift: nat, b: nat, chain: seq<Element>, a: nat)
    requires shift <= HASH_BITS && |chains| == Power(HASH_BITS - shift) && b < |chains|
    ensures Chain(chains[b := chain], hash, shift, a) == if Slot(hash(a), shift) == b then chain else Chain(chains, hash, shift, a)
  {
    hide Slot, Power;
    SlotInRange(hash(a), shift);
  }

  /** Replacing one chain. */
  lemma OrdersUpdate(chains: Buckets, hash: nat -> nat, shift: nat, s: seq<Element>, b: nat,
      chain: seq<Element>, s': seq<Element>)
    requires Orders(chains, hash, shift, s) && b < |chains|
    requires forall e :: e in chain ==> Slot(hash(e.atom), shift) == b
    requires |chain| + |s| == |chains[b]| + |s'|
    requires forall a :: Slot(hash(a), shift) != b ==> Only(s', a) == Only(s, a)
    requires forall a :: Slot(hash(a), shift) == b ==> Only(chain, a) == Only(s', a)
    ensures Orders(chains[b := chain], hash, shift, s')
  {
    hide Slot, Flat, Only, Power, Chain;
    var chains': Buckets := chains[b := chain];
    FlatUpdate(chains, b, chain);
    PlacedUpdate(chains, hash, shift, b, chain);
    forall a ensures Only(Chain(chains', hash, shift, a), a) == Only(s', a) {
      ChainUpdate(chains, hash, shift, b, chain, a);
      assert Only(Chain(chains, hash, shift, a), a) == Only(s, a);
    }
  }

  lemma InPlace(chains: Buckets, hash: nat -> nat, shift: nat, b: nat)
    requires Placed(chains, hash, shift) && b < |chains|
    ensures forall e :: e in chains[b] ==> Slot(hash(e.atom), shift) == b
  {
  }

  /** An element goes to the end of its chain. */
  lemma OrdersAppend(chains: Buckets, hash: nat -> nat, shift: nat, s: seq<Element>, b: nat, e: Element)
    requires Orders(chains, hash, shift, s) && b < |chains| && b == Slot(hash(e.atom), shift)
    ensures Orders(chains[b := chains[b] + [e]], hash, shift, s + [e])
  {
    hide Slot, Flat, Only;
    InPlace(chains, hash, shift, b);
    forall a ensures Slot(hash(a), shift) != b ==> Only(s + [e], a) == Only(s, a) {
      OnlyLast(s, e, a);
    }
    forall a | Slot(hash(a), shift) == b ensures Only(chains[b] + [e], a) == Only(s + [e], a) {
      OnlyLast(s, e, a);
      OnlyLast(chains[b], e, a);
      assert Only(Chain(chains, hash, shift, a), a) == Only(s, a);
    }
    OrdersUpdate(chains, hash, shift, s, b, chains[b] + [e], s + [e]);
  }

  /** An element goes in front of its chain. */
  lemma OrdersPrepend(chains: Buckets, hash: nat -> nat, shift: nat, s: seq<Element>, b: nat, e: Element)
    requires Orders(chains, hash, shift, s) && b < |chains| && b == Slot(hash(e.atom), shift)
    ensures Orders(chains[b := [e] + chains[b]], hash, shift, [e] + s)
  {
    hide Slot, Flat, Only;
    InPlace(chains, hash, shift, b);
    forall a ensures Slot(hash(a), shift) != b ==> Only([e] + s, a) == Only(s, a) {
      OnlyFirst(e, s, a);
    }
    forall a | Slot(hash(a), shift) == b ensures Only([e] + chains[b], a) == Only([e] + s, a) {
      OnlyFirst(e, s, a);
      OnlyFirst(e, chains[b], a);
      assert Only(Chain(chains, hash, shift, a), a) == Only(s, a);
    }
    OrdersUpdate(chains, hash, shift, s, b, [e] + chains[b], [e] + s);
  }

  /** The first element for an atom moves to the front of its chain. */
  lemma OrdersMove(chains: Buckets, hash: nat -> nat, shift: nat, s: seq<Element>, b: nat,
      before: seq<Element>, e: Element, after: seq<Element>)
    requires Orders(chains, hash, shift, s) && b < |chains| && chains[b] == before + [e] + after && Free(before, e.atom)
    ensures Orders(chains[b := [e] + (before + after)], hash, shift, s)
  {
    hide Slot, Flat, Only;
    InPlace(chains, hash, shift, b);
    var chain := [e] + (before + after);
    forall f | f in chain ensures f in chains[b] {
    }
    forall a | Slot(hash(a), shift) == b ensures Only(chain, a) == Only(s, a) {
      MovedToFront(before, e, after, a);
      assert Only(Chain(chains, hash, shift, a), a) == Only(s, a);
    }
    OrdersUpdate(chains, hash, shift, s, b, chain, s);
  }

  /** s' is s without the first element for e's atom, which is e. */
  ghost predicate Without(s: seq<Element>, e: Element, s': seq<Element>)
  {
    |s'| + 1 == |s| && forall a :: Only(s, a) == if a == e.atom then [e] + Only(s', a) else Only(s', a)
  }

  /** Where a lookup stops: at the front of the chain if it has found the key, else at its end. */
  datatype Link = Link(bucket: nat, at: nat)

  ghost predicate Stops(chains: Buckets, hash: nat -> nat, shift: nat, a: nat, hep: Link)
  {
    && hep.bucket < |chains| && hep.bucket == Slot(hash(a), shift)
    && var chain := chains[hep.bucket];
       || (hep.at == 0 && chain != [] && chain[0].atom == a)
       || (hep.at == |chain| && Free(chain, a))
  }

  class HashTable {
    const hash: nat -> nat
    var buckets: Buckets
    var nentries: nat
    var shift: nat

    ghost predicate Valid(s: seq<Element>)
      reads this
    {
      Orders(buckets, hash, shift, s) && nentries == |s|
    }

    /** JS_NewHashTable */
    constructor (n: nat, hash: nat -> nat)
      requires 1 <= n <= 0x4000_0000
      ensures Valid([]) && this.hash == hash
    {
      this.hash := hash;
      this.nentries := 0;
      this.shift := HASH_BITS - MIN_BUCKETS_LOG2;
      this.buckets := [];
      new;
      var k := MIN_BUCKETS_LOG2;
      if n > MIN_BUCKETS {
        k := CeilingLog2(n);
        LogInRange(n, k);
      }
      shift := HASH_BITS - k;
      buckets := seq(Power(k), _ => []);
      OrdersNothing(buckets, hash, shift);
    }

    /** JS_HashTableRawLookup */
    method RawLookup(a: nat, ghost s: seq<Element>) returns (hep: Link)
      requires Orders(buckets, hash, shift, s)
      modifies this`buckets
      ensures Orders(buckets, hash, shift, s) && Stops(buckets, hash, shift, a, hep)
    {
      SlotInRange(hash(a), shift);
      var b := Slot(hash(a), shift);
      var chain := buckets[b];
      var i := 0;
      while i < |chain|
        invariant i <= |chain| && Free(chain[..i], a)
      {
        if chain[i].atom == a {
          if i != 0 {
            OrdersMove(buckets, hash, shift, s, b, chain[..i], chain[i], chain[i + 1..]);
            buckets := buckets[b := [chain[i]] + (chain[..i] + chain[i + 1..])];
          }
          return Link(b, 0);
        }
        i := i + 1;
      }
      assert chain[..i] == chain;
      hep := Link(b, i);
    }

    /** The loop of Resize, which appends each element to its new chain. */
    method Resize(newShift: nat, memory: bool, ghost s: seq<Element>) returns (ok: bool)
      requires Valid(s) && 1 <= newShift <= HASH_BITS - MIN_BUCKETS_LOG2
      modifies this`buckets, this`shift
      ensures Valid(s) && ok == memory
      ensures !ok ==> buckets == old(buckets) && shift == old(shift)
      ensures ok ==> shift == newShift
    {
      if !memory {
        return false;
      }
      var oldBuckets, oldShift := buckets, shift;
      ghost var all := Flat(oldBuckets);
      buckets := seq(Power(HASH_BITS - newShift), _ => []);
      shift := newShift;
      OrdersNothing(buckets, hash, shift);
      var n, i := nentries, 0;
      while n != 0
        invariant 0 <= n && i <= |oldBuckets| && n + |Flat(oldBuckets[..i])| == |all| && shift == newShift
        invariant Orders(buckets, hash, shift, Flat(oldBuckets[..i]))
        decreases |oldBuckets| - i
      {
        RestOfFlat(oldBuckets, i);
        FlatNext(oldBuckets, i);
        ghost var done := Flat(oldBuckets[..i]);
        var j := 0;
        assert done + oldBuckets[i][..j] == done;
        while j < |oldBuckets[i]|
          invariant 0 <= n && j <= |oldBuckets[i]| && n + |done| + j == |all| && shift == newShift
          invariant Orders(buckets, hash, shift, done + oldBuckets[i][..j])
        {
          var he := oldBuckets[i][j];
          assert n != 0;
          n := n - 1;
          SlotInRange(hash(he.atom), shift);
          var b := Slot(hash(he.atom), shift);
          OrdersAppend(buckets, hash, shift, done + oldBuckets[i][..j], b, he);
          assert done + oldBuckets[i][..j] + [he] == done + oldBuckets[i][..j + 1];
          buckets := buckets[b := buckets[b] + [he]];
          j := j + 1;
        }
        assert oldBuckets[i][..j] == oldBuckets[i];
        i := i + 1;
      }
      RestIsEmpty(oldBuckets, i);
      OrdersFlat(oldBuckets, hash, oldShift);
      OrdersSame(buckets, oldBuckets, hash, shift, oldShift, all, s);
      ok := true;
    }

    /** JS_HashTableRawAdd: the key is given with its value, and goes where hep points. */
    method RawAdd(hep0: Link, e: Element, grow: bool, memory: bool, ghost s: seq<Element>) returns (ok: bool, hep: Link)
      requires Valid(s) && Stops(buckets, hash, shift, e.atom, hep0) && |s| < 0x4000_0000
      modifies this
      ensures !ok ==> Valid(s)
      ensures ok ==> Valid(if Only(s, e.atom) == [] then s + [e] else [e] + s)
      ensures ok ==> hep.bucket < |buckets| && hep.bucket == Slot(hash(e.atom), shift)
      ensures ok ==> hep.at < |buckets[hep.bucket]| && buckets[hep.bucket][hep.at] == e
      ensures ok ==> if Only(s, e.atom) == [] then hep.at + 1 == |buckets[hep.bucket]| else hep.at == 0
      ensures grow && memory ==> ok
    {
      hide Slot, Flat, Only, Power;
      ok, hep := true, hep0;
      var n := |buckets|;
      if nentries >= n - n / 8 {
        ShiftLeft(n, shift);
        ok := Resize(shift - 1, grow, s);
        if !ok {
          return;
        }
        hep := RawLookup(e.atom, s);
      }
      if !memory {
        return false, hep;
      }
      FoundIfStopped(buckets, hash, shift, s, e.atom, hep);
      var chain := buckets[hep.bucket];
      if Only(s, e.atom) == [] {
        OrdersAppend(buckets, hash, shift, s, hep.bucket, e);
        assert chain[..hep.at] + [e] + chain[hep.at..] == chain + [e];
      } else {
        OrdersPrepend(buckets, hash, shift, s, hep.bucket, e);
        assert chain[..hep.at] + [e] + chain[hep.at..] == [e] + chain;
      }
      buckets := buckets[hep.bucket := chain[..hep.at] + [e] + chain[hep.at..]];
      nentries := nentries + 1;
    }

    /** JS_HashTableRawRemove, of the element that hep points to; shrinking may fail without harm. */
    method RawRemove(hep: Link, he: Element, memory: bool, ghost s: seq<Element>, ghost s': seq<Element>)
      requires Valid(s) && Stops(buckets, hash, shift, he.atom, hep) && Without(s, he, s')
      modifies this
      ensures Valid(s')
    {
      FoundIfStopped(buckets, hash, shift, s, he.atom, hep);
      var chain := buckets[hep.bucket];
      assert Only(s, he.atom)[0] == he;
      assert chain == [he] + chain[1..];
      OrdersDrop(buckets, hash, shift, s, hep.bucket, he, chain[1..], s');
      assert chain[..hep.at] + chain[hep.at + 1..] == chain[1..];
      buckets := buckets[hep.bucket := chain[..hep.at] + chain[hep.at + 1..]];
      var n := |buckets|;
      nentries := nentries - 1;
      if nentries < (if n > MIN_BUCKETS then n / 4 else 0) {
        ShiftRight(n, shift);
        var ok := Resize(shift + 1, memory, s');
      }
    }
  }

  lemma LogInRange(n: nat, k: nat)
    requires 16 < n <= 0x4000_0000 && Power(k) >= n && (k > 0 ==> Power(k - 1) < n)
    ensures 4 <= k <= 31
  {
    assert Power(4) == 16;
    assert Power(15) == 0x8000;
    PowerSum(15, 15);
    if k < 4 {
      PowerGrows(k, 4);
    } else if k > 31 {
      PowerGrows(30, k - 1);
    }
  }

  lemma PowerGrows(j: nat, k: nat)
    requires j <= k
    ensures Power(j) <= Power(k)
  {
    PowerSum(j, k - j);
    var p, q := Power(j), Power(k - j);
    Times(0, q, p);
    assert p * q >= p by {
      Distributes(1, q - 1, p);
      NonNegative(q - 1, p);
    }
  }

  /** A table that needs more buckets can have them. */
  lemma ShiftLeft(n: nat, shift: nat)
    requires 1 <= shift <= HASH_BITS - MIN_BUCKETS_LOG2 && n == Power(HASH_BITS - shift) && n - n / 8 < 0x4000_0000
    ensures shift >= 2
  {
    PowerAtTop(HASH_BITS - shift);
  }

  lemma PowerAtTop(k: nat)
    ensures k == 31 ==> Power(k) == 0x8000_0000
    ensures k == 4 ==> Power(k) == MIN_BUCKETS
  {
    if k == 31 {
      PowerOfBits(HASH_BITS);
      assert Power(HASH_BITS) == 2 * Power(k);
    }
  }

  lemma ShiftRight(n: nat, shift: nat)
    requires 1 <= shift <= HASH_BITS - MIN_BUCKETS_LOG2 && n == Power(HASH_BITS - shift) && n > MIN_BUCKETS
    ensures shift + 1 <= HASH_BITS - MIN_BUCKETS_LOG2
  {
    PowerAtTop(HASH_BITS - shift);
  }

  lemma RestOfFlat(chains: Buckets, i: nat)
    requires i <= |chains| && |Flat(chains[..i])| < |Flat(chains)|
    ensures i < |chains| && |Flat(chains[..i])| + |chains[i]| <= |Flat(chains)|
  {
    assert chains[..|chains|] == chains;
    FlatNext(chains, i);
    FlatConcat(chains[..i + 1], chains[i + 1..]);
    assert chains == chains[..i + 1] + chains[i + 1..];
  }

  lemma RestIsEmpty(chains: Buckets, i: nat)
    requires i <= |chains| && |Flat(chains[..i])| == |Flat(chains)|
    ensures Flat(chains[..i]) == Flat(chains)
  {
    FlatConcat(chains[..i], chains[i..]);
    assert chains == chains[..i] + chains[i..];
  }

  lemma OrdersSame(after: Buckets, before: Buckets, hash: nat -> nat, shift: nat, oldShift: nat,
      all: seq<Element>, s: seq<Element>)
    requires Orders(after, hash, shift, all) && Orders(before, hash, oldShift, all) && Orders(before, hash, oldShift, s)
    ensures Orders(after, hash, shift, s)
  {
    forall a ensures Only(all, a) == Only(s, a) {
      assert Only(Chain(before, hash, oldShift, a), a) == Only(all, a);
      assert Only(Chain(before, hash, oldShift, a), a) == Only(s, a);
    }
  }

  lemma FoundIfStopped(chains: Buckets, hash: nat -> nat, shift: nat, s: seq<Element>, a: nat, hep: Link)
    requires Orders(chains, hash, shift, s) && Stops(chains, hash, shift, a, hep)
    ensures if Only(s, a) == [] then hep.at == |chains[hep.bucket]|
            else hep.at == 0 && |chains[hep.bucket]| > 0 && chains[hep.bucket][0] == Only(s, a)[0]
  {
    var chain := Chain(chains, hash, shift, a);
    assert Only(chain, a) == Only(s, a);
    OnlyFree(chain, a);
    if hep.at == 0 && chain != [] && chain[0].atom == a {
      assert chain == [chain[0]] + chain[1..];
      OnlyFirst(chain[0], chain[1..], a);
    }
  }

  /** The element in front of a chain is taken away. */
  lemma OrdersDrop(chains: Buckets, hash: nat -> nat, shift: nat, s: seq<Element>, b: nat, e: Element,
      rest: seq<Element>, s': seq<Element>)
    requires Orders(chains, hash, shift, s) && b < |chains| && b == Slot(hash(e.atom), shift)
    requires chains[b] == [e] + rest && Without(s, e, s')
    ensures Orders(chains[b := rest], hash, shift, s')
  {
    hide Slot, Flat, Only, Power;
    InPlace(chains, hash, shift, b);
    forall f | f in rest ensures f in chains[b] {
    }
    forall x | Slot(hash(x), shift) == b ensures Only(rest, x) == Only(s', x) {
      DroppedFromBoth(chains, hash, shift, s, b, e, rest, s', x);
    }
    OrdersUpdate(chains, hash, shift, s, b, rest, s');
  }

  lemma DroppedFromBoth(chains: Buckets, hash: nat -> nat, shift: nat, s: seq<Element>, b: nat, e: Element,
      rest: seq<Element>, s': seq<Element>, x: nat)
    requires Orders(chains, hash, shift, s) && b < |chains| && b == Slot(hash(x), shift)
    requires chains[b] == [e] + rest && Without(s, e, s')
    ensures Only(rest, x) == Only(s', x)
  {
    hide Slot, Flat, Only, Power;
    OnlyFirst(e, rest, x);
    assert Only(Chain(chains, hash, shift, x), x) == Only(s, x);
    if x == e.atom {
      SameTail(e, Only(rest, x), Only(s', x));
    }
  }

  lemma SameTail(e: Element, s: seq<Element>, t: seq<Element>)
    requires [e] + s == [e] + t
    ensures s == t
  {
    assert ([e] + s)[1..] == s && ([e] + t)[1..] == t;
  }
}
