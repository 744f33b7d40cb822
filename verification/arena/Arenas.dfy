/** The arena allocator: bump allocation in a chain of arenas, mark and release, and a quota. */
module Arenas {
  import opened Addresses

  /** One malloc'ed block with its header; the first arena is part of the pool and has no room. */
  class Arena {
    const address: nat
    var next: Arena?
    var base: nat
    var limit: nat
    var avail: nat
    var header: Arena?   // the word before base, if oversized: whose next member points here

    constructor (address: nat, base: nat, limit: nat, header: Arena?)
      ensures this.address == address && this.base == base && this.limit == limit && this.avail == base
      ensures next == null && this.header == header
    {
      this.address, this.base, this.limit, this.avail := address, base, limit, base;
      next, this.header := null, header;
    }
  }

  /** The bytes that may still be allocated, shared between pools. */
  class Quota {
    var left: nat
  }

  /** An allocation that has not been released. */
  datatype Block = Block(p: nat, n: nat, arena: Arena)

  /** A moment in the life of a pool. */
  datatype Mark = Mark(arenas: seq<Arena>, avails: seq<nat>, live: seq<Block>)

  ghost function Held(arenas: seq<Arena>): nat
    reads arenas`limit
  {
    if |arenas| == 0 then 0
    else
      var a := arenas[|arenas| - 1];
      Held(arenas[..|arenas| - 1]) + if a.limit >= a.address then a.limit - a.address else 0
  }

  ghost function Avails(arenas: seq<Arena>): (r: seq<nat>)
    reads arenas`avail
    ensures |r| == |arenas| && forall i :: 0 <= i < |arenas| ==> r[i] == arenas[i].avail
  {
    if |arenas| == 0 then [] else Avails(arenas[..|arenas| - 1]) + [arenas[|arenas| - 1].avail]
  }

  class ArenaPool {
    const first: Arena
    var current: Arena
    const arenasize: nat
    const k: nat                  // the alignment is 2^k
    const quota: Quota?
    ghost var arenas: seq<Arena>  // the chain from first on
    ghost var live: seq<Block>    // in the order of allocation

    function M(): (m: nat)
      ensures m >= 1
    {
      Power(k)
    }

    // ----- The invariant -----

    /** The addresses that belong to an arena; for the first one, those of the pool. */
    ghost function Low(a: Arena): nat
    {
      a.address
    }

    ghost function High(a: Arena): nat
      reads a`limit
    {
      if a == first && a.limit + 1 <= a.address + POOL_STRUCT then a.address + POOL_STRUCT
      else if a == first then a.limit + 1
      else a.limit
    }

    ghost predicate Sound(a: Arena)
      reads a`base, a`limit, a`avail
    {
      && a.address + ARENA_STRUCT <= a.base <= a.avail <= a.limit < WORDS
      && a.base <= a.address + ARENA_STRUCT + HeaderSize(M()) + (M() - 1)
      && (a == first || a.base + arenasize <= a.limit)
      && a.base % M() == 0 && a.avail % M() == 0
    }

    ghost predicate Apart(a: Arena, b: Arena)
      reads a`limit, b`limit
    {
      High(a) <= Low(b) || High(b) <= Low(a)
    }

    ghost predicate Linked()
      reads `arenas, arenas`next
    {
      LinkedAs(arenas)
    }

    ghost predicate LinkedAs(s: seq<Arena>)
      reads s`next
    {
      && |s| >= 1 && s[0] == first && (forall i, j :: 0 <= i < j < |s| ==> s[i] != s[j])
      && (forall i {:trigger s[i].next} :: 0 <= i < |s| - 1 ==> s[i].next == s[i + 1])
      && s[|s| - 1].next == null
    }

    ghost predicate Separate()
      reads `arenas, arenas`base, arenas`limit, arenas`avail
    {
      SeparateAs(arenas)
    }

    ghost predicate SeparateAs(s: seq<Arena>)
      reads s`base, s`limit, s`avail
    {
      && (forall a :: a in s ==> Sound(a))
      && (forall i, j :: 0 <= i < j < |s| ==> Apart(s[i], s[j]))
    }

    lemma SeparateWithout(front: seq<Arena>, a: Arena, rest: seq<Arena>)
      requires SeparateAs(front + [a] + rest)
      ensures SeparateAs(front + rest)
    {
      hide Sound, Apart;
      var s, t, i := front + [a] + rest, front + rest, |front|;
      assert forall j :: 0 <= j < |t| ==> t[j] == s[if j < i then j else j + 1];
    }

    /** The arena can be taken out, once the link to it leads to the next one. */
    lemma LinkedWithout(front: seq<Arena>, a: Arena, rest: seq<Arena>)
      requires |front| > 0 && front[0] == first
      requires var s := front + [a] + rest; forall j, k :: 0 <= j < k < |s| ==> s[j] != s[k]
      requires forall j {:trigger front[j].next} :: 0 <= j < |front| - 1 ==> front[j].next == front[j + 1]
      requires front[|front| - 1].next == if |rest| > 0 then rest[0] else null
      requires forall j {:trigger rest[j].next} :: 0 <= j < |rest| - 1 ==> rest[j].next == rest[j + 1]
      requires |rest| > 0 ==> rest[|rest| - 1].next == null
      ensures LinkedAs(front + rest)
    {
      var s, t, i := front + [a] + rest, front + rest, |front|;
      assert forall j :: 0 <= j < |t| ==> t[j] == s[if j < i then j else j + 1];
      forall j | 0 <= j < |t| - 1 ensures t[j].next == t[j + 1] {
        if j < i {
          assert t[j].next == front[j].next;
        } else {
          assert t[j].next == rest[j - i].next;
        }
      }
    }

    lemma LinkedParts(front: seq<Arena>, a: Arena, rest: seq<Arena>)
      requires |front| > 0 && LinkedAs(front + [a] + rest)
      ensures front[0] == first && front[|front| - 1].next == a && a !in front
      ensures forall j {:trigger front[j].next} :: 0 <= j < |front| - 1 ==> front[j].next == front[j + 1]
      ensures a.next == if |rest| > 0 then rest[0] else null
      ensures forall j {:trigger rest[j].next} :: 0 <= j < |rest| - 1 ==> rest[j].next == rest[j + 1]
      ensures |rest| > 0 ==> rest[|rest| - 1].next == null
      ensures forall j :: 0 <= j < |front| - 1 ==> front[j] != front[|front| - 1]
      ensures forall j :: 0 <= j < |rest| ==> rest[j] != front[|front| - 1]
    {
      var s, i := front + [a] + rest, |front|;
      assert s[i] == a && s[i - 1] == front[i - 1] && s[|s| - 1] == if |rest| > 0 then rest[|rest| - 1] else a;
      assert s[i - 1].next == s[i];
      assert forall j :: 0 <= j < i ==> s[j] == front[j];
      assert forall j :: 0 <= j < |rest| ==> rest[j] == s[i + 1 + j];
      forall j | 0 <= j < |front| - 1 ensures front[j].next == front[j + 1] {
        assert s[j].next == s[j + 1];
      }
      forall j | 0 <= j < |rest| - 1 ensures rest[j].next == rest[j + 1] {
        assert s[i + 1 + j].next == s[i + 1 + j + 1];
      }
      if |rest| > 0 {
        assert s[i].next == s[i + 1];
      }
    }

    ghost predicate Contained(b: Block)
      reads `arenas, arenas`base, arenas`avail
    {
      ContainedIn(b, arenas)
    }

    ghost predicate ContainedIn(b: Block, s: seq<Arena>)
      reads s`base, s`avail
    {
      b.arena in s && b.arena.base <= b.p && 0 < b.n && b.p + b.n <= b.arena.avail && b.p % M() == 0
    }

    /** Every allocation lies in the used part of an arena, and no two overlap. */
    ghost predicate Allocated()
      reads `arenas, `live, arenas`base, arenas`avail
    {
      AllocatedIn(live, arenas)
    }

    ghost predicate AllocatedIn(blocks: seq<Block>, s: seq<Arena>)
      reads s`base, s`avail
    {
      && (forall b :: b in blocks ==> ContainedIn(b, s))
      && forall i, j :: 0 <= i < j < |blocks| ==> Disjoint(blocks[i], blocks[j])
    }

    lemma AllocatedWithout(blocks: seq<Block>, front: seq<Arena>, a: Arena, rest: seq<Arena>)
      requires AllocatedIn(blocks, front + [a] + rest) && forall b :: b in blocks ==> b.arena in front
      ensures AllocatedIn(blocks, front + rest)
    {
      forall b | b in blocks ensures ContainedIn(b, front + rest) {
        assert ContainedIn(b, front + [a] + rest) && b.arena in front;
      }
    }

    ghost predicate Disjoint(b: Block, c: Block)
    {
      b.p + b.n <= c.p || c.p + c.n <= b.p
    }

    ghost predicate Chained()
      reads `arenas, `live, arenas
    {
      Linked() && Separate() && Allocated()
    }

    predicate Bounded()
    {
      arenasize + ARENA_STRUCT + HeaderSize(M()) + M() < WORDS
    }

    ghost predicate Valid()
      reads this, arenas
    {
      Chained() && current == arenas[|arenas| - 1] && Bounded()
    }

    // ----- The back-pointers of oversized allocations -----

    /** The smallest allocation that is larger than arenas usually are, if the pool is regular. */
    function Over(): nat
    {
      if arenasize < M() then M() else arenasize + M()
    }

    /** The size of arenas is a multiple of the alignment, and what is left behind an oversized allocation holds no other oversized one. */
    predicate Regular()
    {
      (arenasize < M() || arenasize % M() == 0) && HeaderAlign(M()) <= Over()
    }

    lemma OverIs(n: nat)
      requires Regular() && n % M() == 0 && n > arenasize
      ensures n >= Over()
    {
      hide Power;
      if arenasize < M() {
        MultiplesApart(0, n, M());
      } else {
        MultiplesApart(arenasize, n, M());
      }
    }

    /** There is room for the back-pointer between the arena structure and the base. */
    predicate HasSlot(a: Arena)
      reads a`base
    {
      a.base % POINTER_SIZE == 0 && a.base >= a.address + ARENA_STRUCT + POINTER_SIZE
    }

    /** The allocation is at the base of an arena made for it. */
    predicate MadeFor(b: Block, a: Arena)
      reads a`base, a`limit
    {
      && b.p == a.base && HasSlot(a)
      && a.limit < a.base + b.n + HeaderAlign(M()) && a.limit - a.address <= Regross(b.n)
    }

    /** And the word before it leads to the arena before. */
    predicate Backs(b: Block, a: Arena, prev: Arena)
      reads a`base, a`limit, a`header
    {
      MadeFor(b, a) && a.header == prev
    }

    predicate Small(a: Arena)
      reads a`base, a`limit
    {
      M() <= arenasize && a.limit - a.base < arenasize + M()
    }

    ghost predicate Keeps(a: Arena, prev: Arena, blocks: seq<Block>)
      reads a`base, a`limit, a`avail, a`header
    {
      KeepsAs(a, a.avail, a.header, prev, blocks)
    }

    ghost predicate KeepsAs(a: Arena, avail: nat, header: Arena?, prev: Arena, blocks: seq<Block>)
      reads a`base, a`limit
    {
      && a.base < avail && (exists b :: b in blocks && AtBase(b, a))
      && (Regular() ==> a.limit - avail < Over())
      && (Regular() ==> forall b :: b in blocks && b.arena == a && b.n > arenasize ==> MadeFor(b, a) && header == prev)
    }

    /** The allocation that the arena was made for. */
    predicate AtBase(b: Block, a: Arena)
      reads a`base, a`limit
    {
      b.arena == a && b.p == a.base && (b.n > arenasize || Small(a)) && TakesAtMost(a, b.n)
    }

    /** The arena takes no more than one that is reallocated for n bytes. */
    predicate TakesAtMost(a: Arena, n: nat)
      reads a`limit
    {
      a.limit - a.address <= Regross(if n > arenasize then n else arenasize)
    }

    /** The arena has been made for an allocation of nb bytes behind prev. */
    predicate Suits(a: Arena, nb: nat, prev: Arena)
      reads a`base, a`limit, a`header
    {
      if nb > arenasize then Backs(Block(a.base, nb, a), a, prev)
      else a.limit - a.base < arenasize + M() && TakesAtMost(a, nb)
    }

    /** In a regular pool every oversized allocation has its back-pointer, and none fits an arena in use. */
    ghost predicate Backed()
      reads `arenas, `live, first`base, first`limit, arenas`base, arenas`limit, arenas`avail, arenas`header
    {
      BackedUpTo(|arenas|)
    }

    ghost predicate BackedUpTo(n: nat)
      requires n <= |arenas|
      reads `arenas, `live, first`base, first`limit, arenas`base, arenas`limit, arenas`avail, arenas`header
    {
      && first.base == first.limit
      && (forall b :: b in live ==> b.n % M() == 0)
      && forall i, j :: 0 <= i && j == i + 1 < n ==> Keeps(arenas[j], arenas[i], live)
    }

    /** The current arena is as it should be, or it has just been made for this allocation. */
    ghost predicate Ready(nb: nat)
      reads `arenas, `live, arenas`base, arenas`limit, arenas`avail, arenas`header
    {
      var n := |arenas|;
      n > 1 ==>
        var a, prev := arenas[n - 1], arenas[n - 2];
        Keeps(a, prev, live)
        || (nb > 0 && a.avail == a.base && (forall b :: b in live ==> b.arena != a)
            && Suits(a, nb, prev))
    }

    lemma KeepsMore(a: Arena, prev: Arena, blocks: seq<Block>, b: Block)
      requires Keeps(a, prev, blocks) && b.arena != a
      ensures Keeps(a, prev, blocks + [b])
    {
      hide AtBase, MadeFor, Over, Regular;
      var f :| f in blocks && AtBase(f, a);
      assert f in blocks + [b];
    }

    /** An allocation behind others in its arena is none that arenas are not made for. */
    lemma KeepsAfterUse(a: Arena, prev: Arena, blocks: seq<Block>, b: Block)
      requires b.arena == a && b.n % M() == 0 && a.avail == b.p + b.n <= a.limit && KeepsAs(a, b.p, a.header, prev, blocks)
      ensures Keeps(a, prev, blocks + [b])
    {
      hide Power, MadeFor, AtBase, Over, Regular;
      var f :| f in blocks && AtBase(f, a);
      assert f in blocks + [b];
      if Regular() && b.n > arenasize {
        OverIs(b.n);
      }
    }

    lemma KeepsWhenMade(a: Arena, prev: Arena, blocks: seq<Block>, b: Block)
      requires b == Block(a.base, b.n, a) && b.n % M() == 0 && b.n > 0 && a.avail == a.base + b.n <= a.limit
      requires forall c :: c in blocks ==> c.arena != a
      requires Suits(a, b.n, prev)
      ensures Keeps(a, prev, blocks + [b])
    {
      hide Power, Regross;
      MultiplesApart(0, b.n, M());
      assert b in blocks + [b] && AtBase(b, a);
    }

    /** What the quota still allows, and what this pool has taken from it. */
    ghost function Total(): nat
      requires |arenas| >= 1
      reads `arenas, quota, arenas`limit
    {
      if quota == null then 0 else quota.left + Held(arenas[1..])
    }

    /** An allocation of no bytes is not recorded. */
    ghost function Plus(blocks: seq<Block>, b: Block): seq<Block>
    {
      if b.n > 0 then blocks + [b] else blocks
    }

    // ----- Marks -----

    ghost function Now(): Mark
      reads `arenas, `live, arenas`avail
    {
      Mark(arenas, Avails(arenas), live)
    }

    /** Since m only the last arena of that time has been used further, and others added behind it. */
    ghost predicate Extends(m: Mark)
      reads `arenas, `live, m.arenas`base, m.arenas`limit, m.arenas`avail
    {
      Marked(m) && m.arenas <= arenas && Since(m, live) && m.avails[|m.avails| - 1] <= m.arenas[|m.arenas| - 1].avail
    }

    ghost predicate Since(m: Mark, blocks: seq<Block>)
      reads Finished(m)`avail
    {
      && 1 <= |m.arenas| == |m.avails| && m.live <= blocks
      && (forall i :: 0 <= i < |m.arenas| - 1 ==> Finished(m)[i].avail == m.avails[i])
      && var t, avail := m.arenas[|m.arenas| - 1], m.avails[|m.avails| - 1];
         forall i :: |m.live| <= i < |blocks| ==> Behind(blocks[i], t, avail, m.arenas)
    }

    /** The arenas that were not used any more when the mark was made. */
    static ghost function Finished(m: Mark): seq<Arena>
    {
      if |m.arenas| == 0 then [] else m.arenas[..|m.arenas| - 1]
    }

    /** An allocation made since the mark may grow where it is, or move to an arena made since. */
    lemma SinceReplaced(m: Mark, blocks: seq<Block>, j: nat, block: Block)
      requires Since(m, blocks) && |m.live| <= j < |blocks|
      requires (block.arena == blocks[j].arena && block.p == blocks[j].p) || block.arena !in m.arenas
      ensures Since(m, blocks[j := block])
    {
      var t, avail := m.arenas[|m.arenas| - 1], m.avails[|m.avails| - 1];
      var u := blocks[j := block];
      forall i | |m.live| <= i < |u| ensures Behind(u[i], t, avail, m.arenas) {
        assert Behind(blocks[i], t, avail, m.arenas);
      }
    }

    lemma AlignedReplaced(blocks: seq<Block>, j: nat, block: Block)
      requires (forall b :: b in blocks ==> b.n % M() == 0) && j < |blocks| && block.n % M() == 0
      ensures forall b :: b in blocks[j := block] ==> b.n % M() == 0
    {
      hide Power;
    }

    /** The mark lies in the last arena of its time, behind what was allocated there. */
    ghost predicate Marked(m: Mark)
      reads m.arenas`base, m.arenas`limit
    {
      && 1 <= |m.arenas| == |m.avails|
      && var t, avail := m.arenas[|m.arenas| - 1], m.avails[|m.avails| - 1];
         && t.base <= avail && avail % M() == 0
         && (t == first || (t.base < avail && (Regular() ==> t.limit - avail < Over())))
         && forall b :: b in m.live ==> b.arena in m.arenas && (b.arena == t ==> b.p + b.n <= avail)
    }

    /** What was allocated since lies behind the mark, in its arena or in a later one. */
    static ghost predicate Behind(b: Block, t: Arena, avail: nat, s: seq<Arena>)
    {
      b.arena !in s || (b.arena == t && avail <= b.p)
    }

    /** JS_ARENA_MARK */
    method MarkHere() returns (mark: nat, ghost m: Mark)
      requires Valid() && Backed()
      ensures m == Now() && Extends(m) && mark == m.avails[|m.avails| - 1]
    {
      mark := current.avail;
      m := Now();
      NowExtends();
    }

    // ----- Initialisation -----

    /** JS_InitArenaPool; address is that of the pool. */
    constructor (address: nat, size: nat, align: nat, quota: Quota?)
      requires 0 < address && address + POOL_STRUCT + 2 * align + 2 * POINTER_SIZE < WORDS
      requires size + POOL_STRUCT + 2 * align + 2 * POINTER_SIZE < WORDS
      ensures Valid() && Backed() && fresh(first) && this.quota == quota && arenasize == size
      ensures arenas == [first] && live == [] && first.address == address
      ensures var a := if align == 0 then POINTER_SIZE else align; M() >= a && (M() > 1 ==> M() < 2 * a)
    {
      var k := CeilingLog2(if align == 0 then POINTER_SIZE else align);
      PowerBelow(k, if align == 0 then POINTER_SIZE else align);
      var base := Align(address + ARENA_STRUCT, Power(k));
      var f := new Arena(address, base, base, null);
      this.k := k;
      first, current, arenasize, this.quota := f, f, size, quota;
      arenas, live := [f], [];
    }

    // ----- Allocation -----

    /** How much JS_ArenaAllocate asks malloc for. */
    function Gross(nb: nat): (g: nat)
      ensures g >= nb + ARENA_STRUCT
    {
      ARENA_STRUCT + (if nb > arenasize then HeaderSize(M()) else 0) + (M() - 1) + if nb > arenasize then nb else arenasize
    }

    /** Where the allocations of a new arena at address a begin. */
    function BaseFor(nb: nat, a: nat): nat
    {
      if nb > arenasize then Floor(a + ARENA_STRUCT + HeaderSize(M()) + (M() - 1), HeaderAlign(M()))
      else Align(a + ARENA_STRUCT, M())
    }

    /** The arena has been made for an allocation of nb bytes; if it is oversized, the word before its base points back. */
    ghost predicate MadeAs(b: Arena, nb: nat, answer: nat, prev: Arena)
      reads b`base, b`limit, b`header
    {
      && b.address == answer && b.limit == answer + Gross(nb) && b.base == BaseFor(nb, answer)
      && b.header == if nb > arenasize then prev else null
    }

    /** What malloc may answer: null, or the address of a block that overlaps nothing in use. */
    ghost predicate MayAnswer(answer: nat, gross: nat)
      reads `arenas, arenas`limit
    {
      answer == 0 ||
      (answer + gross < WORDS
       && forall a :: a in arenas ==> High(a) <= answer || answer + gross <= Low(a))
    }

    /** No new arena can be had: it would be too large, it is beyond the quota, or malloc fails. */
    predicate Refused(nb: nat, answer: nat)
      reads quota
    {
      Gross(nb) >= WORDS || (quota != null && Gross(nb) > quota.left) || answer == 0
    }

    /** The allocation that will be made from this arena fits. */
    predicate Fits(a: Arena, nb: nat)
      reads a`limit, a`avail
    {
      nb <= a.limit && a.avail <= a.limit - nb
    }

    lemma LinksOf(s: seq<Arena>)
      requires LinkedAs(s)
      ensures |s| >= 1 && s[0] == first && (forall i, j :: 0 <= i < j < |s| ==> s[i] != s[j])
      ensures forall i {:trigger s[i].next} :: 0 <= i < |s| - 1 ==> s[i].next == s[i + 1]
    {
    }

    lemma LinkedMore(s: seq<Arena>, b: Arena)
      requires |s| >= 1 && s[0] == first && b !in s && (forall i, j :: 0 <= i < j < |s| ==> s[i] != s[j])
      requires forall i {:trigger s[i].next} :: 0 <= i < |s| - 1 ==> s[i].next == s[i + 1]
      requires s[|s| - 1].next == b && b.next == null
      ensures LinkedAs(s + [b])
    {
    }

    lemma SeparateMore(s: seq<Arena>, b: Arena)
      requires SeparateAs(s) && Sound(b) && forall a :: a in s ==> Apart(a, b)
      ensures SeparateAs(s + [b])
    {
      hide Sound, Apart;
    }

    lemma AllocatedMore(blocks: seq<Block>, s: seq<Arena>, b: Arena)
      requires AllocatedIn(blocks, s)
      ensures AllocatedIn(blocks, s + [b])
    {
      hide Disjoint;
      forall c | c in blocks ensures ContainedIn(c, s + [b]) {
        assert ContainedIn(c, s);
      }
    }

    lemma HeldMore(s: seq<Arena>, b: Arena)
      requires |s| >= 1 && Sound(b)
      ensures b.address <= b.limit && Held((s + [b])[1..]) == Held(s[1..]) + (b.limit - b.address)
    {
      assert (s + [b])[1..][..|s| - 1] == s[1..];
    }

    /** Links a new arena in behind the current one. */
    method Append(b: Arena)
      requires Valid() && b !in arenas && b.next == null && Sound(b)
      requires forall a :: a in arenas ==> Apart(a, b)
      modifies this`current, this`arenas, current`next
      ensures Valid() && arenas == old(arenas) + [b] && live == old(live)
      ensures Held(arenas[1..]) == old(Held(arenas[1..])) + (b.limit - b.address)
    {
      hide Power, HeaderSize, Disjoint, High, Sound, Apart, SeparateAs, AllocatedIn, Held, LinkedAs;
      LinksOf(arenas);
      SeparateMore(arenas, b);
      AllocatedMore(live, arenas, b);
      HeldMore(arenas, b);
      current.next := b;
      LinkedMore(arenas, b);
      arenas := arenas + [b];
      current := b;
    }

    /** Room for an arena; not ok if it would be too large, exceed the quota, or malloc fails. */
    method TakeBlock(nb: nat, answer: nat) returns (ok: bool, extra: nat, hdrsz: nat, gross: nat)
      requires Valid() && nb < WORDS
      modifies quota
      ensures ok <==> Gross(nb) < WORDS && (quota == null || Gross(nb) <= old(quota.left)) && answer != 0
      ensures quota != null ==> quota.left == old(quota.left) - if ok then Gross(nb) else 0
      ensures ok ==> gross == Gross(nb) == hdrsz + (if nb > arenasize then nb else arenasize)
      ensures extra == (if nb > arenasize then HeaderSize(M()) else 0) && hdrsz == ARENA_STRUCT + extra + (M() - 1)
    {
      ok := false;
      extra := if nb > arenasize then HeaderSize(M()) else 0;
      hdrsz := ARENA_STRUCT + extra + (M() - 1);
      gross := (hdrsz + if nb > arenasize then nb else arenasize) % WORDS;
      if gross < nb {
        return;
      }
      if quota != null {
        if gross > quota.left {
          return;
        }
        if answer == 0 {
          return;
        }
        quota.left := quota.left - gross;
      } else {
        if answer == 0 {
          return;
        }
      }
      ok := true;
    }

    /** The fields of a new arena; if it is oversized, the header before its base points back. */
    method MakeArena(nb: nat, answer: nat, extra: nat, hdrsz: nat, gross: nat) returns (b: Arena)
      requires Valid() && nb % M() == 0 && answer != 0 && MayAnswer(answer, Gross(nb))
      requires gross == Gross(nb) == hdrsz + (if nb > arenasize then nb else arenasize)
      requires extra == (if nb > arenasize then HeaderSize(M()) else 0) && hdrsz == ARENA_STRUCT + extra + (M() - 1)
      ensures fresh(b) && b.next == null && Sound(b) && b.avail == b.base && Fits(b, nb)
      ensures MadeAs(b, nb, answer, current)
      ensures forall a :: a in arenas ==> Apart(a, b)
      ensures Suits(b, nb, current)
    {
      if extra > 0 {
        OversizedBase(k, answer, nb);
        b := new Arena(answer, Floor(answer + hdrsz, HeaderAlign(M())), answer + gross, current);
      } else {
        b := new Arena(answer, Align(answer + ARENA_STRUCT, M()), answer + gross, null);
      }
    }

    /** The part of JS_ArenaAllocate that makes an arena behind the current one. */
    method NewArena(nb: nat, answer: nat) returns (b: Arena?)
      requires Valid() && nb % M() == 0 && nb < WORDS && MayAnswer(answer, Gross(nb))
      modifies this`current, this`arenas, current`next, quota
      ensures Valid() && live == old(live)
      ensures b == null <==> old(Refused(nb, answer))
      ensures b == null ==> arenas == old(arenas) && current == old(current)
      ensures b != null ==> fresh(b) && arenas == old(arenas) + [b] && b.avail == b.base && Fits(b, nb)
      ensures b != null ==> MadeAs(b, nb, answer, old(current))
      ensures b != null ==> Suits(b, nb, old(current))
      ensures Total() == old(Total())
    {
      hide Power, HeaderSize, HeaderAlign, Separate, Allocated, Sound, Apart, Held, MayAnswer, Backs, MadeAs;
      var ok, extra, hdrsz, gross := TakeBlock(nb, answer);
      assert Held(arenas[1..]) == old(Held(arenas[1..]));
      b := null;
      if ok {
        b := MakeArena(nb, answer, extra, hdrsz, gross);
        assert Held(arenas[1..]) == old(Held(arenas[1..]));
        Append(b);
      }
    }

    /** What is free in the current arena overlaps no allocation. */
    lemma FreeIsApart(b: Block)
      requires Valid() && b in live
      ensures b.p + b.n <= current.avail || current.limit <= b.p
    {
      assert Contained(b) && Sound(b.arena) && Sound(current);
      if b.arena != current {
        var i :| 0 <= i < |arenas| && arenas[i] == b.arena;
        assert Apart(arenas[i], arenas[|arenas| - 1]);
      }
    }

    lemma LastHasNoNext()
      requires Valid()
      ensures current.next == null && current in arenas && Sound(current)
    {
      assert arenas[|arenas| - 1].next == null;
    }

    /** More of the current arena is in use. */
    method SetAvail(avail: nat)
      requires Valid() && current.avail <= avail <= current.limit && avail % M() == 0
      modifies current`avail
      ensures Valid() && current.avail == avail
    {
      assert current in arenas && Sound(current);
      hide Power, HeaderSize, Disjoint, Apart, LinkedAs;
      current.avail := avail;
      assert AllocatedIn(live, arenas) by {
        forall b | b in live ensures ContainedIn(b, arenas) {
          assert old(ContainedIn(b, arenas));
        }
      }
    }

    lemma AllocatedPlus(blocks: seq<Block>, s: seq<Arena>, b: Block)
      requires AllocatedIn(blocks, s) && ContainedIn(b, s) && forall c :: c in blocks ==> Disjoint(c, b)
      ensures AllocatedIn(blocks + [b], s)
    {
      hide ContainedIn, Disjoint;
    }

    lemma SincePlus(m: Mark, blocks: seq<Block>, b: Block)
      requires Since(m, blocks) && (b.arena !in m.arenas || (b.arena == m.arenas[|m.arenas| - 1] && m.avails[|m.avails| - 1] <= b.p))
      ensures Since(m, blocks + [b])
    {
    }

    static lemma FinishedBefore(m: Mark, i: nat)
      requires i < |m.arenas|
      ensures i < |m.arenas| - 1 ==> m.arenas[i] in Finished(m)
    {
      assert i < |m.arenas| - 1 ==> Finished(m)[i] == m.arenas[i];
    }

    lemma WhereItGoes(m: Mark, nb: nat)
      requires Valid() && Extends(m) && Fits(current, nb) && nb > 0
      ensures 1 <= |m.arenas| == |m.avails| && current !in Finished(m)
      ensures current !in m.arenas || (current == m.arenas[|m.arenas| - 1] && m.avails[|m.avails| - 1] <= current.avail)
      ensures forall b :: b in live ==> Disjoint(b, Block(current.avail, nb, current))
    {
      CurrentNotFinished(m);
      if current in m.arenas {
        var i :| 0 <= i < |m.arenas| && m.arenas[i] == current;
        FinishedBefore(m, i);
      }
      forall b | b in live ensures Disjoint(b, Block(current.avail, nb, current)) {
        FreeIsApart(b);
      }
    }

    method BumpAvail(nb: nat, ghost m: Mark) returns (p: nat)
      requires Valid() && nb % M() == 0 && Fits(current, nb) && Extends(m)
      modifies this`live, current`avail
      ensures Valid() && Extends(m) && p == old(current.avail) && current.avail == p + nb
      ensures live == Plus(old(live), Block(p, nb, current)) && p % M() == 0 && p > 0
    {
      hide Valid, Power, Bounded, Disjoint, Marked, Since, AllocatedIn, LinkedAs, SeparateAs, ContainedIn;
      BumpFits(nb);
      CurrentNotFinished(m);
      p := current.avail;
      if nb > 0 {
        WhereItGoes(m, nb);
      }
      SetAvail(p + nb);
      Parts();
      if nb > 0 {
        ContainedNow(p, nb);
        AllocatedPlus(live, arenas, Block(p, nb, current));
        SincePlus(m, live, Block(p, nb, current));
      }
      live := Plus(live, Block(p, nb, current));
      Together();
    }

    lemma BumpFits(nb: nat)
      requires Valid() && nb % M() == 0 && Fits(current, nb)
      ensures 0 < current.base <= current.avail <= current.avail + nb <= current.limit
      ensures current.avail % M() == 0 && (current.avail + nb) % M() == 0
    {
      assert Sound(current);
      hide Power;
      SumModulo(current.avail, nb, M());
    }

    lemma ContainedNow(p: nat, nb: nat)
      requires Valid() && current.base <= p && nb > 0 && p + nb <= current.avail && p % M() == 0
      ensures ContainedIn(Block(p, nb, current), arenas)
    {
    }

    lemma CurrentIsLast()
      requires Valid()
      ensures |arenas| >= 1 && current == arenas[|arenas| - 1] && current.base <= current.avail <= current.limit
      ensures forall i :: 0 <= i < |arenas| - 1 ==> arenas[i] != current
      ensures |arenas| == 1 <==> current == first
    {
      assert Sound(current);
    }

    /** Bumps the current arena. */
    method Bump(nb: nat, ghost m: Mark) returns (p: nat)
      requires Valid() && nb % M() == 0 && Fits(current, nb) && Extends(m) && BackedUpTo(|arenas| - 1) && Ready(nb)
      modifies this`live, current`avail
      ensures Valid() && Backed() && Extends(m) && p == old(current.avail) && current.avail == p + nb
      ensures live == Plus(old(live), Block(p, nb, current)) && p % M() == 0 && p > 0
    {
      hide Valid, Extends, Power, Over, Regular, MadeFor, AtBase;
      CurrentIsLast();
      ghost var n, before := |arenas|, live;
      ghost var kept := n > 1 && Keeps(current, arenas[n - 2], live);
      p := BumpAvail(nb, m);
      ghost var b := Block(p, nb, current);
      if n == 1 {
        assert nb == 0;
      } else if kept {
        KeepsAfterUse(current, arenas[n - 2], before, b);
      } else {
        KeepsWhenMade(current, arenas[n - 2], before, b);
      }
      forall i, j | 0 <= i && j == i + 1 < n ensures Keeps(arenas[j], arenas[i], live) {
        if j < n - 1 {
          assert Keeps(arenas[j], arenas[i], before);
          KeepsMore(arenas[j], arenas[i], before, b);
        }
      }
    }

    /** JS_ArenaAllocate: searches from the current arena on, and mallocs at most once. */
    method ArenaAllocate(nb: nat, answer: nat, ghost m: Mark) returns (p: nat)
      requires Valid() && Backed() && nb % M() == 0 && nb < WORDS && MayAnswer(answer, Gross(nb)) && Extends(m)
      modifies this`current, this`arenas, this`live, current`next, current`avail, quota
      ensures Valid() && Backed() && Extends(m) && Total() == old(Total())
      ensures p == 0 <==> !old(Fits(current, nb)) && old(Refused(nb, answer))
      ensures p == 0 ==> Now() == old(Now()) && current == old(current)
      ensures p != 0 ==> live == Plus(old(live), Block(p, nb, current)) && p % M() == 0 && current.avail == p + nb
      ensures p != 0 ==>
        if old(Fits(current, nb)) then arenas == old(arenas) && current == old(current) && p == old(current.avail)
        else fresh(current) && arenas == old(arenas) + [current] && MadeAs(current, nb, answer, old(current)) && p == current.base
    {
      hide Power, HeaderSize, HeaderAlign, Separate, Allocated, Sound, Apart, Held, MayAnswer, Backs, Keeps, Ready,
           BackedUpTo, Extends, MadeAs, Avails;
      var a := current;
      ghost var grown := false;
      LastIsReady(nb);
      FewerBacked();
      while nb > a.limit || a.avail > a.limit - nb
        invariant Valid() && Extends(m) && a == current && live == old(live) && Total() == old(Total())
        invariant BackedUpTo(|arenas| - 1) && Ready(nb)
        invariant !grown ==> arenas == old(arenas) && a == old(current) && (quota != null ==> quota.left == old(quota.left))
        invariant old(current).avail == old(current.avail) && (!grown ==> Now() == old(Now()) && Backed())
        invariant grown ==> fresh(a) && Fits(a, nb) && !old(Fits(current, nb)) && !old(Refused(nb, answer))
        invariant grown ==> arenas == old(arenas) + [a] && MadeAs(a, nb, answer, old(current)) && a.avail == a.base
        decreases !grown
      {
        if a.next == null {
          var b := ReadyArena(nb, answer, m);
          if b == null {
            return 0;
          }
          grown := true;
          a := b;
        } else {
          // The step to the next arena is never made: the current arena is the last one.
          LastHasNoNext();
          assert false;
        }
        current := a;
      }
      p := Bump(nb, m);
    }

    /** The new arena, ready for the allocation it is made for. */
    method ReadyArena(nb: nat, answer: nat, ghost m: Mark) returns (b: Arena?)
      requires Valid() && Backed() && nb % M() == 0 && nb < WORDS && MayAnswer(answer, Gross(nb)) && Extends(m)
      requires !Fits(current, nb)
      modifies this`current, this`arenas, current`next, quota
      ensures Valid() && live == old(live) && Extends(m)
      ensures b == null <==> old(Refused(nb, answer))
      ensures b == null ==> arenas == old(arenas) && current == old(current)
      ensures b != null ==> fresh(b) && arenas == old(arenas) + [b] && Fits(b, nb) && b.avail == b.base
      ensures b != null ==> MadeAs(b, nb, answer, old(current))
      ensures BackedUpTo(if b == null then |arenas| else |arenas| - 1) && (b != null ==> Ready(nb))
      ensures Total() == old(Total())
    {
      hide Power, HeaderSize, HeaderAlign, Separate, Allocated, Sound, Apart, Held,
        MayAnswer, Refused, Linked, Backs, Keeps, Regross, MadeAs;
      NothingFits();
      ghost var s := arenas;
      b := NewArena(nb, answer);
      assert forall i :: 0 <= i < |s| ==> arenas[i] == s[i];
    }

    lemma FewerBacked()
      requires |arenas| >= 1 && Backed()
      ensures BackedUpTo(|arenas| - 1)
    {
    }

    lemma LastIsReady(nb: nat)
      requires Valid() && Backed()
      ensures Ready(nb)
    {
      if |arenas| > 1 {
        assert Keeps(arenas[|arenas| - 1], arenas[|arenas| - 2], live);
      }
    }

    /** What does not fit is not nothing, and no allocation lies in an arena that is not in use. */
    lemma NothingFits()
      requires Valid()
      ensures Fits(current, 0) && forall b :: b in live ==> b.arena in arenas
    {
      assert Sound(current);
      forall b | b in live ensures b.arena in arenas {
        assert Contained(b);
      }
    }

    /** JS_ARENA_ALIGN in a machine word. */
    function Aligned(n: nat): (nb: nat)
      ensures nb % M() == 0
    {
      Floor((n + M() - 1) % WORDS, M())
    }

    /** The size is rounded up, but to nothing if that takes more than a machine word. */
    lemma AlignedIs(n: nat)
      requires n < WORDS && M() < WORDS
      ensures Aligned(n) == if n + M() <= WORDS then Align(n, M()) else 0
      ensures n > 0 ==> (n <= Aligned(n) <==> n + M() <= WORDS)
    {
      hide Power;
      WordOf(n + M() - 1);
      if n + M() > WORDS {
        FloorOfLess(n + M() - 1 - WORDS, M());
      }
    }

    /**
     * JS_ARENA_ALLOCATE, and JS_ARENA_ALLOCATE_TYPE without the guard, where the size is known to
     * be smaller than any address. What the fast path does is what JS_ArenaAllocate would do.
     */
    method Allocate(n: nat, guarded: bool, answer: nat, ghost m: Mark) returns (p: nat)
      requires Valid() && Backed() && n < WORDS && MayAnswer(answer, Gross(Aligned(n))) && Extends(m)
      requires guarded || Aligned(n) <= current.limit
      modifies this`current, this`arenas, this`live, current`next, current`avail, quota
      ensures Valid() && Backed() && Extends(m) && Total() == old(Total())
      ensures p == 0 <==> !old(Fits(current, Aligned(n))) && old(Refused(Aligned(n), answer))
      ensures p == 0 ==> Now() == old(Now()) && current == old(current)
      ensures p != 0 ==> live == Plus(old(live), Block(p, Aligned(n), current)) && p % M() == 0 && current.avail == p + Aligned(n)
      ensures p != 0 ==>
        if old(Fits(current, Aligned(n))) then arenas == old(arenas) && current == old(current) && p == old(current.avail)
        else fresh(current) && arenas == old(arenas) + [current] && MadeAs(current, Aligned(n), answer, old(current)) && p == current.base
    {
      var a := current;
      assert a in arenas && Sound(a);
      hide SlowPath, Power, HeaderSize, Aligned, Linked, Separate, Allocated, Sound, Held, MayAnswer, MadeAs;
      var nb := Aligned(n);
      p := a.avail;
      SlowPathIs(guarded, nb, a.limit, p);
      if SlowPath(guarded, nb, a.limit, p) {
        p := ArenaAllocate(nb, answer, m);
      } else {
        LastIsReady(nb);
        p := Bump(nb, m);
      }
    }

    // ----- Release -----

    /** JS_ARENA_MARK_MATCH: one unsigned comparison. */
    predicate Matches(a: Arena, mark: nat)
      requires a.base <= a.avail
      reads a`base, a`avail
    {
      (mark - a.base) % WORDS <= a.avail - a.base
    }

    lemma MatchesIsWithin(a: Arena, mark: nat)
      requires Sound(a) && mark < WORDS
      ensures Matches(a, mark) <==> a.base <= mark <= a.avail
    {
    }

    /** A mark lies in only one arena. */
    lemma OnlyMatch(m: Mark, i: nat)
      requires Valid() && Extends(m) && i < |arenas|
      ensures var mark := m.avails[|m.avails| - 1];
              mark < WORDS && Sound(arenas[i]) && (Matches(arenas[i], mark) <==> i == |m.arenas| - 1)
    {
      var mark, j := m.avails[|m.avails| - 1], |m.arenas| - 1;
      assert m.arenas[j] == arenas[j];
      assert Sound(arenas[i]) && Sound(arenas[j]);
      MatchesIsWithin(arenas[i], mark);
      if i < j {
        assert Apart(arenas[i], arenas[j]);
      } else if j < i {
        assert Apart(arenas[j], arenas[i]);
      }
    }

    /** `*ap = a->next`: one arena is taken out of the chain. */
    method Unlink(head: Arena, a: Arena, ghost front: seq<Arena>, ghost rest: seq<Arena>)
      requires Chained() && arenas == front + [a] + rest && |front| > 0 && front[|front| - 1] == head
      requires forall b :: b in live ==> b.arena in front
      modifies this`arenas, head`next
      ensures Chained() && arenas == front + rest && live == old(live)
      ensures a.address <= a.limit && old(Held(arenas[1..])) == Held(arenas[1..]) + (a.limit - a.address)
      ensures head.next == if |rest| > 0 then rest[0] else null
    {
      ghost var s := arenas;
      assert a in s && Sound(a) && a.address <= a.limit;
      SeparateWithout(front, a, rest);
      AllocatedWithout(live, front, a, rest);
      HeldTailWithout(front, a, rest);
      LinkedParts(front, a, rest);
      assert forall j, k :: 0 <= j < k < |s| ==> s[j] != s[k];
      hide SeparateAs, AllocatedIn, Held, Sound, LinkedAs;
      head.next := a.next;
      LinkedWithout(front, a, rest);
      arenas := front + rest;
    }

    /** Frees the arena behind head. */
    method FreeNext(head: Arena, a: Arena, ghost front: seq<Arena>, ghost rest: seq<Arena>)
      requires Chained() && arenas == front + rest && |rest| > 0 && rest[0] == a && |front| > 0 && front[|front| - 1] == head
      requires forall b :: b in live ==> b.arena in front
      modifies this`arenas, head`next, quota
      ensures Chained() && arenas == front + rest[1..] && live == old(live) && Total() == old(Total())
      ensures head.next == if |rest[1..]| > 0 then rest[1..][0] else null
    {
      hide SeparateAs, AllocatedIn, Held, Sound, LinkedAs;
      assert arenas == front + [a] + rest[1..];
      Unlink(head, a, front, rest[1..]);
      if quota != null {
        quota.left := quota.left + (a.limit - a.address);
      }
    }

    /** FreeArenaList: frees all arenas behind head, the last one of front. */
    method FreeArenaList(head: Arena, ghost front: seq<Arena>)
      requires Valid() && front <= arenas && |front| > 0 && front[|front| - 1] == head
      requires forall b :: b in live ==> b.arena in front
      modifies this`current, this`arenas, head`next, quota
      ensures Valid() && arenas == front && live == old(live) && Total() == old(Total())
      ensures old(BackedUpTo(|front|)) ==> Backed()
    {
      hide Chained, Held, Total, Sound, Keeps, Power, HeaderSize;
      ghost var rest := arenas[|front|..];
      assert arenas == front + rest;
      FollowingLink(front, rest);
      var a := head.next;
      if a == null {
        return;
      }
      while a != null
        invariant Chained() && arenas == front + rest && live == old(live) && Total() == old(Total())
        invariant head.next == a && a == if |rest| > 0 then rest[0] else null
        decreases |rest|
      {
        FreeNext(head, a, front, rest);
        rest := rest[1..];
        a := head.next;
      }
      current := head;
    }

    lemma FollowingLink(front: seq<Arena>, rest: seq<Arena>)
      requires |front| > 0 && arenas == front + rest && Chained()
      ensures front[|front| - 1].next == if |rest| > 0 then rest[0] else null
    {
      var s, i := front + rest, |front| - 1;
      assert s[i] == front[i];
      if |rest| > 0 {
        assert s[i].next == s[i + 1];
      }
    }

    /** a->avail = JS_ARENA_ALIGN(pool, mark): what was allocated since the mark is no longer live. */
    method Retract(a: Arena, mark: nat, ghost m: Mark)
      requires Valid() && Extends(m) && mark == m.avails[|m.avails| - 1] && a == m.arenas[|m.arenas| - 1]
      modifies this`live, a`avail
      ensures Valid() && live == m.live && Extends(m) && a.avail == mark
      ensures old(Backed()) ==> BackedUpTo(|m.arenas|)
    {
      hide Valid, KeepsAs, Sound, Over, Regular, Power;
      ghost var before := live;
      RetractAvail(a, mark, m);
      ghost var n := |m.arenas|;
      if old(Backed()) {
        forall i, j | 0 <= i && j == i + 1 < n ensures Keeps(arenas[j], arenas[i], live) {
          assert old(Keeps(arenas[j], arenas[i], live));
          Distinct(j);
          KeepsSince(m, before, arenas[j], old(arenas[j].avail), arenas[i]);
        }
      }
    }

    /** What was allocated since the mark was not what an arena of that time was made for. */
    lemma KeepsSince(m: Mark, before: seq<Block>, a: Arena, avail: nat, prev: Arena)
      requires Marked(m) && live == m.live <= before && a in m.arenas && a != first
      requires var t, mark := m.arenas[|m.arenas| - 1], m.avails[|m.avails| - 1];
               a.avail == (if a == t then mark else avail) && forall i :: |m.live| <= i < |before| ==> Behind(before[i], t, mark, m.arenas)
      requires KeepsAs(a, avail, a.header, prev, before)
      ensures Keeps(a, prev, live)
    {
      hide MadeFor, Over, Regular, Power;
      var f :| f in before && AtBase(f, a);
      var i :| 0 <= i < |before| && before[i] == f;
      if i >= |m.live| {
        assert false;
      }
      assert f == live[i];
    }

    method RetractAvail(a: Arena, mark: nat, ghost m: Mark)
      requires Valid() && Extends(m) && mark == m.avails[|m.avails| - 1] && a == m.arenas[|m.arenas| - 1]
      modifies this`live, a`avail
      ensures Valid() && live == m.live && Extends(m) && a.avail == mark
    {
      hide Power, HeaderSize, Apart, Disjoint;
      assert a == arenas[|m.arenas| - 1] && Sound(a);
      AlignAligned(mark, M());
      ghost var before := live;
      live := m.live;
      a.avail := Align(mark, M());
      assert Allocated() by {
        forall b | b in live ensures Contained(b) {
          assert b in before;
        }
        assert forall i :: 0 <= i < |live| ==> live[i] == before[i];
      }
    }

    /** The arena the mark is in becomes the last one. */
    method RetractTo(a: Arena, mark: nat, ghost m: Mark)
      requires Valid() && Extends(m) && mark == m.avails[|m.avails| - 1] && a == m.arenas[|m.arenas| - 1]
      modifies this`current, this`arenas, this`live, a`avail, a`next, quota
      ensures Valid() && Now() == m && Total() == old(Total())
      ensures old(Backed()) ==> Backed()
    {
      hide SeparateAs, AllocatedIn, LinkedAs, Held, Power, HeaderSize, Sound, BackedUpTo;
      Retract(a, mark, m);
      FreeArenaList(a, m.arenas);
    }

    lemma NextOf(i: nat)
      requires Valid() && i < |arenas|
      ensures arenas[i].next == if i + 1 < |arenas| then arenas[i + 1] else null
    {
      if i + 1 < |arenas| {
        assert arenas[i].next == arenas[i + 1];
      }
    }

    /** JS_ArenaRelease: looks for the arena the mark is in, from the first one on. */
    method ArenaRelease(mark: nat, ghost m: Mark)
      requires Valid() && Extends(m) && mark == m.avails[|m.avails| - 1]
      modifies this`current, this`arenas, this`live, arenas`avail, arenas`next, quota
      ensures Valid() && Now() == m && Total() == old(Total())
      ensures old(Backed()) ==> Backed()
    {
      var a: Arena? := first;
      ghost var i := 0;
      FirstIsFirst();
      hide Valid, Held, Total, Power, HeaderSize, Sound, BackedUpTo;
      while a != null
        invariant Valid() && Extends(m) && i <= |m.arenas| - 1 && a == arenas[i] && arenas == old(arenas)
        invariant Now() == old(Now()) && Total() == old(Total()) && (old(Backed()) ==> Backed())
        decreases |arenas| - i
      {
        OnlyMatch(m, i);
        if Matches(a, mark) {
          RetractTo(a, mark, m);
          return;
        }
        NextOf(i);
        a := a.next;
        i := i + 1;
      }
    }

    lemma FirstIsFirst()
      requires Valid()
      ensures |arenas| >= 1 && arenas[0] == first
    {
    }

    /** JS_ARENA_RELEASE: everything allocated since the mark is gone, everything before it as it was. */
    method Release(mark: nat, ghost m: Mark)
      requires Valid() && Extends(m) && mark == m.avails[|m.avails| - 1]
      modifies this`current, this`arenas, this`live, arenas`avail, arenas`next, quota
      ensures Valid() && Now() == m && current == m.arenas[|m.arenas| - 1] && Total() == old(Total())
      ensures old(Backed()) ==> Backed()
    {
      hide Keeps;
      var a := current;
      OnlyMatch(m, |arenas| - 1);
      if a != first && Matches(a, mark) {
        assert m.arenas == arenas;
        Retract(a, mark, m);
      } else {
        ArenaRelease(mark, m);
      }
    }

    /** JS_FreeArenaPool: the quota gets everything back. */
    method FreeArenaPool()
      requires Valid()
      modifies this`current, this`arenas, this`live, first`next, quota
      ensures Valid() && arenas == [first] && live == [] && (old(Backed()) ==> Backed())
      ensures quota != null ==> quota.left == old(Total())
    {
      live := [];
      assert arenas[..1] == [first];
      FreeArenaList(first, [first]);
      assert arenas[1..] == [];
    }

    // ----- Nested marks -----

    /** A mark and a later one. */
    static ghost predicate Before(m: Mark, n: Mark)
    {
      && 1 <= |m.arenas| == |m.avails| && |n.arenas| == |n.avails| && m.arenas <= n.arenas && m.live <= n.live
      && (forall i :: 0 <= i < |m.arenas| - 1 ==> n.avails[i] == m.avails[i])
      && var t, avail := m.arenas[|m.arenas| - 1], m.avails[|m.avails| - 1];
         avail <= n.avails[|m.arenas| - 1] && forall i :: |m.live| <= i < |n.live| ==> Behind(n.live[i], t, avail, m.arenas)
    }

    /** A mark within the time of another. */
    method MarkAgain(ghost m: Mark) returns (mark: nat, ghost n: Mark)
      requires Valid() && Backed() && Extends(m)
      ensures n == Now() && Extends(n) && mark == n.avails[|n.avails| - 1]
      ensures Before(m, n)
    {
      mark, n := MarkHere();
    }

    /** After releasing the later mark the earlier one is still good. */
    lemma StillMarked(m: Mark, n: Mark)
      requires Valid() && Before(m, n) && Now() == n && Marked(m)
      ensures Extends(m)
    {
      assert forall i :: 0 <= i < |m.arenas| ==> m.arenas[i].avail == n.avails[i];
    }

    /** Everything is as it was at the later mark, and whatever is done then, all can be released to the earlier one. */
    method ReleaseAgain(mark: nat, ghost n: Mark, ghost m: Mark)
      requires Valid() && Extends(n) && mark == n.avails[|n.avails| - 1] && Marked(m) && Before(m, n)
      modifies this`current, this`arenas, this`live, arenas`avail, arenas`next, quota
      ensures Valid() && Now() == n && Total() == old(Total()) && (old(Backed()) ==> Backed())
      ensures Extends(m)
    {
      Release(mark, n);
      StillMarked(m, n);
    }

    // ----- Growing -----

    lemma LinkedReplaced(s: seq<Arena>, i: nat, b: Arena)
      requires 0 < i < |s| && s[0] == first && (forall j, k :: 0 <= j < k < |s| ==> s[j] != s[k])
      requires (b == s[i] || b !in s) && s[i - 1].next == b && b.next == if i + 1 < |s| then s[i + 1] else null
      requires forall j {:trigger s[j].next} :: 0 <= j < |s| - 1 && j != i - 1 && j != i ==> s[j].next == s[j + 1]
      requires i < |s| - 1 ==> s[|s| - 1].next == null
      ensures LinkedAs(s[i := b])
    {
      var t := s[i := b];
      assert forall j :: 0 <= j < |t| ==> t[j] == if j == i then b else s[j];
      forall j | 0 <= j < |t| - 1 ensures t[j].next == t[j + 1] {
        if j != i - 1 && j != i {
          assert s[j].next == s[j + 1];
        }
      }
    }

    lemma SeparateReplaced(s: seq<Arena>, i: nat, b: Arena)
      requires i < |s| && Sound(b)
      requires forall j :: 0 <= j < |s| && j != i ==> Sound(s[j]) && Apart(s[j], b)
      requires forall j, k :: 0 <= j < k < |s| && j != i && k != i ==> Apart(s[j], s[k])
      ensures SeparateAs(s[i := b])
    {
      hide Sound;
      var t := s[i := b];
      assert forall j :: 0 <= j < |t| ==> t[j] == if j == i then b else s[j];
      forall j, k | 0 <= j < k < |t| ensures Apart(t[j], t[k]) {
        assert Apart(t[j], t[k]) <==> Apart(t[k], t[j]);
      }
    }

    /** The arena before the one with base p: from the word before p if the allocation is oversized, else by a search. */
    method Predecessor(p: nat, size: nat, owner: Arena, ghost i: nat) returns (prev: Arena)
      requires Valid() && 0 < i < |arenas| && arenas[i] == owner && owner.base == p
      requires if size > arenasize then owner.header == arenas[i - 1] else owner == current
      ensures prev == arenas[i - 1] && prev.next == arenas[i]
    {
      assert arenas[i - 1].next == arenas[i];
      if size > arenasize {
        prev := owner.header;
      } else {
        prev := first;
        ghost var j := 0;
        while prev.next != current
          invariant j <= i - 1 && prev == arenas[j]
          decreases i - j
        {
          assert arenas[j].next == arenas[j + 1];
          prev := prev.next;
          j := j + 1;
        }
        assert arenas[j].next == arenas[j + 1];
      }
    }

    /** What a reallocated arena with room for n bytes takes. */
    function Regross(n: nat): nat
    {
      ARENA_STRUCT + HeaderSize(M()) + (M() - 1) + n
    }

    /** What realloc may answer for an arena. */
    ghost predicate MayMove(answer: nat, gross: nat, i: nat)
      reads `arenas, arenas`limit
    {
      answer == 0 ||
      (answer + gross < WORDS
       && forall j :: 0 <= j < |arenas| && j != i ==> High(arenas[j]) <= answer || answer + gross <= Low(arenas[j]))
    }

    /** The header of the arena behind a moved one follows if there is an oversized allocation in it. */
    predicate HeaderFollows(before: Arena?, c: Arena, a: Arena, b: Arena)
      reads c`base, c`avail, c`header
    {
      before == a && c.avail - c.base > arenasize ==> c.header == b
    }

    /** js_realloc: the arena stays where it is or moves, and then the pointers to it follow. */
    method Move(a: Arena, prev: Arena, answer: nat, ghost i: nat) returns (b: Arena)
      requires Valid() && 0 < i < |arenas| && arenas[i] == a && prev == arenas[i - 1] && prev.next == a && answer != 0
      modifies this`current, prev`next, arenas`header
      ensures b == a || fresh(b)
      ensures b.address == answer && b.next == a.next
      ensures LinkedAs(arenas[i := b]) && current == arenas[i := b][|arenas| - 1]
      ensures i + 1 < |arenas| ==> HeaderFollows(old(arenas[i + 1].header), arenas[i + 1], a, b)
      ensures forall x :: 0 <= x < |arenas| && x != i + 1 ==> arenas[x].header == old(arenas[x].header)
    {
      b := a;
      assert i + 1 < |arenas| ==> arenas[i].next == arenas[i + 1];
      if answer != a.address {
        b := new Arena(answer, a.base, a.limit, a.header);
        b.next := a.next;
        if current == a {
          current := b;
        }
        var c := b.next;
        if c != null {
          assert c == arenas[i + 1] && Sound(c);
          if c.avail - c.base > arenasize {
            c.header := b;
          }
        }
        prev.next := b;
      }
      LinkedReplaced(arenas, i, b);
    }

    lemma HeldReplaced(s: seq<Arena>, i: nat)
      requires 0 < i < |s| && s[i].address <= s[i].limit
      ensures Held(s[1..]) == Held(s[1..i] + s[i + 1..]) + (s[i].limit - s[i].address)
    {
      HeldWithout(s[1..i], s[i], s[i + 1..]);
      assert s[1..] == s[1..i] + [s[i]] + s[i + 1..];
    }

    /** The quota pays for what an arena grows by. */
    method Pay(a: Arena, gross: nat, answer: nat) returns (ok: bool)
      requires a.address <= a.limit && a.limit - a.address <= gross < WORDS
      modifies quota
      ensures ok <==> answer != 0 && (quota == null || gross - (a.limit - a.address) <= old(quota.left))
      ensures quota != null ==> quota.left == old(quota.left) - if ok then gross - (a.limit - a.address) else 0
    {
      ok := false;
      if quota != null {
        var growth := (gross - (a.limit - a.address)) % WORDS;
        if growth > quota.left {
          return;
        }
        if answer == 0 {
          return;
        }
        quota.left := quota.left - growth;
      } else {
        if answer == 0 {
          return;
        }
      }
      ok := true;
    }

    /** Allocation j is the only one of arena i. */
    ghost predicate Alone(i: nat, j: nat)
      reads `arenas, `live
    {
      i < |arenas| && j < |live| && live[j].arena == arenas[i]
      && forall k :: 0 <= k < |live| && k != j ==> live[k].arena != arenas[i]
    }

    /** An allocation at the base of an arena. */
    ghost predicate Heads(p: nat, n: nat, i: nat, j: nat)
      reads `arenas, `live, arenas`base
    {
      0 < i < |arenas| && j < |live| && live[j] == Block(p, n, arenas[i]) && arenas[i].base == p
    }

    /** The only allocation of an arena, at its base: what JS_ArenaRealloc takes p to be. */
    ghost predicate OwnsArena(p: nat, n: nat, i: nat, j: nat)
      reads `arenas, `live, arenas`base
    {
      Heads(p, n, i, j) && Alone(i, j)
    }

    /** The arenas are in order, whatever is allocated in them. */
    ghost predicate InOrder()
      reads this, arenas
    {
      |arenas| >= 1 && LinkedAs(arenas) && SeparateAs(arenas) && Bounded() && current == arenas[|arenas| - 1]
    }

    lemma ValidIs()
      ensures Valid() <==> InOrder() && AllocatedIn(live, arenas)
    {
    }

    /** Of the other allocations, exactly those that are not in arena a lie in an arena and off allocation j. */
    ghost predicate OthersStay(a: Arena, j: nat)
      reads `arenas, `live, arenas`base, arenas`avail
    {
      && j < |live|
      && forall k :: 0 <= k < |live| && k != j ==>
           (Contained(live[k]) && Disjoint(live[k], live[j]) <==> live[k].arena != a)
    }

    /** No allocation lies in the first arena, which has no room. */
    lemma NotInFirst(i: nat, j: nat)
      requires Valid() && Backed() && i < |arenas| && j < |live| && live[j].arena == arenas[i]
      ensures 0 < i && live[j].p > 0
    {
      assert Contained(live[j]) && Sound(arenas[i]);
    }

    /** An oversized allocation is at the base of its arena, and the word before it leads to the arena before. */
    lemma OversizedIsBacked(i: nat, j: nat)
      requires Valid() && Backed() && Regular() && i < |arenas| && j < |live|
      requires live[j].arena == arenas[i] && live[j].n > arenasize
      ensures 0 < i && Backs(live[j], arenas[i], arenas[i - 1])
    {
      NotInFirst(i, j);
      hide Backs, HasSlot;
      assert Keeps(arenas[i], arenas[i - 1], live);
    }

    /** It has its arena to itself if the pool is aligned at least like pointers. */
    lemma OversizedIsAlone(i: nat, j: nat)
      requires Valid() && Backed() && Regular() && M() >= POINTER_SIZE && i < |arenas| && j < |live|
      requires live[j].arena == arenas[i] && live[j].n > arenasize
      ensures Alone(i, j)
    {
      OversizedIsBacked(i, j);
      forall k | 0 <= k < |live| && k != j ensures live[k].arena != arenas[i] {
        BehindIsFull(i, j, k);
      }
    }

    /** What is left behind an oversized allocation is less than the smallest other one. */
    lemma BehindIsFull(i: nat, j: nat, k: nat)
      requires Valid() && Backed() && M() >= POINTER_SIZE && 0 < i < |arenas| && j < |live| && k < |live| && j != k
      requires live[j].arena == arenas[i] && Backs(live[j], arenas[i], arenas[i - 1])
      ensures live[k].arena != arenas[i]
    {
      assert Contained(live[j]) && Contained(live[k]) && Sound(arenas[i]);
      DisjointBoth(live, j, k);
      assert live[k].n % M() == 0;
      MultiplesApart(0, live[k].n, M());
    }

    /** SET_HEADER writes only where a back-pointer is: this is the test that JS_ArenaRealloc makes of the next arena. */
    lemma WrittenInSlot(i: nat)
      requires Valid() && Backed() && Regular() && 0 < i < |arenas| && arenas[i].avail - arenas[i].base > arenasize
      ensures HasSlot(arenas[i]) && arenas[i].header == arenas[i - 1]
    {
      hide Power;
      assert Keeps(arenas[i], arenas[i - 1], live) && Sound(arenas[i]);
      var used := arenas[i].avail - arenas[i].base;
      DifferenceModulo(arenas[i].avail, arenas[i].base, M());
      OverIs(used);
      var f :| f in live && AtBase(f, arenas[i]);
    }

    /** Arena b takes the place of arena i, with one block in it that is all there is: what else was in arena i is lost. */
    lemma AllocatedReplaced(blocks: seq<Block>, s: seq<Arena>, i: nat, j: nat, b: Arena, block: Block)
      requires i < |s| && j < |blocks| && Sound(b) && b != first && (b == s[i] || b !in s)
      requires forall k :: 0 <= k < |s| && k != i ==> Sound(s[k]) && Apart(s[k], b) && s[k] != s[i]
      requires forall k :: 0 <= k < |blocks| && k != j ==> blocks[k].n > 0 && (blocks[k].arena != s[i] ==> ContainedIn(blocks[k], s))
      requires forall k, l :: 0 <= k < l < |blocks| && k != j && l != j ==> Disjoint(blocks[k], blocks[l])
      requires ContainedIn(block, [b]) && block.p == b.base && block.p + block.n == b.avail
      ensures forall k :: 0 <= k < |blocks| && k != j ==>
        (ContainedIn(blocks[k], s[i := b]) && Disjoint(blocks[k], block) <==> blocks[k].arena != s[i])
      ensures (forall k :: 0 <= k < |blocks| && k != j ==> blocks[k].arena != s[i]) ==>
        AllocatedIn(blocks[j := block], s[i := b])
    {
      var t, u := s[i := b], blocks[j := block];
      assert t[i] == b;
      forall k | 0 <= k < |u| && k != j && blocks[k].arena != s[i]
        ensures ContainedIn(u[k], t) && Disjoint(u[k], block) && Disjoint(block, u[k])
      {
        var x :| 0 <= x < |s| && s[x] == blocks[k].arena;
        assert t[x] == s[x] && Sound(s[x]) && Apart(s[x], b);
      }
      assert b != s[i] ==> s[i] !in t;
      if forall k :: 0 <= k < |blocks| && k != j ==> blocks[k].arena != s[i] {
        AllocatedUpdated(u, t, j, block);
        assert u[j := block] == u;
      }
    }

    /** The new fields of a reallocated arena. */
    method SetFields(b: Arena, prev: Arena, gross: nat, aoff: nat)
      requires aoff % M() == 0 && aoff > arenasize && gross == Regross(aoff) && b.address + gross < WORDS
      modifies b`base, b`limit, b`avail, b`header
      ensures Sound(b) && b.limit == b.address + gross && b.avail == b.base + aoff && b.base > 0
      ensures Backs(Block(b.base, aoff, b), b, prev)
    {
      var hdrsz := ARENA_STRUCT + HeaderSize(M()) + (M() - 1);
      OversizedBase(k, b.address, aoff);
      b.base := Floor(b.address + hdrsz, HeaderAlign(M()));
      b.limit := b.address + gross;
      b.avail := b.base + aoff;
      SumModulo(b.base, aoff, M());
      b.header := prev;
    }

    /** The arena with its new fields takes its place, and so does the allocation. */
    method Settle(b: Arena, prev: Arena, gross: nat, aoff: nat, ghost i: nat, ghost j: nat)
      requires SeparateAs(arenas) && AllocatedIn(live, arenas) && OutOfTheWay(b, gross, i, j)
      requires aoff % M() == 0 && aoff > arenasize && gross == Regross(aoff) && b.address + gross < WORDS
      modifies b`base, b`limit, b`avail, b`header, this`arenas, this`live
      ensures arenas == old(arenas)[i := b] && live == old(live)[j := Block(b.base, aoff, b)]
      ensures SeparateAs(arenas) && b.limit == b.address + gross && OthersStay(old(arenas[i]), j)
      ensures b.avail == b.base + aoff && b.base > 0 && Backs(Block(b.base, aoff, b), b, prev)
      ensures old(Alone(i, j)) ==> AllocatedIn(live, arenas)
    {
      hide Sound, Disjoint, Power, HeaderSize, HeaderAlign, Backs;
      EachContained(b, gross, i, j);
      SetFields(b, prev, gross, aoff);
      ghost var block := Block(b.base, aoff, b);
      assert ContainedIn(block, [b]) by {
        BaseAligned(b);
      }
      assert SeparateAs(arenas[i := b]) by {
        SeparateReplaced(arenas, i, b);
      }
      AllocatedReplaced(live, arenas, i, j, b, block);
      hide SeparateAs, AllocatedIn;
      arenas := arenas[i := b];
      live := live[j := block];
    }

    lemma EachContained(b: Arena, gross: nat, i: nat, j: nat)
      requires SeparateAs(arenas) && AllocatedIn(live, arenas) && OutOfTheWay(b, gross, i, j)
      ensures forall x :: 0 <= x < |live| && x != j ==>
        ContainedIn(live[x], arenas) && live[x].n > 0 && (live[x].arena != arenas[i] ==> live[x].arena != b)
      ensures forall x :: 0 <= x < |arenas| && x != i ==> Sound(arenas[x]) && arenas[x] != b
    {
      hide Sound, Disjoint, Power, HeaderSize, HeaderAlign;
      forall x | 0 <= x < |live| && x != j
        ensures ContainedIn(live[x], arenas) && live[x].n > 0 && (live[x].arena != arenas[i] ==> live[x].arena != b)
      {
        assert live[x] in live;
      }
      forall x | 0 <= x < |arenas| && x != i ensures Sound(arenas[x]) && arenas[x] != b {
        assert arenas[x] in arenas;
      }
    }

    lemma BaseAligned(b: Arena)
      requires Sound(b)
      ensures b.base % M() == 0
    {
    }

    /** What Settle asks of the other arenas and allocations. */
    ghost predicate OutOfTheWay(b: Arena, gross: nat, i: nat, j: nat)
      reads `arenas, `live, arenas`limit
    {
      && 0 < i < |arenas| && j < |live| && b != first && (b == arenas[i] || b !in arenas)
      && (forall x :: 0 <= x < |arenas| && x != i ==> arenas[x] != arenas[i])
      && (forall x :: 0 <= x < |arenas| && x != i ==> High(arenas[x]) <= b.address || b.address + gross <= Low(arenas[x]))
    }

    /** js_realloc, and all that follows when it succeeds. */
    method MoveAndSettle(a: Arena, prev: Arena, answer: nat, gross: nat, aoff: nat, ghost n: nat, ghost i: nat, ghost j: nat)
      returns (b: Arena)
      requires Valid() && Heads(a.base, n, i, j) && arenas[i] == a
      requires prev == arenas[i - 1] && prev.next == a && answer != 0 && MayMove(answer, gross, i)
      requires aoff % M() == 0 && aoff > arenasize && gross == Regross(aoff)
      modifies this`current, this`arenas, this`live, prev`next, arenas`header, a`base, a`limit, a`avail
      ensures InOrder() && OthersStay(a, j) && (old(Alone(i, j)) ==> Valid())
      ensures arenas == old(arenas)[i := b] && live == old(live)[j := Block(b.base, aoff, b)]
      ensures b.limit == b.address + gross && b.avail == b.base + aoff && b.base > 0
      ensures Backs(Block(b.base, aoff, b), b, prev) && (b == a || fresh(b))
      ensures i + 1 < |arenas| ==> HeaderFollows(old(arenas[i + 1].header), arenas[i + 1], a, b)
      ensures forall x :: 0 <= x < |arenas| && x != i && x != i + 1 ==> arenas[x].header == old(arenas[x].header)
    {
      hide Valid, LinkedAs, SeparateAs, AllocatedIn, Sound, Held, Power, HeaderSize, HeaderAlign, High, Heads, MayMove,
           OutOfTheWay, Regross, Backs, HeaderFollows, Bounded, OthersStay, InOrder;
      Parts();
      Alike(a.base, n, i, j);
      MayMoveFits(answer, gross, i);
      b := Move(a, prev, answer, i);
      Aside(b, n, gross, i, j);
      Settle(b, prev, gross, aoff, i, j);
      OrderIs();
      ValidIs();
    }

    lemma OrderIs()
      requires |arenas| >= 1 && LinkedAs(arenas) && SeparateAs(arenas) && Bounded() && current == arenas[|arenas| - 1]
      ensures InOrder()
    {
    }

    lemma MayMoveFits(answer: nat, gross: nat, i: nat)
      requires MayMove(answer, gross, i) && answer != 0
      ensures answer + gross < WORDS
    {
    }

    lemma Parts()
      requires Valid()
      ensures |arenas| >= 1 && LinkedAs(arenas) && SeparateAs(arenas) && AllocatedIn(live, arenas) && Bounded()
      ensures current == arenas[|arenas| - 1]
    {
    }

    lemma Together()
      requires |arenas| >= 1 && LinkedAs(arenas) && SeparateAs(arenas) && AllocatedIn(live, arenas) && Bounded()
      requires current == arenas[|arenas| - 1]
      ensures Valid()
    {
    }

    lemma KeepsMoved(b: Arena, prev: Arena, blocks: seq<Block>, j: nat)
      requires j < |blocks| && blocks[j].arena == b && blocks[j].n > arenasize && Backs(blocks[j], b, prev)
      requires b.avail == b.base + blocks[j].n && forall k :: 0 <= k < |blocks| && k != j ==> blocks[k].arena != b
      ensures Keeps(b, prev, blocks)
    {
      hide Power;
      assert blocks[j] in blocks && AtBase(blocks[j], b);
    }

    lemma StillThere(blocks: seq<Block>, j: nat, block: Block, f: Block)
      requires j < |blocks| && f in blocks && f != blocks[j]
      ensures f in blocks[j := block]
    {
      var i :| 0 <= i < |blocks| && blocks[i] == f;
      assert blocks[j := block][i] == f;
    }

    lemma KeepsReplaced(c: Arena, prev: Arena, blocks: seq<Block>, j: nat, block: Block)
      requires Keeps(c, prev, blocks) && j < |blocks| && blocks[j].arena != c && block.arena != c
      ensures Keeps(c, prev, blocks[j := block])
    {
      hide Power, MadeFor, Over, Regular;
      var f :| f in blocks && AtBase(f, c);
      StillThere(blocks, j, block, f);
    }

    lemma NextKeeps(c: Arena, before: Arena?, a: Arena, b: Arena, blocks: seq<Block>, j: nat, block: Block)
      requires KeepsAs(c, c.avail, before, a, blocks) && HeaderFollows(before, c, a, b)
      requires j < |blocks| && blocks[j].arena != c && block.arena != c
      requires forall d :: d in blocks && d.arena == c ==> d.p + d.n <= c.avail
      ensures Keeps(c, b, blocks[j := block])
    {
      hide Power, Over, Regular;
      var f :| f in blocks && AtBase(f, c);
      StillThere(blocks, j, block, f);
    }

    /** The allocation an arena was made for has grown in place. */
    lemma FirstStretched(a: Arena, f: Block, n: nat)
      requires AtBase(f, a) && Regular() && f.n <= n && n % M() == 0 && n > arenasize && f.p + n <= a.limit
      requires f.n > arenasize ==> MadeFor(f, a)
      ensures f.n > arenasize && MadeFor(Block(f.p, n, a), a)
    {
      hide Power;
      OverIs(n);
    }

    /** An allocation behind it cannot grow to be oversized. */
    lemma OtherStretched(a: Arena, f: Block, b: Block)
      requires AtBase(f, a) && Regular() && f.n % M() == 0 && f.n > 0 && f.p + f.n <= b.p && b.p + b.n <= a.limit && b.n % M() == 0
      requires f.n > arenasize ==> MadeFor(f, a)
      ensures b.n <= arenasize
    {
      hide Power;
      MultiplesApart(0, f.n, M());
      if b.n > arenasize {
        OverIs(b.n);
      }
    }

    /** The last allocation of the last arena takes more of it, but not more than arenas are made for. */
    lemma KeepsStretched(a: Arena, prev: Arena, blocks: seq<Block>, j: nat, block: Block)
      requires j < |blocks| && blocks[j] == Block(block.p, blocks[j].n, a) && block.arena == a
      requires 0 < blocks[j].n <= block.n && block.n % M() == 0 && a.avail == block.p + block.n <= a.limit
      requires KeepsAs(a, block.p + blocks[j].n, a.header, prev, blocks)
      requires forall c :: c in blocks && c.arena == a && c != blocks[j] ==> c.p + c.n <= block.p && c.n % M() == 0 && c.n > 0
      ensures Keeps(a, prev, blocks[j := block])
    {
      hide Power, MadeFor, AtBase, Over, Regular;
      var f :| f in blocks && AtBase(f, a);
      assert blocks[j := block][j] == block;
      if f != blocks[j] {
        StillThere(blocks, j, block, f);
        assert f.arena == a && f.p == a.base by { BaseOf(f, a); }
        if Regular() {
          OtherStretched(a, f, block);
        }
      } else {
        StretchedAtBase(f, block, a);
        if Regular() && block.n > arenasize {
          FirstStretched(a, f, block.n);
        }
      }
    }

    lemma BaseOf(f: Block, a: Arena)
      requires AtBase(f, a)
      ensures f.arena == a && f.p == a.base
    {
    }

    lemma StretchedAtBase(f: Block, block: Block, a: Arena)
      requires AtBase(f, a) && block.p == f.p && block.arena == a && f.n <= block.n
      ensures AtBase(block, a)
    {
    }

    lemma MarkedAt(m: Mark, i: nat)
      requires m.arenas <= arenas && i < |arenas|
      ensures i < |m.arenas| ==> arenas[i] in m.arenas
    {
      assert i < |m.arenas| ==> m.arenas[i] == arenas[i];
    }

    /** An allocation made since the mark, at the base of its arena, is in an arena made since. */
    lemma MarkBefore(m: Mark, i: nat, j: nat)
      requires Valid() && 0 < i < |arenas| && j < |live| && live[j].arena == arenas[i] && live[j].p == arenas[i].base
      ensures Extends(m) && |m.live| <= j ==>
        arenas[i] !in m.arenas && arenas[i] !in Finished(m) && 1 <= |m.arenas| == |m.avails| <= i
    {
      Distinct(i);
      if Extends(m) && |m.live| <= j {
        assert Behind(live[j], m.arenas[|m.arenas| - 1], m.avails[|m.avails| - 1], m.arenas);
        assert arenas[i] !in m.arenas;
        MarkedAt(m, i);
      }
    }

    lemma InUse(c: Arena)
      requires Valid()
      ensures forall d :: d in live && d.arena == c ==> d.p + d.n <= c.avail
      ensures forall d :: d in live ==> d.arena in arenas
    {
      forall d | d in live ensures d.p + d.n <= d.arena.avail && d.arena in arenas {
        assert Contained(d);
      }
    }

    /** The allocation has grown with its arena, and the back-pointers are as they should be. */
    method Resettle(a: Arena, prev: Arena, answer: nat, gross: nat, aoff: nat, ghost n: nat, ghost i: nat, ghost j: nat,
        ghost m: Mark)
      returns (b: Arena)
      requires Valid() && Backed() && Heads(a.base, n, i, j) && arenas[i] == a
      requires prev == arenas[i - 1] && prev.next == a && answer != 0 && MayMove(answer, gross, i)
      requires aoff % M() == 0 && aoff > arenasize && gross == Regross(aoff)
      modifies this`current, this`arenas, this`live, prev`next, arenas`header, a`base, a`limit, a`avail
      ensures InOrder() && OthersStay(a, j) && (old(Alone(i, j)) ==> Valid() && Backed())
      ensures arenas == old(arenas)[i := b] && live == old(live)[j := Block(b.base, aoff, b)]
      ensures b.limit == b.address + gross && b.avail == b.base + aoff && b.base > 0 && (b == a || fresh(b))
      ensures b.header == prev && HasSlot(b)
      ensures old(Extends(m)) && |m.live| <= j ==> Extends(m)
    {
      hide InOrder, OthersStay, Alone, Valid, Heads, KeepsAs, MadeFor, Sound, Power, Regross, HeaderAlign, Over, Regular,
           MayMove, Marked, Since;
      Alike(a.base, n, i, j);
      MarkBefore(m, i, j);
      ghost var s, blocks, c, alone := arenas, live, if i + 1 < |arenas| then arenas[i + 1] else first, Alone(i, j);
      AloneIs(i, j);
      InUse(c);
      b := MoveAndSettle(a, prev, answer, gross, aoff, n, i, j);
      ghost var block := Block(b.base, aoff, b);
      AlignedReplaced(blocks, j, block);
      if alone {
        BackedAfterMove(s, blocks, a, b, old(c.header), c, i, j);
      }
      if old(Extends(m)) && |m.live| <= j {
        SinceReplaced(m, blocks, j, block);
      }
      SlotOf(block, b, prev);
    }

    lemma AloneIs(i: nat, j: nat)
      requires i < |arenas| && j < |live| && live[j].arena == arenas[i]
      ensures Alone(i, j) <==> forall k :: 0 <= k < |live| && k != j ==> live[k].arena != arenas[i]
    {
    }

    lemma SlotOf(block: Block, b: Arena, prev: Arena)
      requires Backs(block, b, prev)
      ensures HasSlot(b)
    {
    }

    lemma Alike(p: nat, n: nat, i: nat, j: nat)
      requires Valid() && Heads(p, n, i, j)
      ensures 0 < i < |arenas| && j < |live| && live[j] == Block(p, n, arenas[i]) && arenas[i].base == p
      ensures first in arenas && arenas[i] != first && forall x :: 0 <= x < |arenas| && x != i ==> arenas[x] != arenas[i]
      ensures i + 1 < |arenas| ==> arenas[i + 1] != arenas[i] && arenas[i + 1] != first
    {
    }

    /** The links between the arenas, once arena i has moved. */
    lemma BackedAfterMove(s: seq<Arena>, blocks: seq<Block>, a: Arena, b: Arena, before: Arena?, c: Arena, i: nat, j: nat)
      requires Valid() && first.base == first.limit && forall d :: d in live ==> d.n % M() == 0
      requires 0 < i < |s| && s[i] == a && arenas == s[i := b] && j < |blocks| && blocks[j].arena == a
      requires |live| == |blocks| && live == blocks[j := live[j]]
        && live[j].arena == b && live[j].n > arenasize && Backs(live[j], b, s[i - 1])
      requires b.avail == b.base + live[j].n && forall k :: 0 <= k < |live| && k != j ==> live[k].arena != b
      requires forall x :: 0 <= x < |s| && x != i ==> s[x] != a && s[x] != b
      requires forall x, y :: 0 <= x && y == x + 1 < |s| && y != i && x != i ==> Keeps(s[y], s[x], blocks)
      requires i + 1 < |s| ==> c == s[i + 1] && KeepsAs(c, c.avail, before, a, blocks) && HeaderFollows(before, c, a, b)
      requires forall d :: d in blocks && d.arena == c ==> d.p + d.n <= c.avail
      ensures Backed()
    {
      hide Valid, KeepsAs, MadeFor;
      forall x, y | 0 <= x && y == x + 1 < |arenas| ensures Keeps(arenas[y], arenas[x], live) {
        if y == i {
          KeepsMoved(b, s[x], live, j);
        } else if x == i {
          NextKeeps(c, before, a, b, blocks, j, live[j]);
        } else {
          KeepsReplaced(s[y], s[x], blocks, j, live[j]);
        }
      }
    }

    lemma Distinct(i: nat)
      requires Valid() && 0 < i < |arenas|
      ensures arenas[i] != first && forall x :: 0 <= x < |arenas| && x != i ==> arenas[x] != arenas[i]
    {
    }

    lemma Aside(b: Arena, n: nat, gross: nat, i: nat, j: nat)
      requires 0 < i < |arenas| && first in arenas && arenas[i] != first
      requires forall x :: 0 <= x < |arenas| && x != i ==> arenas[x] != arenas[i]
      requires Heads(arenas[i].base, n, i, j) && MayMove(b.address, gross, i) && b.address != 0
      requires b == arenas[i] || b !in arenas
      ensures OutOfTheWay(b, gross, i, j)
    {
    }

    /** What JS_ArenaRealloc asserts of the arena behind, if it moves one: the word it writes is that arena's back-pointer. */
    ghost predicate NextHasHeader(i: nat)
      reads `arenas, arenas`base, arenas`avail, arenas`header
    {
      0 < i && i + 1 < |arenas| && arenas[i + 1].avail - arenas[i + 1].base > arenasize ==>
        arenas[i + 1].header == arenas[i] && HasSlot(arenas[i + 1])
    }

    /**
     * JS_ArenaRealloc; owner is the arena before whose base the word at p - 1 is. It keeps all invariants if the
     * allocation is alone in its arena; what else is in there is lost.
     */
    method ArenaRealloc(p: nat, size: nat, incr: nat, owner: Arena, answer: nat, ghost i: nat, ghost j: nat, ghost m: Mark)
      returns (q: nat)
      requires Valid() && Backed() && Heads(p, Align(size, M()), i, j) && owner == arenas[i]
      requires if size > arenasize then owner.header == arenas[i - 1] && NextHasHeader(i) else owner == current
      requires Align(size + incr, M()) > arenasize && Regross(Align(size + incr, M())) < WORDS
      requires MayMove(answer, Regross(Align(size + incr, M())), i)
      modifies this`current, this`arenas, this`live, arenas, quota
      ensures InOrder() && Total() == old(Total())
      ensures q == 0 || old(Alone(i, j)) ==> Valid() && Backed()
      ensures q == 0 ==> Now() == old(Now()) && current == old(current)
      ensures q == 0 <==> answer == 0 || old(Unpaid(arenas[i], Regross(Align(size + incr, M()))))
      ensures q != 0 ==> |arenas| == |old(arenas)| && Heads(q, Align(size + incr, M()), i, j)
      ensures q != 0 ==> arenas == old(arenas)[i := arenas[i]] && live == old(live)[j := live[j]]
      ensures q != 0 ==> OthersStay(old(arenas[i]), j) && (old(Alone(i, j)) ==> Alone(i, j))
      ensures q != 0 ==> arenas[i].header == arenas[i - 1] && HasSlot(arenas[i])
      ensures old(Extends(m)) && |m.live| <= j ==> Extends(m)
    {
      hide SeparateAs, AllocatedIn, Sound, Held, Power, HeaderSize, HeaderAlign, Avails, BackedUpTo, Extends, HasSlot,
           MayMove, Regross, Align, InOrder, OthersStay, Alone, Bounded, Valid, Backed;
      ValidIs();
      BaseTakes(p, size, incr, i, j);
      var prev := Predecessor(p, size, owner, i);
      var a := prev.next;
      var aoff := Align(size + incr, M());
      var gross := Regross(aoff);
      ghost var others := arenas[1..i] + arenas[i + 1..];
      Others(i);
      var ok := Pay(a, gross, answer);
      if !ok {
        return 0;
      }
      var b := Resettle(a, prev, answer, gross, aoff, Align(size, M()), i, j, m);
      hide LinkedAs;
      assert arenas[1..i] + arenas[i + 1..] == others && Held(others) == old(Held(arenas[1..i] + arenas[i + 1..]));
      HeldReplaced(arenas, i);
      assert Held(arenas[1..]) == Held(others) + gross;
      if Valid() {
        NothingElse(i, j);
      }
      q := b.base;
    }

    /** An allocation that is all there is of its arena is alone there. */
    lemma NothingElse(i: nat, j: nat)
      requires Valid() && i < |arenas| && j < |live|
      requires live[j].arena == arenas[i] && live[j].p == arenas[i].base && live[j].p + live[j].n == arenas[i].avail
      ensures Alone(i, j)
    {
      forall k | 0 <= k < |live| && k != j ensures live[k].arena != arenas[i] {
        assert Contained(live[k]) && Contained(live[j]);
        DisjointBoth(live, j, k);
      }
    }

    /** The arena of an allocation at its base does not take more than it will when that has grown. */
    lemma BaseTakes(p: nat, size: nat, incr: nat, i: nat, j: nat)
      requires Valid() && Backed() && Heads(p, Align(size, M()), i, j) && Align(size + incr, M()) > arenasize
      ensures arenas[i].limit - arenas[i].address <= Regross(Align(size + incr, M()))
    {
      hide Power, MadeFor, Over, Regular, Linked, Separate;
      AlignMonotone(size, size + incr, M());
      assert Keeps(arenas[i], arenas[i - 1], live);
      var f :| f in live && AtBase(f, arenas[i]);
      var k :| 0 <= k < |live| && live[k] == f;
      assert Contained(f) && Contained(live[j]);
      if k != j {
        DisjointBoth(live, k, j);
        assert false;
      }
    }

    lemma Others(i: nat)
      requires Valid() && 0 < i < |arenas|
      ensures arenas[i] !in arenas[1..i] + arenas[i + 1..] && arenas[i] != first && arenas[i].address <= arenas[i].limit
      ensures forall x :: 0 <= x < |arenas| && x != i ==> arenas[x] != arenas[i]
      ensures Held(arenas[1..]) == Held(arenas[1..i] + arenas[i + 1..]) + (arenas[i].limit - arenas[i].address)
    {
      assert Sound(arenas[i]);
      HeldReplaced(arenas, i);
    }

    /** The quota does not allow an arena to grow to this. */
    ghost predicate Unpaid(a: Arena, gross: nat)
      reads quota, a`limit
    {
      quota != null && a.address <= a.limit && gross > a.limit - a.address + quota.left
    }

    /** The last allocation of the current arena can grow where it is. */
    predicate GrowsInPlace(p: nat, size: nat, incr: nat)
      reads `current, current`limit, current`avail
    {
      && current.avail == p + Align(size, M())
      && current.limit >= Align(size + incr, M()) && p <= current.limit - Align(size + incr, M())
    }

    /** Its arena is to be reallocated. */
    predicate GrowsByRealloc(p: nat, size: nat, incr: nat)
      reads `current, current`base, current`limit, current`avail
    {
      !GrowsInPlace(p, size, incr)
      && (size > arenasize || (current.avail == p + Align(size, M()) && p == current.base))
    }

    lemma ApartAt(i: nat, j: nat)
      requires Valid() && i < j < |arenas|
      ensures Apart(arenas[i], arenas[j])
    {
    }

    /** An allocation that ends where the current arena has been used to is in the current arena. */
    lemma LastBlock(i: nat, j: nat)
      requires Valid() && i < |arenas| && j < |live| && live[j].arena == arenas[i] && current.avail == live[j].p + live[j].n
      ensures i == |arenas| - 1
      ensures live[j].p == current.base ==> OwnsArena(live[j].p, live[j].n, i, j) || i == 0
    {
      var b := live[j];
      assert Contained(b) && Sound(arenas[i]) && Sound(current);
      if i < |arenas| - 1 {
        ApartAt(i, |arenas| - 1);
        assert false;
      }
      if b.p == current.base {
        forall k | 0 <= k < |live| && k != j ensures live[k].arena != current {
          assert Contained(live[k]);
          DisjointBoth(live, j, k);
        }
      }
    }

    lemma DisjointBoth(blocks: seq<Block>, j: nat, k: nat)
      requires j < |blocks| && k < |blocks| && j != k
      requires forall i, l :: 0 <= i < l < |blocks| ==> Disjoint(blocks[i], blocks[l])
      ensures Disjoint(blocks[j], blocks[k]) && Disjoint(blocks[k], blocks[j])
    {
    }

    lemma AllocatedUpdated(blocks: seq<Block>, s: seq<Arena>, j: nat, block: Block)
      requires j < |blocks| && ContainedIn(block, s)
      requires forall k :: 0 <= k < |blocks| && k != j ==> ContainedIn(blocks[k], s)
      requires forall k :: 0 <= k < |blocks| && k != j ==> Disjoint(blocks[k], block) && Disjoint(block, blocks[k])
      requires forall k, l :: 0 <= k < l < |blocks| && k != j && l != j ==> Disjoint(blocks[k], blocks[l])
      ensures AllocatedIn(blocks[j := block], s)
    {
      hide Disjoint, ContainedIn;
      var u := blocks[j := block];
      assert forall k :: 0 <= k < |u| ==> u[k] == if k == j then block else blocks[k];
    }

    /** Nothing is in the way of the last allocation of the current arena. */
    lemma RoomToStretch(p: nat, size: nat, incr: nat, j: nat, k: nat)
      requires Valid() && j < |live| && live[j] == Block(p, Align(size, M()), current) && GrowsInPlace(p, size, incr)
      requires k < |live| && k != j
      ensures var block := Block(p, Align(size + incr, M()), current);
              Disjoint(live[k], block) && Disjoint(block, live[k])
      ensures Align(size, M()) <= Align(size + incr, M())
    {
      AlignMonotone(size, size + incr, M());
      FreeIsApart(live[k]);
      DisjointBoth(live, j, k);
      assert Contained(live[k]) && Contained(live[j]);
    }

    lemma CurrentNotFinished(m: Mark)
      requires Valid() && Extends(m)
      ensures current !in Finished(m) && 1 <= |m.arenas| == |m.avails|
    {
    }

    /** The other allocations of the current arena lie in front of the last one. */
    lemma InFront(j: nat)
      requires Valid() && Backed() && j < |live| && live[j].arena == current && live[j].p + live[j].n == current.avail
      ensures live[j].n > 0
      ensures forall c :: c in live && c.arena == current && c != live[j] ==> c.p + c.n <= live[j].p && c.n % M() == 0 && c.n > 0
    {
      assert Contained(live[j]);
      forall c | c in live && c.arena == current && c != live[j] ensures c.p + c.n <= live[j].p && c.n % M() == 0 && c.n > 0 {
        var i :| 0 <= i < |live| && live[i] == c;
        DisjointBoth(live, i, j);
        assert Contained(c);
      }
    }

    /** `_a->avail = (jsuword)(p) + _nb`: the allocation takes more of what is free behind it. */
    method Stretch(p: nat, size: nat, incr: nat, ghost j: nat, ghost m: Mark)
      requires Valid() && Backed() && j < |live| && live[j] == Block(p, Align(size, M()), current)
      requires GrowsInPlace(p, size, incr)
      modifies this`live, current`avail
      ensures Valid() && Backed() && live == old(live)[j := Block(p, Align(size + incr, M()), current)]
      ensures old(Extends(m)) && |m.live| <= j ==> Extends(m)
    {
      hide Valid, KeepsAs, Power, Align, Since, Marked;
      CurrentIsLast();
      NotInFirst(|arenas| - 1, j);
      InFront(j);
      AlignMonotone(size, size + incr, M());
      if Extends(m) {
        CurrentNotFinished(m);
      }
      ghost var n, blocks, block := |arenas|, live, Block(p, Align(size + incr, M()), current);
      assert Keeps(current, arenas[n - 2], live);
      StretchAvail(p, size, incr, j);
      AlignedReplaced(blocks, j, block);
      CurrentIsLast();
      forall x, y | 0 <= x && y == x + 1 < n ensures Keeps(arenas[y], arenas[x], live) {
        if y < n - 1 {
          assert Keeps(arenas[y], arenas[x], blocks);
          KeepsReplaced(arenas[y], arenas[x], blocks, j, block);
        } else {
          KeepsStretched(current, arenas[n - 2], blocks, j, block);
        }
      }
      if old(Extends(m)) && |m.live| <= j {
        SinceReplaced(m, blocks, j, block);
      }
    }

    method StretchAvail(p: nat, size: nat, incr: nat, ghost j: nat)
      requires Valid() && j < |live| && live[j] == Block(p, Align(size, M()), current) && GrowsInPlace(p, size, incr)
      modifies this`live, current`avail
      ensures Valid() && live == old(live)[j := Block(p, Align(size + incr, M()), current)]
      ensures current.avail == p + Align(size + incr, M())
    {
      hide Valid, Power, Bounded, Disjoint, LinkedAs, SeparateAs, Align, ContainedIn;
      var nb := Align(size + incr, M());
      ghost var block := Block(p, nb, current);
      StretchFits(p, size, incr, j);
      forall k | 0 <= k < |live| && k != j ensures Disjoint(live[k], block) && Disjoint(block, live[k]) {
        RoomToStretch(p, size, incr, j, k);
      }
      SetAvail(p + nb);
      Parts();
      ContainedNow(p, nb);
      assert forall k :: 0 <= k < |live| ==> live[k] in live;
      AllocatedUpdated(live, arenas, j, block);
      live := live[j := block];
      Together();
    }

    lemma StretchFits(p: nat, size: nat, incr: nat, j: nat)
      requires Valid() && j < |live| && live[j] == Block(p, Align(size, M()), current) && GrowsInPlace(p, size, incr)
      ensures var nb := Align(size + incr, M());
              0 < nb && current.base <= p && current.avail <= p + nb <= current.limit && p % M() == 0 && (p + nb) % M() == 0
    {
      var nb := Align(size + incr, M());
      assert Contained(live[j]);
      hide Power, Align;
      AlignMonotone(size, size + incr, M());
      SumModulo(p, nb, M());
    }

    lemma NowExtends()
      requires Valid() && Backed()
      ensures Extends(Now())
    {
      assert current in arenas && Sound(current);
      if |arenas| > 1 {
        assert Keeps(arenas[|arenas| - 1], arenas[|arenas| - 2], live);
      }
    }

    /** If an allocation at the base cannot grow where it is, its arena is too small for it. */
    lemma NoRoom(nb: nat)
      requires Valid() && current != first && (nb > current.limit || current.base > current.limit - nb)
      ensures nb > arenasize && current.limit - current.address <= Regross(nb)
    {
      assert current in arenas && Sound(current);
    }

    /** JS_ArenaGrow, when the arena is not to be reallocated: a new allocation, to which p is copied. */
    method GrowByCopy(size: nat, incr: nat, answer: nat, ghost m: Mark) returns (q: nat)
      requires Valid() && Backed() && size + incr + M() <= WORDS && size + incr > 0
      requires MayAnswer(answer, Gross(Align(size + incr, M()))) && Extends(m)
      modifies this`current, this`arenas, this`live, current`next, current`avail, quota
      ensures Valid() && Backed() && Total() == old(Total()) && Extends(m)
      ensures q == 0 ==> Now() == old(Now()) && current == old(current)
      ensures q == 0 <==> !old(Fits(current, Align(size + incr, M()))) && old(Refused(Align(size + incr, M()), answer))
      ensures q != 0 ==> live == old(live) + [Block(q, Align(size + incr, M()), current)]
    {
      AlignedIs(size + incr);
      q := Allocate(size + incr, true, answer, m);
    }

    /**
     * JS_ARENA_GROW for allocation j, which is in arena i. Of an oversized one it is asserted that it is at the
     * base of its arena, and that the word before it leads to the arena before; that it owns its arena is not.
     */
    method Grow(p: nat, size: nat, incr: nat, owner: Arena, answer: nat, ghost i: nat, ghost j: nat, ghost m: Mark)
      returns (q: nat)
      requires Valid() && Backed() && i < |arenas| && j < |live| && live[j] == Block(p, Align(size, M()), arenas[i])
      requires size + incr + M() <= WORDS && size + incr > 0 && Regross(Align(size + incr, M())) < WORDS
      requires owner == arenas[i] && Extends(m)
      requires size > arenasize ==> 0 < i && owner.base == p && owner.header == arenas[i - 1] && NextHasHeader(i)
      requires GrowsByRealloc(p, size, incr) ==> MayMove(answer, Regross(Align(size + incr, M())), i)
      requires !GrowsByRealloc(p, size, incr) && !GrowsInPlace(p, size, incr) ==> MayAnswer(answer, Gross(Align(size + incr, M())))
      modifies this`current, this`arenas, this`live, arenas, quota
      ensures InOrder() && Total() == old(Total())
      ensures q == 0 || size <= arenasize || old(GrowsInPlace(p, size, incr)) || old(Alone(i, j)) ==> Valid() && Backed()
      ensures q == 0 ==> Now() == old(Now()) && current == old(current)
      ensures var nb, before := Align(size + incr, M()), old(live);
              if old(GrowsInPlace(p, size, incr)) then
                q == p && arenas == old(arenas) && live == before[j := Block(p, nb, arenas[i])]
                && forall x :: 0 <= x < |arenas| ==> arenas[x].header == old(arenas[x].header)
              else if old(GrowsByRealloc(p, size, incr)) then
                (q == 0 <==> answer == 0 || old(Unpaid(arenas[i], Regross(nb))))
                && (q != 0 ==> |arenas| == |old(arenas)| && live == before[j := Block(q, nb, arenas[i])]
                               && Heads(q, nb, i, j) && arenas[i].header == arenas[i - 1]
                               && OthersStay(old(arenas[i]), j) && (size <= arenasize || old(Alone(i, j)) ==> Alone(i, j)))
              else
                (q == 0 <==> !old(Fits(current, nb)) && old(Refused(nb, answer)))
                && (q != 0 ==> live == before + [Block(q, nb, current)])
      ensures |m.live| <= j ==> Extends(m)
    {
      hide Extends, BackedUpTo, MadeFor, HasSlot, Sound, Regross, HeaderAlign, Over, Regular, Power, InOrder, OthersStay, Alone,
           NextHasHeader, Chained;
      var a := current;
      AlignMonotone(size, size + incr, M());
      NotInFirst(i, j);
      CurrentIsLast();
      if a.avail == p + Align(size, M()) {
        LastBlock(i, j);
        var nb := Align(size + incr, M());
        if a.limit >= nb && p <= a.limit - nb {
          Stretch(p, size, incr, j, m);
          ValidIs();
          q := p;
        } else if p == a.base {
          NoRoom(nb);
          q := ArenaRealloc(p, size, incr, owner, answer, i, j, m);
        } else {
          // JS_ArenaGrow; an oversized allocation would be at the base of its arena.
          assert size <= arenasize;
          q := GrowByCopy(size, incr, answer, m);
          ValidIs();
        }
      } else if size > arenasize {
        q := ArenaRealloc(p, size, incr, owner, answer, i, j, m);
      } else {
        q := GrowByCopy(size, incr, answer, m);
        ValidIs();
      }
    }

    /**
     * JS_ARENA_GROW for an allocation of no bytes, of which nothing is recorded. Not ok means that JS_ArenaRealloc
     * looks for the current arena behind the first one when the first one is the current one: it follows a null pointer.
     */
    method GrowNothing(p: nat, incr: nat, answer: nat, ghost m: Mark) returns (ok: bool, q: nat)
      requires Valid() && Backed() && Extends(m) && incr + M() <= WORDS
      requires MayAnswer(answer, Gross(Align(incr, M())))
      modifies this`current, this`arenas, this`live, current`next, current`avail, quota
      ensures ok <==> !(old(current) == first && p == first.base && incr > 0)
      ensures ok ==> Valid() && Backed() && Extends(m) && Total() == old(Total())
      ensures ok && q == 0 ==> Now() == old(Now()) && current == old(current)
      ensures ok ==> (q == 0 <==> !old(Fits(current, Align(incr, M()))) && old(Refused(Align(incr, M()), answer)))
      ensures ok && q != 0 ==> live == Plus(old(live), Block(q, Align(incr, M()), current))
      ensures ok && p == old(current.avail) && old(Fits(current, Align(incr, M()))) ==> q == p && current == old(current)
    {
      hide Power, Extends, MayAnswer, Refused, BackedUpTo;
      AlignOfNothing(incr, M());
      AlignedIs(incr);
      CurrentIsLast();
      FirstIsFull();
      var nb := Align(incr, M());
      ok := true;
      if current.avail == p + Align(0, M()) {
        if current.limit >= nb && p <= current.limit - nb {
          LastIsReady(nb);
          FewerBacked();
          q := Bump(nb, m);
        } else if p == current.base {
          return false, 0;
        } else {
          q := Allocate(incr, true, answer, m);
        }
      } else {
        q := Allocate(incr, true, answer, m);
      }
    }

    /** Only the first arena can be in use without anything in it, and it has no room. */
    lemma FirstIsFull()
      requires Valid() && Backed()
      ensures first.base == first.avail == first.limit && (current.avail == current.base <==> current == first)
    {
      CurrentIsLast();
      assert first in arenas && Sound(first);
      if |arenas| > 1 {
        assert Keeps(arenas[|arenas| - 1], arenas[|arenas| - 2], live);
      }
    }

    /** In a regular pool all that JS_ArenaRealloc asserts of an oversized allocation is so. */
    lemma AssertedIsSo(i: nat, j: nat)
      requires Valid() && Backed() && Regular() && i < |arenas| && j < |live|
      requires live[j].arena == arenas[i] && live[j].n > arenasize
      ensures Heads(live[j].p, live[j].n, i, j) && arenas[i].header == arenas[i - 1] && NextHasHeader(i)
    {
      OversizedIsBacked(i, j);
      if i + 1 < |arenas| && arenas[i + 1].avail - arenas[i + 1].base > arenasize {
        WrittenInSlot(i + 1);
      }
    }
  }

  /** `(guard) || _p > _a->limit - _nb`, in unsigned arithmetic. */
  predicate SlowPath(guarded: bool, nb: nat, limit: nat, p: nat)
  {
    (guarded && nb > limit) || p > (limit - nb) % WORDS
  }

  lemma WordOf(x: nat)
    requires x < 2 * WORDS
    ensures x % WORDS == if x < WORDS then x else x - WORDS
  {
  }

  lemma FloorOfLess(x: nat, m: nat)
    requires x < m
    ensures Floor(x, m) == 0
  {
    Remainder(x, m, 0, x);
  }

  lemma SlowPathIs(guarded: bool, nb: nat, limit: nat, p: nat)
    requires limit < WORDS && (guarded || nb <= limit)
    ensures SlowPath(guarded, nb, limit, p) <==> nb > limit || p > limit - nb
  {
  }

  lemma AlignOfNothing(n: nat, m: nat)
    requires m >= 1
    ensures Align(0, m) == 0 && (Align(n, m) == 0 <==> n == 0)
  {
    AlignAligned(0, m);
  }

  lemma AlignMonotone(x: nat, y: nat, m: nat)
    requires m >= 1 && x <= y
    ensures Align(x, m) <= Align(y, m)
  {
    hide Align;
    if Align(x, m) > Align(y, m) {
      MultiplesApart(Align(y, m), Align(x, m), m);
      assert false;
    }
  }

  lemma DifferenceModulo(x: nat, y: nat, m: nat)
    requires m >= 1 && x % m == 0 && y % m == 0 && x >= y
    ensures (x - y) % m == 0
  {
    var a, b := x / m, y / m;
    Quotient(x, m);
    Quotient(y, m);
    Times(a, b, m);
    assert x - y == (a - b) * m;
    MultipleModulo(a - b, m);
  }

  lemma {:induction false} HeldAppend(s: seq<Arena>, t: seq<Arena>)
    ensures Held(s + t) == Held(s) + Held(t)
  {
    if |t| == 0 {
      assert s + t == s;
    } else {
      var n := |t| - 1;
      assert (s + t)[..|s + t| - 1] == s + t[..n];
      HeldAppend(s, t[..n]);
    }
  }

  lemma HeldOne(a: Arena)
    requires a.address <= a.limit
    ensures Held([a]) == a.limit - a.address
  {
    assert [a][..0] == [];
  }

  lemma HeldWithout(before: seq<Arena>, a: Arena, after: seq<Arena>)
    requires a.address <= a.limit
    ensures Held(before + [a] + after) == Held(before + after) + (a.limit - a.address)
  {
    hide Held;
    HeldAppend(before, [a]);
    HeldAppend(before + [a], after);
    HeldAppend(before, after);
    HeldOne(a);
  }

  lemma HeldTailWithout(front: seq<Arena>, a: Arena, rest: seq<Arena>)
    requires |front| > 0 && a.address <= a.limit
    ensures Held((front + [a] + rest)[1..]) == Held((front + rest)[1..]) + (a.limit - a.address)
  {
    hide Held;
    HeldWithout(front[1..], a, rest);
    assert (front + [a] + rest)[1..] == front[1..] + [a] + rest;
    assert (front + rest)[1..] == front[1..] + rest;
  }

  lemma {:induction false} PowerBelow(k: nat, n: nat)
    requires k > 0 ==> Power(k - 1) < n
    ensures Power(k) <= 2 * n || k == 0
  {
  }
}
