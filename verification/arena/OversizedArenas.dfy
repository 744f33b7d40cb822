/** Oversized allocations: how they grow, and pools in which they are not what JS_ArenaRealloc takes them for. */
module OversizedArenas {
  import opened Addresses
  import opened Arenas

  /**
   * An oversized allocation is made and then grown, whether realloc moves the arena or leaves it where it is: it
   * goes on owning the last arena, whose header leads to the one before, and the mark made before is still good.
   * What malloc and realloc answer are two addresses, of which the second may overlap the block of the first.
   */
  method AllocateThenGrow(pool: ArenaPool, size: nat, incr: nat, answer: nat, answer2: nat, ghost m: Mark) returns (q: nat)
    requires pool.Valid() && pool.Backed() && pool.Extends(m) && pool.Regular()
    requires size > pool.arenasize && size + incr + pool.M() <= WORDS
    requires pool.Regross(Align(size + incr, pool.M())) < WORDS
    requires pool.MayAnswer(answer, pool.Gross(Align(size, pool.M())))
    requires pool.MayAnswer(answer2, pool.Regross(Align(size + incr, pool.M())))
    modifies pool, pool.arenas, pool.quota
    ensures pool.Valid() && pool.Backed() && pool.Extends(m) && pool.Total() == old(pool.Total())
    ensures q != 0 ==>
      |pool.arenas| == |old(pool.arenas)| + 1 && |pool.live| == |old(pool.live)| + 1
      && pool.OwnsArena(q, Align(size + incr, pool.M()), |pool.arenas| - 1, |pool.live| - 1)
      && pool.current.header == pool.arenas[|pool.arenas| - 2]
    ensures q == 0 ==>
      answer == 0 || answer2 == 0
      || (pool.quota != null && pool.Regross(Align(size + incr, pool.M())) > old(pool.quota.left))
  {
    hide Power, Align, Held, ArenaPool.Valid, ArenaPool.Extends, ArenaPool.BackedUpTo, ArenaPool.Aligned, ArenaPool.MayAnswer,
         ArenaPool.MayMove, ArenaPool.Regross, ArenaPool.Gross, ArenaPool.BaseFor, ArenaPool.Regular, ArenaPool.OwnsArena,
         ArenaPool.MadeFor, ArenaPool.HasSlot, ArenaPool.Alone, ArenaPool.Refused, ArenaPool.High;
    NeverFits(pool, size);
    pool.AlignedIs(size);
    LiveSince(pool, m);
    AnswerMeans(pool, answer2, pool.Regross(Align(size + incr, pool.M())));
    pool.CurrentIsLast();
    pool.InUse(pool.current);
    ghost var s, blocks := pool.arenas, pool.live;
    AlignMonotone(size, size + incr, pool.M());
    NotRefused(pool, Align(size, pool.M()), Align(size + incr, pool.M()), answer);
    q := pool.Allocate(size, true, answer, m);
    if q != 0 {
      pool.CurrentIsLast();
      HeldWithOneMore(pool, s);
      assert Held(s[1..]) == old(Held(pool.arenas[1..]));
      AnswerSuits(pool, s, answer2, pool.Regross(Align(size + incr, pool.M())));
      AloneWhenMade(pool, blocks);
      q := GrowLast(pool, q, size, incr, answer2, m);
    }
  }

  lemma NotRefused(pool: ArenaPool, nb: nat, nb2: nat, answer: nat)
    requires pool.arenasize < nb <= nb2 && pool.Regross(nb2) < WORDS
    ensures pool.Gross(nb) == pool.Regross(nb) <= pool.Regross(nb2)
    ensures pool.Refused(nb, answer) ==> answer == 0 || (pool.quota != null && pool.Regross(nb2) > pool.quota.left)
  {
  }

  /** What the new arena takes is what it will give back when it is replaced. */
  lemma HeldWithOneMore(pool: ArenaPool, s: seq<Arena>)
    requires |s| > 0 && pool.arenas == s + [pool.current] && pool.current.address <= pool.current.limit
    ensures Held(pool.arenas[1..]) == Held(s[1..]) + (pool.current.limit - pool.current.address)
  {
    assert pool.arenas[1..] == s[1..] + [pool.current];
    HeldAppend(s[1..], [pool.current]);
    HeldOne(pool.current);
  }

  /** An allocation in an arena made for it is alone there. */
  lemma AloneWhenMade(pool: ArenaPool, blocks: seq<Block>)
    requires |pool.arenas| > 0 && |pool.live| == |blocks| + 1 && blocks < pool.live
    requires pool.live[|blocks|].arena == pool.arenas[|pool.arenas| - 1]
    requires forall b :: b in blocks ==> b.arena != pool.arenas[|pool.arenas| - 1]
    ensures pool.Alone(|pool.arenas| - 1, |blocks|)
  {
    assert forall k :: 0 <= k < |blocks| ==> pool.live[k] == blocks[k];
  }

  method GrowLast(pool: ArenaPool, p: nat, size: nat, incr: nat, answer: nat, ghost m: Mark) returns (q: nat)
    requires pool.Valid() && pool.Backed() && pool.Extends(m) && pool.Regular()
    requires size > pool.arenasize && size + incr + pool.M() <= WORDS
    requires pool.Regross(Align(size + incr, pool.M())) < WORDS
    requires |m.live| < |pool.live| && pool.live[|pool.live| - 1] == Block(p, Align(size, pool.M()), pool.current)
    requires pool.Alone(|pool.arenas| - 1, |pool.live| - 1)
    requires pool.MayMove(answer, pool.Regross(Align(size + incr, pool.M())), |pool.arenas| - 1)
    modifies pool, pool.arenas, pool.quota
    ensures pool.Valid() && pool.Backed() && pool.Extends(m) && pool.Total() == old(pool.Total())
    ensures q != 0 ==>
      |pool.arenas| == |old(pool.arenas)| && |pool.live| == |old(pool.live)| && |pool.arenas| >= 2
      && pool.OwnsArena(q, Align(size + incr, pool.M()), |pool.arenas| - 1, |pool.live| - 1)
      && pool.current.header == pool.arenas[|pool.arenas| - 2]
    ensures q == 0 ==> answer == 0 || old(pool.Unpaid(pool.current, pool.Regross(Align(size + incr, pool.M()))))
  {
    hide Power, Align, Held, ArenaPool.Valid, ArenaPool.Extends, ArenaPool.BackedUpTo, ArenaPool.MayAnswer, ArenaPool.Regross,
         ArenaPool.MayMove, ArenaPool.Gross, ArenaPool.Regular, ArenaPool.MadeFor, ArenaPool.Refused, ArenaPool.Unpaid,
         ArenaPool.HasSlot, ArenaPool.Backs, ArenaPool.NextHasHeader, ArenaPool.OthersStay, ArenaPool.InOrder;
    pool.CurrentIsLast();
    ghost var i, j := |pool.arenas| - 1, |pool.live| - 1;
    NotByCopy(pool, p, size, incr, answer);
    AlignMonotone(size, size + incr, pool.M());
    pool.AssertedIsSo(i, j);
    pool.NotInFirst(i, j);
    q := pool.Grow(p, size, incr, pool.current, answer, i, j, m);
    if q != 0 {
      pool.CurrentIsLast();
      pool.AssertedIsSo(i, j);
      assert forall k :: 0 <= k < |pool.live| && k != j ==> pool.live[k] == old(pool.live[k]);
    }
  }

  lemma NotByCopy(pool: ArenaPool, p: nat, size: nat, incr: nat, answer: nat)
    requires size > pool.arenasize
    ensures pool.GrowsInPlace(p, size, incr) || pool.GrowsByRealloc(p, size, incr)
    ensures pool.GrowsInPlace(p, size, incr) ==> !pool.GrowsByRealloc(p, size, incr)
  {
  }

  lemma LiveSince(pool: ArenaPool, m: Mark)
    requires pool.Extends(m)
    ensures |m.live| <= |pool.live|
  {
  }

  lemma AnswerMeans(pool: ArenaPool, answer: nat, gross: nat)
    requires pool.MayAnswer(answer, gross)
    ensures answer == 0 ||
      (answer + gross < WORDS && forall a :: a in pool.arenas ==> pool.High(a) <= answer || answer + gross <= pool.Low(a))
  {
  }

  lemma AnswerSuits(pool: ArenaPool, s: seq<Arena>, answer: nat, gross: nat)
    requires |pool.arenas| == |s| + 1 && s < pool.arenas
    requires answer == 0 ||
      (answer + gross < WORDS && forall a :: a in s ==> pool.High(a) <= answer || answer + gross <= pool.Low(a))
    ensures pool.MayMove(answer, gross, |s|)
  {
  }

  /**
   * If the size of arenas is no multiple of the alignment, an allocation can become oversized where it
   * is: no word before it leads to the arena before, although growing it again looks for one there.
   */
  method GrowsWithoutHeader(pool: ArenaPool, answer: nat) returns (p: nat)
    requires pool.Valid() && pool.Backed() && pool.arenas == [pool.first] && pool.live == [] && pool.quota == null
    requires pool.M() < pool.arenasize && pool.arenasize % pool.M() != 0 && 2 * pool.arenasize + 2 * pool.M() + 100 < WORDS
    requires answer > 0 && (answer + ARENA_STRUCT) % pool.M() == 0 && pool.MayAnswer(answer, pool.Gross(pool.M()))
    modifies pool, pool.first
    ensures pool.Valid() && pool.Backed() && |pool.live| == 1 && pool.live[0].p == p
    ensures pool.live[0].n > pool.arenasize && pool.live[0].arena.header == null
  {
    hide Power, Align, ArenaPool.Valid, ArenaPool.Extends, ArenaPool.BackedUpTo, ArenaPool.Aligned, ArenaPool.MayAnswer;
    ghost var m := pool.Now();
    pool.NowExtends();
    NoRoomInFirst(pool);
    pool.CurrentIsLast();
    OneByte(pool, answer);
    p := pool.Allocate(1, true, answer, m);
    assert pool.arenas[1] == pool.current;
    p := pool.Grow(p, 1, pool.arenasize, pool.current, 0, 1, 0, m);
  }

  lemma NoRoomInFirst(pool: ArenaPool)
    requires pool.Valid() && pool.Backed() && pool.arenas == [pool.first]
    ensures forall n: nat :: n > 0 ==> !pool.Fits(pool.current, n)
  {
    pool.CurrentIsLast();
  }

  lemma OneByte(pool: ArenaPool, answer: nat)
    requires pool.Valid() && 2 * pool.arenasize + 2 * pool.M() + 100 < WORDS && pool.M() < pool.arenasize
    requires (answer + ARENA_STRUCT) % pool.M() == 0 && pool.arenasize % pool.M() != 0
    ensures pool.Aligned(1) == pool.M() == Align(1, pool.M()) && pool.Gross(pool.M()) < WORDS
    ensures pool.BaseFor(pool.M(), answer) == answer + ARENA_STRUCT
    ensures pool.arenasize < Align(1 + pool.arenasize, pool.M()) <= pool.arenasize + pool.M() - 1
  {
    hide Power, Align, ArenaPool.Aligned, ArenaPool.Valid;
    var m := pool.M();
    pool.Parts();
    pool.AlignedIs(1);
    LeastMultiple(1, m);
    LeastMultiple(1 + pool.arenasize, m);
    AlignAligned(answer + ARENA_STRUCT, m);
  }

  lemma LeastMultiple(n: nat, m: nat)
    requires m >= 1 && n >= 1
    ensures n == 1 ==> Align(n, m) == m
    ensures (n - 1) % m != 0 ==> Align(n, m) < n - 1 + m
  {
    MultiplesApart(0, Align(n, m), m);
    if n == 1 {
      Remainder(m, m, 1, 0);
      Remainder(n + m - 1, m, 1, 0);
    }
    if Align(n, m) == n - 1 + m {
      DifferenceModulo(Align(n, m), m, m);
    }
  }

  // ----- What is left behind an oversized allocation -----

  /** Behind an oversized allocation in an arena at this address. */
  function LeftBehind(answer: nat, m: nat): nat
    requires m >= 1
  {
    (answer + ARENA_STRUCT + POINTER_SIZE - 1) % HeaderAlign(m)
  }

  lemma LeftIs(pool: ArenaPool, nb: nat, answer: nat)
    requires nb > pool.arenasize
    ensures answer + pool.Gross(nb) == pool.BaseFor(nb, answer) + nb + LeftBehind(answer, pool.M())
  {
    hide Power, Floor;
    var h := HeaderAlign(pool.M());
    var x := answer + ARENA_STRUCT + POINTER_SIZE - 1;
    FloorIs(x + h, h);
    Remainder(x + h, h, x / h + 1, x % h);
  }

  lemma FloorIs(x: nat, m: nat)
    requires m >= 1
    ensures Floor(x, m) == x - x % m
  {
  }

  /**
   * An oversized allocation is made in an arena of its own, as in any state of a regular pool, and then another one
   * for which malloc would give nothing. It succeeds exactly if it fits into what is left behind the first.
   */
  method AllocateBehind(pool: ArenaPool, size: nat, n: nat, answer: nat, ghost m: Mark) returns (p: nat, q: nat)
    requires pool.Valid() && pool.Backed() && pool.Extends(m)
    requires pool.Regular() || !pool.Fits(pool.current, Align(size, pool.M()))
    requires size > pool.arenasize && size + pool.M() <= WORDS && 0 < n && n + pool.M() <= WORDS
    requires pool.MayAnswer(answer, pool.Gross(Align(size, pool.M()))) && !pool.Refused(Align(size, pool.M()), answer)
    modifies pool`current, pool`arenas, pool`live, pool.current`next, pool.current`avail, pool.quota
    ensures pool.Valid() && pool.Backed() && pool.Extends(m)
    ensures fresh(pool.current) && pool.arenas == old(pool.arenas) + [pool.current]
    ensures q != 0 <==> Align(n, pool.M()) <= LeftBehind(answer, pool.M())
    ensures pool.live == old(pool.live) + [Block(p, Align(size, pool.M()), pool.current)]
                         + if q != 0 then [Block(q, Align(n, pool.M()), pool.current)] else []
    ensures p == pool.current.base && pool.current.header == old(pool.current)
    ensures p != 0 && (q == 0 ==> pool.Alone(|pool.arenas| - 1, |old(pool.live)|))
    ensures q != 0 ==> pool.current.avail == p + Align(size, pool.M()) + Align(n, pool.M())
  {
    hide Power, Align, Held, ArenaPool.Valid, ArenaPool.Extends, ArenaPool.BackedUpTo, ArenaPool.Aligned, ArenaPool.MayAnswer,
         ArenaPool.Gross, ArenaPool.BaseFor, ArenaPool.Regular, ArenaPool.Refused, HeaderAlign;
    DoesNotFit(pool, size);
    pool.AlignedIs(size);
    pool.AlignedIs(n);
    LeftIs(pool, Align(size, pool.M()), answer);
    pool.CurrentIsLast();
    pool.InUse(pool.current);
    ghost var blocks := pool.live;
    p := pool.Allocate(size, true, answer, m);
    pool.CurrentIsLast();
    AloneWhenMade(pool, blocks);
    NothingMore(pool, pool.Gross(pool.Aligned(n)), pool.Aligned(n));
    AlignPositive(n, pool.M());
    q := pool.Allocate(n, true, 0, m);
  }

  lemma DoesNotFit(pool: ArenaPool, size: nat)
    requires pool.Valid() && pool.Backed() && size > pool.arenasize && size + pool.M() <= WORDS
    requires pool.Regular() || !pool.Fits(pool.current, Align(size, pool.M()))
    ensures !pool.Fits(pool.current, Align(size, pool.M())) && Align(size, pool.M()) > pool.arenasize && pool.M() < WORDS
  {
    if pool.Regular() {
      NeverFits(pool, size);
    } else {
      AlignPositive(size, pool.M());
    }
  }

  lemma AlignPositive(n: nat, m: nat)
    requires m >= 1 && n > 0
    ensures Align(n, m) >= n > 0
  {
  }

  lemma NothingMore(pool: ArenaPool, gross: nat, nb: nat)
    ensures pool.MayAnswer(0, gross) && pool.Refused(nb, 0)
  {
  }

  /** An oversized allocation does not fit an arena of a regular pool. */
  lemma NeverFits(pool: ArenaPool, size: nat)
    requires pool.Valid() && pool.Backed() && pool.Regular() && size > pool.arenasize && size + pool.M() <= WORDS
    ensures !pool.Fits(pool.current, Align(size, pool.M())) && Align(size, pool.M()) > pool.arenasize && pool.M() < WORDS
  {
    pool.OverIs(Align(size, pool.M()));
    pool.LastIsReady(0);
    pool.CurrentIsLast();
  }

  /**
   * In every regular pool that is aligned less than pointers, in every state, an oversized allocation at an
   * address that is good for pointers need not own its arena: a byte allocated next lies behind it.
   */
  method SharesArena(pool: ArenaPool, size: nat, answer: nat, ghost m: Mark) returns (p: nat, q: nat)
    requires pool.Valid() && pool.Backed() && pool.Extends(m) && pool.Regular() && pool.M() < POINTER_SIZE
    requires size > pool.arenasize && size + pool.M() <= WORDS && answer % POINTER_SIZE == 0
    requires pool.MayAnswer(answer, pool.Gross(Align(size, pool.M()))) && !pool.Refused(Align(size, pool.M()), answer)
    modifies pool`current, pool`arenas, pool`live, pool.current`next, pool.current`avail, pool.quota
    ensures pool.Valid() && pool.Backed() && pool.Extends(m)
    ensures fresh(pool.current) && pool.arenas == old(pool.arenas) + [pool.current]
    ensures q != 0 && pool.live == old(pool.live) + [Block(p, Align(size, pool.M()), pool.current)]
                                   + [Block(q, Align(1, pool.M()), pool.current)]
    ensures !pool.Alone(|pool.arenas| - 1, |old(pool.live)|)
    ensures p == pool.current.base && pool.current.header == old(pool.current)
    ensures pool.current.avail == p + Align(size, pool.M()) + Align(1, pool.M())
  {
    hide Align, ArenaPool.Valid, ArenaPool.Extends, ArenaPool.BackedUpTo, ArenaPool.MayAnswer, ArenaPool.Regular, ArenaPool.Refused;
    SmallPower(pool.k);
    AlignBelow(1, pool.M());
    ghost var j := |pool.live|;
    p, q := AllocateBehind(pool, size, 1, answer, m);
    assert pool.live[j].arena == pool.live[j + 1].arena == pool.arenas[|pool.arenas| - 1];
  }

  lemma SmallPower(k: nat)
    requires Power(k) < POINTER_SIZE
    ensures Power(k) <= 4
  {
    assert Power(2) == 4 && Power(3) == 8;
    if k >= 3 {
      PowerMonotone(3, k);
    } else {
      PowerMonotone(k, 2);
    }
  }

  lemma AlignBelow(n: nat, m: nat)
    requires m >= 1
    ensures Align(n, m) < n + m
  {
  }

  /**
   * If the least oversized allocation is smaller than what can be left behind one, as in a pool of alignment 1 whose
   * arenas have six bytes, two of them can be in one arena: the second is not at its base.
   */
  method OversizedBehind(pool: ArenaPool, size: nat, answer: nat, ghost m: Mark) returns (p: nat, q: nat)
    requires pool.Valid() && pool.Backed() && pool.Extends(m) && !pool.Fits(pool.current, Align(size, pool.M()))
    requires (pool.arenasize < pool.M() || pool.arenasize % pool.M() == 0) && HeaderAlign(pool.M()) > pool.Over()
    requires size > pool.arenasize && size + pool.M() <= WORDS && answer % POINTER_SIZE == 0
    requires pool.MayAnswer(answer, pool.Gross(Align(size, pool.M()))) && !pool.Refused(Align(size, pool.M()), answer)
    modifies pool`current, pool`arenas, pool`live, pool.current`next, pool.current`avail, pool.quota
    ensures pool.Valid() && pool.Backed() && pool.Extends(m)
    ensures q != 0 && pool.live == old(pool.live) + [Block(p, Align(size, pool.M()), pool.current)]
                                   + [Block(q, pool.Over(), pool.current)]
    ensures pool.Over() > pool.arenasize && q > p == pool.current.base
  {
    hide Power, Align, ArenaPool.Valid, ArenaPool.Extends, ArenaPool.BackedUpTo, ArenaPool.MayAnswer, ArenaPool.Refused;
    var n := pool.Over();
    if pool.arenasize >= pool.M() {
      SumModulo(pool.arenasize, pool.M(), pool.M());
    }
    OwnMultiple(pool.M());
    AlignAligned(n, pool.M());
    AlignPositive(size, pool.M());
    p, q := AllocateBehind(pool, size, n, answer, m);
    pool.CurrentIsLast();
    BehindTheFirst(pool, |pool.live| - 2);
  }

  lemma OwnMultiple(m: nat)
    requires m >= 1
    ensures m % m == 0
  {
    MultipleModulo(1, m);
  }

  lemma BehindTheFirst(pool: ArenaPool, j: nat)
    requires pool.Valid() && j + 1 < |pool.live| && pool.live[j].p == pool.current.base && pool.live[j + 1].arena == pool.current
    requires pool.live[j].arena == pool.current
    ensures pool.live[j + 1].p > pool.live[j].p
  {
    assert pool.Contained(pool.live[j]) && pool.Contained(pool.live[j + 1]);
    pool.DisjointBoth(pool.live, j, j + 1);
  }

  /** The first allocation is grown: the one behind it is not kept, whether the arena has moved or not. */
  method GrowsOverOther(pool: ArenaPool, size: nat, incr: nat, answer: nat, answer2: nat, ghost m: Mark) returns (p: nat, q: nat)
    requires pool.Valid() && pool.Backed() && pool.Extends(m) && pool.Regular() && pool.M() < POINTER_SIZE
    requires size > pool.arenasize && size + incr + pool.M() <= WORDS && answer % POINTER_SIZE == 0
    requires pool.MayAnswer(answer, pool.Gross(Align(size, pool.M()))) && !pool.Refused(Align(size, pool.M()), answer)
    requires pool.Regross(Align(size + incr, pool.M())) < WORDS && answer2 != 0
    requires pool.MayAnswer(answer2, pool.Regross(Align(size + incr, pool.M())))
    modifies pool, pool.arenas, pool.quota
    ensures pool.InOrder() && |pool.live| == |old(pool.live)| + 2
    ensures p != 0 ==>
      var grown, other := pool.live[|old(pool.live)|], pool.live[|old(pool.live)| + 1];
      grown.p == p && grown.n == Align(size + incr, pool.M()) && other.p == q
      && !(pool.Contained(other) && pool.Disjoint(other, grown))
  {
    hide Power, Align, Held, ArenaPool.Valid, ArenaPool.Extends, ArenaPool.BackedUpTo, ArenaPool.MayAnswer, ArenaPool.MayMove,
         ArenaPool.Regross, ArenaPool.Gross, ArenaPool.Regular, ArenaPool.Refused, ArenaPool.Unpaid, ArenaPool.NextHasHeader,
         ArenaPool.InOrder, ArenaPool.Disjoint, ArenaPool.Alone, ArenaPool.High;
    LiveSince(pool, m);
    AlignMonotone(size, size + incr, pool.M());
    AlignPositive(1, pool.M());
    AnswerMeans(pool, answer2, pool.Regross(Align(size + incr, pool.M())));
    pool.CurrentIsLast();
    ghost var s := pool.arenas;
    ghost var j := |pool.live|;
    p, q := SharesArena(pool, size, answer, m);
    pool.CurrentIsLast();
    AnswerSuits(pool, s, answer2, pool.Regross(Align(size + incr, pool.M())));
    pool.AssertedIsSo(|s|, j);
    p := pool.Grow(p, size, incr, pool.current, answer2, |s|, j, m);
  }

  // ----- Allocations of no bytes -----

  /** The first allocation of a new pool is one of no bytes, and is grown: a null pointer is followed. */
  method NothingThenGrow(pool: ArenaPool, incr: nat) returns (ok: bool)
    requires pool.Valid() && pool.Backed() && pool.arenas == [pool.first] && incr > 0 && incr + pool.M() <= WORDS
    modifies pool`current, pool`arenas, pool`live, pool.current`next, pool.current`avail, pool.quota
    ensures !ok
  {
    hide Power, Align, ArenaPool.Extends, ArenaPool.Aligned, ArenaPool.MayAnswer, ArenaPool.BackedUpTo;
    ghost var m := pool.Now();
    pool.NowExtends();
    pool.CurrentIsLast();
    pool.FirstIsFull();
    pool.AlignedIs(0);
    AlignOfNothing(0, pool.M());
    NothingMore(pool, pool.Gross(pool.Aligned(0)), pool.Aligned(0));
    var p := pool.Allocate(0, true, 0, m);
    NothingMore(pool, pool.Gross(Align(incr, pool.M())), 0);
    pool.FirstIsFull();
    var q;
    ok, q := pool.GrowNothing(p, incr, 0, m);
  }
}
