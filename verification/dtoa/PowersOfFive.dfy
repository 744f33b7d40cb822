/** pow5mult and its lazily grown list of the powers 5^4, 5^8, 5^16, ... */
module PowersOfFive {
  import opened Powers
  import opened Words
  import opened BigInts

  /** 5^(4 * 2^i), the power in node i of the list. */
  ghost function Five(i: nat): nat
  {
    Pow(5, 4 * Pow(2, i))
  }

  ghost predicate HoldsPower(b: Bigint, i: nat)
    reads b`wds, b.x
  {
    b.Valid() && b.Normal() && b.Value() == Five(i)
  }

  class Pow5Cache {
    var p5s: Bigint?
    ghost var nodes: seq<Bigint>    // the list that starts at p5s
    ghost var Repr: set<object>

    constructor ()
      ensures Valid() && fresh(Repr) && nodes == []
    {
      p5s := null;
      nodes := [];
      Repr := {this};
    }

    /** The list is well linked, and node i holds 5^(4 * 2^i). */
    ghost predicate Valid()
      reads this, Repr
      ensures Valid() ==> this in Repr
    {
      && this in Repr
      && (forall i :: 0 <= i < |nodes| ==> nodes[i] in Repr && nodes[i].x in Repr)
      && (p5s == if nodes == [] then null else nodes[0])
      && (forall i :: 0 <= i < |nodes| ==> nodes[i].next == if i + 1 < |nodes| then nodes[i + 1] else null)
      && (forall i, j :: 0 <= i < j < |nodes| ==> nodes[i] != nodes[j])
      && (forall i :: 0 <= i < |nodes| ==> HoldsPower(nodes[i], i))
    }

    /** `if (!(p5 = p5s)) p5 = p5s = i2b(625)`. */
    method First() returns (p5: Bigint)
      requires Valid()
      modifies this
      ensures Valid() && fresh(Repr - old(Repr))
      ensures nodes != [] && p5 == nodes[0] && old(nodes) <= nodes
    {
      if p5s == null {
        p5 := I2B(625);
        p5s := p5;
        nodes := [p5];
        Repr := Repr + p5.Repr();
        assert Pow(2, 0) == 1;
        assert Pow(5, 4) == 625;
      }
      p5 := p5s;
    }

    /** `if (!(p51 = p5->next)) p51 = p5->next = mult(p5, p5)`. */
    method Next(p5: Bigint, ghost i: nat) returns (p51: Bigint)
      requires Valid() && i < |nodes| && p5 == nodes[i]
      modifies this, p5`next
      ensures Valid() && fresh(Repr - old(Repr))
      ensures i + 1 < |nodes| && p51 == nodes[i + 1] && old(nodes) <= nodes
    {
      hide HoldsPower;
      assert nodes[i].next == if i + 1 < |nodes| then nodes[i + 1] else null;
      if p5.next == null {
        p51 := SquareOf(p5, i);
        label before:
        p5.next := p51;
        forall j | 0 <= j < |nodes|
          ensures HoldsPower(nodes[j], j)
        {
          assert old@before(HoldsPower(nodes[j], j));
        }
        ghost var longer := nodes + [p51];
        assert forall j :: 0 <= j < |longer| ==> longer[j] == if j < |nodes| then nodes[j] else p51;
        nodes := longer;
        Repr := Repr + p51.Repr();
      }
      p51 := p5.next;
    }

    /** Multiplies b by 5^k, growing the list as far as the bits of k need it. */
    method Pow5Mult(b0: Bigint, k0: nat) returns (b: Bigint)
      requires Valid() && b0.Valid() && b0.Normal() && b0.Repr() !! Repr
      modifies Repr, b0, b0.x
      ensures Valid() && fresh(Repr - old(Repr)) && old(nodes) <= nodes
      ensures b.Valid() && b.Normal() && b.Value() == old(b0.Value()) * Pow(5, k0)
      ensures (b == b0 || fresh(b.Repr())) && b.Repr() !! Repr
    {
      hide Pow, Val, Five, Rest, Pow5Cache.Valid;
      ghost var v := b0.Value();
      var i, k := k0 % 4, k0 / 4;
      b := TimesSmall(b0, i);
      SplitPower(v, i, k, k0, b.Value());
      if k == 0 {
        return;
      }
      var p5 := First();
      b := Pow5Loop(b, k, p5);
    }

    /** The loop of pow5mult over the bits of k. */
    method Pow5Loop(b0: Bigint, k0: nat, p50: Bigint) returns (b: Bigint)
      requires Valid() && nodes != [] && p50 == nodes[0] && k0 > 0
      requires b0.Valid() && b0.Normal() && b0.Repr() !! Repr
      modifies Repr
      ensures Valid() && fresh(Repr - old(Repr)) && old(nodes) <= nodes
      ensures b.Valid() && b.Normal() && b.Value() == old(b0.Value()) * Rest(0, k0)
      ensures (b == b0 || fresh(b.Repr())) && b.Repr() !! Repr
    {
      hide Pow, Val, Five, Rest;
      var p5, k := p50, k0;
      ghost var total, n := b0.Value() * Rest(0, k0), 0;
      b := b0;
      while true
        invariant Valid() && fresh(Repr - old(Repr)) && old(nodes) <= nodes
        invariant n < |nodes| && p5 == nodes[n] && k > 0
        invariant b.Valid() && b.Normal() && b.Value() * Rest(n, k) == total
        invariant (b == b0 || fresh(b.Repr())) && b.Repr() !! Repr
        decreases k
      {
        HalvePower(b.Value(), n, k);
        if k % 2 != 0 {
          b := TimesPower(b, p5, n);
        }
        k := k / 2;
        if k == 0 {
          NothingRest(b.Value(), n + 1);
          break;
        }
        p5 := Next(p5, n);
        n := n + 1;
      }
    }
  }

  lemma NothingRest(v: nat, n: nat)
    ensures v * Rest(n, 0) == v
  {
    PowZero(5);
  }

  /** mult(p5, p5) on node i gives what node i + 1 has to hold. */
  method SquareOf(p5: Bigint, ghost i: nat) returns (p51: Bigint)
    requires HoldsPower(p5, i)
    ensures fresh(p51.Repr()) && HoldsPower(p51, i + 1) && p51.next == null
  {
    PowPositive(5, 4 * Pow(2, i));
    PositiveHasWords(p5);
    p51 := Mult(p5, p5);
    PowAdd(5, 4 * Pow(2, i), 4 * Pow(2, i));
    PowNext(2, i);
  }

  method TimesPower(b: Bigint, p5: Bigint, ghost i: nat) returns (b1: Bigint)
    requires b.Valid() && HoldsPower(p5, i)
    ensures fresh(b1.Repr()) && b1.Valid() && b1.Normal() && b1.Value() == b.Value() * Five(i)
  {
    PowPositive(5, 4 * Pow(2, i));
    PositiveHasWords(p5);
    b1 := Mult(b, p5);
  }

  /** What is still to be multiplied in when k is left at node n. */
  ghost function Rest(n: nat, k: nat): nat
  {
    Pow(5, 4 * Pow(2, n) * k)
  }

  /** `if ((i = k & 3)) b = multadd(b, p05[i - 1], 0)`. */
  method TimesSmall(b0: Bigint, i: nat) returns (b: Bigint)
    requires b0.Valid() && b0.Normal() && i < 4
    modifies b0, b0.x
    ensures b.Valid() && b.Normal() && b.Value() == old(b0.Value()) * Pow(5, i)
    ensures (b == b0 || fresh(b.Repr())) && b0.next == old(b0.next)
  {
    assert Pow(5, 0) == 1;
    assert Pow(5, 1) == 5;
    assert Pow(5, 2) == 25;
    assert Pow(5, 3) == 125;
    b := b0;
    if i != 0 {
      b := MultAdd(b, if i == 1 then 5 else if i == 2 then 25 else 125, 0);
    }
  }

  lemma SplitPower(v: nat, i: nat, k: nat, k0: nat, r: nat)
    requires k0 == 4 * k + i && r == v * Pow(5, i)
    ensures r * Rest(0, k) == v * Pow(5, k0)
    ensures k == 0 ==> r == v * Pow(5, k0)
  {
    PowZero(2);
    PowAdd(5, i, 4 * k);
    hide Pow;
    Assoc(v, Pow(5, i), Pow(5, 4 * k));
  }

  /** Using up the lowest bit of k. */
  lemma HalvePower(v: nat, n: nat, k: nat)
    ensures v * Rest(n, k) == (if k % 2 != 0 then v * Five(n) else v) * Rest(n + 1, k / 2)
  {
    var e, h, d := 4 * Pow(2, n), k / 2, k % 2;
    PowNext(2, n);
    PowZero(5);
    BitSplit(e, h, d, k);
    PowAdd(5, d * e, 2 * e * h);
    assert 4 * Pow(2, n + 1) == 2 * e;
    hide Pow;
    if d == 1 {
      Assoc(v, Pow(5, e), Pow(5, 2 * e * h));
    }
  }

  lemma BitSplit(e: nat, h: nat, d: nat, k: nat)
    requires k == 2 * h + d && d < 2
    ensures e * k == d * e + 2 * e * h
    ensures d * e == if d == 1 then e else 0
  {
    assert e * (2 * h + d) == 2 * e * h + d * e;
  }
}
