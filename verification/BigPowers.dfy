/**
 Multiplication by powers of five (dtoa.c): a list of the powers 5^(4 * 2^i) that grows when a
 larger one is needed.
 */
module BigPowers {
  import opened Powers
  import opened BigLimbs
  import opened Bigints

  /** The exponent of entry `i` of the list. */
  function Exponent(i: nat): (e: nat)
    ensures e > 0
  {
    4 * Pow(2, i)
  }

  class PowerCache {
    var p5s: seq<Bigint>

    ghost predicate Valid()
      reads this, p5s, set p | p in p5s :: p.x
    {
      forall i {:trigger p5s[i]} :: 0 <= i < |p5s| ==> p5s[i].Valid() && p5s[i].V() == Pow(5, Exponent(i))
    }

    /** The numbers of the list are not shared with `b`. */
    ghost predicate Apart(b: Bigint)
      reads this, p5s
    {
      forall i {:trigger p5s[i]} :: 0 <= i < |p5s| ==> p5s[i] != b && p5s[i].x != b.x
    }

    constructor ()
      ensures Valid() && p5s == []
    {
      p5s := [];
    }

    /** Entry `i`, which is computed as the square of the one before if it is not there yet. */
    method Entry(i: nat)
      requires Valid() && i <= |p5s|
      modifies this
      ensures Valid() && i < |p5s| && old(p5s) <= p5s
      ensures forall j {:trigger p5s[j]} :: |old(p5s)| <= j < |p5s| ==> fresh(p5s[j]) && fresh(p5s[j].x)
    {
      if i < |p5s| {
        return;
      }
      var p: Bigint;
      if i == 0 {
        p := I2B(625);
        assert Pow(5, 4) == 625;
      } else {
        Square(i - 1);
        PowerPositive5(Exponent(i - 1));
        p := Mult(p5s[i - 1], p5s[i - 1]);
      }
      p5s := p5s + [p];
    }

    /** `pow5mult`. */
    method Pow5Mult(b: Bigint, k0: nat) returns (r: Bigint)
      requires Valid() && Apart(b) && b.Valid() && b.V() > 0
      modifies this, b, b.x
      ensures Valid() && Apart(r) && r.Valid() && r.V() == old(b.V()) * Pow(5, k0)
      ensures r == b || (fresh(r) && fresh(r.x))
      ensures forall j {:trigger p5s[j]} :: 0 <= j < |p5s| ==> p5s[j] in old(p5s) || (fresh(p5s[j]) && fresh(p5s[j].x))
    {
      r := b;
      if k0 % 4 > 0 {
        var p05: Limb := if k0 % 4 == 1 then 5 else if k0 % 4 == 2 then 25 else 125;
        assert Pow(5, k0 % 4) == p05;
        r := MultAdd(b, p05, 0);
        PositiveProduct(old(b.V()), p05);
      }
      PowAdd(5, k0 % 4, 4 * (k0 / 4));
      r := Pow5Loop(r, k0 / 4);
      Assoc(old(b.V()), Pow(5, k0 % 4), Pow(5, 4 * (k0 / 4)));
    }

    /** Multiplies by 5^(4 k), using one entry of the list for each bit of `k`. */
    method Pow5Loop(b: Bigint, k0: nat) returns (r: Bigint)
      requires Valid() && Apart(b) && b.Valid() && b.V() > 0
      modifies this
      ensures Valid() && Apart(r) && r.Valid() && r.V() == b.V() * Pow(5, 4 * k0)
      ensures r == b || (fresh(r) && fresh(r.x))
      ensures forall j {:trigger p5s[j]} :: 0 <= j < |p5s| ==> p5s[j] in old(p5s) || (fresh(p5s[j]) && fresh(p5s[j].x))
    {
      r := b;
      ghost var target := b.V() * Pow(5, 4 * k0);
      var k: nat, i: nat := k0, 0;
      assert Exponent(0) == 4 && k * Exponent(0) == 4 * k0;
      while k > 0
        invariant Valid() && Apart(r) && r.Valid() && r.V() > 0 && i <= |p5s|
        invariant r == b || (fresh(r) && fresh(r.x))
        invariant forall j {:trigger p5s[j]} :: 0 <= j < |p5s| ==>
          p5s[j] in old(p5s) || (fresh(p5s[j]) && fresh(p5s[j].x))
        invariant r.V() * Pow(5, k * Exponent(i)) == target
        decreases k
      {
        Entry(i);
        BitStep(r.V(), k, i, target);
        if k % 2 == 1 {
          r := TimesEntry(r, i);
        }
        k, i := k / 2, i + 1;
      }
    }

    method TimesEntry(r: Bigint, i: nat) returns (r1: Bigint)
      requires Valid() && i < |p5s| && r.Valid() && r.V() > 0
      ensures fresh(r1) && fresh(r1.x) && r1.Valid() && r1.V() == r.V() * Pow(5, Exponent(i)) && r1.V() > 0
    {
      PowerPositive5(Exponent(i));
      PositiveProduct(r.V(), Pow(5, Exponent(i)));
      r1 := Mult(r, p5s[i]);
    }
  }

  lemma PowerPositive5(e: nat)
    ensures Pow(5, e) > 0
  {
  }

  lemma Square(i: nat)
    ensures Pow(5, Exponent(i + 1)) == Pow(5, Exponent(i)) * Pow(5, Exponent(i))
  {
    assert Exponent(i + 1) == Exponent(i) + Exponent(i);
    PowAdd(5, Exponent(i), Exponent(i));
  }

  /** One bit of the exponent. */
  lemma BitStep(v: nat, k: nat, i: nat, target: nat)
    requires v * Pow(5, k * Exponent(i)) == target && k > 0
    ensures (if k % 2 == 1 then v * Pow(5, Exponent(i)) else v) * Pow(5, (k / 2) * Exponent(i + 1)) == target
  {
    var e, h := Exponent(i), k / 2;
    assert Exponent(i + 1) == 2 * e;
    assert h * (2 * e) == (h * 2) * e by {
      Assoc(h, 2, e);
    }
    if k % 2 == 1 {
      assert k == h * 2 + 1;
      Add2(h * 2, 1, e);
      PowAdd(5, e, (h * 2) * e);
      Assoc(v, Pow(5, e), Pow(5, (h * 2) * e));
    } else {
      assert k == h * 2;
    }
  }
}
