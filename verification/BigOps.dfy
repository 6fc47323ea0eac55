/**
 Comparison, difference and division of multiple-precision integers (dtoa.c).
 */
module BigOps {
  import opened Powers
  import opened BigLimbs
  import opened Bigints

  /** A division may leave zero without any limb. */
  ghost predicate Loose(b: Bigint)
    reads b, b.x
  {
    b.Valid() || (b.wds == 0 && b.x.Length == Pow(2, b.k) && b.x[0] == 0)
  }

  // ----- cmp -----

  lemma {:induction false} WeightMono(i: nat, j: nat)
    requires i <= j
    ensures Weight(i) <= Weight(j)
  {
    if i < j {
      WeightMono(i, j - 1);
      WeightStep(j - 1);
    }
  }

  /** Fewer limbs, smaller number. */
  lemma ShorterLess(s: seq<Limb>, t: seq<Limb>)
    requires |s| < |t| && t[|t| - 1] > 0
    ensures Value(s) < Value(t)
  {
    ValueBound(s);
    ValueTop(t);
    WeightMono(|s|, |t| - 1);
  }

  /** The highest limb that differs decides. */
  lemma {:induction false} LimbLess(s: seq<Limb>, t: seq<Limb>, j: nat)
    requires j < |s| == |t| && s[j] < t[j] && forall i :: j < i < |s| ==> s[i] == t[i]
    ensures Value(s) < Value(t)
  {
    var n := |s| - 1;
    if j == n {
      ValueBound(s[..n]);
      Monotone(s[n] + 1, t[n], Weight(n));
      Add2(s[n], 1, Weight(n));
    } else {
      LimbLess(s[..n], t[..n], j);
    }
  }

  /** A zero without limbs is compared with numbers that are not zero. */
  ghost predicate Comparable(a: Bigint, b: Bigint)
    requires Loose(a) && Loose(b)
    reads a, a.x, b, b.x
  {
    (a.wds == 0 ==> b.V() > 0) && (b.wds == 0 ==> a.V() > 0)
  }

  /** `cmp`. */
  method Cmp(a: Bigint, b: Bigint) returns (i: int)
    requires Loose(a) && Loose(b)
    ensures Comparable(a, b) ==> (i < 0 <==> a.V() < b.V()) && (i == 0 <==> a.V() == b.V())
    ensures a.wds == 0 < b.wds ==> i < 0
  {
    i := a.wds - b.wds;
    if i != 0 {
      if a.wds > 0 && b.wds > 0 {
        CmpLengths(a, b);
      }
      assert a.x[..0] == [] && b.x[..0] == [];
      return;
    }
    if a.wds == 0 {
      assert a.x[..0] == [] && b.x[..0] == [];
      return 0;
    }
    var j := b.wds;
    while true
      invariant 0 < j <= b.wds && forall q :: j <= q < b.wds ==> a.x[q] == b.x[q]
      decreases j
    {
      j := j - 1;
      if a.x[j] != b.x[j] {
        if a.x[j] < b.x[j] {
          LimbLess(a.x[..a.wds], b.x[..b.wds], j);
          return -1;
        }
        LimbLess(b.x[..b.wds], a.x[..a.wds], j);
        return 1;
      }
      if j <= 0 {
        break;
      }
    }
    assert a.x[..a.wds] == b.x[..b.wds];
    return 0;
  }

  lemma CmpLengths(a: Bigint, b: Bigint)
    requires a.Valid() && b.Valid() && a.wds != b.wds
    ensures a.wds < b.wds <==> a.V() < b.V()
    ensures a.V() != b.V()
  {
    if a.wds < b.wds {
      ShorterLess(a.x[..a.wds], b.x[..b.wds]);
    } else {
      ShorterLess(b.x[..b.wds], a.x[..a.wds]);
    }
  }

  // ----- diff -----

  /** One limb of a difference, and the borrow that goes on. */
  method SubLimb(l: Limb, m: Limb, borrow: nat, ghost v: int, ghost w: nat) returns (d: Limb, more: nat)
    requires borrow <= 1
    ensures more <= 1 && v + d * w - more * (BASE * w) == v - borrow * w + l * w - m * w
  {
    var y := l - m - borrow;
    BorrowStep(v, borrow, w, y, l, m);
    more := if y < 0 then 1 else 0;
    d := y + more * BASE;
  }

  /** Subtracts the limbs of `b` from those of `a`. */
  method SubLow(a: Bigint, b: Bigint, c: array<Limb>) returns (borrow: nat)
    requires a.Valid() && b.Valid() && b.wds <= a.wds <= c.Length && c != a.x && c != b.x
    modifies c
    ensures borrow <= 1 && Value(c[..b.wds]) - borrow * Weight(b.wds) == Value(a.x[..b.wds]) - b.V()
  {
    ghost var s, t := a.x[..], b.x[..];
    borrow := 0;
    assert s[..0] == [] && t[..0] == [] && c[..0] == [];
    for i := 0 to b.wds
      invariant borrow <= 1 && a.x[..] == s && b.x[..] == t
      invariant Value(c[..i]) - borrow * Weight(i) == Value(s[..i]) - Value(t[..i])
    {
      ghost var before := c[..i];
      ValueStep(s, i);
      ValueStep(t, i);
      WeightStep(i);
      c[i], borrow := SubLimb(a.x[i], b.x[i], borrow, Value(before), Weight(i));
      assert c[..i + 1][..i] == c[..i] == before;
    }
    assert s[..b.wds] == a.x[..b.wds] && t[..b.wds] == b.x[..b.wds];
  }

  /** The borrow goes on through the rest of `a`. */
  method SubHigh(a: Bigint, from: nat, borrow0: nat, c: array<Limb>, ghost bv: int) returns (borrow: nat)
    requires a.Valid() && from <= a.wds <= c.Length && c != a.x && borrow0 <= 1
    requires Value(c[..from]) - borrow0 * Weight(from) == Value(a.x[..from]) - bv
    modifies c
    ensures borrow <= 1 && Value(c[..a.wds]) - borrow * Weight(a.wds) == a.V() - bv
  {
    ghost var s := a.x[..];
    borrow := borrow0;
    assert s[..from] == a.x[..from];
    for i := from to a.wds
      invariant borrow <= 1 && a.x[..] == s
      invariant Value(c[..i]) - borrow * Weight(i) == Value(s[..i]) - bv
    {
      ghost var before := c[..i];
      ValueStep(s, i);
      WeightStep(i);
      c[i], borrow := SubLimb(a.x[i], 0, borrow, Value(before), Weight(i));
      assert c[..i + 1][..i] == c[..i] == before;
    }
    assert s[..a.wds] == a.x[..a.wds];
  }

  lemma BorrowStep(v: int, borrow: int, w: int, y: int, l: int, m: int)
    requires y == l - m - borrow
    ensures var d := if y < 0 then 1 else 0; v + (y + d * BASE) * w - d * (BASE * w) == v - borrow * w + l * w - m * w
  {
    var d := if y < 0 then 1 else 0;
    Assoc(d, BASE, w);
    Add2(y, d * BASE, w);
    Sub3(l, m, borrow, w);
  }

  lemma Sub3(a: int, b: int, c: int, w: int)
    ensures (a - b - c) * w == a * w - b * w - c * w
  {
  }

  method Subtract(a: Bigint, b: Bigint, c: array<Limb>)
    requires a.Valid() && b.Valid() && b.V() <= a.V() && b.wds <= a.wds <= c.Length && c != a.x && c != b.x
    modifies c
    ensures Value(c[..a.wds]) == a.V() - b.V()
  {
    var borrow := SubLow(a, b, c);
    borrow := SubHigh(a, b.wds, borrow, c, b.V());
    ValueBound(c[..a.wds]);
    NoCarry(Value(c[..a.wds]), a.V() - b.V(), borrow, Weight(a.wds));
  }

  /** `diff`: the absolute difference, with the sign set if `a` is smaller. */
  method Diff(a0: Bigint, b0: Bigint) returns (c: Bigint)
    requires a0.Valid() && b0.Valid()
    ensures fresh(c) && fresh(c.x) && c.Valid()
    ensures c.sign == (if a0.V() < b0.V() then 1 else 0)
    ensures c.V() == if a0.V() < b0.V() then b0.V() - a0.V() else a0.V() - b0.V()
  {
    var a, b := a0, b0;
    var i := Cmp(a, b);
    if i == 0 {
      c := new Bigint(0);
      c.wds := 1;
      c.x[0] := 0;
      assert c.x[..1] == [0];
      ZeroValue();
      return;
    }
    if i < 0 {
      a, b := b, a;
    }
    c := new Bigint(a.k);
    c.sign := if i < 0 then 1 else 0;
    LongerMore(a, b);
    Subtract(a, b, c.x);
    TrimTo(c, a.wds);
  }

  lemma ZeroValue()
    ensures Value([0]) == 0
  {
    assert [0][..0] == [];
  }

  lemma LongerMore(a: Bigint, b: Bigint)
    requires a.Valid() && b.Valid() && b.V() < a.V()
    ensures b.wds <= a.wds
  {
    if b.wds > a.wds {
      ShorterLess(a.x[..a.wds], b.x[..b.wds]);
    }
  }

  // ----- leading zeros -----

  lemma SmallPowers()
    ensures Pow(2, 1) == 2 && Pow(2, 2) == 4 && Pow(2, 4) == 0x10 && Pow(2, 8) == 0x100 && Pow(2, 16) == 0x1_0000
    ensures Pow(2, 27) == 0x800_0000 && Pow(2, 28) == 0x1000_0000 && Pow(2, 31) == 0x8000_0000
  {
    assert Pow(2, 4) == 0x10;
    assert Pow(2, 8) == 0x100;
    PowAdd(2, 8, 8);
    assert Pow(2, 27 - 16) == 0x800;
    PowAdd(2, 16, 11);
    assert Pow(2, 31) == 16 * Pow(2, 27);
  }

  /** Shifting left by `n` more bits. */
  lemma ShiftMore(x: nat, k: nat, n: nat)
    ensures x * Pow(2, k + n) == (x * Pow(2, k)) * Pow(2, n)
  {
    PowAdd(2, k, n);
    Assoc(x, Pow(2, k), Pow(2, n));
  }

  /** `hi0bits`. */
  method Hi0Bits(x: Limb) returns (k: nat)
    ensures x == 0 ==> k == 32
    ensures x > 0 ==> k < 32 && 0x8000_0000 <= x * Pow(2, k) < BASE
  {
    SmallPowers();
    var y := x;
    k := 0;
    if y < 0x1_0000 {
      ShiftMore(x, k, 16);
      k, y := 16, y * 0x1_0000;
    }
    if y < 0x100_0000 {
      ShiftMore(x, k, 8);
      k, y := k + 8, y * 0x100;
    }
    if y < 0x1000_0000 {
      ShiftMore(x, k, 4);
      k, y := k + 4, y * 0x10;
    }
    if y < 0x4000_0000 {
      ShiftMore(x, k, 2);
      k, y := k + 2, y * 4;
    }
    if y < 0x8000_0000 {
      ShiftMore(x, k, 1);
      k, y := k + 1, y * 2;
      if y < 0x8000_0000 {
        return 32;
      }
    }
  }

  // ----- quorem -----

  /** Subtracts `q * S` from the limbs of `b`, in place. */
  method SubMul(b: Bigint, S: Bigint, q: Limb)
    requires b.Valid() && S.Valid() && b.x != S.x && b.wds == S.wds && q * S.V() <= b.V()
    modifies b.x
    ensures Value(b.x[..b.wds]) == old(b.V()) - q * S.V()
  {
    hide Weight, Pow;
    ghost var s, t, n := b.x[..], S.x[..], b.wds;
    var borrow, carry, i := 0, 0, 0;
    assert s[..0] == [] && t[..0] == [] && b.x[..0] == [];
    while i < S.wds
      invariant 0 <= i <= n && 0 <= borrow <= 1 && 0 <= carry < BASE && S.x[..] == t
      invariant forall j :: i <= j < b.x.Length ==> b.x[j] == s[j]
      invariant Value(b.x[..i]) == Value(s[..i]) - q * Value(t[..i]) + (carry + borrow) * Weight(i)
    {
      ghost var before := b.x[..i];
      var ys := S.x[i] * q + carry;
      LimbTimes(S.x[i], q, carry);
      var y := b.x[i] - ys % BASE - borrow;
      SubMulStep(Value(before), Value(s[..i]), Value(t[..i]), q, carry, borrow, Weight(i), s[i], t[i], ys, y);
      ValueStep(s, i);
      ValueStep(t, i);
      WeightStep(i);
      carry := ys / BASE;
      borrow := if y < 0 then 1 else 0;
      b.x[i] := y + borrow * BASE;
      assert b.x[..i + 1][..i] == b.x[..i] == before;
      i := i + 1;
    }
    assert s[..n] == old(b.x[..b.wds]) && t[..n] == S.x[..S.wds];
    ValueBound(b.x[..n]);
    NoCarry(Value(b.x[..n]), old(b.V()) - q * S.V(), carry + borrow, Weight(n));
  }

  lemma NoCarry(v: nat, d: int, c: nat, w: nat)
    requires v < w && d >= 0 && v == d + c * w
    ensures v == d
  {
    if c > 0 {
      Monotone(1, c, w);
    }
  }

  lemma SubMulStep(v: int, vs: int, vt: int, q: int, carry: int, borrow: int, w: int, sl: int, tl: int, ys: nat, y: int)
    requires v == vs - q * vt + (carry + borrow) * w && ys == tl * q + carry && y == sl - ys % BASE - borrow
    ensures var d := if y < 0 then 1 else 0;
      v + (y + d * BASE) * w == (vs + sl * w) - q * (vt + tl * w) + (ys / BASE + d) * (BASE * w)
  {
    var d := if y < 0 then 1 else 0;
    var lo, hi := ys % BASE, ys / BASE;
    Assoc(d, BASE, w);
    Add2(y, d * BASE, w);
    Sub3(sl, lo, borrow, w);
    Add2(carry, borrow, w);
    Add2(hi, d, BASE * w);
    Assoc(hi, BASE, w);
    assert ys == hi * BASE + lo;
    Add2(hi * BASE, lo, w);
    var p := tl * q;
    Add2(p, carry, w);
    assert q * (vt + tl * w) == q * vt + p * w by {
      Assoc(q, tl, w);
    }
  }

  /** The quotient of the top limbs is the quotient, or one less. */
  lemma Estimate(bv: nat, sv: nat, bt: nat, st: nat, w: nat, q: nat)
    requires w > 0 && st >= 10 && q == bt / (st + 1)
    requires bt * w <= bv < (bt + 1) * w && st * w <= sv < (st + 1) * w && bv < 10 * sv
    ensures q * sv <= bv < (q + 2) * sv && q <= 9
  {
    var r := bt % (st + 1);
    assert bt == q * (st + 1) + r && 0 <= r < st + 1;
    assert q * sv <= bv by {
      Monotone2(q, sv, (st + 1) * w);
      Assoc(q, st + 1, w);
      Monotone(q * (st + 1), bt, w);
    }
    assert q <= 9 by {
      if q >= 10 {
        Monotone(10, q, sv);
      }
    }
    assert bt + 1 <= (q + 1) * (st + 1) by {
      Add2(q, 1, st + 1);
    }
    Monotone(bt + 1, (q + 1) * (st + 1), w);
    Assoc(q + 1, st + 1, w);
    Add2(st, 1, w);
    assert (q + 1) * (st * w + w) == (q + 1) * (st * w) + (q + 1) * w;
    Monotone2(q + 1, st * w, sv);
    Monotone(q + 1, st, w);
    Add2(q + 1, 1, sv);
  }

  lemma Monotone2(a: nat, b: int, c: int)
    requires b <= c
    ensures a * b <= a * c
  {
    assert a * (c - b) >= 0;
    assert a * (c - b) == a * c - a * b;
  }

  /** The divisor has exactly four leading zero bits. */
  ghost predicate Normalised(S: Bigint)
    reads S, S.x
  {
    S.Valid() && 0x800_0000 <= S.x[S.wds - 1] < 0x1000_0000
  }

  /** As `quorem` sets the number of limbs after a subtraction: one too few if there was only one and it is zero. */
  method TrimRemainder(b: Bigint, n0: nat)
    requires b.x.Length == Pow(2, b.k) && b.wds == n0 + 1 <= b.x.Length
    modifies b`wds
    ensures Loose(b) && b.V() == old(b.V()) && b.wds <= n0 + 1
  {
    var n := n0;
    if b.x[n] == 0 {
      assert b.x[..n + 1][..n] == b.x[..n];
      var bxe := n - 1;
      while bxe > 0 && b.x[bxe] == 0
        invariant bxe == n - 1 && (n == 0 ==> n0 == 0)
        invariant 0 <= n <= n0 && Value(b.x[..n]) == old(b.V())
      {
        assert b.x[..n][..n - 1] == b.x[..n - 1];
        bxe := bxe - 1;
        n := n - 1;
      }
      b.wds := n;
    }
  }

  method TopQuotient(bt: Limb, st: Limb) returns (q: Limb)
    ensures q == bt / (st + 1)
  {
    q := bt / (st + 1);
  }

  /** The estimate: the quotient of the top limbs, which is never too large. */
  method EstimateQuotient(b: Bigint, S: Bigint) returns (q: Limb)
    requires b.Valid() && Normalised(S) && b.V() < 10 * S.V() && b.wds == S.wds
    ensures q <= 9 && q * S.V() <= b.V() < (q + 2) * S.V()
  {
    var n := S.wds - 1;
    q := TopQuotient(b.x[n], S.x[n]);
    TopEstimate(b, S, b.x[n], S.x[n], q);
  }

  /** The first subtraction, of the estimate. */
  method EstimateAndSubtract(b: Bigint, S: Bigint) returns (q: Limb)
    requires b.Valid() && Normalised(S) && b != S && b.x != S.x && b.V() < 10 * S.V() && b.wds == S.wds
    modifies b, b.x
    ensures Loose(b) && q <= 9 && b.wds <= S.wds
    ensures old(b.V()) == q * S.V() + b.V() && b.V() < 2 * S.V()
  {
    q := EstimateQuotient(b, S);
    ghost var bv, sv := b.V(), S.V();
    if q > 0 {
      SubMul(b, S, q);
      TrimRemainder(b, S.wds - 1);
    }
    AfterEstimate(bv, sv, q, b.V());
  }

  lemma AfterEstimate(bv: nat, sv: nat, q: nat, r: nat)
    requires q * sv <= bv < (q + 2) * sv && r == (if q > 0 then bv - q * sv else bv)
    ensures bv == q * sv + r && r < 2 * sv
  {
    Add2(q, 2, sv);
  }

  /** The second one, if the estimate was one too small. */
  method Correct(b: Bigint, S: Bigint, q0: Limb) returns (q: Limb)
    requires Loose(b) && Normalised(S) && b != S && b.x != S.x && b.wds <= S.wds && b.V() < 2 * S.V() && q0 <= 9
    modifies b, b.x
    ensures Loose(b) && b.V() < S.V()
    ensures old(b.V()) == (q - q0) * S.V() + b.V() && q0 <= q <= q0 + 1
  {
    q := q0;
    RemainderComparable(b, S);
    var c := Cmp(b, S);
    if c >= 0 {
      q := q + 1;
      SameLength(b, S, S.wds - 1);
      SubMul(b, S, 1);
      TrimRemainder(b, S.wds - 1);
    }
  }

  /** `quorem`: the quotient, with the remainder left in `b`. */
  method QuoRem(b: Bigint, S: Bigint) returns (q: Limb)
    requires b.Valid() && Normalised(S) && b != S && b.x != S.x && b.V() < 10 * S.V()
    modifies b, b.x
    ensures Loose(b) && q <= 9
    ensures old(b.V()) == q * S.V() + b.V() && b.V() < S.V()
  {
    NotLonger(b, S);
    if b.wds < S.wds {
      ShorterLess(b.x[..b.wds], S.x[..S.wds]);
      return 0;
    }
    ghost var bv, sv := b.V(), S.V();
    var q0 := EstimateAndSubtract(b, S);
    q := Correct(b, S, q0);
    QuotientSum(bv, sv, q0, q, b.V());
  }

  lemma QuotientSum(bv: nat, sv: nat, q0: nat, q: nat, r: nat)
    requires bv == q0 * sv + ((q - q0) * sv + r) && bv < 10 * sv
    ensures bv == q * sv + r && q <= 9
  {
    Add2(q0, q - q0, sv);
    if q >= 10 {
      Monotone(10, q, sv);
    }
  }

  lemma RemainderComparable(b: Bigint, S: Bigint)
    requires Loose(b) && Normalised(S)
    ensures S.V() > 0 && S.wds > 0
  {
    ValueTop(S.x[..S.wds]);
  }

  /** What is not less than the divisor has as many limbs. */
  lemma SameLength(b: Bigint, S: Bigint, n: nat)
    requires Loose(b) && Normalised(S) && S.wds == n + 1 && b.wds <= n + 1 && b.V() >= S.V()
    ensures b.wds == n + 1 && b.Valid()
  {
    ValueTop(S.x[..S.wds]);
    assert b.x[..0] == [];
    if 0 < b.wds < n + 1 {
      ShorterLess(b.x[..b.wds], S.x[..S.wds]);
    }
  }

  /** The top limb of a number, and what is below it. */
  lemma TopLimb(s: seq<Limb>)
    requires s != []
    ensures var n := |s| - 1; s[n] * Weight(n) <= Value(s) < (s[n] + 1) * Weight(n)
  {
    var n := |s| - 1;
    ValueBound(s[..n]);
    Add2(s[n], 1, Weight(n));
  }

  lemma NotLonger(b: Bigint, S: Bigint)
    requires b.Valid() && Normalised(S) && b.V() < 10 * S.V()
    ensures b.wds <= S.wds
  {
    var n := S.wds - 1;
    TopLimb(S.x[..S.wds]);
    Monotone(S.x[n] + 1, 0x1000_0000, Weight(n));
    WeightStep(n);
    if b.wds > S.wds {
      ValueTop(b.x[..b.wds]);
      WeightMono(S.wds, b.wds - 1);
    }
  }

  lemma TopEstimate(b: Bigint, S: Bigint, bt: nat, st: nat, q: nat)
    requires b.Valid() && Normalised(S) && b.wds == S.wds && b.V() < 10 * S.V()
    requires bt == b.x[b.wds - 1] && st == S.x[S.wds - 1] && q == bt / (st + 1)
    ensures q * S.V() <= b.V() < (q + 2) * S.V() && q <= 9
  {
    var n := S.wds - 1;
    TopLimb(S.x[..S.wds]);
    TopLimb(b.x[..b.wds]);
    Estimate(b.V(), S.V(), bt, st, Weight(n), q);
  }

  // ----- dshift -----

  /** `dshift`: how far to shift so that the divisor, shifted by `p2` as well, has four leading zero bits. */
  method DShift(b: Bigint, p2: int) returns (rv: nat)
    requires b.Valid() && b.V() > 0
    ensures rv < 32
    ensures TopBits(b.V(), (if p2 > 0 then p2 else 0) + rv)
  {
    TopPositive(b);
    var h := Hi0Bits(b.x[b.wds - 1]);
    var r := h as int - 4;
    if p2 > 0 {
      r := r - p2;
    }
    rv := r % 32;
    ShiftedBits(b, h, (if p2 > 0 then p2 else 0) + rv);
  }

  /** A number, shifted by `n`, fills all but four bits of its top limb. */
  ghost predicate TopBits(v: nat, n: nat) {
    exists m: nat :: Pow(2, 32 * m + 27) <= v * Pow(2, n) < Pow(2, 32 * m + 28)
  }

  lemma ShiftedBits(b: Bigint, h: nat, n: nat)
    requires b.Valid() && h < 32 && 0x8000_0000 <= b.x[b.wds - 1] * Pow(2, h) < BASE && (n - h + 4) % 32 == 0
    ensures TopBits(b.V(), n)
  {
    TopLimb(b.x[..b.wds]);
    BitLength(b.V(), b.x[b.wds - 1], h, b.wds - 1);
    Aligned(b.V(), b.wds - 1, h, n);
  }

  lemma Aligned(v: nat, w: nat, h: nat, n: nat)
    requires h < 32 && Pow(2, 32 * w + 31 - h) <= v < Pow(2, 32 * w + 32 - h) && (n - h + 4) % 32 == 0
    ensures TopBits(v, n)
  {
    BitsFit(v, 32 * w + 31 - h, n, (32 * w + 31 - h + n - 27) / 32);
  }

  lemma BitsFit(v: nat, e: nat, n: nat, m: nat)
    requires Pow(2, e) <= v < Pow(2, e + 1) && e + n == 32 * m + 27
    ensures TopBits(v, n)
  {
    PowAdd(2, e, n);
    PowAdd(2, e + 1, n);
    Monotone(Pow(2, e), v, Pow(2, n));
    LessTimes(v, Pow(2, e + 1), Pow(2, n));
    assert Pow(2, 32 * m + 27) <= v * Pow(2, n) < Pow(2, 32 * m + 28);
  }

  lemma LessTimes(a: nat, b: nat, w: nat)
    requires a < b && w > 0
    ensures a * w < b * w
  {
    Monotone(a + 1, b, w);
    Add2(a, 1, w);
  }

  lemma BitLength(v: nat, top: nat, h: nat, w: nat)
    requires h < 32 && 0x8000_0000 <= top * Pow(2, h) < BASE && top * Weight(w) <= v < (top + 1) * Weight(w)
    ensures Pow(2, 32 * w + 31 - h) <= v < Pow(2, 32 * w + 32 - h)
  {
    var p, q := Pow(2, h), Pow(2, 31 - h);
    PowAdd(2, h, 31 - h);
    SmallPowers();
    assert q <= top by {
      if top < q {
        LessTimes(top, q, p);
        Commute(p, q);
      }
    }
    assert Pow(2, 32 - h) == 2 * q;
    assert top + 1 <= 2 * q by {
      if top >= 2 * q {
        Monotone(2 * q, top, p);
        Assoc(2, q, p);
        Commute(p, q);
      }
    }
    Pow2Weight(w);
    PowAdd(2, 32 * w, 31 - h);
    PowAdd(2, 32 * w, 32 - h);
    Monotone(q, top, Weight(w));
    Monotone(top + 1, 2 * q, Weight(w));
    Commute(Weight(w), q);
    Commute(Weight(w), 2 * q);
  }

  /** A number whose top limb is filled like that is a normalised divisor. */
  lemma NormalTop(S: Bigint, m: nat)
    requires S.Valid() && Pow(2, 32 * m + 27) <= S.V() < Pow(2, 32 * m + 28)
    ensures Normalised(S)
  {
    var n := S.wds - 1;
    TopLimb(S.x[..S.wds]);
    Pow2Weight(m);
    PowAdd(2, 32 * m, 27);
    PowAdd(2, 32 * m, 28);
    SmallPowers();
    TopPositive(S);
    SameWeight(S.V(), S.x[n], n, m);
    if S.x[n] < 0x800_0000 {
      Monotone(S.x[n] + 1, 0x800_0000, Weight(n));
    } else if S.x[n] >= 0x1000_0000 {
      Monotone(0x1000_0000, S.x[n], Weight(n));
    }
  }

  lemma SameWeight(v: nat, top: nat, n: nat, m: nat)
    requires 0 < top < BASE && top * Weight(n) <= v < (top + 1) * Weight(n)
    requires Weight(m) * 0x800_0000 <= v < Weight(m) * 0x1000_0000
    ensures n == m
  {
    WeightStep(n);
    WeightStep(m);
    Monotone(1, top, Weight(n));
    Monotone(top + 1, BASE, Weight(n));
    if n < m {
      WeightMono(n + 1, m);
    } else if m < n {
      WeightMono(m + 1, n);
    }
  }
}
