/**
 Multiple-precision integers (dtoa.c): arrays of limbs, changed in place by carry and borrow loops.
 The free lists of blocks are not part of this model: a block that was freed is not used again.
 */
module Bigints {
  import opened Powers
  import opened BigLimbs

  class Bigint {
    const k: nat
    const x: array<Limb>
    var wds: nat
    var sign: int

    ghost predicate Valid()
      reads this, x
    {
      && 1 <= wds <= x.Length == Pow(2, k)
      && (wds > 1 ==> x[wds - 1] != 0)
    }

    ghost function V(): nat
      requires wds <= x.Length
      reads this, x
    {
      Value(x[..wds])
    }

    /** `Balloc`. */
    constructor (k: nat)
      ensures this.k == k && x.Length == Pow(2, k) && wds == 0 && sign == 0 && fresh(x)
    {
      this.k := k;
      var n := Power(2, k);
      x := new Limb[n](_ => 0);
      wds, sign := 0, 0;
    }
  }

  method Power(b: nat, e: nat) returns (r: nat)
    ensures r == Pow(b, e)
  {
    r := 1;
    for i := 0 to e
      invariant r == Pow(b, i)
    {
      r := b * r;
    }
  }

  /** `i2b`. */
  method I2B(i: Limb) returns (b: Bigint)
    ensures fresh(b) && fresh(b.x) && b.Valid() && b.V() == i && b.wds == 1
  {
    b := new Bigint(1);
    b.x[0] := i;
    b.wds := 1;
    assert b.x[..1] == [i];
    assert Value([i]) == i by {
      assert [i][..0] == [];
    }
  }

  // ----- multadd -----

  /** Multiplies the limbs by `m` and adds `a`; what does not fit is the carry. */
  method MultAddLoop(b: Bigint, m: Limb, a: Limb) returns (carry: nat)
    requires b.Valid()
    modifies b.x
    ensures Value(b.x[..b.wds]) + carry * Weight(b.wds) == old(b.V()) * m + a
    ensures carry < BASE && (old(b.V()) > 0 && m > 0 && b.wds > 1 ==> carry > 0 || b.x[b.wds - 1] > 0)
  {
    carry := a;
    var i := 0;
    ghost var old_ := b.x[..];
    while i < b.wds
      invariant 0 <= i <= b.wds && 0 <= carry < BASE
      invariant forall j :: i <= j < b.x.Length ==> b.x[j] == old_[j]
      invariant Value(b.x[..i]) + carry * Weight(i) == Value(old_[..i]) * m + a
      invariant i == b.wds && b.wds > 1 && m > 0 ==> carry > 0 || b.x[b.wds - 1] > 0
    {
      ghost var before, limb := b.x[..i], b.x[i];
      var y := b.x[i] * m + carry;
      LimbTimes(b.x[i], m, carry);
      b.x[i] := y % BASE;
      MultAddStep(old_, b.x[..], before, i, m, a, carry, y);
      if b.wds > 1 && m > 0 && i + 1 == b.wds {
        PositiveProduct(limb, m);
      }
      carry := y / BASE;
      i := i + 1;
    }
    assert b.x[..b.wds] == b.x[..][..b.wds] && old_[..b.wds] == old(b.x[..b.wds]);
  }

  lemma PositiveProduct(a: nat, m: nat)
    requires a > 0 && m > 0
    ensures a * m > 0
  {
  }

  lemma LimbTimes(l: Limb, m: Limb, carry: nat)
    requires carry < BASE
    ensures 0 <= l * m + carry < BASE * BASE && 0 <= (l * m + carry) / BASE < BASE
  {
    LimbProduct(l, m);
    DivBelow(l * m, carry);
  }

  lemma LimbProduct(l: Limb, m: Limb)
    ensures 0 <= l * m <= 0xFFFF_FFFE_0000_0001
  {
    Monotone(l, BASE - 1, m);
    Monotone(m, BASE - 1, BASE - 1);
    assert (BASE - 1) * m == m * (BASE - 1);
    assert 0 <= l * m by {
      Monotone(0, l, m);
    }
  }

  lemma DivBelow(p: nat, c: nat)
    requires p <= 0xFFFF_FFFE_0000_0001 && c <= 0x1_FFFF_FFFE
    ensures 0 <= p + c < BASE * BASE && 0 <= (p + c) / BASE < BASE
  {
  }

  lemma MultAddStep(s: seq<Limb>, t: seq<Limb>, before: seq<Limb>, i: nat, m: nat, a: nat, carry: nat, y: nat)
    requires i < |s| == |t| && t[..i] == before && y == s[i] * m + carry && t[i] == y % BASE
    requires Value(before) + carry * Weight(i) == Value(s[..i]) * m + a
    ensures Value(t[..i + 1]) + (y / BASE) * Weight(i + 1) == Value(s[..i + 1]) * m + a
  {
    ValueStep(s, i);
    ValueStep(t, i);
    WeightStep(i);
    CarryStep(Value(before), carry, Weight(i), y, Value(s[..i]) * m + a, s[i] * m);
    Regroup(Value(s[..i]), s[i], Weight(i), m);
  }

  lemma Regroup(v: int, l: int, w: int, m: int)
    ensures (v + l * w) * m == v * m + (l * m) * w
  {
    assert (l * w) * m == l * (w * m) == l * (m * w) == (l * m) * w;
  }

  /** `multadd`: in place, or in a larger block if the carry has no room. */
  method MultAdd(b: Bigint, m: Limb, a: Limb) returns (r: Bigint)
    requires b.Valid() && m > 0
    modifies b, b.x
    ensures r.Valid() && r.V() == old(b.V()) * m + a
    ensures r == b || (fresh(r) && fresh(r.x))
    ensures r.sign == old(b.sign)
  {
    var wds := b.wds;
    r := b;
    var carry := MultAddLoop(b, m, a);
    if carry > 0 {
      ghost var low := b.x[..wds];
      if wds >= b.x.Length {
        r := Grow(b);
      }
      r.x[wds] := carry;
      r.wds := wds + 1;
      assert r.x[..wds + 1][..wds] == low;
      assert Value(r.x[..wds + 1]) == Value(low) + carry * Weight(wds);
    } else {
      assert b.V() == old(b.V()) * m + a;
      if wds > 1 {
        ghost var top := old(b.x[..wds]);
        ValueTop(top);
      }
    }
  }

  /** A copy in a block of twice the size (`Balloc` and `Bcopy`). */
  method Grow(b: Bigint) returns (r: Bigint)
    requires b.x.Length == Pow(2, b.k) && b.wds <= b.x.Length
    ensures fresh(r) && fresh(r.x) && r.k == b.k + 1 && r.x.Length == Pow(2, r.k) && r.x.Length > b.x.Length
    ensures r.wds == b.wds && r.sign == b.sign && r.x[..r.wds] == b.x[..b.wds]
  {
    r := new Bigint(b.k + 1);
    for i := 0 to b.wds
      invariant r.x[..i] == b.x[..i]
    {
      r.x[i] := b.x[i];
    }
    r.wds, r.sign := b.wds, b.sign;
  }

  // ----- mult -----

  /** One row of the product: adds `a * y`, shifted by `j` limbs, to what is in the first `wc` limbs of `c`. */
  method MultRow(a: Bigint, c: array<Limb>, wc: nat, j: nat, y: Limb)
    requires a.Valid() && c != a.x && j + a.wds < wc <= c.Length
    requires forall i :: j + a.wds <= i < wc ==> c[i] == 0
    modifies c
    ensures Value(c[..wc]) == old(Value(c[..wc])) + (a.V() * y) * Weight(j)
    ensures forall i :: j + a.wds < i < wc ==> c[i] == 0
  {
    ghost var start, limbs := c[..wc], a.x[..];
    var carry, i := 0, 0;
    assert limbs[..0] == [];
    while i < a.wds
      invariant 0 <= i <= a.wds && 0 <= carry < BASE && a.x[..] == limbs
      invariant forall q :: j + a.wds <= q < wc ==> c[q] == 0
      invariant Value(c[..wc]) + carry * Weight(j + i) == Value(start) + (Value(limbs[..i]) * y) * Weight(j)
    {
      ghost var before := c[..wc];
      var z := a.x[i] * y + c[j + i] + carry;
      LimbProduct(a.x[i], y);
      DivBelow(a.x[i] * y, c[j + i] + carry);
      var lo: Limb := z % BASE;
      c[j + i] := lo;
      assert c[..wc] == before[j + i := lo];
      RowStep(limbs, before, i, j, y, carry, z, lo, Value(start));
      carry := z / BASE;
      i := i + 1;
    }
    ghost var before := c[..wc];
    var last: Limb := carry;
    c[j + i] := last;
    assert c[..wc] == before[j + i := last];
    ValueUpdate(before, j + i, last);
    assert limbs[..a.wds] == a.x[..a.wds];
  }

  lemma RowStep(s: seq<Limb>, before: seq<Limb>, i: nat, j: nat, y: nat, carry: nat, z: nat, lo: Limb, start: nat)
    requires i < |s| && j + i < |before| && z == s[i] * y + before[j + i] + carry && lo == z % BASE
    requires Value(before) + carry * Weight(j + i) == start + (Value(s[..i]) * y) * Weight(j)
    ensures Value(before[j + i := lo]) + (z / BASE) * Weight(j + i + 1) == start + (Value(s[..i + 1]) * y) * Weight(j)
  {
    ValueUpdate(before, j + i, lo);
    ValueStep(s, i);
    WeightStep(j + i);
    PowAdd(BASE, j, i);
    RowSum(Value(before), before[j + i], lo, Weight(j + i), carry, z, start, Value(s[..i]), s[i], y, Weight(i),
      Weight(j));
  }

  lemma RowSum(vb: int, l: int, lo: int, w: nat, carry: int, z: nat, start: int, vs: int, si: int, y: int, wi: int,
      wj: int)
    requires w == wj * wi && z == si * y + l + carry && lo == z % BASE && vb + carry * w == start + (vs * y) * wj
    ensures vb + (lo - l) * w + (z / BASE) * (BASE * w) == start + ((vs + si * wi) * y) * wj
  {
    var p := si * y;
    CarryMore(vb, l, w, carry, z, p);
    RowAlgebra(vs, si, y, wi, wj);
  }

  lemma CarryMore(vb: int, l: int, w: nat, carry: int, z: nat, p: int)
    requires z == p + l + carry
    ensures vb + (z % BASE - l) * w + (z / BASE) * (BASE * w) == vb + carry * w + p * w
  {
    var lo, hi := z % BASE, z / BASE;
    Distribute(lo, l, w);
    assert z == hi * BASE + lo;
    Assoc(hi, BASE, w);
    Add3(p, l, carry, w);
    Add2(hi * BASE, lo, w);
  }

  lemma Assoc(a: int, b: int, c: int)
    ensures a * (b * c) == (a * b) * c
  {
  }

  lemma Add2(a: int, b: int, w: int)
    ensures (a + b) * w == a * w + b * w
  {
  }

  lemma Add3(a: int, b: int, c: int, w: int)
    ensures (a + b + c) * w == a * w + b * w + c * w
  {
  }

  lemma RowAlgebra(v: int, l: int, y: int, wi: int, wj: int)
    ensures ((v + l * wi) * y) * wj == (v * y) * wj + (l * y) * (wj * wi)
  {
    var p := l * wi;
    assert (v + p) * y == v * y + p * y;
    assert (v * y + p * y) * wj == (v * y) * wj + (p * y) * wj;
    assert p * y == (l * y) * wi by {
      assert (l * wi) * y == l * (wi * y) == l * (y * wi) == (l * y) * wi;
    }
    assert ((l * y) * wi) * wj == (l * y) * (wi * wj) == (l * y) * (wj * wi);
  }

  /** `mult`. */
  method Mult(a0: Bigint, b0: Bigint) returns (c: Bigint)
    requires a0.Valid() && b0.Valid() && a0.V() > 0 && b0.V() > 0
    ensures fresh(c) && fresh(c.x) && c.Valid() && c.V() == a0.V() * b0.V()
  {
    var a, b := a0, b0;
    if a.wds < b.wds {
      a, b := b, a;
    }
    var k, wc := a.k, a.wds + b.wds;
    if wc > a.x.Length {
      k := k + 1;
    }
    c := new Bigint(k);
    MultRows(a, b, c.x, wc);
    PositiveProduct(a.V(), b.V());
    Commute(a.V(), b.V());
    TrimTo(c, wc);
  }

  method MultRows(a: Bigint, b: Bigint, c: array<Limb>, wc: nat)
    requires a.Valid() && b.Valid() && c != a.x && c != b.x && wc == a.wds + b.wds <= c.Length
    modifies c
    ensures Value(c[..wc]) == a.V() * b.V()
  {
    ZeroWords(c, wc);
    ghost var limbs, v := b.x[..], a.V();
    assert limbs[..0] == [];
    for j := 0 to b.wds
      invariant b.x[..] == limbs && a.Valid() && a.V() == v
      invariant forall q :: j + a.wds <= q < wc ==> c[q] == 0
      invariant Value(c[..wc]) == v * Value(limbs[..j])
    {
      ValueStep(limbs, j);
      ProductStep(v, Value(limbs[..j]), limbs[j], Weight(j));
      if b.x[j] != 0 {
        MultRow(a, c, wc, j, b.x[j]);
      }
    }
    assert limbs[..b.wds] == b.x[..b.wds];
  }

  method ZeroWords(x: array<Limb>, n: nat)
    requires n <= x.Length
    modifies x
    ensures Value(x[..n]) == 0 && forall i :: 0 <= i < n ==> x[i] == 0
  {
    for i := 0 to n
      invariant forall q :: 0 <= q < i ==> x[q] == 0
    {
      x[i] := 0;
    }
    ValueZeros(x[..n], 0);
    assert x[..n][..0] == [];
  }

  lemma Commute(a: nat, b: nat)
    ensures a * b == b * a
  {
  }

  lemma ProductStep(a: int, v: int, l: int, w: int)
    ensures a * (v + l * w) == a * v + (a * l) * w
  {
    assert a * (l * w) == (a * l) * w;
  }

  /** Sets the number of limbs, leaving out leading zeros. */
  method TrimTo(c: Bigint, wc: nat)
    requires c.x.Length == Pow(2, c.k) && wc <= c.x.Length && Value(c.x[..wc]) > 0
    modifies c`wds
    ensures c.Valid() && c.V() == Value(c.x[..wc])
  {
    var w := wc;
    while w > 0 && c.x[w - 1] == 0
      invariant 0 <= w <= wc && Value(c.x[..w]) == Value(c.x[..wc])
    {
      assert c.x[..w][..w - 1] == c.x[..w - 1];
      w := w - 1;
    }
    assert c.x[..0] == [];
    c.wds := w;
  }

  // ----- lshift -----

  lemma TopPositive(b: Bigint)
    requires b.Valid() && b.V() > 0
    ensures b.x[b.wds - 1] > 0
  {
    var top := b.x[b.wds - 1];
    assert [top][..0] == [] && Value([top]) == top;
    assert b.wds == 1 ==> b.x[..1] == [top];
  }

  lemma {:induction false} Pow2Weight(n: nat)
    ensures Pow(2, 32 * n) == Weight(n)
  {
    if n > 0 {
      Pow2Weight(n - 1);
      PowAdd(2, 32 * (n - 1), 32);
      Pow2Word();
      Commute(Pow(2, 32 * (n - 1)), BASE);
    }
  }

  lemma Pow2Word()
    ensures Pow(2, 32) == BASE
  {
    assert Pow(2, 8) == 0x100;
    PowAdd(2, 8, 8);
    PowAdd(2, 16, 16);
  }

  /** A shift within a word splits it in two. */
  lemma ShiftSplit(l: Limb, k: nat)
    requires 0 < k < 32
    ensures var p, q := Pow(2, k), Pow(2, 32 - k);
      p * q == BASE && (l * p) % BASE == (l % q) * p && (l * p) / BASE == l / q && l / q < p
  {
    PowAdd(2, k, 32 - k);
    Pow2Word();
    SplitBy(l, Pow(2, k), Pow(2, 32 - k));
  }

  lemma SplitBy(l: Limb, p: nat, q: nat)
    requires p > 0 && q > 0 && p * q == BASE
    ensures (l * p) % BASE == (l % q) * p && (l * p) / BASE == l / q && l / q < p
  {
    var lo, hi := l % q, l / q;
    assert l == hi * q + lo;
    Add2(hi * q, lo, p);
    Assoc(hi, q, p);
    Commute(p, q);
    LowBound(lo, p, q);
    DivMod(l * p, BASE, hi, lo * p);
    if hi >= p {
      Monotone(p, hi, q);
    }
  }

  lemma LowBound(lo: nat, p: nat, q: nat)
    requires lo < q && p > 0
    ensures 0 <= lo * p && lo * p + p <= p * q
  {
    Monotone(lo + 1, q, p);
    Add2(lo, 1, p);
    Commute(p, q);
  }

  lemma DivMod(x: nat, d: nat, q: nat, r: nat)
    requires x == q * d + r && r < d
    ensures x / d == q && x % d == r
  {
    var q', r' := x / d, x % d;
    assert x == q' * d + r' && 0 <= r' < d;
    if q' < q {
      Monotone(q' + 1, q, d);
    } else if q' > q {
      Monotone(q + 1, q', d);
    }
  }

  /** The words of `b`, shifted by `k` bits and `n` words, go to `x1`; what does not fit is left in `z`. */
  method ShiftLoop(b: Bigint, x1: array<Limb>, n: nat, k: nat) returns (z: Limb)
    requires b.Valid() && x1 != b.x && 0 < k < 32 && n + b.wds < x1.Length && Value(x1[..n]) == 0
    modifies x1
    ensures Value(x1[..n + b.wds]) + z * Weight(n + b.wds) == (b.V() * Pow(2, k)) * Weight(n)
    ensures b.x[b.wds - 1] > 0 ==> z > 0 || x1[n + b.wds - 1] > 0
  {
    hide Weight, Pow;
    ghost var limbs := b.x[..];
    z := 0;
    ghost var p := Pow(2, k);
    assert limbs[..0] == [];
    for i := 0 to b.wds
      invariant z < p && b.x[..] == limbs
      invariant Value(x1[..n + i]) + z * Weight(n + i) == (Value(limbs[..i]) * p) * Weight(n)
      invariant i > 0 && limbs[i - 1] > 0 ==> z > 0 || x1[n + i - 1] > 0
    {
      ghost var before := x1[..n + i];
      var kept, lost := ShiftLimb(b.x[i], k);
      KeptBound(b.x[i], k, z);
      x1[n + i] := kept + z;
      assert x1[..n + i] == before;
      assert x1[..n + i + 1][..n + i] == before;
      ShiftStep(limbs, i, n, k, Value(before), z, kept, lost);
      ShiftPositive(b.x[i], k);
      z := lost;
    }
    assert limbs[..b.wds] == b.x[..b.wds];
  }

  method ShiftWords(b: Bigint, x1: array<Limb>, n: nat, k: nat)
    requires b.Valid() && x1 != b.x && 0 < k < 32 && n + b.wds < x1.Length && Value(x1[..n]) == 0
    modifies x1
    ensures Value(x1[..n + b.wds + 1]) == (b.V() * Pow(2, k)) * Weight(n)
    ensures b.x[b.wds - 1] > 0 ==> x1[n + b.wds] > 0 || x1[n + b.wds - 1] > 0
  {
    var z := ShiftLoop(b, x1, n, k);
    ghost var before := x1[..n + b.wds];
    x1[n + b.wds] := z;
    assert x1[..n + b.wds] == before && x1[..n + b.wds + 1][..n + b.wds] == before;
  }

  method ShiftLimb(l: Limb, k: nat) returns (kept: Limb, lost: Limb)
    requires 0 < k < 32
    ensures kept == (l * Pow(2, k)) % BASE && lost == (l * Pow(2, k)) / BASE && lost < Pow(2, k)
  {
    ShiftSplit(l, k);
    var p := Power(2, k);
    var q := Power(2, 32 - k);
    kept := (l * p) % BASE;
    lost := l / q;
  }

  lemma ShiftPositive(l: Limb, k: nat)
    ensures l > 0 ==> (l * Pow(2, k)) % BASE > 0 || (l * Pow(2, k)) / BASE > 0
  {
    if l > 0 {
      PositiveProduct(l, Pow(2, k));
      Split(l * Pow(2, k));
    }
  }

  lemma KeptBound(l: Limb, k: nat, z: nat)
    requires 0 < k < 32 && z < Pow(2, k)
    ensures (l * Pow(2, k)) % BASE + z < BASE
  {
    ShiftSplit(l, k);
    LowBound(l % Pow(2, 32 - k), Pow(2, k), Pow(2, 32 - k));
  }

  lemma ShiftStep(s: seq<Limb>, i: nat, n: nat, k: nat, v: nat, z: nat, kept: nat, lost: nat)
    requires i < |s| && 0 < k < 32 && kept == (s[i] * Pow(2, k)) % BASE && lost == (s[i] * Pow(2, k)) / BASE
    requires v + z * Weight(n + i) == (Value(s[..i]) * Pow(2, k)) * Weight(n)
    ensures v + (kept + z) * Weight(n + i) + lost * Weight(n + i + 1) == (Value(s[..i + 1]) * Pow(2, k)) * Weight(n)
  {
    ValueStep(s, i);
    WeightStep(n + i);
    PowAdd(BASE, n, i);
    ShiftSum(v, z, Weight(n + i), kept, lost, Value(s[..i]), s[i], Pow(2, k), Weight(i), Weight(n));
  }

  lemma ShiftSum(v: int, z: int, w: int, kept: int, lost: int, vs: int, si: nat, p: nat, wi: int, wn: int)
    requires w == wn * wi && kept == (si * p) % BASE && lost == (si * p) / BASE && v + z * w == (vs * p) * wn
    ensures v + (kept + z) * w + lost * (BASE * w) == ((vs + si * wi) * p) * wn
  {
    RowAlgebra(vs, si, p, wi, wn);
    var y := si * p;
    assert y == lost * BASE + kept;
    Assoc(lost, BASE, w);
    Add2(lost * BASE, kept, w);
    Add2(kept, z, w);
  }

  /** `lshift`. */
  method LShift(b: Bigint, k0: nat) returns (b1: Bigint)
    requires b.Valid() && b.V() > 0
    ensures fresh(b1) && fresh(b1.x) && b1.Valid() && b1.V() == b.V() * Pow(2, k0)
  {
    var n, k := k0 / 32, k0 % 32;
    var k1, n1 := b.k, n + b.wds + 1;
    var i := b.x.Length;
    while n1 > i
      invariant i == Pow(2, k1)
      decreases n1 - i
    {
      k1, i := k1 + 1, 2 * i;
    }
    b1 := new Bigint(k1);
    var wds := ShiftedWords(b, b1.x, n, k);
    b1.wds := wds;
  }

  /** The words of the shifted number, and how many there are. */
  method ShiftedWords(b: Bigint, x1: array<Limb>, n: nat, k: nat) returns (wds: nat)
    requires b.Valid() && b.V() > 0 && x1 != b.x && k < 32 && n + b.wds < x1.Length
    modifies x1
    ensures 1 <= wds <= x1.Length && x1[wds - 1] != 0 && Value(x1[..wds]) == b.V() * Pow(2, 32 * n + k)
  {
    ZeroWords(x1, n);
    ShiftAll(b, n, k);
    TopPositive(b);
    wds := n + b.wds;
    if k > 0 {
      ShiftWords(b, x1, n, k);
      if x1[wds] != 0 {
        wds := wds + 1;
      } else {
        assert x1[..wds + 1][..wds] == x1[..wds];
      }
    } else {
      CopyWords(b, x1, n);
    }
  }

  lemma ShiftAll(b: Bigint, n: nat, k: nat)
    requires b.Valid()
    ensures (b.V() * Pow(2, k)) * Weight(n) == b.V() * Pow(2, 32 * n + k)
  {
    Pow2Weight(n);
    PowAdd(2, 32 * n, k);
    Assoc(b.V(), Pow(2, k), Weight(n));
    Commute(Pow(2, k), Weight(n));
  }

  method CopyWords(b: Bigint, x1: array<Limb>, n: nat)
    requires b.Valid() && x1 != b.x && n + b.wds < x1.Length && Value(x1[..n]) == 0
    modifies x1
    ensures Value(x1[..n + b.wds]) == (b.V() * Pow(2, 0)) * Weight(n)
    ensures x1[n + b.wds - 1] == b.x[b.wds - 1]
  {
    ghost var limbs := b.x[..];
    assert limbs[..0] == [];
    for i := 0 to b.wds
      invariant b.x[..] == limbs
      invariant Value(x1[..n + i]) == Value(limbs[..i]) * Weight(n)
      invariant i > 0 ==> x1[n + i - 1] == limbs[i - 1]
    {
      ghost var before := x1[..n + i];
      x1[n + i] := b.x[i];
      assert x1[..n + i] == before && x1[..n + i + 1][..n + i] == before;
      ValueStep(limbs, i);
      PowAdd(BASE, n, i);
      RowAlgebra(Value(limbs[..i]), limbs[i], 1, Weight(i), Weight(n));
    }
    assert limbs[..b.wds] == b.x[..b.wds];
  }
}
