/**
 Numbers as sequences of 32-bit limbs, the least significant first (dtoa.c).
 */
module BigLimbs {
  import opened Powers

  const BASE: int := 0x1_0000_0000

  type Limb = l: int | 0 <= l < 0x1_0000_0000

  /** The weight of limb `i`. */
  function Weight(i: nat): (r: nat)
    ensures r > 0
  {
    Pow(BASE, i)
  }

  function Value(s: seq<Limb>): nat {
    if s == [] then 0 else Value(s[..|s| - 1]) + s[|s| - 1] * Weight(|s| - 1)
  }

  lemma WeightStep(i: nat)
    ensures Weight(i + 1) == BASE * Weight(i)
  {
  }

  /** One limb more. */
  lemma ValueStep(s: seq<Limb>, i: nat)
    requires i < |s|
    ensures Value(s[..i + 1]) == Value(s[..i]) + s[i] * Weight(i)
  {
    assert s[..i + 1][..i] == s[..i];
  }

  lemma ValueAll(s: seq<Limb>)
    ensures s[..|s|] == s
  {
  }

  lemma {:induction false} ValueBound(s: seq<Limb>)
    ensures Value(s) < Weight(|s|)
  {
    if s != [] {
      var n := |s| - 1;
      ValueBound(s[..n]);
      TopBound(s[n], Weight(n));
      assert Weight(n + 1) == BASE * Weight(n);
    }
  }

  lemma TopBound(l: Limb, w: nat)
    ensures l * w + w <= BASE * w
  {
    assert (l + 1) * w <= BASE * w by {
      Monotone(l + 1, BASE, w);
    }
  }

  lemma Monotone(a: int, b: int, w: nat)
    requires a <= b
    ensures a * w <= b * w
  {
    assert (b - a) * w >= 0;
  }

  /** A number without leading zeros is at least the weight of its top limb. */
  lemma ValueTop(s: seq<Limb>)
    requires s != []
    ensures Value(s) >= s[|s| - 1] * Weight(|s| - 1)
    ensures s[|s| - 1] > 0 ==> Value(s) >= Weight(|s| - 1)
  {
    var l, w := s[|s| - 1], Weight(|s| - 1);
    if l > 0 {
      Monotone(1, l, w);
    }
  }

  lemma {:induction false} ValueUpdate(s: seq<Limb>, i: nat, l: Limb)
    requires i < |s|
    ensures Value(s[i := l]) == Value(s) + (l - s[i]) * Weight(i)
  {
    var n := |s| - 1;
    if i == n {
      assert s[i := l][..n] == s[..n];
      Distribute(l, s[i], Weight(i));
    } else {
      ValueUpdate(s[..n], i, l);
      assert s[i := l][..n] == s[..n][i := l];
    }
  }

  lemma Distribute(a: int, b: int, w: nat)
    ensures (a - b) * w == a * w - b * w
  {
  }

  lemma {:induction false} ValueZeros(s: seq<Limb>, n: nat)
    requires n <= |s| && forall i :: n <= i < |s| ==> s[i] == 0
    ensures Value(s) == Value(s[..n])
  {
    if n == |s| {
      ValueAll(s);
    } else {
      ValueZeros(s[..|s| - 1], n);
      assert s[..|s| - 1][..n] == s[..n];
    }
  }

  /** The limb and the carry of `y`. */
  lemma Split(y: nat)
    ensures y == (y / BASE) * BASE + y % BASE && 0 <= y % BASE < BASE
  {
  }

  /** A limb is written, and the carry goes on. */
  lemma CarryStep(v: int, carry: int, w: int, y: int, target: int, more: int)
    requires v + carry * w == target && y == carry + more && y >= 0
    ensures v + (y % BASE) * w + (y / BASE) * (BASE * w) == target + more * w
  {
    var lo, hi := y % BASE, y / BASE;
    assert y == hi * BASE + lo;
    assert lo * w + hi * (BASE * w) == (hi * BASE + lo) * w by {
      assert hi * (BASE * w) == (hi * BASE) * w;
    }
    assert y * w == carry * w + more * w;
  }
}
