/**
 Choosing the size of the array part of a Lua table (ltable.c): how many integer keys lie in each
 slice between two powers of two, and the largest array that would be more than half full.
 */
module TableSizes {
  import opened Powers

  /** MAXABITS and MAXASIZE for a 32-bit int. */
  const MAXABITS: nat := 31
  const MAXASIZE: nat := 0x8000_0000

  lemma {:induction false} Pow2Grows(i: nat, j: nat)
    requires i < j
    ensures Pow2(i) < Pow2(j) && 2 * Pow2(i) <= Pow2(j)
    decreases j
  {
    if i < j - 1 {
      Pow2Grows(i, j - 1);
    }
  }

  lemma Pow2Max()
    ensures Pow2(MAXABITS) == MAXASIZE && Pow2(30) == 0x4000_0000
  {
    assert Pow2(8) == 0x100;
    assert Pow2(16) == 0x1_0000;
    assert Pow2(24) == 0x100_0000;
    assert Pow2(30) == 0x4000_0000;
  }

  /** Slice `i` has the keys from just above 2^(i-1) to 2^i. */
  ghost predicate InSlice(k: nat, i: nat) {
    k <= Pow2(i) && (i > 0 ==> Pow2(i - 1) < k)
  }

  /** The number of bits of `x`, as in the table of `luaO_ceillog2`. */
  function Bits(x: nat): (r: nat)
    ensures x < Pow2(r) && (r > 0 ==> Pow2(r - 1) <= x)
  {
    if x == 0 then 0 else Bits(x / 2) + 1
  }

  lemma {:induction false} Pow2Adds(i: nat, j: nat)
    ensures Pow2(i + j) == Pow2(i) * Pow2(j)
  {
    if j > 0 {
      Pow2Adds(i, j - 1);
    }
  }

  lemma {:induction false} BitsShift(x: nat, n: nat)
    requires x / Pow2(n) > 0
    ensures Bits(x) == Bits(x / Pow2(n)) + n
  {
    if n > 0 {
      var y := x / Pow2(n - 1);
      DivDiv(x, Pow2(n - 1), 2);
      assert Pow2(n) == Pow2(n - 1) * 2 && x / Pow2(n) == y / 2;
      BitsShift(x, n - 1);
    }
  }

  lemma DivDiv(x: nat, p: nat, q: nat)
    requires p > 0 && q > 0
    ensures p * q > 0 && x / (p * q) == x / p / q
  {
    var y, r := x / p, x % p;
    var z, r2 := y / q, y % q;
    assert y == q * z + r2;
    Products(p, q, z, r2);
    DivUnique(x, p * q, z, p * r2 + r);
  }

  lemma Products(p: nat, q: nat, z: nat, r: nat)
    requires p > 0 && r < q
    ensures p * (q * z + r) == (p * q) * z + p * r && p * r + p <= p * q && p * q > 0
  {
    var t := q * z;
    MulAssoc(p, q, z);
    assert p * (t + r) == p * t + p * r;
    MulMono(p, r + 1, q);
  }

  lemma MulAssoc(p: nat, q: nat, z: nat)
    ensures p * (q * z) == (p * q) * z
  {
  }

  lemma MulMono(p: nat, a: nat, b: nat)
    requires a <= b
    ensures p * a <= p * b
  {
    var d := b - a;
    assert p * b == p * (a + d) == p * a + p * d;
  }

  lemma NextProduct(d: nat, a: nat, b: nat)
    ensures a < b ==> d * a + d <= d * b
  {
    if a < b {
      assert d * (a + 1) == d * a + d;
      MulMono(d, a + 1, b);
    }
  }

  lemma DivUnique(x: nat, d: nat, q: nat, r: nat)
    requires x == d * q + r && r < d
    ensures x / d == q
  {
    var q', r' := x / d, x % d;
    assert x == d * q' + r' && 0 <= r' < d;
    NextProduct(d, q', q);
    NextProduct(d, q, q');
  }

  /** `luaO_ceillog2`: the slice of `x`. */
  method CeilLog2(x: nat) returns (l: nat)
    requires 0 < x
    ensures InSlice(x, l)
  {
    var y := x - 1;
    l := 0;
    while y >= 256
      invariant y == (x - 1) / Pow2(l) && (l == 0 || y > 0)
    {
      Pow2Adds(l, 8);
      assert Pow2(8) == 256;
      DivDiv(x - 1, Pow2(l), 256);
      l := l + 8;
      y := y / 256;
    }
    if y > 0 {
      BitsShift(x - 1, l);
    }
    l := l + Bits(y);
  }

  lemma OneSlice(k: nat, i: nat)
    requires InSlice(k, i) && k > 0
    ensures forall j: nat :: InSlice(k, j) ==> j == i
  {
    forall j: nat ensures InSlice(k, j) ==> j == i {
      if j < i {
        Pow2Grows(j, i);
        if j < i - 1 {
          Pow2Grows(j, i - 1);
        }
      } else if i < j {
        Pow2Grows(i, j);
        if i < j - 1 {
          Pow2Grows(i, j - 1);
        }
      }
    }
  }

  lemma SliceBound(k: nat, i: nat)
    requires InSlice(k, i) && 0 < k <= MAXASIZE
    ensures i <= MAXABITS
  {
    Pow2Max();
    if i > MAXABITS + 1 {
      Pow2Grows(MAXABITS, i - 1);
    }
  }

  method Power(i: nat) returns (p: nat)
    ensures p == Pow2(i)
  {
    p := 1;
    for j := 0 to i
      invariant p == Pow2(j)
    {
      p := 2 * p;
    }
  }

  // ----- counting keys -----

  /** How many of the keys are at most `n`. */
  ghost function CountLe(ks: seq<nat>, n: nat): (c: nat)
    ensures c <= |ks|
  {
    if ks == [] then 0 else (if ks[0] <= n then 1 else 0) + CountLe(ks[1..], n)
  }

  /** How many of the keys are in slice `i`. */
  ghost function CountSlice(ks: seq<nat>, i: nat): nat {
    if ks == [] then 0 else (if InSlice(ks[0], i) then 1 else 0) + CountSlice(ks[1..], i)
  }

  ghost predicate IndexKeys(ks: seq<nat>) {
    forall k :: k in ks ==> 0 < k <= MAXASIZE
  }

  lemma {:induction false} CountLeSlice(ks: seq<nat>, i: nat)
    requires IndexKeys(ks)
    ensures CountLe(ks, Pow2(i)) == (if i == 0 then 0 else CountLe(ks, Pow2(i - 1))) + CountSlice(ks, i)
  {
    if ks != [] {
      assert ks[0] in ks && forall k :: k in ks[1..] ==> k in ks;
      CountLeSlice(ks[1..], i);
    }
  }

  lemma {:induction false} CountLeGrows(ks: seq<nat>, m: nat, n: nat)
    requires m <= n
    ensures CountLe(ks, m) <= CountLe(ks, n)
  {
    if ks != [] {
      CountLeGrows(ks[1..], m, n);
    }
  }

  lemma {:induction false} CountAppend(ks: seq<nat>, k: nat)
    ensures forall n :: CountLe(ks + [k], n) == CountLe(ks, n) + if k <= n then 1 else 0
    ensures forall i :: CountSlice(ks + [k], i) == CountSlice(ks, i) + if InSlice(k, i) then 1 else 0
  {
    if ks == [] {
      assert ks + [k] == [k];
    } else {
      CountAppend(ks[1..], k);
      assert (ks + [k])[1..] == ks[1..] + [k];
    }
  }

  lemma CountSliceConcat(s: seq<nat>, t: seq<nat>, i: nat)
    ensures CountSlice(s + t, i) == CountSlice(s, i) + CountSlice(t, i)
  {
    if s == [] {
      assert s + t == t;
    } else {
      CountSliceConcat(s[1..], t, i);
      assert (s + t)[1..] == s[1..] + t;
    }
  }

  lemma {:induction false} CountZero(ks: seq<nat>)
    requires IndexKeys(ks)
    ensures CountLe(ks, 0) == 0
  {
    if ks != [] {
      assert ks[0] in ks && forall k :: k in ks[1..] ==> k in ks;
      CountZero(ks[1..]);
    }
  }

  ghost predicate Distinct(ks: seq<nat>) {
    forall i, j :: 0 <= i < j < |ks| ==> ks[i] != ks[j]
  }

  /** One more candidate adds at most one key. */
  lemma {:induction false} CountStep(ks: seq<nat>, n: nat)
    requires Distinct(ks) && n > 0
    ensures CountLe(ks, n) == CountLe(ks, n - 1) + if n in ks then 1 else 0
  {
    if ks != [] {
      CountStep(ks[1..], n);
      assert ks == [ks[0]] + ks[1..];
    }
  }

  /** There are no more keys up to `n` than numbers up to `n`. */
  lemma {:induction false} CountBound(ks: seq<nat>, n: nat)
    requires Distinct(ks) && IndexKeys(ks)
    ensures CountLe(ks, n) <= n
  {
    if n == 0 {
      CountZero(ks);
    } else {
      CountStep(ks, n);
      CountBound(ks, n - 1);
    }
  }

  /** An array of `n` slots would be more than half full. */
  ghost predicate MoreThanHalf(ks: seq<nat>, n: nat) {
    CountLe(ks, n) > n / 2
  }

  /**
   `computesizes`: the largest power of two such that more than half of an array of that size would
   be in use, or 0; `na` is the number of keys that go to that array.
   */
  method ComputeSizes(nums: array<nat>, pna: nat, ghost ks: seq<nat>) returns (optimal: nat, na: nat)
    requires nums.Length == MAXABITS + 1 && IndexKeys(ks) && Distinct(ks)
    requires forall i :: 0 <= i <= MAXABITS ==> nums[i] == CountSlice(ks, i)
    requires pna == |ks| <= 0x4000_0000
    ensures na == CountLe(ks, optimal)
    ensures optimal == 0 || exists i :: 0 <= i < MAXABITS && optimal == Pow2(i) && MoreThanHalf(ks, optimal)
    ensures forall i {:trigger Pow2(i)} :: 0 <= i <= MAXABITS && MoreThanHalf(ks, Pow2(i)) ==> Pow2(i) <= optimal
  {
    hide CountLe, Bits, InSlice;
    var i, twotoi, a := 0, 1, 0;
    optimal, na := 0, 0;
    Pow2Max();
    CountZero(ks);
    while pna > twotoi / 2
      invariant 0 <= i <= MAXABITS && twotoi == Pow2(i)
      invariant a == if i == 0 then 0 else CountLe(ks, Pow2(i - 1))
      invariant na == CountLe(ks, optimal) && optimal <= twotoi
      invariant optimal == 0 || exists j :: 0 <= j < MAXABITS && optimal == Pow2(j) && MoreThanHalf(ks, optimal)
      invariant forall j {:trigger Pow2(j)} :: 0 <= j < i && MoreThanHalf(ks, Pow2(j)) ==> Pow2(j) <= optimal
      decreases MAXABITS - i
    {
      assert i == MAXABITS ==> twotoi == 2 * 0x4000_0000;
      CountLeSlice(ks, i);
      if nums[i] > 0 {
        a := a + nums[i];
        if a > twotoi / 2 {
          optimal := twotoi;
          na := a;
        }
      } else if i > 0 {
        CountBound(ks, Pow2(i - 1));
      }
      i, twotoi := i + 1, twotoi * 2;
    }
    forall j {:trigger Pow2(j)} | i <= j <= MAXABITS ensures !MoreThanHalf(ks, Pow2(j)) {
      if i < j {
        Pow2Grows(i, j);
      }
    }
  }
}
