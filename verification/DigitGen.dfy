/**
 The digit loops of `dtoa` (dtoa.c): correct rounding to a number of digits, and the shortest digits
 that stay within half a gap of the value.
 */
module DigitGen {
  import opened Powers
  import opened BigLimbs
  import opened Bigints
  import opened BigOps

  type Digit = d: int | 0 <= d <= 9

  function Number(s: seq<Digit>): nat {
    if s == [] then 0 else 10 * Number(s[..|s| - 1]) + s[|s| - 1]
  }

  /** `r` is the nearest integer to `n / d`, and even if there are two. */
  ghost predicate Nearest(n: int, d: int, r: nat) {
    var e: int := n - r * d;
    -d <= 2 * e <= d && (2 * e == d || 2 * e == -d ==> r % 2 == 0)
  }

  /** No rounding but one is the nearest even. */
  lemma NearestUnique(n: int, d: nat, r1: nat, r2: nat)
    requires d > 0 && Nearest(n, d, r1) && Nearest(n, d, r2)
    ensures r1 == r2
  {
    Sub2(r2, r1, d);
    OneApart(n - r1 * d, n - r2 * d, d, r2 - r1);
  }

  lemma OneApart(e1: int, e2: int, d: int, k: int)
    requires d > 0 && e1 - e2 == k * d && -d <= 2 * e1 <= d && -d <= 2 * e2 <= d
    ensures -1 <= k <= 1 && (k != 0 ==> (2 * e1 == d || 2 * e1 == -d) && (2 * e2 == d || 2 * e2 == -d))
  {
    if k >= 2 {
      Monotone(2, k, d);
    } else if k <= -2 {
      Monotone(k, -2, d);
    }
  }

  lemma Sub2(a: int, b: int, w: int)
    ensures (a - b) * w == a * w - b * w
  {
  }

  // ----- rounding up the digits -----

  /** What digits stand for when `n` were generated, `up` tells that the decimal point has moved. */
  ghost function Scaled(s: seq<Digit>, n: nat, up: bool): nat
    requires |s| <= n
  {
    Number(s) * Pow(10, n - |s| + if up then 1 else 0)
  }

  /** `roundoff`: adds one in the last place, and leaves out the nines that become zeros. */
  method RoundOff(s0: seq<Digit>) returns (s: seq<Digit>, up: bool)
    requires s0 != []
    ensures 1 <= |s| <= |s0| && Scaled(s, |s0|, up) == Number(s0) + 1
    ensures s[|s| - 1] > 0 && s[0] > 0 <== s0[0] > 0
    ensures up ==> s == [1]
  {
    var n := |s0|;
    assert s0[..n] == s0;
    while n > 0 && s0[n - 1] == 9
      invariant 0 <= n <= |s0|
      invariant (Number(s0[..n]) + 1) * Pow(10, |s0| - n) == Number(s0) + 1
    {
      NineStep(s0, n);
      n := n - 1;
    }
    if n == 0 {
      assert s0[..0] == [];
      One();
      return [1], true;
    }
    var d: Digit := s0[n - 1] + 1;
    s := s0[..n - 1] + [d];
    assert s[..n - 1] == s0[..n - 1] == s0[..n][..n - 1];
    return s, false;
  }

  lemma One()
    ensures Number([1]) == 1
  {
    assert [1][..0] == [];
  }

  lemma NineStep(s: seq<Digit>, n: nat)
    requires 0 < n <= |s| && s[n - 1] == 9
    ensures (Number(s[..n]) + 1) * Pow(10, |s| - n) == (Number(s[..n - 1]) + 1) * Pow(10, |s| - (n - 1))
  {
    assert s[..n][..n - 1] == s[..n - 1];
    var a, p := Number(s[..n - 1]) + 1, Pow(10, |s| - n);
    assert Number(s[..n]) + 1 == 10 * a;
    assert (10 * a) * p == a * (10 * p) by {
      Swap3(10, a, p);
      Assoc(10, a, p);
    }
  }

  /** Leaves out trailing zeros. */
  method TrimZeros(s0: seq<Digit>) returns (s: seq<Digit>)
    requires Number(s0) > 0
    ensures 1 <= |s| <= |s0| && Scaled(s, |s0|, false) == Number(s0) && s[|s| - 1] > 0 && s[0] == s0[0]
  {
    var n := |s0|;
    assert s0[..n] == s0 && s0[..0] == [];
    while s0[n - 1] == 0
      invariant 0 < n <= |s0|
      invariant Number(s0[..n]) * Pow(10, |s0| - n) == Number(s0)
      decreases n
    {
      ZeroStep(s0, n);
      n := n - 1;
    }
    return s0[..n];
  }

  lemma ZeroStep(s: seq<Digit>, n: nat)
    requires 0 < n <= |s| && s[n - 1] == 0
    ensures Number(s[..n]) * Pow(10, |s| - n) == Number(s[..n - 1]) * Pow(10, |s| - (n - 1))
  {
    assert s[..n][..n - 1] == s[..n - 1];
    var a, p := Number(s[..n - 1]), Pow(10, |s| - n);
    assert (10 * a) * p == a * (10 * p) by {
      Swap3(10, a, p);
      Assoc(10, a, p);
    }
  }

  // ----- fixed number of digits -----

  lemma OneLimb(l: Limb)
    ensures Value([l]) == l
  {
    assert [l][..0] == [];
    assert Weight(0) == 1;
  }

  /** `!b->x[0] && b->wds <= 1`. */
  lemma IsZero(b: Bigint)
    requires Loose(b)
    ensures b.x.Length > 0
    ensures (b.x[0] == 0 && b.wds <= 1) <==> b.V() == 0
  {
    if b.wds == 0 {
      assert b.x[..0] == [];
    } else if b.wds == 1 {
      assert b.x[..1] == [b.x[0]];
      OneLimb(b.x[0]);
    } else {
      ValueTop(b.x[..b.wds]);
    }
  }

  /** After digit `i`, what is left belongs to the digits so far. */
  ghost predicate Left(v: nat, sv: nat, i: nat, digits: nat, r: nat)
    requires i > 0
  {
    v * Pow(10, i - 1) == digits * sv + r && r < sv
  }

  lemma NextDigit(v: nat, sv: nat, i: nat, digits: nat, r: nat, q: nat, r': nat)
    requires i > 0 && Left(v, sv, i, digits, r) && 10 * r == q * sv + r' && r' < sv
    ensures Left(v, sv, i + 1, 10 * digits + q, r')
  {
    assert v * Pow(10, i) == 10 * (v * Pow(10, i - 1)) by {
      Swap3(v, 10, Pow(10, i - 1));
    }
    Add2(10 * digits, q, sv);
    Assoc(10, digits, sv);
  }

  lemma Snoc(s: seq<Digit>, d: Digit)
    ensures Number(s + [d]) == 10 * Number(s) + d
  {
    assert (s + [d])[..|s|] == s;
  }

  /** Twice the remainder against the divisor: which way to round. */
  method RoundsUp(b: Bigint, S: Bigint, odd: bool) returns (up: bool)
    requires b.Valid() && b.V() > 0 && S.Valid() && S.V() > 0
    ensures up <==> 2 * b.V() > S.V() || (2 * b.V() == S.V() && odd)
  {
    var b2 := LShift(b, 1);
    assert Pow(2, 1) == 2;
    var j := Cmp(b2, S);
    return j > 0 || (j == 0 && odd);
  }

  lemma NearestDown(n: int, d: nat, q: nat, r: nat)
    requires n == q * d + r && r < d && (2 * r < d || (2 * r == d && q % 2 == 0))
    ensures Nearest(n, d, q)
  {
  }

  lemma NearestUp(n: int, d: nat, q: nat, r: nat)
    requires n == q * d + r && r < d && (2 * r > d || (2 * r == d && q % 2 == 1))
    ensures Nearest(n, d, q + 1)
  {
    Add2(q, 1, d);
  }

  /** What the digits so far have left, and the number that gives the next one. */
  ghost predicate FixedSoFar(v: nat, sv: nat, s: seq<Digit>, bv: nat) {
    && 0 < bv < 10 * sv
    && if s == [] then bv == v >= sv else s[0] > 0 && bv % 10 == 0 && Left(v, sv, |s|, Number(s), bv / 10)
  }

  /** One digit, and whether that was all. */
  method NextFixed(b: Bigint, S: Bigint, ghost s: seq<Digit>, ghost v: nat) returns (q: Digit, zero: bool)
    requires b.Valid() && Normalised(S) && b != S && b.x != S.x && FixedSoFar(v, S.V(), s, b.V())
    modifies b, b.x
    ensures Loose(b) && b.V() < S.V() && Left(v, S.V(), |s| + 1, Number(s + [q]), b.V())
    ensures (s == [] || zero ==> q > 0) && (zero <==> b.V() == 0) && (!zero ==> b.Valid())
  {
    ghost var bv := b.V();
    q := QuoRem(b, S);
    FirstOrNext(v, S.V(), s, bv, bv / 10, q, b.V());
    IsZero(b);
    zero := b.x[0] == 0 && b.wds <= 1;
  }

  /** One round of the loop: a digit, and the number for the next one, unless that was all. */
  method FixedRound(b0: Bigint, S: Bigint, s0: seq<Digit>, ilim: nat, ghost v: nat)
      returns (done: bool, s: seq<Digit>, b: Bigint)
    requires b0.Valid() && Normalised(S) && b0 != S && b0.x != S.x && |s0| < ilim && FixedSoFar(v, S.V(), s0, b0.V())
    modifies b0, b0.x
    ensures Loose(b) && Normalised(S) && S.V() == old(S.V()) && (b == b0 || (fresh(b) && fresh(b.x)))
    ensures |s| == |s0| + 1 && s[0] > 0
    ensures !done ==> b.Valid() && |s| < ilim && FixedSoFar(v, S.V(), s, b.V())
    ensures done ==>
      Left(v, S.V(), |s|, Number(s), b.V()) && (if b.V() == 0 then s[|s| - 1] > 0 else |s| == ilim && b.Valid())
  {
    var q, zero := NextFixed(b0, S, s0, v);
    s, b, done := s0 + [q], b0, zero || |s0| + 1 >= ilim;
    if !done {
      MoreToCome(v, S.V(), s, b.V());
      b := MultAdd(b, 10, 0);
    }
  }

  lemma MoreToCome(v: nat, sv: nat, s: seq<Digit>, r: nat)
    requires s != [] && s[0] > 0 && 0 < r < sv && Left(v, sv, |s|, Number(s), r)
    ensures FixedSoFar(v, sv, s, r * 10 + 0)
  {
  }

  /** The digits of `b / S` are generated until nothing is left, or `ilim` of them are there. */
  method FixedLoop(b0: Bigint, S: Bigint, ilim: nat) returns (s: seq<Digit>, b: Bigint)
    requires b0.Valid() && Normalised(S) && b0 != S && b0.x != S.x && S.V() <= b0.V() < 10 * S.V() && ilim > 0
    modifies b0, b0.x
    ensures Loose(b) && S.Valid() && S.V() == old(S.V()) && 1 <= |s| <= ilim && s[0] > 0
    ensures Left(old(b0.V()), S.V(), |s|, Number(s), b.V())
    ensures b.V() == 0 ==> s[|s| - 1] > 0
    ensures b.V() > 0 ==> |s| == ilim && b.Valid()
  {
    b, s := b0, [];
    ghost var v, sv := b0.V(), S.V();
    while true
      invariant |s| < ilim && b.Valid() && Normalised(S) && S.V() == sv && b != S && b.x != S.x
      invariant (b == b0 || (fresh(b) && fresh(b.x))) && FixedSoFar(v, sv, s, b.V())
      decreases ilim - |s|
    {
      var done;
      done, s, b := FixedRound(b, S, s, ilim, v);
      if done {
        return;
      }
    }
  }

  lemma FirstOrNext(v: nat, sv: nat, s: seq<Digit>, bv: nat, r: nat, q: Digit, r': nat)
    requires bv == q * sv + r' && r' < sv && bv > 0
    requires s == [] ==> bv == v >= sv
    requires s != [] ==> bv == 10 * r && Left(v, sv, |s|, Number(s), r)
    ensures Left(v, sv, |s| + 1, Number(s + [q]), r')
    ensures (s == [] ==> q > 0) && (r' == 0 ==> q > 0)
  {
    Snoc(s, q);
    if s == [] {
      assert Pow(10, 0) == 1;
    } else {
      NextDigit(v, sv, |s|, Number(s), r, q, r');
    }
  }

  /** The correctly rounded digits (modes 2 and 3 of `dtoa`). */
  method FixedDigits(b0: Bigint, S: Bigint, ilim: nat) returns (s: seq<Digit>, up: bool)
    requires b0.Valid() && Normalised(S) && b0 != S && b0.x != S.x && S.V() <= b0.V() < 10 * S.V() && ilim > 0
    modifies b0, b0.x
    ensures 1 <= |s| <= ilim && s[0] > 0 && s[|s| - 1] > 0
    ensures Nearest(old(b0.V()) * Pow(10, ilim - 1), S.V(), Scaled(s, ilim, up))
  {
    ghost var v, sv := b0.V(), S.V();
    var b;
    s, b := FixedLoop(b0, S, ilim);
    up := false;
    IsZero(b);
    if b.x[0] == 0 && b.wds <= 1 {
      ExactDigits(v, sv, s, ilim);
      return;
    }
    s, up := RoundLast(b, S, s, v);
  }

  /** Nothing was left: the digits are exact. */
  lemma ExactDigits(v: nat, sv: nat, s: seq<Digit>, ilim: nat)
    requires 1 <= |s| <= ilim && Left(v, sv, |s|, Number(s), 0)
    ensures Nearest(v * Pow(10, ilim - 1), sv, Scaled(s, ilim, false))
  {
    var p := Pow(10, ilim - |s|);
    PowAdd(10, |s| - 1, ilim - |s|);
    Assoc(v, Pow(10, |s| - 1), p);
    assert (Number(s) * sv) * p == (Number(s) * p) * sv by {
      Assoc(Number(s), sv, p);
      Commute(sv, p);
      Assoc(Number(s), p, sv);
    }
    NearestDown(v * Pow(10, ilim - 1), sv, Number(s) * p, 0);
  }

  lemma LastParity(s: seq<Digit>)
    requires s != []
    ensures Number(s) % 2 == s[|s| - 1] % 2
  {
  }

  lemma {:induction false} FirstPositive(s: seq<Digit>)
    requires s != [] && s[0] > 0
    ensures Number(s) > 0
  {
    if |s| > 1 {
      FirstPositive(s[..|s| - 1]);
    }
  }

  // ----- the shortest digits -----

  /** An error below the value is within its half gap; the boundary counts for an even mantissa. */
  predicate Within(error: int, gap: int, inclusive: bool) {
    error < gap || (inclusive && error == gap)
  }

  datatype Verdict = Emit(d: Digit) | NineUp | GoOn

  /** What one step of the loop decides: `dig` or the next digit if it is near enough, or to go on. */
  ghost predicate Decided(verdict: Verdict, dig: Digit, r: int, sv: int, lo: int, hi: int, inclusive: bool) {
    match verdict
    case Emit(d) => (d == dig && Within(r, lo, inclusive)) || (d == dig + 1 && Within(sv - r, hi, inclusive))
    case NineUp => dig == 9 && Within(sv - r, hi, inclusive)
    case GoOn => !Within(r, lo, inclusive) && !Within(sv - r, hi, inclusive)
  }

  /**
   If the lower neighbour is near enough, the upper one is taken only if it is nearer still, or just as near and
   even; but a nine is rounded up whenever its upper neighbour is just near enough.
   */
  ghost predicate Better(verdict: Verdict, dig: Digit, r: int, sv: int, lo: int, hi: int, inclusive: bool) {
    Within(r, lo, inclusive) ==>
      match verdict
      case Emit(d) =>
        if d == dig then sv - r < hi ==> 2 * r < sv || (2 * r == sv && dig % 2 == 0)
        else sv - r < hi && (2 * r > sv || (2 * r == sv && dig % 2 == 1))
      case NineUp => (sv - r < hi && 2 * r >= sv) || (sv - r == hi && inclusive)
      case GoOn => false
  }

  /** The comparisons of the remainder with both gaps. */
  method Decide(b: Bigint, S: Bigint, mlo: Bigint, mhi: Bigint, dig: Digit, inclusive: bool) returns (verdict: Verdict)
    requires Loose(b) && S.Valid() && mlo.Valid() && mhi.Valid() && b.V() < S.V() && mlo.V() > 0 && mhi.V() > 0
    ensures Decided(verdict, dig, b.V(), S.V(), mlo.V(), mhi.V(), inclusive)
    ensures Better(verdict, dig, b.V(), S.V(), mlo.V(), mhi.V(), inclusive)
  {
    var j := Cmp(b, mlo);
    var j1 := CompareHigh(b, S, mhi);
    if j1 == 0 && inclusive {
      if dig == 9 {
        return NineUp;
      }
      return if j > 0 then Emit(dig + 1) else Emit(dig);
    }
    if j < 0 || (j == 0 && inclusive) {
      IsZero(b);
      if b.x[0] == 0 && b.wds <= 1 {
        return Emit(dig);
      }
      if j1 > 0 {
        var up := RoundsUp(b, S, dig % 2 == 1);
        if up {
          return if dig == 9 then NineUp else Emit(dig + 1);
        }
      }
      return Emit(dig);
    }
    if j1 > 0 {
      return if dig == 9 then NineUp else Emit(dig + 1);
    }
    return GoOn;
  }

  /** `j1`: the remainder against the divisor less the upper half gap. */
  method CompareHigh(b: Bigint, S: Bigint, mhi: Bigint) returns (j1: int)
    requires Loose(b) && S.Valid() && mhi.Valid() && b.V() < S.V() && mhi.V() > 0
    ensures (j1 > 0 <==> S.V() - b.V() < mhi.V()) && (j1 == 0 ==> S.V() - b.V() == mhi.V())
    ensures S.V() - b.V() == mhi.V() && b.V() > 0 ==> j1 == 0
  {
    var delta := Diff(S, mhi);
    if delta.sign != 0 {
      return 1;
    }
    j1 := Cmp(b, delta);
    if b.wds == 0 {
      assert b.x[..0] == [];
    }
  }

  // ----- the loop -----

  /** `e` in place `i` is within the gaps around the value. */
  ghost predicate InGap(v: nat, sv: nat, lo: nat, hi: nat, inclusive: bool, i: nat, e: nat)
    requires i > 0
  {
    var error := v * Pow(10, i - 1) - e * sv;
    if error >= 0 then Within(error, lo * Pow(10, i - 1), inclusive) else Within(-error, hi * Pow(10, i - 1), inclusive)
  }

  /** How far `e` in place `i` is from the value. */
  ghost function Distance(v: nat, sv: nat, i: nat, e: nat): nat
    requires i > 0
  {
    var error := v * Pow(10, i - 1) - e * sv;
    if error >= 0 then error else 0 - error
  }

  /** `e` lies on the upper boundary. */
  ghost predicate OnBoundary(v: nat, sv: nat, hi: nat, i: nat, e: nat)
    requires i > 0
  {
    e * sv - v * Pow(10, i - 1) == hi * Pow(10, i - 1)
  }

  /** `e` is preferred to `e1`: it is nearer, or as near and even (or on the boundary). */
  ghost predicate Preferred(v: nat, sv: nat, hi: nat, i: nat, e: nat, e1: nat)
    requires i > 0
  {
    || e1 == e || Distance(v, sv, i, e) < Distance(v, sv, i, e1)
    || (Distance(v, sv, i, e) == Distance(v, sv, i, e1) && (e % 2 == 0 || OnBoundary(v, sv, hi, i, e1)))
  }

  /**
   `e` is within the gaps, and preferred to all others that are; for arbitrary gaps there is an exception, ten for a
   first digit of nine, when it lies on the boundary.
   */
  ghost predicate Closest(v: nat, sv: nat, lo: nat, hi: nat, inclusive: bool, i: nat, e: nat)
    requires i > 0
  {
    && InGap(v, sv, lo, hi, inclusive, i, e)
    && ((i == 1 && e == 10 && OnBoundary(v, sv, hi, i, e) && 9 * sv <= v)
        || forall e1: nat {:trigger InGap(v, sv, lo, hi, inclusive, i, e1)} ::
             InGap(v, sv, lo, hi, inclusive, i, e1) ==> Preferred(v, sv, hi, i, e, e1))
  }

  /** No number with fewer than `i` digits is within the gaps. */
  ghost predicate NoShorter(v: nat, sv: nat, lo: nat, hi: nat, inclusive: bool, i: nat) {
    forall j: nat, e: nat {:trigger InGap(v, sv, lo, hi, inclusive, j, e)} :: 0 < j < i ==>
      !InGap(v, sv, lo, hi, inclusive, j, e)
  }

  /** When neither neighbour is within its gap, nothing is. */
  lemma NothingNear(v: nat, sv: nat, lo: nat, hi: nat, inclusive: bool, i: nat, digits: nat, r: nat, e: nat)
    requires i > 0 && Left(v, sv, i, digits, r)
    requires !Within(r, lo * Pow(10, i - 1), inclusive) && !Within(sv - r, hi * Pow(10, i - 1), inclusive)
    ensures !InGap(v, sv, lo, hi, inclusive, i, e)
  {
    if e <= digits {
      Sub2(digits, e, sv);
      Monotone(0, digits - e, sv);
    } else {
      Sub2(e, digits, sv);
      Monotone(1, e - digits, sv);
    }
  }

  /** The number that a verdict stands for. */
  ghost function Chosen(verdict: Verdict, digits: nat, dig: Digit): nat {
    if verdict == Emit(dig) then digits else digits + 1
  }

  /** The digit that is emitted is within its gap. */
  lemma EmittedNear(v: nat, sv: nat, lo: nat, hi: nat, inclusive: bool, i: nat, digits: nat, r: nat, dig: Digit,
      verdict: Verdict)
    requires i > 0 && Left(v, sv, i, digits, r) && !verdict.GoOn?
    requires Decided(verdict, dig, r, sv, lo * Pow(10, i - 1), hi * Pow(10, i - 1), inclusive)
    ensures InGap(v, sv, lo, hi, inclusive, i, Chosen(verdict, digits, dig))
  {
    Add2(digits, 1, sv);
  }

  /** How far the numbers are: the two neighbours of the value, and all others. */
  lemma Distances(v: nat, sv: nat, i: nat, digits: nat, r: nat, e: nat)
    requires i > 0 && Left(v, sv, i, digits, r)
    ensures e == digits ==> Distance(v, sv, i, e) == r
    ensures e == digits + 1 ==> Distance(v, sv, i, e) == sv - r
    ensures e < digits ==> Distance(v, sv, i, e) >= sv + r
    ensures e > digits + 1 ==> Distance(v, sv, i, e) > sv
  {
    if e < digits {
      Sub2(digits, e, sv);
      Monotone(1, digits - e, sv);
    } else {
      Sub2(e, digits, sv);
      if e > digits + 1 {
        Monotone(2, e - digits, sv);
      }
    }
  }

  /** What was chosen is preferred to anything else that is near enough. */
  lemma ChosenPreferred(v: nat, sv: nat, lo: nat, hi: nat, inclusive: bool, i: nat, digits: nat, r: nat, dig: Digit,
      verdict: Verdict, e1: nat)
    requires i > 0 && Left(v, sv, i, digits, r) && !verdict.GoOn? && digits % 2 == dig % 2 && lo <= hi
    requires var lov, hiv := lo * Pow(10, i - 1), hi * Pow(10, i - 1);
      && lov > 0 && Decided(verdict, dig, r, sv, lov, hiv, inclusive)
        && Better(verdict, dig, r, sv, lov, hiv, inclusive)
      && !(verdict.NineUp? && sv - r == hiv)
    requires InGap(v, sv, lo, hi, inclusive, i, e1)
    ensures Preferred(v, sv, hi, i, Chosen(verdict, digits, dig), e1)
  {
    Monotone(lo, hi, Pow(10, i - 1));
    Distances(v, sv, i, digits, r, digits);
    Distances(v, sv, i, digits, r, digits + 1);
    Distances(v, sv, i, digits, r, e1);
    if e1 == digits || e1 == digits + 1 {
      Sub2(digits + 1, digits, sv);
    }
  }

  /** What was chosen is the closest, unless a nine was rounded up to the boundary. */
  lemma ChosenClosest(v: nat, sv: nat, lo: nat, hi: nat, inclusive: bool, i: nat, digits: nat, r: nat, dig: Digit,
      verdict: Verdict,
      lov: nat, hiv: nat)
    requires i > 0 && Left(v, sv, i, digits, r) && !verdict.GoOn? && digits % 2 == dig % 2 && lo <= hi
    requires lov == lo * Pow(10, i - 1) && hiv == hi * Pow(10, i - 1) && lov > 0
    requires Decided(verdict, dig, r, sv, lov, hiv, inclusive) && Better(verdict, dig, r, sv, lov, hiv, inclusive)
    requires verdict.NineUp? && sv - r == hiv ==> i == 1 && digits == 9
    ensures Closest(v, sv, lo, hi, inclusive, i, Chosen(verdict, digits, dig))
  {
    EmittedNear(v, sv, lo, hi, inclusive, i, digits, r, dig, verdict);
    if verdict.NineUp? && sv - r == hi * Pow(10, i - 1) {
      Add2(digits, 1, sv);
      assert Pow(10, 0) == 1;
    } else {
      forall e1: nat | InGap(v, sv, lo, hi, inclusive, i, e1)
        ensures Preferred(v, sv, hi, i, Chosen(verdict, digits, dig), e1)
      {
        ChosenPreferred(v, sv, lo, hi, inclusive, i, digits, r, dig, verdict, e1);
      }
    }
  }

  /** A nine that is not the first digit is never rounded up to the boundary: a shorter number would be there. */
  lemma NoNineOnBoundary(v: nat, sv: nat, lo: nat, hi: nat, i: nat, digits: nat, r: nat, r': nat)
    requires i > 0 && Left(v, sv, i, digits, r) && 10 * r == 9 * sv + r' && r' < sv
    requires sv - r' == hi * Pow(10, i)
    ensures InGap(v, sv, lo, hi, true, i, digits + 1)
  {
    Swap3(hi, 10, Pow(10, i - 1));
    Add2(digits, 1, sv);
  }

  /** How the loop ended: the closest of the shortest numbers within the gaps, or rounded at `ilim` digits. */
  ghost predicate ShortestOrRounded(v: nat, sv: nat, lo: nat, hi: nat, inclusive: bool, ilim: int, s: seq<Digit>,
      up: bool, i: nat) {
    && 1 <= |s| <= i && (ilim > 0 ==> i <= ilim) && NoShorter(v, sv, lo, hi, inclusive, i)
    && (Closest(v, sv, lo, hi, inclusive, i, Scaled(s, i, up))
      || (i == ilim && Nearest(v * Pow(10, i - 1), sv, Scaled(s, i, up))))
  }

  /** The gaps for the next digit; one number may stand for both. */
  method NextGaps(mlo: Bigint, mhi: Bigint) returns (mlo': Bigint, mhi': Bigint)
    requires mlo.Valid() && mhi.Valid() && mlo.V() > 0 && mhi.V() > 0 && (mlo == mhi || mlo.x != mhi.x)
    modifies mlo, mlo.x, mhi, mhi.x
    ensures mlo'.Valid() && mhi'.Valid() && (mlo' == mhi' || mlo'.x != mhi'.x) && (mlo == mhi <==> mlo' == mhi')
    ensures mlo'.V() == 10 * old(mlo.V()) && mhi'.V() == 10 * old(mhi.V())
    ensures mlo' == mlo || (fresh(mlo') && fresh(mlo'.x))
    ensures mhi' == mhi || (fresh(mhi') && fresh(mhi'.x))
  {
    if mlo == mhi {
      mlo' := MultAdd(mhi, 10, 0);
      mhi' := mlo';
    } else {
      ghost var hi := mhi.V();
      mlo' := MultAdd(mlo, 10, 0);
      assert mhi.Valid() && mhi.V() == hi;
      mhi' := MultAdd(mhi, 10, 0);
    }
  }

  /** Before a digit is generated: what is left and the gaps, ten times larger for each digit. */
  ghost predicate Going(v: nat, sv: nat, lo: nat, hi: nat, inclusive: bool, s: seq<Digit>, bv: nat, r: nat, lov: nat,
      hiv: nat) {
    && 0 < bv < 10 * sv && (s == [] ==> bv == v >= sv)
      && (s != [] ==> s[0] > 0 && bv == 10 * r && Left(v, sv, |s|, Number(s), r))
    && lov == lo * Pow(10, |s|) && hiv == hi * Pow(10, |s|) && lov > 0 && hiv > 0 && lo <= hi
    && NoShorter(v, sv, lo, hi, inclusive, |s| + 1)
  }

  /** After it: the remainder is less than the divisor. */
  ghost predicate Generated(v: nat, sv: nat, s: seq<Digit>, r: nat) {
    s != [] && s[0] > 0 && Left(v, sv, |s|, Number(s), r)
  }

  lemma Generate(v: nat, sv: nat, lo: nat, hi: nat, inclusive: bool, s: seq<Digit>, bv: nat, r: nat, lov: nat,
      hiv: nat, dig: Digit, r': nat)
    requires Going(v, sv, lo, hi, inclusive, s, bv, r, lov, hiv) && bv == dig * sv + r' && r' < sv
    ensures Generated(v, sv, s + [dig], r')
  {
    FirstOrNext(v, sv, s, bv, r, dig, r');
  }

  lemma KeepGoing(v: nat, sv: nat, lo: nat, hi: nat, inclusive: bool, s: seq<Digit>, bv: nat, r: nat, lov: nat,
      hiv: nat, dig: Digit, r': nat)
    requires Going(v, sv, lo, hi, inclusive, s, bv, r, lov, hiv) && Generated(v, sv, s + [dig], r')
    requires Decided(GoOn, dig, r', sv, lov, hiv, inclusive)
    ensures r' > 0 && lov < sv && Going(v, sv, lo, hi, inclusive, s + [dig], 10 * r', r', 10 * lov, 10 * hiv)
  {
    ExtendNoShorter(v, sv, lo, hi, inclusive, |s| + 1, Number(s + [dig]), r');
    GapStep(lo, hi, |s| + 1);
  }

  /** Only a first nine is rounded up to the boundary. */
  lemma FirstNine(v: nat, sv: nat, lo: nat, hi: nat, s: seq<Digit>, bv: nat, r: nat, lov: nat, hiv: nat, r': nat)
    requires Going(v, sv, lo, hi, true, s, bv, r, lov, hiv) && r' < sv
    requires bv == 9 * sv + r' && sv - r' == hiv
    ensures s == []
  {
    if s != [] {
      NoNineOnBoundary(v, sv, lo, hi, |s|, Number(s), r, r');
    }
  }

  /** The verdict is sound: what it stands for is the closest. */
  lemma Verdicts(v: nat, sv: nat, lo: nat, hi: nat, inclusive: bool, s: seq<Digit>, bv: nat, r: nat, lov: nat,
      hiv: nat, dig: Digit, verdict: Verdict, r': nat)
    requires Going(v, sv, lo, hi, inclusive, s, bv, r, lov, hiv) && Generated(v, sv, s + [dig], r')
    requires bv == dig * sv + r' && !verdict.GoOn?
    requires Decided(verdict, dig, r', sv, lov, hiv, inclusive) && Better(verdict, dig, r', sv, lov, hiv, inclusive)
    ensures Closest(v, sv, lo, hi, inclusive, |s| + 1, Chosen(verdict, Number(s + [dig]), dig))
  {
    hide NoShorter, Better, Decided, Closest, Chosen, Number, Pow;
    Snoc(s, dig);
    NineFirst(v, sv, lo, hi, inclusive, s, bv, r, lov, hiv, dig, verdict, r');
    ChosenClosest(v, sv, lo, hi, inclusive, |s| + 1, Number(s + [dig]), r', dig, verdict, lov, hiv);
  }

  lemma NineFirst(v: nat, sv: nat, lo: nat, hi: nat, inclusive: bool, s: seq<Digit>, bv: nat, r: nat, lov: nat,
      hiv: nat, dig: Digit, verdict: Verdict, r': nat)
    requires Going(v, sv, lo, hi, inclusive, s, bv, r, lov, hiv) && bv == dig * sv + r' && r' < sv
    requires Decided(verdict, dig, r', sv, lov, hiv, inclusive)
    ensures verdict.NineUp? && sv - r' == hiv ==> s == [] && Number(s + [dig]) == 9
  {
    Snoc(s, dig);
    if verdict.NineUp? && sv - r' == hiv {
      FirstNine(v, sv, lo, hi, s, bv, r, lov, hiv, r');
    }
  }

  lemma Finish(v: nat, sv: nat, lo: nat, hi: nat, inclusive: bool, s: seq<Digit>, bv: nat, r: nat, lov: nat, hiv: nat,
      dig: Digit, d: Digit, r': nat, ilim: int)
    requires Going(v, sv, lo, hi, inclusive, s, bv, r, lov, hiv) && Generated(v, sv, s + [dig], r')
    requires bv == dig * sv + r' && (ilim > 0 ==> |s| < ilim)
    requires Decided(Emit(d), dig, r', sv, lov, hiv, inclusive) && Better(Emit(d), dig, r', sv, lov, hiv, inclusive)
    ensures ShortestOrRounded(v, sv, lo, hi, inclusive, ilim, s + [d], false, |s| + 1)
    ensures (s + [d])[0] > 0
  {
    hide NoShorter, Better, Closest;
    Snoc(s, dig);
    Snoc(s, d);
    Verdicts(v, sv, lo, hi, inclusive, s, bv, r, lov, hiv, dig, Emit(d), r');
    ScaledSame(s + [d]);
    if s == [] {
      assert (s + [dig])[0] == dig;
    } else {
      assert (s + [d])[0] == s[0];
    }
  }

  lemma ScaledSame(s: seq<Digit>)
    ensures Scaled(s, |s|, false) == Number(s)
  {
    assert Pow(10, 0) == 1;
  }

  /** One digit of the loop, and what to do with it. */
  method OneDigit(b: Bigint, S: Bigint, mlo: Bigint, mhi: Bigint, inclusive: bool)
      returns (dig: Digit, verdict: Verdict)
    requires b.Valid() && Normalised(S) && mlo.Valid() && mhi.Valid() && mlo.V() > 0 && mhi.V() > 0
    requires b.V() < 10 * S.V() && Separate(b, S, mlo, mhi)
    modifies b, b.x
    ensures Loose(b) && old(b.V()) == dig * S.V() + b.V() && b.V() < S.V()
    ensures Decided(verdict, dig, b.V(), S.V(), mlo.V(), mhi.V(), inclusive)
    ensures Better(verdict, dig, b.V(), S.V(), mlo.V(), mhi.V(), inclusive)
  {
    dig := QuoRem(b, S);
    verdict := Decide(b, S, mlo, mhi, dig, inclusive);
  }

  /** Ten times the remainder and the gaps, for the next digit. */
  method TimesTen(b: Bigint, S: Bigint, mlo: Bigint, mhi: Bigint) returns (b': Bigint, mlo': Bigint, mhi': Bigint)
    requires Loose(b) && b.V() > 0 && Normalised(S) && mlo.Valid() && mhi.Valid() && mlo.V() > 0
    requires mhi.V() > 0 && Separate(b, S, mlo, mhi)
    modifies b, b.x, mlo, mlo.x, mhi, mhi.x
    ensures b'.Valid() && mlo'.Valid() && mhi'.Valid() && Normalised(S) && Separate(b', S, mlo', mhi')
    ensures S.V() == old(S.V())
    ensures b'.V() == 10 * old(b.V()) && mlo'.V() == 10 * old(mlo.V()) && mhi'.V() == 10 * old(mhi.V())
    ensures b' == b || (fresh(b') && fresh(b'.x))
    ensures mlo' == mlo || (fresh(mlo') && fresh(mlo'.x))
    ensures mhi' == mhi || (fresh(mhi') && fresh(mhi'.x))
  {
    IsZero(b);
    b' := MultAdd(b, 10, 0);
    mlo', mhi' := NextGaps(mlo, mhi);
  }

  /** The last digit: emitted, or rounded. */
  method Conclude(b: Bigint, S: Bigint, s0: seq<Digit>, dig: Digit, verdict: Verdict, inclusive: bool, ilim: int,
      ghost v: nat, ghost lo: nat, ghost hi: nat, ghost bv: nat, ghost r: nat, ghost lov: nat, ghost hiv: nat)
    returns (s: seq<Digit>, up: bool)
    requires Loose(b) && S.Valid() && S.V() > 0 && (verdict.GoOn? ==> |s0| + 1 == ilim) && (ilim > 0 ==> |s0| < ilim)
    requires Going(v, S.V(), lo, hi, inclusive, s0, bv, r, lov, hiv) && Generated(v, S.V(), s0 + [dig], b.V())
    requires Decided(verdict, dig, b.V(), S.V(), lov, hiv, inclusive) && bv == dig * S.V() + b.V()
    requires Better(verdict, dig, b.V(), S.V(), lov, hiv, inclusive)
    ensures s != [] && s[0] > 0 && ShortestOrRounded(v, S.V(), lo, hi, inclusive, ilim, s, up, |s0| + 1)
  {
    match verdict
    case Emit(d) =>
      Finish(v, S.V(), lo, hi, inclusive, s0, bv, r, lov, hiv, dig, d, b.V(), ilim);
      return s0 + [d], false;
    case NineUp =>
      Verdicts(v, S.V(), lo, hi, inclusive, s0, bv, r, lov, hiv, dig, verdict, b.V());
      s, up := RoundOff(s0 + [9]);
    case GoOn =>
      KeepGoing(v, S.V(), lo, hi, inclusive, s0, bv, r, lov, hiv, dig, b.V());
      IsZero(b);
      s, up := RoundLast(b, S, s0 + [dig], v);
  }

  /** What the numbers are between two digits. */
  ghost predicate Between(b: Bigint, S: Bigint, mlo: Bigint, mhi: Bigint)
    reads b, b.x, S, S.x, mlo, mlo.x, mhi, mhi.x
  {
    && b.Valid() && Normalised(S) && S.V() > 0 && mlo.Valid() && mhi.Valid() && mlo.V() > 0 && mhi.V() > 0
    && b.V() < 10 * S.V() && Separate(b, S, mlo, mhi) && mlo.V() <= mhi.V()
  }

  /** One round of the loop: a digit, and either the end or the numbers for the next one. */
  method Round(b: Bigint, S: Bigint, mlo: Bigint, mhi: Bigint, s0: seq<Digit>, inclusive: bool, ilim: int,
      ghost v: nat, ghost lo: nat, ghost hi: nat, ghost r: nat)
    returns (done: bool, s: seq<Digit>, up: bool, b': Bigint, mlo': Bigint, mhi': Bigint, ghost r': nat)
    requires Between(b, S, mlo, mhi) && Going(v, S.V(), lo, hi, inclusive, s0, b.V(), r, mlo.V(), mhi.V())
    requires ilim > 0 ==> |s0| < ilim
    modifies b, b.x, mlo, mlo.x, mhi, mhi.x
    ensures S.Valid() && S.V() == old(S.V()) && s != []
    ensures done ==> s[0] > 0 && ShortestOrRounded(v, S.V(), lo, hi, inclusive, ilim, s, up, |s0| + 1)
    ensures !done ==> |s| == |s0| + 1 && Between(b', S, mlo', mhi') && mlo'.V() > old(mlo.V()) && old(mlo.V()) < S.V()
    ensures !done ==> Going(v, S.V(), lo, hi, inclusive, s, b'.V(), r', mlo'.V(), mhi'.V()) && (ilim > 0 ==> |s| < ilim)
    ensures b' == b || (fresh(b') && fresh(b'.x))
    ensures mlo' == mlo || (fresh(mlo') && fresh(mlo'.x))
    ensures mhi' == mhi || (fresh(mhi') && fresh(mhi'.x))
  {
    ghost var bv, lov, hiv := b.V(), mlo.V(), mhi.V();
    b', mlo', mhi', r', up := b, mlo, mhi, r, false;
    var dig, verdict := OneDigit(b, S, mlo, mhi, inclusive);
    Generate(v, S.V(), lo, hi, inclusive, s0, bv, r, lov, hiv, dig, b.V());
    done := !verdict.GoOn? || |s0| + 1 == ilim;
    if done {
      s, up := Conclude(b, S, s0, dig, verdict, inclusive, ilim, v, lo, hi, bv, r, lov, hiv);
    } else {
      KeepGoing(v, S.V(), lo, hi, inclusive, s0, bv, r, lov, hiv, dig, b.V());
      s, r' := s0 + [dig], b.V();
      b', mlo', mhi' := TimesTen(b, S, mlo, mhi);
    }
  }

  /** The shortest digits within the half gaps `mlo` and `mhi` (modes 0, 1, 4 and 5 of `dtoa`). */
  method ShortestDigits(b0: Bigint, S: Bigint, mlo0: Bigint, mhi0: Bigint, inclusive: bool, ilim: int)
    returns (s: seq<Digit>, up: bool, i: nat)
    requires Between(b0, S, mlo0, mhi0) && S.V() <= b0.V()
    modifies b0, b0.x, mlo0, mlo0.x, mhi0, mhi0.x
    ensures i > 0 && s != [] && s[0] > 0
    ensures ShortestOrRounded(old(b0.V()), S.V(), old(mlo0.V()), old(mhi0.V()), inclusive, ilim, s, up, i)
  {
    var b, mlo, mhi := b0, mlo0, mhi0;
    ghost var v, sv, lo, hi := b0.V(), S.V(), mlo0.V(), mhi0.V();
    ghost var r: nat := 0;
    s, i := [], 1;
    assert Pow(10, 0) == 1;
    while true
      invariant Between(b, S, mlo, mhi) && S.V() == sv
      invariant (b == b0 || (fresh(b) && fresh(b.x))) && (mlo == mlo0 || (fresh(mlo) && fresh(mlo.x)))
      invariant (mhi == mhi0 || (fresh(mhi) && fresh(mhi.x)))
      invariant ilim > 0 ==> i <= ilim
      invariant i == |s| + 1 && Going(v, sv, lo, hi, inclusive, s, b.V(), r, mlo.V(), mhi.V())
      decreases sv - mlo.V()
    {
      var done;
      done, s, up, b, mlo, mhi, r := Round(b, S, mlo, mhi, s, inclusive, ilim, v, lo, hi, r);
      if done {
        return;
      }
      i := i + 1;
    }
  }

  /** The numbers of the loop are different objects, but for the gaps, which may be the same. */
  ghost predicate Separate(b: Bigint, S: Bigint, mlo: Bigint, mhi: Bigint) {
    && b != S && b != mlo && b != mhi && S != mlo && S != mhi
    && b.x != S.x && b.x != mlo.x && b.x != mhi.x && S.x != mlo.x && S.x != mhi.x
    && (mlo == mhi || mlo.x != mhi.x)
  }

  lemma ExtendNoShorter(v: nat, sv: nat, lo: nat, hi: nat, inclusive: bool, i: nat, digits: nat, r: nat)
    requires i > 0 && NoShorter(v, sv, lo, hi, inclusive, i) && Left(v, sv, i, digits, r)
    requires !Within(r, lo * Pow(10, i - 1), inclusive) && !Within(sv - r, hi * Pow(10, i - 1), inclusive)
    ensures NoShorter(v, sv, lo, hi, inclusive, i + 1)
  {
    forall j: nat, e: nat | 0 < j < i + 1 ensures !InGap(v, sv, lo, hi, inclusive, j, e) {
      if j == i {
        NothingNear(v, sv, lo, hi, inclusive, i, digits, r, e);
      }
    }
  }

  lemma GapStep(lo: nat, hi: nat, i: nat)
    requires i > 0
    ensures lo * Pow(10, i) == 10 * (lo * Pow(10, i - 1)) && hi * Pow(10, i) == 10 * (hi * Pow(10, i - 1))
  {
    Swap3(lo, 10, Pow(10, i - 1));
    Swap3(hi, 10, Pow(10, i - 1));
  }

  /** Rounds off the last digit when the loop has come to its limit. */
  method RoundLast(b: Bigint, S: Bigint, s0: seq<Digit>, ghost v: nat) returns (s: seq<Digit>, up: bool)
    requires b.Valid() && b.V() > 0 && S.Valid() && s0 != [] && s0[0] > 0 && Left(v, S.V(), |s0|, Number(s0), b.V())
    ensures 1 <= |s| <= |s0| && s[0] > 0 && s[|s| - 1] > 0 && Nearest(v * Pow(10, |s0| - 1), S.V(), Scaled(s, |s0|, up))
  {
    LastParity(s0);
    up := false;
    var roundUp := RoundsUp(b, S, s0[|s0| - 1] % 2 == 1);
    if roundUp {
      NearestUp(v * Pow(10, |s0| - 1), S.V(), Number(s0), b.V());
      s, up := RoundOff(s0);
    } else {
      NearestDown(v * Pow(10, |s0| - 1), S.V(), Number(s0), b.V());
      FirstPositive(s0);
      s := TrimZeros(s0);
    }
  }
}
