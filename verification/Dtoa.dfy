/**
 From a quotient to its digits (dtoa.c): the divisor is shifted until it has four leading zero bits,
 an estimate of the decimal exponent that is one too large is corrected, and the digits are generated.
 */
module Dtoa {
  import opened Powers
  import opened BigLimbs
  import opened Bigints
  import opened BigOps
  import opened BigPowers
  import opened DigitGen
  import opened DigitScaling

  /** `lshift`, if there is anything to shift by. */
  method ShiftBy(b: Bigint, n: nat) returns (r: Bigint)
    requires b.Valid() && b.V() > 0
    ensures r.Valid() && r.V() == b.V() * Pow(2, n) && r.V() > 0
    ensures r == b || (fresh(r) && fresh(r.x))
  {
    ShiftPositive2(b.V(), n);
    if n > 0 {
      r := LShift(b, n);
    } else {
      r := b;
    }
  }

  lemma ShiftPositive2(v: nat, n: nat)
    ensures v > 0 ==> v * Pow(2, n) > 0
    ensures v * Pow(2, 0) == v
  {
    if v > 0 {
      PositiveProduct(v, Pow(2, n));
    }
  }

  /** The divisor, shifted as `dshift` says, is one that `quorem` can divide by. */
  method Normalise(S0: Bigint, s2: nat) returns (S: Bigint, i: nat)
    requires S0.Valid() && S0.V() > 0
    ensures Normalised(S) && i < 32 && S.V() == S0.V() * Pow(2, s2 + i) && S.V() > 0
    ensures S == S0 || (fresh(S) && fresh(S.x))
  {
    i := DShift(S0, s2);
    assert TopBits(S0.V(), s2 + i);
    S := ShiftBy(S0, s2 + i);
    ghost var m: nat :| Pow(2, 32 * m + 27) <= S0.V() * Pow(2, s2 + i) < Pow(2, 32 * m + 28);
    NormalTop(S, m);
  }

  /** `k_check`: if the quotient is less than one, it is taken ten times, and the exponent is one less. */
  method CheckQuotient(b: Bigint, S: Bigint) returns (b': Bigint, botched: bool)
    requires b.Valid() && b.V() > 0 && Normalised(S) && b != S && b.x != S.x
    modifies b, b.x
    ensures b'.Valid() && Normalised(S) && S.V() == old(S.V()) && botched == (old(b.V()) < S.V())
    ensures b'.V() == Factor(botched) * old(b.V()) && (b' == b || (fresh(b') && fresh(b'.x)))
  {
    RemainderComparable(b, S);
    var j := Cmp(b, S);
    b', botched := b, j < 0;
    if botched {
      b' := MultAdd(b, 10, 0);
    }
  }

  /** The same with the gap. */
  method CheckK(b: Bigint, S: Bigint, mhi: Bigint) returns (b': Bigint, mhi': Bigint, botched: bool)
    requires b.Valid() && b.V() > 0 && Normalised(S) && mhi.Valid() && mhi.V() > 0
    requires b != S && b.x != S.x && b != mhi && b.x != mhi.x && mhi != S && mhi.x != S.x
    modifies b, b.x, mhi, mhi.x
    ensures b'.Valid() && mhi'.Valid() && Normalised(S) && S.V() == old(S.V()) && botched == (old(b.V()) < S.V())
    ensures b'.V() == Factor(botched) * old(b.V()) && mhi'.V() == Factor(botched) * old(mhi.V())
    ensures b' == b || (fresh(b') && fresh(b'.x))
    ensures mhi' == mhi || (fresh(mhi') && fresh(mhi'.x))
    ensures b' != mhi' && b'.x != mhi'.x
  {
    b', botched := CheckQuotient(b, S);
    mhi' := mhi;
    if botched {
      mhi' := MultAdd(mhi, 10, 0);
    }
  }

  /** `Balloc` and `Bcopy`. */
  method Copy(b: Bigint) returns (r: Bigint)
    requires b.Valid()
    ensures fresh(r) && fresh(r.x) && r.Valid() && r.V() == b.V()
  {
    r := new Bigint(b.k);
    for i := 0 to b.wds
      invariant r.x[..i] == b.x[..i]
    {
      r.x[i] := b.x[i];
    }
    r.wds, r.sign := b.wds, b.sign;
  }

  /** The upper half gap is twice the lower one when the value is a power of two (`spec_case`). */
  method UpperGap(mlo: Bigint, spec: bool) returns (mhi: Bigint)
    requires mlo.Valid() && mlo.V() > 0
    ensures mhi.Valid() && mhi.V() == Twice(spec) * mlo.V()
    ensures mhi == mlo || (fresh(mhi) && fresh(mhi.x))
  {
    if !spec {
      return mlo;
    }
    mhi := Copy(mlo);
    mhi := LShift(mhi, 1);
    assert Pow(2, 1) == 2;
  }

  /**
   `ilim` and `ilim1` when no digit is asked for: nothing, or a one in the place above, whatever the value
   rounds to there.
   */
  method FewPlaces(b: Bigint, S: Bigint, places: int) returns (s: seq<Digit>)
    requires b.Valid() && S.Valid() && b != S && b.x != S.x && S.V() <= b.V() < 10 * S.V() && S.V() > 0 && places <= 0
    modifies S, S.x
    ensures (s == [] || s == [1]) && Nearest(b.V(), old(S.V()) * Pow(10, 1 - places), |s|)
  {
    hide Nearest, Pow;
    if places < 0 {
      FarBelow(b.V(), S.V(), places);
      return [];
    }
    ghost var bv, sv := b.V(), S.V();
    var S5 := MultAdd(S, 5, 0);
    assert b.V() == bv && S5.V() == sv * 5 + 0;
    var j := Cmp(b, S5);
    JustAbove(bv, sv);
    s := if j <= 0 then [] else [1];
  }

  lemma JustAbove(bv: nat, sv: nat)
    requires sv <= bv < 10 * sv
    ensures Nearest(bv, sv * Pow(10, 1 - 0), if bv <= sv * 5 then 0 else 1)
  {
    assert Pow(10, 1) == 10;
  }

  lemma FarBelow(bv: nat, sv: nat, places: int)
    requires bv < 10 * sv && places < 0
    ensures Nearest(bv, sv * Pow(10, 1 - places), 0)
  {
    assert Pow(10, 1 - places) == 10 * (10 * Pow(10, -1 - places));
    Monotone2(sv, 100, Pow(10, 1 - places));
  }

  function Factor(botched: bool): (f: nat)
    ensures f > 0
  {
    if botched then 10 else 1
  }

  /** Shifting all numbers by `i` bits more scales them alike. */
  lemma Shifted(f: nat, v: nat, n: nat, i: nat)
    ensures f * (v * Pow(2, n + i)) == (f * (v * Pow(2, n))) * Pow(2, i)
    ensures (f * v) * Pow(2, n + i) == (f * (v * Pow(2, n))) * Pow(2, i)
  {
    PowAdd(2, n, i);
    var p, q := Pow(2, n), Pow(2, i);
    Assoc(v, p, q);
    Assoc(f, v * p, q);
    Assoc(f, v, p * q);
  }

  /** Whether the quotient is less than one, and in the right range after it was corrected. */
  lemma InRange(v: nat, sv: nat, c: nat, botched: bool)
    requires c > 0 && sv <= 10 * v && v < 10 * sv && (botched <==> v * c < sv * c)
    ensures botched <==> v < sv
    ensures sv * c <= (Factor(botched) * v) * c < 10 * (sv * c)
  {
    SameSide(v, sv, c);
    Monotone(sv, Factor(botched) * v, c);
    SameSide(Factor(botched) * v, 10 * sv, c);
    Assoc(10, sv, c);
  }

  /** What the two numbers are after both were shifted, and the first was taken ten times if it was too small. */
  ghost predicate Prepared(v: nat, sv: nat, n: nat, botched: bool, b: nat, S: nat) {
    b == (Factor(botched) * v) * Pow(2, n) && S == sv * Pow(2, n) && (botched <==> v < sv) && S <= b < 10 * S
  }

  lemma AfterCheck(bv: nat, s0: nat, b2: nat, s2: nat, n: nat, botched: bool)
    requires var v, sv := bv * Pow(2, b2), s0 * Pow(2, s2);
      sv <= 10 * v && v < 10 * sv
    requires botched <==> bv * Pow(2, b2 + n) < s0 * Pow(2, s2 + n)
    ensures Prepared(bv * Pow(2, b2), s0 * Pow(2, s2), n, botched, Factor(botched) * (bv * Pow(2, b2 + n)),
      s0 * Pow(2, s2 + n))
  {
    Shifted(1, s0, s2, n);
    Shifted(1, bv, b2, n);
    Shifted(Factor(botched), bv, b2, n);
    InRange(bv * Pow(2, b2), s0 * Pow(2, s2), Pow(2, n), botched);
  }

  /** From `dshift` to the correction of the exponent. */
  method Prepare(b0: Bigint, S0: Bigint, mhi0: Bigint, b2: nat, s2: nat)
      returns (b: Bigint, S: Bigint, mhi: Bigint, n: nat, botched: bool)
    requires b0.Valid() && S0.Valid() && mhi0.Valid() && b0.V() > 0 && S0.V() > 0 && mhi0.V() > 0
    requires b0 != S0 && b0.x != S0.x && b0 != mhi0 && b0.x != mhi0.x && mhi0 != S0 && mhi0.x != S0.x
    requires S0.V() * Pow(2, s2) <= 10 * (b0.V() * Pow(2, b2)) && b0.V() * Pow(2, b2) < 10 * (S0.V() * Pow(2, s2))
    modifies b0, b0.x, mhi0, mhi0.x
    ensures b.Valid() && Normalised(S) && mhi.Valid() && b != S && b.x != S.x && mhi != S && mhi.x != S.x
    ensures b != mhi && b.x != mhi.x
    ensures Prepared(old(b0.V()) * Pow(2, b2), old(S0.V()) * Pow(2, s2), n, botched, b.V(), S.V())
    ensures mhi.V() == Factor(botched) * old(mhi0.V()) && mhi.V() > 0
    ensures (b == b0 || (fresh(b) && fresh(b.x))) && (mhi == mhi0 || (fresh(mhi) && fresh(mhi.x)))
    ensures S == S0 || (fresh(S) && fresh(S.x))
  {
    ghost var bv, sv := b0.V(), S0.V();
    S, n := Normalise(S0, s2);
    b := ShiftBy(b0, b2 + n);
    b, mhi, botched := CheckK(b, S, mhi0);
    AfterCheck(bv, sv, b2, s2, n, botched);
  }

  /** The digits for the scaled numbers are digits for the numbers. */
  lemma ShortestFor(v: nat, sv: nat, mv: nat, m2: nat, n: nat, botched: bool, b: nat, S: nat, lo: nat, spec: bool,
      inclusive: bool, ilim: int,
      s: seq<Digit>, up: bool, i: nat)
    requires Prepared(v, sv, n, botched, b, S) && lo == (Factor(botched) * mv) * Pow(2, m2 + n) && i > 0
    requires ShortestOrRounded(b, S, lo, Twice(spec) * lo, inclusive, ilim, s, up, i)
    ensures var f, gap := Factor(botched), mv * Pow(2, m2);
      ShortestOrRounded(f * v, sv, f * gap, Twice(spec) * (f * gap), inclusive, ilim, s, up, i)
  {
    var f, gap := Factor(botched), mv * Pow(2, m2);
    Shifted(f, mv, m2, n);
    Assoc(2, f * gap, Pow(2, n));
    ScaleResult(f * v, sv, f * gap, Twice(spec) * (f * gap), inclusive, ilim, s, up, i, Pow(2, n));
  }

  /** The gaps are shifted as well, and the digits generated. */
  method Generate(b: Bigint, S: Bigint, mhi0: Bigint, m: nat, spec: bool, inclusive: bool, ilim: int)
    returns (s: seq<Digit>, up: bool, i: nat)
    requires b.Valid() && Normalised(S) && mhi0.Valid() && mhi0.V() > 0 && S.V() <= b.V() < 10 * S.V()
    requires b != S && b.x != S.x && mhi0 != S && mhi0.x != S.x && b != mhi0 && b.x != mhi0.x
    modifies b, b.x, mhi0, mhi0.x
    ensures i > 0 && s != [] && s[0] > 0
    ensures var lo := old(mhi0.V()) * Pow(2, m);
      ShortestOrRounded(old(b.V()), old(S.V()), lo, Twice(spec) * lo, inclusive, ilim, s, up, i)
  {
    var mlo := ShiftBy(mhi0, m);
    var mhi := UpperGap(mlo, spec);
    s, up, i := ShortestDigits(b, S, mlo, mhi, inclusive, ilim);
  }

  /** The leftright branch of `dtoa`, from `dshift` on; `fcvt` is mode 5, which limits the decimal places. */
  method Shortest(b0: Bigint, S0: Bigint, mhi0: Bigint, b2: nat, m2: nat, s2: nat, spec: bool, inclusive: bool,
      fcvt: bool, ilim: int, ilim1: int)
    returns (s: seq<Digit>, up: bool, i: nat, botched: bool)
    requires b0.Valid() && S0.Valid() && mhi0.Valid() && b0.V() > 0 && S0.V() > 0 && mhi0.V() > 0
    requires b0 != S0 && b0.x != S0.x && b0 != mhi0 && b0.x != mhi0.x && mhi0 != S0 && mhi0.x != S0.x
    requires S0.V() * Pow(2, s2) <= 10 * (b0.V() * Pow(2, b2)) && b0.V() * Pow(2, b2) < 10 * (S0.V() * Pow(2, s2))
    modifies b0, b0.x, S0, S0.x, mhi0, mhi0.x
    ensures botched <==> old(b0.V()) * Pow(2, b2) < old(S0.V()) * Pow(2, s2)
    ensures var places := if botched then ilim1 else ilim;
      var v, sv, lo := old(b0.V()) * Pow(2, b2), old(S0.V()) * Pow(2, s2), old(mhi0.V()) * Pow(2, m2);
      if fcvt && places <= 0 then
        && (s == [] || s == [1]) && up == (s != [])
        && Nearest(Factor(botched) * v, sv * Pow(10, 1 - places), |s|)
      else
        && i > 0 && s != [] && s[0] > 0
        && ShortestOrRounded(Factor(botched) * v, sv, Factor(botched) * lo, Twice(spec) * (Factor(botched) * lo),
             inclusive, places, s, up, i)
  {
    hide ShortestOrRounded, Nearest, Pow, Twice, Factor;
    ghost var v, sv, mv := b0.V() * Pow(2, b2), S0.V() * Pow(2, s2), mhi0.V();
    var b, S, mhi, n;
    b, S, mhi, n, botched := Prepare(b0, S0, mhi0, b2, s2);
    var places := if botched then ilim1 else ilim;
    ghost var bv, Sv := b.V(), S.V();
    if fcvt && places <= 0 {
      s := FewPlaces(b, S, places);
      FewFor(v, sv, n, botched, bv, Sv, places, |s|);
      up, i := s != [], 0;
    } else {
      s, up, i := Generate(b, S, mhi, m2 + n, spec, inclusive, places);
      ShortestFor(v, sv, mv, m2, n, botched, bv, Sv, (Factor(botched) * mv) * Pow(2, m2 + n), spec, inclusive, places,
        s, up, i);
    }
  }

  lemma FewFor(v: nat, sv: nat, n: nat, botched: bool, b: nat, S: nat, places: int, r: nat)
    requires Prepared(v, sv, n, botched, b, S) && places <= 0 && Nearest(b, S * Pow(10, 1 - places), r)
    ensures Nearest(Factor(botched) * v, sv * Pow(10, 1 - places), r)
  {
    Turn(sv, Pow(2, n), Pow(10, 1 - places));
    ScaleNearest(Factor(botched) * v, sv * Pow(10, 1 - places), r, Pow(2, n));
  }

  /** The same preparation when no gaps are kept. */
  method PrepareFixed(b0: Bigint, S0: Bigint, b2: nat, s2: nat)
      returns (b: Bigint, S: Bigint, ghost n: nat, botched: bool)
    requires b0.Valid() && S0.Valid() && b0.V() > 0 && S0.V() > 0 && b0 != S0 && b0.x != S0.x
    requires S0.V() * Pow(2, s2) <= 10 * (b0.V() * Pow(2, b2)) && b0.V() * Pow(2, b2) < 10 * (S0.V() * Pow(2, s2))
    modifies b0, b0.x
    ensures b.Valid() && Normalised(S) && b != S && b.x != S.x
    ensures Prepared(old(b0.V()) * Pow(2, b2), old(S0.V()) * Pow(2, s2), n, botched, b.V(), S.V())
    ensures (b == b0 || (fresh(b) && fresh(b.x))) && (S == S0 || (fresh(S) && fresh(S.x)))
  {
    ghost var bv, sv := b0.V(), S0.V();
    var i;
    S, i := Normalise(S0, s2);
    n := i;
    b := ShiftBy(b0, b2 + i);
    b, botched := CheckQuotient(b, S);
    AfterCheck(bv, sv, b2, s2, n, botched);
  }

  lemma FixedFor(v: nat, sv: nat, n: nat, botched: bool, b: nat, S: nat, places: nat, r: nat)
    requires Prepared(v, sv, n, botched, b, S) && places > 0 && Nearest(b * Pow(10, places - 1), S, r)
    ensures Nearest((Factor(botched) * v) * Pow(10, places - 1), sv, r)
  {
    Turn(Factor(botched) * v, Pow(2, n), Pow(10, places - 1));
    ScaleNearest((Factor(botched) * v) * Pow(10, places - 1), sv, r, Pow(2, n));
  }

  /** The other branch: digits rounded to `ilim` places, from `dshift` on; `fcvt` is mode 3. */
  method Fixed(b0: Bigint, S0: Bigint, b2: nat, s2: nat, fcvt: bool, ilim: int, ilim1: int)
    returns (s: seq<Digit>, up: bool, botched: bool)
    requires b0.Valid() && S0.Valid() && b0.V() > 0 && S0.V() > 0 && b0 != S0 && b0.x != S0.x
    requires fcvt || (ilim > 0 && ilim1 > 0)
    requires S0.V() * Pow(2, s2) <= 10 * (b0.V() * Pow(2, b2)) && b0.V() * Pow(2, b2) < 10 * (S0.V() * Pow(2, s2))
    modifies b0, b0.x, S0, S0.x
    ensures botched <==> old(b0.V()) * Pow(2, b2) < old(S0.V()) * Pow(2, s2)
    ensures var places := if botched then ilim1 else ilim;
      var v, sv := old(b0.V()) * Pow(2, b2), old(S0.V()) * Pow(2, s2);
      if places <= 0 then
        && (s == [] || s == [1]) && up == (s != [])
        && Nearest(Factor(botched) * v, sv * Pow(10, 1 - places), |s|)
      else
        && s != [] && s[0] > 0 && s[|s| - 1] > 0 && |s| <= places
        && Nearest((Factor(botched) * v) * Pow(10, places - 1), sv, Scaled(s, places, up))
  {
    ghost var v, sv := b0.V() * Pow(2, b2), S0.V() * Pow(2, s2);
    ghost var n;
    var b, S;
    b, S, n, botched := PrepareFixed(b0, S0, b2, s2);
    var places := if botched then ilim1 else ilim;
    ghost var bv, Sv := b.V(), S.V();
    if places <= 0 {
      s := FewPlaces(b, S, places);
      FewFor(v, sv, n, botched, bv, Sv, places, |s|);
      up := s != [];
    } else {
      s, up := FixedDigits(b, S, places);
      FixedFor(v, sv, n, botched, bv, Sv, places, Scaled(s, places, up));
    }
  }

  // ----- from a mantissa and its exponent -----

  /** How many digits: as few as possible, so many, or so many after the point (modes 0 and 1, 2 and 4, 3 and 5). */
  datatype Limit = Free | Digits(n: int) | Decimals(n: int)

  function Ilim(limit: Limit, k: int): int {
    match limit
    case Free => -1
    case Digits(n) => if n <= 0 then 1 else n
    case Decimals(n) => n + k + 1
  }

  /** A common power of two is taken out of both exponents. */
  function Common(m2: nat, s2: nat): (i: nat)
    ensures i <= m2 && i <= s2
  {
    if m2 < s2 then m2 else s2
  }

  /** The quotient of the two numbers, and the gap, are those of the value; all are too small by the factor `t`. */
  ghost predicate SetUp(f: nat, e: int, k: int, g: nat, v: nat, sv: nat, lo: nat, t: nat) {
    && t > 0 && v * t == Num(f, e, k) * Pow(2, g) && sv * t == Den(e, k) * Pow(2, g)
    && lo * t == Num(1, e, k)
  }

  /** What the exponents are set to. */
  lemma SetUpRight(f: nat, e: int, k: int, g: nat, i: nat)
    requires i <= Pos(e) + Pos(0 - k) && i <= Pos(0 - e) + Pos(k) + g
    ensures
      var a, p, q, n := Pos(0 - k), Pos(e), Pos(k), Pos(0 - e);
      SetUp(f, e, k, g, (f * Pow(5, a)) * Pow(2, p + a + g - i), Pow(5, q) * Pow(2, n + q + g - i),
        Pow(5, a) * Pow(2, p + a - i), Pow(2, i))
  {
    var a, p, q, n := Pos(0 - k), Pos(e), Pos(k), Pos(0 - e);
    Unshift(f * Pow(5, a), p + a + g, i);
    Unshift(Pow(5, q), n + q + g, i);
    Unshift(Pow(5, a), p + a, i);
    Apart(f, a, p, g);
    Apart(1, q, n, g);
    Apart(1, a, p, 0);
    assert Pow(2, 0) == 1;
  }

  lemma Unshift(x: nat, n: nat, i: nat)
    requires i <= n
    ensures (x * Pow(2, n - i)) * Pow(2, i) == x * Pow(2, n)
  {
    PowAdd(2, n - i, i);
    Assoc(x, Pow(2, n - i), Pow(2, i));
  }

  /** The same for the numbers and exponents as they are kept. */
  lemma SetUpFor(f: nat, e: int, k: int, g: nat, c: nat, bv: nat, b2: nat, Sv: nat, s2: nat, mv: nat, m2: nat)
    requires c <= Pos(e) + Pos(0 - k) && c <= Pos(0 - e) + Pos(k) + g
    requires bv == f * Pow(5, Pos(0 - k)) && Sv == Pow(5, Pos(k)) && mv == Pow(5, Pos(0 - k))
    requires b2 == Pos(e) + Pos(0 - k) + g - c && s2 == Pos(0 - e) + Pos(k) + g - c && m2 == Pos(e) + Pos(0 - k) - c
    ensures SetUp(f, e, k, g, bv * Pow(2, b2), Sv * Pow(2, s2), mv * Pow(2, m2), Pow(2, c))
  {
    hide SetUp, Pow;
    SetUpRight(f, e, k, g, c);
    assert bv * Pow(2, b2) == (f * Pow(5, Pos(0 - k))) * Pow(2, Pos(e) + Pos(0 - k) + g - c);
    assert Sv * Pow(2, s2) == Pow(5, Pos(k)) * Pow(2, Pos(0 - e) + Pos(k) + g - c);
  }

  lemma EstimateHolds(f: nat, e: int, k: int, g: nat, v: nat, sv: nat, lo: nat, t: nat)
    requires SetUp(f, e, k, g, v, sv, lo, t) && Estimated(f, e, k)
    ensures sv <= 10 * v && v < 10 * sv
    ensures v < sv <==> Num(f, e, k) < Den(e, k)
  {
    var p := Pow(2, g);
    SameSide(Num(f, e, k), Den(e, k), p);
    SameSide(v, sv, t);
    Assoc(10, Num(f, e, k), p);
    Assoc(10, Den(e, k), p);
    Assoc(10, v, t);
    Assoc(10, sv, t);
    SameSide(10 * Num(f, e, k), Den(e, k), p);
    SameSide(Num(f, e, k), 10 * Den(e, k), p);
    SameSide(10 * v, sv, t);
    SameSide(v, 10 * sv, t);
  }

  /** The factor by which the numbers differ from those of the corrected exponent. */
  function Surplus(k: int, botched: bool): (u: nat)
    ensures u > 0
  {
    if botched && k > 0 then 10 else 1
  }

  /** The decimal exponent after the correction. */
  function Corrected(k: int, botched: bool): int {
    if botched then k - 1 else k
  }

  lemma CorrectedRight(f: nat, e: int, k: int, botched: bool)
    requires Estimated(f, e, k) && (botched <==> Num(f, e, k) < Den(e, k))
    ensures var k1, u := Corrected(k, botched), Surplus(k, botched);
      && Log10(f, e, k1) && Factor(botched) * Num(f, e, k) == Num(f, e, k1) * u && Den(e, k) == Den(e, k1) * u
  {
    hide Num, Den;
    OneLess(f, e, k);
  }

  /** The digits found are those of the value. */
  lemma ShortestMeans(f: nat, e: int, k: int, g: nat, v: nat, sv: nat, lo: nat, t: nat, botched: bool,
      spec: bool, inclusive: bool, ilim: int, s: seq<Digit>, up: bool, i: nat)
    requires SetUp(f, e, k, g, v, sv, lo, t) && Estimated(f, e, k) && (botched <==> Num(f, e, k) < Den(e, k)) && i > 0
    requires ShortestOrRounded(Factor(botched) * v, sv, Factor(botched) * lo, Twice(spec) * (Factor(botched) * lo),
      inclusive, ilim, s, up, i)
    ensures var k1 := Corrected(k, botched);
      ShortestOrRounded(Num(f, e, k1) * Pow(2, g), Den(e, k1) * Pow(2, g), Num(1, e, k1), Twice(spec) * Num(1, e, k1),
        inclusive, ilim, s, up, i)
  {
    hide ShortestOrRounded, Num, Den, Estimated, Log10, Twice;
    var F, h, p, u, k1 := Factor(botched), Twice(spec), Pow(2, g), Surplus(k, botched), Corrected(k, botched);
    CorrectedRight(f, e, k, botched);
    GapCorrected(e, k, botched);
    ScaleResult(F * v, sv, F * lo, h * (F * lo), inclusive, ilim, s, up, i, t);
    assert (F * v) * t == (Num(f, e, k1) * p) * u by {
      Assoc(F, v, t);
      Assoc(F, Num(f, e, k), p);
      Turn(Num(f, e, k1), u, p);
    }
    assert sv * t == (Den(e, k1) * p) * u by {
      Turn(Den(e, k1), u, p);
    }
    assert (F * lo) * t == Num(1, e, k1) * u by {
      Assoc(F, lo, t);
    }
    assert (h * (F * lo)) * t == (h * Num(1, e, k1)) * u by {
      Assoc(h, F * lo, t);
      Assoc(h, Num(1, e, k1), u);
    }
    ScaleResult(Num(f, e, k1) * p, Den(e, k1) * p, Num(1, e, k1), h * Num(1, e, k1), inclusive, ilim, s, up, i, u);
  }

  lemma GapCorrected(e: int, k: int, botched: bool)
    ensures Factor(botched) * Num(1, e, k) == Num(1, e, Corrected(k, botched)) * Surplus(k, botched)
  {
    hide Num, Den;
    OneLess(1, e, k);
  }

  /** The rounded digits are those of the value. */
  lemma NearestMeans(f: nat, e: int, k: int, v: nat, sv: nat, t: nat, g: nat, lo: nat, botched: bool, n: nat, d: nat,
      r: nat)
    requires SetUp(f, e, k, g, v, sv, lo, t) && Estimated(f, e, k) && (botched <==> Num(f, e, k) < Den(e, k))
    requires d > 0 && Nearest((Factor(botched) * v) * n, sv * d, r)
    ensures var k1 := Corrected(k, botched); Nearest(Num(f, e, k1) * n, Den(e, k1) * d, r)
  {
    hide Nearest, Num, Den, Estimated, Log10;
    var F, p, u, k1 := Factor(botched), Pow(2, g), Surplus(k, botched), Corrected(k, botched);
    CorrectedRight(f, e, k, botched);
    ScaleNearest((F * v) * n, sv * d, r, t);
    assert ((F * v) * n) * t == ((Num(f, e, k1) * n) * p) * u by {
      Turn(F * v, n, t);
      Assoc(F, v, t);
      Assoc(F, Num(f, e, k), p);
      Turn(Num(f, e, k1) * n, p, u);
      Turn(Num(f, e, k1), n, u);
      Turn(Num(f, e, k1) * u, n, p);
    }
    assert (sv * d) * t == ((Den(e, k1) * d) * p) * u by {
      Turn(sv, d, t);
      Turn(Den(e, k1) * d, p, u);
      Turn(Den(e, k1), d, u);
      Turn(Den(e, k1) * u, d, p);
    }
    ScaleNearest((Num(f, e, k1) * n) * p, (Den(e, k1) * d) * p, r, u);
    ScaleNearest(Num(f, e, k1) * n, Den(e, k1) * d, r, p);
  }

  /** The powers of five. */
  method Fives(cache: PowerCache, b0: Bigint, b5: nat, leftright: bool) returns (b: Bigint, mhi: Bigint)
    requires cache.Valid() && cache.Apart(b0) && b0.Valid() && b0.V() > 0
    modifies cache, b0, b0.x
    ensures cache.Valid() && cache.Apart(b) && cache.Apart(mhi)
    ensures b.Valid() && b.V() == old(b0.V()) * Pow(5, b5) && b.V() > 0 && (b == b0 || (fresh(b) && fresh(b.x)))
    ensures mhi.Valid() && mhi.V() == (if leftright then Pow(5, b5) else 1) && fresh(mhi) && fresh(mhi.x)
    ensures b != mhi && b.x != mhi.x
  {
    b := b0;
    mhi := I2B(1);
    PositiveProduct(b.V(), Pow(5, b5));
    if b5 > 0 {
      if leftright {
        mhi := cache.Pow5Mult(mhi, b5);
        b := Mult(mhi, b);
        Commute(Pow(5, b5), old(b0.V()));
      } else {
        b := cache.Pow5Mult(b, b5);
      }
    } else {
      assert Pow(5, 0) == 1;
    }
  }

  /** The divisor, a power of five. */
  method Divisor(cache: PowerCache, s5: nat, b: Bigint, mhi: Bigint) returns (S: Bigint)
    requires cache.Valid() && cache.Apart(b) && cache.Apart(mhi)
    modifies cache
    ensures cache.Valid() && cache.Apart(b) && cache.Apart(mhi) && cache.Apart(S)
    ensures fresh(S) && fresh(S.x) && S.Valid() && S.V() == Pow(5, s5) && S.V() > 0
  {
    S := I2B(1);
    assert Pow(5, 0) == 1;
    if s5 > 0 {
      S := cache.Pow5Mult(S, s5);
    }
  }

  /** `b2`, `m2` and `s2` before a common power of two is taken out, for a gap of `g` bits. */
  method Exponents(e: int, k: int, g: nat) returns (b2: nat, m2: nat, s2: nat, b5: nat, s5: nat)
    ensures b5 == Pos(0 - k) && s5 == Pos(k)
    ensures m2 == Pos(e) + b5 && b2 == m2 + g && s2 == Pos(0 - e) + s5 + g
  {
    var j := 0 - e;
    b2, s2 := 0, 0;
    if j >= 0 {
      s2 := j;
    } else {
      b2 := e;
    }
    if k >= 0 {
      b5, s5, s2 := 0, k, s2 + k;
    } else {
      b2, b5, s5 := b2 - k, 0 - k, 0;
    }
    m2, b2, s2 := b2, b2 + g, s2 + g;
  }

  /** The numbers from which the digits are generated. */
  method SetAll(cache: PowerCache, b0: Bigint, e: int, g: nat, spec: bool, k: int, leftright: bool)
    returns (b: Bigint, S: Bigint, mhi: Bigint, b2: nat, m2: nat, s2: nat, ghost t: nat, ghost lo: nat)
    requires cache.Valid() && cache.Apart(b0) && b0.Valid() && b0.V() > 0
    modifies cache, b0, b0.x
    ensures cache.Valid() && cache.Apart(b) && cache.Apart(S) && cache.Apart(mhi)
    ensures b.Valid() && S.Valid() && mhi.Valid() && b.V() > 0 && S.V() > 0 && mhi.V() > 0
    ensures b != S && b.x != S.x && b != mhi && b.x != mhi.x && mhi != S && mhi.x != S.x
    ensures (b == b0 || (fresh(b) && fresh(b.x))) && fresh(S) && fresh(S.x) && fresh(mhi) && fresh(mhi.x)
    ensures SetUp(old(b0.V()), e, k, g + if spec then 1 else 0, b.V() * Pow(2, b2), S.V() * Pow(2, s2), lo, t)
    ensures leftright ==> lo == mhi.V() * Pow(2, m2)
  {
    hide SetUp, Pow;
    ghost var f := b0.V();
    var b5, s5;
    b2, m2, s2, b5, s5 := Exponents(e, k, g);
    var c := Common(m2, s2);
    b2, m2, s2 := b2 - c, m2 - c, s2 - c;
    b, mhi := Fives(cache, b0, b5, leftright);
    S := Divisor(cache, s5, b, mhi);
    if spec {
      b2, s2 := b2 + 1, s2 + 1;
    }
    SetUpFor(f, e, k, g + if spec then 1 else 0, c, b.V(), b2, S.V(), s2, Pow(5, b5), m2);
    t, lo := Pow(2, c), Pow(5, b5) * Pow(2, m2);
  }

  /** The digits and the decimal point: nothing if the value rounds to zero. */
  function PointAt(limit: Limit, kd: int, s: seq<Digit>, up: bool): int {
    if s == [] && limit.Decimals? then 0 - limit.n else kd + if up then 2 else 1
  }

  lemma ShortestFinal(f: nat, e: int, k: int, g: nat, spec: bool, inclusive: bool, ilim: int, s: seq<Digit>, up: bool,
      i: nat)
    requires f > 0 && g >= 1 && i > 0
    requires var p := Pow(2, g + if spec then 1 else 0);
      ShortestOrRounded(Num(f, e, k) * p, Den(e, k) * p, Num(1, e, k), Twice(spec) * Num(1, e, k), inclusive, ilim, s,
        up, i)
    ensures var p := Pow(2, g + if spec then 1 else 0);
      BestOrRounded(Num(f, e, k) * p, Den(e, k) * p, Num(1, e, k), Twice(spec) * Num(1, e, k), inclusive, ilim, s, up,
        i)
  {
    hide ShortestOrRounded, BestOrRounded, Mantissa, Num, Den, Twice;
    var p := Pow(2, g + if spec then 1 else 0);
    MantissaSet(f, e, k, g, spec);
    PositiveProduct(Den(e, k), p);
    ShortestBest(f, e, k, g, Num(f, e, k) * p, Den(e, k) * p, Num(1, e, k), Twice(spec) * Num(1, e, k), inclusive,
      ilim, s, up, i);
  }

  /** The last place that is asked for, in a value whose first digit stands for 10^k; with no digits, one is given. */
  function LastPlace(limit: Limit, k: int): int
    requires !limit.Free?
  {
    match limit
    case Digits(n) => if n > 0 then k - n + 1 else k
    case Decimals(n) => 0 - n
  }

  /** Rounded as the limit says. */
  lemma RoundedRight(f: nat, e: int, k: int, limit: Limit, s: seq<Digit>, up: bool)
    requires !limit.Free? && Log10(f, e, k)
    requires var places := Ilim(limit, k); places <= 0 ==>
      (s == [] || s == [1]) && up == (s != []) && Nearest(Num(f, e, k), Den(e, k) * Pow(10, 1 - places), |s|)
    requires var places := Ilim(limit, k); places > 0 ==>
      0 < |s| <= places && Nearest(Num(f, e, k) * Pow(10, places - 1), Den(e, k), Scaled(s, places, up))
    ensures Rounded(f, e, LastPlace(limit, k), s, PointAt(limit, k, s, up))
  {
    hide Nearest, Num, Den, Pow, Log10, Rounded, Scaled;
    var places := Ilim(limit, k);
    if places <= 0 {
      RoundedAbove(f, e, k, 1 - places, s, PointAt(limit, k, s, up));
    } else {
      RoundedPlaces(f, e, k, places, s, up);
    }
  }

  /** Nearest of the shortest numbers that denote the value, with `i` digits counted from 10^k. */
  ghost predicate Shortened(f: nat, e: int, g: nat, spec: bool, inclusive: bool, k: int, s: seq<Digit>, decpt: int,
      i: nat) {
    var p := Pow(2, g + if spec then 1 else 0);
    var v, sv, lo, hi := Num(f, e, k) * p, Den(e, k) * p, Num(1, e, k), Twice(spec) * Num(1, e, k);
    && 1 <= |s| <= i && NoShorter(v, sv, lo, hi, inclusive, i)
    && Best(v, sv, lo, hi, inclusive, i, Scaled(s, i, decpt == k + 2))
  }

  /** The shortest digits, or rounded to `n` digits, or to a multiple of 10^(-n), and no more digits than that. */
  ghost predicate LimitMet(f: nat, e: int, g: nat, spec: bool, inclusive: bool, k: int, limit: Limit, s: seq<Digit>,
      decpt: int, i: nat) {
    match limit
    case Free => Shortened(f, e, g, spec, inclusive, k, s, decpt, i)
    case Digits(n) =>
      var m := if n > 0 then n else 1;
      && |s| <= m
      && (Shortened(f, e, g, spec, inclusive, k, s, decpt, i) || Rounded(f, e, k - m + 1, s, decpt))
    case Decimals(n) =>
      && |s| <= decpt + n
      && (Shortened(f, e, g, spec, inclusive, k, s, decpt, i) || Rounded(f, e, 0 - n, s, decpt))
  }

  lemma LimitRight(f: nat, e: int, g: nat, spec: bool, inclusive: bool, k: int, limit: Limit, s: seq<Digit>, up: bool,
      i: nat)
    requires Log10(f, e, k) && f > 0 && i > 0 && s != [] && (limit.Decimals? ==> Ilim(limit, k) > 0)
    requires var p := Pow(2, g + if spec then 1 else 0);
      BestOrRounded(Num(f, e, k) * p, Den(e, k) * p, Num(1, e, k), Twice(spec) * Num(1, e, k), inclusive,
        Ilim(limit, k), s, up, i)
    ensures LimitMet(f, e, g, spec, inclusive, k, limit, s, PointAt(limit, k, s, up), i)
  {
    hide Nearest, Num, Den, Pow, Log10, Rounded, Scaled, Best, NoShorter;
    var p := Pow(2, g + if spec then 1 else 0);
    if i == Ilim(limit, k) && Nearest((Num(f, e, k) * p) * Pow(10, i - 1), Den(e, k) * p, Scaled(s, i, up)) {
      Turn(Num(f, e, k), p, Pow(10, i - 1));
      ScaleNearest(Num(f, e, k) * Pow(10, i - 1), Den(e, k), Scaled(s, i, up), p);
      RoundedRight(f, e, k, limit, s, up);
    }
  }

  lemma FewRight(f: nat, e: int, g: nat, spec: bool, inclusive: bool, k: int, limit: Limit, s: seq<Digit>, up: bool,
      i: nat)
    requires Log10(f, e, k) && limit.Decimals? && Ilim(limit, k) <= 0 && (s == [] || s == [1]) && up == (s != [])
    requires Nearest(Num(f, e, k) * 1, Den(e, k) * Pow(10, 1 - Ilim(limit, k)), |s|)
    ensures LimitMet(f, e, g, spec, inclusive, k, limit, s, PointAt(limit, k, s, up), i)
  {
    hide Nearest, Num, Den, Pow, Log10, Shortened;
    RoundedRight(f, e, k, limit, s, up);
  }

  /**
   Modes 0, 1, 4 and 5 of `dtoa` for `f * 2^e`, where `b0` is `f`, `k` is the decimal exponent or one more, and half
   the distance to the next larger number is 2^(e - g); below a power of two it is half of that (`spec`). For a double
   `g` is the number of bits that `f` has less than the mantissa, and one (`1 + P - bbits`, or more for a denormal).
   `kd` is the decimal exponent. The digits are the nearest of the shortest, or rounded.
   */
  method DtoaShortest(cache: PowerCache, b0: Bigint, e: int, g: nat, spec: bool, inclusive: bool, k: int, limit: Limit)
    returns (s: seq<Digit>, decpt: int, i: nat, kd: int)
    requires cache.Valid() && cache.Apart(b0) && b0.Valid() && b0.V() > 0 && Estimated(b0.V(), e, k) && g >= 1
    modifies cache, b0, b0.x
    ensures cache.Valid() && Log10(old(b0.V()), e, kd)
    ensures var f, places, p := old(b0.V()), Ilim(limit, kd), Pow(2, g + if spec then 1 else 0);
      if limit.Decimals? && places <= 0 then
        && (s == [] || s == [1]) && decpt == PointAt(limit, kd, s, s != [])
        && Nearest(Num(f, e, kd) * 1, Den(e, kd) * Pow(10, 1 - places), |s|)
      else
        && i > 0 && s != [] && s[0] > 0 && (decpt == kd + 1 || decpt == kd + 2)
        && BestOrRounded(Num(f, e, kd) * p, Den(e, kd) * p, Num(1, e, kd), Twice(spec) * Num(1, e, kd),
             inclusive, places, s, decpt == kd + 2, i)
    ensures LimitMet(old(b0.V()), e, g, spec, inclusive, kd, limit, s, decpt, i)
  {
    hide ShortestOrRounded, BestOrRounded, Mantissa, Nearest, Num, Den, Pow, Log10, Estimated, Factor, Twice, SetUp,
      LimitMet;
    ghost var f, g1 := b0.V(), g + if spec then 1 else 0;
    var b, S, mhi, b2, m2, s2;
    ghost var t, lo;
    b, S, mhi, b2, m2, s2, t, lo := SetAll(cache, b0, e, g, spec, k, true);
    ghost var v, sv := b.V() * Pow(2, b2), S.V() * Pow(2, s2);
    EstimateHolds(f, e, k, g1, v, sv, lo, t);
    var up, botched;
    s, up, i, botched := Shortest(b, S, mhi, b2, m2, s2, spec, inclusive, limit.Decimals?, Ilim(limit, k),
      Ilim(limit, k - 1));
    kd := Corrected(k, botched);
    decpt := PointAt(limit, kd, s, up);
    CorrectedRight(f, e, k, botched);
    ghost var places := Ilim(limit, kd);
    if limit.Decimals? && places <= 0 {
      NearestMeans(f, e, k, v, sv, t, g1, lo, botched, 1, Pow(10, 1 - places), |s|);
      FewRight(f, e, g, spec, inclusive, kd, limit, s, up, i);
    } else {
      ShortestMeans(f, e, k, g1, v, sv, lo, t, botched, spec, inclusive, places, s, up, i);
      ShortestFinal(f, e, kd, g, spec, inclusive, places, s, up, i);
      LimitRight(f, e, g, spec, inclusive, kd, limit, s, up, i);
    }
  }

  /** Modes 2 and 3 of `dtoa` for `f * 2^e`: the digits are rounded correctly to the places asked for. */
  method DtoaFixed(cache: PowerCache, b0: Bigint, e: int, k: int, limit: Limit)
      returns (s: seq<Digit>, decpt: int, kd: int)
    requires cache.Valid() && cache.Apart(b0) && b0.Valid() && b0.V() > 0 && Estimated(b0.V(), e, k) && !limit.Free?
    modifies cache, b0, b0.x
    ensures cache.Valid() && Log10(old(b0.V()), e, kd)
    ensures var f, places := old(b0.V()), Ilim(limit, kd);
      if places <= 0 then
        && (s == [] || s == [1]) && decpt == PointAt(limit, kd, s, s != [])
        && Nearest(Num(f, e, kd) * 1, Den(e, kd) * Pow(10, 1 - places), |s|)
      else
        && s != [] && s[0] > 0 && s[|s| - 1] > 0 && |s| <= places && (decpt == kd + 1 || decpt == kd + 2)
        && Nearest(Num(f, e, kd) * Pow(10, places - 1), Den(e, kd) * 1, Scaled(s, places, decpt == kd + 2))
    ensures limit.Digits? && limit.n > 0 ==> |s| <= limit.n && Rounded(old(b0.V()), e, kd - limit.n + 1, s, decpt)
    ensures limit.Decimals? ==> Rounded(old(b0.V()), e, 0 - limit.n, s, decpt)
  {
    hide Nearest, Num, Den, Pow, Log10, Estimated, Factor, SetUp, Rounded;
    ghost var f := b0.V();
    var b, S, mhi, b2, m2, s2;
    ghost var t, lo;
    b, S, mhi, b2, m2, s2, t, lo := SetAll(cache, b0, e, 0, false, k, false);
    ghost var v, sv := b.V() * Pow(2, b2), S.V() * Pow(2, s2);
    EstimateHolds(f, e, k, 0, v, sv, lo, t);
    var up, botched;
    s, up, botched := Fixed(b, S, b2, s2, limit.Decimals?, Ilim(limit, k), Ilim(limit, k - 1));
    kd := Corrected(k, botched);
    decpt := PointAt(limit, kd, s, up);
    CorrectedRight(f, e, k, botched);
    ghost var places := Ilim(limit, kd);
    if places <= 0 {
      NearestMeans(f, e, k, v, sv, t, 0, lo, botched, 1, Pow(10, 1 - places), |s|);
    } else {
      NearestMeans(f, e, k, v, sv, t, 0, lo, botched, Pow(10, places - 1), 1, Scaled(s, places, up));
    }
    RoundedRight(f, e, kd, limit, s, up);
  }
}
