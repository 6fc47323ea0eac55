/**
 Common factors and decimal exponents (dtoa.c): what the digits say of a quotient does not change when both
 numbers are multiplied, and the exact quotient that belongs to a mantissa, a binary and a decimal exponent.
 */
module DigitScaling {
  import opened Powers
  import opened BigLimbs
  import opened Bigints
  import opened DigitGen

  /** A common factor does not change what is within the gaps. */
  lemma ScaleGap(v: nat, sv: nat, lo: nat, hi: nat, inclusive: bool, i: nat, e: nat, c: nat)
    requires i > 0 && c > 0
    ensures InGap(v * c, sv * c, lo * c, hi * c, inclusive, i, e) <==> InGap(v, sv, lo, hi, inclusive, i, e)
  {
    var p := Pow(10, i - 1);
    var error: int := v * p - e * sv;
    Turn(v, c, p);
    Turn(lo, c, p);
    Turn(hi, c, p);
    Assoc(e, sv, c);
    Sub2(v * p, e * sv, c);
    SameSide(error, lo * p, c);
    SameSide(0 - error, hi * p, c);
    SignTimes(error, c);
  }

  lemma Turn(a: int, c: int, p: int)
    ensures (a * c) * p == (a * p) * c
  {
    Assoc(a, c, p);
    Assoc(a, p, c);
  }

  lemma SameSide(error: int, gap: int, c: int)
    requires c > 0
    ensures (error * c < gap * c <==> error < gap) && (error * c == gap * c <==> error == gap)
    ensures 0 - error * c == (0 - error) * c
  {
    if error < gap {
      Monotone(error + 1, gap, c);
      Add2(error, 1, c);
    } else if error > gap {
      Monotone(gap + 1, error, c);
      Add2(gap, 1, c);
    }
  }

  lemma SignTimes(error: int, c: int)
    requires c > 0
    ensures error * c >= 0 <==> error >= 0
  {
    if error < 0 {
      Monotone(error, -1, c);
    } else {
      Monotone(0, error, c);
    }
  }

  lemma ScaleNearest(n: int, d: nat, r: nat, c: nat)
    requires c > 0
    ensures Nearest(n * c, d * c, r) <==> Nearest(n, d, r)
  {
    var e: int := n - r * d;
    Assoc(r, d, c);
    Sub2(n, r * d, c);
    Assoc(2, e, c);
    SameSide(2 * e, d, c);
    SameSide(0 - 2 * e, d, c);
  }

  lemma ScaleDistance(v: nat, sv: nat, i: nat, e: nat, c: nat)
    requires i > 0 && c > 0
    ensures Distance(v * c, sv * c, i, e) == Distance(v, sv, i, e) * c
  {
    var p := Pow(10, i - 1);
    Turn(v, c, p);
    Assoc(e, sv, c);
    Sub2(v * p, e * sv, c);
    SignTimes(v * p - e * sv, c);
    Sub2(e * sv, v * p, c);
  }

  lemma ScaleBoundary(v: nat, sv: nat, hi: nat, i: nat, e: nat, c: nat)
    requires i > 0 && c > 0
    ensures OnBoundary(v * c, sv * c, hi * c, i, e) <==> OnBoundary(v, sv, hi, i, e)
  {
    var p := Pow(10, i - 1);
    Turn(v, c, p);
    Turn(hi, c, p);
    Assoc(e, sv, c);
    Sub2(e * sv, v * p, c);
    SameSide(e * sv - v * p, hi * p, c);
  }

  lemma ScaleClosest(v: nat, sv: nat, lo: nat, hi: nat, inclusive: bool, i: nat, e: nat, c: nat)
    requires i > 0 && c > 0
    ensures Closest(v * c, sv * c, lo * c, hi * c, inclusive, i, e) <==> Closest(v, sv, lo, hi, inclusive, i, e)
  {
    hide Distance, OnBoundary, InGap, Preferred;
    ScaleGap(v, sv, lo, hi, inclusive, i, e, c);
    ScaleBoundary(v, sv, hi, i, e, c);
    forall e1: nat
      ensures InGap(v * c, sv * c, lo * c, hi * c, inclusive, i, e1) <==> InGap(v, sv, lo, hi, inclusive, i, e1)
      ensures Preferred(v * c, sv * c, hi * c, i, e, e1) <==> Preferred(v, sv, hi, i, e, e1)
    {
      ScaleGap(v, sv, lo, hi, inclusive, i, e1, c);
      ScalePreferred(v, sv, hi, i, e, e1, c);
    }
  }

  lemma ScalePreferred(v: nat, sv: nat, hi: nat, i: nat, e: nat, e1: nat, c: nat)
    requires i > 0 && c > 0
    ensures Preferred(v * c, sv * c, hi * c, i, e, e1) <==> Preferred(v, sv, hi, i, e, e1)
  {
    hide Distance, OnBoundary;
    ScaleBoundary(v, sv, hi, i, e, c);
    ScaleBoundary(v, sv, hi, i, e1, c);
    ScaleDistance(v, sv, i, e, c);
    ScaleDistance(v, sv, i, e1, c);
    SameSide(Distance(v, sv, i, e), Distance(v, sv, i, e1), c);
  }

  /** A common factor does not change which digits are the shortest. */
  lemma ScaleResult(v: nat, sv: nat, lo: nat, hi: nat, inclusive: bool, ilim: int, s: seq<Digit>, up: bool, i: nat,
      c: nat)
    requires i > 0 && c > 0
    ensures ShortestOrRounded(v * c, sv * c, lo * c, hi * c, inclusive, ilim, s, up, i) <==>
      ShortestOrRounded(v, sv, lo, hi, inclusive, ilim, s, up, i)
  {
    hide InGap, Closest, Nearest;
    forall j: nat, e: nat | 0 < j < i
      ensures InGap(v * c, sv * c, lo * c, hi * c, inclusive, j, e) <==> InGap(v, sv, lo, hi, inclusive, j, e)
    {
      ScaleGap(v, sv, lo, hi, inclusive, j, e, c);
    }
    assert NoShorter(v * c, sv * c, lo * c, hi * c, inclusive, i) <==> NoShorter(v, sv, lo, hi, inclusive, i);
    if 1 <= |s| <= i {
      ScaleClosest(v, sv, lo, hi, inclusive, i, Scaled(s, i, up), c);
      Turn(v, c, Pow(10, i - 1));
      ScaleNearest(v * Pow(10, i - 1), sv, Scaled(s, i, up), c);
    }
  }

  // ----- mantissa and exponents -----

  function Pos(n: int): nat {
    if n > 0 then n else 0
  }

  /** The value `f * 2^e`, divided by 10^k, is `Num(f, e, k) / Den(e, k)`. */
  function Num(f: nat, e: int, k: int): nat {
    (f * Pow(2, Pos(e))) * Pow(10, Pos(0 - k))
  }

  function Den(e: int, k: int): (d: nat)
    ensures d > 0
  {
    PositiveProduct(Pow(2, Pos(0 - e)), Pow(10, Pos(k)));
    Pow(2, Pos(0 - e)) * Pow(10, Pos(k))
  }

  /** `k` is the decimal exponent of `f * 2^e`, or one more. */
  predicate Estimated(f: nat, e: int, k: int) {
    Den(e, k) <= 10 * Num(f, e, k) && Num(f, e, k) < 10 * Den(e, k)
  }

  /** `k` is the decimal exponent: 10^k is the largest power of ten up to the value. */
  predicate Log10(f: nat, e: int, k: int) {
    Den(e, k) <= Num(f, e, k) < 10 * Den(e, k)
  }

  /** The value in units of 10^(k - n) is 10^n times the value in units of 10^k. */
  lemma Units(f: nat, e: int, k: int, n: nat) returns (x: nat, y: nat)
    ensures x > 0 && y > 0
    ensures (Num(f, e, k) * Pow(10, n)) * x == Num(f, e, k - n) * y && Den(e, k) * x == Den(e, k - n) * y
  {
    hide Pow;
    x, y := Pow(10, Pos(k - n)), Pow(10, Pos(k));
    var a, b, p, q := f * Pow(2, Pos(e)), Pow(2, Pos(0 - e)), Pow(10, Pos(0 - k)), Pow(10, Pos(n - k));
    PowAdd(10, Pos(0 - k), n);
    PowAdd(10, Pos(0 - k) + n, Pos(k - n));
    PowAdd(10, Pos(n - k), Pos(k));
    assert (p * Pow(10, n)) * x == q * y;
    Assoc(a, p, Pow(10, n));
    Assoc(a, p * Pow(10, n), x);
    Assoc(a, q, y);
    Turn(b, y, x);
  }

  /** The digits with the point at `decpt` are the value rounded half-even to a multiple of 10^u. */
  ghost predicate Rounded(f: nat, e: int, u: int, s: seq<Digit>, decpt: int) {
    |s| <= decpt - u && Nearest(Num(f, e, u), Den(e, u), Number(s) * Pow(10, decpt - u - |s|))
  }

  /** Rounded to so many digits, counted from the first one. */
  lemma RoundedPlaces(f: nat, e: int, k: int, places: nat, s: seq<Digit>, up: bool)
    requires 0 < places && |s| <= places
    requires Nearest(Num(f, e, k) * Pow(10, places - 1), Den(e, k), Scaled(s, places, up))
    ensures Rounded(f, e, k + 1 - places, s, k + if up then 2 else 1)
  {
    hide Nearest, Num, Den, Pow;
    var x, y := Units(f, e, k, places - 1);
    var r := Scaled(s, places, up);
    ScaleNearest(Num(f, e, k) * Pow(10, places - 1), Den(e, k), r, x);
    ScaleNearest(Num(f, e, k + 1 - places), Den(e, k + 1 - places), r, y);
  }

  /** Rounded to a place above the first digit. */
  lemma RoundedAbove(f: nat, e: int, k: int, m: nat, s: seq<Digit>, decpt: int)
    requires m > 0 && (s == [] || s == [1]) && Log10(f, e, k)
    requires Nearest(Num(f, e, k), Den(e, k) * Pow(10, m), |s|) && decpt == if s == [] then k + m else k + 2
    ensures Rounded(f, e, k + m, s, decpt)
  {
    hide Nearest, Num, Den, Log10;
    var t := Pow(10, m);
    var x, y := Units(f, e, k + m, m);
    ScaleNearest(Num(f, e, k), Den(e, k) * t, |s|, y);
    Turn(Den(e, k), t, y);
    Turn(Den(e, k + m), x, t);
    Turn(Num(f, e, k + m), t, x);
    ScaleNearest(Num(f, e, k + m) * x, Den(e, k + m) * x, |s|, t);
    ScaleNearest(Num(f, e, k + m), Den(e, k + m), |s|, x);
    if s != [] {
      OneAbove(f, e, k, m);
    }
    assert Number(s) == |s| && Pow(10, 0) == 1;
  }

  /** A value below the place rounds to one unit only from just below it. */
  lemma OneAbove(f: nat, e: int, k: int, m: nat)
    requires m > 0 && Log10(f, e, k) && Nearest(Num(f, e, k), Den(e, k) * Pow(10, m), 1)
    ensures m == 1
  {
    hide Num, Den;
    if m > 1 {
      Hundredfold(Den(e, k), m);
    }
  }

  lemma Hundredfold(d: nat, m: nat)
    requires m > 1
    ensures d * Pow(10, m) >= 100 * d
  {
    PowAdd(10, 2, m - 2);
    var t := Pow(10, m - 2);
    assert Pow(10, m) == 100 * t;
    Assoc(d, t, 100);
    assert d * t >= d;
  }

  lemma {:induction false} PowTen(n: nat)
    ensures Pow(10, n) == Pow(5, n) * Pow(2, n)
  {
    if n > 0 {
      PowTen(n - 1);
      var p, q := Pow(5, n - 1), Pow(2, n - 1);
      assert (5 * p) * (2 * q) == 10 * (p * q) by {
        Swap3(5 * p, 2, q);
        Assoc(5, p, q);
      }
    }
  }

  /** A decimal exponent that is one less makes the quotient ten times as large. */
  lemma OneLess(f: nat, e: int, k: int)
    ensures k <= 0 ==> Num(f, e, k - 1) == 10 * Num(f, e, k) && Den(e, k - 1) == Den(e, k)
    ensures k > 0 ==> Num(f, e, k - 1) == Num(f, e, k) && Den(e, k) == 10 * Den(e, k - 1)
  {
    if k <= 0 {
      assert Pow(10, Pos(1 - k)) == 10 * Pow(10, Pos(0 - k));
      Swap3(f * Pow(2, Pos(e)), 10, Pow(10, Pos(0 - k)));
    } else {
      assert Pow(10, Pos(k)) == 10 * Pow(10, Pos(k - 1));
      Swap3(Pow(2, Pos(0 - e)), 10, Pow(10, Pos(k - 1)));
    }
  }

  /** Powers of five and of two, as they are kept apart, are the value's power of ten and the rest. */
  lemma Apart(f: nat, a: nat, p: nat, g: nat)
    ensures (f * Pow(5, a)) * Pow(2, p + a + g) == ((f * Pow(2, p)) * Pow(10, a)) * Pow(2, g)
  {
    PowTen(a);
    PowAdd(2, p, a);
    PowAdd(2, p + a, g);
    var x, y, z, w := Pow(5, a), Pow(2, p), Pow(2, a), Pow(2, g);
    assert (f * x) * ((y * z) * w) == ((f * y) * (x * z)) * w by {
      Assoc(f * x, y * z, w);
      Assoc(f * x, y, z);
      Turn(f, x, y);
      Assoc(f * y, x, z);
    }
  }

  function Twice(spec: bool): (f: nat)
    ensures f > 0
  {
    if spec then 2 else 1
  }

  // ----- no exceptions for numbers with a mantissa -----

  /** `e` is nearer than `e1`, or as near and even. */
  ghost predicate Nearer(v: nat, sv: nat, i: nat, e: nat, e1: nat)
    requires i > 0
  {
    || e1 == e || Distance(v, sv, i, e) < Distance(v, sv, i, e1)
    || (Distance(v, sv, i, e) == Distance(v, sv, i, e1) && e % 2 == 0)
  }

  /** `e` is within the gaps, and nearer than all others that are. */
  ghost predicate Best(v: nat, sv: nat, lo: nat, hi: nat, inclusive: bool, i: nat, e: nat)
    requires i > 0
  {
    && InGap(v, sv, lo, hi, inclusive, i, e)
    && forall e1: nat {:trigger InGap(v, sv, lo, hi, inclusive, i, e1)} ::
         InGap(v, sv, lo, hi, inclusive, i, e1) ==> Nearer(v, sv, i, e, e1)
  }

  /** The nearest of the shortest numbers within the gaps, or rounded at `ilim` digits. */
  ghost predicate BestOrRounded(v: nat, sv: nat, lo: nat, hi: nat, inclusive: bool, ilim: int, s: seq<Digit>,
      up: bool, i: nat) {
    && 1 <= |s| <= i && (ilim > 0 ==> i <= ilim) && NoShorter(v, sv, lo, hi, inclusive, i)
    && (Best(v, sv, lo, hi, inclusive, i, Scaled(s, i, up))
        || (i == ilim && Nearest(v * Pow(10, i - 1), sv, Scaled(s, i, up))))
  }

  lemma Odd(x: int, y: int)
    requires x % 2 == 1 && y % 2 == 1
    ensures (x * y) % 2 == 1
  {
    var a, b := x / 2, y / 2;
    assert x * y == 2 * (2 * (a * b) + a + b) + 1 by {
      assert x == 2 * a + 1 && y == 2 * b + 1;
      assert (2 * a + 1) * (2 * b + 1) == 2 * a * (2 * b + 1) + (2 * b + 1);
      assert 2 * a * (2 * b + 1) == 4 * (a * b) + 2 * a;
    }
  }

  lemma {:induction false} OddFives(n: nat)
    ensures Pow(5, n) % 2 == 1
  {
    if n > 0 {
      OddFives(n - 1);
    }
  }

  /** Numbers are equal if their odd parts are. */
  lemma {:induction false} OddPart(a: nat, x: nat, b: nat, y: nat)
    requires Pow(2, a) * x == Pow(2, b) * y && x % 2 == 1 && y % 2 == 1
    ensures x == y
    decreases a
  {
    if a > 0 {
      Assoc(2, Pow(2, a - 1), x);
    }
    if b > 0 {
      Assoc(2, Pow(2, b - 1), y);
    }
    if a > 0 && b > 0 {
      OddPart(a - 1, x, b - 1, y);
    }
  }

  /** No power of five lies between ten and twenty. */
  lemma {:induction false} NotBetween(n: nat)
    ensures Pow(5, n) < 10 || Pow(5, n) >= 20
  {
    if n > 2 {
      NotBetween(n - 1);
      FiveGrows(n - 1);
    } else {
      assert Pow(5, 0) == 1 && Pow(5, 1) == 5 && Pow(5, 2) == 25;
    }
  }

  lemma {:induction false} FiveGrows(n: nat)
    requires n >= 2
    ensures Pow(5, n) >= 20
  {
    if n > 2 {
      FiveGrows(n - 1);
    } else {
      assert Pow(5, 1) == 5 && Pow(5, 2) == 25;
    }
  }

  /** The two sides of the boundary equation, as powers of two and odd numbers. */
  lemma SidesUp(e: int, k: nat, g: nat, m: nat)
    ensures 10 * Den(e, k) * Pow(2, g) == Pow(2, 1 + Pos(0 - e) + k + g) * Pow(5, k + 1)
    ensures Num(1, e, k) * m == Pow(2, Pos(e)) * m
  {
    var n, d, q := Pos(0 - e), Den(e, k), Pow(2, g);
    Apart(5, k, n, g + 1);
    Assoc(5, Pow(2, n), Pow(10, k));
    Assoc(5 * d, 2, q);
    Commute(5 * Pow(5, k), Pow(2, n + k + (g + 1)));
    assert Pow(10, 0) == 1;
  }

  lemma SidesDown(e: int, k: int, g: nat, m: nat)
    requires k < 0
    ensures 10 * Den(e, k) * Pow(2, g) == Pow(2, 1 + Pos(0 - e) + g) * 5
    ensures Num(1, e, k) * m == Pow(2, Pos(e) + (0 - k)) * (Pow(5, 0 - k) * m)
  {
    hide Num, Den, Pow;
    var n, p, j := Pos(0 - e), Pos(e), 0 - k;
    PowTwo(n);
    Apart(1, j, p, 0);
    ZeroPowers();
    NumDown(e, k);
    Assoc(Pow(2, p + j), Pow(5, j), m);
    Commute(Pow(2, p + j), Pow(5, j));
    PowAdd(2, 1 + n, g);
    Turn(Pow(2, n), 10, Pow(2, g));
  }

  lemma PowTwo(n: nat)
    ensures Pow(2, n + 1) == 2 * Pow(2, n)
  {
  }

  lemma ZeroPowers()
    ensures Pow(10, 0) == 1 && Pow(2, 0) == 1 && Pow(2, 1) == 2
  {
  }

  lemma NumDown(e: int, k: int)
    requires k < 0
    ensures Num(1, e, k) == Pow(2, Pos(e)) * Pow(10, 0 - k) && Den(e, k) == Pow(2, Pos(0 - e))
  {
    assert Pow(10, 0) == 1;
  }

  /** A decimal of one digit more is never the upper boundary of a number whose gap is half a digit or more. */
  lemma NoBoundary(f: nat, e: int, k: int, g: nat)
    requires g >= 1 && f > 0
    requires 10 * Den(e, k) * Pow(2, g) == Num(1, e, k) * (f * Pow(2, g) + 1)
    ensures !(10 <= f * Pow(2, g) + 1 < 20)
  {
    var m := f * Pow(2, g) + 1;
    hide Num, Den, Pow;
    PowTwo(g - 1);
    Swap3(f, 2, Pow(2, g - 1));
    assert m == 2 * (f * Pow(2, g - 1)) + 1;
    if k >= 0 {
      SidesUp(e, k, g, m);
      OddFives(k + 1);
      OddPart(1 + Pos(0 - e) + k + g, Pow(5, k + 1), Pos(e), m);
      NotBetween(k + 1);
    } else {
      SidesDown(e, k, g, m);
      OddFives(0 - k);
      Odd(Pow(5, 0 - k), m);
      OddPart(1 + Pos(0 - e) + g, 5, Pos(e) + (0 - k), Pow(5, 0 - k) * m);
      Monotone(1, Pow(5, 0 - k), m);
    }
  }

  /** The numbers from which the digits of `f * 2^e` are generated, when half the gap is the value over `f * 2^g`. */
  ghost predicate Mantissa(f: nat, e: int, k: int, g: nat, v: nat, sv: nat, lo: nat, hi: nat) {
    exists c: nat {:trigger Num(1, e, k) * c} :: c > 0 && hi == Num(1, e, k) * c && 0 < lo <= hi
      && v == f * Pow(2, g) * hi && sv == Den(e, k) * Pow(2, g) * c
  }

  /** Ten on the boundary leaves nothing nearer within the gaps. */
  lemma NothingNearTen(f: nat, e: int, k: int, g: nat, v: nat, sv: nat, lo: nat, hi: nat, inclusive: bool, e1: nat)
    requires g >= 1 && f > 0 && Mantissa(f, e, k, g, v, sv, lo, hi) && 9 * sv <= v
    requires OnBoundary(v, sv, hi, 1, 10)
    ensures Nearer(v, sv, 1, 10, e1)
  {
    var c: nat :| c > 0 && hi == Num(1, e, k) * c && v == f * Pow(2, g) * hi && sv == Den(e, k) * Pow(2, g) * c;
    var m, n, d := f * Pow(2, g) + 1, Num(1, e, k), Den(e, k) * Pow(2, g);
    assert Pow(10, 0) == 1;
    assert 10 * sv == m * hi by {
      Add2(f * Pow(2, g), 1, hi);
    }
    Assoc(m, n, c);
    Assoc(10, d, c);
    SameSide(10 * d, m * n, c);
    Commute(m, n);
    Assoc(10, Den(e, k), Pow(2, g));
    NoBoundary(f, e, k, g);
    SmallMantissa(m, sv, hi, v);
    Distances10(v, sv, hi, e1);
  }

  /** The mantissa with its half unit is at least ten, and twenty if a one-digit number is nearer than the boundary. */
  lemma SmallMantissa(m: nat, sv: nat, hi: nat, v: nat)
    requires hi > 0 && 10 * sv == m * hi && v == (m - 1) * hi && 9 * sv <= v && m > 0 && !(10 <= m < 20)
    ensures sv >= 2 * hi
  {
    Sub2(m, 1, hi);
    assert sv >= hi;
    SameSide(10, m, hi);
    SameSide(20, m, hi);
    if m >= 20 {
      Monotone(20, m, hi);
    } else {
      Monotone(m, 9, hi);
    }
  }

  lemma Distances10(v: nat, sv: nat, hi: nat, e1: nat)
    requires OnBoundary(v, sv, hi, 1, 10) && sv >= 2 * hi && 9 * sv <= v
    ensures Nearer(v, sv, 1, 10, e1)
  {
    assert Pow(10, 0) == 1;
    if e1 <= 9 {
      Monotone(e1, 9, sv);
    } else {
      Monotone(10, e1, sv);
    }
  }

  /** No two numbers within the gaps are as near if one lies on the boundary: the value itself would be nearer. */
  lemma NoTie(f: nat, e: int, k: int, g: nat, v: nat, sv: nat, lo: nat, hi: nat, inclusive: bool, i: nat, e0: nat,
      e1: nat)
    requires g >= 1 && i > 0 && sv > 0 && Mantissa(f, e, k, g, v, sv, lo, hi)
    requires forall x: nat {:trigger InGap(v, sv, lo, hi, inclusive, i, x)} ::
      InGap(v, sv, lo, hi, inclusive, i, x) ==> Preferred(v, sv, hi, i, e0, x)
    requires OnBoundary(v, sv, hi, i, e1) && Distance(v, sv, i, e0) == Distance(v, sv, i, e1)
    ensures e0 == e1
  {
    var p := Pow(10, i - 1);
    var h := hi * p;
    PositiveProduct(hi, p);
    PositiveProduct(lo, p);
    if e0 * sv == e1 * sv {
      SameFactor(e0, e1, sv);
    } else {
      var q := f * Pow(2, g - 1);
      assert Pow(2, g) == 2 * Pow(2, g - 1);
      Swap3(f, 2, Pow(2, g - 1));
      assert v * p == 2 * q * h by {
        Assoc(2 * q, hi, p);
      }
      assert e1 * sv - e0 * sv == 2 * h;
      Sub2(e1, e0, sv);
      SignTimes(e1 - e0, sv);
      var x: nat := q * (e1 - e0);
      assert x * sv == v * p by {
        Assoc(q, e1 - e0, sv);
        Assoc(q, 2, h);
      }
      assert InGap(v, sv, lo, hi, inclusive, i, x);
    }
  }

  lemma SameFactor(a: int, b: int, w: int)
    requires w > 0 && a * w == b * w
    ensures a == b
  {
    SameSide(a, b, w);
  }

  /** For a mantissa with a half unit of at most half of it, what is the closest is the best. */
  lemma ClosestBest(f: nat, e: int, k: int, g: nat, v: nat, sv: nat, lo: nat, hi: nat, inclusive: bool, i: nat, x: nat)
    requires g >= 1 && f > 0 && i > 0 && sv > 0 && Mantissa(f, e, k, g, v, sv, lo, hi)
    requires Closest(v, sv, lo, hi, inclusive, i, x)
    ensures Best(v, sv, lo, hi, inclusive, i, x)
  {
    forall e1: nat | InGap(v, sv, lo, hi, inclusive, i, e1) ensures Nearer(v, sv, i, x, e1) {
      if i == 1 && x == 10 && OnBoundary(v, sv, hi, i, x) && 9 * sv <= v {
        NothingNearTen(f, e, k, g, v, sv, lo, hi, inclusive, e1);
      } else if OnBoundary(v, sv, hi, i, e1) && Distance(v, sv, i, x) == Distance(v, sv, i, e1) {
        NoTie(f, e, k, g, v, sv, lo, hi, inclusive, i, x, e1);
      } else {
        assert Preferred(v, sv, hi, i, x, e1);
      }
    }
  }

  /** The numbers as they are set up are those of the mantissa. */
  lemma MantissaSet(f: nat, e: int, k: int, g: nat, spec: bool)
    requires f > 0
    ensures var p := Pow(2, g + if spec then 1 else 0);
      Mantissa(f, e, k, g, Num(f, e, k) * p, Den(e, k) * p, Num(1, e, k), Twice(spec) * Num(1, e, k))
  {
    var c, n, q := Twice(spec), Num(1, e, k), Pow(2, g);
    var p := Pow(2, g + if spec then 1 else 0);
    assert p == q * c;
    PositiveProduct(Pow(2, Pos(e)), Pow(10, Pos(0 - k)));
    assert Num(f, e, k) == f * n by {
      Assoc(f, Pow(2, Pos(e)), Pow(10, Pos(0 - k)));
    }
    assert (f * n) * p == f * q * (c * n) by {
      Assoc(f, n, p);
      Assoc(f, q, c * n);
      Swap3(n, q, c);
      Commute(n, c);
    }
    Assoc(Den(e, k), q, c);
    Commute(n, c);
    assert c * n == n * c && n * c >= n;
  }

  /** The shortest digits of a mantissa are the best ones, without exception. */
  lemma ShortestBest(f: nat, e: int, k: int, g: nat, v: nat, sv: nat, lo: nat, hi: nat, inclusive: bool, ilim: int,
      s: seq<Digit>, up: bool, i: nat)
    requires g >= 1 && f > 0 && i > 0 && sv > 0 && Mantissa(f, e, k, g, v, sv, lo, hi)
    requires ShortestOrRounded(v, sv, lo, hi, inclusive, ilim, s, up, i)
    ensures BestOrRounded(v, sv, lo, hi, inclusive, ilim, s, up, i)
  {
    hide Closest, Best, NoShorter, Nearest, Mantissa;
    if Closest(v, sv, lo, hi, inclusive, i, Scaled(s, i, up)) {
      ClosestBest(f, e, k, g, v, sv, lo, hi, inclusive, i, Scaled(s, i, up));
    }
  }
}
