/**
 Binary packing (lstrlib.c): values are written one after the other as a format says, with padding for
 alignment, and read back.
 */
module Pack {
  import opened Powers
  import opened Wrappers

  type Byte = b: int | 0 <= b < 256

  const MAXINTSIZE: nat := 16
  const SZINT: nat := 8
  const MAXALIGN: nat := 8
  const INT_MAX: nat := 0x7FFF_FFFF
  const TWO64: nat := 0x1_0000_0000_0000_0000
  const TWO63: nat := 0x8000_0000_0000_0000

  /** A Lua integer has 64 bits. */
  type Integer = n: int | -0x8000_0000_0000_0000 <= n < 0x8000_0000_0000_0000

  datatype Value = Int(n: Integer) | Str(s: seq<Byte>)

  type Result<T> = Wrappers.Result<T, string>

  datatype Header = Header(islittle: bool, maxalign: nat)

  datatype KOption = Kint | Kuint | Kchar | Kstring | Kzstr | Kpadding | Kpaddalign | Knop

  datatype Item = Item(kind: KOption, size: nat, align: nat, next: nat, h: Header)

  // ----- formats -----

  predicate ItemOk(d: Item) {
    && (d.kind.Kint? || d.kind.Kuint? || d.kind.Kstring? ==> 0 < d.size <= MAXINTSIZE)
    && (d.kind.Kzstr? || d.kind.Kpaddalign? || d.kind.Knop? ==> d.size == 0) && (d.kind.Kpadding? ==> d.size == 1)
  }

  predicate Done(fmt: string, i: nat) {
    i >= |fmt| || fmt[i] == '\0'
  }

  predicate Digit(fmt: string, i: nat) {
    i < |fmt| && '0' <= fmt[i] <= '9'
  }

  /** The loop of `getnum`, which stops before the number gets too large. */
  function Digits(fmt: string, i: nat, a: nat): (r: (nat, nat))
    requires Digit(fmt, i)
    ensures i < r.1 <= |fmt|
    decreases |fmt| - i
  {
    var a1 := a * 10 + (fmt[i] as int - '0' as int);
    if Digit(fmt, i + 1) && a1 <= (INT_MAX - 9) / 10 then Digits(fmt, i + 1, a1) else (a1, i + 1)
  }

  function GetNum(fmt: string, i: nat, df: int): (r: (int, nat))
    requires i <= |fmt|
    ensures i <= r.1 <= |fmt|
  {
    if Digit(fmt, i) then Digits(fmt, i, 0) else (df, i)
  }

  /** An option whose number is a size in bytes. */
  function Sized(kind: KOption, h: Header, fmt: string, i: nat, df: nat): (r: Result<Item>)
    requires i <= |fmt|
    ensures r.Ok? ==>
      i <= r.value.next <= |fmt| && 0 < r.value.size <= MAXINTSIZE && r.value.kind == kind && r.value.h == h
  {
    var (n, next) := GetNum(fmt, i, df);
    if n > MAXINTSIZE || n <= 0 then Err("integral size out of limits") else Ok(Item(kind, n, 0, next, h))
  }

  /** `getoption`. */
  function GetOption(h: Header, fmt: string, i: nat): (r: Result<Item>)
    requires !Done(fmt, i) && 0 < h.maxalign <= MAXINTSIZE
    ensures r.Ok? ==> i < r.value.next <= |fmt| && 0 < r.value.h.maxalign <= MAXINTSIZE
    ensures r.Ok? ==> ItemOk(r.value)
  {
    var c, n := fmt[i], i + 1;
    if c == 'b' then Ok(Item(Kint, 1, 0, n, h))
    else if c == 'B' then Ok(Item(Kuint, 1, 0, n, h))
    else if c == 'h' then Ok(Item(Kint, 2, 0, n, h))
    else if c == 'H' then Ok(Item(Kuint, 2, 0, n, h))
    else if c == 'l' || c == 'j' then Ok(Item(Kint, 8, 0, n, h))
    else if c == 'L' || c == 'J' || c == 'T' then Ok(Item(Kuint, 8, 0, n, h))
    else if c == 'i' then Sized(Kint, h, fmt, n, 4)
    else if c == 'I' then Sized(Kuint, h, fmt, n, 4)
    else if c == 's' then Sized(Kstring, h, fmt, n, 8)
    else if c == 'c' then
      var (size, next) := GetNum(fmt, n, -1);
      if size < 0 then Err("missing size for format option 'c'") else Ok(Item(Kchar, size, 0, next, h))
    else if c == 'z' then Ok(Item(Kzstr, 0, 0, n, h))
    else if c == 'x' then Ok(Item(Kpadding, 1, 0, n, h))
    else if c == 'X' then Ok(Item(Kpaddalign, 0, 0, n, h))
    else if c == ' ' then Ok(Item(Knop, 0, 0, n, h))
    else if c == '<' || c == '=' then Ok(Item(Knop, 0, 0, n, h.(islittle := true)))
    else if c == '>' then Ok(Item(Knop, 0, 0, n, h.(islittle := false)))
    else if c == '!' then
      var (m, next) := GetNum(fmt, n, MAXALIGN);
      if m > MAXINTSIZE || m <= 0 then Err("integral size out of limits")
        else Ok(Item(Knop, 0, 0, next, h.(maxalign := m)))
    else Err("invalid format option")
  }

  /** `getdetails`: the option with the padding that aligns it. */
  function GetDetails(h: Header, total: nat, fmt: string, i: nat): (r: Result<Item>)
    requires !Done(fmt, i) && 0 < h.maxalign <= MAXINTSIZE
    ensures r.Ok? ==> i < r.value.next <= |fmt| && 0 < r.value.h.maxalign <= MAXINTSIZE
    ensures r.Ok? ==> ItemOk(r.value)
  {
    match GetOption(h, fmt, i)
    case Err(e) => Err(e)
    case Ok(d) =>
      if d.kind == Kpaddalign then
        if Done(fmt, d.next) then Err("invalid next option for option 'X'")
        else
          match GetOption(d.h, fmt, d.next)
          case Err(e) => Err(e)
          case Ok(d2) =>
            if d2.kind == Kchar || d2.size == 0 then Err("invalid next option for option 'X'")
            else Aligned(d.(next := d2.next, h := d2.h), d2.size, total)
      else Aligned(d, if d.kind == Kchar then 0 else d.size, total)
  }

  function Aligned(d: Item, size: nat, total: nat): (r: Result<Item>)
    ensures r.Ok? ==> r.value == d.(align := r.value.align)
  {
    var align := if size > d.h.maxalign then d.h.maxalign else size;
    if size <= 1 then Ok(d.(align := 0))
    else if align !in {1, 2, 4, 8, 16} then Err("format asks for alignment not power of 2")
    else Ok(d.(align := (align - total % align) % align))
  }

  // ----- integers -----

  /** The low `size` bytes, the lowest first. */
  function Bytes(n: nat, size: nat): (r: seq<Byte>)
    ensures |r| == size
  {
    if size == 0 then [] else [n % 256] + Bytes(n / 256, size - 1)
  }

  function Number(s: seq<Byte>): nat {
    if s == [] then 0 else s[0] + 256 * Number(s[1..])
  }

  /** How many values `size` bytes have. */
  function Power(size: nat): (p: nat)
    ensures p > 0
  {
    Pow(256, size)
  }

  function Reversed(s: seq<Byte>): (r: seq<Byte>)
    ensures |r| == |s| && forall i :: 0 <= i < |s| ==> r[i] == s[|s| - 1 - i]
  {
    if s == [] then [] else Reversed(s[1..]) + [s[0]]
  }

  function Ordered(s: seq<Byte>, islittle: bool): (r: seq<Byte>)
    ensures |r| == |s|
  {
    if islittle then s else Reversed(s)
  }

  function Unsigned(n: Integer): nat {
    if n < 0 then n + TWO64 else n
  }

  function Signed(n: nat): Integer
    requires n < TWO64
  {
    if n < TWO63 then n else n - TWO64
  }

  /** What `packint` writes, the lowest byte first: beyond eight bytes the sign is repeated. */
  function IntBytes(n: nat, size: nat, neg: bool): (r: seq<Byte>)
    ensures |r| == size
  {
    if size <= SZINT then Bytes(n, size) else Bytes(n, SZINT) + seq(size - SZINT, _ => if neg then 255 else 0)
  }

  /** Where byte `k`, counted from the lowest, is. */
  function Place(islittle: bool, size: nat, k: nat): int {
    if islittle then k else size - 1 - k
  }

  ghost predicate Holds(buff: seq<Byte>, islittle: bool, n: nat, from: nat, to: nat, neg: bool) {
    forall k: nat {:trigger Place(islittle, |buff|, k)} :: from <= k < to && k < |buff| ==>
      buff[Place(islittle, |buff|, k)] == if neg then 255 else Shifted(n, k) % 256
  }

  method PackInt(n0: nat, islittle: bool, size: nat, neg: bool) returns (b: seq<Byte>)
    requires n0 < TWO64 && size > 0
    ensures b == Ordered(IntBytes(n0, size, neg), islittle)
  {
    var buff := new Byte[size](_ => 0);
    var n := n0;
    buff[Place(islittle, size, 0)] := n % 256;
    var i := 1;
    while i < size
      invariant 1 <= i <= size && n == Shifted(n0, i - 1) && Holds(buff[..], islittle, n0, 0, i, false)
    {
      ShiftOnce(n0, i - 1);
      n := n / 256;
      buff[Place(islittle, size, i)] := n % 256;
      i := i + 1;
    }
    if neg && size > SZINT {
      ExtendSign(buff, islittle, n0);
    }
    b := buff[..];
    Written(b, n0, islittle, size, neg);
  }

  /** Corrects the extra bytes of a negative number. */
  method ExtendSign(buff: array<Byte>, islittle: bool, ghost n: nat)
    requires buff.Length > SZINT && Holds(buff[..], islittle, n, 0, buff.Length, false)
    modifies buff
    ensures Holds(buff[..], islittle, n, 0, SZINT, false) && Holds(buff[..], islittle, n, SZINT, buff.Length, true)
  {
    var i := SZINT;
    while i < buff.Length
      invariant SZINT <= i <= buff.Length
      invariant Holds(buff[..], islittle, n, 0, SZINT, false) && Holds(buff[..], islittle, n, SZINT, i, true)
    {
      buff[Place(islittle, buff.Length, i)] := 255;
      i := i + 1;
    }
  }

  lemma Written(b: seq<Byte>, n: nat, islittle: bool, size: nat, neg: bool)
    requires n < TWO64 && |b| == size > 0
    requires Holds(b, islittle, n, 0, if neg && size > SZINT then SZINT else size, false)
    requires neg && size > SZINT ==> Holds(b, islittle, n, SZINT, size, true)
    ensures b == Ordered(IntBytes(n, size, neg), islittle)
  {
    var s := IntBytes(n, size, neg);
    forall k: int | 0 <= k < size ensures b[if islittle then k else size - 1 - k] == s[k] {
      ByteAt(n, size, neg, k);
      assert b[Place(islittle, size, k)] == if neg && k >= SZINT then 255 else Shifted(n, k) % 256;
    }
    OrderedAt(b, s, islittle);
  }

  /** `n >>= 8`, `k` times. */
  ghost function Shifted(n: nat, k: nat): nat {
    if k == 0 then n else Shifted(n, k - 1) / 256
  }

  lemma ShiftOnce(n: nat, k: nat)
    ensures Shifted(n, k + 1) == Shifted(n, k) / 256
  {
  }

  lemma {:induction false} ShiftFirst(n: nat, k: nat)
    requires k > 0
    ensures Shifted(n, k) == Shifted(n / 256, k - 1)
  {
    if k > 1 {
      ShiftFirst(n, k - 1);
    }
  }

  lemma {:induction false} BytesAt(n: nat, size: nat, k: nat)
    requires k < size
    ensures Bytes(n, size)[k] == Shifted(n, k) % 256
  {
    if k > 0 {
      ShiftFirst(n, k);
      BytesAt(n / 256, size - 1, k - 1);
    }
  }

  lemma {:induction false} ShiftedOut(n: nat, k: nat)
    ensures Shifted(n, k) == n / Power(k)
  {
    if k > 0 {
      ShiftedOut(n, k - 1);
      DivDiv(n, Power(k - 1));
    }
  }

  lemma DivDiv(n: nat, p: nat)
    requires p > 0
    ensures n / (256 * p) == n / p / 256
  {
    var q, r := n / p, n % p;
    var q2, r2 := q / 256, q % 256;
    assert n == p * q + r && q == 256 * q2 + r2;
    Regroup(p, q, q2, r2);
    Quotient(n, 256 * p, q2, p * r2 + r);
  }

  lemma Regroup(p: nat, q: nat, q2: nat, r2: nat)
    requires q == 256 * q2 + r2 && r2 < 256
    ensures p * q == 256 * p * q2 + p * r2 && p * r2 + p <= 256 * p
  {
    assert p * q == p * (256 * q2) + p * r2;
    assert p * (r2 + 1) <= p * 256;
  }

  lemma Quotient(n: nat, d: nat, q: nat, r: nat)
    requires n == d * q + r && r < d
    ensures n / d == q
  {
    var q', r' := n / d, n % d;
    assert d * q' + r' == d * q + r;
    assert d * (q' - q) == r as int - r';
    var z: int := q' - q;
    OnlyZero(d, z);
  }

  lemma OnlyZero(d: nat, z: int)
    ensures z >= 1 ==> d * z >= d
    ensures z <= -1 ==> d * z <= 0 - d
  {
    assert d * z == d * (z - 1) + d && d * z == d * (z + 1) - d;
    assert z >= 1 ==> d * (z - 1) >= 0;
    assert z <= -1 ==> d * (z + 1) <= 0;
  }

  lemma ByteAt(n: nat, size: nat, neg: bool, k: nat)
    requires n < TWO64 && k < size
    ensures IntBytes(n, size, neg)[k] == if k >= SZINT then (if neg then 255 else 0) else Shifted(n, k) % 256
    ensures k >= SZINT ==> Shifted(n, k) == 0
  {
    if k < SZINT {
      BytesAt(n, if size <= SZINT then size else SZINT, k);
    } else {
      AllShifted(n, k);
    }
  }

  lemma {:induction false} AllShifted(n: nat, k: nat)
    requires n < TWO64 && k >= SZINT
    ensures Shifted(n, k) == 0
  {
    if k == SZINT {
      ShiftedOut(n, SZINT);
      PowerEight();
    } else {
      AllShifted(n, k - 1);
    }
  }

  lemma PowerEight()
    ensures Power(8) == TWO64
  {
    assert Power(2) == 0x1_0000;
    assert Power(4) == 0x1_0000_0000 by {
      assert Power(3) == 0x100_0000;
    }
    assert Power(5) == 0x100_0000_0000 && Power(6) == 0x1_0000_0000_0000 && Power(7) == 0x100_0000_0000_0000;
  }

  lemma OrderedAt(b: seq<Byte>, s: seq<Byte>, islittle: bool)
    requires |b| == |s| && forall k {:trigger s[k]} :: 0 <= k < |s| ==> b[if islittle then k else |s| - 1 - k] == s[k]
    ensures b == Ordered(s, islittle)
  {
    if islittle {
      assert forall k :: 0 <= k < |s| ==> b[k] == s[k];
    } else {
      forall k | 0 <= k < |s| ensures b[k] == Reversed(s)[k] {
        assert b[|s| - 1 - (|s| - 1 - k)] == s[|s| - 1 - k];
      }
    }
  }

  // ----- reading integers back -----

  /** What `unpackint` makes of the bytes, given the lowest first. */
  function IntOf(s: seq<Byte>, issigned: bool): Result<Integer>
    requires s != []
  {
    var size := |s|;
    if size < SZINT then
      NumberBound(s);
      SmallPower(size);
      Ok(if issigned && 2 * Number(s) >= Power(size) then Number(s) - Power(size) else Number(s))
    else
      NumberBound(s[..SZINT]);
      PowerEight();
      var res := Signed(Number(s[..SZINT]));
      var mask := if !issigned || res >= 0 then 0 else 255;
      if forall k :: SZINT <= k < size ==> s[k] == mask then Ok(res) else Err("integer does not fit into Lua Integer")
  }

  method UnpackInt(str: seq<Byte>, islittle: bool, issigned: bool) returns (r: Result<Integer>)
    requires str != []
    ensures r == IntOf(Ordered(str, islittle), issigned)
  {
    hide Ordered;
    var size := |str|;
    ghost var s := Ordered(str, islittle);
    var limit := if size <= SZINT then size else SZINT;
    var res: nat := 0;
    var i: int := limit - 1;
    PowerEight();
    while i >= 0
      invariant -1 <= i < limit && res == Number(s[i + 1..limit]) && res < Power(limit - 1 - i)
    {
      PowerGrows(limit - i, SZINT);
      NumberFirst(s, i, limit);
      ReadAt(str, islittle, i);
      res := (res * 256) % TWO64;
      res := res + str[Place(islittle, size, i)];
      i := i - 1;
    }
    assert s[0..limit] == s[..limit];
    if size < SZINT {
      if issigned {
        assert s[..limit] == s;
        var n := ExtendedSign(res, size);
        r := Ok(n);
      } else {
        assert s[..limit] == s;
        r := Ok(Signed(res));
      }
    } else {
      r := CheckRest(str, islittle, issigned, Signed(res));
    }
  }

  /** `(res ^ mask) - mask` with the highest bit of the number as mask. */
  method ExtendedSign(res: nat, size: nat) returns (n: Integer)
    requires 0 < size < SZINT && res < Power(size)
    ensures n == if 2 * res >= Power(size) then res - Power(size) else res
  {
    SmallPower(size);
    var mask := HalfPower(size);
    var flipped := if res >= mask then res - mask else res + mask;
    n := Signed((flipped - mask) % TWO64);
  }

  method HalfPower(size: nat) returns (m: nat)
    requires 0 < size < SZINT
    ensures 2 * m == Power(size)
  {
    m := 128;
    for i := 1 to size
      invariant 2 * m == Power(i)
    {
      m := m * 256;
    }
  }

  /** The unread bytes must repeat the sign. */
  method CheckRest(str: seq<Byte>, islittle: bool, issigned: bool, res: Integer) returns (r: Result<Integer>)
    requires |str| >= SZINT && var s := Ordered(str, islittle);
      Number(s[..SZINT]) < TWO64 && res == Signed(Number(s[..SZINT]))
    ensures r == IntOf(Ordered(str, islittle), issigned)
  {
    ghost var s := Ordered(str, islittle);
    var mask := if !issigned || res >= 0 then 0 else 255;
    var i := SZINT;
    while i < |str|
      invariant SZINT <= i <= |str| && forall k :: SZINT <= k < i ==> s[k] == mask
    {
      ReadAt(str, islittle, i);
      if str[Place(islittle, |str|, i)] != mask {
        return Err("integer does not fit into Lua Integer");
      }
      i := i + 1;
    }
    r := Ok(res);
  }

  lemma ReadAt(str: seq<Byte>, islittle: bool, i: nat)
    requires i < |str|
    ensures 0 <= Place(islittle, |str|, i) < |str| && str[Place(islittle, |str|, i)] == Ordered(str, islittle)[i]
  {
  }

  lemma NumberFirst(s: seq<Byte>, i: nat, limit: nat)
    requires i < limit <= |s|
    ensures Number(s[i..limit]) == s[i] + 256 * Number(s[i + 1..limit])
  {
    assert s[i..limit][1..] == s[i + 1..limit];
  }

  lemma {:induction false} NumberBound(s: seq<Byte>)
    ensures Number(s) < Power(|s|)
  {
    if s != [] {
      NumberBound(s[1..]);
    }
  }

  lemma {:induction false} PowerGrows(a: nat, b: nat)
    requires a <= b
    ensures Power(a) <= Power(b)
  {
    if a < b {
      PowerGrows(a, b - 1);
    }
  }

  lemma SmallPower(size: nat)
    requires size < SZINT
    ensures Power(size) < TWO63
  {
    PowerGrows(size, 7);
    PowerEight();
    assert Power(8) == 256 * Power(7);
  }

  // ----- integers come back -----

  lemma {:induction false} NumberBytes(n: nat, size: nat)
    ensures Number(Bytes(n, size)) == n % Power(size)
  {
    if size > 0 {
      NumberBytes(n / 256, size - 1);
      ModStep(n, Power(size - 1));
    }
  }

  lemma ModStep(n: nat, p: nat)
    requires p > 0
    ensures n % (256 * p) == n % 256 + 256 * (n / 256 % p)
  {
    var q, r := n / 256, n % 256;
    var q2, r2 := q / p, q % p;
    assert n == 256 * q + r && q == p * q2 + r2;
    Multiples(n, p, q2, r2, r);
  }

  lemma Multiples(n: nat, p: nat, q2: nat, r2: nat, r: nat)
    requires n == 256 * (p * q2 + r2) + r && r2 < p && r < 256
    ensures n % (256 * p) == r + 256 * r2
  {
    assert 256 * (p * q2 + r2) == (256 * p) * q2 + 256 * r2;
    Remainder(n, 256 * p, q2, 256 * r2 + r);
  }

  lemma Remainder(n: nat, d: nat, q: nat, r: nat)
    requires n == d * q + r && r < d
    ensures n % d == r
  {
    Quotient(n, d, q, r);
    assert n == d * (n / d) + n % d;
  }

  /** The sign is lost in the unsigned number, and comes back. */
  lemma SignedBytes(n: Integer, size: nat)
    requires 0 < size < SZINT && 0 - Power(size) <= 2 * n < Power(size)
    ensures Unsigned(n) % Power(size) == if n < 0 then n + Power(size) else n
  {
    var p: int := Power(size);
    if n < 0 {
      PowerSplit(size, SZINT - size);
      PowerEight();
      var q := Power(SZINT - size);
      TakeOne(n, p, q);
      Remainder(Unsigned(n), Power(size), q - 1, n + p);
    } else {
      Remainder(n, Power(size), 0, n);
    }
  }

  lemma TakeOne(n: int, p: int, q: int)
    ensures n + p * q == p * (q - 1) + (n + p)
  {
  }

  lemma PowerSplit(a: nat, b: nat)
    ensures Power(a + b) == Power(a) * Power(b)
  {
    PowAdd(256, a, b);
  }

  /** `unpackint` undoes `packint`, for every size from 1 to 16. */
  lemma IntRoundTrip(n: Integer, size: nat, issigned: bool)
    requires 0 < size
    requires size < SZINT ==> if issigned then 0 - Power(size) <= 2 * n < Power(size) else Unsigned(n) < Power(size)
    ensures IntOf(IntBytes(Unsigned(n), size, issigned && n < 0), issigned) == Ok(n)
  {
    var u := Unsigned(n);
    var s := IntBytes(u, size, issigned && n < 0);
    if size < SZINT {
      NumberBytes(u, size);
      if issigned {
        SignedBytes(n, size);
      } else {
        Remainder(u, Power(size), 0, u);
        SmallPower(size);
      }
    } else {
      assert s[..SZINT] == Bytes(u, SZINT);
      NumberBytes(u, SZINT);
      PowerEight();
      Remainder(u, Power(SZINT), 0, u);
    }
  }

  lemma {:induction false} ReversedTwice(s: seq<Byte>)
    ensures Reversed(Reversed(s)) == s
  {
    forall i | 0 <= i < |s| ensures Reversed(Reversed(s))[i] == s[i] {
      assert Reversed(Reversed(s))[i] == Reversed(s)[|s| - 1 - i];
    }
  }

  // ----- one item -----

  /** Whether the option takes an argument. */
  predicate TakesArgument(kind: KOption) {
    !kind.Kpadding? && !kind.Kpaddalign? && !kind.Knop?
  }

  predicate NoZero(s: seq<Byte>) {
    forall i :: 0 <= i < |s| ==> s[i] != 0
  }

  function Zeros(n: nat): (r: seq<Byte>)
    ensures |r| == n
  {
    seq(n, _ => 0)
  }

  /** What `str_pack` adds for an argument, or its error. */
  function PackItem(d: Item, v: Value): Result<seq<Byte>>
    requires ItemOk(d) && TakesArgument(d.kind)
  {
    var p := Power(d.size);
    match (d.kind, v)
    case (Kint, Int(n)) =>
      if d.size < SZINT && !(0 - p <= 2 * n < p) then Err("integer overflow")
      else Ok(Ordered(IntBytes(Unsigned(n), d.size, n < 0), d.h.islittle))
    case (Kuint, Int(n)) =>
      if d.size < SZINT && Unsigned(n) >= p then Err("unsigned overflow")
      else Ok(Ordered(IntBytes(Unsigned(n), d.size, false), d.h.islittle))
    case (Kchar, Str(s)) =>
      if |s| != d.size then Err("wrong length") else Ok(s)
    case (Kstring, Str(s)) =>
      if |s| >= TWO63 then Err("string too long")
      else if d.size < SZINT && |s| >= p then Err("string length does not fit in given size")
      else Ok(Ordered(IntBytes(|s|, d.size, false), d.h.islittle) + s)
    case (Kzstr, Str(s)) =>
      if NoZero(s) then Ok(s + [0]) else Err("string contains zeros")
    case _ => Err("bad argument")
  }

  /** The value that `str_unpack` reads at `pos`, and the position after it. */
  function UnpackItem(d: Item, data: seq<Byte>, pos: nat): (r: Result<(Value, nat)>)
    requires ItemOk(d) && TakesArgument(d.kind) && pos + d.size <= |data|
    ensures r.Ok? ==> r.value.1 >= pos
  {
    match d.kind
    case Kint => ReadInt(d, data, pos)
    case Kuint => ReadInt(d, data, pos)
    case Kchar => Ok((Str(data[pos..pos + d.size]), pos + d.size))
    case Kstring => ReadCounted(d, data, pos)
    case Kzstr => var n := StrLen(data[pos..]); Ok((Str(data[pos..pos + n]), pos + n + 1))
  }

  function ReadCounted(d: Item, data: seq<Byte>, pos: nat): (r: Result<(Value, nat)>)
    requires d.size > 0 && pos + d.size <= |data|
    ensures r.Ok? ==> r.value.1 >= pos
  {
    match IntOf(Ordered(data[pos..pos + d.size], d.h.islittle), false)
    case Err(e) => Err(e)
    case Ok(n) =>
      var from := pos + d.size;
      if from + Unsigned(n) <= |data| then Ok((Str(data[from..from + Unsigned(n)]), from + Unsigned(n)))
      else Err("data string too short")
  }

  function ReadInt(d: Item, data: seq<Byte>, pos: nat): (r: Result<(Value, nat)>)
    requires d.size > 0 && pos + d.size <= |data|
    ensures r.Ok? ==> r.value.1 >= pos
  {
    match IntOf(Ordered(data[pos..pos + d.size], d.h.islittle), d.kind == Kint)
    case Err(e) => Err(e)
    case Ok(n) => Ok((Int(n), pos + d.size))
  }

  /** `strlen`: Lua strings have a zero after their end. */
  function StrLen(s: seq<Byte>): (n: nat)
    ensures n <= |s| && NoZero(s[..n]) && (n < |s| ==> s[n] == 0)
  {
    if s == [] || s[0] == 0 then 0 else
      var n := 1 + StrLen(s[1..]);
      assert forall i :: 1 <= i < n ==> s[i] == s[1..][i - 1];
      n
  }

  /** An item comes back from wherever it was written, whatever comes after it. */
  lemma ItemRoundTrip(d: Item, v: Value, data: seq<Byte>, pos: nat, rest: seq<Byte>)
    requires ItemOk(d) && TakesArgument(d.kind) && PackItem(d, v).Ok?
    requires pos <= |data| && data[pos..] == PackItem(d, v).value + rest
    ensures pos + d.size <= |data| && UnpackItem(d, data, pos) == Ok((v, pos + |PackItem(d, v).value|))
  {
    hide IntOf, IntBytes, Ordered, StrLen, NoZero;
    var b := PackItem(d, v).value;
    match d.kind
    case Kint => IntItem(d, v.n, data, pos, rest);
    case Kuint => IntItem(d, v.n, data, pos, rest);
    case Kchar =>
      assert data[pos..pos + d.size] == data[pos..][..d.size] == b;
    case Kstring => CountedItem(d, v.s, data, pos, rest);
    case Kzstr => ZeroItem(d, v.s, data, pos, rest);
  }

  lemma ZeroItem(d: Item, v: seq<Byte>, data: seq<Byte>, pos: nat, rest: seq<Byte>)
    requires NoZero(v) && pos <= |data| && data[pos..] == v + [0] + rest
    ensures StrLen(data[pos..]) == |v| && pos + |v| < |data| && data[pos..pos + |v|] == v
  {
    FirstZero(data[pos..], v, rest);
    assert data[pos..pos + |v|] == data[pos..][..|v|] == v;
  }

  lemma IntItem(d: Item, n: Integer, data: seq<Byte>, pos: nat, rest: seq<Byte>)
    requires ItemOk(d) && d.kind in {Kint, Kuint} && PackItem(d, Int(n)).Ok?
    requires pos <= |data| && data[pos..] == PackItem(d, Int(n)).value + rest
    ensures pos + d.size <= |data| && ReadInt(d, data, pos) == Ok((Int(n), pos + d.size))
    ensures |PackItem(d, Int(n)).value| == d.size
  {
    hide IntOf, IntBytes, Ordered;
    var s := IntBytes(Unsigned(n), d.size, d.kind == Kint && n < 0);
    IntRoundTrip(n, d.size, d.kind == Kint);
    BackInOrder(s, d.h.islittle);
    assert data[pos..pos + d.size] == data[pos..][..d.size] == Ordered(s, d.h.islittle);
  }

  lemma CountedItem(d: Item, v: seq<Byte>, data: seq<Byte>, pos: nat, rest: seq<Byte>)
    requires ItemOk(d) && d.kind == Kstring && PackItem(d, Str(v)).Ok?
    requires pos <= |data| && data[pos..] == PackItem(d, Str(v)).value + rest
    ensures pos + d.size <= |data| && ReadCounted(d, data, pos) == Ok((Str(v), pos + d.size + |v|))
    ensures |PackItem(d, Str(v)).value| == d.size + |v|
  {
    hide IntOf, IntBytes, Ordered;
    var s := IntBytes(|v|, d.size, false);
    IntRoundTrip(|v|, d.size, false);
    BackInOrder(s, d.h.islittle);
    assert data[pos..pos + d.size] == data[pos..][..d.size] == Ordered(s, d.h.islittle);
    assert data[pos + d.size..pos + d.size + |v|] == data[pos..][d.size..][..|v|] == v;
  }

  lemma BackInOrder(s: seq<Byte>, islittle: bool)
    ensures Ordered(Ordered(s, islittle), islittle) == s
  {
    ReversedTwice(s);
  }

  lemma FirstZero(t: seq<Byte>, s: seq<Byte>, rest: seq<Byte>)
    requires NoZero(s) && t == s + [0] + rest
    ensures StrLen(t) == |s|
  {
    var n := StrLen(t);
    assert t[|s|] == 0 && forall i :: 0 <= i < |s| ==> t[i] == s[i];
    assert forall i :: 0 <= i < n ==> t[..n][i] == t[i];
  }

  // ----- whole formats -----

  /** `str_pack`. */
  function PackAll(h: Header, fmt: string, i: nat, total: nat, args: seq<Value>): Result<seq<Byte>>
    requires 0 < h.maxalign <= MAXINTSIZE
    decreases |fmt| - i
  {
    if Done(fmt, i) then Ok([])
    else
      match GetDetails(h, total, fmt, i)
      case Err(e) => Err(e)
      case Ok(d) =>
        if !TakesArgument(d.kind) then
          After(Zeros(d.align + d.size), PackAll(d.h, fmt, d.next, total + d.align + d.size, args))
        else if args == [] then Err("bad argument")
        else
          match PackItem(d, args[0])
          case Err(e) => Err(e)
          case Ok(b) => After(Zeros(d.align) + b, PackAll(d.h, fmt, d.next, total + d.align + |b|, args[1..]))
  }

  function After(b: seq<Byte>, r: Result<seq<Byte>>): Result<seq<Byte>> {
    match r
    case Err(e) => Err(e)
    case Ok(rest) => Ok(b + rest)
  }

  /** `str_unpack`: the values and the position where it ended. */
  function UnpackAll(h: Header, fmt: string, i: nat, data: seq<Byte>, pos: nat): Result<(seq<Value>, nat)>
    requires 0 < h.maxalign <= MAXINTSIZE
    decreases |fmt| - i
  {
    if Done(fmt, i) then Ok(([], pos))
    else
      match GetDetails(h, pos, fmt, i)
      case Err(e) => Err(e)
      case Ok(d) =>
        if pos + d.align + d.size > |data| then Err("data string too short")
        else if !TakesArgument(d.kind) then UnpackAll(d.h, fmt, d.next, data, pos + d.align + d.size)
        else
          match UnpackItem(d, data, pos + d.align)
          case Err(e) => Err(e)
          case Ok(vp) =>
            match UnpackAll(d.h, fmt, d.next, data, vp.1)
            case Err(e) => Err(e)
            case Ok(rest) => Ok(([vp.0] + rest.0, rest.1))
  }

  /** `str_packsize`. */
  function SizeAll(h: Header, fmt: string, i: nat, total: nat): Result<nat>
    requires 0 < h.maxalign <= MAXINTSIZE
    decreases |fmt| - i
  {
    if Done(fmt, i) then Ok(total)
    else
      match GetDetails(h, total, fmt, i)
      case Err(e) => Err(e)
      case Ok(d) =>
        if total + d.size + d.align > INT_MAX then Err("format result too large")
        else if d.kind in {Kstring, Kzstr} then Err("variable-length format")
        else SizeAll(d.h, fmt, d.next, total + d.size + d.align)
  }

  lemma DetailsOk(h: Header, total: nat, fmt: string, i: nat)
    requires !Done(fmt, i) && 0 < h.maxalign <= MAXINTSIZE && GetDetails(h, total, fmt, i).Ok?
    ensures ItemOk(GetDetails(h, total, fmt, i).value)
  {
  }

  /** Unpacking what was packed gives the arguments back, and ends after them. */
  lemma {:induction false} RoundTrip(h: Header, fmt: string, i: nat, total: nat, args: seq<Value>, data: seq<Byte>,
      rest: seq<Byte>)
    requires 0 < h.maxalign <= MAXINTSIZE && PackAll(h, fmt, i, total, args).Ok?
    requires total <= |data| && data[total..] == PackAll(h, fmt, i, total, args).value + rest
    ensures var r := UnpackAll(h, fmt, i, data, total);
      && r.Ok? && r.value.0 <= args && r.value.1 == total + |PackAll(h, fmt, i, total, args).value|
    decreases |fmt| - i
  {
    hide GetDetails, PackItem, UnpackItem, ItemOk;
    if !Done(fmt, i) {
      var d := GetDetails(h, total, fmt, i).value;
      DetailsOk(h, total, fmt, i);
      var pos := total + d.align;
      if !TakesArgument(d.kind) {
        var tail := PackAll(d.h, fmt, d.next, pos + d.size, args).value;
        assert data[total..] == Zeros(d.align + d.size) + (tail + rest);
        assert data[pos + d.size..] == data[total..][d.align + d.size..] == tail + rest;
        RoundTrip(d.h, fmt, d.next, pos + d.size, args, data, rest);
      } else {
        var b := PackItem(d, args[0]).value;
        var tail := PackAll(d.h, fmt, d.next, pos + |b|, args[1..]).value;
        assert data[total..] == Zeros(d.align) + (b + (tail + rest));
        assert data[pos..] == data[total..][d.align..] == b + (tail + rest);
        ItemRoundTrip(d, args[0], data, pos, tail + rest);
        assert data[pos + |b|..] == data[pos..][|b|..] == tail + rest;
        RoundTrip(d.h, fmt, d.next, pos + |b|, args[1..], data, rest);
      }
    }
  }

  /** For formats of fixed size the packed length is what `str_packsize` says. */
  lemma {:induction false} SizeRight(h: Header, fmt: string, i: nat, total: nat, args: seq<Value>)
    requires 0 < h.maxalign <= MAXINTSIZE && SizeAll(h, fmt, i, total).Ok? && PackAll(h, fmt, i, total, args).Ok?
    ensures SizeAll(h, fmt, i, total).value == total + |PackAll(h, fmt, i, total, args).value|
    decreases |fmt| - i
  {
    hide GetDetails, ItemOk;
    if !Done(fmt, i) {
      var d := GetDetails(h, total, fmt, i).value;
      DetailsOk(h, total, fmt, i);
      if !TakesArgument(d.kind) {
        SizeRight(d.h, fmt, d.next, total + d.align + d.size, args);
      } else {
        SizeRight(d.h, fmt, d.next, total + d.align + d.size, args[1..]);
      }
    }
  }

  // ----- the library functions -----

  const NATIVE: Header := Header(true, 1)

  lemma AfterTwice(a: seq<Byte>, b: seq<Byte>, r: Result<seq<Byte>>)
    ensures After(a, After(b, r)) == After(a + b, r) && After([], r) == r
  {
    if r.Ok? {
      assert a + (b + r.value) == (a + b) + r.value && [] + r.value == r.value;
    }
  }

  method AddPadding(b0: seq<Byte>, n: nat) returns (b: seq<Byte>)
    ensures b == b0 + Zeros(n)
  {
    b := b0;
    var i := n;
    while i > 0
      invariant 0 <= i <= n && b == b0 + Zeros(n - i)
    {
      b := b + [0];
      i := i - 1;
    }
  }

  method AddItem(d: Item, v: Value) returns (r: Result<seq<Byte>>)
    requires ItemOk(d) && TakesArgument(d.kind)
    ensures r == PackItem(d, v)
  {
    hide IntBytes, Ordered;
    match d.kind
    case Kint =>
      if !v.Int? {
        return Err("bad argument");
      }
      if d.size < SZINT {
        var lim := HalfPower(d.size);
        if !(0 - lim <= v.n < lim) {
          return Err("integer overflow");
        }
      }
      var b := PackInt(Unsigned(v.n), d.h.islittle, d.size, v.n < 0);
      r := Ok(b);
    case Kuint =>
      if !v.Int? {
        return Err("bad argument");
      }
      if d.size < SZINT {
        var lim := HalfPower(d.size);
        if Unsigned(v.n) >= 2 * lim {
          return Err("unsigned overflow");
        }
      }
      var b := PackInt(Unsigned(v.n), d.h.islittle, d.size, false);
      r := Ok(b);
    case Kchar =>
      r := if !v.Str? then Err("bad argument") else if |v.s| != d.size then Err("wrong length") else Ok(v.s);
    case Kstring =>
      if !v.Str? {
        return Err("bad argument");
      }
      if |v.s| >= TWO63 {
        return Err("string too long");
      }
      if d.size < SZINT {
        var lim := HalfPower(d.size);
        if |v.s| >= 2 * lim {
          return Err("string length does not fit in given size");
        }
      }
      var b := PackInt(|v.s|, d.h.islittle, d.size, false);
      r := Ok(b + v.s);
    case Kzstr =>
      if !v.Str? {
        return Err("bad argument");
      }
      r := if StrLen(v.s) == |v.s| then Ok(v.s + [0]) else Err("string contains zeros");
      NoZeroLength(v.s);
  }

  lemma NoZeroLength(s: seq<Byte>)
    ensures NoZero(s) <==> StrLen(s) == |s|
  {
    assert s[..|s|] == s;
  }

  /** `str_pack`, run over the format. */
  method StrPack(fmt: string, args: seq<Value>) returns (r: Result<seq<Byte>>)
    ensures r == PackAll(NATIVE, fmt, 0, 0, args)
  {
    hide GetDetails, PackItem, ItemOk;
    var h := NATIVE;
    var i: nat, total: nat, arg: nat := 0, 0, 0;
    var b: seq<Byte> := [];
    AfterTwice([], [], PackAll(NATIVE, fmt, 0, 0, args));
    assert args[0..] == args;
    while !Done(fmt, i)
      invariant 0 < h.maxalign <= MAXINTSIZE && arg <= |args|
      invariant PackAll(NATIVE, fmt, 0, 0, args) == After(b, PackAll(h, fmt, i, total, args[arg..]))
      decreases |fmt| - i
    {
      var details := GetDetails(h, total, fmt, i);
      if details.Err? {
        return Err(details.error);
      }
      var d := details.value;
      DetailsOk(h, total, fmt, i);
      ghost var rest := args[arg..];
      if !TakesArgument(d.kind) {
        AfterTwice(b, Zeros(d.align + d.size), PackAll(d.h, fmt, d.next, total + d.align + d.size, rest));
        b := AddPadding(b, d.align + d.size);
        total := total + d.align + d.size;
      } else {
        if arg == |args| {
          return Err("bad argument");
        }
        var item := AddItem(d, args[arg]);
        if item.Err? {
          return Err(item.error);
        }
        AfterTwice(b, Zeros(d.align) + item.value, PackAll(d.h, fmt, d.next, total + d.align + |item.value|,
          args[arg + 1..]));
        assert rest[1..] == args[arg + 1..];
        ghost var b0 := b;
        b := AddPadding(b, d.align);
        b := b + item.value;
        assert b == b0 + (Zeros(d.align) + item.value);
        total, arg := total + d.align + |item.value|, arg + 1;
      }
      h, i := d.h, d.next;
    }
    assert b + [] == b;
    r := Ok(b);
  }

  /** `str_packsize`. */
  method StrPackSize(fmt: string) returns (r: Result<nat>)
    ensures r == SizeAll(NATIVE, fmt, 0, 0)
  {
    hide GetDetails, ItemOk;
    var h := NATIVE;
    var i: nat, total: nat := 0, 0;
    while !Done(fmt, i)
      invariant 0 < h.maxalign <= MAXINTSIZE && SizeAll(NATIVE, fmt, 0, 0) == SizeAll(h, fmt, i, total)
      decreases |fmt| - i
    {
      var details := GetDetails(h, total, fmt, i);
      if details.Err? {
        return Err(details.error);
      }
      var d := details.value;
      var size := d.size + d.align;
      if total + size > INT_MAX {
        return Err("format result too large");
      }
      total := total + size;
      if d.kind.Kstring? || d.kind.Kzstr? {
        return Err("variable-length format");
      }
      h, i := d.h, d.next;
    }
    r := Ok(total);
  }

  method ReadItem(d: Item, data: seq<Byte>, pos: nat) returns (r: Result<(Value, nat)>)
    requires ItemOk(d) && TakesArgument(d.kind) && pos + d.size <= |data|
    ensures r == UnpackItem(d, data, pos)
  {
    hide IntOf, Ordered;
    if d.kind.Kchar? {
      return Ok((Str(data[pos..pos + d.size]), pos + d.size));
    }
    if d.kind.Kzstr? {
      var n := StrLen(data[pos..]);
      return Ok((Str(data[pos..pos + n]), pos + n + 1));
    }
    var n := UnpackInt(data[pos..pos + d.size], d.h.islittle, d.kind.Kint?);
    if n.Err? {
      return Err(n.error);
    }
    if !d.kind.Kstring? {
      return Ok((Int(n.value), pos + d.size));
    }
    var len := Unsigned(n.value);
    if pos + len + d.size > |data| {
      return Err("data string too short");
    }
    r := Ok((Str(data[pos + d.size..pos + d.size + len]), pos + len + d.size));
  }

  /** `str_unpack` from position `pos` on, counted from 0. */
  method StrUnpack(fmt: string, data: seq<Byte>, pos0: nat) returns (r: Result<(seq<Value>, nat)>)
    ensures r == UnpackAll(NATIVE, fmt, 0, data, pos0)
  {
    hide GetDetails, UnpackItem, ItemOk;
    var h := NATIVE;
    var i: nat, pos: nat := 0, pos0;
    var values: seq<Value> := [];
    Before([], UnpackAll(NATIVE, fmt, 0, data, pos0));
    while !Done(fmt, i)
      invariant 0 < h.maxalign <= MAXINTSIZE
      invariant UnpackAll(NATIVE, fmt, 0, data, pos0) == With(values, UnpackAll(h, fmt, i, data, pos))
      decreases |fmt| - i
    {
      var details := GetDetails(h, pos, fmt, i);
      if details.Err? {
        return Err(details.error);
      }
      var d := details.value;
      DetailsOk(h, pos, fmt, i);
      if pos + d.align + d.size > |data| {
        return Err("data string too short");
      }
      if TakesArgument(d.kind) {
        var item := ReadItem(d, data, pos + d.align);
        if item.Err? {
          return Err(item.error);
        }
        WithOne(values, item.value.0, UnpackAll(d.h, fmt, d.next, data, item.value.1));
        values, pos := values + [item.value.0], item.value.1;
      } else {
        pos := pos + d.align + d.size;
      }
      h, i := d.h, d.next;
    }
    assert values + [] == values;
    r := Ok((values, pos));
  }

  ghost function With(vs: seq<Value>, r: Result<(seq<Value>, nat)>): Result<(seq<Value>, nat)> {
    match r
    case Err(e) => Err(e)
    case Ok(rest) => Ok((vs + rest.0, rest.1))
  }

  lemma Before(vs: seq<Value>, r: Result<(seq<Value>, nat)>)
    ensures With([], r) == r
  {
    if r.Ok? {
      assert [] + r.value.0 == r.value.0;
    }
  }

  lemma WithOne(vs: seq<Value>, v: Value, r: Result<(seq<Value>, nat)>)
    ensures r.Ok? ==> With(vs, Ok(([v] + r.value.0, r.value.1))) == With(vs + [v], r)
    ensures r.Err? ==> With(vs, r) == With(vs + [v], r)
  {
    if r.Ok? {
      assert vs + ([v] + r.value.0) == (vs + [v]) + r.value.0;
    }
  }

  /** `string.unpack(fmt, string.pack(fmt, ...))` gives the arguments that the format uses. */
  lemma Inverse(fmt: string, args: seq<Value>)
    requires PackAll(NATIVE, fmt, 0, 0, args).Ok?
    ensures var b := PackAll(NATIVE, fmt, 0, 0, args).value;
      var r := UnpackAll(NATIVE, fmt, 0, b, 0);
      && r.Ok? && r.value.0 <= args && r.value.1 == |b|
      && (SizeAll(NATIVE, fmt, 0, 0).Ok? ==> SizeAll(NATIVE, fmt, 0, 0).value == |b|)
  {
    var b := PackAll(NATIVE, fmt, 0, 0, args).value;
    assert b[0..] == b + [];
    RoundTrip(NATIVE, fmt, 0, 0, args, b, []);
    if SizeAll(NATIVE, fmt, 0, 0).Ok? {
      SizeRight(NATIVE, fmt, 0, 0, args);
    }
  }
}
