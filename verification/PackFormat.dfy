/**
 What the options of `string.pack` mean (the manual's "Format Strings for Pack and Unpack"), written as
 bytes and without reading any format, and that lstrlib.c packs every format to just that.
 */
module PackFormat {
  import opened Decimals
  import opened Powers
  import opened Wrappers

  import opened Pack

  // ----- formats, written option by option -----

  datatype Directive =
    | Order(c: char)                 // one of < = >
    | MaxAlign(m: Option<nat>)       // ! or !m
    | Plain(c: char)                 // one of b B h H i I l L j J T
    | Sized(signed: bool, n: nat)    // in or In
    | Fixed(n: nat)                  // cn
    | Counted(m: Option<nat>)        // s or sn
    | ZeroEnded                      // z
    | OneByte                        // x
    | Blank
    | AlignAs(d: Directive)          // X and an option

  /** The largest number that is read to its end, without its last digit. */
  const LIMIT: nat := (INT_MAX - 9) / 10

  predicate Writable(d: Directive) {
    match d
    case Order(c) => c in "<=>"
    case MaxAlign(m) => m.Some? ==> m.value / 10 <= LIMIT
    case Plain(c) => c in "bBhHiIlLjJT"
    case Sized(_, n) => n / 10 <= LIMIT
    case Fixed(n) => n / 10 <= LIMIT
    case Counted(m) => m.Some? ==> m.value / 10 <= LIMIT
    case AlignAs(d1) => !d1.AlignAs? && Writable(d1)
    case _ => true
  }

  function Text(d: Directive): (s: string)
    requires Writable(d)
    ensures s != [] && !Decimals.Digit(s[0]) && s[0] != '\0'
  {
    match d
    case Order(c) => [c]
    case MaxAlign(m) => "!" + Suffix(m)
    case Plain(c) => [c]
    case Sized(signed, n) => (if signed then "i" else "I") + Decimal(n)
    case Fixed(n) => "c" + Decimal(n)
    case Counted(m) => "s" + Suffix(m)
    case ZeroEnded => "z"
    case OneByte => "x"
    case Blank => " "
    case AlignAs(d1) => "X" + Text(d1)
  }

  function Suffix(m: Option<nat>): string {
    if m.Some? then Decimal(m.value) else ""
  }

  function TextAll(ds: seq<Directive>): string
    requires forall d :: d in ds ==> Writable(d)
  {
    if ds == [] then "" else Text(ds[0]) + TextAll(ds[1..])
  }

  // ----- what they mean -----

  /** Byte `k` of `v` in two's complement with as many bytes as one likes, the lowest being byte 0. */
  function ByteOf(v: int, k: nat): Byte {
    v / Pow(256, k) % 256
  }

  function Image(v: int, n: nat, little: bool): (b: seq<Byte>)
    ensures |b| == n && forall k :: 0 <= k < n ==> b[if little then k else n - 1 - k] == ByteOf(v, k)
  {
    seq(n, k requires 0 <= k < n => ByteOf(v, if little then k else n - 1 - k))
  }

  /** How many bytes an option for numbers, counts or padding has; zero for the others. */
  function Width(d: Directive): nat {
    match d
    case Plain(c) => if c in "bB" then 1 else if c in "hH" then 2 else if c in "iI" then 4 else 8
    case Sized(_, n) => n
    case Counted(m) => if m.Some? then m.value else 8
    case OneByte => 1
    case _ => 0
  }

  predicate IsSigned(d: Directive) {
    (d.Plain? && d.c in "bhilj") || (d.Sized? && d.signed)
  }

  /** The padding before an item of `n` bytes: it begins at a multiple of its size, or of `most` if that is smaller. */
  function Gap(total: nat, n: nat, most: nat): (g: Option<nat>)
    requires most > 0
  {
    var a := if n < most then n else most;
    if n <= 1 then Some(0)
    else if a !in {1, 2, 4, 8, 16} then None
    else Some(if total % a == 0 then 0 else a - total % a)
  }

  lemma GapRight(total: nat, n: nat, most: nat)
    requires most > 0 && n > 1 && Gap(total, n, most).Some?
    ensures var a, g := if n < most then n else most, Gap(total, n, most).value; g < a && (total + g) % a == 0
  {
    var a := if n < most then n else most;
    var q, r := total / a, total % a;
    if r != 0 {
      assert total == a * q + r;
      NextMultiple(a, q);
      Remainder(total + a - r, a, q + 1, 0);
    }
  }

  lemma NextMultiple(a: nat, q: nat)
    ensures a * q + a == a * (q + 1)
  {
  }

  /** Whether the number is in the range of `n` bytes; Lua integers have eight. */
  predicate InRange(v: Integer, n: nat, signed: bool) {
    n >= 8 || if signed then 0 - Pow(256, n) <= 2 * v < Pow(256, n) else v % TWO64 < Pow(256, n)
  }

  /** What one argument is written as, apart from padding; nothing if it is refused. */
  function Written(d: Directive, v: Value, little: bool): Option<seq<Byte>> {
    match (d, v)
    case (Fixed(n), Str(s)) => if |s| == n then Some(s) else None
    case (ZeroEnded, Str(s)) => if 0 in s then None else Some(s + [0])
    case (Counted(_), Str(s)) =>
      var n := Width(d);
      if |s| < TWO63 && (n < 8 ==> |s| < Pow(256, n)) then Some(Image(|s|, n, little) + s) else None
    case (_, Int(n)) =>
      if (d.Plain? || d.Sized?) && InRange(n, Width(d), IsSigned(d))
      then Some(Image(if IsSigned(d) then n else n % TWO64, Width(d), little)) else None
    case _ => None
  }

  function Joined(b: seq<Byte>, r: Option<seq<Byte>>): Option<seq<Byte>> {
    if r.Some? then Some(b + r.value) else None
  }

  /** The packed bytes after `total` others, in the byte order and with the largest alignment set so far. */
  function Meaning(ds: seq<Directive>, little: bool, most: nat, total: nat, args: seq<Value>): Option<seq<Byte>>
    requires most > 0
  {
    if ds == [] then Some([])
    else
      var d, rest := ds[0], ds[1..];
      match d
      case Order(c) => Meaning(rest, c != '>', most, total, args)
      case MaxAlign(m) =>
        var a := if m.Some? then m.value else 8;
        if 0 < a <= 16 then Meaning(rest, little, a, total, args) else None
      case Blank => Meaning(rest, little, most, total, args)
      case OneByte => Joined([0], Meaning(rest, little, most, total + 1, args))
      case AlignAs(d1) =>
        if !(0 < Width(d1) <= 16) then None
        else
          var g := Gap(total, Width(d1), most);
          if g.None? then None
          else Joined(Zeros(g.value), Meaning(rest, little, most, total + g.value, args))
      case _ =>
        if args == [] || ((d.Plain? || d.Sized? || d.Counted?) && !(0 < Width(d) <= 16)) then None
        else
          var g, w := Gap(total, Width(d), most), Written(d, args[0], little);
          if g.None? || w.None? then None
          else Joined(Zeros(g.value) + w.value,
            Meaning(rest, little, most, total + g.value + |w.value|, args[1..]))
  }

  // ----- reading a format -----

  lemma {:induction false} DigitsRead(fmt: string, i: nat, n: nat)
    requires n <= LIMIT && i + |Decimal(n)| < |fmt| && fmt[i..i + |Decimal(n)|] == Decimal(n)
    requires Pack.Digit(fmt, i + |Decimal(n)|)
    ensures Pack.Digit(fmt, i) && Digits(fmt, i, 0) == Digits(fmt, i + |Decimal(n)|, n)
    decreases n
  {
    LastDigit(fmt, i, n);
    if n >= 10 {
      DigitsRead(fmt, i, n / 10);
    }
  }

  /** The last digit of a number in a text, and the number before it. */
  lemma LastDigit(fmt: string, i: nat, n: nat)
    requires i + |Decimal(n)| <= |fmt| && fmt[i..i + |Decimal(n)|] == Decimal(n)
    ensures var j := i + |Decimal(n)| - 1; Pack.Digit(fmt, j) && fmt[j] as int - '0' as int == n % 10
    ensures n >= 10 ==> |Decimal(n)| == |Decimal(n / 10)| + 1 && fmt[i..i + |Decimal(n / 10)|] == Decimal(n / 10)
  {
    var d := Decimal(n);
    assert fmt[i + |d| - 1] == d[|d| - 1];
    if n >= 10 {
      assert d[..|d| - 1] == Decimal(n / 10);
      assert fmt[i..i + |d|][..|d| - 1] == fmt[i..i + |d| - 1];
    }
  }

  lemma NumberRead(fmt: string, i: nat, n: nat, df: int)
    requires n / 10 <= LIMIT && i + |Decimal(n)| <= |fmt| && fmt[i..i + |Decimal(n)|] == Decimal(n)
    requires !Pack.Digit(fmt, i + |Decimal(n)|)
    ensures GetNum(fmt, i, df) == (n, i + |Decimal(n)|)
  {
    LastDigit(fmt, i, n);
    if n >= 10 {
      DigitsRead(fmt, i, n / 10);
    }
  }

  /** `fmt` has `t` at `i`, and no digit after it. */
  predicate Has(fmt: string, i: nat, t: string) {
    i + |t| <= |fmt| && fmt[i..i + |t|] == t && !Pack.Digit(fmt, i + |t|)
  }

  /** What `getoption` makes of an option, apart from numbers out of range. */
  function OptionOf(h: Header, d: Directive, next: nat): Item
    requires Writable(d)
  {
    match d
    case Order(c) => Item(Knop, 0, 0, next, h.(islittle := c != '>'))
    case MaxAlign(m) => Item(Knop, 0, 0, next, h.(maxalign := if m.Some? then m.value else 8))
    case Plain(_) => Item(if IsSigned(d) then Kint else Kuint, Width(d), 0, next, h)
    case Sized(signed, n) => Item(if signed then Kint else Kuint, n, 0, next, h)
    case Fixed(n) => Item(Kchar, n, 0, next, h)
    case Counted(_) => Item(Kstring, Width(d), 0, next, h)
    case ZeroEnded => Item(Kzstr, 0, 0, next, h)
    case OneByte => Item(Kpadding, 1, 0, next, h)
    case Blank => Item(Knop, 0, 0, next, h)
    case AlignAs(_) => Item(Kpaddalign, 0, 0, next, h)
  }

  predicate Sizes(d: Directive) {
    match d
    case MaxAlign(m) => m.Some? ==> 0 < m.value <= 16
    case Sized(_, n) => 0 < n <= 16
    case Counted(m) => m.Some? ==> 0 < m.value <= 16
    case _ => true
  }

  function NumberOf(d: Directive): Option<nat> {
    match d
    case MaxAlign(m) => m
    case Sized(_, n) => Some(n)
    case Fixed(n) => Some(n)
    case Counted(m) => m
    case _ => None
  }

  lemma TextShape(d: Directive)
    requires Writable(d) && !d.AlignAs?
    ensures Text(d) == [Text(d)[0]] + Suffix(NumberOf(d))
  {
    hide Decimal;
  }

  lemma OptionRead(h: Header, d: Directive, fmt: string, i: nat)
    requires Writable(d) && !d.AlignAs? && Has(fmt, i, Text(d)) && 0 < h.maxalign <= MAXINTSIZE
    ensures !Done(fmt, i)
    ensures if Sizes(d) then GetOption(h, fmt, i) == Ok(OptionOf(h, d, i + |Text(d)|)) else GetOption(h, fmt, i).Err?
  {
    hide GetOption, Digits, OptionOf, Text, Sizes, NumberOf, Decimal;
    TextShape(d);
    var t := Text(d);
    assert fmt[i] == fmt[i..i + |t|][0] == t[0];
    assert fmt[i + 1..i + |t|] == fmt[i..i + |t|][1..] == t[1..];
    if NumberOf(d).Some? {
      NumberedRead(h, d, NumberOf(d).value, fmt, i);
    } else {
      OneLetter(h, d, fmt, i);
    }
  }

  lemma NumberedRead(h: Header, d: Directive, n: nat, fmt: string, i: nat)
    requires Writable(d) && NumberOf(d) == Some(n) && i < |fmt| && fmt[i] == Text(d)[0] && 0 < h.maxalign <= MAXINTSIZE
    requires Has(fmt, i + 1, Decimal(n))
    ensures !Done(fmt, i)
    ensures if Sizes(d) then GetOption(h, fmt, i) == Ok(OptionOf(h, d, i + 1 + |Decimal(n)|))
      else GetOption(h, fmt, i).Err?
  {
    hide GetNum, Decimal;
    NumberRead(fmt, i + 1, n, if d.Fixed? then -1 else if d.Sized? then 4 else 8);
  }

  lemma OneLetter(h: Header, d: Directive, fmt: string, i: nat)
    requires Writable(d) && NumberOf(d).None? && !d.AlignAs? && i < |fmt| && 0 < h.maxalign <= MAXINTSIZE
    requires fmt[i] == Text(d)[0] && |Text(d)| == 1 && !Pack.Digit(fmt, i + 1)
    ensures !Done(fmt, i) && Sizes(d) && GetOption(h, fmt, i) == Ok(OptionOf(h, d, i + 1))
  {
    hide Digits, Decimal;
    if d.Plain? {
      Letters(d.c);
    }
  }

  lemma Letters(c: char)
    requires c in "bBhHiIlLjJT"
    ensures c == 'b' || c == 'B' || c == 'h' || c == 'H' || c == 'i' || c == 'I' || c == 'l' || c == 'L' || c == 'j'
      || c == 'J' || c == 'T'
  {
  }

  // ----- integers -----

  /** What is written for an integer is its image. */
  lemma IntImage(v: Integer, n: nat, signed: bool, little: bool)
    ensures Ordered(IntBytes(Unsigned(v), n, signed && v < 0), little)
      == Image(if signed then v else v % TWO64, n, little)
  {
    var u := if signed then v else v % TWO64;
    var s := IntBytes(Unsigned(v), n, signed && v < 0);
    forall k | 0 <= k < n ensures s[k] == ByteOf(u, k) {
      ImageByte(v, n, signed, k);
    }
    var o := Ordered(s, little);
    forall k | 0 <= k < n ensures o[k] == Image(u, n, little)[k] {
    }
  }

  lemma ImageByte(v: Integer, n: nat, signed: bool, k: nat)
    requires k < n
    ensures IntBytes(Unsigned(v), n, signed && v < 0)[k] == ByteOf(if signed then v else v % TWO64, k)
  {
    hide IntBytes, Shifted, Pow;
    ByteAt(Unsigned(v), n, signed && v < 0, k);
    ShiftedOut(Unsigned(v), k);
    WrapIs(v);
    if k >= 8 {
      HighPower(k);
      SmallQuotient(v, Pow(256, k));
      SmallQuotient(Unsigned(v), Pow(256, k));
    } else if v < 0 && signed {
      PowersApart(k);
      WrapByte(v, Pow(256, k), Pow(256, 8 - k), Pow(256, 7 - k));
    }
  }

  lemma HighPower(k: nat)
    requires k >= 8
    ensures Pow(256, k) >= TWO64
  {
    PowerEight();
    PowerGrows(8, k);
  }

  lemma PowersApart(k: nat)
    requires k < 8
    ensures Pow(256, k) * Pow(256, 8 - k) == TWO64 && Pow(256, 8 - k) == 256 * Pow(256, 7 - k)
  {
    PowerEight();
    PowAdd(256, k, 8 - k);
  }

  lemma SmallQuotient(v: int, p: nat)
    requires 0 < p && 0 - p <= v < p
    ensures v / p == if v < 0 then -1 else 0
  {
  }

  lemma WrapByte(v: int, p: nat, q: nat, m: nat)
    requires p > 0 && q == 256 * m
    ensures (v + p * q) / p % 256 == v / p % 256
  {
    AddMultiple(v, p, q);
    SameByte(v / p, m);
  }

  lemma SameByte(x: int, m: nat)
    ensures (x + 256 * m) % 256 == x % 256
  {
  }

  lemma AddMultiple(v: int, p: nat, q: nat)
    requires p > 0
    ensures (v + p * q) / p == v / p + q
  {
    var a, r := v / p, v % p;
    assert v == p * a + r;
    assert v + p * q == p * (a + q) + r;
    OneQuotient(v + p * q, p, a + q, r);
  }

  lemma OneQuotient(n: int, d: nat, q: int, r: nat)
    requires n == d * q + r && r < d
    ensures n / d == q
  {
    var q', r' := n / d, n % d;
    assert d * q' + r' == d * q + r;
    assert d * (q' - q) == r as int - r';
    OnlyZero(d, q' - q);
  }

  // ----- whole formats -----

  predicate AllWritable(ds: seq<Directive>) {
    forall d :: d in ds ==> Writable(d)
  }

  /** The options begin at `i`, and nothing follows them. */
  predicate From(fmt: string, i: nat, ds: seq<Directive>)
    requires AllWritable(ds)
  {
    i <= |fmt| && fmt[i..] == TextAll(ds)
  }

  lemma FromNext(fmt: string, i: nat, ds: seq<Directive>)
    requires AllWritable(ds) && ds != [] && From(fmt, i, ds)
    ensures Has(fmt, i, Text(ds[0])) && AllWritable(ds[1..]) && From(fmt, i + |Text(ds[0])|, ds[1..])
  {
    var t, rest := Text(ds[0]), TextAll(ds[1..]);
    var j := i + |t|;
    assert fmt[i..j] == fmt[i..][..|t|] == t && fmt[j..] == fmt[i..][|t|..] == rest;
    if j < |fmt| {
      assert fmt[j] == fmt[j..][0] == rest[0];
    }
  }

  /** What `getdetails` makes of an option: the item with its padding, or nothing if it is refused. */
  function DetailsOf(h: Header, total: nat, d: Directive, next: nat): Option<Item>
    requires Writable(d) && 0 < h.maxalign <= MAXINTSIZE
  {
    if d.AlignAs? then
      if 0 < Width(d.d) <= 16 && Gap(total, Width(d.d), h.maxalign).Some?
      then Some(Item(Kpaddalign, 0, Gap(total, Width(d.d), h.maxalign).value, next, h)) else None
    else if !Sizes(d) then None
    else
      var it := OptionOf(h, d, next);
      var g := Gap(total, if d.Fixed? then 0 else it.size, it.h.maxalign);
      if g.Some? then Some(it.(align := g.value)) else None
  }

  lemma DetailsRead(h: Header, total: nat, d: Directive, fmt: string, i: nat)
    requires Writable(d) && Has(fmt, i, Text(d)) && 0 < h.maxalign <= MAXINTSIZE
    ensures !Done(fmt, i)
    ensures match DetailsOf(h, total, d, i + |Text(d)|)
      case Some(it) => GetDetails(h, total, fmt, i) == Ok(it)
      case None => GetDetails(h, total, fmt, i).Err?
  {
    hide GetOption, Digits, Aligned, Gap;
    if d.AlignAs? {
      AlignAsRead(h, total, d, fmt, i);
    } else {
      OptionRead(h, d, fmt, i);
      if Sizes(d) {
        var it := OptionOf(h, d, i + |Text(d)|);
        AlignedRight(it, if d.Fixed? then 0 else it.size, total);
      }
    }
  }

  lemma AlignAsRead(h: Header, total: nat, d: Directive, fmt: string, i: nat)
    requires Writable(d) && d.AlignAs? && Has(fmt, i, Text(d)) && 0 < h.maxalign <= MAXINTSIZE
    ensures !Done(fmt, i)
    ensures match DetailsOf(h, total, d, i + |Text(d)|)
      case Some(it) => GetDetails(h, total, fmt, i) == Ok(it)
      case None => GetDetails(h, total, fmt, i).Err?
  {
    hide GetOption, Digits, Aligned, Gap;
    var t, t1 := Text(d), Text(d.d);
    assert fmt[i] == fmt[i..i + |t|][0] == 'X';
    assert fmt[i + 1..i + |t|] == fmt[i..i + |t|][1..] == t1;
    AlignRead(h, fmt, i);
    OptionRead(h, d.d, fmt, i + 1);
    AlignedRight(Item(Kpaddalign, 0, 0, i + |t|, h), Width(d.d), total);
  }

  ghost predicate AlignedAs(x: Item, size: nat, total: nat)
    requires x.h.maxalign > 0
  {
    match Gap(total, size, x.h.maxalign)
    case Some(g) => Aligned(x, size, total) == Ok(x.(align := g))
    case None => Aligned(x, size, total).Err?
  }

  lemma AlignedRight(x: Item, size: nat, total: nat)
    requires x.h.maxalign > 0
    ensures AlignedAs(x, size, total)
  {
    var a := if size < x.h.maxalign then size else x.h.maxalign;
    if size > 1 && a in {1, 2, 4, 8, 16} {
      OneTurn(total % a, a);
    }
  }

  lemma OneTurn(r: nat, a: nat)
    requires r < a
    ensures (a - r) % a == if r == 0 then 0 else a - r
  {
    if r > 0 {
      Remainder(a - r, a, 0, a - r);
    }
  }

  lemma AlignRead(h: Header, fmt: string, i: nat)
    requires i < |fmt| && fmt[i] == 'X' && 0 < h.maxalign <= MAXINTSIZE
    ensures !Done(fmt, i) && GetOption(h, fmt, i) == Ok(Item(Kpaddalign, 0, 0, i + 1, h))
  {
    hide GetNum;
  }

  /** One argument. */
  lemma ItemMeans(d: Directive, v: Value, it: Item, little: bool)
    requires Writable(d) && (d.Plain? || d.Sized? || d.Counted? || d.Fixed? || d.ZeroEnded?) && Sizes(d)
    requires it == OptionOf(it.h, d, it.next).(align := it.align) && it.h.islittle == little
    ensures match Written(d, v, little)
      case Some(b) => PackItem(it, v) == Ok(b)
      case None => PackItem(it, v).Err?
  {
    hide IntBytes, Ordered, Image;
    if v.Int? && (d.Plain? || d.Sized?) {
      IntImage(v.n, Width(d), IsSigned(d), little);
      WrapIs(v.n);
    } else if v.Str? && d.Counted? && |v.s| < TWO63 {
      IntImage(|v.s|, Width(d), true, little);
      WrapIs(|v.s|);
    }
  }

  lemma WrapIs(v: Integer)
    ensures v % TWO64 == Unsigned(v)
  {
  }

  lemma NoGap(total: nat)
    ensures forall most: nat, n: nat {:trigger Gap(total, n, most)} :: most > 0 && n <= 1 ==>
      Gap(total, n, most) == Some(0)
  {
  }

  lemma Refused(ds: seq<Directive>, h: Header, total: nat, next: nat, args: seq<Value>)
    requires ds != [] && Writable(ds[0]) && 0 < h.maxalign <= MAXINTSIZE && DetailsOf(h, total, ds[0], next).None?
    ensures Meaning(ds, h.islittle, h.maxalign, total, args).None?
  {
    hide Gap, Written;
    NoGap(total);
  }

  /** An option that takes an argument. */
  lemma TakesOne(ds: seq<Directive>, h: Header, total: nat, it: Item, args: seq<Value>)
    requires ds != [] && Writable(ds[0]) && 0 < h.maxalign <= MAXINTSIZE
    requires DetailsOf(h, total, ds[0], it.next) == Some(it) && TakesArgument(it.kind)
    ensures it.h == h && ItemOk(it) && var d := ds[0]; d.Plain? || d.Sized? || d.Counted? || d.Fixed? || d.ZeroEnded?
    ensures Meaning(ds, h.islittle, h.maxalign, total, args) == (
      if args == [] then None
      else
        match Written(ds[0], args[0], h.islittle)
        case None => None
        case Some(b) => Joined(Zeros(it.align) + b,
          Meaning(ds[1..], h.islittle, h.maxalign, total + it.align + |b|, args[1..])))
    ensures args != [] ==>
      match Written(ds[0], args[0], h.islittle)
      case Some(b) => PackItem(it, args[0]) == Ok(b)
      case None => PackItem(it, args[0]).Err?
  {
    hide Gap, Written, PackItem;
    NoGap(total);
    if args != [] {
      ItemMeans(ds[0], args[0], it, h.islittle);
    }
  }

  lemma TakesNone(ds: seq<Directive>, h: Header, total: nat, it: Item, args: seq<Value>)
    requires ds != [] && Writable(ds[0]) && 0 < h.maxalign <= MAXINTSIZE
    requires DetailsOf(h, total, ds[0], it.next) == Some(it) && !TakesArgument(it.kind)
    ensures 0 < it.h.maxalign <= MAXINTSIZE
    ensures Meaning(ds, h.islittle, h.maxalign, total, args) == Joined(Zeros(it.align + it.size),
      Meaning(ds[1..], it.h.islittle, it.h.maxalign, total + it.align + it.size, args))
  {
    hide Gap, Written;
    NoGap(total);
    assert Zeros(1) == [0] && Zeros(0) == [];
    forall r: Option<seq<Byte>> ensures Joined([], r) == r {
      assert r.Some? ==> [] + r.value == r.value;
    }
  }

  /** Packing by a format that is written option by option does what the options mean, and fails when they refuse. */
  lemma {:induction false} PackMeans(ds: seq<Directive>, fmt: string, i: nat, h: Header, total: nat, args: seq<Value>)
    requires AllWritable(ds) && From(fmt, i, ds) && 0 < h.maxalign <= MAXINTSIZE
    ensures match Meaning(ds, h.islittle, h.maxalign, total, args)
      case Some(b) => PackAll(h, fmt, i, total, args) == Ok(b)
      case None => PackAll(h, fmt, i, total, args).Err?
    decreases |ds|
  {
    hide GetDetails, PackItem, Written, Gap, From, Text, DetailsOf, Meaning;
    if ds == [] {
      assert Meaning(ds, h.islittle, h.maxalign, total, args) == Some([]) by {
        NoneLeft(h, total, args);
      }
      assert i == |fmt| by {
        FromEnd(fmt, i);
      }
      return;
    }
    var d := ds[0];
    FromNext(fmt, i, ds);
    DetailsRead(h, total, d, fmt, i);
    var o := DetailsOf(h, total, d, i + |Text(d)|);
    if o.None? {
      Refused(ds, h, total, i + |Text(d)|, args);
      return;
    }
    var it := o.value;
    NextIs(h, total, d, i + |Text(d)|);
    if TakesArgument(it.kind) {
      TakesOne(ds, h, total, it, args);
      if args != [] && Written(d, args[0], h.islittle).Some? {
        PackMeans(ds[1..], fmt, it.next, it.h, total + it.align + |Written(d, args[0], h.islittle).value|, args[1..]);
      }
    } else {
      TakesNone(ds, h, total, it, args);
      PackMeans(ds[1..], fmt, it.next, it.h, total + it.align + it.size, args);
    }
  }

  lemma NoneLeft(h: Header, total: nat, args: seq<Value>)
    requires h.maxalign > 0
    ensures Meaning([], h.islittle, h.maxalign, total, args) == Some([])
  {
  }

  lemma FromEnd(fmt: string, i: nat)
    requires From(fmt, i, [])
    ensures i == |fmt|
  {
  }

  lemma NextIs(h: Header, total: nat, d: Directive, next: nat)
    requires Writable(d) && 0 < h.maxalign <= MAXINTSIZE && DetailsOf(h, total, d, next).Some?
    ensures DetailsOf(h, total, d, next).value.next == next
  {
  }

  /** `str_pack` of a format that is written option by option. */
  method PackWritten(ds: seq<Directive>, args: seq<Value>) returns (r: Pack.Result<seq<Byte>>)
    requires AllWritable(ds)
    ensures match Meaning(ds, true, 1, 0, args)
      case Some(b) => r == Ok(b)
      case None => r.Err?
  {
    hide Meaning, PackAll;
    r := StrPack(TextAll(ds), args);
    assert TextAll(ds)[0..] == TextAll(ds);
    PackMeans(ds, TextAll(ds), 0, NATIVE, 0, args);
  }

  /** `str_unpack` of what the options mean. */
  method UnpackWritten(ds: seq<Directive>, args: seq<Value>) returns (r: Pack.Result<(seq<Value>, nat)>)
    requires AllWritable(ds) && Meaning(ds, true, 1, 0, args).Some?
    ensures r.Ok? && r.value.0 <= args && r.value.1 == |Meaning(ds, true, 1, 0, args).value|
  {
    hide Meaning, PackAll, UnpackAll;
    var b := Meaning(ds, true, 1, 0, args).value;
    assert TextAll(ds)[0..] == TextAll(ds);
    PackMeans(ds, TextAll(ds), 0, NATIVE, 0, args);
    Inverse(TextAll(ds), args);
    r := StrUnpack(TextAll(ds), b, 0);
  }

  /** One integer in a given byte order: byte `k` of its two's complement is `k` places from the low end. */
  method PackInteger(o: char, d: Directive, v: Integer) returns (r: Pack.Result<seq<Byte>>)
    requires o in "<=>" && (d.Plain? || d.Sized?) && Writable(d) && 0 < Width(d) <= 16
    ensures r.Ok? <==> InRange(v, Width(d), IsSigned(d))
    ensures r.Ok? ==> |r.value| == Width(d) && forall k :: 0 <= k < Width(d) ==>
      r.value[if o == '>' then Width(d) - 1 - k else k] == (if IsSigned(d) then v else v % TWO64) / Pow(256, k) % 256
  {
    hide Pow, InRange, Meaning, Text, Written, Width, IsSigned;
    var ds := [Order(o), d];
    assert Meaning(ds, true, 1, 0, [Int(v)]) == Meaning([d], o != '>', 1, 0, [Int(v)]) by {
      OrderFirst(o, [d], [Int(v)]);
      assert ds == [Order(o)] + [d];
    }
    OneInteger(d, v, o != '>');
    WrittenInteger(d, v, o != '>');
    r := PackWritten(ds, [Int(v)]);
  }

  lemma WrittenInteger(d: Directive, v: Integer, little: bool)
    requires (d.Plain? || d.Sized?) && 0 < Width(d) <= 16
    ensures var w := Written(d, Int(v), little);
      && (w.Some? <==> InRange(v, Width(d), IsSigned(d)))
      && (w.Some? ==> |w.value| == Width(d) && forall k :: 0 <= k < Width(d) ==>
        w.value[if !little then Width(d) - 1 - k else k] == (if IsSigned(d) then v else v % TWO64) / Pow(256, k) % 256)
  {
    hide Pow, InRange, Width, IsSigned;
    var u, n := if IsSigned(d) then v else v % TWO64, Width(d);
    var b := Image(u, n, little);
    forall k | 0 <= k < n ensures b[if !little then n - 1 - k else k] == u / Pow(256, k) % 256 {
      assert b[if little then k else n - 1 - k] == ByteOf(u, k);
    }
  }

  lemma OrderFirst(o: char, ds: seq<Directive>, args: seq<Value>)
    ensures Meaning([Order(o)] + ds, true, 1, 0, args) == Meaning(ds, o != '>', 1, 0, args)
  {
    assert ([Order(o)] + ds)[1..] == ds;
  }

  lemma OneInteger(d: Directive, v: Integer, little: bool)
    requires (d.Plain? || d.Sized?) && 0 < Width(d) <= 16
    ensures Meaning([d], little, 1, 0, [Int(v)]) == Written(d, Int(v), little)
  {
    hide Written;
    var w := Written(d, Int(v), little);
    assert [d][1..] == [] && [Int(v)][1..] == [] && Zeros(0) == [];
    if w.Some? {
      assert [] + w.value + [] == w.value;
    }
  }
}
