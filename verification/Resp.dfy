/**
 The Redis protocol (redis-parser.c): queries are built in a buffer whose size is computed first, and
 multi-bulk messages are parsed; `parse_ready` says whether a message is complete.
 */
module Resp {
  import opened Decimals

  datatype Arg = Text(s: Bytes) | Bool(b: bool) | Null

  const CRLF: Bytes := "\r\n"

  // ----- building -----

  function Encoded(a: Arg): Bytes {
    match a
    case Text(s) => "$" + Decimal(|s|) + CRLF + s + CRLF
    case Bool(b) => "$1\r\n" + (if b then "1\r\n" else "0\r\n")
    case Null => "$-1\r\n"
  }

  function EncodedAll(args: seq<Arg>): Bytes {
    if args == [] then [] else Encoded(args[0]) + EncodedAll(args[1..])
  }

  /** The message of a query. */
  function Query(args: seq<Arg>): Bytes {
    "*" + Decimal(|args|) + CRLF + EncodedAll(args)
  }

  /** `get_num_size`. */
  method GetNumSize(i0: nat) returns (n: nat)
    ensures n == |Decimal(i0)|
  {
    var i := i0 / 10;
    n := 1;
    while i > 0
      invariant n + (if i > 0 then |Decimal(i)| else 0) == |Decimal(i0)|
    {
      i, n := i / 10, n + 1;
    }
  }

  /** `sprintf_num`: the digits are made in a temporary buffer from its end, and copied. */
  method SprintfNum(buf: array<char>, last: nat, n: nat) returns (next: nat)
    requires last + |Decimal(n)| <= buf.Length
    modifies buf
    ensures next == last + |Decimal(n)| && buf[..next] == old(buf[..last]) + Decimal(n)
  {
    var temp := [(n % 10 + '0' as int) as char];
    var i := n / 10;
    while i > 0
      invariant (if i > 0 then Decimal(i) else []) + temp == Decimal(n)
    {
      ghost var before := temp;
      temp := [(i % 10 + '0' as int) as char] + temp;
      assert i >= 10 ==> Decimal(i) + before == Decimal(i / 10) + temp;
      i := i / 10;
    }
    assert [] + temp == temp;
    next := Copy(buf, last, temp);
  }

  /** `memcpy` to the end of what was written. */
  method Copy(buf: array<char>, last: nat, s: Bytes) returns (next: nat)
    requires last + |s| <= buf.Length
    modifies buf
    ensures next == last + |s| && buf[..next] == old(buf[..last]) + s
  {
    ghost var before := buf[..last];
    var i := 0;
    while i < |s|
      invariant 0 <= i <= |s| && buf[..last + i] == before + s[..i]
    {
      buf[last + i] := s[i];
      i := i + 1;
    }
    next := last + |s|;
    assert s[..|s|] == s;
  }

  method SizeOf(a: Arg) returns (n: nat)
    ensures n == |Encoded(a)|
  {
    match a
    case Text(s) =>
      var digits := GetNumSize(|s|);
      n := 1 + digits + 2 + |s| + 2;
    case Bool(_) => n := 7;
    case Null => n := 5;
  }

  method Write(buf: array<char>, last: nat, a: Arg) returns (next: nat)
    requires last + |Encoded(a)| <= buf.Length
    modifies buf
    ensures next == last + |Encoded(a)| && buf[..next] == old(buf[..last]) + Encoded(a)
  {
    match a
    case Text(s) =>
      next := WriteText(buf, last, s);
    case Bool(b) =>
      ghost var before := buf[..last];
      next := Copy(buf, last, "$1\r\n");
      next := Copy(buf, next, if b then "1\r\n" else "0\r\n");
      assert (before + "$1\r\n") + (if b then "1\r\n" else "0\r\n") == before + Encoded(a);
    case Null =>
      next := Copy(buf, last, "$-1\r\n");
  }

  method WriteText(buf: array<char>, last: nat, s: Bytes) returns (next: nat)
    requires last + |Encoded(Text(s))| <= buf.Length
    modifies buf
    ensures next == last + |Encoded(Text(s))| && buf[..next] == old(buf[..last]) + Encoded(Text(s))
  {
    hide Decimal;
    ghost var before := buf[..last];
    next := Copy(buf, last, "$");
    next := SprintfNum(buf, next, |s|);
    next := Copy(buf, next, CRLF);
    next := Copy(buf, next, s);
    next := Copy(buf, next, CRLF);
    Regroup(before, "$", Decimal(|s|), CRLF, s, CRLF);
  }

  lemma Regroup(a: Bytes, b: Bytes, c: Bytes, d: Bytes, e: Bytes, f: Bytes)
    ensures a + b + c + d + e + f == a + (b + c + d + e + f)
  {
  }

  /** `redis_build_query`: the second pass fills exactly the buffer that the first one asked for. */
  method BuildQuery(args: seq<Arg>) returns (ok: bool, message: Bytes)
    ensures ok == (args != [])
    ensures ok ==> message == Query(args)
  {
    hide Decimal, Encoded;
    if args == [] {
      return false, "";
    }
    var digits := GetNumSize(|args|);
    var total := 1 + digits + 2;
    for i := 0 to |args|
      invariant total == 1 + digits + 2 + |EncodedAll(args[..i])|
    {
      var n := SizeOf(args[i]);
      EncodedSnoc(args, i);
      total := total + n;
    }
    assert args[..|args|] == args;
    var buf := new char[total](_ => ' ');
    var last := Fill(buf, args);
    ok := last == total;
    message := buf[..];
    assert buf[..last] == buf[..];
  }

  /** The second pass. */
  method Fill(buf: array<char>, args: seq<Arg>) returns (last: nat)
    requires buf.Length == |Query(args)|
    modifies buf
    ensures last == buf.Length && buf[..last] == Query(args)
  {
    hide Decimal, Encoded;
    last := Copy(buf, 0, "*");
    last := SprintfNum(buf, last, |args|);
    last := Copy(buf, last, CRLF);
    ghost var head := "*" + Decimal(|args|) + CRLF;
    assert buf[..last] == head;
    for i := 0 to |args|
      invariant last == |head| + |EncodedAll(args[..i])| && last <= buf.Length == |head| + |EncodedAll(args)|
      invariant buf[..last] == head + EncodedAll(args[..i])
    {
      EncodedSnoc(args, i);
      EncodedFits(args, i + 1);
      ghost var before := EncodedAll(args[..i]);
      last := Write(buf, last, args[i]);
      assert (head + before) + Encoded(args[i]) == head + (before + Encoded(args[i]));
    }
    assert args[..|args|] == args;
  }

  lemma {:induction false} EncodedConcat(a: seq<Arg>, b: seq<Arg>)
    ensures EncodedAll(a + b) == EncodedAll(a) + EncodedAll(b)
  {
    hide Encoded, Decimal;
    if a == [] {
      assert a + b == b;
    } else {
      EncodedConcat(a[1..], b);
      assert (a + b)[1..] == a[1..] + b;
    }
  }

  lemma EncodedSnoc(args: seq<Arg>, i: nat)
    requires i < |args|
    ensures EncodedAll(args[..i + 1]) == EncodedAll(args[..i]) + Encoded(args[i])
  {
    hide Encoded;
    EncodedConcat(args[..i], [args[i]]);
    assert args[..i + 1] == args[..i] + [args[i]];
    assert EncodedAll([args[i]]) == Encoded(args[i]) + EncodedAll([]);
  }

  lemma EncodedFits(args: seq<Arg>, i: nat)
    requires i <= |args|
    ensures |EncodedAll(args[..i])| <= |EncodedAll(args)|
  {
    EncodedConcat(args[..i], args[i..]);
    assert args == args[..i] + args[i..];
  }

  // ----- parsing -----

  /** What was found, and where it ended; or that the input ends too early; or that it is wrong. */
  datatype Step<T> = Got(value: T, next: nat) | Eof | Bad

  /** The digits up to the next carriage return; there must be something to read. */
  function Number(s: Bytes, p: nat, n: nat): (r: Step<nat>)
    requires p < |s|
    ensures r.Got? ==> p <= r.next < |s| && s[r.next] == '\r'
    decreases |s| - p
  {
    if s[p] == '\r' then Got(n, p)
    else if !Digit(s[p]) then Bad
    else if p + 1 >= |s| then Eof
    else Number(s, p + 1, n * 10 + Value(s[p]))
  }

  /** The line feed after the carriage return at `p`. */
  function LineEnd(s: Bytes, p: nat): Step<bool>
    requires p < |s|
  {
    if p + 1 >= |s| then Eof else if s[p + 1] != '\n' then Bad else Got(true, p + 2)
  }

  function Both<T>(v: T, r: Step<bool>): Step<T> {
    match r
    case Got(_, next) => Got(v, next)
    case Eof => Eof
    case Bad => Bad
  }

  function Counted(s: Bytes, p: nat): (r: Step<nat>)
    ensures r.Got? ==> p < r.next <= |s|
  {
    if p >= |s| then Eof
    else
      match Number(s, p, 0)
      case Got(n, q) => Both(n, LineEnd(s, q))
      case Eof => Eof
      case Bad => Bad
  }

  /** The body of a bulk: as many bytes as its size says, and the end of a line. */
  function Body(s: Bytes, p: nat, size: nat): (r: Step<Bytes>)
    requires p <= |s|
    ensures r.Got? ==> p < r.next <= |s|
  {
    if |s| - p < size + 2 then Eof
    else if s[p + size] != '\r' || s[p + size + 1] != '\n' then Bad
    else Got(s[p..p + size], p + size + 2)
  }

  /** `parse_bulk_reply2`, after the dollar sign; a null bulk is an error. */
  function Bulk(s: Bytes, p: nat): (r: Step<Bytes>)
    ensures r.Got? ==> p < r.next <= |s|
  {
    match Counted(s, p)
    case Got(size, q) => Body(s, q, size)
    case Eof => Eof
    case Bad => Bad
  }

  /** `parse_single_line_reply`: up to the first carriage return with a line feed after it. */
  function Line(s: Bytes, p: nat): (r: Step<Bytes>)
    requires p <= |s|
    ensures r.Got? ==> p + 2 <= r.next <= |s|
    decreases |s| - p
  {
    if p + 1 >= |s| then Eof
    else if s[p] == '\r' && s[p + 1] == '\n' then Got([], p + 2)
    else
      match Line(s, p + 1)
      case Got(l, next) => Got([s[p]] + l, next)
      case Eof => Eof
      case Bad => Bad
  }

  datatype Reply = Data(s: Bytes) | Nil

  /** One element of a multi-bulk reply; `parse_ready` does not know null bulks. */
  function Element(s: Bytes, p: nat, nulls: bool): (r: Step<Reply>)
    ensures r.Got? ==> p < r.next <= |s|
  {
    if p >= |s| then Eof
    else if s[p] == '+' || s[p] == '-' || s[p] == ':' then AsReply(Line(s, p + 1))
    else if s[p] == '$' then
      if nulls && p + 1 < |s| && s[p + 1] == '-' then AsNil(Counted(s, p + 2)) else AsReply(Bulk(s, p + 1))
    else Bad
  }

  function AsNil(r: Step<nat>): Step<Reply> {
    match r
    case Got(_, next) => Got(Nil, next)
    case Eof => Eof
    case Bad => Bad
  }

  function AsReply(r: Step<Bytes>): Step<Reply> {
    match r
    case Got(v, next) => Got(Data(v), next)
    case Eof => Eof
    case Bad => Bad
  }

  function Elements(s: Bytes, p: nat, count: nat, nulls: bool): (r: Step<seq<Reply>>)
    requires p <= |s|
    ensures r.Got? ==> p <= r.next <= |s|
    decreases count
  {
    if count == 0 then Got([], p)
    else
      match Element(s, p, nulls)
      case Got(v, q) =>
        (match Elements(s, q, count - 1, nulls)
         case Got(vs, next) => Got([v] + vs, next)
         case Eof => Eof
         case Bad => Bad)
      case Eof => Eof
      case Bad => Bad
  }

  // ----- what is complete stays complete, what is cut is incomplete -----

  lemma {:induction false} NumberCut(s: Bytes, p: nat, n: nat, t: Bytes)
    requires p < |s| && p < |t| && Agree(s, t) && Number(s, p, n).Got?
    ensures Number(t, p, n) == if Number(s, p, n).next < |t| then Number(s, p, n) else Eof
    decreases |s| - p
  {
    assert t[p] == s[p];
    if s[p] != '\r' && p + 1 < |t| {
      NumberCut(s, p + 1, n * 10 + Value(s[p]), t);
    }
  }

  /** The shorter one is a prefix of the longer one. */
  predicate Agree(s: Bytes, t: Bytes) {
    forall i {:trigger s[i]} {:trigger t[i]} :: 0 <= i < |s| && i < |t| ==> s[i] == t[i]
  }

  ghost predicate CutOr<T>(r: Step<T>, r1: Step<T>, n: nat) {
    r.Got? ==> r1 == if r.next <= n then r else Eof
  }

  lemma CountedCut(s: Bytes, p: nat, t: Bytes)
    requires p <= |s| && p <= |t| && Agree(s, t)
    ensures CutOr(Counted(s, p), Counted(t, p), |t|)
  {
    if Counted(s, p).Got? && p < |t| {
      NumberCut(s, p, 0, t);
      var q := Number(s, p, 0).next;
      assert q + 1 < |t| ==> t[q + 1] == s[q + 1];
    }
  }

  lemma BulkCut(s: Bytes, p: nat, t: Bytes)
    requires p <= |s| && p <= |t| && Agree(s, t)
    ensures CutOr(Bulk(s, p), Bulk(t, p), |t|)
  {
    CountedCut(s, p, t);
    if Bulk(s, p).Got? && Counted(s, p).next <= |t| {
      var size, q := Counted(s, p).value, Counted(s, p).next;
      if q + size + 2 <= |t| {
        assert t[q + size] == s[q + size] && t[q + size + 1] == s[q + size + 1];
        assert t[q..q + size] == s[q..q + size];
      }
    }
  }

  lemma {:induction false} LineCut(s: Bytes, p: nat, t: Bytes)
    requires p <= |s| && p <= |t| && Agree(s, t)
    ensures CutOr(Line(s, p), Line(t, p), |t|)
    decreases |s| - p
  {
    if Line(s, p).Got? && p + 1 < |t| {
      assert t[p] == s[p] && t[p + 1] == s[p + 1];
      if !(s[p] == '\r' && s[p + 1] == '\n') {
        LineCut(s, p + 1, t);
      }
    } else if Line(s, p).Got? {
      LineLong(s, p);
    }
  }

  lemma LineLong(s: Bytes, p: nat)
    requires p <= |s| && Line(s, p).Got?
    ensures Line(s, p).next >= p + 2
  {
  }

  lemma ElementCut(s: Bytes, p: nat, nulls: bool, t: Bytes)
    requires p <= |s| && p <= |t| && Agree(s, t)
    ensures CutOr(Element(s, p, nulls), Element(t, p, nulls), |t|)
  {
    if p < |s| && p < |t| {
      assert t[p] == s[p];
      LineCut(s, p + 1, t);
      BulkCut(s, p + 1, t);
      if p + 1 < |s| && p + 1 < |t| {
        assert t[p + 1] == s[p + 1];
        if p + 2 <= |t| && p + 2 <= |s| {
          CountedCut(s, p + 2, t);
        }
      }
    }
  }

  lemma {:induction false} ElementsCut(s: Bytes, p: nat, count: nat, nulls: bool, t: Bytes)
    requires p <= |s| && p <= |t| && Agree(s, t)
    ensures CutOr(Elements(s, p, count, nulls), Elements(t, p, count, nulls), |t|)
    decreases count
  {
    if count > 0 {
      ElementCut(s, p, nulls, t);
      var r := Element(s, p, nulls);
      if r.Got? && r.next <= |t| {
        ElementsCut(s, r.next, count - 1, nulls, t);
      }
    }
  }

  // ----- complete messages -----

  datatype Answer = Complete(len: nat) | Incomplete | Invalid

  /** `redis_parse_ready`. */
  function Ready(s: Bytes): (r: Answer)
    ensures r.Complete? ==> 1 < r.len <= |s|
  {
    if s == [] || s[0] != '*' then Invalid
    else if |s| == 1 then Incomplete
    else
      match Number(s, 1, 0)
      case Eof => Incomplete
      case Bad => Invalid
      case Got(count, q) =>
        if count == 0 then Invalid
        else
          match LineEnd(s, q)
          case Eof => Incomplete
          case Bad => Invalid
          case Got(_, p) =>
            match Elements(s, p, count, false)
            case Eof => Incomplete
            case Bad => Invalid
            case Got(_, next) => Complete(next)
  }

  /**
   A complete message is recognised whatever comes after it, and every part of it from the beginning is incomplete.
   */
  lemma Framing(s: Bytes, t: Bytes)
    requires Ready(s).Complete? && Agree(s, t) && t != []
    ensures Ready(t) == if Ready(s).len <= |t| then Ready(s) else Incomplete
  {
    assert t[0] == s[0];
    if |t| > 1 {
      NumberCut(s, 1, 0, t);
      var q := Number(s, 1, 0).next;
      if q + 1 < |t| {
        assert t[q + 1] == s[q + 1];
        ElementsCut(s, q + 2, Number(s, 1, 0).value, false, t);
      }
    }
  }

  // ----- queries -----

  function Decoded(a: Arg): Reply {
    match a
    case Text(s) => Data(s)
    case Bool(b) => Data(if b then "1" else "0")
    case Null => Nil
  }

  function DecodedAll(args: seq<Arg>): (r: seq<Reply>)
    ensures |r| == |args|
  {
    if args == [] then [] else [Decoded(args[0])] + DecodedAll(args[1..])
  }

  /** `b` stands at `p`. */
  predicate At(s: Bytes, p: nat, b: Bytes) {
    p + |b| <= |s| && s[p..p + |b|] == b
  }

  lemma AtParts(s: Bytes, p: nat, a: Bytes, b: Bytes)
    requires At(s, p, a + b)
    ensures At(s, p, a) && At(s, p + |a|, b)
  {
    assert s[p..p + |a|] == s[p..p + |a + b|][..|a|] == a;
    assert s[p + |a|..p + |a| + |b|] == s[p..p + |a + b|][|a|..] == b;
  }

  lemma DigitRead(s: Bytes, p: nat, n: nat)
    requires p + 1 < |s| && s[p] == (n % 10 + '0' as int) as char
    ensures Number(s, p, n / 10) == Number(s, p + 1, n)
  {
    assert Digit(s[p]) && Value(s[p]) == n % 10;
  }

  lemma {:induction false} DecimalRead(s: Bytes, p: nat, n: nat, tail: Bytes)
    requires At(s, p, Decimal(n) + tail) && tail != []
    ensures p + |Decimal(n)| < |s| && Number(s, p, 0) == Number(s, p + |Decimal(n)|, n)
    decreases n
  {
    hide Number;
    AtParts(s, p, Decimal(n), tail);
    var c := [(n % 10 + '0' as int) as char];
    if n < 10 {
      assert s[p..p + 1][0] == s[p];
      DigitRead(s, p, n);
    } else {
      assert Decimal(n) + tail == Decimal(n / 10) + (c + tail);
      DecimalRead(s, p, n / 10, c + tail);
      var q := p + |Decimal(n / 10)|;
      AtParts(s, p, Decimal(n / 10), c + tail);
      assert s[q..q + 1 + |tail|][0] == s[q] == c[0];
      DigitRead(s, q, n);
    }
  }

  /** The count or size that was written is read back. */
  lemma CountRead(s: Bytes, p: nat, n: nat)
    requires At(s, p, Decimal(n) + CRLF)
    ensures Counted(s, p) == Got(n, p + |Decimal(n)| + 2) && Number(s, p, 0) == Got(n, p + |Decimal(n)|)
  {
    DecimalRead(s, p, n, CRLF);
    AtParts(s, p, Decimal(n), CRLF);
    var q := p + |Decimal(n)|;
    assert s[q..q + 2][0] == s[q] && s[q..q + 2][1] == s[q + 1];
  }

  lemma Nested(a: Bytes, b: Bytes, c: Bytes)
    ensures a + b + c == a + (b + c)
  {
  }

  lemma TextRead(s: Bytes, p: nat, v: Bytes)
    requires At(s, p, Decimal(|v|) + CRLF + v + CRLF)
    ensures Bulk(s, p) == Got(v, p + |Decimal(|v|) + CRLF + v + CRLF|)
  {
    hide Decimal, Number;
    var d := Decimal(|v|) + CRLF;
    Nested(d, v, CRLF);
    AtParts(s, p, d, v + CRLF);
    CountRead(s, p, |v|);
    var q := p + |d|;
    AtParts(s, q, v, CRLF);
    assert s[q + |v|..q + |v| + 2][0] == s[q + |v|] && s[q + |v|..q + |v| + 2][1] == s[q + |v| + 1];
  }

  lemma Begins(s: Bytes, p: nat, a: Arg)
    requires At(s, p, Encoded(a))
    ensures p + 1 < |s| && s[p] == '$' && (s[p + 1] == '-' <==> a.Null?)
  {
    assert s[p..p + |Encoded(a)|][0] == s[p] && s[p..p + |Encoded(a)|][1] == s[p + 1];
    if a.Text? {
      assert Encoded(a)[1] == Decimal(|a.s|)[0];
    }
  }

  lemma EncodedText(v: Bytes)
    ensures Encoded(Text(v)) == "$" + (Decimal(|v|) + CRLF + v + CRLF)
  {
    hide Decimal;
    Regroup([], "$", Decimal(|v|), CRLF, v, CRLF);
    Regroup("$", Decimal(|v|), CRLF, v, CRLF, []);
    Unit(Encoded(Text(v)), Decimal(|v|) + CRLF + v + CRLF);
  }

  lemma Unit(a: Bytes, b: Bytes)
    ensures [] + a == a && a + [] == a && b + [] == b
  {
  }

  /** A boolean is written like the text `1` or `0`. */
  lemma EncodedBool(b: bool)
    ensures Encoded(Bool(b)) == Encoded(Text(if b then "1" else "0"))
  {
    assert Decimal(1) == "1";
    var v := if b then "1" else "0";
    assert "$" + Decimal(1) + CRLF == "$1\r\n" && v + CRLF == if b then "1\r\n" else "0\r\n";
    Nested("$1\r\n", v, CRLF);
  }

  lemma MinusBad(s: Bytes, p: nat)
    requires p < |s| && s[p] == '-'
    ensures Bulk(s, p) == Bad
  {
  }

  lemma EncodedNull()
    ensures Encoded(Null) == "$-" + (Decimal(1) + CRLF)
  {
    assert Decimal(1) == "1";
  }

  lemma ElementRead(s: Bytes, p: nat, a: Arg, nulls: bool)
    requires At(s, p, Encoded(a))
    ensures Element(s, p, nulls) == if a.Null? && !nulls then Bad else Got(Decoded(a), p + |Encoded(a)|)
  {
    hide Decimal, Bulk, Counted, Encoded;
    Begins(s, p, a);
    match a
    case Text(v) =>
      EncodedText(v);
      AtParts(s, p, "$", Decimal(|v|) + CRLF + v + CRLF);
      TextRead(s, p + 1, v);
    case Bool(b) =>
      var v := if b then "1" else "0";
      EncodedBool(b);
      EncodedText(v);
      AtParts(s, p, "$", Decimal(|v|) + CRLF + v + CRLF);
      TextRead(s, p + 1, v);
    case Null =>
      EncodedNull();
      AtParts(s, p, "$-", Decimal(1) + CRLF);
      CountRead(s, p + 2, 1);
      MinusBad(s, p + 1);
  }

  lemma {:induction false} ElementsRead(s: Bytes, p: nat, args: seq<Arg>, nulls: bool)
    requires At(s, p, EncodedAll(args))
    ensures Elements(s, p, |args|, nulls) == if !nulls && Null in args then Bad
      else Got(DecodedAll(args), p + |EncodedAll(args)|)
    decreases |args|
  {
    hide Encoded, Decoded, Element;
    if args != [] {
      AtParts(s, p, Encoded(args[0]), EncodedAll(args[1..]));
      ElementRead(s, p, args[0], nulls);
      ElementsRead(s, p + |Encoded(args[0])|, args[1..], nulls);
    }
  }

  /** A query is a complete message, whatever comes after it, iff none of its arguments is null. */
  lemma QueryReady(args: seq<Arg>, rest: Bytes)
    requires args != []
    ensures Ready(Query(args) + rest) == if Null in args then Invalid else Complete(|Query(args)|)
  {
    var s := Query(args) + rest;
    QueryParts(s, args, rest);
    CountRead(s, 1, |args|);
    ElementsRead(s, 1 + |Decimal(|args|)| + 2, args, false);
  }

  lemma Four(a: Bytes, b: Bytes, c: Bytes, d: Bytes, e: Bytes)
    ensures a + b + c + d + e == a + (b + c) + (d + e) && a + (b + c) + (d + e) == a + (b + c) + d + e
  {
  }

  lemma Sliced(a: Bytes, b: Bytes, c: Bytes)
    ensures (a + b + c)[|a|..|a| + |b|] == b
  {
  }

  lemma QueryParts(s: Bytes, args: seq<Arg>, rest: Bytes)
    requires s == Query(args) + rest
    ensures |s| > 1 && s[0] == '*' && At(s, 1, Decimal(|args|) + CRLF)
    ensures At(s, 1 + |Decimal(|args|)| + 2, EncodedAll(args))
  {
    hide Decimal, EncodedAll;
    var d, e := Decimal(|args|) + CRLF, EncodedAll(args);
    Four("*", Decimal(|args|), CRLF, e, rest);
    Sliced("*", d, e + rest);
    Sliced("*" + d, e, rest);
  }

  /** Every non-empty proper part of a query from its beginning is incomplete. */
  lemma QueryIncomplete(args: seq<Arg>, n: nat)
    requires args != [] && Null !in args && 0 < n < |Query(args)|
    ensures Ready(Query(args)[..n]) == Incomplete
  {
    var s := Query(args);
    assert s + [] == s;
    QueryReady(args, []);
    Framing(s, s[..n]);
  }

  // ----- the parser -----

  /** The part of `s` before `q` in front of what was found. */
  function Prepended(l: Bytes, r: Step<Bytes>): Step<Bytes> {
    match r
    case Got(v, next) => Got(l + v, next)
    case Eof => Eof
    case Bad => Bad
  }

  /** `parse_single_line_reply`. */
  method ParseSingleLine(s: Bytes, src: nat) returns (r: Step<Bytes>)
    requires src <= |s|
    ensures r == Line(s, src)
  {
    var p, seenCr := src, false;
    assert s[src..src] == [];
    PrependNone(Line(s, src));
    while p != |s|
      invariant src <= p <= |s| && (seenCr ==> p > src && s[p - 1] == '\r')
      invariant var q := if seenCr then p - 1 else p;
        Line(s, src) == Prepended(s[src..q], Line(s, q))
      decreases |s| - p
    {
      if s[p] == '\r' {
        if seenCr {
          LineStep(s, src, p - 1);
        }
        seenCr := true;
      } else if seenCr {
        if s[p] == '\n' {
          assert s[src..p - 1] + [] == s[src..p - 1];
          return Got(s[src..p - 1], p + 1);
        }
        LineStep(s, src, p - 1);
        LineStep(s, src, p);
        seenCr := false;
      } else {
        LineStep(s, src, p);
      }
      p := p + 1;
    }
    r := Eof;
  }

  lemma PrependNone(r: Step<Bytes>)
    ensures Prepended([], r) == r
  {
    if r.Got? {
      assert [] + r.value == r.value;
    }
  }

  lemma LineStep(s: Bytes, src: nat, q: nat)
    requires src <= q < |s| && !(s[q] == '\r' && q + 1 < |s| && s[q + 1] == '\n')
    ensures Prepended(s[src..q], Line(s, q)) == Prepended(s[src..q + 1], Line(s, q + 1))
  {
    assert s[src..q + 1] == s[src..q] + [s[q]];
    var r := Line(s, q + 1);
    if r.Got? {
      assert s[src..q] + ([s[q]] + r.value) == s[src..q + 1] + r.value;
    }
  }

  /** The loop that reads a size or a count. */
  method ReadNumber(s: Bytes, p0: nat) returns (r: Step<nat>)
    requires p0 < |s|
    ensures r == Number(s, p0, 0)
  {
    var p: nat, n: nat := p0, 0;
    while s[p] != '\r'
      invariant p < |s| && Number(s, p, n) == Number(s, p0, 0)
      decreases |s| - p
    {
      if !Digit(s[p]) {
        return Bad;
      }
      n := n * 10 + Value(s[p]);
      p := p + 1;
      if p >= |s| {
        return Eof;
      }
    }
    r := Got(n, p);
  }

  /** `parse_bulk_reply2`. */
  method ParseBulk(s: Bytes, p0: nat) returns (r: Step<Bytes>)
    ensures r == Bulk(s, p0)
  {
    if p0 >= |s| {
      return Eof;
    }
    var n := ReadNumber(s, p0);
    if n.Eof? {
      return Eof;
    }
    if n.Bad? {
      return Bad;
    }
    var size, p := n.value, n.next + 1;
    if p >= |s| {
      return Eof;
    }
    if s[p] != '\n' {
      return Bad;
    }
    p := p + 1;
    if |s| - p < size + 2 {
      return Eof;
    }
    if s[p + size] != '\r' || s[p + size + 1] != '\n' {
      return Bad;
    }
    r := Got(s[p..p + size], p + size + 2);
  }

  /** A null bulk in `parse_bulk_reply`, after the minus sign. */
  method ParseNull(s: Bytes, p0: nat) returns (r: Step<Reply>)
    ensures r == AsNil(Counted(s, p0))
  {
    if p0 >= |s| {
      return Eof;
    }
    var n := ReadNumber(s, p0);
    if n.Eof? {
      return Eof;
    }
    if n.Bad? {
      return Bad;
    }
    if n.next + 1 >= |s| {
      return Eof;
    }
    r := if s[n.next + 1] != '\n' then Bad else Got(Nil, n.next + 2);
  }

  /** The loop over the elements, in `parse_multi_bulk_reply` and, without nulls, in `parse_multi_bulk_reply2`. */
  method ParseElements(s: Bytes, p0: nat, count: nat, nulls: bool) returns (r: Step<seq<Reply>>)
    requires p0 <= |s|
    ensures r == Elements(s, p0, count, nulls)
  {
    hide Line, Bulk, Counted;
    var p: nat := p0;
    var table: seq<Reply> := [];
    ghost var all := Elements(s, p0, count, nulls);
    ListedNone(all);
    for i: nat := 0 to count
      invariant p <= |s| && i <= count && all == Listed(table, Elements(s, p, count - i, nulls))
    {
      var e := ParseElement(s, p, nulls);
      match e {
        case Eof => return Eof;
        case Bad => return Bad;
        case Got(v, next) =>
          ListedOne(table, v, Elements(s, next, count - i - 1, nulls));
          table, p := table + [v], next;
      }
    }
    assert table + [] == table;
    r := Got(table, p);
  }

  method ParseElement(s: Bytes, p: nat, nulls: bool) returns (r: Step<Reply>)
    ensures r == Element(s, p, nulls)
  {
    hide Line, Bulk, Counted;
    if p >= |s| {
      return Eof;
    }
    if s[p] == '+' || s[p] == '-' || s[p] == ':' {
      var l := ParseSingleLine(s, p + 1);
      return AsReply(l);
    }
    if s[p] != '$' {
      return Bad;
    }
    if nulls && p + 1 < |s| && s[p + 1] == '-' {
      r := ParseNull(s, p + 2);
    } else {
      var b := ParseBulk(s, p + 1);
      r := AsReply(b);
    }
  }

  function Listed(table: seq<Reply>, r: Step<seq<Reply>>): Step<seq<Reply>> {
    match r
    case Got(vs, next) => Got(table + vs, next)
    case Eof => Eof
    case Bad => Bad
  }

  lemma ListedNone(r: Step<seq<Reply>>)
    ensures Listed([], r) == r
  {
    if r.Got? {
      assert [] + r.value == r.value;
    }
  }

  lemma ListedOne(table: seq<Reply>, v: Reply, r: Step<seq<Reply>>)
    ensures r.Got? ==> Listed(table, Got([v] + r.value, r.next)) == Listed(table + [v], r)
    ensures !r.Got? ==> Listed(table, r) == Listed(table + [v], r)
  {
    if r.Got? {
      assert table + ([v] + r.value) == (table + [v]) + r.value;
    }
  }

  /** `redis_parse_ready`. */
  method ParseReady(s: Bytes) returns (r: Answer)
    ensures r == Ready(s)
  {
    hide Elements, Number;
    if s == [] || s[0] != '*' {
      return Invalid;
    }
    if |s| == 1 {
      return Incomplete;
    }
    var n := ReadNumber(s, 1);
    if n.Eof? {
      return Incomplete;
    }
    if n.Bad? || n.value == 0 {
      return Invalid;
    }
    var p := n.next + 1;
    if p >= |s| {
      return Incomplete;
    }
    if s[p] != '\n' {
      return Invalid;
    }
    var e := ParseElements(s, p + 1, n.value, false);
    match e {
      case Eof => r := Incomplete;
      case Bad => r := Invalid;
      case Got(_, next) => r := Complete(next);
    }
  }

  datatype Multi = Table(replies: seq<Reply>) | NoTable | Error

  /** What a message that begins with `*` means, when its count has no sign. */
  function MultiOf(s: Bytes, p: nat, nulls: bool := true): Step<seq<Reply>> {
    match Counted(s, p)
    case Got(count, q) => Elements(s, q, count, nulls)
    case Eof => Eof
    case Bad => Bad
  }

  predicate Signed(s: Bytes, p: nat)
    requires p <= |s|
    decreases |s| - p
  {
    p < |s| && (s[p] == '-' || (Digit(s[p]) && Signed(s, p + 1)))
  }

  /** The first minus sign. */
  function SignAt(s: Bytes, p: nat): (m: nat)
    requires p <= |s| && Signed(s, p)
    ensures p <= m < |s| && s[m] == '-'
    ensures forall i :: p <= i < m ==> Digit(s[i])
    decreases |s| - p
  {
    if s[p] == '-' then p else SignAt(s, p + 1)
  }

  /** What follows a minus sign at a null reply: a digit, and anything up to the line's end at `c`. */
  predicate NullLine(s: Bytes, p: nat, c: int) {
    && p < c < |s| - 1 && Digit(s[p]) && s[c] == '\r' && s[c + 1] == '\n'
    && forall i :: p <= i < c ==> s[i] != '\r'
  }

  ghost predicate NullReply(s: Bytes, p: nat) {
    exists c {:trigger NullLine(s, p, c)} :: NullLine(s, p, c)
  }

  /** `parse_multi_bulk_reply`, after the asterisk: a minus sign anywhere in the count makes the reply null. */
  method ParseMultiBulk(s: Bytes, src: nat) returns (r: Multi, next: nat)
    requires src < |s|
    ensures !Signed(s, src) ==>
      match MultiOf(s, src) case Got(vs, q) => r == Table(vs) && next == q case Eof => r == Error case Bad => r == Error
    ensures Signed(s, src) ==> !r.Table? && (r == NoTable <==> NullReply(s, SignAt(s, src) + 1))
    ensures r == NoTable ==> Signed(s, src) && NullLine(s, SignAt(s, src) + 1, next - 2)
    ensures r == Error ==> next == src
  {
    hide Elements;
    var p: nat, count: nat := src, 0;
    r, next := Error, src;
    while s[p] != '\r'
      invariant src <= p < |s| && Number(s, p, count) == Number(s, src, 0) && Signed(s, p) == Signed(s, src)
      invariant Signed(s, src) ==> SignAt(s, p) == SignAt(s, src)
      decreases |s| - p
    {
      if s[p] == '-' {
        r, next := ParseNoTable(s, src, p + 1);
        return;
      }
      if !Digit(s[p]) {
        return;
      }
      count := count * 10 + Value(s[p]);
      p := p + 1;
      if p >= |s| {
        return;
      }
    }
    p := p + 1;
    if p >= |s| || s[p] != '\n' {
      return;
    }
    var e := ParseElements(s, p + 1, count, true);
    match e {
      case Got(vs, q) => r, next := Table(vs), q;
      case _ =>
    }
  }

  /** After a minus sign: one digit, and anything up to the end of the line. */
  method ParseNoTable(s: Bytes, src: nat, p0: nat) returns (r: Multi, next: nat)
    ensures r in {NoTable, Error} && (r == Error ==> next == src)
    ensures r == NoTable <==> NullReply(s, p0)
    ensures r == NoTable ==> NullLine(s, p0, next - 2)
  {
    r, next := Error, src;
    if p0 >= |s| || !Digit(s[p0]) {
      return;
    }
    var p := p0;
    while s[p] != '\r'
      invariant p0 <= p < |s| && forall i :: p0 <= i < p ==> s[i] != '\r'
      decreases |s| - p
    {
      p := p + 1;
      if p >= |s| {
        return;
      }
    }
    if p + 1 < |s| && s[p + 1] == '\n' {
      assert NullLine(s, p0, p);
      r, next := NoTable, p + 2;
    }
  }

  /** A query that was built is parsed back, nulls as nils, whatever comes after it. */
  lemma QueryParsed(args: seq<Arg>, rest: Bytes)
    ensures var s := Query(args) + rest;
      |s| > 1 && !Signed(s, 1) && MultiOf(s, 1) == Got(DecodedAll(args), |Query(args)|)
  {
    var s := Query(args) + rest;
    QueryParts(s, args, rest);
    CountRead(s, 1, |args|);
    NotSigned(s, 1, 0);
    ElementsRead(s, 1 + |Decimal(|args|)| + 2, args, true);
  }

  lemma {:induction false} NotSigned(s: Bytes, p: nat, n: nat)
    requires p < |s| && Number(s, p, n).Got?
    ensures !Signed(s, p)
    decreases |s| - p
  {
    if s[p] != '\r' {
      NotSigned(s, p + 1, n * 10 + Value(s[p]));
    }
  }
}
