/**
 Replies of the Redis protocol as derivations with their texts and values; the parser of redis-parser.c accepts
 exactly the derived texts, and returns their values.
 */
module RespGrammar {
  import opened Decimals
  import opened Resp

  // ----- derivations -----

  /** A status, error or number in a line; a bulk, whose size may have leading zeros or no digits; or a null bulk. */
  datatype Part = OfLine(mark: char, text: Bytes) | OfBulk(size: Bytes, text: Bytes) | OfNull(size: Bytes)

  predicate AllDigits(d: Bytes) {
    forall i :: 0 <= i < |d| ==> '0' <= d[i] <= '9'
  }

  /** What decimal digits stand for. */
  function Amount(d: Bytes): nat
    requires AllDigits(d)
  {
    if d == [] then 0 else Amount(d[..|d| - 1]) * 10 + (d[|d| - 1] as int - '0' as int)
  }

  predicate OneLine(t: Bytes) {
    forall i {:trigger t[i]} :: 0 <= i < |t| - 1 && t[i] == '\r' ==> t[i + 1] != '\n'
  }

  predicate GoodPart(x: Part, nulls: bool) {
    match x
    case OfLine(mark, text) => mark in "+-:" && OneLine(text)
    case OfBulk(size, text) => AllDigits(size) && Amount(size) == |text|
    case OfNull(size) => nulls && AllDigits(size)
  }

  function PartText(x: Part): Bytes {
    match x
    case OfLine(mark, text) => [mark] + (text + CRLF)
    case OfBulk(size, text) => "$" + (size + CRLF + (text + CRLF))
    case OfNull(size) => "$-" + (size + CRLF)
  }

  function PartValue(x: Part): Reply {
    match x
    case OfLine(_, text) => Data(text)
    case OfBulk(_, text) => Data(text)
    case OfNull(_) => Nil
  }

  predicate GoodParts(xs: seq<Part>, nulls: bool) {
    forall i :: 0 <= i < |xs| ==> GoodPart(xs[i], nulls)
  }

  function PartsText(xs: seq<Part>): Bytes {
    if xs == [] then [] else PartText(xs[0]) + PartsText(xs[1..])
  }

  function PartValues(xs: seq<Part>): (r: seq<Reply>)
    ensures |r| == |xs| && forall i :: 0 <= i < |r| ==> r[i] == PartValue(xs[i])
  {
    if xs == [] then [] else [PartValue(xs[0])] + PartValues(xs[1..])
  }

  /** The number of elements, and the elements. */
  ghost predicate Derives(s: Bytes, p: nat, size: Bytes, xs: seq<Part>, nulls: bool) {
    && AllDigits(size) && Amount(size) == |xs| && GoodParts(xs, nulls)
    && At(s, p, size + CRLF + PartsText(xs))
  }

  // ----- what is derived is read -----

  lemma JoinAt(s: Bytes, p: nat, a: Bytes, b: Bytes)
    requires At(s, p, a) && At(s, p + |a|, b)
    ensures At(s, p, a + b)
  {
    assert s[p..p + |a + b|] == s[p..p + |a|] + s[p + |a|..p + |a| + |b|];
  }

  lemma FirstAt(s: Bytes, p: nat, a: Bytes)
    requires At(s, p, a)
    ensures |a| > 0 ==> s[p] == a[0]
    ensures |a| > 1 ==> s[p + 1] == a[1]
  {
    assert |a| > 0 ==> s[p..p + |a|][0] == s[p];
    assert |a| > 1 ==> s[p..p + |a|][1] == s[p + 1];
  }

  lemma {:induction false} DigitsRead(s: Bytes, p: nat, d: Bytes)
    requires AllDigits(d) && At(s, p, d) && p + |d| < |s|
    ensures Number(s, p, 0) == Number(s, p + |d|, Amount(d))
    decreases |d|
  {
    if d != [] {
      var n := |d| - 1;
      assert d == d[..n] + [d[n]];
      AtParts(s, p, d[..n], [d[n]]);
      FirstAt(s, p + n, [d[n]]);
      DigitsRead(s, p, d[..n]);
    }
  }

  lemma CountedRead(s: Bytes, p: nat, d: Bytes)
    requires AllDigits(d) && At(s, p, d + CRLF)
    ensures p < |s| && Number(s, p, 0) == Got(Amount(d), p + |d|) && LineEnd(s, p + |d|) == Got(true, p + |d| + 2)
    ensures Counted(s, p) == Got(Amount(d), p + |d| + 2)
  {
    AtParts(s, p, d, CRLF);
    FirstAt(s, p + |d|, CRLF);
    DigitsRead(s, p, d);
  }

  lemma {:induction false} LineRead(s: Bytes, p: nat, t: Bytes)
    requires OneLine(t) && At(s, p, t + CRLF)
    ensures p <= |s| && Line(s, p) == Got(t, p + |t| + 2)
    decreases |t|
  {
    FirstAt(s, p, t + CRLF);
    if t != [] {
      assert t + CRLF == [t[0]] + (t[1..] + CRLF);
      AtParts(s, p, [t[0]], t[1..] + CRLF);
      assert forall i :: 0 <= i < |t| - 1 ==> t[1..][i] == t[i + 1];
      LineRead(s, p + 1, t[1..]);
      assert t == [t[0]] + t[1..];
    }
  }

  lemma BodyRead(s: Bytes, p: nat, t: Bytes)
    requires At(s, p, t + CRLF)
    ensures p <= |s| && Resp.Body(s, p, |t|) == Got(t, p + |t| + 2)
  {
    AtParts(s, p, t, CRLF);
    FirstAt(s, p + |t|, CRLF);
  }

  lemma PartRead(s: Bytes, p: nat, x: Part, nulls: bool)
    requires GoodPart(x, nulls) && At(s, p, PartText(x))
    ensures Element(s, p, nulls) == Got(PartValue(x), p + |PartText(x)|)
  {
    hide Line, Bulk, Counted, Number, At, OneLine;
    match x
    case OfLine(mark, text) =>
      MarkAt(s, p, x);
      AtParts(s, p, [mark], text + CRLF);
      LineRead(s, p + 1, text);
    case OfBulk(size, text) => BulkPart(s, p, size, text, nulls);
    case OfNull(size) =>
      MarkAt(s, p, x);
      AtParts(s, p, "$-", size + CRLF);
      CountedRead(s, p + 2, size);
  }

  lemma MarkAt(s: Bytes, p: nat, x: Part)
    requires At(s, p, PartText(x))
    ensures p + 1 < |s| && s[p] == PartText(x)[0] && s[p + 1] == PartText(x)[1]
  {
    FirstAt(s, p, PartText(x));
  }

  lemma BulkPart(s: Bytes, p: nat, size: Bytes, text: Bytes, nulls: bool)
    requires GoodPart(OfBulk(size, text), nulls) && At(s, p, PartText(OfBulk(size, text)))
    ensures Element(s, p, nulls) == Got(Data(text), p + |PartText(OfBulk(size, text))|)
  {
    hide Line, Counted, Number, At, Resp.Body;
    MarkAt(s, p, OfBulk(size, text));
    AtParts(s, p, "$", size + CRLF + (text + CRLF));
    AtParts(s, p + 1, size + CRLF, text + CRLF);
    CountedRead(s, p + 1, size);
    BodyRead(s, p + 1 + |size| + 2, text);
    assert PartText(OfBulk(size, text))[1] == if size == [] then '\r' else size[0];
  }

  lemma {:induction false} PartsRead(s: Bytes, p: nat, xs: seq<Part>, nulls: bool)
    requires p <= |s| && GoodParts(xs, nulls) && At(s, p, PartsText(xs))
    ensures Elements(s, p, |xs|, nulls) == Got(PartValues(xs), p + |PartsText(xs)|)
    decreases |xs|
  {
    hide GoodPart, Element, PartText, PartValue, At;
    if xs != [] {
      AtParts(s, p, PartText(xs[0]), PartsText(xs[1..]));
      PartRead(s, p, xs[0], nulls);
      PartsRead(s, p + |PartText(xs[0])|, xs[1..], nulls);
    }
  }

  // ----- what is read is derived -----

  lemma {:induction false} DigitsDerived(s: Bytes, p: nat, q: nat) returns (d: Bytes)
    requires p <= q < |s| && AllDigits(s[p..q]) && Number(s, p, 0) == Number(s, q, Amount(s[p..q]))
    requires Number(s, p, 0).Got?
    ensures AllDigits(d) && At(s, p, d) && p + |d| < |s| && Number(s, p, 0) == Got(Amount(d), p + |d|)
    decreases |s| - q
  {
    if s[q] == '\r' {
      d := s[p..q];
    } else {
      DigitMore(s, p, q);
      d := DigitsDerived(s, p, q + 1);
    }
  }

  lemma DigitMore(s: Bytes, p: nat, q: nat)
    requires p <= q < |s| && AllDigits(s[p..q]) && Digit(s[q])
    ensures AllDigits(s[p..q + 1]) && Amount(s[p..q + 1]) == Amount(s[p..q]) * 10 + Value(s[q])
  {
    var e := s[p..q + 1];
    assert e[..|e| - 1] == s[p..q] && e[|e| - 1] == s[q] && e == s[p..q] + [s[q]];
  }

  lemma CountedDerived(s: Bytes, p: nat) returns (d: Bytes)
    requires Counted(s, p).Got?
    ensures AllDigits(d) && At(s, p, d + CRLF) && Counted(s, p) == Got(Amount(d), p + |d| + 2)
  {
    assert s[p..p] == [];
    d := DigitsDerived(s, p, p);
    var q := p + |d|;
    assert s[q..q + 2] == CRLF;
    JoinAt(s, p, d, CRLF);
  }

  lemma {:induction false} LineDerived(s: Bytes, p: nat)
    requires p <= |s| && Line(s, p).Got?
    ensures OneLine(Line(s, p).value) && At(s, p, Line(s, p).value + CRLF)
    ensures Line(s, p).next == p + |Line(s, p).value| + 2
    decreases |s| - p
  {
    var t := Line(s, p).value;
    if s[p] == '\r' && s[p + 1] == '\n' {
      assert s[p..p + 2] == CRLF == t + CRLF;
    } else {
      LineDerived(s, p + 1);
      var u := Line(s, p + 1).value;
      assert t == [s[p]] + u;
      assert s[p..p + 1] == [s[p]];
      JoinAt(s, p, [s[p]], u + CRLF);
      assert t + CRLF == [s[p]] + (u + CRLF);
      FirstAt(s, p + 1, u + CRLF);
      assert forall i :: 0 < i < |t| ==> t[i] == u[i - 1];
    }
  }

  lemma PartDerived(s: Bytes, p: nat, nulls: bool) returns (x: Part)
    requires Element(s, p, nulls).Got?
    ensures GoodPart(x, nulls) && At(s, p, PartText(x))
    ensures Element(s, p, nulls) == Got(PartValue(x), p + |PartText(x)|)
  {
    hide Line, Counted, Number, At, OneLine;
    if s[p] == '$' {
      x := DollarDerived(s, p, nulls);
    } else {
      LineDerived(s, p + 1);
      x := OfLine(s[p], Line(s, p + 1).value);
      OneAt(s, p);
      JoinAt(s, p, [s[p]], x.text + CRLF);
    }
  }

  lemma OneAt(s: Bytes, p: nat)
    requires p < |s|
    ensures At(s, p, [s[p]])
    ensures p + 1 < |s| ==> At(s, p, [s[p], s[p + 1]])
  {
  }

  lemma DollarDerived(s: Bytes, p: nat, nulls: bool) returns (x: Part)
    requires Element(s, p, nulls).Got? && s[p] == '$'
    ensures GoodPart(x, nulls) && At(s, p, PartText(x))
    ensures Element(s, p, nulls) == Got(PartValue(x), p + |PartText(x)|)
  {
    hide Line, Counted, Bulk, Number, At, AllDigits, Amount;
    OneAt(s, p);
    if nulls && p + 1 < |s| && s[p + 1] == '-' {
      var d := CountedDerived(s, p + 2);
      x := OfNull(d);
      JoinAt(s, p, "$-", d + CRLF);
    } else {
      var d, t := BulkDerived(s, p + 1);
      x := OfBulk(d, t);
      JoinAt(s, p, "$", d + CRLF + (t + CRLF));
    }
  }

  lemma BulkDerived(s: Bytes, p: nat) returns (d: Bytes, t: Bytes)
    requires Bulk(s, p).Got?
    ensures AllDigits(d) && Amount(d) == |t| && At(s, p, d + CRLF + (t + CRLF))
    ensures Bulk(s, p) == Got(t, p + |d + CRLF + (t + CRLF)|)
  {
    hide Counted, At, AllDigits, Amount;
    d := CountedDerived(s, p);
    var q := p + |d| + 2;
    BodyDerived(s, q, Amount(d));
    t := s[q..q + Amount(d)];
    JoinAt(s, p, d + CRLF, t + CRLF);
  }

  lemma BodyDerived(s: Bytes, p: nat, size: nat)
    requires p <= |s| && Resp.Body(s, p, size).Got?
    ensures p + size + 2 <= |s| && At(s, p, s[p..p + size] + CRLF)
  {
    assert s[p + size..p + size + 2] == CRLF;
    JoinAt(s, p, s[p..p + size], CRLF);
  }

  lemma {:induction false} PartsDerived(s: Bytes, p: nat, count: nat, nulls: bool) returns (xs: seq<Part>)
    requires p <= |s| && Elements(s, p, count, nulls).Got?
    ensures |xs| == count && GoodParts(xs, nulls) && At(s, p, PartsText(xs))
    ensures Elements(s, p, count, nulls) == Got(PartValues(xs), p + |PartsText(xs)|)
    decreases count
  {
    hide GoodPart, Element, PartText, PartValue;
    if count == 0 {
      xs := [];
    } else {
      var x := PartDerived(s, p, nulls);
      var q := p + |PartText(x)|;
      var more := PartsDerived(s, q, count - 1, nulls);
      xs := [x] + more;
      assert xs[1..] == more;
      JoinAt(s, p, PartText(x), PartsText(more));
    }
  }

  // ----- whole messages -----

  ghost predicate Means(s: Bytes, p: nat, nulls: bool, vs: seq<Reply>, q: nat) {
    exists size, xs {:trigger Derives(s, p, size, xs, nulls)} ::
      Derives(s, p, size, xs, nulls) && vs == PartValues(xs) && q == p + |size| + 2 + |PartsText(xs)|
  }

  lemma MeansDerived(s: Bytes, p: nat, nulls: bool)
    requires MultiOf(s, p, nulls).Got?
    ensures Means(s, p, nulls, MultiOf(s, p, nulls).value, MultiOf(s, p, nulls).next)
  {
    hide Elements, Counted, At, GoodParts, PartsText, PartValues;
    var d := CountedDerived(s, p);
    var xs := PartsDerived(s, p + |d| + 2, Amount(d), nulls);
    JoinAt(s, p, d + CRLF, PartsText(xs));
    assert Derives(s, p, d, xs, nulls);
  }

  lemma MeansRead(s: Bytes, p: nat, nulls: bool, vs: seq<Reply>, q: nat)
    requires Means(s, p, nulls, vs, q)
    ensures p < |s| && !Signed(s, p) && Counted(s, p).Got? && Counted(s, p).value == |vs|
    ensures MultiOf(s, p, nulls) == Got(vs, q)
  {
    hide Elements, Counted, Number, At, Signed, GoodParts, PartsText;
    var d, xs :| Derives(s, p, d, xs, nulls) && vs == PartValues(xs) && q == p + |d| + 2 + |PartsText(xs)|;
    AtParts(s, p, d + CRLF, PartsText(xs));
    CountedRead(s, p, d);
    PartsRead(s, p + |d| + 2, xs, nulls);
    Unsigned(s, p, d);
  }

  /** A table is read from exactly the texts that are derived, and holds their values. */
  lemma TableExactly(s: Bytes, p: nat, vs: seq<Reply>, q: nat)
    requires p < |s|
    ensures !Signed(s, p) && MultiOf(s, p) == Got(vs, q) <==> Means(s, p, true, vs, q)
  {
    hide Elements, Counted, Signed, Means;
    if MultiOf(s, p, true).Got? {
      MeansDerived(s, p, true);
      MeansRead(s, p, true, MultiOf(s, p, true).value, MultiOf(s, p, true).next);
    }
    if Means(s, p, true, vs, q) {
      MeansRead(s, p, true, vs, q);
    }
  }

  lemma {:induction false} Unsigned(s: Bytes, p: nat, d: Bytes)
    requires p <= |s| && AllDigits(d) && At(s, p, d + CRLF)
    ensures !Signed(s, p)
    decreases |d|
  {
    FirstAt(s, p, d + CRLF);
    if d != [] {
      assert d + CRLF == [d[0]] + (d[1..] + CRLF);
      AtParts(s, p, [d[0]], d[1..] + CRLF);
      Unsigned(s, p + 1, d[1..]);
    }
  }

  /** The complete messages are exactly the derived ones with at least one element and no null. */
  lemma CompleteExactly(s: Bytes, n: nat)
    ensures Ready(s) == Complete(n) <==>
      s != [] && s[0] == '*' && exists vs :: vs != [] && Means(s, 1, false, vs, n)
  {
    hide Elements, Counted, Means, Ready;
    ReadyListing(s);
    if Ready(s) == Complete(n) {
      MeansDerived(s, 1, false);
      MeansRead(s, 1, false, MultiOf(s, 1, false).value, n);
    }
    if s != [] && s[0] == '*' && exists vs :: vs != [] && Means(s, 1, false, vs, n) {
      var vs :| vs != [] && Means(s, 1, false, vs, n);
      MeansRead(s, 1, false, vs, n);
    }
  }

  lemma ReadyListing(s: Bytes)
    ensures Ready(s).Complete? <==>
      s != [] && s[0] == '*' && Counted(s, 1).Got? && Counted(s, 1).value > 0 && MultiOf(s, 1, false).Got?
    ensures Ready(s).Complete? ==> MultiOf(s, 1, false).next == Ready(s).len
  {
    hide Elements;
  }
}
