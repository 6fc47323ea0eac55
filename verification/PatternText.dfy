/**
 What Lua patterns mean (the manual's "Patterns"), written part by part and without reading any pattern: the
 bytes a class has, the order in which repetitions are tried, captures and errors. The matcher of lstrlib.c, given
 the text of the parts, finds just that.
 */
module PatternText {
  import opened Wrappers

  import opened PatternItems
  import opened PatternRelation
  import opened PatternMatch
  import PatternFind

  // ----- patterns, written part by part -----

  /** An element of a set: a byte, a range, or `%` and a byte. */
  datatype Element = Of(c: Byte) | Range(lo: Byte, hi: Byte) | Escape(x: Byte)

  datatype Class = Only(c: Byte) | Any | Escaped(x: Byte) | Set(complement: bool, elements: seq<Element>)

  datatype Rep = Once | Maybe | Many | OnceOrMore | Lazily

  datatype Part =
    | Bytes(cl: Class, rep: Rep)
    | Begin                                                  // (
    | Finish                                                 // )
    | Place                                                  // ()
    | Between(x: Byte, y: Byte)                              // %bxy
    | Border(complement: bool, elements: seq<Element>)       // %f[set]
    | Back(digit: nat)                                       // %1

  function B(c: char): Byte {
    if c < 256 as char then c as int else 0
  }

  predicate PlainElement(e: Element) {
    match e
    case Of(c) => c !in {B('%'), B(']'), B('-'), B('^')}
    case Range(lo, hi) => lo !in {B('%'), B(']'), B('-'), B('^')} && hi !in {B('%'), B(']')}
    case Escape(_) => true
  }

  predicate PlainSet(es: seq<Element>) {
    es != [] && forall e :: e in es ==> PlainElement(e)
  }

  predicate PlainClass(cl: Class) {
    match cl
    case Only(c) =>
      c !in {B('('), B(')'), B('.'), B('%'), B('['), B('$'), B('?'), B('*'), B('+'), B('-')}
    case Any => true
    case Escaped(x) => x != B('b') && x != B('f') && !(B('0') <= x <= B('9'))
    case Set(_, es) => PlainSet(es)
  }

  /** The part has a text that is read back as the part. */
  predicate Writable(q: Part) {
    match q
    case Bytes(cl, _) => PlainClass(cl)
    case Border(_, es) => PlainSet(es)
    case Back(digit) => digit < 10
    case _ => true
  }

  predicate AllWritable(ps: seq<Part>) {
    && (forall q :: q in ps ==> Writable(q))
    && forall i :: 0 <= i < |ps| - 1 ==> !(ps[i].Begin? && ps[i + 1].Finish?)
  }

  function ElementText(e: Element): seq<Byte> {
    match e
    case Of(c) => [c]
    case Range(lo, hi) => [lo, B('-'), hi]
    case Escape(x) => [B('%'), x]
  }

  function ElementsText(es: seq<Element>): seq<Byte> {
    if es == [] then [] else ElementText(es[0]) + ElementsText(es[1..])
  }

  function SetText(complement: bool, es: seq<Element>): seq<Byte> {
    [B('[')] + (if complement then [B('^')] else []) + ElementsText(es) + [B(']')]
  }

  function ClassText(cl: Class): seq<Byte> {
    match cl
    case Only(c) => [c]
    case Any => [B('.')]
    case Escaped(x) => [B('%'), x]
    case Set(complement, es) => SetText(complement, es)
  }

  function RepText(rep: Rep): seq<Byte> {
    match rep
    case Once => []
    case Maybe => [B('?')]
    case Many => [B('*')]
    case OnceOrMore => [B('+')]
    case Lazily => [B('-')]
  }

  function PartText(q: Part): seq<Byte> {
    match q
    case Bytes(cl, rep) => ClassText(cl) + RepText(rep)
    case Begin => [B('(')]
    case Finish => [B(')')]
    case Place => [B('('), B(')')]
    case Between(x, y) => [B('%'), B('b'), x, y]
    case Border(complement, es) => [B('%'), B('f')] + SetText(complement, es)
    case Back(digit) => [B('%'), if digit < 10 then B('0') + digit else 0]
  }

  /** The text of the parts, with `$` at the end if the match has to end with the subject. */
  function Text(ps: seq<Part>, atEnd: bool): seq<Byte> {
    if ps == [] then if atEnd then [B('$')] else []
    else PartText(ps[0]) + Text(ps[1..], atEnd)
  }

  // ----- the bytes of a class -----

  /** Letters, control bytes, digits, printing bytes, lower case, punctuation, space, upper case, alphanumeric, hex. */
  predicate Named(letter: char, c: Byte) {
    match letter
    case 'a' => 65 <= c <= 90 || 97 <= c <= 122
    case 'c' => c <= 31 || c == 127
    case 'd' => 48 <= c <= 57
    case 'g' => 33 <= c <= 126
    case 'l' => 97 <= c <= 122
    case 'p' => 33 <= c <= 47 || 58 <= c <= 64 || 91 <= c <= 96 || 123 <= c <= 126
    case 's' => 9 <= c <= 13 || c == 32
    case 'u' => 65 <= c <= 90
    case 'w' => 48 <= c <= 57 || 65 <= c <= 90 || 97 <= c <= 122
    case 'x' => 48 <= c <= 57 || 65 <= c <= 70 || 97 <= c <= 102
    case 'z' => c == 0
    case _ => false
  }

  const LETTERS: string := "acdglpsuwxz"

  /** What `%` and a byte stand for: a class, its complement if the letter is upper-case, or the byte itself. */
  predicate EscapeHas(x: Byte, c: Byte) {
    if x as char in LETTERS then Named(x as char, c)
    else if 65 <= x <= 90 && (x + 32) as char in LETTERS then !Named((x + 32) as char, c)
    else c == x
  }

  predicate ElementHas(e: Element, c: Byte) {
    match e
    case Of(b) => c == b
    case Range(lo, hi) => lo <= c <= hi
    case Escape(x) => EscapeHas(x, c)
  }

  predicate ClassHas(cl: Class, c: Byte) {
    match cl
    case Only(b) => c == b
    case Any => true
    case Escaped(x) => EscapeHas(x, c)
    case Set(complement, es) => SetHolds(complement, es, c)
  }

  predicate SetHolds(complement: bool, es: seq<Element>, c: Byte) {
    (exists e :: e in es && ElementHas(e, c)) != complement
  }

  // ----- what a pattern finds -----

  /** How many bytes from `s` on are in the class, one after the other. */
  function RunOf(cl: Class, src: seq<Byte>, s: nat): (n: nat)
    ensures s <= |src| ==> s + n <= |src|
    ensures forall i :: s <= i < s + n ==> i < |src| && ClassHas(cl, src[i])
    ensures s + n < |src| ==> !ClassHas(cl, src[s + n])
    decreases |src| - s
  {
    if s < |src| && ClassHas(cl, src[s]) then 1 + RunOf(cl, src, s + 1) else 0
  }

  /** A nested search, one level deeper. */
  ghost function Nested(ps: seq<Part>, atEnd: bool, src: seq<Byte>, d: nat, s: nat, caps: seq<Cap>): Option<Outcome>
    decreases |ps|, 3
  {
    if d == 0 then Some(Fault(TOO_COMPLEX)) else Finds(ps, atEnd, src, d - 1, s, caps)
  }

  /** The first of the starts `s + n`, `s + n - 1`, down to `s + least`, that gives an answer. */
  ghost function Down(ps: seq<Part>, atEnd: bool, src: seq<Byte>, d: nat, s: nat, caps: seq<Cap>, n: int, least: nat):
      Option<Outcome>
    decreases |ps|, 4, n
  {
    if n < least then None
    else
      var r := Nested(ps, atEnd, src, d, s + n, caps);
      if r.Some? then r else Down(ps, atEnd, src, d, s, caps, n - 1, least)
  }

  /** The first of the starts `s + n`, `s + n + 1`, up to `s + most`. */
  ghost function Up(ps: seq<Part>, atEnd: bool, src: seq<Byte>, d: nat, s: nat, caps: seq<Cap>, n: nat, most: nat):
      Option<Outcome>
    decreases |ps|, 4, most - n
  {
    if n > most then None
    else
      var r := Nested(ps, atEnd, src, d, s + n, caps);
      if r.Some? then r else Up(ps, atEnd, src, d, s, caps, n + 1, most)
  }

  /** What the parts find from `s` on: where the match ends and its captures, an error, or nothing. */
  ghost function Finds(ps: seq<Part>, atEnd: bool, src: seq<Byte>, d: nat, s: nat, caps: seq<Cap>): Option<Outcome>
    decreases |ps|, 2
  {
    if ps == [] then if atEnd && s != |src| then None else Some(Matched(s, caps))
    else
      var rest := ps[1..];
      match ps[0]
      case Bytes(cl, rep) =>
        var n := RunOf(cl, src, s);
        if rep == Once then if n == 0 then None else Finds(rest, atEnd, src, d, s + 1, caps)
        else if n == 0 then if rep == OnceOrMore then None else Finds(rest, atEnd, src, d, s, caps)
        else
          (match rep
          case Maybe =>
            var r := Nested(rest, atEnd, src, d, s + 1, caps);
            if r.Some? then r else Finds(rest, atEnd, src, d, s, caps)
          case Many => Down(rest, atEnd, src, d, s, caps, n, 0)
          case OnceOrMore => Down(rest, atEnd, src, d, s, caps, n, 1)
          case _ => Up(rest, atEnd, src, d, s, caps, 0, n))
      case Begin =>
        if |caps| >= 32 then Some(Fault(TOO_MANY))
        else Nested(rest, atEnd, src, d, s, caps + [Cap(s, CAP_UNFINISHED)])
      case Place =>
        if |caps| >= 32 then Some(Fault(TOO_MANY))
        else Nested(rest, atEnd, src, d, s, caps + [Cap(s, CAP_POSITION)])
      case Finish =>
        var l := LastOpen(caps);
        if l < 0 then Some(Fault(NOT_OPEN))
        else Nested(rest, atEnd, src, d, s, caps[l := Cap(caps[l].init, s - caps[l].init)])
      case Between(x, y) =>
        if e: nat :| Balanced(src, s, e, x, y) then Finds(rest, atEnd, src, d, e, caps) else None
      case Border(complement, es) =>
        if !SetHolds(complement, es, if s == 0 then 0 else At(src, s - 1)) && SetHolds(complement, es, At(src, s))
        then Finds(rest, atEnd, src, d, s, caps) else None
      case Back(digit) =>
        if digit == 0 || digit > |caps| || caps[digit - 1].len == CAP_UNFINISHED then Some(Fault(BAD_INDEX))
        else
          var c := caps[digit - 1];
          if Again(src, s, c) then Finds(rest, atEnd, src, d, s + c.len, caps) else None
  }

  // ----- reading the text -----

  ghost predicate Has(pat: seq<Byte>, p: nat, t: seq<Byte>) {
    p + |t| <= |pat| && pat[p..p + |t|] == t
  }

  lemma HasParts(pat: seq<Byte>, p: nat, a: seq<Byte>, b: seq<Byte>)
    requires Has(pat, p, a + b)
    ensures Has(pat, p, a) && Has(pat, p + |a|, b)
  {
    assert pat[p..p + |a + b|][..|a|] == pat[p..p + |a|];
    assert pat[p..p + |a + b|][|a|..] == pat[p + |a|..p + |a| + |b|];
  }

  lemma HasByte(pat: seq<Byte>, p: nat, t: seq<Byte>, i: nat)
    requires Has(pat, p, t) && i < |t|
    ensures pat[p + i] == t[i]
  {
    assert pat[p..p + |t|][i] == pat[p + i];
  }

  /** `match_class` knows the classes. */
  lemma ClassesRight(x: Byte, c: Byte)
    ensures MatchClass(c, x) <==> EscapeHas(x, c)
  {
    hide Named, IsAlpha, IsCntrl, IsDigit, IsGraph, IsPunct, IsSpace, IsAlnum, IsXDigit;
    NamedRight(c);
    LettersAre(x);
    if IsUpper(x) {
      LettersAre(x + 32);
    }
  }

  lemma LettersAre(x: Byte)
    ensures x as char in LETTERS <==> x in {97, 99, 100, 103, 108, 112, 115, 117, 119, 120, 122}
  {
    var l := "acdglpsuwxz";
    assert l[0] == 'a' && l[1] == 'c' && l[2] == 'd' && l[3] == 'g' && l[4] == 'l' && l[5] == 'p' && l[6] == 's'
      && l[7] == 'u' && l[8] == 'w' && l[9] == 'x' && l[10] == 'z';
  }

  lemma NamedRight(c: Byte)
    ensures Named('a', c) == IsAlpha(c) && Named('c', c) == IsCntrl(c) && Named('d', c) == IsDigit(c)
    ensures Named('g', c) == IsGraph(c) && Named('l', c) == IsLower(c) && Named('p', c) == IsPunct(c)
    ensures Named('s', c) == IsSpace(c) && Named('u', c) == IsUpper(c) && Named('w', c) == IsAlnum(c)
    ensures Named('x', c) == IsXDigit(c) && Named('z', c) == (c == 0)
  {
  }

  function ElementsHave(es: seq<Element>, c: Byte): bool {
    es != [] && (ElementHas(es[0], c) || ElementsHave(es[1..], c))
  }

  lemma {:induction false} ElementsAny(es: seq<Element>, c: Byte)
    ensures ElementsHave(es, c) <==> exists e :: e in es && ElementHas(e, c)
  {
    if es != [] {
      ElementsAny(es[1..], c);
      assert forall e :: e in es <==> e == es[0] || e in es[1..];
    }
  }

  /** A set ends after its elements, and has what they have. */
  lemma {:induction false} SetRead(pat: seq<Byte>, i: nat, es: seq<Element>, c: Byte)
    requires forall e :: e in es ==> PlainElement(e)
    requires Has(pat, i, ElementsText(es) + [B(']')])
    ensures var ec := i + |ElementsText(es)|;
      (es != [] ==> SetEnd(pat, i) == Ends(ec + 1)) && (SetHas(pat, i, ec, c) <==> ElementsHave(es, c))
    decreases |es|
  {
    hide SetEnd, ElementText, PlainElement, ElementHas, Has;
    if es != [] {
      var t, tail := ElementText(es[0]), ElementsText(es[1..]);
      var rest := tail + [B(']')];
      Together(es);
      HasParts(pat, i, t, rest);
      SetRead(pat, i + |t|, es[1..], c);
      RestBegins(es[1..]);
      EndByte(pat, i + |t|, tail);
      ElementRead(pat, i, es[0], rest, c);
      assert i + |ElementsText(es)| == i + |t| + |tail|;
    }
  }

  lemma Together(es: seq<Element>)
    requires es != []
    ensures ElementsText(es) + [B(']')] == ElementText(es[0]) + (ElementsText(es[1..]) + [B(']')])
    ensures |ElementsText(es)| == |ElementText(es[0])| + |ElementsText(es[1..])| && |ElementText(es[0])| > 0
  {
  }

  lemma EndByte(pat: seq<Byte>, i: nat, t: seq<Byte>)
    requires Has(pat, i, t + [B(']')])
    ensures i + |t| < |pat| && pat[i + |t|] == B(']')
  {
    HasByte(pat, i, t + [B(']')], |t|);
  }

  lemma RestBegins(es: seq<Element>)
    requires forall e :: e in es ==> PlainElement(e)
    ensures var t := ElementsText(es) + [B(']')];
      t[0] != B('-') && (t[0] == B(']') <==> es == [])
  {
    if es != [] {
      assert es[0] in es;
    }
  }

  /** The first element of a set, with `rest` after it. */
  lemma ElementRead(pat: seq<Byte>, i: nat, e: Element, rest: seq<Byte>, c: Byte)
    requires PlainElement(e) && Has(pat, i, ElementText(e)) && rest != [] && Has(pat, i + |ElementText(e)|, rest)
    requires rest[0] != B('-')
    ensures var j := i + |ElementText(e)|;
      && SetEnd(pat, i) == (if rest[0] == B(']') then Ends(j + 1) else SetEnd(pat, j))
      && forall ec {:trigger SetHas(pat, i, ec, c)} :: ec >= j && ec < |pat| && pat[ec] == B(']') ==>
        (SetHas(pat, i, ec, c) <==> ElementHas(e, c) || SetHas(pat, j, ec, c))
  {
    var t := ElementText(e);
    HasByte(pat, i + |t|, rest, 0);
    HasByte(pat, i, t, 0);
    if e.Escape? {
      HasByte(pat, i, t, 1);
      ClassesRight(e.x, c);
    } else if e.Range? {
      HasByte(pat, i, t, 1);
      HasByte(pat, i, t, 2);
      assert SetEnd(pat, i) == SetEnd(pat, i + 1) == SetEnd(pat, i + 2);
    }
  }

  /** A whole set, at `p`. */
  lemma BracketRead(pat: seq<Byte>, p: nat, complement: bool, es: seq<Element>)
    requires PlainSet(es) && Has(pat, p, SetText(complement, es))
    ensures var ep := p + |SetText(complement, es)|;
      && pat[p] == B('[') && ItemEnd(pat, p) == Ends(ep)
      && forall c {:trigger InSet(pat, p, ep - 1, c)} :: InSet(pat, p, ep - 1, c) <==> SetHolds(complement, es, c)
  {
    hide SetEnd, SetHas, ElementText, ElementHas, ElementsHave;
    var head := [B('[')] + if complement then [B('^')] else [];
    var body := ElementsText(es) + [B(']')];
    assert SetText(complement, es) == head + body;
    HasParts(pat, p, head, body);
    HasByte(pat, p, head, 0);
    if complement {
      HasByte(pat, p, head, 1);
    } else {
      HasByte(pat, p + 1, body, 0);
      NoCaret(es);
    }
    forall c ensures InSet(pat, p, p + |head + body| - 1, c) <==> SetHolds(complement, es, c) {
      SetRead(pat, p + |head|, es, c);
      ElementsAny(es, c);
    }
    SetRead(pat, p + |head|, es, 0);
  }

  lemma NoCaret(es: seq<Element>)
    requires PlainSet(es)
    ensures (ElementsText(es) + [B(']')])[0] != B('^')
  {
    assert es[0] in es;
  }

  /** The item that is read for a part. */
  function ItemOf(q: Part, p: nat): Item
    requires Writable(q)
  {
    var next := p + |PartText(q)|;
    match q
    case Bytes(cl, rep) =>
      Chars(p + |ClassText(cl)|,
        match rep case Once => One case Maybe => Opt case Many => Star case OnceOrMore => Plus case Lazily => Lazy,
          next)
    case Begin => Open(false, next)
    case Finish => Close(next)
    case Place => Open(true, next)
    case Between(x, y) => Balance(x, y, next)
    case Border(_, _) => Frontier(p + 2, next)
    case Back(digit) => BackRef(B('0') + digit, next)
  }

  /** What follows a part does not change how it is read. */
  predicate Follows(q: Part, rest: seq<Byte>) {
    rest != [] ==> rest[0] !in {B('?'), B('*'), B('+'), B('-')} && (q.Begin? ==> rest[0] != B(')'))
  }

  lemma ItemRead(pat: seq<Byte>, p: nat, q: Part, rest: seq<Byte>)
    requires Writable(q) && p <= |pat| && pat[p..] == PartText(q) + rest && Follows(q, rest)
    ensures p < |pat| && ItemAt(pat, p) == ItemOf(q, p)
  {
    hide ItemAt, ItemOf, PartText;
    var t := PartText(q);
    assert Has(pat, p, t) && pat[p + |t|..] == rest by {
      assert pat[p..p + |t|] == pat[p..][..|t|] && pat[p + |t|..] == pat[p..][|t|..];
    }
    if rest != [] {
      assert pat[p + |t|] == pat[p + |t|..][0] == rest[0];
    }
    AnyRead(pat, p, q);
  }

  lemma AnyRead(pat: seq<Byte>, p: nat, q: Part)
    requires Writable(q) && Has(pat, p, PartText(q))
    requires var j := p + |PartText(q)|;
      j < |pat| ==> pat[j] !in {B('?'), B('*'), B('+'), B('-')} && (q.Begin? ==> pat[j] != B(')'))
    ensures p < |pat| && ItemAt(pat, p) == ItemOf(q, p)
  {
    match q
    case Bytes(cl, rep) => CharsRead(pat, p, cl, rep);
    case Border(complement, es) => BorderRead(pat, p, complement, es);
    case Between(x, y) => BetweenRead(pat, p, x, y);
    case Back(digit) => BackRead(pat, p, digit);
    case _ => ParenRead(pat, p, q);
  }

  lemma BackRead(pat: seq<Byte>, p: nat, digit: nat)
    requires digit < 10 && Has(pat, p, PartText(Back(digit)))
    ensures p < |pat| && ItemAt(pat, p) == ItemOf(Back(digit), p)
  {
    hide ItemEnd, SuffixOf;
    HasByte(pat, p, PartText(Back(digit)), 0);
    HasByte(pat, p, PartText(Back(digit)), 1);
  }

  lemma ParenRead(pat: seq<Byte>, p: nat, q: Part)
    requires (q.Begin? || q.Finish? || q.Place?) && Has(pat, p, PartText(q))
    requires q.Begin? && p + 1 < |pat| ==> pat[p + 1] != B(')')
    ensures p < |pat| && ItemAt(pat, p) == ItemOf(q, p)
  {
    hide ItemEnd, SuffixOf;
    HasByte(pat, p, PartText(q), 0);
    if q.Place? {
      HasByte(pat, p, PartText(q), 1);
    }
  }

  lemma BetweenRead(pat: seq<Byte>, p: nat, x: Byte, y: Byte)
    requires Has(pat, p, PartText(Between(x, y)))
    ensures p < |pat| && ItemAt(pat, p) == ItemOf(Between(x, y), p)
  {
    hide ItemEnd, SuffixOf;
    var t := PartText(Between(x, y));
    HasByte(pat, p, t, 0);
    HasByte(pat, p, t, 1);
    HasByte(pat, p, t, 2);
    HasByte(pat, p, t, 3);
  }

  lemma BorderRead(pat: seq<Byte>, p: nat, complement: bool, es: seq<Element>)
    requires PlainSet(es) && Has(pat, p, PartText(Border(complement, es)))
    ensures p < |pat| && ItemAt(pat, p) == ItemOf(Border(complement, es), p)
  {
    hide ItemEnd, SuffixOf, SetText, PlainSet;
    var t := PartText(Border(complement, es));
    HasByte(pat, p, t, 0);
    HasByte(pat, p, t, 1);
    HasParts(pat, p, [B('%'), B('f')], SetText(complement, es));
    BracketRead(pat, p + 2, complement, es);
  }

  lemma CharsRead(pat: seq<Byte>, p: nat, cl: Class, rep: Rep)
    requires PlainClass(cl) && Has(pat, p, ClassText(cl) + RepText(rep))
    requires var j := p + |ClassText(cl) + RepText(rep)|;
      j < |pat| ==> pat[j] !in {B('?'), B('*'), B('+'), B('-')}
    ensures p < |pat| && ItemAt(pat, p) == ItemOf(Bytes(cl, rep), p)
  {
    hide ItemAt, ClassText;
    var t, u := ClassText(cl), RepText(rep);
    HasParts(pat, p, t, u);
    if u != [] {
      HasByte(pat, p + |t|, u, 0);
    }
    ClassRead(pat, p, cl);
  }

  lemma ClassRead(pat: seq<Byte>, p: nat, cl: Class)
    requires PlainClass(cl) && Has(pat, p, ClassText(cl))
    ensures p < |pat| && var ep := p + |ClassText(cl)|; var suffix := SuffixOf(At(pat, ep));
      ItemAt(pat, p) == Chars(ep, suffix, if suffix.One? then ep else ep + 1)
  {
    hide SetEnd, SuffixOf;
    var t := ClassText(cl);
    HasByte(pat, p, t, 0);
    if cl.Set? {
      BracketRead(pat, p, cl.complement, cl.elements);
    } else if cl.Escaped? {
      HasByte(pat, p, t, 1);
    }
  }

  /** The item matches the bytes of the class. */
  lemma SingleRight(src: seq<Byte>, s: nat, pat: seq<Byte>, p: nat, cl: Class)
    requires PlainClass(cl) && Has(pat, p, ClassText(cl))
    ensures Single(src, s, pat, p, p + |ClassText(cl)|) <==> s < |src| && ClassHas(cl, src[s])
  {
    hide SetEnd, SetHas, MatchClass, EscapeHas, SetHolds;
    var t := ClassText(cl);
    HasByte(pat, p, t, 0);
    if cl.Set? {
      BracketRead(pat, p, cl.complement, cl.elements);
    } else if cl.Escaped? {
      HasByte(pat, p, t, 1);
      if s < |src| {
        ClassesRight(cl.x, src[s]);
      }
    }
  }

  lemma TextBegins(q: Part, ps: seq<Part>, atEnd: bool)
    requires AllWritable([q] + ps)
    ensures Follows(q, Text(ps, atEnd))
  {
    if ps != [] {
      assert ([q] + ps)[0] == q && ([q] + ps)[1] == ps[0] && ps[0] in [q] + ps;
      assert Writable(ps[0]) && !(q.Begin? && ps[0].Finish?);
      assert Text(ps, atEnd)[0] == PartText(ps[0])[0];
    }
  }

  // ----- the matcher finds what the parts mean -----

  ghost predicate From(pat: seq<Byte>, p: nat, ps: seq<Part>, atEnd: bool) {
    p <= |pat| && AllWritable(ps) && pat[p..] == Text(ps, atEnd)
  }

  lemma FromNext(pat: seq<Byte>, p: nat, ps: seq<Part>, atEnd: bool)
    requires From(pat, p, ps, atEnd) && ps != []
    ensures Writable(ps[0]) && p < |pat| && ItemAt(pat, p) == ItemOf(ps[0], p) && Has(pat, p, PartText(ps[0]))
    ensures From(pat, p + |PartText(ps[0])|, ps[1..], atEnd)
  {
    hide ItemAt, ItemOf, PartText;
    var q, rest := ps[0], ps[1..];
    assert q in ps && [q] + rest == ps;
    TextBegins(q, rest, atEnd);
    ItemRead(pat, p, q, Text(rest, atEnd));
    var t := PartText(q);
    assert pat[p..p + |t|] == pat[p..][..|t|] == t && pat[p + |t|..] == pat[p..][|t|..];
    forall i | 0 <= i < |rest| - 1 ensures !(rest[i].Begin? && rest[i + 1].Finish?) {
      assert rest[i] == ps[i + 1] && rest[i + 1] == ps[i + 2];
    }
  }

  /** No match needs no choices. */
  lemma NothingFound(src: seq<Byte>, pat: seq<Byte>, call: bool, d: nat, s: nat, p: nat, caps: seq<Cap>, t: seq<nat>)
    requires p <= |pat| && First(src, pat, call, d, s, p, caps, t, None)
    ensures First(src, pat, call, d, s, p, caps, [], None)
  {
  }

  lemma {:induction false} NestedFirst(ps: seq<Part>, atEnd: bool, src: seq<Byte>, d: nat, s: nat, caps: seq<Cap>,
      pat: seq<Byte>, p: nat) returns (t: seq<nat>)
    requires From(pat, p, ps, atEnd) && s <= |src|
    ensures First(src, pat, true, d, s, p, caps, t, Nested(ps, atEnd, src, d, s, caps))
    decreases |ps|, 3
  {
    if d == 0 {
      t := [];
    } else {
      t := FindsFirst(ps, atEnd, src, d - 1, s, caps, pat, p);
      CallFirst(src, pat, d, s, p, caps, t, Finds(ps, atEnd, src, d - 1, s, caps));
    }
  }

  /** A repeated item at `p`, whose class has the next `most` bytes and not the one after them. */
  ghost predicate Repeats(src: seq<Byte>, pat: seq<Byte>, s: nat, p: nat, next: nat, most: nat)
    requires p < |pat|
  {
    && ItemAt(pat, p).Chars? && ItemAt(pat, p).next == next <= |pat| && ItemAt(pat, p).suffix in {Star, Plus, Lazy}
    && s + most <= |src| && most > 0
    && (forall k {:trigger Single(src, k, pat, p, ItemAt(pat, p).ep)} :: s <= k < s + most ==>
      Single(src, k, pat, p, ItemAt(pat, p).ep))
    && !Single(src, s + most, pat, p, ItemAt(pat, p).ep)
  }

  lemma {:induction false} DownFirst(ps: seq<Part>, atEnd: bool, src: seq<Byte>, d: nat, s: nat, caps: seq<Cap>,
      n: int, least: nat, pat: seq<Byte>, p: nat, next: nat, most: nat) returns (t: seq<nat>)
    requires From(pat, next, ps, atEnd) && p < |pat| && Repeats(src, pat, s, p, next, most) && -1 <= n <= most
    requires ItemAt(pat, p).suffix == if least == 0 then Star else Plus
    requires least <= 1 && n + 1 >= least
    requires forall m: nat {:trigger Tried(src, pat, d, s, p, caps, m)} :: m > n ==> Tried(src, pat, d, s, p, caps, m)
    ensures First(src, pat, false, d, s, p, caps, t, Down(ps, atEnd, src, d, s, caps, n, least))
    decreases |ps|, 4, n
  {
    if n < least {
      if least == 1 {
        TriedBad(src, pat, d, s, p, caps, 0);
      }
      TriedAll(src, pat, d, s, p, caps);
      t := [];
    } else {
      var t1 := NestedFirst(ps, atEnd, src, d, s + n, caps, pat, next);
      var r := Nested(ps, atEnd, src, d, s + n, caps);
      assert Single(src, s, pat, p, ItemAt(pat, p).ep);
      if r.Some? {
        Found(src, pat, d, s, p, caps, n, t1, r.value);
        t := [n] + t1;
      } else {
        TriedOne(src, pat, d, s, p, caps, n, t1);
        t := DownFirst(ps, atEnd, src, d, s, caps, n - 1, least, pat, p, next, most);
      }
    }
  }

  lemma {:induction false} UpFirst(ps: seq<Part>, atEnd: bool, src: seq<Byte>, d: nat, s: nat, caps: seq<Cap>,
      n: nat, pat: seq<Byte>, p: nat, next: nat, most: nat) returns (t: seq<nat>)
    requires From(pat, next, ps, atEnd) && p < |pat| && Repeats(src, pat, s, p, next, most) && n <= most + 1
    requires ItemAt(pat, p).suffix == Lazy
    requires forall m: nat {:trigger Tried(src, pat, d, s, p, caps, m)} :: m < n ==> Tried(src, pat, d, s, p, caps, m)
    ensures First(src, pat, false, d, s, p, caps, t, Up(ps, atEnd, src, d, s, caps, n, most))
    decreases |ps|, 4, most + 1 - n
  {
    if n > most {
      MoreThan(src, pat, d, s, p, caps, most);
      TriedAll(src, pat, d, s, p, caps);
      t := [];
    } else {
      var t1 := NestedFirst(ps, atEnd, src, d, s + n, caps, pat, next);
      var r := Nested(ps, atEnd, src, d, s + n, caps);
      assert Single(src, s, pat, p, ItemAt(pat, p).ep);
      if r.Some? {
        Found(src, pat, d, s, p, caps, n, t1, r.value);
        t := [n] + t1;
      } else {
        TriedOne(src, pat, d, s, p, caps, n, t1);
        t := UpFirst(ps, atEnd, src, d, s, caps, n + 1, pat, p, next, most);
      }
    }
  }

  lemma {:induction false} FindsFirst(ps: seq<Part>, atEnd: bool, src: seq<Byte>, d: nat, s: nat, caps: seq<Cap>,
      pat: seq<Byte>, p: nat) returns (t: seq<nat>)
    requires From(pat, p, ps, atEnd) && s <= |src|
    ensures First(src, pat, false, d, s, p, caps, t, Finds(ps, atEnd, src, d, s, caps))
    decreases |ps|, 2
  {
    hide First, Better, Possible, Goes, Reduces, Text, PartText, ItemAt;
    if ps == [] {
      EndFirst(atEnd, src, d, s, caps, pat, p);
      t := [];
      return;
    }
    FromNext(pat, p, ps, atEnd);
    var rest, next := ps[1..], p + |PartText(ps[0])|;
    match ps[0]
    case Bytes(cl, rep) => t := BytesFirst(ps, atEnd, src, d, s, caps, pat, p, cl, rep);
    case Between(x, y) => t := BetweenFirst(ps, atEnd, src, d, s, caps, pat, p, x, y);
    case Border(complement, es) => t := BorderFirst(ps, atEnd, src, d, s, caps, pat, p, complement, es);
    case Back(digit) => t := BackFirst(ps, atEnd, src, d, s, caps, pat, p, digit);
    case _ => t := ParenFirst(ps, atEnd, src, d, s, caps, pat, p);
  }

  lemma EndFirst(atEnd: bool, src: seq<Byte>, d: nat, s: nat, caps: seq<Cap>, pat: seq<Byte>, p: nat)
    requires From(pat, p, [], atEnd) && s <= |src|
    ensures First(src, pat, false, d, s, p, caps, [], Finds([], atEnd, src, d, s, caps))
  {
    if atEnd {
      assert pat[p] == pat[p..][0] == B('$') && p + 1 == |pat|;
      AnchorFirst(src, pat, d, s, p, caps);
    } else {
      FinalFirst(src, pat, d, s, caps);
    }
  }

  /** An item that is passed in one way. */
  lemma Passed(src: seq<Byte>, pat: seq<Byte>, d: nat, s: nat, p: nat, caps: seq<Cap>, call: bool, s2: nat, p2: nat,
      caps2: seq<Cap>, t: seq<nat>, r: Option<Outcome>)
    requires p < |pat| && p2 <= |pat| && Forced(src, pat, s, p, caps, call, s2, p2, caps2)
    requires First(src, pat, call, d, s2, p2, caps2, t, r)
    ensures First(src, pat, false, d, s, p, caps, t, r)
  {
    hide First, Reduces, Forced;
    Plain(src, pat, d, s, p, caps, call, s2, p2, caps2);
    ReducesFirst(src, pat, d, s, p, caps, [], call, s2, p2, caps2, t, r);
    assert [] + t == t;
  }

  /** Parentheses. */
  lemma {:induction false} ParenFirst(ps: seq<Part>, atEnd: bool, src: seq<Byte>, d: nat, s: nat, caps: seq<Cap>,
      pat: seq<Byte>, p: nat) returns (t: seq<nat>)
    requires From(pat, p, ps, atEnd) && s <= |src| && ps != [] && (ps[0].Begin? || ps[0].Finish? || ps[0].Place?)
    ensures First(src, pat, false, d, s, p, caps, t, Finds(ps, atEnd, src, d, s, caps))
    decreases |ps|, 1
  {
    hide First, From, Text, PartText, ItemAt;
    FromNext(pat, p, ps, atEnd);
    var rest, next := ps[1..], p + |PartText(ps[0])|;
    var l := LastOpen(caps);
    if ps[0].Finish? && l < 0 {
      NotOpenFirst(src, pat, d, s, p, caps);
      t := [];
    } else if !ps[0].Finish? && |caps| >= 32 {
      TooManyFirst(src, pat, d, s, p, caps);
      t := [];
    } else {
      var caps1 := if ps[0].Finish? then caps[l := Cap(caps[l].init, s - caps[l].init)]
        else caps + [Cap(s, if ps[0].Place? then CAP_POSITION else CAP_UNFINISHED)];
      t := NestedFirst(rest, atEnd, src, d, s, caps1, pat, next);
      Passed(src, pat, d, s, p, caps, true, s, next, caps1, t, Nested(rest, atEnd, src, d, s, caps1));
    }
  }

  lemma {:induction false} BetweenFirst(ps: seq<Part>, atEnd: bool, src: seq<Byte>, d: nat, s: nat, caps: seq<Cap>,
      pat: seq<Byte>, p: nat, x: Byte, y: Byte) returns (t: seq<nat>)
    requires From(pat, p, ps, atEnd) && s <= |src| && ps != [] && ps[0] == Between(x, y)
    ensures First(src, pat, false, d, s, p, caps, t, Finds(ps, atEnd, src, d, s, caps))
    decreases |ps|, 1
  {
    hide First, From, Text, PartText, ItemAt, Balanced;
    FromNext(pat, p, ps, atEnd);
    var rest, next := ps[1..], p + |PartText(ps[0])|;
    if e: nat :| Balanced(src, s, e, x, y) {
      BalanceWithin(src, s, e, x, y);
      t := FindsFirst(rest, atEnd, src, d, e, caps, pat, next);
      Passed(src, pat, d, s, p, caps, false, e, next, caps, t, Finds(rest, atEnd, src, d, e, caps));
    } else {
      NoFirst(src, pat, d, s, p, caps);
      t := [];
    }
  }

  lemma BalanceWithin(src: seq<Byte>, s: nat, e: nat, x: Byte, y: Byte)
    requires Balanced(src, s, e, x, y)
    ensures e <= |src| && forall e1: nat {:trigger Balanced(src, s, e1, x, y)} :: Balanced(src, s, e1, x, y) ==> e1 == e
  {
    forall e1: nat | Balanced(src, s, e1, x, y) ensures e1 == e {
      OneBalance(src, s, e, e1, x, y);
    }
  }

  lemma {:induction false} BorderFirst(ps: seq<Part>, atEnd: bool, src: seq<Byte>, d: nat, s: nat, caps: seq<Cap>,
      pat: seq<Byte>, p: nat, complement: bool, es: seq<Element>) returns (t: seq<nat>)
    requires From(pat, p, ps, atEnd) && s <= |src| && ps != [] && ps[0] == Border(complement, es)
    ensures First(src, pat, false, d, s, p, caps, t, Finds(ps, atEnd, src, d, s, caps))
    decreases |ps|, 1
  {
    hide First, From, Text, ItemAt, InSet, SetHolds, SetText, PartText, ItemEnd, Has;
    FromNext(pat, p, ps, atEnd);
    var rest, next := ps[1..], p + |PartText(ps[0])|;
    BorderHolds(pat, p, complement, es, Before(src, s));
    BorderHolds(pat, p, complement, es, At(src, s));
    if !SetHolds(complement, es, Before(src, s)) && SetHolds(complement, es, At(src, s)) {
      t := FindsFirst(rest, atEnd, src, d, s, caps, pat, next);
      Passed(src, pat, d, s, p, caps, false, s, next, caps, t, Finds(rest, atEnd, src, d, s, caps));
    } else {
      NoFirst(src, pat, d, s, p, caps);
      t := [];
    }
  }

  lemma BorderHolds(pat: seq<Byte>, p: nat, complement: bool, es: seq<Element>, c: Byte)
    requires PlainSet(es) && Has(pat, p, PartText(Border(complement, es)))
    ensures InSet(pat, p + 2, p + |PartText(Border(complement, es))| - 1, c) <==> SetHolds(complement, es, c)
  {
    hide SetHolds, SetHas, SetText;
    var t := SetText(complement, es);
    HasParts(pat, p, [B('%'), B('f')], t);
    BracketHas(pat, p + 2, complement, es, c);
    assert |PartText(Border(complement, es))| == 2 + |t|;
  }

  lemma BracketHas(pat: seq<Byte>, p: nat, complement: bool, es: seq<Element>, c: Byte)
    requires PlainSet(es) && Has(pat, p, SetText(complement, es))
    ensures InSet(pat, p, p + |SetText(complement, es)| - 1, c) <==> SetHolds(complement, es, c)
  {
    hide SetHas, SetHolds;
    BracketRead(pat, p, complement, es);
  }

  lemma {:induction false} BackFirst(ps: seq<Part>, atEnd: bool, src: seq<Byte>, d: nat, s: nat, caps: seq<Cap>,
      pat: seq<Byte>, p: nat, digit: nat) returns (t: seq<nat>)
    requires From(pat, p, ps, atEnd) && s <= |src| && ps != [] && ps[0] == Back(digit)
    ensures First(src, pat, false, d, s, p, caps, t, Finds(ps, atEnd, src, d, s, caps))
    decreases |ps|, 1
  {
    hide First, From, Text, PartText, ItemAt;
    FromNext(pat, p, ps, atEnd);
    var rest, next := ps[1..], p + |PartText(ps[0])|;
    var l := CaptureIndex(caps, B('0') + digit);
    if l < 0 {
      BadIndexFirst(src, pat, d, s, p, caps);
      t := [];
    } else if Again(src, s, caps[l]) {
      var e := s + caps[l].len;
      t := FindsFirst(rest, atEnd, src, d, e, caps, pat, next);
      Passed(src, pat, d, s, p, caps, false, e, next, caps, t, Finds(rest, atEnd, src, d, e, caps));
    } else {
      NoFirst(src, pat, d, s, p, caps);
      t := [];
    }
  }

  /** The bytes that the item matches are the run. */
  lemma SingleRun(src: seq<Byte>, s: nat, pat: seq<Byte>, p: nat, cl: Class)
    requires PlainClass(cl) && Has(pat, p, ClassText(cl)) && s <= |src|
    ensures var n, ep := RunOf(cl, src, s), p + |ClassText(cl)|;
      && (forall k {:trigger Single(src, k, pat, p, ep)} :: s <= k < s + n ==> Single(src, k, pat, p, ep))
      && !Single(src, s + n, pat, p, ep) && (n > 0 ==> Single(src, s, pat, p, ep))
  {
    hide ClassText, Single, ClassHas;
    var n, ep := RunOf(cl, src, s), p + |ClassText(cl)|;
    forall k | s <= k < s + n ensures Single(src, k, pat, p, ep) {
      SingleRight(src, k, pat, p, cl);
    }
    SingleRight(src, s + n, pat, p, cl);
  }

  /** A class with its suffix. */
  lemma {:induction false} BytesFirst(ps: seq<Part>, atEnd: bool, src: seq<Byte>, d: nat, s: nat, caps: seq<Cap>,
      pat: seq<Byte>, p: nat, cl: Class, rep: Rep) returns (t: seq<nat>)
    requires From(pat, p, ps, atEnd) && s <= |src| && ps != [] && ps[0] == Bytes(cl, rep)
    ensures First(src, pat, false, d, s, p, caps, t, Finds(ps, atEnd, src, d, s, caps))
    decreases |ps|, 1
  {
    hide First, From, Text, ClassText, ItemAt, Single, ClassHas, Tried, RunOf, Has;
    FromNext(pat, p, ps, atEnd);
    var rest, next := ps[1..], p + |PartText(ps[0])|;
    var ep, n := ItemAt(pat, p).ep, RunOf(cl, src, s);
    HasParts(pat, p, ClassText(cl), RepText(rep));
    SingleRun(src, s, pat, p, cl);
    if n == 0 && (rep == Once || rep == OnceOrMore) {
      NoFirst(src, pat, d, s, p, caps);
      t := [];
    } else if rep == Once {
      t := FindsFirst(rest, atEnd, src, d, s + 1, caps, pat, next);
      Passed(src, pat, d, s, p, caps, false, s + 1, next, caps, t, Finds(rest, atEnd, src, d, s + 1, caps));
    } else if n == 0 {
      t := NoneFirst(rest, atEnd, src, d, s, caps, pat, p, next);
    } else if rep == Maybe {
      t := MaybeFirst(rest, atEnd, src, d, s, caps, pat, p, next);
    } else {
      if rep == Lazily {
        t := UpFirst(rest, atEnd, src, d, s, caps, 0, pat, p, next, n);
      } else {
        MoreThan(src, pat, d, s, p, caps, n);
        t := DownFirst(rest, atEnd, src, d, s, caps, n, if rep == Many then 0 else 1, pat, p, next, n);
      }
    }
  }

  /** No repetition. */
  lemma {:induction false} NoneFirst(rest: seq<Part>, atEnd: bool, src: seq<Byte>, d: nat, s: nat, caps: seq<Cap>,
      pat: seq<Byte>, p: nat, next: nat) returns (t: seq<nat>)
    requires From(pat, next, rest, atEnd) && s <= |src| && p < |pat| && ItemAt(pat, p).Chars?
    requires ItemAt(pat, p).next == next && ItemAt(pat, p).suffix in {Opt, Star, Lazy}
    requires Single(src, s, pat, p, ItemAt(pat, p).ep) ==>
      ItemAt(pat, p).suffix.Opt? && First(src, pat, true, d, s + 1, next, caps, [], None)
    ensures First(src, pat, false, d, s, p, caps, t, Finds(rest, atEnd, src, d, s, caps))
    decreases |rest|, 5
  {
    hide First, From, ItemAt, Reduces;
    Zero(src, pat, d, s, p, caps);
    var t1 := FindsFirst(rest, atEnd, src, d, s, caps, pat, next);
    ReducesFirst(src, pat, d, s, p, caps, [0], false, s, next, caps, t1, Finds(rest, atEnd, src, d, s, caps));
    t := [0] + t1;
  }

  /** One repetition, or none. */
  lemma {:induction false} MaybeFirst(rest: seq<Part>, atEnd: bool, src: seq<Byte>, d: nat, s: nat, caps: seq<Cap>,
      pat: seq<Byte>, p: nat, next: nat) returns (t: seq<nat>)
    requires From(pat, next, rest, atEnd) && s < |src| && p < |pat| && ItemAt(pat, p).Chars?
    requires ItemAt(pat, p).next == next && ItemAt(pat, p).suffix.Opt? && Single(src, s, pat, p, ItemAt(pat, p).ep)
    ensures var r := Nested(rest, atEnd, src, d, s + 1, caps);
      First(src, pat, false, d, s, p, caps, t, if r.Some? then r else Finds(rest, atEnd, src, d, s, caps))
    decreases |rest|, 6
  {
    hide First, From, ItemAt, Tried;
    var t1 := NestedFirst(rest, atEnd, src, d, s + 1, caps, pat, next);
    var r := Nested(rest, atEnd, src, d, s + 1, caps);
    if r.Some? {
      OptTried(src, pat, d, s, p, caps);
      Found(src, pat, d, s, p, caps, 1, t1, r.value);
      t := [1] + t1;
    } else {
      NothingFound(src, pat, true, d, s + 1, next, caps, t1);
      t := NoneFirst(rest, atEnd, src, d, s, caps, pat, p, next);
    }
  }

  /** The matcher's answer to the text of the parts. */
  lemma Means(ps: seq<Part>, atEnd: bool, src: seq<Byte>, s: nat)
    requires AllWritable(ps) && s <= |src|
    ensures PatternFind.AnswerAt(src, Text(ps, atEnd), s, Nested(ps, atEnd, src, MAXCCALLS, s, []))
  {
    hide First, Nested;
    var pat := Text(ps, atEnd);
    assert pat[0..] == pat;
    var t := NestedFirst(ps, atEnd, src, MAXCCALLS, s, [], pat, 0);
    PatternFind.Answered(src, pat, s, t, Nested(ps, atEnd, src, MAXCCALLS, s, []));
  }

  /** `match` on the text of the parts. */
  method MatchWritten(ps: seq<Part>, atEnd: bool, src: seq<Byte>, s: nat)
      returns (r: PatternMatch.Result, caps: seq<Cap>)
    requires AllWritable(ps) && s <= |src|
    ensures Answer(r, caps) == Nested(ps, atEnd, src, MAXCCALLS, s, [])
  {
    hide First, Nested, Text;
    var pat := Text(ps, atEnd);
    var ms := new MatchState(src, pat);
    assert ms.Caps() == [];
    ghost var t;
    r, t := ms.Match(s, 0);
    caps := ms.capture[..ms.level];
    assert pat[0..] == pat;
    ghost var t1 := NestedFirst(ps, atEnd, src, MAXCCALLS, s, [], pat, 0);
    OneFirst(src, pat, true, MAXCCALLS, s, 0, [], t, Answer(r, caps), t1, Nested(ps, atEnd, src, MAXCCALLS, s, []));
  }

  /** A byte and a suffix: `c*` takes the run of the byte, `c+` too but needs one, `c-` takes none, `c?` at most one. */
  lemma OneByte(c: Byte, rep: Rep, src: seq<Byte>, s: nat)
    requires PlainClass(Only(c)) && s <= |src|
    ensures var n := RunOf(Only(c), src, s);
      PatternFind.AnswerAt(src, [c] + RepText(rep), s,
        match rep
        case Once => if n > 0 then Some(Matched(s + 1, [])) else None
        case Maybe => Some(Matched(if n > 0 then s + 1 else s, []))
        case Many => Some(Matched(s + n, []))
        case OnceOrMore => if n > 0 then Some(Matched(s + n, [])) else None
        case Lazily => Some(Matched(s, [])))
  {
    var ps := [Bytes(Only(c), rep)];
    assert ps[1..] == [] && Text(ps, false) == [c] + RepText(rep);
    Means(ps, false, src, s);
    var n := RunOf(Only(c), src, s);
    forall k: nat ensures Nested([], false, src, 199, k, []) == Some(Matched(k, [])) {
    }
    if n > 0 {
      assert Down([], false, src, 199, s, [], n, 0) == Some(Matched(s + n, []));
      assert Down([], false, src, 199, s, [], n, 1) == Some(Matched(s + n, []));
      assert Up([], false, src, 199, s, [], 0, n) == Some(Matched(s, []));
    }
    assert Nested(ps, false, src, 200, s, []) == Finds(ps, false, src, 199, s, []);
  }
}
