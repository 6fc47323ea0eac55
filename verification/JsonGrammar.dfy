/**
 The JSON texts (RFC 8259, without numbers) as derivations with all their white space and escapes, and their
 values; the decoder of lua_cjson.c accepts exactly the texts that have a derivation within the depth limit, and
 returns its value.
 */
module JsonGrammar {
  import opened Wrappers

  import opened Decimals
  import opened Json

  // ----- derivations -----

  /** A piece of a string: a character as it is, a short escape, a code unit, or a surrogate pair. */
  datatype Piece = Raw(c: char) | Short(c: char) | Code(h: Bytes) | Pair(h: Bytes, l: Bytes)

  datatype Item = Item(before: Bytes, doc: Doc, after: Bytes)

  datatype Member = Member(before: Bytes, key: seq<Piece>, colon: Bytes, gap: Bytes, doc: Doc, after: Bytes)

  /** A value; `inside` is the white space of an empty array or object. */
  datatype Doc =
    | DTrue | DFalse | DNull | DString(ps: seq<Piece>)
    | DArray(items: seq<Item>, inside: Bytes) | DObject(members: seq<Member>, inside: Bytes)

  // ----- their texts -----

  predicate Blank(w: Bytes) {
    forall i :: 0 <= i < |w| ==> w[i] in " \t\n\r"
  }

  function HexValue(c: char): (v: int)
    ensures -1 <= v < 16
  {
    if '0' <= c <= '9' then c as int - '0' as int
    else if 'a' <= c <= 'f' then c as int - 'a' as int + 10
    else if 'A' <= c <= 'F' then c as int - 'A' as int + 10
    else -1
  }

  predicate FourHex(h: Bytes) {
    |h| == 4 && forall i :: 0 <= i < 4 ==> HexValue(h[i]) >= 0
  }

  function CodeUnit(h: Bytes): (u: nat)
    requires FourHex(h)
  {
    HexValue(h[0]) * 0x1000 + HexValue(h[1]) * 0x100 + HexValue(h[2]) * 0x10 + HexValue(h[3])
  }

  predicate GoodPiece(q: Piece) {
    match q
    case Raw(c) => c != '"' && c != '\\' && c != '\0'
    case Short(c) => c in "\"\\/bfnrt"
    case Code(h) => FourHex(h) && !(0xD800 <= CodeUnit(h) <= 0xDFFF)
    case Pair(h, l) => FourHex(h) && FourHex(l) && 0xD800 <= CodeUnit(h) <= 0xDBFF && 0xDC00 <= CodeUnit(l) <= 0xDFFF
  }

  function PieceText(q: Piece): (t: Bytes)
    ensures |t| > 0
  {
    match q
    case Raw(c) => [c]
    case Short(c) => ['\\', c]
    case Code(h) => "\\u" + h
    case Pair(h, l) => "\\u" + h + "\\u" + l
  }

  function PiecesText(ps: seq<Piece>): Bytes {
    if ps == [] then [] else PieceText(ps[0]) + PiecesText(ps[1..])
  }

  function Quoted(ps: seq<Piece>): Bytes {
    "\"" + PiecesText(ps) + "\""
  }

  predicate GoodPieces(ps: seq<Piece>) {
    forall q :: q in ps ==> GoodPiece(q)
  }

  function Size(d: Doc): nat {
    match d
    case DArray(items, _) => |items| + 1
    case DObject(members, _) => |members| + 1
    case _ => 0
  }

  /** Strings have only good pieces, and what stands between tokens is white space. */
  predicate Good(d: Doc) {
    match d
    case DString(ps) => GoodPieces(ps)
    case DArray(items, inside) =>
      Blank(inside) && forall j :: 0 <= j < |items| ==>
        Blank(items[j].before) && Blank(items[j].after) && Good(items[j].doc)
    case DObject(members, inside) =>
      Blank(inside) && forall j :: 0 <= j < |members| ==>
        && Blank(members[j].before) && Blank(members[j].colon) && Blank(members[j].gap) && Blank(members[j].after)
        && GoodPieces(members[j].key) && Good(members[j].doc)
    case _ => true
  }

  function DocText(d: Doc): (t: Bytes)
    ensures |t| >= 2
    decreases d, Size(d)
  {
    match d
    case DTrue => "true"
    case DFalse => "false"
    case DNull => "null"
    case DString(ps) => Quoted(ps)
    case DArray(items, inside) => if items == [] then "[" + inside + "]" else "[" + ItemsText(d, 0)
    case DObject(members, inside) => if members == [] then "{" + inside + "}" else "{" + MembersText(d, 0)
  }

  /** The items from the `j`-th, and the bracket. */
  function ItemsText(d: Doc, j: nat): (t: Bytes)
    requires d.DArray? && j < |d.items|
    ensures |t| > 0
    decreases d, |d.items| - j
  {
    var it := d.items[j];
    it.before + DocText(it.doc) + it.after + if j + 1 == |d.items| then "]" else "," + ItemsText(d, j + 1)
  }

  function MembersText(d: Doc, j: nat): (t: Bytes)
    requires d.DObject? && j < |d.members|
    ensures |t| > 0
    decreases d, |d.members| - j
  {
    var it := d.members[j];
    it.before + Quoted(it.key) + it.colon + ":" + it.gap + DocText(it.doc) + it.after
      + if j + 1 == |d.members| then "}" else "," + MembersText(d, j + 1)
  }

  // ----- their values -----

  function PieceValue(q: Piece): Bytes
    requires GoodPiece(q)
  {
    match q
    case Raw(c) => [c]
    case Short(c) =>
      if c == 'b' then [8 as char] else if c == 'f' then [12 as char] else if c == 'n' then ['\n']
      else if c == 'r' then ['\r'] else if c == 't' then ['\t'] else [c]
    case Code(h) => CodepointToUtf8(CodeUnit(h))
    case Pair(h, l) => CodepointToUtf8(0x10000 + (CodeUnit(h) - 0xD800) * 0x400 + (CodeUnit(l) - 0xDC00))
  }

  function StringValue(ps: seq<Piece>): Bytes
    requires GoodPieces(ps)
  {
    if ps == [] then [] else PieceValue(ps[0]) + StringValue(ps[1..])
  }

  function ValueOf(d: Doc): Value
    requires Good(d)
    decreases d, Size(d)
  {
    match d
    case DTrue => Bool(true)
    case DFalse => Bool(false)
    case DNull => Null
    case DString(ps) => Str(StringValue(ps))
    case DArray(items, _) => Table(ItemValues(d, |items|))
    case DObject(members, _) => Table(MemberValues(d, |members|))
  }

  /** The first `n` items at 1, 2 and so on. */
  function ItemValues(d: Doc, n: nat): map<Key, Value>
    requires Good(d) && d.DArray? && n <= |d.items|
    decreases d, n
  {
    if n == 0 then map[] else ItemValues(d, n - 1)[Index(n) := ValueOf(d.items[n - 1].doc)]
  }

  /** Of members with the same name the last one counts. */
  function MemberValues(d: Doc, n: nat): map<Key, Value>
    requires Good(d) && d.DObject? && n <= |d.members|
    decreases d, n
  {
    if n == 0 then map[]
    else
      var it := d.members[n - 1];
      MemberValues(d, n - 1)[Name(StringValue(it.key)) := ValueOf(it.doc)]
  }

  /** Arrays and objects are nested at most `max` deep, inside of `depth` others. */
  predicate Shallow(d: Doc, max: nat, depth: nat) {
    match d
    case DArray(items, _) =>
      depth + 1 <= max && forall j :: 0 <= j < |items| ==> Shallow(items[j].doc, max, depth + 1)
    case DObject(members, _) =>
      depth + 1 <= max && forall j :: 0 <= j < |members| ==> Shallow(members[j].doc, max, depth + 1)
    case _ => true
  }

  /** A whole text: a value between white space; a zero byte ends the text before its end. */
  ghost predicate Derives(s: Bytes, lead: Bytes, d: Doc, trail: Bytes, rest: Bytes) {
    && Blank(lead) && Blank(trail) && Good(d) && (rest == [] || rest[0] == '\0')
    && s == lead + DocText(d) + trail + rest
  }

  // ----- strings -----

  lemma HexSame(c: char)
    ensures HexDigit2Int(c) == HexValue(c)
  {
  }

  lemma HexRead(s: Bytes, p: nat)
    requires p + 4 <= |s|
    ensures var h := s[p..p + 4]; Hex4(s, p) == if FourHex(h) then CodeUnit(h) else -1
  {
    hide HexValue, HexDigit2Int;
    HexSame(s[p]);
    HexSame(s[p + 1]);
    HexSame(s[p + 2]);
    HexSame(s[p + 3]);
    var h := s[p..p + 4];
    assert h[0] == s[p] && h[1] == s[p + 1] && h[2] == s[p + 2] && h[3] == s[p + 3];
    if FourHex(h) {
      Hex4Digits(s, p, HexValue(h[0]), HexValue(h[1]), HexValue(h[2]), HexValue(h[3]));
    } else {
      assert Hex4(s, p, 4, 0) == 0;
      HexStops(s, p);
    }
  }

  lemma HexStops(s: Bytes, p: nat)
    requires p + 4 <= |s|
    requires HexDigit2Int(s[p]) < 0 || HexDigit2Int(s[p + 1]) < 0 || HexDigit2Int(s[p + 2]) < 0
      || HexDigit2Int(s[p + 3]) < 0
    ensures Hex4(s, p) == -1
  {
    hide HexDigit2Int;
    var d0, d1, d2 := HexDigit2Int(s[p]), HexDigit2Int(s[p + 1]), HexDigit2Int(s[p + 2]);
    if d0 >= 0 {
      assert Hex4(s, p) == Hex4(s, p, 1, d0);
      if d1 >= 0 {
        assert Hex4(s, p, 1, d0) == Hex4(s, p, 2, d0 * 16 + d1);
        if d2 >= 0 {
          assert Hex4(s, p, 2, d0 * 16 + d1) == Hex4(s, p, 3, (d0 * 16 + d1) * 16 + d2);
        }
      }
    }
  }

  /** One piece of a string, and what is read after it. */
  lemma PieceRead(s: Bytes, p: nat, q: Piece)
    requires GoodPiece(q) && StartsWith(s, p, PieceText(q))
    ensures p + |PieceText(q)| <= |s|
    ensures StringBody(s, p) == Before(PieceValue(q), StringBody(s, p + |PieceText(q)|))
  {
    hide HexValue, FourHex, CodeUnit, CodepointToUtf8, Hex4, UnicodeEscape, StartsWith, Escape2Char;
    match q
    case Raw(c) => CharAt(s, p, [c]);
    case Short(c) =>
      ShortRead(c);
      CharAt(s, p, ['\\', c]);
    case Code(h) => CodeRead(s, p, h);
    case Pair(h, l) => PairRead(s, p, h, l);
  }

  lemma CharAt(s: Bytes, p: nat, t: Bytes)
    requires StartsWith(s, p, t)
    ensures p + |t| <= |s| && (|t| > 0 ==> At(s, p) == t[0]) && (|t| > 1 ==> At(s, p + 1) == t[1])
  {
    assert |t| > 0 ==> s[p] == s[p..p + |t|][0];
    assert |t| > 1 ==> s[p + 1] == s[p..p + |t|][1];
  }

  lemma HexAt(s: Bytes, p: nat, h: Bytes)
    requires FourHex(h) && StartsWith(s, p, h)
    ensures |h| == 4 && p + 4 <= |s| && Hex4(s, p) == CodeUnit(h)
  {
    hide HexValue, CodeUnit, Hex4;
    HexRead(s, p);
  }

  lemma CodeRead(s: Bytes, p: nat, h: Bytes)
    requires GoodPiece(Code(h)) && StartsWith(s, p, PieceText(Code(h)))
    ensures p + 6 <= |s| && |PieceText(Code(h))| == 6
    ensures At(s, p) == '\\' && Escape2Char(At(s, p + 1)) == 'u' && UnicodeEscape(s, p) == Unit(CodeUnit(h), 6)
  {
    hide HexValue, FourHex, CodeUnit, Hex4, StartsWith;
    Parts(s, p, "\\u", h);
    CharAt(s, p, "\\u");
    HexAt(s, p + 2, h);
  }

  lemma FourLong(h: Bytes)
    requires FourHex(h)
    ensures |h| == 4
  {
  }

  lemma ShortRead(c: char)
    requires c in "\"\\/bfnrt"
    ensures GoodPiece(Short(c)) && [Escape2Char(c)] == PieceValue(Short(c))
    ensures Escape2Char(c) != 'u' && Escape2Char(c) != '\0'
  {
  }

  lemma PairRead(s: Bytes, p: nat, h: Bytes, l: Bytes)
    requires GoodPiece(Pair(h, l)) && StartsWith(s, p, PieceText(Pair(h, l)))
    ensures p + 12 <= |s| && |PieceText(Pair(h, l))| == 12
    ensures At(s, p) == '\\' && Escape2Char(At(s, p + 1)) == 'u'
    ensures UnicodeEscape(s, p) == Unit(0x10000 + (CodeUnit(h) - 0xD800) * 0x400 + (CodeUnit(l) - 0xDC00), 12)
  {
    hide HexValue, FourHex, CodeUnit, Hex4, StartsWith;
    Parts(s, p, "\\u" + h + "\\u", l);
    Parts(s, p, "\\u" + h, "\\u");
    Parts(s, p, "\\u", h);
    CharAt(s, p, "\\u");
    HexAt(s, p + 2, h);
    HexAt(s, p + 8, l);
  }

  /** A string is read to its closing quote. */
  lemma {:induction false} StringRead(s: Bytes, p: nat, ps: seq<Piece>)
    requires GoodPieces(ps) && StartsWith(s, p, PiecesText(ps) + "\"")
    ensures p <= |s| && StringBody(s, p) == Done(StringValue(ps), p + |PiecesText(ps)| + 1)
    decreases |ps|
  {
    hide PieceText, PieceValue, GoodPiece, StringBody, StartsWith;
    if ps == [] {
      assert PiecesText(ps) + "\"" == "\"";
      BodyEnd(s, p);
    } else {
      var t, rest := PieceText(ps[0]), PiecesText(ps[1..]) + "\"";
      assert PiecesText(ps) + "\"" == t + rest;
      Parts(s, p, t, rest);
      StringRead(s, p + |t|, ps[1..]);
      PieceRead(s, p, ps[0]);
    }
  }

  /** Whatever is read as a string has a derivation. */
  lemma {:induction false} StringDerived(s: Bytes, p: nat) returns (ps: seq<Piece>)
    requires p <= |s| && StringBody(s, p).Done?
    ensures GoodPieces(ps) && StringValue(ps) == StringBody(s, p).s
    ensures StartsWith(s, p, PiecesText(ps) + "\"") && StringBody(s, p).next == p + |PiecesText(ps)| + 1
    decreases |s| - p
  {
    hide PieceText, PieceValue, GoodPiece, StringBody, StartsWith;
    NotAtEnd(s, p);
    if s[p] == '"' {
      ps := [];
      assert PiecesText(ps) + "\"" == "\"";
      BodyEnd(s, p) by { QuoteAt(s, p); }
      QuoteAt(s, p);
    } else {
      var q := PieceDerived(s, p);
      PieceRead(s, p, q);
      var t := PieceText(q);
      var more := StringDerived(s, p + |t|);
      ps := [q] + more;
      assert ps[1..] == more;
      Parts(s, p, t, PiecesText(more) + "\"");
      assert PiecesText(ps) + "\"" == t + (PiecesText(more) + "\"");
    }
  }

  lemma NotAtEnd(s: Bytes, p: nat)
    requires p <= |s| && StringBody(s, p).Done?
    ensures p < |s|
  {
  }

  lemma QuoteAt(s: Bytes, p: nat)
    requires p < |s| && s[p] == '"'
    ensures StartsWith(s, p, "\"")
  {
  }

  lemma PieceDerived(s: Bytes, p: nat) returns (q: Piece)
    requires p < |s| && StringBody(s, p).Done? && s[p] != '"'
    ensures GoodPiece(q) && StartsWith(s, p, PieceText(q))
  {
    hide HexValue, FourHex, CodeUnit, CodepointToUtf8, Hex4;
    if s[p] != '\\' {
      q := Raw(s[p]);
    } else if s[p + 1] != 'u' {
      q := Short(s[p + 1]);
      ShortDerived(s[p + 1]);
    } else {
      q := UnicodeDerived(s, p);
    }
  }

  lemma ShortDerived(c: char)
    requires Escape2Char(c) != '\0' && c != 'u'
    ensures c in "\"\\/bfnrt"
  {
    var l := "\"\\/bfnrt";
    assert l[0] == '"' && l[1] == '\\' && l[2] == '/' && l[3] == 'b' && l[4] == 'f' && l[5] == 'n' && l[6] == 'r'
      && l[7] == 't';
  }

  lemma UnicodeDerived(s: Bytes, p: nat) returns (q: Piece)
    requires p + 2 <= |s| && s[p] == '\\' && s[p + 1] == 'u' && UnicodeEscape(s, p).Unit?
    ensures GoodPiece(q) && StartsWith(s, p, PieceText(q))
  {
    hide HexValue, CodeUnit, CodepointToUtf8, Hex4;
    HexRead(s, p + 2);
    var h := s[p + 2..p + 6];
    assert s[p..p + 2] == "\\u";
    if !(0xD800 <= CodeUnit(h) <= 0xDFFF) {
      q := Code(h);
      assert s[p..p + 6] == s[p..p + 2] + h;
    } else {
      HexRead(s, p + 8);
      var l := s[p + 8..p + 12];
      q := Pair(h, l);
      assert s[p..p + 12] == s[p..p + 2] + h + s[p + 6..p + 8] + l;
    }
  }

  // ----- tokens -----

  lemma WhiteSame(c: char)
    ensures White(c) <==> c in " \t\n\r"
  {
    var l := " \t\n\r";
    assert l[0] == ' ' && l[1] == '\t' && l[2] == '\n' && l[3] == '\r';
  }

  /** White space is skipped. */
  lemma {:induction false} BlankRead(s: Bytes, p: nat, w: Bytes)
    requires Blank(w) && StartsWith(s, p, w)
    ensures p + |w| <= |s| && TokenAt(s, p) == TokenAt(s, p + |w|)
    decreases |w|
  {
    if w != [] {
      assert w == [w[0]] + w[1..];
      Parts(s, p, [w[0]], w[1..]);
      assert s[p] == s[p..p + 1][0] == w[0];
      WhiteSame(w[0]);
      BlankRead(s, p + 1, w[1..]);
    }
  }

  /** The white space before a token. */
  lemma {:induction false} BlankDerived(s: Bytes, p: nat) returns (w: Bytes)
    requires p <= |s|
    ensures Blank(w) && StartsWith(s, p, w) && p + |w| <= |s| && TokenAt(s, p) == TokenAt(s, p + |w|)
    ensures !White(At(s, p + |w|))
    decreases |s| - p
  {
    if White(At(s, p)) {
      var more := BlankDerived(s, p + 1);
      w := [s[p]] + more;
      WhiteSame(s[p]);
      Parts(s, p, [s[p]], more);
    } else {
      w := [];
    }
  }

  /** What a token is written as; strings have many texts. */
  function TokenText(t: Token): Bytes {
    match t
    case ObjBegin => "{"
    case ObjEnd => "}"
    case ArrBegin => "["
    case ArrEnd => "]"
    case Colon => ":"
    case CommaToken => ","
    case Boolean(b) => if b then "true" else "false"
    case NullToken => "null"
    case _ => []
  }

  lemma TokenDerived(s: Bytes, p: nat)
    requires p <= |s| && !White(At(s, p))
    ensures var l := TokenAt(s, p);
      && (l.token.End? ==> l.index == p && (p == |s| || s[p] == '\0'))
      && (l.token.StringToken? ==>
        l.index == p < |s| && s[p] == '"' && StringBody(s, p + 1) == Done(l.token.s, l.next))
      && (!Ends(l.token) && !l.token.StringToken? ==>
        l.index == p && StartsWith(s, p, TokenText(l.token)) && l.next == p + |TokenText(l.token)|)
  {
  }

  /** The first token of a text with leading white space. */
  lemma Token(s: Bytes, p: nat) returns (w: Bytes)
    requires p <= |s| && !TokenAt(s, p).token.Error?
    ensures var l := TokenAt(s, p);
      && Blank(w) && StartsWith(s, p, w) && l.index == p + |w| <= |s| && TokenAt(s, l.index) == l
      && (l.token.End? ==> l.index == |s| || s[l.index] == '\0')
      && (l.token.StringToken? ==>
        l.index < |s| && s[l.index] == '"' && StringBody(s, l.index + 1) == Done(l.token.s, l.next))
      && (!Ends(l.token) && !l.token.StringToken? ==>
        StartsWith(s, l.index, TokenText(l.token)) && l.next == l.index + |TokenText(l.token)|)
  {
    hide TokenAt, TokenText, StringBody;
    w := BlankDerived(s, p);
    TokenDerived(s, p + |w|);
  }

  // ----- a derived text is accepted -----

  /** White space and a token of one character. */
  lemma MarkRead(s: Bytes, p: nat, w: Bytes, c: char)
    requires Blank(w) && StartsWith(s, p, w + [c]) && c in "{}[],:"
    ensures p + |w| + 1 <= |s| && TokenAt(s, p) == Lexed(Single(c), p + |w|, p + |w| + 1) && !Ends(Single(c))
  {
    hide TokenAt;
    Parts(s, p, w, [c]);
    BlankRead(s, p, w);
    SingleBack(s, p + |w|, c);
  }

  lemma QuotedRead(s: Bytes, p: nat, ps: seq<Piece>)
    requires GoodPieces(ps) && StartsWith(s, p, Quoted(ps))
    ensures p <= |s| && TokenAt(s, p) == Lexed(StringToken(StringValue(ps)), p, p + |Quoted(ps)|)
  {
    hide StringBody, StringValue, PiecesText;
    assert Quoted(ps) == "\"" + (PiecesText(ps) + "\"");
    Parts(s, p, "\"", PiecesText(ps) + "\"");
    assert s[p] == s[p..p + 1][0] == '"';
    StringRead(s, p + 1, ps);
  }

  /** The result of reading a value, or a failure if it is nested too deep. */
  ghost predicate Gives(r: Json.Result<Parsed>, shallow: bool, v: Value, next: nat) {
    if shallow then r == Ok(Parsed(v, next)) else r.Err?
  }

  lemma {:induction false} DocRead(c: Config, d: Doc, depth: nat, s: Bytes, p: nat)
    requires Good(d) && StartsWith(s, p, DocText(d))
    ensures p <= |s| && TokenAt(s, p).index == p && !Ends(TokenAt(s, p).token)
    ensures !TokenAt(s, p).token.ArrEnd? && !TokenAt(s, p).token.ObjEnd?
    ensures Gives(ValueAt(c, s, TokenAt(s, p), depth), Shallow(d, c.decodeMax, depth), ValueOf(d), p + |DocText(d)|)
    decreases d, Size(d)
  {
    hide TokenAt, StartsWith, Shallow, Good, ValueOf, ItemsText, MembersText, DocText, StringValue, PiecesText;
    match d
    case DString(ps) =>
      LeafParts(c, d, depth);
      QuotedRead(s, p, ps);
    case DArray(items, inside) => ArrayRead(c, d, depth, s, p);
    case DObject(members, inside) => ObjectRead(c, d, depth, s, p);
    case _ =>
      LeafParts(c, d, depth);
      Parts(s, p, DocText(d), []) by { assert DocText(d) + [] == DocText(d); }
      WordBack(s, p);
  }

  lemma LeafParts(c: Config, d: Doc, depth: nat)
    requires Good(d) && Size(d) == 0
    ensures Shallow(d, c.decodeMax, depth)
    ensures match d
      case DTrue => DocText(d) == "true" && ValueOf(d) == Bool(true)
      case DFalse => DocText(d) == "false" && ValueOf(d) == Bool(false)
      case DNull => DocText(d) == "null" && ValueOf(d) == Null
      case DString(ps) => GoodPieces(ps) && DocText(d) == Quoted(ps) && ValueOf(d) == Str(StringValue(ps))
      case _ => false
  {
  }

  lemma {:induction false} ArrayRead(c: Config, d: Doc, depth: nat, s: Bytes, p: nat)
    requires Good(d) && d.DArray? && StartsWith(s, p, DocText(d))
    ensures p <= |s| && TokenAt(s, p) == Lexed(ArrBegin, p, p + 1)
    ensures Gives(ValueAt(c, s, TokenAt(s, p), depth), Shallow(d, c.decodeMax, depth), ValueOf(d), p + |DocText(d)|)
    decreases d, |d.items| + 1, 0
  {
    hide TokenAt, StartsWith, ValueAt, ArrayLoop, Shallow, Good, ValueOf, DocText, ItemsText, ItemValues;
    ArrayParts(d);
    var tail := if d.items == [] then d.inside + "]" else ItemsText(d, 0);
    Parts(s, p, "[", tail);
    MarkRead(s, p, [], '[') by { assert [] + ['['] == "["; }
    BeginsArray(c, s, p, depth);
    if d.items == [] {
      MarkRead(s, p + 1, d.inside, ']');
    } else {
      ItemsRead(c, d, 0, depth + 1, s, p + 1);
    }
    ArrayShallow(d, c.decodeMax, depth);
  }

  lemma ArrayParts(d: Doc)
    requires d.DArray? && Good(d)
    ensures Blank(d.inside)
    ensures DocText(d) == "[" + if d.items == [] then d.inside + "]" else ItemsText(d, 0)
    ensures ValueOf(d) == Table(ItemValues(d, |d.items|)) && ItemValues(d, 0) == map[]
  {
  }

  lemma BeginsArray(c: Config, s: Bytes, p: nat, depth: nat)
    requires p < |s| && TokenAt(s, p) == Lexed(ArrBegin, p, p + 1)
    ensures ValueAt(c, s, TokenAt(s, p), depth) ==
      if depth + 1 > c.decodeMax then Err(TooDeep(depth + 1, p + 1))
      else
        var l := TokenAt(s, p + 1);
        if l.token.ArrEnd? then Ok(Parsed(Table(map[]), l.next)) else ArrayLoop(c, s, l, depth + 1, map[], 1)
  {
  }

  /** The items from the `j`-th are within the depth. */
  ghost predicate ItemsShallow(d: Doc, max: nat, depth: nat, j: nat)
    requires d.DArray?
  {
    forall k :: j <= k < |d.items| ==> Shallow(d.items[k].doc, max, depth)
  }

  lemma ArrayShallow(d: Doc, max: nat, depth: nat)
    requires d.DArray?
    ensures Shallow(d, max, depth) <==> depth + 1 <= max && ItemsShallow(d, max, depth + 1, 0)
  {
  }

  lemma {:induction false} ItemsRead(c: Config, d: Doc, j: nat, depth: nat, s: Bytes, p: nat)
    requires Good(d) && d.DArray? && j < |d.items| && StartsWith(s, p, ItemsText(d, j))
    ensures p <= |s| && !TokenAt(s, p).token.ArrEnd?
    ensures Gives(ArrayLoop(c, s, TokenAt(s, p), depth, ItemValues(d, j), j + 1),
      ItemsShallow(d, c.decodeMax, depth, j), Table(ItemValues(d, |d.items|)), p + |ItemsText(d, j)|)
    decreases d, |d.items| - j, 0
  {
    hide TokenAt, StartsWith, ValueAt, ArrayLoop, Shallow, Good, ValueOf, ItemValues, DocText;
    var it, n := d.items[j], |d.items|;
    ItemGood(d, j);
    var t := DocText(it.doc);
    var tail := it.after + if j + 1 == n then "]" else "," + ItemsText(d, j + 1);
    assert ItemsText(d, j) == it.before + (t + tail);
    Parts(s, p, it.before, t + tail);
    var p1 := p + |it.before|;
    Parts(s, p1, t, tail);
    var p2 := p1 + |t|;
    BlankRead(s, p, it.before);
    DocRead(c, it.doc, depth, s, p1);
    if j + 1 == n {
      MarkRead(s, p2, it.after, ']');
    } else {
      var more := ItemsText(d, j + 1);
      assert tail == it.after + "," + more;
      Parts(s, p2, it.after + ",", more);
      MarkRead(s, p2, it.after, ',');
      ItemsRead(c, d, j + 1, depth, s, p2 + |it.after| + 1);
    }
    ItemStep(c, d, j, depth, s, TokenAt(s, p), p2);
    assert ItemsShallow(d, c.decodeMax, depth, j) <==>
      Shallow(it.doc, c.decodeMax, depth) && ItemsShallow(d, c.decodeMax, depth, j + 1);
  }

  lemma ItemGood(d: Doc, j: nat)
    requires Good(d) && d.DArray? && j < |d.items|
    ensures var it := d.items[j]; Blank(it.before) && Blank(it.after) && Good(it.doc)
    ensures ItemValues(d, j + 1) == ItemValues(d, j)[Index(j + 1) := ValueOf(d.items[j].doc)]
  {
  }

  /** One round of the loop over items. */
  lemma ItemStep(c: Config, d: Doc, j: nat, depth: nat, s: Bytes, l: Lexed, next: nat)
    requires Good(d) && d.DArray? && j < |d.items| && LexedIn(s, 0, l) && l.index <= next <= |s|
    requires Gives(ValueAt(c, s, l, depth), Shallow(d.items[j].doc, c.decodeMax, depth), ValueOf(d.items[j].doc), next)
    ensures var r := ArrayLoop(c, s, l, depth, ItemValues(d, j), j + 1); var after := TokenAt(s, next);
      if !Shallow(d.items[j].doc, c.decodeMax, depth) then r.Err?
      else if after.token.ArrEnd? then r == Ok(Parsed(Table(ItemValues(d, j + 1)), after.next))
      else if !after.token.CommaToken? then r.Err?
      else r == ArrayLoop(c, s, TokenAt(s, after.next), depth, ItemValues(d, j + 1), j + 2)
  {
    hide TokenAt, Shallow, Good, ValueOf, ItemValues;
    ItemGood(d, j);
  }

  lemma {:induction false} ObjectRead(c: Config, d: Doc, depth: nat, s: Bytes, p: nat)
    requires Good(d) && d.DObject? && StartsWith(s, p, DocText(d))
    ensures p <= |s| && TokenAt(s, p) == Lexed(ObjBegin, p, p + 1)
    ensures Gives(ValueAt(c, s, TokenAt(s, p), depth), Shallow(d, c.decodeMax, depth), ValueOf(d), p + |DocText(d)|)
    decreases d, |d.members| + 1, 0
  {
    hide TokenAt, StartsWith, ValueAt, ObjectLoop, Shallow, Good, ValueOf, DocText, MembersText, MemberValues;
    ObjectParts(d);
    var tail := if d.members == [] then d.inside + "}" else MembersText(d, 0);
    Parts(s, p, "{", tail);
    MarkRead(s, p, [], '{') by { assert [] + ['{'] == "{"; }
    BeginsObject(c, s, p, depth);
    if d.members == [] {
      MarkRead(s, p + 1, d.inside, '}');
    } else {
      MembersRead(c, d, 0, depth + 1, s, p + 1);
    }
    ObjectShallow(d, c.decodeMax, depth);
  }

  lemma ObjectParts(d: Doc)
    requires d.DObject? && Good(d)
    ensures Blank(d.inside)
    ensures DocText(d) == "{" + if d.members == [] then d.inside + "}" else MembersText(d, 0)
    ensures ValueOf(d) == Table(MemberValues(d, |d.members|)) && MemberValues(d, 0) == map[]
  {
  }

  lemma BeginsObject(c: Config, s: Bytes, p: nat, depth: nat)
    requires p < |s| && TokenAt(s, p) == Lexed(ObjBegin, p, p + 1)
    ensures ValueAt(c, s, TokenAt(s, p), depth) ==
      if depth + 1 > c.decodeMax then Err(TooDeep(depth + 1, p + 1))
      else
        var l := TokenAt(s, p + 1);
        if l.token.ObjEnd? then Ok(Parsed(Table(map[]), l.next)) else ObjectLoop(c, s, l, depth + 1, map[])
  {
  }

  /** The members from the `j`-th are within the depth. */
  ghost predicate MembersShallow(d: Doc, max: nat, depth: nat, j: nat)
    requires d.DObject?
  {
    forall k :: j <= k < |d.members| ==> Shallow(d.members[k].doc, max, depth)
  }

  lemma ObjectShallow(d: Doc, max: nat, depth: nat)
    requires d.DObject?
    ensures Shallow(d, max, depth) <==> depth + 1 <= max && MembersShallow(d, max, depth + 1, 0)
  {
  }

  lemma {:induction false} MembersRead(c: Config, d: Doc, j: nat, depth: nat, s: Bytes, p: nat)
    requires Good(d) && d.DObject? && j < |d.members| && StartsWith(s, p, MembersText(d, j))
    ensures p <= |s| && !TokenAt(s, p).token.ObjEnd?
    ensures Gives(ObjectLoop(c, s, TokenAt(s, p), depth, MemberValues(d, j)),
      MembersShallow(d, c.decodeMax, depth, j), Table(MemberValues(d, |d.members|)), p + |MembersText(d, j)|)
    decreases d, |d.members| - j, 0
  {
    hide TokenAt, StartsWith, ValueAt, ObjectLoop, Shallow, Good, ValueOf, MemberValues, DocText, Quoted, MembersText;
    var it, n := d.members[j], |d.members|;
    MemberGood(d, j);
    var tail := MemberParts(d, j);
    var p2 := MemberHead(s, p, it, tail);
    var p3 := p2 + |DocText(it.doc)|;
    DocRead(c, it.doc, depth, s, p2);
    if j + 1 == n {
      MarkRead(s, p3, it.after, '}');
    } else {
      var more := MembersText(d, j + 1);
      Parts(s, p3, it.after + ",", more);
      MarkRead(s, p3, it.after, ',');
      MembersRead(c, d, j + 1, depth, s, p3 + |it.after| + 1);
    }
    MemberStep(c, d, j, depth, s, TokenAt(s, p), p3);
    assert MembersShallow(d, c.decodeMax, depth, j) <==>
      Shallow(it.doc, c.decodeMax, depth) && MembersShallow(d, c.decodeMax, depth, j + 1);
  }

  /** The text of the members from the `j`-th, cut around its value. */
  lemma MemberParts(d: Doc, j: nat) returns (tail: Bytes)
    requires d.DObject? && j < |d.members|
    ensures var it := d.members[j];
      MembersText(d, j) == it.before + (Quoted(it.key) + (it.colon + ":" + (it.gap + (DocText(it.doc) + tail))))
    ensures var it := d.members[j];
      tail == if j + 1 == |d.members| then it.after + "}" else it.after + "," + MembersText(d, j + 1)
  {
    hide Quoted, DocText;
    var it := d.members[j];
    tail := it.after + if j + 1 == |d.members| then "}" else "," + MembersText(d, j + 1);
    assert j + 1 < |d.members| ==>
      it.after + ("," + MembersText(d, j + 1)) == it.after + "," + MembersText(d, j + 1);
  }

  /** A member up to its value, which begins at `p2`. */
  lemma MemberHead(s: Bytes, p: nat, it: Member, tail: Bytes) returns (p2: nat)
    requires Blank(it.before) && Blank(it.colon) && Blank(it.gap) && GoodPieces(it.key)
    requires StartsWith(s, p, it.before + (Quoted(it.key) + (it.colon + ":" + (it.gap + (DocText(it.doc) + tail)))))
    ensures p2 == p + |it.before| + |Quoted(it.key)| + |it.colon| + 1 + |it.gap| && p2 + |DocText(it.doc)| <= |s|
    ensures StartsWith(s, p2, DocText(it.doc)) && StartsWith(s, p2 + |DocText(it.doc)|, tail)
    ensures var l := TokenAt(s, p); l.token == StringToken(StringValue(it.key)) && l.next <= |s| && l.index <= p2
    ensures var colon := TokenAt(s, TokenAt(s, p).next);
      colon.token.Colon? && colon.next <= |s| && TokenAt(s, colon.next) == TokenAt(s, p2)
  {
    hide TokenAt, StartsWith, StringValue, DocText, Quoted;
    var k, t := Quoted(it.key), DocText(it.doc);
    var r2 := it.gap + (t + tail);
    var r1 := it.colon + ":" + r2;
    Parts(s, p, it.before, k + r1);
    var q := p + |it.before|;
    Parts(s, q, k, r1);
    BlankRead(s, p, it.before);
    QuotedRead(s, q, it.key);
    var q1 := q + |k|;
    Parts(s, q1, it.colon + ":", r2);
    MarkRead(s, q1, it.colon, ':');
    var q2 := q1 + |it.colon| + 1;
    Parts(s, q2, it.gap, t + tail);
    BlankRead(s, q2, it.gap);
    p2 := q2 + |it.gap|;
    Parts(s, p2, t, tail);
  }

  lemma MemberGood(d: Doc, j: nat)
    requires Good(d) && d.DObject? && j < |d.members|
    ensures var it := d.members[j];
      && Blank(it.before) && Blank(it.colon) && Blank(it.gap) && Blank(it.after) && GoodPieces(it.key) && Good(it.doc)
      && MemberValues(d, j + 1) == MemberValues(d, j)[Name(StringValue(it.key)) := ValueOf(it.doc)]
  {
  }

  /** One round of the loop over members. */
  lemma MemberStep(c: Config, d: Doc, j: nat, depth: nat, s: Bytes, l: Lexed, next: nat)
    requires Good(d) && d.DObject? && j < |d.members| && LexedIn(s, 0, l) && l.index <= next <= |s|
    requires GoodPieces(d.members[j].key) && l.token == StringToken(StringValue(d.members[j].key))
    requires l.next <= |s| && TokenAt(s, l.next).token.Colon?
    requires Gives(ValueAt(c, s, TokenAt(s, TokenAt(s, l.next).next), depth),
      Shallow(d.members[j].doc, c.decodeMax, depth), ValueOf(d.members[j].doc), next)
    ensures var r := ObjectLoop(c, s, l, depth, MemberValues(d, j)); var after := TokenAt(s, next);
      if !Shallow(d.members[j].doc, c.decodeMax, depth) then r.Err?
      else if after.token.ObjEnd? then r == Ok(Parsed(Table(MemberValues(d, j + 1)), after.next))
      else if !after.token.CommaToken? then r.Err?
      else r == ObjectLoop(c, s, TokenAt(s, after.next), depth, MemberValues(d, j + 1))
  {
    hide TokenAt, Shallow, Good, ValueOf, MemberValues, StringValue;
    MemberGood(d, j);
  }

  // ----- an accepted text has a derivation -----

  predicate GoodItem(it: Item, max: nat, depth: nat) {
    Blank(it.before) && Blank(it.after) && Good(it.doc) && Shallow(it.doc, max, depth)
  }

  predicate GoodItems(items: seq<Item>, max: nat, depth: nat) {
    forall j :: 0 <= j < |items| ==> GoodItem(items[j], max, depth)
  }

  function Array(items: seq<Item>): Doc {
    DArray(items, [])
  }

  lemma GoodArray(items: seq<Item>, max: nat, depth: nat)
    requires GoodItems(items, max, depth)
    ensures Good(Array(items)) && ItemsShallow(Array(items), max, depth, 0)
  {
  }

  lemma {:induction false} SamePrefix(items: seq<Item>, it: Item, n: nat)
    requires Good(Array(items)) && Good(Array(items + [it])) && n <= |items|
    ensures ItemValues(Array(items + [it]), n) == ItemValues(Array(items), n)
    decreases n
  {
    if n > 0 {
      SamePrefix(items, it, n - 1);
    }
  }

  lemma Joined(s: Bytes, p: nat, a: Bytes, b: Bytes)
    requires StartsWith(s, p, a) && StartsWith(s, p + |a|, b)
    ensures StartsWith(s, p, a + b)
  {
    Parts(s, p, a, b);
  }

  lemma {:induction false} DocDerived(c: Config, s: Bytes, l: Lexed, depth: nat) returns (d: Doc)
    requires LexedIn(s, 0, l) && l == TokenAt(s, l.index) && ValueAt(c, s, l, depth).Ok?
    ensures Good(d) && Shallow(d, c.decodeMax, depth) && StartsWith(s, l.index, DocText(d))
    ensures ValueAt(c, s, l, depth) == Ok(Parsed(ValueOf(d), l.index + |DocText(d)|))
    decreases |s| - l.index, 1
  {
    hide TokenAt, ValueAt;
    SomeValue(c, s, l, depth);
    match l.token
    case StringToken(b) =>
      var ps := QuotedDerived(s, l);
      d := DString(ps);
      WordValue(c, s, l, depth, d);
    case Boolean(b) =>
      var w := Token(s, l.index);
      d := if b then DTrue else DFalse;
      WordValue(c, s, l, depth, d);
    case NullToken =>
      var w := Token(s, l.index);
      d := DNull;
      WordValue(c, s, l, depth, d);
    case ArrBegin => d := ArrayDerived(c, s, l, depth);
    case ObjBegin => d := ObjectDerived(c, s, l, depth);
  }

  lemma SomeValue(c: Config, s: Bytes, l: Lexed, depth: nat)
    requires LexedIn(s, 0, l) && ValueAt(c, s, l, depth).Ok?
    ensures l.token.StringToken? || l.token.Boolean? || l.token.NullToken? || l.token.ArrBegin? || l.token.ObjBegin?
  {
    hide ObjectAt, ArrayAt;
  }

  lemma WordValue(c: Config, s: Bytes, l: Lexed, depth: nat, d: Doc)
    requires LexedIn(s, 0, l)
    requires match l.token
      case StringToken(b) => d.DString? && GoodPieces(d.ps) && StringValue(d.ps) == b
      case Boolean(b) => d == if b then DTrue else DFalse
      case NullToken => d == DNull
      case _ => false
    ensures Good(d) && Shallow(d, c.decodeMax, depth) && ValueAt(c, s, l, depth) == Ok(Parsed(ValueOf(d), l.next))
  {
  }

  lemma {:induction false} ArrayDerived(c: Config, s: Bytes, l: Lexed, depth: nat) returns (d: Doc)
    requires LexedIn(s, 0, l) && l == TokenAt(s, l.index) && l.token.ArrBegin? && ValueAt(c, s, l, depth).Ok?
    ensures Good(d) && Shallow(d, c.decodeMax, depth) && StartsWith(s, l.index, DocText(d))
    ensures ValueAt(c, s, l, depth) == Ok(Parsed(ValueOf(d), l.index + |DocText(d)|))
    decreases |s| - l.index, 0
  {
    hide TokenAt, ValueAt, ArrayLoop, Shallow, Good, ValueOf, StartsWith, GoodItems, DocText, ItemsText, ItemValues;
    var w0 := Token(s, l.index);
    BeginsArray(c, s, l.index, depth);
    var first := TokenAt(s, l.next);
    if first.token.ArrEnd? {
      var w := Token(s, l.next);
      d := DArray([], w);
      Joined(s, l.next, w, "]");
      EmptyGood(w, c.decodeMax, depth);
    } else {
      NoItems(c.decodeMax, depth + 1);
      var items := ItemsDerived(c, s, l.next, depth + 1, []);
      d := Array(items);
      GoodArray(items, c.decodeMax, depth + 1);
    }
    ArrayShallow(d, c.decodeMax, depth);
    ArrayWhole(s, l.index, d);
  }

  lemma ArrayWhole(s: Bytes, p: nat, d: Doc)
    requires d.DArray? && Good(d) && StartsWith(s, p, "[")
    requires StartsWith(s, p + 1, if d.items == [] then d.inside + "]" else ItemsText(d, 0))
    ensures StartsWith(s, p, DocText(d)) && ValueOf(d) == Table(ItemValues(d, |d.items|))
    ensures |DocText(d)| == 1 + if d.items == [] then |d.inside| + 1 else |ItemsText(d, 0)|
  {
    hide Good, ValueOf, StartsWith, ItemValues, ItemsText, DocText;
    ArrayParts(d);
    Joined(s, p, "[", if d.items == [] then d.inside + "]" else ItemsText(d, 0));
  }

  lemma EmptyGood(w: Bytes, max: nat, depth: nat)
    requires Blank(w)
    ensures Good(DArray([], w)) && ItemsShallow(DArray([], w), max, depth + 1, 0)
    ensures ItemValues(DArray([], w), 0) == map[]
    ensures Good(DObject([], w)) && MembersShallow(DObject([], w), max, depth + 1, 0)
    ensures MemberValues(DObject([], w), 0) == map[]
  {
  }

  lemma NoItems(max: nat, depth: nat)
    ensures GoodItems([], max, depth) && Good(Array([])) && ItemValues(Array([]), 0) == map[]
  {
  }

  /** The items that the loop reads after `pre`. */
  lemma {:induction false} ItemsDerived(c: Config, s: Bytes, p: nat, depth: nat, pre: seq<Item>)
    returns (items: seq<Item>)
    requires p <= |s| && GoodItems(pre, c.decodeMax, depth) && Good(Array(pre))
    requires ArrayLoop(c, s, TokenAt(s, p), depth, ItemValues(Array(pre), |pre|), |pre| + 1).Ok?
    ensures GoodItems(items, c.decodeMax, depth) && Good(Array(items)) && pre < items
    ensures StartsWith(s, p, ItemsText(Array(items), |pre|))
    ensures ArrayLoop(c, s, TokenAt(s, p), depth, ItemValues(Array(pre), |pre|), |pre| + 1)
      == Ok(Parsed(Table(ItemValues(Array(items), |items|)), p + |ItemsText(Array(items), |pre|)|))
    decreases |s| - TokenAt(s, p).index, 3
  {
    hide TokenAt, ValueAt, ArrayLoop, Shallow, Good, ValueOf, StartsWith, GoodItems, ItemValues, DocText, Blank;
    var it, next := OneItem(c, s, p, depth, ItemValues(Array(pre), |pre|), |pre| + 1);
    var after := TokenAt(s, next);
    MoreItems(pre, it, c.decodeMax, depth);
    ItemStep(c, Array(pre + [it]), |pre|, depth, s, TokenAt(s, p), next);
    Joined(s, p, ItemHead(it), if after.token.ArrEnd? then "]" else ",");
    if after.token.ArrEnd? {
      items := pre + [it];
      ItemFirst(Array(items), |pre|);
    } else {
      items := ItemsDerived(c, s, after.next, depth, pre + [it]);
      assert items[|pre|] == (pre + [it])[|pre|] == it;
      ItemFirst(Array(items), |pre|);
      Joined(s, p, ItemHead(it) + ",", ItemsText(Array(items), |pre| + 1));
    }
  }

  /** An item up to the comma or bracket after it. */
  function ItemHead(it: Item): Bytes {
    it.before + DocText(it.doc) + it.after
  }

  lemma ItemFirst(d: Doc, j: nat)
    requires d.DArray? && j < |d.items|
    ensures ItemsText(d, j) ==
      if j + 1 == |d.items| then ItemHead(d.items[j]) + "]" else ItemHead(d.items[j]) + "," + ItemsText(d, j + 1)
  {
  }

  lemma {:induction false} OneItem(c: Config, s: Bytes, p: nat, depth: nat, m: map<Key, Value>, i: nat)
    returns (it: Item, next: nat)
    requires p <= |s| && ArrayLoop(c, s, TokenAt(s, p), depth, m, i).Ok?
    ensures GoodItem(it, c.decodeMax, depth)
    ensures StartsWith(s, p, ItemHead(it)) && TokenAt(s, p).index <= next <= |s|
    ensures ValueAt(c, s, TokenAt(s, p), depth) == Ok(Parsed(ValueOf(it.doc), next))
    ensures var after := TokenAt(s, next);
      && (after.token.ArrEnd? || (after.token.CommaToken? && TokenAt(s, p).index < after.next))
      && after.index == p + |ItemHead(it)| && after.next == after.index + 1
      && StartsWith(s, after.index, if after.token.ArrEnd? then "]" else ",")
    decreases |s| - TokenAt(s, p).index, 2
  {
    hide TokenAt, ValueAt, ArrayLoop, Shallow, Good, ValueOf, StartsWith, DocText, Blank;
    var l := TokenAt(s, p);
    ItemReadOk(c, s, l, depth, m, i);
    var w := Token(s, p);
    var doc := DocDerived(c, s, l, depth);
    next := l.index + |DocText(doc)|;
    var w1 := Token(s, next);
    it := Item(w, doc, w1);
    ItemJoined(s, p, it);
  }

  lemma ItemJoined(s: Bytes, p: nat, it: Item)
    requires StartsWith(s, p, it.before) && StartsWith(s, p + |it.before|, DocText(it.doc))
    requires StartsWith(s, p + |it.before| + |DocText(it.doc)|, it.after)
    ensures StartsWith(s, p, ItemHead(it))
  {
    hide StartsWith, DocText;
    Joined(s, p, it.before, DocText(it.doc));
    Joined(s, p, it.before + DocText(it.doc), it.after);
  }

  lemma ItemReadOk(c: Config, s: Bytes, l: Lexed, depth: nat, m: map<Key, Value>, i: nat)
    requires LexedIn(s, 0, l) && ArrayLoop(c, s, l, depth, m, i).Ok?
    ensures !l.token.Error? && !l.token.End? && ValueAt(c, s, l, depth).Ok?
    ensures var after := TokenAt(s, ValueAt(c, s, l, depth).value.next);
      after.token.ArrEnd? || (after.token.CommaToken? && l.index < after.next)
  {
    hide TokenAt;
  }

  lemma MoreItems(pre: seq<Item>, it: Item, max: nat, depth: nat)
    requires GoodItems(pre, max, depth) && Good(Array(pre)) && GoodItem(it, max, depth)
    ensures GoodItems(pre + [it], max, depth) && Good(Array(pre + [it]))
    ensures ItemValues(Array(pre + [it]), |pre|) == ItemValues(Array(pre), |pre|)
    ensures (pre + [it])[|pre|] == it
  {
    hide Blank, Shallow;
    GoodArray(pre + [it], max, depth);
    SamePrefix(pre, it, |pre|);
  }

  predicate GoodMember(it: Member, max: nat, depth: nat) {
    && Blank(it.before) && Blank(it.colon) && Blank(it.gap) && Blank(it.after)
    && GoodPieces(it.key) && Good(it.doc) && Shallow(it.doc, max, depth)
  }

  predicate GoodMembers(ms: seq<Member>, max: nat, depth: nat) {
    forall j :: 0 <= j < |ms| ==> GoodMember(ms[j], max, depth)
  }

  function Object(ms: seq<Member>): Doc {
    DObject(ms, [])
  }

  lemma GoodObject(ms: seq<Member>, max: nat, depth: nat)
    requires GoodMembers(ms, max, depth)
    ensures Good(Object(ms)) && MembersShallow(Object(ms), max, depth, 0)
  {
  }

  lemma {:induction false} SameMembers(ms: seq<Member>, it: Member, n: nat)
    requires Good(Object(ms)) && Good(Object(ms + [it])) && n <= |ms|
    ensures MemberValues(Object(ms + [it]), n) == MemberValues(Object(ms), n)
    decreases n
  {
    if n > 0 {
      SameMembers(ms, it, n - 1);
    }
  }

  lemma {:induction false} ObjectDerived(c: Config, s: Bytes, l: Lexed, depth: nat) returns (d: Doc)
    requires LexedIn(s, 0, l) && l == TokenAt(s, l.index) && l.token.ObjBegin? && ValueAt(c, s, l, depth).Ok?
    ensures Good(d) && Shallow(d, c.decodeMax, depth) && StartsWith(s, l.index, DocText(d))
    ensures ValueAt(c, s, l, depth) == Ok(Parsed(ValueOf(d), l.index + |DocText(d)|))
    decreases |s| - l.index, 0
  {
    hide TokenAt, ValueAt, ObjectLoop, Shallow, Good, ValueOf, StartsWith, GoodMembers, DocText, MembersText,
      MemberValues;
    var w0 := Token(s, l.index);
    BeginsObject(c, s, l.index, depth);
    var first := TokenAt(s, l.next);
    if first.token.ObjEnd? {
      var w := Token(s, l.next);
      d := DObject([], w);
      Joined(s, l.next, w, "}");
      EmptyGood(w, c.decodeMax, depth);
    } else {
      NoMembers(c.decodeMax, depth + 1);
      var ms := MembersDerived(c, s, l.next, depth + 1, []);
      d := Object(ms);
      GoodObject(ms, c.decodeMax, depth + 1);
    }
    ObjectShallow(d, c.decodeMax, depth);
    ObjectWhole(s, l.index, d);
  }

  lemma ObjectWhole(s: Bytes, p: nat, d: Doc)
    requires d.DObject? && Good(d) && StartsWith(s, p, "{")
    requires StartsWith(s, p + 1, if d.members == [] then d.inside + "}" else MembersText(d, 0))
    ensures StartsWith(s, p, DocText(d)) && ValueOf(d) == Table(MemberValues(d, |d.members|))
    ensures |DocText(d)| == 1 + if d.members == [] then |d.inside| + 1 else |MembersText(d, 0)|
  {
    hide Good, ValueOf, StartsWith, MemberValues, MembersText, DocText;
    ObjectParts(d);
    Joined(s, p, "{", if d.members == [] then d.inside + "}" else MembersText(d, 0));
  }

  lemma NoMembers(max: nat, depth: nat)
    ensures GoodMembers([], max, depth) && Good(Object([])) && MemberValues(Object([]), 0) == map[]
  {
  }

  /** The members that the loop reads after `pre`. */
  lemma {:induction false} MembersDerived(c: Config, s: Bytes, p: nat, depth: nat, pre: seq<Member>)
    returns (ms: seq<Member>)
    requires p <= |s| && GoodMembers(pre, c.decodeMax, depth) && Good(Object(pre))
    requires ObjectLoop(c, s, TokenAt(s, p), depth, MemberValues(Object(pre), |pre|)).Ok?
    ensures GoodMembers(ms, c.decodeMax, depth) && Good(Object(ms)) && pre < ms
    ensures StartsWith(s, p, MembersText(Object(ms), |pre|))
    ensures ObjectLoop(c, s, TokenAt(s, p), depth, MemberValues(Object(pre), |pre|))
      == Ok(Parsed(Table(MemberValues(Object(ms), |ms|)), p + |MembersText(Object(ms), |pre|)|))
    decreases |s| - TokenAt(s, p).index, 3
  {
    hide TokenAt, ValueAt, ObjectLoop, Shallow, Good, ValueOf, StartsWith, GoodMembers, MemberValues, DocText, Quoted,
      GoodPieces, StringValue, StringBody, MembersText, Head;
    var it, next := OneMember(c, s, p, depth, MemberValues(Object(pre), |pre|));
    var after := TokenAt(s, next);
    MoreMembers(pre, it, c.decodeMax, depth);
    MemberStep(c, Object(pre + [it]), |pre|, depth, s, TokenAt(s, p), next);
    Joined(s, p, Head(it), if after.token.ObjEnd? then "}" else ",");
    if after.token.ObjEnd? {
      ms := pre + [it];
      HeadFirst(Object(ms), |pre|);
    } else {
      ms := MembersDerived(c, s, after.next, depth, pre + [it]);
      assert ms[|pre|] == (pre + [it])[|pre|] == it;
      HeadFirst(Object(ms), |pre|);
      Joined(s, p, Head(it) + ",", MembersText(Object(ms), |pre| + 1));
    }
  }

  /** A member up to the comma or brace after it. */
  function Head(it: Member): Bytes {
    it.before + Quoted(it.key) + it.colon + ":" + it.gap + DocText(it.doc) + it.after
  }

  lemma HeadFirst(d: Doc, j: nat)
    requires d.DObject? && j < |d.members|
    ensures MembersText(d, j) ==
      if j + 1 == |d.members| then Head(d.members[j]) + "}" else Head(d.members[j]) + "," + MembersText(d, j + 1)
  {
  }

  lemma {:induction false} OneMember(c: Config, s: Bytes, p: nat, depth: nat, m: map<Key, Value>)
    returns (it: Member, next: nat)
    requires p <= |s| && ObjectLoop(c, s, TokenAt(s, p), depth, m).Ok?
    ensures GoodMember(it, c.decodeMax, depth) && TokenAt(s, p).token == StringToken(StringValue(it.key))
    ensures StartsWith(s, p, Head(it)) && TokenAt(s, p).index <= next <= |s| && next <= p + |Head(it)|
    ensures var l := TokenAt(s, p); l.next <= |s| && TokenAt(s, l.next).token.Colon?
    ensures ValueAt(c, s, TokenAt(s, TokenAt(s, TokenAt(s, p).next).next), depth) == Ok(Parsed(ValueOf(it.doc), next))
    ensures var after := TokenAt(s, next);
      && (after.token.ObjEnd? || (after.token.CommaToken? && TokenAt(s, p).index < after.next))
      && after.index == p + |Head(it)| && after.next == after.index + 1
      && StartsWith(s, after.index, if after.token.ObjEnd? then "}" else ",")
    decreases |s| - TokenAt(s, p).index, 2
  {
    hide TokenAt, ValueAt, ObjectLoop, Shallow, Good, ValueOf, StartsWith, DocText, Quoted, GoodPieces, StringValue,
      StringBody, Blank;
    var l := TokenAt(s, p);
    MemberReadOk(c, s, l, depth, m);
    var w := Token(s, p);
    var ps := QuotedDerived(s, l);
    var colon := TokenAt(s, l.next);
    var wc := Token(s, l.next);
    var l2 := TokenAt(s, colon.next);
    var wg := Token(s, colon.next);
    var doc := DocDerived(c, s, l2, depth);
    next := l2.index + |DocText(doc)|;
    var w1 := Token(s, next);
    it := Member(w, ps, wc, wg, doc, w1);
    HeadJoined(s, p, it);
  }

  lemma HeadJoined(s: Bytes, p: nat, it: Member)
    requires StartsWith(s, p, it.before) && StartsWith(s, p + |it.before|, Quoted(it.key))
    requires var q := p + |it.before| + |Quoted(it.key)|;
      StartsWith(s, q, it.colon) && StartsWith(s, q + |it.colon|, ":")
    requires var q := p + |it.before| + |Quoted(it.key)| + |it.colon| + 1;
      StartsWith(s, q, it.gap) && StartsWith(s, q + |it.gap|, DocText(it.doc))
    requires var q := p + |it.before| + |Quoted(it.key)| + |it.colon| + 1 + |it.gap|;
      StartsWith(s, q + |DocText(it.doc)|, it.after)
    ensures StartsWith(s, p, Head(it))
  {
    hide StartsWith, Quoted, DocText;
    var k, t := Quoted(it.key), DocText(it.doc);
    Joined(s, p, it.before, k);
    Joined(s, p, it.before + k, it.colon);
    Joined(s, p, it.before + k + it.colon, ":");
    Joined(s, p, it.before + k + it.colon + ":", it.gap);
    Joined(s, p, it.before + k + it.colon + ":" + it.gap, t);
    Joined(s, p, it.before + k + it.colon + ":" + it.gap + t, it.after);
  }

  lemma QuotedDerived(s: Bytes, l: Lexed) returns (ps: seq<Piece>)
    requires LexedIn(s, 0, l) && l == TokenAt(s, l.index) && l.token.StringToken?
    ensures GoodPieces(ps) && StringValue(ps) == l.token.s && StartsWith(s, l.index, Quoted(ps))
    ensures l.next == l.index + |Quoted(ps)|
  {
    hide TokenAt, StringBody;
    var w := Token(s, l.index);
    ps := StringDerived(s, l.index + 1);
    assert StartsWith(s, l.index, "\"") by { QuoteAt(s, l.index); }
    Joined(s, l.index, "\"", PiecesText(ps) + "\"");
    assert Quoted(ps) == "\"" + (PiecesText(ps) + "\"");
  }

  lemma MemberReadOk(c: Config, s: Bytes, l: Lexed, depth: nat, m: map<Key, Value>)
    requires LexedIn(s, 0, l) && ObjectLoop(c, s, l, depth, m).Ok?
    ensures l.token.StringToken? && l.index < l.next <= |s|
    ensures var colon := TokenAt(s, l.next); colon.token.Colon? && l.next < colon.next <= |s|
    ensures var l2 := TokenAt(s, TokenAt(s, l.next).next);
      !l2.token.Error? && !l2.token.End? && ValueAt(c, s, l2, depth).Ok? && l.index < l2.index
    ensures var after := TokenAt(s, ValueAt(c, s, TokenAt(s, TokenAt(s, l.next).next), depth).value.next);
      after.token.ObjEnd? || (after.token.CommaToken? && l.index < after.next)
  {
    hide TokenAt;
  }

  lemma MoreMembers(pre: seq<Member>, it: Member, max: nat, depth: nat)
    requires GoodMembers(pre, max, depth) && Good(Object(pre)) && GoodMember(it, max, depth)
    ensures GoodMembers(pre + [it], max, depth) && Good(Object(pre + [it]))
    ensures MemberValues(Object(pre + [it]), |pre|) == MemberValues(Object(pre), |pre|)
    ensures (pre + [it])[|pre|] == it
  {
    hide Blank, Shallow, GoodPieces;
    GoodObject(pre + [it], max, depth);
    SameMembers(pre, it, |pre|);
  }

  // ----- whole texts -----

  /** The decoder accepts exactly the texts with a derivation within the depth, and returns its value. */
  lemma DecodeExactly(c: Config, s: Bytes, v: Value)
    ensures Json.Decode(c, s) == Ok(v) <==> Decodes(c, s, v)
  {
    if Json.Decode(c, s) == Ok(v) {
      DecodeDerived(c, s, v);
    }
    if Decodes(c, s, v) {
      var lead, d, trail, rest :| Derives(s, lead, d, trail, rest) && Shallow(d, c.decodeMax, 0) && ValueOf(d) == v;
      DecodeRead(c, s, lead, d, trail, rest);
    }
  }

  ghost predicate Decodes(c: Config, s: Bytes, v: Value) {
    exists lead, d, trail, rest {:trigger Derives(s, lead, d, trail, rest)} ::
      Derives(s, lead, d, trail, rest) && Shallow(d, c.decodeMax, 0) && ValueOf(d) == v
  }

  /** A derived text is decoded whatever its white space and its escapes, or refused for its depth. */
  lemma DecodeRead(c: Config, s: Bytes, lead: Bytes, d: Doc, trail: Bytes, rest: Bytes)
    requires Derives(s, lead, d, trail, rest)
    ensures if Shallow(d, c.decodeMax, 0) then Json.Decode(c, s) == Ok(ValueOf(d)) else Json.Decode(c, s).Err?
  {
    hide TokenAt, ValueAt, Shallow, Good, ValueOf, DocText, StartsWith, UsesWideCharacters, Blank;
    var t := DocText(d);
    var q := |lead| + |t|;
    assert s == lead + (t + (trail + rest));
    Whole(s);
    Parts(s, 0, lead, t + (trail + rest));
    Parts(s, |lead|, t, trail + rest);
    Parts(s, q, trail, rest);
    BlankRead(s, 0, lead);
    DocRead(c, d, 0, s, |lead|);
    BlankRead(s, q, trail);
    EndRead(s, q + |trail|, rest);
    NotWide(s, lead, d, trail + rest);
  }

  lemma Whole(s: Bytes)
    ensures StartsWith(s, 0, s)
  {
    assert s[0..|s|] == s;
  }

  lemma EndRead(s: Bytes, p: nat, rest: Bytes)
    requires p + |rest| == |s| && StartsWith(s, p, rest) && (rest == [] || rest[0] == '\0')
    ensures TokenAt(s, p) == Lexed(End, p, p)
  {
    assert rest != [] ==> s[p] == s[p..p + |rest|][0] == '\0';
    if rest != [] {
      OtherWord(s, p, "true");
      OtherWord(s, p, "false");
      OtherWord(s, p, "null");
    }
  }

  /** The first two characters of a text are no zero bytes. */
  lemma NotWide(s: Bytes, lead: Bytes, d: Doc, more: Bytes)
    requires Blank(lead) && Good(d) && s == lead + (DocText(d) + more)
    ensures !UsesWideCharacters(s)
  {
    var t := DocText(d);
    DocBegins(d);
    assert forall i :: 0 <= i < |lead| ==> s[i] == lead[i] && lead[i] != '\0';
    assert s[|lead|] == t[0] && s[|lead| + 1] == t[1];
  }

  lemma DocBegins(d: Doc)
    requires Good(d)
    ensures DocText(d)[0] != '\0' && DocText(d)[1] != '\0'
  {
    match d
    case DString(ps) =>
      if ps != [] {
        assert ps[0] in ps && GoodPiece(ps[0]);
      }
    case DArray(items, inside) =>
      if items != [] {
        ItemGood(d, 0);
        DocFirst(items[0].before, items[0].doc);
      }
    case DObject(members, inside) =>
      if members != [] {
        MemberGood(d, 0);
      }
    case _ =>
  }

  lemma DocFirst(w: Bytes, d: Doc)
    requires Blank(w) && Good(d)
    ensures (w + DocText(d))[0] != '\0'
  {
  }

  lemma DecodeDerived(c: Config, s: Bytes, v: Value)
    requires Json.Decode(c, s) == Ok(v)
    ensures Decodes(c, s, v)
  {
    hide TokenAt, ValueAt, Shallow, Good, ValueOf, DocText, StartsWith, UsesWideCharacters, Blank, Json.Decode;
    var l := TokenAt(s, 0);
    FirstOk(c, s);
    var lead := Token(s, 0);
    var d := DocDerived(c, s, l, 0);
    var q := l.index + |DocText(d)|;
    var trail := Token(s, q);
    var last := TokenAt(s, q);
    var rest := s[last.index..];
    WholeText(s, lead, DocText(d), trail);
    assert Derives(s, lead, d, trail, rest);
  }

  lemma FirstOk(c: Config, s: Bytes)
    requires Json.Decode(c, s).Ok?
    ensures ValueAt(c, s, TokenAt(s, 0), 0).Ok? && !TokenAt(s, 0).token.Error? && !TokenAt(s, 0).token.End?
    ensures TokenAt(s, ValueAt(c, s, TokenAt(s, 0), 0).value.next).token.End?
    ensures Json.Decode(c, s) == Ok(ValueAt(c, s, TokenAt(s, 0), 0).value.value)
  {
    hide TokenAt;
  }

  lemma WholeText(s: Bytes, a: Bytes, b: Bytes, c: Bytes)
    requires StartsWith(s, 0, a) && StartsWith(s, |a|, b) && StartsWith(s, |a| + |b|, c)
    ensures |a| + |b| + |c| <= |s| && s == a + b + c + s[|a| + |b| + |c|..]
  {
    Joined(s, 0, a, b);
    Joined(s, 0, a + b, c);
    var t := a + b + c;
    assert s[0..|t|] == t;
  }

  // ----- white space -----

  /** The same tree without white space. */
  function Bare(d: Doc): Doc {
    match d
    case DArray(items, _) =>
      DArray(seq(|items|, j requires 0 <= j < |items| => Item([], Bare(items[j].doc), [])), [])
    case DObject(members, _) =>
      DObject(seq(|members|, j requires 0 <= j < |members| =>
                    Member([], members[j].key, [], [], Bare(members[j].doc), [])), [])
    case _ => d
  }

  lemma {:induction false} BareSame(d: Doc, max: nat, depth: nat)
    requires Good(d)
    ensures Good(Bare(d)) && ValueOf(Bare(d)) == ValueOf(d) && Shallow(Bare(d), max, depth) == Shallow(d, max, depth)
    decreases d, Size(d)
  {
    match d
    case DArray(items, _) =>
      forall j | 0 <= j < |items|
        ensures Good(Bare(d).items[j].doc) && ValueOf(Bare(d).items[j].doc) == ValueOf(items[j].doc)
        ensures Shallow(Bare(d).items[j].doc, max, depth + 1) == Shallow(items[j].doc, max, depth + 1)
      {
        BareSame(items[j].doc, max, depth + 1);
      }
      BareItems(d, |items|);
    case DObject(members, _) =>
      forall j | 0 <= j < |members|
        ensures Good(Bare(d).members[j].doc) && ValueOf(Bare(d).members[j].doc) == ValueOf(members[j].doc)
        ensures Shallow(Bare(d).members[j].doc, max, depth + 1) == Shallow(members[j].doc, max, depth + 1)
      {
        BareSame(members[j].doc, max, depth + 1);
      }
      BareMembers(d, |members|);
    case _ =>
  }

  lemma {:induction false} BareItems(d: Doc, n: nat)
    requires Good(d) && d.DArray? && n <= |d.items| && Good(Bare(d))
    requires forall j :: 0 <= j < |d.items| ==> ValueOf(Bare(d).items[j].doc) == ValueOf(d.items[j].doc)
    ensures ItemValues(Bare(d), n) == ItemValues(d, n)
    decreases n
  {
    if n > 0 {
      BareItems(d, n - 1);
    }
  }

  lemma {:induction false} BareMembers(d: Doc, n: nat)
    requires Good(d) && d.DObject? && n <= |d.members| && Good(Bare(d))
    requires forall j :: 0 <= j < |d.members| ==> ValueOf(Bare(d).members[j].doc) == ValueOf(d.members[j].doc)
    ensures MemberValues(Bare(d), n) == MemberValues(d, n)
    decreases n
  {
    if n > 0 {
      BareMembers(d, n - 1);
    }
  }

  /** Runs of white space around the tokens change nothing: both texts fail, or both give the same value. */
  lemma SpacesIgnored(c: Config, s: Bytes, lead: Bytes, d: Doc, trail: Bytes, rest: Bytes)
    requires Derives(s, lead, d, trail, rest)
    ensures var bare := Json.Decode(c, DocText(Bare(d)));
      if bare.Ok? then Json.Decode(c, s) == bare else Json.Decode(c, s).Err?
  {
    hide Good, Shallow, ValueOf, DocText, Bare, Json.Decode;
    var t := DocText(Bare(d));
    BareSame(d, c.decodeMax, 0);
    DecodeRead(c, s, lead, d, trail, rest);
    assert Derives(t, [], Bare(d), [], []) by { assert t == [] + t + [] + []; }
    DecodeRead(c, t, [], Bare(d), [], []);
  }
}
