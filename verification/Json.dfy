/**
 JSON text (lua_cjson.c): the encoder appends the text of a Lua value to a buffer, and the parser reads it
 back through a pointer into the text, a temporary buffer for strings and a depth counter.
 */
module Json {
  import opened Wrappers

  import opened Decimals

  /** What a Lua table is indexed with; `Other` stands for the keys that cannot be written. */
  datatype Key = Index(i: int) | Name(s: Bytes) | Other(id: int)

  /** A Lua value; `Null` is the null light userdata. */
  datatype Value = Nil | Null | Bool(b: bool) | Str(s: Bytes) | Table(m: map<Key, Value>) | Alien

  datatype Field = Field(key: Key, value: Tree)

  /** A Lua value with, for each table, the order in which `lua_next` visits its fields. */
  datatype Tree = TNil | TNull | TBool(b: bool) | TStr(s: Bytes) | TTable(fields: seq<Field>) | TAlien

  datatype Config = Config(ratio: nat, safe: nat, convert: bool, encodeMax: nat, decodeMax: nat)

  datatype Failure =
    | Nesting(depth: nat) | Sparse | BadKey | BadType
    | Wide | TooDeep(level: nat, place: nat) | Expected(what: string, found: string, at: nat)

  type Result<T> = Wrappers.Result<T, Failure>

  // ----- values -----

  predicate Distinct(fields: seq<Field>) {
    forall i, j :: 0 <= i < j < |fields| ==> fields[i].key != fields[j].key
  }

  /** What every Lua table satisfies: a key occurs once and has a value. */
  ghost predicate Proper(t: Tree) {
    t.TTable? ==>
      && Distinct(t.fields)
      && forall j :: 0 <= j < |t.fields| ==> t.fields[j].value != TNil && Proper(t.fields[j].value)
  }

  /** The value of a tree. */
  ghost function Meaning(t: Tree): Value {
    match t
    case TNil => Nil
    case TNull => Null
    case TBool(b) => Bool(b)
    case TStr(s) => Str(s)
    case TTable(fields) => Table(MeaningFields(t, |fields|))
    case TAlien => Alien
  }

  ghost function MeaningFields(t: Tree, n: nat): map<Key, Value>
    requires t.TTable? && n <= |t.fields|
    decreases t, n
  {
    if n == 0 then map[]
    else MeaningFields(t, n - 1)[t.fields[n - 1].key := Meaning(t.fields[n - 1].value)]
  }

  /** Where a key is, or -1. */
  function Find(fields: seq<Field>, key: Key, from: nat := 0): (j: int)
    requires from <= |fields|
    ensures -1 <= j < |fields|
    ensures j >= 0 ==> fields[j].key == key
    ensures j < 0 ==> forall k :: from <= k < |fields| ==> fields[k].key != key
    decreases |fields| - from
  {
    if from == |fields| then -1 else if fields[from].key == key then from else Find(fields, key, from + 1)
  }

  // ----- the text of strings and numbers -----

  function HexDigit(n: nat): char
    requires n < 16
  {
    "0123456789abcdef"[n]
  }

  /** `char2escape`, and the character itself where the table has none. */
  function Escaped(c: char): Bytes {
    var n := c as int;
    if n == 8 then "\\b" else if n == 9 then "\\t" else if n == 10 then "\\n"
    else if n == 12 then "\\f" else if n == 13 then "\\r"
    else if n < 32 || n == 127 then "\\u00" + [HexDigit(n / 16), HexDigit(n % 16)]
    else if c == '"' || c == '\\' || c == '/' then ['\\', c]
    else [c]
  }

  /** The text after the opening quote. */
  function Body(s: Bytes): Bytes {
    if s == [] then "\"" else Escaped(s[0]) + Body(s[1..])
  }

  function StringText(s: Bytes): Bytes {
    "\"" + Body(s)
  }

  /** The text of an integer (below 10^14, where the format "%.14g" prints all digits). */
  function NumText(k: int): Bytes {
    if k < 0 then "-" + Decimal(0 - k) else Decimal(k)
  }

  // ----- encoding -----

  /** The name a key is written as. */
  function KeyName(key: Key): Bytes {
    match key
    case Index(i) => NumText(i)
    case Name(s) => s
    case Other(_) => []
  }

  predicate Positive(key: Key) {
    key.Index? && key.i >= 1
  }

  function MaxIndex(fields: seq<Field>, n: nat): int
    requires n <= |fields| && forall j :: 0 <= j < n ==> Positive(fields[j].key)
  {
    if n == 0 then 0 else
      var m := MaxIndex(fields, n - 1);
      assert Positive(fields[n - 1].key);
      if fields[n - 1].key.i > m then fields[n - 1].key.i else m
  }

  predicate AllPositive(fields: seq<Field>) {
    forall j :: 0 <= j < |fields| ==> Positive(fields[j].key)
  }

  /** The length of an array, or -1 for what is written as an object. */
  function ArrayLength(c: Config, fields: seq<Field>): Result<int> {
    if !AllPositive(fields) then Ok(-1) else
      var max := MaxIndex(fields, |fields|);
      if c.ratio > 0 && max > |fields| * c.ratio && max > c.safe then
        if c.convert then Ok(-1) else Err(Sparse)
      else Ok(max)
  }

  function Then(prefix: Bytes, r: Result<Bytes>): Result<Bytes> {
    if r.Ok? then Ok(prefix + r.value) else r
  }

  /** A text followed by another, where the first failure counts. */
  function Join(a: Result<Bytes>, b: Result<Bytes>): Result<Bytes> {
    if a.Ok? then Then(a.value, b) else a
  }

  /** The text of a value inside `depth` tables. */
  function Encode(c: Config, t: Tree, depth: nat): Result<Bytes>
    decreases t, 2, 0
  {
    match t
    case TNil => Ok("null")
    case TNull => Ok("null")
    case TBool(b) => Ok(if b then "true" else "false")
    case TStr(s) => Ok(StringText(s))
    case TAlien => Err(BadType)
    case TTable(fields) =>
      if depth + 1 > c.encodeMax then Err(Nesting(depth + 1)) else
        match ArrayLength(c, fields)
        case Err(e) => Err(e)
        case Ok(n) =>
          if n > 0 then Then("[", EncodeItems(c, t, 1, n, depth + 1)) else Then("{", EncodeFields(c, t, 0, depth + 1))
  }

  /** All keys are positive integers, of which `m` is the largest; an empty table has none. */
  ghost predicate Largest(fields: seq<Field>, m: nat) {
    && (forall j :: 0 <= j < |fields| ==> fields[j].key.Index? && 1 <= fields[j].key.i <= m)
    && if m == 0 then fields == [] else exists j :: 0 <= j < |fields| && fields[j].key == Index(m)
  }

  /** More than `ratio` places for each item, in an array of more than `safe` places; a ratio of 0 allows everything. */
  ghost predicate TooSparse(c: Config, items: nat, m: nat) {
    0 < c.ratio && c.safe < m && c.ratio * items < m
  }

  lemma {:induction false} LargestFound(fields: seq<Field>, n: nat, m: nat)
    requires n <= |fields| && forall j :: 0 <= j < n ==> Positive(fields[j].key) && fields[j].key.i <= m
    ensures 0 <= MaxIndex(fields, n) <= m
    ensures (exists j :: 0 <= j < n && fields[j].key == Index(m)) ==> MaxIndex(fields, n) == m
    decreases n
  {
    if n > 0 {
      LargestFound(fields, n - 1, m);
    }
  }

  /**
   What a table is written as: an array up to its largest index, holes and all, if its keys are positive integers;
   unless that is too sparse, which is an error, or is written as an object if the configuration says so.
   */
  lemma FormWhen(c: Config, t: Tree, m: nat, depth: nat)
    requires t.TTable? && depth + 1 <= c.encodeMax && Largest(t.fields, m)
    ensures ArrayLength(c, t.fields) ==
      if !TooSparse(c, |t.fields|, m) then Ok(m as int) else if c.convert then Ok(-1) else Err(Sparse)
    ensures var r := Encode(c, t, depth);
      if TooSparse(c, |t.fields|, m) && !c.convert then r == Err(Sparse)
      else r.Ok? ==> r.value != [] && (r.value[0] == '[' <==> m > 0 && !TooSparse(c, |t.fields|, m))
  {
    LargestFound(t.fields, |t.fields|, m);
  }

  /** A table with any other key is written as an object. */
  lemma ObjectWhen(c: Config, t: Tree, j: nat, depth: nat)
    requires t.TTable? && j < |t.fields| && !(t.fields[j].key.Index? && t.fields[j].key.i >= 1)
    ensures var r := Encode(c, t, depth); r.Ok? ==> r.value != [] && r.value[0] == '{'
  {
    assert !Positive(t.fields[j].key);
  }

  function Comma(more: bool): Bytes {
    if more then "," else ""
  }

  /** The text of the items from `i`, and the closing bracket. */
  function EncodeItems(c: Config, t: Tree, i: nat, n: nat, depth: nat): Result<Bytes>
    requires t.TTable? && 1 <= i <= n + 1
    decreases t, 1, n + 1 - i
  {
    if i > n then Ok("]")
    else Then(Comma(i > 1), Join(ItemText(c, t, i, depth), EncodeItems(c, t, i + 1, n, depth)))
  }

  /** `lua_rawgeti` gives nil for a hole. */
  function ItemText(c: Config, t: Tree, i: nat, depth: nat): Result<Bytes>
    requires t.TTable?
    decreases t, 0, 0
  {
    var j := Find(t.fields, Index(i));
    if j < 0 then Ok("null") else Encode(c, t.fields[j].value, depth)
  }

  /** The text of the fields from the `j`-th, and the closing brace. */
  function EncodeFields(c: Config, t: Tree, j: nat, depth: nat): Result<Bytes>
    requires t.TTable? && j <= |t.fields|
    decreases t, 1, |t.fields| - j
  {
    if j == |t.fields| then Ok("}")
    else Then(Comma(j > 0), Join(FieldText(c, t, j, depth), EncodeFields(c, t, j + 1, depth)))
  }

  function FieldText(c: Config, t: Tree, j: nat, depth: nat): Result<Bytes>
    requires t.TTable? && j < |t.fields|
    decreases t, 0, 0
  {
    var f := t.fields[j];
    if f.key.Other? then Err(BadKey)
    else Then(StringText(KeyName(f.key)) + ":", Encode(c, f.value, depth))
  }

  /** The buffer text is appended to. */
  class Encoder {
    var json: Bytes

    constructor ()
      ensures json == []
    {
      json := [];
    }

    /** `json_append_string`; the buffer has room for the worst case. */
    method AppendString(s: Bytes)
      modifies this
      ensures json == old(json) + StringText(s) && |json| <= |old(json)| + 6 * |s| + 2
    {
      json := json + "\"";
      for i := 0 to |s|
        invariant json + Body(s[i..]) == old(json) + StringText(s)
        invariant |json| <= |old(json)| + 6 * i + 1
      {
        assert s[i..][0] == s[i] && s[i..][1..] == s[i + 1..];
        assert json + (Escaped(s[i]) + Body(s[i + 1..])) == json + Escaped(s[i]) + Body(s[i + 1..]);
        json := json + Escaped(s[i]);
      }
      assert s[|s|..] == [];
      json := json + "\"";
    }

    /** `lua_array_length`. */
    static method LuaArrayLength(c: Config, fields: seq<Field>) returns (r: Result<int>)
      ensures r == ArrayLength(c, fields)
    {
      var max := 0;
      for j := 0 to |fields|
        invariant forall k :: 0 <= k < j ==> Positive(fields[k].key)
        invariant max == MaxIndex(fields, j)
      {
        if !Positive(fields[j].key) {
          return Ok(-1);
        }
        if fields[j].key.i > max {
          max := fields[j].key.i;
        }
      }
      if c.ratio > 0 && max > |fields| * c.ratio && max > c.safe {
        return if c.convert then Ok(-1) else Err(Sparse);
      }
      return Ok(max);
    }

    /** `json_append_array`. */
    method AppendArray(c: Config, t: Tree, n: nat, depth: nat) returns (r: Result<()>)
      requires t.TTable? && n > 0
      modifies this
      ensures Appended(old(json), json, r, Then("[", EncodeItems(c, t, 1, n, depth)))
      decreases t, 1
    {
      ghost var was, whole := json, Then("[", EncodeItems(c, t, 1, n, depth));
      ThenThen(was, "[", EncodeItems(c, t, 1, n, depth));
      json := json + "[";
      var i := 1;
      while i <= n
        invariant 1 <= i <= n + 1
        invariant Then(json, EncodeItems(c, t, i, n, depth)) == Then(was, whole)
      {
        ghost var before, rest := json, EncodeItems(c, t, i + 1, n, depth);
        if i > 1 {
          json := json + ",";
        }
        var j := Find(t.fields, Index(i));
        ghost var mark, text := json, ItemText(c, t, i, depth);
        assert mark == before + Comma(i > 1);
        if j < 0 {
          json := json + "null";
        } else {
          r := AppendData(c, t.fields[j].value, depth);
          if r.Err? {
            return;
          }
        }
        JoinAll(before, Comma(i > 1), text, rest);
        i := i + 1;
      }
      json := json + "]";
      r := Ok(());
    }

    /** One round of `json_append_object`. */
    method AppendField(c: Config, t: Tree, j: nat, depth: nat) returns (r: Result<()>)
      requires t.TTable? && j < |t.fields|
      modifies this
      ensures Appended(old(json), json, r, FieldText(c, t, j, depth))
      decreases t, 0
    {
      var f := t.fields[j];
      match f.key {
        case Other(_) => return Err(BadKey);
        case Index(i) =>
          NumberQuoted(i);
          json := json + "\"" + NumText(i) + "\":";
        case Name(s) =>
          AppendString(s);
          json := json + ":";
      }
      assert json == old(json) + (StringText(KeyName(f.key)) + ":");
      ThenThen(old(json), StringText(KeyName(f.key)) + ":", Encode(c, f.value, depth));
      r := AppendData(c, f.value, depth);
    }

    /** `json_append_object`. */
    method AppendObject(c: Config, t: Tree, depth: nat) returns (r: Result<()>)
      requires t.TTable?
      modifies this
      ensures Appended(old(json), json, r, Then("{", EncodeFields(c, t, 0, depth)))
      decreases t, 1
    {
      ghost var was, whole := json, Then("{", EncodeFields(c, t, 0, depth));
      ThenThen(was, "{", EncodeFields(c, t, 0, depth));
      json := json + "{";
      r := Ok(());
      var j := 0;
      while j < |t.fields|
        invariant 0 <= j <= |t.fields| && r.Ok?
        invariant Then(json, EncodeFields(c, t, j, depth)) == Then(was, whole)
      {
        ghost var before := json;
        if j > 0 {
          json := json + ",";
        }
        assert json == before + Comma(j > 0);
        r := AppendField(c, t, j, depth);
        if r.Err? {
          return;
        }
        JoinAll(before, Comma(j > 0), FieldText(c, t, j, depth), EncodeFields(c, t, j + 1, depth));
        j := j + 1;
      }
      json := json + "}";
    }

    /** `json_append_data`: appends the text of a value, or fails. */
    method AppendData(c: Config, t: Tree, current: nat) returns (r: Result<()>)
      modifies this
      ensures Appended(old(json), json, r, Encode(c, t, current))
      decreases t, 2
    {
      r := Ok(());
      match t {
        case TStr(s) => AppendString(s);
        case TBool(b) => json := json + if b then "true" else "false";
        case TNil => json := json + "null";
        case TNull => json := json + "null";
        case TAlien => r := Err(BadType);
        case TTable(fields) =>
          var depth := current + 1;
          if depth > c.encodeMax {
            return Err(Nesting(depth));
          }
          var len := LuaArrayLength(c, fields);
          if len.Err? {
            return Err(len.error);
          }
          if len.value > 0 {
            r := AppendArray(c, t, len.value, depth);
          } else {
            r := AppendObject(c, t, depth);
          }
      }
    }
  }

  /** An encoding step appends a text, or fails as it does. */
  ghost predicate Appended(before: Bytes, after: Bytes, r: Result<()>, text: Result<Bytes>) {
    match text
    case Ok(e) => r.Ok? && after == before + e
    case Err(f) => r == Err(f)
  }

  lemma ThenThen(a: Bytes, b: Bytes, r: Result<Bytes>)
    ensures Then(a, Then(b, r)) == Then(a + b, r)
  {
    if r.Ok? {
      assert a + (b + r.value) == a + b + r.value;
    }
  }

  lemma JoinAll(before: Bytes, comma: Bytes, text: Result<Bytes>, rest: Result<Bytes>)
    requires text.Ok?
    ensures Then(before, Then(comma, Join(text, rest))) == Then(before + comma + text.value, rest)
  {
    if rest.Ok? {
      assert before + (comma + (text.value + rest.value)) == before + comma + text.value + rest.value;
    }
  }

  /** A number between quotes is what its text is as a string. */
  lemma {:induction false} NumberQuoted(k: int)
    ensures StringText(NumText(k)) == "\"" + NumText(k) + "\""
  {
    PlainBody(NumText(k));
  }

  lemma {:induction false} PlainBody(s: Bytes)
    requires forall i :: 0 <= i < |s| ==> s[i] == '-' || '0' <= s[i] <= '9'
    ensures Body(s) == s + "\""
  {
    if s != [] {
      PlainBody(s[1..]);
      assert Escaped(s[0]) == [s[0]];
      assert s == [s[0]] + s[1..];
    }
  }

  /** `json_encode`. */
  method JsonEncode(c: Config, t: Tree) returns (r: Result<Bytes>)
    ensures r == Encode(c, t, 0)
  {
    var buffer := new Encoder();
    var done := buffer.AppendData(c, t, 0);
    assert Encode(c, t, 0).Ok? ==> buffer.json == Encode(c, t, 0).value;
    r := if done.Ok? then Ok(buffer.json) else Err(done.error);
  }

  // ----- UTF-8 -----

  /** `codepoint_to_utf8`. */
  function CodepointToUtf8(cp: nat): Bytes {
    if cp <= 0x7F then [cp as char]
    else if cp <= 0x7FF then [(cp / 0x40 + 0xC0) as char, (cp % 0x40 + 0x80) as char]
    else if cp <= 0xFFFF then
      [(cp / 0x1000 + 0xE0) as char, (cp / 0x40 % 0x40 + 0x80) as char, (cp % 0x40 + 0x80) as char]
    else if cp <= 0x1FFFFF then
      [(cp / 0x40000 + 0xF0) as char, (cp / 0x1000 % 0x40 + 0x80) as char,
       (cp / 0x40 % 0x40 + 0x80) as char, (cp % 0x40 + 0x80) as char]
    else []
  }

  predicate Tail(c: char, low: int := 0x80, high: int := 0xBF) {
    low <= c as int <= high
  }

  /** The syntax of UTF-8 byte sequences (section 4 of RFC 3629). */
  predicate Utf8Char(s: Bytes) {
    var b := if |s| > 0 then s[0] as int else 256;
    || (|s| == 1 && b <= 0x7F)
    || (|s| == 2 && 0xC2 <= b <= 0xDF && Tail(s[1]))
    || (|s| == 3 && b == 0xE0 && Tail(s[1], 0xA0) && Tail(s[2]))
    || (|s| == 3 && (0xE1 <= b <= 0xEC || 0xEE <= b <= 0xEF) && Tail(s[1]) && Tail(s[2]))
    || (|s| == 3 && b == 0xED && Tail(s[1], 0x80, 0x9F) && Tail(s[2]))
    || (|s| == 4 && b == 0xF0 && Tail(s[1], 0x90) && Tail(s[2]) && Tail(s[3]))
    || (|s| == 4 && 0xF1 <= b <= 0xF3 && Tail(s[1]) && Tail(s[2]) && Tail(s[3]))
    || (|s| == 4 && b == 0xF4 && Tail(s[1], 0x80, 0x8F) && Tail(s[2]) && Tail(s[3]))
  }

  /** The code point of a byte sequence: the bits x of section 3 of RFC 3629. */
  function CodepointOf(s: Bytes): int
    requires Utf8Char(s)
  {
    var b := seq(|s|, i requires 0 <= i < |s| => s[i] as int);
    if |s| == 1 then b[0]
    else if |s| == 2 then (b[0] - 0xC0) * 0x40 + (b[1] - 0x80)
    else if |s| == 3 then (b[0] - 0xE0) * 0x1000 + (b[1] - 0x80) * 0x40 + (b[2] - 0x80)
    else (b[0] - 0xF0) * 0x40000 + (b[1] - 0x80) * 0x1000 + (b[2] - 0x80) * 0x40 + (b[3] - 0x80)
  }

  /** A code point that is no surrogate. */
  predicate Scalar(cp: int) {
    0 <= cp < 0xD800 || 0xE000 <= cp <= 0x10FFFF
  }

  lemma ThreeBytes(cp: nat)
    requires 0x800 <= cp <= 0xFFFF && Scalar(cp)
    ensures Utf8Char(CodepointToUtf8(cp)) && CodepointOf(CodepointToUtf8(cp)) == cp
  {
    var a, b := cp / 0x1000, cp / 0x40 % 0x40;
    assert a * 0x40 + b == cp / 0x40;
  }

  lemma FourBytes(cp: nat)
    requires 0x10000 <= cp && Scalar(cp)
    ensures Utf8Char(CodepointToUtf8(cp)) && CodepointOf(CodepointToUtf8(cp)) == cp
  {
    var x := cp / 0x40;
    assert x / 0x40 == cp / 0x1000 && x / 0x1000 == cp / 0x40000;
    assert cp / 0x40000 * 0x40 + cp / 0x1000 % 0x40 == cp / 0x1000;
  }

  /** The bytes are well-formed UTF-8 and stand for the code point. */
  lemma Utf8Right(cp: nat)
    requires Scalar(cp)
    ensures Utf8Char(CodepointToUtf8(cp)) && CodepointOf(CodepointToUtf8(cp)) == cp
  {
    if cp > 0xFFFF {
      FourBytes(cp);
    } else if cp > 0x7FF {
      ThreeBytes(cp);
    }
  }

  // ----- reading characters -----

  /** A text ends with a zero byte. */
  function At(s: Bytes, p: nat): char
    requires p <= |s|
  {
    if p < |s| then s[p] else '\0'
  }

  predicate StartsWith(s: Bytes, p: nat, word: Bytes) {
    p + |word| <= |s| && s[p..p + |word|] == word
  }

  /** `hexdigit2int`. */
  function HexDigit2Int(c: char): (r: int)
    ensures -1 <= r < 16
  {
    var n := c as int;
    var low := if n / 0x20 % 2 == 1 then n else n + 0x20;
    if '0' <= c <= '9' then n - '0' as int
    else if 'a' as int <= low <= 'f' as int then 10 + low - 'a' as int
    else -1
  }

  /** Four hexadecimal digits from `p`, or -1: nothing is read past a character that is no digit. */
  function Hex4(s: Bytes, p: nat, i: nat := 0, value: nat := 0): (r: int)
    requires p + i <= |s| && i <= 4
    ensures r >= 0 ==> p + 4 <= |s|
    ensures value < Power16(i) ==> r < 0x10000
    decreases 4 - i
  {
    if i == 4 then value else
      var d := HexDigit2Int(At(s, p + i));
      if d < 0 then -1 else Hex4(s, p, i + 1, value * 16 + d)
  }

  function Power16(i: nat): nat {
    if i == 0 then 1 else if i == 1 then 0x10 else if i == 2 then 0x100 else if i == 3 then 0x1000 else 0x10000
  }

  datatype Escape = Unit(cp: nat, length: nat) | BadEscape

  /** The code point of the escape at `p` (section 7 of RFC 8259): one unit, or a surrogate pair. */
  function UnicodeEscape(s: Bytes, p: nat): (e: Escape)
    requires p + 2 <= |s|
    ensures e.Unit? ==> Scalar(e.cp) && p + e.length <= |s| && |CodepointToUtf8(e.cp)| <= e.length && e.length > 0
  {
    var unit := Hex4(s, p + 2);
    if unit < 0 then BadEscape
    else if !(0xD800 <= unit <= 0xDFFF) then Unit(unit, 6)
    else if unit >= 0xDC00 then BadEscape
    else if !StartsWith(s, p + 6, "\\u") then BadEscape
    else
      var low := Hex4(s, p + 8);
      if !(0xDC00 <= low <= 0xDFFF) then BadEscape
      else Unit((unit - 0xD800) * 0x400 + (low - 0xDC00) + 0x10000, 12)
  }

  /** `escape2char`. */
  function Escape2Char(c: char): char {
    if c == '"' || c == '\\' || c == '/' || c == 'u' then c
    else if c == 'b' then 8 as char
    else if c == 't' then '\t'
    else if c == 'n' then '\n'
    else if c == 'f' then 12 as char
    else if c == 'r' then '\r'
    else '\0'
  }

  /** The string read up to its closing quote, or why it cannot be read. */
  datatype Scan = Done(s: Bytes, next: nat) | Bad(message: string, at: nat)

  function Before(prefix: Bytes, r: Scan): Scan {
    if r.Done? then Done(prefix + r.s, r.next) else r
  }

  /** The string whose text continues at `p`; it is never longer than its text. */
  function StringBody(s: Bytes, p: nat): (r: Scan)
    requires p <= |s|
    ensures r.Done? ==> p < r.next <= |s| && |r.s| < r.next - p
    ensures r.Bad? ==> p <= r.at <= |s|
    decreases |s| - p
  {
    var ch := At(s, p);
    if ch == '"' then Done([], p + 1)
    else if ch == '\0' then Bad("unexpected end of string", p)
    else if ch == '\\' then
      var e := Escape2Char(At(s, p + 1));
      if e == 'u' then
        match UnicodeEscape(s, p) {
          case Unit(cp, length) => Before(CodepointToUtf8(cp), StringBody(s, p + length))
          case BadEscape => Bad("invalid unicode escape code", p)
        }
      else if e == '\0' then Bad("invalid escape code", p)
      else Before([e], StringBody(s, p + 2))
    else Before([ch], StringBody(s, p + 1))
  }

  lemma BeforeBefore(a: Bytes, b: Bytes, r: Scan)
    ensures Before(a, Before(b, r)) == Before(a + b, r)
  {
    if r.Done? {
      assert a + (b + r.s) == a + b + r.s;
    }
  }

  // ----- tokens -----

  datatype Token =
    | ObjBegin | ObjEnd | ArrBegin | ArrEnd | StringToken(s: Bytes) | Boolean(b: bool) | NullToken
    | Colon | CommaToken | End | Error(message: string)

  /** A token, where it starts (or where its error is), and where the text goes on. */
  datatype Lexed = Lexed(token: Token, index: nat, next: nat)

  predicate Ends(t: Token) {
    t.End? || t.Error?
  }

  predicate LexedIn(s: Bytes, p: nat, l: Lexed) {
    && p <= l.index <= |s| && l.next <= |s|
    && (!Ends(l.token) ==> l.index < l.next)
  }

  predicate White(c: char) {
    c == ' ' || c == '\t' || c == '\n' || c == '\r'
  }

  /** The tokens of one character. */
  function Single(c: char): Token {
    match c
    case '{' => ObjBegin
    case '}' => ObjEnd
    case '[' => ArrBegin
    case ']' => ArrEnd
    case ',' => CommaToken
    case ':' => Colon
    case '\0' => End
    case _ => Error("invalid token")
  }

  /** The token that starts with the quote at `p`. */
  function StringLexed(s: Bytes, p: nat): (l: Lexed)
    requires p < |s|
    ensures LexedIn(s, p, l)
  {
    match StringBody(s, p + 1)
    case Done(b, next) => Lexed(StringToken(b), p, next)
    case Bad(message, at) => Lexed(Error(message), at, at)
  }

  /** The next token. Numbers are not modelled, and are invalid here. */
  function TokenAt(s: Bytes, p: nat): (l: Lexed)
    requires p <= |s|
    ensures LexedIn(s, p, l)
    decreases |s| - p
  {
    var c := At(s, p);
    if White(c) then TokenAt(s, p + 1)
    else if c == '"' then StringLexed(s, p)
    else if StartsWith(s, p, "true") then Lexed(Boolean(true), p, p + 4)
    else if StartsWith(s, p, "false") then Lexed(Boolean(false), p, p + 5)
    else if StartsWith(s, p, "null") then Lexed(NullToken, p, p + 4)
    else if Ends(Single(c)) then Lexed(Single(c), p, p)
    else Lexed(Single(c), p, p + 1)
  }

  function FoundName(t: Token): string {
    match t
    case ObjBegin => "T_OBJ_BEGIN"
    case ObjEnd => "T_OBJ_END"
    case ArrBegin => "T_ARR_BEGIN"
    case ArrEnd => "T_ARR_END"
    case StringToken(_) => "T_STRING"
    case Boolean(_) => "T_BOOLEAN"
    case NullToken => "T_NULL"
    case Colon => "T_COLON"
    case CommaToken => "T_COMMA"
    case End => "T_END"
    case Error(message) => message
  }

  function ParseError(what: string, l: Lexed): Failure {
    Expected(what, FoundName(l.token), l.index + 1)
  }

  // ----- the grammar -----

  datatype Parsed = Parsed(value: Value, next: nat)

  /** The value whose first token was read. */
  function ValueAt(c: Config, s: Bytes, l: Lexed, depth: nat): (r: Result<Parsed>)
    requires LexedIn(s, 0, l)
    ensures r.Ok? ==> l.index < l.next <= r.value.next <= |s|
    decreases |s| - l.index, 0
  {
    match l.token
    case StringToken(b) => Ok(Parsed(Str(b), l.next))
    case Boolean(b) => Ok(Parsed(Bool(b), l.next))
    case NullToken => Ok(Parsed(Null, l.next))
    case ObjBegin => ObjectAt(c, s, l.next, depth)
    case ArrBegin => ArrayAt(c, s, l.next, depth)
    case _ => Err(ParseError("value", l))
  }

  function ObjectAt(c: Config, s: Bytes, p: nat, depth: nat): (r: Result<Parsed>)
    requires p <= |s|
    ensures r.Ok? ==> p <= r.value.next <= |s|
    decreases |s| - p, 2
  {
    if depth + 1 > c.decodeMax then Err(TooDeep(depth + 1, p)) else
      var l := TokenAt(s, p);
      if l.token.ObjEnd? then Ok(Parsed(Table(map[]), l.next)) else ObjectLoop(c, s, l, depth + 1, map[])
  }

  /** The fields from the one whose first token was read. */
  function ObjectLoop(c: Config, s: Bytes, l: Lexed, depth: nat, m: map<Key, Value>): (r: Result<Parsed>)
    requires LexedIn(s, 0, l)
    ensures r.Ok? ==> l.index <= r.value.next <= |s|
    decreases |s| - l.index, 1
  {
    if !l.token.StringToken? then Err(ParseError("object key string", l)) else
      var colon := TokenAt(s, l.next);
      if !colon.token.Colon? then Err(ParseError("colon", colon)) else
        match ValueAt(c, s, TokenAt(s, colon.next), depth)
        case Err(e) => Err(e)
        case Ok(v) =>
          var m1 := m[Name(l.token.s) := v.value];
          var after := TokenAt(s, v.next);
          if after.token.ObjEnd? then Ok(Parsed(Table(m1), after.next))
          else if !after.token.CommaToken? then Err(ParseError("comma or object end", after))
          else ObjectLoop(c, s, TokenAt(s, after.next), depth, m1)
  }

  function ArrayAt(c: Config, s: Bytes, p: nat, depth: nat): (r: Result<Parsed>)
    requires p <= |s|
    ensures r.Ok? ==> p <= r.value.next <= |s|
    decreases |s| - p, 2
  {
    if depth + 1 > c.decodeMax then Err(TooDeep(depth + 1, p)) else
      var l := TokenAt(s, p);
      if l.token.ArrEnd? then Ok(Parsed(Table(map[]), l.next)) else ArrayLoop(c, s, l, depth + 1, map[], 1)
  }

  /** The items from the `i`-th, whose first token was read. */
  function ArrayLoop(c: Config, s: Bytes, l: Lexed, depth: nat, m: map<Key, Value>, i: nat): (r: Result<Parsed>)
    requires LexedIn(s, 0, l)
    ensures r.Ok? ==> l.index <= r.value.next <= |s|
    decreases |s| - l.index, 1
  {
    match ValueAt(c, s, l, depth)
    case Err(e) => Err(e)
    case Ok(v) =>
      var m1 := m[Index(i) := v.value];
      var after := TokenAt(s, v.next);
      if after.token.ArrEnd? then Ok(Parsed(Table(m1), after.next))
      else if !after.token.CommaToken? then Err(ParseError("comma or array end", after))
      else ArrayLoop(c, s, TokenAt(s, after.next), depth, m1, i + 1)
  }

  predicate UsesWideCharacters(s: Bytes) {
    |s| >= 2 && (s[0] == '\0' || s[1] == '\0')
  }

  function Decode(c: Config, s: Bytes): Result<Value> {
    if UsesWideCharacters(s) then Err(Wide) else
      match ValueAt(c, s, TokenAt(s, 0), 0)
      case Err(e) => Err(e)
      case Ok(v) =>
        var last := TokenAt(s, v.next);
        if last.token.End? then Ok(v.value) else Err(ParseError("the end", last))
  }

  /** The parser: a pointer into the text, the temporary buffer, which holds as much as the text, and the depth. */
  class JsonParse {
    const data: Bytes
    const c: Config
    const tmp: array<char>
    var ptr: nat
    var length: nat
    var depth: nat

    constructor (c: Config, data: Bytes)
      ensures this.c == c && this.data == data && ptr == 0 && depth == 0 && Valid() && fresh(tmp)
    {
      this.c, this.data, ptr, depth, length := c, data, 0, 0, 0;
      tmp := new char[|data| + 1];
    }

    predicate Valid()
      reads this
    {
      ptr <= |data| && length < tmp.Length && tmp.Length == |data| + 1
    }

    /** `decode_hex4`. */
    method DecodeHex4(p: nat) returns (r: int)
      requires p <= |data|
      ensures r == Hex4(data, p)
    {
      var i: nat := 0;
      var value: nat := 0;
      while i < 4
        invariant i <= 4 && p + i <= |data| && value < Power16(i)
        invariant Hex4(data, p) == Hex4(data, p, i, value)
      {
        var d := HexDigit2Int(At(data, p + i));
        if d < 0 {
          return -1;
        }
        i, value := i + 1, value * 16 + d;
      }
      r := value;
    }

    /** `strbuf_append_mem_unsafe`: there is no check that the buffer has room. */
    method AppendUnsafe(b: Bytes)
      requires length + |b| < tmp.Length
      modifies this`length, tmp
      ensures length == old(length) + |b| && tmp[..length] == old(tmp[..length]) + b
    {
      ghost var was := tmp[..length];
      var i := 0;
      while i < |b|
        invariant 0 <= i <= |b| && length == old(length)
        invariant tmp[..length + i] == was + b[..i]
      {
        tmp[length + i] := b[i];
        assert b[..i + 1] == b[..i] + [b[i]];
        assert tmp[..length + i + 1] == tmp[..length + i] + [b[i]];
        i := i + 1;
      }
      assert b[..i] == b;
      length := length + |b|;
    }

    /** `json_append_unicode_escape`: appends the UTF-8 of the escape, or fails with nothing done. */
    method AppendUnicodeEscape() returns (ok: bool)
      requires Valid() && ptr + 2 <= |data|
      requires length < ptr
      modifies this`ptr, this`length, tmp
      ensures Valid() && (old(length) < old(ptr) ==> length < ptr)
      ensures var e := UnicodeEscape(data, old(ptr));
        && ok == e.Unit?
        && (ok ==> ptr == old(ptr) + e.length && tmp[..length] == old(tmp[..length]) + CodepointToUtf8(e.cp))
        && (!ok ==> ptr == old(ptr))
    {
      ghost var e := UnicodeEscape(data, ptr);
      var codepoint := DecodeHex4(ptr + 2);
      var escape := 6;
      if codepoint < 0 {
        return false;
      }
      if 0xD800 <= codepoint <= 0xDFFF {
        if codepoint >= 0xDC00 || !StartsWith(data, ptr + 6, "\\u") {
          return false;
        }
        var low := DecodeHex4(ptr + 8);
        if !(0xDC00 <= low <= 0xDFFF) {
          return false;
        }
        codepoint, escape := (codepoint - 0xD800) * 0x400 + (low - 0xDC00) + 0x10000, 12;
      }
      assert e == Unit(codepoint, escape);
      AppendUnsafe(CodepointToUtf8(codepoint));
      ptr := ptr + escape;
      ok := true;
    }

    /** The part of `json_next_string_token` for a backslash: `x` is appended, or `bad` says what is wrong. */
    method AppendEscape() returns (bad: string, ghost x: Bytes)
      requires Valid() && ptr < |data| && data[ptr] == '\\' && length < ptr
      modifies this`ptr, this`length, tmp
      ensures Valid() && length < ptr && old(ptr) <= ptr
      ensures bad != "" ==> StringBody(data, old(ptr)) == Bad(bad, ptr)
      ensures bad == "" ==> ptr > old(ptr) && tmp[..length] == old(tmp[..length]) + x
      ensures bad == "" ==> StringBody(data, old(ptr)) == Before(x, StringBody(data, ptr))
    {
      hide UnicodeEscape, CodepointToUtf8;
      var ch := Escape2Char(At(data, ptr + 1));
      x := [ch];
      if ch == 'u' {
        x := if UnicodeEscape(data, ptr).Unit? then CodepointToUtf8(UnicodeEscape(data, ptr).cp) else [];
        var ok := AppendUnicodeEscape();
        bad := if ok then "" else "invalid unicode escape code";
      } else if ch == '\0' {
        bad := "invalid escape code";
      } else {
        bad, ptr := "", ptr + 1;
        AppendUnsafe([ch]);
        ptr := ptr + 1;
      }
    }

    /** `json_next_string_token`, from the quote on. */
    method NextStringToken() returns (l: Lexed)
      requires Valid() && ptr < |data| && data[ptr] == '"'
      modifies this`ptr, this`length, tmp
      ensures Valid() && l.next == ptr
      ensures l == StringLexed(data, old(ptr))
    {
      var index := ptr;
      ghost var scan := StringBody(data, ptr + 1);
      ptr, length := ptr + 1, 0;
      assert tmp[..0] + (if scan.Done? then scan.s else []) == if scan.Done? then scan.s else [];
      while At(data, ptr) != '"'
        invariant Valid() && length < ptr
        invariant scan == Before(tmp[..length], StringBody(data, ptr))
        decreases |data| - ptr
      {
        ghost var sofar, x := tmp[..length], [];
        var ch := At(data, ptr);
        if ch == '\0' {
          return Lexed(Error("unexpected end of string"), ptr, ptr);
        }
        if ch == '\\' {
          var bad;
          bad, x := AppendEscape();
          if bad != "" {
            return Lexed(Error(bad), ptr, ptr);
          }
        } else {
          AppendUnsafe([ch]);
          ptr, x := ptr + 1, [ch];
        }
        BeforeBefore(sofar, x, StringBody(data, ptr));
      }
      ptr := ptr + 1;
      assert tmp[..length] + [] == tmp[..length];
      tmp[length] := '\0';
      l := Lexed(StringToken(tmp[..length]), index, ptr);
    }

    /** `json_next_token`. */
    method NextToken() returns (l: Lexed)
      requires Valid()
      modifies this`ptr, this`length, tmp
      ensures Valid() && l == TokenAt(data, old(ptr)) && ptr == l.next
    {
      while White(At(data, ptr))
        invariant Valid() && TokenAt(data, old(ptr)) == TokenAt(data, ptr)
        decreases |data| - ptr
      {
        ptr := ptr + 1;
      }
      var ch := At(data, ptr);
      var index := ptr;
      if ch == '"' {
        l := NextStringToken();
        return;
      }
      var token := Single(ch);
      if StartsWith(data, ptr, "true") {
        token, ptr := Boolean(true), ptr + 4;
      } else if StartsWith(data, ptr, "false") {
        token, ptr := Boolean(false), ptr + 5;
      } else if StartsWith(data, ptr, "null") {
        token, ptr := NullToken, ptr + 4;
      } else if !Ends(token) {
        ptr := ptr + 1;
      }
      l := Lexed(token, index, ptr);
    }

    /** What a parsing method does: the value and the new pointer, or the failure, are the grammar's. */
    ghost predicate Does(r: Result<Value>, spec: Result<Parsed>, before: nat)
      reads this
    {
      match spec
      case Ok(v) => r == Ok(v.value) && ptr == v.next && depth == before
      case Err(e) => r == Err(e)
    }

    /** `json_process_value`. */
    method ProcessValue(l: Lexed) returns (r: Result<Value>)
      requires Valid() && LexedIn(data, 0, l) && ptr == l.next
      modifies this`ptr, this`length, this`depth, tmp
      ensures Valid() && Does(r, ValueAt(c, data, l, old(depth)), old(depth))
      decreases |data| - l.index, 0
    {
      match l.token {
        case StringToken(b) => r := Ok(Str(b));
        case Boolean(b) => r := Ok(Bool(b));
        case NullToken => r := Ok(Null);
        case ObjBegin => r := ParseObject();
        case ArrBegin => r := ParseArray();
        case _ => r := Err(ParseError("value", l));
      }
    }

    /** `json_parse_object_context`. */
    method ParseObject() returns (r: Result<Value>)
      requires Valid()
      modifies this`ptr, this`length, this`depth, tmp
      ensures Valid() && Does(r, ObjectAt(c, data, old(ptr), old(depth)), old(depth))
      decreases |data| - ptr, 1
    {
      ghost var spec := ObjectAt(c, data, ptr, depth);
      depth := depth + 1;
      if depth > c.decodeMax {
        return Err(TooDeep(depth, ptr));
      }
      var m: map<Key, Value> := map[];
      var l := NextToken();
      if l.token.ObjEnd? {
        depth := depth - 1;
        return Ok(Table(m));
      }
      while true
        invariant Valid() && LexedIn(data, old(ptr), l) && depth == old(depth) + 1 && ptr == l.next
        invariant spec == ObjectLoop(c, data, l, depth, m)
        decreases |data| - l.index
      {
        if !l.token.StringToken? {
          return Err(ParseError("object key string", l));
        }
        var key := l.token.s;
        var colon := NextToken();
        if !colon.token.Colon? {
          return Err(ParseError("colon", colon));
        }
        var first := NextToken();
        r := ProcessValue(first);
        if r.Err? {
          return;
        }
        m := m[Name(key) := r.value];
        var after := NextToken();
        if after.token.ObjEnd? {
          depth := depth - 1;
          return Ok(Table(m));
        }
        if !after.token.CommaToken? {
          return Err(ParseError("comma or object end", after));
        }
        l := NextToken();
      }
    }

    /** `json_parse_array_context`. */
    method ParseArray() returns (r: Result<Value>)
      requires Valid()
      modifies this`ptr, this`length, this`depth, tmp
      ensures Valid() && Does(r, ArrayAt(c, data, old(ptr), old(depth)), old(depth))
      decreases |data| - ptr, 1
    {
      ghost var spec := ArrayAt(c, data, ptr, depth);
      depth := depth + 1;
      if depth > c.decodeMax {
        return Err(TooDeep(depth, ptr));
      }
      var m: map<Key, Value> := map[];
      var l := NextToken();
      if l.token.ArrEnd? {
        depth := depth - 1;
        return Ok(Table(m));
      }
      var i: nat := 1;
      while true
        invariant Valid() && LexedIn(data, old(ptr), l) && depth == old(depth) + 1 && ptr == l.next
        invariant spec == ArrayLoop(c, data, l, depth, m, i)
        decreases |data| - l.index
      {
        r := ProcessValue(l);
        if r.Err? {
          return;
        }
        m := m[Index(i) := r.value];
        var after := NextToken();
        if after.token.ArrEnd? {
          depth := depth - 1;
          return Ok(Table(m));
        }
        if !after.token.CommaToken? {
          return Err(ParseError("comma or array end", after));
        }
        l := NextToken();
        i := i + 1;
      }
    }
  }

  /** `json_decode`. */
  method JsonDecode(c: Config, s: Bytes) returns (r: Result<Value>)
    ensures r == Decode(c, s)
  {
    if UsesWideCharacters(s) {
      return Err(Wide);
    }
    var json := new JsonParse(c, s);
    var l := json.NextToken();
    r := json.ProcessValue(l);
    if r.Err? {
      return;
    }
    var last := json.NextToken();
    if !last.token.End? {
      r := Err(ParseError("the end", last));
    }
  }

  // ----- decoding what was encoded -----

  /** Whether a value fits into the parser's depth. */
  predicate Fits(max: nat, t: Tree, depth: nat) {
    t.TTable? ==>
      && depth + 1 <= max
      && forall j :: 0 <= j < |t.fields| ==> Fits(max, t.fields[j].value, depth + 1)
  }

  /** What comes back for a tree that was written. */
  ghost function Returned(c: Config, t: Tree): Value
    decreases t, 2, 0
  {
    match t
    case TNil => Null
    case TNull => Null
    case TBool(b) => Bool(b)
    case TStr(s) => Str(s)
    case TAlien => Alien
    case TTable(fields) =>
      var n := ArrayLength(c, fields);
      if n.Ok? && n.value > 0 then Table(ReturnedItems(c, t, n.value)) else Table(ReturnedFields(c, t, |fields|))
  }

  ghost function ReturnedItem(c: Config, t: Tree, i: nat): Value
    requires t.TTable?
    decreases t, 0, 0
  {
    var j := Find(t.fields, Index(i));
    if j < 0 then Null else Returned(c, t.fields[j].value)
  }

  ghost function ReturnedItems(c: Config, t: Tree, n: nat): map<Key, Value>
    requires t.TTable?
    decreases t, 1, n
  {
    if n == 0 then map[] else ReturnedItems(c, t, n - 1)[Index(n) := ReturnedItem(c, t, n)]
  }

  ghost function ReturnedFields(c: Config, t: Tree, n: nat): map<Key, Value>
    requires t.TTable? && n <= |t.fields|
    decreases t, 1, n
  {
    if n == 0 then map[]
    else ReturnedFields(c, t, n - 1)[Name(KeyName(t.fields[n - 1].key)) := Returned(c, t.fields[n - 1].value)]
  }

  lemma Parts(s: Bytes, p: nat, a: Bytes, b: Bytes)
    ensures StartsWith(s, p, a + b) <==> StartsWith(s, p, a) && StartsWith(s, p + |a|, b)
    ensures StartsWith(s, p, a) ==> p + |a| <= |s|
  {
    if p + |a + b| <= |s| {
      var u := s[p..p + |a + b|];
      assert u[..|a|] == s[p..p + |a|] && u[|a|..] == s[p + |a|..p + |a + b|] && u == u[..|a|] + u[|a|..];
      assert (a + b)[..|a|] == a && (a + b)[|a|..] == b;
    }
  }

  lemma HexBack(n: nat)
    requires n < 16
    ensures HexDigit2Int(HexDigit(n)) == n
  {
    assert n < 10 ==> HexDigit(n) == (n + '0' as int) as char;
    assert n >= 10 ==> HexDigit(n) == (n - 10 + 'a' as int) as char;
  }

  function Hex4Text(u: nat): Bytes
    requires u < 0x10000
  {
    [HexDigit(u / 0x1000), HexDigit(u / 0x100 % 16), HexDigit(u / 0x10 % 16), HexDigit(u % 16)]
  }

  lemma Hex4Digits(s: Bytes, p: nat, d0: nat, d1: nat, d2: nat, d3: nat)
    requires p + 4 <= |s|
    requires HexDigit2Int(s[p]) == d0 && HexDigit2Int(s[p + 1]) == d1
    requires HexDigit2Int(s[p + 2]) == d2 && HexDigit2Int(s[p + 3]) == d3
    ensures Hex4(s, p) == ((d0 * 16 + d1) * 16 + d2) * 16 + d3
  {
    hide HexDigit2Int;
    var v1 := d0 * 16 + d1;
    var v2 := v1 * 16 + d2;
    assert Hex4(s, p, 3, v2) == Hex4(s, p, 4, v2 * 16 + d3);
    assert Hex4(s, p, 2, v1) == Hex4(s, p, 3, v2);
    assert Hex4(s, p, 1, d0) == Hex4(s, p, 2, v1);
  }

  lemma Hex4Value(u: nat)
    requires u < 0x10000
    ensures ((u / 0x1000 * 16 + u / 0x100 % 16) * 16 + u / 0x10 % 16) * 16 + u % 16 == u
  {
    assert u / 0x10 / 16 == u / 0x100 && u / 0x100 / 16 == u / 0x1000;
  }

  lemma Hex4Back(s: Bytes, p: nat, u: nat)
    requires u < 0x10000 && StartsWith(s, p, Hex4Text(u))
    ensures Hex4(s, p) == u
  {
    hide Hex4, HexDigit2Int, HexDigit;
    var e, t := Hex4Text(u), s[p..p + 4];
    assert s[p] == t[0] == e[0] && s[p + 1] == t[1] == e[1] && s[p + 2] == t[2] == e[2] && s[p + 3] == t[3] == e[3];
    HexBack(u / 0x1000);
    HexBack(u / 0x100 % 16);
    HexBack(u / 0x10 % 16);
    HexBack(u % 16);
    Hex4Digits(s, p, u / 0x1000, u / 0x100 % 16, u / 0x10 % 16, u % 16);
    Hex4Value(u);
  }

  /** The escape of a code point: one unit, or the surrogate pair of its UTF-16 form (section 7 of RFC 8259). */
  function EscapeOf(cp: nat): Bytes
    requires Scalar(cp)
  {
    if cp < 0x10000 then "\\u" + Hex4Text(cp)
    else
      "\\u" + Hex4Text(0xD800 + (cp - 0x10000) / 0x400) + ("\\u" + Hex4Text(0xDC00 + (cp - 0x10000) % 0x400))
  }

  /** Every code point is read back from its escape. */
  lemma EscapeBack(s: Bytes, p: nat, cp: nat)
    requires Scalar(cp) && StartsWith(s, p, EscapeOf(cp))
    ensures UnicodeEscape(s, p) == Unit(cp, |EscapeOf(cp)|)
  {
    hide StartsWith, Hex4, Hex4Text, CodepointToUtf8;
    if cp < 0x10000 {
      Parts(s, p, "\\u", Hex4Text(cp));
      HexLength(cp);
      Hex4Back(s, p + 2, cp);
    } else {
      var high, low := 0xD800 + (cp - 0x10000) / 0x400, 0xDC00 + (cp - 0x10000) % 0x400;
      Parts(s, p, "\\u" + Hex4Text(high), "\\u" + Hex4Text(low));
      Parts(s, p, "\\u", Hex4Text(high));
      Parts(s, p + 2 + |Hex4Text(high)|, "\\u", Hex4Text(low));
      HexLength(high);
      HexLength(low);
      Hex4Back(s, p + 2, high);
      Hex4Back(s, p + 8, low);
    }
  }

  lemma HexLength(u: nat)
    requires u < 0x10000
    ensures |Hex4Text(u)| == 4
  {
  }

  /** The escape of a control character is read as the character. */
  lemma ControlBack(s: Bytes, p: nat, n: nat)
    requires n < 128 && StartsWith(s, p, "\\u00" + [HexDigit(n / 16), HexDigit(n % 16)])
    ensures UnicodeEscape(s, p) == Unit(n, 6)
  {
    assert EscapeOf(n) == "\\u00" + [HexDigit(n / 16), HexDigit(n % 16)];
    EscapeBack(s, p, n);
  }

  /** The text of a character is read as the character. */
  lemma CharBack(s: Bytes, p: nat, c: char)
    requires StartsWith(s, p, Escaped(c))
    ensures StringBody(s, p) == Before([c], StringBody(s, p + |Escaped(c)|))
  {
    var e := Escaped(c);
    assert s[p] == s[p..p + |e|][0] == e[0];
    if |e| == 6 {
      assert s[p + 1] == s[p..p + |e|][1] == 'u';
      ControlBack(s, p, c as int);
      ReadControl(s, p, c);
    } else if |e| == 2 {
      assert s[p + 1] == s[p..p + |e|][1] == e[1];
      ReadEscape(s, p, c);
    }
  }

  lemma ReadControl(s: Bytes, p: nat, c: char)
    requires p + 6 <= |s| && s[p] == '\\' && s[p + 1] == 'u' && UnicodeEscape(s, p) == Unit(c as int, 6)
    requires c as int < 128
    ensures StringBody(s, p) == Before([c], StringBody(s, p + 6))
  {
    hide UnicodeEscape;
  }

  lemma ReadEscape(s: Bytes, p: nat, c: char)
    requires p + 2 <= |s| && s[p] == '\\' && |Escaped(c)| == 2 && s[p + 1] == Escaped(c)[1]
    ensures StringBody(s, p) == Before([c], StringBody(s, p + 2))
  {
    hide UnicodeEscape;
    assert Escape2Char(s[p + 1]) == c;
  }

  lemma BodyEnd(s: Bytes, p: nat)
    requires StartsWith(s, p, "\"")
    ensures StringBody(s, p) == Done([], p + 1)
  {
    assert s[p] == s[p..p + 1][0];
  }

  lemma {:induction false} BodyBack(s: Bytes, p: nat, b: Bytes)
    requires StartsWith(s, p, Body(b))
    ensures StringBody(s, p) == Done(b, p + |Body(b)|)
    decreases b
  {
    hide Escaped, StartsWith, Escape2Char, UnicodeEscape, StringBody;
    if b == [] {
      BodyEnd(s, p);
    } else {
      Parts(s, p, Escaped(b[0]), Body(b[1..]));
      CharBack(s, p, b[0]);
      BodyBack(s, p + |Escaped(b[0])|, b[1..]);
      assert b == [b[0]] + b[1..];
    }
  }

  /** Any byte string is read back from its text. */
  lemma StringBack(s: Bytes, p: nat, b: Bytes)
    requires StartsWith(s, p, StringText(b))
    ensures TokenAt(s, p) == Lexed(StringToken(b), p, p + |StringText(b)|)
  {
    Parts(s, p, "\"", Body(b));
    assert s[p] == s[p..p + 1][0];
    BodyBack(s, p + 1, b);
  }

  lemma OtherWord(s: Bytes, p: nat, w: Bytes)
    requires p < |s| && |w| > 0 && s[p] != w[0]
    ensures !StartsWith(s, p, w)
  {
    assert p + |w| <= |s| ==> s[p..p + |w|][0] == s[p];
  }

  lemma SingleBack(s: Bytes, p: nat, c: char)
    requires StartsWith(s, p, [c]) && !Ends(Single(c))
    ensures TokenAt(s, p) == Lexed(Single(c), p, p + 1)
  {
    assert s[p] == s[p..p + 1][0] == c;
    OtherWord(s, p, "true");
    OtherWord(s, p, "false");
    OtherWord(s, p, "null");
  }

  lemma WordBack(s: Bytes, p: nat)
    ensures StartsWith(s, p, "true") ==> TokenAt(s, p) == Lexed(Boolean(true), p, p + 4)
    ensures StartsWith(s, p, "false") ==> TokenAt(s, p) == Lexed(Boolean(false), p, p + 5)
    ensures StartsWith(s, p, "null") ==> TokenAt(s, p) == Lexed(NullToken, p, p + 4)
  {
    assert StartsWith(s, p, "true") ==> s[p] == s[p..p + 4][0];
    assert StartsWith(s, p, "false") ==> s[p] == s[p..p + 5][0];
    assert StartsWith(s, p, "null") ==> s[p] == s[p..p + 4][0];
  }

  /** The token that starts a value at `p` is no closing one, and the value is read as the tree's, if it fits. */
  ghost predicate Back(c: Config, s: Bytes, p: nat, depth: nat, fits: bool, value: Value, next: nat)
    requires p <= |s|
  {
    var l := TokenAt(s, p);
    && !l.token.ArrEnd?
    && (fits ==> ValueAt(c, s, l, depth) == Ok(Parsed(value, next)))
    && (!fits ==> ValueAt(c, s, l, depth).Err?)
  }

  predicate FitsItem(max: nat, t: Tree, i: nat, depth: nat)
    requires t.TTable?
  {
    var j := Find(t.fields, Index(i));
    j >= 0 ==> Fits(max, t.fields[j].value, depth)
  }

  lemma {:induction false} MaxBounds(fields: seq<Field>, n: nat, j: nat)
    requires j < n <= |fields| && AllPositive(fields)
    ensures 1 <= fields[j].key.i <= MaxIndex(fields, n)
  {
    assert Positive(fields[j].key) && Positive(fields[n - 1].key);
    if j < n - 1 {
      MaxBounds(fields, n - 1, j);
    }
  }

  /** In an array every field is an item: its key is an index up to the length. */
  lemma FieldIsItem(c: Config, t: Tree, j: nat, depth: nat)
    requires t.TTable? && Distinct(t.fields) && j < |t.fields|
    requires ArrayLength(c, t.fields).Ok? && ArrayLength(c, t.fields).value > 0
    ensures var f := t.fields[j];
      && f.key.Index? && 1 <= f.key.i <= ArrayLength(c, t.fields).value && Find(t.fields, f.key) == j
      && ItemText(c, t, f.key.i, depth) == Encode(c, f.value, depth)
      && ReturnedItem(c, t, f.key.i) == Returned(c, f.value)
  {
    hide Encode, Returned;
    MaxBounds(t.fields, |t.fields|, j);
    assert Find(t.fields, t.fields[j].key) == j;
  }

  lemma ItemsAreFields(c: Config, t: Tree, depth: nat)
    requires Proper(t) && t.TTable? && ArrayLength(c, t.fields).Ok? && ArrayLength(c, t.fields).value > 0
    ensures (forall j :: 0 <= j < |t.fields| ==> Fits(c.decodeMax, t.fields[j].value, depth)) <==>
      forall i: nat :: 1 <= i <= ArrayLength(c, t.fields).value ==> FitsItem(c.decodeMax, t, i, depth)
  {
    hide Proper, ArrayLength;
    var n := ArrayLength(c, t.fields).value;
    ProperKeys(t);
    forall j | 0 <= j < |t.fields|
      ensures t.fields[j].key.Index?
      ensures var i := t.fields[j].key.i;
        1 <= i <= n && (FitsItem(c.decodeMax, t, i, depth) <==> Fits(c.decodeMax, t.fields[j].value, depth))
    {
      FieldIsItem(c, t, j, depth);
    }
  }

  lemma ProperKeys(t: Tree)
    requires Proper(t) && t.TTable?
    ensures Distinct(t.fields)
  {
  }

  lemma ProperField(t: Tree, j: nat)
    requires Proper(t) && t.TTable? && j < |t.fields|
    ensures Proper(t.fields[j].value)
  {
  }

  /** Parsing the text of a tree gives the tree's value and stops after the text, exactly when it is not too deep. */
  lemma {:induction false} ReadBack(c: Config, t: Tree, depth: nat, s: Bytes, p: nat, e: Bytes)
    requires Proper(t) && Encode(c, t, depth) == Ok(e) && StartsWith(s, p, e)
    ensures Back(c, s, p, depth, Fits(c.decodeMax, t, depth), Returned(c, t), p + |e|)
    decreases t, 3, 0
  {
    match t {
      case TStr(b) => StringBack(s, p, b);
      case TBool(b) => WordBack(s, p);
      case TNil => WordBack(s, p);
      case TNull => WordBack(s, p);
      case TTable(fields) => TableBack(c, t, depth, s, p, e);
      case TAlien =>
    }
  }

  lemma {:induction false} TableBack(c: Config, t: Tree, depth: nat, s: Bytes, p: nat, e: Bytes)
    requires Proper(t) && t.TTable? && Encode(c, t, depth) == Ok(e) && StartsWith(s, p, e)
    ensures Back(c, s, p, depth, Fits(c.decodeMax, t, depth), Returned(c, t), p + |e|)
    decreases t, 2, 0
  {
    hide TokenAt, ObjectLoop, ArrayLoop, EncodeItems, EncodeFields, ReturnedItem, StartsWith, FitsItem, Find, Proper,
      ArrayLength;
    var n, d := ArrayLength(c, t.fields).value, depth + 1;
    if n > 0 {
      var items := EncodeItems(c, t, 1, n, d).value;
      Parts(s, p, "[", items);
      SingleBack(s, p, '[');
      ItemsAreFields(c, t, d);
      ItemsBack(c, t, 1, n, d, s, p + 1, items);
      assert ValueAt(c, s, TokenAt(s, p), depth) == ArrayAt(c, s, p + 1, depth);
      assert ReturnedItems(c, t, 0) == map[];
    } else {
      var fields := EncodeFields(c, t, 0, d).value;
      Parts(s, p, "{", fields);
      SingleBack(s, p, '{');
      FieldsBack(c, t, 0, d, s, p + 1, fields);
      assert ValueAt(c, s, TokenAt(s, p), depth) == ObjectAt(c, s, p + 1, depth);
      assert ReturnedFields(c, t, 0) == map[];
    }
    assert Fits(c.decodeMax, t, depth) <==>
      d <= c.decodeMax && forall j :: 0 <= j < |t.fields| ==> Fits(c.decodeMax, t.fields[j].value, d);
  }

  lemma {:induction false} ItemBack(c: Config, t: Tree, i: nat, depth: nat, s: Bytes, p: nat, e: Bytes)
    requires Proper(t) && t.TTable? && ItemText(c, t, i, depth) == Ok(e) && StartsWith(s, p, e)
    ensures Back(c, s, p, depth, FitsItem(c.decodeMax, t, i, depth), ReturnedItem(c, t, i), p + |e|)
    decreases t, 0, 0
  {
    var j := Find(t.fields, Index(i));
    if j < 0 {
      WordBack(s, p);
    } else {
      ReadBack(c, t.fields[j].value, depth, s, p, e);
    }
  }

  /** The parser's loop over the items from `i`, whose text (with the comma before it) is at `p`. */
  lemma {:induction false} ItemsBack(c: Config, t: Tree, i: nat, n: nat, depth: nat, s: Bytes, p: nat, e: Bytes)
    requires Proper(t) && t.TTable? && 1 <= i <= n
    requires EncodeItems(c, t, i, n, depth) == Ok(e) && StartsWith(s, p, e)
    ensures var q := p + |Comma(i > 1)|;
      && q <= |s| && !TokenAt(s, q).token.ArrEnd?
      && var r := ArrayLoop(c, s, TokenAt(s, q), depth, ReturnedItems(c, t, i - 1), i);
         if forall k: nat :: i <= k <= n ==> FitsItem(c.decodeMax, t, k, depth)
         then r == Ok(Parsed(Table(ReturnedItems(c, t, n)), p + |e|)) else r.Err?
    decreases t, 1, n - i
  {
    hide ValueAt, ObjectAt, ObjectLoop, ArrayAt, TokenAt, Encode, EncodeFields, FieldText, ItemText, StartsWith, Fits,
      FitsItem,
      Find, Returned, ReturnedFields, ReturnedItem, Proper;
    var comma, q := Comma(i > 1), p + |Comma(i > 1)|;
    var text, rest := ItemText(c, t, i, depth).value, EncodeItems(c, t, i + 1, n, depth).value;
    Parts(s, p, comma, text + rest);
    Parts(s, q, text, rest);
    ItemBack(c, t, i, depth, s, q, text);
    var next := q + |text|;
    if FitsItem(c.decodeMax, t, i, depth) {
      if i == n {
        SingleBack(s, next, ']');
      } else {
        ItemsBack(c, t, i + 1, n, depth, s, next, rest);
        assert rest[0] == ',';
        Parts(s, next, ",", rest[1..]);
        assert "," + rest[1..] == rest;
        SingleBack(s, next, ',');
      }
    }
  }

  /** The parser's loop over the fields from the `j`-th, whose text (with the comma before it) is at `p`. */
  lemma {:induction false} FieldsBack(c: Config, t: Tree, j: nat, depth: nat, s: Bytes, p: nat, e: Bytes)
    requires Proper(t) && t.TTable? && j <= |t.fields|
    requires EncodeFields(c, t, j, depth) == Ok(e) && StartsWith(s, p, e)
    ensures j == |t.fields| ==> TokenAt(s, p) == Lexed(ObjEnd, p, p + |e|)
    ensures j < |t.fields| ==>
      var q := p + |Comma(j > 0)|;
      && q <= |s| && !TokenAt(s, q).token.ObjEnd?
      && var r := ObjectLoop(c, s, TokenAt(s, q), depth, ReturnedFields(c, t, j));
         if forall k :: j <= k < |t.fields| ==> Fits(c.decodeMax, t.fields[k].value, depth)
         then r == Ok(Parsed(Table(ReturnedFields(c, t, |t.fields|)), p + |e|)) else r.Err?
    decreases t, 1, |t.fields| - j
  {
    hide ValueAt, ObjectAt, ArrayLoop, ArrayAt, TokenAt, Encode, EncodeItems, ItemText, StartsWith, Fits, FitsItem,
      StringText,
      Find, Returned, ReturnedItems, ReturnedItem, Proper, KeyName;
    if j == |t.fields| {
      SingleBack(s, p, '}');
    } else {
      var f, comma, q := t.fields[j], Comma(j > 0), p + |Comma(j > 0)|;
      var name, text := StringText(KeyName(f.key)), Encode(c, f.value, depth).value;
      var rest := EncodeFields(c, t, j + 1, depth).value;
      Parts(s, p, comma, (name + ":" + text) + rest);
      Parts(s, q, name + ":" + text, rest);
      Parts(s, q, name + ":", text);
      Parts(s, q, name, ":");
      StringBack(s, q, KeyName(f.key));
      SingleBack(s, q + |name|, ':');
      ProperField(t, j);
      ReadBack(c, f.value, depth, s, q + |name| + 1, text);
      var next := q + |name| + 1 + |text|;
      FieldsBack(c, t, j + 1, depth, s, next, rest);
      if j + 1 < |t.fields| {
        assert rest[0] == ',';
        Parts(s, next, ",", rest[1..]);
        assert "," + rest[1..] == rest;
        SingleBack(s, next, ',');
      }
    }
  }

  // ----- no control characters -----

  predicate Clean(s: Bytes) {
    forall i :: 0 <= i < |s| ==> s[i] as int >= 32 && s[i] as int != 127
  }

  lemma CleanMarks()
    ensures Clean("") && Clean(",") && Clean(":") && Clean("\"") && Clean("[") && Clean("]") && Clean("{") && Clean("}")
    ensures Clean("null") && Clean("true") && Clean("false")
  {
  }

  lemma CleanJoin(a: Bytes, b: Bytes)
    ensures Clean(a + b) <==> Clean(a) && Clean(b)
  {
    assert a == (a + b)[..|a|] && b == (a + b)[|a|..];
  }

  lemma {:induction false} StringClean(b: Bytes)
    ensures Clean(Body(b)) && 1 <= |Body(b)| <= 6 * |b| + 1
  {
    if b != [] {
      StringClean(b[1..]);
      assert Clean(Escaped(b[0]));
    }
  }

  /** No encoded text holds a control character. */
  lemma {:induction false} EncodedClean(c: Config, t: Tree, depth: nat)
    ensures Encode(c, t, depth).Ok? ==> Clean(Encode(c, t, depth).value) && |Encode(c, t, depth).value| >= 2
    decreases t, 2, 0
  {
    hide Clean, ArrayLength, EncodeItems, EncodeFields, Body;
    CleanMarks();
    if t.TStr? {
      StringClean(t.s);
      CleanJoin("\"", Body(t.s));
    } else if t.TTable? && Encode(c, t, depth).Ok? {
      var n := ArrayLength(c, t.fields).value;
      if n > 0 {
        ItemsClean(c, t, 1, n, depth + 1);
        CleanJoin("[", EncodeItems(c, t, 1, n, depth + 1).value);
      } else {
        FieldsClean(c, t, 0, depth + 1);
        CleanJoin("{", EncodeFields(c, t, 0, depth + 1).value);
      }
    }
  }

  lemma {:induction false} ItemsClean(c: Config, t: Tree, i: nat, n: nat, depth: nat)
    requires t.TTable? && 1 <= i <= n + 1
    ensures var r := EncodeItems(c, t, i, n, depth); r.Ok? ==> Clean(r.value) && |r.value| >= 1
    decreases t, 1, n + 1 - i
  {
    hide Clean, Encode, Find;
    CleanMarks();
    if i <= n && EncodeItems(c, t, i, n, depth).Ok? {
      ItemsClean(c, t, i + 1, n, depth);
      var j := Find(t.fields, Index(i));
      if j >= 0 {
        EncodedClean(c, t.fields[j].value, depth);
      }
      var text, rest := ItemText(c, t, i, depth).value, EncodeItems(c, t, i + 1, n, depth).value;
      CleanJoin(text, rest);
      CleanJoin(Comma(i > 1), text + rest);
    }
  }

  lemma {:induction false} FieldsClean(c: Config, t: Tree, j: nat, depth: nat)
    requires t.TTable? && j <= |t.fields|
    ensures var r := EncodeFields(c, t, j, depth); r.Ok? ==> Clean(r.value) && |r.value| >= 1
    decreases t, 1, |t.fields| - j
  {
    hide Clean, Encode, KeyName;
    CleanMarks();
    if j < |t.fields| && EncodeFields(c, t, j, depth).Ok? {
      assert FieldText(c, t, j, depth).Ok?;
      FieldsClean(c, t, j + 1, depth);
      var f := t.fields[j];
      StringClean(KeyName(f.key));
      EncodedClean(c, f.value, depth);
      var name, value := StringText(KeyName(f.key)), Encode(c, f.value, depth).value;
      CleanJoin("\"", Body(KeyName(f.key)));
      CleanJoin(name, ":");
      CleanJoin(name + ":", value);
      var text, rest := FieldText(c, t, j, depth).value, EncodeFields(c, t, j + 1, depth).value;
      CleanJoin(text, rest);
      CleanJoin(Comma(j > 0), text + rest);
    }
  }

  // ----- what comes back -----

  /**
   Nothing is lost: no nil is written for a value, an array has no hole, and an object's keys are strings.
   */
  predicate Faithful(c: Config, t: Tree) {
    && t != TNil
    && (t.TTable? ==>
      var n := ArrayLength(c, t.fields);
      && (if n.Ok? && n.value > 0 then forall i: nat :: 1 <= i <= n.value ==> Find(t.fields, Index(i)) >= 0
          else forall j :: 0 <= j < |t.fields| ==> t.fields[j].key.Name?)
      && forall j :: 0 <= j < |t.fields| ==> Faithful(c, t.fields[j].value))
  }

  lemma {:induction false} MeaningHolds(t: Tree, n: nat)
    requires t.TTable? && Distinct(t.fields) && n <= |t.fields|
    ensures forall k :: k in MeaningFields(t, n) ==> exists j :: 0 <= j < n && t.fields[j].key == k
    ensures forall j :: 0 <= j < n ==>
      t.fields[j].key in MeaningFields(t, n) && MeaningFields(t, n)[t.fields[j].key] == Meaning(t.fields[j].value)
    decreases n
  {
    if n > 0 {
      MeaningHolds(t, n - 1);
    }
  }

  lemma {:induction false} ItemsHold(c: Config, t: Tree, n: nat)
    requires t.TTable?
    ensures forall k :: k in ReturnedItems(c, t, n) <==> k.Index? && 1 <= k.i <= n
    ensures forall i: nat :: 1 <= i <= n ==> ReturnedItems(c, t, n)[Index(i)] == ReturnedItem(c, t, i)
    decreases n
  {
    if n > 0 {
      ItemsHold(c, t, n - 1);
    }
  }

  lemma {:induction false} FieldsHold(c: Config, t: Tree, n: nat)
    requires t.TTable? && Distinct(t.fields) && n <= |t.fields|
    ensures forall k :: k in ReturnedFields(c, t, n) ==> k.Name?
    ensures (forall j :: 0 <= j < n ==> t.fields[j].key.Name?) ==>
      && (forall k :: k in ReturnedFields(c, t, n) ==> exists j :: 0 <= j < n && t.fields[j].key == k)
      && forall j :: 0 <= j < n ==>
        && t.fields[j].key in ReturnedFields(c, t, n)
        && ReturnedFields(c, t, n)[t.fields[j].key] == Returned(c, t.fields[j].value)
    decreases n
  {
    hide Returned, NumText;
    if n > 0 {
      FieldsHold(c, t, n - 1);
      assert t.fields[n - 1].key.Name? ==> KeyName(t.fields[n - 1].key) == t.fields[n - 1].key.s;
    }
  }

  /** What comes back is the value itself exactly when nothing is lost. */
  lemma {:induction false} SameValue(c: Config, t: Tree)
    requires Proper(t)
    ensures Returned(c, t) == Meaning(t) <==> Faithful(c, t)
    decreases t
  {
    if t.TTable? {
      forall j | 0 <= j < |t.fields|
        ensures Returned(c, t.fields[j].value) == Meaning(t.fields[j].value) <==> Faithful(c, t.fields[j].value)
      {
        SameValue(c, t.fields[j].value);
      }
      MeaningHolds(t, |t.fields|);
      var n := ArrayLength(c, t.fields);
      if n.Ok? && n.value > 0 {
        SameArray(c, t, n.value);
      } else {
        SameObject(c, t);
      }
    }
  }

  lemma SameArray(c: Config, t: Tree, n: nat)
    requires Proper(t) && t.TTable? && ArrayLength(c, t.fields) == Ok(n) && n > 0
    ensures ReturnedItems(c, t, n) == MeaningFields(t, |t.fields|) <==>
      && (forall i: nat :: 1 <= i <= n ==> Find(t.fields, Index(i)) >= 0)
      && forall j :: 0 <= j < |t.fields| ==> Returned(c, t.fields[j].value) == Meaning(t.fields[j].value)
  {
    hide Proper, ArrayLength, Returned, Meaning, ReturnedItem, ReturnedItems, MeaningFields, Distinct;
    var a, b := ReturnedItems(c, t, n), MeaningFields(t, |t.fields|);
    ProperKeys(t);
    MeaningHolds(t, |t.fields|);
    ItemsHold(c, t, n);
    forall j | 0 <= j < |t.fields|
      ensures t.fields[j].key in a && a[t.fields[j].key] == Returned(c, t.fields[j].value)
    {
      FieldIsItem(c, t, j, 0);
    }
    if a == b {
      forall i: nat | 1 <= i <= n ensures Find(t.fields, Index(i)) >= 0 {
        assert Index(i) in b;
      }
    }
    if forall i: nat :: 1 <= i <= n ==> Find(t.fields, Index(i)) >= 0 {
      assert forall k :: k in a ==> k in b;
    }
  }

  lemma SameObject(c: Config, t: Tree)
    requires Proper(t) && t.TTable?
    ensures ReturnedFields(c, t, |t.fields|) == MeaningFields(t, |t.fields|) <==>
      && (forall j :: 0 <= j < |t.fields| ==> t.fields[j].key.Name?)
      && forall j :: 0 <= j < |t.fields| ==> Returned(c, t.fields[j].value) == Meaning(t.fields[j].value)
  {
    var a, b := ReturnedFields(c, t, |t.fields|), MeaningFields(t, |t.fields|);
    MeaningHolds(t, |t.fields|);
    FieldsHold(c, t, |t.fields|);
    if a == b {
      forall j | 0 <= j < |t.fields| ensures t.fields[j].key.Name? {
        assert t.fields[j].key in a;
      }
    }
  }

  // ----- when a tree is written -----

  /** Every value and key has a text, and no array is too sparse. */
  predicate Writable(c: Config, t: Tree) {
    && t != TAlien
    && (t.TTable? ==>
      && ArrayLength(c, t.fields).Ok?
      && forall j :: 0 <= j < |t.fields| ==> !t.fields[j].key.Other? && Writable(c, t.fields[j].value))
  }

  predicate ItemWritten(c: Config, t: Tree, i: nat, depth: nat)
    requires t.TTable?
  {
    ItemText(c, t, i, depth).Ok?
  }

  predicate FieldWritten(c: Config, t: Tree, j: nat, depth: nat)
    requires t.TTable? && j < |t.fields|
  {
    !t.fields[j].key.Other? && Encode(c, t.fields[j].value, depth).Ok?
  }

  lemma ArrayWritten(c: Config, t: Tree, n: nat, depth: nat)
    requires Proper(t) && t.TTable? && ArrayLength(c, t.fields) == Ok(n) && n > 0
    ensures (forall i: nat :: 1 <= i <= n ==> ItemWritten(c, t, i, depth)) <==>
      forall j :: 0 <= j < |t.fields| ==> FieldWritten(c, t, j, depth)
  {
    hide Encode, Proper, ArrayLength;
    ProperKeys(t);
    forall j | 0 <= j < |t.fields|
      ensures t.fields[j].key.Index? && 1 <= t.fields[j].key.i <= n
      ensures ItemWritten(c, t, t.fields[j].key.i, depth) <==> FieldWritten(c, t, j, depth)
    {
      FieldIsItem(c, t, j, depth);
    }
    forall i: nat | 1 <= i <= n && Find(t.fields, Index(i)) >= 0
      ensures ItemWritten(c, t, i, depth) <==> FieldWritten(c, t, Find(t.fields, Index(i)), depth)
    {
      assert t.fields[Find(t.fields, Index(i))].key.i == i;
    }
  }

  /** A tree is written exactly when it is writable and not too deep. */
  lemma {:induction false} WrittenWhen(c: Config, t: Tree, depth: nat)
    requires Proper(t)
    ensures Encode(c, t, depth).Ok? <==> Fits(c.encodeMax, t, depth) && Writable(c, t)
    decreases t, 1, 0
  {
    hide EncodeItems, EncodeFields, ArrayLength;
    if t.TTable? && depth + 1 <= c.encodeMax && ArrayLength(c, t.fields).Ok? {
      forall j | 0 <= j < |t.fields|
        ensures FieldWritten(c, t, j, depth + 1) <==>
          && !t.fields[j].key.Other?
          && Fits(c.encodeMax, t.fields[j].value, depth + 1)
          && Writable(c, t.fields[j].value)
      {
        WrittenWhen(c, t.fields[j].value, depth + 1);
      }
      var n := ArrayLength(c, t.fields).value;
      if n > 0 {
        ItemsWritten(c, t, 1, n, depth + 1);
        ArrayWritten(c, t, n, depth + 1);
      } else {
        FieldsWritten(c, t, 0, depth + 1);
      }
    }
  }

  lemma {:induction false} ItemsWritten(c: Config, t: Tree, i: nat, n: nat, depth: nat)
    requires t.TTable? && 1 <= i <= n + 1
    ensures EncodeItems(c, t, i, n, depth).Ok? <==> forall k: nat :: i <= k <= n ==> ItemWritten(c, t, k, depth)
    decreases n + 1 - i
  {
    if i <= n {
      ItemsWritten(c, t, i + 1, n, depth);
      assert EncodeItems(c, t, i, n, depth).Ok? <==>
        ItemWritten(c, t, i, depth) && EncodeItems(c, t, i + 1, n, depth).Ok?;
    }
  }

  lemma {:induction false} FieldsWritten(c: Config, t: Tree, j: nat, depth: nat)
    requires t.TTable? && j <= |t.fields|
    ensures EncodeFields(c, t, j, depth).Ok? <==> forall k :: j <= k < |t.fields| ==> FieldWritten(c, t, k, depth)
    decreases |t.fields| - j
  {
    if j < |t.fields| {
      FieldsWritten(c, t, j + 1, depth);
      assert EncodeFields(c, t, j, depth).Ok? <==>
        FieldWritten(c, t, j, depth) && EncodeFields(c, t, j + 1, depth).Ok?;
    }
  }

  // ----- the round trip -----

  /**
   Decoding a text that was encoded gives the tree's value back exactly when the tree fits into the parser's
   depth and is faithful; a tree that fits always comes back as `Returned`, and one that does not is refused.
   */
  lemma RoundTrip(c: Config, t: Tree)
    requires Proper(t) && Encode(c, t, 0).Ok?
    ensures var e := Encode(c, t, 0).value;
      && Clean(e)
      && (Decode(c, e).Ok? <==> Fits(c.decodeMax, t, 0))
      && (Decode(c, e).Ok? ==> Decode(c, e) == Ok(Returned(c, t)))
      && (Decode(c, e) == Ok(Meaning(t)) <==> Fits(c.decodeMax, t, 0) && Faithful(c, t))
  {
    hide Encode, ValueAt, Returned, Meaning, Faithful, Fits, Proper;
    var e := Encode(c, t, 0).value;
    EncodedClean(c, t, 0);
    assert !UsesWideCharacters(e);
    assert e[0..|e|] == e;
    ReadBack(c, t, 0, e, 0, e);
    SameValue(c, t);
  }

  lemma {:induction false} FitsMore(m0: nat, m1: nat, t: Tree, depth: nat)
    requires m0 <= m1 && Fits(m0, t, depth)
    ensures Fits(m1, t, depth)
    decreases t
  {
    if t.TTable? {
      forall j | 0 <= j < |t.fields| ensures Fits(m1, t.fields[j].value, depth + 1) {
        FitsMore(m0, m1, t.fields[j].value, depth + 1);
      }
    }
  }

  /**
   Decoding inverts encoding for every faithful tree of writable values within the encoder's depth, when the
   parser's is no smaller (both are 1000 by default).
   */
  lemma DecodeEncode(c: Config, t: Tree)
    requires Proper(t) && c.encodeMax <= c.decodeMax
    requires Writable(c, t) && Faithful(c, t) && Fits(c.encodeMax, t, 0)
    ensures Encode(c, t, 0).Ok? && Decode(c, Encode(c, t, 0).value) == Ok(Meaning(t))
  {
    WrittenWhen(c, t, 0);
    FitsMore(c.encodeMax, c.decodeMax, t, 0);
    RoundTrip(c, t);
  }
}
