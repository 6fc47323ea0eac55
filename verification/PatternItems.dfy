/**
 The items of a Lua pattern (lstrlib.c): where an item ends, and which single characters it
 matches. Strings are sequences of bytes; the byte after the end of one is zero.
 */
module PatternItems {

  type Byte = b: int | 0 <= b < 256

  const L_ESC: Byte := '%' as int
  const LUA_MAXCAPTURES: nat := 32
  const MAXCCALLS: nat := 200

  function At(p: seq<Byte>, i: nat): Byte {
    if i < |p| then p[i] else 0
  }

  predicate Is(b: int, c: char) {
    b == c as int
  }

  // ----- character classes (in the "C" locale) -----

  predicate IsLower(c: int) { 'a' as int <= c <= 'z' as int }
  predicate IsUpper(c: int) { 'A' as int <= c <= 'Z' as int }
  predicate IsAlpha(c: int) { IsLower(c) || IsUpper(c) }
  predicate IsDigit(c: int) { '0' as int <= c <= '9' as int }
  predicate IsAlnum(c: int) { IsAlpha(c) || IsDigit(c) }
  predicate IsCntrl(c: int) { 0 <= c < 32 || c == 127 }
  predicate IsGraph(c: int) { 33 <= c <= 126 }
  predicate IsPunct(c: int) { IsGraph(c) && !IsAlnum(c) }
  predicate IsSpace(c: int) { c == 32 || 9 <= c <= 13 }
  predicate IsXDigit(c: int) { IsDigit(c) || 'a' as int <= c <= 'f' as int || 'A' as int <= c <= 'F' as int }

  function ToLower(c: int): int {
    if IsUpper(c) then c + 32 else c
  }

  /** `match_class`. */
  predicate MatchClass(c: int, cl: int) {
    var l := ToLower(cl);
    if Is(l, 'a') then IsAlpha(c) == IsLower(cl)
    else if Is(l, 'c') then IsCntrl(c) == IsLower(cl)
    else if Is(l, 'd') then IsDigit(c) == IsLower(cl)
    else if Is(l, 'g') then IsGraph(c) == IsLower(cl)
    else if Is(l, 'l') then IsLower(c) == IsLower(cl)
    else if Is(l, 'p') then IsPunct(c) == IsLower(cl)
    else if Is(l, 's') then IsSpace(c) == IsLower(cl)
    else if Is(l, 'u') then IsUpper(c) == IsLower(cl)
    else if Is(l, 'w') then IsAlnum(c) == IsLower(cl)
    else if Is(l, 'x') then IsXDigit(c) == IsLower(cl)
    else if Is(l, 'z') then (c == 0) == IsLower(cl)
    else cl == c
  }

  /** Whether one of the elements of a set, from `i` to its end `ec`, has the byte. */
  function SetHas(p: seq<Byte>, i: nat, ec: nat, c: Byte): bool
    decreases ec - i
  {
    if i >= ec then false
    else if At(p, i) == L_ESC then MatchClass(c, At(p, i + 1)) || SetHas(p, i + 2, ec, c)
    else if Is(At(p, i + 1), '-') && i + 2 < ec then At(p, i) <= c <= At(p, i + 2) || SetHas(p, i + 3, ec, c)
    else At(p, i) == c || SetHas(p, i + 1, ec, c)
  }

  /** Whether the set that begins at `p[i]` and ends at `ec` has the byte. */
  function InSet(p: seq<Byte>, i: nat, ec: nat, c: Byte): bool {
    if Is(At(p, i + 1), '^') then !SetHas(p, i + 2, ec, c) else SetHas(p, i + 1, ec, c)
  }

  /** `matchbracketclass`. */
  method MatchBracketClass(c: Byte, p: seq<Byte>, i: nat, ec: nat) returns (b: bool)
    ensures b == InSet(p, i, ec, c)
  {
    var sig, q := true, i;
    if Is(At(p, q + 1), '^') {
      sig := false;
      q := q + 1;
    }
    q := q + 1;
    while q < ec
      invariant InSet(p, i, ec, c) == (if sig then SetHas(p, q, ec, c) else !SetHas(p, q, ec, c))
      decreases ec - q
    {
      if At(p, q) == L_ESC {
        q := q + 1;
        if MatchClass(c, At(p, q)) {
          return sig;
        }
      } else if Is(At(p, q + 1), '-') && q + 2 < ec {
        q := q + 2;
        if At(p, q - 2) <= c <= At(p, q) {
          return sig;
        }
      } else if At(p, q) == c {
        return sig;
      }
      q := q + 1;
    }
    return !sig;
  }

  // ----- items -----

  datatype Parsed = Ends(at: nat) | Bad(message: string)

  const ENDS_WITH_ESC := "malformed pattern (ends with '%')"
  const MISSING_BRACKET := "malformed pattern (missing ']')"
  const MISSING_ARGUMENTS := "malformed pattern (missing arguments to '%b')"
  const MISSING_SET := "missing '[' after '%f' in pattern"

  /** Where a set ends, from an element at `i` on. */
  function SetEnd(p: seq<Byte>, i: nat): (r: Parsed)
    requires i <= |p|
    ensures r.Ends? ==> i < r.at <= |p|
    decreases |p| - i
  {
    if i == |p| then Bad(MISSING_BRACKET)
    else
      var j := if p[i] == L_ESC && i + 1 < |p| then i + 2 else i + 1;
      if Is(At(p, j), ']') then Ends(j + 1) else SetEnd(p, j)
  }

  /** Where a single-character item ends. */
  function ItemEnd(p: seq<Byte>, i: nat): (r: Parsed)
    requires i < |p|
    ensures r.Ends? ==> i < r.at <= |p|
  {
    if p[i] == L_ESC then
      if i + 1 == |p| then Bad(ENDS_WITH_ESC) else Ends(i + 2)
    else if Is(p[i], '[') then
      SetEnd(p, if Is(At(p, i + 1), '^') then i + 2 else i + 1)
    else Ends(i + 1)
  }

  /** `classend`. */
  method ClassEnd(p: seq<Byte>, i: nat) returns (r: Parsed)
    requires i < |p|
    ensures r == ItemEnd(p, i)
  {
    var q := i + 1;
    if p[i] == L_ESC {
      if q == |p| {
        return Bad(ENDS_WITH_ESC);
      }
      return Ends(q + 1);
    }
    if Is(p[i], '[') {
      if Is(At(p, q), '^') {
        q := q + 1;
      }
      while true
        invariant i < q <= |p| && ItemEnd(p, i) == SetEnd(p, q)
        decreases |p| - q
      {
        if q == |p| {
          return Bad(MISSING_BRACKET);
        }
        q := q + 1;
        if p[q - 1] == L_ESC && q < |p| {
          q := q + 1;
        }
        if Is(At(p, q), ']') {
          return Ends(q + 1);
        }
      }
    }
    return Ends(q);
  }

  /** Whether the item at `p[i]`, which ends before `ep`, matches the byte at `s`. */
  predicate Single(src: seq<Byte>, s: nat, p: seq<Byte>, i: nat, ep: nat) {
    s < |src| && i < |p| && 0 < ep &&
      if Is(p[i], '.') then true
      else if p[i] == L_ESC then MatchClass(src[s], At(p, i + 1))
      else if Is(p[i], '[') then InSet(p, i, ep - 1, src[s])
      else p[i] == src[s]
  }

  /** `singlematch`. */
  method SingleMatch(src: seq<Byte>, s: nat, p: seq<Byte>, i: nat, ep: nat) returns (b: bool)
    requires i < ep && i < |p|
    ensures b == Single(src, s, p, i, ep)
  {
    if s >= |src| {
      return false;
    }
    if Is(p[i], '.') {
      return true;
    }
    if p[i] == L_ESC {
      return MatchClass(src[s], At(p, i + 1));
    }
    if Is(p[i], '[') {
      b := MatchBracketClass(src[s], p, i, ep - 1);
      return;
    }
    return p[i] == src[s];
  }

  datatype Suffix = One | Opt | Star | Plus | Lazy

  function SuffixOf(b: Byte): Suffix {
    if Is(b, '?') then Opt else if Is(b, '*') then Star else if Is(b, '+') then Plus else if Is(b, '-') then Lazy
      else One
  }

  datatype Item =
    | Wrong(error: string)
    | Open(position: bool, next: nat)
    | Close(next: nat)
    | Anchor
    | Balance(x: Byte, y: Byte, next: nat)
    | Frontier(start: nat, next: nat)
    | BackRef(digit: Byte, next: nat)
    | Chars(ep: nat, suffix: Suffix, next: nat)

  /** The item that begins at `p[i]`. */
  function ItemAt(p: seq<Byte>, i: nat): (r: Item)
    requires i < |p|
    ensures !r.Wrong? && !r.Anchor? ==> i < r.next <= |p|
  {
    if Is(p[i], '(') then if Is(At(p, i + 1), ')') then Open(true, i + 2) else Open(false, i + 1)
    else if Is(p[i], ')') then Close(i + 1)
    else if Is(p[i], '$') && i + 1 == |p| then Anchor
    else if p[i] == L_ESC && Is(At(p, i + 1), 'b') then
      if i + 3 >= |p| then Wrong(MISSING_ARGUMENTS) else Balance(p[i + 2], p[i + 3], i + 4)
    else if p[i] == L_ESC && Is(At(p, i + 1), 'f') then
      if !Is(At(p, i + 2), '[') then Wrong(MISSING_SET)
      else match ItemEnd(p, i + 2)
        case Bad(message) => Wrong(message)
        case Ends(ep) => Frontier(i + 2, ep)
    else if p[i] == L_ESC && IsDigit(At(p, i + 1)) then BackRef(At(p, i + 1), i + 2)
    else match ItemEnd(p, i)
      case Bad(message) => Wrong(message)
      case Ends(ep) => var suffix := SuffixOf(At(p, ep)); Chars(ep, suffix, if suffix.One? then ep else ep + 1)
  }
}
