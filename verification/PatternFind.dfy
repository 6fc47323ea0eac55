/**
 Searching and replacing with patterns (lstrlib.c): `string.find` with its shortcut for plain
 strings, and `string.gsub`.
 */
module PatternFind {
  import opened Wrappers

  import opened PatternItems
  import opened PatternRelation
  import opened PatternMatch

  // ----- plain search -----

  /** `s2` is in `s1` at `i`. */
  predicate Occurs(s1: seq<Byte>, i: nat, s2: seq<Byte>) {
    i + |s2| <= |s1| && s1[i..i + |s2|] == s2
  }

  /** `memchr` in the first `n` bytes from `from` on. */
  method MemChr(s: seq<Byte>, from: nat, c: Byte, n: nat) returns (i: int)
    requires from + n <= |s|
    ensures i >= 0 ==> from <= i < from + n && s[i] == c && c !in s[from..i]
    ensures i < 0 ==> c !in s[from..from + n]
  {
    for k := from to from + n
      invariant c !in s[from..k]
    {
      if s[k] == c {
        return k;
      }
      assert s[from..k + 1] == s[from..k] + [s[k]];
    }
    return -1;
  }

  lemma OccursHead(s1: seq<Byte>, i: nat, s2: seq<Byte>)
    ensures Occurs(s1, i, s2) && s2 != [] ==> i < |s1| && s1[i] == s2[0]
  {
    if s2 != [] && i + |s2| <= |s1| {
      assert s1[i..i + |s2|][0] == s1[i];
    }
  }

  /** `lmemfind`: the first occurrence. */
  method LMemFind(s1: seq<Byte>, s2: seq<Byte>) returns (i: int)
    ensures i >= 0 ==> Occurs(s1, i, s2) && forall k :: 0 <= k < i ==> !Occurs(s1, k, s2)
    ensures i < 0 ==> forall k: nat :: !Occurs(s1, k, s2)
  {
    if |s2| == 0 {
      return 0;
    }
    if |s2| > |s1| {
      return -1;
    }
    var l2 := |s2| - 1;
    var from, l1 := 0, |s1| - l2;
    while l1 > 0
      invariant 0 <= l1 && from + l1 == |s1| - l2
      invariant forall k :: 0 <= k < from ==> !Occurs(s1, k, s2)
      decreases l1
    {
      var at := MemChr(s1, from, s2[0], l1);
      if at < 0 {
        forall k: nat | from <= k ensures !Occurs(s1, k, s2) {
          OccursHead(s1, k, s2);
          assert from + l1 <= |s1| && (k < from + l1 ==> s1[k] == s1[from..from + l1][k - from]);
        }
        return -1;
      }
      var init := at + 1;
      forall k: nat | from <= k < at ensures !Occurs(s1, k, s2) {
        OccursHead(s1, k, s2);
        assert s1[k] == s1[from..at][k - from];
      }
      assert s1[at..at + |s2|] == [s1[at]] + s1[init..init + l2] && s2 == [s2[0]] + s2[1..];
      if s1[init..init + l2] == s2[1..] {
        return at;
      }
      assert !Occurs(s1, at, s2) by {
        assert s1[at..at + |s2|][1..] == s1[init..init + l2];
      }
      l1 := l1 - (init - from);
      from := init;
    }
    return -1;
  }

  // ----- patterns without special characters -----

  const SPECIALS: seq<char> := "^$*+?.([%-"

  predicate Special(b: Byte) {
    exists i :: 0 <= i < |SPECIALS| && b == SPECIALS[i] as int
  }

  lemma SpecialIs(b: Byte)
    ensures Special(b) <==> (Is(b, '^') || Is(b, '$') || Is(b, '*') || Is(b, '+') || Is(b, '?')
      || Is(b, '.') || Is(b, '(') || Is(b, '[') || Is(b, '%') || Is(b, '-'))
  {
    assert SPECIALS[0] == '^' && SPECIALS[1] == '$' && SPECIALS[2] == '*' && SPECIALS[3] == '+' && SPECIALS[4] == '?';
    assert SPECIALS[5] == '.' && SPECIALS[6] == '(' && SPECIALS[7] == '[' && SPECIALS[8] == '%' && SPECIALS[9] == '-';
  }

  ghost predicate AllPlain(p: seq<Byte>) {
    forall i {:trigger p[i]} :: 0 <= i < |p| ==> !Special(p[i])
  }

  /** `nospecials`: one search after the other, as a zero byte ends each. */
  method NoSpecials(p: seq<Byte>) returns (b: bool)
    ensures b <==> AllPlain(p)
  {
    var upto := 0;
    while upto <= |p|
      invariant forall i :: 0 <= i < upto && i < |p| ==> !Special(p[i])
      decreases |p| + 1 - upto
    {
      var i := upto;
      while i < |p| && p[i] != 0
        invariant upto <= i <= |p| && forall k :: 0 <= k < i ==> !Special(p[k])
      {
        if Special(p[i]) {
          return false;
        }
        i := i + 1;
      }
      if i < |p| {
        SpecialIs(p[i]);
      }
      upto := i + 1;
    }
    return true;
  }

  /** A pattern without special characters and without `)` matches just itself. */
  lemma {:induction false} LiteralGoes(src: seq<Byte>, pat: seq<Byte>, d: nat, s: nat, p: nat, caps: seq<Cap>,
      t: seq<nat>, o: Outcome)
    requires p <= |pat| && AllPlain(pat) && forall i :: p <= i < |pat| ==> !Is(pat[i], ')')
    requires s <= |src|
    ensures Goes(src, pat, d, s, p, caps, t, o) <==>
      t == [] && o == Matched(s + |pat| - p, caps) && Occurs(src, s, pat[p..])
    decreases |pat| - p
  {
    if p < |pat| {
      LiteralItem(pat, p);
      OccursStep(src, s, pat, p);
      if Single(src, s, pat, p, p + 1) {
        LiteralGoes(src, pat, d, s + 1, p + 1, caps, t, o);
      }
    }
  }

  lemma OccursStep(src: seq<Byte>, s: nat, pat: seq<Byte>, p: nat)
    requires p < |pat|
    ensures Occurs(src, s, pat[p..]) <==> s < |src| && src[s] == pat[p] && Occurs(src, s + 1, pat[p + 1..])
  {
    assert pat[p..] == [pat[p]] + pat[p + 1..];
    if s + |pat| - p <= |src| {
      assert src[s..s + |pat| - p] == [src[s]] + src[s + 1..s + |pat| - p];
    }
  }

  lemma LiteralItem(pat: seq<Byte>, p: nat)
    requires p < |pat| && AllPlain(pat) && !Is(pat[p], ')')
    ensures ItemAt(pat, p) == Chars(p + 1, One, p + 1)
    ensures forall src: seq<Byte>, s: nat :: Single(src, s, pat, p, p + 1) <==> s < |src| && src[s] == pat[p]
  {
    SpecialIs(pat[p]);
    if p + 1 < |pat| {
      SpecialIs(pat[p + 1]);
    }
    assert !Is(pat[p], '.') && !Is(pat[p], '[') && pat[p] != L_ESC;
    forall src: seq<Byte>, s: nat ensures Single(src, s, pat, p, p + 1) <==> s < |src| && src[s] == pat[p] {
    }
  }

  /** What the plain search says about a place. */
  function PlainAnswer(src: seq<Byte>, pat: seq<Byte>, s: nat): Option<Outcome> {
    if Occurs(src, s, pat) then Some(Matched(s + |pat|, [])) else None
  }

  /** The plain search and the matcher agree everywhere. */
  ghost predicate PlainAgrees(pat: seq<Byte>) {
    forall src: seq<Byte>, s: nat {:trigger Occurs(src, s, pat)} :: s <= |src| ==>
      First(src, pat, true, MAXCCALLS, s, 0, [], [], PlainAnswer(src, pat, s))
  }

  lemma CloseFails(pat: seq<Byte>, p: nat, c: nat, t: seq<nat>, o: Outcome)
    requires AllPlain(pat) && p <= c < |pat| && Is(pat[c], ')') && forall i :: p <= i < c ==> !Is(pat[i], ')')
    ensures Goes(pat, pat, MAXCCALLS - 1, p, p, [], t, o) <==> t == [] && o == Fault(NOT_OPEN)
    decreases c - p
  {
    if p < c {
      LiteralItem(pat, p);
      CloseFails(pat, p + 1, c, t, o);
    } else {
      SpecialIs(pat[p]);
    }
  }

  lemma NotFirst(pat: seq<Byte>)
    ensures PlainAgrees(pat) ==> Possible(pat, pat, true, MAXCCALLS, 0, 0, [], [], Matched(|pat|, []))
  {
    assert pat[0..|pat|] == pat && Occurs(pat, 0, pat);
  }

  /**
   The shortcut of `string.find` for patterns without special characters: `)` is not counted as one,
   but the matcher refuses it.
   */
  lemma ShortcutRight(pat: seq<Byte>)
    requires AllPlain(pat)
    ensures PlainAgrees(pat) <==> forall i :: 0 <= i < |pat| ==> !Is(pat[i], ')')
  {
    if i :| 0 <= i < |pat| && Is(pat[i], ')') {
      var c := FirstClose(pat, i);
      CloseFails(pat, 0, c, [], Fault(NOT_OPEN));
      CloseFails(pat, 0, c, [], Matched(|pat|, []));
      NotFirst(pat);
    } else {
      forall src: seq<Byte>, s: nat | s <= |src|
        ensures First(src, pat, true, MAXCCALLS, s, 0, [], [], PlainAnswer(src, pat, s))
      {
        forall t, o ensures Possible(src, pat, true, MAXCCALLS, s, 0, [], t, o)
          <==> t == [] && o == Matched(s + |pat|, []) && Occurs(src, s, pat)
        {
          LiteralGoes(src, pat, MAXCCALLS - 1, s, 0, [], t, o);
          assert pat[0..] == pat;
        }
      }
    }
  }

  ghost function FirstClose(pat: seq<Byte>, i: nat): (c: nat)
    requires i < |pat| && Is(pat[i], ')')
    ensures c <= i && Is(pat[c], ')') && forall k :: 0 <= k < c ==> !Is(pat[k], ')')
  {
    if j :| 0 <= j < i && Is(pat[j], ')') then FirstClose(pat, j) else i
  }

  // ----- find and match -----

  datatype FindResult = NotFound | Plain(at: nat) | Found(start: nat, end: nat,
      caps: seq<Cap>) | Failed(message: string)

  /** The matcher's answer at a place. */
  ghost predicate AnswerAt(src: seq<Byte>, pat: seq<Byte>, s: nat, r: Option<Outcome>) {
    exists t {:trigger First(src, pat, true, MAXCCALLS, s, 0, [], t, r)} ::
      First(src, pat, true, MAXCCALLS, s, 0, [], t, r)
  }

  /** The first place, from `init` on, where the matcher has an answer; only that one if the pattern is anchored. */
  ghost predicate Searched(src: seq<Byte>, pat: seq<Byte>, init: nat, anchor: bool, r: FindResult) {
    match r
    case NotFound => forall k {:trigger AnswerAt(src, pat, k, None)} ::
      init <= k <= (if anchor then init else |src|) ==> AnswerAt(src, pat, k, None)
    case Found(start, end, caps) =>
      && init <= start <= |src| && (anchor ==> start == init) && AnswerAt(src, pat, start, Some(Matched(end, caps)))
      && forall k {:trigger AnswerAt(src, pat, k, None)} :: init <= k < start ==> AnswerAt(src, pat, k, None)
    case Failed(message) => exists k {:trigger AnswerAt(src, pat, k, Some(Fault(message)))} ::
      init <= k <= |src| && (anchor ==> k == init) && AnswerAt(src, pat, k, Some(Fault(message)))
      && forall j {:trigger AnswerAt(src, pat, j, None)} :: init <= j < k ==> AnswerAt(src, pat, j, None)
    case Plain(_) => false
  }

  /** Whether a pattern is anchored, and the pattern without the anchor. */
  function Anchored(p: seq<Byte>): bool {
    p != [] && Is(p[0], '^')
  }

  function Core(p: seq<Byte>): seq<Byte> {
    if Anchored(p) then p[1..] else p
  }

  /** `str_find_aux`, from the place `init` on (one-based). */
  method StrFindAux(src: seq<Byte>, p: seq<Byte>, init: int, find: bool, plain: bool) returns (r: FindResult)
    ensures var from := if init < 1 then 0 else init - 1;
      if from > |src| then r == NotFound
      else if find && (plain || AllPlain(p)) then
        match r
        case Plain(at) => from <= at && Occurs(src, at, p) && forall k :: from <= k < at ==> !Occurs(src, k, p)
        case NotFound => forall k :: from <= k ==> !Occurs(src, k, p)
        case _ => false
      else Searched(src, Core(p), from, Anchored(p), r)
  {
    var from := if init < 1 then 0 else init - 1;
    if from > |src| {
      return NotFound;
    }
    if find {
      var shortcut := plain;
      if !shortcut {
        shortcut := NoSpecials(p);
      }
      if shortcut {
        var at := LMemFind(src[from..], p);
        forall k | from <= k ensures Occurs(src, k, p) <==> Occurs(src[from..], k - from, p) {
          if k + |p| <= |src| {
            assert src[from..][k - from..k - from + |p|] == src[k..k + |p|];
          }
        }
        return if at >= 0 then Plain(from + at) else NotFound;
      }
    }
    r := Search(src, Core(p), from, Anchored(p));
  }

  method Search(src: seq<Byte>, pat: seq<Byte>, from: nat, anchor: bool) returns (r: FindResult)
    requires from <= |src|
    ensures Searched(src, pat, from, anchor, r)
  {
    var ms := new MatchState(src, pat);
    var s := from;
    while true
      invariant ms.Valid() && ms.matchdepth == MAXCCALLS && ms.src == src && ms.pat == pat && fresh(ms)
      invariant fresh(ms.capture)
      invariant from <= s <= |src| && (anchor ==> s == from)
      invariant forall k {:trigger AnswerAt(src, pat, k, None)} :: from <= k < s ==> AnswerAt(src, pat, k, None)
      decreases |src| - s
    {
      ms.level := 0;
      assert ms.Caps() == [];
      var res; ghost var t;
      res, t := ms.Match(s, 0);
      assert AnswerAt(src, pat, s, Answer(res, ms.Caps()));
      match res {
        case End(e) => return Found(s, e, ms.capture[..ms.level]);
        case Error(message) => return Failed(message);
        case NoMatch =>
      }
      if s == |src| || anchor {
        return NotFound;
      }
      s := s + 1;
    }
  }

  // ----- gsub -----

  /** A stretch of the subject: a byte that is kept, or a match that is replaced. */
  datatype Piece = Kept(at: nat) | Replaced(start: nat, end: nat, caps: seq<Cap>)

  function Original(src: seq<Byte>, ps: seq<Piece>): seq<Byte> {
    if ps == [] then []
    else Original(src, ps[..|ps| - 1]) + match ps[|ps| - 1]
      case Kept(at) => if at < |src| then [src[at]] else []
      case Replaced(start, end, _) => if start <= end <= |src| then src[start..end] else []
  }

  function Rendered(src: seq<Byte>, ps: seq<Piece>, repl: (nat, nat, seq<Cap>) -> seq<Byte>): seq<Byte> {
    if ps == [] then []
    else Rendered(src, ps[..|ps| - 1], repl) + match ps[|ps| - 1]
      case Kept(at) => if at < |src| then [src[at]] else []
      case Replaced(start, end, caps) => repl(start, end, caps)
  }

  function Count(ps: seq<Piece>): nat {
    if ps == [] then 0 else Count(ps[..|ps| - 1]) + if ps[|ps| - 1].Replaced? then 1 else 0
  }

  /** Where the last piece ends. */
  function Pos(ps: seq<Piece>): nat {
    if ps == [] then 0
    else match ps[|ps| - 1]
      case Kept(at) => at + 1
      case Replaced(_, end, _) => end
  }

  /** The last piece is an empty match. */
  predicate AfterEmpty(ps: seq<Piece>) {
    |ps| > 0 && ps[|ps| - 1].Replaced? && ps[|ps| - 1].start == ps[|ps| - 1].end
  }

  datatype Move = Add(q: Piece) | Stop | Fail(message: string)

  /**
   What replacing does after the pieces `ps`: an empty match is followed by the byte behind it; then the
   matcher is asked, until `maxS` matches are replaced, the subject ends or, if anchored, it was asked once.
   */
  ghost predicate Moves(src: seq<Byte>, pat: seq<Byte>, anchor: bool, maxS: int, ps: seq<Piece>, m: Move) {
    var a := Pos(ps);
    var keep := if a < |src| then Add(Kept(a)) else Stop;
    if AfterEmpty(ps) then m == keep
    else if Count(ps) >= maxS || (anchor && ps != []) then m == Stop
    else
      || (AnswerAt(src, pat, a, None) && m == keep)
      || (m.Add? && m.q.Replaced? && m.q.start == a && AnswerAt(src, pat, a, Some(Matched(m.q.end, m.q.caps))))
      || (m.Fail? && AnswerAt(src, pat, a, Some(Fault(m.message))))
  }

  /** The subject is cut into these pieces. */
  ghost predicate Cuts(src: seq<Byte>, pat: seq<Byte>, anchor: bool, maxS: int, ps: seq<Piece>) {
    forall i {:trigger ps[i]} :: 0 <= i < |ps| ==> Moves(src, pat, anchor, maxS, ps[..i], Add(ps[i]))
  }

  /** Every replaced piece is what the matcher finds where it begins. */
  ghost predicate Honest(src: seq<Byte>, pat: seq<Byte>, ps: seq<Piece>) {
    forall i {:trigger ps[i]} :: 0 <= i < |ps| && ps[i].Replaced? ==>
      AnswerAt(src, pat, ps[i].start, Some(Matched(ps[i].end, ps[i].caps)))
  }

  /** A byte is kept because nothing matches there, or because an empty match was replaced before it. */
  ghost predicate Needed(src: seq<Byte>, pat: seq<Byte>, ps: seq<Piece>) {
    forall i {:trigger ps[i]} :: 0 <= i < |ps| && ps[i].Kept? ==>
      AnswerAt(src, pat, ps[i].at, None) || AfterEmpty(ps[..i])
  }

  datatype SubResult = SubDone(out: seq<Byte>, n: nat) | SubFailed(message: string)

  /** The pieces lead to the result: the text with the matches replaced and their number, or the matcher's error. */
  ghost predicate Substituted(src: seq<Byte>, p: seq<Byte>, repl: (nat, nat, seq<Cap>) -> seq<Byte>, maxS: int,
      ps: seq<Piece>, r: SubResult)
  {
    && Cuts(src, Core(p), Anchored(p), maxS, ps) && Pos(ps) <= |src| && Original(src, ps) == src[..Pos(ps)]
    && match r
      case SubDone(out, n) =>
        && Moves(src, Core(p), Anchored(p), maxS, ps, Stop) && n == Count(ps)
        && out == Rendered(src, ps, repl) + src[Pos(ps)..]
      case SubFailed(message) => Moves(src, Core(p), Anchored(p), maxS, ps, Fail(message))
  }

  /** `str_gsub`, with the pieces of the subject. */
  method GSub(src: seq<Byte>, p: seq<Byte>, repl: (nat, nat, seq<Cap>) -> seq<Byte>, maxS: int)
    returns (r: SubResult, ghost ps: seq<Piece>)
    ensures Substituted(src, p, repl, maxS, ps, r)
  {
    hide First, Better, Possible, Goes, AnswerAt, SoFar, Moves, Substituted, AfterEmpty;
    var pat, anchor := Core(p), Anchored(p);
    var ms := new MatchState(src, pat);
    var n, at := 0, 0;
    var out: seq<Byte> := [];
    ps := [];
    NoPieces(src, pat, anchor, maxS, repl);
    while n < maxS
      invariant ms.Valid() && ms.matchdepth == MAXCCALLS && ms.src == src && ms.pat == pat && fresh(ms)
      invariant fresh(ms.capture)
      invariant at <= |src| && SoFar(src, pat, anchor, maxS, ps, at, n, out, repl)
      invariant !AfterEmpty(ps) && (anchor ==> ps == [])
      invariant n >= maxS ==> Moves(src, pat, anchor, maxS, ps, Stop)
      decreases |src| - at, maxS - n
    {
      ms.level := 0;
      assert ms.Caps() == [];
      var res; ghost var t;
      res, t := ms.Match(at, 0);
      Answered(src, pat, at, t, Answer(res, ms.Caps()));
      AskedNow(src, pat, anchor, maxS, ps, at, n, out, repl, Answer(res, ms.Caps()));
      if res.Error? {
        Ended(src, p, repl, maxS, ps, at, n, out, Fail(res.message));
        return SubFailed(res.message), ps;
      }
      if res.End? {
        var caps := ms.capture[..ms.level];
        Forward(src, pat, true, MAXCCALLS, at, 0, [], t, Matched(res.e, caps));
        AddPiece(src, pat, anchor, maxS, ps, Replaced(at, res.e, caps), at, n, out, repl);
        n := n + 1;
        out := out + repl(at, res.e, caps);
        ps := ps + [Replaced(at, res.e, caps)];
      }
      if res.End? && res.e > at {
        at := res.e;
      } else if at < |src| {
        AddPiece(src, pat, anchor, maxS, ps, Kept(at), at, n, out, repl);
        out := out + [src[at]];
        ps := ps + [Kept(at)];
        at := at + 1;
      } else {
        Ended(src, p, repl, maxS, ps, at, n, out, Stop);
        assert src[at..] == [] && out + [] == out;
        return SubDone(out, n), ps;
      }
      if anchor {
        break;
      }
    }
    Ended(src, p, repl, maxS, ps, at, n, out, Stop);
    return SubDone(out + src[at..], n), ps;
  }

  /** The pieces up to `at`, and the output for them. */
  ghost predicate SoFar(src: seq<Byte>, pat: seq<Byte>, anchor: bool, maxS: int, ps: seq<Piece>, at: nat, n: nat,
      out: seq<Byte>, repl: (nat, nat, seq<Cap>) -> seq<Byte>) {
    && Cuts(src, pat, anchor, maxS, ps) && at == Pos(ps) <= |src| && Original(src, ps) == src[..at]
    && out == Rendered(src, ps, repl) && n == Count(ps)
  }

  lemma Answered(src: seq<Byte>, pat: seq<Byte>, s: nat, t: seq<nat>, r: Option<Outcome>)
    requires First(src, pat, true, MAXCCALLS, s, 0, [], t, r)
    ensures AnswerAt(src, pat, s, r)
  {
  }

  lemma NoPieces(src: seq<Byte>, pat: seq<Byte>, anchor: bool, maxS: int, repl: (nat, nat, seq<Cap>) -> seq<Byte>)
    ensures SoFar(src, pat, anchor, maxS, [], 0, 0, [], repl) && !AfterEmpty([])
    ensures maxS <= 0 ==> Moves(src, pat, anchor, maxS, [], Stop)
  {
    hide AnswerAt;
  }

  /** What the matcher's answer leads to. */
  lemma AskedNow(src: seq<Byte>, pat: seq<Byte>, anchor: bool, maxS: int, ps: seq<Piece>, at: nat, n: nat,
      out: seq<Byte>, repl: (nat, nat, seq<Cap>) -> seq<Byte>, r: Option<Outcome>)
    requires SoFar(src, pat, anchor, maxS, ps, at, n, out, repl) && !AfterEmpty(ps) && (anchor ==> ps == [])
    requires n < maxS && AnswerAt(src, pat, at, r)
    ensures Moves(src, pat, anchor, maxS, ps, match r
      case None => if at < |src| then Add(Kept(at)) else Stop
      case Some(Matched(e, caps)) => Add(Replaced(at, e, caps))
      case Some(Fault(message)) => Fail(message))
  {
    hide AnswerAt, Original, Rendered, Cuts;
  }

  lemma Ended(src: seq<Byte>, p: seq<Byte>, repl: (nat, nat, seq<Cap>) -> seq<Byte>, maxS: int, ps: seq<Piece>,
      at: nat, n: nat, out: seq<Byte>, m: Move)
    requires SoFar(src, Core(p), Anchored(p), maxS, ps, at, n, out, repl) && !m.Add?
    requires Moves(src, Core(p), Anchored(p), maxS, ps, m)
    ensures Substituted(src, p, repl, maxS, ps, if m.Stop? then SubDone(out + src[at..], n) else SubFailed(m.message))
  {
    hide AnswerAt, Original, Rendered, Cuts, Moves, Core, Anchored;
  }

  lemma BeginsAt(src: seq<Byte>, pat: seq<Byte>, anchor: bool, maxS: int, ps: seq<Piece>, q: Piece)
    requires Moves(src, pat, anchor, maxS, ps, Add(q))
    ensures match q
      case Kept(x) => x == Pos(ps) < |src|
      case Replaced(start, _, _) => start == Pos(ps)
  {
    hide AnswerAt;
  }

  lemma MoreSoFar(src: seq<Byte>, pat: seq<Byte>, anchor: bool, maxS: int, ps: seq<Piece>, q: Piece, at: nat, n: nat,
      out: seq<Byte>, repl: (nat, nat, seq<Cap>) -> seq<Byte>)
    requires SoFar(src, pat, anchor, maxS, ps, at, n, out, repl) && Moves(src, pat, anchor, maxS, ps, Add(q))
    requires q.Replaced? ==> at <= q.end <= |src|
    ensures SoFar(src, pat, anchor, maxS, ps + [q], if q.Kept? then at + 1 else q.end,
      if q.Kept? then n else n + 1, out + (if q.Kept? then [src[at]] else repl(q.start, q.end, q.caps)), repl)
  {
    hide Moves;
    var qs := ps + [q];
    BeginsAt(src, pat, anchor, maxS, ps, q);
    assert qs[..|qs| - 1] == ps;
    assert at < |src| ==> src[..at] + [src[at]] == src[..at + 1];
    if q.Replaced? {
      assert src[..at] + src[at..q.end] == src[..q.end];
    }
    forall i | 0 <= i < |qs| ensures Moves(src, pat, anchor, maxS, qs[..i], Add(qs[i])) {
      if i < |ps| {
        assert qs[..i] == ps[..i] && qs[i] == ps[i];
      }
    }
  }

  /** What is known of the next move after a piece. */
  lemma AfterPiece(src: seq<Byte>, pat: seq<Byte>, anchor: bool, maxS: int, ps: seq<Piece>, q: Piece)
    requires Moves(src, pat, anchor, maxS, ps, Add(q))
    ensures AfterEmpty(ps + [q]) <==> q.Replaced? && q.start == q.end
    ensures AfterEmpty(ps + [q]) ==> var at := Pos(ps);
      Moves(src, pat, anchor, maxS, ps + [q], if at < |src| then Add(Kept(at)) else Stop)
    ensures !AfterEmpty(ps + [q]) && (anchor || Count(ps) + (if q.Kept? then 0 else 1) >= maxS) ==>
      Moves(src, pat, anchor, maxS, ps + [q], Stop)
  {
    hide AnswerAt;
    assert (ps + [q])[..|ps + [q]| - 1] == ps;
  }

  lemma AddPiece(src: seq<Byte>, pat: seq<Byte>, anchor: bool, maxS: int, ps: seq<Piece>, q: Piece, at: nat, n: nat,
      out: seq<Byte>, repl: (nat, nat, seq<Cap>) -> seq<Byte>)
    requires SoFar(src, pat, anchor, maxS, ps, at, n, out, repl) && Moves(src, pat, anchor, maxS, ps, Add(q))
    requires q.Replaced? ==> at <= q.end <= |src|
    ensures SoFar(src, pat, anchor, maxS, ps + [q], if q.Kept? then at + 1 else q.end,
      if q.Kept? then n else n + 1, out + (if q.Kept? then [src[at]] else repl(q.start, q.end, q.caps)), repl)
    ensures AfterEmpty(ps + [q]) <==> q.Replaced? && q.start == q.end
    ensures AfterEmpty(ps + [q]) ==>
      Moves(src, pat, anchor, maxS, ps + [q], if at < |src| then Add(Kept(at)) else Stop)
    ensures !AfterEmpty(ps + [q]) && (anchor || (if q.Kept? then n else n + 1) >= maxS) ==>
      Moves(src, pat, anchor, maxS, ps + [q], Stop)
  {
    hide Moves, Cuts, Original, Rendered, Count, AfterEmpty;
    MoreSoFar(src, pat, anchor, maxS, ps, q, at, n, out, repl);
    AfterPiece(src, pat, anchor, maxS, ps, q);
  }

  lemma OneAnswer(src: seq<Byte>, pat: seq<Byte>, s: nat, r1: Option<Outcome>, r2: Option<Outcome>)
    requires AnswerAt(src, pat, s, r1) && AnswerAt(src, pat, s, r2)
    ensures r1 == r2
  {
    var t1 :| First(src, pat, true, MAXCCALLS, s, 0, [], t1, r1);
    var t2 :| First(src, pat, true, MAXCCALLS, s, 0, [], t2, r2);
    OneFirst(src, pat, true, MAXCCALLS, s, 0, [], t1, r1, t2, r2);
  }

  /** A search has one result. */
  lemma SearchedOnce(src: seq<Byte>, pat: seq<Byte>, init: nat, anchor: bool, r1: FindResult, r2: FindResult)
    requires init <= |src| && Searched(src, pat, init, anchor, r1) && Searched(src, pat, init, anchor, r2)
    ensures r1 == r2
  {
    hide AnswerAt;
    var k1, a1 := Asked(src, pat, init, anchor, r1);
    var k2, a2 := Asked(src, pat, init, anchor, r2);
    if k1 < k2 && a1.Some? {
      OneAnswer(src, pat, k1, a1, None);
    } else if k2 < k1 && a2.Some? {
      OneAnswer(src, pat, k2, a2, None);
    } else {
      OneAnswer(src, pat, k1, a1, a2);
    }
  }

  /** Where a search ended, and what the matcher said there; before, it found nothing. */
  lemma Asked(src: seq<Byte>, pat: seq<Byte>, init: nat, anchor: bool, r: FindResult)
    returns (k: nat, a: Option<Outcome>)
    requires init <= |src| && Searched(src, pat, init, anchor, r)
    ensures init <= k <= |src| && (anchor ==> k == init) && AnswerAt(src, pat, k, a)
    ensures forall j {:trigger AnswerAt(src, pat, j, None)} :: init <= j < k ==> AnswerAt(src, pat, j, None)
    ensures match r
      case NotFound => a == None && k == if anchor then init else |src|
      case Found(start, end, caps) => k == start && a == Some(Matched(end, caps))
      case Failed(message) => a == Some(Fault(message))
      case Plain(_) => false
  {
    hide AnswerAt;
    match r
    case NotFound =>
      k, a := if anchor then init else |src|, None;
    case Found(start, end, caps) =>
      k, a := start, Some(Matched(end, caps));
    case Failed(message) =>
      a := Some(Fault(message));
      k :| init <= k <= |src| && (anchor ==> k == init) && AnswerAt(src, pat, k, a)
        && forall j {:trigger AnswerAt(src, pat, j, None)} :: init <= j < k ==> AnswerAt(src, pat, j, None);
  }

  lemma OneMove(src: seq<Byte>, pat: seq<Byte>, anchor: bool, maxS: int, ps: seq<Piece>, m1: Move, m2: Move)
    requires Moves(src, pat, anchor, maxS, ps, m1) && Moves(src, pat, anchor, maxS, ps, m2)
    ensures m1 == m2
  {
    hide AnswerAt;
    var a := Pos(ps);
    forall r1, r2 | AnswerAt(src, pat, a, r1) && AnswerAt(src, pat, a, r2) ensures r1 == r2 {
      OneAnswer(src, pat, a, r1, r2);
    }
  }

  lemma {:induction false} SamePieces(src: seq<Byte>, pat: seq<Byte>, anchor: bool, maxS: int, ps: seq<Piece>,
      qs: seq<Piece>, k: nat)
    requires Cuts(src, pat, anchor, maxS, ps) && Cuts(src, pat, anchor, maxS, qs) && k <= |ps| && k <= |qs|
    ensures ps[..k] == qs[..k]
  {
    hide Moves;
    if k > 0 {
      SamePieces(src, pat, anchor, maxS, ps, qs, k - 1);
      OneMove(src, pat, anchor, maxS, ps[..k - 1], Add(ps[k - 1]), Add(qs[k - 1]));
      assert ps[..k] == ps[..k - 1] + [ps[k - 1]] && qs[..k] == qs[..k - 1] + [qs[k - 1]];
    }
  }

  /** The pieces and the result are determined by the subject, the pattern and the limit. */
  lemma SubstitutedOnce(src: seq<Byte>, p: seq<Byte>, repl: (nat, nat, seq<Cap>) -> seq<Byte>, maxS: int,
      ps: seq<Piece>, r: SubResult, qs: seq<Piece>, r': SubResult)
    requires Substituted(src, p, repl, maxS, ps, r) && Substituted(src, p, repl, maxS, qs, r')
    ensures ps == qs && r == r'
  {
    hide Moves, Original, Rendered, Count;
    var pat, anchor := Core(p), Anchored(p);
    var m := if r.SubDone? then Stop else Fail(r.message);
    var m' := if r'.SubDone? then Stop else Fail(r'.message);
    var k := if |ps| < |qs| then |ps| else |qs|;
    SamePieces(src, pat, anchor, maxS, ps, qs, k);
    assert ps[..|ps|] == ps && qs[..|qs|] == qs;
    OneMove(src, pat, anchor, maxS, ps[..k], if k < |ps| then Add(ps[k]) else m, if k < |qs| then Add(qs[k]) else m');
  }

  /** Every match that is replaced is the matcher's, every byte kept has a reason, and only a limit ends it early. */
  lemma SubstitutedFully(src: seq<Byte>, p: seq<Byte>, repl: (nat, nat, seq<Cap>) -> seq<Byte>, maxS: int,
      ps: seq<Piece>, r: SubResult)
    requires Substituted(src, p, repl, maxS, ps, r)
    ensures Honest(src, Core(p), ps) && Needed(src, Core(p), ps)
    ensures r.SubDone? ==> r.n >= maxS || Anchored(p) || Pos(ps) == |src|
    ensures Count(ps) > 0 ==> Count(ps) <= maxS
  {
    hide AnswerAt, Original, Rendered;
    CountLimited(src, Core(p), Anchored(p), maxS, ps);
  }

  lemma {:induction false} CountLimited(src: seq<Byte>, pat: seq<Byte>, anchor: bool, maxS: int, ps: seq<Piece>)
    requires Cuts(src, pat, anchor, maxS, ps)
    ensures Count(ps) > 0 ==> Count(ps) <= maxS
  {
    hide AnswerAt;
    if ps != [] {
      var qs := ps[..|ps| - 1];
      forall i | 0 <= i < |qs| ensures Moves(src, pat, anchor, maxS, qs[..i], Add(qs[i])) {
        assert qs[i] == ps[i] && qs[..i] == ps[..i];
      }
      CountLimited(src, pat, anchor, maxS, qs);
      assert Moves(src, pat, anchor, maxS, qs, Add(ps[|ps| - 1]));
    }
  }

  /** An anchored pattern is tried at the start only: its match there is the one replaced. */
  lemma AnchoredOnce(src: seq<Byte>, p: seq<Byte>, repl: (nat, nat, seq<Cap>) -> seq<Byte>, maxS: int,
      ps: seq<Piece>, r: SubResult)
    requires Substituted(src, p, repl, maxS, ps, r) && Anchored(p) && maxS > 0
    ensures (exists end, caps :: AnswerAt(src, Core(p), 0, Some(Matched(end, caps)))) <==> r.SubDone? && r.n == 1
    ensures AnswerAt(src, Core(p), 0, None) <==> r.SubDone? && r.n == 0
    ensures forall m :: AnswerAt(src, Core(p), 0, Some(Fault(m))) <==> r == SubFailed(m)
    ensures forall end, caps :: AnswerAt(src, Core(p), 0, Some(Matched(end, caps))) ==>
      ps != [] && ps[0] == Replaced(0, end, caps)
  {
    hide AnswerAt, Original, Rendered, Moves;
    var pat := Core(p);
    var m := if ps != [] then Add(ps[0]) else if r.SubDone? then Stop else Fail(r.message);
    assert ps[..0] == [] && (ps == [] ==> Count(ps) == 0);
    assert Moves(src, pat, true, maxS, [], m);
    FirstMove(src, pat, maxS, m);
    if ps != [] {
      OneCounted(src, pat, maxS, ps);
      NoFailure(src, pat, maxS, ps, if r.SubDone? then Stop else Fail(r.message));
    }
  }

  /** The first move follows the matcher's answer at the start. */
  lemma FirstMove(src: seq<Byte>, pat: seq<Byte>, maxS: int, m: Move)
    requires Moves(src, pat, true, maxS, [], m) && maxS > 0
    ensures AnswerAt(src, pat, 0, None) <==> m == Stop || (m.Add? && m.q.Kept?)
    ensures forall end, caps :: AnswerAt(src, pat, 0, Some(Matched(end, caps))) <==> m == Add(Replaced(0, end, caps))
    ensures m.Add? && m.q.Replaced? ==> AnswerAt(src, pat, 0, Some(Matched(m.q.end, m.q.caps)))
    ensures forall message :: AnswerAt(src, pat, 0, Some(Fault(message))) <==> m == Fail(message)
  {
    hide AnswerAt;
    forall r1, r2 | AnswerAt(src, pat, 0, r1) && AnswerAt(src, pat, 0, r2) ensures r1 == r2 {
      OneAnswer(src, pat, 0, r1, r2);
    }
  }

  lemma NoFailure(src: seq<Byte>, pat: seq<Byte>, maxS: int, ps: seq<Piece>, m: Move)
    requires Moves(src, pat, true, maxS, ps, m) && ps != []
    ensures m.Add? ==> m.q.Kept? && ps[|ps| - 1].Replaced?
    ensures !m.Fail?
  {
    hide AnswerAt;
  }

  /** After the first piece there is at most a byte behind an empty match. */
  lemma OneCounted(src: seq<Byte>, pat: seq<Byte>, maxS: int, ps: seq<Piece>)
    requires Cuts(src, pat, true, maxS, ps) && ps != []
    ensures Count(ps) == if ps[0].Replaced? then 1 else 0
  {
    hide Moves;
    if |ps| > 1 {
      assert ps[..1] == [ps[0]];
      NoFailure(src, pat, maxS, ps[..1], Add(ps[1]));
      if |ps| > 2 {
        NoFailure(src, pat, maxS, ps[..2], Add(ps[2]));
      } else {
        assert Count(ps[..1]) == 1;
      }
    } else {
      assert ps[..0] == [];
    }
  }

  /** Replacing every match by its own text gives the subject back. */
  lemma {:induction false} SameText(src: seq<Byte>, ps: seq<Piece>, repl: (nat, nat, seq<Cap>) -> seq<Byte>)
    requires forall start: nat, end: nat, caps :: start <= end <= |src| ==> repl(start, end, caps) == src[start..end]
    requires forall i {:trigger ps[i]} :: 0 <= i < |ps| && ps[i].Replaced? ==> ps[i].start <= ps[i].end <= |src|
    ensures Rendered(src, ps, repl) == Original(src, ps)
  {
    if ps != [] {
      SameText(src, ps[..|ps| - 1], repl);
      assert ps[|ps| - 1].Replaced? ==> ps[|ps| - 1].start <= ps[|ps| - 1].end <= |src|;
    }
  }

  /** A substitution that replaces every match by its own text gives the subject back. */
  lemma SubstitutedSame(src: seq<Byte>, p: seq<Byte>, repl: (nat, nat, seq<Cap>) -> seq<Byte>, maxS: int,
      ps: seq<Piece>, r: SubResult)
    requires forall start: nat, end: nat, caps :: start <= end <= |src| ==> repl(start, end, caps) == src[start..end]
    requires Substituted(src, p, repl, maxS, ps, r) && r.SubDone?
    ensures r.out == src
  {
    hide Moves, AnswerAt, Original, Rendered, Count;
    Inside(src, Core(p), Anchored(p), maxS, ps, |ps|);
    SameText(src, ps, repl);
    assert src[..Pos(ps)] + src[Pos(ps)..] == src;
  }

  lemma {:induction false} Inside(src: seq<Byte>, pat: seq<Byte>, anchor: bool, maxS: int, ps: seq<Piece>, k: nat)
    requires Cuts(src, pat, anchor, maxS, ps) && k <= |ps|
    ensures Pos(ps[..k]) <= |src|
    ensures forall i {:trigger ps[i]} :: 0 <= i < k && ps[i].Replaced? ==> ps[i].start <= ps[i].end <= |src|
  {
    hide AnswerAt, Count;
    if k > 0 {
      Inside(src, pat, anchor, maxS, ps, k - 1);
      var q := ps[k - 1];
      assert Moves(src, pat, anchor, maxS, ps[..k - 1], Add(q)) && ps[..k][k - 1] == q;
      if q.Replaced? {
        AnswerInside(src, pat, q.start, q.end, q.caps);
      }
    }
  }

  lemma AnswerInside(src: seq<Byte>, pat: seq<Byte>, start: nat, end: nat, caps: seq<Cap>)
    requires start <= |src| && AnswerAt(src, pat, start, Some(Matched(end, caps)))
    ensures start <= end <= |src|
  {
    var t :| First(src, pat, true, MAXCCALLS, start, 0, [], t, Some(Matched(end, caps)));
    Forward(src, pat, true, MAXCCALLS, start, 0, [], t, Matched(end, caps));
  }
}
