/**
 The pattern matcher (lstrlib.c): a backtracking search over mutable captures, proved against the
 relation of matches and choices.
 */
module PatternMatch {
  import opened Wrappers

  import opened PatternItems
  import opened PatternRelation

  datatype Result = NoMatch | End(e: nat) | Error(message: string)

  /** What a result says, with the captures that are left. */
  ghost function Answer(r: Result, caps: seq<Cap>): Option<Outcome> {
    match r
    case NoMatch => None
    case End(e) => Some(Matched(e, caps))
    case Error(message) => Some(Fault(message))
  }

  // ----- one item after the other -----

  /** What is possible from `p` is what is possible from `p2`, after the choices `pre`. */
  ghost predicate Reduces(src: seq<Byte>, pat: seq<Byte>, d: nat, s: nat, p: nat, caps: seq<Cap>, pre: seq<nat>,
      call: bool, s2: nat, p2: nat, caps2: seq<Cap>)
    requires p <= |pat| && p2 <= |pat|
  {
    && (forall t, o {:trigger Goes(src, pat, d, s, p, caps, t, o)} :: Goes(src, pat, d, s, p, caps, t, o) ==>
      pre <= t && Possible(src, pat, call, d, s2, p2, caps2, t[|pre|..], o))
    && (forall t, o {:trigger Possible(src, pat, call, d, s2, p2, caps2, t, o)} ::
      Possible(src, pat, call, d, s2, p2, caps2, t, o) ==> Goes(src, pat, d, s, p, caps, pre + t, o))
    && (forall t1, t2 {:trigger Better(pat, p2, t1, t2)} :: Better(pat, p2, t1, t2) ==>
      Better(pat, p, pre + t1, pre + t2))
  }

  lemma ReducesFirst(src: seq<Byte>, pat: seq<Byte>, d: nat, s: nat, p: nat, caps: seq<Cap>, pre: seq<nat>,
      call: bool, s2: nat, p2: nat, caps2: seq<Cap>, t: seq<nat>, r: Option<Outcome>)
    requires p <= |pat| && p2 <= |pat| && Reduces(src, pat, d, s, p, caps, pre, call, s2, p2, caps2)
    requires First(src, pat, call, d, s2, p2, caps2, t, r)
    ensures First(src, pat, false, d, s, p, caps, pre + t, r)
  {
    forall t', o' | Possible(src, pat, false, d, s, p, caps, t', o')
      ensures r.Some? && ((t' == pre + t && o' == r.value) || Better(pat, p, pre + t, t'))
    {
      assert Goes(src, pat, d, s, p, caps, t', o');
      var t2 := t'[|pre|..];
      assert Possible(src, pat, call, d, s2, p2, caps2, t2, o') && t' == pre + t2;
    }
    if r.Some? {
      assert Goes(src, pat, d, s, p, caps, pre + t, r.value);
    }
  }

  lemma ReducesNothing(src: seq<Byte>, pat: seq<Byte>, d: nat, s: nat, p: nat, caps: seq<Cap>)
    requires p <= |pat|
    ensures Reduces(src, pat, d, s, p, caps, [], false, s, p, caps)
  {
    forall t: seq<nat> ensures t[0..] == t && [] + t == t {
    }
  }

  lemma ReducesTrans(src: seq<Byte>, pat: seq<Byte>, d: nat, s: nat, p: nat, caps: seq<Cap>, pre: seq<nat>, s1: nat,
      p1: nat,
      pre1: seq<nat>, s2: nat, p2: nat)
    requires p <= |pat| && p1 <= |pat| && p2 <= |pat|
    requires Reduces(src, pat, d, s, p, caps, pre, false, s1, p1, caps)
    requires Reduces(src, pat, d, s1, p1, caps, pre1, false, s2, p2, caps)
    ensures Reduces(src, pat, d, s, p, caps, pre + pre1, false, s2, p2, caps)
  {
    forall t, o | Goes(src, pat, d, s, p, caps, t, o)
      ensures pre + pre1 <= t && Possible(src, pat, false, d, s2, p2, caps, t[|pre + pre1|..], o)
    {
      var t1 := t[|pre|..];
      assert Possible(src, pat, false, d, s1, p1, caps, t1, o);
      assert t1[|pre1|..] == t[|pre + pre1|..];
      assert t == pre + t1 && t1 == pre1 + t1[|pre1|..];
    }
    forall t, o | Possible(src, pat, false, d, s2, p2, caps, t, o)
      ensures Goes(src, pat, d, s, p, caps, pre + pre1 + t, o) {
      assert Possible(src, pat, false, d, s1, p1, caps, pre1 + t, o);
      assert pre + pre1 + t == pre + (pre1 + t);
    }
    forall t1, t2 | Better(pat, p2, t1, t2) ensures Better(pat, p, pre + pre1 + t1, pre + pre1 + t2) {
      assert Better(pat, p1, pre1 + t1, pre1 + t2);
      assert pre + pre1 + t1 == pre + (pre1 + t1) && pre + pre1 + t2 == pre + (pre1 + t2);
    }
  }

  /** An item without a choice, and what comes after it. */
  ghost predicate Forced(src: seq<Byte>, pat: seq<Byte>, s: nat, p: nat, caps: seq<Cap>, call: bool, s2: nat, p2: nat,
      caps2: seq<Cap>)
    requires p < |pat|
  {
    match ItemAt(pat, p)
    case Open(position, next) =>
      |caps| < LUA_MAXCAPTURES && call && s2 == s && p2 == next
        && caps2 == caps + [Cap(s, if position then CAP_POSITION else CAP_UNFINISHED)]
    case Close(next) =>
      && LastOpen(caps) >= 0 && call && s2 == s && p2 == next
      && caps2 == caps[LastOpen(caps) := Cap(caps[LastOpen(caps)].init, s - caps[LastOpen(caps)].init)]
    case Balance(x, y, next) => Balanced(src, s, s2, x, y) && !call && p2 == next && caps2 == caps
    case Frontier(start, next) =>
      && !InSet(pat, start, next - 1, Before(src, s)) && InSet(pat, start, next - 1, At(src, s))
      && !call && s2 == s && p2 == next && caps2 == caps
    case BackRef(digit, next) =>
      && CaptureIndex(caps, digit) >= 0 && Again(src, s, caps[CaptureIndex(caps, digit)])
      && !call && s2 == s + caps[CaptureIndex(caps, digit)].len && p2 == next && caps2 == caps
    case Chars(ep, suffix, next) => suffix.One? && Single(src, s, pat, p, ep) && !call && s2 == s + 1 && p2 == next
      && caps2 == caps
    case _ => false
  }

  /** An item without a choice. */
  lemma Plain(src: seq<Byte>, pat: seq<Byte>, d: nat, s: nat, p: nat, caps: seq<Cap>, call: bool, s2: nat, p2: nat,
      caps2: seq<Cap>)
    requires p < |pat| && p2 <= |pat| && Forced(src, pat, s, p, caps, call, s2, p2, caps2)
    ensures Reduces(src, pat, d, s, p, caps, [], call, s2, p2, caps2)
  {
    forall t: seq<nat> ensures t[0..] == t && [] + t == t {
    }
    if ItemAt(pat, p).Balance? {
      forall t, o | Goes(src, pat, d, s, p, caps, t, o) ensures Possible(src, pat, call, d, s2, p2, caps2, t, o) {
        var e :| Balanced(src, s, e, ItemAt(pat, p).x, ItemAt(pat, p).y) && Goes(src, pat, d, e, p2, caps, t, o);
        OneBalance(src, s, e, s2, ItemAt(pat, p).x, ItemAt(pat, p).y);
      }
    }
  }

  /** A repetition needs a character that matches, and an optional one goes on after it. */
  lemma Repeated(src: seq<Byte>, pat: seq<Byte>, d: nat, s: nat, p: nat, caps: seq<Cap>, ep: nat, suffix: Suffix,
      next: nat, n: nat, t: seq<nat>, o: Outcome)
    requires p < next <= |pat| && Chosen(src, pat, d, s, p, caps, ep, suffix, next, n, t, o)
    ensures n > 0 ==> Single(src, s, pat, p, ep)
    ensures n > 0 && suffix.Opt? ==> Possible(src, pat, true, d, s + 1, next, caps, t, o)
  {
    if n > 0 {
      assert Single(src, s, pat, p, ep);
    }
  }

  /** The choice of no repetition, when no other is possible. */
  lemma Zero(src: seq<Byte>, pat: seq<Byte>, d: nat, s: nat, p: nat, caps: seq<Cap>)
    requires p < |pat| && ItemAt(pat, p).Chars? && !ItemAt(pat, p).suffix.One? && !ItemAt(pat, p).suffix.Plus?
    requires Single(src, s, pat, p, ItemAt(pat, p).ep) ==>
      ItemAt(pat, p).suffix.Opt? && First(src, pat, true, d, s + 1, ItemAt(pat, p).next, caps, [], None)
    ensures Reduces(src, pat, d, s, p, caps, [0], false, s, ItemAt(pat, p).next, caps)
  {
    var ep, suffix, next := ItemAt(pat, p).ep, ItemAt(pat, p).suffix, ItemAt(pat, p).next;
    forall t: seq<nat> ensures ([0] + t)[1..] == t && ([0] + t)[0] == 0 {
    }
    forall t, o | Goes(src, pat, d, s, p, caps, t, o)
      ensures [0] <= t && Possible(src, pat, false, d, s, next, caps, t[1..], o)
    {
      assert Chosen(src, pat, d, s, p, caps, ep, suffix, next, t[0], t[1..], o);
      Repeated(src, pat, d, s, p, caps, ep, suffix, next, t[0], t[1..], o);
    }
  }

  /** A longer or shorter repetition comes first: the choice `n` that was found, after those that are not possible. */
  lemma Found(src: seq<Byte>, pat: seq<Byte>, d: nat, s: nat, p: nat, caps: seq<Cap>, n: nat, t: seq<nat>, r: Outcome)
    requires p < |pat| && ItemAt(pat, p).Chars? && !ItemAt(pat, p).suffix.One?
    requires var item := ItemAt(pat, p);
      && Single(src, s, pat, p, item.ep) && (item.suffix.Opt? ==> n == 1) && (item.suffix.Plus? ==> n > 0)
        && Reps(src, s, pat, p, item.ep, n)
      && First(src, pat, true, d, s + n, item.next, caps, t, Some(r))
      && forall m: nat {:trigger Tried(src, pat, d, s, p, caps, m)} :: Sooner(item.suffix, m, n) ==>
        Tried(src, pat, d, s, p, caps, m)
    ensures First(src, pat, false, d, s, p, caps, [n] + t, Some(r))
  {
    var item := ItemAt(pat, p);
    assert ([n] + t)[1..] == t && ([n] + t)[0] == n;
    assert Chosen(src, pat, d, s, p, caps, item.ep, item.suffix, item.next, n, t, r);
    assert Goes(src, pat, d, s, p, caps, [n] + t, r);
    forall t', o' | Goes(src, pat, d, s, p, caps, t', o') ensures (t' == [n] + t && o' == r)
      || Better(pat, p, [n] + t, t') {
      assert t' == [t'[0]] + t'[1..];
      if t'[0] == n {
        AfterChoice(src, pat, d, s, p, caps, item.ep, item.suffix, item.next, n, t'[1..], o');
        assert Possible(src, pat, true, d, s + n, item.next, caps, t'[1..], o');
      } else {
        assert Sooner(item.suffix, t'[0], n) ==> Tried(src, pat, d, s, p, caps, t'[0]);
      }
    }
  }

  /** The choice `n` is not possible. */
  ghost predicate Tried(src: seq<Byte>, pat: seq<Byte>, d: nat, s: nat, p: nat, caps: seq<Cap>, n: nat)
    requires p <= |pat|
  {
    forall t, o {:trigger Goes(src, pat, d, s, p, caps, t, o)} :: Goes(src, pat, d, s, p, caps, t, o) ==>
      t != [] && t[0] != n
  }

  lemma TriedOne(src: seq<Byte>, pat: seq<Byte>, d: nat, s: nat, p: nat, caps: seq<Cap>, n: nat, t: seq<nat>)
    requires p < |pat| && ItemAt(pat, p).Chars? && !ItemAt(pat, p).suffix.One?
    requires !(ItemAt(pat, p).suffix.Opt? && n == 0)
    requires var item := ItemAt(pat, p);
      Single(src, s, pat, p, item.ep) && First(src, pat, true, d, s + n, item.next, caps, t, None)
    ensures Tried(src, pat, d, s, p, caps, n)
  {
    var item := ItemAt(pat, p);
    forall t, o | Goes(src, pat, d, s, p, caps, t, o) ensures t != [] && t[0] != n {
      if t[0] == n {
        AfterChoice(src, pat, d, s, p, caps, item.ep, item.suffix, item.next, n, t[1..], o);
      }
    }
  }

  /** Repetitions that do not match, or are not allowed, are not possible. */
  lemma TriedBad(src: seq<Byte>, pat: seq<Byte>, d: nat, s: nat, p: nat, caps: seq<Cap>, n: nat)
    requires p < |pat| && ItemAt(pat, p).Chars? && !ItemAt(pat, p).suffix.One? && !ItemAt(pat, p).suffix.Opt?
    requires !Reps(src, s, pat, p, ItemAt(pat, p).ep, n) || (n == 0 && ItemAt(pat, p).suffix.Plus?)
    ensures Tried(src, pat, d, s, p, caps, n)
  {
  }

  /** When every choice was tried, there is no match. */
  lemma TriedAll(src: seq<Byte>, pat: seq<Byte>, d: nat, s: nat, p: nat, caps: seq<Cap>)
    requires p < |pat| && ItemAt(pat, p).Chars? && !ItemAt(pat, p).suffix.One?
    requires forall n: nat :: Tried(src, pat, d, s, p, caps, n)
    ensures First(src, pat, false, d, s, p, caps, [], None)
  {
    forall t: seq<nat>, o ensures !Possible(src, pat, false, d, s, p, caps, t, o) {
      assert Tried(src, pat, d, s, p, caps, if t == [] then 0 else t[0]);
    }
  }

  ghost predicate NeverBalanced(src: seq<Byte>, s: nat, x: Byte, y: Byte) {
    forall e: nat {:trigger Balanced(src, s, e, x, y)} :: !Balanced(src, s, e, x, y)
  }

  datatype Step = Goto(s: nat, p: nat) | Done(r: Result)

  class MatchState {
    const src: seq<Byte>
    const pat: seq<Byte>
    var matchdepth: nat
    var level: nat
    const capture: array<Cap>

    ghost predicate Valid()
      reads this
    {
      capture.Length == LUA_MAXCAPTURES && level <= LUA_MAXCAPTURES
    }

    ghost function Caps(): seq<Cap>
      requires Valid()
      reads this, capture
    {
      capture[..level]
    }

    constructor (src: seq<Byte>, pat: seq<Byte>)
      ensures Valid() && fresh(capture) && this.src == src && this.pat == pat && matchdepth == MAXCCALLS && level == 0
    {
      this.src, this.pat, matchdepth, level := src, pat, MAXCCALLS, 0;
      capture := new Cap[LUA_MAXCAPTURES](_ => Cap(0, CAP_UNFINISHED));
    }

    // ----- what needs no search -----

    /** `capture_to_close`. */
    method CaptureToClose() returns (l: int)
      requires Valid()
      ensures l == LastOpen(Caps())
    {
      l := level - 1;
      assert Caps()[..level] == Caps();
      while l >= 0
        invariant -1 <= l < level
        invariant LastOpen(Caps()) == LastOpen(Caps()[..l + 1])
      {
        assert Caps()[..l + 1][..l] == Caps()[..l];
        if capture[l].len == CAP_UNFINISHED {
          return;
        }
        l := l - 1;
      }
    }

    /** `matchbalance`. */
    method MatchBalance(s: nat, p: nat) returns (e: int)
      requires p + 1 < |pat| && s <= |src|
      ensures e >= 0 ==> Balanced(src, s, e, pat[p], pat[p + 1])
      ensures e < 0 ==> NeverBalanced(src, s, pat[p], pat[p + 1])
    {
      if At(src, s) != pat[p] {
        return -1;
      }
      var x, y := pat[p], pat[p + 1];
      var cont, i := 1, s + 1;
      while i < |src|
        invariant s < i && (i <= |src| || i == |src| + 1 == s + 1)
        invariant i <= |src| ==> cont == Depth(src, s, i, x, y) && forall k :: s < k <= i ==> Depth(src, s, k, x, y) > 0
      {
        if src[i] == y {
          cont := cont - 1;
          if cont == 0 {
            return i + 1;
          }
        } else if src[i] == x {
          cont := cont + 1;
        }
        i := i + 1;
      }
      return -1;
    }

    /** `match_capture`, on a capture that is closed. */
    method MatchCapture(s: nat, l: nat) returns (e: int)
      requires Valid() && l < level && s <= |src|
      ensures e >= 0 ==> Again(src, s, capture[l]) && e == s + capture[l].len
      ensures e < 0 ==> !Again(src, s, capture[l])
    {
      var len := capture[l].len;
      if len >= 0 && |src| - s >= len && capture[l].init + len <= |src|
        && src[capture[l].init..capture[l].init + len] == src[s..s + len] {
        return s + len;
      }
      return -1;
    }

    // ----- the search -----

    method Match(s: nat, p: nat) returns (r: Result, ghost t: seq<nat>)
      requires Valid() && s <= |src| && p <= |pat|
      modifies `matchdepth, `level, capture
      ensures Valid() && First(src, pat, true, old(matchdepth), s, p, old(Caps()), t, Answer(r, Caps()))
      ensures !r.Error? ==> matchdepth == old(matchdepth)
      ensures r.NoMatch? ==> Caps() == old(Caps()) && t == []
      ensures r.End? ==> r.e <= |src|
      decreases |pat| - p, 5
    {
      if matchdepth == 0 {
        return Error(TOO_COMPLEX), [];
      }
      matchdepth := matchdepth - 1;
      r, t := DoMatch(s, p);
      if !r.Error? {
        matchdepth := matchdepth + 1;
      }
      assert First(src, pat, false, old(matchdepth) - 1, s, p, old(Caps()), t, Answer(r, Caps()));
      CallFirst(src, pat, old(matchdepth), s, p, old(Caps()), t, Answer(r, Caps()));
    }

    /** The items one after the other, until one needs a choice that is made by recursion. */
    method DoMatch(s0: nat, p0: nat) returns (r: Result, ghost t: seq<nat>)
      requires Valid() && s0 <= |src| && p0 <= |pat|
      modifies `matchdepth, `level, capture
      ensures Valid() && First(src, pat, false, old(matchdepth), s0, p0, old(Caps()), t, Answer(r, Caps()))
      ensures !r.Error? ==> matchdepth == old(matchdepth)
      ensures r.NoMatch? ==> Caps() == old(Caps()) && t == []
      ensures r.End? ==> r.e <= |src|
      decreases |pat| - p0, 4
    {
      ghost var d, caps := matchdepth, Caps();
      var s: nat, p: nat := s0, p0;
      ghost var pre: seq<nat> := [];
      ReducesNothing(src, pat, d, s, p, caps);
      while p < |pat|
        invariant Valid() && s <= |src| && p0 <= p <= |pat| && matchdepth == d && Caps() == caps
        invariant Reduces(src, pat, d, s0, p0, caps, pre, false, s, p, caps)
        decreases |pat| - p
      {
        var step; ghost var t1;
        step, t1 := OneItem(s, p);
        match step
        case Goto(s1, p1) =>
          ReducesTrans(src, pat, d, s0, p0, caps, pre, s, p, t1, s1, p1);
          s, p, pre := s1, p1, pre + t1;
        case Done(r1) =>
          ReducesFirst(src, pat, d, s0, p0, caps, pre, false, s, p, caps, t1, Answer(r1, Caps()));
          NoTrace(src, pat, d, s0, p0, caps, pre + t1, Answer(r1, Caps()));
          return r1, if r1.NoMatch? then [] else pre + t1;
      }
      FinalFirst(src, pat, d, s, caps);
      ReducesFirst(src, pat, d, s0, p0, caps, pre, false, s, p, caps, [], Some(Matched(s, caps)));
      assert pre + [] == pre;
      return End(s), pre;
    }

    /** One item: it is passed, or decides. */
    method OneItem(s: nat, p: nat) returns (step: Step, ghost t: seq<nat>)
      requires Valid() && s <= |src| && p < |pat|
      modifies `matchdepth, `level, capture
      ensures Valid()
      ensures match step
        case Goto(s1, p1) =>
          && s1 <= |src| && p < p1 <= |pat| && Caps() == old(Caps()) && matchdepth == old(matchdepth)
          && Reduces(src, pat, old(matchdepth), s, p, old(Caps()), t, false, s1, p1, old(Caps()))
        case Done(r) =>
          && First(src, pat, false, old(matchdepth), s, p, old(Caps()), t, Answer(r, Caps()))
          && (!r.Error? ==> matchdepth == old(matchdepth)) && (r.NoMatch? ==> Caps() == old(Caps()))
            && (r.End? ==> r.e <= |src|)
      decreases |pat| - p, 3
    {
      ghost var d, caps := matchdepth, Caps();
      var r: Result;
      if Is(pat[p], '(') {
        if Is(At(pat, p + 1), ')') {
          r, t := StartCapture(s, p, p + 2, CAP_POSITION);
        } else {
          r, t := StartCapture(s, p, p + 1, CAP_UNFINISHED);
        }
        return Done(r), t;
      } else if Is(pat[p], ')') {
        r, t := EndCapture(s, p);
        return Done(r), t;
      } else if Is(pat[p], '$') && p + 1 == |pat| {
        AnchorFirst(src, pat, d, s, p, caps);
        return Done(if s == |src| then End(s) else NoMatch), [];
      } else if pat[p] == L_ESC && Is(At(pat, p + 1), 'b') {
        if p + 2 >= |pat| - 1 {
          WrongFirst(src, pat, d, s, p, caps);
          return Done(Error(MISSING_ARGUMENTS)), [];
        }
        var e := MatchBalance(s, p + 2);
        if e >= 0 {
          Plain(src, pat, d, s, p, caps, false, e, p + 4, caps);
          return Goto(e, p + 4), [];
        }
        NoFirst(src, pat, d, s, p, caps);
        return Done(NoMatch), [];
      } else if pat[p] == L_ESC && Is(At(pat, p + 1), 'f') {
        step := FrontierItem(s, p);
        return step, [];
      } else if pat[p] == L_ESC && IsDigit(At(pat, p + 1)) {
        step := BackRefItem(s, p);
        return step, [];
      }
      step, t := CharsItem(s, p);
    }

    method FrontierItem(s: nat, p: nat) returns (step: Step)
      requires Valid() && s <= |src| && p < |pat| && pat[p] == L_ESC && Is(At(pat, p + 1), 'f')
      ensures match step
        case Goto(s1, p1) => s1 <= |src| && p < p1 <= |pat|
          && Reduces(src, pat, matchdepth, s, p, Caps(), [], false, s1, p1, Caps())
        case Done(r) => !r.End? && First(src, pat, false, matchdepth, s, p, Caps(), [], Answer(r, Caps()))
    {
      if !Is(At(pat, p + 2), '[') {
        WrongFirst(src, pat, matchdepth, s, p, Caps());
        return Done(Error(MISSING_SET));
      }
      var end := ClassEnd(pat, p + 2);
      match end
      case Bad(message) =>
        WrongFirst(src, pat, matchdepth, s, p, Caps());
        return Done(Error(message));
      case Ends(ep) =>
        var previous := if s == 0 then 0 else src[s - 1];
        var before := MatchBracketClass(previous, pat, p + 2, ep - 1);
        var here := MatchBracketClass(At(src, s), pat, p + 2, ep - 1);
        if !before && here {
          Plain(src, pat, matchdepth, s, p, Caps(), false, s, ep, Caps());
          return Goto(s, ep);
        }
        NoFirst(src, pat, matchdepth, s, p, Caps());
        return Done(NoMatch);
    }

    method BackRefItem(s: nat, p: nat) returns (step: Step)
      requires Valid() && s <= |src| && p < |pat| && pat[p] == L_ESC && IsDigit(At(pat, p + 1))
      ensures match step
        case Goto(s1, p1) => s1 <= |src| && p < p1 <= |pat|
          && Reduces(src, pat, matchdepth, s, p, Caps(), [], false, s1, p1, Caps())
        case Done(r) => !r.End? && First(src, pat, false, matchdepth, s, p, Caps(), [], Answer(r, Caps()))
    {
      var l := At(pat, p + 1) - '1' as int;
      if l < 0 || l >= level || capture[l].len == CAP_UNFINISHED {
        BadIndexFirst(src, pat, matchdepth, s, p, Caps());
        return Done(Error(BAD_INDEX));
      }
      var e := MatchCapture(s, l);
      if e >= 0 {
        Plain(src, pat, matchdepth, s, p, Caps(), false, e, p + 2, Caps());
        return Goto(e, p + 2);
      }
      NoFirst(src, pat, matchdepth, s, p, Caps());
      return Done(NoMatch);
    }

    /** A single-character item with its suffix (`dflt`). */
    method CharsItem(s: nat, p: nat) returns (step: Step, ghost t: seq<nat>)
      requires Valid() && s <= |src| && p < |pat| && (ItemAt(pat, p).Chars? || ItemEnd(pat, p).Bad?)
      requires ItemEnd(pat, p).Bad? ==> ItemAt(pat, p) == Wrong(ItemEnd(pat, p).message)
      requires ItemEnd(pat, p).Ends? ==> ItemAt(pat, p).ep == ItemEnd(pat, p).at
      modifies `matchdepth, `level, capture
      ensures Valid()
      ensures match step
        case Goto(s1, p1) =>
          && s1 <= |src| && p < p1 <= |pat| && Caps() == old(Caps()) && matchdepth == old(matchdepth)
          && Reduces(src, pat, old(matchdepth), s, p, old(Caps()), t, false, s1, p1, old(Caps()))
        case Done(r) =>
          && First(src, pat, false, old(matchdepth), s, p, old(Caps()), t, Answer(r, Caps()))
          && (!r.Error? ==> matchdepth == old(matchdepth)) && (r.NoMatch? ==> Caps() == old(Caps()))
            && (r.End? ==> r.e <= |src|)
      decreases |pat| - p, 2
    {
      hide IsPunct, SetHas, ItemEnd, SuffixOf, CaptureIndex, Reps, Before, Goes, Better, First, Possible, Reduces,
        Forced, Tried, NeverBalanced;
      ghost var d, caps := matchdepth, Caps();
      var end := ClassEnd(pat, p);
      if end.Bad? {
        WrongFirst(src, pat, d, s, p, caps);
        return Done(Error(end.message)), [];
      }
      var ep, suffix := end.at, SuffixOf(At(pat, end.at));
      var single := SingleMatch(src, s, pat, p, ep);
      var r: Result;
      if !single {
        if suffix.Star? || suffix.Opt? || suffix.Lazy? {
          Zero(src, pat, d, s, p, caps);
          return Goto(s, ep + 1), [0];
        }
        NoFirst(src, pat, d, s, p, caps);
        return Done(NoMatch), [];
      }
      match suffix
      case Opt =>
        r, t := Match(s + 1, ep + 1);
        if !r.NoMatch? {
          Found(src, pat, d, s, p, caps, 1, t, Answer(r, Caps()).value) by {
            OptTried(src, pat, d, s, p, caps);
          }
          return Done(r), [1] + t;
        }
        Zero(src, pat, d, s, p, caps);
        return Goto(s, ep + 1), [0];
      case Plus =>
        r, t := MaxExpand(s + 1, p, ep, s);
        return Done(r), t;
      case Star =>
        r, t := MaxExpand(s, p, ep, s);
        return Done(r), t;
      case Lazy =>
        r, t := MinExpand(s, p, ep);
        return Done(r), t;
      case One =>
        Plain(src, pat, d, s, p, caps, false, s + 1, ep, caps);
        return Goto(s + 1, ep), [];
    }

    /** `max_expand`: as many repetitions as there are, then fewer. */
    method MaxExpand(s: nat, p: nat, ep: nat, ghost s0: nat) returns (r: Result, ghost t: seq<nat>)
      requires Valid() && s <= |src| && p < |pat| && ItemAt(pat, p).Chars? && ItemAt(pat, p).ep == ep
      requires Single(src, s0, pat, p, ep) && s == if ItemAt(pat, p).suffix.Plus? then s0 + 1 else s0
      requires ItemAt(pat, p).suffix.Plus? || ItemAt(pat, p).suffix.Star?
      modifies `matchdepth, `level, capture
      ensures Valid() && First(src, pat, false, old(matchdepth), s0, p, old(Caps()), t, Answer(r, Caps()))
      ensures !r.Error? ==> matchdepth == old(matchdepth)
      ensures r.NoMatch? ==> Caps() == old(Caps())
      ensures r.End? ==> r.e <= |src|
      decreases |pat| - p, 1
    {
      ghost var d, caps := matchdepth, Caps();
      var i := 0;
      var more := SingleMatch(src, s, pat, p, ep);
      while more
        invariant s + i <= |src| && more == Single(src, s + i, pat, p, ep)
        invariant Valid() && matchdepth == d && Caps() == caps
        invariant forall k {:trigger Single(src, k, pat, p, ep)} :: s <= k < s + i ==> Single(src, k, pat, p, ep)
        decreases |src| - s - i
      {
        i := i + 1;
        more := SingleMatch(src, s + i, pat, p, ep);
      }
      MoreThan(src, pat, d, s0, p, caps, s + i - s0);
      while i >= 0
        invariant -1 <= i && s + i <= |src|
        invariant Valid() && matchdepth == d && Caps() == caps
        invariant forall k {:trigger Single(src, k, pat, p, ep)} :: s <= k < s + i ==> Single(src, k, pat, p, ep)
        invariant forall m: nat {:trigger Tried(src, pat, d, s0, p, caps, m)} :: m > s + i - s0 ==>
          Tried(src, pat, d, s0, p, caps, m)
      {
        ghost var n: nat := s + i - s0;
        r, t := Match(s + i, ep + 1);
        if !r.NoMatch? {
          Found(src, pat, d, s0, p, caps, n, t, Answer(r, Caps()).value);
          t := [n] + t;
          return;
        }
        TriedOne(src, pat, d, s0, p, caps, n, t);
        i := i - 1;
      }
      if ItemAt(pat, p).suffix.Plus? {
        TriedBad(src, pat, d, s0, p, caps, 0);
      }
      TriedAll(src, pat, d, s0, p, caps);
      return NoMatch, [];
    }

    /** `min_expand`: as few repetitions as possible. */
    method MinExpand(s0: nat, p: nat, ep: nat) returns (r: Result, ghost t: seq<nat>)
      requires Valid() && s0 <= |src| && p < |pat| && ItemAt(pat, p).Chars? && ItemAt(pat, p).ep == ep
      requires ItemAt(pat, p).suffix.Lazy?
      requires Single(src, s0, pat, p, ep)
      modifies `matchdepth, `level, capture
      ensures Valid() && First(src, pat, false, old(matchdepth), s0, p, old(Caps()), t, Answer(r, Caps()))
      ensures !r.Error? ==> matchdepth == old(matchdepth)
      ensures r.NoMatch? ==> Caps() == old(Caps())
      ensures r.End? ==> r.e <= |src|
      decreases |pat| - p, 1
    {
      ghost var d, caps := matchdepth, Caps();
      var s := s0;
      while true
        invariant s0 <= s <= |src| && Valid() && matchdepth == d && Caps() == caps
        invariant forall k {:trigger Single(src, k, pat, p, ep)} :: s0 <= k < s ==> Single(src, k, pat, p, ep)
        invariant forall m: nat {:trigger Tried(src, pat, d, s0, p, caps, m)} :: m < s - s0 ==>
          Tried(src, pat, d, s0, p, caps, m)
        decreases |src| - s
      {
        r, t := Match(s, ep + 1);
        if !r.NoMatch? {
          Found(src, pat, d, s0, p, caps, s - s0, t, Answer(r, Caps()).value);
          t := [s - s0] + t;
          return;
        }
        TriedOne(src, pat, d, s0, p, caps, s - s0, t);
        var more := SingleMatch(src, s, pat, p, ep);
        if !more {
          MoreThan(src, pat, d, s0, p, caps, s - s0);
          TriedAll(src, pat, d, s0, p, caps);
          return NoMatch, [];
        }
        s := s + 1;
      }
    }

    /** `start_capture`. */
    method StartCapture(s: nat, p: nat, next: nat, what: int) returns (r: Result, ghost t: seq<nat>)
      requires Valid() && s <= |src| && p < |pat| && ItemAt(pat, p) == Open(what == CAP_POSITION, next)
      requires what == CAP_POSITION || what == CAP_UNFINISHED
      modifies `matchdepth, `level, capture
      ensures Valid() && First(src, pat, false, old(matchdepth), s, p, old(Caps()), t, Answer(r, Caps()))
      ensures !r.Error? ==> matchdepth == old(matchdepth)
      ensures r.NoMatch? ==> Caps() == old(Caps())
      ensures r.End? ==> r.e <= |src|
      decreases |pat| - p, 1
    {
      ghost var d, caps := matchdepth, Caps();
      if level >= LUA_MAXCAPTURES {
        TooManyFirst(src, pat, d, s, p, caps);
        return Error(TOO_MANY), [];
      }
      capture[level] := Cap(s, what);
      level := level + 1;
      ghost var caps1 := Caps();
      assert caps1 == caps + [Cap(s, what)];
      r, t := Match(s, next);
      Plain(src, pat, d, s, p, caps, true, s, next, caps1);
      ReducesFirst(src, pat, d, s, p, caps, [], true, s, next, caps1, t, Answer(r, Caps()));
      assert [] + t == t;
      if r.NoMatch? {
        level := level - 1;
        assert Caps() == caps1[..|caps|];
      }
    }

    /** `end_capture`. */
    method EndCapture(s: nat, p: nat) returns (r: Result, ghost t: seq<nat>)
      requires Valid() && s <= |src| && p < |pat| && ItemAt(pat, p) == Close(p + 1)
      modifies `matchdepth, `level, capture
      ensures Valid() && First(src, pat, false, old(matchdepth), s, p, old(Caps()), t, Answer(r, Caps()))
      ensures !r.Error? ==> matchdepth == old(matchdepth)
      ensures r.NoMatch? ==> Caps() == old(Caps())
      ensures r.End? ==> r.e <= |src|
      decreases |pat| - p, 1
    {
      ghost var d, caps := matchdepth, Caps();
      var l := CaptureToClose();
      if l < 0 {
        NotOpenFirst(src, pat, d, s, p, caps);
        return Error(NOT_OPEN), [];
      }
      capture[l] := Cap(capture[l].init, s - capture[l].init);
      ghost var caps1 := Caps();
      assert caps1 == caps[l := Cap(caps[l].init, s - caps[l].init)];
      r, t := Match(s, p + 1);
      Plain(src, pat, d, s, p, caps, true, s, p + 1, caps1);
      ReducesFirst(src, pat, d, s, p, caps, [], true, s, p + 1, caps1, t, Answer(r, Caps()));
      assert [] + t == t;
      if r.NoMatch? {
        assert capture[l] == caps1[l] by {
          assert Caps()[l] == caps1[l];
        }
        capture[l] := Cap(capture[l].init, CAP_UNFINISHED);
        assert Caps() == caps1[l := caps[l]];
      }
    }
  }

  lemma CallFirst(src: seq<Byte>, pat: seq<Byte>, d: nat, s: nat, p: nat, caps: seq<Cap>, t: seq<nat>,
      r: Option<Outcome>)
    requires p <= |pat| && d > 0 && First(src, pat, false, d - 1, s, p, caps, t, r)
    ensures First(src, pat, true, d, s, p, caps, t, r)
  {
    forall t', o ensures Possible(src, pat, true, d, s, p, caps, t', o) <==>
      Possible(src, pat, false, d - 1, s, p, caps, t', o) {
    }
  }

  /** No match has no choices. */
  lemma NoTrace(src: seq<Byte>, pat: seq<Byte>, d: nat, s: nat, p: nat, caps: seq<Cap>, t: seq<nat>, r: Option<Outcome>)
    requires p <= |pat| && First(src, pat, false, d, s, p, caps, t, r)
    ensures r.None? ==> First(src, pat, false, d, s, p, caps, [], r)
  {
  }

  lemma FinalFirst(src: seq<Byte>, pat: seq<Byte>, d: nat, s: nat, caps: seq<Cap>)
    ensures First(src, pat, false, d, s, |pat|, caps, [], Some(Matched(s, caps)))
  {
  }

  lemma AnchorFirst(src: seq<Byte>, pat: seq<Byte>, d: nat, s: nat, p: nat, caps: seq<Cap>)
    requires p < |pat| && ItemAt(pat, p).Anchor?
    ensures First(src, pat, false, d, s, p, caps, [], if s == |src| then Some(Matched(s, caps)) else None)
  {
  }

  lemma WrongFirst(src: seq<Byte>, pat: seq<Byte>, d: nat, s: nat, p: nat, caps: seq<Cap>)
    requires p < |pat| && ItemAt(pat, p).Wrong?
    ensures First(src, pat, false, d, s, p, caps, [], Some(Fault(ItemAt(pat, p).error)))
  {
  }

  lemma TooManyFirst(src: seq<Byte>, pat: seq<Byte>, d: nat, s: nat, p: nat, caps: seq<Cap>)
    requires p < |pat| && ItemAt(pat, p).Open? && |caps| >= LUA_MAXCAPTURES
    ensures First(src, pat, false, d, s, p, caps, [], Some(Fault(TOO_MANY)))
  {
  }

  lemma NotOpenFirst(src: seq<Byte>, pat: seq<Byte>, d: nat, s: nat, p: nat, caps: seq<Cap>)
    requires p < |pat| && ItemAt(pat, p).Close? && LastOpen(caps) < 0
    ensures First(src, pat, false, d, s, p, caps, [], Some(Fault(NOT_OPEN)))
  {
  }

  lemma BadIndexFirst(src: seq<Byte>, pat: seq<Byte>, d: nat, s: nat, p: nat, caps: seq<Cap>)
    requires p < |pat| && ItemAt(pat, p).BackRef? && CaptureIndex(caps, ItemAt(pat, p).digit) < 0
    ensures First(src, pat, false, d, s, p, caps, [], Some(Fault(BAD_INDEX)))
  {
  }

  /** Items that do not match here. */
  ghost predicate Fails(src: seq<Byte>, pat: seq<Byte>, s: nat, p: nat, caps: seq<Cap>)
    requires p < |pat|
  {
    match ItemAt(pat, p)
    case Balance(x, y, next) => NeverBalanced(src, s, x, y)
    case Frontier(start, next) => InSet(pat, start, next - 1, Before(src, s))
      || !InSet(pat, start, next - 1, At(src, s))
    case BackRef(digit, next) => CaptureIndex(caps, digit) >= 0 && !Again(src, s, caps[CaptureIndex(caps, digit)])
    case Chars(ep, suffix, next) => (suffix.One? || suffix.Plus?) && !Single(src, s, pat, p, ep)
    case _ => false
  }

  lemma NoFirst(src: seq<Byte>, pat: seq<Byte>, d: nat, s: nat, p: nat, caps: seq<Cap>)
    requires p < |pat| && Fails(src, pat, s, p, caps)
    ensures First(src, pat, false, d, s, p, caps, [], None)
  {
    forall t, o ensures !Possible(src, pat, false, d, s, p, caps, t, o) {
      var item := ItemAt(pat, p);
      if item.Chars? && item.suffix.Plus? && t != [] {
        assert !Chosen(src, pat, d, s, p, caps, item.ep, item.suffix, item.next, t[0], t[1..], o) by {
          if t[0] > 0 {
            assert !Reps(src, s, pat, p, item.ep, t[0]);
          }
        }
      }
    }
  }

  lemma OptTried(src: seq<Byte>, pat: seq<Byte>, d: nat, s: nat, p: nat, caps: seq<Cap>)
    requires p < |pat| && ItemAt(pat, p).Chars? && ItemAt(pat, p).suffix.Opt?
    ensures forall m: nat {:trigger Tried(src, pat, d, s, p, caps, m)} :: m > 1 ==> Tried(src, pat, d, s, p, caps, m)
  {
    forall m: nat | m > 1 ensures Tried(src, pat, d, s, p, caps, m) {
    }
  }

  /** More repetitions than there are. */
  lemma MoreThan(src: seq<Byte>, pat: seq<Byte>, d: nat, s: nat, p: nat, caps: seq<Cap>, n: nat)
    requires p < |pat| && ItemAt(pat, p).Chars? && !ItemAt(pat, p).suffix.One? && !ItemAt(pat, p).suffix.Opt?
    requires !Single(src, s + n, pat, p, ItemAt(pat, p).ep)
    ensures forall m: nat {:trigger Tried(src, pat, d, s, p, caps, m)} :: m > n ==> Tried(src, pat, d, s, p, caps, m)
  {
    forall m: nat | m > n ensures Tried(src, pat, d, s, p, caps, m) {
      TriedBad(src, pat, d, s, p, caps, m);
    }
  }
}
