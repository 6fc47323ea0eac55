/**
 What a Lua pattern matches (lstrlib.c): a relation between a match and the choices it makes, one
 for each repeated or optional item it comes to, and the order in which choices are preferred.
 */
module PatternRelation {
  import opened Wrappers

  import opened PatternItems

  /** A capture: where it begins, and its length, or one of two marks. */
  datatype Cap = Cap(init: nat, len: int)

  const CAP_UNFINISHED := -1
  const CAP_POSITION := -2

  const TOO_COMPLEX := "pattern too complex"
  const TOO_MANY := "too many captures"
  const NOT_OPEN := "invalid pattern capture"
  const BAD_INDEX := "invalid capture index"

  /** A match ends somewhere and leaves captures, or comes to something that is an error. */
  datatype Outcome = Matched(end: nat, caps: seq<Cap>) | Fault(message: string)

  /** The last capture that is not closed yet, or -1. */
  function LastOpen(caps: seq<Cap>): (l: int)
    ensures -1 <= l < |caps|
    ensures l >= 0 ==> caps[l].len == CAP_UNFINISHED
    ensures forall i :: l < i < |caps| ==> caps[i].len != CAP_UNFINISHED
  {
    if caps == [] then -1
    else if caps[|caps| - 1].len == CAP_UNFINISHED then |caps| - 1
    else LastOpen(caps[..|caps| - 1])
  }

  /** The number of `x` that are not closed by a `y`, from `s` up to `i`. */
  function Depth(src: seq<Byte>, s: nat, i: nat, x: Byte, y: Byte): int
    requires s < i <= |src|
  {
    if i == s + 1 then 1
    else Depth(src, s, i - 1, x, y) + if src[i - 1] == y then -1 else if src[i - 1] == x then 1 else 0
  }

  /** The text from `s` to `e` is balanced, and ends where it first is. */
  ghost predicate Balanced(src: seq<Byte>, s: nat, e: nat, x: Byte, y: Byte) {
    s < e <= |src| && src[s] == x && Depth(src, s, e, x, y) == 0 && forall i :: s < i < e ==> Depth(src, s, i, x, y) > 0
  }

  /** The capture with this digit, which has to be closed. */
  function CaptureIndex(caps: seq<Cap>, digit: Byte): (l: int)
    ensures -1 <= l < |caps|
  {
    var l := digit - '1' as int;
    if l < 0 || l >= |caps| || caps[l].len == CAP_UNFINISHED then -1 else l
  }

  /** The text of a closed capture comes again at `s`; a position capture has no text. */
  predicate Again(src: seq<Byte>, s: nat, c: Cap) {
    c.len >= 0 && s + c.len <= |src| && c.init + c.len <= |src| && src[c.init..c.init + c.len] == src[s..s + c.len]
  }

  /** The item at `p` matches each of `n` bytes from `s` on. */
  ghost predicate Reps(src: seq<Byte>, s: nat, pat: seq<Byte>, p: nat, ep: nat, n: nat) {
    forall i {:trigger Single(src, i, pat, p, ep)} :: s <= i < s + n ==> Single(src, i, pat, p, ep)
  }

  /** The byte before `s`, or zero at the start of the subject. */
  function Before(src: seq<Byte>, s: nat): Byte {
    if s == 0 then 0 else At(src, s - 1)
  }

  /** A call of `match` with `d` levels left: the depth of the recursion is limited. */
  ghost predicate Calls(src: seq<Byte>, pat: seq<Byte>, d: nat, s: nat, p: nat, caps: seq<Cap>, t: seq<nat>, o: Outcome)
    requires p <= |pat|
    decreases |pat| - p, 1
  {
    if d == 0 then t == [] && o == Fault(TOO_COMPLEX) else Goes(src, pat, d - 1, s, p, caps, t, o)
  }

  /** With the choices `t`, the pattern from `p` on comes to `o` on the subject from `s` on. */
  ghost predicate Goes(src: seq<Byte>, pat: seq<Byte>, d: nat, s: nat, p: nat, caps: seq<Cap>, t: seq<nat>, o: Outcome)
    requires p <= |pat|
    decreases |pat| - p, 0
  {
    if p == |pat| then t == [] && o == Matched(s, caps)
    else
      match ItemAt(pat, p)
      case Wrong(error) => t == [] && o == Fault(error)
      case Open(position, next) =>
        if |caps| >= LUA_MAXCAPTURES then t == [] && o == Fault(TOO_MANY)
        else Calls(src, pat, d, s, next, caps + [Cap(s, if position then CAP_POSITION else CAP_UNFINISHED)], t, o)
      case Close(next) =>
        var l := LastOpen(caps);
        if l < 0 then t == [] && o == Fault(NOT_OPEN)
        else Calls(src, pat, d, s, next, caps[l := Cap(caps[l].init, s - caps[l].init)], t, o)
      case Anchor => s == |src| && t == [] && o == Matched(s, caps)
      case Balance(x, y, next) =>
        exists e {:trigger Balanced(src, s, e, x, y)} ::
          Balanced(src, s, e, x, y) && Goes(src, pat, d, e, next, caps, t, o)
      case Frontier(start, next) =>
        && !InSet(pat, start, next - 1, Before(src, s)) && InSet(pat, start, next - 1, At(src, s))
        && Goes(src, pat, d, s, next, caps, t, o)
      case BackRef(digit, next) =>
        var l := CaptureIndex(caps, digit);
        if l < 0 then t == [] && o == Fault(BAD_INDEX)
        else Again(src, s, caps[l]) && Goes(src, pat, d, s + caps[l].len, next, caps, t, o)
      case Chars(ep, suffix, next) =>
        if suffix.One? then Single(src, s, pat, p, ep) && Goes(src, pat, d, s + 1, next, caps, t, o)
        else t != [] && Chosen(src, pat, d, s, p, caps, ep, suffix, next, t[0], t[1..], o)
  }

  /** With `n` repetitions of the item at `p`. */
  ghost predicate Chosen(src: seq<Byte>, pat: seq<Byte>, d: nat, s: nat, p: nat, caps: seq<Cap>, ep: nat,
      suffix: Suffix, next: nat,
      n: nat, t: seq<nat>, o: Outcome)
    requires p < next <= |pat|
    decreases |pat| - next, 2
  {
    if suffix.Opt? && n == 0 then Goes(src, pat, d, s, next, caps, t, o)
    else
      && (suffix.Opt? ==> n == 1) && (suffix.Plus? ==> n > 0) && Reps(src, s, pat, p, ep, n)
      && (if Single(src, s, pat, p, ep) then Calls(src, pat, d, s + n, next, caps, t, o)
        else Goes(src, pat, d, s, next, caps, t, o))
  }

  /**
   The choices `t1` are preferred to `t2`: more repetitions, or fewer for a lazy item, at the first place where they
   differ.
   */
  ghost predicate Better(pat: seq<Byte>, p: nat, t1: seq<nat>, t2: seq<nat>)
    requires p <= |pat|
    decreases |pat| - p
  {
    p < |pat| &&
      match ItemAt(pat, p)
      case Wrong(_) => false
      case Anchor => false
      case Chars(ep, suffix, next) =>
        if suffix.One? then Better(pat, next, t1, t2)
        else t1 != [] && t2 != [] && (if t1[0] == t2[0] then Better(pat, next, t1[1..], t2[1..])
          else Sooner(suffix, t1[0], t2[0]))
      case item => Better(pat, item.next, t1, t2)
  }

  predicate Sooner(suffix: Suffix, n1: nat, n2: nat) {
    if suffix.Lazy? then n1 < n2 else n1 > n2
  }

  /** Nothing is possible, or `t` is the preferred choice, and it comes to the outcome. */
  ghost predicate First(src: seq<Byte>, pat: seq<Byte>, call: bool, d: nat, s: nat, p: nat, caps: seq<Cap>,
      t: seq<nat>, r: Option<Outcome>)
    requires p <= |pat|
  {
    match r
    case None => forall t', o {:trigger Possible(src, pat, call, d, s, p, caps, t', o)} ::
      !Possible(src, pat, call, d, s, p, caps, t', o)
    case Some(o) =>
      && Possible(src, pat, call, d, s, p, caps, t, o)
      && forall t', o' {:trigger Possible(src, pat, call, d, s, p, caps, t', o')} ::
        Possible(src, pat, call, d, s, p, caps, t', o') ==> (t' == t && o' == o) || Better(pat, p, t, t')
  }

  ghost predicate Possible(src: seq<Byte>, pat: seq<Byte>, call: bool, d: nat, s: nat, p: nat, caps: seq<Cap>,
      t: seq<nat>, o: Outcome)
    requires p <= |pat|
  {
    if call then Calls(src, pat, d, s, p, caps, t, o) else Goes(src, pat, d, s, p, caps, t, o)
  }

  /** Whether `match` calls itself for what comes after the item, or goes on. */
  predicate Recurs(src: seq<Byte>, s: nat, pat: seq<Byte>, p: nat, ep: nat, suffix: Suffix, n: nat) {
    !(suffix.Opt? && n == 0) && Single(src, s, pat, p, ep)
  }

  lemma AfterChoice(src: seq<Byte>, pat: seq<Byte>, d: nat, s: nat, p: nat, caps: seq<Cap>, ep: nat, suffix: Suffix,
      next: nat,
      n: nat, t: seq<nat>, o: Outcome)
    requires p < next <= |pat| && Chosen(src, pat, d, s, p, caps, ep, suffix, next, n, t, o)
    ensures Possible(src, pat, Recurs(src, s, pat, p, ep, suffix, n), d, s + n, next, caps, t, o)
  {
    if n > 0 {
      assert Single(src, s, pat, p, ep);
    }
  }

  /** A match goes forward. */
  lemma {:induction false} Forward(src: seq<Byte>, pat: seq<Byte>, call: bool, d: nat, s: nat, p: nat, caps: seq<Cap>,
      t: seq<nat>, o: Outcome)
    requires p <= |pat| && Possible(src, pat, call, d, s, p, caps, t, o)
    ensures o.Matched? ==> s <= o.end && (s <= |src| ==> o.end <= |src|)
    decreases |pat| - p, if call then 1 else 0
  {
    hide InSet, Before;
    if call {
      if d > 0 {
        Forward(src, pat, false, d - 1, s, p, caps, t, o);
      }
    } else if p < |pat| {
      match ItemAt(pat, p)
      case Open(position, next) =>
        if |caps| < LUA_MAXCAPTURES {
          Forward(src, pat, true, d, s, next, caps + [Cap(s, if position then CAP_POSITION else CAP_UNFINISHED)], t, o);
        }
      case Close(next) =>
        var l := LastOpen(caps);
        if l >= 0 {
          Forward(src, pat, true, d, s, next, caps[l := Cap(caps[l].init, s - caps[l].init)], t, o);
        }
      case Balance(x, y, next) =>
        var e :| Balanced(src, s, e, x, y) && Goes(src, pat, d, e, next, caps, t, o);
        Forward(src, pat, false, d, e, next, caps, t, o);
      case Frontier(_, next) => Forward(src, pat, false, d, s, next, caps, t, o);
      case BackRef(digit, next) =>
        var l := CaptureIndex(caps, digit);
        if l >= 0 {
          Forward(src, pat, false, d, s + caps[l].len, next, caps, t, o);
        }
      case Chars(ep, suffix, next) =>
        if suffix.One? {
          Forward(src, pat, false, d, s + 1, next, caps, t, o);
        } else {
          AfterChoice(src, pat, d, s, p, caps, ep, suffix, next, t[0], t[1..], o);
          assert t[0] > 0 ==> Single(src, s + t[0] - 1, pat, p, ep);
          Forward(src, pat, Recurs(src, s, pat, p, ep, suffix, t[0]), d, s + t[0], next, caps, t[1..], o);
        }
      case _ =>
    }
  }

  /** The choices decide everything. */
  lemma {:induction false} OneOutcome(src: seq<Byte>, pat: seq<Byte>, call: bool, d: nat, s: nat, p: nat,
      caps: seq<Cap>, t: seq<nat>, o1: Outcome, o2: Outcome)
    requires p <= |pat| && Possible(src, pat, call, d, s, p, caps, t, o1)
    requires Possible(src, pat, call, d, s, p, caps, t, o2)
    ensures o1 == o2
    decreases |pat| - p, if call then 1 else 0
  {
    hide InSet, LastOpen, CaptureIndex, Reps, Before, Recurs, Balanced;
    if call {
      if d > 0 {
        OneOutcome(src, pat, false, d - 1, s, p, caps, t, o1, o2);
      }
    } else if p < |pat| {
      match ItemAt(pat, p)
      case Open(position, next) =>
        if |caps| < LUA_MAXCAPTURES {
          OneOutcome(src, pat, true, d, s, next, caps + [Cap(s, if position then CAP_POSITION else CAP_UNFINISHED)],
            t, o1, o2);
        }
      case Close(next) =>
        var l := LastOpen(caps);
        if l >= 0 {
          OneOutcome(src, pat, true, d, s, next, caps[l := Cap(caps[l].init, s - caps[l].init)], t, o1, o2);
        }
      case Balance(x, y, next) =>
        var e1 :| Balanced(src, s, e1, x, y) && Goes(src, pat, d, e1, next, caps, t, o1);
        var e2 :| Balanced(src, s, e2, x, y) && Goes(src, pat, d, e2, next, caps, t, o2);
        OneBalance(src, s, e1, e2, x, y);
        OneOutcome(src, pat, false, d, e1, next, caps, t, o1, o2);
      case Frontier(_, next) => OneOutcome(src, pat, false, d, s, next, caps, t, o1, o2);
      case BackRef(digit, next) =>
        var l := CaptureIndex(caps, digit);
        if l >= 0 {
          OneOutcome(src, pat, false, d, s + caps[l].len, next, caps, t, o1, o2);
        }
      case Chars(ep, suffix, next) =>
        if suffix.One? {
          OneOutcome(src, pat, false, d, s + 1, next, caps, t, o1, o2);
        } else {
          AfterChoice(src, pat, d, s, p, caps, ep, suffix, next, t[0], t[1..], o1);
          AfterChoice(src, pat, d, s, p, caps, ep, suffix, next, t[0], t[1..], o2);
          OneOutcome(src, pat, Recurs(src, s, pat, p, ep, suffix, t[0]), d, s + t[0], next, caps, t[1..], o1, o2);
        }
      case _ =>
    }
  }

  lemma OneBalance(src: seq<Byte>, s: nat, e1: nat, e2: nat, x: Byte, y: Byte)
    requires Balanced(src, s, e1, x, y) && Balanced(src, s, e2, x, y)
    ensures e1 == e2
  {
  }

  /** Any two ways to match can be compared. */
  lemma {:induction false} Comparable(src: seq<Byte>, pat: seq<Byte>, call: bool, d: nat, s: nat, p: nat,
      caps: seq<Cap>, t1: seq<nat>, o1: Outcome, t2: seq<nat>, o2: Outcome)
    requires p <= |pat| && Possible(src, pat, call, d, s, p, caps, t1, o1)
    requires Possible(src, pat, call, d, s, p, caps, t2, o2)
    ensures t1 == t2 || Better(pat, p, t1, t2) || Better(pat, p, t2, t1)
    decreases |pat| - p, if call then 1 else 0
  {
    hide InSet, ItemAt, LastOpen, Balanced, CaptureIndex, Reps, Before, Chosen, Recurs;
    if call {
      if d > 0 {
        Comparable(src, pat, false, d - 1, s, p, caps, t1, o1, t2, o2);
      }
    } else if p < |pat| {
      match ItemAt(pat, p)
      case Open(position, next) =>
        if |caps| < LUA_MAXCAPTURES {
          Comparable(src, pat, true, d, s, next, caps + [Cap(s, if position then CAP_POSITION else CAP_UNFINISHED)],
            t1, o1, t2, o2);
        }
      case Close(next) =>
        var l := LastOpen(caps);
        if l >= 0 {
          Comparable(src, pat, true, d, s, next, caps[l := Cap(caps[l].init, s - caps[l].init)], t1, o1, t2, o2);
        }
      case Balance(x, y, next) =>
        var e1 :| Balanced(src, s, e1, x, y) && Goes(src, pat, d, e1, next, caps, t1, o1);
        var e2 :| Balanced(src, s, e2, x, y) && Goes(src, pat, d, e2, next, caps, t2, o2);
        OneBalance(src, s, e1, e2, x, y);
        Comparable(src, pat, false, d, e1, next, caps, t1, o1, t2, o2);
      case Frontier(_, next) => Comparable(src, pat, false, d, s, next, caps, t1, o1, t2, o2);
      case BackRef(digit, next) =>
        var l := CaptureIndex(caps, digit);
        if l >= 0 {
          Comparable(src, pat, false, d, s + caps[l].len, next, caps, t1, o1, t2, o2);
        }
      case Chars(ep, suffix, next) =>
        if suffix.One? {
          Comparable(src, pat, false, d, s + 1, next, caps, t1, o1, t2, o2);
        } else if t1[0] == t2[0] {
          AfterChoice(src, pat, d, s, p, caps, ep, suffix, next, t1[0], t1[1..], o1);
          AfterChoice(src, pat, d, s, p, caps, ep, suffix, next, t1[0], t2[1..], o2);
          Comparable(src, pat, Recurs(src, s, pat, p, ep, suffix, t1[0]), d, s + t1[0], next, caps, t1[1..], o1,
            t2[1..], o2);
          assert t1 == [t1[0]] + t1[1..] && t2 == [t2[0]] + t2[1..];
        }
      case _ =>
    }
  }

  /** Preference has no cycles of length two. */
  lemma {:induction false} OneWayOnly(pat: seq<Byte>, p: nat, t1: seq<nat>, t2: seq<nat>)
    requires p <= |pat|
    ensures Better(pat, p, t1, t2) ==> !Better(pat, p, t2, t1) && t1 != t2
    decreases |pat| - p
  {
    if p < |pat| {
      match ItemAt(pat, p)
      case Wrong(_) =>
      case Anchor =>
      case Chars(ep, suffix, next) =>
        if suffix.One? {
          OneWayOnly(pat, next, t1, t2);
        } else if t1 != [] && t2 != [] && t1[0] == t2[0] {
          OneWayOnly(pat, next, t1[1..], t2[1..]);
        }
      case item => OneWayOnly(pat, item.next, t1, t2);
    }
  }

  /** There is only one first way. */
  lemma OneFirst(src: seq<Byte>, pat: seq<Byte>, call: bool, d: nat, s: nat, p: nat, caps: seq<Cap>, t1: seq<nat>,
      r1: Option<Outcome>, t2: seq<nat>, r2: Option<Outcome>)
    requires p <= |pat| && First(src, pat, call, d, s, p, caps, t1, r1) && First(src, pat, call, d, s, p, caps, t2, r2)
    ensures r1 == r2
  {
    OneWayOnly(pat, p, t1, t2);
    assert r1.Some? ==> Possible(src, pat, call, d, s, p, caps, t1, r1.value);
    assert r2.Some? ==> Possible(src, pat, call, d, s, p, caps, t2, r2.value);
  }
}
