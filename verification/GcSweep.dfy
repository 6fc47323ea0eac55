/**
 Dead and alive objects, sweeping, and the set of live objects of lgc.c.
 */
module GcSweep {
  import opened Sequences

  import opened GcHeap
  import opened GcColor
  import opened GcClear

  // ----- dead and alive -----

  /** The objects that do not have the white of the previous cycle (`isdead`). */
  ghost function AliveSet(marks: Marks, cw: bool): set<Ref> {
    set o | o in marks && marks[o] != White(!cw)
  }

  /** No object that is not dead refers to one that is dead or freed. */
  ghost predicate NoDangling(objs: Heap, cells: Cells, marks: Marks, cw: bool) {
    && marks.Keys == objs.Keys
    && forall o {:trigger objs[o]} :: o in AliveSet(marks, cw) ==>
         && HoldsOnly(objs[o], cells, AliveSet(marks, cw))
         && (objs[o].LClosure? ==> forall c :: c in objs[o].upvals ==> c in cells)
  }

  /** There is no white but the current one. */
  ghost predicate AllCurrent(marks: Marks, cw: bool) {
    forall o :: o in marks && marks[o].White? ==> marks[o].w == cw
  }

  lemma NoneDead(objs: Heap, cells: Cells, marks: Marks, cw: bool)
    requires NoDangling(objs, cells, marks, cw) && AllCurrent(marks, cw)
    ensures AliveSet(marks, cw) == objs.Keys && Sound(objs, cells) && Closed(objs, cells, objs.Keys)
  {
    assert AliveSet(marks, cw) == objs.Keys;
    forall o | o in objs ensures Follows(objs, cells, objs[o], objs.Keys) {
      AllFollow(objs, cells, objs[o], objs.Keys);
    }
  }

  /** What an object refers to contains what it keeps alive. */
  lemma AllFollow(objs: Heap, cells: Cells, b: Obj, S: set<Ref>)
    requires HoldsOnly(b, cells, S)
    ensures Follows(objs, cells, b, S)
  {
    if b.Table? {
      assert Holds(b, cells, b.meta);
      forall i | 0 <= i < |b.arr| ensures In(b.arr[i], S) {
        assert Holds(b, cells, b.arr[i]);
      }
      forall i | 0 <= i < |b.hash| && b.hash[i].val != Nil ensures In(b.hash[i].key, S) && In(b.hash[i].val, S) {
        assert InEntry(b.hash[i], b.hash[i].key) && InEntry(b.hash[i], b.hash[i].val);
        assert Holds(b, cells, b.hash[i].key) && Holds(b, cells, b.hash[i].val);
      }
    }
  }

  /** `o` can be reached from `roots` by following references of any kind. */
  ghost predicate Reachable(objs: Heap, cells: Cells, roots: set<Ref>, o: Ref) {
    forall S: set<Ref> :: roots <= S && ClosedUnderAll(objs, cells, S) ==> o in S
  }

  ghost predicate ClosedUnderAll(objs: Heap, cells: Cells, S: set<Ref>) {
    forall o {:trigger HoldsOnly(objs[o], cells, S)} :: o in S && o in objs ==> HoldsOnly(objs[o], cells, S)
  }

  /** Reachable objects have not been freed and are not about to be. */
  lemma ReachableAlive(objs: Heap, cells: Cells, marks: Marks, cw: bool, roots: set<Ref>)
    requires NoDangling(objs, cells, marks, cw) && roots <= AliveSet(marks, cw)
    ensures forall o :: Reachable(objs, cells, roots, o) ==> o in AliveSet(marks, cw) && o in objs
  {
    assert ClosedUnderAll(objs, cells, AliveSet(marks, cw));
  }

  /** What is kept alive can be reached. */
  lemma LiveReachable(objs: Heap, cells: Cells, roots: set<Ref>, o: Ref)
    requires Live(objs, cells, roots, o)
    ensures Reachable(objs, cells, roots, o)
  {
    forall S: set<Ref> | roots <= S && ClosedUnderAll(objs, cells, S) ensures o in S {
      forall x | x in S && x in objs ensures Follows(objs, cells, objs[x], S) {
        AllFollow(objs, cells, objs[x], S);
      }
      assert Closed(objs, cells, S);
    }
  }

  // ----- sweeping -----

  /** The objects of `s` that are not dead, in the same order. */
  function Survivors(s: seq<Ref>, marks: Marks, cw: bool): seq<Ref>
    requires forall o :: o in s ==> o in marks
  {
    if s == [] then []
    else (if marks[s[0]] == White(!cw) then [] else [s[0]]) + Survivors(s[1..], marks, cw)
  }

  lemma {:induction false} SurvivorsAppend(s: seq<Ref>, o: Ref, marks: Marks, cw: bool)
    requires forall x :: x in s + [o] ==> x in marks
    ensures Survivors(s + [o], marks, cw) == Survivors(s, marks, cw) + (if marks[o] == White(!cw) then [] else [o])
  {
    if s == [] {
      assert s + [o] == [o];
    } else {
      SurvivorsAppend(s[1..], o, marks, cw);
      assert (s + [o])[1..] == s[1..] + [o];
    }
  }

  lemma {:induction false} SurvivorsAre(s: seq<Ref>, marks: Marks, cw: bool)
    requires forall x :: x in s ==> x in marks
    ensures forall x :: x in Survivors(s, marks, cw) <==> x in s && marks[x] != White(!cw)
    ensures NoDup(s) ==> NoDup(Survivors(s, marks, cw))
    ensures |Survivors(s, marks, cw)| <= |s|
  {
    if s != [] {
      SurvivorsAre(s[1..], marks, cw);
      assert s == [s[0]] + s[1..];
      if NoDup(s) {
        assert s[0] !in s[1..];
      }
    }
  }

  /** Heap and colours after the dead objects of `s` were freed and the others made white. */
  ghost predicate Swept(objs0: Heap, m0: Marks, objs1: Heap, m1: Marks, s: seq<Ref>, cw: bool) {
    && m0.Keys == objs0.Keys && m1.Keys == objs1.Keys
    && (forall o :: o in objs1 <==> o in objs0 && !(o in s && m0[o] == White(!cw)))
    && (forall o :: o in objs1 ==> objs1[o] == objs0[o])
    && (forall o :: o in objs1 ==> m1[o] == if o in s then White(cw) else m0[o])
  }

  lemma SweptNone(objs: Heap, marks: Marks, cw: bool)
    requires marks.Keys == objs.Keys
    ensures Swept(objs, marks, objs, marks, [], cw) && Survivors([], marks, cw) == []
  {
  }

  /** One more object swept. */
  lemma SweepOne(objs0: Heap, m0: Marks, objs1: Heap, m1: Marks, s: seq<Ref>, o: Ref, cw: bool)
    requires Swept(objs0, m0, objs1, m1, s, cw) && o in objs0 && o !in s
    ensures o in objs1 && o in m1 && m0[o] == m1[o]
    ensures m0[o] == White(!cw) ==> Swept(objs0, m0, objs1 - {o}, m1 - {o}, s + [o], cw)
    ensures m0[o] != White(!cw) ==> Swept(objs0, m0, objs1, m1[o := White(cw)], s + [o], cw)
  {
  }

  /** Moving on to the next element of the part of a list still to do. */
  lemma MoveOn(a0: seq<Ref>, pre: seq<Ref>, done: seq<Ref>, kept: seq<Ref>, todo: seq<Ref>, a1: seq<Ref>)
    requires a0 == pre + done + todo && a1 == pre + kept + todo && todo != []
    ensures var p := |pre| + |kept|;
      && a0 == pre + (done + [todo[0]]) + todo[1..]
      && a1[p] == todo[0]
      && a1[..p] + a1[p + 1..] == pre + (kept + []) + todo[1..]
      && a1 == pre + (kept + [todo[0]]) + todo[1..]
      && (NoDup(a0) ==> todo[0] !in done)
  {
    assert todo == [todo[0]] + todo[1..];
    assert a0[|pre| + |done|] == todo[0];
    forall i | 0 <= i < |done| && NoDup(a0) ensures done[i] != todo[0] {
      assert a0[|pre| + i] == done[i];
    }
  }

  /** Sweeping frees nothing that can still be referred to. */
  lemma SweptNoDangling(objs0: Heap, cells: Cells, m0: Marks, objs1: Heap, m1: Marks, s: seq<Ref>, cw: bool)
    requires NoDangling(objs0, cells, m0, cw) && Swept(objs0, m0, objs1, m1, s, cw)
    ensures NoDangling(objs1, cells, m1, cw) && AliveSet(m1, cw) == AliveSet(m0, cw)
  {
    assert AliveSet(m1, cw) == AliveSet(m0, cw);
  }

  /** Every allocated object is the main thread or in one of the two lists, and nothing dangles. */
  ghost predicate Base(objs: Heap, cells: Cells, marks: Marks, cw: bool, main: Ref, roots: set<Ref>, allgc: seq<Ref>,
      fixedgc: seq<Ref>) {
    && marks.Keys == objs.Keys
    && (forall o :: o in objs <==> o == main || o in allgc || o in fixedgc)
    && NoDup(allgc) && main !in allgc
    && (forall o :: o in fixedgc ==> o !in allgc && o != main && objs[o].Str? && !marks[o].White?)
    && objs[main].Thread?
    && main in roots && roots <= AliveSet(marks, cw)
    && NoDangling(objs, cells, marks, cw)
  }

  /** The objects before the last `rest` ones are white. */
  ghost predicate PrefixSwept(marks: Marks, cw: bool, allgc: seq<Ref>, rest: nat) {
    rest <= |allgc| && forall i :: 0 <= i < |allgc| - rest ==> allgc[i] in marks && marks[allgc[i]] == White(cw)
  }

  lemma SweptBase(objs0: Heap, cells: Cells, m0: Marks, objs1: Heap, m1: Marks, cw: bool, main: Ref, roots: set<Ref>,
                  pre: seq<Ref>, done: seq<Ref>, todo: seq<Ref>, a0: seq<Ref>, a1: seq<Ref>, fixedgc: seq<Ref>)
    requires Base(objs0, cells, m0, cw, main, roots, a0, fixedgc) && a0 == pre + done + todo
    requires forall o :: o in done ==> o in m0
    requires Swept(objs0, m0, objs1, m1, done, cw) && a1 == pre + Survivors(done, m0, cw) + todo
    ensures Base(objs1, cells, m1, cw, main, roots, a1, fixedgc)
    ensures AliveSet(m1, cw) == AliveSet(m0, cw)
    ensures PrefixSwept(m0, cw, a0, |done + todo|) ==> PrefixSwept(m1, cw, a1, |todo|)
  {
    SweptNoDangling(objs0, cells, m0, objs1, m1, done, cw);
    NoDupParts(pre, done, todo);
    SurvivorsAre(done, m0, cw);
    var kept := Survivors(done, m0, cw);
    NoDupJoin(pre, kept, todo);
    forall o ensures o in objs1 <==> o == main || o in a1 || o in fixedgc {
      assert o in a0 <==> o in pre || o in done || o in todo;
      assert o in a1 <==> o in pre || o in kept || o in todo;
    }
    if PrefixSwept(m0, cw, a0, |done + todo|) {
      forall i | 0 <= i < |a1| - |todo| ensures a1[i] in m1 && m1[a1[i]] == White(cw) {
        if i < |pre| {
          assert a1[i] == a0[i];
        } else {
          assert a1[i] == kept[i - |pre|];
        }
      }
    }
  }

  lemma NoDupParts(a: seq<Ref>, b: seq<Ref>, c: seq<Ref>)
    requires NoDup(a + b + c)
    ensures NoDup(a) && NoDup(b) && NoDup(c)
    ensures forall o :: !(o in a && o in b) && !(o in a && o in c) && !(o in b && o in c)
  {
    var s := a + b + c;
    assert forall i :: 0 <= i < |a| ==> a[i] == s[i];
    assert forall i :: 0 <= i < |b| ==> b[i] == s[|a| + i];
    assert forall i :: 0 <= i < |c| ==> c[i] == s[|a| + |b| + i];
  }

  lemma NoDupJoin(a: seq<Ref>, b: seq<Ref>, c: seq<Ref>)
    requires NoDup(a) && NoDup(b) && NoDup(c)
    requires forall o :: !(o in a && o in b) && !(o in a && o in c) && !(o in b && o in c)
    ensures NoDup(a + b + c)
  {
    NoDupJoin2(a, b);
    NoDupJoin2(a + b, c);
  }

  lemma NoDupJoin2(a: seq<Ref>, b: seq<Ref>)
    requires NoDup(a) && NoDup(b) && forall o :: !(o in a && o in b)
    ensures NoDup(a + b)
  {
    var s := a + b;
    forall i, j | 0 <= i < j < |s| ensures s[i] != s[j] {
      if i < |a| && |a| <= j {
        assert s[i] in a && s[j] in b;
      }
    }
  }

  /** After the atomic step, with the whites exchanged, exactly the marked objects are alive. */
  lemma PurgeBase(objs0: Heap, cells: Cells, m0: Marks, objs1: Heap, m1: Marks, cw: bool, main: Ref, roots: set<Ref>,
                  allgc: seq<Ref>, fixedgc: seq<Ref>)
    requires Base(objs0, cells, m0, cw, main, roots, allgc, fixedgc) && AllCurrent(m0, cw)
    requires Grows(m0, m1) && roots <= Marked(m1) && Purge(objs0, objs1, cells, Marked(m1))
    ensures Base(objs1, cells, m1, !cw, main, roots, allgc, fixedgc) && AliveSet(m1, !cw) == Marked(m1)
  {
    assert AliveSet(m1, !cw) == Marked(m1);
    assert AliveSet(m0, cw) == objs0.Keys;
    forall o | o in Marked(m1) && objs1[o].LClosure? ensures objs1[o] == objs0[o] {
    }
    assert forall o :: o in fixedgc ==> objs1[o].Str?;
    assert objs1[main].Thread?;
  }

  /** Between cycles nothing is marked but the fixed strings. */
  lemma PausedMarks(objs: Heap, cells: Cells, m: Marks, cw: bool, main: Ref, roots: set<Ref>, allgc: seq<Ref>,
      fixedgc: seq<Ref>)
    requires Base(objs, cells, m, cw, main, roots, allgc, fixedgc)
    requires PrefixSwept(m, cw, allgc, 0) && m[main] == White(cw)
    ensures AllCurrent(m, cw) && AliveSet(m, cw) == objs.Keys && Sound(objs, cells) && Closed(objs, cells, objs.Keys)
    ensures forall o :: o in Marked(m) <==> o in fixedgc
  {
    forall o | o in m && o !in fixedgc ensures m[o] == White(cw) {
      if o != main {
        var i :| 0 <= i < |allgc| && allgc[i] == o;
      }
    }
    NoneDead(objs, cells, m, cw);
  }

  /** Marking keeps everything that does not depend on which objects are marked. */
  lemma GrowsBase(objs: Heap, cells: Cells, m0: Marks, m1: Marks, cw: bool, main: Ref, roots: set<Ref>,
      allgc: seq<Ref>, fixedgc: seq<Ref>)
    requires Base(objs, cells, m0, cw, main, roots, allgc, fixedgc) && AllCurrent(m0, cw) && Grows(m0, m1)
    ensures Base(objs, cells, m1, cw, main, roots, allgc, fixedgc) && AllCurrent(m1, cw)
    ensures AliveSet(m1, cw) == AliveSet(m0, cw) == objs.Keys
  {
    assert AliveSet(m1, cw) == AliveSet(m0, cw) == objs.Keys;
  }

  /** The state of a cycle that has just marked its roots. */
  lemma CycleStarts(objs: Heap, cells: Cells, m0: Marks, m1: Marks, g1: seq<Ref>, cw: bool, main: Ref, roots: set<Ref>,
                    allgc: seq<Ref>, fixedgc: seq<Ref>, L: Lists, S: set<Ref>)
    requires Base(objs, cells, m0, cw, main, roots, allgc, fixedgc) && PrefixSwept(m0, cw, allgc, 0)
    requires m0[main] == White(cw)
    requires Bounded(objs, cells, m0, S) && L == Lists([], [], [], [], [], fixedgc, false)
    requires MarkStep(objs, cells, m0, [], m1, g1, S) && main in Marked(m1)
    ensures Base(objs, cells, m1, cw, main, roots, allgc, fixedgc) && AllCurrent(m1, cw) && Marked(m1) <= S
    ensures AliveSet(m1, cw) == AliveSet(m0, cw)
    ensures Tri(objs, cells, m1, L.(gray := g1), objs.Keys) && g1 != []
  {
    PausedMarks(objs, cells, m0, cw, main, roots, allgc, fixedgc);
    TriStart(objs, cells, m0, L, S);
    MarkStepGrows(objs, cells, m0, [], m1, g1, S);
    TriMarkStep(objs, cells, m0, L, m1, g1, S, {});
    assert main in g1;
    GrowsBase(objs, cells, m0, m1, cw, main, roots, allgc, fixedgc);
    TriInside(objs, cells, m1, L.(gray := g1), S, objs.Keys, false);
  }

  // ----- live objects -----

  /** The live objects keep each other alive: liveness is the least closed set. */
  lemma LiveSetClosed(objs: Heap, cells: Cells, roots: set<Ref>)
    requires Sound(objs, cells) && roots <= objs.Keys
    ensures roots <= LiveSet(objs, cells, roots) && Closed(objs, cells, LiveSet(objs, cells, roots))
  {
    var L := LiveSet(objs, cells, roots);
    forall o | o in L && o in objs ensures Follows(objs, cells, objs[o], L) {
      LiveFollows(objs, cells, roots, o);
    }
  }

  /** A value that every closed set has is live. */
  lemma InLive(objs: Heap, cells: Cells, roots: set<Ref>, v: Value)
    requires In(v, objs.Keys)
    requires forall S: set<Ref> :: roots <= S && Closed(objs, cells, S) ==> In(v, S)
    ensures In(v, LiveSet(objs, cells, roots))
  {
  }

  lemma LiveWithin(objs: Heap, cells: Cells, roots: set<Ref>, S: set<Ref>)
    requires roots <= S && Closed(objs, cells, S)
    ensures LiveSet(objs, cells, roots) <= S
  {
  }

  lemma LiveFollows(objs: Heap, cells: Cells, roots: set<Ref>, o: Ref)
    requires Sound(objs, cells) && roots <= objs.Keys && o in objs && Live(objs, cells, roots, o)
    ensures Follows(objs, cells, objs[o], LiveSet(objs, cells, roots))
  {
    var b := objs[o];
    var L := LiveSet(objs, cells, roots);
    assert HoldsOnly(b, cells, objs.Keys);
    forall S: set<Ref> | roots <= S && Closed(objs, cells, S) ensures o in S && L <= S && Follows(objs, cells, b, S) {
      LiveWithin(objs, cells, roots, S);
    }
    if !b.Table? || b.mode.Strong? {
      forall v | Holds(b, cells, v) ensures In(v, L) {
        InLive(objs, cells, roots, v);
      }
    } else {
      HeldByTable(objs, cells, o);
      assert Holds(b, cells, b.meta);
      InLive(objs, cells, roots, b.meta);
      forall i | 0 <= i < |b.arr| && (b.mode.Ephemeron? || IsStr(objs, b.arr[i])) ensures In(b.arr[i], L) {
        InLive(objs, cells, roots, b.arr[i]);
      }
      forall i | 0 <= i < |b.hash| && b.hash[i].val != Nil
        ensures EntryFollows(objs, b.mode, b.hash[i], L)
      {
        forall S: set<Ref> | roots <= S && Closed(objs, cells, S) ensures EntryFollows(objs, b.mode, b.hash[i], S) {
          assert Follows(objs, cells, b, S);
        }
        EntryLive(objs, cells, roots, b.mode, b.hash[i]);
      }
    }
  }

  /** What one entry of a weak table keeps alive. */
  ghost predicate EntryFollows(objs: Heap, mode: Mode, e: Entry, S: set<Ref>) {
    match mode
    case Strong => true
    case WeakValues => In(e.key, S) && (IsStr(objs, e.val) ==> In(e.val, S))
    case Ephemeron => EphemeronFollows(objs, e, S)
    case AllWeak => AllWeakFollows(objs, e, S)
  }

  lemma EntryLive(objs: Heap, cells: Cells, roots: set<Ref>, mode: Mode, e: Entry)
    requires In(e.key, objs.Keys) && In(e.val, objs.Keys)
    requires forall S: set<Ref> :: roots <= S && Closed(objs, cells, S) ==> EntryFollows(objs, mode, e, S)
    ensures EntryFollows(objs, mode, e, LiveSet(objs, cells, roots))
  {
    var L := LiveSet(objs, cells, roots);
    forall S: set<Ref> | roots <= S && Closed(objs, cells, S) ensures L <= S && EntryFollows(objs, mode, e, S) {
      LiveWithin(objs, cells, roots, S);
    }
    if mode.WeakValues? || (IsStr(objs, e.key) && (mode.Ephemeron? || !Cleared(objs, e.val, L))) {
      if !mode.Strong? {
        InLive(objs, cells, roots, e.key);
      }
    }
    if (IsStr(objs, e.val) && (mode.WeakValues? || mode.AllWeak?)) || (mode.Ephemeron? && !Cleared(objs, e.key, L)) {
      InLive(objs, cells, roots, e.val);
    }
  }

  // ----- heaps with fewer objects -----

  /** What an object keeps alive does not depend on objects it does not refer to. */
  lemma FollowsSame(objs0: Heap, objs1: Heap, cells: Cells, b: Obj, S: set<Ref>)
    requires objs1.Keys <= objs0.Keys && forall o :: o in objs1 ==> objs1[o] == objs0[o]
    requires HoldsOnly(b, cells, objs1.Keys)
    ensures Follows(objs0, cells, b, S) <==> Follows(objs1, cells, b, S)
  {
    if b.Table? && b.mode != Strong {
      TableHeld(cells, b, objs1.Keys);
      forall i | 0 <= i < |b.hash| && b.hash[i].val != Nil
        ensures EntryFollows(objs1, b.mode, b.hash[i], S) <==> EntryFollows(objs0, b.mode, b.hash[i], S)
      {
      }
    }
  }

  lemma TableHeld(cells: Cells, b: Obj, S: set<Ref>)
    requires b.Table? && HoldsOnly(b, cells, S)
    ensures ValuesMarked(b, S) && KeysMarked(b, S)
  {
    forall i | 0 <= i < |b.arr| ensures In(b.arr[i], S) {
      assert Holds(b, cells, b.arr[i]);
    }
    forall i | 0 <= i < |b.hash| && b.hash[i].val != Nil ensures In(b.hash[i].key, S) && In(b.hash[i].val, S) {
      assert InEntry(b.hash[i], b.hash[i].key) && InEntry(b.hash[i], b.hash[i].val);
      assert Holds(b, cells, b.hash[i].key) && Holds(b, cells, b.hash[i].val);
    }
  }

  /** Freeing what cannot be reached does not change what is live. */
  lemma LiveRestrict(objs0: Heap, objs1: Heap, cells: Cells, roots: set<Ref>)
    requires objs1.Keys <= objs0.Keys && forall o :: o in objs1 ==> objs1[o] == objs0[o]
    requires Sound(objs1, cells) && roots <= objs1.Keys
    ensures LiveSet(objs1, cells, roots) == LiveSet(objs0, cells, roots)
  {
    var L0, L1 := LiveSet(objs0, cells, roots), LiveSet(objs1, cells, roots);
    forall S: set<Ref> | roots <= S && Closed(objs0, cells, S) ensures L1 <= S {
      forall o | o in S && o in objs1 ensures Follows(objs1, cells, objs1[o], S) {
        assert Follows(objs0, cells, objs0[o], S);
        FollowsSame(objs0, objs1, cells, objs1[o], S);
      }
      LiveWithin(objs1, cells, roots, S);
    }
    LiveSetClosed(objs1, cells, roots);
    forall o | o in L1 && o in objs0 ensures Follows(objs0, cells, objs0[o], L1) {
      assert Follows(objs1, cells, objs1[o], L1);
      FollowsSame(objs0, objs1, cells, objs1[o], L1);
    }
    LiveWithin(objs0, cells, roots, L1);
  }

  lemma PurgedRestrict(objs0: Heap, objs1: Heap, cells: Cells, b: Obj, M: set<Ref>)
    requires objs1.Keys <= objs0.Keys && forall o :: o in objs1 ==> objs1[o] == objs0[o]
    requires HoldsOnly(b, cells, objs1.Keys)
    ensures Purged(objs1, b, M) == Purged(objs0, b, M)
  {
    if b.Table? {
      TableHeld(cells, b, objs1.Keys);
      forall v | In(v, objs1.Keys) ensures Cleared(objs1, v, M) == Cleared(objs0, v, M) {
      }
      assert forall i :: 0 <= i < |b.hash| ==> ClearedKey(objs1, b.hash[i], M) == ClearedKey(objs0, b.hash[i], M);
      assert ClearedKeys(objs1, b, M) == ClearedKeys(objs0, b, M);
      assert forall i :: 0 <= i < |b.hash| ==>
        ClearedValue(objs1, b.hash[i].val, M) == ClearedValue(objs0, b.hash[i].val, M);
      var c := ClearedValues(objs1, b, M);
      assert c == ClearedValues(objs0, b, M);
      assert forall i :: 0 <= i < |c.hash| ==> ClearedKey(objs1, c.hash[i], M) == ClearedKey(objs0, c.hash[i], M);
    }
  }

  /** What the collection of the heap `objs0` has kept, once it is known which objects are alive. */
  ghost predicate Collected(objs0: Heap, objs1: Heap, cells: Cells, alive: set<Ref>, roots: set<Ref>, S: set<Ref>) {
    && roots <= alive <= S && alive <= objs1.Keys <= objs0.Keys && Closed(objs0, cells, alive)
    && forall o :: o in alive ==> objs1[o] == Purged(objs0, objs0[o], alive)
  }

  /**
   A heap collected down to the objects that are alive, `objs3`, has exactly the live ones of
   `objs0`, if the collection started from what could be reached of it, `objs1`.
   */
  lemma CollectedExactly(objs0: Heap, objs1: Heap, objs2: Heap, objs3: Heap, cells: Cells, roots: set<Ref>,
      fixed: set<Ref>)
    requires objs1.Keys <= objs0.Keys && forall o :: o in objs1 ==> objs1[o] == objs0[o]
    requires Sound(objs1, cells) && roots <= objs1.Keys && fixed <= objs3.Keys
    requires Collected(objs1, objs2, cells, objs3.Keys, roots, LiveSet(objs1, cells, roots) + fixed)
    requires forall o :: o in objs3 ==> objs3[o] == objs2[o]
    ensures objs3.Keys == LiveSet(objs0, cells, roots) + fixed
    ensures forall o :: o in objs3 ==> objs3[o] == Purged(objs0, objs0[o], objs3.Keys)
  {
    LiveRestrict(objs0, objs1, cells, roots);
    LiveWithin(objs1, cells, roots, objs3.Keys);
    forall o | o in objs3 ensures objs3[o] == Purged(objs0, objs0[o], objs3.Keys) {
      PurgedRestrict(objs0, objs1, cells, objs1[o], objs3.Keys);
    }
  }

  /** With fewer strings there is less to follow. */
  lemma FollowsLess(objs0: Heap, objs1: Heap, cells: Cells, b: Obj, S: set<Ref>)
    requires Follows(objs0, cells, b, S) && forall o :: o in objs1 ==> o in objs0 && objs1[o] == objs0[o]
    ensures Follows(objs1, cells, b, S)
  {
    if b.Table? && b.mode != Strong {
      forall i | 0 <= i < |b.hash| && b.hash[i].val != Nil ensures EntryFollows(objs1, b.mode, b.hash[i], S) {
        assert EntryFollows(objs0, b.mode, b.hash[i], S);
      }
    }
  }

  /** Freeing objects makes nothing live. */
  lemma LiveSwept(objs0: Heap, objs1: Heap, cells: Cells, roots: set<Ref>)
    requires forall o :: o in objs1 ==> o in objs0 && objs1[o] == objs0[o]
    ensures LiveSet(objs1, cells, roots) <= LiveSet(objs0, cells, roots)
  {
    hide Follows;
    forall S: set<Ref> | roots <= S && Closed(objs0, cells, S) ensures Closed(objs1, cells, S) {
      forall o | o in S && o in objs1 ensures Follows(objs1, cells, objs1[o], S) {
        FollowsLess(objs0, objs1, cells, objs1[o], S);
      }
    }
  }

  /** Clearing the weak entries of objects outside `A` asks nothing more of a set within `A`. */
  lemma PurgedFollows(objs0: Heap, objs1: Heap, cells: Cells, b: Obj, A: set<Ref>, S: set<Ref>)
    requires Follows(objs0, cells, b, S) && S <= A
    requires forall o :: o in A && o in objs1 ==> o in objs0 && (objs1[o].Str? ==> objs0[o].Str?)
    ensures Follows(objs1, cells, Purged(objs0, b, A), S)
  {
    if b.Table? && b.mode != Strong {
      var p := Purged(objs0, b, A);
      forall v | !Cleared(objs0, v, A) && IsStr(objs1, v) ensures IsStr(objs0, v) {
      }
      forall i | 0 <= i < |p.hash| && p.hash[i].val != Nil ensures EntryFollows(objs1, b.mode, p.hash[i], S) {
        assert EntryFollows(objs0, b.mode, b.hash[i], S) && b.hash[i].key == p.hash[i].key;
      }
    } else {
      assert Purged(objs0, b, A) == b;
    }
  }

  /** The atomic step and what is swept after it make nothing live. */
  lemma LivePurged(objs0: Heap, objs1: Heap, cells: Cells, roots: set<Ref>, A: set<Ref>)
    requires Sound(objs0, cells) && roots <= A && Closed(objs0, cells, A) && roots <= objs0.Keys
    requires objs1.Keys <= objs0.Keys && forall o :: o in A ==> o in objs1 && objs1[o] == Purged(objs0, objs0[o], A)
    ensures LiveSet(objs1, cells, roots) <= LiveSet(objs0, cells, roots)
  {
    var L := LiveSet(objs0, cells, roots);
    LiveSetClosed(objs0, cells, roots);
    LiveWithin(objs0, cells, roots, A);
    forall o | o in L && o in objs1 ensures Follows(objs1, cells, objs1[o], L) {
      PurgedFollows(objs0, objs1, cells, objs0[o], A, L);
    }
    LiveWithin(objs1, cells, roots, L);
  }

  /** The live objects and the fixed strings bound a collection. */
  lemma LiveBounds(objs: Heap, cells: Cells, roots: set<Ref>, fixed: set<Ref>)
    requires Sound(objs, cells) && roots <= objs.Keys && fixed <= objs.Keys && forall o :: o in fixed ==> objs[o].Str?
    ensures var S := LiveSet(objs, cells, roots) + fixed; roots <= S <= objs.Keys && Closed(objs, cells, S)
  {
    LiveSetClosed(objs, cells, roots);
    var L := LiveSet(objs, cells, roots);
    var S := L + fixed;
    forall o | o in S ensures Follows(objs, cells, objs[o], S) {
      if o in L {
        StringsFollow(objs, cells, objs[o], L, fixed);
      }
    }
  }

  /** Strings may be added to a closed set. */
  lemma StringsFollow(objs: Heap, cells: Cells, b: Obj, L: set<Ref>, fixed: set<Ref>)
    requires Follows(objs, cells, b, L) && forall o :: o in fixed ==> o in objs && objs[o].Str?
    ensures Follows(objs, cells, b, L + fixed)
  {
    if b.Table? && b.mode != Strong {
      forall i | 0 <= i < |b.hash| && b.hash[i].val != Nil && EntryFollows(objs, b.mode, b.hash[i], L)
        ensures EntryFollows(objs, b.mode, b.hash[i], L + fixed)
      {
      }
    }
  }
}
