/**
 The tri-colour invariant of lgc.c and how a marking step changes it.

 `Lists` are the gray lists. `later` is the list whose objects will be traversed again: the field
 `grayagain` while the mutator runs, and the saved original of that list once collection is past
 the propagation phase (`inside`) and the field has no meaning any more. `fixed` are the objects of
 `fixedgc`, strings that stay gray for ever.
 */
module GcColor {
  import opened Sequences

  import opened GcHeap

  datatype Lists = Lists(gray: seq<Ref>, later: seq<Ref>, weak: seq<Ref>, allweak: seq<Ref>,
                         ephemeron: seq<Ref>, fixed: seq<Ref>, inside: bool)
  {
    /** How many of the lists have `o`; objects have one `gclist` field, so it must be at most one. */
    ghost function Links(o: Ref): nat {
      Once(o in gray) + Once(o in later) + Once(o in weak) + Once(o in allweak) + Once(o in ephemeron)
    }

    ghost predicate Distinct() {
      NoDup(gray) && NoDup(later) && NoDup(weak) && NoDup(allweak) && NoDup(ephemeron)
    }
  }

  function Once(b: bool): nat { if b then 1 else 0 }

  /** Nothing allocated refers to freed memory. */
  ghost predicate Sound(objs: Heap, cells: Cells) {
    forall o {:trigger objs[o]} :: o in objs ==>
      HoldsOnly(objs[o], cells, objs.Keys) && (objs[o].LClosure? ==> forall c :: c in objs[o].upvals ==> c in cells)
  }

  ghost function Marked(marks: Marks): set<Ref> {
    set o | o in marks && !marks[o].White?
  }

  ghost function Whites(marks: Marks): set<Ref> {
    set o | o in marks && marks[o].White?
  }

  /** White objects may have been marked; nothing else changed to or among the whites. */
  ghost predicate Grows(m0: Marks, m1: Marks) {
    && m0.Keys == m1.Keys && Marked(m0) <= Marked(m1) && Whites(m1) <= Whites(m0)
    && forall o :: o in m1 && m1[o].White? ==> m1[o] == m0[o]
  }

  lemma GrowsTrans(m0: Marks, m1: Marks, m2: Marks)
    requires Grows(m0, m1) && Grows(m1, m2)
    ensures Grows(m0, m2)
    ensures Whites(m2) == Whites(m0) ==> Whites(m2) == Whites(m1) == Whites(m0)
  {
  }

  /** Recolouring a marked object marks nothing. */
  lemma GrowsRecolour(m0: Marks, m1: Marks, o: Ref, c: Mark)
    requires o in m0 && !m0[o].White? && !c.White? && Grows(m0[o := c], m1)
    ensures Grows(m0, m1) && Whites(m0[o := c]) == Whites(m0)
  {
    assert Marked(m0[o := c]) == Marked(m0) && Whites(m0[o := c]) == Whites(m0);
    forall x | x in m1 && m1[x].White? ensures m1[x] == m0[x] {
      assert m1[x] == m0[o := c][x];
    }
  }

  /** The colour `reallymarkobject` gives. */
  function MarkOf(b: Obj): Mark {
    if b.Str? || b.Udata? then Black else Gray
  }

  /** Threads and weak tables are never black. */
  predicate MayBeBlack(b: Obj) {
    !b.Thread? && !(b.Table? && b.mode != Strong)
  }

  ghost predicate ValuesMarked(b: Obj, M: set<Ref>)
    requires b.Table?
  {
    && (forall i :: 0 <= i < |b.arr| ==> In(b.arr[i], M))
    && (forall i :: 0 <= i < |b.hash| && b.hash[i].val != Nil ==> In(b.hash[i].val, M))
  }

  ghost predicate KeysMarked(b: Obj, M: set<Ref>)
    requires b.Table?
  {
    forall i :: 0 <= i < |b.hash| && b.hash[i].val != Nil ==> In(b.hash[i].key, M)
  }

  /** No entry of the ephemeron table has a marked key and an unmarked value. */
  ghost predicate Converged(objs: Heap, b: Obj, M: set<Ref>)
    requires b.Table?
  {
    forall i :: 0 <= i < |b.hash| && b.hash[i].val != Nil ==> EphemeronFollows(objs, b.hash[i], M)
  }

  /** Nothing is left to mark from the ephemeron table. */
  ghost predicate EphemeronDone(objs: Heap, b: Obj, M: set<Ref>)
    requires b.Table?
  {
    Converged(objs, b, M) && forall i :: 0 <= i < |b.arr| ==> In(b.arr[i], M)
  }

  /** What the traversal of an ephemeron table knows of an entry it has passed, by the flags it kept. */
  ghost predicate Passed(objs: Heap, e: Entry, M: set<Ref>, hasclears: bool, hasww: bool, marked: bool) {
    e.val != Nil ==>
      && (IsStr(objs, e.key) ==> In(e.key, M))
      && (!hasww ==> In(e.val, M))
      && (!hasclears ==> In(e.key, M))
      && (!marked ==> EphemeronFollows(objs, e, M))
  }

  /** An ephemeron table that has been traversed before, so only its entries may need another visit. */
  ghost predicate EphemeronSeen(objs: Heap, w: Ref, M: set<Ref>) {
    HasMode(objs, w, Ephemeron) && In(objs[w].meta, M) && forall i :: 0 <= i < |objs[w].arr| ==> In(objs[w].arr[i], M)
  }

  ghost predicate StringKeysMarked(objs: Heap, b: Obj, M: set<Ref>)
    requires b.Table?
  {
    forall i :: 0 <= i < |b.hash| && b.hash[i].val != Nil && IsStr(objs, b.hash[i].key) ==> In(b.hash[i].key, M)
  }

  /** The gray object `o` needs no further traversal before weak tables are cleared. */
  ghost predicate Settled(objs: Heap, M: set<Ref>, o: Ref, L: Lists)
    requires o in objs
  {
    match objs[o]
    case Thread(stack) => L.inside && forall i :: 0 <= i < |stack| ==> In(stack[i], M)
    case Table(mode, meta, arr, hash) =>
      && In(meta, M)
      && (match mode
         case Strong => false
         case WeakValues =>
           L.inside && KeysMarked(objs[o], M) && (o in L.weak || ValuesMarked(objs[o], M))
         case Ephemeron =>
           && L.inside
           && (forall i :: 0 <= i < |arr| ==> In(arr[i], M))
           && StringKeysMarked(objs, objs[o], M)
           && (o in L.ephemeron ||
               (ValuesMarked(objs[o], M) && (o in L.allweak || KeysMarked(objs[o], M))))
         case AllWeak => o in L.allweak)
    case _ => false
  }

  /** An object that no one needs to visit to keep the invariant. */
  ghost predicate Coloured(objs: Heap, cells: Cells, marks: Marks, L: Lists, o: Ref)
    requires o in objs && o in marks
  {
    match marks[o]
    case White(_) => true
    case Black => MayBeBlack(objs[o]) && HoldsOnly(objs[o], cells, Marked(marks))
    case Gray => o in L.fixed || o in L.gray || o in L.later || Settled(objs, Marked(marks), o, L)
  }

  /** Each object is in at most one gray list, and only if it is gray and of a kind that list is for. */
  ghost predicate Linked(objs: Heap, marks: Marks, L: Lists) {
    && L.Distinct()
    && (forall o {:trigger L.Links(o)} ::
          && L.Links(o) <= 1
          && (L.Links(o) == 1 ==> o in objs && o in marks && marks[o].Gray? && !MarkOf(objs[o]).Black?))
    && (forall o :: o in L.fixed ==> o in objs && objs[o].Str?)
    && (!L.inside ==> L.weak == [] && L.ephemeron == [])
    && (forall o :: o in L.weak ==> HasMode(objs, o, WeakValues))
    && (forall o :: o in L.ephemeron ==> HasMode(objs, o, Ephemeron))
    && (forall o :: o in L.allweak ==> HasMode(objs, o, AllWeak) || HasMode(objs, o, Ephemeron))
  }

  predicate HasMode(objs: Heap, o: Ref, mode: Mode) {
    o in objs && objs[o].Table? && objs[o].mode == mode
  }

  /** A weak table with a value that cannot be marked any more, other than one an ephemeron's key keeps. */
  ghost predicate Clearable(objs: Heap, t: Ref, S: set<Ref>) {
    (HasMode(objs, t, WeakValues) || HasMode(objs, t, Ephemeron)) && !ValuesMarked(objs[t], S)
  }

  /** A marked table like that is waiting in one of the lists. */
  lemma Waits(objs: Heap, cells: Cells, marks: Marks, L: Lists, S: set<Ref>, t: Ref)
    requires Tri(objs, cells, marks, L, S) && t in Marked(marks) && Clearable(objs, t, S)
    ensures t in L.gray || t in L.later || t in L.weak || t in L.ephemeron
  {
    hide Closed, HoldsOnly;
    assert Coloured(objs, cells, marks, L, t) && Marked(marks) <= S;
  }

  lemma NoThread(objs: Heap, t: Ref, S: set<Ref>)
    requires Clearable(objs, t, S)
    ensures t in objs && !objs[t].Thread?
  {
  }

  /** Before the atomic step no weak table waits to be cleared. */
  lemma NothingLinked(objs: Heap, marks: Marks, L: Lists)
    requires Linked(objs, marks, L) && !L.inside
    ensures L.weak == [] && L.ephemeron == []
  {
  }

  /** A gray object is in one list only. */
  lemma GrayElsewhere(objs: Heap, cells: Cells, marks: Marks, L: Lists, S: set<Ref>, t: Ref)
    requires Tri(objs, cells, marks, L, S) && t in L.gray
    ensures t !in L.later && t in Marked(marks)
  {
    hide Coloured, Closed;
    assert L.Links(t) <= 1;
  }

  /** `L1` is `L0` with `o` added in front of at most one list. */
  ghost predicate Pushed(L0: Lists, L1: Lists, o: Ref) {
    || L1 == L0
    || L1 == L0.(later := [o] + L0.later)
    || L1 == L0.(weak := [o] + L0.weak)
    || L1 == L0.(allweak := [o] + L0.allweak)
    || L1 == L0.(ephemeron := [o] + L0.ephemeron)
  }

  /**
   The invariant while objects are being marked, for a set `S` that bounds what may be marked:
   no black object refers to a white one, and gray objects can be found.
   */
  ghost predicate Tri(objs: Heap, cells: Cells, marks: Marks, L: Lists, S: set<Ref>) {
    TriBut(objs, cells, marks, L, S, {})
  }

  /** The invariant without the objects of `B`. */
  ghost predicate TriBut(objs: Heap, cells: Cells, marks: Marks, L: Lists, S: set<Ref>, B: set<Ref>) {
    && Bounded(objs, cells, marks, S)
    && Linked(objs, marks, L)
    && (forall o {:trigger Coloured(objs, cells, marks, L, o)} :: o in objs && o !in B ==>
      Coloured(objs, cells, marks, L, o))
  }

  ghost predicate Bounded(objs: Heap, cells: Cells, marks: Marks, S: set<Ref>) {
    Markable(objs, cells, marks, S) && Marked(marks) <= S
  }

  /** The objects of `S` can be marked without touching others. */
  ghost predicate Markable(objs: Heap, cells: Cells, marks: Marks, S: set<Ref>) {
    marks.Keys == objs.Keys && S <= objs.Keys && Closed(objs, cells, S)
  }

  /** What marking does: some white objects of `S` change colour, the new gray ones enter the gray list. */
  ghost predicate MarkStep(objs: Heap, cells: Cells, m0: Marks, g0: seq<Ref>, m1: Marks, g1: seq<Ref>, S: set<Ref>) {
    MarkStepBut(objs, cells, m0, g0, m1, g1, S, {})
  }

  /** Marking that still has to mark `B`. */
  ghost predicate MarkStepBut(objs: Heap, cells: Cells, m0: Marks, g0: seq<Ref>, m1: Marks, g1: seq<Ref>, S: set<Ref>,
      B: set<Ref>) {
    && m0.Keys == m1.Keys == objs.Keys
    && ColourStep(objs, m0, m1, S)
    && GrayStep(m0, g0, m1, g1)
    && BlackStep(objs, cells, m0, m1, Marked(m1) + B)
  }

  ghost predicate ColourStep(objs: Heap, m0: Marks, m1: Marks, S: set<Ref>)
    requires m0.Keys == m1.Keys == objs.Keys
  {
    forall o :: o in m0 ==> m1[o] == m0[o] || (m0[o].White? && o in S && m1[o] == MarkOf(objs[o]))
  }

  /** New gray objects, and only they, are linked into the gray list. */
  ghost predicate GrayStep(m0: Marks, g0: seq<Ref>, m1: Marks, g1: seq<Ref>)
    requires m0.Keys == m1.Keys
  {
    && (forall o :: o in g1 <==> o in g0 || (o in m0 && m0[o].White? && m1[o].Gray?))
    && (GrayOnce(g0, m0) ==> GrayOnce(g1, m1))
    && (m1 == m0 ==> g1 == g0)
  }

  /** New black objects refer only to objects of `M`. */
  ghost predicate BlackStep(objs: Heap, cells: Cells, m0: Marks, m1: Marks, M: set<Ref>)
    requires m0.Keys == m1.Keys == objs.Keys
  {
    forall o {:trigger HoldsOnly(objs[o], cells, M)} :: o in m0 && m0[o].White? && m1[o].Black? ==>
      HoldsOnly(objs[o], cells, M)
  }

  /** The list has no duplicate and no white object. */
  ghost predicate GrayOnce(g: seq<Ref>, m: Marks) {
    NoDup(g) && forall i :: 0 <= i < |g| ==> g[i] in m && !m[g[i]].White?
  }

  lemma MarkStepTrans(objs: Heap, cells: Cells, m0: Marks, g0: seq<Ref>, m1: Marks, g1: seq<Ref>, m2: Marks,
      g2: seq<Ref>, S: set<Ref>)
    requires MarkStep(objs, cells, m0, g0, m1, g1, S) && MarkStep(objs, cells, m1, g1, m2, g2, S)
    ensures MarkStep(objs, cells, m0, g0, m2, g2, S)
    ensures Marked(m0) <= Marked(m1) <= Marked(m2)
  {
    forall o | o in m0 && m0[o].White? && m2[o].Black? ensures HoldsOnly(objs[o], cells, Marked(m2) + {}) {
      HoldsOnlyGrows(objs[o], cells, if m1[o].White? then Marked(m2) + {} else Marked(m1) + {}, Marked(m2) + {});
    }
  }

  lemma MarkStepGrows(objs: Heap, cells: Cells, m0: Marks, g0: seq<Ref>, m1: Marks, g1: seq<Ref>, S: set<Ref>)
    requires MarkStep(objs, cells, m0, g0, m1, g1, S)
    ensures Grows(m0, m1) && Marked(m1) <= Marked(m0) + S
    ensures Whites(m1) == Whites(m0) ==> m1 == m0 && g1 == g0
  {
    if Whites(m1) == Whites(m0) {
      forall o | o in m0 ensures m1[o] == m0[o] {
        assert o in Whites(m0) <==> o in Whites(m1);
      }
    }
  }

  lemma InFollows(objs: Heap, cells: Cells, S: set<Ref>, o: Ref)
    requires Closed(objs, cells, S) && o in S && o in objs && MayBeBlack(objs[o])
    ensures HoldsOnly(objs[o], cells, S)
    ensures objs[o].Udata? ==> In(objs[o].meta, S) && In(objs[o].uservalue, S)
  {
    assert Follows(objs, cells, objs[o], S);
    if objs[o].Udata? {
      assert Holds(objs[o], cells, objs[o].meta) && Holds(objs[o], cells, objs[o].uservalue);
    }
  }

  lemma InFollowsTable(objs: Heap, cells: Cells, S: set<Ref>, h: Ref)
    requires Closed(objs, cells, S) && h in S && h in objs && objs[h].Table?
    ensures In(objs[h].meta, S)
    ensures objs[h].mode.Strong? ==> ValuesMarked(objs[h], S) && KeysMarked(objs[h], S)
  {
    var b := objs[h];
    assert Follows(objs, cells, b, S);
    if b.mode.Strong? {
      assert Holds(b, cells, b.meta);
      forall i | 0 <= i < |b.arr| ensures In(b.arr[i], S) {
        assert Holds(b, cells, b.arr[i]);
      }
      forall i | 0 <= i < |b.hash| && b.hash[i].val != Nil ensures In(b.hash[i].key, S) && In(b.hash[i].val, S) {
        assert InEntry(b.hash[i], b.hash[i].key) && InEntry(b.hash[i], b.hash[i].val);
        assert Holds(b, cells, b.hash[i].key) && Holds(b, cells, b.hash[i].val);
      }
    }
  }

  lemma TableMarked(objs: Heap, cells: Cells, h: Ref, M: set<Ref>)
    requires h in objs && objs[h].Table? && In(objs[h].meta, M)
    requires ValuesMarked(objs[h], M) && KeysMarked(objs[h], M)
    ensures HoldsOnly(objs[h], cells, M)
  {
  }

  lemma HeldByTable(objs: Heap, cells: Cells, h: Ref)
    requires h in objs && objs[h].Table? && HoldsOnly(objs[h], cells, objs.Keys)
    ensures ValuesMarked(objs[h], objs.Keys) && KeysMarked(objs[h], objs.Keys)
  {
    var b := objs[h];
    forall i | 0 <= i < |b.arr| ensures In(b.arr[i], objs.Keys) {
      assert Holds(b, cells, b.arr[i]);
    }
    forall i | 0 <= i < |b.hash| && b.hash[i].val != Nil ensures In(b.hash[i].key, objs.Keys)
      && In(b.hash[i].val, objs.Keys) {
      assert InEntry(b.hash[i], b.hash[i].key) && InEntry(b.hash[i], b.hash[i].val);
      assert Holds(b, cells, b.hash[i].key) && Holds(b, cells, b.hash[i].val);
    }
  }

  /** A white object that is given a colour and, when that is gray, linked into the gray list. */
  lemma GrayStepOne(m0: Marks, g0: seq<Ref>, m1: Marks, g1: seq<Ref>, o: Ref, c: Mark)
    requires m0.Keys == m1.Keys && GrayStep(m0, g0, m1, g1)
    requires o in m1 && m0[o].White? && m1[o].White? && !c.White?
    ensures GrayStep(m0, g0, m1[o := c], if c.Gray? then [o] + g1 else g1)
  {
    assert m1[o := c][o] != m0[o];
  }

  lemma HoldsOnlyGrows(b: Obj, cells: Cells, M0: set<Ref>, M1: set<Ref>)
    requires HoldsOnly(b, cells, M0) && M0 <= M1
    ensures HoldsOnly(b, cells, M1)
  {
  }

  /** Marking the pending object `o` when nothing it refers to has to be marked with it. */
  lemma MarkPending(objs: Heap, cells: Cells, m0: Marks, g0: seq<Ref>, m1: Marks, g1: seq<Ref>, S: set<Ref>, o: Ref)
    requires MarkStepBut(objs, cells, m0, g0, m1, g1, S, {o})
    requires o in objs && o in S && m1[o].White? && !objs[o].Udata?
    ensures MarkStep(objs, cells, m0, g0, m1[o := MarkOf(objs[o])], if objs[o].Str? then g1 else [o] + g1, S)
  {
    var m2 := m1[o := MarkOf(objs[o])];
    GrayStepOne(m0, g0, m1, g1, o, MarkOf(objs[o]));
    assert Marked(m2) + {} == Marked(m1) + {o};
  }

  /** Marking the pending userdata `o`: its metatable is marked at once, its user value is left pending. */
  lemma MarkPendingUdata(objs: Heap, cells: Cells, m0: Marks, g0: seq<Ref>, m1: Marks, g1: seq<Ref>,
                         m3: Marks, g3: seq<Ref>, S: set<Ref>, o: Ref, B: set<Ref>)
    requires MarkStepBut(objs, cells, m0, g0, m1, g1, S, {o})
    requires o in objs && o in S && m1[o].White? && objs[o].Udata?
    requires MarkStep(objs, cells, m1[o := Gray], g1, m3, g3, S)
    requires In(objs[o].meta, Marked(m3[o := Black])) && In(objs[o].uservalue, Marked(m3[o := Black]) + B)
    ensures MarkStepBut(objs, cells, m0, g0, m3[o := Black], g3, S, B)
    ensures Whites(m3[o := Black]) < Whites(m1)
  {
    var m4 := m3[o := Black];
    GrayStepUdata(m0, g0, m1, g1, m3, g3, o);
    BlackStepUdata(objs, cells, m0, m1, m3, Marked(m1) + {o}, Marked(m3) + {}, Marked(m4) + B, o);
    assert o in Whites(m1) && o !in Whites(m4);
  }

  lemma BlackStepUdata(objs: Heap, cells: Cells, m0: Marks, m1: Marks, m3: Marks, M1: set<Ref>, M3: set<Ref>,
      M: set<Ref>, o: Ref)
    requires m0.Keys == m1.Keys == m3.Keys == objs.Keys && o in objs
    requires BlackStep(objs, cells, m0, m1, M1) && BlackStep(objs, cells, m1[o := Gray], m3, M3)
    requires M1 <= M && M3 <= M && HoldsOnly(objs[o], cells, M)
    requires forall x :: x in m1 && x != o && !m1[x].White? ==> m3[x] == m1[x]
    ensures BlackStep(objs, cells, m0, m3[o := Black], M)
  {
    forall x | x in m0 && x != o && m0[x].White? && m3[x].Black? ensures HoldsOnly(objs[x], cells, M) {
      HoldsOnlyGrows(objs[x], cells, if m1[x].White? then M3 else M1, M);
    }
  }

  lemma GrayStepUdata(m0: Marks, g0: seq<Ref>, m1: Marks, g1: seq<Ref>, m3: Marks, g3: seq<Ref>, o: Ref)
    requires m0.Keys == m1.Keys == m3.Keys && GrayStep(m0, g0, m1, g1)
    requires o in m1 && m0[o].White? && m1[o].White? && m3[o].Gray?
    requires forall x :: x in m1 && x != o ==> m0[x].White? || m1[x] == m0[x]
    requires forall x :: x in m1 && x != o && !m1[x].White? ==> m3[x] == m1[x]
    requires GrayStep(m1[o := Gray], g1, m3, g3)
    ensures GrayStep(m0, g0, m3[o := Black], g3)
  {
    assert m3[o := Black][o] != m0[o];
    assert GrayOnce(g1, m1) ==> GrayOnce(g1, m1[o := Gray]);
  }

  /** Only strings changed colour, so no weak-table test changes. */
  ghost predicate StringsOnly(objs: Heap, m0: Marks, m1: Marks) {
    forall o :: o in objs && o in m0 && o in m1 && !objs[o].Str? ==> m1[o] == m0[o]
  }

  lemma ConvergedGrows(objs: Heap, e: Entry, m0: Marks, m1: Marks)
    requires m0.Keys == m1.Keys == objs.Keys && Marked(m0) <= Marked(m1) && StringsOnly(objs, m0, m1)
    requires EphemeronFollows(objs, e, Marked(m0)) && In(e.key, objs.Keys)
    ensures EphemeronFollows(objs, e, Marked(m1))
  {
  }

  lemma PassedGrows(objs: Heap, e: Entry, m0: Marks, m1: Marks, hasclears: bool, hasww: bool, marked: bool,
                    cleared: bool, ww: bool, more: bool)
    requires m0.Keys == m1.Keys == objs.Keys && Marked(m0) <= Marked(m1)
    requires !more ==> StringsOnly(objs, m0, m1)
    requires Passed(objs, e, Marked(m0), hasclears, hasww, marked) && (e.val != Nil ==> In(e.key, objs.Keys))
    ensures Passed(objs, e, Marked(m1), hasclears || cleared, hasww || ww, marked || more)
  {
  }

  lemma TableConvergedGrows(objs: Heap, cells: Cells, w: Ref, m0: Marks, m1: Marks)
    requires m0.Keys == m1.Keys == objs.Keys && Marked(m0) <= Marked(m1) && StringsOnly(objs, m0, m1)
    requires HasMode(objs, w, Ephemeron) && HoldsOnly(objs[w], cells, objs.Keys)
    requires Converged(objs, objs[w], Marked(m0))
    ensures Converged(objs, objs[w], Marked(m1))
  {
    HeldByTable(objs, cells, w);
    var b := objs[w];
    forall i | 0 <= i < |b.hash| && b.hash[i].val != Nil ensures EphemeronFollows(objs, b.hash[i], Marked(m1)) {
      ConvergedGrows(objs, b.hash[i], m0, m1);
    }
  }

  /** Every table of `ws` is an ephemeron table that has converged. */
  ghost predicate AllConverged(objs: Heap, ws: seq<Ref>, M: set<Ref>) {
    forall w :: w in ws ==> HasMode(objs, w, Ephemeron) && Converged(objs, objs[w], M)
  }

  /** Every table of `ws` has been traversed before. */
  ghost predicate AllSeen(objs: Heap, ws: seq<Ref>, M: set<Ref>) {
    forall w :: w in ws ==> EphemeronSeen(objs, w, M)
  }

  lemma AllConvergedGrows(objs: Heap, cells: Cells, ws: seq<Ref>, m0: Marks, m1: Marks)
    requires m0.Keys == m1.Keys == objs.Keys && Marked(m0) <= Marked(m1) && StringsOnly(objs, m0, m1)
    requires Sound(objs, cells) && AllConverged(objs, ws, Marked(m0))
    ensures AllConverged(objs, ws, Marked(m1))
  {
    forall w | w in ws ensures Converged(objs, objs[w], Marked(m1)) {
      TableConvergedGrows(objs, cells, w, m0, m1);
    }
  }

  lemma AllSeenGrows(objs: Heap, ws: seq<Ref>, M0: set<Ref>, M1: set<Ref>)
    requires AllSeen(objs, ws, M0) && M0 <= M1
    ensures AllSeen(objs, ws, M1)
  {
  }

  /** Marking one string. */
  lemma MarkString(objs: Heap, cells: Cells, m0: Marks, g0: seq<Ref>, m1: Marks, g1: seq<Ref>, m2: Marks,
      g2: seq<Ref>, S: set<Ref>, o: Ref)
    requires MarkStep(objs, cells, m0, g0, m1, g1, S) && o in S && o in objs && objs[o].Str?
    requires MarkStep(objs, cells, m1, g1, m2, g2, {o})
    ensures MarkStep(objs, cells, m0, g0, m2, g2, S) && StringsOnly(objs, m1, m2)
    ensures forall x :: x in g2 <==> x in g1
    ensures Marked(m1) <= Marked(m2)
  {
    MarkStepTrans(objs, cells, m0, g0, m1, g1, m2, g2, S);
  }

  /** Only the growth of the marked set and of the lists matters for being settled. */
  lemma SettledGrows(objs: Heap, M0: set<Ref>, M1: set<Ref>, o: Ref, L0: Lists, L1: Lists)
    requires o in objs && Settled(objs, M0, o, L0) && M0 <= M1
    requires L0.inside ==> L1.inside
    requires o in L0.weak ==> o in L1.weak
    requires o in L0.allweak ==> o in L1.allweak
    requires o in L0.ephemeron ==> o in L1.ephemeron
    ensures Settled(objs, M1, o, L1)
  {
  }

  lemma LinkedStep(objs: Heap, m0: Marks, L0: Lists, m1: Marks, g1: seq<Ref>, S: set<Ref>)
    requires Linked(objs, m0, L0) && m0.Keys == m1.Keys == objs.Keys
    requires ColourStep(objs, m0, m1, S) && GrayStep(m0, L0.gray, m1, g1)
    ensures Linked(objs, m1, L0.(gray := g1))
  {
    assert forall i :: 0 <= i < |L0.gray| ==> L0.Links(L0.gray[i]) == 1;
    var L1 := L0.(gray := g1);
    forall o ensures L1.Links(o) <= 1 && (L1.Links(o) == 1 ==> o in objs && m1[o].Gray? && !MarkOf(objs[o]).Black?) {
      assert L0.Links(o) <= 1;
      if o in m0 && m0[o].White? {
        assert L0.Links(o) == 0;
        assert m1[o] == m0[o] || m1[o] == MarkOf(objs[o]);
      } else if o in m0 {
        assert m1[o] == m0[o];
        assert o in g1 <==> o in L0.gray;
      }
    }
  }

  lemma ColouredStep(objs: Heap, cells: Cells, m0: Marks, L0: Lists, m1: Marks, g1: seq<Ref>, S: set<Ref>, o: Ref)
    requires o in objs && m0.Keys == m1.Keys == objs.Keys
    requires Coloured(objs, cells, m0, L0, o)
    requires MarkStep(objs, cells, m0, L0.gray, m1, g1, S)
    ensures Coloured(objs, cells, m1, L0.(gray := g1), o)
  {
    MarkStepGrows(objs, cells, m0, L0.gray, m1, g1, S);
    if m0[o].Black? || m1[o].Black? {
      HoldsOnlyGrows(objs[o], cells, if m0[o].Black? then Marked(m0) else Marked(m1) + {}, Marked(m1));
    } else if m0[o].Gray? && Settled(objs, Marked(m0), o, L0) {
      SettledGrows(objs, Marked(m0), Marked(m1), o, L0, L0.(gray := g1));
    }
  }

  /** A marking step keeps the invariant, whichever objects are being worked on. */
  lemma TriMarkStep(objs: Heap, cells: Cells, m0: Marks, L0: Lists, m1: Marks, g1: seq<Ref>, S: set<Ref>, B: set<Ref>)
    requires TriBut(objs, cells, m0, L0, S, B)
    requires MarkStep(objs, cells, m0, L0.gray, m1, g1, S)
    ensures TriBut(objs, cells, m1, L0.(gray := g1), S, B)
  {
    MarkStepGrows(objs, cells, m0, L0.gray, m1, g1, S);
    LinkedStep(objs, m0, L0, m1, g1, S);
    forall o | o in objs && o !in B ensures Coloured(objs, cells, m1, L0.(gray := g1), o) {
      ColouredStep(objs, cells, m0, L0, m1, g1, S, o);
    }
  }

  /** The object `o` that was being worked on gets its colour and its list. */
  lemma TriSettle(objs: Heap, cells: Cells, m: Marks, L0: Lists, L1: Lists, S: set<Ref>, o: Ref, c: Mark)
    requires TriBut(objs, cells, m, L0, S, {o})
    requires o in objs && L0.Links(o) == 0 && !m[o].White? && !c.White?
    requires Pushed(L0, L1, o) && (L1 != L0 ==> c.Gray? && !MarkOf(objs[o]).Black?)
    requires L1.weak != L0.weak ==> L0.inside && HasMode(objs, o, WeakValues)
    requires L1.ephemeron != L0.ephemeron ==> L0.inside && HasMode(objs, o, Ephemeron)
    requires L1.allweak != L0.allweak ==> HasMode(objs, o, AllWeak) || HasMode(objs, o, Ephemeron)
    requires Coloured(objs, cells, m[o := c], L1, o)
    ensures Tri(objs, cells, m[o := c], L1, S)
  {
    var m1 := m[o := c];
    assert Marked(m1) == Marked(m);
    LinkedPush(objs, m, L0, L1, o, c);
    forall x | x in objs ensures Coloured(objs, cells, m1, L1, x) {
      if x != o {
        assert Coloured(objs, cells, m, L0, x);
        if m[x].Gray? && Settled(objs, Marked(m), x, L0) {
          SettledGrows(objs, Marked(m), Marked(m1), x, L0, L1);
        }
      }
    }
  }

  lemma LinkedPush(objs: Heap, m: Marks, L0: Lists, L1: Lists, o: Ref, c: Mark)
    requires Linked(objs, m, L0) && m.Keys == objs.Keys
    requires o in objs && L0.Links(o) == 0 && !m[o].White? && !c.White?
    requires Pushed(L0, L1, o) && (L1 != L0 ==> c.Gray? && !MarkOf(objs[o]).Black?)
    requires L1.weak != L0.weak ==> L0.inside && HasMode(objs, o, WeakValues)
    requires L1.ephemeron != L0.ephemeron ==> L0.inside && HasMode(objs, o, Ephemeron)
    requires L1.allweak != L0.allweak ==> HasMode(objs, o, AllWeak) || HasMode(objs, o, Ephemeron)
    ensures Linked(objs, m[o := c], L1)
  {
    PushedLinks(L0, L1, o);
    forall x ensures L1.Links(x) == 1 ==> x in objs && m[o := c][x].Gray? && !MarkOf(objs[x]).Black? {
      if x != o && L1.Links(x) == 1 {
        assert L0.Links(x) == 1;
      }
    }
  }

  lemma PushedLinks(L0: Lists, L1: Lists, o: Ref)
    requires Pushed(L0, L1, o) && L0.Links(o) == 0 && L0.Distinct()
    ensures L1.Distinct()
    ensures forall x {:trigger L1.Links(x)} :: L1.Links(x) == if x == o && L1 != L0 then 1 else L0.Links(x)
  {
    if L1 == L0.(later := [o] + L0.later) {
      NoDupPush(L0.later, o);
    } else if L1 == L0.(weak := [o] + L0.weak) {
      NoDupPush(L0.weak, o);
    } else if L1 == L0.(allweak := [o] + L0.allweak) {
      NoDupPush(L0.allweak, o);
    } else if L1 == L0.(ephemeron := [o] + L0.ephemeron) {
      NoDupPush(L0.ephemeron, o);
    }
  }

  lemma NoDupPush(s: seq<Ref>, o: Ref)
    requires NoDup(s) && o !in s
    ensures NoDup([o] + s) && forall x :: x in [o] + s <==> x == o || x in s
  {
  }

  /** Taking the first gray object off its list. */
  lemma TriPop(objs: Heap, cells: Cells, m: Marks, L: Lists, S: set<Ref>)
    requires Tri(objs, cells, m, L, S) && L.gray != []
    ensures var o := L.gray[0]; var L1 := L.(gray := L.gray[1..]);
      o in objs && !MarkOf(objs[o]).Black? && m[o].Gray? && o in S && L1.Links(o) == 0
        && TriBut(objs, cells, m[o := Black], L1, S, {o})
  {
    var o := L.gray[0];
    var L1 := L.(gray := L.gray[1..]);
    assert L.gray == [o] + L1.gray;
    assert o in L.gray && L.Links(o) == 1;
    assert Marked(m[o := Black]) == Marked(m) && o in Marked(m);
    forall x ensures L1.Links(x) == if x == o then 0 else L.Links(x) {
    }
    forall x | x in objs && x != o ensures Coloured(objs, cells, m[o := Black], L1, x) {
      assert Coloured(objs, cells, m, L, x);
      if m[x].Gray? && Settled(objs, Marked(m), x, L) {
        SettledGrows(objs, Marked(m), Marked(m), x, L, L1);
      }
    }
  }

  /** The end of a traversal that turns `o` black. */
  lemma TriBlack(objs: Heap, cells: Cells, m1: Marks, L1: Lists, m2: Marks, g2: seq<Ref>, S: set<Ref>, o: Ref)
    requires TriBut(objs, cells, m1, L1, S, {o}) && o in objs && m1[o].Black? && L1.Links(o) == 0
    requires MarkStep(objs, cells, m1, L1.gray, m2, g2, S)
    requires MayBeBlack(objs[o]) && HoldsOnly(objs[o], cells, Marked(m2))
    ensures Tri(objs, cells, m2, L1.(gray := g2), S)
  {
    TriMarkStep(objs, cells, m1, L1, m2, g2, S, {o});
    assert m2[o := Black] == m2;
    TriSettle(objs, cells, m2, L1.(gray := g2), L1.(gray := g2), S, o, Black);
  }

  /** An object that is being worked on may go back to gray. */
  lemma TriGray(objs: Heap, cells: Cells, m: Marks, L: Lists, S: set<Ref>, o: Ref)
    requires TriBut(objs, cells, m, L, S, {o}) && o in objs && m[o].Black? && L.Links(o) == 0
    ensures TriBut(objs, cells, m[o := Gray], L, S, {o}) && Marked(m[o := Gray]) == Marked(m)
    ensures Whites(m[o := Gray]) == Whites(m)
  {
    var m1 := m[o := Gray];
    assert Marked(m1) == Marked(m) && Whites(m1) == Whites(m);
    forall x | x in objs && x != o ensures Coloured(objs, cells, m1, L, x) {
      assert Coloured(objs, cells, m, L, x);
    }
  }

  /** The end of the traversal of a gray object that stays gray. */
  lemma TriStayGray(objs: Heap, cells: Cells, m1: Marks, L1: Lists, m2: Marks, L2: Lists, L3: Lists, S: set<Ref>,
      o: Ref)
    requires TriBut(objs, cells, m1, L1, S, {o}) && o in objs && m1[o].Gray? && L1.Links(o) == 0
    requires MarkStep(objs, cells, m1, L1.gray, m2, L2.gray, S) && L2 == L1.(gray := L2.gray)
    requires Pushed(L2, L3, o) && !MarkOf(objs[o]).Black?
    requires L3.weak != L2.weak ==> L2.inside && HasMode(objs, o, WeakValues)
    requires L3.ephemeron != L2.ephemeron ==> L2.inside && HasMode(objs, o, Ephemeron)
    requires L3.allweak != L2.allweak ==> HasMode(objs, o, AllWeak) || HasMode(objs, o, Ephemeron)
    requires o in L3.later || Settled(objs, Marked(m2), o, L3)
    ensures Tri(objs, cells, m2, L3, S)
  {
    TriMarkStep(objs, cells, m1, L1, m2, L2.gray, S, {o});
    assert m2[o := Gray] == m2;
    TriSettle(objs, cells, m2, L2, L3, S, o, Gray);
  }

  /** The ephemeron list is put aside to be traversed again. */
  lemma TriEphemeronsLater(objs: Heap, cells: Cells, m: Marks, L: Lists, S: set<Ref>)
    requires Tri(objs, cells, m, L, S) && L.later == [] && L.gray == []
    ensures Tri(objs, cells, m, L.(later := L.ephemeron, ephemeron := []), S)
    ensures AllSeen(objs, L.ephemeron, Marked(m))
  {
    var L1 := L.(later := L.ephemeron, ephemeron := []);
    forall x ensures L1.Links(x) == L.Links(x) {
    }
    forall w | w in L.ephemeron ensures EphemeronSeen(objs, w, Marked(m)) {
      assert L.Links(w) == 1;
      assert Coloured(objs, cells, m, L, w);
    }
    forall x | x in objs ensures Coloured(objs, cells, m, L1, x) {
      assert Coloured(objs, cells, m, L, x);
      if m[x].Gray? && x !in L.ephemeron && Settled(objs, Marked(m), x, L) {
        SettledGrows(objs, Marked(m), Marked(m), x, L, L1);
      }
    }
  }

  /** Taking the first object off the list of those to be traversed later. */
  lemma TriPopLater(objs: Heap, cells: Cells, m: Marks, L: Lists, S: set<Ref>)
    requires Tri(objs, cells, m, L, S) && L.later != []
    ensures var o := L.later[0]; var L1 := L.(later := L.later[1..]);
      o in objs && m[o].Gray? && o in S && L1.Links(o) == 0 && TriBut(objs, cells, m, L1, S, {o})
  {
    var o := L.later[0];
    var L1 := L.(later := L.later[1..]);
    assert L.later == [o] + L1.later;
    assert o in L.later && L.Links(o) == 1;
    forall x ensures L1.Links(x) == if x == o then 0 else L.Links(x) {
    }
    forall x | x in objs && x != o ensures Coloured(objs, cells, m, L1, x) {
      assert Coloured(objs, cells, m, L, x);
      if m[x].Gray? && Settled(objs, Marked(m), x, L) {
        SettledGrows(objs, Marked(m), Marked(m), x, L, L1);
      }
    }
  }

  // ----- clearing weak tables -----

  /** Some white strings of `S` were marked. */
  ghost predicate StrStep(objs: Heap, m0: Marks, m1: Marks, S: set<Ref>) {
    && m0.Keys == m1.Keys == objs.Keys
    && forall o :: o in m0 ==> m1[o] == m0[o] || (m0[o].White? && objs[o].Str? && o in S && m1[o] == Black)
  }

  /** Same objects, same types. */
  ghost predicate SameKinds(objs0: Heap, objs1: Heap) {
    && objs0.Keys == objs1.Keys
    && forall o :: o in objs0 ==> (objs0[o].Str? <==> objs1[o].Str?)
  }

  /** `objs1` is `objs0` after entries of the weak tables of `l` with an unmarked key have been cleared. */
  ghost predicate KeysPass(objs0: Heap, objs1: Heap, l: seq<Ref>, M: set<Ref>) {
    && SameKinds(objs0, objs1)
    && forall o :: o in objs0 ==>
         objs1[o] == if o in l && objs0[o].Table? then ClearedKeys(objs0, objs0[o], M) else objs0[o]
  }

  /** The same for unmarked values. */
  ghost predicate ValuesPass(objs0: Heap, objs1: Heap, l: seq<Ref>, M: set<Ref>) {
    && SameKinds(objs0, objs1)
    && forall o :: o in objs0 ==>
         objs1[o] == if o in l && objs0[o].Table? then ClearedValues(objs0, objs0[o], M) else objs0[o]
  }

  /** The string values of a table. */
  ghost predicate StringValuesMarked(objs: Heap, b: Obj, M: set<Ref>)
    requires b.Table?
  {
    && (forall i :: 0 <= i < |b.arr| && IsStr(objs, b.arr[i]) ==> In(b.arr[i], M))
    && (forall i :: 0 <= i < |b.hash| && IsStr(objs, b.hash[i].val) ==> In(b.hash[i].val, M))
  }

  /** One more table cleared. */
  lemma ValuesPassOne(objs0: Heap, m0: Marks, objs1: Heap, m1: Marks, objs2: Heap, m2: Marks, l: seq<Ref>, t: Ref,
      S: set<Ref>)
    requires ValuesPass(objs0, objs1, l, Marked(m0)) && StrStep(objs0, m0, m1, S) && StrStep(objs1, m1, m2, S)
    requires t in objs0 && t !in l && objs0[t].Table? && ValuesMarked(objs0[t], objs0.Keys)
    requires objs2 == objs1[t := ClearedValues(objs1, objs0[t], Marked(m1))]
    requires StringValuesMarked(objs2, objs2[t], Marked(m2))
    requires AllStringValues(objs0, objs1, l, Marked(m1))
    ensures ValuesPass(objs0, objs2, l + [t], Marked(m0)) && StrStep(objs0, m0, m2, S)
    ensures AllStringValues(objs0, objs2, l + [t], Marked(m2))
  {
    hide Marked, ValuesMarked, StrStep;
    StrStepTrans(objs0, objs1, m0, m1, m2, S);
    ClearedValuesSame(objs0, objs1, objs0[t], m0, m1, S);
  }

  ghost predicate AllStringValues(objs0: Heap, objs: Heap, l: seq<Ref>, M: set<Ref>) {
    forall t :: t in l ==> t in objs && objs[t].Table? && StringValuesMarked(objs0, objs[t], M)
  }

  lemma KeysPassOne(objs0: Heap, m0: Marks, objs1: Heap, m1: Marks, objs2: Heap, m2: Marks, l: seq<Ref>, t: Ref,
      S: set<Ref>)
    requires KeysPass(objs0, objs1, l, Marked(m0)) && StrStep(objs0, m0, m1, S) && StrStep(objs1, m1, m2, S)
    requires t in objs0 && t !in l && objs0[t].Table? && KeysMarked(objs0[t], objs0.Keys)
    requires objs2 == objs1[t := ClearedKeys(objs1, objs0[t], Marked(m1))]
    requires StringKeysMarked(objs2, objs2[t], Marked(m2))
    requires AllStringKeys(objs0, objs1, l, Marked(m1))
    ensures KeysPass(objs0, objs2, l + [t], Marked(m0)) && StrStep(objs0, m0, m2, S)
    ensures AllStringKeys(objs0, objs2, l + [t], Marked(m2))
  {
    StrStepTrans(objs0, objs1, m0, m1, m2, S);
    ClearedKeysSame(objs0, objs1, objs0[t], m0, m1, S);
  }

  ghost predicate AllStringKeys(objs0: Heap, objs: Heap, l: seq<Ref>, M: set<Ref>) {
    forall t :: t in l ==> t in objs && objs[t].Table? && StringKeysMarked(objs0, objs[t], M)
  }

  lemma ClearedSame(objs0: Heap, objs1: Heap, v: Value, m0: Marks, m1: Marks, S: set<Ref>)
    requires SameKinds(objs0, objs1) && StrStep(objs0, m0, m1, S) && In(v, objs0.Keys)
    ensures Cleared(objs1, v, Marked(m1)) == Cleared(objs0, v, Marked(m0))
  {
  }

  lemma ClearedKeysSame(objs0: Heap, objs1: Heap, b: Obj, m0: Marks, m1: Marks, S: set<Ref>)
    requires SameKinds(objs0, objs1) && StrStep(objs0, m0, m1, S) && b.Table? && KeysMarked(b, objs0.Keys)
    ensures ClearedKeys(objs1, b, Marked(m1)) == ClearedKeys(objs0, b, Marked(m0))
  {
    forall i | 0 <= i < |b.hash| ensures ClearedKey(objs1, b.hash[i], Marked(m1)) == ClearedKey(objs0, b.hash[i],
      Marked(m0)) {
      if b.hash[i].val != Nil {
        ClearedSame(objs0, objs1, b.hash[i].key, m0, m1, S);
      }
    }
  }

  lemma ClearedValuesSame(objs0: Heap, objs1: Heap, b: Obj, m0: Marks, m1: Marks, S: set<Ref>)
    requires SameKinds(objs0, objs1) && StrStep(objs0, m0, m1, S) && b.Table? && ValuesMarked(b, objs0.Keys)
    ensures ClearedValues(objs1, b, Marked(m1)) == ClearedValues(objs0, b, Marked(m0))
  {
    forall i | 0 <= i < |b.arr| ensures Cleared(objs1, b.arr[i], Marked(m1)) == Cleared(objs0, b.arr[i], Marked(m0)) {
      ClearedSame(objs0, objs1, b.arr[i], m0, m1, S);
    }
    forall i | 0 <= i < |b.hash| ensures Cleared(objs1, b.hash[i].val, Marked(m1)) == Cleared(objs0, b.hash[i].val,
      Marked(m0)) {
      if b.hash[i].val != Nil {
        ClearedSame(objs0, objs1, b.hash[i].val, m0, m1, S);
      }
    }
  }

  lemma StrStepTrans(objs0: Heap, objs1: Heap, m0: Marks, m1: Marks, m2: Marks, S: set<Ref>)
    requires SameKinds(objs0, objs1) && StrStep(objs0, m0, m1, S) && StrStep(objs1, m1, m2, S)
    ensures StrStep(objs0, m0, m2, S) && Marked(m0) <= Marked(m1) <= Marked(m2)
  {
  }

  /** `b1` is `b0` without some of its weak entries. */
  ghost predicate ShrunkObj(b0: Obj, b1: Obj) {
    b1 == b0 ||
    (&& b0.Table? && b0.mode != Strong
     && b1.Table? && b1.mode == b0.mode && b1.meta == b0.meta && |b1.arr| == |b0.arr| && |b1.hash| == |b0.hash|
     && (forall i :: 0 <= i < |b0.arr| ==> b1.arr[i] == b0.arr[i] || b1.arr[i] == Nil)
     && (forall i :: 0 <= i < |b0.hash| ==> b1.hash[i] == b0.hash[i] || b1.hash[i].val == Nil))
  }

  ghost predicate Shrunk(objs0: Heap, objs1: Heap) {
    objs0.Keys == objs1.Keys && forall o {:trigger objs1[o]} :: o in objs0 ==> ShrunkObj(objs0[o], objs1[o])
  }

  lemma ShrunkHolds(b0: Obj, b1: Obj, cells: Cells, M: set<Ref>)
    requires ShrunkObj(b0, b1) && HoldsOnly(b0, cells, M)
    ensures HoldsOnly(b1, cells, M)
  {
    if b1 != b0 {
      forall v | Holds(b1, cells, v) ensures In(v, M) {
        if v != b1.meta && v !in b1.arr {
          var i :| 0 <= i < |b1.hash| && InEntry(b1.hash[i], v);
          assert InEntry(b0.hash[i], v);
          assert Holds(b0, cells, v);
        } else if v != b1.meta && v != Nil {
          var i :| 0 <= i < |b1.arr| && b1.arr[i] == v;
          assert Holds(b0, cells, b0.arr[i]);
        } else {
          assert Holds(b0, cells, b0.meta);
        }
      }
    }
  }

  lemma ShrunkFollows(objs0: Heap, objs1: Heap, b0: Obj, b1: Obj, cells: Cells, S: set<Ref>)
    requires SameKinds(objs0, objs1) && ShrunkObj(b0, b1) && Follows(objs0, cells, b0, S)
    ensures Follows(objs1, cells, b1, S)
  {
    assert forall v :: IsStr(objs1, v) == IsStr(objs0, v);
    if b0.Table? && b0.mode.Ephemeron? {
      forall i | 0 <= i < |b1.hash| && b1.hash[i].val != Nil ensures EphemeronFollows(objs1, b1.hash[i], S) {
        assert EphemeronFollows(objs0, b0.hash[i], S);
      }
    } else if b0.Table? && b0.mode.AllWeak? {
      forall i | 0 <= i < |b1.hash| && b1.hash[i].val != Nil ensures AllWeakFollows(objs1, b1.hash[i], S) {
        assert AllWeakFollows(objs0, b0.hash[i], S);
      }
    }
  }

  lemma ShrunkSettled(objs0: Heap, objs1: Heap, M0: set<Ref>, M1: set<Ref>, L: Lists, o: Ref)
    requires SameKinds(objs0, objs1) && o in objs0 && ShrunkObj(objs0[o], objs1[o]) && M0 <= M1
    requires Settled(objs0, M0, o, L)
    ensures Settled(objs1, M1, o, L)
  {
  }

  /** Clearing weak entries and marking strings keeps the invariant. */
  lemma TriShrink(objs0: Heap, objs1: Heap, cells: Cells, m0: Marks, m1: Marks, L: Lists, S: set<Ref>)
    requires Tri(objs0, cells, m0, L, S) && Sound(objs0, cells)
    requires Shrunk(objs0, objs1) && StrStep(objs0, m0, m1, S)
    ensures Tri(objs1, cells, m1, L, S) && Sound(objs1, cells) && SameKinds(objs0, objs1)
  {
    hide InEntry, In, IsStr, Follows, EphemeronFollows, AllWeakFollows, Once, NoDup, ValuesMarked, KeysMarked, Linked,
      HasMode, Coloured;
    assert Marked(m0) <= Marked(m1) <= S;
    forall o | o in objs0 ensures objs1[o].Str? == objs0[o].Str? && objs1[o].LClosure? == objs0[o].LClosure?
      && MayBeBlack(objs1[o]) == MayBeBlack(objs0[o]) && MarkOf(objs1[o]) == MarkOf(objs0[o]) {
      assert ShrunkObj(objs0[o], objs1[o]);
    }
    forall o | o in objs1 ensures HoldsOnly(objs1[o], cells, objs1.Keys)
      && (objs1[o].LClosure? ==> objs1[o] == objs0[o]) {
      ShrunkHolds(objs0[o], objs1[o], cells, objs0.Keys);
    }
    forall o | o in S && o in objs1 ensures Follows(objs1, cells, objs1[o], S) {
      ShrunkFollows(objs0, objs1, objs0[o], objs1[o], cells, S);
    }
    ShrunkLinked(objs0, objs1, m0, m1, L, S);
    forall o | o in objs1 ensures Coloured(objs1, cells, m1, L, o) {
      assert Coloured(objs0, cells, m0, L, o);
      ShrunkColoured(objs0, objs1, cells, m0, m1, L, S, o);
    }
  }

  lemma ShrunkColoured(objs0: Heap, objs1: Heap, cells: Cells, m0: Marks, m1: Marks, L: Lists, S: set<Ref>, o: Ref)
    requires Shrunk(objs0, objs1) && StrStep(objs0, m0, m1, S) && o in objs0 && Coloured(objs0, cells, m0, L, o)
    ensures Coloured(objs1, cells, m1, L, o)
  {
    hide Settled, HasMode;
    assert Marked(m0) <= Marked(m1);
    assert ShrunkObj(objs0[o], objs1[o]);
    if m0[o].Black? {
      ShrunkHolds(objs0[o], objs1[o], cells, Marked(m0));
      HoldsOnlyGrows(objs1[o], cells, Marked(m0), Marked(m1));
    } else if m0[o].Gray? && Settled(objs0, Marked(m0), o, L) {
      ShrunkSettled(objs0, objs1, Marked(m0), Marked(m1), L, o);
    }
  }

  lemma ShrunkLinked(objs0: Heap, objs1: Heap, m0: Marks, m1: Marks, L: Lists, S: set<Ref>)
    requires Linked(objs0, m0, L) && Shrunk(objs0, objs1) && StrStep(objs0, m0, m1, S)
    ensures Linked(objs1, m1, L)
  {
    forall o | L.Links(o) == 1 ensures o in objs1 && m1[o].Gray? && !MarkOf(objs1[o]).Black? {
      assert ShrunkObj(objs0[o], objs1[o]);
    }
    forall o, mode | HasMode(objs0, o, mode) ensures HasMode(objs1, o, mode) {
      assert ShrunkObj(objs0[o], objs1[o]);
    }
  }

  /** The objects put aside become the gray list. */
  lemma TriGrayAgain(objs: Heap, cells: Cells, m: Marks, L: Lists, S: set<Ref>)
    requires Tri(objs, cells, m, L, S) && L.gray == []
    ensures Tri(objs, cells, m, L.(gray := L.later, later := []), S)
  {
    var L1 := L.(gray := L.later, later := []);
    forall x ensures L1.Links(x) == L.Links(x) {
    }
    forall x | x in objs ensures Coloured(objs, cells, m, L1, x) {
      assert Coloured(objs, cells, m, L, x);
      if m[x].Gray? && Settled(objs, Marked(m), x, L) {
        SettledGrows(objs, Marked(m), Marked(m), x, L, L1);
      }
    }
  }

  /** The invariant does not depend on the bound, and only gets weaker inside the atomic step. */
  lemma TriInside(objs: Heap, cells: Cells, m: Marks, L: Lists, S0: set<Ref>, S: set<Ref>, inside: bool)
    requires Tri(objs, cells, m, L, S0) && Bounded(objs, cells, m, S) && (L.inside ==> inside)
    ensures Tri(objs, cells, m, L.(inside := inside), S)
  {
    var L1 := L.(inside := inside);
    forall o ensures L1.Links(o) == L.Links(o) {
    }
    forall o | o in objs ensures Coloured(objs, cells, m, L1, o) {
      assert Coloured(objs, cells, m, L, o);
      if m[o].Gray? && Settled(objs, Marked(m), o, L) {
        SettledGrows(objs, Marked(m), Marked(m), o, L, L1);
      }
    }
  }

  /** A new cycle begins with empty lists and nothing marked but the fixed strings. */
  lemma TriStart(objs: Heap, cells: Cells, m: Marks, L: Lists, S: set<Ref>)
    requires Bounded(objs, cells, m, S)
    requires L.gray == L.later == L.weak == L.allweak == L.ephemeron == []
    requires forall o :: o in L.fixed ==> o in objs && objs[o].Str?
    requires forall o :: o in Marked(m) ==> o in L.fixed
    ensures Tri(objs, cells, m, L, S)
  {
  }
}
