/**
 The incremental collector of lgc.c as a class over the heap of GcHeap, with the mutator's
 operations and their write barriers.
 */
module Collector {
  import opened Sequences
  import opened Wrappers

  import opened GcHeap
  import opened GcColor
  import opened GcClear
  import opened GcSweep
  import opened GcMutator

  ghost predicate Suffix(s: seq<Ref>, t: seq<Ref>) {
    |s| <= |t| && t[|t| - |s|..] == s
  }

  /** Only strings were marked, the list of weak tables is the same, that of all-weak tables may have grown. */
  ghost predicate Unchanged(objs: Heap, m0: Marks, m1: Marks, weak0: seq<Ref>, weak1: seq<Ref>, all0: seq<Ref>,
      all1: seq<Ref>) {
    StringsOnly(objs, m0, m1) && weak1 == weak0 && Suffix(all0, all1)
  }

  /** Only threads are new in the list. */
  ghost predicate ThreadsAdded(objs: Heap, g0: seq<Ref>, g1: seq<Ref>) {
    forall o {:trigger o in g1} :: o in g1 ==> o in g0 || (o in objs && objs[o].Thread?)
  }

  datatype State =
    | GCSpropagate | GCSatomic | GCSswpallgc | GCSswpfinobj | GCSswptobefnz | GCSswpend
    | GCScallfin | GCSpause | GCSinsideatomic

  /** What a program can do, with operands at positions of its stack, and what it can ask of the collector. */
  datatype Op =
    | OpNew(o: Ref, b: Obj) | OpNewCell(c: Cell)
    | OpLoad(i: nat, s: Slot) | OpLoadRoot(root: Option<nat>) | OpPop(count: nat)
    | OpStore(i: nat, s: Slot, j: nat) | OpNewKey(i: nat, j: nat, k: nat) | OpStoreRoot(root: Option<nat>, j: nat)
    | OpSetUpvalue(i: nat, u: nat, j: nat) | OpInternHit(o: Ref) | OpFix(o: Ref)
    | OpStep | OpFullGC

  /** What a program sees of the state. */
  datatype View = View(objs: Heap, cells: Cells, registry: Value, mt: seq<Value>)

  /** GCSWEEPMAX for strings of 24 bytes, their size with 8-byte pointers. */
  const GCSWEEPMAX: nat := 85

  class GlobalState {
    var objs: Heap
    var marks: Marks
    var cells: Cells
    const mainthread: Ref
    var registry: Value
    var mt: seq<Value>
    var gcstate: State
    var currentwhite: bool
    var allgc: seq<Ref>
    var fixedgc: seq<Ref>
    /** A pointer into `allgc` (or an empty list): how many objects there are from it to the end. */
    var sweepgc: Option<nat>
    var gray: seq<Ref>
    var grayagain: seq<Ref>
    var weak: seq<Ref>
    var allweak: seq<Ref>
    var ephemeron: seq<Ref>

    /** The state after `lua_newstate`: a main thread with an empty stack, no collection going on. */
    constructor (main: Ref, numtags: nat)
      ensures Valid() && gcstate == GCSpause && objs == map[main := Thread([])] && mainthread == main
      ensures registry == Nil && mt == seq(numtags, _ => Nil) && cells == map[]
    {
      mainthread := main;
      objs, marks, cells := map[main := Thread([])], map[main := White(false)], map[];
      registry, mt := Nil, seq(numtags, _ => Nil);
      gcstate, currentwhite := GCSpause, false;
      gray, grayagain, weak, allweak, ephemeron := [], [], [], [], [];
      allgc, fixedgc, sweepgc := [], [], None;
    }

    // ----- marking -----

    /** The gray lists; `later` stands for `grayagain` inside the atomic step. */
    ghost function GrayLists(inside: bool, later: seq<Ref>): Lists
      reads `gray, `grayagain, `weak, `allweak, `ephemeron, `fixedgc, `gcstate
    {
      Lists(gray, if gcstate == GCSinsideatomic then later else grayagain, weak, allweak, ephemeron, fixedgc, inside)
    }

    predicate IsWhite(v: Value)
      reads `objs, `marks
      requires marks.Keys == objs.Keys
    {
      v.Coll? && v.ref in objs && marks[v.ref].White?
    }

    method ReallyMarkObject(o0: Ref, ghost S: set<Ref>)
      requires Markable(objs, cells, marks, S)
      requires o0 in S && marks[o0].White?
      modifies `marks, `gray
      ensures MarkStep(objs, cells, old(marks), old(gray), marks, gray, S)
      ensures !marks[o0].White?
      decreases Whites(marks), 1
    {
      ghost var m0, g0 := marks, gray;
      var o := o0;
      while true
        invariant MarkStepBut(objs, cells, m0, g0, marks, gray, S, {o})
        invariant o in S && marks[o].White?
        invariant o == o0 || !marks[o0].White?
        invariant Whites(marks) <= Whites(m0)
        decreases Whites(marks)
      {
        ghost var m1, g1 := marks, gray;
        var b := objs[o];
        if b.Udata? {
          MarkUdata(o, m0, g0, S);
          if !IsWhite(b.uservalue) {
            break;
          }
          o := b.uservalue.ref;
        } else {
          MarkPending(objs, cells, m0, g0, m1, g1, S, o);
          if b.Str? {
            marks := marks[o := Black];
          } else {
            marks, gray := marks[o := Gray], [o] + gray;
          }
          break;
        }
      }
    }

    /** A userdata: its metatable is marked, its user value is left to the caller. */
    method MarkUdata(o: Ref, ghost m0: Marks, ghost g0: seq<Ref>, ghost S: set<Ref>)
      requires Markable(objs, cells, marks, S) && o in S && marks[o].White? && objs[o].Udata?
      requires MarkStepBut(objs, cells, m0, g0, marks, gray, S, {o})
      modifies `marks, `gray
      ensures marks.Keys == objs.Keys && !marks[o].White? && Whites(marks) < Whites(old(marks))
      ensures forall x :: x in old(marks) && !old(marks)[x].White? ==> x in marks && !marks[x].White?
      ensures var pending := objs[o].uservalue;
        && (IsWhite(pending) ==> pending.ref in S)
        && MarkStepBut(objs, cells, m0, g0, marks, gray, S, if IsWhite(pending) then {pending.ref} else {})
      decreases Whites(marks), 0
    {
      hide Closed;
      ghost var m1, g1 := marks, gray;
      var b := objs[o];
      InFollows(objs, cells, S, o);
      marks := marks[o := Gray];
      assert Whites(marks) < Whites(m1) by { assert o in Whites(m1) && o !in Whites(marks); }
      if IsWhite(b.meta) {
        ReallyMarkObject(b.meta.ref, S);
      }
      ghost var m3 := marks;
      marks := marks[o := Black];
      MarkPendingUdata(objs, cells, m0, g0, m1, g1, m3, gray, S, o, if IsWhite(b.uservalue) then {b.uservalue.ref}
        else {});
    }

    /** The macro `markvalue`, as one more step of the marking that began with `m0` and `g0`. */
    method MarkValue(v: Value, ghost S: set<Ref>, ghost m0: Marks, ghost g0: seq<Ref>)
      requires Markable(objs, cells, marks, S) && In(v, S)
      requires MarkStep(objs, cells, m0, g0, marks, gray, S)
      modifies `marks, `gray
      ensures MarkStep(objs, cells, m0, g0, marks, gray, S) && marks.Keys == objs.Keys
      ensures Marked(old(marks)) <= Marked(marks) && In(v, Marked(marks))
    {
      if IsWhite(v) {
        ReallyMarkObject(v.ref, S);
        MarkStepTrans(objs, cells, m0, g0, old(marks), old(gray), marks, gray, S);
      }
    }

    /** Marks everything a strong table refers to. */
    method TraverseStrongTable(h: Ref, ghost S: set<Ref>)
      requires Markable(objs, cells, marks, S) && h in S && objs[h].Table? && objs[h].mode.Strong?
      modifies `marks, `gray
      ensures MarkStep(objs, cells, old(marks), old(gray), marks, gray, S)
      ensures ValuesMarked(objs[h], Marked(marks)) && KeysMarked(objs[h], Marked(marks))
    {
      ghost var m0, g0 := marks, gray;
      var b := objs[h];
      InFollowsTable(objs, cells, S, h);
      for i := 0 to |b.arr|
        invariant MarkStep(objs, cells, m0, g0, marks, gray, S) && marks.Keys == objs.Keys
        invariant forall j :: 0 <= j < i ==> In(b.arr[j], Marked(marks))
      {
        MarkValue(b.arr[i], S, m0, g0);
      }
      for i := 0 to |b.hash|
        invariant MarkStep(objs, cells, m0, g0, marks, gray, S) && marks.Keys == objs.Keys
        invariant forall j :: 0 <= j < |b.arr| ==> In(b.arr[j], Marked(marks))
        invariant forall j :: 0 <= j < i && b.hash[j].val != Nil ==> In(b.hash[j].val, Marked(marks))
        invariant forall j :: 0 <= j < i && b.hash[j].val != Nil ==> In(b.hash[j].key, Marked(marks))
      {
        if b.hash[i].val != Nil {
          MarkValue(b.hash[i].key, S, m0, g0);
          MarkValue(b.hash[i].val, S, m0, g0);
        }
      }
    }

    method TraverseCClosure(o: Ref, ghost S: set<Ref>)
      requires Markable(objs, cells, marks, S) && o in S && objs[o].CClosure?
      modifies `marks, `gray
      ensures MarkStep(objs, cells, old(marks), old(gray), marks, gray, S)
      ensures HoldsOnly(objs[o], cells, Marked(marks))
    {
      ghost var m0, g0 := marks, gray;
      var b := objs[o];
      InFollows(objs, cells, S, o);
      for i := 0 to |b.upvalues|
        invariant MarkStep(objs, cells, m0, g0, marks, gray, S) && marks.Keys == objs.Keys
        invariant forall j :: 0 <= j < i ==> In(b.upvalues[j], Marked(marks))
      {
        assert Holds(b, cells, b.upvalues[i]);
        MarkValue(b.upvalues[i], S, m0, g0);
      }
    }

    method TraverseProto(o: Ref, ghost S: set<Ref>)
      requires Markable(objs, cells, marks, S) && o in S && objs[o].Proto?
      modifies `marks, `gray
      ensures MarkStep(objs, cells, old(marks), old(gray), marks, gray, S)
      ensures HoldsOnly(objs[o], cells, Marked(marks))
    {
      ghost var m0, g0 := marks, gray;
      var b := objs[o];
      InFollows(objs, cells, S, o);
      for i := 0 to |b.consts|
        invariant MarkStep(objs, cells, m0, g0, marks, gray, S) && marks.Keys == objs.Keys
        invariant forall j :: 0 <= j < i ==> In(b.consts[j], Marked(marks))
      {
        assert Holds(b, cells, b.consts[i]);
        MarkValue(b.consts[i], S, m0, g0);
      }
    }

    method TraverseLClosure(o: Ref, ghost S: set<Ref>)
      requires Markable(objs, cells, marks, S) && o in S && objs[o].LClosure?
      requires forall c :: c in objs[o].upvals ==> c in cells
      modifies `marks, `gray
      ensures MarkStep(objs, cells, old(marks), old(gray), marks, gray, S)
      ensures HoldsOnly(objs[o], cells, Marked(marks))
    {
      ghost var m0, g0 := marks, gray;
      var b := objs[o];
      InFollows(objs, cells, S, o);
      assert Holds(b, cells, b.proto);
      MarkValue(b.proto, S, m0, g0);
      for i := 0 to |b.upvals|
        invariant MarkStep(objs, cells, m0, g0, marks, gray, S) && marks.Keys == objs.Keys
        invariant In(b.proto, Marked(marks))
        invariant forall j :: 0 <= j < i ==> In(cells[b.upvals[j]], Marked(marks))
      {
        assert Holds(b, cells, cells[b.upvals[i]]);
        MarkValue(cells[b.upvals[i]], S, m0, g0);
      }
    }

    method TraverseThread(o: Ref, ghost S: set<Ref>)
      requires Markable(objs, cells, marks, S) && o in S && objs[o].Thread?
      modifies `marks, `gray
      ensures MarkStep(objs, cells, old(marks), old(gray), marks, gray, S)
      ensures forall i :: 0 <= i < |objs[o].stack| ==> In(objs[o].stack[i], Marked(marks))
    {
      ghost var m0, g0 := marks, gray;
      var b := objs[o];
      assert Follows(objs, cells, b, S);
      for i := 0 to |b.stack|
        invariant MarkStep(objs, cells, m0, g0, marks, gray, S) && marks.Keys == objs.Keys
        invariant forall j :: 0 <= j < i ==> In(b.stack[j], Marked(marks))
      {
        assert Holds(b, cells, b.stack[i]);
        MarkValue(b.stack[i], S, m0, g0);
      }
    }

    /** Is the key or value of a weak table to be cleared? Strings are marked instead. */
    method IsCleared(v: Value, ghost S: set<Ref>, ghost m0: Marks, ghost g0: seq<Ref>) returns (cleared: bool)
      requires Markable(objs, cells, marks, S) && In(v, objs.Keys) && (IsStr(objs, v) ==> In(v, S))
      requires MarkStep(objs, cells, m0, g0, marks, gray, S)
      modifies `marks, `gray
      ensures MarkStep(objs, cells, m0, g0, marks, gray, S) && marks.Keys == objs.Keys
      ensures StringsOnly(objs, old(marks), marks)
      ensures Grows(old(marks), marks)
      ensures forall x :: x in gray <==> x in old(gray)
      ensures cleared == Cleared(objs, v, Marked(marks))
      ensures IsStr(objs, v) ==> In(v, Marked(marks))
    {
      if !v.Coll? {
        return false;
      } else if objs[v.ref].Str? {
        if marks[v.ref].White? {
          assert Follows(objs, cells, objs[v.ref], {v.ref});
          ReallyMarkObject(v.ref, {v.ref});
          MarkString(objs, cells, m0, g0, old(marks), old(gray), marks, gray, S, v.ref);
        }
        return false;
      } else {
        return marks[v.ref].White?;
      }
    }

    /** Marks the keys of a table with weak values; links it where its values will be looked at again. */
    method TraverseWeakValue(h: Ref, ghost S: set<Ref>)
      requires Markable(objs, cells, marks, S) && h in S && objs[h].Table? && objs[h].mode.WeakValues?
      requires HoldsOnly(objs[h], cells, objs.Keys)
      modifies `marks, `gray, `grayagain, `weak
      ensures MarkStep(objs, cells, old(marks), old(gray), marks, gray, S)
      ensures KeysMarked(objs[h], Marked(marks))
      ensures if gcstate == GCSpropagate then grayagain == [h] + old(grayagain) && weak == old(weak)
              else grayagain == old(grayagain) &&
                   (weak == [h] + old(weak) || (weak == old(weak) && ValuesMarked(objs[h], Marked(marks))))
    {
      ghost var m0, g0 := marks, gray;
      var b := objs[h];
      HeldByTable(objs, cells, h);
      assert Follows(objs, cells, b, S);
      var hasclears := |b.arr| > 0;
      for i := 0 to |b.hash|
        invariant MarkStep(objs, cells, m0, g0, marks, gray, S) && marks.Keys == objs.Keys
        invariant grayagain == old(grayagain) && weak == old(weak)
        invariant |b.arr| > 0 ==> hasclears
        invariant forall j :: 0 <= j < i && b.hash[j].val != Nil ==> In(b.hash[j].key, Marked(marks))
        invariant !hasclears ==> forall j :: 0 <= j < i && b.hash[j].val != Nil ==> In(b.hash[j].val, Marked(marks))
      {
        if b.hash[i].val != Nil {
          MarkValue(b.hash[i].key, S, m0, g0);
          if !hasclears {
            hasclears := IsCleared(b.hash[i].val, S, m0, g0);
          }
        }
      }
      if gcstate == GCSpropagate {
        grayagain := [h] + grayagain;
      } else if hasclears {
        weak := [h] + weak;
      }
    }

    /**
     Marks the values of an ephemeron table whose keys are marked and links the table where it will
     be looked at again. `marked` is set iff an object other than a string changed colour.
     */
    method TraverseEphemeron(h: Ref, ghost S: set<Ref>) returns (marked: bool)
      requires Bounded(objs, cells, marks, S) && h in S && objs[h].Table? && objs[h].mode.Ephemeron?
      requires HoldsOnly(objs[h], cells, objs.Keys)
      modifies `marks, `gray, `grayagain, `allweak, `ephemeron
      ensures MarkStep(objs, cells, old(marks), old(gray), marks, gray, S)
      ensures (forall i :: 0 <= i < |objs[h].arr| ==> In(objs[h].arr[i], Marked(marks)))
      ensures StringKeysMarked(objs, objs[h], Marked(marks))
      ensures marked ==> Whites(marks) < Whites(old(marks))
      ensures !marked ==> Converged(objs, objs[h], Marked(marks)) && StringsOnly(objs, old(marks), marks)
      ensures !marked ==> forall x :: x in gray <==> x in old(gray)
      ensures EphemeronDone(objs, objs[h], Marked(old(marks))) ==> !marked
      ensures if gcstate == GCSpropagate then
                grayagain == [h] + old(grayagain) && ephemeron == old(ephemeron) && allweak == old(allweak)
              else
                && grayagain == old(grayagain)
                && (if ephemeron == old(ephemeron) then
                      && ValuesMarked(objs[h], Marked(marks))
                      && (allweak == [h] + old(allweak)
                        || (allweak == old(allweak) && KeysMarked(objs[h], Marked(marks))))
                    else
                      ephemeron == [h] + old(ephemeron) && allweak == old(allweak))
    {
      hide Whites, Grows, Coloured, Linked, Tri, GrayStep, BlackStep, GrayOnce, MarkOf;
      ghost var m0, g0 := marks, gray;
      var b := objs[h];
      HeldByTable(objs, cells, h);
      assert Follows(objs, cells, b, S);
      var hasclears, hasww := false, false;
      marked := TraverseEphemeronArray(h, S);
      for i := 0 to |b.hash|
        invariant grayagain == old(grayagain) && allweak == old(allweak) && ephemeron == old(ephemeron)
        invariant MarkStep(objs, cells, m0, g0, marks, gray, S) && marks.Keys == objs.Keys
        invariant forall j :: 0 <= j < |b.arr| ==> In(b.arr[j], Marked(marks))
        invariant forall j {:trigger b.hash[j]} :: 0 <= j < i ==>
          Passed(objs, b.hash[j], Marked(marks), hasclears, hasww, marked)
        invariant marked ==> Whites(marks) < Whites(m0)
        invariant !marked ==> StringsOnly(objs, m0, marks) && forall x :: x in gray <==> x in g0
        invariant EphemeronDone(objs, b, Marked(m0)) ==> !marked
      {
        var e := b.hash[i];
        if e.val != Nil {
          assert EphemeronFollows(objs, e, S);
          ghost var m1 := marks;
          var cleared, ww, more := TraverseEphemeronEntry(e, S, m0, g0);
          forall j | 0 <= j < i
            ensures Passed(objs, b.hash[j], Marked(marks), hasclears || cleared, hasww || ww, marked || more)
          {
            PassedGrows(objs, b.hash[j], m1, marks, hasclears, hasww, marked, cleared, ww, more);
          }
          hasclears, hasww, marked := hasclears || cleared, hasww || ww, marked || more;
        }
      }
      if gcstate == GCSpropagate {
        grayagain := [h] + grayagain;
      } else if hasww {
        ephemeron := [h] + ephemeron;
      } else if hasclears {
        allweak := [h] + allweak;
      }
    }

    /** The loop over the array part. */
    method TraverseEphemeronArray(h: Ref, ghost S: set<Ref>) returns (marked: bool)
      requires Markable(objs, cells, marks, S) && h in S && objs[h].Table? && objs[h].mode.Ephemeron?
      modifies `marks, `gray
      ensures MarkStep(objs, cells, old(marks), old(gray), marks, gray, S) && marks.Keys == objs.Keys
      ensures forall i :: 0 <= i < |objs[h].arr| ==> In(objs[h].arr[i], Marked(marks))
      ensures if marked then Whites(marks) < Whites(old(marks)) else marks == old(marks) && gray == old(gray)
      ensures EphemeronDone(objs, objs[h], Marked(old(marks))) ==> !marked
    {
      ghost var m0, g0 := marks, gray;
      var b := objs[h];
      assert Follows(objs, cells, b, S);
      marked := false;
      for i := 0 to |b.arr|
        invariant MarkStep(objs, cells, m0, g0, marks, gray, S) && marks.Keys == objs.Keys
        invariant forall j :: 0 <= j < i ==> In(b.arr[j], Marked(marks))
        invariant if marked then Whites(marks) < Whites(m0) else marks == m0
        invariant EphemeronDone(objs, b, Marked(m0)) ==> !marked
      {
        if IsWhite(b.arr[i]) {
          marked := true;
          MarkMore(b.arr[i].ref, S, m0, g0);
        }
      }
    }

    /** The body of the loop over the hash part. */
    method TraverseEphemeronEntry(e: Entry, ghost S: set<Ref>, ghost m0: Marks, ghost g0: seq<Ref>)
      returns (cleared: bool, ww: bool, marked: bool)
      requires Markable(objs, cells, marks, S) && Marked(m0) <= S
      requires e.val != Nil && EphemeronFollows(objs, e, S) && In(e.key, objs.Keys) && In(e.val, objs.Keys)
      requires MarkStep(objs, cells, m0, g0, marks, gray, S)
      modifies `marks, `gray
      ensures MarkStep(objs, cells, m0, g0, marks, gray, S) && marks.Keys == objs.Keys
      ensures Marked(old(marks)) <= Marked(marks)
      ensures IsStr(objs, e.key) ==> In(e.key, Marked(marks))
      ensures !ww ==> In(e.val, Marked(marks))
      ensures !cleared ==> In(e.key, Marked(marks)) && !ww
      ensures Whites(marks) <= Whites(old(marks)) && (marked ==> Whites(marks) < Whites(m0))
      ensures !marked ==> StringsOnly(objs, old(marks), marks) && EphemeronFollows(objs, e, Marked(marks))
      ensures !marked ==> forall x :: x in gray <==> x in old(gray)
      ensures EphemeronFollows(objs, e, Marked(old(marks))) ==> !marked
    {
      cleared := IsCleared(e.key, S, m0, g0);
      ww := cleared && IsWhite(e.val);
      marked := !cleared && IsWhite(e.val);
      if marked {
        MarkStepGrows(objs, cells, m0, g0, marks, gray, S);
        MarkMore(e.val.ref, S, m0, g0);
      }
    }

    /** Marks the white object `o` as part of the marking that began with `m0` and `g0`. */
    method MarkMore(o: Ref, ghost S: set<Ref>, ghost m0: Marks, ghost g0: seq<Ref>)
      requires Markable(objs, cells, marks, S) && o in S && marks[o].White?
      requires MarkStep(objs, cells, m0, g0, marks, gray, S)
      modifies `marks, `gray
      ensures MarkStep(objs, cells, m0, g0, marks, gray, S) && marks.Keys == objs.Keys
      ensures Marked(old(marks)) <= Marked(marks) && o in Marked(marks)
      ensures Whites(marks) < Whites(m0) && Whites(marks) <= Whites(old(marks))
      ensures Marked(marks) <= Marked(old(marks)) + S
    {
      ReallyMarkObject(o, S);
      MarkStepGrows(objs, cells, old(marks), old(gray), marks, gray, S);
      MarkStepTrans(objs, cells, m0, g0, old(marks), old(gray), marks, gray, S);
      MarkStepGrows(objs, cells, m0, g0, marks, gray, S);
      assert o in Whites(m0) && o !in Whites(marks);
    }

    /** Traverses a table that has just been turned black. */
    method TraverseTable(h: Ref, ghost inside: bool, ghost later: seq<Ref>, ghost S: set<Ref>)
      requires inside == (gcstate != GCSpropagate) && Sound(objs, cells)
      requires TriBut(objs, cells, marks, GrayLists(inside, later), S, {h})
      requires h in S && objs[h].Table? && marks[h].Black? && GrayLists(inside, later).Links(h) == 0
      modifies `marks, `gray, `grayagain, `weak, `allweak, `ephemeron
      ensures Tri(objs, cells, marks, GrayLists(inside, later), S)
      ensures Grows(old(marks), marks)
      ensures Whites(marks) == Whites(old(marks)) ==> gray == old(gray)
      ensures gcstate != GCSpropagate ==> ThreadsAdded(objs, old(grayagain), grayagain)
    {
      hide HoldsOnly, Once, NoDup, Sound, Grows, MarkOf, MayBeBlack, ValuesMarked, KeysMarked, Coloured, Linked,
        HasMode, Tri, BlackStep, GrayOnce;
      ghost var m0, g0, L0 := marks, gray, GrayLists(inside, later);
      var b := objs[h];
      InFollowsTable(objs, cells, S, h);
      MarkValue(b.meta, S, m0, g0);
      MarkStepGrows(objs, cells, m0, g0, marks, gray, S);
      TriMarkStep(objs, cells, m0, L0, marks, gray, S, {h});
      ghost var m1, L1 := marks, GrayLists(inside, later);
      if b.mode.Strong? {
        TraverseStrongTable(h, S);
        MarkStepGrows(objs, cells, m1, L1.gray, marks, gray, S);
        TableMarked(objs, cells, h, Marked(marks));
        TriBlack(objs, cells, m1, L1, marks, gray, S, h);
      } else {
        TriGray(objs, cells, m1, L1, S, h);
        marks := marks[h := Gray];
        TraverseWeakTable(h, inside, later, S);
        GrowsRecolour(m1, marks, h, Gray);
      }
      GrowsTrans(m0, m1, marks);
    }

    /** The three kinds of weak tables; they stay gray. */
    method TraverseWeakTable(h: Ref, ghost inside: bool, ghost later: seq<Ref>, ghost S: set<Ref>)
      requires inside == (gcstate != GCSpropagate) && Sound(objs, cells)
      requires TriBut(objs, cells, marks, GrayLists(inside, later), S, {h})
      requires h in S && objs[h].Table? && !objs[h].mode.Strong? && In(objs[h].meta, Marked(marks))
      requires marks[h].Gray? && GrayLists(inside, later).Links(h) == 0
      modifies `marks, `gray, `grayagain, `weak, `allweak, `ephemeron
      ensures Tri(objs, cells, marks, GrayLists(inside, later), S)
      ensures Grows(old(marks), marks)
      ensures Whites(marks) == Whites(old(marks)) ==> gray == old(gray)
      ensures gcstate != GCSpropagate ==> ThreadsAdded(objs, old(grayagain), grayagain)
    {
      hide Whites, Grows, ValuesMarked, KeysMarked, Converged, EphemeronDone, StringKeysMarked, Coloured, Linked, Tri,
        MarkStep, MarkStepBut, ColourStep, GrayStep, BlackStep, GrayOnce, StringsOnly;
      ghost var m1, L1 := marks, GrayLists(inside, later);
      assert HoldsOnly(objs[h], cells, objs.Keys);
      if objs[h].mode.WeakValues? {
        TraverseWeakValue(h, S);
      } else if objs[h].mode.Ephemeron? {
        var _ := TraverseEphemeron(h, S);
      } else {
        allweak := [h] + allweak;
      }
      MarkStepGrows(objs, cells, m1, L1.gray, marks, gray, S);
      TriStayGray(objs, cells, m1, L1, marks, L1.(gray := gray), GrayLists(inside, later), S, h);
    }

    /** Traverses one gray object, turning it black unless it is a thread or a weak table. */
    method PropagateMark(ghost inside: bool, ghost later: seq<Ref>, ghost S: set<Ref>)
      requires inside == (gcstate != GCSpropagate) && Sound(objs, cells)
      requires Tri(objs, cells, marks, GrayLists(inside, later), S) && gray != []
      modifies `marks, `gray, `grayagain, `weak, `allweak, `ephemeron
      ensures Tri(objs, cells, marks, GrayLists(inside, later), S)
      ensures Grows(old(marks), marks)
      ensures Whites(marks) == Whites(old(marks)) ==> |gray| < |old(gray)|
      ensures gcstate != GCSpropagate ==> ThreadsAdded(objs, old(grayagain), grayagain)
    {
      ghost var m0, L0 := marks, GrayLists(inside, later);
      TriPop(objs, cells, m0, L0, S);
      var o := gray[0];
      marks := marks[o := Black];
      gray := gray[1..];
      assert GrayLists(inside, later) == L0.(gray := L0.gray[1..]);
      TraversePopped(o, inside, later, S);
      GrowsRecolour(m0, marks, o, Black);
    }

    /** The traversal of the object that was taken off the gray list and turned black. */
    method TraversePopped(o: Ref, ghost inside: bool, ghost later: seq<Ref>, ghost S: set<Ref>)
      requires inside == (gcstate != GCSpropagate) && Sound(objs, cells)
      requires TriBut(objs, cells, marks, GrayLists(inside, later), S, {o})
      requires o in S && !MarkOf(objs[o]).Black? && marks[o].Black? && GrayLists(inside, later).Links(o) == 0
      modifies `marks, `gray, `grayagain, `weak, `allweak, `ephemeron
      ensures Tri(objs, cells, marks, GrayLists(inside, later), S)
      ensures Grows(old(marks), marks)
      ensures Whites(marks) == Whites(old(marks)) ==> gray == old(gray)
      ensures gcstate != GCSpropagate ==> ThreadsAdded(objs, old(grayagain), grayagain)
    {
      ghost var m1, L1 := marks, GrayLists(inside, later);
      if objs[o].Table? {
        TraverseTable(o, inside, later, S);
      } else if objs[o].Thread? {
        TriGray(objs, cells, m1, L1, S, o);
        TraverseGrayThread(o, inside, later, S);
        GrowsRecolour(m1, marks, o, Gray);
      } else {
        TraversePlain(o, S);
        MarkStepGrows(objs, cells, m1, L1.gray, marks, gray, S);
        TriBlack(objs, cells, m1, L1, marks, gray, S, o);
      }
    }

    /** Closures and prototypes. */
    method TraversePlain(o: Ref, ghost S: set<Ref>)
      requires Markable(objs, cells, marks, S) && o in S && Sound(objs, cells)
      requires objs[o].LClosure? || objs[o].CClosure? || objs[o].Proto?
      modifies `marks, `gray
      ensures MarkStep(objs, cells, old(marks), old(gray), marks, gray, S)
      ensures HoldsOnly(objs[o], cells, Marked(marks))
    {
      match objs[o] {
        case LClosure(_, _) => TraverseLClosure(o, S);
        case CClosure(_) => TraverseCClosure(o, S);
        case Proto(_) => TraverseProto(o, S);
      }
    }

    /** A thread goes back to gray and waits in `grayagain`. */
    method TraverseGrayThread(o: Ref, ghost inside: bool, ghost later: seq<Ref>, ghost S: set<Ref>)
      requires inside == (gcstate != GCSpropagate) && o in S && o in objs && objs[o].Thread? && marks.Keys == objs.Keys
      requires TriBut(objs, cells, marks[o := Gray], GrayLists(inside, later), S, {o})
      requires GrayLists(inside, later).Links(o) == 0
      modifies `marks, `gray, `grayagain
      ensures Tri(objs, cells, marks, GrayLists(inside, later), S)
      ensures Grows(old(marks[o := Gray]), marks)
      ensures Whites(marks) == Whites(old(marks[o := Gray])) ==> gray == old(gray)
      ensures gcstate != GCSpropagate ==> ThreadsAdded(objs, old(grayagain), grayagain)
    {
      hide Tri, Linked, Closed, GrayStep, BlackStep, ColourStep;
      ghost var L1 := GrayLists(inside, later);
      grayagain := [o] + grayagain;
      marks := marks[o := Gray];
      ghost var m1 := marks;
      TraverseThread(o, S);
      MarkStepGrows(objs, cells, m1, L1.gray, marks, gray, S);
      TriStayGray(objs, cells, m1, L1, marks, L1.(gray := gray), GrayLists(inside, later), S, o);
    }

    method PropagateAll(ghost inside: bool, ghost later: seq<Ref>, ghost S: set<Ref>)
      requires inside == (gcstate != GCSpropagate) && Sound(objs, cells)
      requires Tri(objs, cells, marks, GrayLists(inside, later), S)
      modifies `marks, `gray, `grayagain, `weak, `allweak, `ephemeron
      ensures Tri(objs, cells, marks, GrayLists(inside, later), S) && gray == []
      ensures Grows(old(marks), marks)
      ensures gcstate != GCSpropagate ==> ThreadsAdded(objs, old(grayagain), grayagain)
      ensures old(gray) == [] ==> weak == old(weak) && ephemeron == old(ephemeron)
    {
      while gray != []
        invariant Tri(objs, cells, marks, GrayLists(inside, later), S)
        invariant Grows(old(marks), marks)
        invariant gcstate != GCSpropagate ==> ThreadsAdded(objs, old(grayagain), grayagain)
        invariant old(gray) == [] ==> gray == [] && weak == old(weak) && ephemeron == old(ephemeron)
        decreases Whites(marks), |gray|
      {
        PropagateMark(inside, later, S);
      }
    }

    /**
     Traverses the ephemeron tables until none of them marks anything. If there was nothing to mark,
     tables only leave the list.
     */
    method ConvergeEphemerons(ghost S: set<Ref>)
      requires gcstate == GCSinsideatomic && Sound(objs, cells)
      requires Tri(objs, cells, marks, GrayLists(true, []), S) && gray == []
      modifies `marks, `gray, `grayagain, `weak, `allweak, `ephemeron
      ensures Tri(objs, cells, marks, GrayLists(true, []), S) && gray == []
      ensures Grows(old(marks), marks)
      ensures AllConverged(objs, ephemeron, Marked(marks))
      ensures AllConverged(objs, old(ephemeron), Marked(old(marks))) ==>
                Unchanged(objs, old(marks), marks, old(weak), weak, old(allweak), allweak)
    {
      ghost var m0, w0, a0 := marks, weak, allweak;
      var changed := true;
      while changed
        invariant Tri(objs, cells, marks, GrayLists(true, []), S) && gray == []
        invariant Grows(m0, marks)
        invariant !changed ==> AllConverged(objs, ephemeron, Marked(marks))
        invariant AllConverged(objs, old(ephemeron), Marked(old(marks))) ==>
                    Unchanged(objs, m0, marks, w0, weak, a0, allweak) && AllConverged(objs, ephemeron, Marked(marks))
        decreases Whites(marks), changed
      {
        changed := ConvergeOnce(S);
      }
    }

    /** One round over the ephemeron tables: the body of the outer loop. */
    method ConvergeOnce(ghost S: set<Ref>) returns (changed: bool)
      requires gcstate == GCSinsideatomic && Sound(objs, cells)
      requires Tri(objs, cells, marks, GrayLists(true, []), S) && gray == []
      modifies `marks, `gray, `grayagain, `weak, `allweak, `ephemeron
      ensures Tri(objs, cells, marks, GrayLists(true, []), S) && gray == []
      ensures Grows(old(marks), marks)
      ensures changed ==> Whites(marks) < Whites(old(marks))
      ensures !changed ==> Unchanged(objs, old(marks), marks, old(weak), weak, old(allweak), allweak)
      ensures !changed ==> AllConverged(objs, ephemeron, Marked(marks))
      ensures AllConverged(objs, old(ephemeron), Marked(old(marks))) ==> !changed
    {
      hide Tri, AllSeen, Sound;
      ghost var m0, w0, a0 := marks, weak, allweak;
      ghost var done := AllConverged(objs, ephemeron, Marked(marks));
      TriEphemeronsLater(objs, cells, marks, GrayLists(true, []), S);
      var next := ephemeron;
      ephemeron := [];
      changed := false;
      while next != []
        invariant Tri(objs, cells, marks, GrayLists(true, next), S) && gray == []
        invariant Grows(m0, marks)
        invariant AllSeen(objs, next, Marked(marks))
        invariant changed ==> Whites(marks) < Whites(m0)
        invariant !changed ==> Unchanged(objs, m0, marks, w0, weak, a0, allweak)
        invariant !changed ==> AllConverged(objs, ephemeron, Marked(marks))
        invariant done ==> !changed && AllConverged(objs, next, Marked(marks))
        decreases |next|
      {
        var more := ConvergeStep(next, S);
        next := next[1..];
        changed := changed || more;
      }
    }

    /** The body of the inner loop: traverses the first table of `next` and propagates what it marked. */
    method ConvergeStep(next: seq<Ref>, ghost S: set<Ref>) returns (more: bool)
      requires gcstate == GCSinsideatomic && Sound(objs, cells) && gray == []
      requires Tri(objs, cells, marks, GrayLists(true, next), S)
      requires next != [] && AllSeen(objs, next, Marked(marks))
      modifies `marks, `gray, `grayagain, `weak, `allweak, `ephemeron
      ensures Tri(objs, cells, marks, GrayLists(true, next[1..]), S) && gray == []
      ensures Grows(old(marks), marks)
      ensures AllSeen(objs, next[1..], Marked(marks))
      ensures more ==> Whites(marks) < Whites(old(marks))
      ensures !more ==> Unchanged(objs, old(marks), marks, old(weak), weak, old(allweak), allweak)
      ensures !more && AllConverged(objs, old(ephemeron), Marked(old(marks))) ==>
        AllConverged(objs, ephemeron, Marked(marks))
      ensures AllConverged(objs, next, Marked(old(marks))) ==> !more && AllConverged(objs, next[1..], Marked(marks))
    {
      more := TraverseNextEphemeron(next, S);
      if more {
        PropagateAll(true, next[1..], S);
      }
      AllSeenGrows(objs, next[1..], Marked(old(marks)), Marked(marks));
      if !more {
        if AllConverged(objs, old(ephemeron), Marked(old(marks))) {
          AllConvergedGrows(objs, cells, old(ephemeron), old(marks), marks);
        }
        if AllConverged(objs, next, Marked(old(marks))) {
          AllConvergedGrows(objs, cells, next[1..], old(marks), marks);
        }
      }
    }

    method TraverseNextEphemeron(next: seq<Ref>, ghost S: set<Ref>) returns (more: bool)
      requires gcstate == GCSinsideatomic && Sound(objs, cells) && gray == []
      requires Tri(objs, cells, marks, GrayLists(true, next), S)
      requires next != [] && EphemeronSeen(objs, next[0], Marked(marks))
      modifies `marks, `gray, `grayagain, `allweak, `ephemeron
      ensures Tri(objs, cells, marks, GrayLists(true, next[1..]), S)
      ensures Grows(old(marks), marks)
      ensures more ==> Whites(marks) < Whites(old(marks))
      ensures !more ==> gray == [] && Unchanged(objs, old(marks), marks, weak, weak, old(allweak), allweak)
      ensures !more ==> (ephemeron == old(ephemeron) ||
                         (ephemeron == [next[0]] + old(ephemeron) && Converged(objs, objs[next[0]], Marked(marks))))
      ensures Converged(objs, objs[next[0]], Marked(old(marks))) ==> !more
    {
      hide Coloured, Linked, Grows;
      ghost var m0, L0 := marks, GrayLists(true, next);
      TriPopLater(objs, cells, m0, L0, S);
      var w := next[0];
      assert GrayLists(true, next[1..]) == L0.(later := next[1..]);
      more := TraverseEphemeron(w, S);
      EmptyList(gray);
      MarkStepGrows(objs, cells, m0, L0.gray, marks, gray, S);
      TriStayGray(objs, cells, m0, L0.(later := next[1..]), marks, L0.(later := next[1..], gray := gray),
                  GrayLists(true, next[1..]), S, w);
    }

    // ----- clearing weak tables -----

    /** `IsCleared` on its own: it changes nothing but the colour of a white string. */
    method ClearTest(v: Value, ghost S: set<Ref>) returns (cleared: bool)
      requires marks.Keys == objs.Keys && gray == [] && In(v, objs.Keys) && (IsStr(objs, v) ==> In(v, S))
      modifies `marks, `gray
      ensures StrStep(objs, old(marks), marks, S) && Marked(old(marks)) <= Marked(marks) && gray == []
      ensures cleared == Cleared(objs, v, Marked(marks))
      ensures IsStr(objs, v) ==> In(v, Marked(marks))
    {
      ghost var T: set<Ref> := if IsStr(objs, v) then {v.ref} else {};
      assert IsStr(objs, v) ==> Follows(objs, cells, objs[v.ref], T);
      cleared := IsCleared(v, T, marks, gray);
      EmptyList(gray);
    }

    /** Clears the entries of table `t` with unmarked keys. */
    method ClearKeysOf(t: Ref, ghost S: set<Ref>)
      requires marks.Keys == objs.Keys && gray == [] && t in objs && objs[t].Table?
      requires KeysMarked(objs[t], objs.Keys) && StringKeysMarked(objs, objs[t], S)
      modifies `objs, `marks, `gray
      ensures StrStep(old(objs), old(marks), marks, S) && gray == []
      ensures objs == old(objs)[t := ClearedKeys(old(objs), old(objs)[t], Marked(old(marks)))]
      ensures StringKeysMarked(objs, objs[t], Marked(marks))
    {
      ghost var objs0, m0 := objs, marks;
      ghost var b := objs[t];
      for i := 0 to |objs[t].hash|
        invariant StrStep(objs0, m0, marks, S) && gray == []
        invariant objs.Keys == objs0.Keys && objs[t].Table? && |objs[t].hash| == |b.hash|
        invariant objs == objs0[t := b.(hash := objs[t].hash)]
        invariant forall j :: i <= j < |b.hash| ==> objs[t].hash[j] == b.hash[j]
        invariant forall j :: 0 <= j < i ==> objs[t].hash[j] == ClearedKey(objs0, b.hash[j], Marked(m0))
        invariant forall j :: 0 <= j < i && objs[t].hash[j].val != Nil && IsStr(objs0, objs[t].hash[j].key) ==>
          In(objs[t].hash[j].key, Marked(marks))
      {
        var e := objs[t].hash[i];
        if e.val != Nil {
          ghost var m1 := marks;
          var cleared := ClearTest(e.key, S);
          StrStepTrans(objs0, objs, m0, m1, marks, S);
          ClearedSame(objs0, objs, e.key, m0, marks, S);
          if cleared {
            objs := objs[t := objs[t].(hash := objs[t].hash[i := e.(val := Nil)])];
          }
        }
      }
      assert objs[t] == ClearedKeys(objs0, b, Marked(m0));
    }

    /** Clears the slots and entries of table `t` with unmarked values. */
    method ClearValuesOf(t: Ref, ghost S: set<Ref>)
      requires marks.Keys == objs.Keys && gray == [] && t in objs && objs[t].Table?
      requires ValuesMarked(objs[t], objs.Keys) && StringValuesMarked(objs, objs[t], S)
      modifies `objs, `marks, `gray
      ensures StrStep(old(objs), old(marks), marks, S) && gray == []
      ensures objs == old(objs)[t := ClearedValues(old(objs), old(objs)[t], Marked(old(marks)))]
      ensures StringValuesMarked(objs, objs[t], Marked(marks))
    {
      ghost var objs0, m0 := objs, marks;
      ghost var b := objs[t];
      for i := 0 to |objs[t].arr|
        invariant StrStep(objs0, m0, marks, S) && gray == []
        invariant objs.Keys == objs0.Keys && objs[t].Table? && |objs[t].arr| == |b.arr|
        invariant objs == objs0[t := b.(arr := objs[t].arr)]
        invariant forall j :: i <= j < |b.arr| ==> objs[t].arr[j] == b.arr[j]
        invariant forall j :: 0 <= j < i ==> objs[t].arr[j] == ClearedValue(objs0, b.arr[j], Marked(m0))
        invariant forall j :: 0 <= j < i && IsStr(objs0, objs[t].arr[j]) ==> In(objs[t].arr[j], Marked(marks))
      {
        var v := objs[t].arr[i];
        ghost var m1 := marks;
        var cleared := ClearTest(v, S);
        StrStepTrans(objs0, objs, m0, m1, marks, S);
        ClearedSame(objs0, objs, v, m0, marks, S);
        if cleared {
          objs := objs[t := objs[t].(arr := objs[t].arr[i := Nil])];
        }
      }
      ClearHashValuesOf(t, S, objs0, m0);
      assert objs[t] == ClearedValues(objs0, b, Marked(m0));
    }

    /**
     The loop over the hash part; `objs0` and `m0` are the heap and the colours before the loop over the array part.
     */
    method ClearHashValuesOf(t: Ref, ghost S: set<Ref>, ghost objs0: Heap, ghost m0: Marks)
      requires marks.Keys == objs.Keys && gray == [] && t in objs && objs[t].Table?
      requires t in objs0 && objs0[t].Table? && objs == objs0[t := objs0[t].(arr := objs[t].arr)]
      requires StrStep(objs0, m0, marks, S)
      requires ValuesMarked(objs0[t], objs0.Keys) && StringValuesMarked(objs0, objs0[t], S)
      modifies `objs, `marks, `gray
      ensures StrStep(objs0, m0, marks, S) && Marked(old(marks)) <= Marked(marks) && gray == []
      ensures objs.Keys == objs0.Keys && objs[t].Table? && |objs[t].hash| == |objs0[t].hash|
      ensures objs == objs0[t := Table(objs0[t].mode, objs0[t].meta, old(objs)[t].arr, objs[t].hash)]
      ensures forall j :: 0 <= j < |objs[t].hash| ==>
                objs[t].hash[j] == objs0[t].hash[j].(val := ClearedValue(objs0, objs0[t].hash[j].val, Marked(m0)))
      ensures forall j :: 0 <= j < |objs[t].hash| && IsStr(objs0, objs[t].hash[j].val) ==>
        In(objs[t].hash[j].val, Marked(marks))
    {
      hide StrStep, Marked;
      ghost var b := objs0[t];
      ghost var arr := objs[t].arr;
      for i := 0 to |objs[t].hash|
        invariant marks.Keys == objs0.Keys
        invariant StrStep(objs0, m0, marks, S) && gray == [] && Marked(old(marks)) <= Marked(marks)
        invariant objs.Keys == objs0.Keys && objs[t].Table? && |objs[t].hash| == |b.hash|
        invariant objs == objs0[t := Table(b.mode, b.meta, arr, objs[t].hash)]
        invariant forall j :: i <= j < |b.hash| ==> objs[t].hash[j] == b.hash[j]
        invariant forall j :: 0 <= j < i ==>
          objs[t].hash[j] == b.hash[j].(val := ClearedValue(objs0, b.hash[j].val, Marked(m0)))
        invariant forall j :: 0 <= j < i && IsStr(objs0, objs[t].hash[j].val) ==> In(objs[t].hash[j].val, Marked(marks))
      {
        ClearHashValue(t, i, S, objs0, m0);
      }
    }

    /** One entry of the hash part. */
    method ClearHashValue(t: Ref, i: nat, ghost S: set<Ref>, ghost objs0: Heap, ghost m0: Marks)
      requires marks.Keys == objs.Keys == objs0.Keys && gray == [] && t in objs && objs[t].Table? && objs0[t].Table?
      requires SameKinds(objs0, objs) && StrStep(objs0, m0, marks, S) && i < |objs[t].hash|
      requires In(objs[t].hash[i].val, objs0.Keys)
      requires (IsStr(objs0, objs[t].hash[i].val) ==> objs[t].hash[i].val.ref in S)
      modifies `objs, `marks, `gray
      ensures StrStep(objs0, m0, marks, S) && Marked(old(marks)) <= Marked(marks) && gray == []
      ensures var b, e := old(objs)[t], old(objs)[t].hash[i];
        objs == old(objs)[t := b.(hash := b.hash[i := e.(val := ClearedValue(objs0, e.val, Marked(m0)))])]
      ensures IsStr(objs0, objs[t].hash[i].val) ==> In(objs[t].hash[i].val, Marked(marks))
    {
      var e := objs[t].hash[i];
      assert objs[t].hash[i := e.(val := e.val)] == objs[t].hash && objs[t := objs[t].(hash := objs[t].hash)] == objs;
      if e.val != Nil {
        ghost var m1 := marks;
        var cleared := ClearTest(e.val, S);
        StrStepTrans(objs0, objs, m0, m1, marks, S);
        ClearedSame(objs0, objs, e.val, m0, marks, S);
        if cleared {
          objs := objs[t := objs[t].(hash := objs[t].hash[i := e.(val := Nil)])];
        }
      }
    }

    /** Clears the entries with unmarked keys of all tables of the list. */
    method ClearKeys(l: seq<Ref>, ghost S: set<Ref>)
      requires marks.Keys == objs.Keys && gray == [] && NoDup(l)
      requires forall t :: t in l ==>
        t in objs && objs[t].Table? && KeysMarked(objs[t], objs.Keys) && StringKeysMarked(objs, objs[t], S)
      modifies `objs, `marks, `gray
      ensures StrStep(old(objs), old(marks), marks, S) && gray == []
      ensures KeysPass(old(objs), objs, l, Marked(old(marks)))
      ensures AllStringKeys(old(objs), objs, l, Marked(marks))
    {
      ghost var objs0, m0 := objs, marks;
      for k := 0 to |l|
        invariant StrStep(objs0, m0, marks, S) && gray == []
        invariant KeysPass(objs0, objs, l[..k], Marked(m0))
        invariant AllStringKeys(objs0, objs, l[..k], Marked(marks))
      {
        ghost var objs1, m1 := objs, marks;
        assert l[..k + 1] == l[..k] + [l[k]];
        assert l[k] !in l[..k];
        ClearKeysOf(l[k], S);
        KeysPassOne(objs0, m0, objs1, m1, objs, marks, l[..k], l[k], S);
      }
      assert l[..|l|] == l;
    }

    /** Clears the entries with unmarked values of all tables of the list. */
    method ClearValues(l: seq<Ref>, ghost S: set<Ref>)
      requires marks.Keys == objs.Keys && gray == [] && NoDup(l)
      requires forall t :: t in l ==>
        t in objs && objs[t].Table? && ValuesMarked(objs[t], objs.Keys) && StringValuesMarked(objs, objs[t], S)
      modifies `objs, `marks, `gray
      ensures StrStep(old(objs), old(marks), marks, S) && gray == []
      ensures ValuesPass(old(objs), objs, l, Marked(old(marks)))
      ensures AllStringValues(old(objs), objs, l, Marked(marks))
    {
      ghost var objs0, m0 := objs, marks;
      for k := 0 to |l|
        invariant StrStep(objs0, m0, marks, S) && gray == []
        invariant ValuesPass(objs0, objs, l[..k], Marked(m0))
        invariant AllStringValues(objs0, objs, l[..k], Marked(marks))
      {
        ghost var objs1, m1 := objs, marks;
        assert l[..k + 1] == l[..k] + [l[k]];
        assert l[k] !in l[..k];
        ClearValuesOf(l[k], S);
        ValuesPassOne(objs0, m0, objs1, m1, objs, marks, l[..k], l[k], S);
      }
      assert l[..|l|] == l;
    }

    /** The part of the atomic step that clears values from weak tables, before finalizers are looked at. */
    method AtomicClearValues(ghost S: set<Ref>)
      requires gcstate == GCSinsideatomic && Sound(objs, cells)
      requires Tri(objs, cells, marks, GrayLists(true, []), S) && gray == []
      requires AllConverged(objs, ephemeron, Marked(marks))
      modifies `objs, `marks, `gray
      ensures StrStep(old(objs), old(marks), marks, S) && gray == []
      ensures HalfCleared(old(objs), old(marks), objs, marks, cells, GrayLists(true, []), S)
    {
      hide ClearedValues, Once, NoDup, Sound, Marked, MarkOf, ValuesMarked, Converged, Coloured, HasMode, StringsOnly,
        StrStep, SameKinds, ShrunkObj, Shrunk, ReadyButKeys, HalfCleared;
      ghost var L, objs0, m0 := GrayLists(true, []), objs, marks;
      forall t | t in L.weak || t in L.allweak
        ensures t in objs && WeakTable(objs[t]) && ValuesMarked(objs[t], objs.Keys)
        ensures StringValuesMarked(objs, objs[t], S)
      {
        ValuesClearable(objs, cells, marks, L, S, t);
      }
      ClearValues(weak, S);
      ghost var objs1, m1 := objs, marks;
      ValuesPassShrinks(objs0, objs1, L.weak, Marked(m0));
      TriShrink(objs0, objs1, cells, m0, m1, L, S);
      forall t | t in L.allweak
        ensures t in objs && WeakTable(objs[t]) && ValuesMarked(objs[t], objs.Keys)
        ensures StringValuesMarked(objs, objs[t], S)
      {
        ValuesClearable(objs, cells, marks, L, S, t);
      }
      ClearValues(allweak, S);
      HalfClearedNow(objs0, m0, objs1, m1, objs, marks, cells, L, S);
    }

    /**
     The part of the atomic step that clears keys, and then the values of the tables linked since `origall` was saved.
     */
    method AtomicClearKeys(origweak: seq<Ref>, origall: seq<Ref>, ghost S: set<Ref>, ghost objs0: Heap, ghost m0: Marks)
      requires gcstate == GCSinsideatomic && gray == []
      requires HalfCleared(objs0, m0, objs, marks, cells, GrayLists(true, []), S)
      requires weak == origweak && Suffix(origall, allweak)
      modifies `objs, `marks, `gray
      ensures gray == [] && Grows(old(marks), marks) && Marked(marks) <= S
      ensures Purge(objs0, objs, cells, Marked(marks))
    {
      hide ValuesPass, Coloured, Closed, Purge, HalfCleared;
      ListsDistinct(objs0, m0, objs, marks, cells, GrayLists(true, []), S);
      ghost var L, objs1, m1 := GrayLists(true, []), objs, marks;
      ghost var objs2, m2 := ClearAllKeys(S, objs0, m0);
      ghost var objs3, m3 := objs, marks;
      AllWeakListReady(objs0, m0, objs1, m1, objs2, m2, objs3, m3, cells, L, S);
      ClearValues(weak[..|weak| - |origweak|], S);
      ghost var objs4, m4 := objs, marks;
      ValuesPassIdentity(objs3, objs4, [], Marked(m3));
      ClearValues(allweak[..|allweak| - |origall|], S);
      KeysDone(objs0, m0, objs1, m1, objs2, m2, objs3, m3, objs4, m4, objs, marks, allweak[..|allweak| - |origall|],
        cells, L, S);
    }

    method ClearAllKeys(ghost S: set<Ref>, ghost objs0: Heap, ghost m0: Marks)
        returns (ghost objs2: Heap, ghost m2: Marks)
      requires gcstate == GCSinsideatomic && gray == []
      requires HalfCleared(objs0, m0, objs, marks, cells, GrayLists(true, []), S)
      modifies `objs, `marks, `gray
      ensures gray == [] && KeysPhase(old(objs), old(marks), objs2, m2, objs, marks, GrayLists(true, []), S)
    {
      ghost var L, objs1, m1 := GrayLists(true, []), objs, marks;
      forall t | t in L.ephemeron || t in L.allweak
        ensures t in objs && objs[t].Table? && KeysMarked(objs[t], objs.Keys) && StringKeysMarked(objs, objs[t], S)
      {
        HalfKeysClearable(objs0, m0, objs1, m1, cells, L, S, t);
      }
      ClearKeys(ephemeron, S);
      objs2, m2 := objs, marks;
      forall t | t in L.allweak
        ensures t in objs && objs[t].Table? && KeysMarked(objs[t], objs.Keys) && StringKeysMarked(objs, objs[t], S)
      {
        assert L.Links(t) <= 1;
        assert objs[t] == objs1[t];
      }
      ClearKeys(allweak, S);
    }

    // ----- the atomic step -----

    /** What the collector takes as always reachable. */
    ghost function Roots(): set<Ref>
      reads `registry, `mt
    {
      {mainthread} + (set v | v in mt && v.Coll? :: v.ref) + (if registry.Coll? then {registry.ref} else {})
    }

    /** Marks the main thread, the registry and the metatables of the basic types. */
    method MarkRoots(ghost S: set<Ref>)
      requires Markable(objs, cells, marks, S) && Roots() <= S
      modifies `marks, `gray
      ensures MarkStep(objs, cells, old(marks), old(gray), marks, gray, S)
      ensures Roots() <= Marked(marks)
    {
      hide ColourStep, GrayStep;
      ghost var m0, g0 := marks, gray;
      assert forall v :: v in mt ==> In(v, Roots());
      MarkValue(Coll(mainthread), S, m0, g0);
      MarkValue(registry, S, m0, g0);
      for i := 0 to |mt|
        invariant MarkStep(objs, cells, m0, g0, marks, gray, S) && marks.Keys == objs.Keys
        invariant mainthread in Marked(marks) && In(registry, Marked(marks))
        invariant forall j :: 0 <= j < i ==> In(mt[j], Marked(marks))
      {
        MarkValue(mt[i], S, m0, g0);
      }
    }

    /** The marking part of the atomic step, up to the point where all strongly accessible objects are marked. */
    method AtomicMark(ghost S: set<Ref>)
      requires gcstate == GCSatomic && gray == [] && Sound(objs, cells) && Roots() <= S
      requires Tri(objs, cells, marks, GrayLists(true, []), S)
      modifies `marks, `gray, `grayagain, `weak, `allweak, `ephemeron, `gcstate
      ensures gcstate == GCSinsideatomic && gray == []
      ensures Tri(objs, cells, marks, GrayLists(true, []), S)
      ensures AllConverged(objs, ephemeron, Marked(marks))
      ensures Grows(old(marks), marks) && Roots() <= Marked(marks)
    {
      hide NoDup, Linked, Markable, MarkStepBut, GrayOnce, AllConverged;
      var saved := grayagain;
      gcstate := GCSinsideatomic;
      ghost var m0, L0 := marks, GrayLists(true, saved);
      MarkRoots(S);
      MarkStepGrows(objs, cells, m0, L0.gray, marks, gray, S);
      TriMarkStep(objs, cells, m0, L0, marks, gray, S, {});
      ghost var m1 := marks;
      AtomicPropagate(saved, S);
      GrowsTrans(m0, m1, marks);
    }

    /** Propagates from the roots, then from the objects that had to be visited again. */
    method AtomicPropagate(saved: seq<Ref>, ghost S: set<Ref>)
      requires gcstate == GCSinsideatomic && Sound(objs, cells)
      requires Tri(objs, cells, marks, GrayLists(true, saved), S)
      modifies `marks, `gray, `grayagain, `weak, `allweak, `ephemeron
      ensures gray == [] && Tri(objs, cells, marks, GrayLists(true, []), S)
      ensures AllConverged(objs, ephemeron, Marked(marks))
      ensures Grows(old(marks), marks)
    {
      ghost var m0 := marks;
      PropagateAll(true, saved, S);
      ghost var m1 := marks;
      TriGrayAgain(objs, cells, marks, GrayLists(true, saved), S);
      gray := saved;
      PropagateAll(true, [], S);
      GrowsTrans(m0, m1, marks);
      ghost var m2 := marks;
      ConvergeEphemerons(S);
      GrowsTrans(m0, m2, marks);
    }

    /** The atomic step: finishes marking, clears weak tables, and makes the other white current. */
    method Atomic(ghost S: set<Ref>)
      requires gcstate == GCSatomic && gray == [] && Sound(objs, cells) && Roots() <= S
      requires Tri(objs, cells, marks, GrayLists(true, []), S)
      modifies `objs, `marks, `gray, `grayagain, `weak, `allweak, `ephemeron, `gcstate, `currentwhite
      ensures gcstate == GCSinsideatomic && currentwhite == !old(currentwhite)
      ensures marks.Keys == objs.Keys && Grows(old(marks), marks) && Roots() <= Marked(marks) <= S
      ensures Purge(old(objs), objs, cells, Marked(marks))
    {
      AtomicMark(S);
      ghost var m1 := marks;
      AtomicClear(S);
      currentwhite := !currentwhite;
    }

    method AtomicClear(ghost S: set<Ref>)
      requires gcstate == GCSinsideatomic && Sound(objs, cells)
      requires Tri(objs, cells, marks, GrayLists(true, []), S) && gray == []
      requires AllConverged(objs, ephemeron, Marked(marks))
      modifies `objs, `marks, `gray, `grayagain, `weak, `allweak, `ephemeron
      ensures Purge(old(objs), objs, cells, Marked(marks)) && marks.Keys == objs.Keys
      ensures Grows(old(marks), marks) && Marked(marks) <= S
    {
      AtomicClearValues(S);
      var origweak, origall := weak, allweak;
      ghost var objs0, m0, m1 := old(objs), old(marks), marks;
      ConvergeAgain(S, objs0, m0);
      AtomicClearKeys(origweak, origall, S, objs0, m0);
    }

    /** The second convergence finds nothing to mark. */
    method ConvergeAgain(ghost S: set<Ref>, ghost objs0: Heap, ghost m0: Marks)
      requires gcstate == GCSinsideatomic && gray == []
      requires HalfCleared(objs0, m0, objs, marks, cells, GrayLists(true, []), S)
      modifies `marks, `gray, `grayagain, `weak, `allweak, `ephemeron
      ensures HalfCleared(objs0, m0, objs, marks, cells, GrayLists(true, []), S) && gray == []
      ensures Unchanged(objs, old(marks), marks, old(weak), weak, old(allweak), allweak)
      ensures Grows(old(marks), marks)
    {
      ghost var m1, L1 := marks, GrayLists(true, []);
      ConvergeEphemerons(S);
      HalfClearedConverge(objs0, m0, objs, m1, marks, cells, L1, GrayLists(true, []), S);
    }

    // ----- sweeping -----

    /** Frees the `p`-th object of `allgc` if it is dead, makes it white otherwise. */
    method SweepObject(p: nat)
      requires p < |allgc| && allgc[p] in objs && allgc[p] in marks
      modifies `objs, `marks, `allgc
      ensures old(marks)[old(allgc)[p]] == White(!currentwhite) ==>
        && allgc == old(allgc)[..p] + old(allgc)[p + 1..]
        && objs == old(objs) - {old(allgc)[p]} && marks == old(marks) - {old(allgc)[p]}
      ensures old(marks)[old(allgc)[p]] != White(!currentwhite) ==>
        && allgc == old(allgc) && objs == old(objs) && marks == old(marks)[old(allgc)[p] := White(currentwhite)]
    {
      var curr := allgc[p];
      if marks[curr] == White(!currentwhite) {
        allgc := allgc[..p] + allgc[p + 1..];
        objs, marks := objs - {curr}, marks - {curr};
      } else {
        marks := marks[curr := White(currentwhite)];
      }
    }

    /**
     Sweeps at most `count` of the last `rest` objects of `allgc`: frees the dead ones, makes the
     others white. Returns where to continue, if anywhere.
     */
    method SweepList(rest: nat, count: nat) returns (r: Option<nat>, ghost pre: seq<Ref>, ghost done: seq<Ref>,
        ghost todo: seq<Ref>)
      requires rest <= |allgc| && NoDup(allgc) && marks.Keys == objs.Keys
      requires forall o :: o in allgc ==> o in objs
      modifies `objs, `marks, `allgc
      ensures old(allgc) == pre + done + todo && |done + todo| == rest
      ensures |done| == if rest <= count then rest else count
      ensures forall o :: o in done ==> o in old(marks)
      ensures Swept(old(objs), old(marks), objs, marks, done, currentwhite)
      ensures allgc == pre + Survivors(done, old(marks), currentwhite) + todo
      ensures r == if rest <= count then None else Some(rest - count)
    {
      hide Swept, Survivors, NoDup;
      ghost var objs0, m0, a0 := objs, marks, allgc;
      pre, done, todo := allgc[..|allgc| - rest], [], allgc[|allgc| - rest..];
      ghost var kept: seq<Ref> := [];
      SweptNone(objs, marks, currentwhite);
      var n: nat, c: nat := rest, count;
      while n > 0 && c > 0
        invariant n <= rest && c <= count && rest - n == count - c == |done| && n == |todo|
        invariant a0 == pre + done + todo && allgc == pre + kept + todo
        invariant forall o :: o in done ==> o in m0
        invariant kept == Survivors(done, m0, currentwhite)
        invariant Swept(objs0, m0, objs, marks, done, currentwhite)
      {
        MoveOn(a0, pre, done, kept, todo, allgc);
        ghost var curr := todo[0];
        assert curr in a0;
        SweepOne(objs0, m0, objs, marks, done, curr, currentwhite);
        SurvivorsAppend(done, curr, m0, currentwhite);
        SweepObject(|allgc| - n);
        kept := kept + if m0[curr] == White(!currentwhite) then [] else [curr];
        done, todo := done + [curr], todo[1..];
        n, c := n - 1, c - 1;
      }
      r := if n == 0 then None else Some(n);
    }

    // ----- the invariant -----

    /** What holds between any two operations. */
    ghost predicate Valid()
      reads this
    {
      && BaseOk()
      && gcstate != GCSinsideatomic
      && (Marking() ==> MarkingOk())
      && SweepingOk()
    }

    /** What has been swept, and that propagation has something to do. */
    ghost predicate SweepingOk()
      reads this
      requires mainthread in marks
    {
      && (gcstate == GCSpropagate ==> gray != [])
      && (gcstate == GCSswpallgc && sweepgc.Some? ==>
        sweepgc.value < |allgc| && PrefixSwept(marks, currentwhite, allgc, sweepgc.value))
      && (FullySwept() ==> PrefixSwept(marks, currentwhite, allgc, 0) && sweepgc in {None, Some(0)})
      && (gcstate in {GCScallfin, GCSpause} ==> marks[mainthread] == White(currentwhite))
    }

    /** The states in which no black object may refer to a white one (`keepinvariant`). */
    predicate Marking()
      reads `gcstate
    {
      gcstate in {GCSpropagate, GCSatomic}
    }

    /** All of `allgc` has been swept. */
    predicate FullySwept()
      reads `gcstate, `sweepgc
    {
      (gcstate == GCSswpallgc && sweepgc.None?) || gcstate in {GCSswpfinobj, GCSswptobefnz, GCSswpend, GCScallfin,
        GCSpause}
    }

    ghost predicate MarkingOk()
      reads this
    {
      && Tri(objs, cells, marks, GrayLists(false, []), objs.Keys)
      && AllCurrent(marks, currentwhite)
      && mainthread in Marked(marks)
    }

    /** The white of this object says that it is still in use. */
    ghost function Alive(): set<Ref>
      reads `marks, `currentwhite
    {
      AliveSet(marks, currentwhite)
    }

    ghost predicate BaseOk()
      reads this
    {
      Base(objs, cells, marks, currentwhite, mainthread, Roots(), allgc, fixedgc)
    }

    /** Sweeps from the head of `allgc` until the pointer is inside the list, or the list is finished. */
    method SweepToLive()
      requires BaseOk()
      modifies `objs, `marks, `allgc, `sweepgc
      ensures BaseOk() && Alive() == old(Alive())
      ensures objs.Keys <= old(objs).Keys && forall o :: o in objs ==> objs[o] == old(objs)[o]
      ensures if sweepgc.Some? then sweepgc.value < |allgc| && PrefixSwept(marks, currentwhite, allgc, sweepgc.value)
              else PrefixSwept(marks, currentwhite, allgc, 0)
    {
      sweepgc := Some(|allgc|);
      while true
        invariant sweepgc == Some(|allgc|)
        invariant BaseOk() && Alive() == old(Alive())
        invariant objs.Keys <= old(objs).Keys && forall o :: o in objs ==> objs[o] == old(objs)[o]
        decreases |allgc|
      {
        ghost var n := |allgc|;
        sweepgc := SweepFrom(|allgc|, 1);
        if sweepgc != Some(|allgc|) {
          break;
        }
        assert |allgc| < n;
      }
    }

    /** `SweepList`, and what it keeps. */
    method SweepFrom(rest: nat, count: nat) returns (r: Option<nat>)
      requires BaseOk() && rest <= |allgc|
      modifies `objs, `marks, `allgc
      ensures BaseOk() && Alive() == old(Alive())
      ensures objs.Keys <= old(objs).Keys && forall o :: o in objs ==> objs[o] == old(objs)[o]
      ensures r == if rest <= count then None else Some(rest - count)
      ensures |old(allgc)| - rest <= |allgc| - (if rest <= count then 0 else rest - count)
      ensures PrefixSwept(old(marks), currentwhite, old(allgc), rest) ==>
                PrefixSwept(marks, currentwhite, allgc, if rest <= count then 0 else rest - count)
    {
      ghost var pre, done, todo;
      r, pre, done, todo := SweepList(rest, count);
      SweptBase(old(objs), cells, old(marks), objs, marks, currentwhite, mainthread, Roots(), pre, done, todo,
        old(allgc), allgc, fixedgc);
    }

    /** Enters the first sweep phase. */
    method EnterSweep()
      requires BaseOk()
      modifies `objs, `marks, `allgc, `sweepgc, `gcstate
      ensures Valid() && gcstate == GCSswpallgc && Alive() == old(Alive())
      ensures objs.Keys <= old(objs).Keys && forall o :: o in objs ==> objs[o] == old(objs)[o]
    {
      gcstate := GCSswpallgc;
      SweepToLive();
    }

    /** `S` can serve as a bound of what the current cycle marks. */
    ghost predicate Bounds(S: set<Ref>)
      reads this
    {
      Roots() <= S <= objs.Keys && Closed(objs, cells, S) && Marked(marks) <= S
    }

    /** Starts a new collection: empties the gray lists and marks the roots. */
    method RestartCollection(ghost S: set<Ref>)
      requires Valid() && gcstate == GCSpause && Bounds(S)
      modifies `marks, `gray, `grayagain, `weak, `allweak, `ephemeron
      ensures Base(objs, cells, marks, currentwhite, mainthread, Roots(), allgc, fixedgc) && Alive() == old(Alive())
      ensures MarkingOk() && gray != [] && Roots() <= Marked(marks) <= S
    {
      hide Base, Closed, MarkStep, Marked, Markable, AliveSet, PrefixSwept, Tri, Roots, AllCurrent;
      gray, grayagain := [], [];
      weak, allweak, ephemeron := [], [], [];
      ghost var m0 := marks;
      Paused(S);
      MarkRoots(S);
      CycleStarts(objs, cells, m0, marks, gray, currentwhite, mainthread, Roots(), allgc, fixedgc,
        Lists([], [], [], [], [], fixedgc, false), S);
    }

    /** What a new cycle starts from. */
    lemma Paused(S: set<Ref>)
      requires BaseOk() && SweepingOk() && gcstate == GCSpause && Bounds(S)
      ensures PrefixSwept(marks, currentwhite, allgc, 0) && marks[mainthread] == White(currentwhite)
      ensures Bounded(objs, cells, marks, S) && Roots() <= S && mainthread in Roots()
    {
    }

    method StepPropagate(ghost S: set<Ref>)
      requires Valid() && gcstate == GCSpropagate && Bounds(S)
      modifies `marks, `gray, `grayagain, `weak, `allweak, `ephemeron, `gcstate
      ensures Valid() && Marking() && Alive() == old(Alive()) && Marked(old(marks)) <= Marked(marks) <= S
      ensures gcstate == GCSpropagate ==>
        Whites(marks) < Whites(old(marks)) || (Whites(marks) == Whites(old(marks)) && |gray| < |old(gray)|)
    {
      hide TriBut, Base, Roots;
      PropagateWithin(S);
      if gray == [] {
        gcstate := GCSatomic;
      }
    }

    /** One propagation step of the mark phase, with its bound. */
    method PropagateWithin(ghost S: set<Ref>)
      requires BaseOk() && MarkingOk() && gcstate == GCSpropagate && gray != [] && Bounds(S)
      modifies `marks, `gray, `grayagain, `weak, `allweak, `ephemeron
      ensures BaseOk() && MarkingOk() && Alive() == old(Alive()) && Marked(old(marks)) <= Marked(marks) <= S
      ensures Whites(marks) < Whites(old(marks)) || (Whites(marks) == Whites(old(marks)) && |gray| < |old(gray)|)
    {
      ghost var m0, L0 := marks, GrayLists(false, []);
      NoneDead(objs, cells, marks, currentwhite);
      TriInside(objs, cells, marks, L0, objs.Keys, S, false);
      PropagateMark(false, [], S);
      GrowsBase(objs, cells, m0, marks, currentwhite, mainthread, Roots(), allgc, fixedgc);
      TriInside(objs, cells, marks, GrayLists(false, []), S, objs.Keys, false);
    }

    /** Finishes marking, exchanges the whites and starts to sweep. */
    method StepAtomic(ghost S: set<Ref>)
      requires Valid() && gcstate == GCSatomic && Bounds(S)
      modifies `objs, `marks, `gray, `grayagain, `weak, `allweak, `ephemeron, `gcstate, `currentwhite, `allgc, `sweepgc
      ensures Valid() && gcstate == GCSswpallgc
      ensures Roots() <= Alive() <= S && objs.Keys <= old(objs).Keys
      ensures Closed(old(objs), cells, Alive())
      ensures forall o :: o in Alive() ==> objs[o] == Purged(old(objs), old(objs)[o], Alive())
    {
      ghost var objs0, m0, cw := objs, marks, currentwhite;
      FinishMarking(S);
      assert BaseOk() && Purge(objs0, objs, cells, Alive()) by {
        PurgeBase(objs0, cells, m0, objs, marks, cw, mainthread, Roots(), allgc, fixedgc);
      }
      EnterSweep();
    }

    /**
     Up to the entry of `atomic`, which asserts that there are no weak tables and no ephemerons in the lists: there
     are none if nothing was gray, but a gray table that will have to be cleared is linked there.
     */
    method EmptyGray(ghost S: set<Ref>)
      requires Valid() && gcstate == GCSatomic && Bounds(S)
      modifies `marks, `gray, `grayagain, `weak, `allweak, `ephemeron
      ensures Sound(objs, cells) && Tri(objs, cells, marks, GrayLists(true, []), S) && gray == []
      ensures Grows(old(marks), marks) && mainthread in Marked(marks)
      ensures old(gray) == [] ==> weak == [] && ephemeron == []
      ensures forall t :: t in old(gray) && Clearable(objs, t, S) ==> t in weak || t in ephemeron
    {
      hide Clearable, Coloured, Linked, Closed, NoDup;
      ghost var m0, L0 := marks, GrayLists(false, []);
      NoneDead(objs, cells, marks, currentwhite);
      NothingLinked(objs, marks, L0);
      TriInside(objs, cells, marks, GrayLists(false, []), objs.Keys, S, true);
      PropagateAll(true, [], S);
      forall t | t in L0.gray && Clearable(objs, t, S) ensures t in weak || t in ephemeron {
        GrayElsewhere(objs, cells, m0, L0, objs.Keys, t);
        assert t in Marked(marks);
        Waits(objs, cells, marks, GrayLists(true, []), S, t);
        NoThread(objs, t, S);
      }
    }

    method FinishMarking(ghost S: set<Ref>)
      requires Valid() && gcstate == GCSatomic && Bounds(S)
      modifies `objs, `marks, `gray, `grayagain, `weak, `allweak, `ephemeron, `gcstate, `currentwhite
      ensures gcstate == GCSinsideatomic && currentwhite == !old(currentwhite)
      ensures Grows(old(marks), marks) && Roots() <= Marked(marks) <= S && Purge(old(objs), objs, cells, Marked(marks))
    {
      hide Tri, Clearable, Sound, Base, Closed, Purge;
      ghost var m0 := marks;
      EmptyGray(S);
      ghost var m1 := marks;
      Atomic(S);
      GrowsTrans(m0, m1, marks);
    }

    /** One step of a sweep phase: sweeps some objects, or goes to the next phase. */
    method SweepStep(nextstate: State, nextlist: Option<nat>)
      requires Valid() && gcstate in {GCSswpallgc, GCSswpfinobj, GCSswptobefnz}
      requires nextstate in {GCSswpfinobj, GCSswptobefnz, GCSswpend} && nextlist in {None, Some(0)}
      modifies `objs, `marks, `allgc, `sweepgc, `gcstate
      ensures Valid() && Alive() == old(Alive())
      ensures objs.Keys <= old(objs).Keys && forall o :: o in objs ==> objs[o] == old(objs)[o]
      ensures gcstate == nextstate || (gcstate == old(gcstate) && sweepgc.Some? && old(sweepgc).Some?
        && sweepgc.value < old(sweepgc).value)
    {
      hide Base, Roots, MarkingOk, Alive;
      if sweepgc.Some? {
        if gcstate == GCSswpallgc {
          sweepgc := SweepFrom(sweepgc.value, GCSWEEPMAX);
        } else {
          sweepgc := None;  // the lists of objects with finalizers are empty
        }
        if sweepgc.Some? {
          return;
        }
      }
      gcstate, sweepgc := nextstate, nextlist;
    }

    /** `makewhite(g, g->mainthread)`. */
    method SweepMainThread()
      requires Valid() && gcstate == GCSswpend
      modifies `marks, `gcstate
      ensures Valid() && gcstate == GCScallfin && Alive() == old(Alive())
    {
      marks := marks[mainthread := White(currentwhite)];
      gcstate := GCScallfin;
      assert Alive() == old(Alive());
    }

    /** How far the current cycle is from its end. */
    ghost function Rank(): nat
      reads `gcstate
    {
      match gcstate
      case GCSpause => 0
      case GCScallfin => 1
      case GCSswpend => 2
      case GCSswptobefnz => 3
      case GCSswpfinobj => 4
      case GCSswpallgc => 5
      case GCSatomic => 6
      case _ => 7
    }

    /** The objects the propagation phase may still mark. */
    ghost function Unmarked(): set<Ref>
      reads `gcstate, `marks
    {
      if gcstate == GCSpropagate then Whites(marks) else {}
    }

    /** What is left to do in the current state. */
    ghost function ToDo(): nat
      reads `gcstate, `gray, `sweepgc
    {
      if gcstate == GCSpropagate then |gray| else if sweepgc.Some? then sweepgc.value + 1 else 0
    }

    /**
     One step of the collector. `S` bounds what may be marked when the step can mark.
     Only the atomic step makes objects dead, and what it keeps are `Purged` objects of a closed set
     that has the roots.
     */
    method SingleStep(ghost S: set<Ref>)
      requires Valid() && (Marking() || gcstate == GCSpause ==> Bounds(S))
      modifies `objs, `marks, `gray, `grayagain, `weak, `allweak, `ephemeron, `gcstate, `currentwhite, `allgc, `sweepgc
      ensures Valid() && objs.Keys <= old(objs).Keys
      ensures old(gcstate) != GCSatomic ==> Alive() == old(Alive()) && forall o :: o in objs ==> objs[o] == old(objs)[o]
      ensures old(gcstate) == GCSatomic ==> Closed(old(objs), cells, Alive()) && Alive() <= S
      ensures old(gcstate) == GCSatomic ==> forall o :: o in Alive() ==>
        objs[o] == Purged(old(objs), old(objs)[o], Alive())
      ensures old(gcstate) in {GCSpause, GCSpropagate} ==> Marking() && objs == old(objs) && Marked(marks) <= S
      ensures old(gcstate) == GCSpause ==> gcstate == GCSpropagate && Roots() <= Marked(marks)
      ensures old(gcstate) == GCSpropagate ==> Marked(old(marks)) <= Marked(marks)
      ensures old(gcstate) == GCSatomic ==> gcstate == GCSswpallgc
      ensures old(!Marking() && gcstate != GCSpause) ==> !Marking()
      ensures old(gcstate) != GCScallfin ==> gcstate != GCSpause
      ensures old(gcstate) != GCSpause ==>
                || Rank() < old(Rank())
                || (Rank() == old(Rank()) && Unmarked() < old(Unmarked()))
                || (Rank() == old(Rank()) && Unmarked() == old(Unmarked()) && ToDo() < old(ToDo()))
    {
      hide Base, Tri, PrefixSwept, Closed, AllCurrent, Follows, Purged, Marked, Whites, AliveSet, NoDangling, Roots,
        Alive, Bounds;
      match gcstate {
        case GCSpause =>
          RestartCollection(S);
          gcstate := GCSpropagate;
        case GCSpropagate =>
          StepPropagate(S);
        case GCSatomic =>
          StepAtomic(S);
        case GCSswpallgc =>
          SweepStep(GCSswpfinobj, Some(0));
        case GCSswpfinobj =>
          SweepStep(GCSswptobefnz, Some(0));
        case GCSswptobefnz =>
          SweepStep(GCSswpend, None);
        case GCSswpend =>
          SweepMainThread();
        case GCScallfin =>
          gcstate := GCSpause;
        case GCSinsideatomic =>
      }
    }

    // ----- the mutator -----

    /**
     Everything that must hold after `v` and `w` were written into object `o`, whose contents were `b`, and before the
     barrier.
     */
    ghost predicate Unguarded(o: Ref, b: Obj, v: Value, w: Value)
      reads this
    {
      && BaseOk() && gcstate != GCSinsideatomic && SweepingOk()
      && o in objs && o in marks && In(v, Alive()) && In(w, Alive())
      && (Marking() ==>
            && AllCurrent(marks, currentwhite) && mainthread in Marked(marks)
            && WrittenMarking(objs, cells, marks, GrayLists(false, []), o, b, v, w))
    }

    /** Writes into object `o`, without a barrier. */
    method Write(o: Ref, r: Obj, ghost v: Value, ghost w: Value)
      requires Valid() && o in objs && Written(objs[o], r, cells, v, w) && In(v, Alive()) && In(w, Alive())
      modifies `objs
      ensures objs == old(objs)[o := r] && Unguarded(o, old(objs)[o], v, w)
    {
      hide Closed, NoDup, Marked, MayBeBlack, Coloured, HasMode, TriBut, Markable, AliveSet, PrefixSwept, Written,
        SameKind, WrittenMarking, Roots, Marking, FullySwept;
      WriteBase(objs, cells, marks, currentwhite, mainthread, Roots(), allgc, fixedgc, o, r, v, w);
      if Marking() {
        WriteMarking(objs, cells, marks, currentwhite, GrayLists(false, []), o, r, v, w);
      }
      objs := objs[o := r];
    }

    /** `luaC_barrierback`, after `v` was written into table `o`. */
    method BarrierBack(o: Ref, v: Value, ghost b: Obj)
      requires Unguarded(o, b, v, Nil) && objs[o].Table?
      modifies `marks, `grayagain
      ensures Valid() && Alive() == old(Alive())
      ensures if !old(marks)[o].Black? then marks == old(marks) && grayagain == old(grayagain)
        else Marking() ==> In(v, Marked(marks)) || (marks[o].Gray? && o in grayagain)
    {
      if v.Coll? && marks[o].Black? && marks[v.ref].White? {
        TableBarrier(o, b, v, Nil);
      } else if Marking() {
        assert In(v, Marked(marks)) || !marks[o].Black?;
      }
    }

    /** `luaC_barrierback_`: the black table becomes gray again. */
    method TableBarrier(o: Ref, ghost b: Obj, ghost v: Value, ghost w: Value)
      requires Unguarded(o, b, v, w) && objs[o].Table? && marks[o].Black?
      modifies `marks, `grayagain
      ensures Valid() && Alive() == old(Alive()) && marks == old(marks)[o := Gray] && o in grayagain
    {
      hide Base, Tri, TriBut, Sound, Written, PrefixSwept, AliveSet, AllCurrent, Coloured, Marked, HoldsOnly, Roots;
      GrayBase(objs, cells, marks, currentwhite, mainthread, Roots(), allgc, fixedgc, o);
      if Marking() {
        WriteBack(objs, cells, marks, GrayLists(false, []), o);
      }
      marks := marks[o := Gray];
      grayagain := [o] + grayagain;
    }

    /** `luaC_barrier`, after `v` was written into `o`, which is not a table entry. */
    method Barrier(o: Ref, v: Value, ghost b: Obj)
      requires Unguarded(o, b, v, Nil) && !objs[o].Thread? && !objs[o].Str?
      modifies `marks, `gray
      ensures Valid() && Alive() == old(Alive())
      ensures if !old(marks)[o].Black? then marks == old(marks) && gray == old(gray)
        else Marking() ==> In(v, Marked(marks))
    {
      if v.Coll? && marks[o].Black? && marks[v.ref].White? {
        if Marking() {
          BarrierForward(o, v, b);
        } else {
          BarrierSweep(o, v, b);
        }
      } else {
        BarrierIdle(o, v, b);
      }
    }

    /** While sweeping, the black object becomes white, so that there is no other barrier for it. */
    method BarrierSweep(o: Ref, ghost v: Value, ghost b: Obj)
      requires Unguarded(o, b, v, Nil) && !objs[o].Str? && !Marking() && marks[o].Black?
      modifies `marks
      ensures Valid() && Alive() == old(Alive())
    {
      hide Base, PrefixSwept, AliveSet, AllCurrent, Roots;
      RecolourBase(objs, cells, marks, currentwhite, mainthread, Roots(), allgc, fixedgc, o, White(currentwhite));
      marks := marks[o := White(currentwhite)];
    }

    /** Nothing has to be done if the object is not black, or what it refers to is not white. */
    lemma BarrierIdle(o: Ref, v: Value, b: Obj)
      requires Unguarded(o, b, v, Nil) && !(v.Coll? && marks[o].Black? && marks[v.ref].White?)
      requires !objs[o].Thread?
      ensures Valid()
    {
    }

    lemma ForwardReady(o: Ref, v: Value, b: Obj)
      requires Unguarded(o, b, v, Nil) && Marking()
      ensures Markable(objs, cells, marks, objs.Keys) && In(v, objs.Keys)
    {
      hide Coloured, HoldsOnly, PrefixSwept, Roots, NoDangling;
    }

    /** The barrier that restores the invariant by marking the white object. */
    method BarrierForward(o: Ref, v: Value, ghost b: Obj)
      requires Unguarded(o, b, v, Nil) && Marking() && marks[o].Black? && v.Coll? && marks[v.ref].White?
      modifies `marks, `gray
      ensures Valid() && Alive() == old(Alive()) && In(v, Marked(marks))
    {
      hide Closed, TriBut, Coloured, HoldsOnly, Base, PrefixSwept, Roots;
      ForwardReady(o, v, b);
      ghost var m0, L := marks, GrayLists(false, []);
      ReallyMarkObject(v.ref, objs.Keys);
      WriteForward(objs, cells, m0, L, marks, gray, o, b, v);
      MarkStepGrows(objs, cells, m0, L.gray, marks, gray, objs.Keys);
      GrowsBase(objs, cells, m0, marks, currentwhite, mainthread, Roots(), allgc, fixedgc);
      assert L.gray != [] ==> L.gray[0] in gray;
    }

    /** The stack of the main thread, where the program has its values. */
    function Stack(): seq<Value>
      reads `objs
    {
      if mainthread in objs && objs[mainthread].Thread? then objs[mainthread].stack else []
    }

    /** What the program has in its hands is in use. */
    lemma StackAlive()
      requires Valid()
      ensures mainthread in objs && objs[mainthread] == Thread(Stack()) && mainthread in Alive()
      ensures forall k :: 0 <= k < |Stack()| ==> In(Stack()[k], Alive()) && In(Stack()[k], objs.Keys)
    {
      assert HoldsOnly(objs[mainthread], cells, Alive());
      assert forall k :: 0 <= k < |Stack()| ==> Holds(objs[mainthread], cells, Stack()[k]);
    }

    /** Whatever an object in use refers to is in use. */
    lemma HeldAlive(o: Ref, v: Value)
      requires Valid() && o in Alive() && Holds(objs[o], cells, v)
      ensures In(v, Alive()) && In(v, objs.Keys)
    {
      assert HoldsOnly(objs[o], cells, Alive());
    }

    /** Writes to the stack of the main thread need no barrier: threads are never black. */
    method SetStack(stack: seq<Value>, ghost v: Value)
      requires Valid() && In(v, Alive()) && forall x :: x in stack ==> x == v || x in Stack()
      modifies `objs
      ensures Valid() && objs == old(objs)[mainthread := Thread(stack)]
    {
      StackAlive();
      assert forall x :: x in Stack() ==> Holds(objs[mainthread], cells, x);
      Write(mainthread, Thread(stack), v, Nil);
    }

    /** Reads a slot of the object at stack position `i` and pushes the value. */
    method Load(i: nat, s: Slot)
      requires Valid() && i < |Stack()| && Stack()[i].Coll?
      requires Stack()[i].ref in objs && HasSlot(objs[Stack()[i].ref], cells, s)
      modifies `objs
      ensures Valid() && objs == old(objs)[mainthread :=
        Thread(old(Stack()) + [Peek(old(objs)[old(Stack())[i].ref], cells, s)])]
    {
      StackAlive();
      var v := Peek(objs[Stack()[i].ref], cells, s);
      HeldAlive(Stack()[i].ref, v);
      SetStack(Stack() + [v], v);
    }

    /** Reads the registry, or the metatable of a basic type. */
    method LoadRoot(k: Option<nat>)
      requires Valid() && (k.Some? ==> k.value < |mt|)
      modifies `objs
      ensures Valid() && objs == old(objs)[mainthread :=
        Thread(old(Stack()) + [if k.Some? then mt[k.value] else registry])]
    {
      var v := if k.Some? then mt[k.value] else registry;
      assert In(v, Roots());
      SetStack(Stack() + [v], v);
    }

    method Pop(n: nat)
      requires Valid() && n <= |Stack()|
      modifies `objs
      ensures Valid() && objs == old(objs)[mainthread := Thread(old(Stack())[..|old(Stack())| - n])]
    {
      StackAlive();
      SetStack(Stack()[..|Stack()| - n], Nil);
    }

    /** Writes the value at stack position `j` into a slot of the object at position `i`, with its barrier. */
    method Store(i: nat, s: Slot, j: nat)
      requires Valid() && i < |Stack()| && j < |Stack()| && Stack()[i].Coll?
      requires Stack()[i].ref in objs && Writable(objs[Stack()[i].ref], cells, s)
      modifies `objs, `marks, `gray, `grayagain
      ensures Valid() && Alive() == old(Alive())
      ensures var o, v := old(Stack())[i].ref, old(Stack())[j];
        if !old(marks)[o].Black? then marks == old(marks) && gray == old(gray) && grayagain == old(grayagain)
        else Marking() ==> In(v, Marked(marks)) || (objs[o].Table? && marks[o].Gray? && o in grayagain)
      ensures objs[old(Stack())[i].ref].Table? || grayagain == old(grayagain)
      ensures objs == old(objs)[old(Stack())[i].ref := Poke(old(objs)[old(Stack())[i].ref], cells, s, old(Stack())[j])]
    {
      hide Base, Tri, Marked, PrefixSwept, AliveSet, HoldsOnly, Written, AllCurrent, WrittenMarking, Roots;
      StackAlive();
      var o, v := Stack()[i].ref, Stack()[j];
      ghost var b := objs[o];
      Write(o, Poke(objs[o], cells, s, v), v, Nil);
      if objs[o].Table? && !s.MetaSlot? {
        BarrierBack(o, v, b);
      } else if !objs[o].Thread? {
        Barrier(o, v, b);
      } else {
        ThreadIdle(o, v, b);
      }
    }

    lemma ThreadIdle(o: Ref, v: Value, b: Obj)
      requires Unguarded(o, b, v, Nil) && objs[o].Thread?
      ensures Valid() && (Marking() ==> !marks[o].Black?)
    {
      hide Base, PrefixSwept, AliveSet, HoldsOnly, AllCurrent, Roots, Closed;
      assert Marking() ==> Coloured(objs, cells, marks, GrayLists(false, []), o);
    }

    /** Adds the key at stack position `j` with the value at `k` to the table at `i`. */
    method NewKey(i: nat, j: nat, k: nat)
      requires Valid() && i < |Stack()| && j < |Stack()| && k < |Stack()| && Stack()[i].Coll? && Stack()[j] != Nil
      requires Stack()[i].ref in objs && objs[Stack()[i].ref].Table?
      modifies `objs, `marks, `grayagain
      ensures Valid() && Alive() == old(Alive())
      ensures objs == old(objs)[old(Stack())[i].ref := AddEntry(old(objs)[old(Stack())[i].ref], cells,
        old(Stack())[j], old(Stack())[k])]
    {
      StackAlive();
      var t, key, v := Stack()[i].ref, Stack()[j], Stack()[k];
      ghost var b := objs[t];
      Write(t, AddEntry(objs[t], cells, key, v), key, v);
      if marks[t].Black? && ((key.Coll? && marks[key.ref].White?) || (v.Coll? && marks[v.ref].White?)) {
        TableBarrier(t, b, key, v);
      } else if Marking() {
        assert (In(key, Marked(marks)) && In(v, Marked(marks))) || !marks[t].Black?;
      }
    }

    /** The roots are not guarded by barriers; the atomic step marks them again. */
    method StoreRoot(k: Option<nat>, j: nat)
      requires Valid() && j < |Stack()| && (k.Some? ==> k.value < |mt|)
      modifies `registry, `mt
      ensures Valid()
      ensures if k.Some? then registry == old(registry) && mt == old(mt)[k.value := Stack()[j]]
        else registry == Stack()[j] && mt == old(mt)
    {
      StackAlive();
      ghost var r0 := Roots();
      if k.Some? {
        mt := mt[k.value := Stack()[j]];
      } else {
        registry := Stack()[j];
      }
      assert forall o :: o in Roots() ==> o in r0 || Stack()[j] == Coll(o);
    }

    /** `luaC_newobj`: links a white object at address `o`, chosen by the allocator, and pushes it on the stack. */
    method NewObject(o: Ref, b: Obj)
      requires Valid() && o !in objs && FromStack(b)
      modifies `objs, `marks, `allgc
      ensures Valid() && objs == old(objs)[o := b][mainthread := Thread(old(Stack()) + [Coll(o)])]
      ensures marks == old(marks)[o := White(currentwhite)]
    {
      StackAlive();
      FromStackAlive(b);
      LinkObject(o, b);
      SetStack(Stack() + [Coll(o)], Coll(o));
    }

    /** A white object is linked at the head of `allgc`. */
    method LinkObject(o: Ref, b: Obj)
      requires Valid() && o !in objs && HoldsOnly(b, cells, Alive()) && HoldsOnly(b, cells, objs.Keys)
      requires b.LClosure? ==> forall c :: c in b.upvals ==> c in cells
      modifies `objs, `marks, `allgc
      ensures Valid() && objs == old(objs)[o := b] && marks == old(marks)[o := White(currentwhite)]
      ensures o in Alive() && Stack() == old(Stack())
    {
      hide Base, Tri, PrefixSwept, AllCurrent, HoldsOnly, Roots, AliveSet, Marked;
      NewBase(objs, cells, marks, currentwhite, mainthread, Roots(), allgc, fixedgc, o, b);
      if Marking() {
        NewMarking(objs, cells, marks, currentwhite, mainthread, Roots(), allgc, fixedgc, GrayLists(false, []), o, b);
      }
      objs, marks, allgc := objs[o := b], marks[o := White(currentwhite)], [o] + allgc;
    }

    /** `v` is one of the values the program has, or not collectable. */
    predicate OnStack(v: Value)
      reads `objs
    {
      v.Coll? ==> v in Stack()
    }

    /** The new object refers only to what is on the stack; its upvalues are new or those of a closure on the stack. */
    predicate FromStack(b: Obj)
      reads `objs, `cells
    {
      match b
      case Str => true
      case Udata(meta, uv) => OnStack(meta) && OnStack(uv)
      case Table(_, meta, arr, hash) =>
        OnStack(meta) && (forall v | v in arr :: OnStack(v))
          && (forall e | e in hash :: OnStack(e.key) && OnStack(e.val))
      case LClosure(proto, upvals) =>
        OnStack(proto) && forall c | c in upvals :: c in cells && (cells[c].Coll? ==> SharedOnStack(c))
      case CClosure(upvalues) => forall v | v in upvalues :: OnStack(v)
      case Thread(stack) => forall v | v in stack :: OnStack(v)
      case Proto(consts) => forall v | v in consts :: OnStack(v)
    }

    predicate SharedOnStack(c: Cell)
      reads `objs
    {
      exists v | v in Stack() :: v.Coll? && v.ref in objs && objs[v.ref].LClosure? && c in objs[v.ref].upvals
    }

    lemma FromStackAlive(b: Obj)
      requires Valid() && FromStack(b)
      ensures HoldsOnly(b, cells, Alive()) && HoldsOnly(b, cells, objs.Keys)
      ensures b.LClosure? ==> forall c :: c in b.upvals ==> c in cells
    {
      StackAlive();
      forall v | Holds(b, cells, v) && v.Coll? ensures In(v, Alive()) && In(v, objs.Keys) {
        if b.LClosure? && v != b.proto {
          var i :| 0 <= i < |b.upvals| && b.upvals[i] in cells && v == cells[b.upvals[i]];
          var w :| w in Stack() && w.Coll? && w.ref in objs && objs[w.ref].LClosure?
            && b.upvals[i] in objs[w.ref].upvals;
          HeldAlive(w.ref, v);
        } else {
          assert OnStack(v);
        }
      }
    }

    /** A new closed upvalue, not yet used by any closure. */
    method NewCell(c: Cell)
      requires Valid() && c !in cells
      modifies `cells
      ensures Valid() && cells == old(cells)[c := Nil]
    {
      CellBase(objs, cells, marks, currentwhite, mainthread, Roots(), allgc, fixedgc, c, Nil);
      if Marking() {
        NoneDead(objs, cells, marks, currentwhite);
        CellTri(objs, cells, marks, GrayLists(false, []), c, Nil);
      }
      cells := cells[c := Nil];
    }

    /**
     Assigns the value at stack position `j` to upvalue `u` of the closure at position `i`, with `luaC_upvalbarrier`.
     */
    method SetUpvalue(i: nat, u: nat, j: nat)
      requires Valid() && i < |Stack()| && j < |Stack()| && Stack()[i].Coll?
      requires Stack()[i].ref in objs && objs[Stack()[i].ref].LClosure? && u < |objs[Stack()[i].ref].upvals|
      modifies `cells, `marks, `gray
      ensures Valid() && Alive() == old(Alive())
      ensures cells == old(cells)[objs[Stack()[i].ref].upvals[u] := Stack()[j]]
    {
      StackAlive();
      var c, v := objs[Stack()[i].ref].upvals[u], Stack()[j];
      CellBase(objs, cells, marks, currentwhite, mainthread, Roots(), allgc, fixedgc, c, v);
      ghost var cells0, m0, L := cells, marks, GrayLists(false, []);
      cells := cells[c := v];
      if Marking() {
        NoneDead(objs, cells0, marks, currentwhite);
        CellTri(objs, cells0, marks, L, c, v);
        if v.Coll? && marks[v.ref].White? {
          UpvalueBarrier(v, cells0, c);
        }
      }
    }

    /** The barrier for closed upvalues, whose closures may have any colour: the new value is marked. */
    method UpvalueBarrier(v: Value, ghost cells0: Cells, ghost c: Cell)
      requires BaseOk() && Marking() && SweepingOk() && AllCurrent(marks, currentwhite) && mainthread in Marked(marks)
      requires Tri(objs, cells0, marks, GrayLists(false, []), objs.Keys) && Sound(objs, cells0)
      requires cells == cells0[c := v] && v.Coll? && v.ref in objs && marks[v.ref].White?
      modifies `marks, `gray
      ensures Valid() && Alive() == old(Alive())
    {
      hide Base, Coloured, Linked;
      ghost var m0, L := marks, GrayLists(false, []);
      CellTri(objs, cells0, m0, L, c, v);
      ReallyMarkObject(v.ref, objs.Keys);
      CellMarked(objs, cells0, m0, L, marks, gray, c, v);
      MarkStepGrows(objs, cells, m0, L.gray, marks, gray, objs.Keys);
      GrowsBase(objs, cells, m0, marks, currentwhite, mainthread, Roots(), allgc, fixedgc);
      assert L.gray != [] ==> L.gray[0] in gray;
    }

    /** A string found in the string table is used again: if it was dead it is given the current white. */
    method InternHit(o: Ref)
      requires Valid() && o in objs && objs[o].Str?
      modifies `objs, `marks
      ensures Valid() && objs == old(objs)[mainthread := Thread(old(Stack()) + [Coll(o)])]
      ensures marks == if old(marks)[o] == White(!currentwhite) then old(marks)[o := White(currentwhite)]
        else old(marks)
    {
      if marks[o] == White(!currentwhite) {
        Resurrect(objs, cells, marks, currentwhite, mainthread, Roots(), allgc, fixedgc, o);
        assert !Marking();
        marks := marks[o := White(currentwhite)];
      }
      SetStack(Stack() + [Coll(o)], Coll(o));
    }

    /** `luaC_fix`, used on strings while the state is being created: the object will never be collected. */
    method Fix(o: Ref)
      requires Valid() && gcstate == GCSpause && allgc != [] && allgc[0] == o && objs[o].Str?
      modifies `marks, `allgc, `fixedgc
      ensures Valid() && fixedgc == [o] + old(fixedgc) && marks == old(marks)[o := Gray]
    {
      FixBase(objs, cells, marks, currentwhite, mainthread, Roots(), allgc, fixedgc);
      marks := marks[o := Gray];
      allgc, fixedgc := allgc[1..], [o] + fixedgc;
    }

    // ----- whole cycles -----

    /** `luaC_runtilstate(L, bitmask(GCSpause))` from a state that marks nothing more. */
    method FinishCycle()
      requires Valid() && !Marking()
      modifies `objs, `marks, `gray, `grayagain, `weak, `allweak, `ephemeron, `gcstate, `currentwhite, `allgc, `sweepgc
      ensures Valid() && gcstate == GCSpause && Alive() == old(Alive()) == objs.Keys
      ensures objs.Keys <= old(objs).Keys && forall o :: o in objs ==> objs[o] == old(objs)[o]
    {
      while gcstate != GCSpause
        invariant Valid() && !Marking() && Alive() == old(Alive())
        invariant objs.Keys <= old(objs).Keys && forall o :: o in objs ==> objs[o] == old(objs)[o]
        decreases Rank(), Unmarked(), ToDo()
      {
        SingleStep({});
      }
      PausedMarks(objs, cells, marks, currentwhite, mainthread, Roots(), allgc, fixedgc);
    }

    /** A collection from its start to the call of finalizers. */
    method RunCycle(ghost S: set<Ref>)
      requires Valid() && gcstate == GCSpause && Bounds(S)
      modifies `objs, `marks, `gray, `grayagain, `weak, `allweak, `ephemeron, `gcstate, `currentwhite, `allgc, `sweepgc
      ensures Valid() && gcstate == GCScallfin
      ensures Collected(old(objs), objs, cells, Alive(), Roots(), S)
    {
      ghost var objs0 := objs;
      SingleStep(S);
      while gcstate != GCScallfin
        invariant Valid() && gcstate != GCSpause && InCycle(objs0, S)
        decreases Rank(), Unmarked(), ToDo()
      {
        CycleStep(objs0, S);
      }
    }

    /** Marking within `S`, or done with it. */
    ghost predicate InCycle(objs0: Heap, S: set<Ref>)
      reads this
    {
      if Marking() then objs == objs0 && Bounds(S) else Collected(objs0, objs, cells, Alive(), Roots(), S)
    }

    method CycleStep(ghost objs0: Heap, ghost S: set<Ref>)
      requires Valid() && gcstate !in {GCSpause, GCScallfin} && InCycle(objs0, S)
      modifies `objs, `marks, `gray, `grayagain, `weak, `allweak, `ephemeron, `gcstate, `currentwhite, `allgc, `sweepgc
      ensures Valid() && gcstate != GCSpause && InCycle(objs0, S)
      ensures || Rank() < old(Rank())
              || (Rank() == old(Rank()) && Unmarked() < old(Unmarked()))
              || (Rank() == old(Rank()) && Unmarked() == old(Unmarked()) && ToDo() < old(ToDo()))
    {
      SingleStep(S);
    }

    /**
     `luaC_fullgc`: what is left is exactly what the roots kept alive, and the fixed strings; weak
     entries are gone iff they were about objects that are gone.
     */
    method FullGC()
      requires Valid()
      modifies `objs, `marks, `gray, `grayagain, `weak, `allweak, `ephemeron, `gcstate, `currentwhite, `allgc, `sweepgc
      ensures Valid() && gcstate == GCSpause
      ensures objs.Keys == LiveSet(old(objs), cells, Roots()) + (set o | o in fixedgc)
      ensures forall o :: o in objs ==> o in old(objs)
      ensures forall o :: o in objs ==> objs[o] == Purged(old(objs), old(objs)[o], objs.Keys)
    {
      hide Base, MarkingOk, SweepingOk, Bounds, Collected, LiveSet, Purged, AliveSet, Roots, Alive, Closed, Sound,
        Marked, Markable, BaseOk;
      ghost var objs0 := objs;
      if Marking() {
        EnterSweep();  // sweep everything to turn black objects back to white
      }
      FinishCycle();
      ghost var objs1 := objs;
      ghost var fixed := set o | o in fixedgc;
      FixedBounds();
      RunCycle(LiveSet(objs, cells, Roots()) + fixed);
      ghost var objs2 := objs;
      FinishCycle();
      FixedBounds();
      CollectedExactly(objs0, objs1, objs2, objs, cells, Roots(), fixed);
    }

    /** Between cycles only the fixed strings are marked. */
    lemma FixedBounds()
      requires Valid() && gcstate == GCSpause
      ensures Bounds(LiveSet(objs, cells, Roots()) + set o | o in fixedgc) && Sound(objs, cells)
      ensures Roots() <= objs.Keys && (set o | o in fixedgc) <= objs.Keys
    {
      PausedMarks(objs, cells, marks, currentwhite, mainthread, Roots(), allgc, fixedgc);
      LiveBounds(objs, cells, Roots(), set o | o in fixedgc);
    }

    // ----- runs -----

    /** Nothing the program can reach has been freed or is about to be. */
    lemma Safe()
      requires Valid()
      ensures forall o :: Reachable(objs, cells, Roots(), o) ==> o in Alive() && o in objs
    {
      ReachableAlive(objs, cells, marks, currentwhite, Roots());
    }

    /** What is marked, the roots, and what they keep alive: what the current cycle may mark. */
    ghost function Reach(): set<Ref>
      reads this
    {
      LiveSet(objs, cells, Roots() + Marked(marks))
    }

    lemma ReachBounds()
      requires Valid() && (Marking() || gcstate == GCSpause)
      ensures Bounds(Reach()) && Sound(objs, cells)
    {
      hide Closed, Live, Tri;
      if gcstate == GCSpause {
        PausedMarks(objs, cells, marks, currentwhite, mainthread, Roots(), allgc, fixedgc);
      } else {
        NoneDead(objs, cells, marks, currentwhite);
      }
      LiveSetClosed(objs, cells, Roots() + Marked(marks));
    }

    /**
     A step of the collector as the program sees it: no live object goes, nothing becomes live, and only dead weak
     entries change. The cycle begins or gets closer to its end, and collects what it cannot reach.
     */
    method Step()
      requires Valid()
      modifies `objs, `marks, `gray, `grayagain, `weak, `allweak, `ephemeron, `gcstate, `currentwhite, `allgc, `sweepgc
      ensures Valid()
      ensures forall o :: Live(old(objs), cells, Roots(), o) ==> o in Alive() && o in objs
      ensures forall o :: o in Alive() ==>
        o in old(objs) && objs[o] in {old(objs)[o], Purged(old(objs), old(objs)[o], Alive())}
      ensures LiveSet(objs, cells, Roots()) <= LiveSet(old(objs), cells, Roots())
      ensures old(gcstate) == GCSpause ==> gcstate == GCSpropagate
      ensures old(gcstate) != GCSpause ==>
                || Rank() < old(Rank())
                || (Rank() == old(Rank()) && Unmarked() < old(Unmarked()))
                || (Rank() == old(Rank()) && Unmarked() == old(Unmarked()) && ToDo() < old(ToDo()))
      ensures old(gcstate) in {GCSpause, GCSpropagate} ==>
        Marking() && objs == old(objs) && Marked(marks) <= old(Reach())
      ensures old(gcstate) == GCSatomic ==> gcstate == GCSswpallgc && Alive() <= old(Reach())
      ensures old(gcstate) !in {GCSpause, GCSpropagate, GCSatomic} ==> !Marking() && Alive() == old(Alive())
    {
      hide Closed, LiveSet, Tri, Purged, Base, MarkingOk, Marked, Bounds, Roots;
      ghost var objs0, S, st := objs, Reach(), gcstate;
      if Marking() || gcstate == GCSpause {
        ReachBounds();
      }
      forall o | Live(objs, cells, Roots(), o) ensures Reachable(objs, cells, Roots(), o) {
        LiveReachable(objs, cells, Roots(), o);
      }
      Safe();
      SingleStep(S);
      AtomicRoots();
      if st == GCSatomic {
        assert forall o :: Live(objs0, cells, Roots(), o) ==> o in Alive();
        LivePurged(objs0, objs, cells, Roots(), Alive());
      } else {
        LiveSwept(objs0, objs, cells, Roots());
      }
    }

    lemma AtomicRoots()
      requires Valid()
      ensures Roots() <= Alive() <= objs.Keys
    {
    }

    /** `S` bounds what the current cycle leaves. */
    ghost predicate Within(S: set<Ref>)
      reads this
    {
      if Marking() || gcstate == GCSpause then Reach() <= S else Alive() <= S
    }

    /** A step keeps the bound, and the end of the cycle leaves nothing else. */
    method StepWithin(ghost S: set<Ref>)
      requires Valid() && Within(S)
      modifies `objs, `marks, `gray, `grayagain, `weak, `allweak, `ephemeron, `gcstate, `currentwhite, `allgc, `sweepgc
      ensures Valid() && if gcstate == GCSpause then objs.Keys <= S else Within(S)
      ensures old(gcstate) == GCSpause ==> gcstate == GCSpropagate
      ensures old(gcstate) != GCSpause ==>
                || Rank() < old(Rank())
                || (Rank() == old(Rank()) && Unmarked() < old(Unmarked()))
                || (Rank() == old(Rank()) && Unmarked() == old(Unmarked()) && ToDo() < old(ToDo()))
    {
      hide Closed, LiveSet, Tri, Purged, Base, MarkingOk, Marked, Live, Roots, Alive;
      ghost var R := Reach();
      if Marking() || gcstate == GCSpause {
        ReachBounds();
      }
      Step();
      if Marking() {
        BoundKept(R);
      } else if gcstate == GCSpause {
        PausedAlive();
      }
    }

    lemma BoundKept(R: set<Ref>)
      requires Roots() <= R && Marked(marks) <= R && Closed(objs, cells, R)
      ensures Reach() <= R
    {
      LiveWithin(objs, cells, Roots() + Marked(marks), R);
    }

    lemma PausedAlive()
      requires Valid() && gcstate == GCSpause
      ensures Alive() == objs.Keys && Marked(marks) == set o | o in fixedgc
    {
      PausedMarks(objs, cells, marks, currentwhite, mainthread, Roots(), allgc, fixedgc);
    }

    /**
     Steps alone collect: the rest of the cycle that is going on and one more, `n` steps, free every object that was
     not live, other than the fixed strings.
     */
    method CollectBySteps() returns (n: nat)
      requires Valid()
      modifies `objs, `marks, `gray, `grayagain, `weak, `allweak, `ephemeron, `gcstate, `currentwhite, `allgc, `sweepgc
      ensures Valid() && gcstate == GCSpause
      ensures forall o :: o in objs ==> Live(old(objs), cells, Roots(), o) || o in fixedgc
    {
      hide Closed, Tri, Purged, Base, MarkingOk, Marked, Live, Roots, Alive;
      ghost var L := LiveSet(objs, cells, Roots());
      n := 0;
      while gcstate != GCSpause
        invariant Valid() && LiveSet(objs, cells, Roots()) <= L
        decreases Rank(), Unmarked(), ToDo()
      {
        Step();
        n := n + 1;
      }
      ghost var S := LiveSet(objs, cells, Roots()) + set o | o in fixedgc;
      FixedBounds();
      PausedAlive();
      BoundKept(S);
      StepWithin(S);
      n := n + 1;
      while gcstate != GCSpause
        invariant Valid() && if gcstate == GCSpause then objs.Keys <= S else Within(S)
        decreases Rank(), Unmarked(), ToDo()
      {
        StepWithin(S);
        n := n + 1;
      }
    }

    /** While nothing is dead, the allocated objects bound what can be marked. */
    lemma CurrentBounds()
      requires Valid() && (Marking() || gcstate == GCSpause)
      ensures Bounds(objs.Keys)
    {
      if gcstate == GCSpause {
        PausedMarks(objs, cells, marks, currentwhite, mainthread, Roots(), allgc, fixedgc);
      } else {
        NoneDead(objs, cells, marks, currentwhite);
      }
    }

    /** The operation is possible: operands exist and are of the right kind. */
    predicate Legal(op: Op)
      reads this
    {
      match op
      case OpNew(o, b) => o !in objs && FromStack(b)
      case OpNewCell(c) => c !in cells
      case OpLoad(i, s) => Operand(i) && HasSlot(objs[Stack()[i].ref], cells, s)
      case OpLoadRoot(k) => k.Some? ==> k.value < |mt|
      case OpPop(n) => n <= |Stack()|
      case OpStore(i, s, j) => Operand(i) && j < |Stack()| && Writable(objs[Stack()[i].ref], cells, s)
      case OpNewKey(i, j, k) => Operand(i) && j < |Stack()| && k < |Stack()| && Stack()[j] != Nil
        && objs[Stack()[i].ref].Table?
      case OpStoreRoot(k, j) => j < |Stack()| && (k.Some? ==> k.value < |mt|)
      case OpSetUpvalue(i, u, j) =>
        Operand(i) && j < |Stack()| && objs[Stack()[i].ref].LClosure? && u < |objs[Stack()[i].ref].upvals|
      case OpInternHit(o) => o in objs && objs[o].Str?
      case OpFix(o) => gcstate == GCSpause && allgc != [] && allgc[0] == o && o in objs && objs[o].Str?
      case OpStep => true
      case OpFullGC => true
    }

    predicate Operand(i: nat)
      reads `objs
    {
      i < |Stack()| && Stack()[i].Coll? && Stack()[i].ref in objs
    }

    /** What the program has: the heap, the closed upvalues and the roots. */
    function Seen(): (v: View)
      reads `objs, `cells, `registry, `mt
    {
      View(objs, cells, registry, mt)
    }

    /** What an operation of the program does to it. */
    function Effect(op: Op): (v: View)
      requires Legal(op) && mainthread in objs
      reads this
    {
      var st := Stack();
      match op
      case OpNew(o, b) => Seen().(objs := objs[o := b][mainthread := Thread(st + [Coll(o)])])
      case OpNewCell(c) => Seen().(cells := cells[c := Nil])
      case OpLoad(i, s) =>
        Seen().(objs := objs[mainthread := Thread(st + [Peek(objs[st[i].ref], cells, s)])])
      case OpLoadRoot(k) =>
        Seen().(objs := objs[mainthread := Thread(st + [if k.Some? then mt[k.value] else registry])])
      case OpPop(n) => Seen().(objs := objs[mainthread := Thread(st[..|st| - n])])
      case OpStore(i, s, j) => Seen().(objs := objs[st[i].ref := Poke(objs[st[i].ref], cells, s, st[j])])
      case OpNewKey(i, j, k) => Seen().(objs := objs[st[i].ref := AddEntry(objs[st[i].ref], cells, st[j], st[k])])
      case OpStoreRoot(k, j) =>
        if k.Some? then Seen().(mt := mt[k.value := st[j]]) else Seen().(registry := st[j])
      case OpSetUpvalue(i, u, j) => Seen().(cells := cells[objs[st[i].ref].upvals[u] := st[j]])
      case OpInternHit(o) => Seen().(objs := objs[mainthread := Thread(st + [Coll(o)])])
      case OpFix(_) => Seen()
      case OpStep => Seen()
      case OpFullGC => Seen()
    }

    /** Operations have their effect; the collector changes what is in use only by clearing dead weak entries. */
    method Perform(op: Op)
      requires Valid() && Legal(op)
      modifies this
      ensures Valid()
      ensures !(op.OpStep? || op.OpFullGC?) ==> Seen() == old(Effect(op))
      ensures op.OpStep? || op.OpFullGC? ==>
        Seen() == old(Seen()).(objs := objs) && forall o :: o in Alive() ==>
          o in old(objs) && objs[o] in {old(objs)[o], Purged(old(objs), old(objs)[o], Alive())}
    {
      hide Valid, Alive, Roots, Purged, Live, LiveSet, Reach, HasSlot, Writable, Peek, Poke, AddEntry, FromStack;
      match op
      case OpNew(o, b) => NewObject(o, b);
      case OpNewCell(c) => NewCell(c);
      case OpLoad(i, s) => Load(i, s);
      case OpLoadRoot(k) => LoadRoot(k);
      case OpPop(n) => Pop(n);
      case OpStore(i, s, j) => Store(i, s, j);
      case OpNewKey(i, j, k) => NewKey(i, j, k);
      case OpStoreRoot(k, j) => StoreRoot(k, j);
      case OpSetUpvalue(i, u, j) => SetUpvalue(i, u, j);
      case OpInternHit(o) => InternHit(o);
      case OpFix(o) => Fix(o);
      case OpStep => Step();
      case OpFullGC =>
        FullGC();
        PausedAlive();
    }

    /** Any interleaving of the program and the collector keeps the invariant, so nothing in use is ever freed. */
    method Run(ops: seq<Op>)
      requires Valid()
      modifies this
      ensures Valid()
      ensures forall o :: Reachable(objs, cells, Roots(), o) ==> o in objs
    {
      for i := 0 to |ops|
        invariant Valid()
      {
        if Legal(ops[i]) {
          Perform(ops[i]);
        }
      }
      Safe();
    }
  }
}
