/**
 What the atomic step of lgc.c leaves of weak tables, and why the marked objects then refer only to
 marked ones.
 */
module GcClear {
  import opened Sequences

  import opened GcHeap
  import opened GcColor

  ghost predicate WeakTable(b: Obj) {
    b.Table? && b.mode != Strong
  }

  /** All that is needed to clear a weak table of unmarked objects, for the set `M` of marked objects. */
  ghost predicate Ready(objs: Heap, b: Obj, M: set<Ref>)
    requires WeakTable(b)
  {
    && In(b.meta, M)
    && (match b.mode
        case Strong => false
        case WeakValues => KeysMarked(b, M) && StringValuesMarked(objs, b, M)
        case Ephemeron => EphemeronDone(objs, b, M)
        case AllWeak =>
          && StringValuesMarked(objs, b, M)
          && (forall i :: 0 <= i < |b.hash| && b.hash[i].val != Nil ==> AllWeakFollows(objs, b.hash[i], M)))
  }

  /** A cleared table refers to marked objects only, and keeps alive nothing else. */
  lemma ReadySurvives(objs: Heap, cells: Cells, b: Obj, M: set<Ref>)
    requires WeakTable(b) && Ready(objs, b, M)
    ensures Follows(objs, cells, b, M)
    ensures HoldsOnly(Purged(objs, b, M), cells, M)
  {
    var p := Purged(objs, b, M);
    forall v | Holds(p, cells, v) && v.Coll? ensures In(v, M) {
      if v != p.meta && v !in p.arr {
        var i :| 0 <= i < |p.hash| && InEntry(p.hash[i], v);
        assert b.hash[i].val != Nil;
        if b.mode.Ephemeron? {
          assert EphemeronFollows(objs, b.hash[i], M);
        } else if b.mode.AllWeak? {
          assert AllWeakFollows(objs, b.hash[i], M);
        }
      } else if v != p.meta {
        var i :| 0 <= i < |p.arr| && p.arr[i] == v;
        assert b.arr[i] == v;
      }
    }
  }

  /** The contents of an object after the unmarked values have been cleared from the weak tables among `M`. */
  function WithoutValues(objs: Heap, b: Obj, M: set<Ref>): Obj {
    if b.Table? && (b.mode.WeakValues? || b.mode.AllWeak?) then ClearedValues(objs, b, M) else b
  }

  /** Every gray object that is not linked for a traversal is settled. */
  lemma SettledAt(objs: Heap, cells: Cells, m: Marks, L: Lists, S: set<Ref>, o: Ref)
    requires Tri(objs, cells, m, L, S) && L.gray == [] && L.later == []
    requires o in objs && !m[o].White? && !MayBeBlack(objs[o])
    ensures Settled(objs, Marked(m), o, L) && o in S
  {
    assert Coloured(objs, cells, m, L, o);
  }

  lemma LinkedMarked(objs: Heap, cells: Cells, m: Marks, L: Lists, S: set<Ref>, o: Ref)
    requires Tri(objs, cells, m, L, S) && L.gray == [] && L.later == [] && L.Links(o) == 1
    ensures o in objs && m[o].Gray? && WeakTable(objs[o]) && Settled(objs, Marked(m), o, L)
  {
    SettledAt(objs, cells, m, L, S, o);
  }

  /** The tables whose values are to be cleared can be. */
  lemma ValuesClearable(objs: Heap, cells: Cells, m: Marks, L: Lists, S: set<Ref>, t: Ref)
    requires Tri(objs, cells, m, L, S) && L.gray == [] && L.later == [] && Sound(objs, cells)
    requires t in L.weak || t in L.allweak
    ensures t in objs && WeakTable(objs[t]) && ValuesMarked(objs[t], objs.Keys) && StringValuesMarked(objs, objs[t], S)
  {
    LinkedMarked(objs, cells, m, L, S, t);
    assert t in Marked(m);
    HeldByTable(objs, cells, t);
    assert Follows(objs, cells, objs[t], S);
    if objs[t].mode.AllWeak? {
      forall i | 0 <= i < |objs[t].hash| && IsStr(objs, objs[t].hash[i].val) ensures In(objs[t].hash[i].val, S) {
        assert AllWeakFollows(objs, objs[t].hash[i], S);
      }
    }
  }

  lemma ValuesPassShrinks(objs0: Heap, objs1: Heap, l: seq<Ref>, M: set<Ref>)
    requires ValuesPass(objs0, objs1, l, M)
    requires forall t :: t in l && t in objs0 ==> WeakTable(objs0[t])
    ensures Shrunk(objs0, objs1)
  {
    forall o | o in objs0 ensures ShrunkObj(objs0[o], objs1[o]) {
    }
  }

  /** Clearing values does nothing to a table whose values are all marked. */
  lemma ClearedValuesIdentity(objs: Heap, b: Obj, M: set<Ref>)
    requires b.Table? && ValuesMarked(b, M)
    ensures ClearedValues(objs, b, M) == b
  {
    forall i | 0 <= i < |b.hash| ensures !Cleared(objs, b.hash[i].val, M) {
    }
  }

  /** Clearing keys does nothing to a table whose keys are all marked. */
  lemma ClearedKeysIdentity(objs: Heap, b: Obj, M: set<Ref>)
    requires b.Table? && KeysMarked(b, M)
    ensures ClearedKeys(objs, b, M) == b
  {
  }

  /** Both passes over values, seen from one object. */
  lemma ValuesCleared(objs0: Heap, objs1: Heap, objs2: Heap, cells: Cells, m0: Marks, m1: Marks, L: Lists,
      S: set<Ref>, o: Ref)
    requires Tri(objs0, cells, m0, L, S) && L.gray == [] && L.later == [] && L.inside && Sound(objs0, cells)
    requires ValuesPass(objs0, objs1, L.weak, Marked(m0)) && StrStep(objs0, m0, m1, S)
    requires ValuesPass(objs1, objs2, L.allweak, Marked(m1))
    requires o in objs0
    ensures objs2[o] == if o in Marked(m0) then WithoutValues(objs0, objs0[o], Marked(m0)) else objs0[o]
  {
    hide Tri, ClearedValues, Settled;
    if o in L.weak || o in L.allweak || o in L.ephemeron {
      LinkedValues(objs0, objs1, objs2, cells, m0, m1, L, S, o);
    } else if o in Marked(m0) && WeakTable(objs0[o]) {
      SettledAt(objs0, cells, m0, L, S, o);
      SettledValues(objs0, Marked(m0), L, o);
      ClearedValuesIdentity(objs0, objs0[o], Marked(m0));
    }
  }

  lemma SettledValues(objs: Heap, M: set<Ref>, L: Lists, o: Ref)
    requires o in objs && WeakTable(objs[o]) && Settled(objs, M, o, L) && o !in L.weak && o !in L.allweak
    requires o !in L.ephemeron
    ensures ValuesMarked(objs[o], M)
  {
  }

  lemma LinkedValues(objs0: Heap, objs1: Heap, objs2: Heap, cells: Cells, m0: Marks, m1: Marks, L: Lists,
      S: set<Ref>, o: Ref)
    requires Tri(objs0, cells, m0, L, S) && L.gray == [] && L.later == [] && L.inside && Sound(objs0, cells)
    requires ValuesPass(objs0, objs1, L.weak, Marked(m0)) && StrStep(objs0, m0, m1, S)
    requires ValuesPass(objs1, objs2, L.allweak, Marked(m1))
    requires o in objs0 && (o in L.weak || o in L.allweak || o in L.ephemeron)
    ensures o in Marked(m0) && objs2[o] == WithoutValues(objs0, objs0[o], Marked(m0))
  {
    assert L.Links(o) == 1;
    LinkedMarked(objs0, cells, m0, L, S, o);
    HeldByTable(objs0, cells, o);
    ListedOnce(objs0, m0, L, o);
    hide Tri, Linked, Settled, ClearedValues;
    var b := objs0[o];
    if o in L.allweak && b.mode.AllWeak? {
      ClearedValuesSame(objs0, objs1, b, m0, m1, S);
    } else if o in L.allweak {
      SettledEphemeron(objs0, Marked(m0), L, o);
      ClearedValuesIdentity(objs1, b, Marked(m1));
    }
  }

  lemma SettledEphemeron(objs: Heap, M: set<Ref>, L: Lists, o: Ref)
    requires HasMode(objs, o, Ephemeron) && Settled(objs, M, o, L) && o !in L.ephemeron
    ensures ValuesMarked(objs[o], M)
  {
  }

  /** A table is in one list, that of its mode. */
  lemma ListedOnce(objs: Heap, m: Marks, L: Lists, o: Ref)
    requires Linked(objs, m, L) && (o in L.weak || o in L.allweak || o in L.ephemeron)
    ensures o in L.weak ==> o !in L.allweak && HasMode(objs, o, WeakValues)
    ensures o in L.ephemeron ==> o !in L.weak && o !in L.allweak && HasMode(objs, o, Ephemeron)
    ensures o in L.allweak ==> o !in L.weak && o !in L.ephemeron
    ensures o in L.allweak ==> HasMode(objs, o, AllWeak) || HasMode(objs, o, Ephemeron)
  {
    assert L.Links(o) <= 1;
  }

  /** What is known of a weak table once values have been cleared. */
  ghost predicate ReadyButKeys(objs: Heap, b: Obj, M: set<Ref>)
    requires WeakTable(b)
  {
    In(b.meta, M) && (b.mode.WeakValues? ==> KeysMarked(b, M))
      && (!b.mode.Ephemeron? ==> StringValuesMarked(objs, b, M))
  }

  /** Clearing values leaves the strings where they are. */
  lemma StringsStay(objs: Heap, b: Obj, M: set<Ref>, M1: set<Ref>)
    requires b.Table? && StringValuesMarked(objs, ClearedValues(objs, b, M), M1)
    ensures StringValuesMarked(objs, b, M1)
  {
    var c := ClearedValues(objs, b, M);
    forall i | 0 <= i < |b.arr| && IsStr(objs, b.arr[i]) ensures In(b.arr[i], M1) {
      assert c.arr[i] == b.arr[i];
    }
    forall i | 0 <= i < |b.hash| && IsStr(objs, b.hash[i].val) ensures In(b.hash[i].val, M1) {
      assert c.hash[i].val == b.hash[i].val;
    }
  }

  lemma ReadyAfterValues(objs0: Heap, objs1: Heap, objs2: Heap, cells: Cells, m0: Marks, m1: Marks, m2: Marks,
      L: Lists, S: set<Ref>, o: Ref)
    requires Tri(objs0, cells, m0, L, S) && L.gray == [] && L.later == [] && L.inside && Sound(objs0, cells)
    requires ValuesPass(objs0, objs1, L.weak, Marked(m0)) && StrStep(objs0, m0, m1, S)
    requires ValuesPass(objs1, objs2, L.allweak, Marked(m1)) && StrStep(objs1, m1, m2, S)
    requires AllStringValues(objs0, objs1, L.weak, Marked(m1))
    requires AllStringValues(objs1, objs2, L.allweak, Marked(m2))
    requires o in Marked(m0) && WeakTable(objs0[o])
    ensures ReadyButKeys(objs0, objs0[o], Marked(m2))
  {
    StrStepTrans(objs0, objs1, m0, m1, m2, S);
    SettledAt(objs0, cells, m0, L, S, o);
    if o in L.weak {
      StringsStay(objs0, objs0[o], Marked(m0), Marked(m1));
    } else if o in L.allweak && objs0[o].mode.AllWeak? {
      StringsStay(objs1, objs0[o], Marked(m1), Marked(m2));
    }
  }

  /** The tables whose keys are to be cleared can be. */
  lemma KeysClearable(objs: Heap, cells: Cells, m: Marks, L: Lists, S: set<Ref>, t: Ref)
    requires Tri(objs, cells, m, L, S) && L.gray == [] && L.later == [] && Sound(objs, cells)
    requires t in L.ephemeron || t in L.allweak
    requires ValuesMarked(objs[t], Marked(m)) || objs[t].mode.Ephemeron?
    ensures t in objs && WeakTable(objs[t]) && KeysMarked(objs[t], objs.Keys) && StringKeysMarked(objs, objs[t], S)
  {
    LinkedMarked(objs, cells, m, L, S, t);
    assert t in Marked(m);
    HeldByTable(objs, cells, t);
    assert Follows(objs, cells, objs[t], S);
    var b := objs[t];
    forall i | 0 <= i < |b.hash| && b.hash[i].val != Nil && IsStr(objs, b.hash[i].key) ensures In(b.hash[i].key, S) {
      if b.mode.AllWeak? {
        assert AllWeakFollows(objs, b.hash[i], S);
      } else {
        assert EphemeronFollows(objs, b.hash[i], S);
      }
    }
  }

  predicate ClearsKeys(b: Obj) {
    b.Table? && (b.mode.Ephemeron? || b.mode.AllWeak?)
  }

  /** Both passes over keys, seen from one object. */
  lemma KeysCleared(objs0: Heap, objs1: Heap, objs2: Heap, cells: Cells, m0: Marks, m1: Marks, L: Lists, S: set<Ref>,
      o: Ref)
    requires Tri(objs0, cells, m0, L, S) && L.gray == [] && L.later == [] && L.inside && Sound(objs0, cells)
    requires KeysPass(objs0, objs1, L.ephemeron, Marked(m0)) && StrStep(objs0, m0, m1, S)
    requires KeysPass(objs1, objs2, L.allweak, Marked(m1))
    requires o in objs0
    ensures objs2[o] == if o in Marked(m0) && ClearsKeys(objs0[o]) then ClearedKeys(objs0, objs0[o], Marked(m0))
      else objs0[o]
  {
    var b := objs0[o];
    if o in L.weak || o in L.allweak || o in L.ephemeron {
      assert L.Links(o) == 1;
      LinkedMarked(objs0, cells, m0, L, S, o);
      HeldByTable(objs0, cells, o);
      if o in L.allweak {
        ClearedKeysSame(objs0, objs1, b, m0, m1, S);
      }
    } else if o in Marked(m0) && WeakTable(b) {
      SettledAt(objs0, cells, m0, L, S, o);
      if b.mode.Ephemeron? {
        ClearedKeysIdentity(objs0, b, Marked(m0));
      }
    }
  }

  /** String keys of surviving entries end up marked. */
  lemma KeyStringsMarked(objs0: Heap, objs1: Heap, objs2: Heap, cells: Cells, m0: Marks, m1: Marks, m2: Marks,
      L: Lists, S: set<Ref>, o: Ref)
    requires Tri(objs0, cells, m0, L, S) && L.gray == [] && L.later == [] && L.inside && Sound(objs0, cells)
    requires KeysPass(objs0, objs1, L.ephemeron, Marked(m0)) && StrStep(objs0, m0, m1, S)
    requires KeysPass(objs1, objs2, L.allweak, Marked(m1)) && StrStep(objs1, m1, m2, S)
    requires AllStringKeys(objs0, objs1, L.ephemeron, Marked(m1))
    requires AllStringKeys(objs1, objs2, L.allweak, Marked(m2))
    requires o in Marked(m0) && ClearsKeys(objs0[o])
    ensures StringKeysMarked(objs0, ClearedKeys(objs0, objs0[o], Marked(m0)), Marked(m2))
  {
    StrStepTrans(objs0, objs1, m0, m1, m2, S);
    SettledAt(objs0, cells, m0, L, S, o);
    KeysCleared(objs0, objs1, objs2, cells, m0, m1, L, S, o);
    assert L.Links(o) <= 1;
  }

  /** With its values and its string keys dealt with, a table is ready. */
  lemma ReadyFromParts(objs: Heap, b: Obj, M: set<Ref>)
    requires WeakTable(b) && ReadyButKeys(objs, b, M)
    requires b.mode.Ephemeron? ==> EphemeronDone(objs, b, M)
    requires b.mode.AllWeak? ==> StringKeysMarked(objs, Purged(objs, b, M), M)
    ensures Ready(objs, b, M)
  {
    if b.mode.AllWeak? {
      var p := Purged(objs, b, M);
      forall i | 0 <= i < |b.hash| && b.hash[i].val != Nil ensures AllWeakFollows(objs, b.hash[i], M) {
        if IsStr(objs, b.hash[i].key) && !Cleared(objs, b.hash[i].val, M) {
          assert p.hash[i] == b.hash[i];
        }
      }
    }
  }

  /** A settled ephemeron table, in its list or not, has converged. */
  lemma EphemeronIsDone(objs: Heap, cells: Cells, m: Marks, L: Lists, S: set<Ref>, o: Ref)
    requires Tri(objs, cells, m, L, S) && L.gray == [] && L.later == [] && AllConverged(objs, L.ephemeron, Marked(m))
    requires o in Marked(m) && HasMode(objs, o, Ephemeron)
    ensures EphemeronDone(objs, objs[o], Marked(m))
  {
    SettledAt(objs, cells, m, L, S, o);
  }

  /** After values have been cleared, all the values left are marked. */
  lemma ValuesLeftMarked(objs: Heap, b: Obj, M0: set<Ref>, M: set<Ref>)
    requires WeakTable(b) && !b.mode.Ephemeron? && ReadyButKeys(objs, b, M) && M0 <= M
    ensures ValuesMarked(WithoutValues(objs, b, M0), M)
  {
    var c := ClearedValues(objs, b, M0);
    forall i | 0 <= i < |c.hash| && c.hash[i].val != Nil ensures In(c.hash[i].val, M) {
      assert c.hash[i].val == b.hash[i].val;
    }
    forall i | 0 <= i < |c.arr| ensures In(c.arr[i], M) {
      assert c.arr[i] == Nil || c.arr[i] == b.arr[i];
    }
  }

  /**
   The state between clearing values and clearing keys: `objs1` and `m1` came from `objs0` and
   `m0`, everything marked is coloured, ephemeron tables have converged, values are cleared.
   */
  ghost predicate HalfCleared(objs0: Heap, m0: Marks, objs1: Heap, m1: Marks, cells: Cells, L: Lists, S: set<Ref>) {
    && SameKinds(objs0, objs1) && Sound(objs0, cells) && Sound(objs1, cells) && m0.Keys == objs0.Keys
    && Tri(objs1, cells, m1, L, S) && L.gray == [] && L.later == [] && L.inside
    && AllConverged(objs1, L.ephemeron, Marked(m1))
    && Marked(m0) <= Marked(m1) && StringsOnly(objs0, m0, m1)
    && (forall o {:trigger objs1[o]} :: o in objs1 ==>
          objs1[o] == if o in Marked(m0) then WithoutValues(objs0, objs0[o], Marked(m0)) else objs0[o])
    && (forall o :: o in Marked(m0) && WeakTable(objs0[o]) ==> ReadyButKeys(objs0, objs0[o], Marked(m1)))
  }

  /** The state after both passes over values. */
  lemma HalfClearedNow(objs0: Heap, m0: Marks, objs1: Heap, m1: Marks, objs2: Heap, m2: Marks, cells: Cells, L: Lists,
      S: set<Ref>)
    requires Tri(objs0, cells, m0, L, S) && L.gray == [] && L.later == [] && L.inside && Sound(objs0, cells)
    requires AllConverged(objs0, L.ephemeron, Marked(m0))
    requires ValuesPass(objs0, objs1, L.weak, Marked(m0)) && StrStep(objs0, m0, m1, S)
    requires Tri(objs1, cells, m1, L, S) && Sound(objs1, cells)
    requires ValuesPass(objs1, objs2, L.allweak, Marked(m1)) && StrStep(objs1, m1, m2, S)
    requires AllStringValues(objs0, objs1, L.weak, Marked(m1)) && AllStringValues(objs1, objs2, L.allweak, Marked(m2))
    ensures StrStep(objs0, m0, m2, S) && HalfCleared(objs0, m0, objs2, m2, cells, L, S)
  {
    hide WithoutValues, ReadyButKeys, Tri, Sound;
    forall t | t in L.allweak ensures t in objs1 && WeakTable(objs1[t]) {
      ValuesClearable(objs1, cells, m1, L, S, t);
    }
    ValuesPassShrinks(objs1, objs2, L.allweak, Marked(m1));
    TriShrink(objs1, objs2, cells, m1, m2, L, S);
    StrStepTrans(objs0, objs1, m0, m1, m2, S);
    forall o | o in objs2
      ensures objs2[o] == if o in Marked(m0) then WithoutValues(objs0, objs0[o], Marked(m0)) else objs0[o]
      ensures o in Marked(m0) && WeakTable(objs0[o]) ==> ReadyButKeys(objs0, objs0[o], Marked(m2))
    {
      ValuesCleared(objs0, objs1, objs2, cells, m0, m1, L, S, o);
      if o in Marked(m0) && WeakTable(objs0[o]) {
        ReadyAfterValues(objs0, objs1, objs2, cells, m0, m1, m2, L, S, o);
      }
    }
    AllConvergedGrows(objs0, cells, L.ephemeron, m0, m2);
  }

  /** The two passes over keys, from `objs1` by `objs2` to `objs3`. */
  ghost predicate KeysPhase(objs1: Heap, m1: Marks, objs2: Heap, m2: Marks, objs3: Heap, m3: Marks, L: Lists,
      S: set<Ref>) {
    && m1.Keys == objs1.Keys
    && KeysPass(objs1, objs2, L.ephemeron, Marked(m1)) && StrStep(objs1, m1, m2, S)
    && KeysPass(objs2, objs3, L.allweak, Marked(m2)) && StrStep(objs2, m2, m3, S)
    && AllStringKeys(objs1, objs2, L.ephemeron, Marked(m2))
    && AllStringKeys(objs2, objs3, L.allweak, Marked(m3))
  }

  lemma KeysPhaseGrows(objs1: Heap, m1: Marks, objs2: Heap, m2: Marks, objs3: Heap, m3: Marks, m4: Marks, L: Lists,
      S: set<Ref>)
    requires KeysPhase(objs1, m1, objs2, m2, objs3, m3, L, S) && StrStep(objs3, m3, m4, S)
    ensures KeysPhase(objs1, m1, objs2, m2, objs3, m4, L, S)
    ensures StrStep(objs1, m1, m4, S) && Marked(m1) <= Marked(m4) <= Marked(m1) + S
  {
    StrStepTrans(objs2, objs3, m2, m3, m4, S);
    StrStepTrans(objs1, objs2, m1, m2, m4, S);
  }

  /** After the passes over keys every value of the all-weak list is marked. */
  lemma AllWeakValues(objs0: Heap, m0: Marks, objs1: Heap, m1: Marks, objs2: Heap, m2: Marks, objs3: Heap, m3: Marks,
                      cells: Cells, L: Lists, S: set<Ref>, t: Ref)
    requires HalfCleared(objs0, m0, objs1, m1, cells, L, S)
    requires KeysPhase(objs1, m1, objs2, m2, objs3, m3, L, S)
    requires t in L.allweak
    ensures t in objs3 && objs3[t].Table? && ValuesMarked(objs3[t], Marked(m3))
    ensures ValuesMarked(objs3[t], objs3.Keys) && StringValuesMarked(objs3, objs3[t], S)
  {
    HalfKeysClearable(objs0, m0, objs1, m1, cells, L, S, t);
    PurgedTable(objs0, m0, objs1, m1, objs2, m2, objs3, m3, cells, L, S, t);
    StrStepTrans(objs1, objs2, m1, m2, m3, S);
    assert Marked(m3) <= S;
  }

  /** What a finished mark phase leaves, with `M` the marked objects. */
  ghost predicate Purge(objs0: Heap, objs1: Heap, cells: Cells, M: set<Ref>) {
    && objs0.Keys == objs1.Keys && M <= objs0.Keys
    && (forall o {:trigger objs1[o]} :: o in objs0 ==>
      objs1[o] == if o in M then Purged(objs0, objs0[o], M) else objs0[o])
    && Closed(objs0, cells, M)
    && (forall o {:trigger HoldsOnly(objs1[o], cells, M)} :: o in M ==> HoldsOnly(objs1[o], cells, M))
  }

  /** From the state between to the end, seen from one marked weak table. */
  lemma PurgedTable(objs0: Heap, m0: Marks, objs1: Heap, m1: Marks, objs2: Heap, m2: Marks, objs3: Heap, m3: Marks,
                    cells: Cells, L: Lists, S: set<Ref>, o: Ref)
    requires HalfCleared(objs0, m0, objs1, m1, cells, L, S)
    requires KeysPhase(objs1, m1, objs2, m2, objs3, m3, L, S)
    requires o in Marked(m1) && WeakTable(objs0[o])
    ensures objs3[o] == Purged(objs0, objs0[o], Marked(m3))
    ensures Ready(objs0, objs0[o], Marked(m3))
    ensures o in L.allweak ==> ValuesMarked(objs3[o], Marked(m3))
  {
    hide Purged, Ready, ReadyButKeys;
    var b := objs0[o];
    assert o in Marked(m0);
    StrStepTrans(objs1, objs2, m1, m2, m3, S);
    KeysCleared(objs1, objs2, objs3, cells, m1, m2, L, S, o);
    HeldByTable(objs0, cells, o);
    assert b.mode == objs1[o].mode;
    ReadyButKeysGrows(objs0, b, Marked(m1), Marked(m3));
    SameTests(objs0, m0, objs1, m1, m3, S);
    PurgedSame(objs0, objs1, b, Marked(m0), Marked(m1), Marked(m3));
    if ClearsKeys(b) {
      KeyStringsMarked(objs1, objs2, objs3, cells, m1, m2, m3, L, S, o);
    }
    if b.mode.Ephemeron? {
      EphemeronIsDone(objs1, cells, m1, L, S, o);
      DoneSame(objs0, objs1, b, Marked(m1), Marked(m3));
      SettledAt(objs1, cells, m1, L, S, o);
      assert L.Links(o) <= 1;
    } else {
      ValuesLeftMarked(objs0, b, Marked(m0), Marked(m1));
    }
    ReadyFromParts(objs0, b, Marked(m3));
  }

  lemma ReadyButKeysGrows(objs: Heap, b: Obj, M0: set<Ref>, M1: set<Ref>)
    requires WeakTable(b) && ReadyButKeys(objs, b, M0) && M0 <= M1
    ensures ReadyButKeys(objs, b, M1)
  {
  }

  /** No test of a weak key or value changes from here on. */
  lemma SameTests(objs0: Heap, m0: Marks, objs1: Heap, m1: Marks, m3: Marks, S: set<Ref>)
    requires SameKinds(objs0, objs1) && m0.Keys == m1.Keys == objs0.Keys
    requires Marked(m0) <= Marked(m1) && StringsOnly(objs0, m0, m1) && StrStep(objs1, m1, m3, S)
    ensures forall v :: In(v, objs0.Keys) ==>
      Cleared(objs0, v, Marked(m0)) == Cleared(objs1, v, Marked(m1)) == Cleared(objs0, v, Marked(m3))
  {
  }

  lemma PurgedSame(objs0: Heap, objs1: Heap, b: Obj, M0: set<Ref>, M1: set<Ref>, M3: set<Ref>)
    requires WeakTable(b) && ValuesMarked(b, objs0.Keys) && KeysMarked(b, objs0.Keys)
    requires forall v :: In(v, objs0.Keys) ==> Cleared(objs0, v, M0) == Cleared(objs1, v, M1) == Cleared(objs0, v, M3)
    ensures ClearsKeys(b) ==> ClearedKeys(objs1, WithoutValues(objs0, b, M0), M1) == Purged(objs0, b, M3)
    ensures !ClearsKeys(b) ==> WithoutValues(objs0, b, M0) == Purged(objs0, b, M3)
  {
    var c, p := WithoutValues(objs0, b, M0), Purged(objs0, b, M3);
    forall i | 0 <= i < |b.hash| ensures Cleared(objs0, b.hash[i].val, M0) == Cleared(objs0, b.hash[i].val, M3) {
    }
    forall i | 0 <= i < |b.hash| && ClearsKeys(b) ensures ClearedKey(objs1, c.hash[i], M1) == p.hash[i] {
      if b.hash[i].val != Nil {
        assert In(b.hash[i].key, objs0.Keys);
      }
    }
  }

  lemma DoneSame(objs0: Heap, objs1: Heap, b: Obj, M1: set<Ref>, M3: set<Ref>)
    requires b.Table? && EphemeronDone(objs1, b, M1) && M1 <= M3 && KeysMarked(b, objs0.Keys)
    requires SameKinds(objs0, objs1)
    requires forall v :: In(v, objs0.Keys) ==> Cleared(objs1, v, M1) == Cleared(objs0, v, M3)
    ensures EphemeronDone(objs0, b, M3)
  {
    forall i | 0 <= i < |b.hash| && b.hash[i].val != Nil ensures EphemeronFollows(objs0, b.hash[i], M3) {
      assert EphemeronFollows(objs1, b.hash[i], M1);
    }
  }

  /** The marked objects of any kind. */
  lemma PurgeDone(objs0: Heap, m0: Marks, objs1: Heap, m1: Marks, objs2: Heap, m2: Marks, objs3: Heap, m3: Marks,
                  cells: Cells, L: Lists, S: set<Ref>)
    requires HalfCleared(objs0, m0, objs1, m1, cells, L, S)
    requires KeysPhase(objs1, m1, objs2, m2, objs3, m3, L, S)
    ensures Purge(objs0, objs3, cells, Marked(m3))
  {
    StrStepTrans(objs1, objs2, m1, m2, m3, S);
    var M := Marked(m3);
    forall o | o in objs0
      ensures objs3[o] == if o in M then Purged(objs0, objs0[o], M) else objs0[o]
      ensures o in M ==> Follows(objs0, cells, objs0[o], M) && HoldsOnly(objs3[o], cells, M)
    {
      KeysCleared(objs1, objs2, objs3, cells, m1, m2, L, S, o);
      if o in M && WeakTable(objs0[o]) {
        PurgedTable(objs0, m0, objs1, m1, objs2, m2, objs3, m3, cells, L, S, o);
        ReadySurvives(objs0, cells, objs0[o], M);
      } else if o in M {
        PlainMarked(objs1, cells, m1, m3, L, S, o);
      }
    }
  }

  lemma PlainMarked(objs: Heap, cells: Cells, m1: Marks, m3: Marks, L: Lists, S: set<Ref>, o: Ref)
    requires Tri(objs, cells, m1, L, S) && L.gray == [] && L.later == []
    requires StrStep(objs, m1, m3, S) && o in Marked(m3) && !WeakTable(objs[o])
    ensures HoldsOnly(objs[o], cells, Marked(m3))
  {
    assert Coloured(objs, cells, m1, L, o);
    assert Marked(m1) <= Marked(m3);
  }

  /** A pass over tables whose values are all marked changes nothing. */
  lemma ValuesPassIdentity(objs0: Heap, objs1: Heap, l: seq<Ref>, M: set<Ref>)
    requires ValuesPass(objs0, objs1, l, M)
    requires forall t :: t in l && t in objs0 ==> objs0[t].Table? && ValuesMarked(objs0[t], M)
    ensures objs1 == objs0
  {
    forall o | o in objs0 ensures objs1[o] == objs0[o] {
      if o in l {
        ClearedValuesIdentity(objs0, objs0[o], M);
      }
    }
  }

  lemma HalfKeysClearable(objs0: Heap, m0: Marks, objs1: Heap, m1: Marks, cells: Cells, L: Lists, S: set<Ref>, t: Ref)
    requires HalfCleared(objs0, m0, objs1, m1, cells, L, S) && (t in L.ephemeron || t in L.allweak)
    ensures t in objs1 && KeysMarked(objs1[t], objs1.Keys) && StringKeysMarked(objs1, objs1[t], S)
    ensures t in Marked(m1) && WeakTable(objs0[t])
  {
    assert L.Links(t) == 1;
    LinkedMarked(objs1, cells, m1, L, S, t);
    assert t in Marked(m0);
    if !objs1[t].mode.Ephemeron? {
      ValuesLeftMarked(objs0, objs0[t], Marked(m0), Marked(m1));
    }
    KeysClearable(objs1, cells, m1, L, S, t);
  }

  /** Every table of the all-weak list is ready for another pass over its values. */
  lemma AllWeakListReady(objs0: Heap, m0: Marks, objs1: Heap, m1: Marks, objs2: Heap, m2: Marks, objs3: Heap, m3: Marks,
                         cells: Cells, L: Lists, S: set<Ref>)
    requires HalfCleared(objs0, m0, objs1, m1, cells, L, S)
    requires KeysPhase(objs1, m1, objs2, m2, objs3, m3, L, S)
    ensures ListReady(objs3, L.allweak, Marked(m3), S)
  {
    hide HalfCleared, KeysPhase;
    forall t | t in L.allweak ensures ListReady(objs3, [t], Marked(m3), S) {
      AllWeakValues(objs0, m0, objs1, m1, objs2, m2, objs3, m3, cells, L, S, t);
    }
    assert forall t :: t in L.allweak ==> t in [t];
  }

  ghost predicate ListReady(objs: Heap, l: seq<Ref>, M: set<Ref>, S: set<Ref>) {
    forall t :: t in l ==>
      t in objs && objs[t].Table? && ValuesMarked(objs[t], M) && ValuesMarked(objs[t], objs.Keys)
        && StringValuesMarked(objs, objs[t], S)
  }

  lemma ListsDistinct(objs0: Heap, m0: Marks, objs1: Heap, m1: Marks, cells: Cells, L: Lists, S: set<Ref>)
    requires HalfCleared(objs0, m0, objs1, m1, cells, L, S)
    ensures NoDup(L.allweak)
  {
    hide Coloured, Closed;
  }

  /** The end of the atomic step, after passes over the values of tables that have none to clear. */
  lemma KeysDone(objs0: Heap, m0: Marks, objs1: Heap, m1: Marks, objs2: Heap, m2: Marks, objs3: Heap, m3: Marks,
                 objs4: Heap, m4: Marks, objs5: Heap, m5: Marks, l: seq<Ref>, cells: Cells, L: Lists, S: set<Ref>)
    requires HalfCleared(objs0, m0, objs1, m1, cells, L, S)
    requires KeysPhase(objs1, m1, objs2, m2, objs3, m3, L, S) && ListReady(objs3, L.allweak, Marked(m3), S)
    requires ValuesPass(objs3, objs4, [], Marked(m3)) && StrStep(objs3, m3, m4, S)
    requires ValuesPass(objs4, objs5, l, Marked(m4)) && StrStep(objs4, m4, m5, S)
    requires forall t :: t in l ==> t in L.allweak
    ensures Purge(objs0, objs5, cells, Marked(m5)) && StrStep(objs1, m1, m5, S) && Marked(m1) <= Marked(m5) <= S
  {
    hide ValuesPass, KeysPhase;
    ValuesPassIdentity(objs3, objs4, [], Marked(m3));
    StrStepTrans(objs3, objs3, m3, m4, m5, S);
    ValuesPassIdentity(objs4, objs5, l, Marked(m4));
    KeysPhaseGrows(objs1, m1, objs2, m2, objs3, m3, m5, L, S);
    PurgeDone(objs0, m0, objs1, m1, objs2, m2, objs3, m5, cells, L, S);
  }

  /** Convergence with nothing left to mark keeps the state between the two kinds of clearing. */
  lemma HalfClearedConverge(objs0: Heap, m0: Marks, objs1: Heap, m1: Marks, m2: Marks, cells: Cells, L1: Lists,
      L2: Lists, S: set<Ref>)
    requires HalfCleared(objs0, m0, objs1, m1, cells, L1, S)
    requires Tri(objs1, cells, m2, L2, S) && L2.gray == [] && L2.later == [] && L2.inside
    requires AllConverged(objs1, L2.ephemeron, Marked(m2))
    requires Marked(m1) <= Marked(m2) && StringsOnly(objs1, m1, m2)
    ensures HalfCleared(objs0, m0, objs1, m2, cells, L2, S)
  {
    forall o | o in Marked(m0) && WeakTable(objs0[o]) ensures ReadyButKeys(objs0, objs0[o], Marked(m2)) {
      ReadyButKeysGrows(objs0, objs0[o], Marked(m1), Marked(m2));
    }
  }
}
