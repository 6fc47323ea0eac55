/**
 The lists of weak tables when `atomic` is entered (lgc.c). It asserts that two of them are empty, but
 a forward barrier between the last propagation step and the atomic step can leave a weak table gray:
 a run of the program and the collector that ends with the list not empty.
 */
module AtomicEntry {
  import opened Wrappers

  import opened GcHeap
  import opened GcColor
  import opened GcMutator
  import opened Collector

  /** Userdata that is marked is black at once. */
  lemma UdataBlack(g: GlobalState, o: Ref)
    requires g.Valid() && g.Marking() && o in Marked(g.marks) && o in g.objs && g.objs[o].Udata?
    ensures g.marks[o].Black?
  {
    hide Closed, HoldsOnly;
    var L := g.GrayLists(false, []);
    assert Coloured(g.objs, g.cells, g.marks, L, o) && L.Links(o) <= 1;
  }

  /** A white object is in no list. */
  lemma WhiteUnlisted(g: GlobalState, o: Ref)
    requires g.Valid() && g.Marking() && o in g.objs && g.marks[o].White?
    ensures o !in g.grayagain
  {
    hide Closed, HoldsOnly, Coloured;
    assert g.GrayLists(false, []).Links(o) <= 1;
  }

  /** Before the atomic step a marked table with weak values waits to be traversed. */
  lemma WeakListed(g: GlobalState, t: Ref)
    requires g.Valid() && g.Marking() && HasMode(g.objs, t, WeakValues) && !g.marks[t].White?
    ensures g.marks[t].Gray? && (t in g.gray || t in g.grayagain)
  {
    hide Closed, HoldsOnly;
    assert Coloured(g.objs, g.cells, g.marks, g.GrayLists(false, []), t);
  }

  const UDATA := Udata(Nil, Nil)
  const WEAK_TABLE := Table(WeakValues, Nil, [Nil], [])

  /** The userdata in the registry is object 1, the heap is as given. */
  ghost predicate Holding(g: GlobalState, objs: Heap)
    reads g
  {
    && g.Valid() && g.mainthread == 0 && g.registry == Coll(1) && g.mt == [] && g.cells == map[]
    && g.objs == objs
  }

  /** The program puts a new userdata into the registry. */
  method Prepare() returns (g: GlobalState)
    ensures fresh(g) && Holding(g, map[0 := Thread([]), 1 := UDATA]) && g.gcstate == GCSpause
  {
    hide GlobalState.Valid, GlobalState.Alive;
    g := new GlobalState(0, 0);
    g.NewObject(1, UDATA);
    assert g.Stack() == [Coll(1)];
    assert g.objs == map[0 := Thread([Coll(1)]), 1 := UDATA];
    g.StoreRoot(None, 0);
    g.Pop(1);
  }

  /** The userdata is black when the collector is about to take its atomic step. */
  method Propagated() returns (g: GlobalState)
    ensures fresh(g) && Holding(g, map[0 := Thread([]), 1 := UDATA]) && g.gcstate == GCSatomic && g.marks[1].Black?
  {
    hide GlobalState.Valid, GlobalState.Alive;
    g := Prepare();
    g.CurrentBounds();
    g.SingleStep(g.objs.Keys);
    while g.gcstate == GCSpropagate
      invariant Holding(g, map[0 := Thread([]), 1 := UDATA]) && g.Marking() && 1 in Marked(g.marks)
      decreases g.Rank(), g.Unmarked(), g.ToDo()
    {
      g.CurrentBounds();
      g.SingleStep(g.objs.Keys);
    }
    UdataBlack(g, 1);
  }

  /** The program makes a table with weak values, and has it and the userdata on its stack. */
  method TableMade() returns (g: GlobalState)
    ensures fresh(g) && Holding(g, map[0 := Thread([Coll(2), Coll(1)]), 1 := UDATA, 2 := WEAK_TABLE])
    ensures g.gcstate == GCSatomic && g.marks[1].Black? && g.marks[2].White?
  {
    hide GlobalState.Valid, GlobalState.Alive;
    g := Propagated();
    g.NewObject(2, WEAK_TABLE);
    assert g.Stack() == [Coll(2)];
    g.LoadRoot(None);
    assert g.Stack() == [Coll(2), Coll(1)];
    assert g.objs == map[0 := Thread([Coll(2), Coll(1)]), 1 := UDATA, 2 := WEAK_TABLE];
  }

  /** The table is written into the black userdata: the barrier makes it gray. */
  method TableStored() returns (g: GlobalState)
    ensures fresh(g)
    ensures Holding(g, map[0 := Thread([Coll(2), Coll(1)]), 1 := Udata(Nil, Coll(2)), 2 := WEAK_TABLE])
    ensures g.gcstate == GCSatomic && 2 in g.gray && g.marks[2].Gray?
  {
    hide GlobalState.Valid, GlobalState.Alive;
    g := TableMade();
    WhiteUnlisted(g, 2);
    g.Store(1, UserSlot, 0);
    assert g.objs == map[0 := Thread([Coll(2), Coll(1)]), 1 := Udata(Nil, Coll(2)), 2 := WEAK_TABLE];
    WeakListed(g, 2);
  }

  /** Then a new object is written into the table, and the program has none of them any more. */
  method WeakTableGray() returns (g: GlobalState)
    ensures fresh(g)
    ensures Holding(g, map[0 := Thread([]), 1 := Udata(Nil, Coll(2)), 2 := WEAK_TABLE.(arr := [Coll(3)]), 3 := UDATA])
    ensures g.gcstate == GCSatomic && 2 in g.gray && g.marks[3].White?
  {
    hide GlobalState.Valid, GlobalState.Alive;
    g := TableStored();
    g.NewObject(3, UDATA);
    assert g.Stack() == [Coll(2), Coll(1), Coll(3)];
    g.Store(0, ArrSlot(0), 2);
    assert [Nil][0 := Coll(3)] == [Coll(3)];
    g.Pop(3);
    assert g.objs == map[0 := Thread([]), 1 := Udata(Nil, Coll(2)), 2 := WEAK_TABLE.(arr := [Coll(3)]), 3 := UDATA];
  }

  /** What the new object is not part of. */
  lemma BoundHere(g: GlobalState)
    requires
      Holding(g, map[0 := Thread([]), 1 := Udata(Nil, Coll(2)), 2 := WEAK_TABLE.(arr := [Coll(3)]), 3 := UDATA])
    requires g.marks[3].White?
    ensures g.Bounds({0, 1, 2}) && Clearable(g.objs, 2, {0, 1, 2})
  {
    var S := {0, 1, 2};
    assert Marked(g.marks) <= S;
    assert Clearable(g.objs, 2, S) by { assert !In(g.objs[2].arr[0], S); }
    forall o | o in S && o in g.objs ensures Follows(g.objs, g.cells, g.objs[o], S) {
    }
  }

  /** The state in which the atomic step calls `atomic`, with a table in the lists that are asserted to be empty. */
  method AtomicFindsWeak() returns (g: GlobalState)
    ensures fresh(g) && g.gcstate == GCSatomic && g.gray == [] && (g.weak != [] || g.ephemeron != [])
  {
    hide GlobalState.Valid, GlobalState.Bounds, Clearable;
    g := WeakTableGray();
    BoundHere(g);
    g.EmptyGray({0, 1, 2});
    assert 2 in g.weak || 2 in g.ephemeron;
  }
}
