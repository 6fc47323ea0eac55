/**
 What a running program does to the heap between steps of the collector of lgc.c: reading a slot of
 an object, writing one, making a new object.
 */
module GcMutator {
  import opened Sequences

  import opened GcHeap
  import opened GcColor
  import opened GcSweep

  datatype Slot =
    | ArrSlot(i: nat) | KeySlot(i: nat) | ValSlot(i: nat) | MetaSlot | UserSlot
    | UpSlot(i: nat) | ProtoSlot | ConstSlot(i: nat) | StackSlot(i: nat)

  /** The slot exists, and an entry that is read or written is in use. */
  predicate HasSlot(b: Obj, cells: Cells, s: Slot) {
    match b
    case Str => false
    case Udata(_, _) => s.MetaSlot? || s.UserSlot?
    case Table(_, _, arr, hash) =>
      || s.MetaSlot?
      || (s.ArrSlot? && s.i < |arr|)
      || ((s.KeySlot? || s.ValSlot?) && s.i < |hash| && hash[s.i].val != Nil)
    case LClosure(_, upvals) => s.ProtoSlot? || (s.UpSlot? && s.i < |upvals| && upvals[s.i] in cells)
    case CClosure(upvalues) => s.UpSlot? && s.i < |upvalues|
    case Thread(stack) => s.StackSlot? && s.i < |stack|
    case Proto(consts) => s.ConstSlot? && s.i < |consts|
  }

  /** The value in a slot. */
  function Peek(b: Obj, cells: Cells, s: Slot): (v: Value)
    requires HasSlot(b, cells, s)
    ensures Holds(b, cells, v)
  {
    match b
    case Udata(meta, uv) => if s.MetaSlot? then meta else uv
    case Table(_, meta, arr, hash) =>
      if s.MetaSlot? then meta
      else if s.ArrSlot? then arr[s.i]
      else
        assert InEntry(hash[s.i], hash[s.i].key) && InEntry(hash[s.i], hash[s.i].val);
        if s.KeySlot? then hash[s.i].key else hash[s.i].val
    case LClosure(proto, upvals) => if s.ProtoSlot? then proto else cells[upvals[s.i]]
    case CClosure(upvalues) => upvalues[s.i]
    case Thread(stack) => stack[s.i]
    case Proto(consts) => consts[s.i]
  }

  /**
   The slots a program writes. Keys are not overwritten, upvalues of Lua closures are cells, and
   the metatable of a weak table decides about its mode.
   */
  predicate Writable(b: Obj, cells: Cells, s: Slot) {
    HasSlot(b, cells, s) && !s.KeySlot? && !b.LClosure? && (s.MetaSlot? ==> MayBeBlack(b))
  }

  function Poke(b: Obj, cells: Cells, s: Slot, v: Value): (r: Obj)
    requires Writable(b, cells, s)
    ensures Written(b, r, cells, v, Nil)
  {
    match b
    case Udata(meta, uservalue) => if s.MetaSlot? then Udata(v, uservalue) else Udata(meta, v)
    case Table(mode, meta, arr, hash) =>
      if s.MetaSlot? then Table(mode, v, arr, hash)
      else if s.ArrSlot? then b.(arr := arr[s.i := v])
      else
        var r := b.(hash := hash[s.i := hash[s.i].(val := v)]);
        WroteEntry(b, r, cells, v, s.i);
        r
    case CClosure(upvalues) => b.(upvalues := upvalues[s.i := v])
    case Thread(stack) => b.(stack := stack[s.i := v])
    case Proto(consts) => b.(consts := consts[s.i := v])
  }

  /** A slot that is written holds the value, and every other slot of the object what it held. */
  lemma PokePeek(b: Obj, cells: Cells, s: Slot, v: Value, s1: Slot)
    requires Writable(b, cells, s) && HasSlot(b, cells, s1)
    requires s.ValSlot? && v == Nil ==> s1 != s && s1 != KeySlot(s.i)
    ensures HasSlot(Poke(b, cells, s, v), cells, s1)
    ensures Peek(Poke(b, cells, s, v), cells, s1) == if s1 == s then v else Peek(b, cells, s1)
  {
  }

  lemma WroteEntry(b: Obj, r: Obj, cells: Cells, v: Value, i: nat)
    requires b.Table? && i < |b.hash| && b.hash[i].val != Nil && r == b.(hash := b.hash[i := b.hash[i].(val := v)])
    ensures Written(b, r, cells, v, Nil)
  {
    forall w | Holds(r, cells, w) ensures w == v || Holds(b, cells, w) {
      if w != r.meta && w !in r.arr {
        var j :| 0 <= j < |r.hash| && InEntry(r.hash[j], w);
        assert InEntry(b.hash[j], w) || w == v;
      }
    }
  }

  /** A new entry. */
  function AddEntry(b: Obj, cells: Cells, k: Value, v: Value): (r: Obj)
    requires b.Table?
    ensures Written(b, r, cells, k, v)
  {
    var r := b.(hash := b.hash + [Entry(k, v)]);
    assert forall w :: Holds(r, cells, w) ==> w == k || w == v || Holds(b, cells, w) by {
      forall w | Holds(r, cells, w) ensures w == k || w == v || Holds(b, cells, w) {
        if w != r.meta && w !in r.arr {
          var j :| 0 <= j < |r.hash| && InEntry(r.hash[j], w);
          assert j < |b.hash| ==> InEntry(b.hash[j], w);
        }
      }
    }
    r
  }

  /** The new entry holds the key and the value, and every old slot what it held. */
  lemma EntryPeek(b: Obj, cells: Cells, k: Value, v: Value, s1: Slot)
    requires b.Table? && v != Nil
    ensures var r, n := AddEntry(b, cells, k, v), |b.hash|;
      HasSlot(r, cells, KeySlot(n)) && Peek(r, cells, KeySlot(n)) == k && Peek(r, cells, ValSlot(n)) == v
    ensures HasSlot(b, cells, s1) ==>
      HasSlot(AddEntry(b, cells, k, v), cells, s1)
      && Peek(AddEntry(b, cells, k, v), cells, s1) == Peek(b, cells, s1)
  {
  }

  /** `r` is `b` with `v` or `w` written somewhere. */
  ghost predicate Written(b: Obj, r: Obj, cells: Cells, v: Value, w: Value) {
    && (forall x :: Holds(r, cells, x) ==> x == v || x == w || Holds(b, cells, x))
    && SameKind(b, r) && (r.LClosure? ==> r == b)
    && (!MayBeBlack(b) && b.Table? ==> r.meta == b.meta)
  }

  predicate SameKind(b: Obj, r: Obj) {
    && b.Str? == r.Str? && b.Udata? == r.Udata? && b.LClosure? == r.LClosure? && b.CClosure? == r.CClosure?
    && b.Thread? == r.Thread? && b.Proto? == r.Proto? && b.Table? == r.Table? && (b.Table? ==> r.mode == b.mode)
  }

  // ----- what a write keeps -----

  /** Values that are in use can be written anywhere. */
  lemma WriteBase(objs: Heap, cells: Cells, marks: Marks, cw: bool, main: Ref, roots: set<Ref>, allgc: seq<Ref>,
      fixedgc: seq<Ref>,
                  o: Ref, r: Obj, v: Value, w: Value)
    requires Base(objs, cells, marks, cw, main, roots, allgc, fixedgc)
    requires o in objs && Written(objs[o], r, cells, v, w)
    requires In(v, AliveSet(marks, cw)) && In(w, AliveSet(marks, cw))
    ensures Base(objs[o := r], cells, marks, cw, main, roots, allgc, fixedgc)
  {
    var objs1 := objs[o := r];
    forall x | x in AliveSet(marks, cw) ensures HoldsOnly(objs1[x], cells, AliveSet(marks, cw)) {
      assert HoldsOnly(objs[x], cells, AliveSet(marks, cw));
    }
  }

  /** Only the colour of the written object can be wrong after a write. */
  lemma WriteTri(objs: Heap, cells: Cells, marks: Marks, L: Lists, o: Ref, r: Obj, v: Value, w: Value)
    requires Tri(objs, cells, marks, L, objs.Keys) && !L.inside
    requires o in objs && Written(objs[o], r, cells, v, w) && In(v, objs.Keys) && In(w, objs.Keys)
    requires Sound(objs, cells)
    ensures Sound(objs[o := r], cells)
    ensures TriBut(objs[o := r], cells, marks, L, objs.Keys, {o})
    ensures !marks[o].Black? || (In(v, Marked(marks)) && In(w, Marked(marks))) ==>
      Coloured(objs[o := r], cells, marks, L, o)
    ensures marks[o].Black? ==> L.Links(o) == 0 && MayBeBlack(r) && HoldsOnly(objs[o], cells, Marked(marks))
  {
    var objs1 := objs[o := r];
    assert Coloured(objs, cells, marks, L, o);
    forall x | x in objs1 ensures HoldsOnly(objs1[x], cells, objs1.Keys) {
      assert HoldsOnly(objs[x], cells, objs.Keys);
    }
    forall x | x in objs1 ensures Follows(objs1, cells, objs1[x], objs1.Keys) {
      AllFollow(objs1, cells, objs1[x], objs1.Keys);
    }
    WriteLinked(objs, cells, marks, L, o, r, v, w);
    forall x | x in objs1 && x != o ensures Coloured(objs1, cells, marks, L, x) {
      assert Coloured(objs, cells, marks, L, x);
    }
  }

  lemma WriteLinked(objs: Heap, cells: Cells, marks: Marks, L: Lists, o: Ref, r: Obj, v: Value, w: Value)
    requires Linked(objs, marks, L) && o in objs && Written(objs[o], r, cells, v, w)
    ensures Linked(objs[o := r], marks, L)
  {
    var objs1 := objs[o := r];
    forall x, mode | HasMode(objs, x, mode) ensures HasMode(objs1, x, mode) {
    }
    forall x | L.Links(x) == 1 ensures x in objs1 && marks[x].Gray? && !MarkOf(objs1[x]).Black? {
    }
  }

  /** While marking: object `o`, whose contents were `b`, now has `v` and `w`, and only it may be wrong. */
  ghost predicate WrittenMarking(objs: Heap, cells: Cells, marks: Marks, L: Lists, o: Ref, b: Obj, v: Value, w: Value)
    requires o in objs && o in marks
  {
    && Sound(objs, cells) && TriBut(objs, cells, marks, L, objs.Keys, {o}) && Written(b, objs[o], cells, v, w)
    && (!marks[o].Black? || (In(v, Marked(marks)) && In(w, Marked(marks))) ==> Coloured(objs, cells, marks, L, o))
    && (marks[o].Black? ==> L.Links(o) == 0 && MayBeBlack(objs[o]) && HoldsOnly(b, cells, Marked(marks)))
  }

  lemma WriteMarking(objs: Heap, cells: Cells, marks: Marks, cw: bool, L: Lists, o: Ref, r: Obj, v: Value, w: Value)
    requires Tri(objs, cells, marks, L, objs.Keys) && !L.inside && NoDangling(objs, cells, marks, cw)
    requires AllCurrent(marks, cw)
    requires o in objs && Written(objs[o], r, cells, v, w) && In(v, AliveSet(marks, cw)) && In(w, AliveSet(marks, cw))
    ensures WrittenMarking(objs[o := r], cells, marks, L, o, objs[o], v, w)
  {
    NoneDead(objs, cells, marks, cw);
    WriteTri(objs, cells, marks, L, o, r, v, w);
  }

  /** A forward barrier: everything the black object refers to is marked. */
  lemma WriteForward(objs: Heap, cells: Cells, m0: Marks, L: Lists, m1: Marks, g1: seq<Ref>, o: Ref, b: Obj, v: Value)
    requires o in objs && TriBut(objs, cells, m0, L, objs.Keys, {o}) && L.Links(o) == 0
    requires m0[o].Black? && MayBeBlack(objs[o]) && Written(b, objs[o], cells, v, Nil)
    requires HoldsOnly(b, cells, Marked(m0))
    requires MarkStep(objs, cells, m0, L.gray, m1, g1, objs.Keys) && In(v, Marked(m1))
    ensures Tri(objs, cells, m1, L.(gray := g1), objs.Keys)
  {
    MarkStepGrows(objs, cells, m0, L.gray, m1, g1, objs.Keys);
    HoldsOnlyGrows(b, cells, Marked(m0), Marked(m1));
    assert HoldsOnly(objs[o], cells, Marked(m1));
    TriBlack(objs, cells, m0, L, m1, g1, objs.Keys, o);
  }

  /** A backward barrier: the black table is gray again and waits to be traversed again. */
  lemma WriteBack(objs: Heap, cells: Cells, m: Marks, L: Lists, o: Ref)
    requires o in objs && TriBut(objs, cells, m, L, objs.Keys, {o}) && L.Links(o) == 0
    requires m[o].Black? && objs[o].Table?
    ensures Tri(objs, cells, m[o := Gray], L.(later := [o] + L.later), objs.Keys)
    ensures Marked(m[o := Gray]) == Marked(m)
  {
    assert Marked(m[o := Gray]) == Marked(m);
    TriSettle(objs, cells, m, L, L.(later := [o] + L.later), objs.Keys, o, Gray);
  }

  /** A black object that becomes gray, or white again, stays in use, and is in no part that was swept. */
  lemma RecolourBase(objs: Heap, cells: Cells, marks: Marks, cw: bool, main: Ref, roots: set<Ref>, allgc: seq<Ref>,
      fixedgc: seq<Ref>,
      o: Ref, m: Mark)
    requires Base(objs, cells, marks, cw, main, roots, allgc, fixedgc) && o in objs && o in marks && marks[o].Black?
    requires m == Gray || (m == White(cw) && !objs[o].Str?)
    ensures var m1 := marks[o := m];
      && Base(objs, cells, m1, cw, main, roots, allgc, fixedgc) && AliveSet(m1, cw) == AliveSet(marks, cw)
      && (AllCurrent(marks, cw) ==> AllCurrent(m1, cw))
      && (marks[main] == White(cw) ==> m1[main] == White(cw))
    ensures forall rest: nat :: PrefixSwept(marks, cw, allgc, rest) ==> PrefixSwept(marks[o := m], cw, allgc, rest)
  {
    assert AliveSet(marks[o := m], cw) == AliveSet(marks, cw);
  }

  /** What the backward barrier does to the colours. */
  lemma GrayBase(objs: Heap, cells: Cells, marks: Marks, cw: bool, main: Ref, roots: set<Ref>, allgc: seq<Ref>,
      fixedgc: seq<Ref>, o: Ref)
    requires Base(objs, cells, marks, cw, main, roots, allgc, fixedgc) && o in marks && marks[o].Black?
    ensures var m1 := marks[o := Gray];
      && Base(objs, cells, m1, cw, main, roots, allgc, fixedgc) && AliveSet(m1, cw) == AliveSet(marks, cw)
      && (AllCurrent(marks, cw) ==> AllCurrent(m1, cw))
      && (marks[main] == White(cw) ==> m1[main] == White(cw))
    ensures forall rest: nat :: PrefixSwept(marks, cw, allgc, rest) ==> PrefixSwept(marks[o := Gray], cw, allgc, rest)
  {
    RecolourBase(objs, cells, marks, cw, main, roots, allgc, fixedgc, o, Gray);
  }

  // ----- new objects and cells -----

  lemma NewBase(objs: Heap, cells: Cells, marks: Marks, cw: bool, main: Ref, roots: set<Ref>, allgc: seq<Ref>,
      fixedgc: seq<Ref>, o: Ref, b: Obj)
    requires Base(objs, cells, marks, cw, main, roots, allgc, fixedgc) && o !in objs
    requires HoldsOnly(b, cells, AliveSet(marks, cw)) && (b.LClosure? ==> forall c :: c in b.upvals ==> c in cells)
    ensures Base(objs[o := b], cells, marks[o := White(cw)], cw, main, roots, [o] + allgc, fixedgc)
    ensures AliveSet(marks[o := White(cw)], cw) == AliveSet(marks, cw) + {o}
    ensures forall rest: nat :: rest <= |allgc| && PrefixSwept(marks, cw, allgc, rest) ==>
      PrefixSwept(marks[o := White(cw)], cw, [o] + allgc, rest)
    ensures main in objs && main in marks && main != o
  {
    hide HoldsOnly, NoDangling;
    assert AliveSet(marks[o := White(cw)], cw) == AliveSet(marks, cw) + {o};
    NoDupPush(allgc, o);
    NewReferences(objs, cells, marks, cw, o, b);
  }

  lemma NewReferences(objs: Heap, cells: Cells, marks: Marks, cw: bool, o: Ref, b: Obj)
    requires NoDangling(objs, cells, marks, cw) && o !in objs && marks.Keys == objs.Keys
    requires HoldsOnly(b, cells, AliveSet(marks, cw)) && (b.LClosure? ==> forall c :: c in b.upvals ==> c in cells)
    ensures NoDangling(objs[o := b], cells, marks[o := White(cw)], cw)
  {
    var A, A1 := AliveSet(marks, cw), AliveSet(marks[o := White(cw)], cw);
    assert A1 == A + {o};
    forall x | x in A1 ensures HoldsOnly(objs[o := b][x], cells, A1) {
      HoldsOnlyGrows(objs[o := b][x], cells, A, A1);
    }
  }

  lemma NewTri(objs: Heap, cells: Cells, marks: Marks, L: Lists, o: Ref, b: Obj, cw: bool)
    requires Tri(objs, cells, marks, L, objs.Keys) && !L.inside && Sound(objs, cells) && o !in objs
    requires HoldsOnly(b, cells, objs.Keys)
    ensures Tri(objs[o := b], cells, marks[o := White(cw)], L, objs[o := b].Keys)
    ensures Marked(marks[o := White(cw)]) == Marked(marks)
  {
    var objs1, m1 := objs[o := b], marks[o := White(cw)];
    assert Marked(m1) == Marked(marks);
    forall x | x in objs1 ensures Follows(objs1, cells, objs1[x], objs1.Keys) {
      HoldsOnlyGrows(objs1[x], cells, objs.Keys, objs1.Keys);
      AllFollow(objs1, cells, objs1[x], objs1.Keys);
    }
    forall x, mode | HasMode(objs, x, mode) ensures HasMode(objs1, x, mode) {
    }
    forall x | x in objs1 && x != o ensures Coloured(objs1, cells, m1, L, x) {
      assert Coloured(objs, cells, marks, L, x);
    }
  }

  /** A new white object while marking. */
  lemma NewMarking(objs: Heap, cells: Cells, marks: Marks, cw: bool, main: Ref, roots: set<Ref>, allgc: seq<Ref>,
      fixedgc: seq<Ref>,
      L: Lists, o: Ref, b: Obj)
    requires Base(objs, cells, marks, cw, main, roots, allgc, fixedgc) && o !in objs && HoldsOnly(b, cells, objs.Keys)
    requires Tri(objs, cells, marks, L, objs.Keys) && !L.inside && AllCurrent(marks, cw) && main in Marked(marks)
    ensures var objs1, m1 := objs[o := b], marks[o := White(cw)];
      Tri(objs1, cells, m1, L, objs1.Keys) && AllCurrent(m1, cw) && main in Marked(m1)
  {
    NoneDead(objs, cells, marks, cw);
    NewTri(objs, cells, marks, L, o, b, cw);
  }

  /** The objects that see cell `c`. */
  ghost function Sharing(objs: Heap, c: Cell): set<Ref> {
    set o | o in objs && objs[o].LClosure? && c in objs[o].upvals
  }

  lemma CellHolds(b: Obj, cells: Cells, c: Cell, v: Value, S: set<Ref>)
    requires HoldsOnly(b, cells, S) && In(v, S)
    ensures HoldsOnly(b, cells[c := v], S)
  {
    forall w | Holds(b, cells[c := v], w) ensures In(w, S) {
      assert w == v || Holds(b, cells, w);
    }
  }

  lemma CellBase(objs: Heap, cells: Cells, marks: Marks, cw: bool, main: Ref, roots: set<Ref>, allgc: seq<Ref>,
      fixedgc: seq<Ref>, c: Cell, v: Value)
    requires Base(objs, cells, marks, cw, main, roots, allgc, fixedgc) && In(v, AliveSet(marks, cw))
    ensures Base(objs, cells[c := v], marks, cw, main, roots, allgc, fixedgc)
  {
    forall x | x in AliveSet(marks, cw) ensures HoldsOnly(objs[x], cells[c := v], AliveSet(marks, cw)) {
      CellHolds(objs[x], cells, c, v, AliveSet(marks, cw));
    }
  }

  /** After a write to a cell only the closures that share it can be wrong. */
  lemma CellTri(objs: Heap, cells: Cells, marks: Marks, L: Lists, c: Cell, v: Value)
    requires Tri(objs, cells, marks, L, objs.Keys) && Sound(objs, cells) && In(v, objs.Keys)
    ensures TriBut(objs, cells[c := v], marks, L, objs.Keys, if In(v, Marked(marks)) then {} else Sharing(objs, c))
  {
    var cells1 := cells[c := v];
    forall x | x in objs ensures Follows(objs, cells1, objs[x], objs.Keys) {
      CellHolds(objs[x], cells, c, v, objs.Keys);
      AllFollow(objs, cells1, objs[x], objs.Keys);
    }
    forall x | x in objs && (In(v, Marked(marks)) || x !in Sharing(objs, c))
      ensures Coloured(objs, cells1, marks, L, x) {
      assert Coloured(objs, cells, marks, L, x);
      if marks[x].Black? && In(v, Marked(marks)) {
        CellHolds(objs[x], cells, c, v, Marked(marks));
      } else if marks[x].Black? {
        assert forall w :: Holds(objs[x], cells1, w) ==> Holds(objs[x], cells, w);
      }
    }
  }

  /** The barrier for upvalues marks the value, which is right for every closure. */
  lemma CellMarked(objs: Heap, cells: Cells, m0: Marks, L: Lists, m1: Marks, g1: seq<Ref>, c: Cell, v: Value)
    requires Tri(objs, cells, m0, L, objs.Keys) && Sound(objs, cells) && In(v, objs.Keys) && !In(v, Marked(m0))
    requires MarkStep(objs, cells[c := v], m0, L.gray, m1, g1, objs.Keys) && In(v, Marked(m1))
    ensures Tri(objs, cells[c := v], m1, L.(gray := g1), objs.Keys)
  {
    var cells1, L1, B := cells[c := v], L.(gray := g1), Sharing(objs, c);
    CellTri(objs, cells, m0, L, c, v);
    TriMarkStep(objs, cells1, m0, L, m1, g1, objs.Keys, B);
    MarkStepGrows(objs, cells1, m0, L.gray, m1, g1, objs.Keys);
    forall x | x in B ensures Coloured(objs, cells1, m1, L1, x) {
      assert Coloured(objs, cells, m0, L, x);
      if m0[x].Black? {
        HoldsOnlyGrows(objs[x], cells, Marked(m0), Marked(m1));
        CellHolds(objs[x], cells, c, v, Marked(m1));
      } else if m1[x].Gray? {
        assert x in g1 || x in L.later;
      }
    }
  }

  /** A string refers to nothing, so it can be brought back at any time before it is freed. */
  lemma Resurrect(objs: Heap, cells: Cells, marks: Marks, cw: bool, main: Ref, roots: set<Ref>, allgc: seq<Ref>,
      fixedgc: seq<Ref>, o: Ref)
    requires Base(objs, cells, marks, cw, main, roots, allgc, fixedgc)
    requires o in objs && objs[o].Str? && marks[o] == White(!cw)
    ensures Base(objs, cells, marks[o := White(cw)], cw, main, roots, allgc, fixedgc)
    ensures forall rest: nat :: PrefixSwept(marks, cw, allgc, rest) ==>
      PrefixSwept(marks[o := White(cw)], cw, allgc, rest)
    ensures o in AliveSet(marks[o := White(cw)], cw)
  {
    var A, A1 := AliveSet(marks, cw), AliveSet(marks[o := White(cw)], cw);
    assert A1 == A + {o};
    forall x | x in A1 ensures HoldsOnly(objs[x], cells, A1) {
      if x != o {
        HoldsOnlyGrows(objs[x], cells, A, A1);
      }
    }
  }

  lemma FixMembers(objs: Heap, main: Ref, allgc: seq<Ref>, fixedgc: seq<Ref>)
    requires allgc != [] && NoDup(allgc) && main !in allgc
    requires forall x :: x in objs <==> x == main || x in allgc || x in fixedgc
    requires forall x :: x in fixedgc ==> x !in allgc && x != main
    ensures NoDup(allgc[1..]) && main !in allgc[1..] && allgc[0] !in allgc[1..]
    ensures forall x :: x in objs <==> x == main || x in allgc[1..] || x in [allgc[0]] + fixedgc
    ensures forall x :: x in [allgc[0]] + fixedgc ==> x !in allgc[1..] && x != main
  {
    assert allgc == [allgc[0]] + allgc[1..];
  }

  /** The first object of `allgc` is moved to the list of fixed objects. */
  lemma FixBase(objs: Heap, cells: Cells, marks: Marks, cw: bool, main: Ref, roots: set<Ref>, allgc: seq<Ref>,
      fixedgc: seq<Ref>)
    requires Base(objs, cells, marks, cw, main, roots, allgc, fixedgc) && PrefixSwept(marks, cw, allgc, 0)
    requires allgc != [] && objs[allgc[0]].Str?
    ensures Base(objs, cells, marks[allgc[0] := Gray], cw, main, roots, allgc[1..], [allgc[0]] + fixedgc)
    ensures PrefixSwept(marks[allgc[0] := Gray], cw, allgc[1..], 0)
  {
    var o := allgc[0];
    FixMembers(objs, main, allgc, fixedgc);
    assert AliveSet(marks[o := Gray], cw) == AliveSet(marks, cw);
  }
}
