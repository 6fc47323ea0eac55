/**
 The heap the collector of lgc.c works on, and what it means for objects of that heap to be
 referenced, marked and alive.

 C memory is freed and reused, so an object is an address (`Ref`) that may or may not be
 allocated, and the heap is a map from allocated addresses to contents. Everything here is about
 values; the class that changes them is in Collector.dfy.
 */
module GcHeap {

  type Ref = nat
  type Cell = nat

  /** A TValue: nil, something the collector ignores, or a collectable object. */
  datatype Value = Nil | Prim(n: int) | Coll(ref: Ref)

  /** A hash node with a key; `val == Nil` means that the entry is empty. */
  datatype Entry = Entry(key: Value, val: Value)

  /** What the `__mode` field of the metatable says. */
  datatype Mode = Strong | WeakValues | Ephemeron | AllWeak

  /** Optional references (metatable, prototype) are values that may be `Nil`. */
  datatype Obj =
    | Str
    | Udata(meta: Value, uservalue: Value)
    | Table(mode: Mode, meta: Value, arr: seq<Value>, hash: seq<Entry>)
    | LClosure(proto: Value, upvals: seq<Cell>)
    | CClosure(upvalues: seq<Value>)
    | Thread(stack: seq<Value>)
    | Proto(consts: seq<Value>)

  lemma EmptyList(l: seq<Ref>)
    ensures (forall r :: r !in l) ==> l == []
  {
    if l != [] {
      assert l[0] in l;
    }
  }

  type Heap = map<Ref, Obj>
  type Cells = map<Cell, Value>

  /** The colour bits of `marked`: one of the two whites, neither (gray), or black. */
  datatype Mark = White(w: bool) | Gray | Black

  type Marks = map<Ref, Mark>

  // ----- references -----

  /** `v` is stored in the entry and the entry is in use. */
  ghost predicate InEntry(e: Entry, v: Value) {
    e.val != Nil && (v == e.key || v == e.val)
  }

  /** `v` is one of the values object `b` refers to, weakly or strongly. */
  ghost predicate Holds(b: Obj, cells: Cells, v: Value) {
    match b
    case Str => false
    case Udata(meta, uv) => v == meta || v == uv
    case Table(_, meta, arr, hash) =>
      v == meta || v in arr || exists i :: 0 <= i < |hash| && InEntry(hash[i], v)
    case LClosure(proto, upvals) =>
      v == proto || exists i :: 0 <= i < |upvals| && upvals[i] in cells && v == cells[upvals[i]]
    case CClosure(upvalues) => v in upvalues
    case Thread(stack) => v in stack
    case Proto(consts) => v in consts
  }

  /** `v` is not a collectable object outside `S`. */
  predicate In(v: Value, S: set<Ref>) {
    v.Coll? ==> v.ref in S
  }

  /** Everything `b` refers to is in `S`. */
  ghost predicate HoldsOnly(b: Obj, cells: Cells, S: set<Ref>) {
    forall v :: Holds(b, cells, v) ==> In(v, S)
  }

  /** Strings count as values: no weak table ever drops one. */
  predicate IsStr(objs: Heap, v: Value) {
    v.Coll? && v.ref in objs && objs[v.ref].Str?
  }

  /** The test of `iscleared`, for the set `M` of marked objects. */
  predicate Cleared(objs: Heap, v: Value, M: set<Ref>) {
    v.Coll? && !IsStr(objs, v) && v.ref !in M
  }

  // ----- liveness -----

  /** What `S` must contain because it contains an object with contents `b`. */
  ghost predicate Follows(objs: Heap, cells: Cells, b: Obj, S: set<Ref>) {
    if !b.Table? then HoldsOnly(b, cells, S)
    else match b.mode
      case Strong => HoldsOnly(b, cells, S)
      case WeakValues =>
        && In(b.meta, S)
        && (forall i :: 0 <= i < |b.arr| && IsStr(objs, b.arr[i]) ==> In(b.arr[i], S))
        && (forall i :: 0 <= i < |b.hash| && b.hash[i].val != Nil ==>
              In(b.hash[i].key, S) && (IsStr(objs, b.hash[i].val) ==> In(b.hash[i].val, S)))
      case Ephemeron =>
        && In(b.meta, S)
        && (forall i :: 0 <= i < |b.arr| ==> In(b.arr[i], S))
        && (forall i :: 0 <= i < |b.hash| && b.hash[i].val != Nil ==> EphemeronFollows(objs, b.hash[i], S))
      case AllWeak =>
        && In(b.meta, S)
        && (forall i :: 0 <= i < |b.arr| && IsStr(objs, b.arr[i]) ==> In(b.arr[i], S))
        && (forall i :: 0 <= i < |b.hash| && b.hash[i].val != Nil ==> AllWeakFollows(objs, b.hash[i], S))
  }

  /** An ephemeron keeps its value alive through its key. */
  ghost predicate EphemeronFollows(objs: Heap, e: Entry, S: set<Ref>) {
    && (IsStr(objs, e.key) ==> In(e.key, S))
    && (!Cleared(objs, e.key, S) ==> In(e.val, S))
  }

  /** An all-weak entry keeps strings, the key only while the value stays. */
  ghost predicate AllWeakFollows(objs: Heap, e: Entry, S: set<Ref>) {
    && (IsStr(objs, e.val) ==> In(e.val, S))
    && (IsStr(objs, e.key) && !Cleared(objs, e.val, S) ==> In(e.key, S))
  }

  /** `S` is closed under what its objects keep alive. */
  ghost predicate Closed(objs: Heap, cells: Cells, S: set<Ref>) {
    forall o {:trigger Follows(objs, cells, objs[o], S)} :: o in S && o in objs ==> Follows(objs, cells, objs[o], S)
  }

  /** `o` is kept alive by `roots`: it is in every closed set that has them. */
  ghost predicate Live(objs: Heap, cells: Cells, roots: set<Ref>, o: Ref) {
    forall S: set<Ref> :: roots <= S && Closed(objs, cells, S) ==> o in S
  }

  ghost function LiveSet(objs: Heap, cells: Cells, roots: set<Ref>): set<Ref> {
    set o | o in objs && Live(objs, cells, roots, o)
  }

  /** The contents of `b` after a cycle that marked `M`: weak entries of unmarked objects are gone. */
  function Purged(objs: Heap, b: Obj, M: set<Ref>): Obj {
    if !b.Table? then b
    else match b.mode
      case Strong => b
      case WeakValues => ClearedValues(objs, b, M)
      case Ephemeron => ClearedKeys(objs, b, M)
      case AllWeak => ClearedKeys(objs, ClearedValues(objs, b, M), M)
  }

  function ClearedValues(objs: Heap, b: Obj, M: set<Ref>): (r: Obj)
    requires b.Table?
    ensures r.Table? && r.mode == b.mode && r.meta == b.meta
  {
    b.(arr := seq(|b.arr|, i requires 0 <= i < |b.arr| => ClearedValue(objs, b.arr[i], M)),
       hash := seq(|b.hash|, i requires 0 <= i < |b.hash| =>
         b.hash[i].(val := ClearedValue(objs, b.hash[i].val, M))))
  }

  function ClearedValue(objs: Heap, v: Value, M: set<Ref>): Value {
    if Cleared(objs, v, M) then Nil else v
  }

  function ClearedKeys(objs: Heap, b: Obj, M: set<Ref>): (r: Obj)
    requires b.Table?
    ensures r.Table? && r.mode == b.mode && r.meta == b.meta
  {
    b.(hash := seq(|b.hash|, i requires 0 <= i < |b.hash| => ClearedKey(objs, b.hash[i], M)))
  }

  function ClearedKey(objs: Heap, e: Entry, M: set<Ref>): Entry {
    if Cleared(objs, e.key, M) then e.(val := Nil) else e
  }
}
