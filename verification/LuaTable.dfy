/**
 The Lua table (ltable.c): an array part and a hash part that together refine a finite map.

 A cell is where a value is stored, as the pointers that `luaH_get` and `luaH_set` return. The
 ghost field `contents` is the map that the table stands for.
 */
module LuaTable {
  import opened Wrappers
  import opened Powers

  import opened TableChains
  import opened TableSizes
  import opened TableEntries

  const MAXHBITS: nat := 30

  datatype Cell = Slot(i: nat) | OfNode(i: nat)
  datatype Outcome = Done(cell: Cell) | Error(message: string)

  const NO_INDEX_NIL := Error("table index is nil")
  const NO_INDEX_NAN := Error("table index is NaN")

  /** Every unused node lies below `lastfree`. */
  ghost predicate FreeBelow(nodes: seq<Node>, lastfree: nat) {
    forall i :: lastfree <= i < |nodes| ==> Used(nodes[i])
  }

  /** The hash part; an empty one is the shared dummy node. */
  ghost predicate HashOk(h: Hashes, nodes: seq<Node>, dummy: bool, lastfree: nat, l: Links) {
    && |nodes| > 0 && lastfree <= |nodes|
    && Chained(h, nodes, l) && LiveFirst(nodes, l)
    && (if dummy then nodes == [EMPTY] && lastfree == 0 else FreeBelow(nodes, lastfree))
  }

  /**
   While a table is resized: `c` has the entries of `c0` that are not waiting in slots `i` and up or in the first `j`
   nodes.
   */
  ghost predicate Partial(c: map<Key, int>, c0: map<Key, int>, arr: seq<Value>, i: nat, nodes: seq<Node>, j: nat)
    requires j <= |nodes|
  {
    && (forall k {:trigger k in c} {:trigger k in c0} :: k in c ==> k in c0 && c0[k] == c[k])
    && (forall k {:trigger k in c0} {:trigger k in c} :: k in c0 ==>
      k in c || i < Index(k) <= |arr| || HasNode(nodes[..j], k))
  }

  /** The entries that stay in the array part while it gets its new size. */
  ghost function Staying(c: map<Key, int>, asize: nat, nasize: nat): map<Key, int> {
    map k | k in c && InArray(k, if asize < nasize then asize else nasize) :: c[k]
  }

  lemma StartResize(arr: seq<Value>, nodes: seq<Node>, c: map<Key, int>, arr1: seq<Value>, nodes1: seq<Node>)
    requires Holds(arr, nodes, c) && |arr1| <= MAXASIZE
    requires forall i :: 0 <= i < |arr1| ==> arr1[i] == if i < |arr| then arr[i] else Nil
    requires forall i :: 0 <= i < |nodes1| ==> nodes1[i] == EMPTY
    ensures Holds(arr1, nodes1, Staying(c, |arr|, |arr1|))
    ensures Partial(Staying(c, |arr|, |arr1|), c, arr, if |arr1| < |arr| then |arr1| else |arr|, nodes, |nodes|)
  {
    var c1 := Staying(c, |arr|, |arr1|);
    forall i | 0 <= i < |arr1| ensures Tied(c1, KInt(i + 1), arr1[i]) {
      assert i < |arr| ==> Tied(c, KInt(i + 1), arr[i]);
    }
    assert nodes[..|nodes|] == nodes;
  }

  lemma PartialSlot(c: map<Key, int>, c0: map<Key, int>, arr: seq<Value>, i: nat, nodes: seq<Node>)
    requires Holds(arr, nodes, c0) && i < |arr| && Partial(c, c0, arr, i, nodes, |nodes|)
    ensures Partial(if arr[i].Val? then Updated(c, KInt(i + 1), arr[i]) else c, c0, arr, i + 1, nodes, |nodes|)
  {
    assert Tied(c0, KInt(i + 1), arr[i]);
  }

  lemma PartialNode(c: map<Key, int>, c0: map<Key, int>, arr: seq<Value>, nodes: seq<Node>, j: nat)
    requires Holds(arr, nodes, c0) && j < |nodes| && Partial(c, c0, arr, |arr|, nodes, j + 1)
    ensures nodes[j].val.Val? ==> Storable(nodes[j].key)
    ensures Partial(if nodes[j].val.Val? then Updated(c, nodes[j].key, nodes[j].val) else c, c0, arr, |arr|, nodes, j)
  {
    assert EntryOk(c0, |arr|, nodes[j]);
    var c1 := if nodes[j].val.Val? then Updated(c, nodes[j].key, nodes[j].val) else c;
    forall k | k in c0 && k !in c1 ensures HasNode(nodes[..j], k) {
      assert HasNode(nodes[..j + 1], k);
      var x :| 0 <= x < j + 1 && Matches(nodes[..j + 1][x], k);
      assert Matches(nodes[x], k) && EntryOk(c0, |arr|, nodes[x]);
      assert x != j;
      assert Matches(nodes[..j][x], k);
    }
  }

  lemma PartialDone(c: map<Key, int>, c0: map<Key, int>, arr: seq<Value>, nodes: seq<Node>)
    requires Partial(c, c0, arr, |arr|, nodes, 0)
    ensures c == c0
  {
    forall k | k in c0 ensures k in c {
      assert !HasNode(nodes[..0], k);
    }
  }

  /** What follows from moving the colliding node `mp` to the free node `f`. */
  lemma Moving(h: Hashes, arr: seq<Value>, nodes: seq<Node>, l: Links, c: map<Key, int>, mp: nat, f: nat, p: nat,
      k: Key)
    requires CanMove(h, nodes, l, mp, f, p) && LiveFirst(nodes, l) && FreeBelow(nodes, f + 1) && Holds(arr, nodes, c)
    requires Storable(k) && !InArray(k, |arr|) && !HasNode(nodes, k) && mp == MainPos(h, k, |nodes|)
    ensures Chained(h, MoveOut(nodes, mp, f, p, k), LinksMoved(l, mp, f))
    ensures LiveFirst(MoveOut(nodes, mp, f, p, k), LinksMoved(l, mp, f))
    ensures Holds(arr, MoveOut(nodes, mp, f, p, k), c) && FreeBelow(MoveOut(nodes, mp, f, p, k), f)
    ensures |Unused(MoveOut(nodes, mp, f, p, k))| >= |Unused(nodes)| - 1
    ensures p != mp && p != f
  {
    assert NodeOk(h, nodes, l, p) && NodeOk(h, nodes, l, f);
    InsertMoving(h, nodes, l, mp, f, p, k);
    FirstMoving(h, nodes, l, mp, f, p, k);
    NewEntry(arr, nodes, MoveOut(nodes, mp, f, p, k), c, k, mp, mp, f);
    UseOne(nodes, MoveOut(nodes, mp, f, p, k), f);
  }

  ghost function Unlinked(n: nat): Links {
    Links(seq(n, _ => 0), seq(n, _ => 0.0), 0)
  }

  lemma EmptyHash(h: Hashes, nodes: seq<Node>, dummy: bool, lastfree: nat)
    requires forall i :: 0 <= i < |nodes| ==> nodes[i] == EMPTY
    requires |nodes| > 0 && if dummy then |nodes| == 1 && lastfree == 0 else lastfree == |nodes|
    ensures HashOk(h, nodes, dummy, lastfree, Unlinked(|nodes|)) && |Unused(nodes)| == |nodes|
  {
    EmptyChained(h, nodes, Unlinked(|nodes|));
    AllUnused(nodes);
  }

  /** The size of the hash part does not overflow. */
  lemma NotTooBig(size: nat, lsize: nat)
    requires InSlice(size, lsize) && size <= Pow2(MAXHBITS)
    ensures lsize <= MAXHBITS
  {
    if lsize > MAXHBITS + 1 {
      Pow2Grows(MAXHBITS, lsize - 1);
    }
  }

  /** What `rehash` knows before it chooses the new sizes. */
  lemma Counted(arr: seq<Value>, nodes: seq<Node>, c: map<Key, int>, ek: Key)
    requires Holds(arr, nodes, c) && !InArray(ek, |arr|) && !HasNode(nodes, ek) && |c| < Pow2(MAXHBITS)
    ensures Distinct(AllKeys(arr, nodes, ek)) && IndexKeys(AllKeys(arr, nodes, ek))
    ensures forall x {:trigger CountSlice(AllKeys(arr, nodes, ek), x)} ::
      CountSlice(AllKeys(arr, nodes, ek), x) == CountSlice(SlotKeys(arr, |arr|), x) + CountSlice(NodeKeys(nodes, 0), x)
        + if Index(ek) > 0 && InSlice(Index(ek), x) then 1 else 0
    ensures Total(arr, nodes) <= |c| && |AllKeys(arr, nodes, ek)| <= Total(arr, nodes) + 1 <= 0x4000_0000
  {
    AllDistinct(arr, nodes, c, ek);
    TotalBound(arr, nodes, c);
    NodesUpTo(nodes, 0, 0);
    KeysBound(nodes, 0);
    Pow2Max();
    var s, t := SlotKeys(arr, |arr|), NodeKeys(nodes, 0);
    forall x: nat ensures CountSlice(AllKeys(arr, nodes, ek), x)
         == CountSlice(s, x) + CountSlice(t, x) + if Index(ek) > 0 && InSlice(Index(ek), x) then 1 else 0
    {
      CountSliceConcat(s, t, x);
      if Index(ek) > 0 {
        CountAppend(s + t, Index(ek));
      }
    }
  }

  lemma {:induction false} KeysBound(nodes: seq<Node>, n: nat)
    requires n <= |nodes|
    ensures |NodeKeys(nodes, n)| <= LiveNodes(nodes, |nodes|, 0) - LiveNodes(nodes, n, 0)
    decreases |nodes| - n
  {
    if n < |nodes| {
      KeysBound(nodes, n + 1);
    }
  }

  /** `nums` has the counts of the first `n` slots, but for `lc` more in slice `lg`. */
  ghost predicate Sliced(nums: seq<nat>, arr: seq<Value>, n: nat, lg: nat, lc: nat)
    requires n <= |arr|
  {
    |nums| == MAXABITS + 1
      && forall x :: 0 <= x <= MAXABITS ==> nums[x] + (if x == lg then lc else 0) == CountSlice(SlotKeys(arr, n), x)
  }

  lemma SlicedStep(nums: seq<nat>, arr: seq<Value>, n: nat, lg: nat, lc: nat)
    requires n < |arr| && InSlice(n + 1, lg) && Sliced(nums, arr, n, lg, lc)
    ensures Sliced(nums, arr, n + 1, lg, if arr[n].Nil? then lc else lc + 1)
  {
    if !arr[n].Nil? {
      CountAppend(SlotKeys(arr, n), n + 1);
      OneSlice(n + 1, lg);
    }
  }

  datatype Following = Entry(key: Key, value: int) | End | Invalid

  /** Entry number `p`: the slots of the array part come first, then the nodes. */
  function EntryKey(arr: seq<Value>, nodes: seq<Node>, p: nat): Key
    requires p < |arr| + |nodes| && |arr| <= MAXASIZE
  {
    if p < |arr| then KInt(p + 1) else nodes[p - |arr|].key
  }

  function EntryValue(arr: seq<Value>, nodes: seq<Node>, p: nat): Value
    requires p < |arr| + |nodes|
  {
    if p < |arr| then arr[p] else nodes[p - |arr|].val
  }

  /** A traversal goes on from entry `p` after it has come to key `k`. */
  ghost predicate GoesOn(arr: seq<Value>, nodes: seq<Node>, k: Key, p: nat) {
    if k == KNil then p == 0
    else if InArray(k, |arr|) then p == Index(k)
    else
      && |arr| < p <= |arr| + |nodes| && nodes[p - 1 - |arr|].key == Norm(k)
      && (HasNode(nodes, Norm(k)) ==> !nodes[p - 1 - |arr|].dead)
  }

  /** The traversal has come to entry `q`, or to the end. */
  ghost predicate ComesTo(arr: seq<Value>, nodes: seq<Node>, r: Following, q: nat)
    requires |arr| <= MAXASIZE
  {
    match r
    case Entry(k, v) => q < |arr| + |nodes| && EntryKey(arr, nodes, q) == k && EntryValue(arr, nodes, q) == Val(v)
    case End => q == |arr| + |nodes|
    case Invalid => false
  }

  /** The entries with a value among the first `p`, in order. */
  ghost function Entries(arr: seq<Value>, nodes: seq<Node>, p: nat): (es: seq<(Key, int)>)
    requires p <= |arr| + |nodes| && |arr| <= MAXASIZE
  {
    if p == 0 then []
    else
      var v := EntryValue(arr, nodes, p - 1);
      if v.Val? then Entries(arr, nodes, p - 1) + [(EntryKey(arr, nodes, p - 1), v.n)] else Entries(arr, nodes, p - 1)
  }

  lemma {:induction false} SkipNils(arr: seq<Value>, nodes: seq<Node>, p: nat, q: nat)
    requires p <= q <= |arr| + |nodes| && |arr| <= MAXASIZE
    requires forall x :: p <= x < q ==> EntryValue(arr, nodes, x).Nil?
    ensures Entries(arr, nodes, q) == Entries(arr, nodes, p)
  {
    if p < q {
      SkipNils(arr, nodes, p, q - 1);
    }
  }

  /** The keys are the same as in `arr0` and `nodes0`, and from entry `q` on so are the values. */
  ghost predicate SameFrom(arr: seq<Value>, nodes: seq<Node>, arr0: seq<Value>, nodes0: seq<Node>, q: nat) {
    && |arr| == |arr0| <= MAXASIZE && |nodes| == |nodes0|
    && (forall x {:trigger EntryKey(arr, nodes, x)} :: 0 <= x < |arr| + |nodes| ==>
      EntryKey(arr, nodes, x) == EntryKey(arr0, nodes0, x))
    && (forall x {:trigger EntryValue(arr, nodes, x)} {:trigger EntryValue(arr0, nodes0, x)} ::
      q <= x < |arr| + |nodes| ==> EntryValue(arr, nodes, x) == EntryValue(arr0, nodes0, x))
  }

  /** The next entry that a traversal comes to is the next one that was there in the beginning. */
  lemma SkipSame(arr: seq<Value>, nodes: seq<Node>, arr0: seq<Value>, nodes0: seq<Node>, p: nat, q: nat)
    requires SameFrom(arr, nodes, arr0, nodes0, p) && p <= q <= |arr| + |nodes|
    requires forall x :: p <= x < q ==> EntryValue(arr, nodes, x).Nil?
    ensures Entries(arr0, nodes0, q) == Entries(arr0, nodes0, p) && SameFrom(arr, nodes, arr0, nodes0, q)
  {
    forall x | p <= x < q ensures EntryValue(arr0, nodes0, x).Nil? {
      assert EntryValue(arr, nodes, x).Nil?;
    }
    SkipNils(arr0, nodes0, p, q);
  }

  /** The entries listed up to `p` are those of `c` that are stored there. */
  ghost predicate Listed(c: map<Key, int>, es: seq<(Key, int)>) {
    && (forall i {:trigger es[i]} :: 0 <= i < |es| ==> es[i].0 in c && c[es[i].0] == es[i].1)
    && (forall i, j {:trigger es[i], es[j]} :: 0 <= i < j < |es| ==> es[i].0 != es[j].0)
  }

  lemma {:induction false} EntriesListed(arr: seq<Value>, nodes: seq<Node>, c: map<Key, int>, p: nat)
    requires Holds(arr, nodes, c) && p <= |arr| + |nodes|
    ensures Listed(c, Entries(arr, nodes, p))
    ensures forall e :: e in Entries(arr, nodes, p) ==>
      exists x :: 0 <= x < p && EntryKey(arr, nodes, x) == e.0 && EntryValue(arr, nodes, x) == Val(e.1)
  {
    if p > 0 {
      EntriesListed(arr, nodes, c, p - 1);
      EntryTied(arr, nodes, c, p - 1);
      var es, k := Entries(arr, nodes, p - 1), EntryKey(arr, nodes, p - 1);
      if EntryValue(arr, nodes, p - 1).Val? {
        forall i | 0 <= i < |es| ensures es[i].0 != k {
          assert es[i] in es;
          var x :| 0 <= x < p - 1 && EntryKey(arr, nodes, x) == es[i].0 && EntryValue(arr, nodes, x) == Val(es[i].1);
          EntryTied(arr, nodes, c, x);
        }
      }
    }
  }

  lemma EntryTied(arr: seq<Value>, nodes: seq<Node>, c: map<Key, int>, p: nat)
    requires Holds(arr, nodes, c) && p < |arr| + |nodes|
    ensures EntryValue(arr, nodes, p).Val? ==> Tied(c, EntryKey(arr, nodes, p), EntryValue(arr, nodes, p))
    ensures EntryValue(arr, nodes, p).Val? ==> EntryKey(arr, nodes, p) != KNil && (p >= |arr| ==>
      !InArray(EntryKey(arr, nodes, p), |arr|) && Matches(nodes[p - |arr|], EntryKey(arr, nodes, p))
        && Storable(nodes[p - |arr|].key))
  {
    if p >= |arr| {
      assert EntryOk(c, |arr|, nodes[p - |arr|]);
    }
  }

  /** All entries are listed. */
  lemma EntriesAll(arr: seq<Value>, nodes: seq<Node>, c: map<Key, int>)
    requires Holds(arr, nodes, c)
    ensures Listed(c, Entries(arr, nodes, |arr| + |nodes|))
    ensures forall k :: k in c ==> (k, c[k]) in Entries(arr, nodes, |arr| + |nodes|)
  {
    EntriesListed(arr, nodes, c, |arr| + |nodes|);
    forall k | k in c ensures (k, c[k]) in Entries(arr, nodes, |arr| + |nodes|) {
      var x := EntryOf(arr, nodes, c, k);
      EntryThere(arr, nodes, x, |arr| + |nodes|);
    }
  }

  /** Where the entry of a key is. */
  lemma EntryOf(arr: seq<Value>, nodes: seq<Node>, c: map<Key, int>, k: Key) returns (x: nat)
    requires Holds(arr, nodes, c) && k in c
    ensures x < |arr| + |nodes| && EntryKey(arr, nodes, x) == k && EntryValue(arr, nodes, x) == Val(c[k])
  {
    if InArray(k, |arr|) {
      x := Index(k) - 1;
      assert Tied(c, KInt(x + 1), arr[x]);
    } else {
      var i :| 0 <= i < |nodes| && Matches(nodes[i], k);
      assert EntryOk(c, |arr|, nodes[i]);
      x := |arr| + i;
    }
  }

  lemma {:induction false} EntryThere(arr: seq<Value>, nodes: seq<Node>, x: nat, p: nat)
    requires x < p <= |arr| + |nodes| && |arr| <= MAXASIZE && EntryValue(arr, nodes, x).Val?
    ensures (EntryKey(arr, nodes, x), EntryValue(arr, nodes, x).n) in Entries(arr, nodes, p)
  {
    if x < p - 1 {
      EntryThere(arr, nodes, x, p - 1);
    }
  }

  /** The first node of the chain with key `k`, dead or not, is `n` or comes after it. */
  ghost predicate FoundFirst(nodes: seq<Node>, l: Links, k: Key, n: int)
    requires |l.cid| == |nodes| == |l.pos|
  {
    forall x :: 0 <= x < |nodes| && nodes[x].key == k ==> x == n || x in After(nodes, l, n)
  }

  /** A node with key `k`, dead or not, is `m` or comes after it on its chain. */
  ghost predicate OnChain(nodes: seq<Node>, l: Links, m: int, k: Key)
    requires |l.cid| == |nodes| == |l.pos|
  {
    exists x {:trigger nodes[x]} :: 0 <= x < |nodes| && nodes[x].key == k && (x == m || x in After(nodes, l, m))
  }

  lemma ChainOn(h: Hashes, nodes: seq<Node>, l: Links, n: int, k: Key)
    requires Chained(h, nodes, l) && 0 <= n < |nodes| && nodes[n].key != k
    ensures nodes[n].next != 0 ==> var j := n + nodes[n].next;
      0 <= j < |nodes| && (OnChain(nodes, l, n, k) <==> OnChain(nodes, l, j, k))
    ensures if nodes[n].next == 0 then !OnChain(nodes, l, n, k) else Used(nodes[n])
  {
    hide Together, After;
    assert NodeOk(h, nodes, l, n);
    if nodes[n].next == 0 {
      WalkEnds(h, nodes, l, n);
    } else {
      WalkOn(h, nodes, l, n);
      NextAfter(h, nodes, l, n);
    }
  }

  lemma NextAfter(h: Hashes, nodes: seq<Node>, l: Links, n: int)
    requires Chained(h, nodes, l) && 0 <= n < |nodes| && Used(nodes[n]) && nodes[n].next != 0
    ensures n + nodes[n].next in After(nodes, l, n)
  {
    assert NodeOk(h, nodes, l, n) && Together(nodes, l, n, n + nodes[n].next);
  }

  lemma FoundLive(arr: seq<Value>, nodes: seq<Node>, l: Links, c: map<Key, int>, key: Key, n: nat)
    requires Holds(arr, nodes, c) && |l.cid| == |nodes| == |l.pos| && LiveFirst(nodes, l)
    requires key != KNil && n < |nodes| && nodes[n].key == Norm(key)
    requires (Norm(key) == key ==> FoundFirst(nodes, l, key, n))
    requires !InArray(key, |arr|)
    ensures GoesOn(arr, nodes, key, n + 1 + |arr|)
    ensures !InArray(Norm(key), |arr|)
  {
    assert EntryOk(c, |arr|, nodes[n]);
    if nodes[n].dead && HasNode(nodes, Norm(key)) {
      var i :| 0 <= i < |nodes| && Matches(nodes[i], Norm(key));
      assert Shadows(nodes, i, n);
    }
  }

  /** Where a key is stored. */
  lemma OneIndex(arr: seq<Value>, nodes: seq<Node>, c: map<Key, int>, k: Key, q: nat)
    requires Holds(arr, nodes, c) && q < |arr| + |nodes| && EntryKey(arr, nodes, q) == k
    requires EntryValue(arr, nodes, q).Val?
    ensures Storable(k) && (k in c)
    ensures if q < |arr| then InArray(k, |arr|) else !InArray(k, |arr|) && Matches(nodes[q - |arr|], k)
  {
    EntryTied(arr, nodes, c, q);
  }

  ghost predicate CellAt(asize: nat, q: nat, cell: Cell) {
    if q < asize then cell == Slot(q) else cell == OfNode(q - asize)
  }

  lemma OneCell(arr: seq<Value>, nodes: seq<Node>, c: map<Key, int>, k: Key, q: nat, cell: Cell)
    requires Holds(arr, nodes, c) && q < |arr| + |nodes| && EntryKey(arr, nodes, q) == k
    requires EntryValue(arr, nodes, q).Val?
    requires match cell
      case Slot(i) => i < |arr| && k == KInt(i + 1)
      case OfNode(i) => i < |nodes| && Matches(nodes[i], k)
    ensures CellAt(|arr|, q, cell)
  {
    OneIndex(arr, nodes, c, k, q);
    Lookup(arr, nodes, c, k);
  }

  lemma WriteSame(arr: seq<Value>, nodes: seq<Node>, arr1: seq<Value>, nodes1: seq<Node>, arr0: seq<Value>,
      nodes0: seq<Node>, q: nat, cell: Cell)
    requires q < |arr| + |nodes| && CellAt(|arr|, q, cell) && SameFrom(arr, nodes, arr0, nodes0, q)
    requires match cell
      case Slot(i) => arr1 == arr[i := Nil] && nodes1 == nodes
      case OfNode(i) => arr1 == arr && nodes1 == nodes[i := nodes[i].(val := Nil)]
    ensures SameFrom(arr1, nodes1, arr0, nodes0, q + 1)
  {
    forall x | 0 <= x < |arr| + |nodes| ensures EntryKey(arr1, nodes1, x) == EntryKey(arr0, nodes0, x) {
      assert EntryKey(arr, nodes, x) == EntryKey(arr0, nodes0, x);
    }
    forall x | q + 1 <= x < |arr| + |nodes| ensures EntryValue(arr1, nodes1, x) == EntryValue(arr0, nodes0, x) {
      assert EntryValue(arr, nodes, x) == EntryValue(arr0, nodes0, x);
    }
  }

  /** A traversal that has come to entry `q` can only go on after it. */
  lemma OneWay(arr: seq<Value>, nodes: seq<Node>, c: map<Key, int>, k: Key, q: nat)
    requires Holds(arr, nodes, c) && q < |arr| + |nodes| && Storable(k)
    requires if q < |arr| then k == KInt(q + 1) else !InArray(k, |arr|) && Matches(nodes[q - |arr|], k)
    ensures forall p: nat :: GoesOn(arr, nodes, k, p) ==> p == q + 1
  {
    forall p: nat | GoesOn(arr, nodes, k, p) ensures p == q + 1 {
      if q >= |arr| {
        assert HasNode(nodes, k) && Matches(nodes[p - 1 - |arr|], k);
      }
    }
  }

  /** What a traversal leaves that has seen `seen` and cleared some of it. */
  ghost function Remaining(c: map<Key, int>, seen: seq<(Key, int)>, clear: Key -> bool): map<Key, int> {
    map k | k in c && !(clear(k) && Seen(seen, k)) :: c[k]
  }

  ghost predicate Seen(seen: seq<(Key, int)>, k: Key) {
    exists i :: 0 <= i < |seen| && seen[i].0 == k
  }

  lemma RemainingStep(c: map<Key, int>, seen: seq<(Key, int)>, clear: Key -> bool, k: Key, v: int)
    ensures Remaining(c, seen + [(k, v)], clear)
         == if clear(k) then Remaining(c, seen, clear) - {k} else Remaining(c, seen, clear)
  {
    var more := seen + [(k, v)];
    forall x ensures Seen(more, x) <==> x == k || Seen(seen, x) {
      if i :| 0 <= i < |seen| && seen[i].0 == x {
        assert more[i].0 == x;
      }
      assert more[|seen|].0 == k;
    }
  }

  /** A traversal has seen every entry of `c0` once, and left those it did not clear. */
  ghost predicate Traversed(c0: map<Key, int>, c: map<Key, int>, seen: seq<(Key, int)>, clear: Key -> bool) {
    && Listed(c0, seen)
    && (forall k {:trigger k in c0} :: k in c0 ==> (k, c0[k]) in seen)
    && c == map k | k in c0 && !clear(k) :: c0[k]
  }

  lemma TraversedAll(arr: seq<Value>, nodes: seq<Node>, c: map<Key, int>, seen: seq<(Key, int)>, clear: Key -> bool)
    requires Holds(arr, nodes, c) && seen == Entries(arr, nodes, |arr| + |nodes|)
    ensures Traversed(c, Remaining(c, seen, clear), seen, clear)
  {
    EntriesAll(arr, nodes, c);
    forall k | k in c ensures Seen(seen, k) {
      var i :| 0 <= i < |seen| && seen[i] == (k, c[k]);
    }
  }

  const MAX_INT: nat := 0x7fff_ffff

  /** What the length operator may answer. */
  ghost predicate Border(c: map<Key, int>, n: nat) {
    n <= MAXASIZE && (n == 0 || KInt(n) in c) && KInt(n + 1) !in c
  }

  /** Keys 1 to `n` take `n` entries. */
  lemma {:induction false} RunBound(c: map<Key, int>, n: nat)
    requires n <= MAXASIZE && forall x: Integer :: 0 < x <= n ==> KInt(x) in c
    ensures n <= |c|
  {
    if n > 0 {
      var d := c - {KInt(n)};
      RunBound(d, n - 1);
      assert c.Keys == d.Keys + {KInt(n)};
      assert |c.Keys| == |c| && |d.Keys| == |d|;
    }
  }

  /** What follows from linking a new key after `mp`. */
  lemma Chaining(h: Hashes, arr: seq<Value>, nodes: seq<Node>, l: Links, c: map<Key, int>, mp: nat, f: nat, k: Key)
    requires Chained(h, nodes, l) && LiveFirst(nodes, l) && f < |nodes| && FreeBelow(nodes, f + 1)
    requires Holds(arr, nodes, c)
    requires Storable(k) && !InArray(k, |arr|) && !HasNode(nodes, k) && mp < |nodes| && mp == MainPos(h, k, |nodes|)
    requires nodes[mp].val.Val? && MainPos(h, nodes[mp].key, |nodes|) == mp && !Used(nodes[f])
    ensures nodes[f] == EMPTY && (nodes[mp].next != 0 ==> 0 <= mp + nodes[mp].next < |nodes|)
    ensures Chained(h, PutAfter(nodes, mp, f, k), LinksAfter(nodes, l, mp, f))
    ensures LiveFirst(PutAfter(nodes, mp, f, k), LinksAfter(nodes, l, mp, f))
    ensures Holds(arr, PutAfter(nodes, mp, f, k), c) && FreeBelow(PutAfter(nodes, mp, f, k), f)
    ensures |Unused(PutAfter(nodes, mp, f, k))| >= |Unused(nodes)| - 1
  {
    assert NodeOk(h, nodes, l, mp) && NodeOk(h, nodes, l, f) && EntryOk(c, |arr|, nodes[mp]);
    InsertAfter(h, nodes, l, mp, f, k);
    FirstAfter(h, nodes, l, mp, f, k);
    NewEntry(arr, nodes, PutAfter(nodes, mp, f, k), c, k, f, f, f);
    UseOne(nodes, PutAfter(nodes, mp, f, k), f);
  }

  /**
   What happens to a table: a store, the collector's marking of the dead key of node `i`, or the growth of the
   array part for a list of values (OP_SETLIST).
   */
  datatype Op = Store(key: Key, value: Value) | Kill(i: nat) | Widen(size: nat)

  /** The last value that was stored under `k`; nothing else changes it. */
  ghost function LastStored(c: map<Key, int>, ops: seq<Op>, k: Key): Value {
    if ops == [] then if k in c then Val(c[k]) else Nil
    else
      var op := ops[|ops| - 1];
      if op.Store? && StoredAs(op.key, k) then op.value else LastStored(c, ops[..|ops| - 1], k)
  }

  ghost predicate HasLast(c: map<Key, int>, c0: map<Key, int>, ops: seq<Op>) {
    forall k {:trigger Storable(k)} :: Storable(k) ==> Tied(c, k, LastStored(c0, ops, k))
  }

  /** What an operation does to the contents. */
  ghost function Performed(c: map<Key, int>, op: Op): map<Key, int> {
    if op.Store? && op.key != KNil && op.key != KNaN then Updated(c, Norm(op.key), op.value) else c
  }

  lemma NoneCounted(a: seq<Value>)
    ensures SlotKeys(a, 0) == [] && forall x {:trigger CountSlice([], x)} :: x >= 0 ==> CountSlice([], x) == 0
  {
  }

  lemma KeyStored(key: Key)
    ensures forall k {:trigger StoredAs(key, k)} :: StoredAs(key, k) <==> k == Norm(key)
  {
    forall k ensures StoredAs(key, k) <==> k == Norm(key) {
      StoredOnce(key, k);
    }
  }

  /** A float that equals an integer reads and writes what the integer does. */
  lemma FloatKey(i: Integer, k: Key)
    ensures StoredAs(KFlt(i as real), k) <==> k == KInt(i)
  {
    StoredOnce(KFlt(i as real), k);
    assert (i as real).Floor == i;
  }

  /** All other keys are stored as themselves. */
  lemma OtherKey(key: Key)
    requires key.KFlt? ==> forall i: Integer {:trigger i as real} :: key.r != i as real
    ensures forall k {:trigger StoredAs(key, k)} :: StoredAs(key, k) <==> k == key
  {
  }

  lemma OpLast(c: map<Key, int>, c0: map<Key, int>, ops: seq<Op>, op: Op)
    requires HasLast(c, c0, ops)
    ensures HasLast(Performed(c, op), c0, ops + [op])
  {
    if op.Store? {
      KeyStored(op.key);
    }
    assert (ops + [op])[..|ops|] == ops;
  }

  /** The entries of a hash part never need more nodes than it has. */
  lemma {:induction false} FewNodes(nodes: seq<Node>, n: nat, asize: nat)
    requires n <= |nodes|
    ensures LiveNodes(nodes, n, asize) <= n
    ensures nodes == [EMPTY] ==> LiveNodes(nodes, n, asize) == 0
  {
    if n > 0 {
      FewNodes(nodes, n - 1, asize);
    }
  }

  lemma UpdatedSize(c: map<Key, int>, k: Key, v: Value)
    ensures |Updated(c, k, v)| <= |c| + 1
  {
    assert |c.Keys| == |c| && |Updated(c, k, v).Keys| == |Updated(c, k, v)|;
    assert Updated(c, k, v).Keys == if v.Nil? then c.Keys - {k} else c.Keys + {k};
  }

  lemma PerformedSize(c: map<Key, int>, op: Op)
    ensures |Performed(c, op)| <= |c| + 1
  {
    if op.Store? {
      UpdatedSize(c, Norm(op.key), op.value);
    }
  }

  lemma NothingYet(c: map<Key, int>)
    ensures HasLast(c, c, [])
  {
  }

  class Table {
    const h: Hashes
    var arr: array<Value>
    var lsizenode: nat
    var node: array<Node>
    var dummy: bool
    var lastfree: nat
    ghost var links: Links
    ghost var contents: map<Key, int>

    ghost predicate Valid()
      reads this, arr, node
    {
      && HashOk(h, node[..], dummy, lastfree, links)
      && Holds(arr[..], node[..], contents)
      && node.Length == Pow2(lsizenode) && lsizenode <= MAXHBITS
    }

    /** The nodes that a new key could still get. */
    ghost function Free(): nat
      reads this, node
    {
      if dummy then 0 else |Unused(node[..])|
    }

    ghost predicate Present(k: Key)
      reads this, arr, node
    {
      InArray(k, arr.Length) || HasNode(node[..], k)
    }

    ghost predicate At(c: Cell, k: Key)
      reads this, arr, node
    {
      match c
      case Slot(i) => i < arr.Length && i < MAXASIZE && k == KInt(i + 1)
      case OfNode(i) => i < node.Length && k != KNil && Matches(node[i], k)
    }

    /** `luaH_new`. */
    constructor (hashes: Hashes)
      ensures Valid() && contents == map[] && fresh(arr) && fresh(node) && h == hashes
    {
      h := hashes;
      arr := new Value[0];
      node := new Node[1](_ => EMPTY);
      lsizenode, dummy, lastfree := 0, true, 0;
      links, contents := Unlinked(1), map[];
      new;
      EmptyHash(h, node[..], true, 0);
    }

    // ----- searching -----

    method FindNode(k: Key) returns (c: Option<Cell>)
      requires Valid() && k != KNil
      ensures match c case None => !HasNode(node[..], k) case Some(cell) => cell.OfNode? && At(cell, k)
    {
      var n := MainPos(h, k, node.Length);
      WalkStarts(h, node[..], links, k);
      while !Matches(node[n], k)
        invariant 0 <= n < node.Length
        invariant forall i :: 0 <= i < node.Length && Matches(node[..][i], k) ==>
          i == n || i in After(node[..], links, n)
        decreases After(node[..], links, n)
      {
        var nx := node[n].next;
        if nx == 0 {
          WalkEnds(h, node[..], links, n);
          return None;
        }
        assert NodeOk(h, node[..], links, n);
        WalkOn(h, node[..], links, n);
        n := n + nx;
      }
      return Some(OfNode(n));
    }

    method GetInt(i: Integer) returns (c: Option<Cell>)
      requires Valid()
      ensures match c case None => !Present(KInt(i)) case Some(cell) => At(cell, KInt(i)) && Present(KInt(i))
    {
      if 0 <= i - 1 < arr.Length {
        return Some(Slot(i - 1));
      }
      c := FindNode(KInt(i));
    }

    method Get(k: Key) returns (c: Option<Cell>)
      requires Valid()
      ensures match c case None => !Present(Norm(k)) case Some(cell) => At(cell, Norm(k)) && Present(Norm(k))
    {
      match k
      case KNil => return None;
      case KInt(i) => c := GetInt(i);
      case KFlt(r) =>
        var n := Norm(k);
        if n.KInt? {
          c := GetInt(n.i);
        } else {
          c := FindNode(k);
        }
      case _ => c := FindNode(k);
    }

    /** What `t[k]` gives. */
    method RawGet(k: Key) returns (v: Value)
      requires Valid()
      ensures Tied(contents, Norm(k), v)
      ensures forall k1 {:trigger StoredAs(k, k1)} :: StoredAs(k, k1) ==> Tied(contents, k1, v)
    {
      KeyStored(k);
      var c := Get(k);
      if Norm(k) != KNil {
        Lookup(arr[..], node[..], contents, Norm(k));
      }
      match c
      case None => v := Nil;
      case Some(Slot(i)) => v := arr[i];
      case Some(OfNode(i)) => v := node[i].val;
    }

    // ----- inserting a new key -----

    method GetFreePos() returns (f: Option<nat>)
      requires Valid()
      modifies `lastfree
      ensures match f
        case None => Free() == 0 && Valid()
        case Some(i) => Ready(i)
    {
      while lastfree > 0
        invariant lastfree <= old(lastfree) && (dummy ==> lastfree == 0)
        invariant forall i :: lastfree <= i < node.Length ==> dummy || Used(node[..][i])
      {
        lastfree := lastfree - 1;
        if node[lastfree].key == KNil {
          return Some(lastfree);
        }
      }
      assert dummy || Unused(node[..]) == {};
      return None;
    }

    /** `getfreepos` has just handed out node `f`. */
    ghost predicate Ready(f: nat)
      reads this, arr, node
    {
      && !dummy && lastfree == f < node.Length && !Used(node[f])
      && Chained(h, node[..], links) && LiveFirst(node[..], links) && FreeBelow(node[..], f + 1)
      && Holds(arr[..], node[..], contents)
      && node.Length == Pow2(lsizenode) && lsizenode <= MAXHBITS
    }

    /** The main position of the new key is not taken. */
    method UseMain(mp: nat, k: Key)
      requires Valid() && !dummy && Storable(k) && !Present(k) && mp == MainPos(h, k, node.Length) && node[mp].val.Nil?
      modifies node, `links
      ensures Valid() && Free() >= old(Free()) - 1
      ensures At(OfNode(mp), k) && node[mp].val == Nil
    {
      ghost var nodes := node[..];
      assert NodeOk(h, nodes, links, mp);
      FirstReuse(h, nodes, links, mp, k);
      if Used(nodes[mp]) {
        InsertReuse(h, nodes, links, mp, k);
      } else {
        InsertFree(h, nodes, links, mp, k);
        links := Links(links.cid[mp := links.unused], links.pos[mp := 0.0], links.unused + 1);
      }
      node[mp] := node[mp].(key := k, dead := false);
      assert node[..] == nodes[mp := Fresh(k, nodes[mp].next)];
      NewEntry(arr[..], nodes, node[..], contents, k, mp, mp, mp);
      UseOne(nodes, node[..], mp);
    }

    /** The colliding node is in its own main position: the new key goes to the free node, linked after it. */
    method ChainAfter(mp: nat, f: nat, k: Key)
      requires Ready(f) && Storable(k) && !Present(k) && mp == MainPos(h, k, node.Length) && node[mp].val.Val?
      requires MainPos(h, node[mp].key, node.Length) == mp
      modifies node, `links
      ensures Valid() && Free() >= old(Free()) - 1
      ensures At(OfNode(f), k) && node[f].val == Nil
    {
      Chaining(h, arr[..], node[..], links, contents, mp, f, k);
      links := LinksAfter(node[..], links, mp, f);
      LinkNode(mp, f, k);
    }

    method LinkNode(mp: nat, f: nat, k: Key)
      requires mp < node.Length && f < node.Length && mp != f && node[f] == EMPTY
      modifies node
      ensures node[..] == PutAfter(old(node[..]), mp, f, k)
    {
      if node[mp].next != 0 {
        node[f] := node[f].(next := mp + node[mp].next - f);
      }
      node[mp] := node[mp].(next := f - mp);
      node[f] := node[f].(key := k, dead := false);
    }

    /** The node before `mp` in its chain, starting from the main position of its key. */
    method FindPrevious(mp: nat) returns (p: nat)
      requires Chained(h, node[..], links) && mp < node.Length && Used(node[mp])
      requires MainPos(h, node[mp].key, node.Length) != mp
      ensures p < node.Length && Used(node[p]) && node[p].next != 0 && p + node[p].next == mp
    {
      p := MainPos(h, node[mp].key, node.Length);
      assert NodeOk(h, node[..], links, mp);
      assert Together(node[..], links, p, mp);
      WalkToPredecessor(h, node[..], links, p, mp);
      while p + node[p].next != mp
        invariant 0 <= p < node.Length && Together(node[..], links, p, mp) && links.pos[p] < links.pos[mp]
        invariant node[p].next != 0
        decreases After(node[..], links, p)
      {
        WalkToPredecessor(h, node[..], links, p, mp);
        p := p + node[p].next;
        WalkToPredecessor(h, node[..], links, p, mp);
      }
    }

    /** Copies node `mp` to `f`, relinking its predecessor, and gives it the new key. */
    method MoveNode(mp: nat, f: nat, othern: nat, k: Key)
      requires mp < node.Length && f < node.Length && othern < node.Length && mp != f && othern != f && othern != mp
      modifies node
      ensures node[..] == MoveOut(old(node[..]), mp, f, othern, k)
    {
      node[othern] := node[othern].(next := f - othern);
      node[f] := node[mp];
      if node[mp].next != 0 {
        node[f] := node[f].(next := node[f].next + (mp - f));
        node[mp] := node[mp].(next := 0);
      }
      node[mp] := node[mp].(val := Nil);
      node[mp] := node[mp].(key := k, dead := false);
    }

    /** The colliding node is out of its main position: it moves to the free node, and the new key takes its place. */
    method MoveColliding(mp: nat, f: nat, k: Key)
      requires Ready(f) && Storable(k) && !Present(k) && mp == MainPos(h, k, node.Length) && node[mp].val.Val?
      requires MainPos(h, node[mp].key, node.Length) != mp
      modifies node, `links
      ensures Valid() && Free() >= old(Free()) - 1
      ensures At(OfNode(mp), k) && node[mp].val == Nil
    {
      ghost var nodes := node[..];
      assert EntryOk(contents, arr.Length, nodes[mp]) && Used(nodes[mp]);
      var othern := FindPrevious(mp);
      Moving(h, arr[..], nodes, links, contents, mp, f, othern, k);
      links := LinksMoved(links, mp, f);
      MoveNode(mp, f, othern, k);
    }

    /** Writes the value of a cell. */
    method Assign(c: Cell, ghost k: Key, v: Value)
      requires Valid() && At(c, k)
      modifies arr, node, `contents
      ensures Valid() && contents == Updated(old(contents), k, v) && Free() == old(Free())
      ensures arr[..] == if c.Slot? then old(arr[..])[c.i := v] else old(arr[..])
      ensures node[..] == if c.Slot? then old(node[..]) else old(node[..])[c.i := old(node[c.i]).(val := v)]
    {
      match c {
      case Slot(i) =>
        WriteSlot(arr[..], node[..], contents, i, v);
        ghost var a := arr[..];
        arr[i] := v;
        assert arr[..] == a[i := v];
      case OfNode(i) =>
        WriteNode(arr[..], node[..], contents, i, k, v);
        ghost var nodes := node[..];
        node[i] := node[i].(val := v);
        assert node[..] == nodes[i := nodes[i].(val := v)];
        SameLinks(h, nodes, node[..], links);
        assert forall x, y :: Shadows(node[..], x, y) ==> Shadows(nodes, x, y);
        assert Unused(nodes) == Unused(node[..]);
      }
      contents := Updated(contents, k, v);
    }

    /** The collector marks the key of an empty entry as dead (`removeentry` in lgc.c). */
    method KillKey(i: nat)
      requires Valid() && i < node.Length && Collectable(node[i].key) && node[i].val.Nil?
      modifies node
      ensures Valid() && Free() == old(Free()) && contents == old(contents)
    {
      ghost var nodes := node[..];
      KillNode(arr[..], nodes, contents, i);
      node[i] := node[i].(dead := true);
      assert node[..] == nodes[i := nodes[i].(dead := true)];
      SameLinks(h, nodes, node[..], links);
      assert forall x, y :: Shadows(node[..], x, y) ==> Shadows(nodes, x, y);
      assert Unused(nodes) == Unused(node[..]);
    }

    // ----- rehash -----

    /** Counts the values in slots `first` to `lim`, which are all in slice `lg`. */
    method CountRange(first: nat, lim: nat, lg: nat, ghost nums: seq<nat>) returns (i: nat, lc: nat)
      requires 0 < first <= lim + 1 <= arr.Length + 1 && lim <= Pow2(lg) && (lg > 0 ==> Pow2(lg - 1) < first)
      requires Sliced(nums, arr[..], first - 1, lg, 0)
      ensures i == lim + 1 && Sliced(nums, arr[..], lim, lg, lc)
      ensures lc == |SlotKeys(arr[..], lim)| - |SlotKeys(arr[..], first - 1)|
    {
      i, lc := first, 0;
      while i <= lim
        invariant first <= i <= lim + 1
        invariant lc == |SlotKeys(arr[..], i - 1)| - |SlotKeys(arr[..], first - 1)|
        invariant Sliced(nums, arr[..], i - 1, lg, lc)
      {
        SlicedStep(nums, arr[..], i - 1, lg, lc);
        if !arr[i - 1].Nil? {
          lc := lc + 1;
        }
        i := i + 1;
      }
    }

    /** Counts the keys of the array part in their slices. */
    method NumUseArray(nums: array<nat>) returns (ause: nat)
      requires arr.Length <= MAXASIZE && nums.Length == MAXABITS + 1 && forall i :: 0 <= i <= MAXABITS ==> nums[i] == 0
      modifies nums
      ensures ause == |SlotKeys(arr[..], arr.Length)|
      ensures forall x :: 0 <= x <= MAXABITS ==> nums[x] == CountSlice(SlotKeys(arr[..], arr.Length), x)
    {
      hide InSlice, CountLe, Distinct, IndexKeys, CountSlice, SlotKeys;
      var lg, ttlg, i := 0, 1, 1;
      ause := 0;
      Pow2Max();
      NoneCounted(arr[..]);
      while lg <= MAXABITS
        invariant lg <= MAXABITS + 1 && ttlg == Pow2(lg) && 1 <= i <= arr.Length + 1
        invariant i == 1 + if lg == 0 then 0 else if Pow2(lg - 1) < arr.Length then Pow2(lg - 1) else arr.Length
        invariant ause == |SlotKeys(arr[..], i - 1)|
        invariant forall x :: 0 <= x <= MAXABITS ==> nums[x] == CountSlice(SlotKeys(arr[..], i - 1), x)
      {
        var lc, lim := 0, ttlg;
        if lim > arr.Length {
          lim := arr.Length;
          if i > lim {
            break;
          }
        }
        i, lc := CountRange(i, lim, lg, nums[..]);
        nums[lg] := nums[lg] + lc;
        ause := ause + lc;
        lg, ttlg := lg + 1, ttlg * 2;
      }
    }

    /** Counts the entries of the hash part, and its array indices in their slices. */
    method NumUseHash(nums: array<nat>) returns (totaluse: nat, ause: nat)
      requires nums.Length == MAXABITS + 1
      modifies nums
      ensures totaluse == LiveNodes(node[..], node.Length, 0)
      ensures ause == |NodeKeys(node[..], 0)|
      ensures forall x :: 0 <= x <= MAXABITS ==> nums[x] == old(nums[x]) + CountSlice(NodeKeys(node[..], 0), x)
    {
      totaluse, ause := 0, 0;
      var i := node.Length;
      while i > 0
        invariant 0 <= i <= node.Length
        invariant totaluse == LiveNodes(node[..], node.Length, 0) - LiveNodes(node[..], i, 0)
        invariant ause == |NodeKeys(node[..], i)|
        invariant forall x :: 0 <= x <= MAXABITS ==> nums[x] == old(nums[x]) + CountSlice(NodeKeys(node[..], i), x)
      {
        i := i - 1;
        if !node[i].val.Nil? {
          CountAppend(NodeKeys(node[..], i + 1), Index(node[i].key));
          var n := CountInt(node[i].key, nums);
          ause := ause + n;
          totaluse := totaluse + 1;
        }
      }
    }

    method CountInt(key: Key, nums: array<nat>) returns (n: nat)
      requires nums.Length == MAXABITS + 1
      modifies nums
      ensures n == if Index(key) > 0 then 1 else 0
      ensures forall x :: 0 <= x <= MAXABITS ==>
        nums[x] == old(nums[x]) + if Index(key) > 0 && InSlice(Index(key), x) then 1 else 0
    {
      var k := Index(key);
      if k == 0 {
        return 0;
      }
      var l := CeilLog2(k);
      SliceBound(k, l);
      forall x ensures InSlice(k, x) <==> x == l {
        OneSlice(k, l);
      }
      nums[l] := nums[l] + 1;
      return 1;
    }

    /** `setarrayvector`: the array part gets size `size`, and keeps what fits. */
    method SetArrayVector(size: nat)
      modifies `arr
      ensures fresh(arr) && arr.Length == size
      ensures forall i :: 0 <= i < size ==> arr[i] == if i < old(arr.Length) then old(arr[i]) else Nil
    {
      var oldarr := arr;
      arr := new Value[size](_ => Nil);
      for i := 0 to if size < oldarr.Length then size else oldarr.Length
        invariant arr.Length == size && fresh(arr)
        invariant forall k :: 0 <= k < size ==> arr[k] == if k < i then oldarr[k] else Nil
        modifies arr
      {
        arr[i] := oldarr[i];
      }
    }

    /** Gives the table new vectors; the entries that do not fit the array part are no longer in it. */
    method SetVectors(nasize: nat, nhsize: nat)
      requires Valid() && nasize <= MAXASIZE && nhsize <= Pow2(MAXHBITS)
      modifies this
      ensures Valid() && fresh(arr) && fresh(node) && arr.Length == nasize && Free() >= nhsize
      ensures Partial(contents, old(contents), old(arr[..]), if nasize < old(arr.Length) then nasize
        else old(arr.Length),
        old(node[..]), old(node.Length))
    {
      ghost var a, nodes, c := arr[..], node[..], contents;
      SetArrayVector(nasize);
      SetNodeVector(nhsize);
      contents := Staying(c, |a|, nasize);
      StartResize(a, nodes, c, arr[..], node[..]);
    }

    method SetNodeVector(size: nat)
      requires size <= Pow2(MAXHBITS)
      modifies `node, `dummy, `lsizenode, `lastfree, `links
      ensures fresh(node) && HashOk(h, node[..], dummy, lastfree, links) && Free() >= size
      ensures node.Length == Pow2(lsizenode) && lsizenode <= MAXHBITS
      ensures forall i :: 0 <= i < node.Length ==> node[i] == EMPTY
    {
      if size == 0 {
        NewNodes(0, true);
      } else {
        var lsize := CeilLog2(size);
        NotTooBig(size, lsize);
        NewNodes(lsize, false);
      }
    }

    method NewNodes(lsize: nat, noNodes: bool)
      requires noNodes ==> lsize == 0
      modifies `node, `dummy, `lsizenode, `lastfree, `links
      ensures fresh(node) && dummy == noNodes && lsizenode == lsize && node.Length == Pow2(lsize)
      ensures HashOk(h, node[..], dummy, lastfree, links) && (!dummy ==> Free() == node.Length)
      ensures forall i :: 0 <= i < node.Length ==> node[i] == EMPTY
    {
      var n := Power(lsize);
      node := new Node[n](_ => EMPTY);
      dummy, lsizenode, lastfree := noNodes, lsize, if noNodes then 0 else n;
      links := Unlinked(node.Length);
      EmptyHash(h, node[..], dummy, lastfree);
    }

    /** `luaH_resize`: the entries move to an array part and a hash part of new sizes. */
    method Resize(nasize: nat, nhsize: nat)
      requires Valid() && nasize <= MAXASIZE && Need(arr[..], node[..], nasize) <= nhsize <= Pow2(MAXHBITS)
      modifies this
      ensures Valid() && contents == old(contents)
      ensures fresh(arr) && fresh(node) && arr.Length == nasize
      ensures Free() >= nhsize - old(Need(arr[..], node[..], nasize))
      decreases 1, 0
    {
      var oldarr, oldnode := arr, node;
      ghost var c0, slack := contents, nhsize - Need(arr[..], node[..], nasize);
      SetVectors(nasize, nhsize);
      if nasize < oldarr.Length {
        ReinsertSlots(oldarr, nasize, oldnode, c0, slack);
      }
      ReinsertNodes(oldarr[..], oldnode, c0, slack);
    }

    /** The room that the entries still waiting will take. */
    ghost predicate Room(oldarr: seq<Value>, i: nat, oldnodes: seq<Node>, j: nat, slack: nat)
      requires j <= |oldnodes|
      reads this, arr, node
    {
      Free() >= slack + LiveSlots(oldarr, i) + LiveNodes(oldnodes, j, arr.Length)
    }

    method ReinsertSlots(oldarr: array<Value>, from: nat, oldnode: array<Node>, ghost c0: map<Key, int>,
        ghost slack: nat)
      requires Valid() && oldarr != arr && oldnode != node && from < oldarr.Length && Holds(oldarr[..], oldnode[..], c0)
      requires Partial(contents, c0, oldarr[..], from, oldnode[..], oldnode.Length)
      requires Room(oldarr[..], from, oldnode[..], oldnode.Length, slack)
      modifies this, arr, node
      ensures Valid() && arr == old(arr) && node == old(node)
      ensures Partial(contents, c0, oldarr[..], oldarr.Length, oldnode[..], oldnode.Length)
      ensures Room(oldarr[..], oldarr.Length, oldnode[..], oldnode.Length, slack)
      decreases 0, 5
    {
      var i := from;
      while i < oldarr.Length
        invariant from <= i <= oldarr.Length && Valid() && arr == old(arr) && node == old(node)
        invariant oldarr[..] == old(oldarr[..]) && oldnode[..] == old(oldnode[..])
        invariant Partial(contents, c0, oldarr[..], i, oldnode[..], oldnode.Length)
        invariant Room(oldarr[..], i, oldnode[..], oldnode.Length, slack)
      {
        PartialSlot(contents, c0, oldarr[..], i, oldnode[..]);
        SlotsGrow(oldarr[..], i + 1, oldarr.Length);
        if !oldarr[i].Nil? {
          var _ := Put(KInt(i + 1), oldarr[i]);
        }
        i := i + 1;
      }
    }

    method ReinsertNodes(ghost oldarr: seq<Value>, oldnode: array<Node>, ghost c0: map<Key, int>, ghost slack: nat)
      requires Valid() && oldnode != node && Holds(oldarr, oldnode[..], c0)
      requires Partial(contents, c0, oldarr, |oldarr|, oldnode[..], oldnode.Length)
      requires Room(oldarr, |oldarr|, oldnode[..], oldnode.Length, slack)
      modifies this, arr, node
      ensures Valid() && contents == c0 && arr == old(arr) && node == old(node) && Free() >= slack
      decreases 0, 5
    {
      var j := oldnode.Length;
      while j > 0
        invariant 0 <= j <= oldnode.Length && Valid() && arr == old(arr) && node == old(node)
        invariant oldnode[..] == old(oldnode[..])
        invariant Partial(contents, c0, oldarr, |oldarr|, oldnode[..], j)
        invariant Room(oldarr, |oldarr|, oldnode[..], j, slack)
      {
        j := j - 1;
        PartialNode(contents, c0, oldarr, oldnode[..], j);
        if !oldnode[j].val.Nil? {
          var _ := Put(oldnode[j].key, oldnode[j].val);
        }
      }
      PartialDone(contents, c0, oldarr, oldnode[..]);
    }

    method Rehash(ek: Key)
      requires Valid() && Storable(ek) && !Present(ek) && |contents| < Pow2(MAXHBITS)
      modifies this
      ensures Valid() && contents == old(contents)
      ensures fresh(arr) && fresh(node)
      ensures InArray(ek, arr.Length) || Free() > 0
      decreases 1, 1
    {
      var nums := new nat[MAXABITS + 1](_ => 0);
      var na := NumUseArray(nums);
      var totaluse, ause := NumUseHash(nums);
      totaluse := totaluse + na;
      na := na + ause;
      var n := CountInt(ek, nums);
      na := na + n;
      totaluse := totaluse + 1;
      ghost var a, nodes := arr[..], node[..];
      ghost var ks := AllKeys(a, nodes, ek);
      Counted(a, nodes, contents, ek);
      var asize, na' := ComputeSizes(nums, na, ks);
      Split(a, nodes, ek, asize);
      Resize(asize, totaluse - na');
    }

    // ----- storing -----

    method NewKey(key: Key) returns (r: Outcome)
      requires Valid() && !Present(Norm(key))
      requires Free() == 0 ==> |contents| < Pow2(MAXHBITS)
      modifies this, arr, node
      ensures Valid() && contents == old(contents)
      ensures arr == old(arr) || fresh(arr)
      ensures node == old(node) || fresh(node)
      ensures old(Free()) > 0 ==> arr == old(arr) && node == old(node) && Free() >= old(Free()) - 1
      ensures match r
        case Error(_) => (key == KNil && r == NO_INDEX_NIL) || (key == KNaN && r == NO_INDEX_NAN)
        case Done(c) => key != KNil && key != KNaN && At(c, Norm(key))
      decreases if Free() == 0 then 1 else 0, 2
    {
      hide Unused, FreeBelow, HashOk, At;
      var k := Norm(key);
      if k == KNil {
        return NO_INDEX_NIL;
      }
      if k == KNaN {
        return NO_INDEX_NAN;
      }
      var mp := MainPos(h, k, node.Length);
      if node[mp].val.Nil? && !dummy {
        UseMain(mp, k);
        return Done(OfNode(mp));
      }
      var free := GetFreePos();
      match free
      case None =>
        Rehash(k);
        r := Set(k);
      case Some(f) =>
        assert EntryOk(contents, arr.Length, node[..][mp]);
        if MainPos(h, node[mp].key, node.Length) != mp {
          MoveColliding(mp, f, k);
          r := Done(OfNode(mp));
        } else {
          ChainAfter(mp, f, k);
          r := Done(OfNode(f));
        }
    }

    /** `luaH_set`: the cell for a key, new if need be. */
    method Set(key: Key) returns (r: Outcome)
      requires Valid()
      requires Free() == 0 && !InArray(Norm(key), arr.Length) ==> |contents| < Pow2(MAXHBITS)
      modifies this, arr, node
      ensures Valid() && contents == old(contents)
      ensures arr == old(arr) || fresh(arr)
      ensures node == old(node) || fresh(node)
      ensures old(Free()) > 0 ==> arr == old(arr) && node == old(node) && Free() >= old(Free()) - 1
      ensures old(InArray(Norm(key), arr.Length)) ==> arr == old(arr) && node == old(node) && Free() == old(Free())
      ensures match r
        case Error(_) => (key == KNil && r == NO_INDEX_NIL) || (key == KNaN && r == NO_INDEX_NAN)
        case Done(c) => key != KNil && key != KNaN && At(c, Norm(key))
      decreases if Free() == 0 && !InArray(Norm(key), arr.Length) then 1 else 0, 3
    {
      var p := Get(key);
      match p
      case Some(c) =>
        Lookup(arr[..], node[..], contents, Norm(key));
        r := Done(c);
      case None => r := NewKey(key);
    }

    /** `t[key] := v`. */
    method Put(key: Key, v: Value) returns (r: Outcome)
      requires Valid()
      requires Free() == 0 && !InArray(Norm(key), arr.Length) ==> |contents| < Pow2(MAXHBITS)
      modifies this, arr, node
      ensures Valid()
      ensures arr == old(arr) || fresh(arr)
      ensures node == old(node) || fresh(node)
      ensures old(Free()) > 0 ==> arr == old(arr) && node == old(node) && Free() >= old(Free()) - 1
      ensures old(InArray(Norm(key), arr.Length)) ==> arr == old(arr) && node == old(node) && Free() == old(Free())
      ensures match r
        case Error(_) => contents == old(contents) && ((key == KNil && r == NO_INDEX_NIL)
          || (key == KNaN && r == NO_INDEX_NAN))
        case Done(_) => key != KNil && key != KNaN && contents == Updated(old(contents), Norm(key), v)
      ensures r.Done? ==> forall k {:trigger StoredAs(key, k)} :: StoredAs(key, k) ==>
        contents == Updated(old(contents), k, v)
      decreases if Free() == 0 && !InArray(Norm(key), arr.Length) then 1 else 0, 4
    {
      KeyStored(key);
      r := Set(key);
      match r
      case Error(_) =>
      case Done(c) => Assign(c, Norm(key), v);
    }

    // ----- the length operator -----

    method UnboundSearch(j0: nat) returns (n: nat)
      requires Valid() && |contents| < MAXASIZE && j0 <= MAXASIZE && (j0 == 0 || KInt(j0) in contents)
      ensures Border(contents, n)
    {
      var i, j := j0, j0 + 1;
      var v := RawGet(KInt(j));
      while !v.Nil?
        invariant 0 <= i < j <= MAXASIZE + 1 && (i == 0 || KInt(i) in contents) && Tied(contents, KInt(j), v)
        decreases MAXASIZE + 1 - j, if v.Nil? then 0 else 1
      {
        i := j;
        if j > MAX_INT / 2 {
          n := LinearSearch();
          return;
        }
        j := j * 2;
        v := RawGet(KInt(j));
      }
      while j - i > 1
        invariant 0 <= i < j <= MAXASIZE + 1 && (i == 0 || KInt(i) in contents) && KInt(j) !in contents
      {
        var m := (i + j) / 2;
        v := RawGet(KInt(m));
        if v.Nil? {
          j := m;
        } else {
          i := m;
        }
      }
      return i;
    }

    method LinearSearch() returns (n: nat)
      requires Valid() && |contents| < MAXASIZE
      ensures Border(contents, n)
    {
      var i := 1;
      var v := RawGet(KInt(1));
      RunBound(contents, 0);
      while !v.Nil?
        invariant 1 <= i <= |contents| + 1 && i <= MAXASIZE + 1 && Tied(contents, KInt(i), v)
        invariant forall x: Integer :: 0 < x < i ==> KInt(x) in contents
        decreases |contents| + 1 - i, if v.Nil? then 0 else 1
      {
        RunBound(contents, i);
        i := i + 1;
        v := RawGet(KInt(i));
      }
      return i - 1;
    }

    /** `luaH_getn`: a border, found by binary search. */
    method GetN() returns (n: nat)
      requires Valid() && |contents| < MAXASIZE
      ensures Border(contents, n)
    {
      var j := arr.Length;
      if j > 0 && arr[j - 1].Nil? {
        var i := 0;
        while j - i > 1
          invariant 0 <= i < j <= arr.Length && (i == 0 || arr[i - 1].Val?) && arr[j - 1].Nil?
        {
          var m := (i + j) / 2;
          if arr[m - 1].Nil? {
            j := m;
          } else {
            i := m;
          }
        }
        assert arr[..][j - 1].Nil? && (i == 0 || arr[..][i - 1].Val?);
        return i;
      }
      assert j > 0 ==> arr[..][j - 1].Val?;
      if dummy {
        assert !HasNode(node[..], KInt(j + 1));
        return j;
      }
      n := UnboundSearch(j);
    }

    // ----- traversal -----

    /** A search for `k` that accepts dead keys, and begins where `from` is hashed to. */
    method FindAny(k: Key, from: Key) returns (p: Option<nat>)
      requires Valid() && k != KNil
      ensures match p
        case None => from == k ==> forall i :: 0 <= i < node.Length ==> node[i].key != k
        case Some(n) => n < node.Length && node[n].key == k && (from == k ==> FoundFirst(node[..], links, k, n))
      ensures p.Some? <==> OnChain(node[..], links, MainPos(h, from, node.Length), k)
    {
      hide Together, After, NodeOk, Used;
      ghost var m := MainPos(h, from, node.Length);
      var n := MainPos(h, from, node.Length);
      if from == k {
        WalkAnyStarts(h, node[..], links, k);
      }
      while node[n].key != k
        invariant 0 <= n < node.Length
        invariant from == k ==> FoundFirst(node[..], links, k, n)
        invariant OnChain(node[..], links, m, k) <==> OnChain(node[..], links, n, k)
        decreases After(node[..], links, n)
      {
        var nx := node[n].next;
        ChainOn(h, node[..], links, n, k);
        if nx == 0 {
          WalkEnds(h, node[..], links, n);
          return None;
        }
        WalkOn(h, node[..], links, n);
        n := n + nx;
      }
      assert node[..][n].key == k && OnChain(node[..], links, n, k);
      return Some(n);
    }

    /** `findindex`. */
    method FindIndex(key: Key) returns (p: Option<nat>)
      requires Valid()
      ensures p.Some? ==> GoesOn(arr[..], node[..], key, p.value)
      ensures p.None? ==> key != KNil && !InArray(key, arr.Length)
      ensures p.None? && Norm(key) == key ==> forall i :: 0 <= i < node.Length ==> node[i].key != key
      ensures Norm(key) != key && InArray(Norm(key), arr.Length) ==> p.None?
      ensures key != KNil && !InArray(key, arr.Length) ==>
        (p.Some? <==> OnChain(node[..], links, MainPos(h, key, node.Length), Norm(key)))
    {
      if key == KNil {
        return Some(0);
      }
      var i := Index(key);
      if i != 0 && i <= arr.Length {
        return Some(i);
      }
      var n := FindAny(Norm(key), key);
      if n.None? {
        return None;
      }
      FoundLive(arr[..], node[..], links, contents, key, n.value);
      return Some(n.value + 1 + arr.Length);
    }

    /** `luaH_next`: the first entry with a value after the one of `key`. The ghost results say where they are. */
    method Next(key: Key) returns (r: Following, ghost p: nat, ghost q: nat)
      requires Valid()
      ensures r.Invalid? <==>
        key != KNil && !InArray(key, arr.Length)
          && !OnChain(node[..], links, MainPos(h, key, node.Length), Norm(key))
      ensures r.Invalid? && Norm(key) == key ==> forall i :: 0 <= i < node.Length ==> node[i].key != key
      ensures Norm(key) != key && InArray(Norm(key), arr.Length) ==> r.Invalid?
      ensures !r.Invalid? ==> GoesOn(arr[..], node[..], key, p) && p <= q <= arr.Length + node.Length
      ensures !r.Invalid? ==> forall x :: p <= x < q ==> EntryValue(arr[..], node[..], x).Nil?
      ensures !r.Invalid? ==> ComesTo(arr[..], node[..], r, q)
    {
      var found := FindIndex(key);
      if found.None? {
        return Invalid, 0, 0;
      }
      var i := found.value;
      p := i;
      while i < arr.Length
        invariant p <= i && (i <= arr.Length || i == p)
        invariant forall x :: p <= x < i ==> EntryValue(arr[..], node[..], x).Nil?
      {
        if !arr[i].Nil? {
          return Entry(KInt(i + 1), arr[i].n), p, i;
        }
        i := i + 1;
      }
      i := i - arr.Length;
      while i < node.Length
        invariant 0 <= i <= node.Length && p <= i + arr.Length
        invariant forall x :: p <= x < i + arr.Length ==> EntryValue(arr[..], node[..], x).Nil?
      {
        if !node[i].val.Nil? {
          return Entry(node[i].key, node[i].val.n), p, i + arr.Length;
        }
        i := i + 1;
      }
      return End, p, i + arr.Length;
    }

    /** Clears or keeps the entry that a traversal has come to. */
    method Visit(key: Key, clear: bool, ghost q: nat, ghost arr0: seq<Value>, ghost nodes0: seq<Node>)
      requires Valid() && SameFrom(arr[..], node[..], arr0, nodes0, q)
      requires q < arr.Length + node.Length && EntryKey(arr[..], node[..], q) == key
      requires EntryValue(arr[..], node[..], q).Val?
      modifies arr, node, `contents
      ensures Valid() && contents == if clear then old(contents) - {key} else old(contents)
      ensures SameFrom(arr[..], node[..], arr0, nodes0, q + 1)
      ensures forall p: nat :: GoesOn(arr[..], node[..], key, p) ==> p == q + 1
      ensures key != KNil && Storable(key) && (InArray(key, arr.Length) || node[q - arr.Length].key == key)
    {
      EntryTied(arr[..], node[..], contents, q);
      OneIndex(arr[..], node[..], contents, key, q);
      if clear {
        var c := Get(key);
        ghost var a, nodes := arr[..], node[..];
        OneCell(a, nodes, contents, key, q, c.value);
        Assign(c.value, key, Nil);
        WriteSame(a, nodes, arr[..], node[..], arr0, nodes0, q, c.value);
      }
      OneWay(arr[..], node[..], contents, key, q);
    }

    /** Clears or keeps the entry that a traversal has come to, and goes on. */
    method Advance(key: Key, clear: bool, ghost q: nat, ghost arr0: seq<Value>, ghost nodes0: seq<Node>)
      returns (r: Following, ghost next: nat)
      requires Valid() && SameFrom(arr[..], node[..], arr0, nodes0, q)
      requires q < arr.Length + node.Length && EntryKey(arr[..], node[..], q) == key
      requires EntryValue(arr[..], node[..], q).Val?
      modifies arr, node, `contents
      ensures Valid() && contents == if clear then old(contents) - {key} else old(contents)
      ensures q < next && ComesTo(arr[..], node[..], r, next) && SameFrom(arr[..], node[..], arr0, nodes0, next)
      ensures Entries(arr0, nodes0, next) == Entries(arr0, nodes0, q + 1)
    {
      Visit(key, clear, q, arr0, nodes0);
      ghost var p: nat;
      r, p, next := Next(key);
      SkipSame(arr[..], node[..], arr0, nodes0, q + 1, next);
    }

    /** A traversal that may clear the entries it comes to sees every entry once. */
    method Traverse(clear: Key -> bool) returns (seen: seq<(Key, int)>)
      requires Valid()
      modifies arr, node, `contents
      ensures Valid() && Traversed(old(contents), contents, seen, clear)
    {
      ghost var arr0, nodes0, c0 := arr[..], node[..], contents;
      ghost var total := arr.Length + node.Length;
      var r: Following;
      ghost var q: nat;
      seen := [];
      ghost var p: nat;
      r, p, q := Next(KNil);
      SkipNils(arr0, nodes0, 0, q);
      while r.Entry?
        invariant Valid() && arr == old(arr) && node == old(node) && q <= total
        invariant ComesTo(arr[..], node[..], r, q)
        invariant seen == Entries(arr0, nodes0, q) && SameFrom(arr[..], node[..], arr0, nodes0, q)
        invariant contents == Remaining(c0, seen, clear)
        decreases total - q, if r.Entry? then 1 else 0
      {
        RemainingStep(c0, seen, clear, r.key, r.value);
        seen := seen + [(r.key, r.value)];
        r, q := Advance(r.key, clear(r.key), q, arr0, nodes0);
      }
      TraversedAll(arr0, nodes0, c0, seen, clear);
    }

    /** `luaH_resizearray`: the hash part keeps its size. */
    method ResizeArray(nasize: nat)
      requires Valid() && arr.Length <= nasize <= MAXASIZE
      modifies this
      ensures Valid() && contents == old(contents)
      ensures fresh(arr) && fresh(node) && arr.Length == nasize
    {
      var nsize := if dummy then 0 else node.Length;
      FewNodes(node[..], node.Length, nasize);
      SizeInRange(lsizenode);
      Resize(nasize, nsize);
    }

    /** One operation. */
    method Perform(op: Op)
      requires Valid() && |contents| < Pow2(MAXHBITS)
      modifies this, arr, node
      ensures Valid() && contents == Performed(old(contents), op)
      ensures (arr == old(arr) || fresh(arr)) && (node == old(node) || fresh(node))
    {
      match op {
        case Store(key, value) =>
          var _ := Put(key, value);
        case Kill(i) =>
          if i < node.Length && node[i].val.Nil? && Collectable(node[i].key) {
            KillKey(i);
          }
        case Widen(size) =>
          if arr.Length < size <= MAXASIZE {
            ResizeArray(size);
          }
      }
    }

    /** After any run of operations, each key has the last value stored under it. */
    method Run(ops: seq<Op>)
      requires Valid() && |contents| + |ops| <= Pow2(MAXHBITS)
      modifies this, arr, node
      ensures Valid() && HasLast(contents, old(contents), ops)
    {
      hide HasLast, Performed, HashOk, Holds;
      ghost var c0 := contents;
      NothingYet(contents);
      for i := 0 to |ops|
        invariant Valid() && |contents| + |ops| - i <= Pow2(MAXHBITS)
        invariant (arr == old(arr) || fresh(arr)) && (node == old(node) || fresh(node))
        invariant HasLast(contents, c0, ops[..i])
      {
        OpLast(contents, c0, ops[..i], ops[i]);
        PerformedSize(contents, ops[i]);
        Perform(ops[i]);
        assert ops[..i + 1] == ops[..i] + [ops[i]];
      }
      assert ops[..|ops|] == ops;
    }
  }

  lemma SizeInRange(lsize: nat)
    requires lsize <= MAXHBITS
    ensures Pow2(lsize) <= Pow2(MAXHBITS)
  {
    if lsize < MAXHBITS {
      Pow2Grows(lsize, MAXHBITS);
    }
  }
}
