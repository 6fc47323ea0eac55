/**
 What a Lua table holds (ltable.c): how the array part and the hash nodes together represent a
 finite map, and how much room a resize needs.
 */
module TableEntries {
  import opened TableChains
  import opened TableSizes

  /** The key under which an entry is stored: floats with integral values are stored as integers. */
  function Norm(k: Key): Key {
    if k.KFlt? && k.r.Floor as real == k.r && -0x8000_0000_0000_0000 <= k.r.Floor < 0x8000_0000_0000_0000
    then KInt(k.r.Floor) else k
  }

  /** The key under which a value for `key` is kept: a float equal to an integer counts as that integer. */
  ghost predicate StoredAs(key: Key, k: Key) {
    if key.KFlt? && k.KInt? then key.r == k.i as real
    else k == key && !(key.KFlt? && IsIntegral(key.r))
  }

  ghost predicate IsIntegral(r: real) {
    exists i: Integer {:trigger i as real} :: r == i as real
  }

  /** Every key is stored as one key, and `Norm` finds it. */
  lemma StoredOnce(key: Key, k: Key)
    ensures StoredAs(key, k) <==> k == Norm(key)
  {
    if key.KFlt? {
      var n := key.r.Floor;
      if n as real == key.r && -0x8000_0000_0000_0000 <= n < 0x8000_0000_0000_0000 {
        var i: Integer := n;
        assert key.r == i as real;
      }
    }
  }

  /** `arrayindex`. */
  function Index(k: Key): (i: nat)
    ensures i <= MAXASIZE && (i > 0 ==> k == KInt(i))
  {
    if k.KInt? && 0 < k.i <= MAXASIZE then k.i else 0
  }

  predicate InArray(k: Key, asize: nat) {
    0 < Index(k) <= asize
  }

  predicate Storable(k: Key) {
    Norm(k) == k && k != KNil && k != KNaN
  }

  /** The map gives `v` for `k`; nil stands for no entry. */
  ghost predicate Tied(c: map<Key, int>, k: Key, v: Value) {
    if v.Nil? then k !in c else k in c && c[k] == v.n
  }

  function Updated(c: map<Key, int>, k: Key, v: Value): map<Key, int> {
    if v.Nil? then c - {k} else c[k := v.n]
  }

  /** Only these keys can be dead. */
  predicate Collectable(k: Key) {
    k.KStr? || k.KObj?
  }

  ghost predicate EntryOk(c: map<Key, int>, asize: nat, n: Node) {
    if !Used(n) then n.val == Nil
    else if n.dead then n.val == Nil && Collectable(n.key)
    else Storable(n.key) && !InArray(n.key, asize) && Tied(c, n.key, n.val)
  }

  ghost predicate HasNode(nodes: seq<Node>, k: Key) {
    k != KNil && exists i :: 0 <= i < |nodes| && Matches(nodes[i], k)
  }

  ghost predicate Unique(nodes: seq<Node>) {
    forall i, j, k {:trigger Matches(nodes[i], k), Matches(nodes[j], k)} ::
      0 <= i < |nodes| && 0 <= j < |nodes| && k != KNil && Matches(nodes[i], k) && Matches(nodes[j], k) ==> i == j
  }

  /** The two parts of a table hold the entries of `c`, each in one place. */
  ghost predicate Holds(arr: seq<Value>, nodes: seq<Node>, c: map<Key, int>) {
    && |arr| <= MAXASIZE
    && (forall i {:trigger arr[i]} :: 0 <= i < |arr| ==> Tied(c, KInt(i + 1), arr[i]))
    && (forall i {:trigger EntryOk(c, |arr|, nodes[i])} :: 0 <= i < |nodes| ==> EntryOk(c, |arr|, nodes[i]))
    && Unique(nodes)
    && (forall k {:trigger k in c} :: k in c ==> InArray(k, |arr|) || HasNode(nodes, k))
  }

  lemma Lookup(arr: seq<Value>, nodes: seq<Node>, c: map<Key, int>, k: Key)
    requires Holds(arr, nodes, c) && k != KNil
    ensures InArray(k, |arr|) ==> Tied(c, k, arr[Index(k) - 1]) && !HasNode(nodes, k)
    ensures forall i :: 0 <= i < |nodes| && Matches(nodes[i], k) ==> Storable(k) && Tied(c, k, nodes[i].val)
    ensures !InArray(k, |arr|) && !HasNode(nodes, k) ==> k !in c
  {
    forall i | 0 <= i < |nodes| && Matches(nodes[i], k)
      ensures Storable(k) && !InArray(k, |arr|) && Tied(c, k, nodes[i].val)
    {
      assert EntryOk(c, |arr|, nodes[i]);
    }
  }

  // ----- changing entries -----

  /** The key of `n1` has become `k`, or `n1` holds what `n` did. */
  predicate SameEntry(n: Node, n1: Node) {
    n1.key == n.key && n1.dead == n.dead && n1.val == n.val
  }

  /** `at` gets the new key `k`; what was in `from` has moved to `to`. */
  ghost predicate Placed(nodes: seq<Node>, nodes1: seq<Node>, k: Key, at: nat, from: nat, to: nat) {
    && |nodes1| == |nodes| && at < |nodes| && from < |nodes| && to < |nodes|
    && nodes1[at].key == k && !nodes1[at].dead && nodes1[at].val == Nil
    && (forall i :: 0 <= i < |nodes| && i != at ==> SameEntry(nodes[if i == to then from else i], nodes1[i]))
    && (nodes[at].val == Nil || (at == from && to != at)) && (nodes[to].val == Nil || from == to)
  }

  /** A new key without a value leaves the entries as they are. */
  lemma NewEntry(arr: seq<Value>, nodes: seq<Node>, nodes1: seq<Node>, c: map<Key, int>, k: Key, at: nat, from: nat,
      to: nat)
    requires Holds(arr, nodes, c) && Placed(nodes, nodes1, k, at, from, to)
    requires from == to || at == from
    requires Storable(k) && !InArray(k, |arr|) && !HasNode(nodes, k)
    ensures Holds(arr, nodes1, c)
  {
    Lookup(arr, nodes, c, k);
    forall i | 0 <= i < |nodes1| ensures EntryOk(c, |arr|, nodes1[i]) {
      assert EntryOk(c, |arr|, nodes[if i == to then from else i]);
    }
    forall i, j, x | 0 <= i < |nodes1| && 0 <= j < |nodes1| && x != KNil && Matches(nodes1[i], x)
      && Matches(nodes1[j], x)
      ensures i == j
    {
      var i0, j0 := if i == to then from else i, if j == to then from else j;
      assert i != at ==> Matches(nodes[i0], x);
      assert j != at ==> Matches(nodes[j0], x);
      assert i == at || j == at ==> x == k;
    }
    forall x | x in c && !InArray(x, |arr|) ensures HasNode(nodes1, x) {
      var i :| 0 <= i < |nodes| && Matches(nodes[i], x);
      assert EntryOk(c, |arr|, nodes[i]);
      var i1 := if i == from then to else i;
      assert Matches(nodes1[i1], x);
    }
  }

  /** Writing to a slot of the array part. */
  lemma WriteSlot(arr: seq<Value>, nodes: seq<Node>, c: map<Key, int>, i: nat, v: Value)
    requires Holds(arr, nodes, c) && i < |arr|
    ensures Holds(arr[i := v], nodes, Updated(c, KInt(i + 1), v))
  {
    var c1 := Updated(c, KInt(i + 1), v);
    forall x | 0 <= x < |nodes| ensures EntryOk(c1, |arr|, nodes[x]) {
      assert EntryOk(c, |arr|, nodes[x]);
    }
  }

  /** Writing the value of a node. */
  lemma WriteNode(arr: seq<Value>, nodes: seq<Node>, c: map<Key, int>, i: nat, k: Key, v: Value)
    requires Holds(arr, nodes, c) && i < |nodes| && k != KNil && Matches(nodes[i], k)
    ensures Holds(arr, nodes[i := nodes[i].(val := v)], Updated(c, k, v))
  {
    var c1, nodes1 := Updated(c, k, v), nodes[i := nodes[i].(val := v)];
    assert EntryOk(c, |arr|, nodes[i]);
    forall x | 0 <= x < |nodes1| ensures EntryOk(c1, |arr|, nodes1[x]) {
      assert EntryOk(c, |arr|, nodes[x]);
      assert Matches(nodes[x], k) ==> x == i;
    }
    forall x | 0 <= x < |nodes1| ensures forall y :: Matches(nodes1[x], y) <==> Matches(nodes[x], y) {
    }
    forall x | x in c1 && !InArray(x, |arr|) ensures HasNode(nodes1, x) {
      if x == k {
        assert Matches(nodes1[i], x);
      } else {
        var y :| 0 <= y < |nodes| && Matches(nodes[y], x);
        assert Matches(nodes1[y], x);
      }
    }
  }

  /** The collector marks the key of an empty entry as dead. */
  lemma KillNode(arr: seq<Value>, nodes: seq<Node>, c: map<Key, int>, i: nat)
    requires Holds(arr, nodes, c) && i < |nodes| && Collectable(nodes[i].key) && nodes[i].val == Nil
    ensures Holds(arr, nodes[i := nodes[i].(dead := true)], c)
    ensures forall x, y :: Shadows(nodes[i := nodes[i].(dead := true)], x, y) ==> Shadows(nodes, x, y)
  {
    var nodes1 := nodes[i := nodes[i].(dead := true)];
    assert EntryOk(c, |arr|, nodes[i]);
    forall x, y | Shadows(nodes1, x, y) ensures Shadows(nodes, x, y) {
      if !nodes[y].dead {
        assert Matches(nodes[x], nodes[i].key) && Matches(nodes[i], nodes[i].key);
      }
    }
    forall x | 0 <= x < |nodes1| ensures EntryOk(c, |arr|, nodes1[x]) {
      assert EntryOk(c, |arr|, nodes[x]);
    }
    forall x, y | 0 <= x < |nodes1| && Matches(nodes1[x], y) ensures Matches(nodes[x], y) && x != i {
    }
    forall x | x in c && !InArray(x, |arr|) ensures HasNode(nodes1, x) {
      var y :| 0 <= y < |nodes| && Matches(nodes[y], x);
      assert EntryOk(c, |arr|, nodes[y]);
      assert y != i ==> Matches(nodes1[y], x);
    }
  }

  // ----- free nodes -----

  ghost function Unused(nodes: seq<Node>): set<int> {
    set i | 0 <= i < |nodes| && !Used(nodes[i])
  }

  lemma {:induction false} AllUnused(nodes: seq<Node>)
    requires forall i :: 0 <= i < |nodes| ==> nodes[i] == EMPTY
    ensures |Unused(nodes)| == |nodes|
  {
    if nodes != [] {
      var n := |nodes| - 1;
      AllUnused(nodes[..n]);
      assert Unused(nodes) == Unused(nodes[..n]) + {n};
    }
  }

  lemma UseOne(nodes: seq<Node>, nodes1: seq<Node>, x: int)
    requires |nodes1| == |nodes|
    requires forall i :: 0 <= i < |nodes| && i != x ==> (Used(nodes1[i]) <==> Used(nodes[i]))
    requires 0 <= x < |nodes| ==> Used(nodes1[x])
    ensures |Unused(nodes1)| >= |Unused(nodes)| - 1
    ensures 0 <= x < |nodes| && Used(nodes[x]) ==> |Unused(nodes1)| == |Unused(nodes)|
  {
    assert Unused(nodes1) == Unused(nodes) - {x};
  }

  // ----- counting entries -----

  /** The integer keys with a value among the first `n` slots of the array part. */
  ghost function SlotKeys(arr: seq<Value>, n: nat): (ks: seq<nat>)
    requires n <= |arr|
    ensures forall k :: k in ks ==> 0 < k <= n
  {
    if n == 0 then [] else if arr[n - 1].Val? then SlotKeys(arr, n - 1) + [n] else SlotKeys(arr, n - 1)
  }

  /** The array indices with a value among the keys of nodes `n` and up. */
  ghost function NodeKeys(nodes: seq<Node>, n: nat): (ks: seq<nat>)
    requires n <= |nodes|
    ensures forall k :: k in ks ==>
      0 < k <= MAXASIZE && exists i :: n <= i < |nodes| && nodes[i].val.Val? && nodes[i].key == KInt(k)
    decreases |nodes| - n
  {
    if n == |nodes| then []
    else if nodes[n].val.Val? && Index(nodes[n].key) > 0 then NodeKeys(nodes, n + 1) + [Index(nodes[n].key)]
    else NodeKeys(nodes, n + 1)
  }

  /** How many of the first `n` nodes have a value, and a key that does not fit an array of size `asize`. */
  ghost function LiveNodes(nodes: seq<Node>, n: nat, asize: nat): nat
    requires n <= |nodes|
  {
    if n == 0 then 0
    else LiveNodes(nodes, n - 1, asize) + if nodes[n - 1].val.Val? && !InArray(nodes[n - 1].key, asize) then 1 else 0
  }

  /** How many entries of the array part come after the first `n` slots. */
  ghost function LiveSlots(arr: seq<Value>, n: nat): int {
    if n < |arr| then |SlotKeys(arr, |arr|)| - |SlotKeys(arr, n)| else 0
  }

  /** The entries that have to go to the hash part when the array part gets size `asize`. */
  ghost function Need(arr: seq<Value>, nodes: seq<Node>, asize: nat): int {
    LiveSlots(arr, asize) + LiveNodes(nodes, |nodes|, asize)
  }

  lemma {:induction false} SlotsGrow(arr: seq<Value>, m: nat, n: nat)
    requires m <= n <= |arr|
    ensures |SlotKeys(arr, m)| <= |SlotKeys(arr, n)|
  {
    if m < n {
      SlotsGrow(arr, m, n - 1);
    }
  }

  lemma {:induction false} SlotsUpTo(arr: seq<Value>, n: nat, a: nat)
    requires n <= |arr|
    ensures CountLe(SlotKeys(arr, n), a) == |SlotKeys(arr, if a < n then a else n)|
    ensures Distinct(SlotKeys(arr, n))
  {
    if n > 0 {
      SlotsUpTo(arr, n - 1, a);
      if arr[n - 1].Val? {
        CountAppend(SlotKeys(arr, n - 1), n);
        DistinctAppend(SlotKeys(arr, n - 1), [n]);
      }
    }
  }

  lemma {:induction false} NodesUpTo(nodes: seq<Node>, n: nat, a: nat)
    requires n <= |nodes| && a <= MAXASIZE
    ensures CountLe(NodeKeys(nodes, n), a) + LiveNodes(nodes, |nodes|, a) - LiveNodes(nodes, n, a)
         == LiveNodes(nodes, |nodes|, 0) - LiveNodes(nodes, n, 0)
    decreases |nodes| - n
  {
    if n < |nodes| {
      NodesUpTo(nodes, n + 1, a);
      if nodes[n].val.Val? && Index(nodes[n].key) > 0 {
        CountAppend(NodeKeys(nodes, n + 1), Index(nodes[n].key));
      }
    }
  }

  lemma {:induction false} NodesDistinct(arr: seq<Value>, nodes: seq<Node>, c: map<Key, int>, n: nat)
    requires Holds(arr, nodes, c) && n <= |nodes|
    ensures Distinct(NodeKeys(nodes, n))
    decreases |nodes| - n
  {
    if n < |nodes| {
      NodesDistinct(arr, nodes, c, n + 1);
      assert EntryOk(c, |arr|, nodes[n]);
      var k := nodes[n].key;
      if nodes[n].val.Val? && Index(k) in NodeKeys(nodes, n + 1) {
        var i :| n + 1 <= i < |nodes| && nodes[i].val.Val? && nodes[i].key == KInt(Index(k));
        assert EntryOk(c, |arr|, nodes[i]);
        assert Matches(nodes[i], k) && Matches(nodes[n], k);
      }
    }
  }

  /** The integer keys of a table, and the key that is going to be added. */
  ghost function AllKeys(arr: seq<Value>, nodes: seq<Node>, ek: Key): (ks: seq<nat>) {
    var ks := SlotKeys(arr, |arr|) + NodeKeys(nodes, 0);
    if Index(ek) > 0 then ks + [Index(ek)] else ks
  }

  /** The keys of nodes are not in the array part. */
  lemma NodesOutside(arr: seq<Value>, nodes: seq<Node>, c: map<Key, int>, ek: Key)
    requires Holds(arr, nodes, c) && !HasNode(nodes, ek)
    ensures forall k :: k in NodeKeys(nodes, 0) ==> k > |arr| && k != Index(ek)
  {
    forall k | k in NodeKeys(nodes, 0) ensures k > |arr| && k != Index(ek) {
      var i :| 0 <= i < |nodes| && nodes[i].val.Val? && nodes[i].key == KInt(k);
      assert EntryOk(c, |arr|, nodes[i]) && Matches(nodes[i], KInt(k));
    }
  }

  lemma AllDistinct(arr: seq<Value>, nodes: seq<Node>, c: map<Key, int>, ek: Key)
    requires Holds(arr, nodes, c) && !InArray(ek, |arr|) && !HasNode(nodes, ek)
    ensures Distinct(AllKeys(arr, nodes, ek)) && IndexKeys(AllKeys(arr, nodes, ek))
  {
    SlotsUpTo(arr, |arr|, 0);
    NodesDistinct(arr, nodes, c, 0);
    NodesOutside(arr, nodes, c, ek);
    DistinctAppend(SlotKeys(arr, |arr|), NodeKeys(nodes, 0));
    if Index(ek) > 0 {
      DistinctAppend(SlotKeys(arr, |arr|) + NodeKeys(nodes, 0), [Index(ek)]);
    }
  }

  lemma DistinctAppend(s: seq<nat>, t: seq<nat>)
    requires Distinct(s) && Distinct(t) && forall k :: k in s ==> k !in t
    ensures Distinct(s + t)
  {
    forall i, j | 0 <= i < j < |s + t| ensures (s + t)[i] != (s + t)[j] {
      if i < |s| <= j {
        assert s[i] in s && t[j - |s|] in t;
      }
    }
  }

  lemma {:induction false} CountConcat(s: seq<nat>, t: seq<nat>, n: nat)
    ensures CountLe(s + t, n) == CountLe(s, n) + CountLe(t, n)
  {
    if s == [] {
      assert s + t == t;
    } else {
      CountConcat(s[1..], t, n);
      assert (s + t)[1..] == s[1..] + t;
    }
  }

  /** How many entries a table has. */
  ghost function Total(arr: seq<Value>, nodes: seq<Node>): nat {
    |SlotKeys(arr, |arr|)| + LiveNodes(nodes, |nodes|, 0)
  }

  /** All entries either fit the array part or need a node. */
  lemma Split(arr: seq<Value>, nodes: seq<Node>, ek: Key, a: nat)
    requires a <= MAXASIZE
    ensures CountLe(AllKeys(arr, nodes, ek), a) + Need(arr, nodes, a) == Total(arr, nodes) + if InArray(ek, a) then 1
      else 0
    ensures Need(arr, nodes, a) >= 0
  {
    var s, t := SlotKeys(arr, |arr|), NodeKeys(nodes, 0);
    SlotsUpTo(arr, |arr|, a);
    NodesUpTo(nodes, 0, a);
    CountConcat(s, t, a);
    if Index(ek) > 0 {
      CountAppend(s + t, Index(ek));
    }
    if a < |arr| {
      SlotsGrow(arr, a, |arr|);
    }
  }

  ghost function SlotSet(arr: seq<Value>, n: nat): (ks: set<Key>)
    requires n <= |arr| <= MAXASIZE
    ensures forall k :: k in ks ==> 0 < Index(k) <= n && arr[Index(k) - 1].Val?
    ensures |ks| == |SlotKeys(arr, n)|
  {
    if n == 0 then {} else if arr[n - 1].Val? then SlotSet(arr, n - 1) + {KInt(n)} else SlotSet(arr, n - 1)
  }

  ghost function NodeSet(arr: seq<Value>, nodes: seq<Node>, c: map<Key, int>, n: nat): (ks: set<Key>)
    requires Holds(arr, nodes, c) && n <= |nodes|
    ensures forall k :: k in ks ==>
      k in c && !InArray(k, |arr|) && exists i :: 0 <= i < n && nodes[i].val.Val? && Matches(nodes[i], k)
    ensures |ks| == LiveNodes(nodes, n, 0)
  {
    if n == 0 then {}
    else if nodes[n - 1].val.Val? then
      assert EntryOk(c, |arr|, nodes[n - 1]) && Matches(nodes[n - 1], nodes[n - 1].key);
      NodeSet(arr, nodes, c, n - 1) + {nodes[n - 1].key}
    else NodeSet(arr, nodes, c, n - 1)
  }

  /** No entry is counted twice. */
  lemma TotalBound(arr: seq<Value>, nodes: seq<Node>, c: map<Key, int>)
    requires Holds(arr, nodes, c)
    ensures Total(arr, nodes) <= |c|
  {
    var s, t := SlotSet(arr, |arr|), NodeSet(arr, nodes, c, |nodes|);
    assert s !! t;
    forall k | k in s ensures k in c {
      assert Tied(c, KInt(Index(k) - 1 + 1), arr[Index(k) - 1]);
    }
    SubsetSize(s + t, c.Keys);
  }

  lemma {:induction false} SubsetSize<T>(a: set<T>, b: set<T>)
    requires a <= b
    ensures |a| <= |b|
  {
    assert b == a + (b - a);
  }
}
