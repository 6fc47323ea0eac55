/**
 The hash part of a Lua table (ltable.c): a chained scatter table with Brent's variation.

 Nodes are chained by relative links. The chains are described by two ghost sequences: nodes with
 the same `cid` are in one chain, in the order of `pos`. Positions are reals, so that there is
 always room between two nodes.
 */
module TableChains {

  /** The range of lua_Integer. */
  type Integer = i: int | -0x8000_0000_0000_0000 <= i < 0x8000_0000_0000_0000

  /** Table keys. Floats are reals, infinities or NaN; `KObj` is any value that is hashed by address. */
  datatype Key =
    | KNil
    | KBool(b: bool)
    | KInt(i: Integer)
    | KFlt(r: real)
    | KInf(negative: bool)
    | KNaN
    | KStr(s: string)
    | KObj(address: nat)

  datatype Value = Nil | Val(n: int)

  /** A hash node; `dead` says that the collector has turned the key of an empty entry into a dead key. */
  datatype Node = Node(key: Key, dead: bool, val: Value, next: int)

  const EMPTY := Node(KNil, false, Nil, 0)

  /** The hashes of strings and floats, which the table takes as they are. */
  datatype Hashes = Hashes(str: string -> nat, flt: real -> nat, inf: bool -> nat)

  /** `(size - 1) | 1` for a power of two. */
  function OddModulus(size: nat): (r: nat)
    requires size > 0
    ensures 0 < r <= size
  {
    if size == 1 then 1 else size - 1
  }

  /** The position a key is hashed to, in a hash part with `size` nodes. */
  function MainPos(h: Hashes, k: Key, size: nat): (m: nat)
    requires size > 0
    ensures m < size
  {
    match k
    case KBool(b) => (if b then 1 else 0) % size
    case KInt(i) => i % size
    case KStr(s) => h.str(s) % size
    case KFlt(r) => h.flt(r) % OddModulus(size)
    case KInf(negative) => h.inf(negative) % OddModulus(size)
    case KObj(address) => address % 0x1_0000_0000 % OddModulus(size)
    case _ => 0
  }

  predicate Used(n: Node) {
    n.key != KNil
  }

  /** The comparison made while searching a chain; dead keys match nothing. */
  predicate Matches(n: Node, k: Key) {
    n.key == k && !n.dead
  }

  datatype Links = Links(cid: seq<int>, pos: seq<real>, unused: int)

  /** Nodes `i` and `k` are in the same chain. */
  ghost predicate Together(nodes: seq<Node>, l: Links, i: int, k: int)
    requires |l.cid| == |nodes|
  {
    0 <= i < |nodes| && 0 <= k < |nodes| && Used(nodes[i]) && Used(nodes[k]) && l.cid[i] == l.cid[k]
  }

  /** The link of node `i` goes to the node that comes next in its chain, if there is one. */
  ghost predicate LinkOk(nodes: seq<Node>, l: Links, i: int)
    requires 0 <= i < |nodes| && |l.cid| == |nodes| == |l.pos|
  {
    if nodes[i].next == 0 then
      forall k {:trigger Together(nodes, l, i, k)} :: Together(nodes, l, i, k) ==> l.pos[k] <= l.pos[i]
    else
      var j := i + nodes[i].next;
      && Together(nodes, l, i, j) && l.pos[i] < l.pos[j]
      && forall k {:trigger Together(nodes, l, i, k)} :: Together(nodes, l, i, k) && l.pos[k] > l.pos[i] ==>
        l.pos[j] <= l.pos[k]
  }

  /** The key's main position comes no later in the same chain, and is taken by a key with that main position. */
  ghost predicate MainOk(h: Hashes, nodes: seq<Node>, l: Links, i: int)
    requires 0 <= i < |nodes| && |l.cid| == |nodes| == |l.pos|
  {
    var m := MainPos(h, nodes[i].key, |nodes|);
    Together(nodes, l, i, m) && l.pos[m] <= l.pos[i] && MainPos(h, nodes[m].key, |nodes|) == m
  }

  ghost predicate NodeOk(h: Hashes, nodes: seq<Node>, l: Links, i: int)
    requires 0 <= i < |nodes| && |l.cid| == |nodes| == |l.pos|
  {
    if Used(nodes[i]) then LinkOk(nodes, l, i) && MainOk(h, nodes, l, i) && l.cid[i] < l.unused
    else nodes[i] == EMPTY
  }

  ghost predicate Chained(h: Hashes, nodes: seq<Node>, l: Links) {
    && |l.cid| == |nodes| == |l.pos|
    && (forall i {:trigger NodeOk(h, nodes, l, i)} :: 0 <= i < |nodes| ==> NodeOk(h, nodes, l, i))
    && (forall i, k {:trigger Together(nodes, l, i, k)} :: Together(nodes, l, i, k) && i != k ==> l.pos[i] != l.pos[k])
  }

  /** An empty hash part. */
  lemma EmptyChained(h: Hashes, nodes: seq<Node>, l: Links)
    requires |l.cid| == |nodes| == |l.pos| && forall i :: 0 <= i < |nodes| ==> nodes[i] == EMPTY
    ensures Chained(h, nodes, l)
  {
  }

  /** Chains depend on nothing but keys and links. */
  lemma SameLinks(h: Hashes, nodes: seq<Node>, nodes1: seq<Node>, l: Links)
    requires Chained(h, nodes, l) && |nodes1| == |nodes|
    requires forall i :: 0 <= i < |nodes| ==> nodes1[i].key == nodes[i].key && nodes1[i].next == nodes[i].next
    requires forall i :: 0 <= i < |nodes| && !Used(nodes[i]) ==> nodes1[i] == nodes[i]
    ensures Chained(h, nodes1, l)
  {
    forall i, j ensures Together(nodes1, l, i, j) <==> Together(nodes, l, i, j) {
    }
    forall i | 0 <= i < |nodes| ensures NodeOk(h, nodes1, l, i) {
      assert NodeOk(h, nodes, l, i);
    }
  }

  // ----- walking a chain -----

  /** A node that matches comes after the main position of its key. */
  lemma MatchInChain(h: Hashes, nodes: seq<Node>, l: Links, k: Key, i: int)
    requires Chained(h, nodes, l) && k != KNil && 0 <= i < |nodes| && Matches(nodes[i], k)
    ensures var m := MainPos(h, k, |nodes|); Together(nodes, l, m, i) && l.pos[m] <= l.pos[i]
  {
    assert NodeOk(h, nodes, l, i);
  }

  /** The nodes of the chain that come after node `n`: what is left of a walk. */
  ghost function After(nodes: seq<Node>, l: Links, n: int): set<int>
    requires |l.cid| == |nodes| == |l.pos|
  {
    set k | 0 <= k < |nodes| && Together(nodes, l, n, k) && l.pos[k] > l.pos[n]
  }

  lemma WalkOn(h: Hashes, nodes: seq<Node>, l: Links, n: int)
    requires Chained(h, nodes, l) && 0 <= n < |nodes| && Used(nodes[n]) && nodes[n].next != 0
    ensures var j := n + nodes[n].next; 0 <= j < |nodes| && After(nodes, l, j) < After(nodes, l, n)
    ensures forall k :: k in After(nodes, l, n) ==> k == n + nodes[n].next || k in After(nodes, l, n + nodes[n].next)
  {
    var j := n + nodes[n].next;
    assert NodeOk(h, nodes, l, n) && Together(nodes, l, n, j);
    assert j in After(nodes, l, n) && j !in After(nodes, l, j);
    forall k | k in After(nodes, l, n) && k != j ensures k in After(nodes, l, j) {
      assert Together(nodes, l, n, k) && Together(nodes, l, j, k);
    }
    forall k | k in After(nodes, l, j) ensures k in After(nodes, l, n) {
      assert Together(nodes, l, j, k) && Together(nodes, l, n, k);
    }
  }

  /** A walk that has come to a node without a link has seen the whole chain. */
  lemma WalkEnds(h: Hashes, nodes: seq<Node>, l: Links, n: int)
    requires Chained(h, nodes, l) && 0 <= n < |nodes| && nodes[n].next == 0
    ensures After(nodes, l, n) == {}
  {
    assert NodeOk(h, nodes, l, n);
  }

  /** A walk for `k` begins at its main position. */
  lemma WalkStarts(h: Hashes, nodes: seq<Node>, l: Links, k: Key)
    requires Chained(h, nodes, l) && k != KNil && |nodes| > 0
    ensures var m := MainPos(h, k, |nodes|);
      forall i :: 0 <= i < |nodes| && Matches(nodes[i], k) ==> i == m || i in After(nodes, l, m)
  {
    var m := MainPos(h, k, |nodes|);
    forall i | 0 <= i < |nodes| && Matches(nodes[i], k) ensures i == m || i in After(nodes, l, m) {
      MatchInChain(h, nodes, l, k, i);
    }
  }

  // ----- inserting a key -----

  /** A node with key `k` and no value yet. */
  function Fresh(k: Key, next: int): Node {
    Node(k, false, Nil, next)
  }

  /** The main position was never used: a new chain begins there. */
  lemma InsertFree(h: Hashes, nodes: seq<Node>, l: Links, mp: nat, k: Key)
    requires Chained(h, nodes, l) && k != KNil && mp < |nodes| && mp == MainPos(h, k, |nodes|) && !Used(nodes[mp])
    ensures Chained(h, nodes[mp := Fresh(k, 0)], Links(l.cid[mp := l.unused], l.pos[mp := 0.0], l.unused + 1))
  {
    var nodes1, l1 := nodes[mp := Fresh(k, 0)], Links(l.cid[mp := l.unused], l.pos[mp := 0.0], l.unused + 1);
    OldIds(h, nodes, l);
    forall i, j ensures Together(nodes1, l1, i, j) <==> Together(nodes, l, i, j) || i == j == mp {
    }
    forall i | 0 <= i < |nodes| ensures NodeOk(h, nodes1, l1, i) {
      assert NodeOk(h, nodes, l, i);
    }
  }

  lemma OldIds(h: Hashes, nodes: seq<Node>, l: Links)
    requires Chained(h, nodes, l)
    ensures forall i :: 0 <= i < |nodes| && Used(nodes[i]) ==> l.cid[i] < l.unused
  {
    forall i | 0 <= i < |nodes| && Used(nodes[i]) ensures l.cid[i] < l.unused {
      assert NodeOk(h, nodes, l, i);
    }
  }

  /** The main position has an entry that is empty now: its node is used again, and stays in its chain. */
  lemma InsertReuse(h: Hashes, nodes: seq<Node>, l: Links, mp: nat, k: Key)
    requires Chained(h, nodes, l) && k != KNil && mp < |nodes| && mp == MainPos(h, k, |nodes|) && Used(nodes[mp])
    ensures Chained(h, nodes[mp := Fresh(k, nodes[mp].next)], l)
  {
    var nodes1 := nodes[mp := Fresh(k, nodes[mp].next)];
    forall i, j ensures Together(nodes1, l, i, j) <==> Together(nodes, l, i, j) {
    }
    forall i | 0 <= i < |nodes| ensures NodeOk(h, nodes1, l, i) {
      assert NodeOk(h, nodes, l, i);
    }
  }

  /** The colliding node is in its main position: the new key goes to the free node `f`, right after it. */
  function PutAfter(nodes: seq<Node>, mp: nat, f: nat, k: Key): seq<Node>
    requires mp < |nodes| && f < |nodes|
  {
    nodes[f := Fresh(k, if nodes[mp].next != 0 then mp + nodes[mp].next - f else 0)][mp := nodes[mp].(next := f - mp)]
  }

  function LinksAfter(nodes: seq<Node>, l: Links, mp: nat, f: nat): Links
    requires |l.cid| == |nodes| == |l.pos| && mp < |nodes| && f < |nodes|
    requires nodes[mp].next != 0 ==> 0 <= mp + nodes[mp].next < |nodes|
  {
    l.(cid := l.cid[f := l.cid[mp]],
       pos := l.pos[f := if nodes[mp].next != 0 then (l.pos[mp] + l.pos[mp + nodes[mp].next]) / 2.0
         else l.pos[mp] + 1.0])
  }

  ghost predicate CanPutAfter(h: Hashes, nodes: seq<Node>, l: Links, mp: nat, f: nat) {
    && Chained(h, nodes, l) && mp < |nodes| && f < |nodes|
    && Used(nodes[mp]) && !Used(nodes[f])
    && (nodes[mp].next != 0 ==> 0 <= mp + nodes[mp].next < |nodes| && Together(nodes, l, mp, mp + nodes[mp].next))
  }

  /** How the chains change: `f` joins the chain of `mp`. */
  lemma AfterTogether(h: Hashes, nodes: seq<Node>, l: Links, mp: nat, f: nat, k: Key, i: int, j: int)
    requires CanPutAfter(h, nodes, l, mp, f) && k != KNil
    ensures Together(PutAfter(nodes, mp, f, k), LinksAfter(nodes, l, mp, f), i, j)
      <==> Together(nodes, l, if i == f then mp else i, if j == f then mp else j)
  {
  }

  /** Where `f` is in the order. */
  lemma AfterOrder(h: Hashes, nodes: seq<Node>, l: Links, mp: nat, f: nat, i: int)
    requires CanPutAfter(h, nodes, l, mp, f) && Together(nodes, l, mp, i) && i != mp
    ensures var l1 := LinksAfter(nodes, l, mp, f); l.pos[mp] < l1.pos[f] && l1.pos[f] != l.pos[i]
    ensures var l1 := LinksAfter(nodes, l, mp, f); l.pos[i] > l.pos[mp] <==> l.pos[i] > l1.pos[f]
  {
    assert NodeOk(h, nodes, l, mp);
  }

  lemma AfterOther(h: Hashes, nodes: seq<Node>, l: Links, mp: nat, f: nat, k: Key, i: nat)
    requires CanPutAfter(h, nodes, l, mp, f) && k != KNil && i < |nodes| && i != f && i != mp
    ensures NodeOk(h, PutAfter(nodes, mp, f, k), LinksAfter(nodes, l, mp, f), i)
  {
    var nodes1, l1 := PutAfter(nodes, mp, f, k), LinksAfter(nodes, l, mp, f);
    assert NodeOk(h, nodes, l, i);
    if Used(nodes[i]) {
      AfterTogether(h, nodes, l, mp, f, k, i, i + nodes[i].next);
      AfterTogether(h, nodes, l, mp, f, k, i, MainPos(h, nodes[i].key, |nodes|));
      forall x | Together(nodes1, l1, i, x)
        ensures if nodes[i].next == 0 then l1.pos[x] <= l1.pos[i] else l1.pos[x] > l1.pos[i] ==>
          l1.pos[i + nodes[i].next] <= l1.pos[x]
      {
        AfterTogether(h, nodes, l, mp, f, k, i, x);
        if x == f {
          assert Together(nodes, l, i, mp) && Together(nodes, l, mp, i);
          AfterOrder(h, nodes, l, mp, f, i);
        }
      }
    }
  }

  lemma AfterFirst(h: Hashes, nodes: seq<Node>, l: Links, mp: nat, f: nat, k: Key)
    requires CanPutAfter(h, nodes, l, mp, f) && k != KNil && MainPos(h, nodes[mp].key, |nodes|) == mp
    ensures NodeOk(h, PutAfter(nodes, mp, f, k), LinksAfter(nodes, l, mp, f), mp)
  {
    var nodes1, l1 := PutAfter(nodes, mp, f, k), LinksAfter(nodes, l, mp, f);
    assert NodeOk(h, nodes, l, mp);
    assert Together(nodes, l, mp, mp);
    AfterTogether(h, nodes, l, mp, f, k, mp, f);
    forall x | Together(nodes1, l1, mp, x) ensures l1.pos[x] > l1.pos[mp] ==> l1.pos[f] <= l1.pos[x] {
      AfterTogether(h, nodes, l, mp, f, k, mp, x);
      if x != f && x != mp {
        AfterOrder(h, nodes, l, mp, f, x);
      }
    }
  }

  lemma AfterSecond(h: Hashes, nodes: seq<Node>, l: Links, mp: nat, f: nat, k: Key)
    requires CanPutAfter(h, nodes, l, mp, f) && k != KNil
    requires MainPos(h, nodes[mp].key, |nodes|) == mp == MainPos(h, k, |nodes|)
    ensures NodeOk(h, PutAfter(nodes, mp, f, k), LinksAfter(nodes, l, mp, f), f)
  {
    var nodes1, l1 := PutAfter(nodes, mp, f, k), LinksAfter(nodes, l, mp, f);
    assert NodeOk(h, nodes, l, mp);
    var nx := mp + nodes[mp].next;
    AfterTogether(h, nodes, l, mp, f, k, f, mp);
    if nodes[mp].next != 0 {
      AfterTogether(h, nodes, l, mp, f, k, f, nx);
      AfterOrder(h, nodes, l, mp, f, nx);
    }
    forall x | Together(nodes1, l1, f, x)
      ensures if nodes[mp].next == 0 then l1.pos[x] <= l1.pos[f] else l1.pos[x] > l1.pos[f] ==> l1.pos[nx] <= l1.pos[x]
    {
      AfterTogether(h, nodes, l, mp, f, k, f, x);
      if x != f && x != mp {
        AfterOrder(h, nodes, l, mp, f, x);
      }
    }
  }

  lemma InsertAfter(h: Hashes, nodes: seq<Node>, l: Links, mp: nat, f: nat, k: Key)
    requires Chained(h, nodes, l) && k != KNil && mp < |nodes| && f < |nodes| && mp == MainPos(h, k, |nodes|)
    requires Used(nodes[mp]) && !Used(nodes[f]) && MainPos(h, nodes[mp].key, |nodes|) == mp
    ensures nodes[mp].next != 0 ==> 0 <= mp + nodes[mp].next < |nodes|
    ensures Chained(h, PutAfter(nodes, mp, f, k), LinksAfter(nodes, l, mp, f))
  {
    assert NodeOk(h, nodes, l, mp);
    var nodes1, l1 := PutAfter(nodes, mp, f, k), LinksAfter(nodes, l, mp, f);
    forall i | 0 <= i < |nodes1| ensures NodeOk(h, nodes1, l1, i) {
      if i == mp {
        AfterFirst(h, nodes, l, mp, f, k);
      } else if i == f {
        AfterSecond(h, nodes, l, mp, f, k);
      } else {
        AfterOther(h, nodes, l, mp, f, k, i);
      }
    }
    forall i, j | Together(nodes1, l1, i, j) && i != j ensures l1.pos[i] != l1.pos[j] {
      AfterTogether(h, nodes, l, mp, f, k, i, j);
      assert Together(nodes, l, mp, if i == f then j else i) <== i == f || j == f;
      if i == f && j != mp {
        AfterOrder(h, nodes, l, mp, f, j);
      } else if j == f && i != mp {
        AfterOrder(h, nodes, l, mp, f, i);
      }
    }
  }

  /** The colliding node is out of its main position: it moves to the free node `f`, and the new key takes its place. */
  function MoveOut(nodes: seq<Node>, mp: nat, f: nat, p: nat, k: Key): seq<Node>
    requires mp < |nodes| && f < |nodes| && p < |nodes|
  {
    nodes[p := nodes[p].(next := f - p)]
         [f := nodes[mp].(next := if nodes[mp].next != 0 then nodes[mp].next + (mp - f) else 0)]
         [mp := Fresh(k, 0)]
  }

  function LinksMoved(l: Links, mp: nat, f: nat): Links
    requires |l.cid| == |l.pos| && mp < |l.cid| && f < |l.cid|
  {
    Links(l.cid[f := l.cid[mp]][mp := l.unused], l.pos[f := l.pos[mp]][mp := 0.0], l.unused + 1)
  }

  ghost predicate CanMove(h: Hashes, nodes: seq<Node>, l: Links, mp: nat, f: nat, p: nat) {
    && Chained(h, nodes, l) && mp < |nodes| && f < |nodes| && p < |nodes|
    && Used(nodes[mp]) && !Used(nodes[f]) && MainPos(h, nodes[mp].key, |nodes|) != mp
    && Used(nodes[p]) && nodes[p].next != 0 && p + nodes[p].next == mp
  }

  /** How the chains change: `f` takes the place of `mp`, which begins a chain of its own. */
  lemma MovedTogether(h: Hashes, nodes: seq<Node>, l: Links, mp: nat, f: nat, p: nat, k: Key, i: int, j: int)
    requires CanMove(h, nodes, l, mp, f, p) && k != KNil
    ensures Together(MoveOut(nodes, mp, f, p, k), LinksMoved(l, mp, f), i, j)
      <==> if i == mp || j == mp then i == j else Together(nodes, l, if i == f then mp else i, if j == f then mp else j)
  {
    assert NodeOk(h, nodes, l, mp) && NodeOk(h, nodes, l, p);
    assert p != mp && p != f;
    OldIds(h, nodes, l);
  }

  /** Only `p` links to `mp`. */
  lemma OnePredecessor(h: Hashes, nodes: seq<Node>, l: Links, mp: nat, p: nat, i: nat)
    requires Chained(h, nodes, l) && mp < |nodes| && p < |nodes| && i < |nodes| && Used(nodes[p]) && Used(nodes[i])
    requires nodes[p].next != 0 && p + nodes[p].next == mp && nodes[i].next != 0 && i + nodes[i].next == mp
    ensures i == p
  {
    assert NodeOk(h, nodes, l, i) && NodeOk(h, nodes, l, p);
    assert Together(nodes, l, i, p) && Together(nodes, l, p, i);
  }

  lemma MovedOther(h: Hashes, nodes: seq<Node>, l: Links, mp: nat, f: nat, p: nat, k: Key, i: nat)
    requires CanMove(h, nodes, l, mp, f, p) && k != KNil && i < |nodes| && i != f && i != mp
    ensures NodeOk(h, MoveOut(nodes, mp, f, p, k), LinksMoved(l, mp, f), i)
  {
    var nodes1, l1 := MoveOut(nodes, mp, f, p, k), LinksMoved(l, mp, f);
    assert NodeOk(h, nodes, l, i) && NodeOk(h, nodes, l, mp);
    if Used(nodes[i]) {
      var j := i + nodes[i].next;
      var m := MainPos(h, nodes[i].key, |nodes|);
      assert m != mp && m != f && nodes1[m].key == nodes[m].key && nodes1[i].key == nodes[i].key;
      MovedTogether(h, nodes, l, mp, f, p, k, i, m);
      if nodes[i].next != 0 && j == mp {
        OnePredecessor(h, nodes, l, mp, p, i);
      }
      MovedTogether(h, nodes, l, mp, f, p, k, i, i + nodes1[i].next);
      forall x | Together(nodes1, l1, i, x)
        ensures if nodes1[i].next == 0 then l1.pos[x] <= l1.pos[i] else l1.pos[x] > l1.pos[i] ==>
          l1.pos[i + nodes1[i].next] <= l1.pos[x]
      {
        MovedTogether(h, nodes, l, mp, f, p, k, i, x);
      }
    }
  }

  lemma MovedNode(h: Hashes, nodes: seq<Node>, l: Links, mp: nat, f: nat, p: nat, k: Key)
    requires CanMove(h, nodes, l, mp, f, p) && k != KNil
    ensures NodeOk(h, MoveOut(nodes, mp, f, p, k), LinksMoved(l, mp, f), f)
  {
    var nodes1, l1 := MoveOut(nodes, mp, f, p, k), LinksMoved(l, mp, f);
    assert NodeOk(h, nodes, l, mp) && p != mp && p != f;
    var m, nx := MainPos(h, nodes[mp].key, |nodes|), mp + nodes[mp].next;
    assert m != f;
    MovedTogether(h, nodes, l, mp, f, p, k, f, m);
    if nodes[mp].next != 0 {
      assert nx != f && f + nodes1[f].next == nx && nodes1[f].next != 0;
      MovedTogether(h, nodes, l, mp, f, p, k, f, nx);
    }
    forall x | Together(nodes1, l1, f, x)
      ensures if nodes1[f].next == 0 then l1.pos[x] <= l1.pos[f] else l1.pos[x] > l1.pos[f] ==> l1.pos[nx] <= l1.pos[x]
    {
      MovedTogether(h, nodes, l, mp, f, p, k, f, x);
    }
  }

  lemma MovedMain(h: Hashes, nodes: seq<Node>, l: Links, mp: nat, f: nat, p: nat, k: Key)
    requires CanMove(h, nodes, l, mp, f, p) && k != KNil && mp == MainPos(h, k, |nodes|)
    ensures NodeOk(h, MoveOut(nodes, mp, f, p, k), LinksMoved(l, mp, f), mp)
  {
    var nodes1, l1 := MoveOut(nodes, mp, f, p, k), LinksMoved(l, mp, f);
    assert nodes1[mp] == Fresh(k, 0) && |nodes1| == |nodes| && l1.cid[mp] == l.unused;
    MovedTogether(h, nodes, l, mp, f, p, k, mp, mp);
    forall x | Together(nodes1, l1, mp, x) ensures l1.pos[x] <= l1.pos[mp] {
      MovedTogether(h, nodes, l, mp, f, p, k, mp, x);
    }
    assert LinkOk(nodes1, l1, mp) && MainOk(h, nodes1, l1, mp);
  }

  lemma InsertMoving(h: Hashes, nodes: seq<Node>, l: Links, mp: nat, f: nat, p: nat, k: Key)
    requires CanMove(h, nodes, l, mp, f, p) && k != KNil && mp == MainPos(h, k, |nodes|)
    ensures Chained(h, MoveOut(nodes, mp, f, p, k), LinksMoved(l, mp, f))
  {
    var nodes1, l1 := MoveOut(nodes, mp, f, p, k), LinksMoved(l, mp, f);
    forall i | 0 <= i < |nodes1| ensures NodeOk(h, nodes1, l1, i) {
      if i == mp {
        MovedMain(h, nodes, l, mp, f, p, k);
      } else if i == f {
        MovedNode(h, nodes, l, mp, f, p, k);
      } else {
        MovedOther(h, nodes, l, mp, f, p, k, i);
      }
    }
    forall i, j | Together(nodes1, l1, i, j) && i != j ensures l1.pos[i] != l1.pos[j] {
      MovedTogether(h, nodes, l, mp, f, p, k, i, j);
    }
  }

  /** The walk from a key's main position to the node before its own: there is always a node to go to. */
  lemma WalkToPredecessor(h: Hashes, nodes: seq<Node>, l: Links, n: nat, mp: nat)
    requires Chained(h, nodes, l) && Together(nodes, l, n, mp) && l.pos[n] < l.pos[mp]
    ensures nodes[n].next != 0 && Together(nodes, l, n + nodes[n].next, mp)
    ensures n + nodes[n].next != mp ==> l.pos[n + nodes[n].next] < l.pos[mp]
    ensures After(nodes, l, n + nodes[n].next) < After(nodes, l, n)
  {
    assert NodeOk(h, nodes, l, n) && LinkOk(nodes, l, n);
    assert nodes[n].next != 0;
    assert Together(nodes, l, n, n + nodes[n].next);
    assert Together(nodes, l, n + nodes[n].next, mp);
    WalkOn(h, nodes, l, n);
  }

  // ----- dead keys -----

  /** A dead key that equals the key of a live entry. */
  ghost predicate Shadows(nodes: seq<Node>, i: int, j: int) {
    0 <= i < |nodes| && 0 <= j < |nodes| && Used(nodes[i]) && !nodes[i].dead && nodes[j].dead
      && nodes[j].key == nodes[i].key
  }

  /** Live entries come before dead ones with an equal key, so that a search that accepts dead keys finds them first. */
  ghost predicate LiveFirst(nodes: seq<Node>, l: Links)
    requires |l.pos| == |nodes|
  {
    forall i, j {:trigger Shadows(nodes, i, j)} :: Shadows(nodes, i, j) ==> l.pos[i] < l.pos[j]
  }

  /** A new key comes before all dead ones that equal it. */
  lemma FirstInMain(h: Hashes, nodes: seq<Node>, l: Links, mp: nat, k: Key, j: nat)
    requires Chained(h, nodes, l) && k != KNil && mp < |nodes| && mp == MainPos(h, k, |nodes|)
    requires j < |nodes| && j != mp && nodes[j].key == k
    ensures l.pos[mp] < l.pos[j] && Together(nodes, l, mp, j) && MainPos(h, nodes[mp].key, |nodes|) == mp
  {
    assert NodeOk(h, nodes, l, j);
  }

  lemma FirstReuse(h: Hashes, nodes: seq<Node>, l: Links, mp: nat, k: Key)
    requires Chained(h, nodes, l) && LiveFirst(nodes, l) && k != KNil && mp < |nodes| && mp == MainPos(h, k, |nodes|)
    ensures LiveFirst(nodes[mp := Fresh(k, nodes[mp].next)], l)
    ensures !Used(nodes[mp]) ==>
      LiveFirst(nodes[mp := Fresh(k, nodes[mp].next)],
      l.(cid := l.cid[mp := l.unused], pos := l.pos[mp := 0.0], unused := l.unused + 1))
  {
    var nodes1 := nodes[mp := Fresh(k, nodes[mp].next)];
    forall i, j | Shadows(nodes1, i, j) ensures l.pos[i] < l.pos[j] && (!Used(nodes[mp]) ==> i != mp) && j != mp {
      if i == mp {
        FirstInMain(h, nodes, l, mp, k, j);
      } else {
        assert Shadows(nodes, i, j);
      }
    }
  }

  lemma FirstAfter(h: Hashes, nodes: seq<Node>, l: Links, mp: nat, f: nat, k: Key)
    requires CanPutAfter(h, nodes, l, mp, f) && LiveFirst(nodes, l) && k != KNil && mp == MainPos(h, k, |nodes|)
    requires !nodes[mp].dead
    ensures LiveFirst(PutAfter(nodes, mp, f, k), LinksAfter(nodes, l, mp, f))
  {
    var nodes1, l1 := PutAfter(nodes, mp, f, k), LinksAfter(nodes, l, mp, f);
    forall i, j | Shadows(nodes1, i, j) ensures l1.pos[i] < l1.pos[j] {
      if i == f {
        FirstInMain(h, nodes, l, mp, k, j);
        AfterOrder(h, nodes, l, mp, f, j);
      } else {
        assert Shadows(nodes, i, j);
      }
    }
  }

  lemma FirstMoving(h: Hashes, nodes: seq<Node>, l: Links, mp: nat, f: nat, p: nat, k: Key)
    requires CanMove(h, nodes, l, mp, f, p) && LiveFirst(nodes, l) && k != KNil && mp == MainPos(h, k, |nodes|)
    ensures LiveFirst(MoveOut(nodes, mp, f, p, k), LinksMoved(l, mp, f))
  {
    var nodes1, l1 := MoveOut(nodes, mp, f, p, k), LinksMoved(l, mp, f);
    assert NodeOk(h, nodes, l, p) && p != f;
    forall i, j | Shadows(nodes1, i, j) ensures l1.pos[i] < l1.pos[j] {
      if i == mp {
        FirstInMain(h, nodes, l, mp, k, if j == f then mp else j);
      } else {
        assert Shadows(nodes, if i == f then mp else i, if j == f then mp else j);
      }
    }
  }

  /** A search that accepts dead keys begins at the main position too. */
  lemma WalkAnyStarts(h: Hashes, nodes: seq<Node>, l: Links, k: Key)
    requires Chained(h, nodes, l) && k != KNil && |nodes| > 0
    ensures var m := MainPos(h, k, |nodes|);
      forall i :: 0 <= i < |nodes| && nodes[i].key == k ==> i == m || i in After(nodes, l, m)
  {
    var m := MainPos(h, k, |nodes|);
    forall i | 0 <= i < |nodes| && nodes[i].key == k ensures i == m || i in After(nodes, l, m) {
      assert NodeOk(h, nodes, l, i);
      assert Together(nodes, l, m, i);
    }
  }
}
