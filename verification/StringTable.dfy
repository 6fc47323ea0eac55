/**
 The table of short strings (lstring.c): strings with equal contents are the same object. A bucket is a
 list linked through the strings, and the table is resized in place.
 */
module StringTable {
  import opened Sequences

  type Ref = nat

  datatype Link = Null | To(ref: Ref)

  datatype TString = TString(contents: string, hash: nat, hnext: Link)

  type Memory = map<Ref, TString>

  const MAX_INT: nat := 0x7FFF_FFFF
  const MINSTRTABSIZE: nat := 64

  // ----- lists linked through the strings -----

  ghost predicate NextIs(m: Memory, l: seq<Ref>, i: int) {
    0 <= i < |l| && l[i] in m ==> m[l[i]].hnext == if i + 1 < |l| then To(l[i + 1]) else Null
  }

  ghost predicate Chain(m: Memory, head: Link, l: seq<Ref>) {
    && head == (if l == [] then Null else To(l[0]))
    && (forall i {:trigger l[i]} :: 0 <= i < |l| ==> l[i] in m)
    && (forall i {:trigger NextIs(m, l, i)} :: 0 <= i < |l| ==> NextIs(m, l, i))
    && NoDup(l)
  }

  /** Every string is in the list of one bucket, `at`, or in the list `loose`. */
  ghost predicate Buckets(m: Memory, hash: seq<Link>, chains: seq<seq<Ref>>, at: map<Ref, nat>, head: Link,
      loose: seq<Ref>) {
    && |hash| == |chains| && Chain(m, head, loose) && AllIn(m, hash, chains, at)
    && (forall r {:trigger r in at} :: r in at ==> r in m && r !in loose && at[r] < |chains| && r in chains[at[r]])
    && (forall r {:trigger r in m} :: r in m ==> r in at || r in loose)
  }

  ghost predicate AllIn(m: Memory, hash: seq<Link>, chains: seq<seq<Ref>>, at: map<Ref, nat>) {
    forall b {:trigger chains[b]} :: 0 <= b < |chains| && b < |hash| ==> InBucket(m, hash[b], chains[b], at, b)
  }

  ghost predicate InBucket(m: Memory, head: Link, l: seq<Ref>, at: map<Ref, nat>, b: nat) {
    Chain(m, head, l) && forall r {:trigger r in l} :: r in l ==> r in at && at[r] == b
  }

  /** Every string is in the bucket for its hash. */
  ghost predicate Hashed(m: Memory, at: map<Ref, nat>, size: nat)
    requires size > 0
  {
    forall r {:trigger at[r]} :: r in at && r in m ==> at[r] == m[r].hash % size
  }

  /** While the table is resized: the strings of the buckets before `i` are where they will stay. */
  ghost predicate Rehashed(m: Memory, at: map<Ref, nat>, size: nat, newsize: nat, i: nat)
    requires size > 0 && newsize > 0
  {
    forall r {:trigger at[r]} :: r in at && r in m ==>
      at[r] == m[r].hash % newsize || (at[r] == m[r].hash % size && i <= at[r])
  }

  /** No two strings have the same contents, and hashes are those of the contents. */
  ghost predicate Interned(m: Memory, hashOf: string -> nat) {
    && (forall r {:trigger m[r]} :: r in m ==> m[r].hash == hashOf(m[r].contents))
    && forall r1, r2 {:trigger SameObject(m, r1, r2)} :: SameObject(m, r1, r2)
  }

  ghost predicate SameObject(m: Memory, r1: Ref, r2: Ref) {
    r1 in m && r2 in m && m[r1].contents == m[r2].contents ==> r1 == r2
  }

  ghost function Count(m: Memory): nat {
    |m.Keys|
  }

  /** The strings, whatever the buckets are. */
  ghost function Contents(m: Memory): map<Ref, string> {
    map r | r in m :: m[r].contents
  }

  class Table {
    const hashOf: string -> nat
    var hash: seq<Link>
    var size: nat
    var nuse: nat
    var strings: Memory
    ghost var chains: seq<seq<Ref>>
    ghost var at: map<Ref, nat>

    ghost predicate Valid()
      reads this
    {
      && |hash| == |chains| == size > 0 && Buckets(strings, hash, chains, at, Null, []) && Hashed(strings, at, size)
      && Interned(strings, hashOf) && nuse == Count(strings)
    }

    /** `luaS_init`. */
    constructor (hashOf: string -> nat)
      ensures Valid() && strings == map[] && this.hashOf == hashOf
    {
      this.hashOf := hashOf;
      hash, size, nuse, strings := seq(MINSTRTABSIZE, _ => Null), MINSTRTABSIZE, 0, map[];
      chains, at := seq(MINSTRTABSIZE, _ => []), map[];
    }

    /** `luaS_resize`: works in place for any two sizes. */
    method Resize(newsize: nat)
      requires Valid() && newsize > 0
      modifies `hash, `size, `strings, `chains, `at
      ensures Valid() && size == newsize && SameStrings(old(strings), strings)
    {
      hide Buckets, Interned, Hashed, Rehashed, SameStrings;
      ghost var m0 := strings;
      if newsize > size {
        GrowBuckets(strings, hash, chains, at, newsize);
        hash, chains := hash + seq(newsize - size, _ => Null), chains + seq(newsize - size, _ => []);
      }
      RehashStarts(strings, at, size, newsize);
      SameStringsRefl(m0);
      for i := 0 to size
        invariant |hash| == (if newsize > size then newsize else size) && size == old(size) && |chains| == |hash|
        invariant Buckets(strings, hash, chains, at, Null, []) && Rehashed(strings, at, size, newsize, i)
        invariant SameStrings(m0, strings)
      {
        ghost var m := strings;
        RehashBucket(i, newsize);
        SameStringsTrans(m0, m, strings);
      }
      RehashEnds(strings, hash, chains, at, size, newsize);
      if newsize < size {
        ShrinkBuckets(strings, hash, chains, at, newsize);
        hash, chains := hash[..newsize], chains[..newsize];
      }
      size := newsize;
      SameInterned(m0, strings, hashOf);
    }

    /** The body of the rehash loop: every string of bucket `i` goes to the front of its new bucket. */
    method RehashBucket(i: nat, newsize: nat)
      requires |hash| == |chains| && i < |hash| && 0 < newsize <= |hash| && size > 0
      requires Buckets(strings, hash, chains, at, Null, []) && Rehashed(strings, at, size, newsize, i)
      modifies `hash, `strings, `chains, `at
      ensures Buckets(strings, hash, chains, at, Null, []) && Rehashed(strings, at, size, newsize, i + 1)
      ensures |hash| == |old(hash)| == |chains| && SameStrings(old(strings), strings)
    {
      hide Buckets, Rehashed, SameStrings;
      ghost var m0 := strings;
      TakeBucket(strings, hash, chains, at, i, size, newsize);
      SameStringsRefl(m0);
      var p := hash[i];
      ghost var loose := chains[i];
      hash, chains, at := hash[i := Null], chains[i := []], Outside(at, chains[i]);
      while p != Null
        invariant Buckets(strings, hash, chains, at, p, loose) && Rehashed(strings, at, size, newsize, i + 1)
        invariant |hash| == |old(hash)| == |chains| && SameStrings(m0, strings)
        decreases |loose|
      {
        ghost var m := strings;
        LooseHead(strings, hash, chains, at, p, loose);
        var r := p.ref;
        var hnext := strings[r].hnext;
        var h := strings[r].hash % newsize;
        PushFront(strings, hash, chains, at, loose, h, size, newsize, i + 1);
        strings := strings[r := strings[r].(hnext := hash[h])];
        hash, chains, at := hash[h := p], chains[h := [r] + chains[h]], at[r := h];
        p, loose := hnext, loose[1..];
        SameStringsTrans(m0, m, strings);
      }
      NoneLoose(strings, hash, chains, at, p, loose);
    }

    /** `internshrstr`: the string with these contents; `a` is where a new one would be. */
    method Intern(str: string, a: Ref) returns (r: Ref)
      requires Valid() && a !in strings
      modifies `hash, `size, `strings, `nuse, `chains, `at
      ensures Valid() && r in strings && strings[r].contents == str
      ensures Contents(strings) == Contents(old(strings))[r := str]
      ensures r != a ==> r in old(strings) && Contents(strings) == Contents(old(strings))
      ensures r == a <==> forall x :: x in old(strings) ==> old(strings)[x].contents != str
    {
      hide Buckets, Interned, Hashed, SameStrings;
      var h := hashOf(str);
      var found, x := Search(str, h);
      if found {
        FoundIn(strings, x, str);
        return x;
      }
      ghost var m0 := strings;
      SameStringsRefl(m0);
      if nuse >= size && size <= MAX_INT / 2 {
        Resize(size * 2);
      }
      SameAbsent(m0, strings, str, a);
      var b := h % size;
      AddFront(strings, hash, chains, at, size, hashOf, str, b, a);
      strings := strings[a := TString(str, h, hash[b])];
      hash, chains, at := hash[b := To(a)], chains[b := [a] + chains[b]], at[a := b];
      nuse := nuse + 1;
      r := a;
    }

    /** The search in the bucket. */
    method Search(str: string, h: nat) returns (found: bool, r: Ref)
      requires Valid() && h == hashOf(str)
      ensures found ==> r in strings && strings[r].contents == str
      ensures !found ==> forall x :: x in strings ==> strings[x].contents != str
    {
      hide Buckets, Hashed, Interned;
      BucketChain(strings, hash, chains, at, h % size);
      var ts := hash[h % size];
      ghost var l, i := chains[h % size], 0;
      while ts != Null
        invariant i <= |l| && ts == (if i < |l| then To(l[i]) else Null)
        invariant forall j {:trigger l[j]} :: 0 <= j < i ==> strings[l[j]].contents != str
        decreases |l| - i
      {
        r := ts.ref;
        assert l[i] in strings && NextIs(strings, l, i);
        if strings[r].contents == str {
          return true, r;
        }
        ts := strings[r].hnext;
        i := i + 1;
      }
      found, r := false, 0;
      Absent(strings, hash, chains, at, size, hashOf, str);
    }

    /** `luaS_remove`, when the string is freed. */
    method Remove(r: Ref)
      requires Valid() && r in strings
      modifies `hash, `strings, `nuse, `chains, `at
      ensures Valid() && strings.Keys == old(strings).Keys - {r} && Contents(strings) == Contents(old(strings)) - {r}
    {
      hide Buckets, Interned, Hashed, Chain, Unlinked, Heads, Contents, Without, Count;
      var b := strings[r].hash % size;
      ghost var i := Position(strings, hash, chains, at, size, r);
      var prev := FindBefore(b, r, i);
      Unlink(strings, hash, chains, at, size, hashOf, b, i);
      var heads, m := UnlinkAt(hash, strings, b, r, prev, chains[b], i);
      hash, strings, nuse := heads, m, nuse - 1;
      chains, at := chains[b := Without(chains[b], i)], at - {r};
    }

    static method UnlinkAt(hash: seq<Link>, m: Memory, b: nat, r: Ref, prev: Link, ghost l: seq<Ref>, ghost i: nat)
        returns (hash1: seq<Link>, m1: Memory)
      requires b < |hash| && i < |l| && l[i] == r && r in m && prev == (if i == 0 then Null else To(l[i - 1]))
      requires (i > 0 ==> l[i - 1] in m)
      ensures hash1 == Heads(m, hash, l, b, i) && m1 == Unlinked(m, l, i)
    {
      hash1, m1 := hash, m;
      var next := m[r].hnext;
      if prev == Null {
        hash1 := hash[b := next];
      } else {
        m1 := m[prev.ref := m[prev.ref].(hnext := next)];
      }
      m1 := m1 - {r};
    }

    /** The element before `r` in its bucket, if any. */
    method FindBefore(b: nat, r: Ref, ghost i: nat) returns (prev: Link)
      requires |hash| == |chains| && b < |hash| && Chain(strings, hash[b], chains[b]) && i < |chains[b]|
      requires chains[b][i] == r
      ensures prev == if i == 0 then Null else To(chains[b][i - 1])
    {
      ghost var l := chains[b];
      var p := hash[b];
      prev := Null;
      assert forall k :: 0 <= k < i ==> l[k] != l[i];
      ghost var j := 0;
      while p != To(r)
        invariant j <= i && p == To(l[j]) && prev == if j == 0 then Null else To(l[j - 1])
        decreases i - j
      {
        assert l[j] in strings && NextIs(strings, l, j);
        prev, p := p, strings[p.ref].hnext;
        j := j + 1;
      }
    }
  }

  datatype Op = NewString(str: string) | Free(r: Ref) | SetSize(n: nat)

  /** What a run does to the strings, by contents; `a` is where the allocator puts a new one. */
  ghost function Do(s: map<Ref, string>, op: Op, a: Ref): map<Ref, string> {
    match op
    case NewString(str) => if str in s.Values then s else s[a := str]
    case Free(r) => s - {r}
    case SetSize(_) => s
  }

  method Perform(t: Table, op: Op, a: Ref)
    requires t.Valid() && a !in t.strings
    modifies t
    ensures t.Valid() && Contents(t.strings) == Do(old(Contents(t.strings)), op, a)
  {
    hide Buckets, Interned, Hashed;
    match op {
      case NewString(str) =>
        ValuesOf(t.strings, str);
        var r := t.Intern(str, a);
      case Free(r) =>
        if r in t.strings {
          t.Remove(r);
        }
      case SetSize(n) =>
        if n > 0 {
          ghost var m := t.strings;
          t.Resize(n);
          SameContents(m, t.strings);
        }
    }
  }

  lemma ValuesOf(m: Memory, str: string)
    ensures str in Contents(m).Values <==> exists x :: x in m && m[x].contents == str
  {
    if x :| x in m && m[x].contents == str {
      assert Contents(m)[x] == str;
    }
  }

  lemma SameContents(m: Memory, m1: Memory)
    requires SameStrings(m, m1)
    ensures Contents(m1) == Contents(m)
  {
  }

  /** Every string is in exactly one bucket, once. */
  lemma EachOnce(m: Memory, hash: seq<Link>, chains: seq<seq<Ref>>, at: map<Ref, nat>, size: nat, r: Ref)
    requires |hash| == size > 0 && Buckets(m, hash, chains, at, Null, []) && Hashed(m, at, size) && r in m
    ensures exists i :: 0 <= i < |chains[m[r].hash % size]| && chains[m[r].hash % size][i] == r
    ensures forall b, i {:trigger chains[b][i]} :: 0 <= b < size && 0 <= i < |chains[b]| && chains[b][i] == r ==>
      b == m[r].hash % size && forall j :: 0 <= j < |chains[b]| && j != i ==> chains[b][j] != r
  {
    assert r in at && r in chains[at[r]];
    forall b, i | 0 <= b < size && 0 <= i < |chains[b]| && chains[b][i] == r ensures b == at[r] {
      assert InBucket(m, hash[b], chains[b], at, b) && r in chains[b];
    }
    assert InBucket(m, hash[at[r]], chains[at[r]], at, at[r]);
  }

  // ----- proofs -----

  ghost predicate SameStrings(m: Memory, m1: Memory) {
    m1.Keys == m.Keys && forall r {:trigger m1[r]} :: r in m ==>
      m1[r].contents == m[r].contents && m1[r].hash == m[r].hash
  }

  lemma SameStringsRefl(m: Memory)
    ensures SameStrings(m, m)
  {
  }

  lemma SameStringsTrans(m: Memory, m1: Memory, m2: Memory)
    requires SameStrings(m, m1) && SameStrings(m1, m2)
    ensures SameStrings(m, m2)
  {
  }

  ghost function Outside(at: map<Ref, nat>, l: seq<Ref>): map<Ref, nat> {
    map r | r in at && r !in l :: at[r]
  }

  /** A list does not depend on strings that are not in it. */
  lemma ChainSame(m: Memory, m1: Memory, head: Link, l: seq<Ref>)
    requires Chain(m, head, l) && forall r {:trigger r in l} :: r in l ==> r in m1 && m1[r].hnext == m[r].hnext
    ensures Chain(m1, head, l)
  {
    forall i | 0 <= i < |l| ensures l[i] in m1 && NextIs(m1, l, i) {
      assert NextIs(m, l, i) && l[i] in l;
    }
  }

  lemma GrowBuckets(m: Memory, hash: seq<Link>, chains: seq<seq<Ref>>, at: map<Ref, nat>, newsize: nat)
    requires Buckets(m, hash, chains, at, Null, []) && |hash| <= newsize
    ensures var n := newsize - |hash|;
      Buckets(m, hash + seq(n, _ => Null), chains + seq(n, _ => []), at, Null, [])
  {
    var n := newsize - |hash|;
    var hash1, chains1: seq<seq<Ref>> := hash + seq(n, _ => Null), chains + seq(n, _ => []);
    forall b | 0 <= b < newsize ensures InBucket(m, hash1[b], chains1[b], at, b) {
      if b < |hash| {
        assert InBucket(m, hash[b], chains[b], at, b);
      }
    }
  }

  lemma ShrinkBuckets(m: Memory, hash: seq<Link>, chains: seq<seq<Ref>>, at: map<Ref, nat>, newsize: nat)
    requires Buckets(m, hash, chains, at, Null, []) && newsize <= |hash|
    requires forall r {:trigger at[r]} :: r in at ==> at[r] < newsize
    ensures Buckets(m, hash[..newsize], chains[..newsize], at, Null, [])
  {
    forall b | 0 <= b < newsize ensures InBucket(m, hash[..newsize][b], chains[..newsize][b], at, b) {
      assert InBucket(m, hash[b], chains[b], at, b);
    }
  }

  lemma RehashStarts(m: Memory, at: map<Ref, nat>, size: nat, newsize: nat)
    requires size > 0 && newsize > 0 && Hashed(m, at, size)
    ensures Rehashed(m, at, size, newsize, 0)
  {
  }

  lemma RehashEnds(m: Memory, hash: seq<Link>, chains: seq<seq<Ref>>, at: map<Ref, nat>, size: nat, newsize: nat)
    requires size > 0 && newsize > 0 && Rehashed(m, at, size, newsize, size) && Buckets(m, hash, chains, at, Null, [])
    ensures Hashed(m, at, newsize) && forall r {:trigger at[r]} :: r in at ==> at[r] < newsize
  {
  }

  /** A bucket is emptied; its strings are loose. */
  lemma TakeBucket(m: Memory, hash: seq<Link>, chains: seq<seq<Ref>>, at: map<Ref, nat>, i: nat, size: nat,
      newsize: nat)
    requires Buckets(m, hash, chains, at, Null, []) && i < |hash| && size > 0 && newsize > 0
    requires Rehashed(m, at, size, newsize, i)
    ensures Buckets(m, hash[i := Null], chains[i := []], Outside(at, chains[i]), hash[i], chains[i])
    ensures Rehashed(m, Outside(at, chains[i]), size, newsize, i + 1)
  {
    var hash1, chains1, at1 := hash[i := Null], chains[i := []], Outside(at, chains[i]);
    assert InBucket(m, hash[i], chains[i], at, i);
    forall b | 0 <= b < |hash| ensures InBucket(m, hash1[b], chains1[b], at1, b) {
      assert InBucket(m, hash[b], chains[b], at, b);
    }
    forall r | r in at1 ensures at1[r] != i {
      assert r in chains[at[r]];
    }
  }

  lemma LooseHead(m: Memory, hash: seq<Link>, chains: seq<seq<Ref>>, at: map<Ref, nat>, p: Link, loose: seq<Ref>)
    requires Buckets(m, hash, chains, at, p, loose) && p != Null
    ensures loose != [] && p == To(loose[0]) && loose[0] in m
  {
  }

  lemma NoneLoose(m: Memory, hash: seq<Link>, chains: seq<seq<Ref>>, at: map<Ref, nat>, p: Link, loose: seq<Ref>)
    requires Buckets(m, hash, chains, at, p, loose) && p == Null
    ensures loose == []
  {
  }

  /** The first loose string goes to the front of a bucket. */
  lemma PushFront(m: Memory, hash: seq<Link>, chains: seq<seq<Ref>>, at: map<Ref, nat>, loose: seq<Ref>, h: nat,
      size: nat, newsize: nat, i: nat)
    requires loose != [] && Buckets(m, hash, chains, at, To(loose[0]), loose) && loose[0] in m && h < |hash| == |chains|
    requires size > 0 && newsize > 0 && Rehashed(m, at, size, newsize, i) && h == m[loose[0]].hash % newsize
    ensures var r := loose[0];
      var m1 := m[r := m[r].(hnext := hash[h])];
      && Buckets(m1, hash[h := To(r)], chains[h := [r] + chains[h]], at[r := h], m[r].hnext, loose[1..])
      && Rehashed(m1, at[r := h], size, newsize, i) && SameStrings(m, m1)
  {
    hide AllIn, InBucket, KeepsLinks;
    var r := loose[0];
    var m1 := m[r := m[r].(hnext := hash[h])];
    assert r in loose && r !in at;
    Front(m, m1, hash, chains, at, r, h);
    hide AllIn, NextIs;
    Rest(m, loose);
    forall x | x in loose[1..] ensures x in m1 && m1[x].hnext == m[x].hnext {
      var i :| 0 <= i < |loose[1..]| && loose[1..][i] == x;
      assert loose[i + 1] == x && loose[0] != loose[i + 1];
    }
    ChainSame(m, m1, m[r].hnext, loose[1..]);
    assert loose == [r] + loose[1..];
  }

  ghost predicate KeepsLinks(m: Memory, m1: Memory, r: Ref) {
    forall x {:trigger x in m} :: x in m && x != r ==> x in m1 && m1[x].hnext == m[x].hnext
  }

  /** A string that was in no bucket is put in front of one. */
  lemma Front(m: Memory, m1: Memory, hash: seq<Link>, chains: seq<seq<Ref>>, at: map<Ref, nat>, r: Ref, h: nat)
    requires AllIn(m, hash, chains, at) && r !in at && h < |hash| == |chains|
    requires r in m1 && m1[r].hnext == hash[h] && KeepsLinks(m, m1, r)
    ensures AllIn(m1, hash[h := To(r)], chains[h := [r] + chains[h]], at[r := h])
  {
    var hash1, chains1 := hash[h := To(r)], chains[h := [r] + chains[h]];
    forall b | 0 <= b < |hash| ensures InBucket(m1, hash1[b], chains1[b], at[r := h], b) {
      assert InBucket(m, hash[b], chains[b], at, b);
      OtherBucket(m, m1, hash[b], chains[b], at, b, r, h);
      if b == h {
        InFront(m1, r, hash[h], chains[h]);
      }
    }
  }

  lemma OtherBucket(m: Memory, m1: Memory, head: Link, l: seq<Ref>, at: map<Ref, nat>, b: nat, r: Ref, h: nat)
    requires InBucket(m, head, l, at, b) && r !in at && KeepsLinks(m, m1, r)
    ensures InBucket(m1, head, l, at[r := h], b) && r !in l
  {
    assert forall x :: x in l ==> x in m && x != r;
    ChainSame(m, m1, head, l);
  }

  lemma InFront(m: Memory, r: Ref, head: Link, l: seq<Ref>)
    requires Chain(m, head, l) && r in m && m[r].hnext == head && r !in l
    ensures Chain(m, To(r), [r] + l)
  {
    var l1 := [r] + l;
    forall i | 0 <= i < |l1| ensures l1[i] in m && NextIs(m, l1, i) {
      if i > 0 {
        assert NextIs(m, l, i - 1);
      }
    }
  }

  lemma Rest(m: Memory, l: seq<Ref>)
    requires l != [] && Chain(m, To(l[0]), l)
    ensures l[0] in m && Chain(m, m[l[0]].hnext, l[1..]) && l[0] !in l[1..]
  {
    assert NextIs(m, l, 0);
    forall i | 0 <= i < |l| - 1 ensures l[1..][i] in m && NextIs(m, l[1..], i) {
      assert NextIs(m, l, i + 1);
    }
  }

  lemma BucketChain(m: Memory, hash: seq<Link>, chains: seq<seq<Ref>>, at: map<Ref, nat>, b: nat)
    requires Buckets(m, hash, chains, at, Null, []) && b < |hash|
    ensures b < |chains| && Chain(m, hash[b], chains[b])
  {
    assert InBucket(m, hash[b], chains[b], at, b);
  }

  /** A string that is not in its bucket is nowhere. */
  lemma Absent(m: Memory, hash: seq<Link>, chains: seq<seq<Ref>>, at: map<Ref, nat>, size: nat, hashOf: string -> nat,
      str: string)
    requires |hash| == |chains| == size > 0 && Buckets(m, hash, chains, at, Null, []) && Hashed(m, at, size)
    requires Interned(m, hashOf)
    requires var l := chains[hashOf(str) % size];
      forall j {:trigger l[j]} :: 0 <= j < |l| ==> l[j] in m && m[l[j]].contents != str
    ensures forall x :: x in m ==> m[x].contents != str
  {
    forall x | x in m ensures m[x].contents != str {
      var l := chains[hashOf(str) % size];
      assert x in at && m[x].hash == hashOf(m[x].contents);
      assert m[x].contents == str ==> x in l;
    }
  }

  lemma SameInterned(m: Memory, m1: Memory, hashOf: string -> nat)
    requires Interned(m, hashOf) && SameStrings(m, m1)
    ensures Interned(m1, hashOf) && Count(m1) == Count(m)
  {
    forall r1, r2 ensures SameObject(m1, r1, r2) {
      assert SameObject(m, r1, r2);
    }
  }

  lemma FoundIn(m: Memory, r: Ref, str: string)
    requires r in m && m[r].contents == str
    ensures Contents(m)[r := str] == Contents(m)
  {
  }

  lemma SameAbsent(m: Memory, m1: Memory, str: string, a: Ref)
    requires SameStrings(m, m1) && a !in m && forall x :: x in m ==> m[x].contents != str
    ensures a !in m1 && Contents(m1) == Contents(m) && forall x :: x in m1 ==> m1[x].contents != str
  {
  }

  lemma AddFront(m: Memory, hash: seq<Link>, chains: seq<seq<Ref>>, at: map<Ref, nat>, size: nat,
      hashOf: string -> nat, str: string, b: nat, a: Ref)
    requires |hash| == size > 0 && Buckets(m, hash, chains, at, Null, []) && Hashed(m, at, size) && Interned(m, hashOf)
    requires a !in m && b == hashOf(str) % size && forall x :: x in m ==> m[x].contents != str
    ensures |chains| == size
    ensures var m1, at1 := m[a := TString(str, hashOf(str), hash[b])], at[a := b];
      && Buckets(m1, hash[b := To(a)], chains[b := [a] + chains[b]], at1, Null, []) && Hashed(m1, at1, size)
        && Interned(m1, hashOf)
      && Contents(m1) == Contents(m)[a := str] && Count(m1) == Count(m) + 1
  {
    hide AllIn, Chain, Interned;
    var m1 := m[a := TString(str, hashOf(str), hash[b])];
    Front(m, m1, hash, chains, at, a, b);
    EmptyChain(m1);
    AddInterned(m, hashOf, str, a, hash[b]);
  }

  lemma CountOne(m: Memory, a: Ref, t: TString)
    requires a !in m
    ensures Count(m[a := t]) == Count(m) + 1
  {
    assert m[a := t].Keys == m.Keys + {a};
  }

  lemma AddInterned(m: Memory, hashOf: string -> nat, str: string, a: Ref, next: Link)
    requires Interned(m, hashOf) && a !in m && forall x :: x in m ==> m[x].contents != str
    ensures var m1 := m[a := TString(str, hashOf(str), next)];
      Interned(m1, hashOf) && Contents(m1) == Contents(m)[a := str] && Count(m1) == Count(m) + 1
  {
    hide Count;
    var m1 := m[a := TString(str, hashOf(str), next)];
    CountOne(m, a, m1[a]);
    forall r1, r2 ensures SameObject(m1, r1, r2) {
      assert SameObject(m, r1, r2);
    }
  }

  lemma LessInterned(m: Memory, m1: Memory, hashOf: string -> nat, r: Ref)
    requires Interned(m, hashOf) && r in m && m1.Keys == m.Keys - {r}
    requires forall x {:trigger m1[x]} :: x in m1 ==> m1[x].contents == m[x].contents && m1[x].hash == m[x].hash
    ensures Interned(m1, hashOf) && Contents(m1) == Contents(m) - {r} && Count(m1) == Count(m) - 1
  {
    forall r1, r2 ensures SameObject(m1, r1, r2) {
      assert SameObject(m, r1, r2);
    }
  }

  lemma EmptyChain(m: Memory)
    ensures Chain(m, Null, [])
  {
  }

  lemma Position(m: Memory, hash: seq<Link>, chains: seq<seq<Ref>>, at: map<Ref, nat>, size: nat, r: Ref)
      returns (i: nat)
    requires |hash| == size > 0 && Buckets(m, hash, chains, at, Null, []) && Hashed(m, at, size) && r in m
    ensures var b := m[r].hash % size;
      |chains| == size && i < |chains[b]| && chains[b][i] == r && Chain(m, hash[b], chains[b])
  {
    var b := m[r].hash % size;
    assert r in at && InBucket(m, hash[b], chains[b], at, b) && r in chains[b];
    i :| 0 <= i < |chains[b]| && chains[b][i] == r;
  }

  ghost function Unlinked(m: Memory, l: seq<Ref>, i: nat): Memory
    requires i < |l| && l[i] in m
  {
    (if i > 0 && l[i - 1] in m then m[l[i - 1] := m[l[i - 1]].(hnext := m[l[i]].hnext)] else m) - {l[i]}
  }

  ghost function Heads(m: Memory, hash: seq<Link>, l: seq<Ref>, b: nat, i: nat): seq<Link>
    requires b < |hash| && i < |l| && l[i] in m
  {
    if i == 0 then hash[b := m[l[i]].hnext] else hash
  }

  ghost function Without(l: seq<Ref>, i: nat): seq<Ref>
    requires i < |l|
  {
    l[..i] + l[i + 1..]
  }

  lemma Unlink(m: Memory, hash: seq<Link>, chains: seq<seq<Ref>>, at: map<Ref, nat>, size: nat, hashOf: string -> nat,
      b: nat, i: nat)
    requires |hash| == size > 0 && Buckets(m, hash, chains, at, Null, []) && Hashed(m, at, size) && Interned(m, hashOf)
    requires b < size && |chains| == size && i < |chains[b]| && chains[b][i] in m
    ensures var l := chains[b];
      var r, m1 := l[i], Unlinked(m, l, i);
      && (i > 0 ==> l[i - 1] in m) && |Heads(m, hash, l, b, i)| == size
        && Buckets(m1, Heads(m, hash, l, b, i), chains[b := Without(l, i)], at - {r}, Null, [])
      && Hashed(m1, at - {r}, size) && Interned(m1, hashOf)
      && m1.Keys == m.Keys - {r} && Count(m1) == Count(m) - 1 && Contents(m1) == Contents(m) - {r}
  {
    hide Chain, AllIn;
    var l := chains[b];
    UnlinkedKeys(m, l, i);
    BucketsUnlinked(m, hash, chains, at, b, i);
    LessInterned(m, Unlinked(m, l, i), hashOf, l[i]);
  }

  lemma UnlinkedKeys(m: Memory, l: seq<Ref>, i: nat)
    requires i < |l| && l[i] in m
    ensures var m1 := Unlinked(m, l, i);
      && m1.Keys == m.Keys - {l[i]}
      && forall x {:trigger m1[x]} :: x in m1 ==> m1[x].contents == m[x].contents && m1[x].hash == m[x].hash
  {
  }

  lemma BucketsUnlinked(m: Memory, hash: seq<Link>, chains: seq<seq<Ref>>, at: map<Ref, nat>, b: nat, i: nat)
    requires Buckets(m, hash, chains, at, Null, []) && b < |hash| && i < |chains[b]| && chains[b][i] in m
    ensures var l := chains[b];
      && (i > 0 ==> l[i - 1] in m)
      && Buckets(Unlinked(m, l, i), Heads(m, hash, l, b, i), chains[b := Without(l, i)], at - {l[i]}, Null, [])
  {
    hide Chain;
    var l := chains[b];
    var m1, at1, chains1 := Unlinked(m, l, i), at - {l[i]}, chains[b := Without(l, i)];
    AllUnlinked(m, hash, chains, at, b, i);
    EmptyChain(m1);
    UnlinkedKeys(m, l, i);
    assert InBucket(m, hash[b], l, at, b);
    hide AllIn;
    forall x | x in at1 ensures x in chains1[at1[x]] {
      assert x in chains[at[x]];
      if at[x] == b {
        assert l == l[..i] + [l[i]] + l[i + 1..];
      }
    }
  }

  lemma AllUnlinked(m: Memory, hash: seq<Link>, chains: seq<seq<Ref>>, at: map<Ref, nat>, b: nat, i: nat)
    requires AllIn(m, hash, chains, at) && b < |hash| == |chains| && i < |chains[b]| && chains[b][i] in m
    ensures var l := chains[b];
      && (i > 0 ==> l[i - 1] in m)
      && AllIn(Unlinked(m, l, i), Heads(m, hash, l, b, i), chains[b := Without(l, i)], at - {l[i]})
  {
    hide Chain;
    var l := chains[b];
    var m1, at1 := Unlinked(m, l, i), at - {l[i]};
    var hash1, chains1 := Heads(m, hash, l, b, i), chains[b := Without(l, i)];
    assert InBucket(m, hash[b], l, at, b);
    UnlinkBucket(m, hash[b], l, at, b, i);
    forall c | 0 <= c < |hash| ensures InBucket(m1, hash1[c], chains1[c], at1, c) {
      if c != b {
        assert InBucket(m, hash[c], chains[c], at, c);
        UnlinkOther(m, hash[c], chains[c], at, c, l, i);
      }
    }
  }

  lemma UnlinkBucket(m: Memory, head: Link, l: seq<Ref>, at: map<Ref, nat>, b: nat, i: nat)
    requires InBucket(m, head, l, at, b) && i < |l| && l[i] in m
    ensures (i > 0 ==> l[i - 1] in m)
    ensures InBucket(Unlinked(m, l, i), if i == 0 then m[l[i]].hnext else head, Without(l, i), at - {l[i]}, b)
  {
    UnlinkChain(m, head, l, i);
    forall r | r in Without(l, i) ensures r in at - {l[i]} && at[r] == b {
      assert r in l && r != l[i];
    }
  }

  lemma UnlinkOther(m: Memory, head: Link, lc: seq<Ref>, at: map<Ref, nat>, c: nat, l: seq<Ref>, i: nat)
    requires InBucket(m, head, lc, at, c) && i < |l| && l[i] in m && forall x :: x in l ==> x in at && at[x] != c
    ensures InBucket(Unlinked(m, l, i), head, lc, at - {l[i]}, c)
  {
    assert l[i] in l && (i > 0 ==> l[i - 1] in l);
    ChainSame(m, Unlinked(m, l, i), head, lc);
  }

  lemma UnlinkChain(m: Memory, head: Link, l: seq<Ref>, i: nat)
    requires Chain(m, head, l) && i < |l|
    ensures i > 0 ==> l[i - 1] in m
    ensures Chain(Unlinked(m, l, i), if i == 0 then m[l[i]].hnext else head, l[..i] + l[i + 1..])
    ensures forall x :: x in l[..i] + l[i + 1..] ==> x in l && x != l[i]
  {
    var m1, l1 := Unlinked(m, l, i), l[..i] + l[i + 1..];
    assert NextIs(m, l, i);
    forall j | 0 <= j < |l1| ensures l1[j] in m1 && NextIs(m1, l1, j) {
      assert NextIs(m, l, if j < i then j else j + 1) && l[if j < i then j else j + 1] in m;
    }
  }
}
