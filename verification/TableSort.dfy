/**
 The quicksort of ltablib.c. It sorts a table in place with an order function that it does not trust:
 whatever the function does, the result is a permutation and no element outside is touched.
 */
module TableSort {
  import opened Powers

  /** What `sort` asks of its order function. */
  ghost predicate StrictWeakOrder<T(!new)>(less: (T, T) -> bool) {
    && (forall x, y :: less(x, y) ==> !less(y, x))
    && forall x, y, z :: less(x, z) ==> less(x, y) || less(y, z)
  }

  ghost predicate SortedBetween<T>(s: seq<T>, less: (T, T) -> bool, l: int, u: int)
    requires 0 <= l && u < |s|
  {
    forall p, q {:trigger s[p], s[q]} :: l <= p < q <= u ==> !less(s[q], s[p])
  }

  /** In order, but for elements `l` to `u` among each other. */
  ghost predicate SortedBut<T>(s: seq<T>, less: (T, T) -> bool, l0: int, u0: int, l: int, u: int)
    requires 0 <= l0 && u0 < |s|
  {
    forall p, q {:trigger s[p], s[q]} :: l0 <= p < q <= u0 && !(l <= p && q <= u) ==> !less(s[q], s[p])
  }

  /** Only elements `l` to `u` were moved, among each other. */
  ghost predicate Shuffled<T>(s: seq<T>, s1: seq<T>, l: nat, u: int) {
    && |s1| == |s| && l <= u + 1 <= |s|
    && s1[..l] == s[..l] && s1[u + 1..] == s[u + 1..] && multiset(s1[l..u + 1]) == multiset(s[l..u + 1])
  }

  // ----- one step -----

  method Swap<T>(a: array<T>, i: nat, j: nat, ghost l: nat, ghost u: int)
    requires l <= i <= u && l <= j <= u < a.Length
    modifies a
    ensures Shuffled(old(a[..]), a[..], l, u)
    ensures a[i] == old(a[j]) && a[j] == old(a[i])
    ensures forall k :: 0 <= k < a.Length && k != i && k != j ==> a[k] == old(a[k])
  {
    ghost var s := a[..];
    a[i], a[j] := a[j], a[i];
    assert a[..] == s[i := s[j]][j := s[i]];
    SwapShuffles(s, i, j, l, u);
  }

  /** Elements `l`, the middle one and `u` are put in order; with at most three elements that is all. */
  method Median<T(!new)>(a: array<T>, less: (T, T) -> bool, l: nat, u: nat)
    requires l < u < a.Length
    modifies a
    ensures Shuffled(old(a[..]), a[..], l, u)
    ensures StrictWeakOrder(less) ==> !less(a[u], a[l])
    ensures StrictWeakOrder(less) && u - l >= 2 ==> !less(a[(l + u) / 2], a[l]) && !less(a[u], a[(l + u) / 2])
  {
    ghost var s0 := a[..];
    if less(a[u], a[l]) {
      Swap(a, l, u, l, u);
    } else {
      ShuffledRefl(s0, l, u);
    }
    if u - l == 1 {
      return;
    }
    ghost var s1 := a[..];
    var i := (l + u) / 2;
    if less(a[i], a[l]) {
      Swap(a, i, l, l, u);
    } else if less(a[u], a[i]) {
      Swap(a, i, u, l, u);
    } else {
      ShuffledRefl(s1, l, u);
    }
    ShuffledTrans(s0, s1, a[..], l, u);
  }

  /** The elements up to `i` are not greater than the pivot, those from `j` on are not less. */
  ghost predicate Split<T>(s: seq<T>, less: (T, T) -> bool, l: nat, u: nat, i: int, j: int, p: T)
    requires u < |s|
  {
    && (forall k {:trigger s[k]} :: l <= k <= i && k <= u ==> !less(p, s[k]))
    && (forall k {:trigger s[k]} :: l <= k <= u && j <= k ==> !less(s[k], p))
  }

  /** The inner loop: elements that are on the wrong side are exchanged, until `i` and `j` have met. */
  method Partition<T(!new)>(a: array<T>, less: (T, T) -> bool, l: nat, u: nat) returns (ok: bool, i: nat)
    requires l + 3 <= u < a.Length
    requires StrictWeakOrder(less) ==> !less(a[u - 1], a[l]) && !less(a[u], a[u - 1])
    modifies a
    ensures Shuffled(old(a[..]), a[..], l, u)
    ensures StrictWeakOrder(less) ==> ok
    ensures ok ==> l < i <= u
    ensures ok && StrictWeakOrder(less) ==>
      i < u && a[u - 1] == old(a[u - 1]) && Split(a[..], less, l, u, i - 1, i, a[u - 1])
  {
    ghost var s0 := a[..];
    var p := a[u - 1];
    i, ok := l, true;
    var j := u - 1;
    ShuffledRefl(s0, l, u);
    while true
      invariant l <= i <= j <= u - 1 && i <= u - 2 && l < j
      invariant Shuffled(s0, a[..], l, u) && a[u - 1] == p
      invariant StrictWeakOrder(less) ==> Split(a[..], less, l, u, i, j, p)
      decreases j
    {
      var met;
      ghost var s := a[..];
      ok, met, i, j := Exchange(a, less, l, u, i, j, p);
      ShuffledTrans(s0, s, a[..], l, u);
      if !ok || met {
        return;
      }
    }
  }

  /** One exchange, unless the two have met. */
  method Exchange<T(!new)>(a: array<T>, less: (T, T) -> bool, l: nat, u: nat, i0: nat, j0: nat, p: T)
      returns (ok: bool, met: bool, i: nat, j: nat)
    requires l <= i0 <= j0 <= u - 1 && i0 <= u - 2 && l < j0 && u < a.Length && a[u - 1] == p
    requires StrictWeakOrder(less) ==> Split(a[..], less, l, u, i0, j0, p)
    modifies a
    ensures Shuffled(old(a[..]), a[..], l, u) && (StrictWeakOrder(less) ==> ok)
    ensures ok && met ==> l < i <= u && (StrictWeakOrder(less) ==>
      i < u && a[u - 1] == p && Split(a[..], less, l, u, i - 1, i, p))
    ensures ok && !met ==>
      l < i <= j < j0 && i <= u - 2 && a[u - 1] == p && (StrictWeakOrder(less) ==> Split(a[..], less, l, u, i, j, p))
  {
    hide Shuffled;
    ShuffledRefl(a[..], l, u);
    assert StrictWeakOrder(less) ==> !less(p, a[l]) by {
      assert StrictWeakOrder(less) ==> Split(a[..], less, l, u, i0, j0, p) && !less(p, a[..][l]);
    }
    met, j := false, j0;
    ok, i := Upwards(a, less, l, u, i0, p);
    if !ok {
      return;
    }
    ok, j := Downwards(a, less, l, u, j, p);
    if !ok {
      return;
    }
    if j < i {
      met := true;
      return;
    }
    Swap(a, i, j, l, u);
  }

  /** Repeats `++i` until the element is not less than the pivot. */
  method Upwards<T(!new)>(a: array<T>, less: (T, T) -> bool, l: nat, u: nat, i0: nat, p: T) returns (ok: bool, i: nat)
    requires l <= i0 <= u - 2 && u < a.Length && a[u - 1] == p
    ensures ok ==> i0 < i <= u && !less(a[i], p)
    ensures StrictWeakOrder(less) ==> ok && i < u && forall k :: i0 < k < i ==> !less(p, a[k])
  {
    i, ok := i0 + 1, true;
    while less(a[i], p)
      invariant i0 < i <= u
      invariant StrictWeakOrder(less) ==> i < u && forall k :: i0 < k < i ==> !less(p, a[k])
      decreases u - i
    {
      if i >= u {
        return false, i;
      }
      i := i + 1;
    }
  }

  /** Repeats `--j` until the element is not greater than the pivot. */
  method Downwards<T(!new)>(a: array<T>, less: (T, T) -> bool, l: nat, u: nat, j0: nat, p: T) returns (ok: bool, j: nat)
    requires l < j0 <= u < a.Length && (StrictWeakOrder(less) ==> !less(p, a[l]))
    ensures ok ==> l <= j < j0 && !less(p, a[j])
    ensures StrictWeakOrder(less) ==> ok && forall k :: j < k < j0 ==> !less(a[k], p)
  {
    j, ok := j0 - 1, true;
    while less(p, a[j])
      invariant l <= j < j0
      invariant StrictWeakOrder(less) ==> forall k :: j < k < j0 ==> !less(a[k], p)
      decreases j
    {
      if j <= l {
        return false, j;
      }
      j := j - 1;
    }
  }

  // ----- the sort -----

  /** `auxsort`: the smaller part is sorted by a recursive call, whose depth is at most the logarithm of the size. */
  method AuxSort<T(!new)>(a: array<T>, less: (T, T) -> bool, l0: nat, u0: int) returns (ok: bool, ghost depth: nat)
    requires l0 <= u0 + 1 <= a.Length
    modifies a
    ensures Shuffled(old(a[..]), a[..], l0, u0)
    ensures StrictWeakOrder(less) ==> ok && SortedBetween(a[..], less, l0, u0)
    ensures Pow2(depth) <= (if u0 > l0 then u0 - l0 + 1 else 1)
    decreases u0 + 1 - l0
  {
    hide StrictWeakOrder, Split, SortedBut, SortedBetween, Shuffled, Pow2;
    var l, u := l0, u0;
    ghost var s0 := a[..];
    ok, depth := true, 0;
    AtFirst(s0, less, l0, u0);
    ShuffledRefl(s0, l0, u0);
    while l < u
      invariant l0 <= l <= u + 1 && u <= u0 && Shuffled(s0, a[..], l0, u0)
      invariant StrictWeakOrder(less) ==> SortedBut(a[..], less, l0, u0, l, u)
      invariant Pow2(depth) <= (if u0 > l0 then u0 - l0 + 1 else 1)
      decreases u + 1 - l
    {
      var n: int := u;
      if n - l <= 2 {
        Few(a, less, l0, u0, l, n, s0);
        return;
      }
      var i;
      ok, i := Around(a, less, l0, u0, l, n, s0);
      if !ok {
        return;
      }
      ghost var s := a[..];
      ghost var d;
      if i - l < u - i {
        ok, d := AuxSort(a, less, l, i - 1);
        PartSorted(s, a[..], s0, less, l0, u0, l, u, i, true);
        Deeper(d, i - l, u0 - l0 + 1);
        l := i + 1;
      } else {
        ok, d := AuxSort(a, less, i + 1, u);
        PartSorted(s, a[..], s0, less, l0, u0, l, u, i, false);
        Deeper(d, u - i, u0 - l0 + 1);
        u := i - 1;
      }
      depth := if depth > d + 1 then depth else d + 1;
      if !ok {
        return;
      }
    }
    AtLast(a[..], less, l0, u0, l, u);
  }

  lemma AtFirst<T(!new)>(s: seq<T>, less: (T, T) -> bool, l: nat, u: int)
    requires l <= u + 1 <= |s|
    ensures SortedBut(s, less, l, u, l, u) && Pow2(0) == 1
  {
  }

  lemma AtLast<T(!new)>(s: seq<T>, less: (T, T) -> bool, l0: nat, u0: int, l: nat, u: int)
    requires l0 <= u0 + 1 <= |s| && u <= l
    ensures SortedBut(s, less, l0, u0, l, u) ==> SortedBetween(s, less, l0, u0)
  {
  }

  /** The smaller of two parts that leave one element out has less than half of the elements. */
  lemma Deeper(d: nat, part: int, n: nat)
    requires Pow2(d) <= (if part > 1 then part else 1) && 2 * part < n && n > 1
    ensures Pow2(d + 1) <= n
  {
  }

  /** The last two or three elements. */
  method Few<T(!new)>(a: array<T>, less: (T, T) -> bool, ghost l0: nat, ghost u0: nat, l: nat, u: nat, ghost s0: seq<T>)
    requires l0 <= l < u <= u0 < a.Length && u - l <= 2 && Shuffled(s0, a[..], l0, u0)
    requires StrictWeakOrder(less) ==> SortedBut(a[..], less, l0, u0, l, u)
    modifies a
    ensures Shuffled(s0, a[..], l0, u0) && (StrictWeakOrder(less) ==> SortedBetween(a[..], less, l0, u0))
  {
    ghost var s := a[..];
    Median(a, less, l, u);
    Wider(s, a[..], l, u, l0, u0);
    ShuffledTrans(s0, s, a[..], l0, u0);
    if StrictWeakOrder(less) {
      InnerShuffled(s, a[..], less, l0, u0, l, u);
      SortedFew(a[..], less, l0, u0, l, u);
    }
  }

  /** One round: the element `i` comes to its place, with the smaller ones before it. */
  method Around<T(!new)>(a: array<T>, less: (T, T) -> bool, ghost l0: nat, ghost u0: nat, l: nat, u: nat,
      ghost s0: seq<T>) returns (ok: bool, i: nat)
    requires l0 <= l < u <= u0 < a.Length && u - l > 2 && Shuffled(s0, a[..], l0, u0)
    requires StrictWeakOrder(less) ==> SortedBut(a[..], less, l0, u0, l, u)
    modifies a
    ensures Shuffled(s0, a[..], l0, u0) && (StrictWeakOrder(less) ==> ok) && (ok ==> l < i <= u)
    ensures ok && StrictWeakOrder(less) ==>
      i < u && SortedBut(a[..], less, l0, u0, l, u) && Split(a[..], less, l, u, i, i, a[i])
  {
    ghost var s := a[..];
    Median(a, less, l, u);
    i := (l + u) / 2;
    ghost var s1 := a[..];
    Swap(a, i, u - 1, l, u);
    ShuffledTrans(s, s1, a[..], l, u);
    ghost var s2 := a[..];
    ok, i := Partition(a, less, l, u);
    ShuffledTrans(s, s2, a[..], l, u);
    if ok {
      ghost var s3 := a[..];
      Swap(a, u - 1, i, l, u);
      ShuffledTrans(s, s3, a[..], l, u);
    }
    Wider(s, a[..], l, u, l0, u0);
    ShuffledTrans(s0, s, a[..], l0, u0);
    if StrictWeakOrder(less) {
      InnerShuffled(s, a[..], less, l0, u0, l, u);
    }
  }

  /** `sort`: the elements of the table from 1 to `n`. */
  method Sort<T(!new)>(a: array<T>, less: (T, T) -> bool) returns (ok: bool)
    requires a.Length > 0
    modifies a
    ensures multiset(a[..]) == multiset(old(a[..])) && a[0] == old(a[0])
    ensures StrictWeakOrder(less) ==> ok && forall p, q :: 1 <= p < q < a.Length ==> !less(a[q], a[p])
  {
    ghost var s := a[..];
    ghost var d;
    ok, d := AuxSort(a, less, 1, a.Length - 1);
    Whole(s, a[..], 1, a.Length - 1);
  }

  // ----- proofs -----

  lemma ShuffledRefl<T>(s: seq<T>, l: nat, u: int)
    requires l <= u + 1 <= |s|
    ensures Shuffled(s, s, l, u)
  {
  }

  lemma ShuffledTrans<T>(s: seq<T>, s1: seq<T>, s2: seq<T>, l: nat, u: int)
    requires Shuffled(s, s1, l, u) && Shuffled(s1, s2, l, u)
    ensures Shuffled(s, s2, l, u)
  {
  }

  lemma SwapShuffles<T>(s: seq<T>, i: nat, j: nat, l: nat, u: int)
    requires l <= i <= u && l <= j <= u < |s|
    ensures Shuffled(s, s[i := s[j]][j := s[i]], l, u)
  {
    var s1 := s[i := s[j]][j := s[i]];
    var m := s[l..u + 1];
    assert s1[l..u + 1] == m[i - l := m[j - l]][j - l := m[i - l]];
  }

  /** The parts of a sequence around a segment. */
  lemma Wider<T>(s: seq<T>, s1: seq<T>, l: nat, u: int, l0: nat, u0: int)
    requires Shuffled(s, s1, l, u) && l0 <= l && u <= u0 < |s|
    ensures Shuffled(s, s1, l0, u0)
  {
    assert s1[l0..u0 + 1] == s1[..l][l0..] + s1[l..u + 1] + s1[u + 1..][..u0 - u];
    assert s[l0..u0 + 1] == s[..l][l0..] + s[l..u + 1] + s[u + 1..][..u0 - u];
    assert s1[..l0] == s1[..l][..l0] && s[..l0] == s[..l][..l0];
    assert s1[u0 + 1..] == s1[u + 1..][u0 - u..] && s[u0 + 1..] == s[u + 1..][u0 - u..];
  }

  lemma Whole<T>(s: seq<T>, s1: seq<T>, l: nat, u: int)
    requires Shuffled(s, s1, l, u)
    ensures multiset(s1) == multiset(s) && (l > 0 && |s| > 0 ==> s1[0] == s[0])
  {
    assert s == s[..l] + s[l..u + 1] + s[u + 1..];
    assert s1 == s1[..l] + s1[l..u + 1] + s1[u + 1..];
    assert l > 0 ==> s1[..l][0] == s[..l][0];
  }

  /** Where an element was before. */
  lemma Before<T>(s: seq<T>, s1: seq<T>, l: nat, u: int, p: nat) returns (p0: nat)
    requires Shuffled(s, s1, l, u) && p < |s|
    ensures p0 < |s| && s1[p] == s[p0] && (if l <= p <= u then l <= p0 <= u else p0 == p)
  {
    if l <= p <= u {
      assert s1[l..u + 1][p - l] in multiset(s1[l..u + 1]);
      assert s1[p] in multiset(s[l..u + 1]);
      var k :| 0 <= k < u + 1 - l && s[l..u + 1][k] == s1[p];
      p0 := l + k;
    } else {
      p0 := p;
      assert p < l ==> s1[..l][p] == s[..l][p];
      assert p > u ==> s1[u + 1..][p - u - 1] == s[u + 1..][p - u - 1];
    }
  }

  lemma InnerShuffled<T(!new)>(s: seq<T>, s1: seq<T>, less: (T, T) -> bool, l0: nat, u0: int, l: nat, u: int)
    requires Shuffled(s, s1, l, u) && l0 <= l && u <= u0 < |s| && SortedBut(s, less, l0, u0, l, u)
    ensures SortedBut(s1, less, l0, u0, l, u)
  {
    forall p, q | l0 <= p < q <= u0 && !(l <= p && q <= u) ensures !less(s1[q], s1[p]) {
      var p0 := Before(s, s1, l, u, p);
      var q0 := Before(s, s1, l, u, q);
      assert !less(s[q0], s[p0]);
    }
  }

  lemma SortedFew<T(!new)>(s: seq<T>, less: (T, T) -> bool, l0: nat, u0: int, l: nat, u: nat)
    requires l0 <= l < u <= u0 < |s| && u - l <= 2 && SortedBut(s, less, l0, u0, l, u) && StrictWeakOrder(less)
    requires !less(s[u], s[l]) && (u - l == 2 ==> !less(s[l + 1], s[l]) && !less(s[u], s[l + 1]))
    ensures SortedBetween(s, less, l0, u0)
  {
  }

  /** The pivot is in its place, and one of the parts around it was sorted. */
  lemma PartSorted<T(!new)>(s: seq<T>, s1: seq<T>, s0: seq<T>, less: (T, T) -> bool, l0: nat, u0: int, l: nat, u: int,
      i: nat, left: bool)
    requires l0 <= l < i <= u <= u0 < |s| && Shuffled(s0, s, l0, u0)
    requires var x, y := if left then l else i + 1, if left then i - 1 else u;
      Shuffled(s, s1, x, y) && (StrictWeakOrder(less) ==> SortedBetween(s1, less, x, y))
    requires StrictWeakOrder(less) ==> SortedBut(s, less, l0, u0, l, u) && Split(s, less, l, u, i, i, s[i])
    ensures Shuffled(s0, s1, l0, u0)
    ensures StrictWeakOrder(less) ==>
      if left then SortedBut(s1, less, l0, u0, i + 1, u) else SortedBut(s1, less, l0, u0, l, i - 1)
  {
    var x, y := if left then l else i + 1, if left then i - 1 else u;
    Wider(s, s1, x, y, l0, u0);
    ShuffledTrans(s0, s, s1, l0, u0);
    if StrictWeakOrder(less) {
      forall p, q | l0 <= p < q <= u0 && !(if left then i + 1 <= p && q <= u else l <= p && q <= i - 1)
        ensures !less(s1[q], s1[p]) {
        if !(x <= p && q <= y) {
          var p0 := Before(s, s1, x, y, p);
          var q0 := Before(s, s1, x, y, q);
          OrderedAcross(s, less, l0, u0, l, u, i, p0, q0);
        }
      }
    }
  }

  /** Two elements that are not on the same side of the pivot are in order. */
  lemma OrderedAcross<T(!new)>(s: seq<T>, less: (T, T) -> bool, l0: nat, u0: int, l: nat, u: int, i: nat, p: nat,
      q: nat)
    requires l0 <= l < i <= u <= u0 < |s| && l0 <= p < q <= u0 && StrictWeakOrder(less)
    requires SortedBut(s, less, l0, u0, l, u) && Split(s, less, l, u, i, i, s[i])
    requires !(l <= p && q <= i - 1) && !(i + 1 <= p && q <= u)
    ensures !less(s[q], s[p])
  {
    if l <= p && q <= u {
      assert p <= i <= q && !less(s[i], s[p]) && !less(s[q], s[i]);
    }
  }
}
