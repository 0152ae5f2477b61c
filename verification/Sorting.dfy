/**
 rqsort of qjs/cutils.c: a three-way quicksort with a fixed stack of fifty segments, a heap
 sort when partitioning goes too deep, and an insertion sort for short segments.
 */
module Sorting {

  type Compare<!T> = (T, T) -> int

  /** What the source expects of a comparison function. */
  ghost predicate Preorder<T(!new)>(cmp: Compare<T>) {
    && (forall x, y :: cmp(x, y) < 0 <==> cmp(y, x) > 0)
    && (forall x, y, z :: cmp(x, y) <= 0 && cmp(y, z) <= 0 ==> cmp(x, z) <= 0)
  }

  lemma Trans<T(!new)>(cmp: Compare<T>, x: T, y: T, z: T)
    requires Preorder(cmp) && cmp(x, y) <= 0 && cmp(y, z) <= 0
    ensures cmp(x, z) <= 0
  {
  }

  lemma Flip<T(!new)>(cmp: Compare<T>, x: T, y: T)
    requires Preorder(cmp)
    ensures cmp(x, y) < 0 <==> cmp(y, x) > 0
    ensures cmp(x, y) <= 0 <==> cmp(y, x) >= 0
    ensures cmp(x, y) == 0 <==> cmp(y, x) == 0
  {
  }

  ghost predicate SortedIn<T>(cmp: Compare<T>, s: seq<T>, lo: int, hi: int)
    requires 0 <= lo <= hi <= |s|
  {
    forall k, m :: lo <= k < m < hi ==> cmp(s[k], s[m]) <= 0
  }

  // ---- permutations of a segment ----

  /** t is s with the elements from lo to hi rearranged. */
  ghost predicate Permuted<T>(s: seq<T>, t: seq<T>, lo: int, hi: int) {
    && |s| == |t| && 0 <= lo <= hi <= |s|
    && (forall k :: 0 <= k < lo ==> s[k] == t[k])
    && (forall k :: hi <= k < |s| ==> s[k] == t[k])
    && multiset(s) == multiset(t)
  }

  lemma PermutedSame<T>(s: seq<T>, lo: int, hi: int)
    requires 0 <= lo <= hi <= |s|
    ensures Permuted(s, s, lo, hi)
  {
  }

  lemma PermutedSwap<T>(s: seq<T>, t: seq<T>, lo: int, hi: int, i: int, j: int)
    requires Permuted(s, t, lo, hi) && lo <= i < hi && lo <= j < hi
    ensures Permuted(s, t[i := t[j]][j := t[i]], lo, hi)
  {
  }

  lemma PermutedTrans<T>(s: seq<T>, t: seq<T>, u: seq<T>, lo: int, hi: int, lo': int, hi': int)
    requires Permuted(s, t, lo, hi) && Permuted(t, u, lo', hi') && lo <= lo' && hi' <= hi
    ensures Permuted(s, u, lo, hi)
  {
  }

  lemma PermutedPart<T>(s: seq<T>, t: seq<T>, lo: int, hi: int)
    requires Permuted(s, t, lo, hi)
    ensures multiset(s[lo..hi]) == multiset(t[lo..hi])
  {
    assert s[..lo] == t[..lo] && s[hi..] == t[hi..];
    assert s == s[..lo] + s[lo..hi] + s[hi..];
    assert t == t[..lo] + t[lo..hi] + t[hi..];
    assert multiset(s) == multiset(s[..lo]) + multiset(s[lo..hi]) + multiset(s[hi..]);
    assert multiset(t) == multiset(t[..lo]) + multiset(t[lo..hi]) + multiset(t[hi..]);
    Cancel(multiset(s[..lo]), multiset(s[lo..hi]), multiset(t[lo..hi]), multiset(s[hi..]));
  }

  lemma Cancel<T>(x: multiset<T>, y: multiset<T>, y': multiset<T>, z: multiset<T>)
    requires x + y + z == x + y' + z
    ensures y == y'
  {
    assert y == (x + y + z) - x - z;
    assert y' == (x + y' + z) - x - z;
  }

  /** Every element of a rearranged segment was in it before. */
  lemma PermutedElement<T>(s: seq<T>, t: seq<T>, lo: int, hi: int, k: int) returns (j: int)
    requires Permuted(s, t, lo, hi) && lo <= k < hi
    ensures lo <= j < hi && t[k] == s[j]
  {
    PermutedPart(s, t, lo, hi);
    var v := t[k];
    assert v == t[lo..hi][k - lo];
    assert v in multiset(t[lo..hi]);
    assert v in multiset(s[lo..hi]);
    assert v in s[lo..hi];
    var m :| 0 <= m < |s[lo..hi]| && s[lo..hi][m] == v;
    j := lo + m;
  }

  method Swap<T>(a: array<T>, i: int, j: int, ghost start: seq<T>, ghost lo: int, ghost hi: int)
    requires Permuted(start, a[..], lo, hi) && lo <= i < hi && lo <= j < hi
    modifies a
    ensures Permuted(start, a[..], lo, hi)
    ensures a[i] == old(a[j]) && a[j] == old(a[i])
    ensures forall k :: 0 <= k < a.Length && k != i && k != j ==> a[k] == old(a[k])
  {
    ghost var was := a[..];
    a[i], a[j] := a[j], a[i];
    assert a[..] == was[i := was[j]][j := was[i]];
    PermutedSwap(start, was, lo, hi, i, j);
  }

  // ---- insertion sort ----

  method InsertionSort<T(!new)>(a: array<T>, ptr: int, n: int, cmp: Compare<T>)
    requires Preorder(cmp) && 0 <= ptr && 0 <= n && ptr + n <= a.Length
    modifies a
    ensures Permuted(old(a[..]), a[..], ptr, ptr + n) && SortedIn(cmp, a[..], ptr, ptr + n)
  {
    hide Preorder, Permuted;
    ghost var start := a[..];
    PermutedSame(start, ptr, ptr + n);
    var i := ptr + 1;
    while i < ptr + n
      invariant ptr < i && (n > 0 ==> i <= ptr + n)
      invariant Permuted(start, a[..], ptr, ptr + n)
      invariant forall k, m :: ptr <= k < m < i && m < ptr + n ==> cmp(a[k], a[m]) <= 0
    {
      var j := i;
      while j > ptr && cmp(a[j - 1], a[j]) > 0
        invariant ptr <= j <= i
        invariant Permuted(start, a[..], ptr, ptr + n)
        invariant forall k, m :: ptr <= k < m <= i && m != j ==> cmp(a[k], a[m]) <= 0
      {
        Flip(cmp, a[j - 1], a[j]);
        Swap(a, j, j - 1, start, ptr, ptr + n);
        j := j - 1;
      }
      forall k | ptr <= k < j
        ensures cmp(a[k], a[j]) <= 0
      {
        if k < j - 1 {
          Trans(cmp, a[k], a[j - 1], a[j]);
        }
      }
      i := i + 1;
    }
  }

  // ---- heap sort ----

  /** The elements at p + q and its children are in heap order, within n elements. */
  ghost predicate Kids<T>(cmp: Compare<T>, s: seq<T>, p: nat, n: nat, q: nat)
    requires p + n <= |s|
  {
    && (2 * q + 1 < n ==> cmp(s[p + 2 * q + 1], s[p + q]) <= 0)
    && (2 * q + 2 < n ==> cmp(s[p + 2 * q + 2], s[p + q]) <= 0)
  }

  ghost predicate HeapFrom<T>(cmp: Compare<T>, s: seq<T>, p: nat, n: nat, r: nat)
    requires p + n <= |s|
  {
    forall q: nat :: r <= q ==> Kids(cmp, s, p, n, q)
  }

  /** A heap from r0 on but for the node h, whose parent dominates its children. */
  ghost predicate HeapBut<T>(cmp: Compare<T>, s: seq<T>, p: nat, n: nat, r0: nat, h: nat)
    requires p + n <= |s|
  {
    && (forall q: nat :: r0 <= q && q != h ==> Kids(cmp, s, p, n, q))
    && (forall q: nat :: r0 <= q && (2 * q + 1 == h || 2 * q + 2 == h) ==> Skips(cmp, s, p, n, q, h))
  }

  ghost predicate Skips<T>(cmp: Compare<T>, s: seq<T>, p: nat, n: nat, q: nat, h: nat)
    requires p + n <= |s| && q <= h
  {
    && (2 * h + 1 < n ==> cmp(s[p + 2 * h + 1], s[p + q]) <= 0)
    && (2 * h + 2 < n ==> cmp(s[p + 2 * h + 2], s[p + q]) <= 0)
  }

  /** One swap of the sift: h with its larger child c. */
  lemma SiftStep<T(!new)>(cmp: Compare<T>, s: seq<T>, t: seq<T>, p: nat, n: nat, r0: nat, h: nat, c: nat)
    requires Preorder(cmp) && p + n <= |s| && r0 <= h < n && c < n && (c == 2 * h + 1 || c == 2 * h + 2)
    requires HeapBut(cmp, s, p, n, r0, h)
    requires cmp(s[p + h], s[p + c]) <= 0
    requires 2 * h + 1 < n ==> cmp(s[p + 2 * h + 1], s[p + c]) <= 0
    requires 2 * h + 2 < n ==> cmp(s[p + 2 * h + 2], s[p + c]) <= 0
    requires |t| == |s| && t[p + h] == s[p + c] && t[p + c] == s[p + h]
    requires forall k :: 0 <= k < |s| && k != p + h && k != p + c ==> t[k] == s[k]
    ensures HeapBut(cmp, t, p, n, r0, c)
  {
    hide Preorder;
    forall q: nat | r0 <= q && q != c
      ensures Kids(cmp, t, p, n, q)
    {
      if q != h {
        assert Kids(cmp, s, p, n, q);
        if 2 * q + 1 == h || 2 * q + 2 == h {
          assert Skips(cmp, s, p, n, q, h);
        }
      }
    }
    assert Kids(cmp, s, p, n, c);
  }

  /** The inner loop of heapsortx: the element at r0 sinks to its place. */
  method Sift<T(!new)>(a: array<T>, p: nat, n: nat, r0: nat, cmp: Compare<T>)
    requires Preorder(cmp) && p + n <= a.Length && HeapFrom(cmp, a[..], p, n, r0 + 1) && r0 < n
    modifies a
    ensures Permuted(old(a[..]), a[..], p, p + n) && HeapFrom(cmp, a[..], p, n, r0)
  {
    hide Preorder, Permuted, HeapBut;
    ghost var start := a[..];
    PermutedSame(start, p, p + n);
    var r := r0;
    var c := r * 2 + 1;
    assert HeapBut(cmp, a[..], p, n, r0, r) by { StartSift(cmp, a[..], p, n, r0); }
    while c < n
      invariant r0 <= r < n && c == r * 2 + 1
      invariant Permuted(start, a[..], p, p + n) && HeapBut(cmp, a[..], p, n, r0, r)
      decreases n - r
    {
      if c < n - 1 && cmp(a[p + c], a[p + c + 1]) <= 0 {
        c := c + 1;
      } else if c < n - 1 {
        Flip(cmp, a[p + c], a[p + c + 1]);
      }
      Flip(cmp, a[p + c], a[p + c]);
      Flip(cmp, a[p + r], a[p + c]);
      if cmp(a[p + r], a[p + c]) > 0 {
        StopSift(cmp, a[..], p, n, r0, r, c);
        return;
      }
      ghost var was := a[..];
      Swap(a, p + r, p + c, start, p, p + n);
      SiftStep(cmp, was, a[..], p, n, r0, r, c);
      r := c;
      c := r * 2 + 1;
    }
    EndSift(cmp, a[..], p, n, r0, r);
  }

  lemma StartSift<T>(cmp: Compare<T>, s: seq<T>, p: nat, n: nat, r0: nat)
    requires p + n <= |s| && HeapFrom(cmp, s, p, n, r0 + 1)
    ensures HeapBut(cmp, s, p, n, r0, r0)
  {
  }

  lemma EndSift<T>(cmp: Compare<T>, s: seq<T>, p: nat, n: nat, r0: nat, h: nat)
    requires p + n <= |s| && HeapBut(cmp, s, p, n, r0, h) && 2 * h + 1 >= n
    ensures HeapFrom(cmp, s, p, n, r0)
  {
  }

  lemma StopSift<T(!new)>(cmp: Compare<T>, s: seq<T>, p: nat, n: nat, r0: nat, h: nat, c: nat)
    requires Preorder(cmp) && p + n <= |s| && h < n && c < n && HeapBut(cmp, s, p, n, r0, h)
    requires cmp(s[p + c], s[p + h]) <= 0
    requires 2 * h + 1 < n ==> cmp(s[p + 2 * h + 1], s[p + c]) <= 0
    requires 2 * h + 2 < n ==> cmp(s[p + 2 * h + 2], s[p + c]) <= 0
    ensures HeapFrom(cmp, s, p, n, r0)
  {
    hide Preorder;
    if 2 * h + 1 < n {
      Trans(cmp, s[p + 2 * h + 1], s[p + c], s[p + h]);
    }
    if 2 * h + 2 < n {
      Trans(cmp, s[p + 2 * h + 2], s[p + c], s[p + h]);
    }
  }

  /** The root of a heap dominates it. */
  lemma {:induction false} HeapTop<T(!new)>(cmp: Compare<T>, s: seq<T>, p: nat, n: nat, k: nat)
    requires Preorder(cmp) && p + n <= |s| && HeapFrom(cmp, s, p, n, 0) && k < n
    ensures cmp(s[p + k], s[p]) <= 0
    decreases k
  {
    hide Preorder;
    if k == 0 {
      Flip(cmp, s[p], s[p]);
    } else {
      var q := (k - 1) / 2;
      assert Kids(cmp, s, p, n, q);
      HeapTop(cmp, s, p, n, q);
      Trans(cmp, s[p + k], s[p + q], s[p]);
    }
  }

  /** The elements from p + i on are sorted and dominate those before them. */
  ghost predicate TopSorted<T>(cmp: Compare<T>, s: seq<T>, p: nat, n: nat, i: nat)
    requires p + n <= |s|
  {
    forall k, m :: p <= k < m < p + n && p + i <= m ==> cmp(s[k], s[m]) <= 0
  }

  lemma TopKept<T>(cmp: Compare<T>, s: seq<T>, t: seq<T>, p: nat, n: nat, i: nat)
    requires p + n <= |s| && i <= n && TopSorted(cmp, s, p, n, i) && Permuted(s, t, p, p + i)
    ensures TopSorted(cmp, t, p, n, i)
  {
    forall k, m | p <= k < m < p + n && p + i <= m
      ensures cmp(t[k], t[m]) <= 0
    {
      if k < p + i {
        var j := PermutedElement(s, t, p, p + i, k);
      }
    }
  }

  /** heapsortx */
  method HeapSort<T(!new)>(a: array<T>, p: nat, n: nat, cmp: Compare<T>)
    requires Preorder(cmp) && p + n <= a.Length
    modifies a
    ensures Permuted(old(a[..]), a[..], p, p + n) && SortedIn(cmp, a[..], p, p + n)
  {
    hide Preorder, Permuted, HeapFrom, TopSorted;
    ghost var start := a[..];
    PermutedSame(start, p, p + n);
    if n > 1 {
      var i := n / 2;
      assert HeapFrom(cmp, a[..], p, n, i) by { LeavesOnly(cmp, a[..], p, n, i); }
      while i > 0
        invariant 0 <= i <= n / 2 && Permuted(start, a[..], p, p + n) && HeapFrom(cmp, a[..], p, n, i)
      {
        i := i - 1;
        ghost var was := a[..];
        Sift(a, p, n, i, cmp);
        PermutedTrans(start, was, a[..], p, p + n, p, p + n);
      }
      i := n - 1;
      assert TopSorted(cmp, a[..], p, n, n) by { NoneSorted(cmp, a[..], p, n); }
      while i > 0
        invariant 0 <= i < n && Permuted(start, a[..], p, p + n)
        invariant HeapFrom(cmp, a[..], p, i + 1, 0) && TopSorted(cmp, a[..], p, n, i + 1)
      {
        ghost var was := a[..];
        PermutedSame(was, p, p + i + 1);
        Swap(a, p, p + i, was, p, p + i + 1);
        MoveTop(cmp, was, a[..], p, n, i);
        PermutedTrans(start, was, a[..], p, p + n, p, p + i + 1);
        ghost var mid := a[..];
        Sift(a, p, i, 0, cmp);
        TopKept(cmp, mid, a[..], p, n, i);
        PermutedTrans(start, mid, a[..], p, p + n, p, p + i);
        i := i - 1;
      }
      AllSorted(cmp, a[..], p, n);
    }
  }

  lemma LeavesOnly<T>(cmp: Compare<T>, s: seq<T>, p: nat, n: nat, i: nat)
    requires p + n <= |s| && 2 * i + 1 >= n
    ensures HeapFrom(cmp, s, p, n, i)
  {
  }

  lemma NoneSorted<T>(cmp: Compare<T>, s: seq<T>, p: nat, n: nat)
    requires p + n <= |s|
    ensures TopSorted(cmp, s, p, n, n)
  {
  }

  lemma AllSorted<T>(cmp: Compare<T>, s: seq<T>, p: nat, n: nat)
    requires p + n <= |s| && TopSorted(cmp, s, p, n, 1)
    ensures SortedIn(cmp, s, p, p + n)
  {
  }

  /** Moving the root behind the heap extends the sorted part and leaves a heap but for its root. */
  lemma MoveTop<T(!new)>(cmp: Compare<T>, s: seq<T>, t: seq<T>, p: nat, n: nat, i: nat)
    requires Preorder(cmp) && p + n <= |s| && 0 < i < n && |t| == |s|
    requires HeapFrom(cmp, s, p, i + 1, 0) && TopSorted(cmp, s, p, n, i + 1)
    requires t[p] == s[p + i] && t[p + i] == s[p] && Permuted(s, t, p, p + i + 1)
    requires forall k :: 0 <= k < |s| && k != p && k != p + i ==> t[k] == s[k]
    ensures HeapFrom(cmp, t, p, i, 1) && TopSorted(cmp, t, p, n, i)
  {
    hide Preorder, Permuted;
    TopKept(cmp, s, t, p, n, i + 1);
    forall k | p <= k < p + i
      ensures cmp(t[k], t[p + i]) <= 0
    {
      HeapTop(cmp, s, p, i + 1, if k == p then i else k - p);
    }
    forall q: nat | 1 <= q
      ensures Kids(cmp, t, p, i, q)
    {
      assert Kids(cmp, s, p, i + 1, q);
    }
  }

  // ---- partitioning ----

  /** med3, as positions. */
  function Med3<T>(cmp: Compare<T>, s: seq<T>, i: nat, j: nat, k: nat): (m: nat)
    requires i < |s| && j < |s| && k < |s|
    ensures m == i || m == j || m == k
  {
    if cmp(s[i], s[j]) < 0 then (if cmp(s[j], s[k]) < 0 then j else if cmp(s[i], s[k]) < 0 then k else i)
    else (if cmp(s[j], s[k]) > 0 then j else if cmp(s[i], s[k]) < 0 then i else k)
  }

  ghost predicate Between<T>(cmp: Compare<T>, x: T, m: T, y: T) {
    (cmp(x, m) <= 0 && cmp(m, y) <= 0) || (cmp(y, m) <= 0 && cmp(m, x) <= 0)
  }

  /** med3 picks a median. */
  lemma Med3IsMedian<T(!new)>(cmp: Compare<T>, s: seq<T>, i: nat, j: nat, k: nat)
    requires Preorder(cmp) && i < |s| && j < |s| && k < |s|
    ensures var m := Med3(cmp, s, i, j, k);
            || (m == i && Between(cmp, s[j], s[m], s[k]))
            || (m == j && Between(cmp, s[i], s[m], s[k]))
            || (m == k && Between(cmp, s[i], s[m], s[j]))
  {
    hide Preorder;
    Flip(cmp, s[i], s[j]);
    Flip(cmp, s[j], s[k]);
    Flip(cmp, s[i], s[k]);
  }

  /** Every element from lo to hi compares to v with the given sign. */
  ghost predicate AllLess<T>(cmp: Compare<T>, v: T, s: seq<T>, lo: int, hi: int)
    requires 0 <= lo && hi <= |s|
  {
    forall k :: lo <= k < hi ==> cmp(v, s[k]) > 0
  }

  ghost predicate AllEqual<T>(cmp: Compare<T>, v: T, s: seq<T>, lo: int, hi: int)
    requires 0 <= lo && hi <= |s|
  {
    forall k :: lo <= k < hi ==> cmp(v, s[k]) == 0
  }

  ghost predicate AllGreater<T>(cmp: Compare<T>, v: T, s: seq<T>, lo: int, hi: int)
    requires 0 <= lo && hi <= |s|
  {
    forall k :: lo <= k < hi ==> cmp(v, s[k]) < 0
  }

  /** The layout in the source's comment: equal, smaller, (not yet seen,) greater, equal. */
  ghost predicate FourParts<T>(cmp: Compare<T>, v: T, s: seq<T>, ptr: int, plt: int, pi: int, pj: int, pgt: int, top: int) {
    && 0 <= ptr < plt <= pi <= pj <= pgt <= top <= |s| && s[ptr] == v
    && AllEqual(cmp, v, s, ptr, plt) && AllLess(cmp, v, s, plt, pi)
    && AllGreater(cmp, v, s, pj, pgt) && AllEqual(cmp, v, s, pgt, top)
  }

  /** The partition loop of rqsort. */
  method Partition4<T(!new)>(a: array<T>, ptr: int, n: int, cmp: Compare<T>) returns (plt: int, pi: int, pgt: int)
    requires Preorder(cmp) && 0 <= ptr && 1 <= n && ptr + n <= a.Length
    modifies a
    ensures Permuted(old(a[..]), a[..], ptr, ptr + n)
    ensures FourParts(cmp, a[ptr], a[..], ptr, plt, pi, pi, pgt, ptr + n)
  {
    hide Preorder, Permuted;
    ghost var start, v := a[..], a[ptr];
    var top := ptr + n;
    PermutedSame(start, ptr, top);
    Flip(cmp, v, v);
    var pj := top;
    plt, pi, pgt := ptr + 1, ptr + 1, top;
    while true
      invariant Permuted(start, a[..], ptr, top) && FourParts(cmp, v, a[..], ptr, plt, pi, pj, pgt, top)
      decreases pj - pi
    {
      plt, pi := ScanUp(a, ptr, plt, pi, pj, pgt, top, cmp, v, start);
      pj, pgt := ScanDown(a, ptr, plt, pi, pj, pgt, top, cmp, v, start);
      if pi >= pj {
        return;
      }
      Swap(a, pi, pj, start, ptr, top);
      pi := pi + 1;
    }
  }

  /** Up to the first element greater than the pivot; equal ones are gathered at the low end. */
  method ScanUp<T(!new)>(a: array<T>, ptr: int, plt0: int, pi0: int, pj: int, pgt: int, top: int, cmp: Compare<T>, ghost v: T, ghost start: seq<T>)
    returns (plt: int, pi: int)
    requires top <= a.Length && Permuted(start, a[..], ptr, top) && FourParts(cmp, v, a[..], ptr, plt0, pi0, pj, pgt, top)
    modifies a
    ensures Permuted(start, a[..], ptr, top) && FourParts(cmp, v, a[..], ptr, plt, pi, pj, pgt, top)
    ensures pi0 <= pi && (pi < pj ==> cmp(v, a[pi]) < 0)
  {
    hide Permuted;
    plt, pi := plt0, pi0;
    while pi < pj && cmp(a[ptr], a[pi]) >= 0
      invariant Permuted(start, a[..], ptr, top) && FourParts(cmp, v, a[..], ptr, plt, pi, pj, pgt, top) && pi0 <= pi
      decreases pj - pi
    {
      if cmp(a[ptr], a[pi]) == 0 {
        Swap(a, plt, pi, start, ptr, top);
        plt := plt + 1;
      }
      pi := pi + 1;
    }
  }

  /** Down to the last element smaller than the pivot; equal ones are gathered at the high end. */
  method ScanDown<T(!new)>(a: array<T>, ptr: int, plt: int, pi: int, pj0: int, pgt0: int, top: int, cmp: Compare<T>, ghost v: T, ghost start: seq<T>)
    returns (pj: int, pgt: int)
    requires top <= a.Length && Permuted(start, a[..], ptr, top) && FourParts(cmp, v, a[..], ptr, plt, pi, pj0, pgt0, top)
    requires pi < pj0 ==> cmp(v, a[pi]) < 0
    modifies a
    ensures Permuted(start, a[..], ptr, top) && pj < pj0
    ensures pi < pj ==> cmp(v, a[pi]) < 0 && cmp(v, a[pj]) > 0 && FourParts(cmp, v, a[..], ptr, plt, pi, pj + 1, pgt, top)
    ensures pi >= pj ==> FourParts(cmp, v, a[..], ptr, plt, pi, pi, pgt, top)
  {
    hide Permuted;
    pj, pgt := pj0 - 1, pgt0;
    while pi < pj && cmp(a[ptr], a[pj]) <= 0
      invariant pi <= pj + 1 && pj < pj0 && (pi <= pj ==> cmp(v, a[pi]) < 0)
      invariant Permuted(start, a[..], ptr, top) && FourParts(cmp, v, a[..], ptr, plt, pi, pj + 1, pgt, top)
      decreases pj - pi
    {
      if cmp(a[ptr], a[pj]) == 0 {
        pgt := pgt - 1;
        Swap(a, pgt, pj, start, ptr, top);
      }
      pj := pj - 1;
    }
  }

  ghost predicate BlocksSwapped<T>(s: seq<T>, t: seq<T>, x: int, y: int, span: int) {
    && |s| == |t| && 0 <= x && 0 <= span && x + span <= y && y + span <= |s|
    && (forall k :: x <= k < x + span ==> t[k] == s[k + (y - x)])
    && (forall k :: y <= k < y + span ==> t[k] == s[k - (y - x)])
    && forall k :: 0 <= k < |s| && !(x <= k < x + span) && !(y <= k < y + span) ==> t[k] == s[k]
  }

  /** exchange_bytes on two blocks that do not overlap. */
  method SwapBlock<T>(a: array<T>, x: int, y: int, span: int, ghost start: seq<T>, ghost lo: int, ghost hi: int)
    requires Permuted(start, a[..], lo, hi) && 0 <= span && lo <= x && x + span <= y && y + span <= hi
    modifies a
    ensures Permuted(start, a[..], lo, hi)
    ensures BlocksSwapped(old(a[..]), a[..], x, y, span)
  {
    assert 0 <= lo && hi <= a.Length;
    hide Permuted;
    for k := 0 to span
      invariant Permuted(start, a[..], lo, hi)
      invariant BlocksSwapped(old(a[..]), a[..], x, y, k)
    {
      Swap(a, x + k, y + k, start, lo, hi);
    }
  }

  /** Smaller, equal and greater elements, in this order. */
  ghost predicate ThreeParts<T>(cmp: Compare<T>, v: T, s: seq<T>, ptr: int, lt: int, gt: int, top: int) {
    && 0 <= ptr <= lt < gt <= top <= |s|
    && AllLess(cmp, v, s, ptr, lt) && AllEqual(cmp, v, s, lt, gt) && AllGreater(cmp, v, s, gt, top)
  }

  /** Moving the elements equal to the pivot into the middle: the two block swaps of rqsort. */
  method Regroup<T(!new)>(a: array<T>, ptr: int, plt: int, pi: int, pgt: int, top: int, cmp: Compare<T>, ghost v: T) returns (lt: int, gt: int)
    requires top <= a.Length && FourParts(cmp, v, a[..], ptr, plt, pi, pi, pgt, top)
    modifies a
    ensures Permuted(old(a[..]), a[..], ptr, top)
    ensures ThreeParts(cmp, v, a[..], ptr, lt, gt, top)
  {
    hide Permuted, BlocksSwapped, AllLess, AllEqual, AllGreater;
    ghost var start := a[..];
    PermutedSame(start, ptr, top);
    var span := if plt - ptr > pi - plt then pi - plt else plt - ptr;
    SwapBlock(a, ptr, pi - span, span, start, ptr, top);
    lt := ptr + (pi - plt);
    ghost var mid := a[..];
    LowSwapped(cmp, v, start, mid, ptr, plt, pi, span);
    HighKept(cmp, v, start, mid, ptr, pi, pgt, top, span);
    span := if top - pgt > pgt - pi then pgt - pi else top - pgt;
    SwapBlock(a, pi, top - span, span, start, ptr, top);
    gt := top - (pgt - pi);
    HighSwapped(cmp, v, mid, a[..], pi, pgt, top, span);
    LowKept(cmp, v, mid, a[..], ptr, lt, pi, top, span);
    JoinEqual(cmp, v, a[..], lt, pi, gt);
  }

  lemma JoinEqual<T>(cmp: Compare<T>, v: T, s: seq<T>, lo: int, mid: int, hi: int)
    requires 0 <= lo && 0 <= mid <= |s| && hi <= |s| && AllEqual(cmp, v, s, lo, mid) && AllEqual(cmp, v, s, mid, hi)
    ensures AllEqual(cmp, v, s, lo, hi)
  {
  }

  lemma HighKept<T>(cmp: Compare<T>, v: T, s: seq<T>, t: seq<T>, ptr: int, pi: int, pgt: int, top: int, span: int)
    requires BlocksSwapped(s, t, ptr, pi - span, span) && pi <= pgt <= top <= |s|
    requires AllGreater(cmp, v, s, pi, pgt) && AllEqual(cmp, v, s, pgt, top)
    ensures AllGreater(cmp, v, t, pi, pgt) && AllEqual(cmp, v, t, pgt, top)
  {
  }

  lemma LowKept<T>(cmp: Compare<T>, v: T, s: seq<T>, t: seq<T>, ptr: int, lt: int, pi: int, top: int, span: int)
    requires BlocksSwapped(s, t, pi, top - span, span) && 0 <= ptr <= lt <= pi
    requires AllLess(cmp, v, s, ptr, lt) && AllEqual(cmp, v, s, lt, pi)
    ensures AllLess(cmp, v, t, ptr, lt) && AllEqual(cmp, v, t, lt, pi)
  {
  }

  lemma LowSwapped<T>(cmp: Compare<T>, v: T, s: seq<T>, t: seq<T>, ptr: int, plt: int, pi: int, span: int)
    requires |s| == |t| && 0 <= ptr < plt <= pi <= |s| && span == (if plt - ptr > pi - plt then pi - plt else plt - ptr)
    requires AllEqual(cmp, v, s, ptr, plt) && AllLess(cmp, v, s, plt, pi)
    requires BlocksSwapped(s, t, ptr, pi - span, span)
    ensures AllLess(cmp, v, t, ptr, ptr + (pi - plt)) && AllEqual(cmp, v, t, ptr + (pi - plt), pi)
  {
    forall k | ptr <= k < pi
      ensures if k < ptr + (pi - plt) then cmp(v, t[k]) > 0 else cmp(v, t[k]) == 0
    {
    }
  }

  lemma HighSwapped<T>(cmp: Compare<T>, v: T, s: seq<T>, t: seq<T>, pi: int, pgt: int, top: int, span: int)
    requires |s| == |t| && 0 <= pi <= pgt <= top <= |s| && span == (if top - pgt > pgt - pi then pgt - pi else top - pgt)
    requires AllGreater(cmp, v, s, pi, pgt) && AllEqual(cmp, v, s, pgt, top)
    requires BlocksSwapped(s, t, pi, top - span, span)
    ensures AllEqual(cmp, v, t, pi, top - (pgt - pi)) && AllGreater(cmp, v, t, top - (pgt - pi), top)
  {
    forall k | pi <= k < top
      ensures if k < top - (pgt - pi) then cmp(v, t[k]) == 0 else cmp(v, t[k]) < 0
    {
    }
  }

  /** One round of partitioning: the pivot is chosen, moved to the front, and the segment split in three. */
  method Split<T(!new)>(a: array<T>, ptr: nat, n: nat, cmp: Compare<T>) returns (lt: int, gt: int, ghost v: T)
    requires Preorder(cmp) && 6 < n && ptr + n <= a.Length
    modifies a
    ensures Permuted(old(a[..]), a[..], ptr, ptr + n)
    ensures ThreeParts(cmp, v, a[..], ptr, lt, gt, ptr + n)
  {
    hide Preorder, Permuted, ThreeParts, FourParts;
    ghost var start := a[..];
    PermutedSame(start, ptr, ptr + n);
    var m4 := n / 4;
    var m := Med3(cmp, a[..], ptr + m4, ptr + 2 * m4, ptr + 3 * m4);
    Swap(a, ptr, m, start, ptr, ptr + n);
    ghost var s1 := a[..];
    var plt, pi, pgt := Partition4(a, ptr, n, cmp);
    ghost var s2 := a[..];
    PermutedTrans(start, s1, s2, ptr, ptr + n, ptr, ptr + n);
    v := a[ptr];
    lt, gt := Regroup(a, ptr, plt, pi, pgt, ptr + n, cmp, v);
    PermutedTrans(start, s2, a[..], ptr, ptr + n, ptr, ptr + n);
  }

  // ---- segments still to be sorted ----

  datatype Segment = Segment(base: nat, count: nat, depth: nat)

  ghost predicate Together(segs: seq<Segment>, i: int, j: int) {
    exists k :: 0 <= k < |segs| && segs[k].base <= i && j < segs[k].base + segs[k].count
  }

  /** Any two elements are in order, unless one segment contains both. */
  ghost predicate Apart<T>(cmp: Compare<T>, s: seq<T>, segs: seq<Segment>) {
    forall i, j :: 0 <= i < j < |s| ==> cmp(s[i], s[j]) <= 0 || Together(segs, i, j)
  }

  predicate Separate(x: Segment, y: Segment) {
    x.base + x.count <= y.base || y.base + y.count <= x.base
  }

  ghost predicate Disjoint(segs: seq<Segment>, len: nat) {
    && (forall k :: 0 <= k < |segs| ==> segs[k].base + segs[k].count <= len)
    && forall k, m :: 0 <= k < m < |segs| ==> Separate(segs[k], segs[m])
  }

  lemma Outside(segs: seq<Segment>, x: Segment, len: nat, i: int, j: int)
    requires Disjoint(segs + [x], len) && i <= j && Together(segs + [x], i, j)
    requires x.base <= i < x.base + x.count || x.base <= j < x.base + x.count
    ensures x.base <= i && j < x.base + x.count
  {
    var all := segs + [x];
    var k :| 0 <= k < |all| && all[k].base <= i && j < all[k].base + all[k].count;
    if k < |segs| {
      assert Separate(all[k], all[|segs|]);
    }
  }

  lemma TogetherOf(segs: seq<Segment>, more: seq<Segment>, i: int, j: int)
    ensures Together(segs + more, i, j) <==> Together(segs, i, j) || Together(more, i, j)
  {
    var all := segs + more;
    if k :| 0 <= k < |segs| && segs[k].base <= i && j < segs[k].base + segs[k].count {
      assert all[k] == segs[k];
    }
    if k :| 0 <= k < |more| && more[k].base <= i && j < more[k].base + more[k].count {
      assert all[|segs| + k] == more[k];
    }
    if k :| 0 <= k < |all| && all[k].base <= i && j < all[k].base + all[k].count {
      if k < |segs| {
        assert segs[k] == all[k];
      } else {
        assert more[k - |segs|] == all[k];
      }
    }
  }

  /** Rearranging one segment into pieces that are in order keeps everything else in order. */
  lemma Refine<T(!new)>(cmp: Compare<T>, s: seq<T>, t: seq<T>, segs: seq<Segment>, x: Segment, more: seq<Segment>)
    requires Apart(cmp, s, segs + [x]) && Disjoint(segs + [x], |s|)
    requires Permuted(s, t, x.base, x.base + x.count)
    requires forall i, j :: x.base <= i < j < x.base + x.count ==> cmp(t[i], t[j]) <= 0 || Together(more, i, j)
    ensures Apart(cmp, t, segs + more)
  {
    hide Permuted, Disjoint, Together;
    forall i, j | 0 <= i < j < |t|
      ensures cmp(t[i], t[j]) <= 0 || Together(segs + more, i, j)
    {
      if !(x.base <= i && j < x.base + x.count) {
        RefinePair(cmp, s, t, segs, x, i, j);
      }
      TogetherOf(segs, more, i, j);
    }
  }

  lemma RefinePair<T(!new)>(cmp: Compare<T>, s: seq<T>, t: seq<T>, segs: seq<Segment>, x: Segment, i: int, j: int)
    requires Apart(cmp, s, segs + [x]) && Disjoint(segs + [x], |s|)
    requires Permuted(s, t, x.base, x.base + x.count) && 0 <= i < j < |t|
    requires !(x.base <= i && j < x.base + x.count)
    ensures cmp(t[i], t[j]) <= 0 || Together(segs, i, j)
  {
    hide Disjoint, Together;
    var top := x.base + x.count;
    var i', j' := i, j;
    if x.base <= i < top {
      i' := PermutedElement(s, t, x.base, top, i);
    } else if x.base <= j < top {
      j' := PermutedElement(s, t, x.base, top, j);
    }
    assert cmp(s[i'], s[j']) <= 0 || Together(segs + [x], i', j');
    if Together(segs + [x], i', j') {
      if x.base <= i' < top || x.base <= j' < top {
        Outside(segs, x, |s|, i', j');
      }
      TogetherOf(segs, [x], i', j');
      NotIn(x, i', j');
    }
  }

  lemma NotIn(x: Segment, i: int, j: int)
    requires !(x.base <= i && j < x.base + x.count)
    ensures !Together([x], i, j)
  {
  }

  /** The pieces of a segment. */
  lemma Pieces(segs: seq<Segment>, x: Segment, y: Segment, z: Segment, len: nat)
    requires Disjoint(segs + [x], len) && Separate(y, z)
    requires x.base <= y.base && y.base + y.count <= x.base + x.count
    requires x.base <= z.base && z.base + z.count <= x.base + x.count
    ensures Disjoint(segs + [y] + [z], len)
  {
    var all, pieces := segs + [x], segs + [y] + [z];
    assert all[|segs|] == x;
    forall k | 0 <= k < |segs|
      ensures Separate(segs[k], y) && Separate(segs[k], z) && segs[k].base + segs[k].count <= len
    {
      assert Separate(all[k], all[|segs|]) && all[k] == segs[k];
    }
    forall k, m | 0 <= k < m < |pieces|
      ensures Separate(pieces[k], pieces[m])
    {
      if m < |segs| {
        assert Separate(all[k], all[m]);
      }
    }
  }

  lemma DropLast(segs: seq<Segment>, x: Segment, len: nat)
    requires Disjoint(segs + [x], len)
    ensures Disjoint(segs, len) && x.base + x.count <= len
  {
    var all := segs + [x];
    assert all[|segs|] == x;
    forall k | 0 <= k < |segs|
      ensures all[k] == segs[k]
    {
    }
    forall k, m | 0 <= k < m < |segs|
      ensures Separate(segs[k], segs[m])
    {
      assert Separate(all[k], all[m]);
    }
  }

  function Pending(segs: seq<Segment>): nat {
    if segs == [] then 0 else Pending(segs[..|segs| - 1]) + segs[|segs| - 1].count
  }

  lemma PendingSnoc(segs: seq<Segment>, x: Segment)
    ensures Pending(segs + [x]) == Pending(segs) + x.count
  {
    assert (segs + [x])[..|segs|] == segs;
  }

  /** Three parts around the pivot are in order but for pairs within the outer two. */
  lemma ThreePartsApart<T(!new)>(cmp: Compare<T>, v: T, s: seq<T>, ptr: int, lt: int, gt: int, top: int, more: seq<Segment>)
    requires Preorder(cmp) && ThreeParts(cmp, v, s, ptr, lt, gt, top)
    requires exists k :: 0 <= k < |more| && more[k].base == ptr && more[k].count == lt - ptr
    requires exists k :: 0 <= k < |more| && more[k].base == gt && more[k].count == top - gt
    ensures forall i, j :: ptr <= i < j < top ==> cmp(s[i], s[j]) <= 0 || Together(more, i, j)
  {
    hide Preorder;
    forall i, j | ptr <= i < j < top
      ensures cmp(s[i], s[j]) <= 0 || Together(more, i, j)
    {
      if !(j < lt) && !(gt <= i) {
        assert cmp(v, s[i]) >= 0 && cmp(v, s[j]) <= 0;
        Flip(cmp, v, s[i]);
        Trans(cmp, s[i], v, s[j]);
      }
    }
  }

  // ---- the main loop ----

  /** Depths strictly increase and start above zero, so that the k-th entry is at least k + 1 deep. */
  ghost predicate Stacked(segs: seq<Segment>, depth: nat) {
    && |segs| <= depth <= 50
    && (forall k :: 0 <= k < |segs| ==> k + 1 <= segs[k].depth <= depth)
    && forall k, m :: 0 <= k < m < |segs| ==> segs[k].depth < segs[m].depth
  }

  /** The stack between two rounds: the whole array at the very start, later only deeper segments. */
  ghost predicate Waiting(segs: seq<Segment>, len: nat) {
    segs == [Segment(0, len, 0)] || exists depth: nat :: Stacked(segs, depth)
  }

  lemma Push(segs: seq<Segment>, depth: nat, x: Segment)
    requires Stacked(segs, depth) && depth < 50 && x.depth == depth + 1
    ensures Stacked(segs + [x], depth + 1) && |segs| < 50
  {
  }

  lemma Pop(segs: seq<Segment>, len: nat)
    requires Waiting(segs, len) && segs != []
    ensures Stacked(segs[..|segs| - 1], segs[|segs| - 1].depth)
  {
  }

  lemma Resting(segs: seq<Segment>, depth: nat, len: nat)
    requires Stacked(segs, depth)
    ensures Waiting(segs, len)
  {
  }

  /** The two outer parts as stack entries. */
  method PartSegments<T(!new)>(cmp: Compare<T>, ghost v: T, a: array<T>, ptr: nat, lt: int, gt: int, n: nat, depth: nat) returns (low: Segment, high: Segment)
    requires ptr + n <= a.Length && ThreeParts(cmp, v, a[..], ptr, lt, gt, ptr + n)
    ensures low == Segment(ptr, lt - ptr, depth) && high == Segment(gt, ptr + n - gt, depth)
  {
    low, high := Segment(ptr, lt - ptr, depth), Segment(gt, ptr + n - gt, depth);
  }

  /** What the main loop keeps: segs are the segments still to be sorted. */
  ghost predicate Progress<T>(cmp: Compare<T>, start: seq<T>, s: seq<T>, segs: seq<Segment>) {
    Permuted(start, s, 0, |start|) && Disjoint(segs, |s|) && Apart(cmp, s, segs)
  }

  /** A segment has been split: the two outer parts remain. */
  lemma AfterSplit<T(!new)>(cmp: Compare<T>, start: seq<T>, s: seq<T>, t: seq<T>, segs: seq<Segment>, x: Segment, v: T, lt: int, gt: int, y: Segment, z: Segment)
    requires Preorder(cmp) && Progress(cmp, start, s, segs + [x])
    requires Permuted(s, t, x.base, x.base + x.count)
    requires ThreeParts(cmp, v, t, x.base, lt, gt, x.base + x.count)
    requires var low, high := (x.base, lt - x.base), (gt, x.base + x.count - gt);
             ((y.base, y.count) == low && (z.base, z.count) == high) || ((y.base, y.count) == high && (z.base, z.count) == low)
    ensures Progress(cmp, start, t, segs + [y] + [z])
    ensures Pending(segs + [y] + [z]) < Pending(segs + [x])
  {
    hide Preorder, Permuted, Disjoint, Apart, AllLess, AllEqual, AllGreater;
    var more := [y, z];
    assert more[0] == y && more[1] == z;
    assert segs + [y] + [z] == segs + more;
    ThreePartsApart(cmp, v, t, x.base, lt, gt, x.base + x.count, more);
    Refine(cmp, s, t, segs, x, more);
    Pieces(segs, x, y, z, |s|);
    DropLast(segs, x, |s|);
    SameLength(s, t, x.base, x.base + x.count);
    SameLength(start, s, 0, |start|);
    PermutedTrans(start, s, t, 0, |start|, x.base, x.base + x.count);
    PendingSnoc(segs, x);
    PendingSnoc(segs, y);
    PendingSnoc(segs + [y], z);
  }

  lemma SameLength<T>(s: seq<T>, t: seq<T>, lo: int, hi: int)
    requires Permuted(s, t, lo, hi)
    ensures |s| == |t|
  {
  }

  /** A segment has been sorted outright. */
  lemma AfterSort<T(!new)>(cmp: Compare<T>, start: seq<T>, s: seq<T>, t: seq<T>, segs: seq<Segment>, x: Segment)
    requires Progress(cmp, start, s, segs + [x]) && x.base + x.count <= |t|
    requires Permuted(s, t, x.base, x.base + x.count) && SortedIn(cmp, t, x.base, x.base + x.count)
    ensures Progress(cmp, start, t, segs)
  {
    hide Permuted, Disjoint, Apart;
    Refine(cmp, s, t, segs, x, []);
    assert segs + [] == segs;
    DropLast(segs, x, |s|);
    SameLength(s, t, x.base, x.base + x.count);
    SameLength(start, s, 0, |start|);
    PermutedTrans(start, s, t, 0, |start|, x.base, x.base + x.count);
  }

  /** The same, when the segment stays in the list without elements. */
  lemma AfterSortEmpty<T(!new)>(cmp: Compare<T>, start: seq<T>, s: seq<T>, t: seq<T>, segs: seq<Segment>, x: Segment)
    requires Progress(cmp, start, s, segs + [x]) && x.base + x.count <= |t|
    requires Permuted(s, t, x.base, x.base + x.count) && SortedIn(cmp, t, x.base, x.base + x.count)
    ensures Progress(cmp, start, t, segs + [x.(count := 0)])
    ensures Pending(segs + [x.(count := 0)]) <= Pending(segs + [x])
  {
    hide Permuted, Disjoint, Apart;
    var none := x.(count := 0);
    Refine(cmp, s, t, segs, x, [none]);
    Shrunk(segs, x, |s|);
    DropLast(segs, x, |s|);
    SameLength(s, t, x.base, x.base + x.count);
    SameLength(start, s, 0, |start|);
    PermutedTrans(start, s, t, 0, |start|, x.base, x.base + x.count);
    PendingSnoc(segs, x);
    PendingSnoc(segs, none);
  }

  lemma Shrunk(segs: seq<Segment>, x: Segment, len: nat)
    requires Disjoint(segs + [x], len)
    ensures Disjoint(segs + [x.(count := 0)], len)
  {
    var all, less := segs + [x], segs + [x.(count := 0)];
    assert all[|segs|] == x;
    forall k, m | 0 <= k < m < |less|
      ensures Separate(less[k], less[m])
    {
      assert Separate(all[k], all[m]);
    }
    forall k | 0 <= k < |less|
      ensures less[k].base + less[k].count <= len
    {
      assert all[k].base + all[k].count <= len;
    }
  }

  lemma Bounds<T>(cmp: Compare<T>, start: seq<T>, s: seq<T>, segs: seq<Segment>, x: Segment)
    requires Progress(cmp, start, s, segs + [x])
    ensures x.base + x.count <= |s| == |start|
  {
    assert (segs + [x])[|segs|] == x;
  }

  lemma Begin<T>(cmp: Compare<T>, s: seq<T>)
    ensures Progress(cmp, s, s, [Segment(0, |s|, 0)])
  {
    var x := Segment(0, |s|, 0);
    forall i, j | 0 <= i < j < |s|
      ensures Together([x], i, j)
    {
      assert [x][0] == x;
    }
  }

  lemma Finish<T>(cmp: Compare<T>, start: seq<T>, s: seq<T>)
    requires Progress(cmp, start, s, [])
    ensures |s| == |start| && multiset(s) == multiset(start) && SortedIn(cmp, s, 0, |s|)
  {
    forall i, j | 0 <= i < j < |s|
      ensures cmp(s[i], s[j]) <= 0
    {
      assert !Together([], i, j);
    }
  }

  /** rqsort */
  method Rqsort<T(!new)>(a: array<T>, cmp: Compare<T>)
    requires Preorder(cmp)
    modifies a
    ensures multiset(a[..]) == multiset(old(a[..])) && SortedIn(cmp, a[..], 0, a.Length)
  {
    hide Preorder, Permuted, Progress, Stacked, Pending, ThreeParts;
    ghost var start := a[..];
    if a.Length < 2 {
      return;
    }
    var stack := new Segment[50](_ => Segment(0, 0, 0));
    stack[0] := Segment(0, a.Length, 0);
    var sp := 1;
    ghost var segs := [stack[0]];
    Begin(cmp, start);
    assert stack[..sp] == segs;
    while sp > 0
      invariant 0 <= sp <= 50 && stack[..sp] == segs && fresh(stack)
      invariant Progress(cmp, start, a[..], segs)
      invariant Waiting(segs, a.Length)
      decreases Pending(segs), sp
    {
      ghost var below, sp0, total := segs[..sp - 1], sp - 1, Pending(segs);
      sp := sp - 1;
      var ptr, nmemb, depth := stack[sp].base, stack[sp].count, stack[sp].depth;
      assert segs == below + [Segment(ptr, nmemb, depth)];
      Pop(segs, a.Length);
      while nmemb > 6
        invariant 0 <= sp <= 50 && stack[..sp] == below && fresh(stack)
        invariant Progress(cmp, start, a[..], below + [Segment(ptr, nmemb, depth)])
        invariant Stacked(below, depth)
        invariant Pending(below + [Segment(ptr, nmemb, depth)]) < total || (sp == sp0 && Pending(below + [Segment(ptr, nmemb, depth)]) == total)
        decreases Pending(below + [Segment(ptr, nmemb, depth)]), nmemb
      {
        ghost var x := Segment(ptr, nmemb, depth);
        ghost var was := a[..];
        Bounds(cmp, start, was, below, x);
        depth := depth + 1;
        if depth > 50 {
          HeapSort(a, ptr, nmemb, cmp);
          AfterSortEmpty(cmp, start, was, a[..], below, x);
          nmemb, depth := 0, depth - 1;
          break;
        }
        ghost var v;
        var lt, gt;
        lt, gt, v := Split(a, ptr, nmemb, cmp);
        var low, high := PartSegments(cmp, v, a, ptr, lt, gt, nmemb, depth);
        if low.count > high.count {
          AfterSplit(cmp, start, was, a[..], below, x, v, lt, gt, low, high);
          Push(below, x.depth, low);
          stack[sp] := low;
          below := below + [low];
          ptr, nmemb := high.base, high.count;
        } else {
          AfterSplit(cmp, start, was, a[..], below, x, v, lt, gt, high, low);
          Push(below, x.depth, high);
          stack[sp] := high;
          below := below + [high];
          nmemb := low.count;
        }
        sp := sp + 1;
      }
      ghost var x, was := Segment(ptr, nmemb, depth), a[..];
      Bounds(cmp, start, was, below, x);
      InsertionSort(a, ptr, nmemb, cmp);
      AfterSort(cmp, start, was, a[..], below, x);
      PendingSnoc(below, x);
      segs := below;
      Resting(segs, depth, a.Length);
    }
    assert segs == [];
    Finish(cmp, start, a[..]);
  }
}
