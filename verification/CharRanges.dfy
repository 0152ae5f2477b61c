/**
 Character sets as sorted end points (qjs/libunicode.c, qjs/libunicode.h) and as the range
 opcodes of qjs/libregexp.c: both agree with plain set membership.
 */
module CharRanges {
  import opened RegexpSyntax

  const Max32: nat := 0xffff_ffff

  predicate Sorted(s: seq<nat>) {
    forall i, j :: 0 <= i < j < |s| ==> s[i] <= s[j]
  }

  predicate StrictlySorted(s: seq<nat>) {
    forall i, j :: 0 <= i < j < |s| ==> s[i] < s[j]
  }

  /** A list of intervals as every caller passes it: half-open, in order, 32 bits. */
  predicate Intervals(s: seq<nat>) {
    |s| % 2 == 0 && Sorted(s) && forall k :: 0 <= k < |s| ==> s[k] <= Max32
  }

  /** The form every operation leaves behind: no empty and no touching intervals. */
  predicate Canonical(s: seq<nat>) {
    |s| % 2 == 0 && StrictlySorted(s) && forall k :: 0 <= k < |s| ==> s[k] <= Max32
  }

  // ---- membership by counting points ----

  /** Whether an odd number of points is at or below c. */
  predicate Odd(s: seq<nat>, c: nat) {
    s != [] && (Odd(s[..|s| - 1], c) != (s[|s| - 1] <= c))
  }

  lemma {:induction false} OddConcat(s: seq<nat>, t: seq<nat>, c: nat)
    ensures Odd(s + t, c) == (Odd(s, c) != Odd(t, c))
    decreases t
  {
    if t == [] {
      assert s + t == s;
    } else {
      assert (s + t)[..|s + t| - 1] == s + t[..|t| - 1];
      OddConcat(s, t[..|t| - 1], c);
    }
  }

  lemma OddPair(a: nat, b: nat, c: nat)
    ensures Odd([a, b], c) == ((a <= c) != (b <= c))
  {
    OddOne(a, c);
    OddOne(b, c);
    assert [a, b] == [a] + [b];
    OddConcat([a], [b], c);
  }

  lemma {:induction false} NoneBelow(s: seq<nat>, c: nat)
    requires forall k :: 0 <= k < |s| ==> c < s[k]
    ensures !Odd(s, c)
  {
    if s != [] {
      NoneBelow(s[..|s| - 1], c);
    }
  }

  lemma {:induction false} AllBelow(s: seq<nat>, c: nat)
    requires forall k :: 0 <= k < |s| ==> s[k] <= c
    ensures Odd(s, c) == (|s| % 2 == 1)
  {
    if s != [] {
      AllBelow(s[..|s| - 1], c);
    }
  }

  /** For a sorted list of whole intervals, counting points is membership. */
  lemma {:induction false} OddIsIn(s: seq<nat>, c: nat)
    requires |s| % 2 == 0 && Sorted(s)
    ensures Odd(s, c) == InPoints(s, c)
  {
    if s != [] {
      assert s == [s[0], s[1]] + s[2..];
      OddConcat([s[0], s[1]], s[2..], c);
      OddPair(s[0], s[1], c);
      OddIsIn(s[2..], c);
      if c < s[1] {
        NoneBelow(s[2..], c);
      }
    }
  }

  // ---- operations ----

  datatype Op = Union | Inter | Xor

  predicate Apply(op: Op, p: bool, q: bool) {
    match op
    case Union => p || q
    case Inter => p && q
    case Xor => p != q
  }

  lemma OperationsAre()
    ensures forall p, q :: Apply(Union, p, q) == (p || q)
    ensures forall p, q :: Apply(Inter, p, q) == (p && q)
    ensures forall p, q :: Apply(Xor, p, q) == (p != q)
  {
  }

  class CharRange {
    var points: seq<nat>

    constructor ()
      ensures points == []
    {
      points := [];
    }

    /** cr_compress: merges touching intervals and drops empty ones, in place. */
    method Compress()
      requires Intervals(points)
      modifies this
      ensures Canonical(points)
      ensures forall c: nat :: InPoints(points, c) <==> InPoints(old(points), c)
    {
      hide InPoints, Canonical, Intervals;
      ghost var was := points;
      var len := |points|;
      var i, k := 0, 0;
      CompressStarts(was);
      while i + 1 < len
        invariant |points| == len && k <= i <= len && Compressed(was, points, i, k)
      {
        SameTail(points, was, i);
        if points[i] == points[i + 1] {
          Skipped(was, points, i, k);
          i := i + 2;
        } else {
          TailSorted(was, points, i, k);
          var j := FindEnd(points, i);
          ghost var before := points;
          points := points[k := points[i]][k + 1 := points[j + 1]];
          Copied(was, before, points, i, j, k);
          k := k + 2;
          i := j + 2;
        }
      }
      CompressEnds(was, points, i, k);
      points := points[..k];
    }

    method AddPoint(v: nat)
      modifies this
      ensures points == old(points) + [v]
    {
      points := points + [v];
    }

    /** cr_op into an empty set: one sweep over both lists. */
    method Combine(a: seq<nat>, b: seq<nat>, op: Op)
      requires points == [] && Intervals(a) && Intervals(b)
      modifies this
      ensures Canonical(points)
      ensures op == Union ==> forall c: nat :: InPoints(points, c) <==> InPoints(a, c) || InPoints(b, c)
      ensures op == Inter ==> forall c: nat :: InPoints(points, c) <==> InPoints(a, c) && InPoints(b, c)
      ensures op == Xor ==> forall c: nat :: InPoints(points, c) <==> InPoints(a, c) != InPoints(b, c)
    {
      hide InPoints, Odd, Apply;
      var i, j := 0, 0;
      Nothing(op);
      while i < |a| || j < |b|
        invariant 0 <= i <= |a| && 0 <= j <= |b|
        invariant Swept(points, a, i, b, j)
        invariant (|points| % 2 == 1) == Apply(op, i % 2 == 1, j % 2 == 1)
        invariant forall c: nat :: Odd(points, c) == Apply(op, Odd(a[..i], c), Odd(b[..j], c))
        decreases |a| - i + |b| - j
      {
        ghost var i0, j0, was := i, j, points;
        var v;
        if i < |a| && (j == |b| || a[i] <= b[j]) {
          v := a[i];
          if j < |b| && a[i] == b[j] {
            j := j + 1;
          }
          i := i + 1;
        } else {
          v := b[j];
          j := j + 1;
        }
        var isIn := Apply(op, i % 2 == 1, j % 2 == 1);
        if isIn != (|points| % 2 == 1) {
          AddPoint(v);
        }
        SweepStep(a, i0, i, b, j0, j, was, points, v, op);
      }
      assert a[..i] == a && b[..j] == b;
      ghost var swept := points;
      SweptIsIntervals(swept, a, b, op);
      Compress();
      forall c: nat
        ensures InPoints(points, c) <==> Apply(op, InPoints(a, c), InPoints(b, c))
      {
        OddIsIn(swept, c);
        OddIsIn(a, c);
        OddIsIn(b, c);
      }
      OperationsAre();
    }

    /** cr_union1 */
    method UnionWith(b: seq<nat>)
      requires Intervals(points) && Intervals(b)
      modifies this
      ensures Canonical(points)
      ensures forall c: nat :: InPoints(points, c) <==> InPoints(old(points), c) || InPoints(b, c)
    {
      var a := points;
      points := [];
      Combine(a, b, Union);
    }

    /** cr_union_interval, with the 32-bit addition of the source. */
    method UnionInterval(c1: nat, c2: nat)
      requires Intervals(points) && c1 <= c2 < Max32
      modifies this
      ensures Canonical(points)
      ensures forall c: nat :: InPoints(points, c) <==> InPoints(old(points), c) || c1 <= c <= c2
    {
      hide InPoints;
      var b := [c1, (c2 + 1) % 0x1_0000_0000];
      UnionWith(b);
      forall c: nat
        ensures InPoints(b, c) <==> c1 <= c <= c2
      {
        PairIn(b[0], b[1], c);
      }
    }

    /** cr_invert: the points shifted by one place between 0 and infinity. */
    method Invert()
      requires Intervals(points)
      modifies this
      ensures Canonical(points)
      ensures forall c: nat :: InPoints(points, c) <==> c < Max32 && !InPoints(old(points), c)
    {
      hide InPoints, Odd;
      ghost var was := points;
      points := [0] + points + [Max32];
      ghost var shifted := points;
      Compress();
      forall c: nat
        ensures InPoints(points, c) <==> c < Max32 && !InPoints(was, c)
      {
        OddIsIn(was, c);
        OddIsIn(shifted, c);
        OddConcat([0] + was, [Max32], c);
        OddConcat([0], was, c);
        OddOne(0, c);
        OddOne(Max32, c);
        if c >= Max32 {
          AllBelow(was, c);
        }
      }
    }
  }

  // ---- laws of the operations ----

  /** Strictly increasing points are determined by the set they stand for. */
  lemma {:induction false} CanonicalUnique(s: seq<nat>, t: seq<nat>)
    requires Canonical(s) && Canonical(t) && forall c: nat :: InPoints(s, c) <==> InPoints(t, c)
    ensures s == t
    decreases |s|
  {
    if s == [] {
      if t != [] {
        HasFirst(t);
      }
    } else {
      HasFirst(s);
      assert t != [];
      FirstPoints(s, t);
      FirstPoints(t, s);
      RestSame(s, t);
      CanonicalUnique(s[2..], t[2..]);
      assert s == [s[0], s[1]] + s[2..] && t == [t[0], t[1]] + t[2..];
    }
  }

  lemma HasFirst(s: seq<nat>)
    requires Canonical(s) && s != []
    ensures InPoints(s, s[0])
  {
  }

  /** Nothing of the rest lies below its first point, or at the end of the first interval. */
  lemma RestIsAbove(s: seq<nat>, c: nat)
    requires Canonical(s) && s != []
    ensures InPoints(s[2..], c) ==> c > s[1]
    ensures Canonical(s[2..])
    decreases |s|
  {
    var t := s[2..];
    if t != [] && InPoints(t, c) && !(t[0] <= c < t[1]) {
      RestIsAbove(t, c);
    }
  }

  lemma FirstPoints(s: seq<nat>, t: seq<nat>)
    requires Canonical(s) && Canonical(t) && s != [] && t != [] && forall c: nat :: InPoints(s, c) <==> InPoints(t, c)
    ensures t[0] <= s[0] && (s[0] == t[0] ==> t[1] <= s[1])
  {
    assert InPoints(s, s[0]);
    RestIsAbove(t, s[0]);
    if s[0] == t[0] && s[1] < t[1] {
      assert InPoints(t, s[1]);
      RestIsAbove(s, s[1]);
      assert false;
    }
  }

  lemma RestSame(s: seq<nat>, t: seq<nat>)
    requires Canonical(s) && Canonical(t) && s != [] && t != [] && forall c: nat :: InPoints(s, c) <==> InPoints(t, c)
    requires s[0] == t[0] && s[1] == t[1]
    ensures Canonical(s[2..]) && Canonical(t[2..]) && forall c: nat :: InPoints(s[2..], c) <==> InPoints(t[2..], c)
  {
    forall c: nat
      ensures InPoints(s[2..], c) <==> InPoints(t[2..], c)
    {
      RestIsAbove(s, c);
      RestIsAbove(t, c);
      assert InPoints(s, c) == (s[0] <= c < s[1] || InPoints(s[2..], c));
      assert InPoints(t, c) == (t[0] <= c < t[1] || InPoints(t[2..], c));
    }
    RestIsAbove(s, 0);
    RestIsAbove(t, 0);
  }

  /**
   Union, intersection and exclusive or of the same sets: the intersection lies inside both operands,
   the union is the other two together, and taking the exclusive or from it gives the intersection
   back, point for point.
   */
  method SetLaws(a: seq<nat>, b: seq<nat>) returns (union: seq<nat>, inter: seq<nat>, xor: seq<nat>, back: seq<nat>)
    requires Intervals(a) && Intervals(b)
    ensures back == inter
    ensures Canonical(union) && Canonical(inter) && Canonical(xor)
    ensures forall c: nat :: InPoints(inter, c) ==> InPoints(a, c) && InPoints(b, c)
    ensures forall c: nat :: InPoints(union, c) <==> InPoints(inter, c) || InPoints(xor, c)
    ensures forall c: nat :: !(InPoints(inter, c) && InPoints(xor, c))
    ensures forall c: nat :: InPoints(a, c) || InPoints(b, c) ==> InPoints(union, c)
  {
    hide InPoints, Canonical, Intervals;
    var u := new CharRange();
    u.Combine(a, b, Union);
    var n := new CharRange();
    n.Combine(a, b, Inter);
    var x := new CharRange();
    x.Combine(a, b, Xor);
    union, inter, xor := u.points, n.points, x.points;
    CanonicalIntervals(union);
    CanonicalIntervals(xor);
    var d := new CharRange();
    d.Combine(union, xor, Xor);
    back := d.points;
    CanonicalUnique(back, inter);
  }

  lemma CanonicalIntervals(s: seq<nat>)
    requires Canonical(s)
    ensures Intervals(s)
  {
  }

  // ---- lemmas for compression ----

  /** The loop of cr_compress: the front part is canonical and, with what is left, the same set. */
  ghost predicate Compressed(was: seq<nat>, s: seq<nat>, i: nat, k: nat) {
    && |s| == |was| && k <= i <= |s| && i % 2 == 0 && k % 2 == 0 && Intervals(was)
    && s[i..] == was[i..]
    && Canonical(s[..k]) && (0 < k && i < |s| ==> s[k - 1] < was[i])
    && forall c: nat :: InPoints(was, c) <==> InPoints(s[..k], c) || InPoints(was[i..], c)
  }

  lemma CompressStarts(was: seq<nat>)
    requires Intervals(was)
    ensures Compressed(was, was, 0, 0)
  {
    hide InPoints;
    EmptyIn();
    assert was[..0] == [] && was[0..] == was;
  }

  lemma CompressEnds(was: seq<nat>, s: seq<nat>, i: nat, k: nat)
    requires Compressed(was, s, i, k) && i + 1 >= |s|
    ensures Canonical(s[..k]) && forall c: nat :: InPoints(s[..k], c) <==> InPoints(was, c)
  {
    hide InPoints;
    EmptyIn();
    assert was[i..] == [];
  }

  lemma TailSorted(was: seq<nat>, s: seq<nat>, i: nat, k: nat)
    requires Compressed(was, s, i, k)
    ensures |s| % 2 == 0 && i % 2 == 0 && Sorted(s[i..])
  {
    hide InPoints;
  }

  lemma Skipped(was: seq<nat>, s: seq<nat>, i: nat, k: nat)
    requires Compressed(was, s, i, k) && i + 1 < |s| && was[i] == was[i + 1]
    ensures Compressed(was, s, i + 2, k)
  {
    hide InPoints;
    SameTail(s, was, i);
    forall c: nat
      ensures InPoints(was[i..], c) <==> InPoints(was[i + 2..], c)
    {
      FirstIn(was, i, c);
    }
  }

  /** One interval, gathered from i to j, goes to the front part. */
  lemma Copied(was: seq<nat>, before: seq<nat>, after: seq<nat>, i: nat, j: nat, k: nat)
    requires Compressed(was, before, i, k) && Gathers(before, i, j)
    requires after == before[k := before[i]][k + 1 := before[j + 1]]
    ensures Compressed(was, after, j + 2, k + 2)
  {
    hide InPoints;
    SameTail(before, was, i);
    var front, lo, hi := before[..k], before[i], before[j + 1];
    assert after[..k + 2] == front + [lo, hi];
    Extend(front, lo, hi);
    assert after[j + 2..] == was[j + 2..];
    forall c: nat
      ensures InPoints(was, c) <==> InPoints(after[..k + 2], c) || InPoints(was[j + 2..], c)
    {
      LastIn(front, lo, hi, c);
    }
  }

  lemma EmptyIn()
    ensures forall c: nat :: !InPoints([], c)
  {
  }

  lemma PairIn(lo: nat, hi: nat, c: nat)
    ensures InPoints([lo, hi], c) <==> lo <= c < hi
  {
    assert [lo, hi][2..] == [];
  }

  lemma FirstIn(s: seq<nat>, i: nat, c: nat)
    requires i + 1 < |s|
    ensures InPoints(s[i..], c) <==> s[i] <= c < s[i + 1] || InPoints(s[i + 2..], c)
  {
    assert s[i..][2..] == s[i + 2..];
  }

  lemma {:induction false} LastIn(s: seq<nat>, lo: nat, hi: nat, c: nat)
    requires |s| % 2 == 0
    ensures InPoints(s + [lo, hi], c) <==> InPoints(s, c) || lo <= c < hi
    decreases |s|
  {
    if s == [] {
      assert s + [lo, hi] == [lo, hi];
      PairIn(lo, hi, c);
    } else {
      assert (s + [lo, hi])[2..] == s[2..] + [lo, hi];
      LastIn(s[2..], lo, hi, c);
    }
  }

  lemma Extend(s: seq<nat>, lo: nat, hi: nat)
    requires Canonical(s) && lo < hi <= Max32 && (s != [] ==> s[|s| - 1] < lo)
    ensures Canonical(s + [lo, hi])
  {
    assert s == [] || forall k :: 0 <= k < |s| ==> s[k] <= s[|s| - 1];
  }

  /** The intervals from i to j touch, and what they cover is one interval. */
  ghost predicate Gathers(s: seq<nat>, i: nat, j: nat) {
    && i <= j && j + 1 < |s| && j % 2 == i % 2
    && s[i] < s[j + 1] && (j + 2 < |s| ==> s[j + 1] < s[j + 2])
    && forall c: nat :: InPoints(s[i..], c) <==> s[i] <= c < s[j + 1] || InPoints(s[j + 2..], c)
  }

  /** The inner loop of cr_compress. */
  method FindEnd(s: seq<nat>, i: nat) returns (j: nat)
    requires |s| % 2 == 0 && i % 2 == 0 && i + 1 < |s| && Sorted(s[i..]) && s[i] != s[i + 1]
    ensures Gathers(s, i, j)
  {
    hide InPoints;
    j := i;
    forall c: nat
      ensures InPoints(s[i..], c) <==> s[i] <= c < s[j + 1] || InPoints(s[j + 2..], c)
    {
      FirstIn(s, i, c);
    }
    From(s, i);
    while j + 3 < |s| && s[j + 1] == s[j + 2]
      invariant i <= j && j + 1 < |s| && j % 2 == 0 && s[i] < s[j + 1]
      invariant forall c: nat :: InPoints(s[i..], c) <==> s[i] <= c < s[j + 1] || InPoints(s[j + 2..], c)
    {
      j := j + 2;
      forall c: nat
        ensures InPoints(s[j..], c) <==> s[j] <= c < s[j + 1] || InPoints(s[j + 2..], c)
      {
        FirstIn(s, j, c);
      }
    }
  }

  lemma From(s: seq<nat>, i: nat)
    requires i <= |s| && Sorted(s[i..])
    ensures forall m, n :: i <= m <= n < |s| ==> s[m] <= s[n]
  {
    forall m, n | i <= m < n < |s|
      ensures s[m] <= s[n]
    {
      assert s[i..][m - i] <= s[i..][n - i];
    }
  }

  lemma SameTail(s: seq<nat>, t: seq<nat>, i: nat)
    requires |s| == |t| && i <= |s| && s[i..] == t[i..]
    ensures forall j {:trigger s[j..]} :: i <= j <= |s| ==> s[j..] == t[j..]
    ensures forall j :: i <= j < |s| ==> s[j] == t[j]
  {
    forall j | i <= j < |s|
      ensures s[j] == t[j]
    {
      assert s[j] == s[i..][j - i] && t[j] == t[i..][j - i];
    }
  }

  // ---- lemmas for the sweep ----

  /** Everything written is sorted and lies below everything still to be read. */
  ghost predicate Swept(out: seq<nat>, a: seq<nat>, i: nat, b: seq<nat>, j: nat)
    requires i <= |a| && j <= |b|
  {
    && Sorted(out) && (forall k :: 0 <= k < |out| ==> out[k] <= Max32)
    && Below(out, a, i) && Below(out, b, j) && Below(a[..i], b, j) && Below(b[..j], a, i)
  }

  ghost predicate Below(s: seq<nat>, t: seq<nat>, i: nat) {
    forall k, m :: 0 <= k < |s| && i <= m < |t| ==> s[k] <= t[m]
  }

  lemma Nothing(op: Op)
    ensures forall c: nat :: Odd([], c) == Apply(op, Odd([], c), Odd([], c))
    ensures !Apply(op, false, false)
  {
  }

  lemma OddOne(v: nat, c: nat)
    ensures Odd([v], c) == (v <= c)
  {
    assert [v][..0] == [];
  }

  /** v, the next point of one list or of both, has been taken; the output changes exactly when the status does. */
  lemma SweepStep(a: seq<nat>, i: nat, i': nat, b: seq<nat>, j: nat, j': nat, out: seq<nat>, out': seq<nat>, v: nat, op: Op)
    requires Intervals(a) && Intervals(b) && Taken(a, i, i', v) && Taken(b, j, j', v) && (i < i' || j < j')
    requires Swept(out, a, i, b, j) && (|out| % 2 == 1) == Apply(op, i % 2 == 1, j % 2 == 1)
    requires forall c: nat :: Odd(out, c) == Apply(op, Odd(a[..i], c), Odd(b[..j], c))
    requires out' == if Apply(op, i' % 2 == 1, j' % 2 == 1) != (|out| % 2 == 1) then out + [v] else out
    ensures Swept(out', a, i', b, j')
    ensures (|out'| % 2 == 1) == Apply(op, i' % 2 == 1, j' % 2 == 1)
    ensures forall c: nat :: Odd(out', c) == Apply(op, Odd(a[..i'], c), Odd(b[..j'], c))
  {
    hide Odd, Apply, Swept;
    SweepOrder(a, i, i', b, j, j', out, v);
    forall c: nat
      ensures Odd(out', c) == Apply(op, Odd(a[..i'], c), Odd(b[..j'], c))
    {
      TakenOdd(a, i, i', v, c);
      TakenOdd(b, j, j', v, c);
      OddConcat(out, [v], c);
      OddOne(v, c);
      if v <= c {
        AllBelow(out, c);
        AllBelow(a[..i'], c);
        AllBelow(b[..j'], c);
      }
    }
  }

  /** At most the point v has been taken from s, and nothing smaller is left. */
  ghost predicate Taken(s: seq<nat>, i: nat, i': nat, v: nat) {
    && i <= i' <= |s| && i' <= i + 1 && (i' == i + 1 ==> s[i] == v)
    && (i' < |s| ==> v <= s[i'])
  }

  lemma TakenOdd(s: seq<nat>, i: nat, i': nat, v: nat, c: nat)
    requires Taken(s, i, i', v)
    ensures Odd(s[..i'], c) == (Odd(s[..i], c) != (i' == i + 1 && v <= c))
  {
    if i' == i + 1 {
      assert s[..i'] == s[..i] + [v];
      OddConcat(s[..i], [v], c);
      OddOne(v, c);
    }
  }

  lemma SweepOrder(a: seq<nat>, i: nat, i': nat, b: seq<nat>, j: nat, j': nat, out: seq<nat>, v: nat)
    requires Intervals(a) && Intervals(b) && Taken(a, i, i', v) && Taken(b, j, j', v) && (i < i' || j < j')
    requires Swept(out, a, i, b, j)
    ensures Swept(out, a, i', b, j') && Swept(out + [v], a, i', b, j')
    ensures forall k :: 0 <= k < |out| ==> out[k] <= v
    ensures forall k :: 0 <= k < i' ==> a[k] <= v
    ensures forall k :: 0 <= k < j' ==> b[k] <= v
  {
    assert forall k :: 0 <= k < |out| ==> out[k] <= v;
    TakenBelow(a, i, i', b, j, v);
    TakenBelow(b, j, j', a, i, v);
    RestAbove(a, i, i', v);
    RestAbove(b, j, j', v);
  }

  lemma TakenBelow(s: seq<nat>, i: nat, i': nat, t: seq<nat>, j: nat, v: nat)
    requires Intervals(s) && Taken(s, i, i', v) && j <= |t| && Below(s[..i], t, j)
    requires i' == i + 1 || (j < |t| && t[j] == v)
    ensures forall k :: 0 <= k < i' ==> s[k] <= v
  {
    forall k | 0 <= k < i'
      ensures s[k] <= v
    {
      if i' == i {
        assert s[..i][k] <= t[j];
      }
    }
  }

  lemma RestAbove(s: seq<nat>, i: nat, i': nat, v: nat)
    requires Intervals(s) && Taken(s, i, i', v)
    ensures forall m :: i' <= m < |s| ==> v <= s[m]
  {
  }

  lemma SweptIsIntervals(out: seq<nat>, a: seq<nat>, b: seq<nat>, op: Op)
    requires Intervals(a) && Intervals(b) && Swept(out, a, |a|, b, |b|)
    requires (|out| % 2 == 1) == Apply(op, |a| % 2 == 1, |b| % 2 == 1)
    ensures Intervals(out)
  {
  }

  // ---- range opcodes ----

  /** REOP_char32, REOP_range and REOP_range32 with their operands, as numbers of 32, 16 and 32 bits. */
  datatype RangeOp = Char32(val: nat) | Range(pairs: seq<(nat, nat)>) | Range32(pairs: seq<(nat, nat)>)

  datatype Emitted = TooManyRanges | Emitted(op: RangeOp)

  /** Unsigned 32-bit subtraction. */
  function Sub32(a: nat, b: nat): nat {
    (a - b) % 0x1_0000_0000
  }

  /** The operand pairs of REOP_range: the last point may stand for infinity. */
  function Pairs16(s: seq<nat>): seq<(nat, nat)>
    requires |s| % 2 == 0
  {
    seq(|s| / 2, k requires 0 <= k < |s| / 2 => (s[2 * k] % 0x1_0000, High16(s[2 * k + 1])))
  }

  function High16(v: nat): nat {
    var high := Sub32(v, 1);
    if high == Max32 - 1 then 0xffff else high % 0x1_0000
  }

  function Pairs32(s: seq<nat>): seq<(nat, nat)>
    requires |s| % 2 == 0
  {
    seq(|s| / 2, k requires 0 <= k < |s| / 2 => (s[2 * k], Sub32(s[2 * k + 1], 1)))
  }

  /** re_emit_range */
  method EmitRange(s: seq<nat>) returns (r: Emitted)
    requires Canonical(s)
    ensures r.TooManyRanges? <==> |s| / 2 >= 65535
    ensures r.Emitted? ==> Denotes(r.op, s)
  {
    var len := |s| / 2;
    if len >= 65535 {
      return TooManyRanges;
    }
    if len == 0 {
      return Emitted(Char32(Max32));
    }
    var high := s[|s| - 1];
    if high == Max32 {
      high := s[|s| - 2];
    }
    var pairs := [];
    if high <= 0xffff {
      var i := 0;
      while i < |s|
        invariant 0 <= i <= |s| && i % 2 == 0 && pairs == Pairs16(s[..i])
      {
        pairs := pairs + [(s[i] % 0x1_0000, High16(s[i + 1]))];
        i := i + 2;
        assert pairs == Pairs16(s[..i]);
      }
      assert s[..i] == s;
      return Emitted(Range(pairs));
    } else {
      var i := 0;
      while i < |s|
        invariant 0 <= i <= |s| && i % 2 == 0 && pairs == Pairs32(s[..i])
      {
        pairs := pairs + [(s[i], Sub32(s[i + 1], 1))];
        i := i + 2;
        assert pairs == Pairs32(s[..i]);
      }
      assert s[..i] == s;
      return Emitted(Range32(pairs));
    }
  }

  /** Which opcode stands for which points. */
  predicate Denotes(op: RangeOp, s: seq<nat>)
    requires Canonical(s)
  {
    if s == [] then op == Char32(Max32)
    else
      var high := if s[|s| - 1] == Max32 then s[|s| - 2] else s[|s| - 1];
      op == if high <= 0xffff then Range(Pairs16(s)) else Range32(Pairs32(s))
  }

  /** Pairs in order, each not empty: low[0] <= high[0] < low[1] <= ... */
  ghost predicate Ordered(pairs: seq<(nat, nat)>) {
    && (forall k :: 0 <= k < |pairs| ==> pairs[k].0 <= pairs[k].1)
    && forall k, m :: 0 <= k < m < |pairs| ==> pairs[k].1 < pairs[m].0
  }

  ghost predicate InPairs(pairs: seq<(nat, nat)>, c: nat) {
    exists k :: 0 <= k < |pairs| && pairs[k].0 <= c <= pairs[k].1
  }

  /** The search loop of both range opcodes; its indices are unsigned. */
  method Search(pairs: seq<(nat, nat)>, c: nat) returns (found: bool)
    requires Ordered(pairs) && 0 < |pairs| && pairs[0].0 <= c
    ensures found <==> InPairs(pairs, c)
  {
    var idxMin: nat, idxMax: nat := 0, |pairs| - 1;
    while idxMin <= idxMax
      invariant idxMax < |pairs| && idxMin <= idxMax + 1
      invariant forall k :: 0 <= k < idxMin ==> pairs[k].1 < c
      invariant forall k :: idxMax < k < |pairs| ==> c < pairs[k].0
      decreases idxMax + 1 - idxMin
    {
      var idx := (idxMin + idxMax) / 2;
      var (low, high) := pairs[idx];
      if c < low {
        idxMax := idx - 1;
      } else if c > high {
        idxMin := idx + 1;
      } else {
        return true;
      }
    }
    return false;
  }

  /** REOP_char32, REOP_range and REOP_range32 on the character c. */
  method Test(op: RangeOp, c: nat) returns (matched: bool)
    requires !op.Char32? ==> Ordered(op.pairs) && 0 < |op.pairs|
    ensures matched <==> Accepted(op, c)
  {
    match op
    case Char32(val) => return val == c;
    case Range(pairs) =>
      if c < pairs[0].0 {
        return false;
      }
      var high := pairs[|pairs| - 1].1;
      if c >= 0xffff && high == 0xffff {
        return true;
      }
      if c > high {
        return false;
      }
      matched := Search(pairs, c);
    case Range32(pairs) =>
      if c < pairs[0].0 {
        return false;
      }
      if c > pairs[|pairs| - 1].1 {
        return false;
      }
      matched := Search(pairs, c);
  }

  /** What the machine accepts: a high end of 0xffff in the last 16-bit pair means infinity. */
  ghost predicate Accepted(op: RangeOp, c: nat) {
    match op
    case Char32(val) => val == c
    case Range(pairs) => InPairs(pairs, c) || (pairs != [] && pairs[|pairs| - 1].1 == 0xffff && c >= 0xffff)
    case Range32(pairs) => InPairs(pairs, c)
  }

  lemma {:induction false} InByIndex(s: seq<nat>, c: nat)
    requires |s| % 2 == 0
    ensures InPoints(s, c) <==> exists k :: 0 <= k < |s| / 2 && InInterval(s, k, c)
    decreases |s|
  {
    if s != [] {
      var t := s[2..];
      InByIndex(t, c);
      if k :| 0 <= k < |t| / 2 && InInterval(t, k, c) {
        assert InInterval(s, k + 1, c);
      }
      if k :| 0 <= k < |s| / 2 && InInterval(s, k, c) {
        if k == 0 {
          assert s[0] <= c < s[1];
        } else {
          assert InInterval(t, k - 1, c);
        }
      }
      if s[0] <= c < s[1] {
        assert InInterval(s, 0, c);
      }
    }
  }

  predicate InInterval(s: seq<nat>, k: nat, c: nat)
    requires 2 * k + 1 < |s|
  {
    s[2 * k] <= c < s[2 * k + 1]
  }

  /** The operands an opcode gets are in order. */
  lemma DenotesOrdered(op: RangeOp, s: seq<nat>)
    requires Canonical(s) && Denotes(op, s)
    ensures !op.Char32? ==> Ordered(op.pairs) && 0 < |op.pairs|
  {
    hide Pairs16, Pairs32;
    if op.Range? {
      Pairs16Ordered(s);
    } else if op.Range32? {
      Pairs32Ordered(s);
    }
  }

  lemma Pairs16Ordered(s: seq<nat>)
    requires Canonical(s) && s != []
    requires (if s[|s| - 1] == Max32 then s[|s| - 2] else s[|s| - 1]) <= 0xffff
    ensures Ordered(Pairs16(s)) && 0 < |Pairs16(s)|
  {
    Small(s);
    forall k, m | 0 <= k < m < |s| / 2
      ensures Pairs16(s)[k].1 < Pairs16(s)[m].0
    {
      assert s[2 * k + 1] < s[2 * m];
    }
  }

  lemma Pairs32Ordered(s: seq<nat>)
    requires Canonical(s) && s != []
    ensures Ordered(Pairs32(s)) && 0 < |Pairs32(s)|
  {
    forall k | 0 <= k < |s| / 2
      ensures s[2 * k] < s[2 * k + 1] && Pairs32(s)[k].1 == s[2 * k + 1] - 1
    {
    }
    forall k, m | 0 <= k < m < |s| / 2
      ensures Pairs32(s)[k].1 < Pairs32(s)[m].0
    {
      assert s[2 * k + 1] < s[2 * m];
    }
  }

  /** Points written as 16-bit operands lose nothing. */
  lemma Small(s: seq<nat>)
    requires Canonical(s) && s != []
    requires (if s[|s| - 1] == Max32 then s[|s| - 2] else s[|s| - 1]) <= 0xffff
    ensures forall k :: 0 <= k < |s| - 1 ==> s[k] <= 0xffff
    ensures forall k :: 0 <= k < |s| / 2 ==> Pairs16(s)[k].0 == s[2 * k]
    ensures forall k :: 0 <= k < |s| / 2 ==> Pairs16(s)[k].1 == if s[2 * k + 1] == Max32 then 0xffff else s[2 * k + 1] - 1
  {
    assert forall k :: 0 <= k < |s| - 1 ==> s[k] <= s[|s| - 2];
  }

  /** The opcode written for a set accepts exactly its members. */
  lemma RangeOpIsSet(op: RangeOp, s: seq<nat>, c: nat)
    requires Canonical(s) && Denotes(op, s) && c < Max32
    ensures Accepted(op, c) <==> InPoints(s, c)
  {
    InByIndex(s, c);
    if op.Range? {
      Small(s);
      Range16IsSet(s, c);
    } else if op.Range32? {
      Range32IsSet(s, c);
    }
  }

  lemma Range32IsSet(s: seq<nat>, c: nat)
    requires Canonical(s)
    ensures InPairs(Pairs32(s), c) <==> exists k :: 0 <= k < |s| / 2 && InInterval(s, k, c)
  {
    var pairs := Pairs32(s);
    if k :| 0 <= k < |pairs| && pairs[k].0 <= c <= pairs[k].1 {
      assert InInterval(s, k, c);
    }
    if k :| 0 <= k < |s| / 2 && InInterval(s, k, c) {
      assert pairs[k].0 <= c <= pairs[k].1;
    }
  }

  lemma Accepted16InSet(s: seq<nat>, c: nat)
    requires Canonical(s) && s != [] && c < Max32
    requires (if s[|s| - 1] == Max32 then s[|s| - 2] else s[|s| - 1]) <= 0xffff
    requires Accepted(Range(Pairs16(s)), c)
    ensures exists k :: 0 <= k < |s| / 2 && InInterval(s, k, c)
  {
    Small(s);
    var pairs, last := Pairs16(s), |s| / 2 - 1;
    if k :| 0 <= k < |pairs| && pairs[k].0 <= c <= pairs[k].1 {
      assert InInterval(s, k, c);
    } else {
      assert InInterval(s, last, c);
    }
  }

  lemma InSetAccepted16(s: seq<nat>, c: nat, k: nat)
    requires Canonical(s) && s != [] && c < Max32
    requires (if s[|s| - 1] == Max32 then s[|s| - 2] else s[|s| - 1]) <= 0xffff
    requires k < |s| / 2 && InInterval(s, k, c)
    ensures Accepted(Range(Pairs16(s)), c)
  {
    Small(s);
    var pairs, last := Pairs16(s), |s| / 2 - 1;
    if s[2 * k + 1] == Max32 {
      assert k == last;
      assert c <= 0xffff ==> pairs[k].0 <= c <= pairs[k].1;
    } else {
      assert pairs[k].0 <= c <= pairs[k].1;
    }
  }

  lemma Range16IsSet(s: seq<nat>, c: nat)
    requires Canonical(s) && s != [] && c < Max32
    requires (if s[|s| - 1] == Max32 then s[|s| - 2] else s[|s| - 1]) <= 0xffff
    ensures Accepted(Range(Pairs16(s)), c) <==> exists k :: 0 <= k < |s| / 2 && InInterval(s, k, c)
  {
    hide Accepted, InInterval, Pairs16;
    if Accepted(Range(Pairs16(s)), c) {
      Accepted16InSet(s, c);
    }
    forall k | 0 <= k < |s| / 2 && InInterval(s, k, c)
      ensures Accepted(Range(Pairs16(s)), c)
    {
      InSetAccepted16(s, c, k);
    }
  }
}
