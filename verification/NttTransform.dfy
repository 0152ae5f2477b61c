/**
 ntt_fft of qjs/libbf.c: Stockham passes between two buffers, entries kept below twice the
 modulus, computing the transform of the input.
 */
module NttTransform {
  import opened Limbs
  import opened Bits
  import opened RoundingTheory
  import opened RadixConversion
  import opened NttArithmetic
  import opened NttTheory

  // ---- what a pass computes ----

  /** Column q of the buffer read as n rows of s entries. */
  ghost function Column(cur: seq<int>, q: nat, s: nat, n: nat): (r: seq<int>)
    requires s * n == |cur| && q < s
    ensures |r| == n
  {
    seq(n, i requires 0 <= i < n => Entry(cur, q, s, i))
  }

  ghost function Entry(cur: seq<int>, q: nat, s: nat, i: nat): int {
    if 0 <= q + s * i < |cur| then cur[q + s * i] else 0
  }

  lemma EntryIs(cur: seq<int>, q: nat, s: nat, n: nat, i: nat)
    requires s * n == |cur| && q < s && i < n
    ensures 0 <= q + s * i < |cur| && Entry(cur, q, s, i) == cur[q + s * i]
  {
    MulMono(s, i + 1, n);
    MulMono(s, 0, i);
    assert s * (i + 1) == s * i + s;
  }

  /** The column's own transform at k is the whole transform at q + s * k. */
  ghost predicate At(cur: seq<int>, x: seq<int>, w: int, s: nat, n: nat, m: int, q: nat, k: nat)
    requires m > 0 && s * n == |cur| && q < s
  {
    q + s * k >= 0 && Cong(Value(Column(cur, q, s, n), Power(Power(w, s), k)), Value(x, Power(w, q + s * k)), m)
  }

  /** After the passes up to stride s, every column is on its way to its part of the transform of x. */
  ghost predicate Represents(cur: seq<int>, x: seq<int>, w: int, s: nat, n: nat, m: int)
    requires m > 0
  {
    s * n == |cur| && forall q: nat, k: nat :: q < s && k < n ==> At(cur, x, w, s, n, m, q, k)
  }

  /** The two outputs of one butterfly, and their range. */
  ghost predicate Butterfly(cur: seq<int>, out: seq<int>, c: int, k: nat, p: nat, s: nat, m: int, j: nat)
    requires m > 0
  {
    var h := |cur| / 2;
    && k + j + h < |cur| && p + j + s < |out|
    && 0 <= out[p + j] < 2 * m && Cong(out[p + j], cur[k + j] + cur[k + j + h], m)
    && 0 <= out[p + j + s] < 2 * m && Cong(out[p + j + s], (cur[k + j] - cur[k + j + h]) * c, m)
  }

  ghost predicate Block(cur: seq<int>, out: seq<int>, c: int, s: nat, m: int, i: nat)
    requires m > 0
  {
    forall j: nat :: j < s ==> Butterfly(cur, out, c, s * i, 2 * s * i, s, m, j)
  }

  /** A whole pass with stride s over n = 2 * |c| rows. */
  ghost predicate Passed(cur: seq<int>, out: seq<int>, c: seq<int>, s: nat, m: int)
    requires m > 0
  {
    |out| == |cur| && forall i :: 0 <= i < |c| ==> Block(cur, out, c[i], s, m, i)
  }

  ghost predicate Small(x: seq<int>, m: int) {
    forall k :: 0 <= k < |x| ==> 0 <= x[k] < 2 * m
  }

  lemma BlockAt(cur: seq<int>, out: seq<int>, c: seq<int>, s: nat, m: int, i: nat, j: nat)
    requires m > 0 && Passed(cur, out, c, s, m) && i < |c| && j < s
    ensures Butterfly(cur, out, c[i], s * i, 2 * s * i, s, m, j)
  {
    assert Block(cur, out, c[i], s, m, i);
  }

  // ---- a pass keeps the transform ----

  lemma OutputColumns(cur: seq<int>, out: seq<int>, c: seq<int>, s: nat, h: nat, m: int, q: nat)
    requires m > 0 && s * (2 * h) == |cur| && Passed(cur, out, c, s, m) && |c| == h && q < s
    ensures (2 * s) * h == |out|
    ensures var x := Column(cur, q, s, 2 * h);
            && AllCong(Column(out, q, 2 * s, h), Combine(x[..h], 1, x[h..]), m)
            && forall i :: 0 <= i < h ==> Cong(Column(out, q + s, 2 * s, h)[i], (x[i] - x[h + i]) * c[i], m)
  {
    hide Cong, Passed, Butterfly;
    Doubled(s, h);
    assert |out| == |cur| by { PassedLength(cur, out, c, s, m); }
    var x := Column(cur, q, s, 2 * h);
    forall i | 0 <= i < h
      ensures Cong(Column(out, q, 2 * s, h)[i], x[i] + 1 * x[h + i], m)
      ensures Cong(Column(out, q + s, 2 * s, h)[i], (x[i] - x[h + i]) * c[i], m)
    {
      OutputEntry(cur, out, c, s, h, m, q, i);
    }
  }

  lemma Doubled(s: int, h: int)
    ensures (2 * s) * h == s * (2 * h)
  {
  }

  lemma PassedLength(cur: seq<int>, out: seq<int>, c: seq<int>, s: nat, m: int)
    requires m > 0 && Passed(cur, out, c, s, m)
    ensures |out| == |cur|
  {
  }

  lemma OutputEntry(cur: seq<int>, out: seq<int>, c: seq<int>, s: nat, h: nat, m: int, q: nat, i: nat)
    requires m > 0 && s * (2 * h) == |cur| && (2 * s) * h == |out| && Passed(cur, out, c, s, m) && |c| == h && q < s && i < h
    ensures Cong(Entry(out, q, 2 * s, i), Entry(cur, q, s, i) + 1 * Entry(cur, q, s, h + i), m)
    ensures Cong(Entry(out, q + s, 2 * s, i), (Entry(cur, q, s, i) - Entry(cur, q, s, h + i)) * c[i], m)
  {
    hide Cong, Passed, Entry;
    BlockAt(cur, out, c, s, m, i, q);
    EntryIs(cur, q, s, 2 * h, i);
    EntryIs(cur, q, s, 2 * h, h + i);
    EntryIs(out, q, 2 * s, h, i);
    EntryIs(out, q + s, 2 * s, h, i);
    Halves(s, h, i);
  }

  lemma Halves(s: int, h: int, i: int)
    ensures s * (h + i) == s * h + s * i && (s * (2 * h)) / 2 == s * h
  {
    assert s * (2 * h) == 2 * (s * h);
  }

  /** The factors of a pass are the powers of its root. */
  ghost predicate Factors(c: seq<int>, w: int, m: int)
    requires m > 0
  {
    forall i :: 0 <= i < |c| ==> Cong(c[i], Power(w, i), m)
  }

  lemma PassKeeps(cur: seq<int>, out: seq<int>, c: seq<int>, x: seq<int>, w: int, s: nat, l: nat, m: int)
    requires m > 0 && l >= 1 && s >= 1 && Represents(cur, x, w, s, Two(l), m) && Passed(cur, out, c, s, m) && |c| == Two(l - 1)
    requires Factors(c, Power(w, s), m) && Root(Power(w, s), l, m)
    ensures Represents(out, x, w, 2 * s, Two(l - 1), m)
  {
    hide Cong, Power, Value, Root, Factors, Passed;
    var h := Two(l - 1);
    assert Two(l) == 2 * h;
    OutputColumns(cur, out, c, s, h, m, 0);
    forall q: nat, k: nat | q < 2 * s && k < h
      ensures At(out, x, w, 2 * s, h, m, q, k)
    {
      if q < s {
        EvenColumn(cur, out, c, x, w, s, l, m, q, k);
      } else {
        OddColumn(cur, out, c, x, w, s, l, m, q - s, k);
      }
    }
  }

  lemma EvenColumn(cur: seq<int>, out: seq<int>, c: seq<int>, x: seq<int>, w: int, s: nat, l: nat, m: int, q: nat, k: nat)
    requires m > 0 && l >= 1 && s >= 1 && Represents(cur, x, w, s, Two(l), m) && Passed(cur, out, c, s, m) && |c| == Two(l - 1)
    requires Root(Power(w, s), l, m) && q < s && k < Two(l - 1)
    ensures (2 * s) * Two(l - 1) == |out| && At(out, x, w, 2 * s, Two(l - 1), m, q, k)
  {
    hide Cong, Power, Value, Root, Passed, Combine, Column, At, Represents;
    var h, r := Two(l - 1), Power(w, s);
    RepresentsAt(cur, x, w, s, 2 * h, m, q, 2 * k);
    var col := Column(cur, q, s, 2 * h);
    OutputColumns(cur, out, c, s, h, m, q);
    Halving(col, r, l, k, m);
    Exponents(q, s, k);
    var z, f := Power(r * r, k), Value(x, Power(w, q + 2 * s * k));
    ColumnDone(Column(out, q, 2 * s, h), Combine(col[..h], 1, col[h..]), col, z, Power(r, 2 * k), f, m);
    AtIntro(out, x, w, s, h, m, q, k);
  }

  lemma Exponents(q: int, s: int, k: int)
    ensures q + s * (2 * k) == q + 2 * s * k && q + s * (2 * k + 1) == q + s + 2 * s * k
  {
  }

  lemma RepresentsAt(cur: seq<int>, x: seq<int>, w: int, s: nat, n: nat, m: int, q: nat, k: nat)
    requires m > 0 && Represents(cur, x, w, s, n, m) && q < s && k < n
    ensures s * n == |cur| && q + s * k >= 0
    ensures Cong(Value(Column(cur, q, s, n), Power(Power(w, s), k)), Value(x, Power(w, q + s * k)), m)
  {
    hide Cong, Value, Power, Column;
    assert At(cur, x, w, s, n, m, q, k);
  }

  lemma AtIntro(out: seq<int>, x: seq<int>, w: int, s: nat, h: nat, m: int, q: nat, k: nat)
    requires m > 0 && (2 * s) * h == |out| && q < 2 * s && q + 2 * s * k >= 0
    requires Cong(Value(Column(out, q, 2 * s, h), Power(Power(w, s) * Power(w, s), k)), Value(x, Power(w, q + 2 * s * k)), m)
    ensures At(out, x, w, 2 * s, h, m, q, k)
  {
    hide Cong, Value, Power, Column;
    PowerAdd(w, s, s);
    assert s + s == 2 * s;
  }

  lemma ColumnDone(o: seq<int>, y: seq<int>, col: seq<int>, z: int, z0: int, f: int, m: int)
    requires m > 0 && AllCong(o, y, m) && Cong(Value(col, z0), Value(y, z), m) && Cong(Value(col, z0), f, m)
    ensures Cong(Value(o, z), f, m)
  {
    hide Cong, Value;
    EvalCong(o, y, z, m);
    CongSym(Value(col, z0), Value(y, z), m);
    CongTrans(Value(o, z), Value(y, z), Value(col, z0), m);
    CongTrans(Value(o, z), Value(col, z0), f, m);
  }

  lemma OddColumn(cur: seq<int>, out: seq<int>, c: seq<int>, x: seq<int>, w: int, s: nat, l: nat, m: int, q: nat, k: nat)
    requires m > 0 && l >= 1 && s >= 1 && Represents(cur, x, w, s, Two(l), m) && Passed(cur, out, c, s, m) && |c| == Two(l - 1)
    requires Factors(c, Power(w, s), m) && Root(Power(w, s), l, m) && q < s && k < Two(l - 1)
    ensures (2 * s) * Two(l - 1) == |out| && At(out, x, w, 2 * s, Two(l - 1), m, q + s, k)
  {
    hide Cong, Power, Value, Root, Passed, Combine, Twisted, Column, At, Represents, Factors;
    var h, r := Two(l - 1), Power(w, s);
    RepresentsAt(cur, x, w, s, 2 * h, m, q, 2 * k + 1);
    var col := Column(cur, q, s, 2 * h);
    OutputColumns(cur, out, c, s, h, m, q);
    Halving(col, r, l, k, m);
    Exponents(q, s, k);
    var z, f := Power(r * r, k), Value(x, Power(w, q + s + 2 * s * k));
    TwistedColumn(Column(out, q + s, 2 * s, h), col, c, r, h, m);
    ColumnDone(Column(out, q + s, 2 * s, h), Twisted(Combine(col[..h], -1, col[h..]), r), col, z, Power(r, 2 * k + 1), f, m);
    AtIntro(out, x, w, s, h, m, q + s, k);
  }

  lemma TwistedColumn(o: seq<int>, col: seq<int>, c: seq<int>, r: int, h: nat, m: int)
    requires m > 0 && |o| == |c| == h && |col| == 2 * h && Factors(c, r, m)
    requires forall i :: 0 <= i < h ==> Cong(o[i], (col[i] - col[h + i]) * c[i], m)
    ensures AllCong(o, Twisted(Combine(col[..h], -1, col[h..]), r), m)
  {
    hide Cong, Power;
    var y := Combine(col[..h], -1, col[h..]);
    forall i | 0 <= i < h
      ensures Cong(o[i], y[i] * Power(r, i), m)
    {
      assert y[i] == col[i] - col[h + i];
      CongRefl(y[i], m);
      CongMul(y[i], y[i], c[i], Power(r, i), m);
      CongTrans(o[i], y[i] * c[i], y[i] * Power(r, i), m);
    }
  }

  // ---- the beginning and the end ----

  lemma Started(x: seq<int>, w: int, m: int)
    requires m > 0
    ensures Represents(x, x, w, 1, |x|, m)
  {
    hide Cong, Value;
    forall q: nat, k: nat | q < 1 && k < |x|
      ensures At(x, x, w, 1, |x|, m, q, k)
    {
      assert Column(x, q, 1, |x|) == x;
      assert Power(w, 1) == w by { assert Power(w, 1) == w * Power(w, 0); }
      CongRefl(Value(x, Power(w, k)), m);
    }
  }

  lemma Finished(cur: seq<int>, x: seq<int>, w: int, m: int, k: nat)
    requires m > 0 && k < |cur| && Represents(cur, x, w, |cur|, 1, m)
    ensures Cong(cur[k], Value(x, Power(w, k)), m)
  {
    hide Cong;
    assert At(cur, x, w, |cur|, 1, m, k, 0);
    assert Column(cur, k, |cur|, 1) == [cur[k]];
    ValueOne(cur[k], Power(Power(w, |cur|), 0));
  }

  // ---- tables ----

  /** v is floor(c * 2^64 / m). */
  ghost predicate IsScaled(c: Limb, v: Limb, m: int) {
    c < m && v * m <= c * B < v * m + m
  }

  /** get_trig: the powers of a root and their scaled inverses. */
  method GetTrig(l: nat, cMul: Limb, m: int) returns (c: array<Limb>, cInv: array<Limb>)
    requires l >= 1 && IsModulus(m) && cMul < m
    ensures fresh(c) && fresh(cInv) && c.Length == cInv.Length == Two(l - 1) && Factors(c[..], cMul, m)
    ensures forall i :: 0 <= i < c.Length ==> IsScaled(c[i], cInv[i], m)
  {
    hide Cong, Power, Two;
    var n2 := Two(l - 1);
    c, cInv := new Limb[n2], new Limb[n2];
    var cMulInv := ConstInverse(cMul, m);
    var f: Limb := 1;
    assert Cong(f, Power(cMul, 0), m) by { FirstPower(cMul, m); }
    for i := 0 to n2
      invariant f < m && Cong(f, Power(cMul, i), m)
      invariant forall k :: 0 <= k < i ==> IsScaled(c[k], cInv[k], m)
      invariant forall k :: 0 <= k < i ==> Cong(c[k], Power(cMul, k), m)
    {
      c[i] := f;
      cInv[i] := ConstInverse(f, m);
      var g := MulModFast2(f, cMul, m, cMulInv);
      NextPower(g, f, cMul, i, m);
      f := g;
    }
  }

  lemma FirstPower(c: int, m: int)
    requires m > 0
    ensures Cong(1, Power(c, 0), m)
  {
    CongRefl(1, m);
  }

  lemma NextPower(g: int, f: int, c: int, i: nat, m: int)
    requires m > 0 && Cong(g, f * c, m) && Cong(f, Power(c, i), m)
    ensures Cong(g, Power(c, i + 1), m)
  {
    hide Cong;
    CongRefl(c, m);
    CongMul(f, Power(c, i), c, c, m);
    assert Power(c, i + 1) == Power(c, i) * c;
    CongTrans(g, f * c, Power(c, i + 1), m);
  }

  // ---- the loops ----

  /** The inner loop: one block of butterflies with the same factor. */
  method BlockLoop(tabOut: array<Limb>, tabIn: array<Limb>, k: nat, p: nat, s: nat, c: Limb, cInv: Limb, m: int)
    requires tabOut != tabIn && tabOut.Length == tabIn.Length && IsModulus(m) && Small(tabIn[..], m)
    requires k + s + tabIn.Length / 2 <= tabIn.Length && p + 2 * s <= tabOut.Length
    requires IsScaled(c, cInv, m)
    modifies tabOut
    ensures forall j: nat :: j < s ==> Butterfly(tabIn[..], tabOut[..], c, k, p, s, m, j)
    ensures forall t :: 0 <= t < tabOut.Length && !(p <= t < p + 2 * s) ==> tabOut[t] == old(tabOut[t])
    ensures forall t :: p <= t < p + 2 * s ==> tabOut[t] < 2 * m
  {
    hide Cong;
    var m2 := 2 * m;
    var strideIn := tabIn.Length / 2;
    ghost var cur := tabIn[..];
    for j := 0 to s
      invariant forall j': nat :: j' < j ==> Butterfly(cur, tabOut[..], c, k, p, s, m, j')
      invariant forall t :: 0 <= t < tabOut.Length && !(p <= t < p + 2 * s) ==> tabOut[t] == old(tabOut[t])
      invariant forall t :: p <= t < p + j || p + s <= t < p + s + j ==> tabOut[t] < 2 * m
    {
      var a0, a1 := tabIn[k + j], tabIn[k + j + strideIn];
      assert cur[k + j] < m2 && cur[k + j + strideIn] < m2;
      var b0 := AddMod(a0, a1, m2);
      Halve(b0, B * 0 + a0 + a1, m);
      var b1 := WrapAdd(WrapSub(a0, a1), m2);
      assert b1 == B * 0 + a0 - a1 + m2;
      var b1' := MulModFast3(b1, c, m, cInv);
      TwistedDifference(b1', B * 0 + a0 - a1, c, m);
      ghost var was := tabOut[..];
      tabOut[p + j] := b0;
      tabOut[p + j + s] := b1';
      ButterfliesKept(cur, was, tabOut[..], c, k, p, s, m, j);
      assert Butterfly(cur, tabOut[..], c, k, p, s, m, j);
    }
  }

  lemma Halve(x: int, y: int, m: int)
    requires m > 0 && Cong(x, y, 2 * m)
    ensures Cong(x, y, m)
  {
    var t := CongElim(x, y, 2 * m);
    assert (2 * m) * t == m * (2 * t);
    CongIntro(x, y, m, 2 * t);
  }

  lemma TwistedDifference(x: int, d: int, c: int, m: int)
    requires m > 0 && Cong(x, (d + 2 * m) * c, m)
    ensures Cong(x, d * c, m)
  {
    assert (d + 2 * m) * c - d * c == m * (2 * c);
    CongIntro((d + 2 * m) * c, d * c, m, 2 * c);
    CongTrans(x, (d + 2 * m) * c, d * c, m);
  }

  lemma ButterfliesKept(cur: seq<int>, was: seq<int>, now: seq<int>, c: int, k: nat, p: nat, s: nat, m: int, j: nat)
    requires m > 0 && |was| == |now| && j < s && p + j + s < |was|
    requires forall t :: 0 <= t < |was| && t != p + j && t != p + j + s ==> was[t] == now[t]
    requires forall j': nat :: j' < j ==> Butterfly(cur, was, c, k, p, s, m, j')
    ensures forall j': nat :: j' < j ==> Butterfly(cur, now, c, k, p, s, m, j')
  {
    hide Cong;
    forall j': nat | j' < j
      ensures Butterfly(cur, now, c, k, p, s, m, j')
    {
      assert Butterfly(cur, was, c, k, p, s, m, j');
    }
  }

  lemma BlockKept(cur: seq<int>, was: seq<int>, now: seq<int>, c: int, s: nat, m: int, i: nat, p: nat)
    requires m > 0 && |was| == |now| && Block(cur, was, c, s, m, i) && 2 * s * i + 2 * s <= p
    requires forall t :: 0 <= t < |was| && t < p ==> was[t] == now[t]
    ensures Block(cur, now, c, s, m, i)
  {
    hide Cong;
    forall j: nat | j < s
      ensures Butterfly(cur, now, c, s * i, 2 * s * i, s, m, j)
    {
      assert Butterfly(cur, was, c, s * i, 2 * s * i, s, m, j);
    }
  }

  lemma BlockPlaces(s: nat, i: nat, nb: nat)
    requires i < nb
    ensures s * i + s + s * nb <= 2 * (s * nb) && 2 * s * i + 2 * s <= 2 * (s * nb)
    ensures s * (i + 1) == s * i + s && 2 * s * (i + 1) == 2 * s * i + 2 * s
  {
    MulMono(s, i + 1, nb);
    assert s * (i + 1) == s * i + s;
    assert 2 * s * i == 2 * (s * i) && 2 * s * (i + 1) == 2 * (s * (i + 1));
  }

  /** One pass over all blocks. */
  method Pass(tabOut: array<Limb>, tabIn: array<Limb>, s: nat, nb: nat, c: array<Limb>, cInv: array<Limb>, m: int)
    requires tabOut != tabIn && c != tabOut && cInv != tabOut && tabOut.Length == tabIn.Length == 2 * (s * nb)
    requires IsModulus(m) && Small(tabIn[..], m) && c.Length == cInv.Length == nb
    requires forall i :: 0 <= i < nb ==> IsScaled(c[i], cInv[i], m)
    modifies tabOut
    ensures Passed(tabIn[..], tabOut[..], c[..], s, m) && Small(tabOut[..], m)
  {
    hide Cong, Block, IsScaled, Butterfly;
    ghost var cur, cs := tabIn[..], c[..];
    var k, p := 0, 0;
    for i := 0 to nb
      invariant k == s * i && p == 2 * s * i && p <= tabOut.Length
      invariant forall i' :: 0 <= i' < i ==> Block(cur, tabOut[..], cs[i'], s, m, i')
      invariant forall t :: 0 <= t < p ==> tabOut[t] < 2 * m
    {
      BlockPlaces(s, i, nb);
      ghost var was := tabOut[..];
      BlockLoop(tabOut, tabIn, k, p, s, c[i], cInv[i], m);
      forall i' | 0 <= i' < i
        ensures Block(cur, tabOut[..], cs[i'], s, m, i')
      {
        BlockBelow(s, i', i);
        BlockKept(cur, was, tabOut[..], cs[i'], s, m, i', p);
      }
      assert tabIn[..] == cur;
      BlockIntro(cur, tabOut[..], c[i], s, m, i);
      k := k + s;
      p := p + 2 * s;
    }
    assert 2 * s * nb == 2 * (s * nb);
  }

  lemma BlockIntro(cur: seq<int>, out: seq<int>, c: int, s: nat, m: int, i: nat)
    requires m > 0 && forall j: nat :: j < s ==> Butterfly(cur, out, c, s * i, 2 * s * i, s, m, j)
    ensures Block(cur, out, c, s, m, i)
  {
  }

  lemma BlockBelow(s: nat, i': nat, i: nat)
    requires i' < i
    ensures 2 * s * i' + 2 * s <= 2 * s * i
  {
    MulMono(2 * s, i' + 1, i);
    assert 2 * s * (i' + 1) == 2 * s * i' + 2 * s;
  }

  /** The last pass, which has no factors and may work in place. */
  method LastPass(outBuf: array<Limb>, tabIn: array<Limb>, m: int)
    requires outBuf.Length == tabIn.Length && tabIn.Length % 2 == 0 && IsModulus(m) && Small(tabIn[..], m)
    modifies outBuf
    ensures Passed(old(tabIn[..]), outBuf[..], [1], tabIn.Length / 2, m) && Small(outBuf[..], m)
  {
    hide Cong;
    var m2, s := 2 * m, tabIn.Length / 2;
    ghost var cur := tabIn[..];
    for k := 0 to s
      invariant forall j: nat :: j < k ==> Butterfly(cur, outBuf[..], 1, 0, 0, s, m, j)
      invariant forall t :: k <= t < s || k + s <= t < 2 * s ==> tabIn[t] == cur[t]
      invariant forall t :: 0 <= t < k || s <= t < s + k ==> outBuf[t] < 2 * m
    {
      var a0, a1 := tabIn[k], tabIn[k + s];
      assert a0 == cur[k] && a1 == cur[k + s];
      var b0 := AddMod(a0, a1, m2);
      Halve(b0, B * 0 + a0 + a1, m);
      var b1 := SubMod(a0, a1, m2);
      Halve(b1, B * 0 + a0 - a1, m);
      ghost var was := outBuf[..];
      outBuf[k] := b0;
      outBuf[k + s] := b1;
      ButterfliesKept(cur, was, outBuf[..], 1, 0, 0, s, m, k);
      assert Butterfly(cur, outBuf[..], 1, 0, 0, s, m, k);
    }
    assert Block(cur, outBuf[..], 1, s, m, 0) by { assert s * 0 == 0 && 2 * s * 0 == 0; }
  }

  /** The root of the transform of length 2^l inside one of length 2^k. */
  lemma RootAt(w: int, k: nat, l: nat, m: int)
    requires m > 0 && 1 <= l <= k && Root(w, k, m)
    ensures Root(Power(w, Two(k - l)), l, m)
  {
    PowerMul(w, Two(k - l), Two(l - 1));
    TwoAdd(k - l, l - 1);
  }

  lemma FactorsOf(c: seq<int>, r: int, w: int, m: int)
    requires m > 0 && Factors(c, r, m) && Cong(r, w, m)
    ensures Factors(c, w, m)
  {
    hide Cong, Power;
    forall i | 0 <= i < |c|
      ensures Cong(c[i], Power(w, i), m)
    {
      PowerCong(r, w, i, m);
      CongTrans(c[i], Power(r, i), Power(w, i), m);
    }
  }

  /** The roots of every order, as ntt_static_init prepares them. */
  ghost predicate Roots(roots: seq<Limb>, w: int, k: nat, m: int)
    requires m > 0
  {
    |roots| == k + 1 && forall l :: 1 <= l <= k ==> roots[l] < m && Cong(roots[l], Power(w, Two(k - l)), m)
  }

  lemma RootOfLevel(roots: seq<Limb>, w: int, k: nat, m: int, l: nat)
    requires m > 0 && Roots(roots, w, k, m) && 1 <= l <= k
    ensures l < |roots| && roots[l] < m && Cong(roots[l], Power(w, Two(k - l)), m)
  {
  }

  /** ntt_fft: on return outBuf holds the transform of the input, each entry below 2m. */
  method NttFft(outBuf: array<Limb>, inBuf: array<Limb>, tmpBuf: array<Limb>, k: nat, roots: seq<Limb>, m: int, ghost w: int)
    requires k >= 1 && IsModulus(m) && Root(w, k, m) && Roots(roots, w, k, m)
    requires outBuf.Length == inBuf.Length == tmpBuf.Length == Two(k) && tmpBuf != inBuf && tmpBuf != outBuf
    requires Small(inBuf[..], m)
    modifies outBuf, inBuf, tmpBuf
    ensures Small(outBuf[..], m)
    ensures forall j :: 0 <= j < Two(k) ==> Cong(outBuf[j], Value(old(inBuf[..]), Power(w, j)), m)
  {
    hide Cong, Power, Value, Root, Roots, Represents, Passed, Two;
    ghost var x := inBuf[..];
    var n := Two(k);
    var nbBlocks, fftPerBlock := n, 1;
    var tabIn, tabOut := inBuf, tmpBuf;
    var l := k;
    Started(x, w, m);
    assert fftPerBlock == Two(k - l) by { TwoZero(); }
    while nbBlocks != 2
      invariant 1 <= l <= k && nbBlocks == Two(l) && fftPerBlock == Two(k - l)
      invariant (tabIn == inBuf && tabOut == tmpBuf) || (tabIn == tmpBuf && tabOut == inBuf)
      invariant Small(tabIn[..], m) && Represents(tabIn[..], x, w, fftPerBlock, nbBlocks, m)
      decreases l
    {
      LevelSizes(k, l);
      nbBlocks := nbBlocks / 2;
      RootOfLevel(roots, w, k, m, l);
      var c, cInv := GetTrig(l, roots[l], m);
      ghost var cur := tabIn[..];
      Pass(tabOut, tabIn, fftPerBlock, nbBlocks, c, cInv, m);
      FactorsOf(c[..], roots[l], Power(w, fftPerBlock), m);
      RootAt(w, k, l, m);
      PassKeeps(cur, tabOut[..], c[..], x, w, fftPerBlock, l, m);
      fftPerBlock := fftPerBlock * 2;
      l := l - 1;
      tabIn, tabOut := tabOut, tabIn;
    }
    LevelSizes(k, l);
    assert l == 1 by { LevelOne(l); }
    ghost var cur := tabIn[..];
    LastPass(outBuf, tabIn, m);
    RootAt(w, k, 1, m);
    UnitFactor(Power(w, fftPerBlock), m);
    TwoZero();
    PassKeeps(cur, outBuf[..], [1], x, w, fftPerBlock, 1, m);
    forall j | 0 <= j < n
      ensures Cong(outBuf[j], Value(x, Power(w, j)), m)
    {
      Finished(outBuf[..], x, w, m, j);
    }
  }

  lemma LevelSizes(k: nat, l: nat)
    requires 1 <= l <= k
    ensures Two(l) == 2 * Two(l - 1) && Two(k - l + 1) == 2 * Two(k - l) && Two(k) == 2 * (Two(k - l) * Two(l - 1))
  {
    TwoAdd(k - l, l);
    assert Two(k - l) * (2 * Two(l - 1)) == 2 * (Two(k - l) * Two(l - 1));
  }

  lemma LevelOne(l: nat)
    requires l >= 1 && Two(l) == 2
    ensures l == 1
  {
    assert Two(l) == 2 * Two(l - 1);
  }

  lemma UnitFactor(r: int, m: int)
    requires m > 0
    ensures Factors([1], r, m)
  {
    FirstPower(r, m);
  }
}
