/**
 From residues back to integers (limb_to_ntt and ntt_to_limb of qjs/libbf.c): reduction of digits,
 the Chinese remainder theorem in mixed radix, and the exact coefficients.
 */
module NttRecombine {
  import opened Limbs
  import opened Bits
  import opened RoundingTheory
  import opened RadixConversion
  import opened NttArithmetic
  import opened NttTheory
  import opened NttTransform
  import opened NttProduct
  import opened NttSplit
  import opened NttRoots

  // ---- digits to residues ----

  const Two63: int := 0x8000_0000_0000_0000

  /** limb_to_ntt: a digit of up to 188 bits modulo m, in one or two reductions. */
  method ReduceDigit(a: int, dpl: nat, m: int) returns (r: Limb)
    requires IsModulus(m) && 1 <= dpl <= 188 && 0 <= a < Two(dpl)
    ensures r < m && Cong(r, a, m)
  {
    hide Cong, Two;
    var mInv := ModInverse(m);
    if dpl <= 64 + 61 {
      DigitBound(dpl, 125);
      r := ModFast(a, m, mInv);
    } else {
      DigitBound(dpl, 188);
      var high, low := a / Two63, a % Two63;
      assert 0 <= high < B * ModMin;
      r := ModFast(high, m, mInv);
      var b := r * Two63 + low;
      Shifted(r, high, low, a, m);
      r := ModFast(b, m, mInv);
      CongTrans(r, b, a, m);
    }
  }

  lemma DigitBound(dpl: nat, w: nat)
    requires dpl <= w && (w == 125 || w == 188)
    ensures Two(dpl) <= (if w == 125 then B * ModMin else Two63 * (B * ModMin))
  {
    hide Two;
    TwoMono(dpl, w);
    LimbIsTwo64();
    SmallTwos();
    assert Two(61) == ModMin && Two(63) == Two63 by { Two61(); }
    TwoAdd(64, 61);
    TwoAdd(63, 125);
  }

  lemma Two61()
    ensures Two(61) == ModMin && Two(63) == Two63
  {
    SmallTwos();
    assert Two(60) == 8 * Two(57);
  }

  lemma Shifted(r: int, high: int, low: int, a: int, m: int)
    requires m > 0 && Cong(r, high, m) && a == Two63 * high + low
    ensures Cong(r * Two63 + low, a, m)
  {
    hide Cong;
    CongRefl(Two63, m);
    CongRefl(low, m);
    CongMul(r, high, Two63, Two63, m);
    CongAdd(r * Two63, high * Two63, low, low, m);
  }

  // ---- mixed radix ----

  /** y[0] + m[0] * (y[1] + m[1] * (y[2] + ...)) */
  function Mixed(y: seq<int>, ms: seq<int>): int
    requires |y| == |ms|
  {
    if y == [] then 0 else y[0] + ms[0] * Mixed(y[1..], ms[1..])
  }

  lemma {:induction false} ProductSnoc(ms: seq<int>, m: int)
    ensures ProductOf(ms + [m]) == ProductOf(ms) * m
    decreases |ms|
  {
    if ms == [] {
      assert [m][1..] == [];
      assert ms + [m] == [m];
    } else {
      ProductSnoc(ms[1..], m);
      assert (ms + [m])[1..] == ms[1..] + [m];
      RadixConversion.Assoc(ms[0], ProductOf(ms[1..]), m);
    }
  }

  lemma {:induction false} MixedConcat(y: seq<int>, ms: seq<int>, z: seq<int>, ns: seq<int>)
    requires |y| == |ms| && |z| == |ns|
    ensures Mixed(y + z, ms + ns) == Mixed(y, ms) + ProductOf(ms) * Mixed(z, ns)
    decreases |y|
  {
    if y == [] {
      assert y + z == z && ms + ns == ns;
    } else {
      assert (y + z)[1..] == y[1..] + z && (ms + ns)[1..] == ms[1..] + ns;
      MixedConcat(y[1..], ms[1..], z, ns);
      Distribute(ms[0], Mixed(y[1..], ms[1..]), ProductOf(ms[1..]) * Mixed(z, ns));
      RadixConversion.Assoc(ms[0], ProductOf(ms[1..]), Mixed(z, ns));
    }
  }

  lemma MixedNext(y: seq<int>, ms: seq<int>, k: nat)
    requires |y| == |ms| && k < |y|
    ensures Mixed(y[..k + 1], ms[..k + 1]) == Mixed(y[..k], ms[..k]) + ProductOf(ms[..k]) * y[k]
    ensures ProductOf(ms[..k + 1]) == ProductOf(ms[..k]) * ms[k]
  {
    assert y[..k + 1] == y[..k] + [y[k]] && ms[..k + 1] == ms[..k] + [ms[k]];
    MixedConcat(y[..k], ms[..k], [y[k]], [ms[k]]);
    assert Mixed([y[k]], [ms[k]]) == y[k] by { assert [y[k]][1..] == []; }
    ProductSnoc(ms[..k], ms[k]);
  }

  lemma {:induction false} MixedRange(y: seq<int>, ms: seq<int>)
    requires |y| == |ms| && forall k :: 0 <= k < |y| ==> 0 <= y[k] < ms[k]
    ensures 0 <= Mixed(y, ms) < ProductOf(ms)
    decreases |y|
  {
    if y != [] {
      MixedRange(y[1..], ms[1..]);
      RadixConversion.Scale(ms[0], Mixed(y[1..], ms[1..]), ProductOf(ms[1..]));
    }
  }

  /** The whole number agrees with its first digits modulo their last radix. */
  lemma MixedPrefix(y: seq<int>, ms: seq<int>, k: nat)
    requires |y| == |ms| && k < |y| && ms[k] > 0
    ensures Cong(Mixed(y, ms), Mixed(y[..k + 1], ms[..k + 1]), ms[k])
  {
    hide Mixed, ProductOf, Cong;
    assert y == y[..k + 1] + y[k + 1..] && ms == ms[..k + 1] + ms[k + 1..];
    MixedConcat(y[..k + 1], ms[..k + 1], y[k + 1..], ms[k + 1..]);
    MixedNext(y, ms, k);
    var p, t := ProductOf(ms[..k]), Mixed(y[k + 1..], ms[k + 1..]);
    assert (p * ms[k]) * t == ms[k] * (p * t) by { RadixConversion.Assoc(ms[k], p, t); Commute(p, ms[k]); }
    CongIntro(Mixed(y, ms), Mixed(y[..k + 1], ms[..k + 1]), ms[k], p * t);
  }

  // ---- the Chinese remainder theorem ----

  /** inv(j, k) is the inverse of the j-th prime modulo the k-th. */
  ghost predicate Inverses(ms: seq<int>, cr: seq<seq<Limb>>) {
    && |cr| == |ms|
    && (forall k :: 0 <= k < |ms| ==> IsModulus(ms[k]))
    && (forall j, k :: 0 <= j < k < |ms| ==> ms[j] < ms[k])
    && forall j, k :: 0 <= j < k < |ms| ==> InverseAt(ms, cr, j, k)
  }

  ghost predicate InverseAt(ms: seq<int>, cr: seq<seq<Limb>>, j: nat, k: nat)
    requires j < k < |ms| == |cr|
  {
    |cr[j]| == |ms| && ms[k] > 0 && cr[j][k] < ms[k] && Cong(cr[j][k] * ms[j], 1, ms[k])
  }

  /** The residues so far: digits before j are final, those from j on belong to what is left. */
  ghost predicate Reduced(y: seq<Limb>, ms: seq<int>, res: seq<Limb>, j: nat, k: nat)
    requires |y| == |ms| == |res| && k < |ms| && j <= |ms| && ms[k] > 0
  {
    var i := if k < j then k else j;
    Cong(ProductOf(ms[..i]) * y[k] + Mixed(y[..i], ms[..i]), res[k], ms[k])
  }

  /** Taking one digit out: y' = (y - d) / m_j modulo m. */
  lemma TakeOut(p: int, y: int, d: int, y': int, v: int, mj: int, q: int, res: int, m: int)
    requires m > 0 && Cong(p * y + q, res, m) && Cong(y', (y - d + m) * v, m) && Cong(v * mj, 1, m)
    ensures Cong((p * mj) * y' + (q + p * d), res, m)
  {
    hide Cong;
    var z := y - d + m;
    CongRefl(p * mj, m);
    CongMul(p * mj, p * mj, y', z * v, m);
    assert (p * mj) * (z * v) == (p * z) * (v * mj) by { Rearrange(p, mj, z, v); }
    CongRefl(p * z, m);
    CongMul(p * z, p * z, v * mj, 1, m);
    CongTrans((p * mj) * y', (p * z) * (v * mj), p * z, m);
    assert p * z + (q + p * d) == p * y + q + m * p by { assert p * (y - d + m) == p * y - p * d + m * p; }
    CongIntro(p * y + q + m * p, p * y + q, m, p);
    CongRefl(q + p * d, m);
    CongAdd((p * mj) * y', p * z, q + p * d, q + p * d, m);
    CongTrans((p * mj) * y' + (q + p * d), p * y + q + m * p, p * y + q, m);
    CongTrans((p * mj) * y' + (q + p * d), p * y + q, res, m);
  }

  lemma Rearrange(p: int, mj: int, z: int, v: int)
    ensures (p * mj) * (z * v) == (p * z) * (v * mj)
  {
    Swap(p, mj, z, v);
    assert mj * v == v * mj;
  }

  /** One turn of the inner loop of the Chinese remainder step. */
  lemma ReducedStep(y: seq<Limb>, y': seq<Limb>, ms: seq<int>, cr: seq<seq<Limb>>, res: seq<Limb>, j: nat, k: nat, v: Limb)
    requires |y| == |ms| == |res| && j < k < |ms| && Inverses(ms, cr) && Reduced(y, ms, res, j, k)
    requires |cr[j]| == |ms| && |y'| == |y| && y'[..k] == y[..k] && y'[k] == v && Cong(v, (y[k] - y[j] + ms[k]) * cr[j][k], ms[k])
    ensures Reduced(y', ms, res, j + 1, k)
  {
    hide Cong, Inverses;
    InverseFact(ms, cr, j, k);
    MixedNext(y', ms, j);
    assert y'[..j] == y'[..k][..j] == y[..k][..j] == y[..j];
    assert y'[j] == y'[..k][j] == y[..k][j] == y[j];
    TakeOut(ProductOf(ms[..j]), y[k], y[j], v, cr[j][k], ms[j], Mixed(y[..j], ms[..j]), res[k], ms[k]);
  }

  lemma InverseFact(ms: seq<int>, cr: seq<seq<Limb>>, j: nat, k: nat)
    requires Inverses(ms, cr) && j < k < |ms|
    ensures |cr| == |ms| && |cr[j]| == |ms| && IsModulus(ms[k]) && IsModulus(ms[j]) && ms[j] < ms[k]
    ensures cr[j][k] < ms[k] && Cong(cr[j][k] * ms[j], 1, ms[k])
  {
    assert InverseAt(ms, cr, j, k);
  }

  /** ntt_to_limb: residues to mixed-radix digits. */
  method Garner(ms: seq<int>, cr: seq<seq<Limb>>, res: seq<Limb>) returns (y: seq<Limb>)
    requires |ms| == |res| >= 1 && Inverses(ms, cr) && forall k :: 0 <= k < |ms| ==> res[k] < ms[k]
    ensures |y| == |ms| && forall k :: 0 <= k < |ms| ==> y[k] < ms[k]
    ensures forall k :: 0 <= k < |ms| ==> ms[k] > 0 && Cong(Mixed(y, ms), res[k], ms[k])
  {
    hide Cong, Mixed, ProductOf;
    var nb := |ms|;
    y := res;
    ReducedStart(res, ms);
    for j := 0 to nb - 1
      invariant |y| == nb && forall k :: 0 <= k < nb ==> y[k] < ms[k]
      invariant forall k :: 0 <= k < nb ==> Reduced(y, ms, res, j, k)
    {
      ghost var j1 := j + 1;
      forall i | 0 <= i <= j
        ensures Reduced(y, ms, res, j1, i)
      {
        ReducedNext(y, ms, res, j, i);
      }
      for k := j + 1 to nb
        invariant |y| == nb && forall i :: 0 <= i < nb ==> y[i] < ms[i]
        invariant forall i :: 0 <= i < k ==> Reduced(y, ms, res, j1, i)
        invariant forall i :: k <= i < nb ==> Reduced(y, ms, res, j, i)
      {
        InverseFact(ms, cr, j, k);
        var m := ms[k];
        var d: Limb := WrapAdd(WrapSub(y[k], y[j]), m);
        assert d == B * 0 + y[k] - y[j] + m;
        var v := MulModFast2(d, cr[j][k], m, ConstInverse(cr[j][k], m));
        var y' := y[k := v];
        ReducedStep(y, y', ms, cr, res, j, k, v);
        OthersReduced(y, y', ms, res, j, j1, k);
        y := y';
      }
    }
    forall k | 0 <= k < nb
      ensures Cong(Mixed(y, ms), res[k], ms[k])
    {
      MixedNext(y, ms, k);
      MixedPrefix(y, ms, k);
      ReducedEnd(y, ms, res, nb - 1, k);
      CongTrans(Mixed(y, ms), Mixed(y[..k + 1], ms[..k + 1]), res[k], ms[k]);
    }
  }

  lemma ReducedNext(y: seq<Limb>, ms: seq<int>, res: seq<Limb>, j: nat, i: nat)
    requires |y| == |ms| == |res| && i <= j < |ms| && ms[i] > 0 && Reduced(y, ms, res, j, i)
    ensures Reduced(y, ms, res, j + 1, i)
  {
  }

  lemma ReducedStart(res: seq<Limb>, ms: seq<int>)
    requires |res| == |ms| && forall k :: 0 <= k < |ms| ==> res[k] < ms[k]
    ensures forall k :: 0 <= k < |ms| ==> Reduced(res, ms, res, 0, k)
  {
    forall k | 0 <= k < |ms|
      ensures Reduced(res, ms, res, 0, k)
    {
      assert ms[..0] == [] && res[..0] == [];
      CongRefl(res[k], ms[k]);
    }
  }

  /** Changing the k-th digit does not touch what is known of the others. */
  lemma OthersReduced(y: seq<Limb>, y': seq<Limb>, ms: seq<int>, res: seq<Limb>, j: nat, j1: nat, k: nat)
    requires |y| == |ms| == |res| == |y'| && j1 == j + 1 && j < k < |ms| && (forall i :: 0 <= i < |ms| ==> ms[i] > 0)
    requires forall i :: 0 <= i < |y| && i != k ==> y'[i] == y[i]
    ensures forall i :: 0 <= i < k && Reduced(y, ms, res, j1, i) ==> Reduced(y', ms, res, j1, i)
    ensures forall i :: k < i < |ms| && Reduced(y, ms, res, j, i) ==> Reduced(y', ms, res, j, i)
  {
    hide Cong, Mixed, ProductOf;
    forall i | 0 <= i < k && Reduced(y, ms, res, j1, i)
      ensures Reduced(y', ms, res, j1, i)
    {
      var c := if i < j1 then i else j1;
      assert y'[..c] == y[..c];
    }
    forall i | k < i < |ms| && Reduced(y, ms, res, j, i)
      ensures Reduced(y', ms, res, j, i)
    {
      assert y'[..j] == y[..j];
    }
  }

  lemma ReducedEnd(y: seq<Limb>, ms: seq<int>, res: seq<Limb>, j: nat, k: nat)
    requires |y| == |ms| == |res| && k < |ms| && j == |ms| - 1 && ms[k] > 0 && Reduced(y, ms, res, j, k)
    ensures Cong(ProductOf(ms[..k]) * y[k] + Mixed(y[..k], ms[..k]), res[k], ms[k])
  {
  }

  /** A number below the product of the primes is determined by its residues. */
  lemma ResiduesDetermine(a: int, b: int, ms: seq<int>, cr: seq<seq<Limb>>)
    requires Inverses(ms, cr) && 0 <= a < ProductOf(ms) && 0 <= b < ProductOf(ms)
    requires forall k :: 0 <= k < |ms| ==> ms[k] > 0 && Cong(a, b, ms[k])
    ensures a == b
  {
    hide Inverses;
    assert forall k :: 0 <= k < |ms| ==> Cong(a - b, 0, ms[k]);
    var t := Divisible(a - b, ms, cr, |ms|);
    assert ms[..|ms|] == ms;
    Vanishes(a, b, ProductOf(ms), t);
  }

  lemma Vanishes(a: int, b: int, p: int, t: int)
    requires 0 <= a < p && 0 <= b < p && a - b == p * t
    ensures a == b
  {
    if t >= 1 {
      MulMono(p, 1, t);
    } else if t <= -1 {
      MulMono(p, t, -1);
    }
  }

  lemma {:induction false} Divisible(d: int, ms: seq<int>, cr: seq<seq<Limb>>, j: nat) returns (t: int)
    requires Inverses(ms, cr) && j <= |ms| && forall k :: 0 <= k < |ms| ==> ms[k] > 0 && Cong(d, 0, ms[k])
    ensures d == ProductOf(ms[..j]) * t
    decreases j
  {
    hide Cong, Inverses;
    if j == 0 {
      assert ms[..0] == [];
      t := d;
    } else {
      var s := Divisible(d, ms, cr, j - 1);
      var p, m := ProductOf(ms[..j - 1]), ms[j - 1];
      var v := ProductInverse(ms, cr, j - 1, j - 1);
      // v * p = 1 modulo m, so s = v * d = 0 modulo m.
      CongRefl(s, m);
      CongMul(v * p, 1, s, s, m);
      CongRefl(v, m);
      CongMul(v, v, d, 0, m);
      assert (v * p) * s == v * d by { RadixConversion.Assoc(v, p, s); }
      CongSym((v * p) * s, 1 * s, m);
      CongTrans(s, v * d, v * 0, m);
      t := CongElim(s, 0, m);
      assert ms[..j] == ms[..j - 1] + [m];
      ProductSnoc(ms[..j - 1], m);
      RadixConversion.Assoc(p, m, t);
    }
  }

  /** The product of the first i primes has an inverse modulo a later one. */
  lemma {:induction false} ProductInverse(ms: seq<int>, cr: seq<seq<Limb>>, i: nat, k: nat) returns (v: int)
    requires Inverses(ms, cr) && i <= k < |ms| && ms[k] > 0
    ensures Cong(v * ProductOf(ms[..i]), 1, ms[k])
    decreases i
  {
    hide Cong, Inverses;
    if i == 0 {
      assert ms[..0] == [];
      v := 1;
      CongRefl(1, ms[k]);
    } else {
      var u := ProductInverse(ms, cr, i - 1, k);
      InverseFact(ms, cr, i - 1, k);
      var p, m, c := ProductOf(ms[..i - 1]), ms[i - 1], cr[i - 1][k];
      v := u * c;
      assert ms[..i] == ms[..i - 1] + [m];
      ProductSnoc(ms[..i - 1], m);
      CongMul(u * p, 1, c * m, 1, ms[k]);
      assert (u * c) * (p * m) == (u * p) * (c * m) by { Swap(u, c, p, m); }
    }
  }

  // ---- the constants ----

  /** ntt_mods_cr, by rows: the entry for (j, k) is the inverse of the j-th prime modulo the k-th. */
  const Crs: seq<seq<Limb>> := [
    [0, 0x08a9ed097b425eea, 0x18a44aaaaaaaaab3, 0x2493f57f57f57f5d, 0x126b8d0649a7f8d4],
    [0, 0, 0x09d80ed7303b5ccc, 0x25b8bcf3cf3cf3d5, 0x2ce6ce63398ce638],
    [0, 0, 0, 0x0e31fad40a57eb59, 0x02a3529fd4a7f52f],
    [0, 0, 0, 0, 0x3a5493e93e93e94a],
    [0, 0, 0, 0, 0]]

  /** The tables of the source satisfy what the Chinese remainder step needs. */
  lemma ConstantsRight()
    ensures Inverses(Mods, Crs)
  {
    hide Cong;
    CongIntro(Crs[0][1] * Mods[0], 1, Mods[1], 0x851ed097b425ee9);
    CongIntro(Crs[0][2] * Mods[0], 1, Mods[2], 0x157c4aaaaaaaaab2);
    CongIntro(Crs[0][3] * Mods[0], 1, Mods[3], 0x1c2bf57f57f57f5c);
    CongIntro(Crs[0][4] * Mods[0], 1, Mods[4], 0xcd38d0649a7f8d3);
    CongIntro(Crs[1][2] * Mods[1], 1, Mods[2], 0x8f00ed7303b5ccb);
    CongIntro(Crs[1][3] * Mods[1], 1, Mods[3], 0x1e40bcf3cf3cf3d4);
    CongIntro(Crs[1][4] * Mods[1], 1, Mods[4], 0x208ece63398ce637);
    CongIntro(Crs[2][3] * Mods[2], 1, Mods[3], 0xc89fad40a57eb58);
    CongIntro(Crs[2][4] * Mods[2], 1, Mods[4], 0x21b529fd4a7f52e);
    CongIntro(Crs[3][4] * Mods[3], 1, Mods[4], 0x34bc93e93e93e949);
    forall j, k | 0 <= j < k < 5
      ensures InverseAt(Mods, Crs, j, k)
    {
    }
  }

  /** The table for the primes from the o-th on. */
  function SubRows(cr: seq<seq<Limb>>, o: nat): (r: seq<seq<Limb>>)
    requires o <= |cr|
    ensures |r| == |cr| - o && forall j :: o <= j < |cr| && o <= |cr[j]| ==> r[j - o] == cr[j][o..]
  {
    seq(|cr| - o, j requires 0 <= j < |cr| - o => if o <= |cr[o + j]| then cr[o + j][o..] else [])
  }

  /** The part of the table for the nb largest primes. */
  function CrsFor(nb: nat): seq<seq<Limb>>
    requires 3 <= nb <= 5
  {
    SubRows(Crs, 5 - nb)
  }

  lemma InversesFor(nb: nat)
    requires 3 <= nb <= 5
    ensures Inverses(ModsFor(nb), CrsFor(nb))
  {
    hide Cong, Inverses, Crs, Mods;
    ConstantsRight();
    TableSize();
    SubTable(Mods, Crs, 5 - nb);
  }

  lemma TableSize()
    ensures |Mods| == 5 && |Crs| == 5
  {
  }

  /** The tables for the primes from the o-th on serve them. */
  lemma SubTable(ms: seq<int>, cr: seq<seq<Limb>>, o: nat)
    requires Inverses(ms, cr) && o < |ms| - 1
    ensures Inverses(ms[o..], SubRows(cr, o))
  {
    hide Cong;
    var ms', cr' := ms[o..], SubRows(cr, o);
    forall j, k | 0 <= j < k < |ms'|
      ensures InverseAt(ms', cr', j, k)
    {
      var a, b := o + j, o + k;
      assert InverseAt(ms, cr, a, b);
      assert cr'[a - o] == cr[a][o..];
    }
  }

  // ---- one prime ----

  lemma {:induction false} PolyMulCong(x: seq<int>, y: seq<int>, x': seq<int>, y': seq<int>, m: int)
    requires m > 0 && AllCong(x, x', m) && AllCong(y, y', m)
    ensures AllCong(PolyMul(x, y), PolyMul(x', y'), m)
    decreases |x|
  {
    hide Cong;
    if x == [] {
      CongRefl(0, m);
    } else {
      PolyMulCong(x[1..], y, x'[1..], y', m);
      var p, q := [0] + PolyMul(x[1..], y), [0] + PolyMul(x'[1..], y');
      var a, b := y + Zeros(|x|), y' + Zeros(|x|);
      CongRefl(0, m);
      forall i | 0 <= i < |p|
        ensures Cong(p[i] + x[0] * a[i], q[i] + x'[0] * b[i], m)
      {
        CongMul(x[0], x'[0], a[i], b[i], m);
        CongAdd(p[i], q[i], x[0] * a[i], x'[0] * b[i], m);
      }
    }
  }

  lemma CyclicCong(x: seq<int>, y: seq<int>, x': seq<int>, y': seq<int>, m: int)
    requires m > 0 && |x| == |y| && AllCong(x, x', m) && AllCong(y, y', m)
    ensures AllCong(Cyclic(x, y), Cyclic(x', y'), m)
  {
    hide Cong, PolyMul;
    PolyMulCong(x, y, x', y', m);
    var n, p, q := |x|, PolyMul(x, y), PolyMul(x', y');
    forall i | 0 <= i < n
      ensures Cong(p[..n][i] + 1 * p[n..][i], q[..n][i] + 1 * q[n..][i], m)
    {
      CongAdd(p[i], q[i], p[n + i], q[n + i], m);
    }
  }

  /** limb_to_ntt for one prime: the digits reduced, with zeros up to the length of the transform. */
  method Residues(x: seq<int>, dpl: nat, n: nat, m: int) returns (buf: array<Limb>)
    requires IsModulus(m) && 1 <= dpl <= 188 && |x| <= n && Digits(x, Two(dpl))
    ensures fresh(buf) && buf.Length == n && Small(buf[..], m) && AllCong(buf[..], x + Zeros(n - |x|), m)
  {
    hide Cong, Two;
    buf := new Limb[n](_ => 0);
    CongRefl(0, m);
    for i := 0 to |x|
      invariant forall k :: 0 <= k < i ==> buf[k] < m && Cong(buf[k], x[k], m)
      invariant forall k :: i <= k < n ==> buf[k] == 0
    {
      buf[i] := ReduceDigit(x[i], dpl, m);
    }
  }

  /** The convolution of two rows of digits modulo the i-th prime, fully reduced. */
  method ConvolveModulus(x: seq<int>, y: seq<int>, dpl: nat, k: nat, i: nat) returns (c: seq<Limb>)
    requires i < 5 && 1 <= dpl <= 188 && 1 <= k <= ProotLog && |x| <= Two(k) && |y| <= Two(k)
    requires Digits(x, Two(dpl)) && Digits(y, Two(dpl))
    ensures |c| == Two(k) && Mods[i] > 0 && (forall j :: 0 <= j < |c| ==> c[j] < Mods[i])
    ensures AllCong(c, Cyclic(x + Zeros(Two(k) - |x|), y + Zeros(Two(k) - |y|)), Mods[i])
  {
    hide Cong, Power, Two, Root, Roots, Cyclic;
    ProotsInverse(i);
    RootOrders(i);
    var m, n := Mods[i], Two(k);
    var table := RootTable(Proots[i], m);
    var inverses := RootTable(InverseProots[i], m);
    ghost var w, u := Power(Proots[i], Two(ProotLog - k)), Power(InverseProots[i], Two(ProotLog - k));
    PairFor(table, inverses, Proots[i], InverseProots[i], k, m);
    var norm := LengthInverse(k, m);
    var buf1 := Residues(x, dpl, n, m);
    var buf2 := Residues(y, dpl, n, m);
    ghost var a, b := buf1[..], buf2[..];
    assert |table| == ProotLog + 1 && |inverses| == ProotLog + 1 by { TableLengths(table, inverses, Proots[i], InverseProots[i], m); }
    NttConv(buf1, buf2, k, table[..k + 1], inverses[..k + 1], norm, m, w, u);
    CyclicCong(a, b, x + Zeros(n - |x|), y + Zeros(n - |y|), m);
    ghost var target := Cyclic(x + Zeros(n - |x|), y + Zeros(n - |y|));
    ghost var got := buf1[..];
    c := [];
    for j := 0 to n
      invariant |c| == j && buf1[..] == got
      invariant forall t :: 0 <= t < j ==> c[t] < m && Cong(c[t], target[t], m)
    {
      var v := buf1[j];
      Normed(v, norm, Two(k), Cyclic(a, b)[j], target[j], m);
      if v >= m {
        CongIntro(v - m, v, m, -1);
        CongTrans(v - m, v, target[j], m);
        v := v - m;
      }
      c := c + [v];
    }
  }

  /** The factor cancels the length. */
  lemma Normed(v: int, norm: int, n: int, c: int, d: int, m: int)
    requires m > 0 && Cong(v, (norm * n) * c, m) && Cong(norm * n, 1, m) && Cong(c, d, m)
    ensures Cong(v, d, m)
  {
    CongMul(norm * n, 1, c, d, m);
    CongTrans(v, (norm * n) * c, d, m);
  }

  lemma TableLengths(t1: seq<Limb>, t2: seq<Limb>, p: int, q: int, m: int)
    requires m > 0 && Roots(t1, p, ProotLog, m) && Roots(t2, q, ProotLog, m)
    ensures |t1| == ProotLog + 1 && |t2| == ProotLog + 1
  {
  }

  lemma PairFor(table: seq<Limb>, inverses: seq<Limb>, p: int, q: int, k: nat, m: int)
    requires m > 0 && 1 <= k <= ProotLog && Roots(table, p, ProotLog, m) && Roots(inverses, q, ProotLog, m)
    requires Root(p, ProotLog, m) && Cong(p * q, 1, m)
    ensures |table| > k && |inverses| > k
    ensures RootPair(table[..k + 1], inverses[..k + 1], Power(p, Two(ProotLog - k)), Power(q, Two(ProotLog - k)), k, m)
  {
    hide Cong, Power, Two, Root, Roots;
    TableLengths(table, inverses, p, q, m);
    var e := Two(ProotLog - k);
    RootsFor(table, p, ProotLog, k, m);
    RootsFor(inverses, q, ProotLog, k, m);
    InverseRoot(p, q, ProotLog, m);
    RootAt(p, ProotLog, k, m);
    RootAt(q, ProotLog, k, m);
    PowerProduct(p, q, e);
    PowerCong(p * q, 1, e, m);
    PowerOne(e);
  }

  lemma InverseRoot(w: int, u: int, l: nat, m: int)
    requires m > 0 && l >= 1 && Root(w, l, m) && Cong(w * u, 1, m)
    ensures Root(u, l, m)
  {
    InverseHalf(w, u, l, m);
  }

  // ---- all primes ----

  /** The mixed-radix digits of a coefficient, out of its residues modulo the primes in use. */
  method MixedDigits(nb: nat, res: seq<Limb>, ghost c: int) returns (y: seq<Limb>)
    requires 3 <= nb <= 5 && |res| == nb && 0 <= c < ProductOf(ModsFor(nb))
    requires forall k :: 0 <= k < nb ==> ModsFor(nb)[k] > 0 && res[k] < ModsFor(nb)[k] && Cong(res[k], c, ModsFor(nb)[k])
    ensures |y| == |ModsFor(nb)| == nb && Mixed(y, ModsFor(nb)) == c
  {
    hide Cong, ProductOf, ModsFor, Inverses, Mixed;
    var ms := ModsFor(nb);
    InversesFor(nb);
    assert |ms| == nb by { SameSize(nb); }
    y := Garner(ms, CrsFor(nb), res);
    MixedRange(y, ms);
    forall k | 0 <= k < nb
      ensures Cong(Mixed(y, ms), c, ms[k])
    {
      CongTrans(Mixed(y, ms), res[k], c, ms[k]);
    }
    ResiduesDetermine(Mixed(y, ms), c, ms, CrsFor(nb));
  }

  lemma SameSize(nb: nat)
    requires 3 <= nb <= 5
    ensures |ModsFor(nb)| == nb
  {
  }

  /** The coefficients a transform of length n works out: the cyclic convolution of the padded rows. */
  ghost function Coefficients(x: seq<int>, y: seq<int>, n: nat): (c: seq<int>)
    requires |x| <= n && |y| <= n
    ensures |c| == n
  {
    Cyclic(x + Zeros(n - |x|), y + Zeros(n - |y|))
  }

  /** With a size that fits they are in range, and make up the product. */
  lemma CoefficientsExact(x: seq<int>, y: seq<int>, z: FftSize, len: nat)
    requires Fits(z, len) && 1 <= z.log && Digits(x, Two(z.dpl)) && Digits(y, Two(z.dpl))
    requires |x| <= Two(z.log) && |y| <= Two(z.log) && |x| + |y| <= Two(z.log) + 1
    ensures var c := Coefficients(x, y, Two(z.log));
            && Value(c, Two(z.dpl)) == Value(x, Two(z.dpl)) * Value(y, Two(z.dpl))
            && forall j :: 0 <= j < |c| ==> 0 <= c[j] < ProductOf(ModsFor(z.nbMods))
  {
    hide Cong, Two, Value, Cyclic, ModsFor, ProductOf, Power, PolyMul;
    var n := Two(z.log);
    var c := Coefficients(x, y, n);
    forall j | 0 <= j < n
      ensures 0 <= c[j] < ProductOf(ModsFor(z.nbMods))
    {
      CoefficientRange(x, y, z, len, j);
    }
    ExactProduct(x, y, n, Two(z.dpl));
  }

  /** The coefficients of the product of two rows of digits, modulo each prime. */
  method Convolve(x: seq<int>, y: seq<int>, z: FftSize, ghost len: nat) returns (rows: seq<seq<Limb>>)
    requires Fits(z, len) && 1 <= z.log && Digits(x, Two(z.dpl)) && Digits(y, Two(z.dpl))
    requires |x| <= Two(z.log) && |y| <= Two(z.log)
    ensures |rows| == |ModsFor(z.nbMods)| == z.nbMods
    ensures forall r :: 0 <= r < |rows| ==> RowOf(rows[r], Coefficients(x, y, Two(z.log)), ModsFor(z.nbMods)[r])
  {
    hide Cong, Two, Value, Cyclic, ModsFor, ProductOf, Power, PolyMul, RowOf;
    var n, nb := Two(z.log), z.nbMods;
    ghost var c := Coefficients(x, y, n);
    SameSize(nb);
    rows := [];
    for i := 0 to nb
      invariant |rows| == i && forall r :: 0 <= r < i ==> RowOf(rows[r], c, ModsFor(nb)[r])
    {
      var row := ConvolveModulus(x, y, z.dpl, z.log, 5 - nb + i);
      ModAt(nb, i);
      assert RowOf(row, c, ModsFor(nb)[i]) by { RowIntro(row, c, ModsFor(nb)[i]); }
      rows := rows + [row];
    }
  }

  lemma RowIntro(row: seq<Limb>, c: seq<int>, m: int)
    requires m > 0 && AllCong(row, c, m) && forall j :: 0 <= j < |row| ==> row[j] < m
    ensures RowOf(row, c, m)
  {
  }

  ghost predicate RowOf(row: seq<Limb>, conv: seq<int>, m: int) {
    m > 0 && |row| == |conv| && forall j :: 0 <= j < |row| ==> row[j] < m && Cong(row[j], conv[j], m)
  }

  lemma RowAt(row: seq<Limb>, conv: seq<int>, m: int, j: nat)
    requires RowOf(row, conv, m) && j < |conv|
    ensures m > 0 && |row| == |conv| && row[j] < m && Cong(row[j], conv[j], m)
  {
  }

  lemma ModAt(nb: nat, i: nat)
    requires 3 <= nb <= 5 && i < nb
    ensures |ModsFor(nb)| == nb && ModsFor(nb)[i] == Mods[5 - nb + i]
  {
  }

  /** Every coefficient of the convolution is below the product of the primes. */
  lemma CoefficientRange(x: seq<int>, y: seq<int>, z: FftSize, len: nat, j: nat)
    requires Fits(z, len) && Digits(x, Two(z.dpl)) && Digits(y, Two(z.dpl)) && j < Two(z.log)
    requires |x| <= Two(z.log) && |y| <= Two(z.log) && |x| + |y| <= Two(z.log) + 1
    ensures var n := Two(z.log);
            0 <= Cyclic(x + Zeros(n - |x|), y + Zeros(n - |y|))[j] < ProductOf(ModsFor(z.nbMods))
  {
    hide Two, PolyMul, ProductOf, Digits, Cyclic, IntBits;
    NoWrapAround(x, y, Two(z.log));
    IntBitsRight(z.nbMods);
    if j < |x| + |y| {
      CoefficientsFit(x, y, z, len, j);
    }
  }

  lemma ExactProduct(x: seq<int>, y: seq<int>, n: nat, b: int)
    requires |x| <= n && |y| <= n && |x| + |y| <= n + 1 && n >= 1
    ensures Value(Cyclic(x + Zeros(n - |x|), y + Zeros(n - |y|)), b) == Value(x, b) * Value(y, b)
  {
    hide PolyMul, Cyclic, Value;
    var c, p := Cyclic(x + Zeros(n - |x|), y + Zeros(n - |y|)), PolyMul(x, y);
    NoWrapAround(x, y, n);
    if |p| == n + 1 {
      TopIsZero(x, y);
    }
    EvalExtended(p, c, b);
    EvalPolyMul(x, y, b);
  }
}
