/**
 Multiplication through the number-theoretic transform (qjs/libbf.c): transform, multiply,
 transform back, for several primes; the size chosen makes the result exact.
 */
module NttProduct {
  import opened Limbs
  import opened Bits
  import opened RoundingTheory
  import opened RadixConversion
  import opened NttArithmetic
  import opened NttTheory
  import opened NttTransform

  // ---- tables ----

  /** NTT_PROOT_2EXP and NTT_TRIG_K_MAX */
  const ProotLog: nat := 51
  const TrigMax: nat := 19

  /** mul_mod_fast with the stored inverse of the modulus. */
  function MulMod(a: Limb, b: Limb, m: int): (x: Limb)
    requires IsModulus(m) && a < m && b < m
    ensures x < m && Cong(x, a * b, m)
  {
    MulModFast(a, b, m, ModInverse(m))
  }

  /** ntt_static_init: the roots of orders 2^1 to 2^51, by repeated squaring. */
  method RootTable(proot: Limb, m: int) returns (roots: seq<Limb>)
    requires IsModulus(m) && proot < m
    ensures Roots(roots, proot, ProotLog, m)
  {
    hide Cong, Power, Two;
    var tab := new Limb[ProotLog + 1](_ => 0);
    var c: Limb := proot;
    assert Cong(c, Power(proot, Two(0)), m) by { FirstRoot(proot, m); }
    for i := 0 to ProotLog
      invariant c < m && Cong(c, Power(proot, Two(i)), m)
      invariant forall l :: ProotLog - i < l <= ProotLog ==> tab[l] < m && Cong(tab[l], Power(proot, Two(ProotLog - l)), m)
    {
      tab[ProotLog - i] := c;
      var d := MulMod(c, c, m);
      Squared(d, c, proot, i, m);
      c := d;
    }
    roots := tab[..];
  }

  lemma FirstRoot(c: int, m: int)
    requires m > 0
    ensures Cong(c, Power(c, Two(0)), m)
  {
    assert Power(c, 1) == c * Power(c, 0);
    CongRefl(c, m);
  }

  lemma Squared(d: int, c: int, p: int, i: nat, m: int)
    requires m > 0 && Cong(d, c * c, m) && Cong(c, Power(p, Two(i)), m)
    ensures Cong(d, Power(p, Two(i + 1)), m)
  {
    hide Cong;
    var q := Power(p, Two(i));
    CongMul(c, q, c, q, m);
    PowerAdd(p, Two(i), Two(i));
    CongTrans(d, c * c, q * q, m);
  }

  /** The roots for a transform of length 2^k out of the table for 2^n. */
  lemma RootsFor(roots: seq<Limb>, p: int, n: nat, k: nat, m: int)
    requires m > 0 && k <= n && Roots(roots, p, n, m)
    ensures Roots(roots[..k + 1], Power(p, Two(n - k)), k, m)
  {
    hide Cong, Power, Two;
    var w := Power(p, Two(n - k));
    forall l | 1 <= l <= k
      ensures Cong(roots[l], Power(w, Two(k - l)), m)
    {
      PowerMul(p, Two(n - k), Two(k - l));
      TwoAdd(n - k, k - l);
    }
  }

  /** ntt_static_init: 2^-k modulo m, as the k-th power of (m + 1) / 2. */
  method LengthInverse(k: nat, m: int) returns (norm: Limb)
    requires IsModulus(m) && m % 2 == 1
    ensures norm < m && Cong(norm * Two(k), 1, m)
  {
    hide Cong, Two;
    var half: Limb := (m + 1) / 2;
    assert 2 * half == m + 1;
    norm := 1;
    assert Cong(norm * Two(0), 1, m) by { UnitInverse(m); }
    for i := 0 to k
      invariant norm < m && Cong(norm * Two(i), 1, m)
    {
      var next := MulMod(norm, half, m);
      HalvedInverse(next, norm, half, i, m);
      norm := next;
    }
  }

  lemma UnitInverse(m: int)
    requires m > 0
    ensures Cong(1 * Two(0), 1, m)
  {
    CongRefl(1, m);
  }

  lemma HalvedInverse(x: int, c: int, half: int, i: nat, m: int)
    requires m > 0 && 2 * half == m + 1 && Cong(x, c * half, m) && Cong(c * Two(i), 1, m)
    ensures Cong(x * Two(i + 1), 1, m)
  {
    hide Cong;
    var t := Two(i);
    CongRefl(2 * t, m);
    CongMul(x, c * half, 2 * t, 2 * t, m);
    assert (c * half) * (2 * t) == (c * t) * (m + 1) by {
      assert (c * half) * (2 * t) == (c * t) * (2 * half) by { HalfSwap(c, half, t); }
    }
    CongIntro(m + 1, 1, m, 1);
    CongMul(c * t, 1, m + 1, 1, m);
    CongTrans(x * (2 * t), (c * t) * (m + 1), 1, m);
  }

  lemma HalfSwap(c: int, h: int, t: int)
    ensures (c * h) * (2 * t) == (c * t) * (2 * h)
  {
    RadixConversion.Assoc(c, h, 2 * t);
    RadixConversion.Assoc(c, t, 2 * h);
    assert h * (2 * t) == t * (2 * h);
  }

  // ---- one modulus ----

  /** ntt_vec_mul: the entries multiplied and scaled by the inverse of the length. */
  method VecMul(tab1: array<Limb>, tab2: array<Limb>, m: int, norm: Limb)
    requires tab1 != tab2 && tab1.Length == tab2.Length && IsModulus(m) && norm < m && Small(tab1[..], m) && Small(tab2[..], m)
    modifies tab1
    ensures Small(tab1[..], m)
    ensures forall i :: 0 <= i < tab1.Length ==> Cong(tab1[i], old(tab1[i]) * tab2[i] * norm, m)
  {
    hide Cong;
    var mInv := ModInverse(m);
    var normInv := ConstInverse(norm, m);
    ghost var xs, ys := tab1[..], tab2[..];
    for i := 0 to tab1.Length
      invariant tab2[..] == ys && forall k :: i <= k < tab1.Length ==> tab1[k] == xs[k]
      invariant forall k :: 0 <= k < i ==> tab1[k] < 2 * m && Cong(tab1[k], xs[k] * ys[k] * norm, m)
    {
      assert tab1[i] == xs[i] && tab2[i] == ys[i];
      var a := tab1[i];
      if a >= m {
        a := a - m;
      }
      var p := MulModFast(a, tab2[i], m, mInv);
      var r := MulModFast3(p, norm, m, normInv);
      Multiplied(r, p, a, xs[i], ys[i], norm, m);
      tab1[i] := r;
    }
  }

  lemma Multiplied(r: int, p: int, a: int, x: int, y: int, norm: int, m: int)
    requires m > 0 && Cong(r, p * norm, m) && Cong(p, a * y, m) && (a == x || a == x - m)
    ensures Cong(r, x * y * norm, m)
  {
    hide Cong;
    CongIntro(a, x, m, if a == x then 0 else -1);
    CongRefl(y, m);
    CongRefl(norm, m);
    CongMul(a, x, y, y, m);
    CongTrans(p, a * y, x * y, m);
    CongMul(p, x * y, norm, norm, m);
    CongTrans(r, p * norm, x * y * norm, m);
  }

  /** What the scaled products are: the transform of the convolution, divided by the length. */
  lemma Products(f: seq<int>, g: seq<int>, p: seq<int>, x: seq<int>, y: seq<int>, w: int, k: nat, norm: int, m: int)
    requires m > 0 && k >= 1 && Root(w, k, m) && |f| == |g| == |p| == |x| == |y| == Two(k)
    requires forall j :: 0 <= j < |x| ==> Cong(f[j], Value(x, Power(w, j)), m)
    requires forall j :: 0 <= j < |x| ==> Cong(g[j], Value(y, Power(w, j)), m)
    requires forall j :: 0 <= j < |x| ==> Cong(p[j], f[j] * g[j] * norm, m)
    ensures AllCong(p, Combine(Zeros(|x|), norm, Dft(Cyclic(x, y), w)), m)
  {
    hide Cong, Power, Value, Cyclic, Two, Root;
    var c := Cyclic(x, y);
    var d := Dft(c, w);
    forall j | 0 <= j < |x|
      ensures Cong(p[j], 0 + norm * d[j], m)
    {
      var z := Power(w, j);
      CongMul(f[j], Value(x, z), g[j], Value(y, z), m);
      EvalCyclic(x, y, w, k, j, m);
      CongTrans(f[j] * g[j], Value(x, z) * Value(y, z), d[j], m);
      CongRefl(norm, m);
      CongMul(f[j] * g[j], d[j], norm, norm, m);
      assert d[j] * norm == norm * d[j];
      CongTrans(p[j], f[j] * g[j] * norm, d[j] * norm, m);
    }
  }

  /** Back from the transform: the coefficients themselves, times the factor and the length. */
  lemma BackToConvolution(r: int, p: seq<int>, c: seq<int>, w: int, u: int, k: nat, norm: int, j: nat, m: int)
    requires m > 0 && Root(w, k, m) && Cong(w * u, 1, m) && |p| == |c| == Two(k) && j < |c|
    requires AllCong(p, Combine(Zeros(|c|), norm, Dft(c, w)), m) && Cong(r, Value(p, Power(u, j)), m)
    ensures Cong(r, (norm * Two(k)) * c[j], m)
  {
    hide Cong, Power, Value, Two, Root;
    var z, d := Power(u, j), Dft(c, w);
    EvalCong(p, Combine(Zeros(|c|), norm, d), z, m);
    EvalCombine(Zeros(|c|), norm, d, z);
    EvalZeros(Zeros(|c|), z);
    Inversion(c, w, u, k, j, m);
    CongRefl(norm, m);
    CongMul(norm, norm, Value(d, z), Two(k) * c[j], m);
    RadixConversion.Assoc(norm, Two(k), c[j]);
    CongTrans(r, Value(p, z), norm * Value(d, z), m);
    CongTrans(r, norm * Value(d, z), (norm * Two(k)) * c[j], m);
  }

  /** The roots a transform and its inverse work with. */
  ghost predicate RootPair(roots: seq<Limb>, inverse: seq<Limb>, w: int, u: int, k: nat, m: int)
    requires m > 0
  {
    Root(w, k, m) && Root(u, k, m) && Cong(w * u, 1, m) && Roots(roots, w, k, m) && Roots(inverse, u, k, m)
  }

  /** ntt_conv without splitting: in buf1, the cyclic convolution modulo m times the factor and the length. */
  method ConvolveWhole(buf1: array<Limb>, buf2: array<Limb>, k: nat, roots: seq<Limb>, inverse: seq<Limb>, norm: Limb, m: int, ghost w: int, ghost u: int)
    requires k >= 1 && IsModulus(m) && RootPair(roots, inverse, w, u, k, m) && norm < m
    requires buf1 != buf2 && buf1.Length == buf2.Length == Two(k) && Small(buf1[..], m) && Small(buf2[..], m)
    modifies buf1, buf2
    ensures Small(buf1[..], m)
    ensures forall j :: 0 <= j < Two(k) ==> Cong(buf1[j], (norm * Two(k)) * Cyclic(old(buf1[..]), old(buf2[..]))[j], m)
  {
    hide Cong, Power, Value, Two, Root, Roots, Cyclic;
    ghost var x, y := buf1[..], buf2[..];
    var tmp := new Limb[Two(k)];
    NttFft(buf1, buf1, tmp, k, roots, m, w);
    NttFft(buf2, buf2, tmp, k, roots, m, w);
    ghost var f, g := buf1[..], buf2[..];
    VecMul(buf1, buf2, m, norm);
    ghost var p := buf1[..];
    Products(f, g, p, x, y, w, k, norm, m);
    NttFft(buf1, buf1, tmp, k, inverse, m, u);
    forall j | 0 <= j < Two(k)
      ensures Cong(buf1[j], (norm * Two(k)) * Cyclic(x, y)[j], m)
    {
      BackToConvolution(buf1[j], p, Cyclic(x, y), w, u, k, norm, j, m);
    }
  }

  // ---- the size of the transform ----

  /** ntt_mods, in increasing order */
  const Mods: seq<int> := [0x28d8000000000001, 0x2a88000000000001, 0x2ed8000000000001, 0x3508000000000001, 0x3aa8000000000001]

  /** The primes used when nb of the five are enough: the nb largest. */
  function ModsFor(nb: nat): seq<int>
    requires 3 <= nb <= 5
  {
    Mods[5 - nb..]
  }

  /** ntt_int_bits */
  function IntBits(nb: nat): nat
    requires 3 <= nb <= 5
  {
    if nb == 5 then 307 else if nb == 4 then 246 else 185
  }

  function ProductOf(s: seq<int>): int {
    if s == [] then 1 else s[0] * ProductOf(s[1..])
  }

  /** The table of bits is right: the product of the primes has at least that many. */
  lemma IntBitsRight(nb: nat)
    requires 3 <= nb <= 5
    ensures Two(IntBits(nb)) <= ProductOf(ModsFor(nb))
  {
    hide Two, ProductOf, ModsFor;
    ProductOfMods();
    BigTwos();
  }

  lemma BigTwos()
    ensures Two(185) == B * B * 0x200_0000_0000_0000
    ensures Two(246) == B * B * B * 0x40_0000_0000_0000
    ensures Two(307) == B * B * B * B * 0x8_0000_0000_0000
  {
    hide Two;
    LimbIsTwo64();
    SmallTwos();
    TwoAdd(64, 64);
    TwoAdd(128, 57);
    TwoAdd(128, 64);
    TwoAdd(192, 54);
    TwoAdd(192, 64);
    TwoAdd(256, 51);
  }

  lemma SmallTwos()
    ensures Two(51) == 0x8_0000_0000_0000 && Two(54) == 0x40_0000_0000_0000 && Two(57) == 0x200_0000_0000_0000
  {
    TwoPlus8(0);
    TwoPlus8(8);
    TwoPlus8(16);
    TwoPlus8(24);
    TwoPlus8(32);
    TwoPlus8(40);
    assert Two(51) == 8 * Two(48);
    assert Two(54) == 8 * Two(51);
    assert Two(57) == 8 * Two(54);
  }

  lemma ProductOfMods()
    ensures ProductOf(ModsFor(3)) == 0x2ed8000000000001 * (0x3508000000000001 * 0x3aa8000000000001)
    ensures ProductOf(ModsFor(4)) == 0x2a88000000000001 * ProductOf(ModsFor(3))
    ensures ProductOf(ModsFor(5)) == 0x28d8000000000001 * ProductOf(ModsFor(4))
  {
    assert ModsFor(3) == [0x2ed8000000000001, 0x3508000000000001, 0x3aa8000000000001];
    assert ModsFor(3)[1..] == [0x3508000000000001, 0x3aa8000000000001];
    assert ModsFor(3)[1..][1..] == [0x3aa8000000000001];
    assert ModsFor(3)[1..][1..][1..] == [];
    assert ModsFor(4)[1..] == ModsFor(3);
    assert ModsFor(5)[1..] == ModsFor(4);
  }

  datatype FftSize = NoSize | FftSize(log: nat, dpl: nat, nbMods: nat)

  /** A size for numbers of len limbs altogether: no index wraps around and no coefficient reaches the product of the primes. */
  predicate Fits(z: FftSize, len: nat) {
    && z.FftSize? && 1 <= z.dpl <= 188 && 3 <= z.nbMods <= 5 && z.log <= ProotLog
    && 64 * len <= z.dpl * Two(z.log)
    && z.log + 2 * z.dpl <= IntBits(z.nbMods)
  }

  /** 2 * LIMB_BITS + 2 * NTT_MOD_LOG2_MIN - NTT_MOD_LOG2_MAX: the widest digit limb_to_ntt can reduce. */
  const MaxDpl: nat := 2 * 64 + 2 * 61 - 62

  function Least(x: nat, y: nat): nat {
    if x < y then x else y
  }

  /** The cost bf_get_fft_size compares. */
  function Cost(z: FftSize): nat
    requires z.FftSize?
  {
    (z.log + 1) * Two(z.log) * z.nbMods
  }

  /** The sizes the search is about: they fit, with nb primes and digits no wider than it starts with. */
  ghost predicate Candidate(w: FftSize, len: nat, nb: nat)
    requires 3 <= nb <= 5
  {
    Fits(w, len) && w.nbMods == nb && w.dpl <= (IntBits(nb) - 4) / 2
  }

  lemma CeilAtMost(x: int, d: int, top: int)
    requires d >= 1 && x <= d * top
    ensures (x + d - 1) / d <= top
  {
    var digits := (x + d - 1) / d;
    CeilCovers(x, d);
    assert d * (top + 1) == d * top + d;
    if digits > top {
      MulMono(d, top + 1, digits);
    }
  }

  lemma LogAtMost(n: nat, k: nat)
    requires n <= Two(k)
    ensures CeilLog2(n) <= k
  {
    hide Two, CeilLog2;
    PowerIsTwo(k);
    if CeilLog2(n) > k {
      PowerMonotone(k, CeilLog2(n) - 1);
    }
  }

  /** Narrower digits never need a shorter transform. */
  lemma LogLeast(len: nat, dpl: nat, w: FftSize)
    requires Fits(w, len) && w.dpl <= dpl
    ensures CeilLog2((len * 64 + dpl - 1) / dpl) <= w.log
  {
    hide Two, IntBits, CeilLog2;
    var top := Two(w.log);
    MulMono(top, w.dpl, dpl);
    assert len * 64 <= dpl * top;
    CeilAtMost(len * 64, dpl, top);
    LogAtMost((len * 64 + dpl - 1) / dpl, w.log);
  }

  lemma CostGrows(z: FftSize, w: FftSize)
    requires z.FftSize? && w.FftSize? && z.nbMods == w.nbMods && z.log <= w.log
    ensures Cost(z) <= Cost(w)
  {
    hide Two;
    TwoMono(z.log, w.log);
    MulMono(z.log + 1, Two(z.log), Two(w.log));
    MulMono(Two(w.log), z.log + 1, w.log + 1);
    MulMono(z.nbMods, (z.log + 1) * Two(z.log), (w.log + 1) * Two(w.log));
  }

  /** The largest digit size for nb primes, if there is one: no other size for as many primes has a shorter transform. */
  method FindDpl(len: nat, nb: nat) returns (z: FftSize)
    requires 3 <= nb <= 5
    ensures z.FftSize? ==> Fits(z, len) && z.nbMods == nb && forall w :: Candidate(w, len, nb) ==> z.log <= w.log
    ensures z.NoSize? ==> forall w :: !Candidate(w, len, nb)
    ensures nb == 5 && len <= Two(52) ==> z.FftSize?
  {
    hide Two;
    var intBits := IntBits(nb);
    var dpl := Least((intBits - 4) / 2, MaxDpl);
    while true
      invariant 1 <= dpl <= 188 && (nb == 5 && len <= Two(52) ==> dpl >= 128)
      invariant forall w :: Candidate(w, len, nb) ==> w.dpl <= dpl
      decreases dpl
    {
      var digits := (len * 64 + dpl - 1) / dpl;
      var log := CeilLog2(digits);
      DigitsCover(len, dpl, log);
      if dpl >= 128 && len <= Two(52) {
        FewDigits(len, dpl);
      }
      forall w | Candidate(w, len, nb)
        ensures log <= w.log && w.log <= ProotLog && w.log + 2 * w.dpl <= intBits && 1 <= w.dpl
      {
        LogLeast(len, dpl, w);
      }
      if log > ProotLog {
        return NoSize;
      }
      if log + 2 * dpl <= intBits {
        return FftSize(log, dpl, nb);
      }
      dpl := dpl - 1;
      if dpl == 0 {
        return NoSize;
      }
    }
  }

  lemma DigitsCover(len: nat, dpl: nat, log: nat)
    requires dpl >= 1 && log == CeilLog2((len * 64 + dpl - 1) / dpl)
    ensures 64 * len <= dpl * Two(log)
  {
    hide Two;
    var digits := (len * 64 + dpl - 1) / dpl;
    PowerIsTwo(log);
    CeilCovers(len * 64, dpl);
    MulMono(dpl, digits, Two(log));
  }

  /** Up to 2^52 limbs, digits of 128 bits or more are at most 2^51. */
  lemma FewDigits(len: nat, dpl: nat)
    requires dpl >= 128 && len <= Two(52)
    ensures CeilLog2((len * 64 + dpl - 1) / dpl) <= ProotLog
  {
    hide Two;
    var digits := (len * 64 + dpl - 1) / dpl;
    CeilCovers(len * 64, dpl);
    assert Two(52) == 2 * Two(51) by { TwoAdd(51, 1); TwoUnit(); }
    if digits > Two(51) {
      MulMono(dpl, Two(51) + 1, digits);
      assert dpl * (Two(51) + 1) == dpl * Two(51) + dpl;
      MulMono(Two(51), 128, dpl);
      assert false;
    }
    var log := CeilLog2(digits);
    if log > 51 {
      PowerMonotone(51, log - 1);
      PowerIsTwo(51);
      assert false;
    }
  }

  lemma TwoUnit()
    ensures Two(1) == 2
  {
    assert Two(0) == 1;
  }

  lemma CeilCovers(x: int, d: int)
    requires d >= 1
    ensures x <= d * ((x + d - 1) / d) <= x + d - 1
  {
    assert x + d - 1 == d * ((x + d - 1) / d) + (x + d - 1) % d;
  }

  lemma {:induction false} PowerIsTwo(k: nat)
    ensures Power(2, k) == Two(k)
  {
    if k > 0 {
      PowerIsTwo(k - 1);
    }
  }

  /** bf_get_fft_size: the cheapest of the sizes found. */
  method GetFftSize(len: nat) returns (z: FftSize)
    ensures z.FftSize? ==> Fits(z, len) && forall nb, w :: 3 <= nb <= 5 && Candidate(w, len, nb) ==> Cost(z) <= Cost(w)
    ensures z.NoSize? ==> forall nb, w :: 3 <= nb <= 5 ==> !Candidate(w, len, nb)
    ensures z.FftSize? && z.dpl > 64 + 61 ==> (64 + 61) * Two(z.log) < len * 64
    ensures len <= Two(52) ==> z.FftSize?
  {
    hide Two;
    z := NoSize;
    var minCost := 0xffff_ffff_ffff_ffff;
    for nb := 3 to 6
      invariant z.FftSize? ==> Fits(z, len)
      invariant if z.FftSize? then minCost == Cost(z) else minCost == 0xffff_ffff_ffff_ffff
      invariant forall m, w :: 3 <= m < nb && Candidate(w, len, m) ==> z.FftSize? && minCost <= Cost(w)
      invariant nb == 6 && len <= Two(52) ==> z.FftSize?
    {
      var found := FindDpl(len, nb);
      if found.FftSize? {
        CostFits(found.log, nb);
        forall w | Candidate(w, len, nb)
          ensures Cost(found) <= Cost(w)
        {
          CostGrows(found, w);
        }
        var cost := (found.log + 1) * Two(found.log) * nb;
        if cost < minCost {
          minCost, z := cost, found;
        }
      }
    }
    if z.FftSize? && z.dpl > 64 + 61 && (64 + 61) * Two(z.log) >= len * 64 {
      z := z.(dpl := 64 + 61);
    }
  }

  lemma CostFits(log: nat, nb: nat)
    requires log <= ProotLog && nb <= 5
    ensures (log + 1) * Two(log) * nb < 0xffff_ffff_ffff_ffff
  {
    hide Two;
    SmallTwos();
    TwoMono(log, 51);
    var t := Two(log);
    MulMono(log + 1, t, Two(51));
    MulMono(Two(51), log + 1, 52);
    MulMono((log + 1) * t, nb, 5);
  }

  /** Coefficients of a product of numbers of at most 2^log digits stay below the product of the primes. */
  lemma CoefficientsFit(x: seq<int>, y: seq<int>, z: FftSize, len: nat, i: nat)
    requires Fits(z, len) && |x| <= Two(z.log) && i < |x| + |y|
    requires Digits(x, Two(z.dpl)) && Digits(y, Two(z.dpl))
    ensures 0 <= PolyMul(x, y)[i] < ProductOf(ModsFor(z.nbMods))
  {
    hide Two, PolyMul, ProductOf, IntBits, Digits;
    CoefficientsBelow(x, y, Two(z.dpl), Two(z.log), i);
    IntBitsRight(z.nbMods);
    SizeProduct(z.log, z.dpl);
    TwoMono(z.log + 2 * z.dpl, IntBits(z.nbMods));
  }

  lemma SizeProduct(log: nat, dpl: nat)
    ensures Two(log + 2 * dpl) == Two(log) * (Two(dpl) * Two(dpl))
  {
    hide Two;
    TwoAdd(dpl, dpl);
    TwoAdd(log, 2 * dpl);
    assert dpl + dpl == 2 * dpl;
  }

  lemma CoefficientsBelow(x: seq<int>, y: seq<int>, b: int, n: int, i: nat)
    requires b >= 1 && n >= 1 && |x| <= n && i < |x| + |y| && Digits(x, b) && Digits(y, b)
    ensures 0 <= PolyMul(x, y)[i] < n * (b * b)
  {
    hide PolyMul;
    PolyMulBound(x, y, b, i);
    CoefficientBound(|x|, n, b);
  }

  lemma CoefficientBound(k: int, n: int, b: int)
    requires 0 <= k <= n && n >= 1 && b >= 1
    ensures k * ((b - 1) * (b - 1)) < n * (b * b)
  {
    var q := (b - 1) * (b - 1);
    assert q == b * b - 2 * b + 1;
    assert q >= 0 by { SmallProduct(b - 1, b - 1, b - 1); }
    MulMono(q, k, n);
    MulMono(n, q, b * b - 1);
    assert n * (b * b - 1) == n * (b * b) - n;
  }

  /** The digits of two numbers of la and lb limbs leave room for their product. */
  lemma ProductFits(la: nat, lb: nat, z: FftSize)
    requires Fits(z, la + lb) && la >= 1 && lb >= 1
    ensures var da, db := (64 * la + z.dpl - 1) / z.dpl, (64 * lb + z.dpl - 1) / z.dpl;
            da + db <= Two(z.log) + 1 && da <= Two(z.log) && db <= Two(z.log)
  {
    hide Two;
    RoomFor(64 * la, 64 * lb, z.dpl, Two(z.log));
  }

  lemma RoomFor(a: int, b: int, d: int, n: int)
    requires d >= 1 && a >= 1 && b >= 1 && a + b <= d * n
    ensures var da, db := (a + d - 1) / d, (b + d - 1) / d; da + db <= n + 1 && da <= n && db <= n
  {
    CeilCovers(a, d);
    CeilCovers(b, d);
    var da, db := (a + d - 1) / d, (b + d - 1) / d;
    assert d * (da + db) == d * da + d * db;
    AtMost(da + db, n + 1, d);
    AtMost(da, n, d);
    AtMost(db, n, d);
  }

  lemma AtMost(x: int, y: int, d: int)
    requires d >= 1 && d * x < d * y + d
    ensures x <= y
  {
    assert d * (y + 1) == d * y + d;
    if x > y {
      MulMono(d, y + 1, x);
      assert false;
    }
  }
}
