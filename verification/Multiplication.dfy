/**
 mp_mul of qjs/libbf.c: the schoolbook product for short operands, the transform for long ones,
 under one contract.
 */
module Multiplication {
  import opened Limbs
  import opened LimbKernels
  import Bits
  import NttLimbs

  /** FFT_MUL_THRESHOLD, in limbs of the smallest factor */
  const FftMulThreshold: nat := 100

  /** More limbs than any address space holds; up to here bf_get_fft_size always finds a size. */
  const MaxLimbs: nat := 0x10_0000_0000_0000

  lemma MaxLimbsIs()
    ensures Bits.Two(52) == MaxLimbs
  {
    Bits.TwoPlus8(0);
    Bits.TwoPlus8(8);
    Bits.TwoPlus8(16);
    Bits.TwoPlus8(24);
    Bits.TwoPlus8(32);
    Bits.TwoPlus8(40);
    assert Bits.Two(52) == 16 * Bits.Two(48);
  }

  /** mp_mul: res = x * y exactly, whichever way. */
  method MpMul(res: array<Limb>, ro: nat, x: array<Limb>, xo: nat, n: nat, y: array<Limb>, yo: nat, m: nat)
    requires m >= 1 && ro + n + m <= res.Length && xo + n <= x.Length && yo + m <= y.Length
    requires res != x && res != y
    modifies res
    ensures OnlyWithin(res, ro, ro + n + m)
    ensures Val(res[ro..ro + n + m]) == Val(x[xo..xo + n]) * Val(y[yo..yo + m])
  {
    hide Val, Bits.Two;
    if n >= FftMulThreshold && m >= FftMulThreshold && n + m <= MaxLimbs {
      MaxLimbsIs();
      var r := NttLimbs.FftMul(x[xo..xo + n], y[yo..yo + m]);
      ghost var rs := r[..];
      assert rs == r[0..0 + (n + m)] && ro + (n + m) == ro + n + m;
      CopyLimbs(res, ro, r, 0, n + m);
    } else {
      MpMulBasecase(res, ro, x, xo, n, y, yo, m);
    }
  }
}
