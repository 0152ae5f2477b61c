/**
 mp_recip, mp_divnorm_large and the dispatcher mp_divnorm of qjs/libbf.c.

 Products are those of mp_mul, schoolbook or transform; memory is always available.
 */
module Reciprocal {
  import opened Limbs
  import opened LimbKernels
  import opened Multiplication
  import opened WordDivision
  import opened Division
  import opened NewtonTheory

  lemma FullOf(s: seq<Limb>)
    requires Normalised(s)
    ensures Full(Val(s), |s|)
  {
    hide Val, Pow;
    TopHalf(s);
    ValBound(s);
  }

  /** A number is at least Pow(k) exactly when a limb above the first k is non-zero. */
  lemma TopLimb(s: seq<Limb>)
    requires |s| > 0
    ensures s[|s| - 1] != 0 <==> Val(s) >= Pow(|s| - 1)
  {
    hide Val, Pow;
    var k := |s| - 1;
    ValTop(s);
    if s[k] != 0 {
      MulMono(Pow(k), 1, s[k]);
    }
  }

  /** The correction loop of mp_recip: lower xh until a * xh fits below Pow(n + h). */
  method LowerEstimate(tabr: array<Limb>, xo: nat, h: nat, tabt: array<Limb>, taba: array<Limb>, ao: nat, n: nat)
    requires tabr != tabt && tabr != taba && tabt != taba
    requires xo + h < tabr.Length && n + h < tabt.Length && ao + n <= taba.Length
    requires Full(Val(taba[ao..ao + n]), n)
    requires Val(tabt[..n + h + 1]) == Val(taba[ao..ao + n]) * Val(tabr[xo..xo + h + 1])
    requires Pow(h) <= Val(tabr[xo..xo + h + 1]) < 2 * Pow(h)
    requires Pow(n + h) < Val(taba[ao..ao + n]) * (Val(tabr[xo..xo + h + 1]) + 2)
    modifies tabr, tabt
    ensures OnlyWithin(tabr, xo, xo + h + 1)
    ensures Val(tabt[..n + h + 1]) == Val(taba[ao..ao + n]) * Val(tabr[xo..xo + h + 1])
    ensures Pow(h) <= Val(tabr[xo..xo + h + 1]) < 2 * Pow(h)
    ensures Val(tabt[..n + h + 1]) < Pow(n + h) < Val(taba[ao..ao + n]) * (Val(tabr[xo..xo + h + 1]) + 2)
  {
    hide Val, Pow;
    ghost var a, x := Val(taba[ao..ao + n]), Val(tabr[xo..xo + h + 1]);
    TopLimb(tabt[..n + h + 1]);
    while tabt[n + h] != 0
      invariant OnlyWithin(tabr, xo, xo + h + 1)
      invariant x == Val(tabr[xo..xo + h + 1]) && Val(tabt[..n + h + 1]) == a * x
      invariant Pow(h) <= x < 2 * Pow(h) && Pow(n + h) < a * (x + 2)
      invariant tabt[n + h] != 0 <==> Val(tabt[..n + h + 1]) >= Pow(n + h)
      decreases x
    {
      LowerReciprocal(a, x, n, h);
      assert a <= Val(tabt[..n + h + 1]) by {
        MulMono(a, 1, x);
      }
      Decrement(tabr, xo, h + 1);
      SubtractShort(tabt, n, h + 1, taba, ao);
      assert taba[ao..ao + n] == old(taba[ao..ao + n]);
      TopLimb(tabt[..n + h + 1]);
      x := x - 1;
    }
  }

  /** Subtracting one from a positive number leaves no borrow. */
  method Decrement(tab: array<Limb>, o: nat, n: nat)
    requires o + n <= tab.Length && n > 0 && Val(tab[o..o + n]) > 0
    modifies tab
    ensures OnlyWithin(tab, o, o + n)
    ensures Val(tab[o..o + n]) == old(Val(tab[o..o + n])) - 1
  {
    hide Val, Pow;
    var k := MpSubUi(tab, o, 1, n);
    ValBound(tab[o..o + n]);
  }

  /** t -= a for a shorter a that fits: a full subtraction, then a borrow into the rest. */
  method SubtractShort(tabt: array<Limb>, n: nat, m: nat, taba: array<Limb>, ao: nat)
    requires tabt != taba && n + m <= tabt.Length && ao + n <= taba.Length && m > 0
    requires Val(taba[ao..ao + n]) <= Val(tabt[..n + m])
    modifies tabt
    ensures OnlyWithin(tabt, 0, n + m)
    ensures Val(tabt[..n + m]) == old(Val(tabt[..n + m])) - Val(taba[ao..ao + n])
  {
    hide Val, Pow;
    ValSplit(tabt[..n + m], n);
    assert tabt[..n + m][..n] == tabt[0..n] && tabt[..n + m][n..] == tabt[n..n + m];
    var c := MpSub(tabt, 0, tabt, 0, taba, ao, n, 0);
    assert tabt[n..n + m] == old(tabt[n..n + m]);
    ghost var low := tabt[0..n];
    var k := MpSubUi(tabt, n, c, m);
    assert tabt[0..n] == low;
    ValSplit(tabt[..n + m], n);
    assert tabt[..n + m][..n] == tabt[0..n] && tabt[..n + m][n..] == tabt[n..n + m];
    NoBorrow(Val(low), Val(tabt[n..n + m]), c, k, Pow(n), Pow(m), old(Val(tabt[n..n + m])),
             old(Val(tabt[0..n])), Val(taba[ao..ao + n]));
    ValBound(low);
    ValBound(tabt[n..n + m]);
    MulMono(Pow(n), Val(tabt[n..n + m]) + 1, Pow(m));
  }

  lemma NoBorrow(low: int, high: int, c: int, k: int, pn: int, pm: int, high0: int, low0: int, a: int)
    requires low - c * pn == low0 - a && high - k * pm == high0 - c && 0 <= k <= 1
    ensures low + pn * high == low0 + pn * high0 - a + k * (pn * pm)
  {
    assert pn * (high - k * pm) == pn * (high0 - c);
    assert pn * (k * pm) == k * (pn * pm);
  }

  /** T = B^(n+h) - T: negate all limbs, then add one to the top limb. */
  method Complement(tabt: array<Limb>, k: nat)
    requires k < tabt.Length && 0 < Val(tabt[..k + 1]) < Pow(k)
    modifies tabt
    ensures OnlyWithin(tabt, 0, k + 1)
    ensures Val(tabt[..k + 1]) == Pow(k) - old(Val(tabt[..k + 1]))
  {
    hide Val, Pow;
    ghost var t := Val(tabt[..k + 1]);
    PowNext(k);
    var c := MpNeg(tabt, k + 1);
    ValBound(tabt[..k + 1]);
    ghost var low := tabt[..k];
    assert tabt[..k + 1] == low + [tabt[k]];
    ValSnoc(low, tabt[k]);
    ValBound(low);
    assert tabt[k] == B - 1 by {
      TopIsAllOnes(Val(low), tabt[k], Pow(k), t);
    }
    tabt[k] := WrapAdd(tabt[k], 1);
    assert tabt[..k + 1] == low + [0];
    ValSnoc(low, 0);
  }

  lemma TopIsAllOnes(low: int, top: int, p: int, t: int)
    requires 0 < t < p && 0 <= low < p && 0 <= top < B && low + p * top == B * p - t
    ensures top == B - 1
  {
    if top <= B - 2 {
      MulMono(p, top, B - 2);
    }
  }

  /** The last step of mp_recip: put v = U / B^k under and into xh. */
  method Combine(tabr: array<Limb>, ro: nat, l: nat, h: nat, tabu: array<Limb>, ghost xh: int, ghost v: int)
    requires tabr != tabu && ro + l + h < tabr.Length && 3 * h + 2 <= tabu.Length && l < h
    requires xh == Val(tabr[ro + l..ro + l + h + 1]) && v == Val(tabu[2 * h - l..3 * h + 2])
    requires Pow(h) <= xh < 2 * Pow(h) && Pow(l + h) <= xh * Pow(l) + v < 2 * Pow(l + h)
    modifies tabr
    ensures OnlyWithin(tabr, ro, ro + l + h + 1)
    ensures Val(tabr[ro..ro + l + h + 1]) == xh * Pow(l) + v
  {
    hide Val, Pow;
    var k := 2 * h - l;
    ghost var us: seq<Limb>, xs: seq<Limb> := tabu[k..3 * h + 2], tabr[ro + l..ro + l + h + 1];
    assert tabr[ro + l..ro + l + h] == xs[..h] && tabr[ro + l + h] == xs[h];
    ghost var all := tabu[..];
    PartOfPart(all, k, 3 * h + 2, 0, l);
    PartOfPart(all, k, 3 * h + 2, l, l + h);
    assert k + l == 2 * h && us == all[k..3 * h + 2];
    assert us[..l] == tabu[k..k + l] && us[l..l + h] == tabu[2 * h..2 * h + h];
    PutUnder(tabr, ro, l, h, tabu, k);
    ghost var low: seq<Limb> := tabr[ro..ro + l];
    var c := AddAbove(tabr, ro, l, h, tabu, 2 * h);
    ghost var mid: seq<Limb> := tabr[ro + l..ro + l + h];
    ThreeParts(tabr[..], ro, l, h);
    assert tabr[ro..ro + l + h + 1] == low + (mid + [xs[h]]);
    CombineValue(us, xs, mid, l, h, c, xh, v);
  }

  /** The low limbs of v go under xh. */
  method PutUnder(tabr: array<Limb>, ro: nat, l: nat, h: nat, tabu: array<Limb>, k: nat)
    requires tabr != tabu && ro + l + h < tabr.Length && k + l <= tabu.Length
    modifies tabr
    ensures OnlyWithin(tabr, ro, ro + l + h + 1) && tabr[ro..ro + l] == tabu[k..k + l]
    ensures tabr[ro + l..ro + l + h] == old(tabr[ro + l..ro + l + h]) && tabr[ro + l + h] == old(tabr[ro + l + h])
  {
    CopyLimbs(tabr, ro, tabu, k, l);
  }

  /** The next limbs of v are added to the low limbs of xh. */
  method AddAbove(tabr: array<Limb>, ro: nat, l: nat, h: nat, tabu: array<Limb>, k: nat) returns (c: Limb)
    requires tabr != tabu && ro + l + h < tabr.Length && k + h <= tabu.Length
    modifies tabr
    ensures OnlyWithin(tabr, ro, ro + l + h + 1) && c <= 1
    ensures tabr[ro..ro + l] == old(tabr[ro..ro + l]) && tabr[ro + l + h] == old(tabr[ro + l + h])
    ensures Val(tabr[ro + l..ro + l + h]) + c * Pow(h) == old(Val(tabr[ro + l..ro + l + h])) + Val(tabu[k..k + h])
  {
    hide Val, Pow;
    c := MpAdd(tabr, ro + l, tabr, ro + l, tabu, k, h, 0);
  }

  lemma CombineValue(us: seq<Limb>, xs: seq<Limb>, mid: seq<Limb>, l: nat, h: nat, c: int, xh: int, v: int)
    requires l + h <= |us| && |xs| == h + 1 && |mid| == h && 0 <= c <= 1
    requires xh == Val(xs) && v == Val(us)
    requires Pow(h) <= xh < 2 * Pow(h) && xh * Pow(l) + v < 2 * Pow(l + h)
    requires Val(mid) + c * Pow(h) == Val(xs[..h]) + Val(us[l..l + h])
    ensures Val(us[..l] + (mid + [xs[h]])) == xh * Pow(l) + v
  {
    hide Val, Pow;
    TopIsOne(xs, h);
    ValConcat(us[..l], mid + [xs[h]]);
    ValSnoc(mid, xs[h]);
    assert xs == xs[..h] + [xs[h]];
    ValSnoc(xs[..h], xs[h]);
    PowAdd(l, h);
    assert v == Val(us[..l]) + Pow(l) * Val(us[l..l + h]) by {
      FitsBelow(xh, Pow(l), Pow(h), v);
      ValHighZero(us, l + h);
      assert us[..l + h][..l] == us[..l] && us[..l + h][l..] == us[l..l + h];
      ValSplit(us[..l + h], l);
    }
    ValBound(us[..l]);
    ValBound(mid);
    NoCarry(Val(us[..l]), Val(mid), c, Val(xs[..h]), Val(us[l..l + h]), Pow(l), Pow(h), xh, v);
  }

  lemma TopIsOne(xs: seq<Limb>, h: nat)
    requires |xs| == h + 1 && Pow(h) <= Val(xs) < 2 * Pow(h)
    ensures xs[h] == 1
  {
    hide Val, Pow;
    ValTop(xs);
    assert (xs[h] + 1) * Pow(h) == xs[h] * Pow(h) + Pow(h);
    if xs[h] == 0 {
      assert false;
    }
    if xs[h] >= 2 {
      MulMono(Pow(h), 2, xs[h]);
    }
  }

  lemma FitsBelow(xh: int, pl: int, ph: int, v: int)
    requires 0 < pl && ph <= xh && 0 <= v && xh * pl + v < 2 * (pl * ph)
    ensures v < pl * ph
  {
    MulMono(pl, ph, xh);
  }

  lemma NoCarry(low: int, mid: int, c: int, xlow: int, vhigh: int, pl: int, ph: int, xh: int, v: int)
    requires 0 < pl && 0 < ph && 0 <= low < pl && 0 <= mid < ph && 0 <= c <= 1
    requires mid + c * ph == xlow + vhigh && xh == xlow + ph * 1 && v == low + pl * vhigh
    requires xh * pl + v < 2 * (pl * ph)
    ensures low + pl * (mid + ph * 1) == xh * pl + v
  {
    assert pl * (mid + c * ph) == pl * (xlow + vhigh);
    assert pl * (c * ph) == c * (pl * ph);
    assert xh * pl + v == low + pl * mid + c * (pl * ph) + pl * ph;
    if c == 1 {
      MulMono(pl, 0, mid);
    }
  }

  /** The base case of mp_recip, through one short schoolbook division. */
  method RecipBase(tabr: array<Limb>, ro: nat, taba: array<Limb>, ao: nat, n: nat)
    requires tabr != taba && ro + n < tabr.Length && ao + n <= taba.Length && 1 <= n <= 2
    requires Normalised(taba[ao..ao + n])
    modifies tabr
    ensures OnlyWithin(tabr, ro, ro + n + 1)
    ensures IsApproxReciprocal(Val(taba[ao..ao + n]), Val(tabr[ro..ro + n + 1]), n)
    decreases 1, n, 0
  {
    hide Val, Pow;
    ghost var a := Val(taba[ao..ao + n]);
    FullOf(taba[ao..ao + n]);
    var tabu := new Limb[2 * n + 1](i => if i == 2 * n then 1 else 0);
    var tabt := new Limb[n + 2];
    PowerLimbs(tabu[0..0 + (2 * n + 1)], 2 * n);
    MpDivNorm(tabt, tabu, 0, 2 * n + 1, taba, ao, n);
    assert tabu[0..n] == tabu[..n];
    ghost var q, r := Val(tabt[..n + 2]), Val(tabu[..n]);
    ReciprocalBase(a, n, q, r);
    ReciprocalSize(a, if r == 0 then q - 1 else q, n);
    PowNext(n);
    ValHighZero(tabt[..n + 2], n + 1);
    assert tabt[..n + 2][..n + 1] == tabt[..n + 1];
    CopyLimbs(tabr, ro, tabt, 0, n + 1);
    assert ro + (n + 1) == ro + n + 1 && tabt[0..0 + (n + 1)] == tabt[..n + 1];
    assert Val(tabr[ro..ro + n + 1]) == q;
    var nz := MpScanNz(tabu, n);
    if !nz {
      Decrement(tabr, ro, n + 1);
    }
    assert Val(taba[ao..ao + n]) == a;
  }

  lemma PowerLimbs(s: seq<Limb>, k: nat)
    requires |s| == k + 1 && s[k] == 1 && forall i :: 0 <= i < k ==> s[i] == 0
    ensures Val(s) == Pow(k)
  {
    hide Val, Pow;
    assert s == s[..k] + [1];
    ValSnoc(s[..k], 1);
    ValZero(s[..k]);
  }

  /**
   mp_recip: a * r < B^(2n) < a * (r + 2) for every a of n limbs with its top bit set;
   r gets n + 1 limbs.
   */
  method MpRecip(tabr: array<Limb>, ro: nat, taba: array<Limb>, ao: nat, n: nat)
    requires tabr != taba && ro + n < tabr.Length && ao + n <= taba.Length && 1 <= n
    requires Normalised(taba[ao..ao + n])
    modifies tabr
    ensures OnlyWithin(tabr, ro, ro + n + 1)
    ensures IsApproxReciprocal(Val(taba[ao..ao + n]), Val(tabr[ro..ro + n + 1]), n)
    decreases 1, n, 1
  {
    hide Val, Pow;
    if n <= 2 {
      RecipBase(tabr, ro, taba, ao, n);
      return;
    }
    var l := (n - 1) / 2;
    var h := n - l;
    ghost var a, ah := Val(taba[ao..ao + n]), Val(taba[ao + l..ao + l + h]);
    FullOf(taba[ao..ao + n]);
    FullOf(taba[ao + l..ao + l + h]);
    assert ah * Pow(l) <= a by {
      ValSplit(taba[ao..ao + n], l);
      assert taba[ao..ao + n][l..] == taba[ao + l..ao + l + h];
    }
    MpRecip(tabr, ro + l, taba, ao + l, h);
    ReciprocalSize(ah, Val(tabr[ro + l..ro + l + h + 1]), h);
    HighHalf(a, ah, Val(tabr[ro + l..ro + l + h + 1]), n, l, h);
    var tabt := new Limb[n + h + 1];
    MpMul(tabt, 0, taba, ao, n, tabr, ro + l, h + 1);
    assert tabt[0..n + (h + 1)] == tabt[..n + h + 1] && ro + l + (h + 1) == ro + l + h + 1;
    LowerEstimate(tabr, ro + l, h, tabt, taba, ao, n);
    ghost var xh := Val(tabr[ro + l..ro + l + h + 1]);
    NewtonFinish(tabr, ro, l, h, tabt, a, xh);
  }

  /** From the lowered estimate to the full reciprocal. */
  method NewtonFinish(tabr: array<Limb>, ro: nat, l: nat, h: nat, tabt: array<Limb>, ghost a: int, ghost xh: int)
    requires tabr != tabt && ro + l + h < tabr.Length && tabt.Length == l + 2 * h + 1 && l < h
    requires Full(a, l + h) && xh == Val(tabr[ro + l..ro + l + h + 1]) && Pow(h) <= xh < 2 * Pow(h)
    requires Val(tabt[..l + 2 * h + 1]) == a * xh && a * xh < Pow(l + 2 * h) < a * (xh + 2)
    modifies tabr, tabt
    ensures OnlyWithin(tabr, ro, ro + l + h + 1)
    ensures IsApproxReciprocal(a, Val(tabr[ro..ro + l + h + 1]), l + h)
    decreases 0
  {
    hide Val, Pow, Full, IsApproxReciprocal;
    var n := l + h;
    MulMono(xh, 1, a);
    assert 0 < a * xh;
    Complement(tabt, l + 2 * h);
    ghost var ts := tabt[..l + 2 * h + 1];
    ghost var t, tm := Val(ts), Val(ts[l..]);
    assert a * (xh + 2) == a * xh + 2 * a;
    assert Pow(l) * tm <= t < Pow(l) * tm + Pow(l) by {
      ValSplit(ts, l);
      ValBound(ts[..l]);
    }
    var tabu := new Limb[3 * h + 2];
    MpMul(tabu, 0, tabt, l, 2 * h + 1, tabr, ro + l, h + 1);
    assert tabt[l..l + (2 * h + 1)] == ts[l..] && ro + l + (h + 1) == ro + l + h + 1;
    ghost var us := tabu[0..0 + (2 * h + 1) + (h + 1)];
    ghost var k := 2 * h - l;
    ghost var v := Val(us[k..]);
    assert Pow(k) * v <= tm * xh < Pow(k) * v + Pow(k) by {
      ValSplit(us, k);
      ValBound(us[..k]);
    }
    assert n + h == l + 2 * h;
    NewtonStep(a, n, l, h, xh, t, tm, v);
    ReciprocalSize(a, xh * Pow(l) + v, n);
    assert tabu[2 * h - l..3 * h + 2] == us[k..];
    Combine(tabr, ro, l, h, tabu, xh, v);
  }

  /** mp_divnorm: one-limb divisors, large operands and the schoolbook loop give the same exact result. */
  method MpDivNorm(tabq: array<Limb>, taba: array<Limb>, ao: nat, na: nat, tabb: array<Limb>, bo: nat, nb: nat)
    requires taba != tabb && tabq != taba && tabq != tabb
    requires 1 <= nb <= na && ao + na <= taba.Length && bo + nb <= tabb.Length && na - nb < tabq.Length
    requires Normalised(tabb[bo..bo + nb])
    modifies tabq, taba
    ensures OnlyWithin(tabq, 0, na - nb + 1) && OnlyWithin(taba, ao, ao + na)
    ensures IsDivision(old(Val(taba[ao..ao + na])), Val(tabb[bo..bo + nb]), Val(tabq[..na - nb + 1]), Val(taba[ao..ao + nb]))
    ensures tabq[na - nb] <= 1
    decreases if na - nb >= DIVNORM_LARGE_THRESHOLD && nb >= DIVNORM_LARGE_THRESHOLD then 3 else 0
  {
    hide Val, Pow;
    var n := na - nb;
    ghost var a := taba[ao..ao + na];
    if nb == 1 {
      assert tabb[bo..bo + 1] == [tabb[bo]];
      ValSingle(tabb[bo]);
      var r := MpDiv1Norm(tabq, 0, taba, ao, na, tabb[bo], 0);
      assert tabq[0..0 + na] == tabq[..na - nb + 1];
      taba[ao] := r;
      assert taba[ao..ao + 1] == [r];
      ValSingle(r);
    } else if n >= DIVNORM_LARGE_THRESHOLD && nb >= DIVNORM_LARGE_THRESHOLD {
      var corrections := MpDivNormLarge(tabq, taba, ao, na, tabb, bo, nb);
    } else {
      MpDivNormBase(tabq, taba, ao, na, tabb, bo, nb);
    }
    LeadingDigit(a, tabb[bo..bo + nb], tabq[..n + 1], Val(taba[ao..ao + nb]));
  }

  /** The quotient by a normalised divisor has a leading limb of 0 or 1. */
  lemma LeadingDigit(a: seq<Limb>, b: seq<Limb>, q: seq<Limb>, r: int)
    requires Normalised(b) && |b| <= |a| && |q| == |a| - |b| + 1 && IsDivision(Val(a), Val(b), Val(q), r)
    ensures q[|q| - 1] <= 1
  {
    hide Val, Pow;
    var n := |a| - |b|;
    ValBound(a);
    FullOf(b);
    ValTop(q);
    PowAdd(n, |b|);
    assert Pow(n) * (2 * Val(b)) == Val(b) * (2 * Pow(n));
    if q[n] >= 2 {
      MulMono(Pow(n), 2, q[n]);
      MulMono(Val(b), 2 * Pow(n), Val(q));
      MulMono(Pow(n), Pow(|b|), 2 * Val(b));
    }
  }

  /** The number mp_divnorm_large inverts, and whether it overflowed to B^n. */
  method ScaleDivisor(tabt: array<Limb>, n: nat, tabb: array<Limb>, bo: nat, nb: nat) returns (overflow: bool, ghost bp: int)
    requires tabt != tabb && n <= tabt.Length && bo + nb <= tabb.Length && n >= 1 && nb >= 1
    requires Normalised(tabb[bo..bo + nb])
    modifies tabt
    ensures IsScaledDivisor(Val(tabb[bo..bo + nb]), nb, bp, n) && bp > 0
    ensures overflow ==> bp == Pow(n)
    ensures !overflow ==> bp == Val(tabt[..n]) && Normalised(tabt[..n])
  {
    hide Val, Pow;
    ghost var bs := tabb[bo..bo + nb];
    FullOf(bs);
    if n >= nb {
      ClearLimbs(tabt, n - nb);
      CopyLimbs(tabt, n - nb, tabb, bo, nb);
      ghost var zs := tabt[..n - nb];
      assert tabt[..n] == zs + bs;
      ValConcat(zs, bs);
      ValZero(zs);
      bp := Val(tabt[..n]);
      MulMono(Pow(n - nb), 1, Val(bs));
      overflow := false;
    } else {
      CopyLimbs(tabt, 0, tabb, bo + nb - n, n);
      ghost var hs := bs[nb - n..];
      assert tabt[0..0 + n] == hs;
      var k := MpAddUi(tabt, 0, 1, n);
      assert tabt[0..0 + n] == tabt[..n];
      bp := Val(hs) + 1;
      TruncatedDivisor(bs, nb - n, bp);
      overflow := k != 0;
      ValBound(hs);
      if k != 0 {
        assert k * Pow(n) == Pow(n);
      } else {
        StillNormalised(hs, tabt[..n]);
      }
    }
  }

  lemma TruncatedDivisor(bs: seq<Limb>, k: nat, bp: int)
    requires k <= |bs| && bp == Val(bs[k..]) + 1
    ensures (bp - 1) * Pow(k) <= Val(bs) < bp * Pow(k)
  {
    hide Val, Pow;
    ValSplit(bs, k);
    ValBound(bs[..k]);
    assert bp * Pow(k) == Pow(k) * Val(bs[k..]) + Pow(k);
  }

  /** Adding one without overflow keeps the top bit. */
  lemma StillNormalised(hs: seq<Limb>, ts: seq<Limb>)
    requires |hs| == |ts| && Normalised(hs) && Val(ts) >= Val(hs)
    ensures Normalised(ts)
  {
    hide Val, Pow;
    var n := |hs| - 1;
    ValTop(hs);
    ValTop(ts);
    if ts[n] < HALF {
      MulMono(Pow(n), ts[n] + 1, HALF);
      MulMono(Pow(n), HALF, hs[n]);
    }
  }

  /** The inverse used by mp_divnorm_large: never above the exact one, less than two below it. */
  method InvertDivisor(inv: array<Limb>, tabt: array<Limb>, n: nat, tabb: array<Limb>, bo: nat, nb: nat) returns (ghost bp: int)
    requires inv != tabt && inv != tabb && tabt != tabb
    requires n >= 1 && nb >= 1 && n < inv.Length && n <= tabt.Length && bo + nb <= tabb.Length
    requires Normalised(tabb[bo..bo + nb])
    modifies inv, tabt
    ensures bp > 0 && IsScaledDivisor(Val(tabb[bo..bo + nb]), nb, bp, n)
    ensures bp * Val(inv[..n + 1]) <= Pow(2 * n) < bp * (Val(inv[..n + 1]) + 2)
    decreases 1, n, 2
  {
    hide Val, Pow;
    var overflow;
    overflow, bp := ScaleDivisor(tabt, n, tabb, bo, nb);
    ghost var b := Val(tabb[bo..bo + nb]);
    if overflow {
      ClearLimbs(inv, n);
      inv[n] := 1;
      PowerLimbs(inv[..n + 1], n);
      PowAdd(n, n);
      assert bp * (Pow(n) + 2) == bp * Pow(n) + 2 * bp;
    } else {
      assert tabt[0..0 + n] == tabt[..n];
      MpRecip(inv, 0, tabt, 0, n);
      assert inv[0..0 + n + 1] == inv[..n + 1];
      assert tabt[0..0 + n] == tabt[..n];
    }
    assert Val(tabb[bo..bo + nb]) == b;
  }

  /** The estimated quotient: the top nq + 1 limbs of inverse * top limbs of a. */
  method EstimateQuotient(tabq: array<Limb>, taba: array<Limb>, ao: nat, na: nat, tabb: array<Limb>, bo: nat, nb: nat)
    requires taba != tabb && tabq != taba && tabq != tabb
    requires 1 <= nb < na && ao + na <= taba.Length && bo + nb <= tabb.Length && na - nb < tabq.Length
    requires Normalised(tabb[bo..bo + nb]) && (na - nb < nb ==> nb >= 2)
    modifies tabq
    ensures OnlyWithin(tabq, 0, na - nb + 1)
    ensures var b := Val(tabb[bo..bo + nb]);
            0 <= Val(taba[ao..ao + na]) - Val(tabq[..na - nb + 1]) * b < 4 * b
    decreases 2, 0
  {
    hide Val, Pow;
    var nq := na - nb;
    var n := if nq < nb then nq + 1 else nq;
    var inv, tabt := new Limb[n + 1], new Limb[2 * (n + 1)];
    ghost var bp := InvertDivisor(inv, tabt, n, tabb, bo, nb);
    ghost var as_: seq<Limb>, bs: seq<Limb> := taba[ao..ao + na], tabb[bo..bo + nb];
    ghost var prod := TopProduct(tabq, tabt, inv, n, taba, ao, na, nq);
    EstimateBound(as_, bs, nq, n, bp, inv[..n + 1], prod);
  }

  /** The inverse times the top limbs of a; the top limbs of the product are the estimate. */
  method TopProduct(tabq: array<Limb>, tabt: array<Limb>, inv: array<Limb>, n: nat, taba: array<Limb>, ao: nat, na: nat, nq: nat)
    returns (ghost prod: seq<Limb>)
    requires tabq != tabt && tabt != inv && tabt != taba && tabq != taba && tabq != inv
    requires inv.Length == n + 1 && tabt.Length == 2 * (n + 1) && nq <= n < na && ao + na <= taba.Length && nq < tabq.Length
    modifies tabq, tabt
    ensures OnlyWithin(tabq, 0, nq + 1) && |prod| == 2 * (n + 1) && tabq[..nq + 1] == prod[2 * n + 1 - nq..]
    ensures Val(prod) == Val(inv[..n + 1]) * Val(taba[ao..ao + na][na - (n + 1)..])
  {
    hide Val, Pow;
    var c, m := na - (n + 1), 2 * (n + 1) - (nq + 1);
    ghost var all: seq<Limb> := taba[..];
    PartOfPart(all, ao, ao + na, c, na);
    assert all[ao..ao + na] == taba[ao..ao + na] && all[ao + c..ao + na] == taba[ao + c..ao + c + (n + 1)];
    assert taba[ao..ao + na][c..] == all[ao..ao + na][c..na];
    MpMul(tabt, 0, inv, 0, n + 1, taba, ao + c, n + 1);
    prod := tabt[..];
    assert prod == tabt[0..0 + (n + 1) + (n + 1)] && inv[0..0 + (n + 1)] == inv[..n + 1];
    CopyLimbs(tabq, 0, tabt, m, nq + 1);
    assert tabq[..nq + 1] == tabq[0..0 + (nq + 1)] && tabt[m..m + (nq + 1)] == prod[m..];
  }

  lemma EstimateBound(as_: seq<Limb>, bs: seq<Limb>, nq: nat, n: nat, bp: int, inv: seq<Limb>, prod: seq<Limb>)
    requires nq >= 1 && |bs| >= 1 && |as_| == nq + |bs| && n == (if nq < |bs| then nq + 1 else nq) && n < |as_|
    requires Normalised(bs) && bp > 0 && IsScaledDivisor(Val(bs), |bs|, bp, n)
    requires bp * Val(inv) <= Pow(2 * n) < bp * (Val(inv) + 2)
    requires |prod| == 2 * (n + 1) && Val(prod) == Val(inv) * Val(as_[|as_| - (n + 1)..])
    ensures 0 <= Val(as_) - Val(prod[2 * n + 1 - nq..]) * Val(bs) < 4 * Val(bs)
  {
    hide Val, Pow;
    var c, m := |as_| - (n + 1), 2 * n + 1 - nq;
    var atop, q := Val(as_[c..]), Val(prod[m..]);
    FloorOf(prod, m);
    FloorOf(as_, c);
    ValBound(as_[c..]);
    ValBound(as_);
    FullOf(bs);
    LargeEstimate(Val(as_), Val(bs), |bs|, nq, n, bp, Val(inv), atop, q);
  }

  /** Dropping k limbs divides by Pow(k), rounding down. */
  lemma FloorOf(s: seq<Limb>, k: nat)
    requires k <= |s|
    ensures Val(s[k..]) * Pow(k) <= Val(s) < Val(s[k..]) * Pow(k) + Pow(k)
    ensures Val(s) < (Val(s[k..]) + 1) * Pow(k)
  {
    hide Val, Pow;
    ValSplit(s, k);
    ValBound(s[..k]);
    assert (Val(s[k..]) + 1) * Pow(k) == Val(s[k..]) * Pow(k) + Pow(k);
  }

  /** mp_divnorm_large: estimate from the reciprocal, then at most three corrections. */
  method MpDivNormLarge(tabq: array<Limb>, taba: array<Limb>, ao: nat, na: nat, tabb: array<Limb>, bo: nat, nb: nat)
    returns (corrections: nat)
    requires taba != tabb && tabq != taba && tabq != tabb
    requires 2 <= nb < na && ao + na <= taba.Length && bo + nb <= tabb.Length && na - nb < tabq.Length
    requires Normalised(tabb[bo..bo + nb])
    modifies tabq, taba
    ensures OnlyWithin(tabq, 0, na - nb + 1) && OnlyWithin(taba, ao, ao + na)
    ensures IsDivision(old(Val(taba[ao..ao + na])), Val(tabb[bo..bo + nb]), Val(tabq[..na - nb + 1]), Val(taba[ao..ao + nb]))
    ensures corrections <= 3
    decreases 2, 1
  {
    hide Val, Pow;
    var nq := na - nb;
    ghost var a, b := Val(taba[ao..ao + na]), Val(tabb[bo..bo + nb]);
    EstimateQuotient(tabq, taba, ao, na, tabb, bo, nb);
    ghost var as_: seq<Limb> := taba[ao..ao + na];
    SubtractProduct(tabq, nq, taba, ao, na, tabb, bo, nb);
    ValBound(as_);
    corrections := Correct(tabq, nq + 1, taba, ao, tabb, bo, nb, a);
    ShortRemainder(taba, ao, nb, tabb, bo);
  }

  /** R = A - B * Q, computed on the nb + 1 low limbs only. */
  method SubtractProduct(tabq: array<Limb>, nq: nat, taba: array<Limb>, ao: nat, na: nat, tabb: array<Limb>, bo: nat, nb: nat)
    requires taba != tabb && tabq != taba && na == nq + nb && 1 <= nq && 1 <= nb
    requires ao + na <= taba.Length && bo + nb <= tabb.Length && nq < tabq.Length
    requires var b := Val(tabb[bo..bo + nb]); 0 <= Val(taba[ao..ao + na]) - Val(tabq[..nq + 1]) * b < 4 * b
    modifies taba
    ensures OnlyWithin(taba, ao, ao + nb + 1)
    ensures Val(taba[ao..ao + nb + 1]) == old(Val(taba[ao..ao + na])) - Val(tabq[..nq + 1]) * Val(tabb[bo..bo + nb])
  {
    hide Val, Pow;
    ghost var as_: seq<Limb>, w := taba[ao..ao + na], nb + 1;
    var tabt := new Limb[na + 1];
    MpMul(tabt, 0, tabq, 0, nq + 1, tabb, bo, nb);
    ghost var ts: seq<Limb> := tabt[..];
    assert 0 + (nq + 1) + nb == na + 1 && tabq[0..0 + (nq + 1)] == tabq[..nq + 1];
    assert tabt[0..0 + (nq + 1) + nb] == ts;
    assert taba[ao..ao + (nb + 1)] == as_[..w] && tabt[0..0 + (nb + 1)] == ts[..w];
    var k := MpSub(taba, ao, taba, ao, tabt, 0, nb + 1, 0);
    assert ao + (nb + 1) == ao + nb + 1;
    ValBound(tabb[bo..bo + nb]);
    PowNext(nb);
    LowPartSuffices(as_, ts, taba[ao..ao + nb + 1], k);
  }

  /** A difference that fits in k limbs is found by subtracting the low k limbs only. */
  lemma LowPartSuffices(x: seq<Limb>, y: seq<Limb>, d: seq<Limb>, k: int)
    requires |d| <= |x| && |d| <= |y| && 0 <= Val(x) - Val(y) < Pow(|d|)
    requires Val(d) - k * Pow(|d|) == Val(x[..|d|]) - Val(y[..|d|])
    ensures Val(d) == Val(x) - Val(y)
  {
    hide Val, Pow;
    ValSplit(x, |d|);
    ValSplit(y, |d|);
    ValBound(d);
    Congruent(Val(x[..|d|]), Val(x[|d|..]), Val(y[..|d|]), Val(y[|d|..]), Val(d), k, Pow(|d|));
  }

  lemma Congruent(x0: int, x1: int, y0: int, y1: int, d: int, k: int, p: int)
    requires 0 <= d < p && 0 <= (x0 + p * x1) - (y0 + p * y1) < p && d - k * p == x0 - y0
    ensures d == (x0 + p * x1) - (y0 + p * y1)
  {
    var e := x1 - y1 - k;
    assert p * e == p * x1 - p * y1 - k * p;
    if e >= 1 {
      MulMono(p, 1, e);
    }
    if e <= -1 {
      MulMono(p, e, -1);
    }
  }

  /** A quotient by a normalised nb-limb divisor has one limb more than the length difference. */
  lemma QuotientFits(a: int, b: int, q: int, nb: nat, nq: nat)
    requires Full(b, nb) && a < Pow(nq + nb) && q * b <= a
    ensures q < Pow(nq + 1)
  {
    hide Pow;
    PowAdd(nq, nb);
    PowNext(nq);
    assert Pow(nq) * (2 * b) == b * (2 * Pow(nq));
    if q >= Pow(nq + 1) {
      MulMono(b, 2 * Pow(nq), q);
      MulMono(Pow(nq), Pow(nb), 2 * b);
    }
  }

  /** The final loop of mp_divnorm_large: subtract b and count up until the remainder is below b. */
  method Correct(tabq: array<Limb>, nq1: nat, taba: array<Limb>, ao: nat, tabb: array<Limb>, bo: nat, nb: nat, ghost a: int)
    returns (corrections: nat)
    requires taba != tabb && tabq != taba && tabq != tabb
    requires 1 <= nb && ao + nb < taba.Length && bo + nb <= tabb.Length && 1 <= nq1 <= tabq.Length
    requires Normalised(tabb[bo..bo + nb]) && 0 <= a < Pow(nq1 - 1 + nb)
    requires var b := Val(tabb[bo..bo + nb]);
             Val(taba[ao..ao + nb + 1]) == a - Val(tabq[..nq1]) * b < 4 * b
    modifies tabq, taba
    ensures OnlyWithin(tabq, 0, nq1) && OnlyWithin(taba, ao, ao + nb + 1)
    ensures IsDivision(a, Val(tabb[bo..bo + nb]), Val(tabq[..nq1]), Val(taba[ao..ao + nb + 1]))
    ensures corrections <= 3
    decreases 0
  {
    hide Val, Pow;
    ghost var b, q := Val(tabb[bo..bo + nb]), Val(tabq[..nq1]);
    FullOf(tabb[bo..bo + nb]);
    corrections := 0;
    while true
      invariant OnlyWithin(tabq, 0, nq1) && OnlyWithin(taba, ao, ao + nb + 1)
      invariant q == Val(tabq[..nq1]) && corrections <= 3
      invariant Val(taba[ao..ao + nb + 1]) == a - q * b < (4 - corrections) * b
      decreases 4 - corrections
    {
      var below := WindowBelow(taba, ao, tabb, bo, nb);
      if below {
        break;
      }
      OneMore(q, b, 4 - corrections);
      assert corrections < 3 by {
        assert (4 - 3) * b == b;
      }
      SubtractWindow(taba, ao, tabb, bo, nb);
      QuotientFits(a, b, q + 1, nb, nq1 - 1);
      Increment(tabq, nq1);
      q, corrections := q + 1, corrections + 1;
    }
  }

  lemma OneMore(q: int, b: int, left: int)
    ensures (q + 1) * b == q * b + b && left * b == (left - 1) * b + b
  {
  }

  /** taba[nb] == 0 && mp_cmp(taba, tabb, nb) < 0. */
  method WindowBelow(taba: array<Limb>, ao: nat, tabb: array<Limb>, bo: nat, nb: nat) returns (below: bool)
    requires ao + nb < taba.Length && bo + nb <= tabb.Length
    ensures below <==> Val(taba[ao..ao + nb + 1]) < Val(tabb[bo..bo + nb])
  {
    hide Val, Pow;
    var c := MpCmp(taba, ao, tabb, bo, nb);
    Window(taba, ao, nb);
    ValBound(tabb[bo..bo + nb]);
    below := taba[ao + nb] == 0 && c < 0;
    if taba[ao + nb] != 0 {
      MulMono(Pow(nb), 1, taba[ao + nb]);
    }
  }

  /** Adding one to a number with room for it leaves no carry. */
  method Increment(tab: array<Limb>, n: nat)
    requires 1 <= n <= tab.Length && Val(tab[..n]) + 1 < Pow(n)
    modifies tab
    ensures OnlyWithin(tab, 0, n)
    ensures Val(tab[..n]) == old(Val(tab[..n])) + 1
  {
    hide Val, Pow;
    assert tab[0..0 + n] == tab[..n];
    var k := MpAddUi(tab, 0, 1, n);
    assert tab[0..0 + n] == tab[..n];
    if k != 0 {
      MulMono(Pow(n), 1, k);
    }
  }

  /** taba[nb] -= mp_sub(taba, taba, tabb, nb, 0), when the window is at least b. */
  method SubtractWindow(taba: array<Limb>, ao: nat, tabb: array<Limb>, bo: nat, nb: nat)
    requires taba != tabb && ao + nb < taba.Length && bo + nb <= tabb.Length
    requires Val(tabb[bo..bo + nb]) <= Val(taba[ao..ao + nb + 1])
    modifies taba
    ensures OnlyWithin(taba, ao, ao + nb + 1)
    ensures Val(taba[ao..ao + nb + 1]) == old(Val(taba[ao..ao + nb + 1])) - Val(tabb[bo..bo + nb])
  {
    hide Val, Pow;
    Window(taba, ao, nb);
    ghost var low, b := Val(taba[ao..ao + nb]), Val(tabb[bo..bo + nb]);
    var top := taba[ao + nb];
    var k := MpSub(taba, ao, taba, ao, tabb, bo, nb, 0);
    ghost var lows := taba[ao..ao + nb];
    ValBound(lows);
    assert k <= top;
    taba[ao + nb] := WrapSub(top, k);
    assert taba[ao..ao + nb] == lows;
    Window(taba, ao, nb);
    assert Pow(nb) * (top - k) == Pow(nb) * top - k * Pow(nb);
  }
}
