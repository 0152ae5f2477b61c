/**
 Dividing two limbs by one normalised limb with a precomputed reciprocal:
 udiv1norm_init and udiv1norm of qjs/libbf.c.
 */
module WordDivision {
  import opened Limbs
  import opened LimbKernels

  /** m & d for a mask m that is all zeros or all ones. */
  function Masked(m: Limb, d: Limb): Limb
    requires m == 0 || m == B - 1
  {
    if m == 0 then 0 else d
  }

  ghost predicate IsReciprocal(d: int, v: int) {
    (B + v) * d <= B * B - 1 < (B + v + 1) * d
  }

  /** udiv1norm_init: v = floor((B^2 - 1) / d) - B, which fits one limb. */
  function ReciprocalWord(d: Limb): (v: Limb)
    requires d >= HALF
    ensures IsReciprocal(d, v)
  {
    var num := (B - 1 - d) * B + (B - 1);
    ReciprocalFits(d);
    num / d
  }

  lemma ReciprocalFits(d: int)
    requires HALF <= d < B
    ensures var num := (B - 1 - d) * B + (B - 1); 0 <= num / d < B && IsReciprocal(d, num / d)
  {
    var num := (B - 1 - d) * B + (B - 1);
    var v := num / d;
    assert v * d <= num < v * d + d;
    assert (B + v) * d == B * d + v * d;
    assert (B + v + 1) * d == B * d + v * d + d;
    if v >= B {
      MulMono(d, B, v);
      assert false;
    }
  }

  /** The first estimate of the quotient: the quotient itself or one less. */
  function EstimateWord(a1: Limb, a0: Limb, d: Limb, v: Limb): (q: Limb)
    requires HALF <= d && a1 < d && IsReciprocal(d, v)
    ensures 0 <= (a1 * B + a0) - q * d < 2 * d
  {
    var n1m: Limb := if a0 >= HALF then B - 1 else 0;
    var nAdj := WrapAdd(a0, Masked(n1m, d));
    var wide := v * WrapSub(a1, n1m) + nAdj;
    LimbProduct(v, WrapSub(a1, n1m));
    SplitWide(wide);
    EstimateClose(a1, a0, d, v, wide / B + a1, wide);
    EstimateFits(a1, a0, d, wide / B + a1);
    WrapAdd(wide / B, a1)
  }

  lemma EstimateClose(a1: int, a0: int, d: int, v: int, q: int, num: int)
    requires HALF <= d < B && 0 <= a1 < d && 0 <= a0 < B && 0 <= v < B && IsReciprocal(d, v)
    requires num == (if a0 >= HALF then v * (a1 + 1) + (a0 + d - B) else v * a1 + a0)
    requires q * B <= num + a1 * B < q * B + B
    ensures 0 <= (a1 * B + a0) - q * d < 2 * d
  {
    var f := B * B - (B + v) * d;
    assert 1 <= f <= d by {
      assert (B + v + 1) * d == (B + v) * d + d;
    }
    var slack;
    if a0 < HALF {
      slack := f * a1 + (B - d) * a0;
      SlackLow(a1, a0, d, v, f);
      SlackRange(f, a1, a0, d);
    } else {
      slack := f * (a1 + 1) + (B - d) * (a0 + d - B);
      SlackHigh(a1, a0, d, v, f);
      SlackRange(f, a1 + 1, a0 + d - B, d);
    }
    ScaleBack(d, q, num + a1 * B, a1 * B + a0, slack);
  }

  lemma SlackRange(f: int, x: int, y: int, d: int)
    requires 0 <= f <= d <= B && 0 <= x <= d && 0 <= y <= d
    ensures 0 <= f * x + (B - d) * y <= d * B
  {
    var e := B - d;
    MulMono(x, f, d);
    MulMono(x, 0, f);
    MulMono(d, x, d);
    MulMono(e, y, d);
    MulMono(e, 0, y);
    assert d * d + e * d == d * B by { MulSum(d, d, e); }
  }

  lemma ScaleBack(d: int, q: int, x: int, n: int, slack: int)
    requires 0 < d && q * B <= x < q * B + B
    requires d * x == B * n - slack && 0 <= slack <= d * B
    ensures 0 <= n - q * d < 2 * d
  {
    MulMono(d, q * B, x);
    MulMono(d, x + 1, q * B + B);
    assert d * (x + 1) == d * x + d;
    assert d * (q * B) == B * (q * d);
    assert d * (q * B + B) == B * (q * d) + d * B;
  }

  lemma SlackLow(a1: int, a0: int, d: int, v: int, f: int)
    requires f == B * B - (B + v) * d
    ensures d * ((v * a1 + a0) + a1 * B) == B * (a1 * B + a0) - (f * a1 + (B - d) * a0)
  {
    assert f * a1 == B * B * a1 - (B * d + v * d) * a1;
    assert (B * d + v * d) * a1 == B * (d * a1) + d * (v * a1);
    assert d * ((v * a1 + a0) + a1 * B) == d * (v * a1) + d * a0 + B * (d * a1);
    assert (B - d) * a0 == B * a0 - d * a0;
  }

  lemma SlackHigh(a1: int, a0: int, d: int, v: int, f: int)
    requires f == B * B - (B + v) * d
    ensures d * ((v * (a1 + 1) + (a0 + d - B)) + a1 * B)
            == B * (a1 * B + a0) - (f * (a1 + 1) + (B - d) * (a0 + d - B))
  {
    SlackLow(a1 + 1, a0 + d - B, d, v, f);
    var w := v * (a1 + 1) + (a0 + d - B);
    assert d * (w + (a1 + 1) * B) == d * (w + a1 * B) + d * B;
  }

  /** udiv1norm: exact division of a1 * B + a0 by a normalised limb. */
  function DivideWord(a1: Limb, a0: Limb, d: Limb, v: Limb): (qr: (Limb, Limb))
    requires HALF <= d && a1 < d && IsReciprocal(d, v)
    ensures qr.0 * d + qr.1 == a1 * B + a0 && qr.1 < d
  {
    var q := EstimateWord(a1, a0, d, v);
    Corrected(a1, a0, d, q);
    var rest := (a1 * B + a0 - q * d - d) % (B * B);
    var ah := rest / B;
    (WrapAdd(q, WrapAdd(1, ah)), WrapAdd(rest % B, Masked(ah, d)))
  }

  lemma EstimateFits(a1: int, a0: int, d: int, q: int)
    requires 0 < d && 0 <= a1 < d && 0 <= a0 < B && q * d <= a1 * B + a0
    ensures q < B
  {
    if q >= B {
      MulMono(d, B, q);
      assert false;
    }
  }

  /** The final subtraction either stays non-negative (q was one short) or wraps to -d..-1. */
  lemma Corrected(a1: int, a0: int, d: int, q: int)
    requires HALF <= d < B && 0 <= q < B && 0 <= a1 < d && 0 <= a0 < B
    requires 0 <= a1 * B + a0 - q * d < 2 * d
    ensures var diff := a1 * B + a0 - q * d - d;
            var rest := diff % (B * B);
            if diff >= 0
            then rest / B == 0 && rest % B == diff && q + 1 < B
            else rest / B == B - 1 && rest % B == diff + B
  {
    var diff := a1 * B + a0 - q * d - d;
    var rest := diff % (B * B);
    if diff >= 0 {
      assert rest == diff;
      if q + 1 >= B {
        MulMono(d, B - 1, q);
        assert false;
      }
    } else {
      assert rest == diff + B * B;
      assert rest == (B - 1) * B + (diff + B);
    }
  }

  /** mp_div1norm: res = x / b limb by limb from the top, returning the remainder. */
  method MpDiv1Norm(res: array<Limb>, ro: nat, x: array<Limb>, xo: nat, n: nat, b: Limb, r0: Limb) returns (r: Limb)
    requires ro + n <= res.Length && xo + n <= x.Length && SafeDown(res, ro, x, xo, n)
    requires HALF <= b && r0 < b
    modifies res
    ensures OnlyWithin(res, ro, ro + n)
    ensures r < b
    ensures Val(res[ro..ro + n]) * b + r == old(Val(x[xo..xo + n])) + Pow(n) * r0
  {
    hide Val, Pow;
    ValBase();
    ghost var xs := x[xo..xo + n];
    r := r0;
    var v := if n >= UDIV1NORM_THRESHOLD then ReciprocalWord(b) else 0;
    var i := n;
    while i > 0
      invariant 0 <= i <= n && r < b
      invariant forall j :: 0 <= j < ro + i || ro + n <= j < res.Length ==> res[j] == old(res[j])
      invariant forall j :: 0 <= j < i ==> x[xo + j] == xs[j]
      invariant Val(res[ro + i..ro + n]) * b + r == Val(xs[i..]) + Pow(n - i) * r0
    {
      ghost var after, r1 := res[ro + i..ro + n], r;
      i := i - 1;
      assert x[xo + i] == xs[i];
      var q: Limb;
      if n >= UDIV1NORM_THRESHOLD {
        var qr := DivideWord(r, x[xo + i], b, v);
        q, r := qr.0, qr.1;
      } else {
        DivisionFits(r, x[xo + i], b);
        q, r := (r * B + x[xo + i]) / b, (r * B + x[xo + i]) % b;
      }
      res[ro + i] := q;
      assert res[ro + i..ro + n] == [q] + after;
      Div1Step(after, q, xs, i, b, r1, r, r0);
    }
    assert xs[0..] == xs;
  }

  const UDIV1NORM_THRESHOLD := 3

  lemma DivisionFits(r: int, x: int, b: int)
    requires 0 <= r < b && 0 <= x < B
    ensures 0 <= (r * B + x) / b < B && 0 <= (r * B + x) % b < b
    ensures ((r * B + x) / b) * b + (r * B + x) % b == r * B + x
  {
    var q := (r * B + x) / b;
    assert q * b + (r * B + x) % b == r * B + x;
    EstimateFits(r, x, b, q);
    if q < 0 {
      MulMono(b, q, -1);
      assert false;
    }
  }

  lemma Div1Step(after: seq<Limb>, q: Limb, xs: seq<Limb>, i: nat, b: int, r1: int, r: int, r0: int)
    requires i < |xs|
    requires Val(after) * b + r1 == Val(xs[i + 1..]) + Pow(|xs| - i - 1) * r0
    requires q * b + r == r1 * B + xs[i]
    ensures Val([q] + after) * b + r == Val(xs[i..]) + Pow(|xs| - i) * r0
  {
    hide Val, Pow;
    ValCons(q, after);
    ValPrev(xs, i);
    PowNext(|xs| - i - 1);
    assert (q + B * Val(after)) * b == q * b + B * (Val(after) * b);
    assert (B * Pow(|xs| - i - 1)) * r0 == B * (Pow(|xs| - i - 1) * r0);
  }
}
