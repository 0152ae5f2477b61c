/**
 Division in base 10^19 (mp_div1_dec and mp_div_dec of qjs/libbf.c): the divisor is scaled until
 its top limb reaches half the base, digits are estimated and corrected, and the remainder is
 scaled back.
 */
module DecimalDivision {
  import opened Limbs
  import opened WordDivision
  import opened RadixConversion
  import opened DecimalLimbs
  import Division
  import opened Bits
  import opened RoundingLimbs

  // ---- by one limb ----

  /** What an undone shift leaves. */
  lemma Unshift(t: int, b: int, p: int, q: int, r: int)
    requires p >= 1 && b >= 1 && q * (b * p) + r == t * p && 0 <= r < b * p
    ensures q * b + r / p == t && 0 <= r / p < b
  {
    var rest := t - q * b;
    assert rest * p == r by { assert (t - q * b) * p == t * p - (q * b) * p; Assoc(q, b, p); }
    Assoc(1, rest, p);
    if rest < 0 {
      MulMono(p, rest, -1);
    }
    if rest >= b {
      MulMono(p, b, rest);
    }
    assert r / p == rest by { DivExact(rest, p); }
  }

  lemma DivExact(x: int, p: int)
    requires p >= 1
    ensures (x * p) / p == x
  {
    var q := (x * p) / p;
    assert q * p + (x * p) % p == x * p;
    QuotientUnique(q, (x * p) % p, x, 0, p);
  }

  lemma QuotientIsDec(r: int, x: int, b: int, q: int, r': int)
    requires 0 <= r < b && 0 <= x < D && q * b + r' == r * D + x && 0 <= r' < b
    ensures 0 <= q < D
  {
    if q >= D {
      MulMono(b, D, q);
      MulMono(D, r, b - 1);
      assert false;
    }
    if q < 0 {
      MulMono(b, q, -1);
      assert false;
    }
  }

  lemma WideFits(r: int, x: int, b: int, p: int)
    requires 0 <= r < b && 0 <= x < D && 1 <= p && b * p < B
    ensures 0 <= (r * D + x) * p && ((r * D + x) * p) / B < b * p
  {
    MulMono(D, r, b - 1);
    MulMono(p, r * D + x + 1, b * D);
    assert (b * D) * p == (b * p) * D;
    assert (r * D + x) * p >= 0 by { Product(r * D + x, p); }
    MulMono(b * p, D, B);
    var t := (r * D + x) * p;
    if t / B >= b * p {
      MulMono(B, b * p, t / B);
    }
  }

  /** One limb of a quotient: with a reciprocal of the shifted divisor, or by the machine's division. */
  method DivideLimb(r: Limb, x: Limb, b: Limb, useInverse: bool, shift: nat, inverse: Limb) returns (q: Limb, r': Limb)
    requires 0 < b && r < b < D && x < D
    requires useInverse ==> shift == Clz(b) && IsReciprocal(b * Two(shift), inverse)
    ensures q < D && r' < b && q * b + r' == r * D + x
  {
    hide Two;
    if useInverse {
      var p := Two(shift);
      var t := (r * D + x) * p;
      WideFits(r, x, b, p);
      var qr := DivideWord(t / B, t % B, b * p, inverse);
      Unshift(r * D + x, b, p, qr.0, qr.1);
      q, r' := qr.0, qr.1 / p;
    } else {
      var t := r * D + x;
      q, r' := t / b, t % b by { QuotientIsDec(r, x, b, t / b, t % b); }
    }
    QuotientIsDec(r, x, b, q, r');
  }

  lemma Div1Step(after: seq<Limb>, q: Limb, xs: seq<Limb>, i: nat, b: int, r1: int, r: int, r0: int)
    requires i < |xs|
    requires DVal(after) * b + r1 == DVal(xs[i + 1..]) + DPow(|xs| - i - 1) * r0
    requires q * b + r == r1 * D + xs[i]
    ensures DVal([q] + after) * b + r == DVal(xs[i..]) + DPow(|xs| - i) * r0
  {
    hide DVal, DPow;
    DCons(q, after);
    DPrev(xs, i);
    DPowNext(|xs| - i - 1);
    assert (q + D * DVal(after)) * b == q * b + D * (DVal(after) * b);
    assert (D * DPow(|xs| - i - 1)) * r0 == D * (DPow(|xs| - i - 1) * r0);
  }

  /** mp_div1_dec: res = (x + r0 * base^n) / b from the top limb down; res may be x. */
  method Div1Dec(res: array<Limb>, x: array<Limb>, n: nat, b: Limb, r0: Limb) returns (r: Limb)
    requires n <= res.Length && n <= x.Length && r0 < b < D && Dec(x[..n])
    modifies res
    ensures OnlyWithin(res, 0, n) && Dec(res[..n]) && r < b
    ensures DVal(res[..n]) * b + r == old(DVal(x[..n])) + DPow(n) * r0
  {
    hide DVal, DPow, Power;
    ghost var xs := x[..n];
    DNone(xs[n..]);
    DNone(res[n..n]);
    var half := D / 2;
    var useInverse := b != 2 && n >= UDIV1NORM_THRESHOLD;
    var shift := if useInverse then Clz(b) else 0;
    var inverse: Limb := 0;
    if useInverse {
      var b' := b * Two(shift);
      inverse := ReciprocalWord(b');
    }
    r := r0;
    var i := n;
    while i > 0
      invariant 0 <= i <= n && r < b
      invariant forall m :: 0 <= m < i || n <= m < res.Length ==> res[m] == old(res[m])
      invariant forall m :: 0 <= m < i ==> x[m] == xs[m]
      invariant Dec(res[i..n])
      invariant DVal(res[i..n]) * b + r == DVal(xs[i..]) + DPow(n - i) * r0
    {
      ghost var after, r1 := res[i..n], r;
      i := i - 1;
      assert x[i] == xs[i];
      var q: Limb;
      if b == 2 {
        q := x[i] / 2 + (if r != 0 then half else 0);
        r := x[i] % 2;
      } else {
        q, r := DivideLimb(r, x[i], b, useInverse, shift, inverse);
      }
      res[i] := q;
      assert res[i..n] == [q] + after;
      Div1Step(after, q, xs, i, b, r1, r, r0);
    }
    assert xs[0..] == xs;
    assert res[0..n] == res[..n];
  }

  // ---- one digit ----

  lemma DWindow(a: array<Limb>, i: nat, nb: nat)
    requires i + nb < a.Length
    ensures DVal(a[i..i + nb + 1]) == DVal(a[i..i + nb]) + DPow(nb) * a[i + nb]
  {
    hide DVal, DPow;
    assert a[i..i + nb + 1] == a[i..i + nb] + [a[i + nb]];
    DSnoc(a[i..i + nb], a[i + nb]);
  }

  /** A window of nb limbs and the limb above it; the limb above may have wrapped. */
  ghost function Wide(low: int, top: int, nb: nat): int {
    low + DPow(nb) * top
  }

  /** The add-back loop: the window holds a negative difference modulo base^(nb+1). */
  method AddBackDec(taba: array<Limb>, i: nat, tabb: array<Limb>, nb: nat, q0: Limb, ghost x: int) returns (q: Limb, backs: nat)
    requires taba != tabb && i + nb < taba.Length && nb <= tabb.Length && Dec(tabb[..nb]) && Dec(taba[i..i + nb]) && taba[i + nb] < D
    requires Wide(DVal(taba[i..i + nb]), taba[i + nb], nb) == x - q0 * DVal(tabb[..nb]) + DPow(nb + 1)
    requires 0 <= x && -2 * DVal(tabb[..nb]) <= x - q0 * DVal(tabb[..nb]) < 0
    modifies taba
    ensures OnlyWithin(taba, i, i + nb + 1) && Dec(taba[i..i + nb])
    ensures q == q0 - backs && 1 <= backs <= 2
    ensures DVal(taba[i..i + nb]) == x - q * DVal(tabb[..nb]) && 0 <= x - q * DVal(tabb[..nb]) < DVal(tabb[..nb])
  {
    hide DVal, DPow;
    ghost var b := DVal(tabb[..nb]);
    DPowNext(nb);
    q, backs := q0, 0;
    while true
      invariant OnlyWithin(taba, i, i + nb + 1) && tabb[..nb] == old(tabb[..nb]) && Dec(taba[i..i + nb]) && taba[i + nb] < D
      invariant q == q0 - backs && backs <= 1
      invariant Wide(DVal(taba[i..i + nb]), taba[i + nb], nb) == x - q * b + DPow(nb + 1)
      invariant (backs - 2) * b <= x - q * b < 0
      decreases q
    {
      assert q > 0;
      ghost var low, top: int := DVal(taba[i..i + nb]), taba[i + nb];
      assert q * b == (q - 1) * b + b && (backs - 2) * b + b == (backs - 1) * b;
      q, backs := q - 1, backs + 1;
      var c := AddDec(taba, i, tabb, nb, 0);
      ghost var low' := DVal(taba[i..i + nb]);
      BackStep(low, low', c, top, b, DPow(nb));
      DRange(taba[i..i + nb]);
      if c != 0 {
        ghost var lows := taba[i..i + nb];
        taba[i + nb] := taba[i + nb] + 1;
        assert taba[i..i + nb] == lows;
        if taba[i + nb] == D {
          break;
        }
      }
      StillNegative(low', taba[i + nb], DPow(nb));
      assert backs < 2;
    }
  }

  lemma BackStep(low: int, low': int, c: int, top: int, b: int, p: int)
    requires low' + c * p == low + b && 0 <= c <= 1
    ensures low' + p * (top + c) == low + p * top + b
    ensures top + c == D ==> low' == low + p * top + b - D * p
  {
    assert p * (top + c) == p * top + c * p;
  }

  lemma StillNegative(low: int, top: int, p: int)
    requires 0 <= low < p && top < D
    ensures low + p * top < D * p
  {
    MulMono(p, top, D - 1);
    assert p * (D - 1) == D * p - p;
  }

  lemma DTopTwo(s: seq<Limb>)
    requires |s| >= 2 && Dec(s)
    ensures var u := s[|s| - 1] * D + s[|s| - 2]; u * DPow(|s| - 2) <= DVal(s) < (u + 1) * DPow(|s| - 2)
  {
    hide DVal, DPow;
    var k := |s| - 2;
    assert s == s[..k] + s[k..] && s[k..] == [s[k]] + [s[k + 1]];
    DConcat(s[..k], s[k..]);
    DRange(s[..k]);
    DCons(s[k], [s[k + 1]]);
    DCons(s[k + 1], []);
    DNone([]);
    assert [s[k + 1]] + [] == [s[k + 1]];
    var u := s[k + 1] * D + s[k];
    assert (u + 1) * DPow(k) == DPow(k) * u + DPow(k);
  }

  lemma DTop(s: seq<Limb>)
    requires |s| >= 1 && Dec(s)
    ensures s[|s| - 1] * DPow(|s| - 1) <= DVal(s) < (s[|s| - 1] + 1) * DPow(|s| - 1)
  {
    hide DVal, DPow;
    var n := |s| - 1;
    assert s[..n] + [s[n]] == s;
    DSnoc(s[..n], s[n]);
    DRange(s[..n]);
    assert (s[n] + 1) * DPow(n) == DPow(n) * s[n] + DPow(n);
  }

  /** The estimate from the two top limbs, within 128 bits. */
  method GuessDec(u1: Limb, u0: Limb, b1: Limb) returns (q: Limb)
    requires u1 < D && u0 < D && 0 < b1 < D
    ensures q == Division.DigitGuess(D, u1 * D + u0, b1) && q < D
  {
    Division.GuessRange(D, u1 * D + u0, b1);
    if u1 >= b1 {
      MulMono(D, b1, u1);
      q := D - 1;
    } else {
      MulMono(D, u1, b1 - 1);
      q := (u1 * D + u0) / b1;
    }
  }

  lemma Residue(low: int, low': int, r: int, v: int, p: int, bq: int)
    requires low' - r * p == low - bq
    ensures low' + p * (v - r) == low + p * v - bq
    ensures low' + p * (v - r + D) == low + p * v - bq + D * p
  {
    assert p * (v - r) == p * v - r * p;
    assert p * (v - r + D) == p * (v - r) + p * D;
  }

  /** One pass of the main loop: the window is reduced modulo b. */
  method DivideDigitDec(taba: array<Limb>, i: nat, tabb: array<Limb>, nb: nat) returns (q: Limb, backs: nat)
    requires taba != tabb && i + nb < taba.Length && 1 <= nb <= tabb.Length
    requires Dec(taba[i..i + nb + 1]) && Dec(tabb[..nb]) && 2 * tabb[nb - 1] >= D
    requires DVal(taba[i..i + nb + 1]) < D * DVal(tabb[..nb])
    modifies taba
    ensures OnlyWithin(taba, i, i + nb + 1) && Dec(taba[i..i + nb]) && q < D && backs <= 2
    ensures Division.IsDivision(old(DVal(taba[i..i + nb + 1])), DVal(tabb[..nb]), q, DVal(taba[i..i + nb]))
  {
    hide DVal, DPow;
    ghost var b, win := DVal(tabb[..nb]), taba[i..i + nb + 1];
    ghost var x, b1: int := DVal(win), tabb[nb - 1];
    assert taba[i + nb] == win[nb] && taba[i + nb - 1] == win[nb - 1];
    q := GuessDec(taba[i + nb], taba[i + nb - 1], tabb[nb - 1]);
    assert -2 * b <= x - q * b < b && 0 <= x by { GuessCloseDec(win, tabb[..nb], q); }
    DWindow(taba, i, nb);
    DPowNext(nb);
    ghost var low := DVal(taba[i..i + nb]);
    assert taba[i..i + nb] == win[..nb];
    var r := SubMul1Dec(taba, i, tabb, nb, q);
    var v := taba[i + nb];
    Residue(low, DVal(taba[i..i + nb]), r, v, DPow(nb), b * q);
    Commute(b, q);
    ghost var lows := taba[i..i + nb];
    DRange(lows);
    var a := WrapSub(v, r);
    var c := a > v;
    if c {
      a := WrapAdd(a, D);
    }
    taba[i + nb] := a;
    assert taba[i..i + nb] == lows;
    backs := 0;
    if c {
      NegativeResidue(DVal(lows), D * 0 + v - r, DPow(nb));
      q, backs := AddBackDec(taba, i, tabb, nb, q, x);
    } else {
      TopIsZero(DVal(lows), a, DPow(nb), b, tabb[..nb], x - q * b);
    }
  }

  lemma GuessCloseDec(win: seq<Limb>, bs: seq<Limb>, q: int)
    requires |win| == |bs| + 1 && |bs| >= 1 && Dec(win) && Dec(bs) && 2 * bs[|bs| - 1] >= D && DVal(win) < D * DVal(bs)
    requires q == Division.DigitGuess(D, win[|bs|] * D + win[|bs| - 1], bs[|bs| - 1])
    ensures -2 * DVal(bs) <= DVal(win) - q * DVal(bs) < DVal(bs) && 0 <= DVal(win)
  {
    hide DVal, DPow;
    var nb := |bs|;
    DTopTwo(win);
    DTop(bs);
    DRange(win);
    DPowNext(nb - 1);
    Division.GuessClose(D, DVal(win), DVal(bs), win[nb] * D + win[nb - 1], bs[nb - 1], DPow(nb - 1));
  }

  lemma NegativeResidue(low: int, top: int, p: int)
    requires 0 <= low < p && top < 0
    ensures low + p * top < 0
  {
    MulMono(p, top, -1);
  }

  /** A non-negative residue below b has nothing in the limb above the window. */
  lemma TopIsZero(low: int, top: int, p: int, b: int, bs: seq<Limb>, rest: int)
    requires Dec(bs) && b == DVal(bs) && p == DPow(|bs|) && low + p * top == rest < b && top >= 0 && 0 <= low
    ensures rest == low
  {
    hide DVal, DPow;
    DRange(bs);
    if top > 0 {
      MulMono(p, 1, top);
      assert false;
    }
  }

  // ---- the whole division ----

  lemma QuotientStepDec(ai: int, hi: int, r: int, b: int, qs: int, x: int, q: int, r': int)
    requires hi == qs * b + r && x == ai + D * r && Division.IsDivision(x, b, q, r')
    ensures Division.IsDivision(ai + D * hi, b, q + D * qs, r')
  {
    assert (q + D * qs) * b == q * b + D * (qs * b);
  }

  /** Digit i of the quotient and the remainder of aLimbs[i..]. */
  method DivideStepDec(tabq: array<Limb>, m: nat, taba: array<Limb>, i: nat, tabb: array<Limb>, nb: nat, ghost aLimbs: seq<Limb>)
    requires taba != tabb && tabq != taba && tabq != tabb
    requires 1 <= nb <= tabb.Length && i + nb < taba.Length && i < m <= tabq.Length && i < |aLimbs|
    requires Dec(tabb[..nb]) && 2 * tabb[nb - 1] >= D && Dec(taba[i + 1..i + 1 + nb]) && Dec(aLimbs) && taba[i] == aLimbs[i] && Dec(tabq[i + 1..m])
    requires Division.IsDivision(DVal(aLimbs[i + 1..]), DVal(tabb[..nb]), DVal(tabq[i + 1..m]), DVal(taba[i + 1..i + 1 + nb]))
    modifies tabq, taba
    ensures OnlyWithin(tabq, i, i + 1) && OnlyWithin(taba, i, i + nb + 1) && Dec(taba[i..i + nb]) && Dec(tabq[i..m])
    ensures Division.IsDivision(DVal(aLimbs[i..]), DVal(tabb[..nb]), DVal(tabq[i..m]), DVal(taba[i..i + nb]))
  {
    hide DVal, DPow;
    ghost var b, r, qs := DVal(tabb[..nb]), taba[i + 1..i + 1 + nb], tabq[i + 1..m];
    ghost var win := taba[i..i + nb + 1];
    assert win == [taba[i]] + r;
    DCons(taba[i], r);
    var d, backs := DivideDigitDec(taba, i, tabb, nb);
    QuotientStepDec(aLimbs[i], DVal(aLimbs[i + 1..]), DVal(r), b, DVal(qs), DVal(win), d, DVal(taba[i..i + nb]));
    tabq[i] := d;
    assert tabq[i..m] == [d] + qs;
    DCons(d, qs);
    DPrev(aLimbs, i);
  }

  /** The leading digit of a normalised division is 0 or 1. */
  method DivideTopDec(taba: array<Limb>, i: nat, tabb: array<Limb>, nb: nat) returns (q: Limb)
    requires taba != tabb && i + nb <= taba.Length && 1 <= nb <= tabb.Length
    requires Dec(taba[i..i + nb]) && Dec(tabb[..nb]) && 2 * tabb[nb - 1] >= D
    modifies taba
    ensures OnlyWithin(taba, i, i + nb) && Dec(taba[i..i + nb]) && q <= 1
    ensures Division.IsDivision(old(DVal(taba[i..i + nb])), DVal(tabb[..nb]), q, DVal(taba[i..i + nb]))
  {
    hide DVal, DPow;
    ghost var xs, ys := taba[i..i + nb], tabb[..nb];
    q := 1;
    var j := nb;
    DNone(xs[nb..]);
    DNone(ys[nb..]);
    while j > 0
      invariant 0 <= j <= nb && q == 1 && xs[j..] == ys[j..]
    {
      j := j - 1;
      assert taba[i + j] == xs[j] && tabb[j] == ys[j];
      if taba[i + j] != tabb[j] {
        DecideAt(xs, ys, j);
        if taba[i + j] < tabb[j] {
          q := 0;
        }
        break;
      }
      assert xs[j..] == [xs[j]] + xs[j + 1..] && ys[j..] == [ys[j]] + ys[j + 1..];
    }
    assert xs[0..] == xs && ys[0..] == ys;
    assert q == 1 <==> DVal(xs) >= DVal(ys);
    DRange(xs);
    HalfRange(ys);
    if q == 1 {
      var k := SubDec(taba, i, tabb, nb, 0);
      DRange(taba[i..i + nb]);
      assert k == 0;
    }
  }

  /** The highest limb that differs decides a comparison. */
  lemma DecideAt(xs: seq<Limb>, ys: seq<Limb>, j: nat)
    requires |xs| == |ys| && j < |xs| && Dec(xs) && Dec(ys) && xs[j + 1..] == ys[j + 1..]
    ensures xs[j] < ys[j] ==> DVal(xs) < DVal(ys)
    ensures xs[j] > ys[j] ==> DVal(xs) > DVal(ys)
  {
    hide DVal, DPow;
    SplitAt(xs, j);
    SplitAt(ys, j);
    var p := DPow(j);
    if xs[j] < ys[j] {
      LimbGap(DVal(xs[..j]), xs[j], DVal(ys[..j]), ys[j], p, DVal(xs[j + 1..]));
    } else if xs[j] > ys[j] {
      LimbGap(DVal(ys[..j]), ys[j], DVal(xs[..j]), xs[j], p, DVal(xs[j + 1..]));
    }
  }

  lemma SplitAt(s: seq<Limb>, j: nat)
    requires j < |s| && Dec(s)
    ensures DVal(s) == DVal(s[..j]) + DPow(j) * (s[j] + D * DVal(s[j + 1..])) && 0 <= DVal(s[..j]) < DPow(j)
  {
    hide DVal, DPow;
    assert s == s[..j] + s[j..];
    DConcat(s[..j], s[j..]);
    DPrev(s, j);
    DRange(s[..j]);
  }

  lemma LimbGap(l: int, x: int, l': int, x': int, p: int, h: int)
    requires 0 <= l < p && 0 <= l' && x < x'
    ensures l + p * (x + D * h) < l' + p * (x' + D * h)
  {
    MulMono(p, x + 1, x');
    assert p * (x + D * h) == p * x + p * (D * h) && p * (x' + D * h) == p * x' + p * (D * h);
  }

  lemma HalfRange(s: seq<Limb>)
    requires |s| >= 1 && Dec(s) && 2 * s[|s| - 1] >= D
    ensures 2 * DVal(s) >= DPow(|s|)
  {
    hide DVal, DPow;
    var n := |s| - 1;
    DTop(s);
    DPowNext(n);
    var top: int := s[n];
    MulMono(DPow(n), D, 2 * top);
  }

  /** The digits from i down to 0. */
  method DivideLoopDec(tabq: array<Limb>, m: nat, taba: array<Limb>, i0: nat, tabb: array<Limb>, nb: nat, ghost aLimbs: seq<Limb>)
    requires taba != tabb && tabq != taba && tabq != tabb
    requires 1 <= nb <= tabb.Length && i0 + nb <= taba.Length && i0 <= m <= tabq.Length && i0 <= |aLimbs|
    requires Dec(tabb[..nb]) && 2 * tabb[nb - 1] >= D && Dec(taba[i0..i0 + nb]) && Dec(aLimbs) && Dec(tabq[i0..m])
    requires forall j :: 0 <= j < i0 ==> taba[j] == aLimbs[j]
    requires Division.IsDivision(DVal(aLimbs[i0..]), DVal(tabb[..nb]), DVal(tabq[i0..m]), DVal(taba[i0..i0 + nb]))
    modifies tabq, taba
    ensures Dec(tabq[..m]) && Dec(taba[..nb])
    ensures Division.IsDivision(DVal(aLimbs), DVal(tabb[..nb]), DVal(tabq[..m]), DVal(taba[..nb]))
  {
    hide DVal, DPow;
    ghost var b := DVal(tabb[..nb]);
    var i := i0;
    while i > 0
      invariant 0 <= i <= i0 && tabb[..nb] == old(tabb[..nb])
      invariant forall j :: 0 <= j < i ==> taba[j] == aLimbs[j]
      invariant Dec(taba[i..i + nb]) && Dec(tabq[i..m])
      invariant Division.IsDivision(DVal(aLimbs[i..]), b, DVal(tabq[i..m]), DVal(taba[i..i + nb]))
    {
      i := i - 1;
      DivideStepDec(tabq, m, taba, i, tabb, nb, aLimbs);
    }
    assert aLimbs[0..] == aLimbs && tabq[0..m] == tabq[..m] && taba[0..0 + nb] == taba[..nb];
  }

  /** Scaling by base / (r + 1) brings the top limb to half the base without a carry out. */
  lemma ScaledTop(r: int, mult: int)
    requires 0 < r && 2 * r < D && mult == D / (r + 1)
    ensures 2 <= mult && mult * r + mult <= D && 2 * (mult * r) >= D - 1
  {
    var e := D - mult * (r + 1);
    assert 0 <= e <= r;
    assert mult * (r + 1) == mult * r + mult;
    if mult < 2 {
      MulMono(r + 1, mult, 1);
      assert false;
    }
    TwiceScaled(r, mult, e);
  }

  lemma TwiceScaled(r: int, mult: int, e: int)
    requires 0 < r && mult >= 2 && 0 <= e <= r && D == mult * r + mult + e
    ensures 2 * (mult * r) >= D - 1
  {
    // mult * r >= mult + e - 1, as (mult - 1) * (r - 1) >= 0 and e <= r.
    assert (mult - 1) * (r - 1) >= 0 by { Product(mult - 1, r - 1); }
    assert (mult - 1) * (r - 1) == mult * r - mult - r + 1;
  }

  /** The scaled divisor: nb limbs, normalised. */
  method ScaleDivisor(tabb1: array<Limb>, nb: nat, mult: Limb) returns (tabb: array<Limb>)
    requires 1 <= nb <= tabb1.Length && Dec(tabb1[..nb]) && 0 < tabb1[nb - 1] && 2 * tabb1[nb - 1] < D && mult == D / (tabb1[nb - 1] + 1)
    ensures fresh(tabb) && tabb.Length == nb && Dec(tabb[..nb]) && 2 * tabb[nb - 1] >= D
    ensures DVal(tabb[..nb]) == DVal(tabb1[..nb]) * mult
  {
    hide DVal, DPow;
    ghost var bs, r: int := tabb1[..nb], tabb1[nb - 1];
    ScaledTop(r, mult);
    tabb := new Limb[nb];
    var l := Mul1Dec(tabb, tabb1, nb, mult, 0);
    DTop(bs);
    DTop(tabb[..nb]);
    DRange(tabb[..nb]);
    DPowNext(nb - 1);
    ScaledFits(DVal(bs), r, mult, DPow(nb - 1), DVal(tabb[..nb]), l, tabb[nb - 1]);
  }

  lemma ScaledFits(b: int, r: int, mult: int, p: int, b': int, l: int, top: int)
    requires p >= 1 && mult >= 2 && 0 < r && r * p <= b < (r + 1) * p && mult * r + mult <= D && 2 * (mult * r) >= D - 1
    requires b' + l * (D * p) == b * mult && 0 <= b' < D * p && 0 <= l && top * p <= b' < (top + 1) * p
    ensures l == 0 && 2 * top >= D
  {
    MulMono(mult, b + 1, (r + 1) * p);
    assert mult * ((r + 1) * p) == (mult * r + mult) * p;
    MulMono(p, mult * r + mult, D);
    if l >= 1 {
      MulMono(D * p, 1, l);
      assert false;
    }
    MulMono(mult, r * p, b);
    assert mult * (r * p) == (mult * r) * p;
    if top < mult * r {
      MulMono(p, top + 1, mult * r);
      assert false;
    }
  }

  /** The top nb limbs of a scaled dividend are below the scaled divisor. */
  lemma TopBelow(aLimbs: seq<Limb>, na: nat, nb: nat, a: int, mult: int, b1: int, top: int)
    requires |aLimbs| == na + 1 && 1 <= nb <= na && Dec(aLimbs) && DVal(aLimbs) == a * mult && 0 <= a < DPow(na)
    requires mult >= 1 && top >= 1 && top * DPow(nb - 1) <= b1
    ensures 0 <= DVal(aLimbs[na - nb + 1..]) < b1 * mult
  {
    hide DVal, DPow;
    var m := na - nb + 1;
    var high := aLimbs[m..];
    assert aLimbs == aLimbs[..m] + high;
    DConcat(aLimbs[..m], high);
    DRange(aLimbs[..m]);
    DRange(high);
    PowersOf(m, nb - 1);
    DPowNext(m);
    DPowNext(nb - 1);
    AtMost(DVal(high), DVal(aLimbs[..m]), a, mult, b1, DPow(m), DPow(nb - 1), top);
  }

  lemma PowersOf(m: nat, k: nat)
    ensures DPow(m + k) == DPow(m) * DPow(k)
  {
    PowerAdd(D, m, k);
  }

  lemma AtMost(h: int, low: int, a: int, mult: int, b1: int, p: int, p': int, top: int)
    requires p >= 1 && p' >= 1 && 0 <= low && mult >= 1 && top >= 1 && top * p' <= b1 && low + p * h == a * mult && a < p * p'
    ensures h < b1 * mult
  {
    MulMono(p', 1, top);
    MulMono(mult, a + 1, p * p');
    assert (p * p') * mult == p * (p' * mult) && mult * (p * p') == (p * p') * mult;
    if h >= p' * mult {
      MulMono(p, p' * mult, h);
      assert false;
    }
    MulMono(mult, p', b1);
  }

  /** Undoing the scale. */
  lemma Unscale(a: int, b: int, mult: int, q: int, r: int, r': int, rest: int)
    requires mult >= 1 && Division.IsDivision(a * mult, b * mult, q, r) && r' * mult + rest == r && 0 <= rest < mult
    ensures Division.IsDivision(a, b, q, r')
  {
    var e := a - q * b;
    assert e * mult == r by { assert (a - q * b) * mult == a * mult - (q * b) * mult; Assoc(q, b, mult); }
    QuotientUnique(r', rest, e, 0, mult);
    if e < 0 {
      MulMono(mult, e, -1);
    }
    if e >= b {
      MulMono(mult, b, e);
    }
  }

  /** A divisor whose top limb is at least D / 2 needs no scaling. */
  method DivideNormalDec(tabq: array<Limb>, taba: array<Limb>, na: nat, tabb1: array<Limb>, nb: nat)
    requires taba != tabb1 && tabq != taba && tabq != tabb1
    requires 1 <= nb <= na && nb <= tabb1.Length && na - nb < tabq.Length && na <= taba.Length
    requires Dec(taba[..na]) && Dec(tabb1[..nb]) && tabb1[nb - 1] >= D / 2
    modifies tabq, taba
    ensures Dec(tabq[..na - nb + 1]) && Dec(taba[..nb])
    ensures Division.IsDivision(old(DVal(taba[..na])), DVal(tabb1[..nb]), DVal(tabq[..na - nb + 1]), DVal(taba[..nb]))
  {
    hide DVal, DPow;
    var i := na - nb;
    ghost var aLimbs := taba[..na];
    assert aLimbs[i..] == taba[i..i + nb];
    var q := DivideTopDec(taba, i, tabb1, nb);
    tabq[i] := q;
    assert tabq[i..na - nb + 1] == [q] + [];
    DCons(q, []);
    DNone([]);
    DivideLoopDec(tabq, na - nb + 1, taba, i, tabb1, nb, aLimbs);
  }

  /** Multiply the dividend into one limb more. */
  method ScaleDividend(taba: array<Limb>, na: nat, mult: Limb)
    requires na < taba.Length && Dec(taba[..na]) && mult < D
    modifies taba
    ensures Dec(taba[..na + 1]) && DVal(taba[..na + 1]) == old(DVal(taba[..na])) * mult
  {
    hide DVal, DPow;
    var top := Mul1Dec(taba, taba, na, mult, 0);
    ghost var low := taba[..na];
    taba[na] := top;
    assert taba[..na + 1] == low + [top];
    DSnoc(low, top);
    Commute(DPow(na), top);
  }

  /** A smaller top limb: both numbers are scaled by mult, and the remainder is scaled back. */
  method DivideScaledDec(tabq: array<Limb>, taba: array<Limb>, na: nat, tabb1: array<Limb>, nb: nat)
    requires taba != tabb1 && tabq != taba && tabq != tabb1
    requires 1 <= nb <= na && nb <= tabb1.Length && na - nb < tabq.Length && na < taba.Length
    requires Dec(taba[..na]) && Dec(tabb1[..nb]) && 0 < tabb1[nb - 1] < D / 2
    modifies tabq, taba
    ensures Dec(tabq[..na - nb + 1]) && Dec(taba[..nb])
    ensures Division.IsDivision(old(DVal(taba[..na])), DVal(tabb1[..nb]), DVal(tabq[..na - nb + 1]), DVal(taba[..nb]))
  {
    hide DVal, DPow;
    ghost var a, b := DVal(taba[..na]), DVal(tabb1[..nb]);
    DRange(taba[..na]);
    DTop(tabb1[..nb]);
    var r, i := tabb1[nb - 1], na - nb;
    var mult := D / (r + 1);
    ScaledTop(r, mult);
    var tabb := ScaleDivisor(tabb1, nb, mult);
    ScaleDividend(taba, na, mult);
    ghost var aLimbs := taba[..na + 1];
    TopBelow(aLimbs, na, nb, a, mult, b, r);
    assert taba[i + 1..i + 1 + nb] == aLimbs[i + 1..];
    DNone(tabq[i + 1..na - nb + 1]);
    DivideLoopDec(tabq, na - nb + 1, taba, i + 1, tabb, nb, aLimbs);
    ghost var r', qs := DVal(taba[..nb]), tabq[..na - nb + 1];
    var rest := Div1Dec(taba, taba, nb, mult, 0);
    assert tabq[..na - nb + 1] == qs;
    Unscale(a, b, mult, DVal(qs), r', DVal(taba[..nb]), rest);
  }

  /**
   mp_div_dec: quotient and remainder of the na limbs of taba by the nb limbs of tabb1; the
   remainder is left in the low limbs of taba.
   */
  method MpDivDec(tabq: array<Limb>, taba: array<Limb>, na: nat, tabb1: array<Limb>, nb: nat)
    requires taba != tabb1 && tabq != taba && tabq != tabb1
    requires 1 <= nb <= na && nb <= tabb1.Length && na - nb < tabq.Length && na <= taba.Length
    requires Dec(taba[..na]) && Dec(tabb1[..nb]) && tabb1[nb - 1] != 0 && (2 * tabb1[nb - 1] < D ==> na < taba.Length)
    modifies tabq, taba
    ensures Dec(tabq[..na - nb + 1]) && Dec(taba[..nb])
    ensures Division.IsDivision(old(DVal(taba[..na])), DVal(tabb1[..nb]), DVal(tabq[..na - nb + 1]), DVal(taba[..nb]))
  {
    if tabb1[nb - 1] >= D / 2 {
      DivideNormalDec(tabq, taba, na, tabb1, nb);
    } else {
      DivideScaledDec(tabq, taba, na, tabb1, nb);
    }
  }
}
