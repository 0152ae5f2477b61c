/**
 The schoolbook loop of mp_divnorm (qjs/libbf.c): estimated digits, added back at most twice,
 leave the exact quotient and remainder.
 */
module Division {
  import opened Limbs
  import opened LimbKernels
  import opened WordDivision

  const DIVNORM_LARGE_THRESHOLD := 50

  ghost predicate Normalised(s: seq<Limb>) {
    |s| > 0 && s[|s| - 1] >= HALF
  }

  /** The exact quotient and remainder of a by b. */
  ghost predicate IsDivision(a: int, b: int, q: int, r: int) {
    a == q * b + r && 0 <= r < b
  }

  // ---- one quotient digit ----

  /** The digit guessed in a base from the two top limbs u of the window and the top limb of b. */
  function DigitGuess(base: int, u: int, b1: int): int
    requires b1 > 0
  {
    if u >= b1 * base then base - 1 else u / b1
  }

  /** With a normalised divisor the guess is never too small and at most two too large. */
  lemma GuessClose(base: int, x: int, b: int, u: int, b1: int, p: int)
    requires p >= 1 && 2 <= base <= 2 * b1 && 0 <= u
    requires b1 * p <= b < (b1 + 1) * p && u * p <= x < (u + 1) * p && x < base * b
    ensures var q := DigitGuess(base, u, b1); 0 <= q < base && -2 * b <= x - q * b < b
  {
    var q := DigitGuess(base, u, b1);
    GuessRange(base, u, b1);
    assert (b1 + 1) * p == b1 * p + p;
    GuessNotTooLarge(base, x, b, u, b1, p, q, b - b1 * p);
    if u < b1 * base {
      GuessNotTooSmall(x, b, u, b1, p, q);
    } else {
      assert (q + 1) * b == q * b + b;
    }
  }

  lemma GuessRange(base: int, u: int, b1: int)
    requires 0 < b1 && 0 <= u && base >= 1
    ensures var q := DigitGuess(base, u, b1); 0 <= q < base && q * b1 <= u && (u < b1 * base ==> u < q * b1 + b1)
  {
    var q := DigitGuess(base, u, b1);
    if u >= b1 * base {
      MulMono(b1, base - 1, base);
    } else {
      assert q * b1 <= u < q * b1 + b1;
      if q >= base {
        MulMono(b1, base, q);
        assert false;
      }
      if q < 0 {
        MulMono(b1, q, -1);
        assert false;
      }
    }
  }

  lemma GuessNotTooLarge(base: int, x: int, b: int, u: int, b1: int, p: int, q: int, rest: int)
    requires p >= 1 && base <= 2 * b1 && 0 <= q < base && q * b1 <= u && u * p <= x
    requires b == b1 * p + rest && 0 <= rest < p
    ensures -2 * b <= x - q * b
  {
    var t, m := q * b1, b1 * p;
    MulMono(p, t, u);
    MulMono(q, rest, p);
    MulMono(p, q, 2 * b1);
    MulAssoc(q, b1, p);
    MulSum(q, m, rest);
    MulAssoc(2, b1, p);
  }

  lemma GuessNotTooSmall(x: int, b: int, u: int, b1: int, p: int, q: int)
    requires p >= 1 && b1 >= 1 && 0 <= q && u < q * b1 + b1 && x < (u + 1) * p && b1 * p <= b
    ensures x < q * b + b
  {
    MulMono(p, u + 1, (q + 1) * b1);
    MulMono(q + 1, b1 * p, b);
    assert ((q + 1) * b1) * p == (q + 1) * (b1 * p);
    assert (q + 1) * b == q * b + b;
  }

  /** A window of nb limbs and the limb above it. */
  lemma Window(a: array<Limb>, i: nat, nb: nat)
    requires i + nb < a.Length
    ensures Val(a[i..i + nb + 1]) == Val(a[i..i + nb]) + Pow(nb) * a[i + nb]
  {
    hide Val, Pow;
    assert a[i..i + nb + 1] == a[i..i + nb] + [a[i + nb]];
    ValSnoc(a[i..i + nb], a[i + nb]);
  }

  /** Adding the divisor back once: the top limb wraps to 0 exactly when the sum overflows the window. */
  lemma BackStep(low: int, low': int, c: int, top: int, b: int, p: int, w: int)
    requires low' + c * p == low + b && w == low + p * top && 0 <= c <= 1
    ensures low' + p * (top + c) == w + b
    ensures top + c == B ==> low' == w + b - B * p
  {
    assert p * (top + c) == p * top + c * p;
  }

  /** The add-back loop of mp_divnorm: the window holds a negative difference modulo Pow(nb + 1). */
  method AddBack(taba: array<Limb>, i: nat, tabb: array<Limb>, bo: nat, nb: nat, q0: Limb, ghost x: int)
    returns (q: Limb, backs: nat)
    requires taba != tabb && i + nb < taba.Length && bo + nb <= tabb.Length
    requires Val(taba[i..i + nb + 1]) == x - q0 * Val(tabb[bo..bo + nb]) + Pow(nb + 1)
    requires 0 <= x && -2 * Val(tabb[bo..bo + nb]) <= x - q0 * Val(tabb[bo..bo + nb]) < 0
    modifies taba
    ensures OnlyWithin(taba, i, i + nb + 1)
    ensures q == q0 - backs && 1 <= backs <= 2
    ensures Val(taba[i..i + nb + 1]) == x - q * Val(tabb[bo..bo + nb]) && 0 <= x - q * Val(tabb[bo..bo + nb]) < Val(tabb[bo..bo + nb])
  {
    hide Val, Pow;
    ghost var b := Val(tabb[bo..bo + nb]);
    PowNext(nb);
    q, backs := q0, 0;
    while true
      invariant OnlyWithin(taba, i, i + nb + 1) && tabb[bo..bo + nb] == old(tabb[bo..bo + nb])
      invariant q == q0 - backs && backs <= 1
      invariant Val(taba[i..i + nb + 1]) == x - q * b + Pow(nb + 1)
      invariant (backs - 2) * b <= x - q * b < 0
      decreases q
    {
      assert q > 0;
      Window(taba, i, nb);
      ghost var low, top: int, w := Val(taba[i..i + nb]), taba[i + nb], Val(taba[i..i + nb + 1]);
      assert q * b == (q - 1) * b + b && (backs - 2) * b + b == (backs - 1) * b;
      q, backs := q - 1, backs + 1;
      var c := MpAdd(taba, i, taba, i, tabb, bo, nb, 0);
      ghost var low' := Val(taba[i..i + nb]);
      BackStep(low, low', c, top, b, Pow(nb), w);
      if c != 0 {
        taba[i + nb] := WrapAdd(taba[i + nb], 1);
        assert Val(taba[i..i + nb]) == low' by {
          assert taba[i..i + nb] == taba[..][i..i + nb];
        }
        if taba[i + nb] == 0 {
          Window(taba, i, nb);
          ValBound(taba[i..i + nb]);
          break;
        }
      }
      Window(taba, i, nb);
      ValBound(taba[i..i + nb + 1]);
      assert backs < 2;
    }
  }

  /** The digit chosen by mp_divnorm, with or without the precomputed reciprocal. */
  method GuessDigit(u1: Limb, u0: Limb, b1: Limb, useInverse: bool, inverse: Limb) returns (q: Limb)
    requires b1 >= HALF && (useInverse ==> IsReciprocal(b1, inverse))
    ensures q == DigitGuess(B, u1 * B + u0, b1)
  {
    GuessCases(u1, u0, b1);
    if u1 >= b1 {
      q := B - 1;
    } else if useInverse {
      var qr := DivideWord(u1, u0, b1, inverse);
      q := qr.0;
      GuessIsQuotient(u1 * B + u0, b1, q, qr.1);
    } else {
      q := (u1 * B + u0) / b1;
    }
  }

  lemma GuessCases(u1: int, u0: int, b1: int)
    requires 0 < b1 && 0 <= u1 && 0 <= u0 < B
    ensures u1 >= b1 <==> u1 * B + u0 >= b1 * B
    ensures 0 <= DigitGuess(B, u1 * B + u0, b1) < B
  {
    GuessRange(B, u1 * B + u0, b1);
  }

  lemma GuessIsQuotient(u: int, b1: int, q: int, r: int)
    requires 0 <= u < b1 * B && q * b1 + r == u && 0 <= r < b1
    ensures q == DigitGuess(B, u, b1)
  {
    var t := u / b1;
    assert t * b1 + u % b1 == u;
    QuotientUnique(q, r, t, u % b1, b1);
  }

  /** The two top limbs of a window bracket its value. */
  lemma TopTwo(s: seq<Limb>, b: int)
    requires |s| >= 2
    ensures var u := s[|s| - 1] * B + s[|s| - 2]; u * Pow(|s| - 2) <= Val(s) < (u + 1) * Pow(|s| - 2)
  {
    hide Val, Pow;
    var k := |s| - 2;
    ValSplit(s, k);
    ValBound(s[..k]);
    assert s[k..] == [s[k]] + [s[k + 1]];
    ValCons(s[k], [s[k + 1]]);
    ValSingle(s[k + 1]);
    var u := s[k + 1] * B + s[k];
    assert (u + 1) * Pow(k) == Pow(k) * u + Pow(k);
  }

  /** mp_sub_mul1 followed by the borrow from the limb above the window. */
  lemma Residue(low: int, low': int, r: int, v: int, p: int, bq: int)
    requires low' - r * p == low - bq && 0 <= v < B && 0 <= r < B
    ensures v >= r ==> low' + p * (v - r) == low + p * v - bq
    ensures v < r ==> low' + p * (v - r + B) == low + p * v - bq + B * p
  {
    assert p * (v - r) == p * v - r * p;
    assert p * (v - r + B) == p * v - r * p + B * p;
  }

  /** One pass of the main loop: reduce the window modulo b and return the digit and the number of add-backs. */
  method DivideDigit(taba: array<Limb>, i: nat, tabb: array<Limb>, bo: nat, nb: nat, useInverse: bool, inverse: Limb)
    returns (q: Limb, backs: nat)
    requires taba != tabb && i + nb < taba.Length && 2 <= nb && bo + nb <= tabb.Length
    requires Normalised(tabb[bo..bo + nb]) && (useInverse ==> IsReciprocal(tabb[bo + nb - 1], inverse))
    requires Val(taba[i..i + nb + 1]) < B * Val(tabb[bo..bo + nb])
    modifies taba
    ensures OnlyWithin(taba, i, i + nb + 1)
    ensures IsDivision(old(Val(taba[i..i + nb + 1])), Val(tabb[bo..bo + nb]), q, Val(taba[i..i + nb + 1]))
    ensures backs <= 2
  {
    hide Val, Pow;
    ghost var b, x := Val(tabb[bo..bo + nb]), Val(taba[i..i + nb + 1]);
    ghost var b1: int := tabb[bo + nb - 1];
    q := GuessDigit(taba[i + nb], taba[i + nb - 1], tabb[bo + nb - 1], useInverse, inverse);
    assert -2 * b <= x - q * b < b by {
      TopTwo(taba[i..i + nb + 1], b);
      ValTop(tabb[bo..bo + nb]);
      GuessClose(B, x, b, taba[i + nb] * B + taba[i + nb - 1], b1, Pow(nb - 1));
    }
    Window(taba, i, nb);
    PowNext(nb);
    ghost var low := Val(taba[i..i + nb]);
    var r := MpSubMul1(taba, i, tabb, bo, nb, q);
    var v := taba[i + nb];
    Residue(low, Val(taba[i..i + nb]), r, v, Pow(nb), b * q);
    var a := WrapSub(v, r);
    ghost var lows := taba[i..i + nb];
    taba[i + nb] := a;
    assert taba[i..i + nb] == lows;
    Window(taba, i, nb);
    backs := 0;
    assert b * q == q * b;
    if a > v {
      ValBound(taba[i..i + nb + 1]);
      q, backs := AddBack(taba, i, tabb, bo, nb, q, x);
    }
  }

  /** Extending the quotient by one digit keeps "dividend = quotient * b + remainder". */
  lemma QuotientStep(ai: int, hi: int, r: int, b: int, qs: int, x: int, q: int, r': int)
    requires hi == qs * b + r && x == ai + B * r && IsDivision(x, b, q, r')
    ensures IsDivision(ai + B * hi, b, q + B * qs, r')
  {
    assert (q + B * qs) * b == q * b + B * (qs * b);
  }

  /** The first step of mp_divnorm: the leading quotient limb is 0 or 1. */
  method DivideTop(taba: array<Limb>, n: nat, tabb: array<Limb>, bo: nat, nb: nat) returns (q: Limb)
    requires taba != tabb && n + nb <= taba.Length && 1 <= nb && bo + nb <= tabb.Length && Normalised(tabb[bo..bo + nb])
    modifies taba
    ensures OnlyWithin(taba, n, n + nb)
    ensures q <= 1
    ensures IsDivision(old(Val(taba[n..n + nb])), Val(tabb[bo..bo + nb]), q, Val(taba[n..n + nb]))
  {
    hide Val, Pow;
    var c := MpCmp(taba, n, tabb, bo, nb);
    ValBound(taba[n..n + nb]);
    TopHalf(tabb[bo..bo + nb]);
    q := Bit(c >= 0);
    if q == 1 {
      var k := MpSub(taba, n, taba, n, tabb, bo, nb, 0);
      ValBound(taba[n..n + nb]);
      assert k == 0;
    }
  }

  /** A normalised number is at least half of its range. */
  lemma TopHalf(s: seq<Limb>)
    requires Normalised(s)
    ensures 2 * Val(s) >= Pow(|s|)
  {
    hide Val;
    ValTop(s);
    MulMono(Pow(|s| - 1), HALF, s[|s| - 1]);
    assert 2 * HALF == B;
  }

  /** A remainder smaller than the divisor needs no limb above the divisor's. */
  lemma ShortRemainder(taba: array<Limb>, i: nat, nb: nat, tabb: array<Limb>, bo: nat)
    requires i + nb < taba.Length && bo + nb <= tabb.Length
    requires Val(taba[i..i + nb + 1]) < Val(tabb[bo..bo + nb])
    ensures Val(taba[i..i + nb]) == Val(taba[i..i + nb + 1])
  {
    hide Val, Pow;
    ValBound(tabb[bo..bo + nb]);
    ValHighZero(taba[i..i + nb + 1], nb);
    assert taba[i..i + nb + 1][..nb] == taba[i..i + nb];
  }

  /** One pass of the main loop: digit i of the quotient and the remainder of aLimbs[i..]. */
  method DivideStep(tabq: array<Limb>, n: nat, taba: array<Limb>, ao: nat, i: nat,
                    tabb: array<Limb>, bo: nat, nb: nat, useInverse: bool, inverse: Limb, ghost aLimbs: seq<Limb>)
    requires taba != tabb && tabq != taba && tabq != tabb
    requires 2 <= nb && ao + i + nb < taba.Length && bo + nb <= tabb.Length && i < n < tabq.Length && i < |aLimbs|
    requires Normalised(tabb[bo..bo + nb]) && (useInverse ==> IsReciprocal(tabb[bo + nb - 1], inverse))
    requires taba[ao + i] == aLimbs[i]
    requires IsDivision(Val(aLimbs[i + 1..]), Val(tabb[bo..bo + nb]), Val(tabq[i + 1..n + 1]), Val(taba[ao + i + 1..ao + i + 1 + nb]))
    modifies tabq, taba
    ensures OnlyWithin(tabq, i, i + 1) && OnlyWithin(taba, ao + i, ao + i + nb + 1)
    ensures IsDivision(Val(aLimbs[i..]), Val(tabb[bo..bo + nb]), Val(tabq[i..n + 1]), Val(taba[ao + i..ao + i + nb]))
  {
    hide Val, Pow;
    ghost var b, r, qs := Val(tabb[bo..bo + nb]), taba[ao + i + 1..ao + i + 1 + nb], tabq[i + 1..n + 1];
    ghost var win := Val(taba[ao + i..ao + i + nb + 1]);
    assert taba[ao + i..ao + i + nb + 1] == [taba[ao + i]] + r;
    ValCons(taba[ao + i], r);
    var d, backs := DivideDigit(taba, ao + i, tabb, bo, nb, useInverse, inverse);
    ShortRemainder(taba, ao + i, nb, tabb, bo);
    QuotientStep(aLimbs[i], Val(aLimbs[i + 1..]), Val(r), b, Val(qs), win, d, Val(taba[ao + i..ao + i + nb]));
    tabq[i] := d;
    assert tabq[i..n + 1] == [d] + qs;
    ValCons(d, qs);
    ValPrev(aLimbs, i);
  }

  /**
   mp_divnorm, schoolbook branch: the na limbs at taba + ao divided by the nb limbs at
   tabb + bo; the quotient goes to tabq[0..na-nb+1], the remainder to the low nb limbs of
   the dividend.
   */
  method MpDivNormBase(tabq: array<Limb>, taba: array<Limb>, ao: nat, na: nat, tabb: array<Limb>, bo: nat, nb: nat)
    requires taba != tabb && tabq != taba && tabq != tabb
    requires 2 <= nb <= na && ao + na <= taba.Length && bo + nb <= tabb.Length && na - nb < tabq.Length
    requires Normalised(tabb[bo..bo + nb])
    modifies tabq, taba
    ensures OnlyWithin(tabq, 0, na - nb + 1) && OnlyWithin(taba, ao, ao + na)
    ensures IsDivision(old(Val(taba[ao..ao + na])), Val(tabb[bo..bo + nb]), Val(tabq[..na - nb + 1]), Val(taba[ao..ao + nb]))
  {
    hide Val, Pow;
    var n := na - nb;
    ghost var aLimbs, b := taba[ao..ao + na], Val(tabb[bo..bo + nb]);
    var useInverse := n >= UDIV1NORM_THRESHOLD;
    var inverse := if useInverse then ReciprocalWord(tabb[bo + nb - 1]) else 0;
    var q := DivideTop(taba, ao + n, tabb, bo, nb);
    tabq[n] := q;
    assert tabq[n..n + 1] == [q];
    ValSingle(q);
    assert aLimbs[n..] == old(taba[ao + n..ao + n + nb]);
    var i := n;
    while i > 0
      invariant 0 <= i <= n
      invariant OnlyWithin(tabq, 0, n + 1) && OnlyWithin(taba, ao, ao + na)
      invariant forall j :: 0 <= j < i ==> taba[ao + j] == aLimbs[j]
      invariant IsDivision(Val(aLimbs[i..]), b, Val(tabq[i..n + 1]), Val(taba[ao + i..ao + i + nb]))
    {
      i := i - 1;
      DivideStep(tabq, n, taba, ao, i, tabb, bo, nb, useInverse, inverse, aLimbs);
    }
    assert aLimbs[0..] == aLimbs;
  }
}
