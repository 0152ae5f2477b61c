/**
 The number theory behind mp_recip and mp_divnorm_large (algorithm 3.5 of "Modern Computer
 Arithmetic" by Brent and Zimmermann), over plain integers.
 */
module NewtonTheory {
  import opened Limbs

  /** r is B^(2n) / a rounded down, or one less, and never exact. */
  ghost predicate IsApproxReciprocal(a: int, r: int, n: nat) {
    a * r < Pow(2 * n) < a * (r + 2)
  }

  /** a has n limbs and its top bit is set. */
  ghost predicate Full(a: int, n: nat) {
    Pow(n) <= 2 * a && a < Pow(n)
  }

  lemma MulLt(x: int, y: int, z: int)
    requires 0 < x && y < z
    ensures x * y < x * z && y * x < z * x
  {
  }

  lemma MulLe2(x: int, y: int, u: int, v: int)
    requires 0 <= x <= u && 0 <= y <= v
    ensures 0 <= x * y <= u * v
  {
    MulMono(x, y, v);
    MulMono(v, x, u);
  }

  /** An approximate reciprocal of a full a has n + 1 limbs, the top one being 1. */
  lemma ReciprocalSize(a: int, r: int, n: nat)
    requires Full(a, n) && IsApproxReciprocal(a, r, n)
    ensures Pow(n) <= r < 2 * Pow(n)
  {
    hide Pow;
    PowAdd(n, n);
    var p := Pow(n);
    assert a * (2 * p) == p * (2 * a) && (p + 1) * (p - 1) == p * p - 1;
    if r >= 2 * p {
      MulMono(a, 2 * p, r);
      MulMono(p, p, 2 * a);
      assert false;
    }
    if r < p {
      MulMono(a, r + 2, p + 1);
      MulMono(p + 1, a, p - 1);
      assert false;
    }
  }

  /** The base case: ceil(B^(2n) / a) - 1. */
  lemma ReciprocalBase(a: int, n: nat, q: int, r: int)
    requires a > 0 && Pow(2 * n) == q * a + r && 0 <= r < a
    ensures IsApproxReciprocal(a, if r == 0 then q - 1 else q, n)
  {
    hide Pow;
    assert a * (q + 2) == q * a + 2 * a && a * (q - 1) == q * a - a && a * (q + 1) == q * a + a;
  }

  /** After the upper half is inverted, its reciprocal is at most two units too small for the whole number. */
  lemma HighHalf(a: int, ah: int, xh: int, n: nat, l: nat, h: nat)
    requires n == l + h && IsApproxReciprocal(ah, xh, h) && ah * Pow(l) <= a && 0 <= xh
    ensures Pow(n + h) < a * (xh + 2)
  {
    hide Pow;
    PowAdd(2 * h, l);
    assert n + h == 2 * h + l;
    MulLt(Pow(l), Pow(2 * h), ah * (xh + 2));
    MulMono(xh + 2, ah * Pow(l), a);
    assert Pow(l) * (ah * (xh + 2)) == (xh + 2) * (ah * Pow(l));
  }

  /** Lowering the reciprocal while a * xh is too large keeps both bounds. */
  lemma LowerReciprocal(a: int, xh: int, n: nat, h: nat)
    requires Full(a, n) && Pow(n + h) <= a * xh && 0 <= xh
    ensures Pow(h) <= xh - 1 && Pow(n + h) < a * (xh - 1 + 2) && a * (xh - 1) == a * xh - a
  {
    hide Pow;
    PowAdd(n, h);
    if xh <= Pow(h) {
      MulMono(a, xh, Pow(h));
      MulLt(Pow(h), a, Pow(n));
      assert false;
    }
    assert a * (xh + 1) == a * xh + a;
  }

  /** One Newton step: the residue D of the extended reciprocal lies strictly between 0 and 2a. */
  lemma NewtonStep(a: int, n: nat, l: nat, h: nat, xh: int, t: int, tm: int, v: int)
    requires n == l + h && l < h && Full(a, n) && 0 <= xh
    requires t == Pow(n + h) - a * xh && 0 < t < 2 * a
    requires Pow(l) * tm <= t < Pow(l) * tm + Pow(l)
    requires Pow(2 * h - l) * v <= tm * xh < Pow(2 * h - l) * v + Pow(2 * h - l)
    ensures IsApproxReciprocal(a, xh * Pow(l) + v, n)
  {
    hide Pow;
    var pl, pk, p2, s := Pow(l), Pow(2 * h - l), Pow(2 * h), Pow(n + h);
    PowAdd(l, 2 * h - l);
    PowAdd(l, 2 * h);
    assert n + h == l + 2 * h;
    PowAdd(n + h, l);
    assert 2 * n == n + h + l;
    StepLower(a, xh, s, pl, pk, p2, t, tm, v);
    StepUpper(a, xh, s, pl, pk, p2, t, tm, v);
    StepSmall(a, n, h, t, s * pl);
    Unscale(p2, t * pl - a * v, a);
    ResidueIs(a, xh, s, pl, v, t);
    assert a * (xh * pl + v + 2) == a * (xh * pl + v) + 2 * a;
  }

  lemma Unscale(p: int, d: int, a: int)
    requires p > 0 && 0 < p * d < 2 * (a * p)
    ensures 0 < d < 2 * a
  {
    if d <= 0 {
      MulMono(p, d, 0);
    }
    if d >= 2 * a {
      MulMono(p, 2 * a, d);
    }
  }

  lemma ResidueIs(a: int, xh: int, s: int, pl: int, v: int, t: int)
    requires t == s - a * xh
    ensures s * pl - a * (xh * pl + v) == t * pl - a * v
  {
    MulAssoc(a, xh, pl);
    assert a * (xh * pl + v) == a * (xh * pl) + a * v;
    assert t * pl == s * pl - (a * xh) * pl;
  }

  lemma ScaledResidue(a: int, xh: int, s: int, pl: int, p2: int, t: int, v: int)
    requires t == s - a * xh && s == pl * p2
    ensures p2 * (t * pl - a * v) == t * s - a * (p2 * v)
    ensures a * (t * xh) == t * s - t * t
    ensures a * ((t - pl) * xh) == t * s - t * t - s * pl + pl * t
  {
    assert p2 * (t * pl) == t * (pl * p2);
    assert p2 * (a * v) == a * (p2 * v);
    assert a * (t * xh) == t * (a * xh);
    assert t * (s - t) == t * s - t * t;
    assert a * (pl * xh) == pl * (a * xh);
    assert pl * (s - t) == s * pl - pl * t;
    assert (t - pl) * xh == t * xh - pl * xh;
  }

  lemma FloorLower(xh: int, pl: int, pk: int, p2: int, t: int, tm: int, v: int)
    requires pl >= 1 && p2 == pl * pk && xh >= 0 && pl * tm <= t && pk * v <= tm * xh
    ensures p2 * v <= t * xh
  {
    MulMono(pl, pk * v, tm * xh);
    MulAssoc(pl, pk, v);
    MulAssoc(pl, tm, xh);
    MulMono(xh, pl * tm, t);
  }

  lemma FloorUpper(xh: int, pl: int, pk: int, p2: int, t: int, tm: int, v: int)
    requires pl >= 1 && p2 == pl * pk && xh >= 0 && t < pl * tm + pl && tm * xh < pk * v + pk
    ensures (t - pl) * xh < p2 * v + p2
  {
    MulLt(pl, tm * xh, pk * v + pk);
    assert pl * (pk * v + pk) == (pl * pk) * v + pl * pk;
    MulAssoc(pl, tm, xh);
    MulMono(xh, t - pl, pl * tm);
  }

  lemma StepLower(a: int, xh: int, s: int, pl: int, pk: int, p2: int, t: int, tm: int, v: int)
    requires pl >= 1 && p2 == pl * pk && s == pl * p2 && a > 0 && xh >= 0
    requires t == s - a * xh && 0 < t
    requires pl * tm <= t && pk * v <= tm * xh
    ensures 0 < p2 * (t * pl - a * v)
  {
    ScaledResidue(a, xh, s, pl, p2, t, v);
    FloorLower(xh, pl, pk, p2, t, tm, v);
    MulMono(a, p2 * v, t * xh);
    MulLt(t, 0, t);
  }

  lemma StepUpper(a: int, xh: int, s: int, pl: int, pk: int, p2: int, t: int, tm: int, v: int)
    requires pl >= 1 && p2 == pl * pk && s == pl * p2 && a > 0 && xh >= 0
    requires t == s - a * xh && 0 < t
    requires t < pl * tm + pl && tm * xh < pk * v + pk
    ensures p2 * (t * pl - a * v) < a * p2 + s * pl + t * t
  {
    ScaledResidue(a, xh, s, pl, p2, t, v);
    FloorUpper(xh, pl, pk, p2, t, tm, v);
    MulLt(a, (t - pl) * xh, p2 * v + p2);
    assert a * (p2 * v + p2) == a * (p2 * v) + a * p2;
    MulMono(pl, 0, t);
  }

  lemma StepSmall(a: int, n: nat, h: nat, t: int, nn: int)
    requires Full(a, n) && 0 < t < 2 * a && n + 1 <= 2 * h && nn == Pow(2 * n)
    ensures nn + t * t <= a * Pow(2 * h)
  {
    hide Pow;
    var p := Pow(n);
    PowAdd(n, n);
    PowNext(n);
    PowMono(n + 1, 2 * h);
    MulMono(a, B * p, Pow(2 * h));
    StepArith(a, p, t);
  }

  lemma StepArith(a: int, p: int, t: int)
    requires 1 <= p <= 2 * a && 0 < t < 2 * a && a < p
    ensures p * p + t * t <= a * (B * p)
  {
    var ap := a * p;
    MulMono(p, p, 2 * a);
    MulLe2(t, t, 2 * a, 2 * p);
    assert (2 * a) * (2 * p) == 4 * ap;
    assert p * (2 * a) == 2 * ap;
    assert a * (B * p) == B * ap;
    assert ap >= 0 by { MulMono(p, 0, a); }
  }

  // ---- mp_divnorm_large: a quotient from an approximate reciprocal ----

  /** What mp_divnorm_large inverts: b itself moved up to n limbs, or its n top limbs plus one. */
  ghost predicate IsScaledDivisor(b: int, nb: nat, bp: int, n: nat) {
    if n >= nb
    then bp == b * Pow(n - nb)
    else (bp - 1) * Pow(nb - n) <= b < bp * Pow(nb - n)
  }

  lemma DivideOut(w: int, x: int, y: int)
    requires w > 0
    ensures x * w <= y * w ==> x <= y
    ensures x * w < y * w ==> x < y
  {
  }

  /** q * bp brackets atop * w, where w = B^(nq-1) and pm = B^m is the part of the product that is dropped. */
  lemma ProductBracket(bp: int, inv: int, atop: int, q: int, pm: int, w: int, full: int)
    requires bp > 0 && 0 <= atop < pm && 0 <= q && full == w * pm
    requires bp * inv <= full < bp * (inv + 2)
    requires q * pm <= inv * atop < q * pm + pm
    ensures q * bp <= w * atop <= (q + 3) * bp
  {
    BracketBelow(bp, inv, atop, q, pm, w);
    BracketAbove(bp, inv, atop, q, pm, w);
  }

  lemma BracketBelow(bp: int, inv: int, atop: int, q: int, pm: int, w: int)
    requires bp > 0 && 0 <= atop && pm > 0
    requires bp * inv <= w * pm && q * pm <= inv * atop
    ensures q * bp <= w * atop
  {
    MulMono(bp, q * pm, inv * atop);
    MulAssoc(bp, inv, atop);
    MulMono(atop, bp * inv, w * pm);
    assert bp * (q * pm) == (q * bp) * pm;
    assert (w * pm) * atop == (w * atop) * pm;
    DivideOut(pm, q * bp, w * atop);
  }

  lemma BracketAbove(bp: int, inv: int, atop: int, q: int, pm: int, w: int)
    requires bp > 0 && 0 <= atop <= pm && pm > 0
    requires w * pm <= bp * (inv + 2) && inv * atop <= q * pm + pm
    ensures w * atop <= (q + 3) * bp
  {
    MulMono(atop, w * pm, bp * (inv + 2));
    assert (bp * (inv + 2)) * atop == bp * (inv * atop) + 2 * (bp * atop) by {
      MulAssoc(bp, inv + 2, atop);
      assert (inv + 2) * atop == inv * atop + 2 * atop;
    }
    MulMono(bp, inv * atop, q * pm + pm);
    MulMono(bp, atop, pm);
    AboveSum(bp, q, pm);
    MulAssoc(w, pm, atop);
    MulAssoc(w, atop, pm);
    assert pm * atop == atop * pm;
    DivideOut(pm, w * atop, (q + 3) * bp);
  }

  lemma AboveSum(bp: int, q: int, pm: int)
    ensures bp * (q * pm + pm) + 2 * (bp * pm) == ((q + 3) * bp) * pm
  {
    var t := bp * pm;
    MulSum(bp, q * pm, pm);
    assert bp * (q * pm) == q * t by { MulAssoc(bp, q, pm); MulAssoc(q, bp, pm); }
    MulAssoc(q + 3, bp, pm);
    assert (q + 3) * t == q * t + 3 * t;
  }

  /** The estimate never exceeds the quotient and is at most three short. */
  lemma LargeEstimate(a: int, b: int, nb: nat, nq: nat, n: nat, bp: int, inv: int, atop: int, q: int)
    requires nq >= 1 && n == (if nq < nb then nq + 1 else nq) && Full(b, nb) && 0 <= a < Pow(nq + nb) && nb >= 1
    requires bp > 0 && IsScaledDivisor(b, nb, bp, n)
    requires bp * inv <= Pow(2 * n) < bp * (inv + 2)
    requires atop * Pow(nq + nb - n - 1) <= a < (atop + 1) * Pow(nq + nb - n - 1) && 0 <= atop < Pow(n + 1)
    requires 0 <= q && q * Pow(2 * n + 1 - nq) <= inv * atop < q * Pow(2 * n + 1 - nq) + Pow(2 * n + 1 - nq)
    ensures 0 <= a - q * b < 4 * b
  {
    hide Pow;
    var pm, w, c := Pow(2 * n + 1 - nq), Pow(nq - 1), nq + nb - n - 1;
    PowAdd(nq - 1, 2 * n + 1 - nq);
    assert nq - 1 + (2 * n + 1 - nq) == 2 * n;
    PowMono(n + 1, 2 * n + 1 - nq);
    ProductBracket(bp, inv, atop, q, pm, w, Pow(2 * n));
    LiftBracket(a, atop, q, bp, w, Pow(c));
    if n >= nb {
      PowAdd(n - nb, c);
      assert n - nb + c == nq - 1;
      assert bp * Pow(c) == b * w by {
        MulAssoc(b, Pow(n - nb), Pow(c));
      }
      LargeExact(a, b, nb, nq, q, w, c);
    } else {
      PowAdd(nb - n, nq - 1);
      assert nb - n + (nq - 1) == c;
      var g := Pow(nb - n);
      assert bp * Pow(c) == (bp * g) * w by {
        MulAssoc(bp, g, w);
      }
      assert (bp - 1) * g == bp * g - g;
      LargeTruncated(a, b, nb, nq, q, w, g, bp * g, c);
    }
  }

  lemma LiftBracket(a: int, atop: int, q: int, bp: int, w: int, pc: int)
    requires pc > 0 && w > 0 && q * bp <= w * atop <= (q + 3) * bp
    requires atop * pc <= a < (atop + 1) * pc
    ensures q * (bp * pc) <= w * a && w * a < (q + 3) * (bp * pc) + w * pc
  {
    MulMono(pc, q * bp, w * atop);
    MulMono(pc, w * atop, (q + 3) * bp);
    MulAssoc(q, bp, pc);
    MulAssoc(q + 3, bp, pc);
    MulAssoc(w, atop, pc);
    MulMono(w, atop * pc, a);
    MulLt(w, a, (atop + 1) * pc);
    assert w * ((atop + 1) * pc) == w * (atop * pc) + w * pc;
  }

  lemma LargeExact(a: int, b: int, nb: nat, nq: nat, q: int, w: int, c: nat)
    requires w > 0 && nb >= 1 && c < nb && Full(b, nb)
    requires q * (b * w) <= w * a < (q + 3) * (b * w) + w * Pow(c)
    ensures 0 <= a - q * b < 4 * b
  {
    hide Pow;
    PowMono(c, nb - 1);
    PowNext(nb - 1);
    MulAssoc(q, b, w);
    MulAssoc(q + 3, b, w);
    DivideOut(w, q * b, a);
    assert ((q + 3) * b + Pow(c)) * w == (q + 3) * (b * w) + w * Pow(c);
    DivideOut(w, a, (q + 3) * b + Pow(c));
    assert (q + 3) * b == q * b + 3 * b;
  }

  lemma LargeTruncated(a: int, b: int, nb: nat, nq: nat, q: int, w: int, g: int, bg: int, c: nat)
    requires w > 0 && 2 <= nb && 1 <= nq < nb && c + 2 == nb && g == Pow(nb - nq - 1) && 0 <= q
    requires Full(b, nb) && 0 <= a < Pow(nq + nb) && b < bg <= b + g
    requires q * (bg * w) <= w * a < (q + 3) * (bg * w) + w * Pow(c)
    ensures 0 <= a - q * b < 4 * b
  {
    hide Pow;
    MulAssoc(q, bg, w);
    MulAssoc(q + 3, bg, w);
    DivideOut(w, q * bg, a);
    MulMono(q, b, bg);
    assert ((q + 3) * bg + Pow(c)) * w == (q + 3) * (bg * w) + w * Pow(c);
    DivideOut(w, a, (q + 3) * bg + Pow(c));
    MulMono(q + 3, bg, b + g);
    FourProducts(q, b, g);
    assert q * g + 3 * g + Pow(c) <= b by {
      SmallCorrection(a, b, nb, nq, q, g);
      PowMono(c, nb - 1);
      PowMono(nb - nq - 1, nb - 1);
      PowNext(nb - 1);
    }
  }

  lemma FourProducts(q: int, b: int, g: int)
    ensures (q + 3) * (b + g) == q * b + 3 * b + q * g + 3 * g
  {
  }

  /** The quotient has at most nq limbs and one bit, so the truncation error stays below B^(nb-1). */
  lemma SmallCorrection(a: int, b: int, nb: nat, nq: nat, q: int, g: int)
    requires 1 <= nq < nb && g == Pow(nb - nq - 1) && Full(b, nb) && 0 <= a < Pow(nq + nb) && 0 <= q && q * b <= a
    ensures q * g <= 2 * Pow(nb - 1)
  {
    hide Pow;
    PowAdd(nq, nb);
    PowAdd(nq, nb - nq - 1);
    assert nq + (nb - nq - 1) == nb - 1;
    CorrectionArith(a, b, Pow(nb), Pow(nq), q, g);
  }

  lemma CorrectionArith(a: int, b: int, pb: int, pq: int, q: int, g: int)
    requires 1 <= pb <= 2 * b && pq >= 1 && g >= 1 && a < pq * pb && q * b <= a
    ensures q * g <= 2 * (pq * g)
  {
    var h := 2 * pq;
    MulMono(pq, pb, 2 * b);
    assert pq * (2 * b) == h * b;
    if q > h {
      MulMono(b, h, q);
      assert false;
    }
    MulMono(g, q, h);
    assert h * g == 2 * (pq * g);
  }
}
