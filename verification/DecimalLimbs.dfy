/**
 The decimal kernels of qjs/libbf.c: limbs below 10^19 in 64-bit words.
 */
module DecimalLimbs {
  import opened Limbs
  import opened WordDivision
  import opened RadixConversion

  /** BF_DEC_BASE */
  const D: int := 10_000_000_000_000_000_000

  lemma BaseIs()
    ensures D == Power(10, 19)
  {
    assert Power(10, 4) == 10 * (10 * (10 * (10 * Power(10, 0))));
    PowerAdd(10, 4, 4);
    PowerAdd(10, 8, 8);
    PowerAdd(10, 16, 3);
    assert Power(10, 3) == 10 * (10 * (10 * Power(10, 0)));
  }

  ghost predicate Dec(s: seq<Limb>) {
    forall k :: 0 <= k < |s| ==> s[k] < D
  }

  ghost function DVal(s: seq<Limb>): int {
    Value(s, D)
  }

  ghost function DPow(n: nat): int {
    Power(D, n)
  }

  lemma DNone(s: seq<Limb>)
    ensures |s| == 0 ==> DVal(s) == 0
    ensures DPow(0) == 1
  {
  }

  lemma DPowNext(n: nat)
    ensures DPow(n + 1) == D * DPow(n) && DPow(n) >= 1
  {
    PowerPositive(D, n);
  }

  lemma DRange(s: seq<Limb>)
    requires Dec(s)
    ensures 0 <= DVal(s) < DPow(|s|)
  {
    ValueRange(s, D);
  }

  lemma DConcat(s: seq<Limb>, t: seq<Limb>)
    ensures DVal(s + t) == DVal(s) + DPow(|s|) * DVal(t)
  {
    ValueConcat(s, t, D);
  }

  lemma DSnoc(s: seq<Limb>, v: Limb)
    ensures DVal(s + [v]) == DVal(s) + DPow(|s|) * v
  {
    DConcat(s, [v]);
    ValueOne(v, D);
  }

  lemma DCons(v: Limb, s: seq<Limb>)
    ensures DVal([v] + s) == v + D * DVal(s)
  {
    assert ([v] + s)[1..] == s;
  }

  lemma DNext(s: seq<Limb>, i: nat)
    requires i < |s|
    ensures DVal(s[..i + 1]) == DVal(s[..i]) + DPow(i) * s[i]
  {
    assert s[..i + 1] == s[..i] + [s[i]];
    DSnoc(s[..i], s[i]);
  }

  lemma DPrev(s: seq<Limb>, i: nat)
    requires i < |s|
    ensures DVal(s[i..]) == s[i] + D * DVal(s[i + 1..])
  {
    assert s[i..] == [s[i]] + s[i + 1..];
    DCons(s[i], s[i + 1..]);
  }

  /** One more limb of a result: pre holds its low limbs, k the carry into position |pre|. */
  lemma Digit(pre: seq<Limb>, v: Limb, k: int, k': int, sum: int, x: int)
    requires DVal(pre) + k * DPow(|pre|) == sum && D * k' + v == x + k
    ensures DVal(pre + [v]) + k' * DPow(|pre| + 1) == sum + DPow(|pre|) * x
  {
    hide DVal, DPow;
    DSnoc(pre, v);
    DPowNext(|pre|);
    DigitProduct(DPow(|pre|), v, k, k', x);
  }

  lemma DigitProduct(p: int, v: int, k: int, k': int, x: int)
    requires D * k' + v == x + k
    ensures p * v + k' * (D * p) == p * x + k * p
  {
    assert p * (D * k' + v) == p * (x + k);
  }

  // ---- division by the base ----

  /** The constant floor(2^127 / 10^19) of the source. */
  const BaseInverse: Limb := 17014118346046923173

  /** An arithmetic right shift by one place. */
  function Sar1(x: Limb): Limb {
    if x >= HALF then x / 2 + HALF else x / 2
  }

  /** divdq_base: q and r with a1 * 2^64 + a0 = q * 10^19 + r, by one multiplication and two masked corrections. */
  function DivideBase(a1: Limb, a0: Limb): (qr: (Limb, Limb))
    requires a1 < HALF
    ensures qr.0 * D + qr.1 == a1 * B + a0 && qr.1 < D
  {
    var t0: Limb := 2 * a1 + a0 / HALF;
    EstimateBase(a1, a0, t0);
    var q := (t0 * BaseInverse) / B;
    assert (q + 2) * D == q * D + 2 * D;
    SettleBase(a1 * B + a0 - q * D - 2 * D, q)
  }

  /** With the estimate raised by two, a first mask for a negative remainder and a second one settle both. */
  function SettleBase(d: int, q: Limb): (qr: (Limb, Limb))
    requires -2 * D <= d < D && q < B - 2
    ensures qr.0 * D + qr.1 == (q + 2) * D + d && qr.1 < D
  {
    Wraps(d);
    var x := d % (B * B);
    var m := Sar1(x / B);
    var q' := WrapAdd(WrapAdd(q, 2), m);
    var y := (x + Masked(m, D)) % (B * B);
    (WrapAdd(q', y / B), WrapAdd(y % B, Masked(y / B, D)))
  }

  /** The estimate is at most two short. */
  lemma EstimateBase(a1: int, a0: int, t0: int)
    requires 0 <= a1 < HALF && 0 <= a0 < B && t0 == 2 * a1 + a0 / HALF
    ensures 0 <= t0 < B
    ensures var q := (t0 * BaseInverse) / B; 0 <= q < B - 2 && 0 <= a1 * B + a0 - q * D < 3 * D
  {
    var q := (t0 * BaseInverse) / B;
    var a := a1 * B + a0;
    assert t0 * HALF <= a < t0 * HALF + HALF;
    assert q * B <= t0 * BaseInverse < q * B + B;
  }

  /** How the two masks come out. */
  lemma Wraps(d: int)
    requires -2 * D <= d < D
    ensures var x := d % (B * B);
            && Sar1(x / B) == (if d < 0 then B - 1 else 0)
            && var y := (x + Masked(Sar1(x / B), D)) % (B * B);
            var e := if d < 0 then d + D else d;
            y / B == (if e < 0 then B - 1 else 0) && y % B == (if e < 0 then e + B else e)
  {
    var x := d % (B * B);
    var e := if d < 0 then d + D else d;
    assert x == if d < 0 then d + B * B else d;
    var y := (x + Masked(Sar1(x / B), D)) % (B * B);
    assert y == if e < 0 then e + B * B else e;
  }

  /** A product of two limbs below the base, plus another, divided by the base. */
  function ProductBase(x: Limb, y: Limb, l: Limb): (qr: (Limb, Limb))
    requires x < D && y < D && l < D
    ensures qr.0 * D + qr.1 == x * y + l && qr.1 < D && qr.0 < D && qr.0 <= y
  {
    var t := x * y + l;
    ProductFits(x, y, l);
    var qr := DivideBase(t / B, t % B);
    QuotientBelow(qr.0, qr.1, x, y, l);
    qr
  }

  lemma ProductFits(x: int, y: int, l: int)
    requires 0 <= x < D && 0 <= y < D && 0 <= l < D
    ensures 0 <= x * y + l < D * D && 0 <= (x * y + l) / B < HALF
  {
    MulMono(x, y, D - 1);
    assert x * y >= 0 by { Product(x, y); }
    assert x * (D - 1) <= (D - 1) * (D - 1);
  }

  lemma QuotientBelow(q: int, r: int, x: int, y: int, l: int)
    requires 0 <= x < D && 0 <= y < D && 0 <= l < D && 0 <= r < D && q * D + r == x * y + l
    ensures q < D && q <= y
  {
    MulMono(y, x, D - 1);
    assert x * y == y * x && y * (D - 1) == y * D - y;
  }

  // ---- addition and subtraction ----

  /** mp_add_dec in place: a[i..i+n) += b[..n) + carry. */
  method AddDec(a: array<Limb>, i: nat, b: array<Limb>, n: nat, carry: Limb) returns (k: Limb)
    requires a != b && i + n <= a.Length && n <= b.Length && carry <= 1 && Dec(a[i..i + n]) && Dec(b[..n])
    modifies a
    ensures OnlyWithin(a, i, i + n) && Dec(a[i..i + n]) && k <= 1
    ensures DVal(a[i..i + n]) + k * DPow(n) == old(DVal(a[i..i + n])) + DVal(b[..n]) + carry
  {
    hide DVal, DPow;
    ghost var xs, ys := a[i..i + n], b[..n];
    DNone(xs[..0]);
    DNone(ys[..0]);
    DNone(a[i..i]);
    k := carry;
    for j := 0 to n
      invariant k <= 1 && Dec(a[i..i + j])
      invariant forall m :: 0 <= m < i || i + j <= m < a.Length ==> a[m] == old(a[m])
      invariant DVal(a[i..i + j]) + k * DPow(j) == DVal(xs[..j]) + DVal(ys[..j]) + carry
    {
      assert a[i + j] == xs[j] && b[j] == ys[j];
      var v, w, k0 := a[i + j], b[j], k;
      var s := WrapSub(WrapAdd(WrapAdd(v, w), k), D);
      k := if s <= v then 1 else 0;
      if k == 0 {
        s := WrapAdd(s, D);
      }
      assert D * k + s - v - w - k0 == 0;
      ghost var before: seq<Limb> := a[i..i + j];
      a[i + j] := s;
      assert a[i..i + j + 1] == before + [s];
      DNext(xs, j);
      DNext(ys, j);
      Digit(before, s, k0, k, DVal(xs[..j]) + DVal(ys[..j]) + carry, D * 0 + v + w);
      Distribute(DPow(j), v, w);
    }
    assert xs[..n] == xs && ys[..n] == ys;
  }

  /** mp_sub_dec in place: a[i..i+n) -= b[..n) + carry. */
  method SubDec(a: array<Limb>, i: nat, b: array<Limb>, n: nat, carry: Limb) returns (k: Limb)
    requires a != b && i + n <= a.Length && n <= b.Length && carry <= 1 && Dec(a[i..i + n]) && Dec(b[..n])
    modifies a
    ensures OnlyWithin(a, i, i + n) && Dec(a[i..i + n]) && k <= 1
    ensures DVal(a[i..i + n]) - k * DPow(n) == old(DVal(a[i..i + n])) - DVal(b[..n]) - carry
  {
    hide DVal, DPow;
    ghost var xs, ys := a[i..i + n], b[..n];
    DNone(xs[..0]);
    DNone(ys[..0]);
    DNone(a[i..i]);
    k := carry;
    for j := 0 to n
      invariant k <= 1 && Dec(a[i..i + j])
      invariant forall m :: 0 <= m < i || i + j <= m < a.Length ==> a[m] == old(a[m])
      invariant DVal(a[i..i + j]) - k * DPow(j) == DVal(xs[..j]) - DVal(ys[..j]) - carry
    {
      assert a[i + j] == xs[j] && b[j] == ys[j];
      var v, w, k0 := a[i + j], b[j], k;
      var s := WrapSub(WrapSub(v, w), k);
      k := if s > v then 1 else 0;
      if k == 1 {
        s := WrapAdd(s, D);
      }
      ghost var x: int := D * 0 + v - w;
      assert D * (-(k as int)) + s == x - k0;
      ghost var before: seq<Limb> := a[i..i + j];
      a[i + j] := s;
      assert a[i..i + j + 1] == before + [s];
      DNext(xs, j);
      DNext(ys, j);
      Digit(before, s, -(k0 as int), -(k as int), DVal(xs[..j]) - DVal(ys[..j]) - carry, x);
      Distribute(DPow(j), v, -(w as int));
    }
    assert xs[..n] == xs && ys[..n] == ys;
  }

  // ---- multiplication by a limb ----

  /** mp_mul1_dec: res = x * b + l; res may be x. */
  method Mul1Dec(res: array<Limb>, x: array<Limb>, n: nat, b: Limb, l0: Limb) returns (l: Limb)
    requires n <= res.Length && n <= x.Length && b < D && l0 < D && Dec(x[..n])
    modifies res
    ensures OnlyWithin(res, 0, n) && Dec(res[..n]) && l < D
    ensures DVal(res[..n]) + l * DPow(n) == old(DVal(x[..n])) * b + l0
  {
    hide DVal, DPow, ProductBase;
    ghost var xs := x[..n];
    DNone(xs[..0]);
    DNone(res[..0]);
    l := l0;
    for j := 0 to n
      invariant l < D && Dec(res[..j])
      invariant forall m :: j <= m < res.Length ==> res[m] == old(res[m])
      invariant forall m :: j <= m < n ==> x[m] == xs[m]
      invariant DVal(res[..j]) + l * DPow(j) == DVal(xs[..j]) * b + l0
    {
      assert x[j] == xs[j];
      var qr := ProductBase(x[j], b, l);
      ghost var before, k0, xj: int := res[..j], l, x[j];
      res[j] := qr.1;
      l := qr.0;
      assert res[..j + 1] == before + [qr.1];
      DNext(xs, j);
      Digit(before, qr.1, k0, l, DVal(xs[..j]) * b + l0, xj * b);
      MulNext(DVal(xs[..j]), DPow(j), xj, b);
    }
    assert xs[..n] == xs;
  }

  lemma MulNext(v: int, p: int, x: int, b: int)
    ensures (v + p * x) * b == v * b + p * (x * b)
  {
  }

  /** mp_sub_mul1_dec: a[i..i+n) -= b[..n) * q; the part to subtract from the limb above is returned. */
  method SubMul1Dec(a: array<Limb>, i: nat, b: array<Limb>, n: nat, q: Limb) returns (l: Limb)
    requires a != b && i + n <= a.Length && n <= b.Length && q < D && Dec(a[i..i + n]) && Dec(b[..n])
    modifies a
    ensures OnlyWithin(a, i, i + n) && Dec(a[i..i + n]) && l < D
    ensures DVal(a[i..i + n]) - l * DPow(n) == old(DVal(a[i..i + n])) - DVal(b[..n]) * q
  {
    hide DVal, DPow, SubMulLimb;
    ghost var xs, ys := a[i..i + n], b[..n];
    DNone(xs[..0]);
    DNone(ys[..0]);
    DNone(a[i..i]);
    l := 0;
    for j := 0 to n
      invariant l < D && Dec(a[i..i + j])
      invariant forall m :: 0 <= m < i || i + j <= m < a.Length ==> a[m] == old(a[m])
      invariant DVal(a[i..i + j]) - l * DPow(j) == DVal(xs[..j]) - DVal(ys[..j]) * q
    {
      assert a[i + j] == xs[j] && b[j] == ys[j];
      ghost var k0 := l;
      var sl := SubMulLimb(a[i + j], b[j], q, l);
      ghost var before: seq<Limb> := a[i..i + j];
      a[i + j] := sl.0;
      l := sl.1;
      assert a[i..i + j + 1] == before + [sl.0];
      SubMulStep(before, sl.0, xs, ys, q, k0, l);
    }
    assert xs[..n] == xs && ys[..n] == ys;
  }

  /** One limb of it: v - y * q - l, with what the next limb up still has to give. */
  function SubMulLimb(v: Limb, y: Limb, q: Limb, l: Limb): (r: (Limb, Limb))
    requires v < D && y < D && q < D && l < D
    ensures r.0 < D && r.1 < D && D * (-(r.1 as int)) + r.0 == (D * 0 + v - y * q) - l
  {
    var qr := ProductBase(y, q, l);
    var s := WrapSub(v, qr.1);
    if s > v then
      BorrowFits(qr.0, qr.1, y, q, l);
      (WrapAdd(s, D), WrapAdd(qr.0, 1))
    else (s, qr.0)
  }

  lemma SubMulStep(pre: seq<Limb>, v: Limb, xs: seq<Limb>, ys: seq<Limb>, q: int, l: int, l': int)
    requires |pre| < |xs| == |ys| && DVal(pre) - l * DPow(|pre|) == DVal(xs[..|pre|]) - DVal(ys[..|pre|]) * q
    requires D * (-l') + v == (D * 0 + xs[|pre|] - ys[|pre|] * q) - l
    ensures DVal(pre + [v]) - l' * DPow(|pre| + 1) == DVal(xs[..|pre| + 1]) - DVal(ys[..|pre| + 1]) * q
  {
    hide DVal, DPow;
    var j := |pre|;
    var x: int, y: int := xs[j], ys[j];
    DNext(xs, j);
    DNext(ys, j);
    Digit(pre, v, -l, -l', DVal(xs[..j]) - DVal(ys[..j]) * q, x - y * q);
    SubNext(DVal(xs[..j]), DVal(ys[..j]), DPow(j), x, y, q);
  }

  lemma SubNext(v: int, w: int, p: int, x: int, y: int, q: int)
    ensures (v + p * x) - (w + p * y) * q == v - w * q + p * (x - y * q)
  {
    MulNext(w, p, y, q);
    assert p * (x - y * q) == p * x - p * (y * q);
  }

  /** The source's remark: a borrow never pushes the carry to the base. */
  lemma BorrowFits(l: int, r: int, x: int, q: int, l0: int)
    requires 0 <= x < D && 0 <= q < D && 0 <= l0 < D && 0 < r && l * D + r == x * q + l0
    ensures l + 1 < D
  {
    MulMono(q, x, D - 1);
    assert x * q == q * x;
    assert q * (D - 1) <= (D - 1) * (D - 1) by { MulMono(D - 1, q, D - 1); }
  }
}
