/**
 Correctly rounded division and square root of qjs/libbf.c (__bf_div and bf_sqrt): an integer
 quotient or root with two bits more than the precision, and a sticky bit for the remainder.
 */
module FloatDivision {
  import opened Limbs
  import opened LimbKernels
  import opened Bits
  import opened RoundingTheory
  import opened RoundingLimbs
  import opened Rounding
  import Division
  import Reciprocal
  import SquareRoot

  /** What the operations signal besides the status of a rounding. */
  datatype Signal = Rounded(st: Status) | Quiet | InvalidOp | DivideByZero

  // ---- sticky bits ----

  function OddUp(q: int): int {
    if q % 2 == 0 then q + 1 else q
  }

  lemma OrOneVal(s: seq<Limb>)
    requires |s| >= 1
    ensures Val(s[0 := OrOne(s[0])]) == OddUp(Val(s))
  {
    var t := s[0 := OrOne(s[0])];
    assert t[1..] == s[1..];
    assert (s[0] + B * Val(s[1..])) % 2 == s[0] % 2;
  }

  /** x lies between q and q + 1 at scale 2^n: q with a sticky bit stands for it. */
  lemma StickyApproximates(q: int, n: int, x: real)
    requires Scaled(q, P2(n)) < x < Scaled(q + 1, P2(n))
    ensures Approximates(OddUp(q), n, x) && OddUp(q) >= q
  {
    hide P2, Scaled;
    P2Positive(n);
    ScaledOrder(q - 1, q, P2(n));
    ScaledOrder(q + 1, q + 2, P2(n));
  }

  lemma MagPositive(tab: seq<Limb>, e: int)
    requires Normal(tab)
    ensures Mag(tab, e) > 0.0
  {
    hide P2, Val, Two;
    NormalRange(tab);
    P2Positive(e - 64 * |tab|);
    TimesStrict(Val(tab) as real, 0.0, P2(e - 64 * |tab|));
  }

  // ---- division ----

  /** The quotient of the magnitudes, as a quotient of integers at the scale of the result. */
  lemma QuotientScale(va: int, vb: int, ea: int, eb: int, la: nat, lb: nat, n: nat)
    requires vb >= 1 && la <= n + lb
    ensures Scaled(vb, P2(eb - 64 * lb)) > 0.0
    ensures Scaled(va, P2(ea - 64 * la)) / Scaled(vb, P2(eb - 64 * lb))
            == ((va * Pow(n + lb - la)) as real / vb as real) * P2(ea - eb - 64 * n)
  {
    hide P2, Two;
    var k := n + lb - la;
    TwoLimbs(k);
    var n', d := ea - eb - 64 * n, eb - 64 * lb;
    SameMag(va, va * Pow(k), n + lb, la, ea);
    assert (ea - 64 * (n + lb)) == n' + d;
    P2Add(n', d);
    P2Positive(n');
    P2Positive(d);
    QuotientReal((va * Pow(k)) as real, vb as real, P2(n'), P2(d));
  }

  lemma QuotientReal(a: real, b: real, p: real, d: real)
    requires b > 0.0 && d > 0.0
    ensures b * d > 0.0 && (a * (p * d)) / (b * d) == (a / b) * p
  {
    TimesStrict(b, 0.0, d);
    var t := a / b;
    assert t * b == a;
    assert (t * p) * (b * d) == (t * b) * (p * d);
    DivideBack(a * (p * d), t * p, b * d);
  }

  /** The integer quotient, exact or with a sticky bit, stands for the real one. */
  lemma QuotientApproximates(a: int, b: int, q: int, r: int, n: int, x: real)
    requires Division.IsDivision(a, b, q, r) && x == (a as real / b as real) * P2(n)
    ensures r == 0 ==> Scaled(q, P2(n)) == x
    ensures r != 0 ==> Approximates(OddUp(q), n, x) && OddUp(q) >= q
  {
    hide P2;
    P2Positive(n);
    var t, s := a as real / b as real, P2(n);
    assert q as real <= t < (q + 1) as real && (t == q as real <==> r == 0) by {
      SplitQuotient(q, r, b);
      FractionSides(r, b);
    }
    if r != 0 {
      TimesStrict(t, q as real, s);
      TimesStrict((q + 1) as real, t, s);
      StickyApproximates(q, n, x);
    }
  }

  /** Two normalised operands, one shifted by n limbs: the quotient has at least 64 * n bits. */
  lemma QuotientBits(a: int, b: int, q: int, r: int, w: nat, wb: nat, prec: nat)
    requires Division.IsDivision(a, b, q, r) && w >= prec + 2 && a >= Two(w + wb - 1) && 1 <= b < Two(wb)
    ensures q >= Two(prec + 1)
  {
    hide Two;
    TwoMono(prec + 1, w - 1);
    TwoAdd(w - 1, wb);
    var t := Two(w - 1);
    assert (q + 1) * b == q * b + b;
    MulMono(t, b, Two(wb));
    if q < t {
      MulMono(b, q + 1, t);
      assert false;
    }
  }

  /** Copying a buffer into the high end of a larger one. */
  method CopyHigh(src: seq<Limb>, n: nat) returns (dst: array<Limb>)
    requires |src| <= n
    ensures fresh(dst) && dst.Length == n + 1
    ensures Val(dst[..n]) == Val(src) * Pow(n - |src|)
    ensures src != [] ==> dst[n - 1] == src[|src| - 1]
  {
    hide Val, Pow;
    var d := n - |src|;
    dst := new Limb[n + 1](k => 0);
    for k := 0 to |src|
      invariant forall j :: 0 <= j < d ==> dst[j] == 0
      invariant forall j :: 0 <= j < k ==> dst[d + j] == src[j]
    {
      dst[d + k] := src[k];
    }
    assert dst[..n] == dst[..d] + src;
    ValConcat(dst[..d], src);
    ValZero(dst[..d]);
    assert Pow(d) * Val(src) == Val(src) * Pow(d);
  }

  ghost predicate BothFinite(a: Float, b: Float)
    reads a, b
  {
    a.kind == KFinite && b.kind == KFinite
  }

  /** __bf_div */
  method Div(r: Float, a: Float, b: Float, prec: nat, env: Env) returns (sig: Signal, ghost e: int)
    requires r != a && r != b && a.Valid() && b.Valid() && EnvOk(env) && prec >= PrecMin
    modifies r
    ensures r.Valid()
    ensures a.kind == KNaN || b.kind == KNaN ==> r.Num() == NaN && sig == Quiet
    ensures a.kind == b.kind == KInfinity || a.kind == b.kind == KZero ==> r.Num() == NaN && sig == InvalidOp
    ensures (a.kind == KInfinity && b.kind in {KZero, KFinite}) ==> r.Num() == Infinity && sig == Quiet
    ensures (a.kind == KZero && b.kind in {KInfinity, KFinite}) || (a.kind == KFinite && b.kind == KInfinity) ==> r.Num() == Zero && sig == Quiet
    ensures a.kind == KFinite && b.kind == KZero ==> r.Num() == Infinity && sig == DivideByZero
    ensures r.kind != KNaN ==> r.sign == (a.sign != b.sign)
    ensures BothFinite(a, b) ==>
      && sig.Rounded? && Mag(b.tab, b.expn) > 0.0
      && var x := Mag(a.tab, a.expn) / Mag(b.tab, b.expn);
         InBinade(x, e) && CorrectlyRounded(x, e, r.sign, prec, env, r.Num(), sig.st)
  {
    e := 0;
    var sign := a.sign != b.sign;
    if a.kind in {KInfinity, KNaN} || b.kind in {KInfinity, KNaN} {
      if a.kind == KNaN || b.kind == KNaN {
        r.kind, r.tab := KNaN, [];
        return Quiet, 0;
      } else if a.kind == KInfinity && b.kind == KInfinity {
        r.kind, r.tab := KNaN, [];
        return InvalidOp, 0;
      } else if a.kind == KInfinity {
        r.SetInfinity(sign);
        return Quiet, 0;
      } else {
        r.SetZero(sign);
        return Quiet, 0;
      }
    } else if a.kind == KZero {
      if b.kind == KZero {
        r.kind, r.tab := KNaN, [];
        return InvalidOp, 0;
      } else {
        r.SetZero(sign);
        return Quiet, 0;
      }
    } else if b.kind == KZero {
      r.SetInfinity(sign);
      return DivideByZero, 0;
    }
    var st;
    st, e := DivFinite(r, a, b, prec, env);
    sig := Rounded(st);
  }

  /** The quotient of two numbers that are neither zero nor infinite. */
  method DivFinite(r: Float, a: Float, b: Float, prec: nat, env: Env) returns (st: Status, ghost e: int)
    requires r != a && r != b && a.Valid() && b.Valid() && EnvOk(env) && prec >= PrecMin && BothFinite(a, b)
    modifies r
    ensures r.Valid() && r.sign == (a.sign != b.sign) && r.kind != KNaN
    ensures Mag(b.tab, b.expn) > 0.0
    ensures var x := Mag(a.tab, a.expn) / Mag(b.tab, b.expn);
            InBinade(x, e) && CorrectlyRounded(x, e, r.sign, prec, env, r.Num(), st)
  {
    hide Val, Pow, Two, P2, Scaled, InBinade, CorrectlyRounded, Approximates;
    MagPositive(b.tab, b.expn);
    var precl := (prec + 2 + 63) / 64;
    var n := if |a.tab| > precl then |a.tab| else precl;
    ghost var x := Mag(a.tab, a.expn) / Mag(b.tab, b.expn);
    var t := DivideMantissas(a.tab, b.tab, n, prec, a.expn, b.expn, x);
    r.tab, r.expn, r.sign := t, a.expn - b.expn + 64, a.sign != b.sign;
    st, e := r.NormalizeAndRound(prec, env, x);
    NotNaN(x, e, r.sign, prec, env, r.Num(), st);
  }

  /** The quotient of the mantissas with n limbs more than the divisor, a sticky bit in its last place. */
  method DivideMantissas(ta: seq<Limb>, tb: seq<Limb>, n: nat, ghost prec: nat, ghost ea: int, ghost eb: int, ghost x: real)
    returns (t: seq<Limb>)
    requires Normal(ta) && Normal(tb) && |ta| <= n && 64 * n >= prec + 2 && Mag(tb, eb) > 0.0 && x == Mag(ta, ea) / Mag(tb, eb)
    ensures |t| == n + 1 && Val(t) >= Two(prec + 1) && Val(t) != 0 && Approximates(Val(t), ea - eb - 64 * n, x)
  {
    hide Val, Pow, Two, P2, Scaled, Approximates;
    var nb := |tb|;
    var na := n + nb;
    var taba := CopyHigh(ta, na);
    var tabb := new Limb[nb](k requires 0 <= k < nb => tb[k]);
    assert tabb[0..0 + nb] == tb;
    var tabq := new Limb[n + 1];
    assert taba[0..0 + na] == taba[..na];
    Reciprocal.MpDivNorm(tabq, taba, 0, na, tabb, 0, nb);
    assert taba[0..0 + nb] == taba[..nb];
    var inexact := MpScanNz(taba, nb);
    t := tabq[..n + 1];
    Rounds(ta, tb, ea, eb, n, Val(t), Val(taba[..nb]), prec, x);
    if inexact {
      OrOneVal(t);
      t := t[0 := OrOne(t[0])];
    } else {
      ExactApproximates(Val(t), ea - eb - 64 * n, x);
    }
  }

  lemma ExactApproximates(m: int, n: int, x: real)
    requires Scaled(m, P2(n)) == x
    ensures Approximates(m, n, x)
  {
  }

  lemma NotNaN(x: real, e: int, sign: bool, prec: int, env: Env, res: Number, st: Status)
    requires CorrectlyRounded(x, e, sign, prec, env, res, st)
    ensures res != NaN
  {
    hide P2, IsRounding;
  }

  /** What the quotient of the mantissas stands for. */
  lemma Rounds(ta: seq<Limb>, tb: seq<Limb>, ea: int, eb: int, n: nat, q: int, rem: int, prec: nat, x: real)
    requires Normal(ta) && Normal(tb) && |ta| <= n && 64 * n >= prec + 2 && Mag(tb, eb) > 0.0 && x == Mag(ta, ea) / Mag(tb, eb)
    requires Division.IsDivision(Val(ta) * Pow(n + |tb| - |ta|), Val(tb), q, rem)
    ensures q >= Two(prec + 1)
    ensures rem == 0 ==> Scaled(q, P2(ea - eb - 64 * n)) == x
    ensures rem != 0 ==> Approximates(OddUp(q), ea - eb - 64 * n, x) && OddUp(q) >= q
  {
    hide Val, Pow, Two, P2, Scaled, Approximates;
    var va, vb, k := Val(ta), Val(tb), n + |tb| - |ta|;
    NormalRange(ta);
    NormalRange(tb);
    QuotientScale(va, vb, ea, eb, |ta|, |tb|, n);
    QuotientApproximates(va * Pow(k), vb, q, rem, ea - eb - 64 * n, x);
    TwoLimbs(k);
    TwoAdd(64 * |ta| - 1, 64 * k);
    MulMono(Pow(k), Two(64 * |ta| - 1), va);
    QuotientBits(va * Pow(k), vb, q, rem, 64 * n, 64 * |tb|, prec);
  }

  // ---- square root ----

  /** Comparing squares is comparing. */
  lemma SquareSides(s: int, y: real, g: real, lo: int, hi: int)
    requires s >= 0 && y >= 0.0 && y * y == g && lo == s * s && hi == (s + 1) * (s + 1) && lo as real <= g < hi as real
    ensures s as real <= y < (s + 1) as real
    ensures y == s as real <==> g == lo as real
  {
    var a, b := s as real, (s + 1) as real;
    assert lo as real == a * a && hi as real == b * b;
    if y < a {
      SquareStrict(y, a);
    }
    if y > a {
      SquareStrict(a, y);
    }
    if y >= b {
      SquareStrict(b, y);
    }
  }

  lemma SquareStrict(x: real, y: real)
    requires 0.0 <= x <= y
    ensures x * x <= y * y && (x < y ==> x * x < y * y)
  {
    if x < y {
      assert y * y - x * x == (y - x) * (y + x);
      TimesStrict(y + x, 0.0, y - x);
    }
  }

  /** The mantissa cut off after 2n limbs: an integer and a fraction. */
  lemma TopLimbs(ta: seq<Limb>, n1: nat, m: nat)
    requires n1 <= |ta| && n1 == (if m < |ta| then m else |ta|)
    ensures var top := Val(ta[|ta| - n1..]) * Pow(m - n1);
            var t := Scaled(Val(ta), P2(64 * m - 64 * |ta|));
            top as real <= t < (top + 1) as real && (t == top as real <==> Val(ta[..|ta| - n1]) == 0)
  {
    hide Val, Pow, P2, Two;
    var la := |ta|;
    var c := la - n1;
    ValSplit(ta, c);
    ValBound(ta[..c]);
    var r, v := Val(ta[..c]), Val(ta[c..]);
    if m < la {
      TwoLimbs(c);
      TwoIsP2(64 * c);
      P2Add(64 * c, 64 * m - 64 * la);
      assert 64 * c + (64 * m - 64 * la) == 0;
      assert P2(0) == 1.0 by { PZero(); }
      TwoLimbs(0);
      assert Pow(0) == 1 by { ValBase(); }
      FractionOf(r, v, Pow(c), P2(64 * m - 64 * la));
    } else {
      assert ta[..0] == [] && ta[0..] == ta;
      ValBase();
      SameMag(v, v * Pow(m - la), m, la, 64 * m);
      assert 64 * m - 64 * m == 0 && P2(0) == 1.0 by { PZero(); }
    }
  }

  lemma PZero()
    ensures P2(0) == 1.0
  {
  }

  lemma FractionOf(r: int, v: int, p: int, s: real)
    requires 0 <= r < p && p as real * s == 1.0
    ensures v as real <= Scaled(r + p * v, s) < (v + 1) as real && (Scaled(r + p * v, s) == v as real <==> r == 0)
  {
    var q, x := p as real, r as real;
    assert s > 0.0 by { if s <= 0.0 { Times(0.0, s, q); } }
    assert Scaled(r + p * v, s) == x * s + v as real by { Expand(r, p, v, s); }
    TimesStrict(q, x, s);
    Times(x, 0.0, s);
    if r != 0 {
      TimesStrict(x, 0.0, s);
    }
  }

  lemma Expand(r: int, p: int, v: int, s: real)
    requires p as real * s == 1.0
    ensures Scaled(r + p * v, s) == r as real * s + v as real
  {
    var q, x, y := p as real, r as real, v as real;
    assert (p * v) as real == q * y;
    assert (q * y) * s == y * (q * s);
    assert (x + q * y) * s == x * s + (q * y) * s;
  }

  /** Halving an integer with a fraction. */
  lemma Halved(t: real, top: int, a: int, low: int)
    requires top as real <= t < (top + 1) as real && 2 * a + low == top && 0 <= low <= 1
    ensures a as real <= t / 2.0 < (a + 1) as real && (t / 2.0 == a as real <==> t == top as real && low == 0)
  {
  }

  /** The root of the number at the scale of the result. */
  lemma RootScale(x: real, v: int, e: int, w: int, n: nat, h: int, t: real, g: real)
    requires x >= 0.0 && x * x == Scaled(v, P2(e - w)) && t == Scaled(v, P2(128 * n - w))
    requires (2 * h == e && g == t) || (2 * h == e + 1 && g == t / 2.0)
    ensures P2(h - 64 * n) > 0.0
    ensures var y := x / P2(h - 64 * n); y >= 0.0 && y * y == g
  {
    hide P2;
    var k := h - 64 * n;
    P2Positive(k);
    P2Add(k, k);
    P2Add(128 * n - w, e - 128 * n);
    assert 128 * n - w + (e - 128 * n) == e - w;
    P2Next(e - 128 * n);
    var p, y := P2(k), x / P2(k);
    assert k + k == e - 128 * n || k + k == (e - 128 * n) + 1;
    RoundingTheory.Assoc(v as real, P2(128 * n - w), P2(e - 128 * n));
    assert y * p == x;
    P2Positive(e - 128 * n);
    RootAlgebra(x, y, p, t, g, P2(e - 128 * n));
    if y < 0.0 {
      TimesStrict(0.0, y, p);
    }
  }

  lemma RootAlgebra(x: real, y: real, p: real, t: real, g: real, d: real)
    requires d > 0.0 && y * p == x && x * x == t * d
    requires (g == t && p * p == d) || (g == t / 2.0 && p * p == 2.0 * d)
    ensures y * y == g
  {
    var yy := y * y;
    assert yy * (p * p) == x * x by { assert (y * y) * (p * p) == (y * p) * (y * p); }
    if g == t && p * p == d {
      Rounding.Cancel(yy, t, d);
    } else {
      assert yy * (2.0 * d) == (2.0 * yy) * d;
      Rounding.Cancel(2.0 * yy, t, d);
    }
  }

  lemma QuarterKept(r: seq<Limb>)
    requires |r| >= 1 && Val(r) >= Two(64 * |r| - 2)
    ensures r[|r| - 1] >= HALF / 2
  {
    hide Val, Pow, Two;
    var n := |r|;
    ValTop(r);
    TwoLimbs(n - 1);
    TwoAdd(62, 64 * (n - 1));
    assert Two(62) == HALF / 2 by { QuarterIsTwo62(); }
    if r[n - 1] + B * 0 < HALF / 2 {
      MulMono(Pow(n - 1), r[n - 1] + 1, HALF / 2);
      assert false;
    }
  }

  lemma QuarterIsTwo62()
    ensures Two(62) == HALF / 2
  {
    HalfIsTwo63();
  }

  /** A root of n limbs whose square has at least 128 * n - 2 bits has 64 * n bits. */
  lemma RootRange(a: int, s: int, r: int, n: nat)
    requires n >= 1 && SquareRoot.IsRoot(a, s, r) && a >= Two(128 * n - 2) && s >= 0
    ensures s >= Two(64 * n - 1)
  {
    hide Two;
    TwoAdd(64 * n - 1, 64 * n - 1);
    var t := Two(64 * n - 1);
    assert 64 * n - 1 + (64 * n - 1) == 128 * n - 2;
    if s < t {
      assert a < (s + 1) * (s + 1) by { assert (s + 1) * (s + 1) == s * s + 2 * s + 1; }
      SquareRoot.SquareLe(s + 1, t);
      assert false;
    }
  }

  /** x is the real root of m. */
  ghost predicate IsRealRoot(x: real, m: real) {
    x >= 0.0 && x * x == m
  }

  /** The root of the mantissa with a sticky bit: 64 * n bits that stand for the real root at the scale of the result. */
  method SqrtMantissa(ta: seq<Limb>, odd: bool, n: nat, ghost e: int, ghost h: int) returns (t: seq<Limb>)
    requires Normal(ta) && n >= 1 && 2 * h == (if odd then e + 1 else e)
    ensures |t| == n && Val(t) >= Two(64 * n - 1)
    ensures forall x: real | IsRealRoot(x, Mag(ta, e)) :: Approximates(Val(t), h - 64 * n, x)
  {
    hide Val, Pow, Two, P2, Scaled, Approximates, SquareRoot.IsRoot;
    var la := |ta|;
    var n1 := if la < 2 * n then la else 2 * n;
    var high, low := ta[la - n1..], ta[..la - n1];
    var a1 := CopyHigh(high, 2 * n);
    ghost var top, tt := Val(high) * Pow(2 * n - n1), Scaled(Val(ta), P2(128 * n - 64 * la));
    TopLimbs(ta, n1, 2 * n);
    HighRange(high, 2 * n);
    var res := false;
    ghost var g := tt;
    assert a1[0..0 + 2 * n] == a1[..2 * n];
    if odd {
      var out := MpShr1(a1, 0, 2 * n, 0);
      res := out != 0;
      assert a1[0..0 + 2 * n] == a1[..2 * n];
      Halved(tt, top, Val(a1[..2 * n]), out);
      g := tt / 2.0;
    }
    ghost var a := Val(a1[..2 * n]);
    QuarterBits(a, top, 2 * n);
    QuarterKept(a1[..2 * n]);
    var tabs := new Limb[n];
    SquareRoot.MpSqrtRem(tabs, a1, n);
    t := tabs[..n];
    ghost var s, r := Val(t), Val(a1[..n + 1]);
    RootRange(a, s, r, n);
    forall x: real | IsRealRoot(x, Mag(ta, e))
      ensures g == a as real && r == 0 ==> Approximates(s, h - 64 * n, x)
      ensures !(g == a as real && r == 0) ==> Approximates(OddUp(s), h - 64 * n, x) && OddUp(s) >= s
    {
      RootStands(x, Val(ta), e, 64 * la, n, h, tt, g, s, r, a);
    }
    assert OddUp(s) >= s;
    var res1 := MpScanNz(a1, n + 1);
    var res2 := ScanNz(low);
    if res || res1 || res2 {
      OrOneVal(t);
      t := t[0 := OrOne(t[0])];
    }
  }

  /** mp_scan_nz on the limbs cut off. */
  method ScanNz(s: seq<Limb>) returns (nz: bool)
    ensures nz <==> Val(s) != 0
  {
    ValZero(s);
    for i := 0 to |s|
      invariant forall k :: 0 <= k < i ==> s[k] == 0
    {
      if s[i] != 0 {
        return true;
      }
    }
    nz := false;
  }

  lemma HighRange(high: seq<Limb>, m: nat)
    requires Normal(high) && |high| <= m
    ensures Val(high) * Pow(m - |high|) >= Two(64 * m - 1)
  {
    hide Val, Pow, Two;
    var k := m - |high|;
    NormalRange(high);
    TwoLimbs(k);
    TwoAdd(64 * |high| - 1, 64 * k);
    assert 64 * |high| - 1 + 64 * k == 64 * m - 1;
    MulMono(Pow(k), Two(64 * |high| - 1), Val(high));
  }

  lemma QuarterBits(a: int, top: int, m: nat)
    requires m >= 1 && top >= Two(64 * m - 1) && (a == top || 2 * a + 1 >= top)
    ensures a >= Two(64 * m - 2)
  {
    assert Two(64 * m - 1) == 2 * Two(64 * m - 2);
  }

  /** The root of a number between a and a + 1 lies between the integer root of a and the next. */
  lemma Between(s: int, r: int, a: int, g: real, y: real)
    requires SquareRoot.IsRoot(a, s, r) && s >= 0 && a as real <= g < (a + 1) as real && y >= 0.0 && y * y == g
    ensures s as real <= y < (s + 1) as real && (y == s as real <==> g == a as real && r == 0)
  {
    var lo, hi := s * s, (s + 1) * (s + 1);
    assert hi == lo + 2 * s + 1;
    assert a == lo + r;
    SquareSides(s, y, g, lo, hi);
  }

  /** Back from the scale of the result. */
  lemma AtScale(s: int, n: int, x: real, y: real)
    requires P2(n) > 0.0 && y == x / P2(n) && s as real <= y < (s + 1) as real
    ensures y == s as real ==> Approximates(s, n, x)
    ensures y != s as real ==> Approximates(OddUp(s), n, x) && OddUp(s) >= s
  {
    hide P2;
    var p := P2(n);
    assert y * p == x;
    if y != s as real {
      TimesStrict(y, s as real, p);
      TimesStrict((s + 1) as real, y, p);
      StickyApproximates(s, n, x);
    }
  }

  /** What the integer root stands for. */
  lemma RootStands(x: real, v: int, e: int, w: int, n: nat, h: int, t: real, g: real, s: int, r: int, a: int)
    requires x >= 0.0 && x * x == Scaled(v, P2(e - w)) && t == Scaled(v, P2(128 * n - w))
    requires (2 * h == e && g == t) || (2 * h == e + 1 && g == t / 2.0)
    requires SquareRoot.IsRoot(a, s, r) && s >= 0 && a as real <= g < (a + 1) as real
    ensures g == a as real && r == 0 ==> Approximates(s, h - 64 * n, x)
    ensures !(g == a as real && r == 0) ==> Approximates(OddUp(s), h - 64 * n, x) && OddUp(s) >= s
  {
    hide P2, Scaled, Approximates;
    RootScale(x, v, e, w, n, h, t, g);
    var y := x / P2(h - 64 * n);
    Between(s, r, a, g, y);
    AtScale(s, h - 64 * n, x, y);
  }

  /** bf_sqrt: the real root, correctly rounded. */
  method Sqrt(r: Float, a: Float, prec: nat, env: Env) returns (sig: Signal, ghost e: int)
    requires r != a && a.Valid() && EnvOk(env) && prec >= PrecMin
    modifies r
    ensures r.Valid()
    ensures a.kind == KNaN ==> r.Num() == NaN && sig == Quiet
    ensures a.kind == KZero || (a.kind == KInfinity && !a.sign) ==> r.Num() == a.Num() && r.sign == a.sign && sig == Quiet
    ensures a.sign && (a.kind == KInfinity || a.kind == KFinite) ==> r.Num() == NaN && sig == InvalidOp
    ensures a.kind == KFinite && !a.sign ==> sig.Rounded? && !r.sign
    ensures a.kind == KFinite && !a.sign ==> forall x: real | IsRealRoot(x, Mag(a.tab, a.expn)) ::
      InBinade(x, e) && CorrectlyRounded(x, e, false, prec, env, r.Num(), sig.st)
  {
    hide Val, Pow, Two, P2, Scaled, InBinade, CorrectlyRounded, Approximates, IsRealRoot;
    e := 0;
    if a.kind != KFinite {
      if a.kind == KNaN {
        r.kind, r.tab := KNaN, [];
      } else if a.kind == KInfinity && a.sign {
        r.kind, r.tab := KNaN, [];
        return InvalidOp, 0;
      } else {
        r.kind, r.sign, r.tab := a.kind, a.sign, [];
      }
      return Quiet, 0;
    } else if a.sign {
      r.kind, r.tab := KNaN, [];
      return InvalidOp, 0;
    }
    var n := (2 * (prec + 2) + 127) / 128;
    var odd := a.expn % 2 == 1;
    var h := (a.expn + 1) / 2;
    var t := SqrtMantissa(a.tab, odd, n, a.expn, h);
    TwoMono(prec + 1, 64 * n - 1);
    TopKept(t, n);
    r.tab, r.expn, r.sign, r.kind := t, h, false, KFinite;
    NormalRange(t);
    BinadeOf(Val(t), 64 * n, h);
    e := h;
    var st := r.Round(prec, env);
    forall x: real | IsRealRoot(x, Mag(a.tab, a.expn))
      ensures InBinade(x, e) && CorrectlyRounded(x, e, false, prec, env, r.Num(), st)
    {
      StickyCorrect(Val(t), h - 64 * n, x, e, false, prec, env, r.Num(), st);
    }
    sig := Rounded(st);
  }
}
