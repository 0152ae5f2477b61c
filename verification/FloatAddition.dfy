/**
 Correctly rounded addition and subtraction of qjs/libbf.c (bf_add_internal): the operands are
 aligned limb by limb, what lies below the kept limbs only leaves a carry and a sticky bit, and
 gaps between the operands are skipped.
 */
module FloatAddition {
  import opened Limbs
  import opened Bits
  import opened RoundingTheory
  import opened RoundingLimbs
  import opened Rounding
  import opened LimbStreams
  import opened AlignedOperands
  import CancelledBits
  import FloatDivision
  import Division

  // ---- one limb ----

  /** v1 + v2 + carry and the carry out, from two wrapping additions. */
  function AddLimb(v1: Limb, v2: Limb, carry: Limb): (r: (Limb, Limb))
    requires carry <= 1
    ensures r.1 <= 1 && r.0 + B * r.1 == B * 0 + v1 + v2 + carry
  {
    var u := WrapAdd(v1, v2);
    var carry1 := u < v1;
    var u' := WrapAdd(u, carry);
    (u', if u' < carry || carry1 then 1 else 0)
  }

  /** The low limbs zs and the carry are the sum of the rows so far. */
  ghost predicate SumSoFar(xs: seq<Limb>, ys: seq<Limb>, zs: seq<Limb>, carry: int, c0: int) {
    && |zs| <= |xs| == |ys|
    && Val(zs) + carry * Pow(|zs|) == Val(xs[..|zs|]) + Val(ys[..|zs|]) + c0
  }

  lemma SumStart(xs: seq<Limb>, ys: seq<Limb>, c0: int)
    requires |xs| == |ys|
    ensures SumSoFar(xs, ys, [], c0, c0)
  {
    ValBase();
  }

  lemma SumStep(xs: seq<Limb>, ys: seq<Limb>, zs: seq<Limb>, carry: Limb, c0: int, u: Limb, carry': Limb)
    requires SumSoFar(xs, ys, zs, carry, c0) && |zs| < |xs| && carry <= 1 && AddLimb(xs[|zs|], ys[|zs|], carry) == (u, carry')
    ensures SumSoFar(xs, ys, zs + [u], carry', c0)
  {
    hide Val, Pow;
    var k := |zs|;
    ValSnoc(zs, u);
    ValNext(xs, k);
    ValNext(ys, k);
    SumProduct(Pow(k), u, carry', xs[k], ys[k], carry);
  }

  lemma SumProduct(p: int, u: int, c': int, x: int, y: int, c: int)
    requires u + B * c' == x + y + c
    ensures p * u + c' * (B * p) == p * x + p * y + c * p
  {
    assert p * (u + B * c') == p * (x + y + c);
  }

  /** Limbs that reproduce their carry, from k on. */
  lemma {:induction false} SumRun(xs: seq<Limb>, ys: seq<Limb>, zs: seq<Limb>, carry: Limb, c0: int, u: Limb, m: nat) returns (zs': seq<Limb>)
    requires SumSoFar(xs, ys, zs, carry, c0) && |zs| + m <= |xs| && carry <= 1
    requires forall j :: |zs| <= j < |zs| + m ==> AddLimb(xs[j], ys[j], carry) == (u, carry)
    ensures |zs'| == |zs| + m && SumSoFar(xs, ys, zs', carry, c0)
    ensures Val(zs') != 0 <==> Val(zs) != 0 || (m > 0 && u != 0)
    decreases m
  {
    hide Val, Pow, SumSoFar;
    zs' := zs;
    if m > 0 {
      SumLength(xs, ys, zs, carry, c0);
      SumStep(xs, ys, zs, carry, c0, u, carry);
      SnocZero(zs, u);
      zs' := SumRun(xs, ys, zs + [u], carry, c0, u, m - 1);
    }
  }

  lemma SumLength(xs: seq<Limb>, ys: seq<Limb>, zs: seq<Limb>, carry: int, c0: int)
    requires SumSoFar(xs, ys, zs, carry, c0)
    ensures |zs| <= |xs| == |ys|
  {
  }

  lemma SnocZero(zs: seq<Limb>, u: Limb)
    ensures Val(zs + [u]) != 0 <==> Val(zs) != 0 || u != 0
  {
    hide Val, Pow;
    ValSnoc(zs, u);
    if u != 0 {
      MulMono(Pow(|zs|), 1, u);
    }
  }

  // ---- gaps ----

  /** Outside both operands a row adds nothing but what it already carries. */
  lemma GapLimb(o: Operands, k: nat, carry: Limb)
    requires o.Valid() && k < o.n && k < o.n - |o.ta| && (64 * k - o.Shift() <= -64 || 64 * k - o.Shift() >= 64 * |o.tb|)
    requires carry <= 1
    ensures o.RowA()[k] == 0 && o.RowB()[k] == Flip(0, o.isSub)
    ensures var r := AddLimb(0, Flip(0, o.isSub), carry);
            AddLimb(0, Flip(0, o.isSub), r.1).1 == r.1 && (AddLimb(0, Flip(0, o.isSub), r.1).0 != 0 ==> r.0 != 0)
  {
    hide Row, GetBits, Two, Val;
    LimbsOfA(o, k);
    LimbsOfB(o, k);
    GetBitsOutside(o.tb, 64 * k - o.Shift());
  }

  // ---- below the kept limbs ----

  /** Where the loop over the low limbs goes next: past a gap in one step. */
  function NextIndex(i: int, aOffset: int, bBitOffset: int, inside: bool): int {
    var ap, bp := aOffset + i, bBitOffset + 64 * i;
    if inside then i + 1
    else
      var i1 := if ap < 0 && -aOffset < 0 then -aOffset else 0;
      if bp + 64 <= 0 && (-bBitOffset) / 64 < i1 then (-bBitOffset) / 64 else i1
  }

  /** What lies below the kept limbs: the carry into them, and whether any of it is not zero. */
  method SumBelow(o: Operands, rLen: nat) returns (carry: Limb, z: bool, ghost zs: seq<Limb>)
    requires o.Valid() && rLen <= o.n
    ensures carry <= 1 && |zs| == o.n - rLen && SumSoFar(o.RowA(), o.RowB(), zs, carry, o.CarryIn()) && (z <==> Val(zs) != 0)
  {
    hide Val, Pow, Two, SumSoFar, Row, GetBits;
    var la, lb := |o.ta|, |o.tb|;
    var aOffset, bBitOffset := la - rLen, (lb - rLen) * 64 + o.d;
    carry, z := if o.isSub then 1 else 0, false;
    zs := [];
    SumStart(o.RowA(), o.RowB(), o.CarryIn());
    ValBase();
    var i := rLen - o.n;
    ghost var low := o.n - rLen;
    while i < 0
      invariant rLen - o.n <= i <= 0 && carry <= 1 && |zs| == i + low
      invariant SumSoFar(o.RowA(), o.RowB(), zs, carry, o.CarryIn()) && (z <==> Val(zs) != 0)
      decreases -i
    {
      ghost var k := i + low;
      var ap, bp := aOffset + i, bBitOffset + i * 64;
      assert ap == k - (o.n - la) && bp == 64 * k - o.Shift();
      var inA, inB := ap >= 0, bp + 64 > 0 && bp < lb * 64;
      var v1 := if inA then o.ta[ap] else 0;
      var v2 := if inB then GetBits(o.tb, bp) else 0;
      LimbsOfA(o, k);
      LimbsOfB(o, k);
      if !inB {
        GetBitsOutside(o.tb, bp);
      }
      var r := AddLimb(v1, Flip(v2, o.isSub), carry);
      SumStep(o.RowA(), o.RowB(), zs, carry, o.CarryIn(), r.0, r.1);
      SnocZero(zs, r.0);
      ghost var carry0 := carry;
      zs, carry, z := zs + [r.0], r.1, z || r.0 != 0;
      var next := NextIndex(i, aOffset, bBitOffset, inA || inB);
      if !inA && !inB {
        NextInGap(i, aOffset, bBitOffset, lb);
        zs := SkipGap(o, zs, carry0, r.0, carry, next - i - 1, i + low);
      }
      i := next;
    }
  }

  lemma NextInGap(i: int, aOffset: int, bBitOffset: int, lb: nat)
    requires i < 0 && aOffset + i < 0 && (bBitOffset + 64 * i <= -64 || bBitOffset + 64 * i >= 64 * lb)
    ensures var next := NextIndex(i, aOffset, bBitOffset, false);
            && i < next <= 0 && aOffset + (next - 1) < 0
            && (bBitOffset + 64 * (next - 1) <= -64 || bBitOffset + 64 * i >= 64 * lb)
  {
  }

  /** The limbs skipped in a gap, after its first limb. */
  lemma SkipGap(o: Operands, zs: seq<Limb>, carry0: Limb, u: Limb, carry: Limb, m: nat, k: nat) returns (zs': seq<Limb>)
    requires o.Valid() && carry <= 1 && carry0 <= 1 && |zs| == k + 1 && k + 1 + m <= o.n
    requires SumSoFar(o.RowA(), o.RowB(), zs, carry, o.CarryIn())
    requires AddLimb(0, Flip(0, o.isSub), carry0) == (u, carry) && (u != 0 ==> Val(zs) != 0)
    requires k + m < o.n - |o.ta|
    requires 64 * (k + m) - o.Shift() <= -64 || 64 * k - o.Shift() >= 64 * |o.tb|
    ensures |zs'| == |zs| + m && SumSoFar(o.RowA(), o.RowB(), zs', carry, o.CarryIn())
    ensures Val(zs') != 0 <==> Val(zs) != 0
  {
    hide Val, Pow, Two, SumSoFar, Row, GetBits, AddLimb;
    var r := AddLimb(0, Flip(0, o.isSub), carry);
    if m > 0 {
      forall j | |zs| <= j < |zs| + m
        ensures AddLimb(o.RowA()[j], o.RowB()[j], carry) == (r.0, carry) && (r.0 != 0 ==> u != 0)
      {
        GapLimb(o, j, carry0);
      }
      assert |zs| <= |zs| < |zs| + m;
    }
    zs' := SumRun(o.RowA(), o.RowB(), zs, carry, o.CarryIn(), r.0, m);
  }

  /** The kept limbs. */
  method HighPart(o: Operands, rLen: nat, carry0: Limb, ghost zs0: seq<Limb>) returns (tab: seq<Limb>, carry: Limb)
    requires o.Valid() && rLen <= o.n && carry0 <= 1 && |zs0| == o.n - rLen
    requires SumSoFar(o.RowA(), o.RowB(), zs0, carry0, o.CarryIn())
    ensures |tab| == rLen && carry <= 1 && SumSoFar(o.RowA(), o.RowB(), zs0 + tab, carry, o.CarryIn())
  {
    hide Val, Pow, Two, SumSoFar, Row, GetBits;
    var aOffset, bBitOffset := |o.ta| - rLen, (|o.tb| - rLen) * 64 + o.d;
    tab, carry := [], carry0;
    assert zs0 + tab == zs0;
    for i := 0 to rLen
      invariant |tab| == i && carry <= 1 && SumSoFar(o.RowA(), o.RowB(), zs0 + tab, carry, o.CarryIn())
    {
      ghost var k := i + o.n - rLen;
      LimbsOfA(o, k);
      LimbsOfB(o, k);
      var v1 := LimbZ(o.ta, aOffset + i);
      var v2 := GetBits(o.tb, bBitOffset + i * 64);
      assert aOffset + i == k - (o.n - |o.ta|) && bBitOffset + i * 64 == 64 * k - o.Shift();
      var r := AddLimb(v1, Flip(v2, o.isSub), carry);
      SumStep(o.RowA(), o.RowB(), zs0 + tab, carry, o.CarryIn(), r.0, r.1);
      assert zs0 + tab + [r.0] == zs0 + (tab + [r.0]);
      tab, carry := tab + [r.0], r.1;
    }
  }

  // ---- the exact result ----

  lemma {:induction false} FlippedVal(s: seq<Limb>, t: seq<Limb>)
    requires |s| == |t| && forall k :: 0 <= k < |s| ==> t[k] == Flip(s[k], true)
    ensures Val(t) == Pow(|s|) - 1 - Val(s)
  {
    if s != [] {
      FlippedVal(s[1..], t[1..]);
    }
  }

  lemma RowTotals(o: Operands)
    requires o.Valid()
    ensures o.ValueA() < Pow(o.n) && o.ValueB() < Pow(o.n) && Val(o.RowA()) == o.ValueA()
    ensures Val(o.RowB()) == if o.isSub then Pow(o.n) - 1 - o.ValueB() else o.ValueB()
  {
    hide Val, Two, Pow, LimbOf;
    CancelledBits.BelowTop(o);
    TwoLimbs(o.n);
    RowWhole(o.ValueA(), o.n);
    RowWhole(o.ValueB(), o.n);
    if o.isSub {
      FlippedVal(Row(o.ValueB(), o.n), o.RowB());
    } else {
      assert o.RowB() == Row(o.ValueB(), o.n);
    }
  }

  /** The kept limbs are the quotient of the exact result, what lies below them the remainder. */
  lemma Total(o: Operands, zs: seq<Limb>, tab: seq<Limb>, carry: Limb)
    requires o.Valid() && |zs| + |tab| == o.n && carry <= 1 && (o.isSub ==> o.ValueA() > o.ValueB())
    requires SumSoFar(o.RowA(), o.RowB(), zs + tab, carry, o.CarryIn())
    ensures o.isSub ==> carry == 1
    ensures Division.IsDivision(o.Exact(), Pow(|zs|), Val(tab) + (if o.isSub then 0 else carry * Pow(|tab|)), Val(zs))
  {
    hide Val, Two, Pow, Row, SumSoFar;
    var k := |zs|;
    RowTotals(o);
    TotalEquation(o.RowA(), o.RowB(), zs, tab, carry, o.CarryIn());
    if o.isSub {
      TotalDifference(Val(zs), Val(tab), Pow(k), Pow(o.n), carry, o.ValueA(), o.ValueB());
    } else {
      TotalSum(Val(zs), Val(tab), Pow(k), Pow(|tab|), carry, o.ValueA() + o.ValueB());
    }
  }

  lemma TotalEquation(xs: seq<Limb>, ys: seq<Limb>, zs: seq<Limb>, tab: seq<Limb>, carry: Limb, c0: int)
    requires |xs| == |ys| == |zs| + |tab| && SumSoFar(xs, ys, zs + tab, carry, c0)
    ensures Val(zs) + Pow(|zs|) * Val(tab) + carry * Pow(|xs|) == Val(xs) + Val(ys) + c0
    ensures 0 <= Val(zs) < Pow(|zs|) && Val(zs) + Pow(|zs|) * Val(tab) < Pow(|xs|) && Pow(|xs|) == Pow(|zs|) * Pow(|tab|)
  {
    hide Val, Pow, SumSoFar;
    SumWhole(xs, ys, zs + tab, carry, c0);
    ValConcat(zs, tab);
    ValBound(zs);
    ValBound(zs + tab);
    PowAdd(|zs|, |tab|);
    assert |zs + tab| == |xs|;
  }

  lemma SumWhole(xs: seq<Limb>, ys: seq<Limb>, t: seq<Limb>, carry: Limb, c0: int)
    requires |t| == |xs| && SumSoFar(xs, ys, t, carry, c0)
    ensures Val(t) + carry * Pow(|xs|) == Val(xs) + Val(ys) + c0
  {
    hide Val, Pow;
    assert xs[..|xs|] == xs && ys[..|xs|] == ys;
  }

  lemma TotalSum(z: int, t: int, p: int, w: int, c: int, e: int)
    requires 0 <= z < p && z + p * t + c * (p * w) == e
    ensures Division.IsDivision(e, p, t + c * w, z)
  {
    assert (t + c * w) * p == p * t + c * (p * w);
  }

  lemma TotalDifference(z: int, t: int, p: int, pn: int, c: int, a: int, b: int)
    requires 0 <= z < p && 0 <= c <= 1 && z + p * t < pn && z + p * t + c * pn == a + (pn - 1 - b) + 1 && 0 <= b < a < pn
    ensures c == 1 && Division.IsDivision(a - b, p, t, z)
  {
    assert c == 0 || c == 1;
    assert t * p == p * t;
  }

  /** A quotient is at least what the dividend is sure to contain. */
  lemma FloorBound(e: int, p: int, m: int, z: int, t: int)
    requires Division.IsDivision(e, p, m, z) && p >= 1 && e >= t * p
    ensures m >= t
  {
    assert p * (m + 1) == m * p + p && p * t == t * p;
    if m < t {
      MulMono(p, m + 1, t);
      assert false;
    }
  }

  lemma EnoughKept(o: Operands, rLen: nat, m: int, z: int, cancelled: nat, prec: nat)
    requires o.Valid() && 1 <= rLen <= o.n && 64 * rLen >= cancelled + prec + 2
    requires Division.IsDivision(o.Exact(), Pow(o.n - rLen), m, z)
    requires if o.isSub then CancelledBits.Settled(o.ValueA(), o.ValueB(), o.n, cancelled) else cancelled == 0 && o.ValueA() >= Two(64 * o.n - 1)
    ensures m >= Two(prec + 1)
  {
    hide Val, Two, Pow;
    var k, j := o.n - rLen, 64 * rLen - cancelled - 1;
    TwoLimbs(k);
    TwoAdd(j, 64 * k);
    assert j + 64 * k == 64 * o.n - cancelled - 1;
    TwoAdd(1, j + 64 * k);
    TwoOne();
    FloorBound(o.Exact(), Pow(k), m, z, Two(j));
    TwoMono(prec + 1, j);
  }

  /** Operands whose exponents differ by two or more lose one bit at most. */
  lemma FarApart(o: Operands)
    requires o.Valid() && o.d >= 2 && o.ValueA() >= Two(64 * o.n - 1) && o.n >= 1
    ensures CancelledBits.Settled(o.ValueA(), o.ValueB(), o.n, 1) && o.ValueA() > o.ValueB()
  {
    hide Val, Two;
    OperandBound(o.tb, o.Shift(), 64 * o.n - 2);
    TwoAdd(1, 64 * o.n - 2);
    TwoOne();
  }

  /** The aligned operands at their common scale are the magnitudes. */
  lemma AlignedMags(o: Operands, ea: int, eb: int)
    requires o.Valid() && o.d == ea - eb
    ensures Scaled(o.ValueA(), P2(ea - 64 * o.n)) == Mag(o.ta, ea) && Scaled(o.ValueB(), P2(ea - 64 * o.n)) == Mag(o.tb, eb)
  {
    hide Val, Two, P2, Scaled;
    var n := ea - 64 * o.n;
    ShiftedMag(Val(o.ta), o.ValueA(), 64 * (o.n - |o.ta|), ea - 64 * |o.ta|);
    ShiftedMag(Val(o.tb), o.ValueB(), o.Shift(), eb - 64 * |o.tb|);
    assert ea - 64 * |o.ta| - 64 * (o.n - |o.ta|) == n && eb - 64 * |o.tb| - o.Shift() == n;
  }

  lemma ScaledSum(x: int, y: int, s: real)
    ensures Scaled(x + y, s) == Scaled(x, s) + Scaled(y, s) && Scaled(x - y, s) == Scaled(x, s) - Scaled(y, s)
  {
  }

  lemma ExactScale(e: int, k: nat, rLen: nat, ea: int, x: real)
    requires x == Scaled(e, P2(ea - 64 * (rLen + k)))
    ensures x == (e as real / Pow(k) as real) * P2(ea - 64 * rLen)
  {
    hide P2, Two;
    TwoLimbs(k);
    UnitScale(64 * k, ea - 64 * (rLen + k));
    assert 64 * k + (ea - 64 * (rLen + k)) == ea - 64 * rLen;
    var p, q, s := Pow(k) as real, e as real / Pow(k) as real, P2(ea - 64 * (rLen + k));
    assert q * p == e as real;
    RoundingTheory.Assoc(q, p, s);
  }

  /** The limbs of the sum or difference, with a sticky bit: at least prec + 2 bits of it, or all of it. */
  method AddMantissas(o: Operands, prec: nat, ghost ea: int, ghost x: real) returns (tab: seq<Limb>, carry: Limb)
    requires o.Valid() && o.n >= 1 && o.ValueA() >= Two(64 * o.n - 1) && (o.isSub ==> o.ValueA() > o.ValueB())
    requires x == Scaled(o.Exact(), P2(ea - 64 * o.n))
    ensures |tab| >= 1 && carry <= 1 && (o.isSub ==> carry == 1)
    ensures var m := Val(tab) + (if o.isSub then 0 else carry * Pow(|tab|));
            m > 0 && Approximates(m, ea - 64 * |tab|, x) && (Scaled(m, P2(ea - 64 * |tab|)) == x || m >= Two(prec + 1))
  {
    hide Val, Two, Pow, P2, Scaled, Approximates, SumSoFar, Row, GetBits, CancelledBits.Settled;
    var cancelled := 0;
    if o.isSub {
      if o.d <= 1 {
        cancelled := CancelledBits.CountCancelled(o);
      } else {
        cancelled := 1;
        FarApart(o);
      }
    }
    var precl := (cancelled + prec + 2 + 63) / 64;
    var rLen := if precl < o.n then precl else o.n;
    ghost var zs;
    var z;
    carry, z, zs := SumBelow(o, rLen);
    tab, carry := HighPart(o, rLen, carry, zs);
    Total(o, zs, tab, carry);
    ghost var m, k := Val(tab) + (if o.isSub then 0 else carry * Pow(|tab|)), o.n - rLen;
    if 64 * rLen >= cancelled + prec + 2 {
      EnoughKept(o, rLen, m, Val(zs), cancelled, prec);
    } else {
      ValBase();
      assert zs == [];
    }
    PositiveKept(o, m, Val(zs), k, rLen);
    ExactScale(o.Exact(), k, rLen, ea, x);
    FloatDivision.QuotientApproximates(o.Exact(), Pow(k), m, Val(zs), ea - 64 * rLen, x);
    if z {
      FloatDivision.OrOneVal(tab);
      StickyTop(Val(tab), m, carry, |tab|, o.isSub);
      tab := tab[0 := OrOne(tab[0])];
    } else {
      FloatDivision.ExactApproximates(m, ea - 64 * rLen, x);
    }
  }

  lemma PositiveKept(o: Operands, m: int, z: int, k: nat, rLen: nat)
    requires o.Valid() && o.n >= 1 && k + rLen == o.n && Division.IsDivision(o.Exact(), Pow(k), m, z) && o.ValueA() >= Two(64 * o.n - 1)
    requires o.isSub ==> o.ValueA() > o.ValueB()
    ensures m >= 0 && (z == 0 ==> m > 0)
  {
    hide Val, Two;
    if m < 0 {
      MulMono(Pow(k), m, -1);
      assert false;
    }
  }

  /** The sticky bit goes into the lowest limb, also when there is a carry above. */
  lemma StickyTop(v: int, m: int, carry: int, n: nat, isSub: bool)
    requires n >= 1 && 0 <= carry <= 1 && m == v + (if isSub then 0 else carry * Pow(n))
    ensures FloatDivision.OddUp(m) == FloatDivision.OddUp(v) + (if isSub then 0 else carry * Pow(n))
  {
    assert Pow(n) == B * Pow(n - 1);
    assert Pow(n) % 2 == 0;
  }

  // ---- comparing magnitudes ----

  lemma HighestDecides(xs: seq<Limb>, ys: seq<Limb>, j: nat)
    requires |xs| == |ys| && j < |xs| && xs[j + 1..] == ys[j + 1..] && xs[j] < ys[j]
    ensures Val(xs) < Val(ys)
  {
    hide Val, Pow;
    ValSplit(xs, j);
    ValSplit(ys, j);
    ValPrev(xs, j);
    ValPrev(ys, j);
    ValBound(xs[..j]);
    var p, h, x: int, y: int := Pow(j), Val(xs[j + 1..]), xs[j], ys[j];
    MulMono(p, x + 1 + B * h, y + B * h);
    assert p * (x + 1 + B * h) == p * (x + B * h) + p;
  }

  /** A mantissa with zero limbs below it. */
  ghost function Padded(s: seq<Limb>, n: nat): (t: seq<Limb>)
    requires |s| <= n
    ensures |t| == n && forall k :: 0 <= k < n ==> t[k] == LimbZ(s, |s| - n + k)
  {
    seq<Limb>(n, k requires 0 <= k < n => LimbZ(s, |s| - n + k))
  }

  lemma PaddedMag(s: seq<Limb>, n: nat, e: int)
    requires |s| <= n
    ensures Scaled(Val(Padded(s, n)), P2(e - 64 * n)) == Mag(s, e)
  {
    hide Val, Pow, P2, Scaled;
    var t, c := Padded(s, n), n - |s|;
    assert t == t[..c] + s;
    ValConcat(t[..c], s);
    ValZero(t[..c]);
    assert Val(s) * Pow(c) == Pow(c) * Val(s);
    SameMag(Val(s), Val(t), n, |s|, e);
  }

  /** bf_cmpu on finite numbers. */
  method CmpU(ta: seq<Limb>, ea: int, tb: seq<Limb>, eb: int) returns (c: int)
    requires Normal(ta) && Normal(tb)
    ensures c < 0 <==> Mag(ta, ea) < Mag(tb, eb)
    ensures c == 0 <==> Mag(ta, ea) == Mag(tb, eb)
    ensures Mag(ta, ea) >= Mag(tb, eb) ==> ea >= eb
    ensures Mag(ta, ea) <= Mag(tb, eb) ==> ea <= eb
  {
    hide Val, Pow, Two, P2, Scaled, InBinade;
    NormalRange(ta);
    NormalRange(tb);
    BinadeOf(Val(ta), 64 * |ta|, ea);
    BinadeOf(Val(tb), 64 * |tb|, eb);
    if ea != eb {
      BinadeOrder(Mag(ta, ea), Mag(tb, eb), ea, eb);
      return if ea < eb then -1 else 1;
    }
    var len := if |ta| < |tb| then |tb| else |ta|;
    ghost var xs, ys := Padded(ta, len), Padded(tb, len);
    PaddedMag(ta, len, ea);
    PaddedMag(tb, len, ea);
    P2Positive(ea - 64 * len);
    ScaledOrder(Val(xs), Val(ys), P2(ea - 64 * len));
    ScaledOrder(Val(ys), Val(xs), P2(ea - 64 * len));
    var i := len;
    while i > 0
      invariant 0 <= i <= len && xs[i..] == ys[i..]
    {
      i := i - 1;
      var v1, v2 := LimbZ(ta, |ta| - len + i), LimbZ(tb, |tb| - len + i);
      if v1 != v2 {
        if v1 < v2 {
          HighestDecides(xs, ys, i);
          return -1;
        } else {
          HighestDecides(ys, xs, i);
          return 1;
        }
      }
      assert xs[i..] == [xs[i]] + xs[i + 1..] && ys[i..] == [ys[i]] + ys[i + 1..];
    }
    assert xs[0..] == xs && ys[0..] == ys;
    c := 0;
  }

  lemma BinadeOrder(x: real, y: real, ea: int, eb: int)
    requires InBinade(x, ea) && InBinade(y, eb) && ea != eb
    ensures x < y <==> ea < eb
    ensures x != y
  {
    hide P2;
    if ea < eb {
      P2Mono(ea, eb - 1);
    } else {
      P2Mono(eb, ea - 1);
    }
  }

  // ---- the operation ----

  /** The value of a finite number or of zero. */
  ghost function Signed(sign: bool, num: Number): real {
    var m := if num.Finite? then num.mag else 0.0;
    if sign then -m else m
  }

  /** a + b or a - b, for |a| >= |b| > 0: the sum of the mantissas, rounded. */
  method AddFinite(r: Float, ta: seq<Limb>, ea: int, tb: seq<Limb>, eb: int, isSub: bool, sign: bool, prec: nat, env: Env, ghost x: real)
    returns (st: Status, ghost e: int)
    requires Normal(ta) && Normal(tb) && EnvOk(env) && prec >= PrecMin && ea >= eb
    requires x == (if isSub then Mag(ta, ea) - Mag(tb, eb) else Mag(ta, ea) + Mag(tb, eb)) && (isSub ==> x > 0.0)
    modifies r
    ensures r.Valid() && r.sign == sign && InBinade(x, e) && CorrectlyRounded(x, e, sign, prec, env, r.Num(), st)
  {
    hide Val, Two, Pow, P2, Scaled, Approximates, InBinade, CorrectlyRounded;
    var d := ea - eb;
    var bLen := |tb| + (d + 63) / 64;
    var n := if |ta| > bLen then |ta| else bLen;
    var o := Operands(ta, tb, d, n, isSub);
    assert o.Valid();
    AlignedMags(o, ea, eb);
    P2Positive(ea - 64 * n);
    ScaledSum(o.ValueA(), o.ValueB(), P2(ea - 64 * n));
    ScaledOrder(o.ValueB(), o.ValueA(), P2(ea - 64 * n));
    assert isSub ==> Scaled(o.ValueB(), P2(ea - 64 * n)) < Scaled(o.ValueA(), P2(ea - 64 * n));
    TopBit(o);
    var tab, carry := AddMantissas(o, prec, ea, x);
    r.expn, r.sign := ea, sign;
    if !isSub && carry != 0 {
      ValSnoc(tab, 1);
      tab := tab + [1];
      r.expn := ea + 64;
    }
    r.tab := tab;
    st, e := r.NormalizeAndRound(prec, env, x);
  }

  lemma TopBit(o: Operands)
    requires o.Valid() && Normal(o.ta)
    ensures o.n >= 1 && o.ValueA() >= Two(64 * o.n - 1)
  {
    hide Val, Two;
    NormalRange(o.ta);
    TwoAdd(64 * |o.ta| - 1, 64 * (o.n - |o.ta|));
    MulMono(Two(64 * (o.n - |o.ta|)), Two(64 * |o.ta| - 1), Val(o.ta));
  }

  /** Where the encodings of the exponents put a number in bf_cmpu. */
  function Rank(k: Kind): int {
    match k
    case KZero => 0
    case KFinite => 1
    case KInfinity => 2
    case KNaN => 3
  }

  /** bf_cmpu: zero, then finite numbers by magnitude, then infinity, then NaN. */
  method Compare(a: Float, b: Float) returns (c: int)
    requires a.Valid() && b.Valid()
    ensures a.kind != b.kind ==> c != 0
    ensures a.kind == KZero && b.kind != KZero ==> c < 0
    ensures a.kind == KFinite && b.kind == KZero ==> c > 0
    ensures a.kind == KFinite && (b.kind == KInfinity || b.kind == KNaN) ==> c < 0
    ensures a.kind == KInfinity && (b.kind == KZero || b.kind == KFinite) ==> c > 0
    ensures a.kind == KInfinity && b.kind == KNaN ==> c < 0
    ensures a.kind == KNaN && b.kind != KNaN ==> c > 0
    ensures a.kind == b.kind != KFinite ==> c == 0
    ensures a.kind == b.kind == KFinite ==>
      && (c < 0 <==> Mag(a.tab, a.expn) < Mag(b.tab, b.expn)) && (c == 0 <==> Mag(a.tab, a.expn) == Mag(b.tab, b.expn))
      && (c >= 0 ==> a.expn >= b.expn) && (c <= 0 ==> a.expn <= b.expn)
  {
    hide P2, Val;
    if a.kind != b.kind {
      c := Rank(a.kind) - Rank(b.kind);
    } else if a.kind != KFinite {
      c := 0;
    } else {
      c := CmpU(a.tab, a.expn, b.tab, b.expn);
    }
  }

  ghost predicate IsNumber(a: Float)
    reads a
  {
    a.kind == KFinite || a.kind == KZero
  }

  /** bf_add_internal: a + b, or a - b when bNeg is set. */
  method Add(r: Float, a: Float, b: Float, prec: nat, env: Env, bNeg: bool) returns (sig: FloatDivision.Signal, ghost e: int)
    requires r != a && r != b && a.Valid() && b.Valid() && EnvOk(env) && prec >= PrecMin
    modifies r
    ensures r.Valid()
    ensures a.kind == KNaN || b.kind == KNaN ==> r.Num() == NaN && sig == FloatDivision.Quiet
    ensures a.kind == b.kind == KInfinity && a.sign != (b.sign != bNeg) ==> r.Num() == NaN && sig == FloatDivision.InvalidOp
    ensures a.kind == b.kind == KInfinity && a.sign == (b.sign != bNeg) ==> r.Num() == Infinity && r.sign == a.sign && sig == FloatDivision.Quiet
    ensures a.kind == KInfinity && IsNumber(b) ==> r.Num() == Infinity && r.sign == a.sign && sig == FloatDivision.Quiet
    ensures IsNumber(a) && b.kind == KInfinity ==> r.Num() == Infinity && r.sign == (b.sign != bNeg) && sig == FloatDivision.Quiet
    ensures IsNumber(a) && IsNumber(b) ==>
      var x := Signed(a.sign, a.Num()) + Signed(b.sign != bNeg, b.Num());
      if x == 0.0 then
        && r.Num() == Zero && sig == FloatDivision.Rounded(Status(false, false, false))
        && r.sign == (if a.sign == (b.sign != bNeg) then a.sign else env.mode == RndD)
      else
        && sig.Rounded? && r.sign == (x < 0.0) && InBinade(if x < 0.0 then -x else x, e)
        && CorrectlyRounded(if x < 0.0 then -x else x, e, r.sign, prec, env, r.Num(), sig.st)
  {
    hide Val, P2, Mag, InBinade, CorrectlyRounded, Two, Pow, Scaled;
    var aSign, bSign := a.sign, b.sign != bNeg;
    var isSub := aSign != bSign;
    var c := Compare(a, b);
    Positive(a);
    Positive(b);
    if c == 0 && isSub && a.kind in {KZero, KFinite} {
      r.SetZero(env.mode == RndD);
      return FloatDivision.Rounded(Status(false, false, false)), 0;
    } else if c < 0 {
      sig, e := AddOrdered(r, b, a, isSub, bSign, prec, env);
    } else {
      sig, e := AddOrdered(r, a, b, isSub, aSign, prec, env);
    }
  }

  /** The magnitude of a number, zero included. */
  ghost function Size(a: Float): real
    reads a
  {
    if a.kind == KFinite then Mag(a.tab, a.expn) else 0.0
  }

  /** The rest of bf_add_internal, with the larger operand first; sign is its sign. */
  method AddOrdered(r: Float, big: Float, small: Float, isSub: bool, sign: bool, prec: nat, env: Env)
    returns (sig: FloatDivision.Signal, ghost e: int)
    requires r != big && r != small && big.Valid() && small.Valid() && EnvOk(env) && prec >= PrecMin
    requires Rank(small.kind) <= Rank(big.kind)
    requires big.kind == small.kind == KFinite ==> big.expn >= small.expn && (isSub ==> Mag(big.tab, big.expn) > Mag(small.tab, small.expn))
    requires isSub ==> big.kind != KZero
    modifies r
    ensures r.Valid()
    ensures big.kind == KNaN ==> r.Num() == NaN && sig == FloatDivision.Quiet
    ensures big.kind == KInfinity ==>
      if small.kind == KInfinity && isSub then r.Num() == NaN && sig == FloatDivision.InvalidOp
      else r.Num() == Infinity && r.sign == sign && sig == FloatDivision.Quiet
    ensures big.kind == KZero ==> r.Num() == Zero && r.sign == sign && sig == FloatDivision.Rounded(Status(false, false, false))
    ensures big.kind == KFinite ==>
      var x := if isSub then Size(big) - Size(small) else Size(big) + Size(small);
      && sig.Rounded? && r.sign == sign && InBinade(x, e) && CorrectlyRounded(x, e, sign, prec, env, r.Num(), sig.st)
  {
    hide Val, P2, Mag, InBinade, CorrectlyRounded, Two, Pow, Scaled;
    e := 0;
    var st;
    if big.kind != KFinite || small.kind != KFinite {
      if big.kind == KNaN {
        r.kind, r.tab := KNaN, [];
        return FloatDivision.Quiet, 0;
      } else if big.kind == KInfinity {
        if small.kind == KInfinity && isSub {
          r.kind, r.tab := KNaN, [];
          return FloatDivision.InvalidOp, 0;
        }
        r.SetInfinity(sign);
        return FloatDivision.Quiet, 0;
      }
      st, e := CopyRounded(r, big, sign, prec, env);
    } else {
      Positive(small);
      ghost var x := if isSub then Size(big) - Size(small) else Size(big) + Size(small);
      st, e := AddFinite(r, big.tab, big.expn, small.tab, small.expn, isSub, sign, prec, env, x);
    }
    sig := FloatDivision.Rounded(st);
  }

  lemma Positive(a: Float)
    requires a.Valid()
    ensures a.kind == KFinite ==> Mag(a.tab, a.expn) > 0.0
  {
    if a.kind == KFinite {
      FloatDivision.MagPositive(a.tab, a.expn);
    }
  }

  /** At least one zero: the other operand, rounded. */
  method CopyRounded(r: Float, a: Float, sign: bool, prec: nat, env: Env) returns (st: Status, ghost e: int)
    requires r != a && a.Valid() && EnvOk(env) && prec >= PrecMin && (a.kind == KZero || a.kind == KFinite)
    modifies r
    ensures r.Valid() && r.sign == sign
    ensures a.kind == KZero ==> r.Num() == Zero && st == Status(false, false, false)
    ensures a.kind == KFinite ==>
      InBinade(Mag(a.tab, a.expn), e) && CorrectlyRounded(Mag(a.tab, a.expn), e, sign, prec, env, r.Num(), st)
  {
    hide Val, P2, InBinade, CorrectlyRounded, Two, Scaled, Pow;
    r.sign := sign;
    if a.kind == KZero {
      r.SetZero(sign);
      return Status(false, false, false), 0;
    }
    r.tab, r.expn, r.kind := a.tab, a.expn, KFinite;
    NormalRange(r.tab);
    st, e := r.NormalizeAndRound(prec, env, Mag(a.tab, a.expn));
  }
}
