/**
 __bf_round and bf_normalize_and_round of qjs/libbf.c: floating-point numbers of any precision,
 correctly rounded within an exponent range, with or without subnormal numbers.
 */
module Rounding {
  import opened Limbs
  import opened Bits
  import opened RoundingTheory
  import opened RoundingLimbs

  /** Rounding mode, BF_FLAG_SUBNORMAL and the exponent range e_min = 3 - e_range, e_max = e_range. */
  datatype Env = Env(mode: Mode, subnormal: bool, eMin: int, eMax: int)

  predicate EnvOk(env: Env) {
    env.eMin < env.eMax
  }

  /** BF_PREC_MIN and BF_PREC_INF */
  const PrecMin: nat := 2
  const PrecInf: nat := 0x3fff_ffff_ffff_ffff

  datatype Status = Status(inexact: bool, underflow: bool, overflow: bool)

  datatype Number = Zero | Infinity | NaN | Finite(mag: real)

  /** An integer times a scale. */
  ghost function Scaled(k: int, s: real): real {
    k as real * s
  }

  /** 0.tab * 2^expn */
  ghost function Mag(tab: seq<Limb>, expn: int): real {
    Scaled(Val(tab), P2(expn - 64 * |tab|))
  }

  // ---- what correct rounding is ----

  ghost predicate InBinade(x: real, e: int) {
    P2(e - 1) <= x < P2(e)
  }

  /** The exponent of the unit in the last place for numbers of exponent e. */
  function UnitExp(e: int, prec: int, env: Env): int {
    (if env.subnormal && e < env.eMin then env.eMin else e) - prec
  }

  predicate ToInfinity(mode: Mode, sign: bool) {
    mode.RndN? || mode.RndNA? || mode.RndA? || (mode.RndD? && sign) || (mode.RndU? && !sign)
  }

  /** What becomes of x once it is rounded to y: underflow, overflow, or y itself. */
  ghost predicate Outcome(x: real, y: real, sign: bool, prec: int, env: Env, res: Number, st: Status) {
    if y == 0.0 || (!env.subnormal && y < P2(env.eMin - 1)) then
      res == Zero && st == Status(true, true, false)
    else if y >= P2(env.eMax) then
      && st == Status(true, false, true)
      && res == if prec == PrecInf || ToInfinity(env.mode, sign) then Infinity else Finite(P2(env.eMax) - P2(env.eMax - prec))
    else
      res == Finite(y) && st == Status(x != y, x != y && y < P2(env.eMin - 1), false)
  }

  /** The magnitude x, of exponent e, rounded to prec places. */
  ghost predicate CorrectlyRounded(x: real, e: int, sign: bool, prec: int, env: Env, res: Number, st: Status) {
    exists k: int :: RoundsBy(x, P2(UnitExp(e, prec, env)), sign, prec, env, res, st, k)
  }

  /** k units in the last place are the rounding of x. */
  ghost predicate RoundsBy(x: real, u: real, sign: bool, prec: int, env: Env, res: Number, st: Status, k: int) {
    u > 0.0 && IsRounding(x / u, sign, env.mode, k) && Outcome(x, Scaled(k, u), sign, prec, env, res, st)
  }

  /** The number with the sign, infinities as extremes, is at most the exact one. */
  ghost predicate AtMost(sign: bool, res: Number, x: real) {
    if sign then res.Infinity? || (res.Finite? && res.mag >= x) else res.Finite? && res.mag <= x
  }

  ghost predicate AtLeast(sign: bool, res: Number, x: real) {
    if sign then res.Finite? && res.mag <= x else res.Infinity? || (res.Finite? && res.mag >= x)
  }

  /**
   What the directions mean for every result that is not flushed to zero, overflow included:
   RndD never exceeds the exact value and RndU never falls short of it, RndZ never exceeds its
   magnitude and RndA never falls short of that.  Rounding to nearest overflows to infinity.
   */
  lemma Directions(x: real, e: int, sign: bool, prec: int, env: Env, res: Number, st: Status)
    requires CorrectlyRounded(x, e, sign, prec, env, res, st) && EnvOk(env) && prec >= PrecMin && res != Zero
    requires st.overflow ==> prec != PrecInf
    ensures env.mode == RndD ==> AtMost(sign, res, x)
    ensures env.mode == RndU ==> AtLeast(sign, res, x)
    ensures env.mode == RndZ ==> res.Finite? && res.mag <= x
    ensures env.mode == RndA ==> res.Infinity? || (res.Finite? && res.mag >= x)
    ensures (env.mode == RndN || env.mode == RndNA) && st.overflow ==> res == Infinity
  {
    hide P2;
    var u := P2(UnitExp(e, prec, env));
    var k: int :| RoundsBy(x, u, sign, prec, env, res, st, k);
    var y := Scaled(k, u);
    UnitSides(x, u, k);
    LargestBelow(env, prec);
  }

  /** Overflow with unlimited precision is infinite in every mode. */
  lemma UnlimitedOverflow(x: real, e: int, sign: bool, env: Env, res: Number, st: Status)
    requires CorrectlyRounded(x, e, sign, PrecInf, env, res, st) && st.overflow
    ensures res == Infinity
  {
    hide P2;
  }

  lemma UnitSides(x: real, u: real, k: int)
    requires u > 0.0
    ensures k as real <= x / u ==> Scaled(k, u) <= x
    ensures x / u <= k as real ==> x <= Scaled(k, u)
  {
    var t := x / u;
    assert t * u == x;
    if k as real <= t {
      Times(t, k as real, u);
    }
    if t <= k as real {
      Times(k as real, t, u);
    }
  }

  lemma LargestBelow(env: Env, prec: int)
    ensures P2(env.eMax) - P2(env.eMax - prec) < P2(env.eMax)
  {
    hide P2;
    P2Positive(env.eMax - prec);
  }

  /** The specification leaves no choice. */
  lemma RoundedUnique(x: real, e: int, sign: bool, prec: int, env: Env, res: Number, st: Status, res': Number, st': Status)
    requires CorrectlyRounded(x, e, sign, prec, env, res, st) && CorrectlyRounded(x, e, sign, prec, env, res', st')
    ensures res == res' && st == st'
  {
    hide P2, Outcome, IsRounding, Scaled;
    var u := P2(UnitExp(e, prec, env));
    var k: int :| RoundsBy(x, u, sign, prec, env, res, st, k);
    var k': int :| RoundsBy(x, u, sign, prec, env, res', st', k');
    RoundingUnique(x / u, sign, env.mode, k, k');
    OutcomeUnique(x, Scaled(k, u), sign, prec, env, res, st, res', st');
  }

  lemma OutcomeUnique(x: real, y: real, sign: bool, prec: int, env: Env, res: Number, st: Status, res': Number, st': Status)
    requires Outcome(x, y, sign, prec, env, res, st) && Outcome(x, y, sign, prec, env, res', st')
    ensures res == res' && st == st'
  {
    hide P2;
  }

  // ---- integers and reals ----

  /** Limbs dropped from the low end, all zero, do not change the magnitude. */
  lemma SameMag(v: int, c: int, n: nat, k: nat, e: int)
    requires k <= n && v * Pow(n - k) == c
    ensures Scaled(v, P2(e - 64 * k)) == Scaled(c, P2(e - 64 * n))
  {
    hide P2, Two;
    TwoLimbs(n - k);
    UnitScale(64 * (n - k), e - 64 * n);
    assert 64 * (n - k) + (e - 64 * n) == e - 64 * k;
    RoundingTheory.Assoc(v as real, Pow(n - k) as real, P2(e - 64 * n));
  }

  lemma Ratio(m: int, u: int, x: real, unit: real, s: real)
    requires u >= 1 && s > 0.0 && x == m as real * s && unit == u as real * s
    ensures unit > 0.0 && x / unit == m as real / u as real
  {
    TimesStrict(u as real, 0.0, s);
    var t := m as real / u as real;
    assert t * u as real == m as real;
    assert t * unit == x by { RoundingTheory.Assoc(t, u as real, s); }
    assert (t * unit) / unit == t;
  }

  /** The number of units in the last place that __bf_round keeps. */
  ghost function Kept(m: int, g: int, add: bool): int {
    if g > 0 then m / Two(g) + (if add then 1 else 0) else m * Two(-g)
  }

  /** The integer chosen by the deciding bits is the rounding of the magnitude. */
  lemma Chosen(m: int, w: nat, e: int, prec: int, sign: bool, mode: Mode, add: bool, inexact: bool)
    requires if w - prec > 0 then Decides(m, Two(w - prec), sign, mode, add, inexact) else !add && !inexact
    ensures P2(e - prec) > 0.0 && IsRounding(Scaled(m, P2(e - w)) / P2(e - prec), sign, mode, Kept(m, w - prec, add))
    ensures Scaled(Kept(m, w - prec, add), P2(e - prec))
            == Scaled(if w - prec > 0 then Kept(m, w - prec, add) * Two(w - prec) else m, P2(e - w))
    ensures inexact <==> Scaled(m, P2(e - w)) != Scaled(Kept(m, w - prec, add), P2(e - prec))
  {
    hide P2, Two, IsRounding, Kept, Scaled;
    P2Positive(e - w);
    P2Positive(e - prec);
    if w - prec > 0 {
      UnitScale(w - prec, e - w);
      assert w - prec + (e - w) == e - prec;
      KeptIs(m, w - prec, add);
      ChosenAbove(m, Two(w - prec), P2(e - w), P2(e - prec), sign, mode, add, inexact);
    } else {
      UnitScale(prec - w, e - prec);
      assert prec - w + (e - prec) == e - w;
      KeptIs(m, w - prec, add);
      ChosenExact(m, Two(prec - w), P2(e - w), P2(e - prec), sign, mode);
    }
  }

  lemma UnitScale(g: nat, n: int)
    ensures P2(g + n) == Scaled(Two(g), P2(n))
  {
    hide P2, Two;
    TwoIsP2(g);
    P2Add(g, n);
  }

  lemma KeptIs(m: int, g: int, add: bool)
    ensures g > 0 ==> Kept(m, g, add) == m / Two(g) + (if add then 1 else 0)
    ensures g <= 0 ==> Kept(m, g, add) == m * Two(-g)
  {
  }

  lemma ChosenAbove(m: int, v: int, s: real, u: real, sign: bool, mode: Mode, add: bool, inexact: bool)
    requires v >= 1 && s > 0.0 && u == Scaled(v, s) && Decides(m, v, sign, mode, add, inexact)
    ensures var k := m / v + (if add then 1 else 0);
            && u > 0.0 && IsRounding(Scaled(m, s) / u, sign, mode, k)
            && Scaled(k, u) == Scaled(k * v, s) && (inexact <==> Scaled(m, s) != Scaled(k, u))
  {
    hide IsRounding;
    var k := m / v + (if add then 1 else 0);
    Ratio(m, v, m as real * s, u, s);
    UpIsRounding(m, v, sign, mode);
    assert k as real * u == (k * v) as real * s by { RoundingTheory.Assoc(k as real, v as real, s); }
    InexactIff(m, v, k, add, sign, mode);
    Cancel(m as real, (k * v) as real, s);
  }

  lemma ChosenExact(m: int, v: int, s: real, u: real, sign: bool, mode: Mode)
    requires v >= 1 && u > 0.0 && s == Scaled(v, u)
    ensures IsRounding(Scaled(m, s) / u, sign, mode, m * v) && Scaled(m * v, u) == Scaled(m, s)
  {
    hide IsRounding;
    var k := m * v;
    assert Scaled(k, u) == Scaled(m, s) by { RoundingTheory.Assoc(m as real, v as real, u); }
    var t := Scaled(m, s) / u;
    assert t == k as real by { DivideBack(Scaled(m, s), k as real, u); }
    Exact(k, sign, mode);
  }

  lemma DivideBack(x: real, k: real, u: real)
    requires u > 0.0 && k * u == x
    ensures x / u == k
  {
  }

  lemma Exact(k: int, sign: bool, mode: Mode)
    ensures IsRounding(k as real, sign, mode, k)
  {
  }

  lemma Cancel(x: real, y: real, s: real)
    requires s > 0.0
    ensures x * s == y * s <==> x == y
  {
    if x < y {
      TimesStrict(y, x, s);
    } else if y < x {
      TimesStrict(x, y, s);
    }
  }

  lemma InexactIff(m: int, v: int, k: int, add: bool, sign: bool, mode: Mode)
    requires v >= 1 && k == m / v + (if add then 1 else 0) && add == Up(mode, sign, m / v, m % v, v)
    ensures m % v != 0 <==> m != k * v
  {
    assert m == (m / v) * v + m % v;
    assert (m / v + 1) * v == (m / v) * v + v;
  }

  /** Clearing low bits keeps a normalised number normalised. */
  lemma CutRange(v: int, w: nat, g: int)
    requires w >= 1 && g < w && Two(w - 1) <= v < Two(w)
    ensures Two(w - 1) <= Cut(v, g) < Two(w)
  {
    hide Two;
    if g >= 0 {
      TwoAdd(g, w - 1 - g);
      Multiple(v, Two(g), Two(w - 1 - g));
    }
  }

  /** A multiple of u that is at most v is at most v with its remainder dropped. */
  lemma Multiple(v: int, u: int, k: int)
    requires u >= 1 && u * k <= v
    ensures u * k <= v - v % u <= v
  {
    var q := v / u;
    assert v == u * q + v % u;
    assert u * (q + 1) == u * q + u;
    if q < k {
      MulMono(u, q + 1, k);
      assert false;
    }
    MulMono(u, k, q);
  }

  /** What the carry loop and the shift leave, cut off at bit g, is the rounded integer. */
  lemma CutIsRounded(m: int, v: int, w: nat, g: int, add: bool, bump: bool)
    requires w >= 1 && g < w && Two(w - 1) <= m < Two(w) && (add ==> g >= 1)
    requires !add ==> v == m && !bump
    requires add && !bump ==> v == m + Two(g)
    requires add && bump ==> m + Two(g) >= Two(w) && Two(w - 1) <= v < Two(w - 1) + Two(g)
    ensures var y := if g > 0 then (m / Two(g) + (if add then 1 else 0)) * Two(g) else m;
            y == (if bump then 2 else 1) * Cut(v, g)
  {
    hide Two;
    if g > 0 {
      var u := Two(g);
      if add && bump {
        TwoAdd(g, w - 1 - g);
        TwoAdd(1, w - 1);
        TwoOne();
      }
      CutUnits(m, v, u, Two(w - 1 - g), add, bump);
    } else if g == 0 {
      TwoZero();
    }
  }

  lemma CutUnits(m: int, v: int, u: int, k: int, add: bool, bump: bool)
    requires u >= 1 && m >= 0
    requires if !add then v == m && !bump
             else if !bump then v == m + u
             else m < 2 * (u * k) <= m + u && u * k <= v < u * k + u
    ensures (m / u + (if add then 1 else 0)) * u == (if bump then 2 else 1) * (v - v % u)
  {
    var q, r := m / u, m % u;
    assert m == u * q + r && u * q == q * u && (q + 1) * u == q * u + u;
    if add && !bump {
      RemainderIs(v, u, q + 1, r);
    } else if add {
      CarriedOut(m, v, u, k, q, r);
    }
  }

  lemma CarriedOut(m: int, v: int, u: int, k: int, q: int, r: int)
    requires u >= 1 && m == q * u + r && 0 <= r < u && m < 2 * (u * k) <= m + u && u * k <= v < u * k + u
    ensures (q + 1) * u == 2 * (v - v % u)
  {
    assert u * k == k * u && (2 * k) * u == 2 * (k * u);
    RemainderIs(v, u, k, v - k * u);
    Whole(m, u, q, r, 2 * k);
  }

  lemma Whole(m: int, u: int, q: int, r: int, k: int)
    requires u >= 1 && m == q * u + r && 0 <= r < u && m < k * u && m + u >= k * u
    ensures (q + 1) * u == k * u
  {
    assert (q + 1) * u == q * u + u && (q + 2) * u == q * u + 2 * u;
    if q + 1 < k {
      MulMono(u, q + 2, k);
      assert false;
    } else if q + 1 > k {
      MulMono(u, k, q);
      assert false;
    }
  }

  lemma BinadeOf(c: int, w: nat, e: int)
    requires w >= 1 && Two(w - 1) <= c < Two(w)
    ensures InBinade(Scaled(c, P2(e - w)), e)
  {
    hide P2, Two, Scaled;
    P2Positive(e - w);
    UnitScale(w - 1, e - w);
    UnitScale(w, e - w);
    assert (w - 1) + (e - w) == e - 1 && w + (e - w) == e;
    ScaledOrder(Two(w - 1), c, P2(e - w));
    ScaledOrder(c, Two(w), P2(e - w));
  }

  /** Comparing exponents is comparing with powers of two. */
  lemma BinadeSides(y: real, e: int, bound: int)
    requires InBinade(y, e)
    ensures y < P2(bound) <==> e <= bound
    ensures y > 0.0
  {
    hide P2;
    P2Positive(e - 1);
    if e <= bound {
      P2Mono(e, bound);
    } else {
      P2Mono(bound, e - 1);
    }
  }

  // ---- the number ----

  datatype Kind = KZero | KInfinity | KNaN | KFinite

  /** bf_t */
  class Float {
    var sign: bool
    var kind: Kind
    var expn: int
    var tab: seq<Limb>

    constructor ()
      ensures kind == KZero && !sign && tab == []
    {
      sign, kind, expn, tab := false, KZero, 0, [];
    }

    ghost predicate Valid()
      reads this
    {
      kind == KFinite ==> Normal(tab)
    }

    ghost function Num(): Number
      reads this
    {
      match kind
      case KZero => Zero
      case KInfinity => Infinity
      case KNaN => NaN
      case KFinite => Finite(Mag(tab, expn))
    }

    /** bf_set_zero */
    method SetZero(s: bool)
      modifies this
      ensures Valid() && Num() == Zero && sign == s
    {
      kind, sign, tab := KZero, s, [];
    }

    /** bf_set_inf */
    method SetInfinity(s: bool)
      modifies this
      ensures Valid() && Num() == Infinity && sign == s
    {
      kind, sign, tab := KInfinity, s, [];
    }

    /** bf_set_overflow */
    method SetOverflow(s: bool, prec: nat, env: Env) returns (st: Status)
      requires prec >= 1
      modifies this
      ensures Valid() && sign == s && st == Status(true, false, true)
      ensures Num() == if prec == PrecInf || env.mode.RndN? || env.mode.RndNA? || env.mode.RndA? || (env.mode.RndD? && s) || (env.mode.RndU? && !s)
                       then Infinity else Finite(P2(env.eMax) - P2(env.eMax - prec))
    {
      if prec == PrecInf || ToInfinity(env.mode, s) {
        SetInfinity(s);
      } else {
        var l := (prec + 63) / 64;
        tab := AllOnes(l, 64 * l - prec);
        kind, sign, expn := KFinite, s, env.eMax;
        AllOnesMag(tab, l, 64 * l - prec, prec, env.eMax);
      }
      st := Status(true, false, true);
    }

    /** The end of __bf_round: underflow, overflow, or the mantissa cut to its places. */
    method FitRange(prec1: nat, prec: int, env: Env, inexact: bool, ghost x: real, ghost y: real) returns (st: Status)
      requires Valid() && kind == KFinite && EnvOk(env) && prec1 >= PrecMin && prec > 0
      requires y == Scaled(Cut(Val(tab), 64 * |tab| - prec), P2(expn - 64 * |tab|)) && InBinade(y, expn) && (inexact <==> x != y)
      modifies this
      ensures Valid() && sign == old(sign) && Outcome(x, y, sign, prec1, env, Num(), st)
    {
      hide Val, Two, Pow, P2, Cut, InBinade, Scaled, Outcome;
      ghost var e, c := expn, Cut(Val(tab), 64 * |tab| - prec);
      if expn < env.eMin && !env.subnormal {
        SetZero(sign);
        st := Status(true, true, false);
      } else if expn > env.eMax {
        st := SetOverflow(sign, prec1, env);
      } else {
        st := Status(inexact, expn < env.eMin && inexact, false);
        ghost var n := |tab|;
        tab := Trim(tab, 64 * |tab| - prec);
        SameMag(Val(tab), c, n, |tab|, expn);
      }
      RangeOutcome(x, y, e, sign, prec1, env, inexact, Num(), st);
    }

    /** __bf_round when the number lies below the last place: zero, or the smallest subnormal. */
    method RoundTiny(prec: int, add: bool) returns (st: Status)
      requires Valid() && kind == KFinite && prec <= 0
      modifies this
      ensures Valid() && sign == old(sign) && st == Status(true, true, false)
      ensures Num() == if add then Finite(P2(old(expn) - prec)) else Zero
    {
      hide P2;
      if add {
        HalfMag(expn + 1 - prec);
        tab, expn := [HALF], expn + 1 - prec;
      } else {
        SetZero(sign);
      }
      st := Status(true, true, false);
    }

    /** __bf_round */
    method Round(prec1: nat, env: Env) returns (st: Status)
      requires Valid() && kind == KFinite && EnvOk(env) && prec1 >= PrecMin
      modifies this
      ensures Valid() && sign == old(sign)
      ensures CorrectlyRounded(old(Mag(tab, expn)), old(expn), sign, prec1, env, Num(), st)
    {
      hide Val, Two, Pow, P2, IsRounding, Up, Cut, InBinade, Kept, Scaled, Outcome;
      ghost var m, e, x := Val(tab), expn, Mag(tab, expn);
      var w := 64 * |tab|;
      var prec := if expn < env.eMin && env.subnormal then prec1 - (env.eMin - expn) else prec1;
      ghost var g := w - prec;
      NormalRange(tab);
      var add, inexact := GetRndAdd(tab, prec, sign, env.mode);
      Chosen(m, w, e, prec, sign, env.mode, add, inexact);
      ghost var u := P2(e - prec);
      ghost var k := Kept(m, g, add);
      KeptIs(m, g, add);
      ghost var y := Scaled(k, u);
      assert e - prec == UnitExp(e, prec1, env);
      if prec <= 0 {
        TwoMono(w, g);
        RemainderIs(m, Two(g), 0, m);
        st := RoundTiny(prec, add);
        TinyOutcome(x, e - prec, k, sign, prec1, env, Num(), st);
      } else {
        var bump := false;
        if add {
          tab, bump := AddUlp(tab, w - prec);
          if bump {
            expn := expn + 1;
          }
        }
        NormalRange(tab);
        CutIsRounded(m, Val(tab), w, g, add, bump);
        CutRange(Val(tab), w, g);
        ghost var c := Cut(Val(tab), g);
        assert y == Scaled(c, P2(expn - w)) by { Bumped(c, bump, e, w, y); }
        BinadeOf(c, w, expn);
        st := FitRange(prec1, prec, env, inexact, x, y);
      }
      assert RoundsBy(x, u, sign, prec1, env, Num(), st, k);
    }

    /** bf_normalize_and_round: strip high zero limbs, shift up to the top bit, round. */
    method NormalizeAndRound(prec: nat, env: Env, ghost x: real) returns (st: Status, ghost e: int)
      requires EnvOk(env) && prec >= PrecMin
      requires Val(tab) != 0 ==> Approximates(Val(tab), expn - 64 * |tab|, x)
      requires Val(tab) == 0 || Mag(tab, expn) == x || Val(tab) >= Two(prec + 1)
      modifies this
      ensures Valid() && sign == old(sign)
      ensures old(Val(tab)) == 0 ==> Num() == Zero && st == Status(false, false, false)
      ensures old(Val(tab)) != 0 ==> InBinade(x, e) && CorrectlyRounded(x, e, sign, prec, env, Num(), st)
    {
      hide Val, Two, Pow, P2, Scaled, InBinade, CorrectlyRounded, Approximates;
      ghost var n0, m := expn - 64 * |tab|, Val(tab);
      var l := Significant(tab);
      if l == 0 {
        kind, tab := KZero, [];
        return Status(false, false, false), 0;
      }
      expn := expn - (|tab| - l) * 64;
      tab := tab[..l];
      var up, shift := ShiftUp(tab);
      tab, expn, kind := up, expn - shift, KFinite;
      ShiftedMag(m, Val(tab), shift, n0);
      NormalRange(tab);
      BinadeOf(Val(tab), 64 * l, expn);
      e := expn;
      st := Round(prec, env);
      if Scaled(m, P2(n0)) != x {
        StickyCorrect(m, n0, x, e, sign, prec, env, Num(), st);
      }
    }
  }

  /** The number of limbs up to the highest one that is not zero. */
  method Significant(tab: seq<Limb>) returns (l: nat)
    ensures l <= |tab| && Val(tab[..l]) == Val(tab)
    ensures l == 0 <==> Val(tab) == 0
    ensures l > 0 ==> tab[l - 1] != 0
  {
    hide Val, Pow;
    l := |tab|;
    ValBase();
    assert tab[..l] == tab && tab[..0] == [];
    while l > 0 && tab[l - 1] == 0
      invariant 0 <= l <= |tab| && Val(tab[..l]) == Val(tab)
    {
      ValNext(tab, l - 1);
      l := l - 1;
    }
    if l > 0 {
      TopNonZero(tab[..l]);
    }
  }

  lemma TopNonZero(s: seq<Limb>)
    requires |s| >= 1 && s[|s| - 1] != 0
    ensures Val(s) != 0
  {
    ValZero(s);
  }

  lemma ShiftedMag(m: int, v: int, shift: nat, n: int)
    requires v == m * Two(shift)
    ensures Scaled(v, P2(n - shift)) == Scaled(m, P2(n))
  {
    hide P2, Two;
    UnitScale(shift, n - shift);
    assert shift + (n - shift) == n;
    RoundingTheory.Assoc(m as real, Two(shift) as real, P2(n - shift));
  }

  // ---- sticky bits ----

  /** m, scaled, is x; or m is odd and x lies strictly between its neighbours. */
  ghost predicate Approximates(m: int, n: int, x: real) {
    Scaled(m, P2(n)) == x || (m % 2 == 1 && Scaled(m - 1, P2(n)) < x < Scaled(m + 1, P2(n)))
  }

  /** An approximation with two bits more than the precision is rounded like the number itself. */
  lemma StickyCorrect(m: int, n: int, x: real, e: int, sign: bool, prec: nat, env: Env, res: Number, st: Status)
    requires Approximates(m, n, x) && m >= Two(prec + 1) && prec >= 1
    requires InBinade(Scaled(m, P2(n)), e) && CorrectlyRounded(Scaled(m, P2(n)), e, sign, prec, env, res, st)
    ensures InBinade(x, e) && CorrectlyRounded(x, e, sign, prec, env, res, st)
  {
    hide P2, Two, Scaled, InBinade, IsRounding, Outcome;
    var s := P2(n);
    if Scaled(m, s) != x {
      EnoughBits(m, n, e, prec);
      var un := UnitExp(e, prec, env);
      var k: int :| RoundsBy(Scaled(m, s), P2(un), sign, prec, env, res, st, k);
      StickyUnits(m, n, x, un, sign, env.mode, k);
      OutcomeAlike(Scaled(m, s), x, Scaled(k, P2(un)), sign, prec, env, res, st);
      assert RoundsBy(x, P2(un), sign, prec, env, res, st, k);
      StickyBinade(m, n, x, e);
    }
  }

  lemma OutcomeAlike(x: real, x': real, y: real, sign: bool, prec: int, env: Env, res: Number, st: Status)
    requires Outcome(x, y, sign, prec, env, res, st) && (x == y <==> x' == y)
    ensures Outcome(x', y, sign, prec, env, res, st)
  {
    hide P2;
  }

  lemma EnoughBits(m: int, n: int, e: int, prec: nat)
    requires m >= Two(prec + 1) && InBinade(Scaled(m, P2(n)), e)
    ensures e - n >= prec + 2
  {
    hide P2, Two;
    P2Positive(n);
    UnitScale(prec + 1, n);
    Times(m as real, Two(prec + 1) as real, P2(n));
    if e <= prec + 1 + n {
      P2Mono(e, prec + 1 + n);
    }
  }

  /** In units in the last place: StickyRounds at the scale of the number. */
  lemma StickyUnits(m: int, n: int, x: real, un: int, sign: bool, mode: Mode, k: int)
    requires un - n >= 2 && Approximates(m, n, x) && P2(un) > 0.0 && IsRounding(Scaled(m, P2(n)) / P2(un), sign, mode, k)
    ensures IsRounding(x / P2(un), sign, mode, k)
    ensures Scaled(m, P2(n)) == Scaled(k, P2(un)) <==> x == Scaled(k, P2(un))
  {
    hide P2, Two, IsRounding;
    var s, u, v := P2(n), P2(un), Two(un - n);
    P2Positive(n);
    UnitScale(un - n, n);
    assert un - n + n == un;
    TwoAdd(2, un - n - 2);
    assert Two(2) == 4 by { TwoOne(); TwoAdd(1, 1); }
    assert v >= 4 && v % 4 == 0 by { FourTimes(v, Two(un - n - 2)); }
    InUnits(m, v, x, u, s);
    StickyRounds(m, v, x / u, sign, mode, k);
    DivideEquals(x, k, u);
    DivideEquals(Scaled(m, s), k, u);
  }

  lemma FourTimes(v: int, w: int)
    requires v == 4 * w && w >= 1
    ensures v >= 4 && v % 4 == 0
  {
  }

  lemma InUnits(m: int, v: int, x: real, u: real, s: real)
    requires v >= 1 && s > 0.0 && u == Scaled(v, s) && u > 0.0
    requires Scaled(m, s) == x || (m % 2 == 1 && Scaled(m - 1, s) < x < Scaled(m + 1, s))
    ensures StandsFor(m, v, x / u) && Scaled(m, s) / u == m as real / v as real
  {
    Ratio(m, v, Scaled(m, s), u, s);
    Ratio(m - 1, v, Scaled(m - 1, s), u, s);
    Ratio(m + 1, v, Scaled(m + 1, s), u, s);
    if Scaled(m, s) != x {
      DivideSides(Scaled(m - 1, s), x, u);
      DivideSides(x, Scaled(m + 1, s), u);
    }
  }

  lemma DivideSides(x: real, y: real, u: real)
    requires u > 0.0 && x < y
    ensures x / u < y / u
  {
  }

  lemma DivideEquals(x: real, k: int, u: real)
    requires u > 0.0
    ensures x / u == k as real <==> x == Scaled(k, u)
  {
    if x == Scaled(k, u) {
      DivideBack(x, k as real, u);
    }
    assert (x / u) * u == x;
  }

  /** A sticky bit never moves a number across a power of two. */
  lemma StickyBinade(m: int, n: int, x: real, e: int)
    requires e - n >= 2 && m % 2 == 1 && Scaled(m - 1, P2(n)) < x < Scaled(m + 1, P2(n)) && InBinade(Scaled(m, P2(n)), e)
    ensures InBinade(x, e)
  {
    hide P2, Two, Scaled;
    P2Positive(n);
    var s, lo, hi := P2(n), Two(e - 1 - n), Two(e - n);
    UnitScale(e - 1 - n, n);
    UnitScale(e - n, n);
    assert e - 1 - n + n == e - 1 && e - n + n == e;
    TwoAdd(1, e - 2 - n);
    TwoAdd(1, e - 1 - n);
    TwoOne();
    ScaledOrder(m, lo, s);
    ScaledOrder(hi, m, s);
    ScaledOrder(lo, m - 1, s);
    ScaledOrder(m + 1, hi, s);
  }

  lemma ScaledOrder(j: int, k: int, s: real)
    requires s > 0.0
    ensures j < k <==> Scaled(j, s) < Scaled(k, s)
    ensures j <= k <==> Scaled(j, s) <= Scaled(k, s)
  {
    var x, y := j as real, k as real;
    if x < y {
      TimesStrict(y, x, s);
    } else if y < x {
      TimesStrict(x, y, s);
    }
  }

  /** The range checks at the end of __bf_round. */
  lemma RangeOutcome(x: real, y: real, e: int, sign: bool, prec: int, env: Env, inexact: bool, res: Number, st: Status)
    requires InBinade(y, e) && (inexact <==> x != y)
    requires if e < env.eMin && !env.subnormal then res == Zero && st == Status(true, true, false)
             else if e > env.eMax then
               && st == Status(true, false, true)
               && res == if prec == PrecInf || ToInfinity(env.mode, sign) then Infinity else Finite(P2(env.eMax) - P2(env.eMax - prec))
             else res == Finite(y) && st == Status(inexact, e < env.eMin && inexact, false)
    ensures Outcome(x, y, sign, prec, env, res, st)
  {
    hide P2, InBinade;
    BinadeSides(y, e, env.eMin - 1);
    BinadeSides(y, e, env.eMax);
  }

  /** With no place left, the result is nothing or one unit. */
  lemma TinyOutcome(x: real, n: int, k: int, sign: bool, prec: int, env: Env, res: Number, st: Status)
    requires EnvOk(env) && prec >= PrecMin && n == env.eMin - prec && st == Status(true, true, false) && x != Scaled(k, P2(n))
    requires (k == 0 && res == Zero) || (k == 1 && res == Finite(P2(n)) && env.subnormal)
    ensures Outcome(x, Scaled(k, P2(n)), sign, prec, env, res, st)
  {
    hide P2;
    SmallestSubnormal(env, prec);
  }

  /** x |= 1 */
  function OrOne(x: Limb): Limb {
    if x % 2 == 0 then x + 1 else x
  }

  lemma Bumped(c: int, bump: bool, e: int, w: nat, y: real)
    requires y == Scaled((if bump then 2 else 1) * c, P2(e - w))
    ensures y == Scaled(c, P2((if bump then e + 1 else e) - w))
  {
    hide P2;
    P2Next(e - w);
    assert e + 1 - w == (e - w) + 1;
    assert (2 * c) as real == c as real * 2.0;
    RoundingTheory.Assoc(c as real, 2.0, P2(e - w));
  }

  lemma HalfMag(e: int)
    ensures Normal([HALF]) && Mag([HALF], e) == P2(e - 1)
  {
    hide P2, Two, Val;
    ValSingle(HALF);
    HalfIsTwo63();
    TwoIsP2(63);
    P2Add(63, e - 64);
    assert 63 + (e - 64) == e - 1;
  }

  lemma SmallestSubnormal(env: Env, prec: int)
    requires EnvOk(env) && prec >= PrecMin
    ensures 0.0 < P2(env.eMin - prec) < P2(env.eMin - 1) && P2(env.eMin - prec) < P2(env.eMax)
  {
    hide P2;
    P2Positive(env.eMin - prec);
    P2Mono(env.eMin - prec, env.eMin - 2);
    P2Next(env.eMin - 2);
    P2Positive(env.eMin - 2);
    P2Mono(env.eMin - 1, env.eMax);
  }

  /** The limbs of the largest number: ones, but for the lowest `low` bits. */
  function AllOnes(l: nat, low: nat): (s: seq<Limb>)
    requires l >= 1 && low < 64
    ensures |s| == l
  {
    BitFits(low);
    seq(l, k requires 0 <= k < l => if k == 0 then B - Two(low) else B - 1)
  }

  lemma {:induction false} AllOnesVal(s: seq<Limb>, low: nat)
    requires |s| >= 1 && low < 64 && s[0] + B * 0 == B - Two(low) && forall k :: 1 <= k < |s| ==> s[k] == B - 1
    ensures Val(s) == Pow(|s|) - Two(low)
  {
    hide Two;
    if |s| == 1 {
      assert s == [s[0]];
      ValSingle(s[0]);
      assert Pow(1) == B * Pow(0);
    } else {
      TwoZero();
      AllOnesVal(s[1..], 0);
    }
  }

  lemma AllOnesMag(s: seq<Limb>, l: nat, low: nat, prec: int, e: int)
    requires l >= 1 && low < 64 && s == AllOnes(l, low) && prec == 64 * l - low
    ensures Normal(s) && Mag(s, e) == P2(e) - P2(e - prec)
  {
    hide Two, Val, Pow, P2;
    AllOnesVal(s, low);
    TwoLimbs(l);
    TwoIsP2(64 * l);
    TwoIsP2(low);
    P2Add(64 * l, e - 64 * l);
    P2Add(low, e - 64 * l);
    assert low + (e - 64 * l) == e - prec && 64 * l + (e - 64 * l) == e;
    HalfIsTwo63();
    TwoMono(low, 63);
    var s1, x, y := P2(e - 64 * l), Pow(l) as real, Two(low) as real;
    assert (x - y) * s1 == x * s1 - y * s1;
  }
}
