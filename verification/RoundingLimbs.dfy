/**
 The limb loops of __bf_round and bf_normalize_and_round in qjs/libbf.c: finding the bits that
 decide a rounding, adding one in the last place, and trimming.
 */
module RoundingLimbs {
  import opened Limbs
  import opened Bits
  import opened RoundingTheory

  ghost predicate Normal(s: seq<Limb>) {
    |s| >= 1 && s[|s| - 1] >= HALF
  }

  lemma {:induction false} TwoLimbs(n: nat)
    ensures Two(64 * n) == Pow(n)
  {
    if n > 0 {
      TwoLimbs(n - 1);
      TwoAdd(64, 64 * (n - 1));
      LimbIsTwo64();
    }
  }

  /** A bit position as a limb and a bit in it. */
  lemma TwoAt(p: nat)
    ensures Two(p) == Pow(p / 64) * Two(p % 64) && Two(p % 64) * Two(64 - p % 64) == B
  {
    TwoLimbs(p / 64);
    TwoAdd(64 * (p / 64), p % 64);
    TwoAdd(p % 64, 64 - p % 64);
    LimbIsTwo64();
  }

  lemma NormalRange(s: seq<Limb>)
    requires Normal(s)
    ensures Two(64 * |s| - 1) <= Val(s) < Two(64 * |s|)
  {
    hide Val, Pow;
    var n := |s| - 1;
    ValBound(s);
    TwoLimbs(|s|);
    ValTop(s);
    TwoLimbs(n);
    TwoAdd(63, 64 * n);
    LimbIsTwo64();
    assert Two(63) == HALF;
    MulMono(Pow(n), HALF, s[n]);
  }

  // ---- the deciding bits ----

  /** get_bit */
  method GetBit(tab: seq<Limb>, pos: int) returns (b: bool)
    ensures b == (pos >= 0 && On(Val(tab), pos))
  {
    hide On, Val;
    if pos < 0 {
      return false;
    }
    var i := pos / 64;
    ValOn(tab, i, pos % 64);
    if i >= |tab| {
      return false;
    }
    b := On(tab[i], pos % 64);
  }

  /** scan_bit_nz: whether one of the bits 0 to bitPos is set. */
  method ScanBitNz(tab: seq<Limb>, bitPos: int) returns (nz: bool)
    requires bitPos < 64 * |tab|
    ensures nz == (bitPos >= 0 && Val(tab) % Two(bitPos + 1) != 0)
  {
    hide Val, Two;
    if bitPos < 0 {
      return false;
    }
    var pos := bitPos / 64;
    LowPart(tab, pos, bitPos % 64 + 1);
    if tab[pos] % Two(bitPos % 64 + 1) != 0 {
      return true;
    }
    ValZero(tab[..pos]);
    var p := pos;
    while p > 0
      invariant 0 <= p <= pos && forall k :: p <= k < pos ==> tab[k] == 0
    {
      p := p - 1;
      if tab[p] != 0 {
        assert tab[..pos][p] != 0;
        return true;
      }
    }
    nz := false;
  }

  /** The part of a number below a bit position. */
  lemma LowPart(s: seq<Limb>, i: nat, c: nat)
    requires i < |s| && 1 <= c <= 64
    ensures Val(s) % Two(64 * i + c) == Val(s[..i]) + Pow(i) * (s[i] % Two(c))
    ensures Val(s) % Two(64 * i + c) == 0 <==> Val(s[..i]) == 0 && s[i] % Two(c) == 0
  {
    hide Val, Pow, Two;
    ValSplit(s, i);
    ValPrev(s, i);
    ValBound(s[..i]);
    TwoLimbs(i);
    TwoAdd(64 * i, c);
    TwoAdd(c, 64 - c);
    LimbIsTwo64();
    var low, p, u, x, hi, w := Val(s[..i]), Pow(i), Two(c), s[i], Val(s[i + 1..]), Two(64 - c);
    var rem := low + p * (x % u);
    assert Val(s) == low + p * (x + B * hi);
    LowProduct(low, p, u, x, hi, w);
    RemainderIs(Val(s), p * u, x / u + w * hi, rem);
    assert p * (x % u) >= 0 by { MulMono(p, 0, x % u); }
    if x % u > 0 {
      MulMono(p, 1, x % u);
    }
  }

  lemma LowProduct(low: int, p: int, u: int, x: int, hi: int, w: int)
    requires p >= 1 && u >= 1 && 0 <= low < p && u * w == B
    ensures low + p * (x + B * hi) == (x / u + w * hi) * (p * u) + (low + p * (x % u))
    ensures 0 <= low + p * (x % u) < p * u
  {
    assert x == u * (x / u) + x % u;
    assert (x / u + w * hi) * (p * u) == p * (u * (x / u)) + p * ((u * w) * hi);
    assert p * (x + B * hi) == p * (u * (x / u)) + p * (x % u) + p * (B * hi);
    MulMono(p, x % u, u - 1);
    MulMono(p, 0, x % u);
    assert p * (u - 1) == p * u - p;
  }

  lemma RemainderIs(m: int, d: int, q: int, r: int)
    requires d >= 1 && m == q * d + r && 0 <= r < d
    ensures m % d == r && m / d == q
  {
    assert m == (m / d) * d + m % d;
    QuotientUnique(q, r, m / d, m % d, d);
  }

  /** The remainder of a rounding, from the first bit cut off and the ones behind it. */
  lemma HalfBits(m: int, g: nat)
    requires g >= 1
    ensures m % Two(g) == (if On(m, g - 1) then Two(g - 1) else 0) + m % Two(g - 1)
    ensures (m / Two(g)) % 2 == 1 <==> On(m, g)
    ensures 0 <= m % Two(g - 1) < Two(g - 1) && Two(g) == 2 * Two(g - 1)
  {
    var h := Two(g - 1);
    assert Two(g) == 2 * h;
    var p, r := m / h, m % h;
    assert m == h * p + r;
    assert On(p, 0) == (p % 2 == 1) && On(p, 1) == On(p / 2, 0) && On(p / 2, 0) == ((p / 2) % 2 == 1);
    hide Two, On;
    Parts(p, r, g - 1, g - 1);
    Parts(p, r, g - 1, g);
    assert (p / 2) * (2 * h) + (h * (p % 2) + r) == m by { HalfSplit(h, p); }
    RemainderIs(m, 2 * h, p / 2, h * (p % 2) + r);
  }

  lemma HalfSplit(h: int, p: int)
    ensures (p / 2) * (2 * h) + h * (p % 2) == h * p
    ensures h * (p % 2) == if p % 2 == 1 then h else 0
  {
    assert p == 2 * (p / 2) + p % 2;
    assert (p / 2) * (2 * h) == h * (2 * (p / 2));
    assert h * p == h * (2 * (p / 2)) + h * (p % 2);
  }

  ghost predicate Decides(m: int, u: int, sign: bool, mode: Mode, addOne: bool, inexact: bool)
    requires u >= 1
  {
    inexact == (m % u != 0) && addOne == Up(mode, sign, m / u, m % u, u)
  }

  /** bf_get_rnd_add: whether to add one in the last of prec places, and whether anything is cut off. */
  method GetRndAdd(tab: seq<Limb>, prec: int, sign: bool, mode: Mode) returns (addOne: bool, inexact: bool)
    requires Normal(tab)
    ensures var g := 64 * |tab| - prec;
            && (g <= 0 ==> !addOne && !inexact)
            && (g > 0 ==> Decides(Val(tab), Two(g), sign, mode, addOne, inexact))
  {
    hide Val, On, Two;
    var w := 64 * |tab|;
    ghost var g, m := w - prec, Val(tab);
    var bit0 := ScanBitNz(tab, w - 1 - (if prec + 1 > 0 then prec + 1 else 0));
    var bit1 := GetBit(tab, w - 1 - prec);
    inexact := bit1 || bit0;
    if g >= 1 {
      HalfBits(m, g);
      assert bit0 == (m % Two(g - 1) != 0) by { ScannedBits(tab, prec); }
    }
    addOne := false;
    match mode
    case RndZ =>
    case RndN =>
      if bit1 {
        if bit0 {
          addOne := true;
        } else {
          addOne := GetBit(tab, w - 1 - (prec - 1));
        }
      }
    case RndD =>
      if sign {
        addOne := inexact;
      }
    case RndU =>
      if !sign {
        addOne := inexact;
      }
    case RndA => addOne := inexact;
    case RndNA => addOne := bit1;
  }

  /** With no bit to keep, everything but the first bit cut off is behind it. */
  lemma ScannedBits(tab: seq<Limb>, prec: int)
    requires Normal(tab) && 64 * |tab| - prec >= 1
    ensures var w := 64 * |tab|;
            var pos := w - 1 - (if prec + 1 > 0 then prec + 1 else 0);
            ((pos >= 0 && Val(tab) % Two(pos + 1) != 0) <==> Val(tab) % Two(w - prec - 1) != 0)
  {
    hide Val, Two;
    var w, m := 64 * |tab|, Val(tab);
    NormalRange(tab);
    if prec + 1 <= 0 {
      TwoMono(w, w - prec - 1);
      SmallModulus(m, Two(w));
      SmallModulus(m, Two(w - prec - 1));
    } else if prec == w - 1 {
      TwoZero();
    }
  }

  lemma SmallModulus(m: int, d: int)
    requires 0 <= m < d
    ensures m % d == m
  {
  }

  // ---- adding one in the last place ----

  /** The carry loop of __bf_round, from the limb of the last place up. */
  method AddAt(tab: seq<Limb>, bitPos: nat) returns (r: seq<Limb>, carry: Limb)
    requires bitPos < 64 * |tab|
    ensures |r| == |tab| && carry <= 1 && Val(r) + carry * Pow(|tab|) == Val(tab) + Two(bitPos)
    ensures r[..bitPos / 64] == tab[..bitPos / 64]
  {
    hide Val, Pow, Two;
    var pos := bitPos / 64;
    TwoAt(bitPos);
    BitFits(bitPos % 64);
    carry := Two(bitPos % 64);
    r := tab;
    var i := pos;
    ghost var add := Two(bitPos);
    assert Pow(pos) * carry == carry * Pow(pos) == add;
    while i < |tab|
      invariant pos <= i <= |tab| && |r| == |tab| && r[i..] == tab[i..] && r[..pos] == tab[..pos]
      invariant i > pos ==> carry == 1
      invariant Val(r[..i]) + carry * Pow(i) == Val(tab[..i]) + add
    {
      assert r[i] == r[i..][0] == tab[i];
      var v := WrapAdd(r[i], carry);
      var c: Limb := if v < carry then 1 else 0;
      ghost var before, was := r[..i], r;
      assert v + B * c == r[i] + B * 0 + carry;
      r := r[i := v];
      assert r[..i + 1] == before + [v];
      CarryStep(before, v, c, tab, i, carry, add);
      assert r[i + 1..] == tab[i + 1..] by { assert was[i + 1..] == tab[i..][1..]; }
      if c == 0 {
        carry := 0;
        CarryStops(r, tab, i + 1, add);
        return;
      }
      carry := c;
      i := i + 1;
    }
    assert r[..|tab|] == r && tab[..|tab|] == tab;
  }

  lemma BitFits(c: nat)
    requires c < 64
    ensures 1 <= Two(c) < B
  {
    TwoAdd(c, 64 - c);
    LimbIsTwo64();
    TwoMono(1, 64 - c);
    MulMono(Two(c), 2, Two(64 - c));
  }

  lemma CarryStep(pre: seq<Limb>, v: Limb, c: int, tab: seq<Limb>, i: nat, carry: int, add: int)
    requires |pre| == i < |tab| && Val(pre) + carry * Pow(i) == Val(tab[..i]) + add && v + B * c == tab[i] + B * 0 + carry
    ensures Val(pre + [v]) + c * Pow(i + 1) == Val(tab[..i + 1]) + add
  {
    hide Val, Pow;
    ValSnoc(pre, v);
    ValNext(tab, i);
    CarryProduct(Pow(i), v, c, tab[i], carry);
  }

  lemma CarryProduct(p: int, v: int, c: int, x: int, carry: int)
    requires v + B * c == x + carry
    ensures p * v + c * (B * p) == p * x + carry * p
  {
    assert p * (v + B * c) == p * (x + carry);
  }

  lemma CarryStops(r: seq<Limb>, tab: seq<Limb>, i: nat, add: int)
    requires |r| == |tab| && i <= |tab| && Val(r[..i]) == Val(tab[..i]) + add && r[i..] == tab[i..]
    ensures Val(r) == Val(tab) + add
  {
    hide Val, Pow;
    ValSplit(r, i);
    ValSplit(tab, i);
  }

  /** The shift by one place after a carry out: only the limbs from pos on move. */
  method ShiftIn(tab: seq<Limb>, pos: nat) returns (r: seq<Limb>)
    requires pos < |tab|
    ensures |r| == |tab| && r[..pos] == tab[..pos]
    ensures 2 * Val(r[pos..]) + tab[pos] % 2 == Val(tab[pos..]) + Pow(|tab| - pos)
  {
    hide Val, Pow;
    r := tab;
    var v: Limb := 1;
    var i := |tab|;
    ValBase();
    assert r[i..] == [] && tab[i..] == [];
    while i > pos
      invariant pos <= i <= |tab| && |r| == |tab| && r[..i] == tab[..i]
      invariant 2 * Val(r[i..]) + v % 2 == Val(tab[i..]) + Pow(|tab| - i)
      invariant i < |tab| ==> v == tab[i]
    {
      i := i - 1;
      assert r[i] == r[..i + 1][i] == tab[i];
      var a := r[i];
      ghost var after, was := r[i + 1..], r;
      var x: Limb := a / 2 + (v % 2) * HALF;
      r := r[i := x];
      assert r[i..] == [x] + after;
      assert r[..i] == tab[..i] by { assert was[..i] == was[..i + 1][..i] && tab[..i] == tab[..i + 1][..i]; }
      ValCons(x, after);
      ValPrev(tab, i);
      PowNext(|tab| - i - 1);
      v := a;
    }
  }

  /**
   One added in the last of prec places. On a carry out the number is 2^W: the bits above the last
   place are halved and the exponent goes up.
   */
  method AddUlp(tab: seq<Limb>, g: nat) returns (r: seq<Limb>, bump: bool)
    requires Normal(tab) && 1 <= g < 64 * |tab|
    ensures Normal(r) && |r| == |tab|
    ensures !bump ==> Val(r) == Val(tab) + Two(g)
    ensures bump ==> Val(tab) + Two(g) >= Two(64 * |tab|) && Two(64 * |tab| - 1) <= Val(r) < Two(64 * |tab| - 1) + Two(g)
  {
    hide Val, Pow, Two;
    var carry;
    r, carry := AddAt(tab, g);
    NormalRange(tab);
    TwoLimbs(|tab|);
    ghost var sum := r;
    ValBound(sum);
    bump := carry != 0;
    if bump {
      var pos := g / 64;
      r := ShiftIn(r, pos);
      ShiftedRange(tab, sum, r, g);
    } else {
      TopKept(r, |tab|);
    }
  }

  lemma TopKept(r: seq<Limb>, n: nat)
    requires |r| == n >= 1 && Val(r) >= Two(64 * n - 1)
    ensures Normal(r)
  {
    hide Val, Pow, Two;
    ValTop(r);
    TwoLimbs(n - 1);
    TwoAdd(63, 64 * (n - 1));
    HalfIsTwo63();
    if r[n - 1] + B * 0 < HALF {
      MulMono(Pow(n - 1), r[n - 1] + 1, HALF);
      assert false;
    }
  }

  lemma HalfIsTwo63()
    ensures Two(63) == HALF
  {
    LimbIsTwo64();
  }

  lemma ShiftedRange(tab: seq<Limb>, sum: seq<Limb>, r: seq<Limb>, g: nat)
    requires Normal(tab) && 1 <= g < 64 * |tab| && |sum| == |tab| == |r|
    requires Val(sum) + Pow(|tab|) == Val(tab) + Two(g) && r[..g / 64] == sum[..g / 64]
    requires 2 * Val(r[g / 64..]) + sum[g / 64] % 2 == Val(sum[g / 64..]) + Pow(|tab| - g / 64)
    ensures Normal(r) && Two(64 * |tab| - 1) <= Val(r) < Two(64 * |tab| - 1) + Two(g)
  {
    hide Val, Pow, Two;
    var n, pos := |tab|, g / 64;
    NormalRange(tab);
    TwoLimbs(n);
    ValSplit(r, pos);
    ValSplit(sum, pos);
    PowAdd(pos, n - pos);
    var low, h, h', p := Val(sum[..pos]), Val(sum[pos..]), Val(r[pos..]), Pow(pos);
    TwoAdd(1, 64 * n - 1);
    assert Two(1) == 2 by { TwoOne(); }
    assert Val(sum) < Two(g);
    ValPrev(sum, pos);
    ValBound(sum[..pos]);
    ShiftBounds(low, h, h', p, Pow(n - pos), sum[pos] % 2, Two(g), Two(64 * n - 1));
    TopKept(r, n);
  }

  lemma TwoOne()
    ensures Two(1) == 2
  {
    assert Two(0) == 1;
  }

  lemma ShiftBounds(low: int, h: int, h': int, p: int, top: int, odd: int, u: int, half: int)
    requires 0 <= low < p && 0 <= h && 2 * h' + odd == h + top && 0 <= odd <= 1 && p * top == 2 * half && low + p * h < u
    requires odd <= h
    ensures half <= low + p * h' < half + u
  {
    if odd == 1 && h == 0 {
      assert false;
    }
    assert 2 * (p * h') == p * (h + top) - p * odd by { assert p * (2 * h') == p * (h + top - odd); }
    assert p * (h + top) == p * h + p * top;
    if odd == 0 {
      MulMono(p, 0, h);
    } else {
      MulMono(p, 1, h);
    }
  }

  // ---- trimming ----

  lemma LowLimbs(s: seq<Limb>, i: nat)
    requires i <= |s|
    ensures Val(s) % Pow(i) == Val(s[..i]) && Val(s) - Val(s[..i]) == Pow(i) * Val(s[i..])
  {
    hide Val, Pow;
    ValSplit(s, i);
    ValBound(s[..i]);
    RemainderIs(Val(s), Pow(i), Val(s[i..]), Val(s[..i]));
  }

  /** A limb with its low bits cleared. */
  function Masked(x: Limb, shift: nat): Limb
    requires shift < 64
  {
    ModBelow(x, Two(shift));
    x - x % Two(shift)
  }

  lemma ModBelow(x: int, u: int)
    requires x >= 0 && u >= 1
    ensures 0 <= x % u <= x
  {
    if x < u {
      SmallModulus(x, u);
    }
  }

  lemma MaskedTop(x: Limb, shift: nat)
    requires shift < 64 && x >= HALF
    ensures Masked(x, shift) >= HALF
  {
    hide Two;
    HalfIsTwo63();
    TwoAdd(shift, 63 - shift);
    var u, k := Two(shift), Two(63 - shift);
    var q := x / u;
    assert x == u * q + x % u;
    assert u * (q + 1) == u * q + u;
    if q < k {
      MulMono(u, q + 1, k);
      assert false;
    }
    MulMono(u, k, q);
  }

  /** The number with everything below bit g cleared. */
  ghost function Cut(m: int, g: int): int {
    if g >= 0 then m - m % Two(g) else m
  }

  lemma CutMasked(s: seq<Limb>, g: nat)
    requires g < 64 * |s|
    ensures Cut(Val(s), g) == Pow(g / 64) * Val(s[g / 64 := Masked(s[g / 64], g % 64)][g / 64..])
  {
    hide Val, Pow, Two, Masked;
    var i, c := g / 64, g % 64;
    var x, rest := s[i], s[i + 1..];
    var t := s[i := Masked(x, c)];
    assert t[i..] == [Masked(x, c)] + rest && s[i..] == [x] + rest;
    ValCons(Masked(x, c), rest);
    ValCons(x, rest);
    LowLimbs(s, i);
    MaskedSum(x, c, Val(rest));
    if c == 0 {
      TwoLimbs(i);
      TwoZero();
    } else {
      LowPart(s, i, c);
      Minus(Pow(i), x + B * Val(rest), x % Two(c));
    }
  }

  /** A masked limb with limbs above it. */
  lemma MaskedSum(x: Limb, c: nat, rest: int)
    requires c < 64
    ensures Masked(x, c) + B * rest == x + B * rest - x % Two(c)
    ensures c == 0 ==> Masked(x, c) == x
  {
    hide Two;
    if c == 0 {
      TwoZero();
    }
  }

  lemma Minus(p: int, x: int, y: int)
    ensures p * x - p * y == p * (x - y)
  {
  }

  /** The end of __bf_round: clear what is below bit g, and drop zero limbs from the low end. */
  method Trim(tab: seq<Limb>, g: int) returns (r: seq<Limb>)
    requires Normal(tab) && g < 64 * |tab|
    ensures Normal(r) && |r| <= |tab| && r[0] != 0
    ensures Val(r) * Pow(|tab| - |r|) == Cut(Val(tab), g)
  {
    hide Val, Pow, Two, Cut;
    var n := |tab|;
    r := tab;
    var i := 0;
    if g >= 0 {
      i := g / 64;
      if g % 64 != 0 {
        r := tab[i := Masked(tab[i], g % 64)];
      }
      if tab[i] >= HALF {
        MaskedTop(tab[i], g % 64);
      }
      if g % 64 == 0 {
        MaskNothing(tab, g);
      }
      CutMasked(tab, g);
    } else {
      CutNothing(tab, g);
      assert r[0..] == tab;
    }
    ghost var total := Cut(Val(tab), g);
    while r[i] == 0
      invariant 0 <= i < n && |r| == n && r[n - 1] >= HALF
      invariant total == Pow(i) * Val(r[i..])
      decreases n - i
    {
      ValPrev(r, i);
      PowNext(i);
      ZeroLimb(Pow(i), Val(r[i + 1..]));
      i := i + 1;
    }
    assert Val(r[i..]) * Pow(i) == Pow(i) * Val(r[i..]);
    r := r[i..];
  }

  lemma ZeroLimb(p: int, v: int)
    ensures p * (0 + B * v) == (B * p) * v
  {
  }

  lemma MaskNothing(tab: seq<Limb>, g: nat)
    requires g < 64 * |tab| && g % 64 == 0
    ensures tab[g / 64 := Masked(tab[g / 64], g % 64)] == tab
  {
    TwoZero();
  }

  lemma CutNothing(tab: seq<Limb>, g: int)
    requires g < 0
    ensures Cut(Val(tab), g) == Pow(0) * Val(tab)
  {
  }

  // ---- normalising ----

  /** bf_normalize_and_round: the shift of the whole buffer that sets its top bit. */
  method ShiftUp(tab: seq<Limb>) returns (r: seq<Limb>, shift: nat)
    requires |tab| >= 1 && tab[|tab| - 1] != 0
    ensures Normal(r) && |r| == |tab| && shift < 64 && Val(r) == Val(tab) * Two(shift)
  {
    hide Val, Pow, Two;
    var n := |tab|;
    shift := Clz(tab[n - 1]);
    r := tab;
    if shift == 0 {
      TwoZero();
      return;
    }
    var u, w := Two(shift), Two(64 - shift);
    TwoAdd(shift, 64 - shift);
    LimbIsTwo64();
    var v: Limb, i := 0, 0;
    ValBase();
    assert 0 / w == 0;
    while i < n
      invariant 0 <= i <= n && |r| == n && r[i..] == tab[i..]
      invariant i > 0 ==> v == tab[i - 1]
      invariant i == 0 ==> v == 0
      invariant Val(r[..i]) + Pow(i) * (v / w) == Val(tab[..i]) * u
      invariant i == n ==> Normal(r)
    {
      assert r[i] == r[i..][0] == tab[i];
      var a := r[i];
      ShiftLimb(a, u, w);
      QuotientSmall(v, u, w);
      var x: Limb := (a % w) * u + v / w;
      ghost var before, was := r[..i], r;
      r := r[i := x];
      assert r[..i + 1] == before + [x];
      assert r[i + 1..] == tab[i + 1..] by { assert was[i + 1..] == tab[i..][1..]; }
      ShiftStep(before, x, tab, i, u, w, v);
      if i == n - 1 {
        TopShifted(a, u, w, shift);
      }
      v := a;
      i := i + 1;
    }
    assert r[..n] == r && tab[..n] == tab;
    assert v / w == 0 by { TopShifted(v, u, w, shift); }
  }

  /** clz of a non-zero limb. */
  function Clz(x: Limb): (s: nat)
    requires x != 0
    ensures s < 64 && HALF <= x * Two(s) < B
  {
    ClzFrom(x, 0)
  }

  function ClzFrom(x: Limb, d: nat): (s: nat)
    requires d < 64 && x >= 1 && x * Two(d) < B
    ensures s < 64 && HALF <= x * Two(s) < B
    decreases 64 - d
  {
    if x * Two(d) >= HALF then d
    else
      assert x * Two(d + 1) == 2 * (x * Two(d));
      HalfIsTwo63();
      assert d != 63 by { if d == 63 { MulMono(Two(63), 1, x); assert false; } }
      ClzFrom(x, d + 1)
  }

  lemma ShiftLimb(a: int, u: int, w: int)
    requires 0 <= a < B && u >= 1 && w >= 1 && u * w == B
    ensures (a % w) * u + w * 0 <= B - u && a * u == (a % w) * u + B * (a / w) && 0 <= (a % w) * u && 0 <= a / w < u
  {
    MulMono(u, a % w, w - 1);
    assert u * (w - 1) == B - u;
    assert a == w * (a / w) + a % w;
    assert a * u == (w * (a / w)) * u + (a % w) * u;
    assert (w * (a / w)) * u == (u * w) * (a / w);
    QuotientSmall(a, u, w);
  }

  lemma QuotientSmall(v: int, u: int, w: int)
    requires 0 <= v < B && u >= 1 && w >= 1 && u * w == B
    ensures 0 <= v / w < u
  {
    var q := v / w;
    assert v == w * q + v % w;
    if q >= u {
      MulMono(w, u, q);
      assert false;
    }
    if q < 0 {
      MulMono(w, q, -1);
      assert false;
    }
  }

  lemma ShiftStep(pre: seq<Limb>, x: Limb, tab: seq<Limb>, i: nat, u: int, w: int, v: Limb)
    requires |pre| == i < |tab| && u >= 1 && w >= 1 && u * w == B
    requires Val(pre) + Pow(i) * (v / w) == Val(tab[..i]) * u && x == (tab[i] % w) * u + v / w
    ensures Val(pre + [x]) + Pow(i + 1) * (tab[i] / w) == Val(tab[..i + 1]) * u
  {
    hide Val, Pow;
    ValSnoc(pre, x);
    ValNext(tab, i);
    ShiftLimb(tab[i], u, w);
    ShiftAlgebra(Pow(i), x, v / w, tab[i], tab[i] / w, u, Val(tab[..i]));
  }

  lemma ShiftAlgebra(p: int, x: int, c: int, t: int, q: int, u: int, m: int)
    requires t * u == x - c + B * q
    ensures p * x + (B * p) * q == p * c + p * (t * u) && (m + p * t) * u == m * u + p * (t * u)
  {
    assert p * (t * u) == p * x - p * c + p * (B * q);
  }

  lemma TopShifted(a: Limb, u: int, w: int, shift: nat)
    requires u >= 1 && w >= 1 && u * w == B && HALF <= a * u < B
    ensures a / w == 0 && (a % w) * u >= HALF
  {
    if a >= w {
      MulMono(u, w, a);
      assert false;
    }
  }
}
