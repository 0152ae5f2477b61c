/**
 fft_mul of qjs/libbf.c on limbs: digits of dpl bits read from the operands (limb_to_ntt),
 coefficients written back as bits (ntt_to_limb and put_bits), and the product of the two.
 */
module NttLimbs {
  import opened Limbs
  import opened Bits
  import opened RoundingTheory
  import opened RadixConversion
  import opened RoundingLimbs
  import opened LimbStreams
  import LimbKernels
  import opened NttArithmetic
  import opened NttTheory
  import opened NttProduct
  import opened NttRecombine

  // ---- reading digits ----

  /** base_mask1: the low bits of a limb, all of them when dpl is a multiple of 64. */
  function Masked1(x: Limb, dpl: nat): Limb {
    var shift := dpl % 64;
    if shift == 0 then x else ModBelow(x, Two(shift)); x % Two(shift)
  }

  /** How many of the dpl bits of a digit are in its highest limb. */
  function TopBits(dpl: nat): nat {
    if dpl % 64 == 0 then 64 else dpl % 64
  }

  lemma MaskedIs(x: Limb, dpl: nat)
    ensures Masked1(x, dpl) == x % Two(TopBits(dpl))
  {
    hide Two;
    LimbIsTwo64();
    if dpl % 64 == 0 {
      SmallModulus(x, B);
    }
  }

  /** limb_to_ntt: digit i of the number, dpl bits wide, from up to three limbs of bits. */
  method ReadDigit(tab: seq<Limb>, i: nat, dpl: nat) returns (a: int)
    requires 1 <= dpl <= 188
    ensures i * dpl >= 0 && a == (Val(tab) / Two(i * dpl)) % Two(dpl)
  {
    hide Val, Two, GetBits, Masked1;
    var pos := i * dpl;
    ghost var h := Val(tab) / Two(pos);
    assert h >= 0 by { ValBound(tab); }
    var a0 := GetBits(tab, pos);
    ReadLimb(tab, pos, 0);
    if dpl <= 64 {
      a := Masked1(a0, dpl);
      OneLimb(h, a0, dpl);
    } else {
      var a1 := GetBits(tab, pos + 64);
      ReadLimb(tab, pos, 1);
      if dpl <= 128 {
        a := a0 + B * Masked1(a1, dpl);
        TwoLimbsRead(h, a0, a1, dpl);
      } else {
        var a2 := GetBits(tab, pos + 128);
        ReadLimb(tab, pos, 2);
        a := a0 + B * (a1 + B * Masked1(a2, dpl));
        ThreeLimbs(h, a0, a1, a2, dpl);
      }
    }
  }

  /** The k-th limb read from bit position pos on. */
  lemma ReadLimb(tab: seq<Limb>, pos: nat, k: nat)
    requires k <= 2
    ensures var h := Val(tab) / Two(pos);
            GetBits(tab, pos + 64 * k) == (if k == 0 then h else if k == 1 then h / B else h / B / B) % B
  {
    hide Val, Two, GetBits;
    ValBound(tab);
    GetBitsIs(tab, pos + 64 * k);
    if k >= 1 {
      NextLimb(Val(tab), pos);
    }
    if k == 2 {
      NextLimb(Val(tab), pos + 64);
    }
  }

  lemma OneLimb(h: int, a0: Limb, dpl: nat)
    requires h >= 0 && 1 <= dpl <= 64 && a0 == h % B
    ensures Masked1(a0, dpl) == h % Two(dpl)
  {
    hide Two, Masked1;
    MaskedIs(a0, dpl);
    LowDigit(h, dpl);
  }

  lemma TwoLimbsRead(h: int, a0: Limb, a1: Limb, dpl: nat)
    requires h >= 0 && 64 < dpl <= 128 && a0 == h % B && a1 == (h / B) % B
    ensures a0 + B * Masked1(a1, dpl) == h % Two(dpl)
  {
    hide Two, Masked1;
    MaskedIs(a1, dpl);
    LowDigit(h / B, dpl - 64);
    HighDigit(h, dpl);
  }

  lemma ThreeLimbs(h: int, a0: Limb, a1: Limb, a2: Limb, dpl: nat)
    requires h >= 0 && 128 < dpl <= 192 && a0 == h % B && a1 == (h / B) % B && a2 == (h / B / B) % B
    ensures a0 + B * (a1 + B * Masked1(a2, dpl)) == h % Two(dpl)
  {
    hide Two, Masked1;
    MaskedIs(a2, dpl);
    LowDigit(h / B / B, dpl - 128);
    HighDigit(h / B, dpl - 64);
    HighDigit(h, dpl);
  }

  lemma NextLimb(v: int, pos: nat)
    requires v >= 0
    ensures v / Two(pos + 64) == v / Two(pos) / B
  {
    hide Two;
    TwoAdd(pos, 64);
    LimbIsTwo64();
    DivMul(v, Two(pos), B);
  }

  lemma LowDigit(h: int, w: nat)
    requires 1 <= w <= 64 && h >= 0
    ensures (h % B) % Two(w) == h % Two(w)
  {
    hide Two;
    TwoAdd(w, 64 - w);
    LimbIsTwo64();
    ModDivides(h, Two(w), Two(64 - w), h % B);
  }

  lemma HighDigit(h: int, w: nat)
    requires w >= 64 && h >= 0
    ensures h % Two(w) == h % B + B * ((h / B) % Two(w - 64))
  {
    hide Two;
    TwoAdd(64, w - 64);
    LimbIsTwo64();
    var t, r := Two(w - 64), h / B;
    assert h == (r / t) * (B * t) + (h % B + B * (r % t)) by {
      assert r == t * (r / t) + r % t;
      assert B * (t * (r / t) + r % t) == (r / t) * (B * t) + B * (r % t);
    }
    RemainderIs(h, B * t, r / t, h % B + B * (r % t));
  }

  /** limb_to_ntt: all digits of the number. */
  method ReadDigits(tab: seq<Limb>, dpl: nat, n: nat) returns (x: seq<int>)
    requires 1 <= dpl <= 188 && 64 * |tab| <= dpl * n
    ensures |x| == n && Digits(x, Two(dpl)) && Value(x, Two(dpl)) == Val(tab)
  {
    hide Val, Two, Value, Power;
    var b := Two(dpl);
    x := [];
    NoDigits(b);
    ValBound(tab);
    assert b >= 2 by { TwoMono(1, dpl); TwoUnit(); }
    for i := 0 to n
      invariant |x| == i && Digits(x, b)
      invariant Power(b, i) >= 1 && Value(x, b) + Power(b, i) * (Val(tab) / Power(b, i)) == Val(tab)
    {
      var a := ReadDigit(tab, i, dpl);
      TwoPower(dpl, i);
      assert dpl * i == i * dpl;
      DigitStep(x, Val(tab), i, b, a);
      x := x + [a];
    }
    AllRead(tab, dpl, n);
  }

  lemma NoDigits(b: int)
    ensures Value([], b) == 0 && Power(b, 0) == 1
  {
  }

  lemma DigitStep(x: seq<int>, v: int, i: nat, b: int, a: int)
    requires b >= 2 && v >= 0 && |x| == i && Power(b, i) >= 1 && a == (v / Power(b, i)) % b
    requires Value(x, b) + Power(b, i) * (v / Power(b, i)) == v
    ensures Power(b, i + 1) >= 1 && Value(x + [a], b) + Power(b, i + 1) * (v / Power(b, i + 1)) == v
  {
    hide Value;
    var p := Power(b, i);
    assert Power(b, i + 1) == p * b;
    DivMul(v, p, b);
    ValueConcat(x, [a], b);
    ValueOne(a, b);
    var h := v / p;
    assert h == b * (h / b) + a;
    assert p * (b * (h / b) + a) == (p * b) * (h / b) + p * a;
  }

  lemma AllRead(tab: seq<Limb>, dpl: nat, n: nat)
    requires 64 * |tab| <= dpl * n && Power(Two(dpl), n) >= 1
    ensures Power(Two(dpl), n) * (Val(tab) / Power(Two(dpl), n)) == 0
  {
    hide Val, Two, Power;
    TwoPower(dpl, n);
    TwoMono(64 * |tab|, dpl * n);
    TwoLimbs(|tab|);
    ValBound(tab);
    RemainderIs(Val(tab), Two(dpl * n), 0, Val(tab));
  }

  lemma {:induction false} TwoPower(k: nat, n: nat)
    ensures k * n >= 0 && Power(Two(k), n) == Two(k * n)
    decreases n
  {
    if n > 0 {
      TwoPower(k, n - 1);
      assert k * n == k + k * (n - 1);
      TwoAdd(k, k * (n - 1));
    }
  }

  // ---- writing bits ----

  /** The part of a written limb that lies in limb pos / 64, and the part in the next one. */
  lemma Straddle(val: int, pos: nat)
    requires 0 <= val < B
    ensures var lo, hi := (val * Two(pos % 64)) % B, if pos % 64 == 0 then 0 else val / Two(64 - pos % 64);
            && val * Two(pos) == Pow(pos / 64) * lo + Pow(pos / 64 + 1) * hi
            && 0 <= hi < Two(pos % 64) && lo <= B - Two(pos % 64)
  {
    hide Two, Pow;
    var i, p := pos / 64, pos % 64;
    TwoAt(pos);
    PowNext(i);
    var u, w := Two(p), Two(64 - p);
    if p == 0 {
      TwoZero();
      SmallModulus(val, B);
    } else {
      ShiftedOut(val, u, w);
    }
    StraddleAlgebra(val, Pow(i), u, (val * u) % B, (val * u) / B);
  }

  /** What a shift inside a limb leaves, and what it pushes out. */
  lemma ShiftedOut(val: int, u: int, w: int)
    requires 0 <= val < B && u >= 1 && w >= 1 && u * w == B
    ensures (val * u) / B == val / w && (val * u) % B <= B - u && 0 <= val / w < u
  {
    var hi, rest := val / w, val % w;
    assert val == w * hi + rest;
    assert val * u == B * hi + rest * u by { MulSum(u, w * hi, rest); MulAssoc(u, w, hi); }
    MulMono(u, rest, w - 1);
    MulSum(u, w, -1);
    MulMono(u, 0, rest);
    RemainderIs(val * u, B, hi, rest * u);
    QuotientSmall(val, u, w);
  }

  lemma StraddleAlgebra(val: int, q: int, u: int, lo: int, hi: int)
    requires val * u == B * hi + lo
    ensures val * (q * u) == q * lo + (B * q) * hi
  {
    assert val * (q * u) == q * (val * u);
    assert q * (B * hi + lo) == q * lo + (B * q) * hi;
  }

  /** What is below Two(pos) leaves everything from position pos on clear. */
  lemma ClearAbove(s: seq<Limb>, t: int, pos: nat)
    requires 0 <= t < Two(pos) && Val(s) == t % Pow(|s|)
    ensures pos / 64 < |s| ==> Val(s) == t && s[pos / 64] < Two(pos % 64)
    ensures pos / 64 + 1 < |s| ==> s[pos / 64 + 1] == 0
  {
    hide Val, Pow, Two;
    var i, p := pos / 64, pos % 64;
    if i < |s| {
      TwoAt(pos);
      TwoLimbs(|s|);
      TwoMono(pos, 64 * |s|);
      SmallModulus(t, Pow(|s|));
      StreamAt(s, i);
      StreamAt(s, i + 1);
      BelowProduct(t, Pow(i), Two(p));
      TwoMono(p, 64);
      LimbIsTwo64();
      RemainderIs(t / Pow(i), B, 0, t / Pow(i));
    }
  }

  lemma BelowProduct(t: int, q: int, u: int)
    requires 0 <= t < q * u && q >= 1
    ensures 0 <= t / q < u
  {
    assert t == q * (t / q) + t % q;
    if t / q >= u {
      MulMono(q, u, t / q);
      assert false;
    }
  }

  lemma UpdateVal(s: seq<Limb>, i: nat, v: Limb)
    requires i < |s|
    ensures Val(s[i := v]) == Val(s) + Pow(i) * (v - s[i])
  {
    hide Val, Pow;
    var s' := s[i := v];
    assert s'[..i] == s[..i] && s'[i + 1..] == s[i + 1..];
    ValSplit(s, i);
    ValSplit(s', i);
    ValPrev(s, i);
    ValPrev(s', i);
    var rest := Val(s[i + 1..]);
    assert Pow(i) * (v + B * rest) - Pow(i) * (s[i] + B * rest) == Pow(i) * (v - s[i]) by { Difference(Pow(i), v, s[i], B * rest); }
  }

  lemma Difference(q: int, x: int, y: int, z: int)
    ensures q * (x + z) - q * (y + z) == q * (x - y)
  {
  }

  /** put_bits onto clear bits: t, cut off at the end of the buffer, gains val at position pos. */
  method PutBits(tab: array<Limb>, pos: nat, val: Limb, ghost t: int)
    requires 0 <= t < Two(pos) && Val(tab[..]) == t % Pow(tab.Length)
    modifies tab
    ensures Val(tab[..]) == (t + val * Two(pos)) % Pow(tab.Length)
  {
    hide Val, Two, Pow;
    ghost var was := tab[..];
    var i, p := pos / 64, pos % 64;
    ClearAbove(was, t, pos);
    Straddle(val, pos);
    if i < tab.Length {
      assert was[i] == tab[i];
      tab[i] := tab[i] + (val * Two(p)) % B;
      assert tab[..] == was[i := tab[i]];
      UpdateVal(was, i, tab[i]);
    }
    ghost var mid := tab[..];
    if p != 0 {
      if i + 1 < tab.Length {
        assert tab[i + 1] == 0 && mid[i + 1] == 0;
        HighFits(val, p);
        tab[i + 1] := val / Two(64 - p);
        assert tab[..] == mid[i + 1 := tab[i + 1]];
        UpdateVal(mid, i + 1, tab[i + 1]);
      }
    }
    Written(tab[..], t, val, pos);
  }

  lemma HighFits(val: Limb, p: nat)
    requires 0 < p < 64
    ensures 0 <= val / Two(64 - p) < B
  {
    hide Two;
    Straddle(val, p);
    TwoMono(p, 64);
    LimbIsTwo64();
  }

  /** The buffer after a write, whether or not the bits lie inside it. */
  lemma Written(now: seq<Limb>, t: int, val: int, pos: nat)
    requires 0 <= val < B
    requires var i, n, p := pos / 64, |now|, pos % 64;
             var lo, hi := (val * Two(p)) % B, if p == 0 then 0 else val / Two(64 - p);
             && (i >= n ==> Val(now) == t % Pow(n))
             && (i < n ==> Val(now) == t + Pow(i) * lo + if i + 1 < n then Pow(i + 1) * hi else 0)
    ensures Val(now) == (t + val * Two(pos)) % Pow(|now|)
  {
    hide Val, Two, Pow;
    var i, n, p := pos / 64, |now|, pos % 64;
    Straddle(val, pos);
    ValBound(now);
    if i >= n {
      TwoAt(pos);
      PowAdd(n, i - n);
      OutsideAdds(t, Pow(n), Pow(i - n), Two(p), val);
    } else if i + 1 < n {
      SmallModulus(Val(now), Pow(n));
    } else {
      var hi := if p == 0 then 0 else val / Two(64 - p);
      assert hi * Pow(n) == Pow(n) * hi;
      RemainderIs(t + val * Two(pos), Pow(n), hi, Val(now));
    }
  }

  lemma OutsideAdds(t: int, q: int, r: int, u: int, val: int)
    requires q >= 1
    ensures (t + val * ((q * r) * u)) % q == t % q
  {
    var k := val * (r * u);
    assert val * ((q * r) * u) == k * q;
    assert t + k * q == (t / q + k) * q + t % q;
    RemainderIs(t + k * q, q, t / q + k, t % q);
  }

  /** ntt_to_limb: the low dpl bits of the number in us at position pos, limb by limb. */
  method WriteDigit(tab: array<Limb>, pos: nat, us: seq<Limb>, dpl: nat, ghost t: int)
    requires 1 <= dpl <= 64 * |us| && 0 <= t < Two(pos) && Val(tab[..]) == t % Pow(tab.Length)
    modifies tab
    ensures Val(tab[..]) == (t + (Val(us) % Two(dpl)) * Two(pos)) % Pow(tab.Length)
  {
    hide Val, Two, Pow, Masked1;
    ghost var u := Val(us);
    var nLimb1 := (dpl - 1) / 64;
    var at := pos;
    ValBound(us);
    assert u % Pow(0) == 0 && Pow(0) == 1 by { ValBase(); }
    for j := 0 to nLimb1
      invariant at == pos + 64 * j && Pow(j) >= 1
      invariant 0 <= t + (u % Pow(j)) * Two(pos) < Two(at) && Val(tab[..]) == (t + (u % Pow(j)) * Two(pos)) % Pow(tab.Length)
    {
      LimbOfDigit(u, j, t, pos);
      StreamAt(us, j);
      PutBits(tab, at, us[j], t + (u % Pow(j)) * Two(pos));
      at := at + 64;
    }
    StreamAt(us, nLimb1);
    MaskedIs(us[nLimb1], dpl);
    PutBits(tab, at, Masked1(us[nLimb1], dpl), t + (u % Pow(nLimb1)) * Two(pos));
    LastLimb(u, nLimb1, dpl, pos);
  }

  /** Writing limb j of u adds it to what was written before. */
  lemma LimbOfDigit(u: int, j: nat, t: int, pos: nat)
    requires u >= 0 && 0 <= t < Two(pos) && Pow(j) >= 1
    ensures Pow(j + 1) >= 1 && u / Pow(j + 1) == u / Pow(j) / B
    ensures (u % Pow(j)) * Two(pos) + ((u / Pow(j)) % B) * Two(pos + 64 * j) == (u % Pow(j + 1)) * Two(pos)
    ensures 0 <= t + (u % Pow(j + 1)) * Two(pos) < Two(pos + 64 * (j + 1))
  {
    hide Two, Pow;
    PowNext(j);
    DivMul(u, Pow(j), B);
    Commute(B, Pow(j));
    TwoAdd(pos, 64 * j);
    TwoLimbs(j);
    TwoAdd(pos, 64 * (j + 1));
    TwoLimbs(j + 1);
    Lower(u, Pow(j), B);
    TwoParts(u % Pow(j), (u / Pow(j)) % B, Pow(j), Two(pos));
    RoomAbove(t, u % Pow(j + 1), Two(pos), Pow(j + 1));
  }

  lemma Lower(u: int, q: int, b: int)
    requires q >= 1 && b >= 1 && u >= 0
    ensures q * b >= 1 && u % (q * b) == u % q + q * ((u / q) % b)
  {
    MulMono(q, 1, b);
    var h := u / q;
    assert u == (h / b) * (q * b) + (u % q + q * (h % b)) by {
      assert h == b * (h / b) + h % b;
      assert q * (b * (h / b) + h % b) == (h / b) * (q * b) + q * (h % b);
    }
    MulMono(q, h % b, b - 1);
    MulMono(q, 0, h % b);
    assert q * (b - 1) == q * b - q;
    RemainderIs(u, q * b, h / b, u % q + q * (h % b));
  }

  lemma TwoParts(x: int, y: int, q: int, p: int)
    ensures x * p + y * (p * q) == (x + q * y) * p
  {
    assert y * (p * q) == (q * y) * p;
  }

  lemma RoomAbove(t: int, x: int, p: int, q: int)
    requires 0 <= t < p && 0 <= x < q
    ensures 0 <= t + x * p < p * q
  {
    MulMono(p, x, q - 1);
    MulMono(p, 0, x);
    assert p * (q - 1) == p * q - p;
  }

  lemma LastLimb(u: int, j: nat, dpl: nat, pos: nat)
    requires u >= 0 && dpl >= 1 && j == (dpl - 1) / 64 && Pow(j) >= 1
    ensures (u % Pow(j)) * Two(pos) + (((u / Pow(j)) % B) % Two(TopBits(dpl))) * Two(pos + 64 * j) == (u % Two(dpl)) * Two(pos)
  {
    hide Two, Pow;
    var w := TopBits(dpl);
    assert dpl == 64 * j + w && 1 <= w <= 64;
    assert u / Pow(j) >= 0 by { DivideDigit(u, Pow(j)); }
    LowDigit(u / Pow(j), w);
    TwoAdd(pos, 64 * j);
    TwoLimbs(j);
    TwoAdd(64 * j, w);
    Lower(u, Pow(j), Two(w));
    TwoParts(u % Pow(j), (u / Pow(j)) % Two(w), Pow(j), Two(pos));
  }

  // ---- coefficients to limbs ----

  /** The last step of the conversion: u * m + y0 + carry, over the first l limbs. */
  method MulAddCarry(u: array<Limb>, l: nat, m: Limb, y0: Limb, carry: array<Limb>) returns (r: Limb)
    requires u != carry && l <= u.Length && l <= carry.Length && m < ModMax
    modifies u
    ensures forall k :: l <= k < u.Length ==> u[k] == old(u[k])
    ensures Val(u[..l]) + r * Pow(l) == old(Val(u[..l])) * m + y0 + Val(carry[..l])
  {
    hide Val, Pow;
    ghost var us, cs := u[..l], carry[..l];
    ValBase();
    r := y0;
    for k := 0 to l
      invariant forall j :: k <= j < u.Length ==> u[j] == old(u[j])
      invariant Val(u[..k]) + r * Pow(k) == Val(us[..k]) * m + y0 + Val(cs[..k])
    {
      assert u[k] == us[k] && carry[k] == cs[k];
      var t := u[k] * m + r + carry[k];
      DoubleFits(u[k], m, r, carry[k]);
      ghost var before := u[..k];
      MulAddStep(before, us, cs, k, m, r, t, y0);
      u[k] := t % B;
      r := t / B;
      assert u[..k + 1] == before + [t % B];
    }
    assert us[..l] == us && cs[..l] == cs;
  }

  lemma DoubleFits(x: int, m: int, r: int, c: int)
    requires 0 <= x < B && 0 <= m < ModMax && 0 <= r < B && 0 <= c < B
    ensures 0 <= x * m + r + c < B * B
  {
    MulMono(m, x, B - 1);
    MulMono(B - 1, m, ModMax - 1);
    MulMono(m, 0, x);
  }

  lemma MulAddStep(before: seq<Limb>, us: seq<Limb>, cs: seq<Limb>, k: nat, m: int, r: int, t: int, y0: int)
    requires k == |before| < |us| == |cs| && t == us[k] * m + r + cs[k] && 0 <= t < B * B
    requires Val(before) + r * Pow(k) == Val(us[..k]) * m + y0 + Val(cs[..k])
    ensures Val(before + [(t % B) as Limb]) + (t / B) * Pow(k + 1) == Val(us[..k + 1]) * m + y0 + Val(cs[..k + 1])
  {
    hide Val, Pow;
    var u0: int, c0: int, p := us[k], cs[k], Pow(k);
    ValSnoc(before, (t % B) as Limb);
    ValNext(us, k);
    ValNext(cs, k);
    PowNext(k);
    MulAddAlgebra(Val(us[..k]), Val(cs[..k]), Val(before), p, u0, c0, m, r, t % B, t / B, y0);
  }

  lemma MulAddAlgebra(us: int, cs: int, v: int, p: int, u0: int, c0: int, m: int, r: int, lo: int, hi: int, y0: int)
    requires v + r * p == us * m + y0 + cs && B * hi + lo == u0 * m + r + c0
    ensures v + p * lo + hi * (B * p) == (us + p * u0) * m + y0 + (cs + p * c0)
  {
    assert p * (B * hi + lo) == p * (u0 * m) + p * r + p * c0 by {
      assert p * (u0 * m + r + c0) == p * (u0 * m) + p * r + p * c0;
    }
    assert p * (B * hi + lo) == hi * (B * p) + p * lo;
    assert (us + p * u0) * m == us * m + p * (u0 * m);
  }

  /** The conversion back to normal representation: the mixed-radix number plus the carry, in as many limbs as primes. */
  method NumberOf(y: seq<Limb>, ms: seq<int>, carry: array<Limb>) returns (u: array<Limb>)
    requires |y| == |ms| == carry.Length >= 2 && forall k :: 0 <= k < |ms| ==> 0 < ms[k] < ModMax
    requires Mixed(y, ms) + Val(carry[..]) < Pow(|ms|)
    ensures fresh(u) && u.Length == |ms| && Val(u[..]) == Mixed(y, ms) + Val(carry[..])
  {
    hide Val, Pow, Mixed;
    var nb := |ms|;
    u := new Limb[nb];
    u[0] := y[nb - 1];
    var l, j := 1, nb - 2;
    assert u[0..l] == [y[nb - 1]];
    ValSingle(y[nb - 1]);
    MixedLast(y, ms);
    while j >= 1
      invariant 0 <= j <= nb - 2 && l == nb - 1 - j && Val(u[0..l]) == Mixed(y[j + 1..], ms[j + 1..])
    {
      MixedFirst(y, ms, j);
      var r := LimbKernels.MpMul1(u, 0, u, 0, l, ms[j], y[j]);
      ghost var low := u[0..0 + l];
      u[l] := r;
      assert u[0..l + 1] == low + [r];
      ValSnoc(low, r);
      assert r * Pow(l) == Pow(l) * r by { Commute(r, Pow(l)); }
      l := l + 1;
      j := j - 1;
    }
    MixedFirst(y, ms, 0);
    assert y[0..] == y && ms[0..] == ms && u[0..l] == u[..l];
    ghost var cs: seq<Limb> := carry[..];
    var r := MulAddCarry(u, l, ms[0], y[0], carry);
    ghost var low: seq<Limb> := u[..l];
    assert cs[..l] == carry[..l] && cs == cs[..l] + [cs[l]];
    ValSnoc(cs[..l], cs[l]);
    TopFits(Val(low), r, cs[l], Pow(l), l);
    u[l] := r + carry[l];
    assert u[..] == low + [u[l]];
    ValSnoc(low, u[l]);
  }

  lemma MixedLast(y: seq<Limb>, ms: seq<int>)
    requires |y| == |ms| >= 2
    ensures Mixed(y[|y| - 2 + 1..], ms[|y| - 2 + 1..]) == y[|y| - 1]
  {
    assert y[|y| - 1..] == [y[|y| - 1]] && ms[|ms| - 1..] == [ms[|ms| - 1]];
    assert Mixed([y[|y| - 1]][1..], [ms[|ms| - 1]][1..]) == 0;
  }

  lemma MixedFirst(y: seq<Limb>, ms: seq<int>, j: nat)
    requires |y| == |ms| && j < |y|
    ensures Mixed(y[j..], ms[j..]) == Mixed(y[j + 1..], ms[j + 1..]) * ms[j] + y[j]
  {
    assert y[j..][1..] == y[j + 1..] && ms[j..][1..] == ms[j + 1..];
    Commute(ms[j], Mixed(y[j + 1..], ms[j + 1..]));
  }

  /** The top limb does not overflow. */
  lemma TopFits(v: int, r: int, c: int, p: int, l: nat)
    requires 0 <= v && 0 <= r && 0 <= c && p == Pow(l) && v + r * p + p * c < Pow(l + 1)
    ensures r + c < B && v + r * p + p * c == v + p * (r + c)
  {
    hide Pow;
    PowNext(l);
    PowMono(0, l);
    assert p >= 1 by { ValBase(); }
    assert p * (r + c) == r * p + p * c;
    if r + c >= B {
      MulMono(p, B, r + c);
      assert false;
    }
  }

  /** The number shifted down by a digit becomes the carry; the limbs beyond it stay clear. */
  method NextCarry(u: array<Limb>, dpl: nat, carry: array<Limb>)
    requires u != carry && u.Length == carry.Length && 1 <= dpl <= 64 * u.Length - 1
    requires forall k :: u.Length - (dpl - 1) / 64 - (if dpl % 64 == 0 then 1 else 0) <= k < u.Length ==> carry[k] == 0
    modifies carry
    ensures forall k :: u.Length - (dpl - 1) / 64 - (if dpl % 64 == 0 then 1 else 0) <= k < u.Length ==> carry[k] == 0
    ensures Val(carry[..]) == Val(u[..]) / Two(dpl)
  {
    hide Val, Two, Pow, GetBits;
    var nb, shift, nLimb1 := u.Length, dpl % 64, (dpl - 1) / 64;
    ghost var us := u[..];
    if shift == 0 {
      for j := nLimb1 + 1 to nb
        invariant forall k :: 0 <= k < j - (nLimb1 + 1) ==> carry[k] == GetBits(us, dpl + 64 * k)
        invariant forall k :: nb - (nLimb1 + 1) <= k < nb ==> carry[k] == 0
      {
        WholeLimb(us, dpl, j - (nLimb1 + 1));
        carry[j - (nLimb1 + 1)] := u[j];
      }
    } else {
      for j := nLimb1 to nb - 1
        invariant forall k :: 0 <= k < j - nLimb1 ==> carry[k] == GetBits(us, dpl + 64 * k)
        invariant forall k :: nb - nLimb1 <= k < nb ==> carry[k] == 0
      {
        JoinFits(u[j], u[j + 1], shift);
        SplitLimb(us, dpl, j - nLimb1);
        carry[j - nLimb1] := u[j] / Two(shift) + (u[j + 1] % Two(shift)) * Two(64 - shift);
      }
      JoinFits(u[nb - 1], 0, shift);
      TopLimb(us, dpl);
      HighFits(u[nb - 1], 64 - shift);
      carry[nb - 1 - nLimb1] := u[nb - 1] / Two(shift);
    }
    CarryIs(us, carry[..], dpl);
  }

  lemma WholeLimb(us: seq<Limb>, dpl: nat, k: nat)
    requires dpl % 64 == 0 && dpl >= 1 && (dpl - 1) / 64 + 1 + k < |us|
    ensures GetBits(us, dpl + 64 * k) == us[(dpl - 1) / 64 + 1 + k]
  {
  }

  lemma SplitLimb(us: seq<Limb>, dpl: nat, k: nat)
    requires dpl % 64 != 0 && (dpl - 1) / 64 + k + 1 < |us|
    ensures var i, p := (dpl - 1) / 64 + k, dpl % 64;
            GetBits(us, dpl + 64 * k) == us[i] / Two(p) + (us[i + 1] % Two(p)) * Two(64 - p)
  {
    hide Two;
    assert (dpl + 64 * k) / 64 == (dpl - 1) / 64 + k && (dpl + 64 * k) % 64 == dpl % 64;
  }

  lemma TopLimb(us: seq<Limb>, dpl: nat)
    requires dpl % 64 != 0 && (dpl - 1) / 64 < |us|
    ensures GetBits(us, dpl + 64 * (|us| - 1 - (dpl - 1) / 64)) == us[|us| - 1] / Two(dpl % 64)
  {
    hide Two;
    var k, p := |us| - 1 - (dpl - 1) / 64, dpl % 64;
    assert (dpl + 64 * k) / 64 == |us| - 1 && (dpl + 64 * k) % 64 == p;
    assert 0 % Two(p) == 0 by { TwoMono(0, p); TwoZero(); SmallModulus(0, Two(p)); }
    assert 0 * Two(64 - p) == 0;
  }

  lemma Beyond(us: seq<Limb>, dpl: nat, k: nat)
    requires dpl >= 1 && (dpl + 64 * k) / 64 >= |us|
    ensures GetBits(us, dpl + 64 * k) == 0
  {
    hide Two;
    var p := (dpl + 64 * k) % 64;
    if p != 0 {
      TwoMono(0, p);
      TwoZero();
      SmallModulus(0, Two(p));
      RemainderIs(0, Two(p), 0, 0);
      assert 0 * Two(64 - p) == 0;
    }
  }

  lemma CarryIs(us: seq<Limb>, cs: seq<Limb>, dpl: nat)
    requires |us| == |cs| && 1 <= dpl <= 64 * |us| - 1
    requires forall k :: 0 <= k < |us| - dpl / 64 ==> cs[k] == GetBits(us, dpl + 64 * k)
    requires forall k :: |us| - dpl / 64 <= k < |us| ==> cs[k] == 0
    ensures Val(cs) == Val(us) / Two(dpl)
  {
    hide Val, Two, Pow, GetBits;
    ValBound(us);
    TwoMono(0, dpl);
    TwoZero();
    var h := Val(us) / Two(dpl);
    assert 0 <= h <= Val(us) by { QuotientAtMost(Val(us), Two(dpl)); }
    forall k | 0 <= k < |us|
      ensures cs[k] == LimbOf(h, k)
    {
      if k >= |us| - dpl / 64 {
        Beyond(us, dpl, k);
      }
      GetBitsIs(us, dpl + 64 * k);
      TwoAdd(dpl, 64 * k);
      TwoLimbs(k);
      PowMono(0, k);
      ValBase();
      DivMul(Val(us), Two(dpl), Two(64 * k));
    }
    assert cs == Row(h, |us|);
    RowWhole(h, |us|);
  }

  lemma QuotientAtMost(v: int, d: int)
    requires v >= 0 && d >= 1
    ensures 0 <= v / d <= v
  {
    assert v == d * (v / d) + v % d;
    if v / d > v {
      MulMono(v / d, 1, d);
      assert false;
    }
    if v / d < 0 {
      MulMono(d, v / d, -1);
      assert false;
    }
  }

  /** Two numbers below the product of the primes fit in as many limbs as primes. */
  lemma {:induction false} PrimesFit(ms: seq<int>)
    requires |ms| >= 1 && forall k :: 0 <= k < |ms| ==> 0 < ms[k] < ModMax
    ensures 0 < ProductOf(ms) && 2 * ProductOf(ms) <= Pow(|ms|)
    decreases |ms|
  {
    if |ms| == 1 {
      assert ms[1..] == [];
      assert Pow(1) == B * Pow(0);
    } else {
      PrimesFit(ms[1..]);
      var p, q := ProductOf(ms[1..]), Pow(|ms| - 1);
      MulMono(ms[0], 2 * p, q);
      MulMono(q, ms[0], B);
      MulMono(p, 1, ms[0]);
      assert ms[0] * (2 * p) == 2 * (ms[0] * p);
    }
  }

  /** ntt_to_limb: the number whose coefficients have the given residues, which fits in n limbs. */
  method ToLimbs(rows: seq<seq<Limb>>, nb: nat, dpl: nat, n: nat, ghost c: seq<int>) returns (r: array<Limb>)
    requires 3 <= nb <= 5 && |rows| == |ModsFor(nb)| == nb && 1 <= dpl <= 188 && 64 * n <= dpl * |c|
    requires forall m :: 0 <= m < nb ==> RowOf(rows[m], c, ModsFor(nb)[m])
    requires (forall i :: 0 <= i < |c| ==> 0 <= c[i] < ProductOf(ModsFor(nb))) && Value(c, Two(dpl)) < Pow(n)
    ensures fresh(r) && r.Length == n && Val(r[..]) == Value(c, Two(dpl))
  {
    hide Val, Two, Pow, Value, Power, ModsFor, ProductOf, RowOf, Mixed;
    r := new Limb[n](_ => 0);
    var carry := new Limb[nb](_ => 0);
    var ms, b := ModsFor(nb), Two(dpl);
    PrimesInUse(nb);
    PrimesFit(ms);
    assert b >= 2 by { TwoMono(1, dpl); TwoUnit(); }
    var fftLen := |rows[0]|;
    assert fftLen == |c| by { RowLength(rows[0], c, ms[0]); }
    var len := Least(fftLen, (n * 64 + dpl - 1) / dpl);
    ghost var t := 0;
    NoDigits(b);
    NothingYet(r[..]);
    ValZero(carry[..]);
    TwoZero();
    for i := 0 to len
      invariant i * dpl >= 0 && 0 <= t < Two(i * dpl) && t + Two(i * dpl) * Val(carry[..]) == Value(c[..i], b)
      invariant 0 <= Val(carry[..]) < ProductOf(ms)
      invariant forall k :: nb - (dpl - 1) / 64 - (if dpl % 64 == 0 then 1 else 0) <= k < nb ==> carry[k] == 0
      invariant Val(r[..]) == t % Pow(n)
    {
      var res := ResiduesAt(rows, nb, i, c);
      var y := MixedDigits(nb, res, c[i]);
      var u := NumberOf(y, ms, carry);
      ghost var v, old0 := Val(u[..]), Val(carry[..]);
      WriteDigit(r, i * dpl, u[..], dpl, t);
      CarryStep(t, c, i, dpl, old0, v);
      CarryBelow(v, b, ProductOf(ms));
      t := t + (v % b) * Two(i * dpl);
      NextCarry(u, dpl, carry);
    }
    CeilCovers(n * 64, dpl);
    Commute(dpl, len);
    NothingLeft(t, c, len, dpl, Val(carry[..]), n);
  }

  lemma PrimesInUse(nb: nat)
    requires 3 <= nb <= 5
    ensures |ModsFor(nb)| == nb && forall k :: 0 <= k < nb ==> 0 < ModsFor(nb)[k] < ModMax
  {
  }

  lemma RowLength(row: seq<Limb>, c: seq<int>, m: int)
    requires RowOf(row, c, m)
    ensures |row| == |c|
  {
  }

  /** The residues of coefficient i. */
  method ResiduesAt(rows: seq<seq<Limb>>, nb: nat, i: nat, ghost c: seq<int>) returns (res: seq<Limb>)
    requires |rows| == nb && 3 <= nb <= 5 && |ModsFor(nb)| == nb && i < |c|
    requires forall m :: 0 <= m < nb ==> RowOf(rows[m], c, ModsFor(nb)[m])
    ensures |res| == nb
    ensures forall m :: 0 <= m < nb ==> ModsFor(nb)[m] > 0 && res[m] < ModsFor(nb)[m] && Cong(res[m], c[i], ModsFor(nb)[m])
  {
    hide ModsFor, Cong, RowOf;
    res := [];
    for m := 0 to nb
      invariant |res| == m
      invariant forall k :: 0 <= k < m ==> ModsFor(nb)[k] > 0 && res[k] < ModsFor(nb)[k] && Cong(res[k], c[i], ModsFor(nb)[k])
    {
      RowAt(rows[m], c, ModsFor(nb)[m], i);
      res := res + [rows[m][i]];
    }
  }

  /** A carry stays below the product of the primes. */
  lemma CarryBelow(v: int, b: int, p: int)
    requires 0 <= v < 2 * p && b >= 2
    ensures 0 <= v / b < p
  {
    DivideDigit(v, b);
    var q := v / b;
    Commute(b, q);
    if q >= p {
      MulMono(q, 2, b);
      assert false;
    }
  }

  lemma NothingYet(s: seq<Limb>)
    requires forall k :: 0 <= k < |s| ==> s[k] == 0
    ensures Val(s) == 0 % Pow(|s|) && 0 * 0 == 0
  {
    hide Pow;
    ValZero(s);
    ValBound(s);
    SmallModulus(0, Pow(|s|));
  }

  lemma CarryStep(t: int, c: seq<int>, i: nat, dpl: nat, carry: int, u: int)
    requires i * dpl >= 0 && i < |c| && u == c[i] + carry && u >= 0 && 0 <= t < Two(i * dpl)
    requires t + Two(i * dpl) * carry == Value(c[..i], Two(dpl))
    ensures (i + 1) * dpl >= 0 && u / Two(dpl) >= 0 && 0 <= t + (u % Two(dpl)) * Two(i * dpl) < Two((i + 1) * dpl)
    ensures t + (u % Two(dpl)) * Two(i * dpl) + Two((i + 1) * dpl) * (u / Two(dpl)) == Value(c[..i + 1], Two(dpl))
  {
    hide Value, Two, Power;
    var b, p := Two(dpl), Two(i * dpl);
    assert (i + 1) * dpl == i * dpl + dpl;
    TwoAdd(i * dpl, dpl);
    TwoPower(dpl, i);
    Commute(dpl, i);
    assert c[..i + 1] == c[..i] + [c[i]];
    ValueConcat(c[..i], [c[i]], b);
    ValueOne(c[i], b);
    DivideDigit(u, b);
    RoomAbove(t, u % b, p, b);
    CarryAlgebra(p, b, u / b, u % b, c[i], carry);
  }

  lemma DivideDigit(u: int, b: int)
    requires u >= 0 && b >= 1
    ensures u == b * (u / b) + u % b && 0 <= u % b < b && u / b >= 0
  {
  }

  lemma CarryAlgebra(p: int, b: int, q: int, r: int, c: int, carry: int)
    requires b * q + r == c + carry
    ensures r * p + (p * b) * q == p * c + p * carry
  {
    assert p * (b * q + r) == p * (c + carry);
    assert (p * b) * q == p * (b * q);
  }

  /** The digits written hold the whole number: what is left lies above its range. */
  lemma NothingLeft(t: int, c: seq<int>, i: nat, dpl: nat, carry: int, n: nat)
    requires i <= |c| && i * dpl >= 64 * n && carry >= 0 && 0 <= t < Two(i * dpl) && Value(c, Two(dpl)) < Pow(n)
    requires t + Two(i * dpl) * carry == Value(c[..i], Two(dpl)) && forall k :: 0 <= k < |c| ==> c[k] >= 0
    ensures t % Pow(n) == Value(c, Two(dpl))
  {
    hide Value, Two, Pow, Power;
    var b, p := Two(dpl), Two(i * dpl);
    assert c == c[..i] + c[i..];
    ValueConcat(c[..i], c[i..], b);
    TwoPower(dpl, i);
    Commute(dpl, i);
    NotNegative(c[i..], b);
    var rest := carry + Value(c[i..], b);
    assert Value(c, b) == t + p * rest by { Distribute(p, carry, Value(c[i..], b)); }
    TwoMono(64 * n, i * dpl);
    TwoLimbs(n);
    if rest >= 1 {
      MulMono(p, 1, rest);
      assert false;
    }
    assert p * 0 == 0;
    SmallModulus(t, Pow(n));
  }

  lemma {:induction false} NotNegative(c: seq<int>, b: int)
    requires b >= 0 && forall k :: 0 <= k < |c| ==> c[k] >= 0
    ensures Value(c, b) >= 0
  {
    if c != [] {
      NotNegative(c[1..], b);
      MulMono(b, 0, Value(c[1..], b));
    }
  }

  // ---- the product ----

  /** fft_mul: the product of two numbers of up to 2^52 limbs together, exactly. */
  method FftMul(a: seq<Limb>, b: seq<Limb>) returns (r: array<Limb>)
    requires |a| >= 1 && |b| >= 1 && 3 <= |a| + |b| <= Two(52)
    ensures fresh(r) && r.Length == |a| + |b| && Val(r[..]) == Val(a) * Val(b)
  {
    hide Val, Two, Pow, Value, Digits, Power, ModsFor, ProductOf, RowOf, Coefficients;
    var len := |a| + |b|;
    var z := GetFftSize(len);
    LongEnough(z, len);
    ProductFits(|a|, |b|, z);
    CeilCovers(64 * |a|, z.dpl);
    CeilCovers(64 * |b|, z.dpl);
    var x := ReadDigits(a, z.dpl, (64 * |a| + z.dpl - 1) / z.dpl);
    var y := ReadDigits(b, z.dpl, (64 * |b| + z.dpl - 1) / z.dpl);
    var rows := Convolve(x, y, z, len);
    ghost var c := Coefficients(x, y, Two(z.log));
    CoefficientsExact(x, y, z, len);
    ProductBound(a, b);
    r := ToLimbs(rows, z.nbMods, z.dpl, len, c);
  }

  /** Three limbs or more need at least two digits. */
  lemma LongEnough(z: FftSize, len: nat)
    requires Fits(z, len) && len >= 3
    ensures z.log >= 1
  {
    if z.log == 0 {
      assert false;
    }
  }

  lemma ProductBound(a: seq<Limb>, b: seq<Limb>)
    ensures Val(a) * Val(b) < Pow(|a| + |b|)
  {
    hide Val, Pow;
    ValBound(a);
    ValBound(b);
    PowAdd(|a|, |b|);
    MulMono(Val(a), Val(b), Pow(|b|) - 1);
    MulMono(Pow(|b|) - 1, Val(a), Pow(|a|));
    assert Pow(|a|) * (Pow(|b|) - 1) == Pow(|a|) * Pow(|b|) - Pow(|a|);
  }
}
