/**
 Reading limbs at any bit position (get_bits and get_limbz of qjs/libbf.c), and numbers as rows of
 limbs that continue with zeros in both directions.
 */
module LimbStreams {
  import opened Limbs
  import opened Bits
  import opened RoundingTheory
  import opened RoundingLimbs

  /** The limb at index k, zero outside the buffer: get_limbz. */
  function LimbZ(tab: seq<Limb>, k: int): Limb {
    if 0 <= k < |tab| then tab[k] else 0
  }

  /** get_bits: 64 bits from bit position pos on. */
  function GetBits(tab: seq<Limb>, pos: int): Limb {
    var i, p := pos / 64, pos % 64;
    var a0 := LimbZ(tab, i);
    if p == 0 then a0
    else
      var a1 := LimbZ(tab, i + 1);
      JoinFits(a0, a1, p);
      a0 / Two(p) + (a1 % Two(p)) * Two(64 - p)
  }

  lemma JoinFits(a0: int, a1: int, p: nat)
    requires 0 <= a0 < B && 0 <= a1 && 0 < p < 64
    ensures 0 <= a0 / Two(p) + (a1 % Two(p)) * Two(64 - p) < B && 0 <= a0 / Two(p) < Two(64 - p) && Two(p) * Two(64 - p) == B
  {
    hide Two;
    TwoAdd(p, 64 - p);
    LimbIsTwo64();
    var u, w := Two(p), Two(64 - p);
    QuotientSmall(a0, w, u);
    MulMono(w, a1 % u, u - 1);
    MulMono(w, 0, a1 % u);
    assert w * (u - 1) == u * w - w;
  }

  /** The 64 bits of v from bit position pos on, as arithmetic. */
  function BitsAt(v: nat, pos: int): int {
    if pos >= 0 then (v / Two(pos)) % B else (v * Two(-pos)) % B
  }

  /** Limb k of a number. */
  function LimbOf(m: nat, k: nat): (x: int)
    ensures 0 <= x < B
  {
    (m / Pow(k)) % B
  }

  // ---- quotients by powers ----

  lemma DivMul(m: int, x: int, y: int)
    requires m >= 0 && x >= 1 && y >= 1
    ensures x * y >= 1 && m / (x * y) == (m / x) / y
  {
    var q, r := m / x, m % x;
    var q', r' := q / y, q % y;
    TwoStep(m, x, y, q, r, q', r');
    RemainderIs(m, x * y, q', x * r' + r);
  }

  lemma TwoStep(m: int, x: int, y: int, q: int, r: int, q': int, r': int)
    requires x >= 1 && y >= 1 && m == x * q + r && 0 <= r < x && q == y * q' + r' && 0 <= r' < y
    ensures x * y >= 1 && m == q' * (x * y) + (x * r' + r) && 0 <= x * r' + r < x * y
  {
    MulMono(x, 1, y);
    MulSum(x, y * q', r');
    MulAssoc(x, y, q');
    MulMono(x, r', y - 1);
    MulSum(x, y, -1);
    MulMono(x, 0, r');
  }

  lemma DivCancel(v: int, s: int, t: int)
    requires s >= 1 && t >= 1
    ensures s * t >= 1 && (v * s) / (s * t) == v / t
  {
    MulMono(s, 1, t);
    var q, r := v / t, v % t;
    assert v * s == q * (s * t) + r * s by { assert (t * q + r) * s == (t * q) * s + r * s; assert (t * q) * s == q * (s * t); }
    MulMono(s, r, t - 1);
    MulMono(s, 0, r);
    assert s * (t - 1) == s * t - s;
    RemainderIs(v * s, s * t, q, r * s);
  }

  lemma DivExact(v: int, s: int, t: int)
    requires s >= 1
    ensures (v * (t * s)) / s == v * t
  {
    assert v * (t * s) == (v * t) * s;
    RemainderIs((v * t) * s, s, v * t, 0);
  }

  /** The number from limb k on, and its limb there. */
  lemma StreamAt(tab: seq<Limb>, k: nat)
    ensures var h := Val(tab) / Pow(k); h >= 0 && h % B == LimbZ(tab, k) && h / B == Val(tab) / Pow(k + 1)
  {
    hide Val, Pow;
    PowNext(k);
    DivMul(Val(tab), Pow(k), B);
    assert B * Pow(k) == Pow(k) * B;
    if k < |tab| {
      ValSplit(tab, k);
      ValBound(tab[..k]);
      RemainderIs(Val(tab), Pow(k), Val(tab[k..]), Val(tab[..k]));
      ValPrev(tab, k);
      RemainderIs(Val(tab[k..]), B, Val(tab[k + 1..]), tab[k]);
    } else {
      ValBound(tab);
      PowMono(|tab|, k);
      RemainderIs(Val(tab), Pow(k), 0, Val(tab));
    }
  }

  /** get_bits reads the bits of the number. */
  lemma GetBitsIs(tab: seq<Limb>, pos: int)
    ensures GetBits(tab, pos) == BitsAt(Val(tab), pos)
  {
    hide Val, Two, GetBits;
    if pos >= 0 {
      GetBitsUp(tab, pos);
    } else {
      GetBitsDown(tab, pos);
    }
  }

  lemma GetBitsUp(tab: seq<Limb>, pos: nat)
    ensures GetBits(tab, pos) == (Val(tab) / Two(pos)) % B
  {
    hide Val, Pow, Two;
    var i, p := pos / 64, pos % 64;
    var v := Val(tab);
    StreamAt(tab, i);
    StreamAt(tab, i + 1);
    TwoAt(pos);
    DivMul(v, Pow(i), Two(p));
    if p == 0 {
      TwoZero();
    } else {
      JoinFits(LimbZ(tab, i), LimbZ(tab, i + 1), p);
      Join(v / Pow(i), Two(p), Two(64 - p), LimbZ(tab, i), LimbZ(tab, i + 1));
    }
  }

  lemma GetBitsDown(tab: seq<Limb>, pos: int)
    requires pos < 0
    ensures GetBits(tab, pos) == (Val(tab) * Two(-pos)) % B
  {
    hide Val, Pow, Two;
    var p := pos % 64;
    if pos <= -64 {
      hide GetBits;
      TwoAdd(-pos - 64, 64);
      LimbIsTwo64();
      WholeLimbs(Val(tab), Two(-pos - 64));
      GetBitsBelow(tab, pos);
    } else {
      assert -pos == 64 - p && pos / 64 == -1;
      JoinFits(0, LimbZ(tab, 0), p);
      StreamAt(tab, 0);
      assert Pow(0) == 1 by { ValBase(); }
      JoinLow(Val(tab), Two(p), Two(64 - p), LimbZ(tab, 0));
    }
  }

  lemma GetBitsBelow(tab: seq<Limb>, pos: int)
    requires pos <= -64
    ensures GetBits(tab, pos) == 0
  {
    hide Two;
    var i, p := pos / 64, pos % 64;
    assert LimbZ(tab, i) == 0;
    if p != 0 {
      assert LimbZ(tab, i + 1) == 0;
      assert 0 / Two(p) == 0 && 0 % Two(p) == 0 by { SmallModulus(0, Two(p)); RemainderIs(0, Two(p), 0, 0); }
    }
  }

  lemma WholeLimbs(v: int, t: int)
    ensures (v * (t * B)) % B == 0
  {
    assert v * (t * B) == (v * t) * B;
    RemainderIs((v * t) * B, B, v * t, 0);
  }

  lemma Join(h: int, u: int, w: int, a0: int, a1: int)
    requires u >= 1 && w >= 1 && u * w == B && h >= 0 && h % B == a0 && (h / B) % B == a1
    requires 0 <= a0 / u < w && 0 <= a0 / u + (a1 % u) * w < B
    ensures (h / u) % B == a0 / u + (a1 % u) * w
  {
    var r := h / B;
    JoinQuotient(h, u, w, r, a0);
    ModDivides(r, u, w, a1);
    JoinRest(r, u, w, r / u, a1 % u);
    RemainderIs(h / u, B, r / u, a0 / u + (a1 % u) * w);
  }

  lemma JoinQuotient(h: int, u: int, w: int, r: int, a0: int)
    requires u >= 1 && u * w == B && h == B * r + a0
    ensures h / u == w * r + a0 / u
  {
    assert (w * r) * u == (u * w) * r;
    assert h == (w * r + a0 / u) * u + a0 % u;
    RemainderIs(h, u, w * r + a0 / u, a0 % u);
  }

  lemma JoinRest(r: int, u: int, w: int, g: int, c: int)
    requires u * w == B && r == u * g + c
    ensures w * r == g * B + c * w
  {
    assert w * (u * g + c) == (u * w) * g + c * w;
  }

  lemma ModDivides(r: int, u: int, w: int, a: int)
    requires u >= 1 && u * w == B && r % B == a
    ensures r % u == a % u
  {
    var g := r / B;
    assert r == B * g + a;
    assert r == (w * g + a / u) * u + a % u by { assert (w * g) * u == (u * w) * g; }
    RemainderIs(r, u, w * g + a / u, a % u);
  }

  lemma JoinLow(v: int, u: int, w: int, a1: int)
    requires u >= 1 && w >= 1 && u * w == B && v >= 0 && v % B == a1 && 0 <= (a1 % u) * w < B
    ensures (v * w) % B == (a1 % u) * w
  {
    ModDivides(v, u, w, a1);
    var g := v / u;
    assert v == u * g + a1 % u;
    assert v * w == B * g + (a1 % u) * w by { assert (u * g) * w == (u * w) * g; }
    RemainderIs(v * w, B, g, (a1 % u) * w);
  }

  /** Limb k of a shifted number. */
  lemma LimbOfShifted(v: nat, sh: nat, k: nat)
    ensures LimbOf(v * Two(sh), k) == BitsAt(v, 64 * k - sh)
  {
    hide Two, Pow;
    TwoLimbs(k);
    if 64 * k >= sh {
      TwoAdd(sh, 64 * k - sh);
      DivCancel(v, Two(sh), Two(64 * k - sh));
    } else {
      TwoAdd(sh - 64 * k, 64 * k);
      DivExact(v, Two(64 * k), Two(sh - 64 * k));
    }
  }

  // ---- rows of limbs ----

  /** The n low limbs of m. */
  ghost function Row(m: nat, n: nat): (s: seq<Limb>)
    ensures |s| == n && forall k :: 0 <= k < n ==> s[k] == LimbOf(m, k)
  {
    seq(n, k requires 0 <= k < n => LimbOf(m, k) as Limb)
  }

  lemma {:induction false} RowVal(m: nat, n: nat, k: nat)
    requires k <= n
    ensures Val(Row(m, n)[..k]) == m % Pow(k)
    decreases k
  {
    hide Val, Pow;
    if k == 0 {
      ValBase();
      assert Row(m, n)[..0] == [];
    } else {
      RowVal(m, n, k - 1);
      ValNext(Row(m, n), k - 1);
      var p := Pow(k - 1);
      DivMul(m, p, B);
      PowNext(k - 1);
      assert p * B == B * p;
      var q := m / p;
      assert m == p * q + m % p && q == B * (q / B) + q % B;
      assert m == (q / B) * (B * p) + (p * (q % B) + m % p) by { assert p * (B * (q / B) + q % B) == (q / B) * (B * p) + p * (q % B); }
      MulMono(p, q % B, B - 1);
      MulMono(p, 0, q % B);
      assert p * (B - 1) == B * p - p;
      RemainderIs(m, B * p, q / B, p * (q % B) + m % p);
    }
  }

  lemma RowWhole(m: nat, n: nat)
    requires m < Pow(n)
    ensures Val(Row(m, n)) == m
  {
    RowVal(m, n, n);
    assert Row(m, n)[..n] == Row(m, n);
    SmallModulus(m, Pow(n));
  }
}
