/**
 Arithmetic modulo the primes of the number-theoretic transform in qjs/libbf.c: products reduced
 by a precomputed inverse, some of them only below twice the modulus.
 */
module NttArithmetic {
  import opened Limbs
  import opened WordDivision
  import opened DecimalLimbs

  // ---- congruences ----

  predicate Cong(a: int, b: int, m: int)
    requires m > 0
  {
    (a - b) % m == 0
  }

  lemma CongIntro(a: int, b: int, m: int, t: int)
    requires m > 0 && a - b == m * t
    ensures Cong(a, b, m)
  {
    var q := (a - b) / m;
    assert q * m + (a - b) % m == t * m + 0;
    QuotientUnique(q, (a - b) % m, t, 0, m);
  }

  lemma CongElim(a: int, b: int, m: int) returns (t: int)
    requires m > 0 && Cong(a, b, m)
    ensures a - b == m * t
  {
    t := (a - b) / m;
  }

  lemma CongRefl(a: int, m: int)
    requires m > 0
    ensures Cong(a, a, m)
  {
    CongIntro(a, a, m, 0);
  }

  lemma CongSym(a: int, b: int, m: int)
    requires m > 0 && Cong(a, b, m)
    ensures Cong(b, a, m)
  {
    var t := CongElim(a, b, m);
    CongIntro(b, a, m, -t);
  }

  lemma CongTrans(a: int, b: int, c: int, m: int)
    requires m > 0 && Cong(a, b, m) && Cong(b, c, m)
    ensures Cong(a, c, m)
  {
    var t := CongElim(a, b, m);
    var u := CongElim(b, c, m);
    assert m * (t + u) == m * t + m * u;
    CongIntro(a, c, m, t + u);
  }

  lemma CongAdd(a: int, b: int, c: int, d: int, m: int)
    requires m > 0 && Cong(a, b, m) && Cong(c, d, m)
    ensures Cong(a + c, b + d, m) && Cong(a - c, b - d, m)
  {
    var t := CongElim(a, b, m);
    var u := CongElim(c, d, m);
    assert m * (t + u) == m * t + m * u && m * (t - u) == m * t - m * u;
    CongIntro(a + c, b + d, m, t + u);
    CongIntro(a - c, b - d, m, t - u);
  }

  lemma CongMul(a: int, b: int, c: int, d: int, m: int)
    requires m > 0 && Cong(a, b, m) && Cong(c, d, m)
    ensures Cong(a * c, b * d, m)
  {
    var t := CongElim(a, b, m);
    var u := CongElim(c, d, m);
    assert a * c - b * d == m * (t * c + b * u) by {
      assert a * c - b * d == (a - b) * c + b * (c - d);
      assert (m * t) * c + b * (m * u) == m * (t * c + b * u);
    }
    CongIntro(a * c, b * d, m, t * c + b * u);
  }

  // ---- reduction ----

  /** NTT_MOD_LOG2_MIN and NTT_MOD_LOG2_MAX */
  const ModMin: int := 0x2000_0000_0000_0000
  const ModMax: int := 0x4000_0000_0000_0000

  predicate IsModulus(m: int) {
    ModMin < m < ModMax
  }

  /** add_mod for a modulus of at most 63 bits */
  function AddMod(a: Limb, b: Limb, m: Limb): (r: Limb)
    requires a < m <= HALF && b < m
    ensures r < m && Cong(r, B * 0 + a + b, m)
  {
    var r := WrapAdd(a, b);
    CongIntro(B * 0 + a + b, B * 0 + a + b, m, 0);
    CongIntro(B * 0 + a + b - m, B * 0 + a + b, m, -1);
    if r >= m then r - m else r
  }

  /** sub_mod */
  function SubMod(a: Limb, b: Limb, m: Limb): (r: Limb)
    requires a < m && b < m
    ensures r < m && Cong(r, B * 0 + a - b, m)
  {
    var r := WrapSub(a, b);
    CongIntro(B * 0 + a - b, B * 0 + a - b, m, 0);
    CongIntro(B * 0 + a - b + m, B * 0 + a - b, m, 1);
    if r > a then WrapAdd(r, m) else r
  }

  /** init_mul_mod_fast: floor(2^125 / m) */
  function ModInverse(m: int): (v: Limb)
    requires IsModulus(m)
    ensures v * m <= B * ModMin < v * m + m
  {
    var v := (B * ModMin) / m;
    assert B * ModMin == v * m + (B * ModMin) % m;
    assert 0 <= v < B by {
      if v >= B { MulMono(m, B, v); assert false; }
      if v < 0 { MulMono(m, v, -1); assert false; }
    }
    v
  }

  /** The estimated quotient is at most two short. */
  lemma EstimateMod(r: int, m: int, v: int, a1: int, q: int)
    requires IsModulus(m) && 0 <= r < B * ModMin && v * m <= B * ModMin < v * m + m && 0 <= v
    requires a1 == r / ModMin && q == (a1 * v) / B
    ensures 0 <= q && 0 <= r - q * m < 3 * m
  {
    assert 0 <= a1 < B && a1 * ModMin <= r < a1 * ModMin + ModMin;
    MulMono(a1, 0, v);
    assert q * B <= a1 * v < q * B + B;
    EstimateLow(m, v, a1, q);
    EstimateHigh(m, v, a1, q);
  }

  lemma EstimateLow(m: int, v: int, a1: int, q: int)
    requires m > 0 && 0 <= a1 && v * m <= B * ModMin && q * B <= a1 * v
    ensures q * m <= a1 * ModMin
  {
    MulMono(m, q * B, a1 * v);
    MulMono(a1, v * m, B * ModMin);
    assert m * (q * B) == B * (q * m) && m * (a1 * v) == a1 * (v * m);
  }

  lemma EstimateHigh(m: int, v: int, a1: int, q: int)
    requires m > 0 && 0 <= a1 < B && B * ModMin < v * m + m && a1 * v < q * B + B
    ensures a1 * ModMin - q * m < 2 * m
  {
    MulMono(m, a1 * v, q * B + B - 1);
    MulMono(a1, B * ModMin - m + 1, v * m);
    MulMono(m, a1, B - 1);
    assert m * (q * B + B - 1) == B * (q * m) + B * m - m && m * (a1 * v) == a1 * (v * m);
    assert a1 * (B * ModMin - m + 1) == B * (a1 * ModMin) - m * a1 + a1;
  }

  /** mod_fast: r mod m for r below 2^125. */
  function ModFast(r: int, m: int, v: Limb): (x: Limb)
    requires IsModulus(m) && 0 <= r < B * ModMin && v * m <= B * ModMin < v * m + m
    ensures x < m && Cong(x, r, m)
  {
    var a1 := r / ModMin;
    var q := (a1 * v) / B;
    EstimateMod(r, m, v, a1, q);
    var x := SettleMod(r - q * m - 2 * m, m);
    ModResult(r, q, m, x);
    x
  }

  /** With two moduli taken off, a first mask for a negative value and a second one bring it into range. */
  function SettleMod(d: int, m: int): (x: Limb)
    requires IsModulus(m) && -2 * m <= d < m
    ensures x < m && (x == d || x == d + m || x == d + 2 * m)
  {
    ModWraps(d, m);
    var e := d % (B * B);
    var y := (e + Masked(Sar1(e / B), m)) % (B * B);
    WrapAdd(y % B, Masked(y / B, m))
  }

  /** How the two masks come out. */
  lemma ModWraps(d: int, m: int)
    requires IsModulus(m) && -2 * m <= d < m
    ensures var x := d % (B * B);
            && Sar1(x / B) == (if d < 0 then B - 1 else 0)
            && var y := (x + Masked(Sar1(x / B), m)) % (B * B);
            var e := if d < 0 then d + m else d;
            y / B == (if e < 0 then B - 1 else 0) && y % B == (if e < 0 then e + B else e)
  {
    var x := d % (B * B);
    var e := if d < 0 then d + m else d;
    assert x == if d < 0 then d + B * B else d;
    var y := (x + Masked(Sar1(x / B), m)) % (B * B);
    assert y == if e < 0 then e + B * B else e;
  }

  lemma ModResult(r: int, q: int, m: int, x: int)
    requires m > 0 && (x == r - q * m || x == r - q * m - m || x == r - q * m - 2 * m)
    ensures Cong(x, r, m)
  {
    assert m * (-q) == -(q * m) && m * (-q - 1) == -(q * m) - m && m * (-q - 2) == -(q * m) - 2 * m;
    CongIntro(x, r, m, if x == r - q * m then -q else if x == r - q * m - m then -q - 1 else -q - 2);
  }

  /** init_mul_mod_fast2: floor(b * 2^64 / m) */
  function ConstInverse(b: Limb, m: int): (v: Limb)
    requires IsModulus(m) && b < m
    ensures v * m <= b * B < v * m + m
  {
    var v := (b * B) / m;
    assert b * B == v * m + (b * B) % m;
    assert 0 <= v < B by {
      if v >= B { MulMono(m, B, v); assert false; }
      if v < 0 { MulMono(m, v, -1); assert false; }
    }
    v
  }

  /** mul_mod_fast3: a * b mod m, or that plus m. */
  function MulModFast3(a: Limb, b: Limb, m: int, v: Limb): (x: Limb)
    requires IsModulus(m) && b < m && v * m <= b * B < v * m + m
    ensures x < 2 * m && Cong(x, a * b, m)
  {
    var q := (a * v) / B;
    assert a * v >= 0 by { MulMono(a, 0, v); }
    assert q * B <= a * v < q * B + B;
    ConstLow(a, b, m, v, q);
    ConstHigh(a, b, m, v, q);
    var x := (a * b - q * m) % B;
    CongIntro(a * b - q * m, a * b, m, -q);
    x
  }

  lemma ConstLow(a: int, b: int, m: int, v: int, q: int)
    requires m > 0 && 0 <= a && v * m <= b * B && q * B <= a * v
    ensures q * m <= a * b
  {
    MulMono(m, q * B, a * v);
    MulMono(a, v * m, b * B);
    assert m * (q * B) == B * (q * m) && m * (a * v) == a * (v * m) && a * (b * B) == B * (a * b);
  }

  lemma ConstHigh(a: int, b: int, m: int, v: int, q: int)
    requires m > 0 && 0 <= a < B && b * B < v * m + m && a * v < q * B + B
    ensures a * b - q * m < 2 * m && m * (-q) == -(q * m)
  {
    MulMono(m, a * v, q * B + B - 1);
    MulMono(a, b * B - m + 1, v * m);
    MulMono(m, a, B - 1);
    assert m * (q * B + B - 1) == B * (q * m) + B * m - m && m * (a * v) == a * (v * m);
    assert a * (b * B - m + 1) == B * (a * b) - m * a + a;
  }

  /** mul_mod_fast2: a * b mod m. */
  function MulModFast2(a: Limb, b: Limb, m: int, v: Limb): (x: Limb)
    requires IsModulus(m) && b < m && v * m <= b * B < v * m + m
    ensures x < m && Cong(x, a * b, m)
  {
    var x := MulModFast3(a, b, m, v);
    CongIntro(x - m, x, m, -1);
    if x >= m then CongTrans(x - m, x, a * b, m); x - m else x
  }

  /** mul_mod_fast, for a product below 2^125. */
  function MulModFast(a: Limb, b: Limb, m: int, v: Limb): (x: Limb)
    requires IsModulus(m) && a < m && b < 2 * m && v * m <= B * ModMin < v * m + m
    ensures x < m && Cong(x, a * b, m)
  {
    ProductSmall(a, b, m);
    ModFast(a * b, m, v)
  }

  lemma ProductSmall(a: int, b: int, m: int)
    requires IsModulus(m) && 0 <= a < m && 0 <= b < 2 * m
    ensures 0 <= a * b < B * ModMin
  {
    MulMono(a, b, 2 * ModMax);
    MulMono(2 * ModMax, a, ModMax - 1);
    MulMono(a, 0, b);
  }
}
