/**
 The Karatsuba square root of qjs/libbf.c: mp_sqrtrem1 on one limb (table seed and two
 refinements), mp_sqrtrem2 on two limbs and the recursive mp_sqrtrem_rec.
 */
module SquareRoot {
  import opened Limbs
  import opened LimbKernels
  import opened Multiplication
  import opened Division
  import opened Reciprocal
  import opened NewtonTheory

  /** s is the integer square root of a, and r the remainder. */
  ghost predicate IsRoot(a: int, s: int, r: int) {
    a == s * s + r && 0 <= r <= 2 * s
  }

  lemma SquareLe(x: int, y: int)
    requires 0 <= x <= y
    ensures x * x <= y * y
  {
    MulMono(x, x, y);
    MulMono(y, x, y);
  }

  /** Roots are bracketed by the squares around them. */
  lemma RootRange(a: int, s: int, r: int, lo: int, hi: int)
    requires IsRoot(a, s, r) && 0 <= s && 0 <= lo && 0 <= hi && lo * lo <= a < hi * hi
    ensures lo <= s < hi
  {
    assert a < (s + 1) * (s + 1);
    if s < lo {
      SquareLe(s + 1, lo);
    }
    if hi <= s {
      SquareLe(hi, s);
    }
  }

  /** There is only one integer square root. */
  lemma RootUnique(a: int, s: int, r: int, s': int, r': int)
    requires IsRoot(a, s, r) && IsRoot(a, s', r') && 0 <= s && 0 <= s'
    ensures s == s' && r == r'
  {
    assert a < (s + 1) * (s + 1) && a < (s' + 1) * (s' + 1);
    if s < s' {
      SquareLe(s + 1, s');
    }
    if s' < s {
      SquareLe(s' + 1, s);
    }
  }

  /** s and r before the final correction: either right, or s is one too large. */
  ghost predicate AfterStep(a: int, s: int, r: int) {
    if r >= 0 then IsRoot(a, s, r) else IsRoot(a, s - 1, r + 2 * (s - 1) + 1)
  }

  lemma DivMod(x: int, m: int)
    requires 0 < m
    ensures x == m * (x / m) + x % m && 0 <= x % m < m
  {
  }

  /**
   One Karatsuba step.  hi = s1^2 + r1 is the upper half; dividing the remainder, extended by
   the digit a1, by 2 * s1 gives the next digit q of the root, at most one too large.
   */
  lemma KaratsubaStep(d: int, s1: int, r1: int, a1: int, a0: int, q: int, u: int)
    requires d >= 1 && d <= 2 * s1 && 0 <= r1 <= 2 * s1 && 0 <= a1 < d && 0 <= a0 < d
    requires r1 * d + a1 == (2 * s1) * q + u && 0 <= u < 2 * s1
    ensures 0 <= q <= d
    ensures AfterStep(((s1 * s1 + r1) * d + a1) * d + a0, s1 * d + q, u * d + a0 - q * q)
  {
    DigitRange(d, s1, r1, a1, q, u);
    StepIdentity(d, s1, r1, a1, a0, q, u);
    ResidueRange(d, s1, a0, q, u);
    var s := s1 * d + q;
    assert (s - 1) * (s - 1) == s * s - 2 * s + 1;
  }

  lemma ResidueRange(d: int, s1: int, a0: int, q: int, u: int)
    requires 1 <= d <= 2 * s1 && 0 <= a0 < d && 0 <= q <= d && 0 <= u < 2 * s1
    ensures -(d * d) <= u * d + a0 - q * q <= 2 * (s1 * d)
    ensures u * d + a0 - q * q + 2 * (s1 * d + q) - 1 >= 0
  {
    SquareLe(q, d);
    MulMono(d, d, 2 * s1);
    MulMono(d, 0, u);
    MulMono(d, u, 2 * s1 - 1);
    assert d * (2 * s1) == 2 * (s1 * d);
    assert d * (2 * s1 - 1) == 2 * (s1 * d) - d;
    assert q * q >= 0;
  }

  lemma DigitRange(d: int, s1: int, r1: int, a1: int, q: int, u: int)
    requires d >= 1 && 0 < s1 && 0 <= r1 <= 2 * s1 && 0 <= a1 < d && d <= 2 * s1
    requires r1 * d + a1 == (2 * s1) * q + u && 0 <= u < 2 * s1
    ensures 0 <= q <= d
  {
    DigitArith(d, 2 * s1, r1, a1, q, u);
  }

  lemma DigitArith(d: int, t: int, r1: int, a1: int, q: int, u: int)
    requires d >= 1 && 0 < t && 0 <= r1 <= t && 0 <= a1 < d && d <= t && r1 * d + a1 == t * q + u && 0 <= u < t
    ensures 0 <= q <= d
  {
    MulMono(d, 0, r1);
    MulMono(d, r1, t);
    if q < 0 {
      MulMono(t, q, -1);
      assert false;
    }
    MulSum(t, d, 1);
    if q > d {
      MulMono(t, d + 1, q);
      assert false;
    }
  }

  lemma StepIdentity(d: int, s1: int, r1: int, a1: int, a0: int, q: int, u: int)
    requires r1 * d + a1 == (2 * s1) * q + u
    ensures ((s1 * s1 + r1) * d + a1) * d + a0 == (s1 * d + q) * (s1 * d + q) + (u * d + a0 - q * q)
  {
    var e := s1 * d;
    assert (e + q) * (e + q) == e * e + 2 * (e * q) + q * q;
    assert (s1 * s1 + r1) * d == (s1 * s1) * d + r1 * d;
    assert ((s1 * s1) * d) * d == e * e;
    assert ((2 * s1) * q) * d == 2 * (e * q);
    assert (((2 * s1) * q) + u) * d == ((2 * s1) * q) * d + u * d;
    assert ((s1 * s1) * d + (r1 * d + a1)) * d == ((s1 * s1) * d) * d + (r1 * d + a1) * d;
  }

  // ---- one limb ----

  /** sqrt_table, sixteen entries at a time: roots of the 8-bit prefixes 64..255, to 8 bits. */
  function SqrtRow(row: nat): seq<int> {
    match row
    case 0 => [128, 128, 129, 130, 131, 132, 133, 134, 135, 136, 137, 138, 139, 140, 141, 142]
    case 1 => [143, 144, 144, 145, 146, 147, 148, 149, 150, 150, 151, 152, 153, 154, 155, 155]
    case 2 => [156, 157, 158, 159, 160, 160, 161, 162, 163, 163, 164, 165, 166, 167, 167, 168]
    case 3 => [169, 170, 170, 171, 172, 173, 173, 174, 175, 176, 176, 177, 178, 178, 179, 180]
    case 4 => [181, 181, 182, 183, 183, 184, 185, 185, 186, 187, 187, 188, 189, 189, 190, 191]
    case 5 => [192, 192, 193, 193, 194, 195, 195, 196, 197, 197, 198, 199, 199, 200, 201, 201]
    case 6 => [202, 203, 203, 204, 204, 205, 206, 206, 207, 208, 208, 209, 209, 210, 211, 211]
    case 7 => [212, 212, 213, 214, 214, 215, 215, 216, 217, 217, 218, 218, 219, 219, 220, 221]
    case 8 => [221, 222, 222, 223, 224, 224, 225, 225, 226, 226, 227, 227, 228, 229, 229, 230]
    case 9 => [230, 231, 231, 232, 232, 233, 234, 234, 235, 235, 236, 236, 237, 237, 238, 238]
    case 10 => [239, 240, 240, 241, 241, 242, 242, 243, 243, 244, 244, 245, 245, 246, 246, 247]
    case _ => [247, 248, 248, 249, 249, 250, 250, 251, 251, 252, 252, 253, 253, 254, 254, 255]
  }

  /** An entry is the root of prefix * 256, so at most one short for any 16-bit extension. */
  predicate GoodEntry(i: int, s: int) {
    128 <= s <= 255 && s * s <= (i + 64) * 256 && (i + 64) * 256 + 255 < (s + 2) * (s + 2)
  }

  lemma RowGoodA(row: nat, k: nat)
    requires 0 <= row < 2 && k < 16
    ensures |SqrtRow(row)| == 16 && GoodEntry(16 * row + k, SqrtRow(row)[k])
  {
  }

  lemma RowGoodB(row: nat, k: nat)
    requires 2 <= row < 4 && k < 16
    ensures |SqrtRow(row)| == 16 && GoodEntry(16 * row + k, SqrtRow(row)[k])
  {
  }

  lemma RowGoodC(row: nat, k: nat)
    requires 4 <= row < 6 && k < 16
    ensures |SqrtRow(row)| == 16 && GoodEntry(16 * row + k, SqrtRow(row)[k])
  {
  }

  lemma RowGoodD(row: nat, k: nat)
    requires 6 <= row < 8 && k < 16
    ensures |SqrtRow(row)| == 16 && GoodEntry(16 * row + k, SqrtRow(row)[k])
  {
  }

  lemma RowGoodE(row: nat, k: nat)
    requires 8 <= row < 10 && k < 16
    ensures |SqrtRow(row)| == 16 && GoodEntry(16 * row + k, SqrtRow(row)[k])
  {
  }

  lemma RowGoodF(row: nat, k: nat)
    requires 10 <= row < 12 && k < 16
    ensures |SqrtRow(row)| == 16 && GoodEntry(16 * row + k, SqrtRow(row)[k])
  {
  }

  lemma RowGood(row: nat, k: nat)
    requires row < 12 && k < 16
    ensures |SqrtRow(row)| == 16 && GoodEntry(16 * row + k, SqrtRow(row)[k])
  {
    hide SqrtRow, GoodEntry;
    match row / 2 {
      case 0 => RowGoodA(row, k);
      case 1 => RowGoodB(row, k);
      case 2 => RowGoodC(row, k);
      case 3 => RowGoodD(row, k);
      case 4 => RowGoodE(row, k);
      case _ => RowGoodF(row, k);
    }
  }

  function SqrtSeed(i: nat): (s: int)
    requires i < 192
    ensures GoodEntry(i, s)
  {
    RowGood(i / 16, i % 16);
    SqrtRow(i / 16)[i % 16]
  }

  const TWO8: int := 0x100
  const TWO16: int := 0x1_0000
  const TWO32: int := 0x1_0000_0000
  const TWO48: int := 0x1_0000_0000_0000

  /** A root of at least d / 2, as the normalisation of the operand guarantees. */
  ghost predicate Seedable(d: int, s1: int, r1: int) {
    d <= 2 * s1 && s1 < d && 0 <= r1 <= 2 * s1
  }

  /** One refinement of mp_sqrtrem1: from 2k to 4k bits, d being 2^k.  `x << k | y` is x * d + y here. */
  method Refine(d: int, s1: int, r1: int, a1: int, a0: int, ghost a: int) returns (s: Limb, r: Limb)
    requires (d == TWO8 || d == TWO16) && Seedable(d, s1, r1) && 0 <= a1 < d && 0 <= a0 < d
    requires a == ((s1 * s1 + r1) * d + a1) * d + a0
    ensures IsRoot(a, s, r)
  {
    hide IsRoot, AfterStep;
    var num := r1 * d + a1;
    DivMod(num, 2 * s1);
    var q, u := num / (2 * s1), num % (2 * s1);
    RefineFacts(d, s1, r1, a1, a0, q, u);
    s, r := Settle(s1 * d + q, u * d + a0, q * q, a);
  }

  /** The correction: the remainder, read as a signed limb, may be negative. */
  method Settle(s0: Limb, u: Limb, qq: Limb, ghost a: int) returns (s: Limb, r: Limb)
    requires 1 <= s0 <= TWO32 && u <= 2 * TWO32 && qq <= TWO32 && AfterStep(a, s0, u as int - qq as int)
    ensures IsRoot(a, s, r)
  {
    s := s0;
    r := WrapSub(u, qq);
    if r >= HALF {
      s := s - 1;
      r := WrapAdd(r, 2 * s + 1);
    }
  }

  /** Every intermediate value of a refinement fits its limb. */
  lemma RefineFacts(d: int, s1: int, r1: int, a1: int, a0: int, q: int, u: int)
    requires 1 <= d <= TWO16 && Seedable(d, s1, r1) && 0 <= a1 < d && 0 <= a0 < d
    requires r1 * d + a1 == (2 * s1) * q + u && 0 <= u < 2 * s1
    ensures 0 <= q * q <= TWO32 && 0 <= u * d + a0 <= 2 * TWO32 && 1 <= s1 * d + q <= TWO32
    ensures AfterStep(((s1 * s1 + r1) * d + a1) * d + a0, s1 * d + q, u * d + a0 - q * q)
  {
    hide IsRoot;
    KaratsubaStep(d, s1, r1, a1, a0, q, u);
    RefineSizes(d, s1, a0, q, u);
  }

  lemma RefineSizes(d: int, s1: int, a0: int, q: int, u: int)
    requires 1 <= d <= TWO16 && d <= 2 * s1 && s1 < d && 0 <= a0 < d && 0 <= q <= d && 0 <= u < 2 * s1
    ensures 0 <= q * q <= TWO32 && 0 <= u * d + a0 <= 2 * TWO32 && 1 <= s1 * d + q <= TWO32
  {
    SquareLe(q, d);
    SquareLe(d, TWO16);
    MulMono(d, s1, d - 1);
    MulMono(d, 1, s1);
    MulMono(d, u, 2 * d - 1);
    MulMono(d, 0, u);
    assert d * (2 * d - 1) == 2 * (d * d) - d;
    assert d * (d - 1) == d * d - d;
  }

  /** mp_sqrtrem1: the root of one limb with one of its two top bits set. */
  method MpSqrtRem1(a: Limb) returns (s: Limb, r: Limb)
    requires a >= HALF / 2
    ensures IsRoot(a, s, r) && TWO32 / 2 <= s < TWO32
  {
    hide IsRoot, GoodEntry;
    PrefixDigits(a);
    s, r := SeedRoot(a / TWO48);
    SeedableRoot(a / TWO48, s, r, TWO8);
    s, r := Refine(TWO8, s, r, (a / (TWO32 * TWO8)) % TWO8, (a / TWO32) % TWO8, a / TWO32);
    SeedableRoot(a / TWO32, s, r, TWO16);
    s, r := Refine(TWO16, s, r, (a / TWO16) % TWO16, a % TWO16, a);
    SeedableRoot(a, s, r, TWO32);
  }

  /** The 16-bit root from the table. */
  method SeedRoot(x: int) returns (s: Limb, r: Limb)
    requires 0x4000 <= x < 0x1_0000
    ensures IsRoot(x, s, r)
  {
    hide IsRoot, GoodEntry;
    var s1 := SqrtSeed(x / 256 - 64);
    var r1 := x - s1 * s1;
    SeedClose(x, s1);
    if r1 > 2 * s1 {
      r1 := r1 - (2 * s1 + 1);
      s1 := s1 + 1;
    }
    s, r := s1, r1;
  }

  lemma PrefixDigits(a: int)
    requires HALF / 2 <= a < B
    ensures 0x4000 <= a / TWO48 < TWO16 && TWO32 / 4 <= a / TWO32 < TWO32
    ensures a / TWO32 == ((a / TWO48) * TWO8 + (a / (TWO32 * TWO8)) % TWO8) * TWO8 + (a / TWO32) % TWO8
    ensures a == ((a / TWO32) * TWO16 + (a / TWO16) % TWO16) * TWO16 + a % TWO16
  {
  }

  /** The root of a 2k-bit number with one of its two top bits set has k bits, the top one set. */
  lemma SeedableRoot(a: int, s: int, r: int, d: int)
    requires IsRoot(a, s, r) && 0 <= s && (d == TWO8 || d == TWO16 || d == TWO32) && d * d <= 4 * a && a < d * d
    ensures Seedable(d, s, r) && a == s * s + r
  {
    RootRange(a, s, r, d / 2, d);
  }

  /** The table seed is the root of the 16-bit prefix or one short. */
  lemma SeedClose(x: int, s: int)
    requires 0x4000 <= x < 0x1_0000 && GoodEntry(x / 256 - 64, s)
    ensures var r := x - s * s;
            0 <= r < B && 0 <= s < 256 && if r > 2 * s then IsRoot(x, s + 1, r - (2 * s + 1)) else IsRoot(x, s, r)
  {
    assert (s + 1) * (s + 1) == s * s + 2 * s + 1;
    assert (s + 2) * (s + 2) == s * s + 4 * s + 4;
  }

  // ---- two limbs ----

  /** mp_sqrtrem2: the root of two limbs; q = 2^32 needs its own case because q * q would wrap. */
  method MpSqrtRem2(tabs: array<Limb>, so: nat, taba: array<Limb>, ao: nat) returns (rh: Limb)
    requires tabs != taba && so < tabs.Length && ao + 2 <= taba.Length && taba[ao + 1] >= HALF / 2
    modifies tabs, taba
    ensures OnlyWithin(tabs, so, so + 1) && OnlyWithin(taba, ao, ao + 1)
    ensures rh <= 1
    ensures IsRoot(old(taba[ao + 1] * B + taba[ao]), tabs[so], taba[ao] + B * rh)
  {
    hide IsRoot, AfterStep;
    var a0, a1 := taba[ao], taba[ao + 1];
    var s1, r1 := MpSqrtRem1(a1);
    SeedableRoot(a1, s1, r1, TWO32);
    var num := r1 * TWO32 + a0 / TWO32;
    DivMod(num, 2 * s1);
    var q, u := num / (2 * s1), num % (2 * s1);
    KaratsubaStep(TWO32, s1, r1, a0 / TWO32, a0 % TWO32, q, u);
    ghost var a := a1 * B + a0;
    assert ((s1 * s1 + r1) * TWO32 + a0 / TWO32) * TWO32 + a0 % TWO32 == a;
    SpecialSquare(q);
    var qq := if q / TWO32 != 0 then B else q * q;
    var s, r := SettleWide(s1 * TWO32, q, u * TWO32 + a0 % TWO32, qq, a);
    tabs[so] := s;
    taba[ao] := r % B;
    rh := r / B;
  }

  /** The correction on a double-limb remainder that wraps at B * B. */
  method SettleWide(base: int, q: int, u: int, qq: int, ghost a: int) returns (s: Limb, r: int)
    requires 0 <= base <= B - TWO32 && 0 <= q <= TWO32 && 0 <= u < 2 * B && 0 <= a < B * B && 0 <= qq <= B
    requires AfterStep(a, base + q, u - qq)
    ensures IsRoot(a, s, r) && 0 <= r < 2 * B
  {
    SettleFacts(a, base + q, u - qq);
    hide IsRoot, AfterStep;
    s := WrapAdd(base, q);
    RootLimb(base, q);
    ghost var d := u - qq;
    r := (u - qq) % (B * B);
    WrapsNegative(d);
    if r / B >= HALF {
      assert d < 0;
      s := WrapSub(s, 1);
      WrapsBack(d, s);
      r := (r + 2 * s + 1) % (B * B);
      assert s == base + q - 1 && r == d + 2 * s + 1;
    } else {
      assert d >= 0 && r == d && s == base + q;
    }
  }

  lemma RootLimb(base: int, q: int)
    requires 0 <= base < B && 0 <= q && base + q <= B && q < B
    ensures var s := WrapAdd(base as Limb, q as Limb);
            (base + q < B ==> s == base + q) && (base + q >= 1 ==> WrapSub(s, 1) == base + q - 1)
  {
  }

  /** Adding 2s + 1 to a negative remainder kept modulo B * B. */
  lemma WrapsBack(r: int, s: int)
    requires -B <= r < 0 && 0 <= s < B && 0 <= r + 2 * s + 1 < 2 * B
    ensures (r % (B * B) + 2 * s + 1) % (B * B) == r + 2 * s + 1
  {
    assert r % (B * B) == r + B * B;
  }

  /** q * q fits a limb except for q = 2^32, where it is B. */
  lemma SpecialSquare(q: int)
    requires 0 <= q <= TWO32
    ensures 0 <= q * q <= B && (q / TWO32 != 0 ==> q * q == B) && (q / TWO32 == 0 ==> q * q < B)
  {
    SquareLe(q, TWO32);
    if q < TWO32 {
      SquareLe(q, TWO32 - 1);
    }
  }

  lemma SettleFacts(a: int, s: int, r: int)
    requires AfterStep(a, s, r) && 0 <= a < B * B && 0 <= s <= B
    ensures r >= 0 ==> s < B && r <= 2 * s && IsRoot(a, s, r)
    ensures r < 0 ==> 1 <= s && 0 <= r + 2 * (s - 1) + 1 < 2 * B && IsRoot(a, s - 1, r + 2 * (s - 1) + 1)
  {
    if r >= 0 {
      RootRange(a, s, r, 0, B);
    }
  }

  lemma WrapsNegative(r: int)
    requires -B <= r < 2 * B
    ensures var w := r % (B * B); if r >= 0 then w == r && w / B < 2 else w == r + B * B && w / B >= HALF
  {
    var w := if r >= 0 then r else r + B * B;
    assert r % (B * B) == w;
  }

  // ---- any number of limbs ----

  /** The remainder with its high bit, as mp_sqrtrem_rec passes it around. */
  ghost function WithHigh(low: seq<Limb>, high: int): int {
    Val(low) + high * Pow(|low|)
  }

  /** The first subtraction of mp_sqrtrem_rec: when the remainder has a high bit, take s1 off so that it fits. */
  method ReduceRemainder(taba: array<Limb>, ro: nat, tabs: array<Limb>, xo: nat, h: nat, qh: Limb)
    requires taba != tabs && ro + h <= taba.Length && xo + h <= tabs.Length && qh <= 1
    requires WithHigh(taba[ro..ro + h], qh) <= 2 * Val(tabs[xo..xo + h])
    modifies taba
    ensures OnlyWithin(taba, ro, ro + h)
    ensures Val(taba[ro..ro + h]) == old(WithHigh(taba[ro..ro + h], qh)) - qh * Val(tabs[xo..xo + h])
  {
    hide Val, Pow;
    if qh != 0 {
      var k := MpSub(taba, ro, taba, ro, tabs, xo, h, 0);
      ValBound(tabs[xo..xo + h]);
      ValBound(taba[ro..ro + h]);
      assert k == 1;
    }
  }

  /** (Val(tmp) + qh * L) / 2: move the quotient to the root and halve it. */
  method HalveQuotient(tabs: array<Limb>, so: nat, tmp: array<Limb>, l: nat, qh0: Limb) returns (qh: Limb, ql: Limb)
    requires tabs != tmp && so + l <= tabs.Length && l < tmp.Length && qh0 <= 1 && tmp[l] <= 1
    modifies tabs
    ensures OnlyWithin(tabs, so, so + l)
    ensures qh <= 1 && ql <= 1
    ensures 2 * WithHigh(tabs[so..so + l], qh) + ql == Val(tmp[..l + 1]) + qh0 * Pow(l)
  {
    hide Val, Pow;
    qh := WrapAdd(qh0, tmp[l]);
    assert tmp[..l + 1] == tmp[0..l] + [tmp[l]];
    ValSnoc(tmp[0..l], tmp[l]);
    ghost var total: int := qh;
    CopyLimbs(tabs, so, tmp, 0, l);
    ql := MpShr1(tabs, so, l, qh % 2);
    qh := qh / 2;
    Halved(Val(tabs[so..so + l]), ql, Val(tmp[0..l]), total, qh0, tmp[l], Pow(l));
  }

  lemma Halved(v: int, ql: int, t: int, total: int, q0: int, top: int, p: int)
    requires total == q0 + top && 2 * v + ql == t + (total % 2) * p
    ensures 2 * (v + (total / 2) * p) + ql == t + p * top + q0 * p
  {
    assert total * p == q0 * p + p * top;
    assert total * p == (2 * (total / 2) + total % 2) * p;
    assert (2 * (total / 2) + total % 2) * p == 2 * ((total / 2) * p) + (total % 2) * p;
  }

  /** q and u are quotient and remainder of r1 * d + a1 by twice the root. */
  ghost predicate IsRootDigit(r1: int, a1: int, d: int, s1: int, q: int, u: int) {
    r1 * d + a1 == (2 * s1) * q + u && 0 <= u < 2 * s1
  }

  /** Divide r1 * L + a1, less qh0 * s1 * L, by s1: the quotient goes to tmp, the remainder to taba + l. */
  method DivideByRoot(tabs: array<Limb>, xo: nat, taba: array<Limb>, ao: nat, tmp: array<Limb>, l: nat, h: nat, qh0: Limb,
                      ghost r1: int, ghost a1: int)
    requires tabs != taba && tabs != tmp && taba != tmp && 1 <= l <= h
    requires xo + h <= tabs.Length && ao + 2 * l + h <= taba.Length && l < tmp.Length
    requires Normalised(tabs[xo..xo + h]) && qh0 <= 1
    requires r1 == WithHigh(taba[ao + 2 * l..ao + 2 * l + h], qh0) <= 2 * Val(tabs[xo..xo + h])
    requires a1 == Val(taba[ao + l..ao + 2 * l])
    modifies taba, tmp
    ensures OnlyWithin(taba, ao + l, ao + 2 * l + h)
    ensures tmp[l] <= 1
    ensures var s1 := Val(tabs[xo..xo + h]);
            IsDivision(a1 + Pow(l) * (r1 - qh0 * s1), s1, Val(tmp[..l + 1]), Val(taba[ao + l..ao + l + h]))
  {
    hide Val, Pow, WithHigh, IsDivision;
    ghost var s1 := Val(tabs[xo..xo + h]);
    ReduceAbove(tabs, xo, taba, ao + l, l, h, qh0, r1, a1);
    DivideWindow(tabs, xo, taba, ao + l, tmp, l, h, a1 + Pow(l) * (r1 - qh0 * s1));
  }

  /** The remainder reduced, together with the limbs below it. */
  method ReduceAbove(tabs: array<Limb>, xo: nat, taba: array<Limb>, wo: nat, l: nat, h: nat, qh0: Limb, ghost r1: int, ghost a1: int)
    requires tabs != taba && xo + h <= tabs.Length && wo + l + h <= taba.Length && qh0 <= 1
    requires r1 == WithHigh(taba[wo + l..wo + l + h], qh0) <= 2 * Val(tabs[xo..xo + h]) && a1 == Val(taba[wo..wo + l])
    modifies taba
    ensures OnlyWithin(taba, wo + l, wo + l + h)
    ensures Val(taba[wo..wo + (l + h)]) == a1 + Pow(l) * (r1 - qh0 * Val(tabs[xo..xo + h]))
  {
    hide Val, Pow, WithHigh;
    ghost var low: seq<Limb> := taba[wo..wo + l];
    ReduceRemainder(taba, wo + l, tabs, xo, h, qh0);
    ghost var rs: seq<Limb> := taba[wo + l..wo + l + h];
    assert taba[wo..wo + l] == low;
    assert taba[wo..wo + (l + h)] == low + rs;
    ValConcat(low, rs);
  }

  method DivideWindow(tabs: array<Limb>, xo: nat, taba: array<Limb>, wo: nat, tmp: array<Limb>, l: nat, h: nat, ghost x: int)
    requires tabs != taba && tabs != tmp && taba != tmp && 1 <= h
    requires xo + h <= tabs.Length && wo + l + h <= taba.Length && l < tmp.Length
    requires Normalised(tabs[xo..xo + h]) && x == Val(taba[wo..wo + (l + h)])
    modifies taba, tmp
    ensures OnlyWithin(taba, wo, wo + l + h)
    ensures tmp[l] <= 1 && IsDivision(x, Val(tabs[xo..xo + h]), Val(tmp[..l + 1]), Val(taba[wo..wo + h]))
  {
    hide Val, Pow, IsDivision;
    MpDivNorm(tmp, taba, wo, l + h, tabs, xo, h);
    assert l + h - h == l;
  }

  /** The quotient digit q and remainder u of (r1 * L + a1) by 2 * s1, found by dividing by s1. */
  method RootDigits(tabs: array<Limb>, so: nat, taba: array<Limb>, ao: nat, tmp: array<Limb>, l: nat, h: nat, qh0: Limb,
                    ghost r1: int, ghost a1: int)
    returns (qh: Limb, rh: Limb)
    requires tabs != taba && tabs != tmp && taba != tmp && 1 <= l <= h
    requires so + l + h <= tabs.Length && ao + 2 * l + h <= taba.Length && l < tmp.Length
    requires Normalised(tabs[so + l..so + l + h]) && qh0 <= 1
    requires r1 == WithHigh(taba[ao + 2 * l..ao + 2 * l + h], qh0) <= 2 * Val(tabs[so + l..so + l + h])
    requires a1 == Val(taba[ao + l..ao + 2 * l])
    modifies tabs, taba, tmp
    ensures OnlyWithin(tabs, so, so + l) && OnlyWithin(taba, ao + l, ao + 2 * l + h)
    ensures qh <= 1 && rh <= 1
    ensures IsRootDigit(r1, a1, Pow(l), Val(tabs[so + l..so + l + h]), WithHigh(tabs[so..so + l], qh), WithHigh(taba[ao + l..ao + l + h], rh))
  {
    hide Val, Pow, WithHigh, IsDivision, IsRootDigit;
    ghost var s1 := Val(tabs[so + l..so + l + h]);
    DivideByRoot(tabs, so + l, taba, ao, tmp, l, h, qh0, r1, a1);
    ghost var q1, r2 := Val(tmp[..l + 1]), Val(taba[ao + l..ao + l + h]);
    ghost var ql;
    qh, rh, ql := HalveDigits(tabs, so, taba, ao + l, tmp, l, h, qh0);
    DigitsValue(s1, r1, qh0, a1, Pow(l), q1, r2, WithHigh(tabs[so..so + l], qh), ql);
  }

  /** From the quotient by the root to the quotient by twice the root. */
  method HalveDigits(tabs: array<Limb>, so: nat, taba: array<Limb>, wo: nat, tmp: array<Limb>, l: nat, h: nat, qh0: Limb)
    returns (qh: Limb, rh: Limb, ghost odd: int)
    requires tabs != taba && tabs != tmp && taba != tmp
    requires so + l + h <= tabs.Length && wo + h <= taba.Length && l < tmp.Length && qh0 <= 1 && tmp[l] <= 1
    modifies tabs, taba
    ensures OnlyWithin(tabs, so, so + l) && OnlyWithin(taba, wo, wo + h)
    ensures tabs[so + l..so + l + h] == old(tabs[so + l..so + l + h])
    ensures qh <= 1 && rh <= 1 && 0 <= odd <= 1
    ensures 2 * WithHigh(tabs[so..so + l], qh) + odd == Val(tmp[..l + 1]) + qh0 * Pow(l)
    ensures WithHigh(taba[wo..wo + h], rh) == old(Val(taba[wo..wo + h])) + odd * Val(tabs[so + l..so + l + h])
  {
    hide Val, Pow, WithHigh;
    ghost var ss: seq<Limb> := tabs[so + l..so + l + h];
    var ql;
    qh, ql := HalveQuotient(tabs, so, tmp, l, qh0);
    assert tabs[so + l..so + l + h] == ss;
    odd := ql;
    rh := AddIfOdd(taba, wo, tabs, so + l, h, ql);
  }

  /** An odd quotient leaves a remainder larger by the root. */
  method AddIfOdd(taba: array<Limb>, wo: nat, tabs: array<Limb>, xo: nat, h: nat, ql: Limb) returns (rh: Limb)
    requires tabs != taba && xo + h <= tabs.Length && wo + h <= taba.Length && ql <= 1
    modifies taba
    ensures OnlyWithin(taba, wo, wo + h) && rh <= 1
    ensures WithHigh(taba[wo..wo + h], rh) == old(Val(taba[wo..wo + h])) + ql * Val(tabs[xo..xo + h])
  {
    hide Val, Pow;
    if ql != 0 {
      rh := MpAdd(taba, wo, taba, wo, tabs, xo, h, 0);
    } else {
      rh := 0;
    }
  }

  lemma DigitsValue(s1: int, r1: int, q0: int, a1: int, p: int, q1: int, r2: int, q: int, ql: int)
    requires IsDivision(a1 + p * (r1 - q0 * s1), s1, q1, r2) && 2 * q + ql == q1 + q0 * p && 0 <= ql <= 1
    ensures IsRootDigit(r1, a1, p, s1, q, r2 + ql * s1)
  {
    assert p * (r1 - q0 * s1) == r1 * p - (q0 * p) * s1;
    assert (q1 + q0 * p) * s1 == q1 * s1 + (q0 * p) * s1;
    assert (2 * q + ql) * s1 == (2 * s1) * q + ql * s1;
  }

  /** Subtract q * q from the remainder; q = L is handled as a one in limb 2l. */
  method SubtractSquare(tabs: array<Limb>, so: nat, taba: array<Limb>, ao: nat, l: nat, h: nat, qh: Limb, rh0: int)
    returns (rh: int)
    requires tabs != taba && 1 <= l <= h <= l + 1 && so + l <= tabs.Length && ao + 2 * (l + h) <= taba.Length
    requires qh <= 1 && (qh == 1 ==> Val(tabs[so..so + l]) == 0)
    modifies taba
    ensures OnlyWithin(taba, ao, ao + 2 * (l + h))
    ensures rh0 - 1 <= rh <= rh0
    ensures var q := WithHigh(tabs[so..so + l], qh);
            WithHigh(taba[ao..ao + l + h], rh) == old(WithHigh(taba[ao..ao + l + h], rh0)) - q * q
  {
    hide Val, Pow;
    var n := l + h;
    ghost var rs: seq<Limb>, q := taba[ao..ao + n], Val(tabs[so..so + l]);
    assert taba[ao..ao + 2 * l] == rs[..2 * l];
    var c := SubtractLow(tabs, so, taba, ao, l, n, qh);
    assert taba[ao + 2 * l..ao + 2 * l + (n - 2 * l)] == rs[2 * l..];
    ghost var low: seq<Limb> := taba[ao..ao + 2 * l];
    var k := MpSubUi(taba, ao + 2 * l, c, n - 2 * l);
    rh := rh0 - k;
    ghost var high: seq<Limb> := taba[ao + 2 * l..ao + n];
    PowAdd(l, l);
    assert taba[ao..ao + n] == low + high;
    ValConcat(low, high);
    ValSplit(rs, 2 * l);
    PowAdd(2 * l, n - 2 * l);
    SquareValue(Val(low), Val(high), c, k, Val(rs[..2 * l]), Val(rs[2 * l..]), q, qh, Pow(l), Pow(n - 2 * l), rh0);
  }

  /** The low 2l limbs of the subtraction, through the free part of the buffer; c is what the rest still owes. */
  method SubtractLow(tabs: array<Limb>, so: nat, taba: array<Limb>, ao: nat, l: nat, n: nat, qh: Limb) returns (c: Limb)
    requires tabs != taba && 1 <= l && 2 * l <= n && so + l <= tabs.Length && ao + 2 * n <= taba.Length && qh <= 1
    modifies taba
    ensures forall j :: 0 <= j < ao || ao + 2 * l <= j < ao + n || ao + 2 * n <= j < taba.Length ==> taba[j] == old(taba[j])
    ensures c <= 1 && (qh == 1 ==> c == 1 && Val(taba[ao..ao + 2 * l]) == old(Val(taba[ao..ao + 2 * l])))
    ensures qh == 0 ==> Val(taba[ao..ao + 2 * l]) - c * Pow(2 * l)
                        == old(Val(taba[ao..ao + 2 * l])) - Val(tabs[so..so + l]) * Val(tabs[so..so + l])
  {
    hide Val, Pow;
    if qh != 0 {
      c := qh;
    } else {
      ghost var low: seq<Limb> := taba[ao..ao + 2 * l];
      MpMul(taba, ao + n, tabs, so, l, tabs, so, l);
      assert taba[ao..ao + 2 * l] == low;
      assert taba[ao + n..ao + n + 2 * l] == taba[ao + n..ao + n + l + l];
      c := MpSub(taba, ao, taba, ao, taba, ao + n, 2 * l, 0);
    }
  }

  lemma SquareValue(low: int, high: int, c: int, k: int, low0: int, high0: int, q: int, qh: int, p: int, pt: int, rh0: int)
    requires 0 <= qh <= 1 && (qh == 1 ==> c == 1 && q == 0 && low == low0) && (qh == 0 ==> low - c * (p * p) == low0 - q * q)
    requires high - k * pt == high0 - c
    ensures (low + (p * p) * high) + (rh0 - k) * ((p * p) * pt)
            == (low0 + (p * p) * high0) + rh0 * ((p * p) * pt) - (q + qh * p) * (q + qh * p)
  {
    var w := p * p;
    assert w * (high - k * pt) == w * (high0 - c);
    assert w * (k * pt) == k * (w * pt);
    assert (rh0 - k) * (w * pt) == rh0 * (w * pt) - k * (w * pt);
    assert w * high - k * (w * pt) == w * high0 - c * w;
    if qh == 1 {
      assert (q + qh * p) * (q + qh * p) == w;
    } else {
      assert (q + qh * p) * (q + qh * p) == q * q;
    }
  }

  /** The last step: a negative remainder means the root is one too large. */
  method FixRoot(tabs: array<Limb>, so: nat, taba: array<Limb>, ao: nat, n: nat, rh0: int, ghost a: int, ghost s0: int)
    returns (rh: Limb)
    requires tabs != taba && 1 <= n && so + n <= tabs.Length && ao + n <= taba.Length && -1 <= rh0 <= 1
    requires 0 <= a < Pow(2 * n) && 0 <= s0 && Carried(s0, Val(tabs[so..so + n]), Pow(n))
    requires AfterStep(a, s0, WithHigh(taba[ao..ao + n], rh0))
    modifies tabs, taba
    ensures OnlyWithin(tabs, so, so + n) && OnlyWithin(taba, ao, ao + n)
    ensures rh <= 1 && IsRoot(a, Val(tabs[so..so + n]), WithHigh(taba[ao..ao + n], rh))
  {
    hide Val, Pow, IsRoot;
    ghost var p, r := Pow(n), WithHigh(taba[ao..ao + n], rh0);
    PowAdd(n, n);
    ValBound(tabs[so..so + n]);
    ValBound(taba[ao..ao + n]);
    FixFacts(a, s0, r, Val(tabs[so..so + n]), p, rh0, Val(taba[ao..ao + n]));
    if rh0 < 0 {
      ghost var stored := Val(tabs[so..so + n]);
      ghost var k;
      var c1, c2;
      c1, c2, k := StepBack(tabs, so, taba, ao, n);
      ValBound(tabs[so..so + n]);
      ghost var s := Val(tabs[so..so + n]);
      BorrowedRoot(s0, stored, s, k, p);
      ValBound(taba[ao..ao + n]);
      HighSum(Val(taba[ao..ao + n]), rh0, c1, c2, p);
      FixedHigh(Val(taba[ao..ao + n]), rh0, c1, c2, p, r + 2 * s + 1);
      rh := rh0 + c1 + c2;
    } else {
      rh := rh0;
    }
  }

  /** One less in the root, twice the new root and one more in the remainder. */
  method StepBack(tabs: array<Limb>, so: nat, taba: array<Limb>, ao: nat, n: nat) returns (c1: Limb, c2: Limb, ghost k: int)
    requires tabs != taba && 1 <= n && so + n <= tabs.Length && ao + n <= taba.Length
    modifies tabs, taba
    ensures OnlyWithin(tabs, so, so + n) && OnlyWithin(taba, ao, ao + n) && 0 <= k <= 1
    ensures Val(tabs[so..so + n]) - k * Pow(n) == old(Val(tabs[so..so + n])) - 1
    ensures Val(taba[ao..ao + n]) + c1 * Pow(n) + c2 * Pow(n) == old(Val(taba[ao..ao + n])) + 2 * Val(tabs[so..so + n]) + 1
  {
    hide Val, Pow;
    k := MpSubUi(tabs, so, 1, n);
    c1 := MpAddMul1(taba, ao, tabs, so, n, 2);
    c2 := MpAddUi(taba, ao, 1, n);
  }

  lemma HighSum(low: int, rh0: int, c1: int, c2: int, p: int)
    ensures low + (rh0 + c1 + c2) * p == (low + c1 * p + c2 * p) + rh0 * p
  {
  }

  /** The stored root is s0, up to a carry out of its n limbs. */
  ghost predicate Carried(s0: int, stored: int, p: int) {
    s0 == stored || s0 == stored + p
  }

  lemma FixFacts(a: int, s0: int, r: int, stored: int, p: int, rh0: int, low: int)
    requires AfterStep(a, s0, r) && 0 <= a < p * p && 0 <= s0 && Carried(s0, stored, p) && 0 <= stored < p
    requires r == low + rh0 * p && 0 <= low < p && -1 <= rh0 <= 1
    ensures rh0 < 0 <==> r < 0
    ensures r >= 0 ==> s0 == stored && IsRoot(a, s0, r)
    ensures r < 0 ==> 0 <= s0 - 1 < p && 0 <= r + 2 * (s0 - 1) + 1 <= 2 * (s0 - 1) && IsRoot(a, s0 - 1, r + 2 * (s0 - 1) + 1)
  {
    if rh0 == -1 {
      assert rh0 * p == -p;
    } else {
      MulMono(p, 0, rh0);
    }
    if r >= 0 {
      RootRange(a, s0, r, 0, p);
    } else {
      RootRange(a, s0 - 1, r + 2 * (s0 - 1) + 1, 0, p);
    }
  }

  lemma BorrowedRoot(s0: int, stored: int, s: int, k: int, p: int)
    requires Carried(s0, stored, p) && 0 <= stored < p && 0 <= s < p && s - k * p == stored - 1 && 0 <= k <= 1
    requires 0 <= s0 - 1 < p
    ensures s == s0 - 1
  {
    if k == 0 {
      assert k * p == 0;
    } else {
      assert k * p == p;
    }
  }

  lemma FixedHigh(low: int, rh0: int, c1: int, c2: int, p: int, r: int)
    requires 0 <= low < p && low + (rh0 + c1 + c2) * p == r && 0 <= r < 2 * p
    ensures 0 <= rh0 + c1 + c2 <= 1
  {
    var h := rh0 + c1 + c2;
    if h >= 2 {
      MulMono(p, 2, h);
    }
    if h <= -1 {
      MulMono(p, h, -1);
    }
  }

  /** s = s1 * L + q: the digit was stored below s1, and a q of L adds one to it. */
  lemma JoinRoot(low: seq<Limb>, high: int, high': int, qh: int, k: int, h: nat)
    requires 0 <= qh <= 1 && 0 <= k <= 1 && high' + k * Pow(h) == high + qh && 0 <= high
    ensures Carried(high * Pow(|low|) + WithHigh(low, qh), Val(low) + Pow(|low|) * high', Pow(|low| + h))
  {
    hide Val, Pow;
    var l := |low|;
    PowAdd(l, h);
    assert Pow(l) * (high' + k * Pow(h)) == Pow(l) * (high + qh);
    assert Pow(l) * (k * Pow(h)) == k * (Pow(l) * Pow(h));
    if k == 0 {
      assert k * Pow(l + h) == 0;
    }
  }

  /** a = (hi * L + a1) * L + a0. */
  lemma ThreeParts(s: seq<Limb>, l: nat)
    requires 2 * l <= |s|
    ensures Val(s) == (Val(s[2 * l..]) * Pow(l) + Val(s[l..2 * l])) * Pow(l) + Val(s[..l])
  {
    hide Val, Pow;
    ValSplit(s, l);
    ValSplit(s[l..], l);
    assert s[l..][..l] == s[l..2 * l] && s[l..][l..] == s[2 * l..];
    assert Pow(l) * (Val(s[l..2 * l]) + Pow(l) * Val(s[2 * l..])) == (Val(s[2 * l..]) * Pow(l) + Val(s[l..2 * l])) * Pow(l);
  }

  /** The root of a number with one of its two top bits set has its top bit set. */
  lemma RootNormalised(aLimbs: seq<Limb>, ss: seq<Limb>, r: int)
    requires |aLimbs| == 2 * |ss| && |ss| >= 1 && aLimbs[|aLimbs| - 1] >= HALF / 2 && IsRoot(Val(aLimbs), Val(ss), r)
    ensures Normalised(ss)
  {
    hide Val, Pow, IsRoot;
    var n := |ss| - 1;
    ValTop(aLimbs);
    ValTop(ss);
    PowNext(2 * n);
    PowAdd(n, n);
    MulMono(Pow(2 * n + 1), HALF / 2, aLimbs[2 * n + 1]);
    TopOfRoot(Val(aLimbs), Val(ss), r, Pow(n), ss[n]);
  }

  lemma TopOfRoot(a: int, s: int, r: int, p: int, top: int)
    requires IsRoot(a, s, r) && 0 <= s && 0 < p && (HALF / 2) * (B * (p * p)) <= a && s < (top + 1) * p
    ensures top >= HALF
  {
    HalfSquare(p);
    SquareAbove(a);
    RootRange(a, s, r, HALF * p, a + 1);
    if top < HALF {
      MulMono(p, top + 1, HALF);
    }
  }

  lemma HalfSquare(p: int)
    ensures (HALF * p) * (HALF * p) == (HALF / 2) * (B * (p * p))
  {
    SquareOfProduct(HALF, p);
    var t := p * p;
    assert (HALF * HALF) * t == (HALF / 2) * (B * t);
  }

  lemma SquareOfProduct(x: int, p: int)
    ensures (x * p) * (x * p) == (x * x) * (p * p)
  {
    MulAssoc(x, p, x * p);
    MulAssoc(p, x, p);
    assert p * x == x * p;
    MulAssoc(x, p, p);
    MulAssoc(x, x, p * p);
  }

  lemma SquareAbove(x: int)
    requires x >= 0
    ensures x < (x + 1) * (x + 1)
  {
  }

  /**
   mp_sqrtrem_rec: the root of the 2n limbs at taba goes to the n limbs at tabs, the remainder to
   the low n limbs of taba with its high bit returned.
   */
  method MpSqrtRemRec(tabs: array<Limb>, so: nat, taba: array<Limb>, ao: nat, n: nat, tmp: array<Limb>) returns (rh: Limb)
    requires tabs != taba && tabs != tmp && taba != tmp && n >= 1
    requires so + n <= tabs.Length && ao + 2 * n <= taba.Length && n / 2 + 1 <= tmp.Length
    requires taba[ao + 2 * n - 1] >= HALF / 2
    modifies tabs, taba, tmp
    ensures OnlyWithin(tabs, so, so + n) && OnlyWithin(taba, ao, ao + 2 * n)
    ensures rh <= 1 && IsRoot(old(Val(taba[ao..ao + 2 * n])), Val(tabs[so..so + n]), WithHigh(taba[ao..ao + n], rh))
    decreases n, 1
  {
    hide Val, Pow, IsRoot, WithHigh;
    ghost var aLimbs := taba[ao..ao + 2 * n];
    if n == 1 {
      rh := RootOfTwo(tabs, so, taba, ao);
      return;
    }
    var l := n / 2;
    var h := n - l;
    ghost var low: seq<Limb>, top: seq<Limb> := aLimbs[..2 * l], aLimbs[2 * l..];
    assert low == taba[ao..ao + 2 * l] && top == taba[ao + 2 * l..ao + 2 * l + 2 * h];
    assert top[2 * h - 1] == taba[ao + 2 * n - 1];
    rh := HighRoot(tabs, so, taba, ao, l, h, tmp);
    RootNormalised(top, tabs[so + l..so + l + h], WithHigh(taba[ao + 2 * l..ao + 2 * l + h], rh));
    rh := RootStep(tabs, so, taba, ao, tmp, l, h, rh, aLimbs);
  }

  /** The recursive call on the high limbs, which leaves the low ones alone. */
  method HighRoot(tabs: array<Limb>, so: nat, taba: array<Limb>, ao: nat, l: nat, h: nat, tmp: array<Limb>) returns (rh: Limb)
    requires tabs != taba && tabs != tmp && taba != tmp && 1 <= l <= h
    requires so + l + h <= tabs.Length && ao + 2 * l + 2 * h <= taba.Length && (l + h) / 2 + 1 <= tmp.Length
    requires taba[ao + 2 * l + 2 * h - 1] >= HALF / 2
    modifies tabs, taba, tmp
    ensures OnlyWithin(tabs, so + l, so + l + h) && OnlyWithin(taba, ao + 2 * l, ao + 2 * l + 2 * h)
    ensures taba[ao..ao + 2 * l] == old(taba[ao..ao + 2 * l])
    ensures rh <= 1 && IsRoot(old(Val(taba[ao + 2 * l..ao + 2 * l + 2 * h])), Val(tabs[so + l..so + l + h]), WithHigh(taba[ao + 2 * l..ao + 2 * l + h], rh))
    decreases l + h, 0
  {
    hide Val, Pow, IsRoot, WithHigh;
    rh := MpSqrtRemRec(tabs, so + l, taba, ao + 2 * l, h, tmp);
  }

  /** The base case: one limb of root. */
  method RootOfTwo(tabs: array<Limb>, so: nat, taba: array<Limb>, ao: nat) returns (rh: Limb)
    requires tabs != taba && so + 1 <= tabs.Length && ao + 2 <= taba.Length && taba[ao + 1] >= HALF / 2
    modifies tabs, taba
    ensures OnlyWithin(tabs, so, so + 1) && OnlyWithin(taba, ao, ao + 2)
    ensures rh <= 1 && IsRoot(old(Val(taba[ao..ao + 2])), Val(tabs[so..so + 1]), WithHigh(taba[ao..ao + 1], rh))
  {
    hide Val, Pow, IsRoot, WithHigh;
    ghost var aLimbs: seq<Limb> := taba[ao..ao + 2];
    assert aLimbs[0] == taba[ao] && aLimbs[1] == taba[ao + 1];
    rh := MpSqrtRem2(tabs, so, taba, ao);
    ghost var ss: seq<Limb>, rs: seq<Limb> := tabs[so..so + 1], taba[ao..ao + 1];
    assert ss[0] == tabs[so] && rs[0] == taba[ao];
    OneLimb(aLimbs, ss, rs, rh);
  }

  lemma OneLimb(aLimbs: seq<Limb>, ss: seq<Limb>, rs: seq<Limb>, rh: int)
    requires |aLimbs| == 2 && |ss| == 1 && |rs| == 1 && IsRoot(aLimbs[1] * B + aLimbs[0], ss[0], rs[0] + B * rh)
    ensures IsRoot(Val(aLimbs), Val(ss), WithHigh(rs, rh))
  {
    assert aLimbs == [aLimbs[0]] + [aLimbs[1]] && ss == [ss[0]] && rs == [rs[0]];
    ValCons(aLimbs[0], [aLimbs[1]]);
    ValSingle(aLimbs[1]);
    ValSingle(ss[0]);
    ValSingle(rs[0]);
    assert Pow(1) == B * Pow(0);
  }

  /** The next digit of the root, and the remainder before its square comes off. */
  method NextDigit(tabs: array<Limb>, so: nat, taba: array<Limb>, ao: nat, tmp: array<Limb>, l: nat, h: nat, qh0: Limb,
                   ghost aLimbs: seq<Limb>, ghost s1: int)
    returns (qh: Limb, rh: Limb)
    requires tabs != taba && tabs != tmp && taba != tmp && 1 <= l <= h && |aLimbs| == 2 * (l + h)
    requires so + l + h <= tabs.Length && ao + 2 * (l + h) <= taba.Length && l < tmp.Length
    requires Normalised(tabs[so + l..so + l + h]) && qh0 <= 1 && s1 == Val(tabs[so + l..so + l + h])
    requires taba[ao..ao + 2 * l] == aLimbs[..2 * l]
    requires IsRoot(Val(aLimbs[2 * l..]), s1, WithHigh(taba[ao + 2 * l..ao + 2 * l + h], qh0))
    modifies tabs, taba, tmp
    ensures OnlyWithin(tabs, so, so + l) && OnlyWithin(taba, ao + l, ao + 2 * l + h)
    ensures qh <= 1 && rh <= 1 && (qh == 1 ==> Val(tabs[so..so + l]) == 0)
    ensures var q := WithHigh(tabs[so..so + l], qh);
            0 <= s1 * Pow(l) + q && AfterStep(Val(aLimbs), s1 * Pow(l) + q, WithHigh(taba[ao..ao + l + h], rh) - q * q)
  {
    hide Val, Pow, WithHigh, IsRoot, AfterStep, IsRootDigit;
    ghost var r1, a1 := WithHigh(taba[ao + 2 * l..ao + 2 * l + h], qh0), Val(aLimbs[l..2 * l]);
    ghost var low: seq<Limb> := taba[ao..ao + l];
    ghost var ss: seq<Limb> := tabs[so + l..so + l + h];
    LowHalves(taba[ao..ao + 2 * l], low, taba[ao + l..ao + 2 * l], aLimbs, l);
    RemainderRange(Val(aLimbs[2 * l..]), s1, r1);
    FullOf(tabs[so + l..so + l + h]);
    qh, rh := RootDigits(tabs, so, taba, ao, tmp, l, h, qh0, r1, a1);
    assert tabs[so + l..so + l + h] == ss;
    ghost var qs: seq<Limb>, us: seq<Limb> := tabs[so..so + l], taba[ao + l..ao + l + h];
    RootNumbers(aLimbs, qs, qh, us, rh, l, h, s1, r1, WithHigh(qs, qh), WithHigh(us, rh));
    assert taba[ao..ao + l] == low;
    assert taba[ao..ao + l + h] == low + us;
  }

  lemma LowHalves(both: seq<Limb>, low: seq<Limb>, next: seq<Limb>, aLimbs: seq<Limb>, l: nat)
    requires 2 * l <= |aLimbs| && both == aLimbs[..2 * l] && low == both[..l] && next == both[l..]
    ensures low == aLimbs[..l] && next == aLimbs[l..2 * l]
  {
  }

  /** The step after the recursive call: two more digits of a give one more digit of the root. */
  method RootStep(tabs: array<Limb>, so: nat, taba: array<Limb>, ao: nat, tmp: array<Limb>, l: nat, h: nat, qh0: Limb,
                  ghost aLimbs: seq<Limb>)
    returns (rh: Limb)
    requires tabs != taba && tabs != tmp && taba != tmp && 1 <= l <= h <= l + 1 && |aLimbs| == 2 * (l + h)
    requires so + l + h <= tabs.Length && ao + 2 * (l + h) <= taba.Length && l < tmp.Length
    requires Normalised(tabs[so + l..so + l + h]) && qh0 <= 1
    requires taba[ao..ao + 2 * l] == aLimbs[..2 * l]
    requires IsRoot(Val(aLimbs[2 * l..]), Val(tabs[so + l..so + l + h]), WithHigh(taba[ao + 2 * l..ao + 2 * l + h], qh0))
    modifies tabs, taba, tmp
    ensures OnlyWithin(tabs, so, so + l + h) && OnlyWithin(taba, ao, ao + 2 * (l + h))
    ensures rh <= 1 && IsRoot(Val(aLimbs), Val(tabs[so..so + (l + h)]), WithHigh(taba[ao..ao + (l + h)], rh))
  {
    hide Val, Pow, WithHigh, IsRoot, AfterStep;
    ghost var ss: seq<Limb> := tabs[so + l..so + l + h];
    var qh, rh1 := NextDigit(tabs, so, taba, ao, tmp, l, h, qh0, aLimbs, Val(ss));
    assert tabs[so + l..so + l + h] == ss;
    ValBound(aLimbs);
    rh := FinishRoot(tabs, so, taba, ao, l, h, qh, rh1, Val(aLimbs), Val(ss), WithHigh(tabs[so..so + l], qh));
  }

  lemma RemainderRange(a: int, s: int, r: int)
    requires IsRoot(a, s, r)
    ensures 0 <= r <= 2 * s
  {
  }

  /** Add the carry of the digit, subtract its square and correct the sign. */
  method FinishRoot(tabs: array<Limb>, so: nat, taba: array<Limb>, ao: nat, l: nat, h: nat, qh: Limb, rh1: Limb,
                    ghost a: int, ghost s1: int, ghost q: int)
    returns (rh: Limb)
    requires tabs != taba && 1 <= l <= h <= l + 1 && so + l + h <= tabs.Length && ao + 2 * (l + h) <= taba.Length
    requires qh <= 1 && rh1 <= 1 && q == WithHigh(tabs[so..so + l], qh) && (qh == 1 ==> Val(tabs[so..so + l]) == 0)
    requires s1 == Val(tabs[so + l..so + l + h]) && 0 <= a < Pow(2 * (l + h)) && 0 <= s1 * Pow(l) + q
    requires AfterStep(a, s1 * Pow(l) + q, WithHigh(taba[ao..ao + l + h], rh1) - q * q)
    modifies tabs, taba
    ensures OnlyWithin(tabs, so, so + l + h) && OnlyWithin(taba, ao, ao + 2 * (l + h))
    ensures rh <= 1 && IsRoot(a, Val(tabs[so..so + (l + h)]), WithHigh(taba[ao..ao + (l + h)], rh))
  {
    hide Val, Pow, WithHigh, AfterStep, IsRoot;
    ghost var lows := tabs[so..so + l];
    var k := MpAddUi(tabs, so + l, qh, h);
    assert tabs[so..so + l] == lows;
    JoinRoot(lows, s1, Val(tabs[so + l..so + l + h]), qh, k, h);
    assert tabs[so..so + (l + h)] == lows + tabs[so + l..so + l + h];
    ValConcat(lows, tabs[so + l..so + l + h]);
    var rh2 := SubtractSquare(tabs, so, taba, ao, l, h, qh, rh1);
    assert ao + (l + h) == ao + l + h;
    rh := FixRoot(tabs, so, taba, ao, l + h, rh2, a, s1 * Pow(l) + q);
  }

  /** The numbers of one step: q is a digit, and a0 + L * u is the remainder before q * q comes off. */
  lemma RootNumbers(aLimbs: seq<Limb>, qs: seq<Limb>, qh: int, us: seq<Limb>, rh: int, l: nat, h: nat,
                    s1: int, r1: int, q: int, u: int)
    requires |aLimbs| == 2 * (l + h) && |qs| == l && |us| == h && l <= h
    requires 0 <= qh <= 1 && q == WithHigh(qs, qh) && u == WithHigh(us, rh)
    requires IsRoot(Val(aLimbs[2 * l..]), s1, r1) && Pow(h) <= 2 * s1
    requires IsRootDigit(r1, Val(aLimbs[l..2 * l]), Pow(l), s1, q, u)
    ensures 0 <= s1 * Pow(l) + q
    ensures AfterStep(Val(aLimbs), s1 * Pow(l) + q, WithHigh(aLimbs[..l] + us, rh) - q * q)
    ensures qh == 1 ==> Val(qs) == 0
  {
    hide Val, Pow, WithHigh, AfterStep, IsRoot, IsRootDigit;
    PowMono(l, h);
    ValBound(aLimbs[..l]);
    ValBound(aLimbs[l..2 * l]);
    StepNumbers(Val(aLimbs[2 * l..]), Val(aLimbs[l..2 * l]), Val(aLimbs[..l]), Pow(l), s1, r1, q, u);
    ThreeParts(aLimbs, l);
    LiftHigh(aLimbs[..l], us, rh);
    SmallDigit(qs, qh);
  }

  lemma StepNumbers(a2: int, a1: int, a0: int, d: int, s1: int, r1: int, q: int, u: int)
    requires IsRoot(a2, s1, r1) && IsRootDigit(r1, a1, d, s1, q, u) && 1 <= d <= 2 * s1 && 0 <= a1 < d && 0 <= a0 < d
    ensures 0 <= q <= d && 0 <= s1 * d + q && AfterStep((a2 * d + a1) * d + a0, s1 * d + q, u * d + a0 - q * q)
  {
    hide AfterStep;
    KaratsubaStep(d, s1, r1, a1, a0, q, u);
    MulMono(d, 0, s1);
  }

  lemma LiftHigh(low: seq<Limb>, us: seq<Limb>, rh: int)
    ensures WithHigh(low + us, rh) == WithHigh(us, rh) * Pow(|low|) + Val(low)
  {
    hide Val, Pow;
    ValConcat(low, us);
    PowAdd(|low|, |us|);
    assert (Val(us) + rh * Pow(|us|)) * Pow(|low|) == Pow(|low|) * Val(us) + rh * (Pow(|low|) * Pow(|us|));
  }

  lemma SmallDigit(qs: seq<Limb>, qh: int)
    requires WithHigh(qs, qh) <= Pow(|qs|)
    ensures qh == 1 ==> Val(qs) == 0
  {
  }

  /** mp_sqrtrem: the integer square root of 2n limbs with one of the two top bits set, and its remainder in n + 1 limbs. */
  method MpSqrtRem(tabs: array<Limb>, taba: array<Limb>, n: nat)
    requires tabs != taba && n >= 1 && n <= tabs.Length && 2 * n <= taba.Length && taba[2 * n - 1] >= HALF / 2
    modifies tabs, taba
    ensures IsRoot(old(Val(taba[..2 * n])), Val(tabs[..n]), Val(taba[..n + 1]))
  {
    hide Val, Pow, IsRoot;
    var tmp := new Limb[n / 2 + 1];
    assert taba[0..0 + 2 * n] == taba[..2 * n];
    var rh := MpSqrtRemRec(tabs, 0, taba, 0, n, tmp);
    assert tabs[0..0 + n] == tabs[..n];
    ghost var rs := taba[0..0 + n];
    taba[n] := rh;
    assert taba[..n + 1] == rs + [rh];
    ValSnoc(rs, rh);
  }
}
