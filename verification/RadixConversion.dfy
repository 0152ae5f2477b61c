/**
 Divide-and-conquer radix conversion of qjs/libbf.c: limbs in a radix up to one limb, to and from
 an integer, with one cached power of the radix per level of the recursion.

 Integers stand for the bf_t values, whose additions and products are exact at infinite
 precision.
 */
module RadixConversion {
  import opened Limbs

  // ---- values and digits ----

  function Power(x: int, k: nat): int {
    if k == 0 then 1 else x * Power(x, k - 1)
  }

  lemma {:induction false} PowerAdd(x: int, k: nat, m: nat)
    ensures Power(x, k + m) == Power(x, k) * Power(x, m)
    decreases k
  {
    if k > 0 {
      PowerAdd(x, k - 1, m);
      Assoc(x, Power(x, k - 1), Power(x, m));
    }
  }

  lemma Assoc(x: int, y: int, z: int)
    ensures x * (y * z) == (x * y) * z
  {
  }

  lemma Commute(x: int, y: int)
    ensures x * y == y * x
  {
  }

  lemma Distribute(x: int, y: int, z: int)
    ensures x * (y + z) == x * y + x * z
  {
  }

  lemma {:induction false} PowerPositive(x: int, k: nat)
    requires x >= 1
    ensures Power(x, k) >= 1
  {
    if k > 0 {
      PowerPositive(x, k - 1);
      assert x * Power(x, k - 1) >= 1 by { AtLeastOne(x, Power(x, k - 1)); }
    }
  }

  lemma AtLeastOne(x: int, y: int)
    requires x >= 1 && y >= 1
    ensures x * y >= 1
  {
  }

  /** The number with the given limbs, least significant first. */
  function Value(s: seq<int>, radix: int): int {
    if s == [] then 0 else s[0] + radix * Value(s[1..], radix)
  }

  lemma {:induction false} ValueConcat(s: seq<int>, t: seq<int>, radix: int)
    ensures Value(s + t, radix) == Value(s, radix) + Power(radix, |s|) * Value(t, radix)
    decreases s
  {
    if s == [] {
      assert s + t == t;
    } else {
      assert (s + t)[1..] == s[1..] + t;
      ValueConcat(s[1..], t, radix);
      Distribute(radix, Value(s[1..], radix), Power(radix, |s| - 1) * Value(t, radix));
      Assoc(radix, Power(radix, |s| - 1), Value(t, radix));
    }
  }

  ghost predicate Digits(s: seq<int>, radix: int) {
    forall k :: 0 <= k < |s| ==> 0 <= s[k] < radix
  }

  /** Limbs below the radix are determined by their value. */
  lemma {:induction false} DigitsUnique(s: seq<int>, t: seq<int>, radix: int)
    requires |s| == |t| && radix >= 1 && Digits(s, radix) && Digits(t, radix) && Value(s, radix) == Value(t, radix)
    ensures s == t
    decreases s
  {
    if s != [] {
      DivUnique(radix, Value(s[1..], radix), s[0], Value(t[1..], radix), t[0]);
      DigitsUnique(s[1..], t[1..], radix);
      assert s == [s[0]] + s[1..] && t == [t[0]] + t[1..];
    }
  }

  /** A quotient and a remainder are determined by what they make up. */
  lemma DivUnique(d: int, q: int, r: int, q': int, r': int)
    requires 0 <= r < d && 0 <= r' < d && r + d * q == r' + d * q'
    ensures q == q' && r == r'
  {
    if q < q' {
      Gap(d, q, q');
    } else if q' < q {
      Gap(d, q', q);
    }
  }

  lemma Product(x: int, y: int)
    requires x >= 0 && y >= 0
    ensures x * y >= 0
  {
  }

  lemma Gap(d: int, q: int, q': int)
    requires d > 0 && q < q'
    ensures d * q' >= d * q + d
  {
    Distribute(d, q, q' - q);
    Distribute(d, 1, q' - q - 1);
    Product(d, q' - q - 1);
  }

  lemma {:induction false} ValueRange(s: seq<int>, radix: int)
    requires radix >= 1 && Digits(s, radix)
    ensures 0 <= Value(s, radix) < Power(radix, |s|)
  {
    if s != [] {
      ValueRange(s[1..], radix);
      Scale(radix, Value(s[1..], radix), Power(radix, |s| - 1));
    }
  }

  lemma Scale(d: int, x: int, p: int)
    requires d >= 1 && 0 <= x < p
    ensures 0 <= d * x && d * x + d <= d * p
  {
    Gap(d, x, p);
    assert d * x >= 0;
  }

  // ---- sizes in the recursion ----

  /** A right shift. */
  function Shr(x: nat, k: nat): nat {
    if k == 0 then x else Shr(x, k - 1) / 2
  }

  /** Shifting is dividing by a power of two. */
  lemma {:induction false} ShrIsDiv(x: nat, k: nat)
    ensures Shr(x, k) * Power(2, k) <= x < (Shr(x, k) + 1) * Power(2, k)
  {
    if k > 0 {
      ShrIsDiv(x, k - 1);
      Halve(x, Shr(x, k - 1), Shr(x, k), Power(2, k - 1));
    }
  }

  lemma Halve(x: int, y: int, h: int, p: int)
    requires p >= 0 && h == y / 2 && y * p <= x < (y + 1) * p
    ensures h * (2 * p) <= x < (h + 1) * (2 * p)
  {
    var b := y - 2 * h;
    assert h * (2 * p) == y * p - b * p;
    assert (h + 1) * (2 * p) == (y + 1) * p + (1 - b) * p;
    assert b == 0 || b == 1;
  }

  /** floor(n0 / 2^level), as the source computes it. */
  function LevelSize(n0: nat, level: nat): nat {
    Shr(n0 * 2, level + 1)
  }

  /** The number of low limbs split off at a level. */
  function LowSize(n0: nat, level: nat): nat {
    (LevelSize(n0, level) + 1) / 2
  }

  /** Every node of a level has one of two sizes. */
  predicate NodeSize(n0: nat, level: nat, n: nat) {
    n == LevelSize(n0, level) || n == LevelSize(n0, level) + 1
  }

  lemma LevelSizeIsFloor(n0: nat, level: nat)
    ensures LevelSize(n0, level) * Power(2, level) <= n0 < (LevelSize(n0, level) + 1) * Power(2, level)
  {
    ShrIsDiv(n0 * 2, level + 1);
    var s, p := LevelSize(n0, level), Power(2, level);
    assert Power(2, level + 1) == 2 * p;
    assert s * (2 * p) == 2 * (s * p) && (s + 1) * (2 * p) == 2 * ((s + 1) * p);
  }

  /** Both children of a node again have the sizes of their level, and neither is empty. */
  lemma ChildSizes(n0: nat, level: nat, n: nat)
    requires NodeSize(n0, level, n) && n >= 2
    ensures 1 <= LowSize(n0, level) < n
    ensures NodeSize(n0, level + 1, LowSize(n0, level)) && NodeSize(n0, level + 1, n - LowSize(n0, level))
    ensures n - LowSize(n0, level) <= LowSize(n0, level) + 1
  {
    assert LevelSize(n0, level + 1) == LevelSize(n0, level) / 2;
  }

  lemma RootSize(n0: nat)
    ensures NodeSize(n0, 0, n0)
  {
    assert Shr(n0 * 2, 1) == Shr(n0 * 2, 0) / 2;
  }

  /** ceil_log2 */
  function CeilLog2(n: nat): (k: nat)
    ensures n <= Power(2, k)
    ensures k > 0 ==> Power(2, k - 1) < n
  {
    if n <= 1 then 0
    else
      var k := CeilLog2((n + 1) / 2);
      assert Power(2, k + 1) == 2 * Power(2, k);
      assert k > 0 ==> Power(2, k) == 2 * Power(2, k - 1);
      k + 1
  }

  lemma {:induction false} PowerMonotone(k: nat, m: nat)
    requires k <= m
    ensures Power(2, k) <= Power(2, m)
    decreases m
  {
    PowerPositive(2, k);
    if k < m {
      PowerMonotone(k, m - 1);
    }
  }

  /** The table of powers is long enough: a node with two limbs or more is at most this deep. */
  lemma TableSuffices(n0: nat, level: nat, n: nat)
    requires NodeSize(n0, level, n) && n >= 2
    ensures level < CeilLog2(n0) + 2
  {
    LevelSizeIsFloor(n0, level);
    var m := LevelSize(n0, level);
    AtLeastTimes(m, Power(2, level), n0);
    var top := CeilLog2(n0);
    PowerPositive(2, top);
    assert Power(2, top + 1) == 2 * Power(2, top);
    if level > top {
      PowerMonotone(top + 1, level);
    }
  }

  lemma AtLeastTimes(m: int, p: int, n: int)
    requires m >= 1 && p >= 0 && m * p <= n
    ensures p <= n
  {
    assert m * p == p + (m - 1) * p;
    assert (m - 1) * p >= 0;
  }

  // ---- powers ----

  /** bf_pow_ui: binary exponentiation from the top bit down. */
  method PowUi(a: int, b: nat) returns (r: int)
    ensures r == Power(a, b)
  {
    if b == 0 {
      return 1;
    }
    var i := TopBit(b);
    r := a;
    assert Power(a, 1) == a * Power(a, 0);
    while i > 0
      invariant Shr(b, i) >= 1 && r == Power(a, Shr(b, i))
      decreases i
    {
      i := i - 1;
      ghost var e := Shr(b, i + 1);
      assert e == Shr(b, i) / 2;
      PowerAdd(a, e, e);
      r := r * r;
      if Shr(b, i) % 2 == 1 {
        assert Power(a, 2 * e + 1) == a * Power(a, 2 * e);
        r := r * a;
      }
    }
  }

  /** LIMB_BITS - 1 - clz(b) */
  method TopBit(b: nat) returns (i: nat)
    requires b >= 1
    ensures Shr(b, i) == 1
  {
    i := 0;
    var x := b;
    while x > 1
      invariant x == Shr(b, i) && x >= 1
    {
      x := x / 2;
      i := i + 1;
    }
  }

  // ---- from a radix ----

  /** Zero marks a power not yet computed. */
  ghost predicate TableOk(pow: seq<int>, n0: nat, radix: int) {
    |pow| == CeilLog2(n0) + 2 && forall l :: 0 <= l < |pow| ==> pow[l] == 0 || pow[l] == Power(radix, LowSize(n0, l))
  }

  /** The cached power of a level, computed on first use. */
  method CachedPower(pow: array<int>, level: nat, n2: nat, radix: int, ghost n0: nat) returns (b: int)
    requires radix >= 2 && TableOk(pow[..], n0, radix) && level < pow.Length && n2 == LowSize(n0, level)
    modifies pow
    ensures TableOk(pow[..], n0, radix) && b == Power(radix, n2)
  {
    assert pow[level] == pow[..][level];
    if pow[level] == 0 {
      var p := PowUi(radix, n2);
      ghost var was := pow[..];
      pow[level] := p;
      assert pow[..] == was[level := p];
    }
    b := pow[level];
    PowerPositive(radix, n2);
  }

  /** bf_integer_from_radix_rec */
  method FromRadixRec(tab: seq<int>, level: nat, n0: nat, radix: int, pow: array<int>) returns (r: int)
    requires radix >= 2 && |tab| >= 1 && NodeSize(n0, level, |tab|) && TableOk(pow[..], n0, radix)
    modifies pow
    ensures r == Value(tab, radix) && TableOk(pow[..], n0, radix)
    decreases |tab|
  {
    hide TableOk, Power, LowSize, LevelSize, NodeSize;
    var n := |tab|;
    if n == 1 {
      assert tab[1..] == [];
      r := tab[0];
      assert Value(tab[1..], radix) == 0;
    } else {
      var n2 := LowSize(n0, level);
      ChildSizes(n0, level, n);
      TableSuffices(n0, level, n);
      assert level < pow.Length by { TableLength(pow[..], n0, radix); }
      var b := CachedPower(pow, level, n2, radix, n0);
      r := FromRadixRec(tab[n2..], level + 1, n0, radix, pow);
      r := r * b;
      var t := FromRadixRec(tab[..n2], level + 1, n0, radix, pow);
      r := r + t;
      assert tab == tab[..n2] + tab[n2..];
      ValueConcat(tab[..n2], tab[n2..], radix);
    }
  }

  lemma TableLength(pow: seq<int>, n0: nat, radix: int)
    requires TableOk(pow, n0, radix)
    ensures |pow| == CeilLog2(n0) + 2
  {
  }

  /** bf_integer_from_radix: the sum of limb * radix^i. */
  method FromRadix(tab: seq<int>, radix: int) returns (r: int)
    requires radix >= 2 && |tab| >= 1
    ensures r == Value(tab, radix)
  {
    var n := |tab|;
    var pow := new int[CeilLog2(n) + 2](_ => 0);
    assert TableOk(pow[..], n, radix);
    RootSize(n);
    r := FromRadixRec(tab, 0, n, radix, pow);
  }

  // ---- short values ----

  lemma ValueOne(x: int, radix: int)
    ensures Value([x], radix) == x
  {
    assert [x][1..] == [];
  }

  lemma ValueTwo(x: int, y: int, radix: int)
    ensures Value([x, y], radix) == x + radix * y
  {
    assert [x, y][1..] == [y];
    ValueOne(y, radix);
  }
}
