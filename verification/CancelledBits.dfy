/**
 count_cancelled_bits of qjs/libbf.c: how many leading bits a difference loses.
 */
module CancelledBits {
  import opened Limbs
  import opened Bits
  import opened RoundingTheory
  import opened RoundingLimbs
  import opened LimbStreams
  import opened AlignedOperands
  import IntegerLogic

  // ---- one limb ----

  /** clz, which is 64 for zero. */
  function LeadingZeros(x: Limb): (s: nat)
    ensures s <= 64 && x / Two(64 - s) == 0 && (s < 64 ==> x / Two(63 - s) == 1)
  {
    if x == 0 then (RemainderIs(0, Two(0), 0, 0); 64)
    else
      var s := Clz(x);
      ClzQuotients(x, s);
      s
  }

  lemma ClzQuotients(x: int, s: nat)
    requires 0 < x && s < 64 && HALF <= x * Two(s) < B
    ensures x / Two(64 - s) == 0 && x / Two(63 - s) == 1
  {
    hide Two;
    TwoAdd(s, 63 - s);
    TwoAdd(1, 63 - s);
    TwoOne();
    HalfIsTwo63();
    var t := Two(63 - s);
    assert Two(s) * t == HALF;
    assert Two(s) * (x + 1) == x * Two(s) + Two(s) && Two(s) * (2 * t) == 2 * (Two(s) * t);
    if x < t {
      MulMono(Two(s), x + 1, t);
      assert false;
    }
    if x >= 2 * t {
      MulMono(Two(s), 2 * t, x);
      assert false;
    }
    RemainderIs(x, 2 * t, 0, x);
    RemainderIs(x, t, 1, x - t);
  }

  /** The top bits of the complement of a q-bit number. */
  lemma ComplementTop(v: int, q: nat, s: nat)
    requires 0 <= v < Two(q) && s <= q
    ensures (Two(q) - 1 - v) / Two(s) == Two(q - s) - 1 - v / Two(s)
  {
    hide Two;
    TwoAdd(q - s, s);
    var u, w := Two(s), Two(q - s);
    var x, r := v / u, v % u;
    assert v == x * u + r;
    assert Two(q) - 1 - v == (w - 1 - x) * u + (u - 1 - r) by { assert (w - 1 - x) * u == w * u - u - x * u; }
    RemainderIs(Two(q) - 1 - v, u, w - 1 - x, u - 1 - r);
  }

  /** The top bits of a limb, some more of them. */
  lemma TopSplit(v: int, q: nat, s: nat)
    requires v >= 0 && s <= q
    ensures v / Two(s) == (v / Two(q)) * Two(q - s) + (v % Two(q)) / Two(s)
  {
    hide Two;
    TwoAdd(q - s, s);
    var u, w := Two(s), Two(q - s);
    var x, r := v / Two(q), v % Two(q);
    assert v == Two(q) * x + r;
    assert Two(q) * x == (x * w) * u by { assert (w * u) * x == (x * w) * u; }
    var y, z := r / u, r % u;
    assert r == u * y + z;
    assert v == (x * w + y) * u + z by { assert (x * w + y) * u == (x * w) * u + u * y; }
    RemainderIs(v, u, x * w + y, z);
  }

  lemma LowBits(v: int, q: nat)
    requires 0 <= v < B && q <= 64
    ensures (B - 1 - v) % Two(q) == Two(q) - 1 - v % Two(q)
  {
    hide Two;
    TwoAdd(64 - q, q);
    LimbIsTwo64();
    var u, w := Two(q), Two(64 - q);
    assert v == u * (v / u) + v % u;
    assert B - 1 - v == (w - 1 - v / u) * u + (u - 1 - v % u) by { assert (w - 1 - v / u) * u == w * u - u - u * (v / u); }
    RemainderIs(B - 1 - v, u, w - 1 - v / u, u - 1 - v % u);
  }

  /** The highest bit in which two limbs differ. */
  lemma FirstDifference(v1: Limb, v2: Limb, c: nat)
    requires v1 > v2 && c == LeadingZeros(IntegerLogic.LimbOp(IntegerLogic.Xor, v1, v2))
    ensures c < 64 && v1 / Two(63 - c) == v2 / Two(63 - c) + 1
  {
    hide Two, On, LeadingZeros;
    var w := IntegerLogic.LimbOp(IntegerLogic.Xor, v1, v2);
    forall k: nat | k >= 64 - c
      ensures On(v1, k) == On(v2, k)
    {
      OnHigh(v1, v2, w, c, k);
    }
    SameTop(v1, v2, 64 - c);
    if c == 64 {
      TwoZero();
      assert false;
    }
    var s := 63 - c;
    BitDiffers(v1, v2, w, s);
    TopTwo(v1, s);
    TopTwo(v2, s);
    DivideMonotone(v2, v1, Two(s));
  }

  lemma OnHigh(v1: Limb, v2: Limb, w: Limb, c: nat, k: nat)
    requires w == IntegerLogic.LimbOp(IntegerLogic.Xor, v1, v2) && c <= 64 && w / Two(64 - c) == 0 && k >= 64 - c
    ensures On(v1, k) == On(v2, k)
  {
    hide Two, On;
    LimbIsTwo64();
    if k >= 64 {
      OnAbove(v1, 64, k);
      OnAbove(v2, 64, k);
    } else {
      IntegerLogic.LimbOpOn(IntegerLogic.Xor, v1, v2, k);
      assert w == Two(64 - c) * 0 + w % Two(64 - c);
      OnAbove(w, 64 - c, k);
    }
  }

  lemma SameTop(v1: int, v2: int, n: nat)
    requires forall k: nat :: k >= n ==> On(v1, k) == On(v2, k)
    ensures v1 / Two(n) == v2 / Two(n)
  {
    hide Two, On;
    forall k: nat
      ensures On(v1 / Two(n), k) == On(v2 / Two(n), k)
    {
      Parts(v1 / Two(n), v1 % Two(n), n, n + k);
      Parts(v2 / Two(n), v2 % Two(n), n, n + k);
      assert Two(n) * (v1 / Two(n)) + v1 % Two(n) == v1 && Two(n) * (v2 / Two(n)) + v2 % Two(n) == v2;
      assert On(v1, n + k) == On(v2, n + k);
    }
    BitsDetermine(v1 / Two(n), v2 / Two(n));
  }

  lemma BitDiffers(v1: Limb, v2: Limb, w: Limb, s: nat)
    requires w == IntegerLogic.LimbOp(IntegerLogic.Xor, v1, v2) && s < 64 && w / Two(s) == 1
    ensures (v1 / Two(s)) % 2 != (v2 / Two(s)) % 2
  {
    IntegerLogic.LimbOpOn(IntegerLogic.Xor, v1, v2, s);
    OnIsOdd(w, s);
    OnIsOdd(v1, s);
    OnIsOdd(v2, s);
  }

  lemma OnIsOdd(v: int, s: nat)
    ensures On(v, s) == ((v / Two(s)) % 2 == 1)
  {
    hide Two;
    Parts(v / Two(s), v % Two(s), s, s);
    assert Two(s) * (v / Two(s)) + v % Two(s) == v;
  }

  lemma TopTwo(v: int, s: nat)
    requires v >= 0
    ensures v / Two(s + 1) == (v / Two(s)) / 2
  {
    hide Two;
    TwoAdd(s, 1);
    TwoOne();
    DivMul(v, Two(s), 2);
  }

  lemma DivideMonotone(x: int, y: int, u: int)
    requires x <= y && u >= 1
    ensures x / u <= y / u
  {
    var p, q := x / u, y / u;
    assert x == u * p + x % u && y == u * q + y % u;
    if p > q {
      MulMono(u, q + 1, p);
      assert false;
    }
  }

  /** Bits that go on 0 in the one and 1 in the other, up to p1 of q. */
  lemma Matching(v1: int, v2: int, q: nat, p1: nat)
    requires 0 <= v1 < B && 0 <= v2 < B && p1 <= q <= 64
    requires (v1 % Two(q)) / Two(q - p1) == 0 && ((B - 1 - v2) % Two(q)) / Two(q - p1) == 0
    ensures v1 / Two(q - p1) == (v1 / Two(q)) * Two(p1)
    ensures v2 / Two(q - p1) == (v2 / Two(q)) * Two(p1) + Two(p1) - 1
  {
    hide Two;
    var s := q - p1;
    TopSplit(v1, q, s);
    TopSplit(v2, q, s);
    LowBits(v2, q);
    TwoAdd(p1, s);
    var u, w, r := Two(s), Two(p1), v2 % Two(q);
    OnesOnTop(r, Two(q), u, w);
  }

  /** A number whose complement in q bits has only low bits has ones on top. */
  lemma OnesOnTop(r: int, t: int, u: int, w: int)
    requires u >= 1 && t == w * u && 0 <= r < t && (t - 1 - r) / u == 0
    ensures r / u == w - 1
  {
    var y := t - 1 - r;
    assert 0 <= y < u by { assert y == u * (y / u) + y % u; }
    assert (w - 1) * u == w * u - u;
    RemainderIs(r, u, w - 1, u - 1 - y);
  }

  // ---- whole numbers ----

  /** The m top bits of a number of n limbs. */
  ghost function Top(a: nat, n: nat, m: nat): int
    requires m <= 64 * n
  {
    a / Two(64 * n - m)
  }

  lemma TopExtend(a: nat, n: nat, t: nat, p: nat)
    requires t < n && p <= 64
    ensures Top(a, n, 64 * t + p) == Top(a, n, 64 * t) * Two(p) + LimbOf(a, n - 1 - t) / Two(64 - p)
  {
    hide Two, Pow;
    var k := n - 1 - t;
    TwoLimbs(k);
    var h := a / Pow(k);
    TwoAdd(64 * k, 64);
    TwoAdd(64 * k, 64 - p);
    TwoAdd(64 - p, p);
    LimbIsTwo64();
    DivMul(a, Two(64 * k), B);
    DivMul(a, Two(64 * k), Two(64 - p));
    JoinQuotient(h, Two(64 - p), Two(p), h / B, h % B);
    assert 64 * n - 64 * t == 64 * k + 64 && 64 * n - (64 * t + p) == 64 * k + (64 - p);
  }

  /** a is ahead of b by one unit of the m-th bit, and no longer by less than half of it. */
  ghost predicate Settled(a: nat, b: nat, n: nat, m: nat) {
    m <= 64 * n && Two(64 * n - m) < 2 * (a - b)
  }

  /** After the m top bits a leads by one; the next bit is not 0 against 1. */
  lemma LeadSettles(a: nat, b: nat, n: nat, m: nat)
    requires m < 64 * n && Top(a, n, m) == Top(b, n, m) + 1
    requires Top(a, n, m + 1) % 2 == 1 || Top(b, n, m + 1) % 2 == 0
    ensures Settled(a, b, n, m)
  {
    hide Two;
    var v := Two(64 * n - m - 1);
    TwoAdd(64 * n - m - 1, 1);
    TwoOne();
    TopTwo(a, 64 * n - m - 1);
    TopTwo(b, 64 * n - m - 1);
    AheadByTwo(a, b, v);
  }

  lemma AheadBy(a: int, b: int, v: int, x: int, y: int, r: int, s: int)
    requires a == v * x + r && b == v * y + s && 0 <= r < v && 0 <= s < v && x >= y + 2
    ensures a - b > v
  {
    MulMono(v, y + 2, x);
    MulSum(v, y, 2);
  }

  lemma AheadByTwo(a: int, b: int, v: int)
    requires v >= 1 && (a / v) / 2 == (b / v) / 2 + 1 && ((a / v) % 2 == 1 || (b / v) % 2 == 0)
    ensures a - b > v
  {
    var x, y := a / v, b / v;
    assert x >= y + 2;
    AheadBy(a, b, v, x, y, a % v, b % v);
  }

  lemma LeadAtEnd(a: nat, b: nat, n: nat)
    requires Top(a, n, 64 * n) == Top(b, n, 64 * n) + 1
    ensures Settled(a, b, n, 64 * n)
  {
    TwoZero();
    RemainderIs(a, 1, a, 0);
    RemainderIs(b, 1, b, 0);
  }

  // ---- counting ----

  lemma {:induction false} EvenTwo(n: nat)
    requires n >= 1
    ensures Two(n) % 2 == 0
  {
  }

  /** The first bit that does not match. */
  lemma NextBit(v1: int, v2: int, q: nat, p1: nat)
    requires 0 <= v1 < B && 0 <= v2 < B && p1 < q <= 64
    requires (v1 % Two(q)) / Two(q - p1 - 1) == 1 || ((B - 1 - v2) % Two(q)) / Two(q - p1 - 1) == 1
    ensures (v1 / Two(q - p1 - 1)) % 2 == 1 || (v2 / Two(q - p1 - 1)) % 2 == 0
  {
    hide Two;
    var s := q - p1 - 1;
    if (v1 % Two(q)) / Two(s) == 1 {
      OddTop(v1, q, s);
    } else {
      EvenTop(v2, q, s);
    }
  }

  lemma OddTop(v: int, q: nat, s: nat)
    requires v >= 0 && s < q && (v % Two(q)) / Two(s) == 1
    ensures (v / Two(s)) % 2 == 1
  {
    hide Two;
    EvenTwo(q - s);
    TopSplit(v, q, s);
    LastBit(v / Two(q), Two(q - s), 1);
  }

  lemma EvenTop(v: int, q: nat, s: nat)
    requires 0 <= v < B && s < q <= 64 && ((B - 1 - v) % Two(q)) / Two(s) == 1
    ensures (v / Two(s)) % 2 == 0
  {
    hide Two;
    EvenTwo(q - s);
    TopSplit(v, q, s);
    FieldTop(v, q, s);
    EvenSum(v / Two(s), v / Two(q), Two(q - s), (v % Two(q)) / Two(s));
  }

  /** The top of the low q bits, from the top of their complement. */
  lemma FieldTop(v: int, q: nat, s: nat)
    requires 0 <= v < B && s < q <= 64 && ((B - 1 - v) % Two(q)) / Two(s) == 1
    ensures (v % Two(q)) / Two(s) == Two(q - s) - 2
  {
    hide Two;
    LowBits(v, q);
    ComplementTop(v % Two(q), q, s);
  }

  lemma EvenSum(t: int, x: int, w: int, z: int)
    requires t == x * w + z && w % 2 == 0 && z == w - 2
    ensures t % 2 == 0
  {
    LastBit(x, w, z);
  }

  lemma LastBit(x: int, y: int, z: int)
    requires y % 2 == 0
    ensures (x * y + z) % 2 == z % 2
  {
    EvenProduct(x, y);
  }

  /** Parity of one more top bit. */
  lemma TopParity(a: nat, n: nat, t: nat, p: nat)
    requires t < n && 1 <= p <= 64
    ensures Top(a, n, 64 * t + p) % 2 == (LimbOf(a, n - 1 - t) / Two(64 - p)) % 2
  {
    hide Two, LimbOf, Top;
    TopExtend(a, n, t, p);
    EvenTwo(p);
    LastBit(Top(a, n, 64 * t), Two(p), LimbOf(a, n - 1 - t) / Two(64 - p));
  }

  /** Limb t from the top of both operands. */
  lemma LimbsFromTop(o: Operands, t: nat)
    requires o.Valid() && t <= o.n
    ensures t < o.n ==> LimbZ(o.ta, |o.ta| - 1 - t) == LimbOf(o.ValueA(), o.n - 1 - t)
    ensures t < o.n ==> GetBits(o.tb, 64 * (|o.tb| - 1) + o.d - 64 * t) == LimbOf(o.ValueB(), o.n - 1 - t)
    ensures t == o.n ==> LimbZ(o.ta, |o.ta| - 1 - t) == 0 && GetBits(o.tb, 64 * (|o.tb| - 1) + o.d - 64 * t) == 0
  {
    hide Two, Val, GetBits, LimbOf;
    if t < o.n {
      LimbsOfA(o, o.n - 1 - t);
      RawLimbsOfB(o, o.n - 1 - t);
    } else {
      GetBitsBelow(o.tb, 64 * (|o.tb| - 1) + o.d - 64 * t);
    }
  }

  /** Within limb t, where the top bits of a lead by one: what the matching bits add. */
  lemma LeadKept(o: Operands, t: nat, v1: Limb, v2: Limb, q: nat, p1: nat)
    requires o.Valid() && t < o.n && v1 == LimbOf(o.ValueA(), o.n - 1 - t) && v2 == LimbOf(o.ValueB(), o.n - 1 - t) && p1 <= q <= 64
    requires Top(o.ValueA(), o.n, 64 * t + (64 - q)) == Top(o.ValueB(), o.n, 64 * t + (64 - q)) + 1
    requires (v1 % Two(q)) / Two(q - p1) == 0 && ((B - 1 - v2) % Two(q)) / Two(q - p1) == 0
    ensures Top(o.ValueA(), o.n, 64 * t + (64 - q) + p1) == Top(o.ValueB(), o.n, 64 * t + (64 - q) + p1) + 1
  {
    hide Two, LimbOf, Top;
    var p := 64 - q;
    var a, b, n := o.ValueA(), o.ValueB(), o.n;
    Matching(v1, v2, q, p1);
    TopExtend(a, n, t, p);
    TopExtend(b, n, t, p);
    TopExtend(a, n, t, p + p1);
    TopExtend(b, n, t, p + p1);
    TwoAdd(p, p1);
    LeadAlgebra(Top(a, n, 64 * t), Top(b, n, 64 * t), Two(p), Two(p1), v1 / Two(q), v2 / Two(q));
  }

  lemma LeadAlgebra(x: int, y: int, u: int, w: int, g: int, h: int)
    requires x * u + g == y * u + h + 1
    ensures x * (u * w) + g * w == y * (u * w) + (h * w + w - 1) + 1
  {
    assert (x * u + g) * w == (y * u + h + 1) * w;
    assert (x * u) * w == x * (u * w) && (y * u) * w == y * (u * w);
  }

  /** The end of the count in limb t. */
  lemma CountEnds(o: Operands, t: nat, v1: Limb, v2: Limb, q: nat, p1: nat)
    requires o.Valid() && t < o.n && v1 == LimbOf(o.ValueA(), o.n - 1 - t) && v2 == LimbOf(o.ValueB(), o.n - 1 - t) && p1 < q <= 64
    requires Top(o.ValueA(), o.n, 64 * t + (64 - q) + p1) == Top(o.ValueB(), o.n, 64 * t + (64 - q) + p1) + 1
    requires (v1 % Two(q)) / Two(q - p1 - 1) == 1 || ((B - 1 - v2) % Two(q)) / Two(q - p1 - 1) == 1
    ensures Settled(o.ValueA(), o.ValueB(), o.n, 64 * t + (64 - q) + p1)
  {
    hide Two, LimbOf, Top, Settled;
    NextBit(v1, v2, q, p1);
    var p := 64 - q + p1 + 1;
    TopParity(o.ValueA(), o.n, t, p);
    TopParity(o.ValueB(), o.n, t, p);
    assert 64 - p == q - p1 - 1;
    LeadSettles(o.ValueA(), o.ValueB(), o.n, 64 * t + (64 - q) + p1);
  }

  /** How many of the q low bits of the limbs match, 0 against 1. */
  method MatchingBits(v1: Limb, v2: Limb, q: nat) returns (p1: nat)
    requires q <= 64
    ensures p1 <= q
    ensures (v1 % Two(q)) / Two(q - p1) == 0 && ((B - 1 - v2) % Two(q)) / Two(q - p1) == 0
    ensures p1 < q ==> (v1 % Two(q)) / Two(q - p1 - 1) == 1 || ((B - 1 - v2) % Two(q)) / Two(q - p1 - 1) == 1
  {
    hide Two, LeadingZeros;
    FieldFits(v1, q);
    FieldFits(B - 1 - v2, q);
    var r1: Limb, r2: Limb := v1 % Two(q), (B - 1 - v2) % Two(q);
    var z1, z2 := LeadingZeros(r1), LeadingZeros(r2);
    FieldZeros(r1, q, z1);
    FieldZeros(r2, q, z2);
    p1 := (if z1 < z2 then z1 else z2) - (64 - q);
    MoreZeros(r1, 64 - z1, q - p1);
    MoreZeros(r2, 64 - z2, q - p1);
  }

  lemma FieldFits(v: int, q: nat)
    requires 0 <= v < B && q <= 64
    ensures 0 <= v % Two(q) < Two(q) && v % Two(q) < B
  {
    hide Two;
    ModBelow(v, Two(q));
  }

  lemma FieldZeros(r: int, q: nat, z: nat)
    requires 0 <= r < Two(q) && q <= 64 && z <= 64 && (z < 64 ==> r / Two(63 - z) == 1)
    ensures z >= 64 - q
  {
    hide Two;
    if z < 64 - q {
      TwoMono(q, 63 - z);
      RemainderIs(r, Two(63 - z), 0, r);
    }
  }

  lemma MoreZeros(r: int, s: nat, s': nat)
    requires r >= 0 && s <= s' && r / Two(s) == 0
    ensures r / Two(s') == 0
  {
    hide Two;
    TwoMono(s, s');
    assert r == Two(s) * 0 + r % Two(s);
    RemainderIs(r, Two(s'), 0, r);
  }

  /** count_cancelled_bits */
  method CountCancelled(o: Operands) returns (c: nat)
    requires o.Valid() && o.ValueA() > o.ValueB()
    ensures Settled(o.ValueA(), o.ValueB(), o.n, c)
  {
    hide Two, Val, GetBits, LimbOf, Top, Settled, On;
    ghost var a, b, n := o.ValueA(), o.ValueB(), o.n;
    var la, lb := |o.ta|, |o.tb|;
    var t := 0;
    var v1, v2 := LimbZ(o.ta, la - 1), GetBits(o.tb, 64 * (lb - 1) + o.d);
    BelowTop(o);
    TopStart(a, n);
    TopStart(b, n);
    NotAtEnd(a, b, n, t);
    LimbsFromTop(o, t);
    while v1 == v2
      invariant 0 <= t < n && Top(a, n, 64 * t) == Top(b, n, 64 * t)
      invariant v1 == LimbOf(a, n - 1 - t) && v2 == LimbOf(b, n - 1 - t)
      decreases n - t
    {
      TopWhole(a, n, t);
      TopWhole(b, n, t);
      t := t + 1;
      NotAtEnd(a, b, n, t);
      LimbsFromTop(o, t);
      v1, v2 := LimbZ(o.ta, la - 1 - t), GetBits(o.tb, 64 * (lb - 1) + o.d - 64 * t);
    }
    FirstIsLarger(a, b, n, t, v1, v2);
    var p := LeadingZeros(IntegerLogic.LimbOp(IntegerLogic.Xor, v1, v2)) + 1;
    FirstLead(a, b, n, t, v1, v2, p);
    var q := 64 - p;
    if q > 0 {
      var p1 := MatchingBits(v1, v2, q);
      LeadKept(o, t, v1, v2, q, p1);
      if p1 != q {
        CountEnds(o, t, v1, v2, q, p1);
        return 64 * t + p + p1;
      }
    }
    t := t + 1;
    while true
      invariant 0 <= t <= n && Top(a, n, 64 * t) == Top(b, n, 64 * t) + 1
      decreases n - t
    {
      LimbsFromTop(o, t);
      v1, v2 := LimbZ(o.ta, la - 1 - t), GetBits(o.tb, 64 * (lb - 1) + o.d - 64 * t);
      if v1 != 0 || v2 != B - 1 {
        var p1 := MatchingBits(v1, v2, 64);
        AllMatch(v1, v2, p1);
        if t == n {
          ZerosDoNotMatch(p1);
          LeadAtEnd(a, b, n);
        } else {
          LeadKept(o, t, v1, v2, 64, p1);
          CountEnds(o, t, v1, v2, 64, p1);
        }
        return 64 * t + p1;
      }
      if t == n {
        assert false;
      }
      WholeMatch(o, t);
      t := t + 1;
    }
  }

  lemma TopStart(a: nat, n: nat)
    requires a < Two(64 * n)
    ensures Top(a, n, 0) == 0
  {
    hide Two;
    RemainderIs(a, Two(64 * n), 0, a);
  }

  /** Both operands lie below the exponent of the first. */
  lemma BelowTop(o: Operands)
    requires o.Valid()
    ensures o.ValueA() < Two(64 * o.n) && o.ValueB() < Two(64 * o.n)
  {
    hide Two, Val;
    OperandBound(o.ta, 64 * (o.n - |o.ta|), 64 * o.n);
    OperandBound(o.tb, o.Shift(), 64 * o.n);
  }

  lemma NotAtEnd(a: nat, b: nat, n: nat, t: nat)
    requires t <= n && a > b && Top(a, n, 64 * t) == Top(b, n, 64 * t)
    ensures t < n
  {
    if t == n {
      TwoZero();
      RemainderIs(a, 1, a, 0);
      RemainderIs(b, 1, b, 0);
    }
  }

  lemma TopWhole(a: nat, n: nat, t: nat)
    requires t < n
    ensures Top(a, n, 64 * (t + 1)) == Top(a, n, 64 * t) * B + LimbOf(a, n - 1 - t)
  {
    hide Two, LimbOf, Top;
    TopExtend(a, n, t, 64);
    LimbIsTwo64();
    TwoZero();
    RemainderIs(LimbOf(a, n - 1 - t), 1, LimbOf(a, n - 1 - t), 0);
  }

  lemma FirstIsLarger(a: nat, b: nat, n: nat, t: nat, v1: Limb, v2: Limb)
    requires t < n && a > b && Top(a, n, 64 * t) == Top(b, n, 64 * t) && v1 == LimbOf(a, n - 1 - t) && v2 == LimbOf(b, n - 1 - t) && v1 != v2
    ensures v1 > v2
  {
    hide Two, LimbOf;
    TopWhole(a, n, t);
    TopWhole(b, n, t);
    DivideMonotone(b, a, Two(64 * n - 64 * (t + 1)));
  }

  lemma FirstLead(a: nat, b: nat, n: nat, t: nat, v1: Limb, v2: Limb, p: nat)
    requires t < n && Top(a, n, 64 * t) == Top(b, n, 64 * t) && v1 == LimbOf(a, n - 1 - t) && v2 == LimbOf(b, n - 1 - t) && v1 > v2
    requires p == LeadingZeros(IntegerLogic.LimbOp(IntegerLogic.Xor, v1, v2)) + 1
    ensures p <= 64 && Top(a, n, 64 * t + p) == Top(b, n, 64 * t + p) + 1
  {
    hide Two, LimbOf, Top, LeadingZeros;
    FirstDifference(v1, v2, p - 1);
    TopExtend(a, n, t, p);
    TopExtend(b, n, t, p);
  }

  lemma AllMatch(v1: Limb, v2: Limb, p1: nat)
    requires v1 != 0 || v2 != B - 1
    requires p1 <= 64 && (v1 % Two(64)) / Two(64 - p1) == 0 && ((B - 1 - v2) % Two(64)) / Two(64 - p1) == 0
    ensures p1 < 64
  {
    LimbIsTwo64();
    TwoZero();
    SmallModulus(v1, B);
    SmallModulus(B - 1 - v2, B);
  }

  lemma ZerosDoNotMatch(p1: nat)
    requires p1 <= 64 && ((B - 1) % Two(64)) / Two(64 - p1) == 0
    ensures p1 == 0
  {
    hide Two;
    LimbIsTwo64();
    SmallModulus(B - 1, B);
    var u := Two(64 - p1);
    assert B - 1 == u * ((B - 1) / u) + (B - 1) % u;
    if p1 > 0 {
      TwoMono(64 - p1, 63);
      HalfIsTwo63();
    }
  }

  lemma WholeMatch(o: Operands, t: nat)
    requires o.Valid() && t < o.n && LimbOf(o.ValueA(), o.n - 1 - t) == 0 && LimbOf(o.ValueB(), o.n - 1 - t) == B - 1
    requires Top(o.ValueA(), o.n, 64 * t) == Top(o.ValueB(), o.n, 64 * t) + 1
    ensures Top(o.ValueA(), o.n, 64 * (t + 1)) == Top(o.ValueB(), o.n, 64 * (t + 1)) + 1
  {
    hide Two, LimbOf, Top;
    TopWhole(o.ValueA(), o.n, t);
    TopWhole(o.ValueB(), o.n, t);
  }
}
