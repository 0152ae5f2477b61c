/**
 The mp_* kernels of qjs/libbf.c: carry and borrow loops over limb buffers.

 A C pointer into a limb buffer is an array together with an offset.  The destination
 may overlap an operand the way the callers overlap them: a loop that runs upwards needs
 the operand not to lie below the destination, a loop that runs downwards not above it.
 */
module LimbKernels {
  import opened Limbs

  ghost predicate SafeUp(res: array<Limb>, ro: nat, x: array<Limb>, xo: nat, n: nat) {
    res != x || ro <= xo || xo + n <= ro
  }

  ghost predicate SafeDown(res: array<Limb>, ro: nat, x: array<Limb>, xo: nat, n: nat) {
    res != x || xo <= ro || ro + n <= xo
  }

  /** One more limb of a sum: pre holds the low limbs, k the carry into position |pre|. */
  lemma AddStep(pre: seq<Limb>, v: Limb, k': int, xs: seq<Limb>, y: int, yi: int, k: int, c: int)
    requires |pre| < |xs|
    requires Val(pre) + k * Pow(|pre|) == Val(xs[..|pre|]) + y + c
    requires v + B * k' == xs[|pre|] + yi + k
    ensures Val(pre + [v]) + k' * Pow(|pre| + 1) == Val(xs[..|pre| + 1]) + (y + Pow(|pre|) * yi) + c
  {
    hide Val, Pow;
    var i := |pre|;
    ValSnoc(pre, v);
    ValNext(xs, i);
    Lift(Pow(i), v, k', xs[i], yi, k);
  }

  lemma Lift(p: int, r: int, k': int, x: int, y: int, k: int)
    requires r + B * k' == x + y + k
    ensures p * r + k' * (B * p) == p * x + p * y + k * p
  {
    assert p * (r + B * k') == p * (x + y + k);
  }

  /** One limb of a sum, and the carry out of it. */
  function AddLimbs(x: Limb, y: Limb, k: Limb): (r: (Limb, Limb))
    requires k <= 1
    ensures r.1 <= 1 && r.0 + B * r.1 - x - y - k == 0
  {
    var a := WrapAdd(x, y);
    var k1 := Bit(a < x);
    var v := WrapAdd(a, k);
    (v, if v < k || k1 == 1 then 1 else 0)
  }

  /** mp_add: res = x + y + carry; the carry out is returned. */
  method MpAdd(res: array<Limb>, ro: nat, x: array<Limb>, xo: nat, y: array<Limb>, yo: nat, n: nat, carry: Limb)
    returns (k: Limb)
    requires ro + n <= res.Length && xo + n <= x.Length && yo + n <= y.Length && carry <= 1
    requires SafeUp(res, ro, x, xo, n) && SafeUp(res, ro, y, yo, n)
    modifies res
    ensures OnlyWithin(res, ro, ro + n)
    ensures k <= 1
    ensures Val(res[ro..ro + n]) + k * Pow(n) == old(Val(x[xo..xo + n])) + old(Val(y[yo..yo + n])) + carry
  {
    hide Val, Pow, AddLimbs;
    ValBase();
    ghost var xs, ys := x[xo..xo + n], y[yo..yo + n];
    k := carry;
    var i := 0;
    while i < n
      invariant i <= n && k <= 1
      invariant forall j :: 0 <= j < ro || ro + i <= j < res.Length ==> res[j] == old(res[j])
      invariant forall j :: i <= j < n ==> x[xo + j] == xs[j] && y[yo + j] == ys[j]
      invariant Val(res[ro..ro + i]) + k * Pow(i) == Val(xs[..i]) + Val(ys[..i]) + carry
    {
      ghost var k0 := k;
      assert x[xo + i] == xs[i] && y[yo + i] == ys[i];
      var ak := AddLimbs(x[xo + i], y[yo + i], k);
      k := ak.1;
      ghost var before: seq<Limb> := res[ro..ro + i];
      res[ro + i] := ak.0;
      assert res[ro..ro + i + 1] == before + [ak.0];
      AddStep(before, ak.0, k, xs, Val(ys[..i]), ys[i], k0, carry);
      ValNext(ys, i);
      i := i + 1;
    }
    assert xs[..n] == xs && ys[..n] == ys;
  }

  lemma SubStep(pre: seq<Limb>, v: Limb, k': int, xs: seq<Limb>, ys: seq<Limb>, k: int, c: int)
    requires |pre| < |xs| == |ys|
    requires Val(pre) - k * Pow(|pre|) == Val(xs[..|pre|]) - Val(ys[..|pre|]) - c
    requires v - B * k' - xs[|pre|] + ys[|pre|] + k == 0
    ensures Val(pre + [v]) - k' * Pow(|pre| + 1) == Val(xs[..|pre| + 1]) - Val(ys[..|pre| + 1]) - c
  {
    hide Val, Pow;
    var yi: int := ys[|pre|];
    AddStep(pre, v, -k', xs, -Val(ys[..|pre|]), -yi, -k, -c);
    ValNext(ys, |pre|);
  }

  lemma NegStep(pre: seq<Limb>, v: Limb, k': int, ys: seq<Limb>, k: int)
    requires |pre| < |ys|
    requires Val(pre) - k * Pow(|pre|) == -Val(ys[..|pre|])
    requires v - B * k' + ys[|pre|] + k == 0
    ensures Val(pre + [v]) - k' * Pow(|pre| + 1) == -Val(ys[..|pre| + 1])
  {
    hide Val, Pow;
    ValSnoc(pre, v);
    ValNext(ys, |pre|);
    var yi: int := ys[|pre|];
    Lift(Pow(|pre|), v, -k', -yi, 0, -k);
  }

  /** One limb of a difference, and the borrow out of it. */
  function SubLimbs(x: Limb, y: Limb, k: Limb): (r: (Limb, Limb))
    requires k <= 1
    ensures r.1 <= 1 && r.0 - B * r.1 - x + y + k == 0
  {
    var a := WrapSub(x, y);
    var k1 := Bit(a > x);
    var v := WrapSub(a, k);
    (v, if v > a || k1 == 1 then 1 else 0)
  }

  /** mp_sub: res = x - y - carry; the borrow out is returned. */
  method MpSub(res: array<Limb>, ro: nat, x: array<Limb>, xo: nat, y: array<Limb>, yo: nat, n: nat, carry: Limb)
    returns (k: Limb)
    requires ro + n <= res.Length && xo + n <= x.Length && yo + n <= y.Length && carry <= 1
    requires SafeUp(res, ro, x, xo, n) && SafeUp(res, ro, y, yo, n)
    modifies res
    ensures OnlyWithin(res, ro, ro + n)
    ensures k <= 1
    ensures Val(res[ro..ro + n]) - k * Pow(n) == old(Val(x[xo..xo + n])) - old(Val(y[yo..yo + n])) - carry
  {
    hide Val, Pow, SubLimbs;
    ValBase();
    ghost var xs, ys := x[xo..xo + n], y[yo..yo + n];
    k := carry;
    var i := 0;
    while i < n
      invariant i <= n && k <= 1
      invariant forall j :: 0 <= j < ro || ro + i <= j < res.Length ==> res[j] == old(res[j])
      invariant forall j :: i <= j < n ==> x[xo + j] == xs[j] && y[yo + j] == ys[j]
      invariant Val(res[ro..ro + i]) - k * Pow(i) == Val(xs[..i]) - Val(ys[..i]) - carry
    {
      ghost var k0 := k;
      assert x[xo + i] == xs[i] && y[yo + i] == ys[i];
      var vk := SubLimbs(x[xo + i], y[yo + i], k);
      k := vk.1;
      ghost var before: seq<Limb> := res[ro..ro + i];
      res[ro + i] := vk.0;
      assert res[ro..ro + i + 1] == before + [vk.0];
      SubStep(before, vk.0, k, xs, ys, k0, carry);
      i := i + 1;
    }
    assert xs[..n] == xs && ys[..n] == ys;
  }

  /** mp_neg: res = 0 - y, in place as mp_recip calls it; the borrow out is returned. */
  method MpNeg(res: array<Limb>, n: nat) returns (k: Limb)
    requires n <= res.Length
    modifies res
    ensures OnlyWithin(res, 0, n)
    ensures k <= 1
    ensures Val(res[..n]) - k * Pow(n) == -old(Val(res[..n]))
  {
    hide Val, Pow;
    ValBase();
    ghost var ys := res[..n];
    k := 0;
    var i := 0;
    while i < n
      invariant i <= n && k <= 1
      invariant forall j :: i <= j < res.Length ==> res[j] == old(res[j])
      invariant Val(res[..i]) - k * Pow(i) == -Val(ys[..i])
    {
      ghost var k0 := k;
      assert res[i] == ys[i];
      var a := WrapSub(0, res[i]);
      var k1 := Bit(a > 0);
      var v := WrapSub(a, k);
      k := if v > a || k1 == 1 then 1 else 0;
      assert v - B * k + ys[i] + k0 == 0;
      ghost var before: seq<Limb> := res[..i];
      res[i] := v;
      assert res[..i + 1] == before + [v];
      NegStep(before, v, k, ys, k0);
      i := i + 1;
    }
    assert ys[..n] == ys;
  }

  /** mp_add_ui: add one limb, stopping as soon as no carry is left. */
  method MpAddUi(tab: array<Limb>, o: nat, b: Limb, n: nat) returns (k: Limb)
    requires o + n <= tab.Length
    modifies tab
    ensures OnlyWithin(tab, o, o + n)
    ensures n > 0 ==> k <= 1
    ensures Val(tab[o..o + n]) + k * Pow(n) == old(Val(tab[o..o + n])) + b
  {
    hide Val, Pow;
    ValBase();
    ghost var ts := tab[o..o + n];
    k := b;
    var i := 0;
    while i < n && k != 0
      invariant i <= n && (i > 0 ==> k <= 1)
      invariant forall j :: 0 <= j < o || o + i <= j < tab.Length ==> tab[j] == old(tab[j])
      invariant Val(tab[o..o + i]) + k * Pow(i) == Val(ts[..i]) + b
    {
      ghost var k0 := k;
      assert tab[o + i] == ts[i];
      var a := WrapAdd(tab[o + i], k);
      k := Bit(a < k);
      assert a + B * k - ts[i] - k0 == 0;
      ghost var before: seq<Limb> := tab[o..o + i];
      tab[o + i] := a;
      assert tab[o..o + i + 1] == before + [a];
      AddStep(before, a, k, ts, 0, 0, k0, b);
      i := i + 1;
    }
    assert tab[o..o + n][..i] == tab[o..o + i] && tab[o..o + n][i..] == ts[i..];
    FinishEarly(tab[o..o + n], ts, i);
    if k == 0 {
      assert k * Pow(n) == 0 && k * Pow(i) == 0;
    }
  }

  /** Prefixes that differ by d give numbers that differ by d when the rest agrees. */
  lemma FinishEarly(s: seq<Limb>, t: seq<Limb>, i: nat)
    requires |s| == |t| && i <= |s| && s[i..] == t[i..]
    ensures Val(s) - Val(t) == Val(s[..i]) - Val(t[..i])
  {
    hide Val, Pow;
    ValSplit(s, i);
    ValSplit(t, i);
  }

  lemma SubUiStep(pre: seq<Limb>, v: Limb, k': int, ts: seq<Limb>, k: int, c: int)
    requires |pre| < |ts|
    requires Val(pre) - k * Pow(|pre|) == Val(ts[..|pre|]) - c
    requires v - B * k' - ts[|pre|] + k == 0
    ensures Val(pre + [v]) - k' * Pow(|pre| + 1) == Val(ts[..|pre| + 1]) - c
  {
    hide Val, Pow;
    AddStep(pre, v, -k', ts, 0, 0, -k, -c);
  }

  /** One limb of it: v - k and the borrow. */
  function SubUiLimb(v: Limb, k: Limb): (r: (Limb, Limb))
    ensures r.1 <= 1 && r.0 - B * r.1 - v + k == 0
  {
    var a := WrapSub(v, k);
    (a, Bit(a > v))
  }

  /** mp_sub_ui: subtract one limb, stopping as soon as no borrow is left. */
  method MpSubUi(tab: array<Limb>, o: nat, b: Limb, n: nat) returns (k: Limb)
    requires o + n <= tab.Length
    modifies tab
    ensures OnlyWithin(tab, o, o + n)
    ensures n > 0 ==> k <= 1
    ensures n == 0 ==> k == b
    ensures Val(tab[o..o + n]) - k * Pow(n) == old(Val(tab[o..o + n])) - b
  {
    hide Val, Pow;
    ValBase();
    ghost var ts := tab[o..o + n];
    k := b;
    var i := 0;
    while i < n && (i == 0 || k != 0)
      invariant i <= n && (i > 0 ==> k <= 1)
      invariant forall j :: 0 <= j < o || o + i <= j < tab.Length ==> tab[j] == old(tab[j])
      invariant Val(tab[o..o + i]) - k * Pow(i) == Val(ts[..i]) - b
    {
      ghost var k0, before: seq<Limb> := k, tab[o..o + i];
      assert tab[o + i] == ts[i];
      var ak := SubUiLimb(tab[o + i], k);
      tab[o + i] := ak.0;
      k := ak.1;
      assert tab[o..o + i + 1] == before + [ak.0];
      SubUiStep(before, ak.0, k, ts, k0, b);
      i := i + 1;
    }
    assert tab[o..o + n][..i] == tab[o..o + i] && tab[o..o + n][i..] == ts[i..];
    FinishEarly(tab[o..o + n], ts, i);
    if k == 0 {
      assert k * Pow(n) == 0 && k * Pow(i) == 0;
    }
  }

  // ---- multiplication by one limb ----

  lemma LimbProduct(x: int, y: int)
    requires 0 <= x < B && 0 <= y < B
    ensures 0 <= x * y <= (B - 1) * (B - 1)
  {
    MulMono(x, 0, y);
    MulMono(x, y, B - 1);
    MulMono(B - 1, x, B - 1);
    assert x * (B - 1) == (B - 1) * x;
  }

  /** One more limb of y + x * b: pre holds the low limbs, l the carry into position |pre|. */
  lemma MulStep(pre: seq<Limb>, v: Limb, l': int, xs: seq<Limb>, b: int, y: int, yi: int, l: int)
    requires |pre| < |xs|
    requires Val(pre) + l * Pow(|pre|) == y + Val(xs[..|pre|]) * b
    requires v + B * l' == xs[|pre|] * b + yi + l
    ensures Val(pre + [v]) + l' * Pow(|pre| + 1) == (y + Pow(|pre|) * yi) + Val(xs[..|pre| + 1]) * b
  {
    hide Val, Pow;
    var i := |pre|;
    var p := Pow(i);
    ValSnoc(pre, v);
    ValNext(xs, i);
    var x: int := xs[i];
    Lift(p, v, l', x * b, yi, l);
    Distribute(Val(xs[..i]), p, x, b);
  }

  lemma Distribute(s: int, p: int, x: int, b: int)
    ensures (s + p * x) * b == s * b + p * (x * b)
  {
  }

  /** The double-limb value t splits into its two halves. */
  lemma SplitWide(t: int)
    requires 0 <= t < B * B
    ensures 0 <= t % B < B && 0 <= t / B < B && t % B + B * (t / B) == t
  {
  }

  /** mp_mul1: res = x * b + l; the high limb is returned. */
  method MpMul1(res: array<Limb>, ro: nat, x: array<Limb>, xo: nat, n: nat, b: Limb, l0: Limb) returns (l: Limb)
    requires ro + n <= res.Length && xo + n <= x.Length && SafeUp(res, ro, x, xo, n)
    modifies res
    ensures OnlyWithin(res, ro, ro + n)
    ensures Val(res[ro..ro + n]) + l * Pow(n) == old(Val(x[xo..xo + n])) * b + l0
  {
    hide Val, Pow;
    ValBase();
    ghost var xs := x[xo..xo + n];
    l := l0;
    var i := 0;
    while i < n
      invariant i <= n
      invariant forall j :: 0 <= j < ro || ro + i <= j < res.Length ==> res[j] == old(res[j])
      invariant forall j :: i <= j < n ==> x[xo + j] == xs[j]
      invariant Val(res[ro..ro + i]) + l * Pow(i) == Val(xs[..i]) * b + l0
    {
      ghost var before, k0 := res[ro..ro + i], l;
      assert x[xo + i] == xs[i];
      LimbProduct(x[xo + i], b);
      var t := x[xo + i] * b + l;
      SplitWide(t);
      res[ro + i] := t % B;
      l := t / B;
      assert res[ro..ro + i + 1] == before + [t % B];
      MulStep(before, t % B, l, xs, b, l0, 0, k0);
      i := i + 1;
    }
    assert xs[..n] == xs;
  }

  /** mp_add_mul1: res += x * b; the high limb is returned. */
  method MpAddMul1(res: array<Limb>, ro: nat, x: array<Limb>, xo: nat, n: nat, b: Limb) returns (l: Limb)
    requires ro + n <= res.Length && xo + n <= x.Length && res != x
    modifies res
    ensures OnlyWithin(res, ro, ro + n)
    ensures Val(res[ro..ro + n]) + l * Pow(n) == old(Val(res[ro..ro + n])) + Val(x[xo..xo + n]) * b
  {
    hide Val, Pow;
    ValBase();
    ghost var xs, rs := x[xo..xo + n], res[ro..ro + n];
    l := 0;
    var i := 0;
    while i < n
      invariant i <= n
      invariant forall j :: 0 <= j < ro || ro + i <= j < res.Length ==> res[j] == old(res[j])
      invariant Val(res[ro..ro + i]) + l * Pow(i) == Val(rs[..i]) + Val(xs[..i]) * b
    {
      ghost var before, k0 := res[ro..ro + i], l;
      assert x[xo + i] == xs[i] && res[ro + i] == rs[i];
      LimbProduct(x[xo + i], b);
      var t := x[xo + i] * b + l + res[ro + i];
      SplitWide(t);
      res[ro + i] := t % B;
      l := t / B;
      assert res[ro..ro + i + 1] == before + [t % B];
      MulStep(before, t % B, l, xs, b, Val(rs[..i]), rs[i], k0);
      ValNext(rs, i);
      i := i + 1;
    }
    assert xs[..n] == xs && rs[..n] == rs;
  }

  /** The double-limb difference wraps at B * B; its negated high half is the next borrow. */
  lemma WideBorrow(r: int, prod: int, l: int)
    requires 0 <= r < B && 0 <= l < B
    requires 0 <= prod <= (B - 1) * (B - 1)
    ensures var t := (r - prod - l) % (B * B);
            0 <= t / B < B && (B - t / B) % B < B
            && t % B - B * ((B - t / B) % B) == r - prod - l
  {
    var d := r - prod - l;
    var t := d % (B * B);
    if d >= 0 {
      assert t == d && t / B == 0;
    } else {
      assert t == d + B * B;
      assert t / B >= 1;
    }
  }

  lemma NegateProduct(x: int, y: int)
    ensures x * -y == -(x * y)
  {
  }

  lemma SubMulStep(pre: seq<Limb>, v: Limb, l': int, xs: seq<Limb>, b: int, rs: seq<Limb>, l: int)
    requires |pre| < |xs| == |rs|
    requires Val(pre) - l * Pow(|pre|) == Val(rs[..|pre|]) - Val(xs[..|pre|]) * b
    requires v - B * l' == rs[|pre|] - xs[|pre|] * b - l
    ensures Val(pre + [v]) - l' * Pow(|pre| + 1) == Val(rs[..|pre| + 1]) - Val(xs[..|pre| + 1]) * b
  {
    hide Val, Pow;
    var i := |pre|;
    var x: int, rv, y: int, l1, l2 := xs[i], Val(rs[..i]), rs[i], -l, -l';
    NegateProduct(x, b);
    NegateProduct(Val(xs[..i]), b);
    NegateProduct(Val(xs[..i + 1]), b);
    NegatedBy(l, Pow(i));
    NegatedBy(l', Pow(i + 1));
    MulStep(pre, v, l2, xs, -b, rv, y, l1);
    ValNext(rs, i);
  }

  lemma NegatedBy(l: int, p: int)
    ensures -l * p == -(l * p)
  {
  }

  /** One limb of it: the low half of r - x * b - l, and what the next limb up still has to give. */
  function SubMulLimb(r: Limb, x: Limb, b: Limb, l: Limb): (vl: (Limb, Limb))
    ensures vl.0 - B * vl.1 == r - x * b - l
  {
    LimbProduct(x, b);
    WideBorrow(r, x * b, l);
    var t := (r - x * b - l) % (B * B);
    (t % B, (B - t / B) % B)
  }

  /** mp_sub_mul1: res -= x * b; returns the amount still to take from the next limb. */
  method MpSubMul1(res: array<Limb>, ro: nat, x: array<Limb>, xo: nat, n: nat, b: Limb) returns (l: Limb)
    requires ro + n <= res.Length && xo + n <= x.Length && res != x
    modifies res
    ensures OnlyWithin(res, ro, ro + n)
    ensures Val(res[ro..ro + n]) - l * Pow(n) == old(Val(res[ro..ro + n])) - Val(x[xo..xo + n]) * b
  {
    hide Val, Pow;
    ValBase();
    ghost var xs, rs := x[xo..xo + n], res[ro..ro + n];
    l := 0;
    var i := 0;
    while i < n
      invariant i <= n
      invariant forall j :: 0 <= j < ro || ro + i <= j < res.Length ==> res[j] == old(res[j])
      invariant Val(res[ro..ro + i]) - l * Pow(i) == Val(rs[..i]) - Val(xs[..i]) * b
    {
      ghost var before: seq<Limb>, k0 := res[ro..ro + i], l;
      assert x[xo + i] == xs[i] && res[ro + i] == rs[i];
      var vl := SubMulLimb(res[ro + i], x[xo + i], b, l);
      res[ro + i] := vl.0;
      l := vl.1;
      assert res[ro..ro + i + 1] == before + [vl.0];
      SubMulStep(before, vl.0, l, xs, b, rs, k0);
      i := i + 1;
    }
    assert xs[..n] == xs && rs[..n] == rs;
  }

  /** mp_mul_basecase: res = x * y exactly. */
  method MpMulBasecase(res: array<Limb>, ro: nat, x: array<Limb>, xo: nat, n: nat, y: array<Limb>, yo: nat, m: nat)
    requires m >= 1 && ro + n + m <= res.Length && xo + n <= x.Length && yo + m <= y.Length
    requires res != x && res != y
    modifies res
    ensures OnlyWithin(res, ro, ro + n + m)
    ensures Val(res[ro..ro + n + m]) == Val(x[xo..xo + n]) * Val(y[yo..yo + m])
  {
    hide Val, Pow;
    ghost var xs, ys := x[xo..xo + n], y[yo..yo + m];
    var h := MpMul1(res, ro, x, xo, n, y[yo], 0);
    ghost var low := res[ro..ro + n];
    res[ro + n] := h;
    assert res[ro..ro + n + 1] == low + [h];
    ValSnoc(low, h);
    assert ys[..1] == [ys[0]];
    ValSingle(ys[0]);
    var i := 1;
    while i < m
      invariant 1 <= i <= m
      invariant OnlyWithin(res, ro, ro + n + m)
      invariant Val(res[ro..ro + n + i]) == Val(xs) * Val(ys[..i])
    {
      MulRowInPlace(res, ro, x, xo, n, y[yo + i], i, Val(xs), ys);
      i := i + 1;
    }
    assert ys[..m] == ys;
  }

  /** One pass of the outer loop of mp_mul_basecase. */
  method MulRowInPlace(res: array<Limb>, ro: nat, x: array<Limb>, xo: nat, n: nat, b: Limb, i: nat,
                       ghost xv: int, ghost ys: seq<Limb>)
    requires ro + n + i + 1 <= res.Length && xo + n <= x.Length && res != x
    requires i < |ys| && b == ys[i] && xv == Val(x[xo..xo + n])
    requires Val(res[ro..ro + n + i]) == xv * Val(ys[..i])
    modifies res
    ensures OnlyWithin(res, ro, ro + n + i + 1)
    ensures Val(res[ro..ro + n + i + 1]) == xv * Val(ys[..i + 1])
  {
    hide Val, Pow;
    ghost var all: seq<Limb> := res[..];
    ghost var r0: seq<Limb>, low: seq<Limb> := all[ro..ro + n + i], all[ro..ro + i];
    PartOfPart(all, ro, ro + n + i, 0, i);
    PartOfPart(all, ro, ro + n + i, i, i + n);
    assert r0 == res[ro..ro + n + i] && low == res[ro..ro + i] && res[ro + i..ro + i + n] == r0[i..];
    var r := MpAddMul1(res, ro + i, x, xo, n, b);
    ghost var mid: seq<Limb> := res[ro + i..ro + i + n];
    assert res[ro..ro + i] == low;
    res[ro + n + i] := r;
    assert res[ro..ro + i] == low && res[ro + i..ro + i + n] == mid;
    ThreeParts(res[..], ro, i, n);
    assert res[ro..ro + i + n + 1] == low + (mid + [r]);
    MulRow(r0, i, mid, r, xv, ys);
  }

  /** Adding one row of the schoolbook product. */
  lemma MulRow(r0: seq<Limb>, i: nat, mid: seq<Limb>, r: Limb, x: nat, ys: seq<Limb>)
    requires i < |ys| && i <= |r0|
    requires Val(r0) == x * Val(ys[..i])
    requires Val(mid) + r * Pow(|mid|) == Val(r0[i..]) + x * ys[i]
    ensures Val(r0[..i] + (mid + [r])) == x * Val(ys[..i + 1])
  {
    hide Val, Pow;
    ValConcat(r0[..i], mid + [r]);
    ValSnoc(mid, r);
    ValSplit(r0, i);
    ValNext(ys, i);
    var p := Pow(i);
    RowAlgebra(Val(r0[..i]), Val(r0[i..]), Val(mid), r, Pow(|mid|), p, x, ys[i], Val(ys[..i]));
  }

  lemma RowAlgebra(low: int, high: int, mid: int, r: int, q: int, p: int, x: int, y: int, v: int)
    requires mid + r * q == high + x * y && low + p * high == x * v
    ensures low + p * (mid + q * r) == x * (v + p * y)
  {
    assert r * q == q * r;
    assert p * (high + x * y) == p * high + x * (p * y) by { MulAssoc(p, x, y); MulAssoc(x, p, y); }
    assert x * (v + p * y) == x * v + x * (p * y);
  }

  // ---- shifts and comparison ----

  /** One more limb of a one-bit right shift, from the top down. */
  lemma ShrStep(after: seq<Limb>, r: Limb, rs: seq<Limb>, i: nat, high: int, low: int, a: int)
    requires i < |rs| && a == rs[i] && r == a / 2 + low * HALF
    requires 2 * Val(after) + low == Val(rs[i + 1..]) + high * Pow(|rs| - i - 1)
    ensures 2 * Val([r] + after) + a % 2 == Val(rs[i..]) + high * Pow(|rs| - i)
  {
    hide Val, Pow;
    ValCons(r, after);
    ValPrev(rs, i);
    PowNext(|rs| - i - 1);
    assert high * (B * Pow(|rs| - i - 1)) == B * (high * Pow(|rs| - i - 1));
  }

  /** mp_shr by one bit in place, as the square root uses it: (res + high * B^n) / 2. */
  method MpShr1(res: array<Limb>, o: nat, n: nat, high: Limb) returns (low: Limb)
    requires o + n <= res.Length && high <= 1
    modifies res
    ensures OnlyWithin(res, o, o + n)
    ensures low <= 1
    ensures 2 * Val(res[o..o + n]) + low == old(Val(res[o..o + n])) + high * Pow(n)
  {
    hide Val, Pow;
    ValBase();
    ghost var rs := res[o..o + n];
    var l := high;
    var i := n;
    while i > 0
      invariant 0 <= i <= n
      invariant forall j :: 0 <= j < o + i || o + n <= j < res.Length ==> res[j] == old(res[j])
      invariant l == (if i == n then high else rs[i])
      invariant 2 * Val(res[o + i..o + n]) + l % 2 == Val(rs[i..]) + high * Pow(n - i)
    {
      ghost var after := res[o + i..o + n];
      i := i - 1;
      assert res[o + i] == rs[i];
      var a := res[o + i];
      var r := a / 2 + (l % 2) * HALF;
      res[o + i] := r;
      assert res[o + i..o + n] == [r] + after;
      ShrStep(after, r, rs, i, high, l % 2, a);
      l := a;
    }
    low := l % 2;
    assert rs[0..] == rs;
  }

  /** The limb-by-limb copies between two buffers. */
  method CopyLimbs(dst: array<Limb>, d: nat, src: array<Limb>, o: nat, n: nat)
    requires dst != src && d + n <= dst.Length && o + n <= src.Length
    modifies dst
    ensures OnlyWithin(dst, d, d + n)
    ensures dst[d..d + n] == src[o..o + n]
  {
    var i := 0;
    while i < n
      invariant i <= n
      invariant forall j :: 0 <= j < d || d + i <= j < dst.Length ==> dst[j] == old(dst[j])
      invariant dst[d..d + i] == src[o..o + i]
    {
      ghost var before: seq<Limb> := dst[d..d + i];
      dst[d + i] := src[o + i];
      assert dst[d..d + i + 1] == before + [src[o + i]] == src[o..o + i + 1];
      i := i + 1;
    }
  }

  /** The loops that clear a buffer. */
  method ClearLimbs(dst: array<Limb>, n: nat)
    requires n <= dst.Length
    modifies dst
    ensures OnlyWithin(dst, 0, n)
    ensures forall j :: 0 <= j < n ==> dst[j] == 0
  {
    var i := 0;
    while i < n
      invariant i <= n
      invariant forall j :: i <= j < dst.Length ==> dst[j] == old(dst[j])
      invariant forall j :: 0 <= j < i ==> dst[j] == 0
    {
      dst[i] := 0;
      i := i + 1;
    }
  }

  /** mp_cmp. */
  method MpCmp(x: array<Limb>, xo: nat, y: array<Limb>, yo: nat, n: nat) returns (c: int)
    requires xo + n <= x.Length && yo + n <= y.Length
    ensures -1 <= c <= 1
    ensures c < 0 <==> Val(x[xo..xo + n]) < Val(y[yo..yo + n])
    ensures c == 0 <==> x[xo..xo + n] == y[yo..yo + n]
    ensures c > 0 <==> Val(x[xo..xo + n]) > Val(y[yo..yo + n])
  {
    hide Val, Pow;
    ghost var xs, ys := x[xo..xo + n], y[yo..yo + n];
    var i := n;
    while i > 0
      invariant 0 <= i <= n
      invariant xs[i..] == ys[i..]
    {
      i := i - 1;
      assert x[xo + i] == xs[i] && y[yo + i] == ys[i];
      if x[xo + i] != y[yo + i] {
        FirstDifference(xs, ys, i);
        return if x[xo + i] < y[yo + i] then -1 else 1;
      }
      assert xs[i..] == [xs[i]] + xs[i + 1..] && ys[i..] == [ys[i]] + ys[i + 1..];
    }
    assert xs[0..] == xs && ys[0..] == ys;
    return 0;
  }

  /** The highest differing limb decides the order. */
  lemma FirstDifference(s: seq<Limb>, t: seq<Limb>, i: nat)
    requires |s| == |t| && i < |s| && s[i] != t[i] && s[i + 1..] == t[i + 1..]
    ensures s[i] < t[i] <==> Val(s) < Val(t)
    ensures Val(s) != Val(t)
  {
    hide Val, Pow;
    FinishEarly(s, t, i + 1);
    assert s[..i + 1][..i] == s[..i] && t[..i + 1][..i] == t[..i];
    ValTop(s[..i + 1]);
    ValTop(t[..i + 1]);
    if s[i] < t[i] {
      MulMono(Pow(i), s[i] + 1, t[i]);
    } else {
      MulMono(Pow(i), t[i] + 1, s[i]);
    }
  }

  /** mp_scan_nz: whether some limb is non-zero. */
  method MpScanNz(tab: array<Limb>, n: nat) returns (nz: bool)
    requires n <= tab.Length
    ensures nz <==> Val(tab[..n]) != 0
  {
    ValZero(tab[..n]);
    var i := 0;
    while i < n
      invariant i <= n
      invariant forall j :: 0 <= j < i ==> tab[j] == 0
    {
      if tab[i] != 0 {
        return true;
      }
      i := i + 1;
    }
    return false;
  }
}
