/**
 The number-theoretic transform as evaluation of polynomials at the powers of a root of unity:
 halving, inversion and the convolution theorem, modulo any m with such a root.
 */
module NttTheory {
  import opened Bits
  import opened RoundingTheory
  import opened RadixConversion
  import opened NttArithmetic
  import Limbs

  // ---- powers modulo m ----

  lemma {:induction false} PowerCong(a: int, b: int, k: nat, m: int)
    requires m > 0 && Cong(a, b, m)
    ensures Cong(Power(a, k), Power(b, k), m)
    decreases k
  {
    if k == 0 {
      CongRefl(1, m);
    } else {
      PowerCong(a, b, k - 1, m);
      CongMul(a, b, Power(a, k - 1), Power(b, k - 1), m);
    }
  }

  lemma {:induction false} PowerMul(x: int, a: nat, b: nat)
    ensures a * b >= 0 && Power(x, a * b) == Power(Power(x, a), b)
    decreases b
  {
    if b == 0 {
    } else {
      PowerMul(x, a, b - 1);
      assert a * b == a + a * (b - 1);
      PowerAdd(x, a, a * (b - 1));
    }
  }

  lemma {:induction false} PowerProduct(x: int, y: int, k: nat)
    ensures Power(x * y, k) == Power(x, k) * Power(y, k)
    decreases k
  {
    if k > 0 {
      PowerProduct(x, y, k - 1);
      var p, q := Power(x, k - 1), Power(y, k - 1);
      assert (x * y) * (p * q) == (x * p) * (y * q) by { Swap(x, y, p, q); }
    }
  }

  lemma Swap(x: int, y: int, p: int, q: int)
    ensures (x * y) * (p * q) == (x * p) * (y * q)
  {
  }

  lemma {:induction false} PowerOne(k: nat)
    ensures Power(1, k) == 1
  {
    if k > 0 {
      PowerOne(k - 1);
    }
  }

  lemma PowerTwice(x: int, k: nat)
    ensures Power(x, 2 * k) == Power(x * x, k) && Power(x, 2 * k + 1) == x * Power(x * x, k)
  {
    PowerMul(x, 2, k);
    assert Power(x, 2) == x * x by { assert Power(x, 1) == x * Power(x, 0); }
    assert Power(x, 2 * k + 1) == x * Power(x, 2 * k);
  }

  /** w is a root of unity of order 2^l, in the sense that its half power is -1. */
  ghost predicate Root(w: int, l: nat, m: int)
    requires m > 0
  {
    l >= 1 ==> Cong(Power(w, Two(l - 1)), -1, m)
  }

  lemma RootSquare(w: int, l: nat, m: int)
    requires m > 0 && l >= 1 && Root(w, l, m)
    ensures Root(w * w, l - 1, m)
  {
    if l >= 2 {
      PowerTwice(w, Two(l - 2));
    }
  }

  /** The half power is -1, even powers of it are 1. */
  lemma RootPowers(w: int, l: nat, k: nat, m: int)
    requires m > 0 && l >= 1 && Root(w, l, m)
    ensures Cong(Power(Power(w, 2 * k), Two(l - 1)), 1, m)
    ensures Cong(Power(Power(w, 2 * k + 1), Two(l - 1)), -1, m)
  {
    hide Power, Two, Cong;
    var h := Two(l - 1);
    MinusOnePower(Power(w, h), k, m);
    PowerSwap(w, 2 * k, h);
    PowerSwap(w, 2 * k + 1, h);
  }

  lemma PowerSwap(x: int, a: nat, b: nat)
    ensures Power(Power(x, a), b) == Power(Power(x, b), a)
  {
    PowerMul(x, a, b);
    PowerMul(x, b, a);
    assert a * b == b * a;
  }

  lemma MinusOnePower(x: int, k: nat, m: int)
    requires m > 0 && Cong(x, -1, m)
    ensures Cong(Power(x, 2 * k), 1, m) && Cong(Power(x, 2 * k + 1), -1, m)
  {
    PowerTwice(x, k);
    CongMul(x, -1, x, -1, m);
    PowerCong(x * x, 1, k, m);
    PowerOne(k);
    CongMul(x, -1, Power(x * x, k), 1, m);
  }

  // ---- rows of coefficients ----

  ghost predicate AllCong(x: seq<int>, y: seq<int>, m: int)
    requires m > 0
  {
    |x| == |y| && forall i :: 0 <= i < |x| ==> Cong(x[i], y[i], m)
  }

  lemma {:induction false} EvalCong(x: seq<int>, y: seq<int>, z: int, m: int)
    requires m > 0 && AllCong(x, y, m)
    ensures Cong(Value(x, z), Value(y, z), m)
    decreases |x|
  {
    if x == [] {
      CongRefl(0, m);
    } else {
      EvalCong(x[1..], y[1..], z, m);
      CongRefl(z, m);
      CongMul(z, z, Value(x[1..], z), Value(y[1..], z), m);
      CongAdd(x[0], y[0], z * Value(x[1..], z), z * Value(y[1..], z), m);
    }
  }

  /** x + c * y, entry by entry. */
  function Combine(x: seq<int>, c: int, y: seq<int>): (r: seq<int>)
    requires |x| == |y|
    ensures |r| == |x| && forall i :: 0 <= i < |x| ==> r[i] == x[i] + c * y[i]
  {
    seq(|x|, i requires 0 <= i < |x| => x[i] + c * y[i])
  }

  lemma {:induction false} EvalCombine(x: seq<int>, c: int, y: seq<int>, z: int)
    requires |x| == |y|
    ensures Value(Combine(x, c, y), z) == Value(x, z) + c * Value(y, z)
    decreases |x|
  {
    var r := Combine(x, c, y);
    if x != [] {
      assert r[1..] == Combine(x[1..], c, y[1..]);
      EvalCombine(x[1..], c, y[1..], z);
      CombineAlgebra(x[0], y[0], c, z, Value(x[1..], z), Value(y[1..], z));
    }
  }

  lemma CombineAlgebra(x: int, y: int, c: int, z: int, p: int, q: int)
    ensures x + c * y + z * (p + c * q) == x + z * p + c * (y + z * q)
  {
    assert z * (c * q) == c * (z * q);
  }

  /** y[i] * w^i */
  function Twisted(y: seq<int>, w: int): (r: seq<int>)
    ensures |r| == |y| && forall i :: 0 <= i < |y| ==> r[i] == y[i] * Power(w, i)
  {
    seq(|y|, i requires 0 <= i < |y| => y[i] * Power(w, i))
  }

  lemma {:induction false} EvalTwisted(y: seq<int>, w: int, v: int)
    ensures Value(y, w * v) == Value(Twisted(y, w), v)
    decreases |y|
  {
    hide Power;
    if y != [] {
      var t, u := Twisted(y, w), Twisted(y[1..], w);
      EvalTwisted(y[1..], w, v);
      var zeros := seq(|u|, i => 0);
      TwistedTail(y, w, zeros);
      EvalCombine(zeros, w, u, v);
      EvalZeros(zeros, v);
      assert (w * v) * Value(u, v) == v * (w * Value(u, v)) by { RadixConversion.Assoc(v, w, Value(u, v)); }
    }
  }

  lemma TwistedTail(y: seq<int>, w: int, zeros: seq<int>)
    requires y != [] && |zeros| == |y| - 1 && forall i :: 0 <= i < |zeros| ==> zeros[i] == 0
    ensures Twisted(y, w)[0] == y[0] && Twisted(y, w)[1..] == Combine(zeros, w, Twisted(y[1..], w))
  {
    var t, u := Twisted(y, w), Twisted(y[1..], w);
    assert Power(w, 0) == 1;
    forall i | 0 <= i < |u|
      ensures t[1..][i] == 0 + w * u[i]
    {
      assert Power(w, i + 1) == w * Power(w, i);
      RadixConversion.Assoc(w, y[i + 1], Power(w, i));
      RadixConversion.Assoc(y[i + 1], w, Power(w, i));
    }
  }

  lemma {:induction false} EvalZeros(s: seq<int>, z: int)
    requires forall i :: 0 <= i < |s| ==> s[i] == 0
    ensures Value(s, z) == 0
  {
    if s != [] {
      EvalZeros(s[1..], z);
    }
  }

  // ---- halving ----

  /** What evaluating at even and at odd powers of the root leaves of a polynomial. */
  lemma Halving(x: seq<int>, w: int, l: nat, k: nat, m: int)
    requires m > 0 && l >= 1 && Root(w, l, m) && |x| == Two(l)
    ensures |x| == 2 * Two(l - 1)
    ensures var h := Two(l - 1);
            && Cong(Value(x, Power(w, 2 * k)), Value(Combine(x[..h], 1, x[h..]), Power(w * w, k)), m)
            && Cong(Value(x, Power(w, 2 * k + 1)), Value(Twisted(Combine(x[..h], -1, x[h..]), w), Power(w * w, k)), m)
  {
    hide Power, Cong, Value;
    var h := Two(l - 1);
    hide Two;
    RootPowers(w, l, k, m);
    PowerTwice(w, k);
    HalfEval(x, h, Power(w, 2 * k), 1, m);
    HalfEval(x, h, Power(w, 2 * k + 1), -1, m);
    EvalTwisted(Combine(x[..h], -1, x[h..]), w, Power(w * w, k));
  }

  lemma HalfEval(x: seq<int>, h: nat, z: int, c: int, m: int)
    requires m > 0 && |x| == 2 * h && Cong(Power(z, h), c, m)
    ensures Cong(Value(x, z), Value(Combine(x[..h], c, x[h..]), z), m)
  {
    hide Power, Cong, Value;
    assert x == x[..h] + x[h..];
    ValueConcat(x[..h], x[h..], z);
    EvalCombine(x[..h], c, x[h..], z);
    CongRefl(Value(x[h..], z), m);
    CongRefl(Value(x[..h], z), m);
    CongMul(Power(z, h), c, Value(x[h..], z), Value(x[h..], z), m);
    CongAdd(Value(x[..h], z), Value(x[..h], z), Power(z, h) * Value(x[h..], z), c * Value(x[h..], z), m);
  }

  // ---- inversion ----

  /** The transform: the polynomial at all powers of w. */
  ghost function Dft(x: seq<int>, w: int): (r: seq<int>)
    ensures |r| == |x| && forall k :: 0 <= k < |x| ==> r[k] == Value(x, Power(w, k))
  {
    seq(|x|, k requires 0 <= k < |x| => Value(x, Power(w, k)))
  }

  ghost function Evens(d: seq<int>, h: nat): (r: seq<int>)
    requires |d| == 2 * h
    ensures |r| == h && forall i :: 0 <= i < h ==> r[i] == d[2 * i]
  {
    seq(h, i requires 0 <= i < h => d[2 * i])
  }

  ghost function Odds(d: seq<int>, h: nat): (r: seq<int>)
    requires |d| == 2 * h
    ensures |r| == h && forall i :: 0 <= i < h ==> r[i] == d[2 * i + 1]
  {
    seq(h, i requires 0 <= i < h => d[2 * i + 1])
  }

  lemma {:induction false} Interleaved(d: seq<int>, h: nat, v: int)
    requires |d| == 2 * h
    ensures Value(d, v) == Value(Evens(d, h), v * v) + v * Value(Odds(d, h), v * v)
    decreases h
  {
    if h > 0 {
      var e := d[2..];
      Interleaved(e, h - 1, v);
      assert Evens(d, h)[1..] == Evens(e, h - 1) && Odds(d, h)[1..] == Odds(e, h - 1);
      assert d[1..][1..] == e;
      InterleaveAlgebra(d[0], d[1], v, Value(Evens(e, h - 1), v * v), Value(Odds(e, h - 1), v * v));
    }
  }

  lemma InterleaveAlgebra(a: int, b: int, v: int, p: int, q: int)
    ensures a + v * (b + v * (p + v * q)) == a + (v * v) * p + v * (b + (v * v) * q)
  {
    assert v * (b + v * (p + v * q)) == v * b + v * (v * p) + v * (v * (v * q));
    assert v * (v * p) == (v * v) * p && v * (v * (v * q)) == v * ((v * v) * q);
  }

  /** Transforming back with the inverse root gives 2^l times the coefficients. */
  lemma {:induction false} Inversion(c: seq<int>, w: int, u: int, l: nat, j: nat, m: int)
    requires m > 0 && Root(w, l, m) && Cong(w * u, 1, m) && |c| == Two(l) && j < |c|
    ensures Cong(Value(Dft(c, w), Power(u, j)), Two(l) * c[j], m)
    decreases l
  {
    hide Cong, Value, Power;
    if l == 0 {
      InversionBase(c, w, u, m);
    } else {
      var h := Two(l - 1);
      var plus, minus := Combine(c[..h], 1, c[h..]), Twisted(Combine(c[..h], -1, c[h..]), w);
      var j' := if j < h then j else j - h;
      RootSquare(w, l, m);
      InverseSquare(w, u, m);
      Inversion(plus, w * w, u * u, l - 1, j', m);
      Inversion(minus, w * w, u * u, l - 1, j', m);
      HalvedBack(c, w, u, l, j, plus, minus, m);
    }
  }

  lemma InversionBase(c: seq<int>, w: int, u: int, m: int)
    requires m > 0 && |c| == 1
    ensures Cong(Value(Dft(c, w), Power(u, 0)), Two(0) * c[0], m)
  {
    var d := Dft(c, w);
    assert d == [d[0]] && c == [c[0]];
    ValueOne(d[0], Power(u, 0));
    ValueOne(c[0], Power(w, 0));
    CongRefl(c[0], m);
  }

  lemma InverseSquare(w: int, u: int, m: int)
    requires m > 0 && Cong(w * u, 1, m)
    ensures Cong((w * w) * (u * u), 1, m)
  {
    CongMul(w * u, 1, w * u, 1, m);
    assert (w * u) * (w * u) == (w * w) * (u * u) by { Swap(w, u, w, u); }
  }

  /** One level of the inversion: the halves come back from their sum and their twisted difference. */
  lemma HalvedBack(c: seq<int>, w: int, u: int, l: nat, j: nat, plus: seq<int>, minus: seq<int>, m: int)
    requires m > 0 && l >= 1 && Root(w, l, m) && Cong(w * u, 1, m) && |c| == Two(l) && j < |c|
    requires var h := Two(l - 1); plus == Combine(c[..h], 1, c[h..]) && minus == Twisted(Combine(c[..h], -1, c[h..]), w)
    requires var h := Two(l - 1); var j' := if j < h then j else j - h;
             && Cong(Value(Dft(plus, w * w), Power(u * u, j')), h * plus[j'], m)
             && Cong(Value(Dft(minus, w * w), Power(u * u, j')), h * minus[j'], m)
    ensures Cong(Value(Dft(c, w), Power(u, j)), Two(l) * c[j], m)
  {
    hide Cong, Value, Power;
    var h := Two(l - 1);
    var j' := if j < h then j else j - h;
    var d, v := Dft(c, w), Power(u, j);
    Interleaved(d, h, v);
    EvenPart(c, w, l, m);
    assert v * v == Power(u * u, j) by { PowerProduct(u, u, j); }
    var z, z' := Power(u * u, j), Power(u * u, j');
    SamePower(w, u, l, j, m);
    EvalAt(Evens(d, h), Dft(plus, w * w), z, z', m);
    EvalAt(Odds(d, h), Dft(minus, w * w), z, z', m);
    CongTrans(Value(Evens(d, h), z), Value(Dft(plus, w * w), z'), h * plus[j'], m);
    CongTrans(Value(Odds(d, h), z), Value(Dft(minus, w * w), z'), h * minus[j'], m);
    CongRefl(v, m);
    CongMul(v, v, Value(Odds(d, h), z), h * minus[j'], m);
    CongAdd(Value(Evens(d, h), z), h * plus[j'], v * Value(Odds(d, h), z), v * (h * minus[j']), m);
    Recombined(c[..h][j'], c[h..][j'], h, v, Power(w, j'), j < h, m) by {
      SignOf(w, u, l, j, m);
    }
    CongTrans(Value(d, v), h * plus[j'] + v * (h * minus[j']), Two(l) * c[j], m);
  }

  lemma EvenPart(c: seq<int>, w: int, l: nat, m: int)
    requires m > 0 && l >= 1 && Root(w, l, m) && |c| == Two(l)
    ensures var h := Two(l - 1);
            && AllCong(Evens(Dft(c, w), h), Dft(Combine(c[..h], 1, c[h..]), w * w), m)
            && AllCong(Odds(Dft(c, w), h), Dft(Twisted(Combine(c[..h], -1, c[h..]), w), w * w), m)
  {
    hide Cong, Value, Power;
    var h := Two(l - 1);
    forall k | 0 <= k < h
      ensures Cong(Evens(Dft(c, w), h)[k], Dft(Combine(c[..h], 1, c[h..]), w * w)[k], m)
      ensures Cong(Odds(Dft(c, w), h)[k], Dft(Twisted(Combine(c[..h], -1, c[h..]), w), w * w)[k], m)
    {
      Halving(c, w, l, k, m);
    }
  }

  lemma EvalAt(x: seq<int>, y: seq<int>, z: int, z': int, m: int)
    requires m > 0 && AllCong(x, y, m) && Cong(z, z', m)
    ensures Cong(Value(x, z), Value(y, z'), m)
  {
    EvalCong(x, y, z, m);
    EvalPoint(y, z, z', m);
    CongTrans(Value(x, z), Value(y, z), Value(y, z'), m);
  }

  lemma {:induction false} EvalPoint(y: seq<int>, z: int, z': int, m: int)
    requires m > 0 && Cong(z, z', m)
    ensures Cong(Value(y, z), Value(y, z'), m)
    decreases |y|
  {
    if y == [] {
      CongRefl(0, m);
    } else {
      EvalPoint(y[1..], z, z', m);
      CongMul(z, z', Value(y[1..], z), Value(y[1..], z'), m);
      CongRefl(y[0], m);
      CongAdd(y[0], y[0], z * Value(y[1..], z), z' * Value(y[1..], z'), m);
    }
  }

  /** The half power of the inverse root is -1 too. */
  lemma InverseHalf(w: int, u: int, l: nat, m: int)
    requires m > 0 && l >= 1 && Root(w, l, m) && Cong(w * u, 1, m)
    ensures Cong(Power(u, Two(l - 1)), -1, m)
  {
    hide Cong, Power;
    var h := Two(l - 1);
    PowerCong(w * u, 1, h, m);
    PowerOne(h);
    PowerProduct(w, u, h);
    var x, y := Power(w, h), Power(u, h);
    CongRefl(y, m);
    CongMul(x, -1, y, y, m);
    CongSym(x * y, -1 * y, m);
    CongTrans(-1 * y, x * y, 1, m);
    CongRefl(0, m);
    CongAdd(0, 0, -1 * y, 1, m);
    assert 0 - (-1 * y) == y && 0 - 1 == -1;
  }

  lemma SamePower(w: int, u: int, l: nat, j: nat, m: int)
    requires m > 0 && l >= 1 && Root(w, l, m) && Cong(w * u, 1, m) && j < Two(l)
    ensures var h := Two(l - 1); Cong(Power(u * u, j), Power(u * u, if j < h then j else j - h), m)
  {
    hide Cong, Power;
    var h := Two(l - 1);
    if j < h {
      CongRefl(Power(u * u, j), m);
    } else {
      InverseHalf(w, u, l, m);
      PowerAdd(u * u, h, j - h);
      PowerProduct(u, u, h);
      CongMul(Power(u, h), -1, Power(u, h), -1, m);
      CongRefl(Power(u * u, j - h), m);
      CongMul(Power(u * u, h), 1, Power(u * u, j - h), Power(u * u, j - h), m);
    }
  }

  lemma SignOf(w: int, u: int, l: nat, j: nat, m: int)
    requires m > 0 && l >= 1 && Root(w, l, m) && Cong(w * u, 1, m) && j < Two(l)
    ensures var h := Two(l - 1); var j' := if j < h then j else j - h;
            Cong(Power(u, j) * Power(w, j'), if j < h then 1 else -1, m)
  {
    hide Cong, Power;
    var h := Two(l - 1);
    var j' := if j < h then j else j - h;
    PowerCong(w * u, 1, j', m);
    PowerOne(j');
    PowerProduct(w, u, j');
    var p, q := Power(u, j'), Power(w, j');
    assert p * q == q * p;
    if j >= h {
      InverseHalf(w, u, l, m);
      PowerAdd(u, h, j');
      CongMul(Power(u, h), -1, p * q, 1, m);
      RadixConversion.Assoc(Power(u, h), p, q);
    }
  }

  lemma Recombined(a: int, b: int, h: int, v: int, p: int, first: bool, m: int)
    requires m > 0 && Cong(v * p, if first then 1 else -1, m)
    ensures Cong(h * (a + 1 * b) + v * (h * ((a + -1 * b) * p)), (2 * h) * (if first then a else b), m)
  {
    hide Cong;
    var s := if first then 1 else -1;
    var d := h * (a - b);
    assert v * (h * ((a + -1 * b) * p)) == (v * p) * d by { RegroupProduct(v, h, a - b, p); }
    CongRefl(d, m);
    CongMul(v * p, s, d, d, m);
    CongRefl(h * (a + b), m);
    CongAdd(h * (a + b), h * (a + b), (v * p) * d, s * d, m);
    assert h * (a + b) + s * d == (2 * h) * (if first then a else b) by {
      assert h * (a + b) == h * a + h * b && d == h * a - h * b;
      assert (2 * h) * a == 2 * (h * a) && (2 * h) * b == 2 * (h * b);
    }
  }

  lemma RegroupProduct(v: int, h: int, d: int, p: int)
    ensures v * (h * (d * p)) == (v * p) * (h * d)
  {
    assert h * (d * p) == (h * d) * p;
    assert v * ((h * d) * p) == (v * p) * (h * d);
  }

  // ---- products ----

  function Zeros(n: nat): (r: seq<int>)
    ensures |r| == n && forall i :: 0 <= i < n ==> r[i] == 0
  {
    seq(n, i => 0)
  }

  /** The coefficients of the product of two polynomials, with a zero on top. */
  function PolyMul(x: seq<int>, y: seq<int>): (r: seq<int>)
    ensures |r| == |x| + |y|
  {
    if x == [] then Zeros(|y|) else Combine([0] + PolyMul(x[1..], y), x[0], y + Zeros(|x|))
  }

  lemma {:induction false} EvalPolyMul(x: seq<int>, y: seq<int>, z: int)
    ensures Value(PolyMul(x, y), z) == Value(x, z) * Value(y, z)
    decreases |x|
  {
    if x == [] {
      EvalZeros(Zeros(|y|), z);
    } else {
      var p := PolyMul(x[1..], y);
      EvalPolyMul(x[1..], y, z);
      EvalCombine([0] + p, x[0], y + Zeros(|x|), z);
      assert ([0] + p)[1..] == p;
      EvalPadded(y, |x|, z);
      assert (x[0] + z * Value(x[1..], z)) * Value(y, z) == x[0] * Value(y, z) + z * (Value(x[1..], z) * Value(y, z)) by {
        ProductAlgebra(x[0], z, Value(x[1..], z), Value(y, z));
      }
    }
  }

  lemma ProductAlgebra(a: int, z: int, p: int, q: int)
    ensures (a + z * p) * q == a * q + z * (p * q)
  {
    assert (z * p) * q == z * (p * q);
  }

  lemma EvalPadded(y: seq<int>, k: nat, z: int)
    ensures Value(y + Zeros(k), z) == Value(y, z)
  {
    ValueConcat(y, Zeros(k), z);
    EvalZeros(Zeros(k), z);
  }

  /** Coefficients of a product of digits below b. */
  lemma {:induction false} PolyMulBound(x: seq<int>, y: seq<int>, b: int, k: nat)
    requires b >= 1 && k < |x| + |y|
    requires (forall i :: 0 <= i < |x| ==> 0 <= x[i] < b) && (forall i :: 0 <= i < |y| ==> 0 <= y[i] < b)
    ensures 0 <= PolyMul(x, y)[k] <= |x| * ((b - 1) * (b - 1))
    decreases |x|
  {
    if x != [] {
      var sq := (b - 1) * (b - 1);
      var yk := (y + Zeros(|x|))[k];
      assert 0 <= yk <= b - 1;
      assert 0 <= x[0] * yk <= sq by { SmallProduct(x[0], yk, b - 1); }
      assert |x| * sq == (|x| - 1) * sq + sq;
      if k > 0 {
        PolyMulBound(x[1..], y, b, k - 1);
      } else {
        assert (|x| - 1) * sq >= 0 by { SmallProduct(b - 1, b - 1, b - 1); Product(|x| - 1, sq); }
      }
    }
  }

  lemma SmallProduct(x: int, y: int, c: int)
    requires 0 <= x <= c && 0 <= y <= c
    ensures 0 <= x * y <= c * c
  {
    Limbs.MulMono(x, y, c);
    Limbs.MulMono(c, x, c);
    Limbs.MulMono(x, 0, y);
  }

  /** The cyclic convolution: the product modulo z^n - 1. */
  function Cyclic(x: seq<int>, y: seq<int>): (r: seq<int>)
    requires |x| == |y|
    ensures |r| == |x|
  {
    var n, p := |x|, PolyMul(x, y);
    Combine(p[..n], 1, p[n..])
  }

  lemma {:induction false} TopIsZero(x: seq<int>, y: seq<int>)
    requires |x| + |y| >= 1
    ensures PolyMul(x, y)[|x| + |y| - 1] == 0
    decreases |x|
  {
    hide Combine, Zeros;
    if x != [] && |x| + |y| >= 2 {
      var p, top := PolyMul(x[1..], y), |x| + |y| - 1;
      TopIsZero(x[1..], y);
      assert ([0] + p)[top] == p[top - 1] == 0;
      assert (y + Zeros(|x|))[top] == 0;
    } else if x != [] {
      assert (y + Zeros(|x|))[0] == 0;
    }
  }

  /** When the product fits, the cyclic convolution is the product itself. */
  lemma NoWrapAround(x: seq<int>, y: seq<int>, n: nat)
    requires |x| <= n && |y| <= n && |x| + |y| <= n + 1
    ensures var c, p := Cyclic(x + Zeros(n - |x|), y + Zeros(n - |y|)), PolyMul(x, y);
            forall i :: 0 <= i < n ==> c[i] == if i < |p| then p[i] else 0
  {
    hide PolyMul, Zeros, Combine;
    var x', y' := x + Zeros(n - |x|), y + Zeros(n - |y|);
    var p, r := PolyMul(x', y'), PolyMul(x, y);
    PadLeft(x, n - |x|, y');
    PadRight(x, y, n - |y|);
    assert Zeros(n - |y|) + Zeros(n - |x|) == Zeros(2 * n - |r|);
    assert p == r + Zeros(2 * n - |r|);
    if |r| == n + 1 {
      TopIsZero(x, y);
    }
    Folded(r, n);
  }

  lemma Folded(r: seq<int>, n: nat)
    requires |r| <= n || (|r| == n + 1 && r[n] == 0 && n >= 1)
    ensures var p := r + Zeros(2 * n - |r|);
            forall i :: 0 <= i < n ==> Combine(p[..n], 1, p[n..])[i] == if i < |r| then r[i] else 0
  {
    hide Zeros, Combine;
    var p := r + Zeros(2 * n - |r|);
    forall i | 0 <= i < n
      ensures p[n..][i] == 0
    {
    }
  }

  /** A row of coefficients and the same row with zeros behind it. */
  lemma EvalExtended(p: seq<int>, c: seq<int>, z: int)
    requires |p| <= |c| + 1 && (|p| == |c| + 1 ==> p[|c|] == 0)
    requires forall i :: 0 <= i < |c| ==> c[i] == if i < |p| then p[i] else 0
    ensures Value(c, z) == Value(p, z)
  {
    hide Zeros;
    if |p| <= |c| {
      assert c == p + Zeros(|c| - |p|);
      EvalPadded(p, |c| - |p|, z);
    } else {
      assert p == c + Zeros(1);
      EvalPadded(c, 1, z);
    }
  }

  lemma CombinePadded(x: seq<int>, c: int, y: seq<int>, k: nat)
    requires |x| == |y|
    ensures Combine(x + Zeros(k), c, y + Zeros(k)) == Combine(x, c, y) + Zeros(k)
  {
    hide Combine, Zeros;
  }

  lemma {:induction false} PadLeft(x: seq<int>, k: nat, y: seq<int>)
    ensures PolyMul(x + Zeros(k), y) == PolyMul(x, y) + Zeros(k)
    decreases |x|
  {
    hide Zeros, Combine;
    if x == [] {
      assert x + Zeros(k) == Zeros(k);
      ZeroTimes(k, y);
      assert Zeros(|y| + k) == Zeros(|y|) + Zeros(k);
    } else {
      var x' := x + Zeros(k);
      assert x'[1..] == x[1..] + Zeros(k);
      PadLeft(x[1..], k, y);
      var p := PolyMul(x[1..], y);
      assert [0] + PolyMul(x'[1..], y) == ([0] + p) + Zeros(k);
      assert y + Zeros(|x'|) == (y + Zeros(|x|)) + Zeros(k);
      CombinePadded([0] + p, x[0], y + Zeros(|x|), k);
    }
  }

  lemma {:induction false} ZeroTimes(k: nat, y: seq<int>)
    ensures PolyMul(Zeros(k), y) == Zeros(|y| + k)
    decreases k
  {
    if k > 0 {
      assert Zeros(k)[1..] == Zeros(k - 1);
      ZeroTimes(k - 1, y);
    } else {
      assert Zeros(k) == [];
    }
  }

  lemma {:induction false} PadRight(x: seq<int>, y: seq<int>, k: nat)
    ensures PolyMul(x, y + Zeros(k)) == PolyMul(x, y) + Zeros(k)
    decreases |x|
  {
    hide Zeros, Combine;
    if x == [] {
      assert Zeros(|y| + k) == Zeros(|y|) + Zeros(k);
    } else {
      PadRight(x[1..], y, k);
      var p := PolyMul(x[1..], y);
      assert [0] + PolyMul(x[1..], y + Zeros(k)) == ([0] + p) + Zeros(k);
      assert (y + Zeros(k)) + Zeros(|x|) == (y + Zeros(|x|)) + Zeros(k);
      CombinePadded([0] + p, x[0], y + Zeros(|x|), k);
    }
  }

  /** At a root of unity the cyclic convolution has the value of the product. */
  lemma EvalCyclic(x: seq<int>, y: seq<int>, w: int, l: nat, k: nat, m: int)
    requires m > 0 && l >= 1 && Root(w, l, m) && |x| == |y| == Two(l)
    ensures Cong(Value(x, Power(w, k)) * Value(y, Power(w, k)), Value(Cyclic(x, y), Power(w, k)), m)
  {
    hide Cong, Power, Value;
    var n, z := |x|, Power(w, k);
    EvalPolyMul(x, y, z);
    UnitPower(w, l, k, m);
    HalfEval(PolyMul(x, y), n, z, 1, m);
  }

  lemma UnitPower(w: int, l: nat, k: nat, m: int)
    requires m > 0 && l >= 1 && Root(w, l, m)
    ensures Cong(Power(Power(w, k), Two(l)), 1, m)
  {
    hide Cong;
    PowerSwap(w, k, Two(l));
    WholePower(w, l, m);
    PowerCong(Power(w, Two(l)), 1, k, m);
    PowerOne(k);
  }

  lemma WholePower(w: int, l: nat, m: int)
    requires m > 0 && l >= 1 && Root(w, l, m)
    ensures Cong(Power(w, Two(l)), 1, m)
  {
    hide Cong;
    var h := Two(l - 1);
    PowerAdd(w, h, h);
    CongMul(Power(w, h), -1, Power(w, h), -1, m);
  }
}
