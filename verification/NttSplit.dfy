/**
 Long transforms of qjs/libbf.c: the buffer is read as n1 rows of n2 entries, its columns are
 transformed and twisted, and its rows are convolved recursively.
 */
module NttSplit {
  import opened Limbs
  import opened Bits
  import opened RoundingTheory
  import opened RadixConversion
  import opened NttArithmetic
  import opened NttTheory
  import opened NttTransform
  import opened NttProduct

  // ---- a polynomial by columns ----

  /** Every column's polynomial at r. */
  ghost function ColumnValues(x: seq<int>, s: nat, n: nat, r: int): (c: seq<int>)
    requires s * n == |x|
    ensures |c| == s && forall j :: 0 <= j < s ==> c[j] == Value(Column(x, j, s, n), r)
  {
    seq(s, j requires 0 <= j < s => Value(Column(x, j, s, n), r))
  }

  lemma {:induction false} ByColumns(x: seq<int>, s: nat, n: nat, z: int)
    requires s * n == |x|
    ensures Value(ColumnValues(x, s, n, Power(z, s)), z) == Value(x, z)
    decreases n
  {
    hide Power;
    var r := Power(z, s);
    var c := ColumnValues(x, s, n, r);
    if n == 0 {
      EvalZeros(c, z);
    } else {
      assert s * n == s + s * (n - 1);
      var rest := x[s..];
      ByColumns(rest, s, n - 1, z);
      var d := ColumnValues(rest, s, n - 1, r);
      forall j | 0 <= j < s
        ensures c[j] == x[j] + r * d[j]
      {
        FirstOfColumn(x, j, s, n);
      }
      assert c == Combine(x[..s], r, d);
      EvalCombine(x[..s], r, d, z);
      assert x == x[..s] + rest;
      ValueConcat(x[..s], rest, z);
    }
  }

  lemma FirstOfColumn(x: seq<int>, j: nat, s: nat, n: nat)
    requires s * n == |x| && j < s && n >= 1
    ensures s * (n - 1) == |x[s..]| && Column(x, j, s, n)[0] == x[j]
    ensures Column(x, j, s, n)[1..] == Column(x[s..], j, s, n - 1)
  {
    hide Entry;
    assert s * n == s + s * (n - 1);
    EntryIs(x, j, s, n, 0);
    forall i | 0 <= i < n - 1
      ensures Entry(x, j, s, i + 1) == Entry(x[s..], j, s, i)
    {
      EntryIs(x, j, s, n, i + 1);
      EntryIs(x[s..], j, s, n - 1, i);
      assert s * (i + 1) == s + s * i;
    }
  }

  /** Row t after the columns are transformed and twisted: x(w^t * z) reduced by z^s = 1. */
  ghost function Row(x: seq<int>, t: nat, w: int, s: nat, n: nat): (r: seq<int>)
    requires s * n == |x|
    ensures |r| == s
  {
    Twisted(ColumnValues(x, s, n, Power(Power(w, s), t)), Power(w, t))
  }

  lemma RowEval(x: seq<int>, t: nat, w: int, s: nat, n: nat, v: int, m: int)
    requires m > 0 && s * n == |x| && Cong(Power(v, s), 1, m)
    ensures Cong(Value(Row(x, t, w, s, n), v), Value(x, Power(w, t) * v), m)
  {
    hide Cong, Power, Value;
    var z, r := Power(w, t) * v, Power(Power(w, s), t);
    PowerProduct(Power(w, t), v, s);
    PowerSwap(w, t, s);
    CongRefl(r, m);
    CongMul(r, r, Power(v, s), 1, m);
    var c, d := ColumnValues(x, s, n, r), ColumnValues(x, s, n, Power(z, s));
    forall j | 0 <= j < s
      ensures Cong(d[j], c[j], m)
    {
      EvalPoint(Column(x, j, s, n), Power(z, s), r, m);
    }
    EvalCong(d, c, z, m);
    ByColumns(x, s, n, z);
    EvalTwisted(c, Power(w, t), v);
    CongSym(Value(x, z), Value(c, z), m);
  }

  // ---- convolution row by row ----

  /** The same transform means the same coefficients, up to the factor 2^l. */
  lemma SameTransform(c: seq<int>, d: seq<int>, w: int, u: int, l: nat, j: nat, m: int)
    requires m > 0 && Root(w, l, m) && Cong(w * u, 1, m) && |c| == |d| == Two(l) && j < |c|
    requires forall k: nat :: k < Two(l) ==> Cong(Value(c, Power(w, k)), Value(d, Power(w, k)), m)
    ensures Cong(Two(l) * c[j], Two(l) * d[j], m)
  {
    hide Cong, Power, Value, Two, Root;
    var z := Power(u, j);
    Inversion(c, w, u, l, j, m);
    Inversion(d, w, u, l, j, m);
    EvalCong(Dft(c, w), Dft(d, w), z, m);
    CongSym(Value(Dft(c, w), z), Two(l) * c[j], m);
    CongTrans(Two(l) * c[j], Value(Dft(c, w), z), Value(Dft(d, w), z), m);
    CongTrans(Two(l) * c[j], Value(Dft(d, w), z), Two(l) * d[j], m);
  }

  /** The sizes of a split: 2^k2 columns and 2^k1 rows. */
  lemma SplitSizes(k1: nat, k2: nat)
    ensures Two(k2) * Two(k1) == Two(k1 + k2)
  {
    TwoAdd(k2, k1);
    assert k1 + k2 == k2 + k1;
  }

  /** Two rows multiplied at a power of the rows' root: the value of the whole product at a power of the root. */
  lemma RowProduct(x: seq<int>, y: seq<int>, a: seq<int>, b: seq<int>, w: int, k1: nat, k2: nat, t: nat, i: nat, m: int)
    requires m > 0 && k2 >= 1 && Root(w, k1 + k2, m) && |x| == |y| == Two(k1 + k2) == Two(k2) * Two(k1)
    requires AllCong(a, Row(x, t, w, Two(k2), Two(k1)), m) && AllCong(b, Row(y, t, w, Two(k2), Two(k1)), m)
    ensures var v := Power(Power(w, Two(k1)), i);
            Cong(Value(Cyclic(a, b), v), Value(Row(Cyclic(x, y), t, w, Two(k2), Two(k1)), v), m)
  {
    hide Cong, Power, Value, Two, Root, Cyclic, Row;
    var s, n := Two(k2), Two(k1);
    var w2 := Power(w, n);
    var v := Power(w2, i);
    var e := t + n * i;
    var z := Power(w, e);
    assert z == Power(w, t) * v by {
      PowerMul(w, n, i);
      PowerAdd(w, t, n * i);
    }
    RootAt(w, k1 + k2, k2, m);
    assert k1 + k2 - k2 == k1;
    UnitPower(w2, k2, i, m);
    RowValue(x, a, t, w, s, n, v, z, m);
    RowValue(y, b, t, w, s, n, v, z, m);
    CongMul(Value(a, v), Value(x, z), Value(b, v), Value(y, z), m);
    EvalCyclic(a, b, w2, k2, i, m);
    EvalCyclic(x, y, w, k1 + k2, e, m);
    RowEval(Cyclic(x, y), t, w, s, n, v, m);
    var c := Value(Cyclic(x, y), z);
    CongSym(Value(a, v) * Value(b, v), Value(Cyclic(a, b), v), m);
    CongTrans(Value(Cyclic(a, b), v), Value(a, v) * Value(b, v), Value(x, z) * Value(y, z), m);
    CongTrans(Value(Cyclic(a, b), v), Value(x, z) * Value(y, z), c, m);
    CongSym(Value(Row(Cyclic(x, y), t, w, s, n), v), c, m);
    CongTrans(Value(Cyclic(a, b), v), c, Value(Row(Cyclic(x, y), t, w, s, n), v), m);
  }

  lemma RowValue(x: seq<int>, a: seq<int>, t: nat, w: int, s: nat, n: nat, v: int, z: int, m: int)
    requires m > 0 && s * n == |x| && AllCong(a, Row(x, t, w, s, n), m) && Cong(Power(v, s), 1, m) && z == Power(w, t) * v
    ensures Cong(Value(a, v), Value(x, z), m)
  {
    hide Cong, Power, Value, Row;
    EvalCong(a, Row(x, t, w, s, n), v, m);
    RowEval(x, t, w, s, n, v, m);
    CongTrans(Value(a, v), Value(Row(x, t, w, s, n), v), Value(x, z), m);
  }

  /** The convolution of two rows is the row of the convolution, up to the factor 2^k2. */
  lemma RowOfConvolution(x: seq<int>, y: seq<int>, a: seq<int>, b: seq<int>, w: int, u: int, k1: nat, k2: nat, t: nat, j: nat, m: int)
    requires m > 0 && k2 >= 1 && Root(w, k1 + k2, m) && Cong(w * u, 1, m) && |x| == |y| == Two(k1 + k2) == Two(k2) * Two(k1)
    requires AllCong(a, Row(x, t, w, Two(k2), Two(k1)), m) && AllCong(b, Row(y, t, w, Two(k2), Two(k1)), m) && j < Two(k2)
    ensures Cong(Two(k2) * Cyclic(a, b)[j], Two(k2) * Row(Cyclic(x, y), t, w, Two(k2), Two(k1))[j], m)
  {
    hide Cong, Power, Value, Two, Root, Cyclic, Row;
    var w2, u2 := Power(w, Two(k1)), Power(u, Two(k1));
    var c, d := Cyclic(a, b), Row(Cyclic(x, y), t, w, Two(k2), Two(k1));
    forall i: nat | i < Two(k2)
      ensures Cong(Value(c, Power(w2, i)), Value(d, Power(w2, i)), m)
    {
      RowProduct(x, y, a, b, w, k1, k2, t, i, m);
    }
    RootAt(w, k1 + k2, k2, m);
    assert k1 + k2 - k2 == k1;
    PowersInverse(w, u, Two(k1), m);
    SameTransform(c, d, w2, u2, k2, j, m);
  }

  lemma PowersInverse(w: int, u: int, e: nat, m: int)
    requires m > 0 && Cong(w * u, 1, m)
    ensures Cong(Power(w, e) * Power(u, e), 1, m)
  {
    PowerProduct(w, u, e);
    PowerCong(w * u, 1, e, m);
    PowerOne(e);
  }

  // ---- what ntt_fft_partial does to a column ----

  /** Forward: transform, then twist by the powers of v. Backward: the other way round. */
  ghost function Treated(col: seq<int>, v: int, r: int, inverse: bool): (c: seq<int>)
    ensures |c| == |col|
  {
    if inverse then Dft(Twisted(col, v), r) else Twisted(Dft(col, r), v)
  }

  /** Column j of cur is column j of x, treated. */
  ghost predicate ColumnTreated(cur: seq<int>, x: seq<int>, j: nat, w: int, s: nat, n: nat, inverse: bool, m: int)
    requires m > 0 && s * n == |cur| == |x| && j < s
  {
    AllCong(Column(cur, j, s, n), Treated(Column(x, j, s, n), Power(w, j), Power(w, s), inverse), m)
  }

  /** After the forward step row t is the row of the polynomial. */
  lemma RowIs(cur: seq<int>, x: seq<int>, a: seq<int>, w: int, s: nat, n: nat, t: nat, m: int)
    requires m > 0 && s * n == |cur| == |x| && t < n && |a| == s && forall j :: 0 <= j < s ==> a[j] == Entry(cur, j, s, t)
    requires forall j :: 0 <= j < s ==> ColumnTreated(cur, x, j, w, s, n, false, m)
    ensures AllCong(a, Row(x, t, w, s, n), m)
  {
    hide Cong, Power, Value, Entry;
    var r := Power(w, s);
    forall j | 0 <= j < s
      ensures Cong(a[j], Row(x, t, w, s, n)[j], m)
    {
      assert ColumnTreated(cur, x, j, w, s, n, false, m);
      assert Column(cur, j, s, n)[t] == a[j];
      PowerSwap(w, j, t);
    }
  }

  /** The backward step undoes the forward one, up to the factor. */
  lemma ColumnBack(cur: seq<int>, z: seq<int>, c: seq<int>, w: int, u: int, k1: nat, k2: nat, f: int, j: nat, i: nat, m: int)
    requires m > 0 && k1 >= 1 && Root(w, k1 + k2, m) && Cong(w * u, 1, m)
    requires Two(k2) * Two(k1) == |cur| == |z| == |c| && j < Two(k2) && i < Two(k1)
    requires forall t: nat :: t < Two(k1) ==> Cong(Entry(z, j, Two(k2), t), f * Row(c, t, w, Two(k2), Two(k1))[j], m)
    requires ColumnTreated(cur, z, j, u, Two(k2), Two(k1), true, m)
    ensures Cong(Entry(cur, j, Two(k2), i), (f * Two(k1)) * Entry(c, j, Two(k2), i), m)
  {
    hide Cong, Power, Value, Two, Root, Entry, Row;
    var s, n := Two(k2), Two(k1);
    var w1, u1, v := Power(w, s), Power(u, s), Power(u, j);
    var col, cc := Column(z, j, s, n), Column(c, j, s, n);
    var p := Twisted(col, v);
    forall t | 0 <= t < n
      ensures Cong(p[t], 0 + f * Dft(cc, w1)[t], m)
    {
      assert col[t] == Entry(z, j, s, t);
      Untwisted(p[t], col[t], c, w, u, s, n, f, j, t, m);
    }
    assert AllCong(p, Combine(Zeros(n), f, Dft(cc, w1)), m);
    assert Column(cur, j, s, n)[i] == Entry(cur, j, s, i);
    RootAt(w, k1 + k2, k1, m);
    PowersInverse(w, u, s, m);
    BackToConvolution(Entry(cur, j, s, i), p, cc, w1, u1, k1, f, i, m);
  }

  lemma Untwisted(p: int, e: int, c: seq<int>, w: int, u: int, s: nat, n: nat, f: int, j: nat, t: nat, m: int)
    requires m > 0 && s * n == |c| && j < s && t < n && Cong(w * u, 1, m)
    requires Cong(e, f * Row(c, t, w, s, n)[j], m) && p == e * Power(Power(u, j), t)
    ensures Cong(p, f * Dft(Column(c, j, s, n), Power(w, s))[t], m)
  {
    hide Cong, Power, Value;
    var d := Dft(Column(c, j, s, n), Power(w, s))[t];
    var g, h := Power(Power(w, t), j), Power(Power(u, j), t);
    assert Row(c, t, w, s, n)[j] == d * g;
    PowerSwap(w, j, t);
    PowersInverse(w, u, j, m);
    PowersInverse(Power(w, j), Power(u, j), t, m);
    CongRefl(h, m);
    CongMul(e, f * (d * g), h, h, m);
    FourProduct(f, d, g, h);
    CongRefl(f * d, m);
    CongMul(f * d, f * d, g * h, 1, m);
    CongTrans(p, (f * d) * (g * h), f * d, m);
  }

  lemma FourProduct(f: int, d: int, g: int, h: int)
    ensures (f * (d * g)) * h == (f * d) * (g * h)
  {
    RadixConversion.Assoc(f, d, g);
    RadixConversion.Assoc(f * d, g, h);
  }

  // ---- the methods ----

  /** mul_trig: entry i times the i-th power of cMul. */
  method MulTrig(buf: array<Limb>, cMul: Limb, m: int, ghost v: int)
    requires IsModulus(m) && cMul < m && Small(buf[..], m) && Cong(cMul, v, m)
    modifies buf
    ensures Small(buf[..], m) && AllCong(buf[..], Twisted(old(buf[..]), v), m)
  {
    hide Cong, Power;
    ghost var x := buf[..];
    var mInv, cMulInv := ModInverse(m), ConstInverse(cMul, m);
    var c0: Limb := 1;
    assert Cong(c0, Power(cMul, 0), m) by { FirstPower(cMul, m); }
    for i := 0 to buf.Length
      invariant c0 < m && Cong(c0, Power(cMul, i), m)
      invariant forall k :: i <= k < buf.Length ==> buf[k] == x[k]
      invariant forall k :: 0 <= k < i ==> buf[k] < 2 * m && Cong(buf[k], x[k] * Power(v, k), m)
    {
      assert buf[i] == x[i];
      var b := MulModFast(c0, buf[i], m, mInv);
      TwistedEntry(b, c0, x[i], cMul, v, i, m);
      buf[i] := b;
      var c := MulModFast2(c0, cMul, m, cMulInv);
      NextPower(c, c0, cMul, i, m);
      c0 := c;
    }
  }

  lemma TwistedEntry(b: int, c: int, x: int, g: int, v: int, i: nat, m: int)
    requires m > 0 && Cong(b, c * x, m) && Cong(c, Power(g, i), m) && Cong(g, v, m)
    ensures Cong(b, x * Power(v, i), m)
  {
    hide Cong, Power;
    PowerCong(g, v, i, m);
    CongTrans(c, Power(g, i), Power(v, i), m);
    CongRefl(x, m);
    CongMul(c, Power(v, i), x, x, m);
    assert Power(v, i) * x == x * Power(v, i);
    CongTrans(b, c * x, x * Power(v, i), m);
  }

  /** Entries at different places of the grid are different. */
  lemma DifferentPlaces(q: nat, i: nat, q': nat, i': nat, s: nat)
    requires q < s && q' < s && (q != q' || i != i')
    ensures q + s * i != q' + s * i'
  {
    if i < i' {
      MulMono(s, i + 1, i');
      assert s * (i + 1) == s * i + s;
    } else if i' < i {
      MulMono(s, i' + 1, i);
      assert s * (i' + 1) == s * i' + s;
    }
  }

  /** The first k entries of column j come from col, the rest from was. */
  ghost predicate Placed(now: seq<int>, was: seq<int>, col: seq<int>, j: nat, s: nat, n: nat, k: nat) {
    forall q: nat, i: nat :: q < s && i < n ==> Entry(now, q, s, i) == if q == j && i < k && i < |col| then col[i] else Entry(was, q, s, i)
  }

  lemma PlacedNext(now: seq<int>, next: seq<int>, was: seq<int>, col: seq<int>, j: nat, s: nat, n: nat, k: nat, p: nat)
    requires Placed(now, was, col, j, s, n, k) && s * n == |now| && k < n == |col| && j < s && p == j + s * k < |now|
    requires next == now[p := col[k]]
    ensures Placed(next, was, col, j, s, n, k + 1)
  {
    forall q: nat, i: nat | q < s && i < n
      ensures Entry(next, q, s, i) == if q == j && i < k + 1 && i < |col| then col[i] else Entry(was, q, s, i)
    {
      assert Entry(now, q, s, i) == if q == j && i < k && i < |col| then col[i] else Entry(was, q, s, i);
      EntryIs(now, q, s, n, i);
      if q != j || i != k {
        DifferentPlaces(q, i, j, k, s);
      }
    }
  }

  /** Column j of the buffer. */
  method GetColumn(buf: array<Limb>, j: nat, s: nat, n: nat) returns (col: array<Limb>)
    requires s * n == buf.Length && j < s
    ensures fresh(col) && col.Length == n && col[..] == Column(buf[..], j, s, n)
  {
    hide Entry;
    col := new Limb[n];
    var p := j;
    for i := 0 to n
      invariant p == j + s * i && forall k :: 0 <= k < i ==> col[k] == Entry(buf[..], j, s, k)
    {
      EntryIs(buf[..], j, s, n, i);
      col[i] := buf[p];
      assert s * (i + 1) == s * i + s;
      p := p + s;
    }
  }

  method PutColumn(buf: array<Limb>, col: array<Limb>, j: nat, s: nat, n: nat, ghost m: int)
    requires s * n == buf.Length && j < s && col.Length == n && buf != col && Small(buf[..], m) && Small(col[..], m)
    modifies buf
    ensures Small(buf[..], m) && Placed(buf[..], old(buf[..]), col[..], j, s, n, n)
  {
    hide Entry, Placed;
    ghost var was, c := buf[..], col[..];
    var p := j;
    assert Placed(buf[..], was, c, j, s, n, 0) by { PlacedNone(was, c, j, s, n); }
    for i := 0 to n
      invariant p == j + s * i && Placed(buf[..], was, c, j, s, n, i) && Small(buf[..], m)
    {
      ghost var now := buf[..];
      EntryIs(now, j, s, n, i);
      assert col[i] == c[i];
      buf[p] := col[i];
      PlacedNext(now, buf[..], was, c, j, s, n, i, p);
      assert s * (i + 1) == s * i + s;
      p := p + s;
    }
  }

  lemma PlacedNone(was: seq<int>, col: seq<int>, j: nat, s: nat, n: nat)
    ensures Placed(was, was, col, j, s, n, 0)
  {
  }

  lemma ColumnsAfter(now: seq<int>, was: seq<int>, col: seq<int>, j: nat, s: nat, n: nat)
    requires Placed(now, was, col, j, s, n, n) && s * n == |now| == |was| && |col| == n && j < s
    ensures Column(now, j, s, n) == col
    ensures forall q :: 0 <= q < s && q != j ==> Column(now, q, s, n) == Column(was, q, s, n)
  {
    hide Entry;
    forall q | 0 <= q < s && q != j
      ensures Column(now, q, s, n) == Column(was, q, s, n)
    {
      forall i | 0 <= i < n
        ensures Entry(now, q, s, i) == Entry(was, q, s, i)
      {
      }
    }
    forall i | 0 <= i < n
      ensures Entry(now, j, s, i) == col[i]
    {
    }
  }

  /** One column through ntt_fft_partial. */
  method TreatColumn(col: array<Limb>, tmp: array<Limb>, k: nat, cMul: Limb, inverse: bool, roots: seq<Limb>, m: int, ghost v: int, ghost r: int)
    requires k >= 1 && IsModulus(m) && Root(r, k, m) && Roots(roots, r, k, m) && cMul < m && Cong(cMul, v, m)
    requires col != tmp && col.Length == tmp.Length == Two(k) && Small(col[..], m)
    modifies col, tmp
    ensures Small(col[..], m) && AllCong(col[..], Treated(old(col[..]), v, r, inverse), m)
  {
    hide Cong, Power, Value, Two, Root, Roots;
    ghost var x := col[..];
    if inverse {
      MulTrig(col, cMul, m, v);
      ghost var y := col[..];
      NttFft(col, col, tmp, k, roots, m, r);
      TransformAlike(col[..], y, Twisted(x, v), r, m);
    } else {
      NttFft(col, col, tmp, k, roots, m, r);
      ghost var y := col[..];
      MulTrig(col, cMul, m, v);
      TwistAlike(col[..], y, Dft(x, r), v, m);
    }
  }

  lemma TransformAlike(o: seq<int>, y: seq<int>, z: seq<int>, r: int, m: int)
    requires m > 0 && |o| == |y| && AllCong(y, z, m) && forall j :: 0 <= j < |o| ==> Cong(o[j], Value(y, Power(r, j)), m)
    ensures AllCong(o, Dft(z, r), m)
  {
    hide Cong, Power, Value;
    forall j | 0 <= j < |o|
      ensures Cong(o[j], Dft(z, r)[j], m)
    {
      EvalCong(y, z, Power(r, j), m);
      CongTrans(o[j], Value(y, Power(r, j)), Value(z, Power(r, j)), m);
    }
  }

  lemma TwistAlike(o: seq<int>, y: seq<int>, z: seq<int>, v: int, m: int)
    requires m > 0 && |y| == |z| && AllCong(o, Twisted(y, v), m) && forall j :: 0 <= j < |y| ==> Cong(y[j], z[j], m)
    ensures AllCong(o, Twisted(z, v), m)
  {
    hide Cong, Power;
    forall j | 0 <= j < |o|
      ensures Cong(o[j], Twisted(z, v)[j], m)
    {
      CongRefl(Power(v, j), m);
      CongMul(y[j], z[j], Power(v, j), Power(v, j), m);
      CongTrans(o[j], Twisted(y, v)[j], Twisted(z, v)[j], m);
    }
  }

  /** ntt_fft_partial: every column treated, column j with the j-th power of the root. */
  method FftPartial(buf: array<Limb>, k1: nat, k2: nat, inverse: bool, roots: seq<Limb>, m: int, ghost w: int)
    requires k1 >= 1 && IsModulus(m) && Root(w, k1 + k2, m) && Roots(roots, w, k1 + k2, m)
    requires Two(k2) * Two(k1) == buf.Length && Small(buf[..], m)
    modifies buf
    ensures Small(buf[..], m)
    ensures forall j :: 0 <= j < Two(k2) ==> ColumnTreated(buf[..], old(buf[..]), j, w, Two(k2), Two(k1), inverse, m)
  {
    hide Cong, Power, Two, Root, Roots, ColumnTreated, Treated, AllCong;
    var s, n := Two(k2), Two(k1);
    ghost var x := buf[..];
    var tmp := new Limb[n];
    RootOfLevel(roots, w, k1 + k2, m, k1 + k2);
    var c0, cMul: Limb := roots[k1 + k2], 1;
    assert Cong(c0, w, m) by { WholeRoot(c0, w, k1 + k2, m); }
    assert Cong(cMul, Power(w, 0), m) by { FirstPower(w, m); }
    RootsFor(roots, w, k1 + k2, k1, m);
    RootAt(w, k1 + k2, k1, m);
    assert k1 + k2 - k1 == k2;
    for j := 0 to s
      invariant cMul < m && Cong(cMul, Power(w, j), m) && Small(buf[..], m)
      invariant forall q :: 0 <= q < j ==> ColumnTreated(buf[..], x, q, w, s, n, inverse, m)
      invariant forall q :: j <= q < s ==> Column(buf[..], q, s, n) == Column(x, q, s, n)
    {
      ghost var was := buf[..];
      var col := GetColumn(buf, j, s, n);
      ColumnSmall(was, j, s, n, m);
      TreatColumn(col, tmp, k1, cMul, inverse, roots[..k1 + 1], m, Power(w, j), Power(w, s));
      PutColumn(buf, col, j, s, n, m);
      ColumnsAfter(buf[..], was, col[..], j, s, n);
      ColumnsTreated(buf[..], was, x, col[..], j, w, s, n, inverse, m);
      var c := MulMod(cMul, c0, m);
      NextTwist(c, cMul, c0, w, j, m);
      cMul := c;
    }
  }

  lemma WholeRoot(c: int, w: int, k: nat, m: int)
    requires m > 0 && Cong(c, Power(w, Two(k - k)), m)
    ensures Cong(c, w, m)
  {
    assert Two(0) == 1;
    assert Power(w, 1) == w * Power(w, 0);
  }

  lemma ColumnSmall(x: seq<int>, j: nat, s: nat, n: nat, m: int)
    requires s * n == |x| && j < s && Small(x, m)
    ensures Small(Column(x, j, s, n), m)
  {
    hide Entry;
    forall i | 0 <= i < n
      ensures 0 <= Entry(x, j, s, i) < 2 * m
    {
      EntryIs(x, j, s, n, i);
    }
  }

  lemma ColumnsTreated(now: seq<int>, was: seq<int>, x: seq<int>, col: seq<int>, j: nat, w: int, s: nat, n: nat, inverse: bool, m: int)
    requires m > 0 && s * n == |now| == |was| == |x| && j < s && Column(now, j, s, n) == col
    requires AllCong(col, Treated(Column(x, j, s, n), Power(w, j), Power(w, s), inverse), m)
    requires forall q :: 0 <= q < s && q != j ==> Column(now, q, s, n) == Column(was, q, s, n)
    requires forall q :: 0 <= q < j ==> ColumnTreated(was, x, q, w, s, n, inverse, m)
    ensures forall q :: 0 <= q < j + 1 ==> ColumnTreated(now, x, q, w, s, n, inverse, m)
  {
    hide Column, AllCong, Treated, Power;
    forall q | 0 <= q < j + 1
      ensures ColumnTreated(now, x, q, w, s, n, inverse, m)
    {
      if q < j {
        assert ColumnTreated(was, x, q, w, s, n, inverse, m);
      }
    }
  }

  lemma NextTwist(c: int, g: int, c0: int, w: int, j: nat, m: int)
    requires m > 0 && Cong(c, g * c0, m) && Cong(g, Power(w, j), m) && Cong(c0, w, m)
    ensures Cong(c, Power(w, j + 1), m)
  {
    hide Cong;
    CongMul(g, Power(w, j), c0, w, m);
    assert Power(w, j + 1) == Power(w, j) * w;
    CongTrans(c, g * c0, Power(w, j + 1), m);
  }

  /** Row t of cur is f times row t of c. */
  ghost predicate RowScaled(cur: seq<int>, c: seq<int>, t: nat, w: int, s: nat, n: nat, f: int, m: int)
    requires m > 0 && s * n == |c|
  {
    forall j :: 0 <= j < s ==> Cong(Entry(cur, j, s, t), f * Row(c, t, w, s, n)[j], m)
  }

  /** Row t of the buffer. */
  method GetRow(buf: array<Limb>, t: nat, s: nat, n: nat) returns (row: array<Limb>)
    requires s * n == buf.Length && t < n
    ensures fresh(row) && row.Length == s && forall j :: 0 <= j < s ==> row[j] == Entry(buf[..], j, s, t)
  {
    hide Entry;
    row := new Limb[s];
    for j := 0 to s
      invariant forall k :: 0 <= k < j ==> row[k] == Entry(buf[..], k, s, t)
    {
      EntryIs(buf[..], j, s, n, t);
      row[j] := buf[j + s * t];
    }
  }

  method PutRow(buf: array<Limb>, row: array<Limb>, t: nat, s: nat, n: nat, ghost m: int)
    requires s * n == buf.Length && t < n && row.Length == s && row != buf && Small(buf[..], m) && Small(row[..], m)
    modifies buf
    ensures Small(buf[..], m)
    ensures forall q: nat, i: nat :: q < s && i < n ==> Entry(buf[..], q, s, i) == if i == t then row[q] else Entry(old(buf[..]), q, s, i)
  {
    hide Entry;
    ghost var was, r := buf[..], row[..];
    for j := 0 to s
      invariant Small(buf[..], m)
      invariant forall q: nat, i: nat :: q < s && i < n ==> Entry(buf[..], q, s, i) == if i == t && q < j then r[q] else Entry(was, q, s, i)
    {
      ghost var now := buf[..];
      EntryIs(now, j, s, n, t);
      assert row[j] == r[j];
      buf[j + s * t] := row[j];
      RowNext(now, buf[..], was, r, t, s, n, j);
    }
  }

  lemma RowNext(now: seq<int>, next: seq<int>, was: seq<int>, row: seq<int>, t: nat, s: nat, n: nat, j: nat)
    requires s * n == |now| && t < n && j < s == |row| && 0 <= j + s * t < |now| && next == now[j + s * t := row[j]]
    requires forall q: nat, i: nat :: q < s && i < n ==> Entry(now, q, s, i) == if i == t && q < j then row[q] else Entry(was, q, s, i)
    ensures forall q: nat, i: nat :: q < s && i < n ==> Entry(next, q, s, i) == if i == t && q < j + 1 then row[q] else Entry(was, q, s, i)
  {
    forall q: nat, i: nat | q < s && i < n
      ensures Entry(next, q, s, i) == if i == t && q < j + 1 then row[q] else Entry(was, q, s, i)
    {
      assert Entry(now, q, s, i) == if i == t && q < j then row[q] else Entry(was, q, s, i);
      EntryIs(now, q, s, n, i);
      if q != j || i != t {
        DifferentPlaces(q, i, j, t, s);
      }
    }
  }

  /** What the recursive call leaves of row t, in terms of the whole convolution. */
  lemma RowConvolved(row: seq<int>, x: seq<int>, y: seq<int>, a: seq<int>, b: seq<int>, w: int, u: int, k1: nat, k2: nat, t: nat, norm: int, m: int)
    requires m > 0 && k2 >= 1 && Root(w, k1 + k2, m) && Cong(w * u, 1, m) && |x| == |y| == Two(k1 + k2) == Two(k2) * Two(k1)
    requires AllCong(a, Row(x, t, w, Two(k2), Two(k1)), m) && AllCong(b, Row(y, t, w, Two(k2), Two(k1)), m) && |row| == Two(k2)
    requires forall j :: 0 <= j < Two(k2) ==> Cong(row[j], (norm * Two(k2)) * Cyclic(a, b)[j], m)
    ensures forall j :: 0 <= j < Two(k2) ==> Cong(row[j], (norm * Two(k2)) * Row(Cyclic(x, y), t, w, Two(k2), Two(k1))[j], m)
  {
    hide Cong, Power, Two, Root, Cyclic, Row, AllCong;
    var c := Row(Cyclic(x, y), t, w, Two(k2), Two(k1));
    assert |a| == Two(k2) && |b| == Two(k2) by { SameLengths(a, b, x, y, w, k1, k2, t, m); }
    forall j | 0 <= j < Two(k2)
      ensures Cong(row[j], (norm * Two(k2)) * c[j], m)
    {
      var d := Cyclic(a, b)[j];
      RowOfConvolution(x, y, a, b, w, u, k1, k2, t, j, m);
      CongRefl(norm, m);
      CongMul(norm, norm, Two(k2) * d, Two(k2) * c[j], m);
      RadixConversion.Assoc(norm, Two(k2), d);
      RadixConversion.Assoc(norm, Two(k2), c[j]);
      CongTrans(row[j], (norm * Two(k2)) * d, (norm * Two(k2)) * c[j], m);
    }
  }

  lemma SameLengths(a: seq<int>, b: seq<int>, x: seq<int>, y: seq<int>, w: int, k1: nat, k2: nat, t: nat, m: int)
    requires m > 0 && |x| == |y| == Two(k2) * Two(k1)
    requires AllCong(a, Row(x, t, w, Two(k2), Two(k1)), m) && AllCong(b, Row(y, t, w, Two(k2), Two(k1)), m)
    ensures |a| == Two(k2) && |b| == Two(k2)
  {
  }

  /** The roots for the rows. */
  lemma RowRoots(roots: seq<Limb>, inverse: seq<Limb>, w: int, u: int, k1: nat, k2: nat, m: int)
    requires m > 0 && k2 >= 1 && RootPair(roots, inverse, w, u, k1 + k2, m)
    ensures |roots| > k2 && |inverse| > k2
    ensures RootPair(roots[..k2 + 1], inverse[..k2 + 1], Power(w, Two(k1)), Power(u, Two(k1)), k2, m)
  {
    hide Cong, Power, Two, Root;
    assert k1 + k2 - k2 == k1;
    RootsFor(roots, w, k1 + k2, k2, m);
    RootsFor(inverse, u, k1 + k2, k2, m);
    RootAt(w, k1 + k2, k2, m);
    RootAt(u, k1 + k2, k2, m);
    PowersInverse(w, u, Two(k1), m);
  }

  /** The loop of ntt_conv over the rows: each becomes a convolution of its own. */
  method ConvolveRows(buf1: array<Limb>, buf2: array<Limb>, k1: nat, k2: nat, roots: seq<Limb>, inverse: seq<Limb>, norm: Limb, m: int,
                      ghost w: int, ghost u: int, ghost x: seq<int>, ghost y: seq<int>)
    requires k1 >= 1 && k2 >= 1 && IsModulus(m) && RootPair(roots, inverse, w, u, k1 + k2, m) && norm < m
    requires buf1 != buf2 && buf1.Length == buf2.Length == |x| == |y| == Two(k1 + k2) == Two(k2) * Two(k1)
    requires Small(buf1[..], m) && Small(buf2[..], m)
    requires forall j :: 0 <= j < Two(k2) ==> ColumnTreated(buf1[..], x, j, w, Two(k2), Two(k1), false, m)
    requires forall j :: 0 <= j < Two(k2) ==> ColumnTreated(buf2[..], y, j, w, Two(k2), Two(k1), false, m)
    modifies buf1
    ensures Small(buf1[..], m)
    ensures forall t: nat :: t < Two(k1) ==> RowScaled(buf1[..], Cyclic(x, y), t, w, Two(k2), Two(k1), norm * Two(k2), m)
    decreases k1 + k2, 0
  {
    hide Cong, Power, Two, Root, Roots, ColumnTreated, AllCong, Cyclic, Row, RowScaled, Entry;
    var s, n := Two(k2), Two(k1);
    ghost var f, g, c := buf1[..], buf2[..], Cyclic(x, y);
    RowRoots(roots, inverse, w, u, k1, k2, m);
    for t := 0 to n
      invariant Small(buf1[..], m) && buf2[..] == g
      invariant forall i: nat :: i < t ==> RowScaled(buf1[..], c, i, w, s, n, norm * s, m)
      invariant forall q: nat, i: nat :: q < s && t <= i < n ==> Entry(buf1[..], q, s, i) == Entry(f, q, s, i)
    {
      ghost var was := buf1[..];
      var row1 := GetRow(buf1, t, s, n);
      var row2 := GetRow(buf2, t, s, n);
      ghost var a, b := row1[..], row2[..];
      RowIs(f, x, a, w, s, n, t, m);
      RowIs(g, y, b, w, s, n, t, m);
      RowSmall(was, a, t, s, n, m);
      RowSmall(g, b, t, s, n, m);
      NttConv(row1, row2, k2, roots[..k2 + 1], inverse[..k2 + 1], norm, m, Power(w, n), Power(u, n));
      RowConvolved(row1[..], x, y, a, b, w, u, k1, k2, t, norm, m);
      PutRow(buf1, row1, t, s, n, m);
      RowsScaled(buf1[..], was, row1[..], c, t, w, s, n, norm * s, m);
    }
  }

  lemma RowSmall(x: seq<int>, a: seq<int>, t: nat, s: nat, n: nat, m: int)
    requires s * n == |x| && t < n && |a| == s && Small(x, m) && forall j :: 0 <= j < s ==> a[j] == Entry(x, j, s, t)
    ensures Small(a, m)
  {
    hide Entry;
    forall j | 0 <= j < s
      ensures 0 <= a[j] < 2 * m
    {
      EntryIs(x, j, s, n, t);
    }
  }

  lemma RowsScaled(now: seq<int>, was: seq<int>, row: seq<int>, c: seq<int>, t: nat, w: int, s: nat, n: nat, f: int, m: int)
    requires m > 0 && s * n == |c| && t < n && |row| == s
    requires forall q: nat, i: nat :: q < s && i < n ==> Entry(now, q, s, i) == if i == t then row[q] else Entry(was, q, s, i)
    requires forall j :: 0 <= j < s ==> Cong(row[j], f * Row(c, t, w, s, n)[j], m)
    requires forall i: nat :: i < t ==> RowScaled(was, c, i, w, s, n, f, m)
    ensures forall i: nat :: i < t + 1 ==> RowScaled(now, c, i, w, s, n, f, m)
  {
    hide Cong, Row, Entry;
    forall i: nat | i < t + 1
      ensures RowScaled(now, c, i, w, s, n, f, m)
    {
      if i < t {
        assert RowScaled(was, c, i, w, s, n, f, m);
      }
    }
  }

  /** ntt_conv: in buf1, the cyclic convolution modulo m times the factor and the length, whatever the length. */
  method NttConv(buf1: array<Limb>, buf2: array<Limb>, k: nat, roots: seq<Limb>, inverse: seq<Limb>, norm: Limb, m: int, ghost w: int, ghost u: int)
    requires k >= 1 && IsModulus(m) && RootPair(roots, inverse, w, u, k, m) && norm < m
    requires buf1 != buf2 && buf1.Length == buf2.Length == Two(k) && Small(buf1[..], m) && Small(buf2[..], m)
    modifies buf1, buf2
    ensures Small(buf1[..], m)
    ensures forall j :: 0 <= j < Two(k) ==> Cong(buf1[j], (norm * Two(k)) * Cyclic(old(buf1[..]), old(buf2[..]))[j], m)
    decreases k, 1
  {
    hide Cong, Power, Two, Root, Roots, ColumnTreated, Cyclic, RowScaled;
    if k <= TrigMax {
      ConvolveWhole(buf1, buf2, k, roots, inverse, norm, m, w, u);
    } else {
      var k1 := if k / 2 < TrigMax then k / 2 else TrigMax;
      var k2 := k - k1;
      SplitSizes(k1, k2);
      assert k1 + k2 == k;
      ghost var x, y := buf1[..], buf2[..];
      FftPartial(buf1, k1, k2, false, roots, m, w);
      FftPartial(buf2, k1, k2, false, roots, m, w);
      ConvolveRows(buf1, buf2, k1, k2, roots, inverse, norm, m, w, u, x, y);
      ghost var z := buf1[..];
      FftPartial(buf1, k1, k2, true, inverse, m, u);
      WholeBack(buf1[..], z, Cyclic(x, y), w, u, k1, k2, norm, m);
    }
  }

  /** All columns put back: the convolution itself. */
  lemma WholeBack(cur: seq<int>, z: seq<int>, c: seq<int>, w: int, u: int, k1: nat, k2: nat, norm: int, m: int)
    requires m > 0 && k1 >= 1 && Root(w, k1 + k2, m) && Cong(w * u, 1, m)
    requires Two(k1 + k2) == Two(k2) * Two(k1) == |cur| == |z| == |c|
    requires forall t: nat :: t < Two(k1) ==> RowScaled(z, c, t, w, Two(k2), Two(k1), norm * Two(k2), m)
    requires forall j :: 0 <= j < Two(k2) ==> ColumnTreated(cur, z, j, u, Two(k2), Two(k1), true, m)
    ensures forall j :: 0 <= j < Two(k1 + k2) ==> Cong(cur[j], (norm * Two(k1 + k2)) * c[j], m)
  {
    hide Cong, Power, Two, Root, ColumnTreated, Row, Entry;
    var s, n := Two(k2), Two(k1);
    RadixConversion.Assoc(norm, s, n);
    forall p | 0 <= p < Two(k1 + k2)
      ensures Cong(cur[p], (norm * Two(k1 + k2)) * c[p], m)
    {
      var j, i := Place(p, s, n);
      forall t: nat | t < n
        ensures Cong(Entry(z, j, s, t), (norm * s) * Row(c, t, w, s, n)[j], m)
      {
        assert RowScaled(z, c, t, w, s, n, norm * s, m);
      }
      ColumnBack(cur, z, c, w, u, k1, k2, norm * s, j, i, m);
      EntryIs(cur, j, s, n, i);
      EntryIs(c, j, s, n, i);
    }
  }

  /** The column and the row of a position. */
  lemma Place(p: nat, s: nat, n: nat) returns (j: nat, i: nat)
    requires p < s * n
    ensures j < s && i < n && p == j + s * i
  {
    assert s != 0;
    j, i := p % s, p / s;
    assert p == s * (p / s) + p % s;
    if i >= n {
      MulMono(s, n, i);
      assert false;
    }
  }
}
