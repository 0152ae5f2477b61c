/**
 Multi-limb naturals as qjs/libbf.c stores them: little-endian sequences of 64-bit
 limbs.  `Val` gives the natural number a sequence stands for; every kernel and every
 algorithm of the library is specified through it.
 */
module Limbs {

  /** LIMB_BITS is 64 on the modelled build. */
  const B: int := 0x1_0000_0000_0000_0000

  /** The smallest limb with its top bit set. */
  const HALF: int := 0x8000_0000_0000_0000

  type Limb = x: int | 0 <= x < B

  // ---- limb_t arithmetic: everything wraps at 2^64 ----

  function WrapAdd(x: Limb, y: Limb): Limb {
    if x + y < B then x + y else x + y - B
  }

  function WrapSub(x: Limb, y: Limb): Limb {
    if y <= x then x - y else x - y + B
  }

  function Bit(b: bool): Limb {
    if b then 1 else 0
  }

  // ---- values ----

  function Pow(n: nat): (p: int)
    ensures p >= 1
  {
    if n == 0 then 1 else B * Pow(n - 1)
  }

  function Val(s: seq<Limb>): (v: int)
    ensures v >= 0
  {
    if s == [] then 0 else s[0] + B * Val(s[1..])
  }

  /** The empty number; the induction base of every limb loop. */
  lemma ValBase()
    ensures Pow(0) == 1
    ensures forall s: seq<Limb> :: |s| == 0 ==> Val(s) == 0
  {
  }

  lemma MulMono(x: int, y: int, z: int)
    requires 0 <= x && y <= z
    ensures x * y <= x * z && y * x <= z * x
  {
  }

  lemma MulAssoc(x: int, y: int, z: int)
    ensures (x * y) * z == x * (y * z)
  {
  }

  lemma MulSum(x: int, y: int, z: int)
    ensures x * (y + z) == x * y + x * z
  {
  }

  lemma PowNext(n: nat)
    ensures Pow(n + 1) == B * Pow(n)
  {
  }

  lemma {:induction false} PowAdd(m: nat, n: nat)
    ensures Pow(m + n) == Pow(m) * Pow(n)
  {
    if m > 0 {
      PowAdd(m - 1, n);
      assert Pow(m + n) == B * (Pow(m - 1) * Pow(n));
    }
  }

  lemma PowMono(m: nat, n: nat)
    requires m <= n
    ensures Pow(m) <= Pow(n)
  {
    PowAdd(m, n - m);
    MulMono(Pow(m), 1, Pow(n - m));
  }

  /** Splitting a number at a limb boundary. */
  lemma {:induction false} ValConcat(s: seq<Limb>, t: seq<Limb>)
    ensures Val(s + t) == Val(s) + Pow(|s|) * Val(t)
  {
    if s == [] {
      assert s + t == t;
    } else {
      ValConcat(s[1..], t);
      assert (s + t)[1..] == s[1..] + t;
      assert B * (Pow(|s| - 1) * Val(t)) == Pow(|s|) * Val(t);
    }
  }

  lemma ValSplit(s: seq<Limb>, k: nat)
    requires k <= |s|
    ensures Val(s) == Val(s[..k]) + Pow(k) * Val(s[k..])
  {
    hide Val, Pow;
    ValConcat(s[..k], s[k..]);
    assert s[..k] + s[k..] == s;
  }

  lemma ValSingle(x: Limb)
    ensures Val([x]) == x
  {
    assert [x][1..] == [];
  }

  lemma ValCons(x: Limb, s: seq<Limb>)
    ensures Val([x] + s) == x + B * Val(s)
  {
    assert ([x] + s)[1..] == s;
  }

  lemma ValSnoc(s: seq<Limb>, x: Limb)
    ensures Val(s + [x]) == Val(s) + Pow(|s|) * x
  {
    hide Val, Pow;
    ValConcat(s, [x]);
    ValSingle(x);
  }

  /** The value of a prefix grows by its next limb. */
  lemma ValNext(s: seq<Limb>, i: nat)
    requires i < |s|
    ensures Val(s[..i + 1]) == Val(s[..i]) + Pow(i) * s[i]
    ensures Pow(i + 1) == B * Pow(i)
  {
    PowNext(i);
    hide Val, Pow;
    assert s[..i + 1] == s[..i] + [s[i]];
    ValSnoc(s[..i], s[i]);
  }

  /** The value of a suffix grows by the limb in front of it. */
  lemma ValPrev(s: seq<Limb>, i: nat)
    requires i < |s|
    ensures Val(s[i..]) == s[i] + B * Val(s[i + 1..])
  {
    assert s[i..][1..] == s[i + 1..];
  }

  lemma {:induction false} ValBound(s: seq<Limb>)
    ensures Val(s) < Pow(|s|)
  {
    if s != [] {
      ValBound(s[1..]);
    }
  }

  /** The top limb determines the leading part of the value. */
  lemma ValTop(s: seq<Limb>)
    requires |s| > 0
    ensures s[|s| - 1] * Pow(|s| - 1) <= Val(s) < (s[|s| - 1] + 1) * Pow(|s| - 1)
  {
    var n := |s| - 1;
    assert s[..n] + [s[n]] == s;
    ValSnoc(s[..n], s[n]);
    ValBound(s[..n]);
  }

  lemma {:induction false} ValZero(s: seq<Limb>)
    ensures Val(s) == 0 <==> forall i :: 0 <= i < |s| ==> s[i] == 0
  {
    if s != [] {
      ValZero(s[1..]);
      assert forall i :: 0 < i < |s| ==> s[i] == s[1..][i - 1];
    }
  }

  /** A number below Pow(k) uses only k limbs. */
  lemma ValHighZero(s: seq<Limb>, k: nat)
    requires k <= |s| && Val(s) < Pow(k)
    ensures Val(s[k..]) == 0 && Val(s[..k]) == Val(s)
  {
    ValSplit(s, k);
    if Val(s[k..]) > 0 {
      MulMono(Pow(k), 1, Val(s[k..]));
    }
  }

  /** Equal-length numbers are equal exactly when their limbs are. */
  lemma {:induction false} ValInjective(s: seq<Limb>, t: seq<Limb>)
    requires |s| == |t| && Val(s) == Val(t)
    ensures s == t
  {
    if s != [] {
      assert s[0] == t[0] && Val(s[1..]) == Val(t[1..]);
      ValInjective(s[1..], t[1..]);
      assert s == [s[0]] + s[1..] && t == [t[0]] + t[1..];
    }
  }

  // ---- uniqueness of quotient and remainder, used to pin results down ----

  lemma QuotientUnique(q1: int, r1: int, q2: int, r2: int, d: int)
    requires d > 0 && 0 <= r1 < d && 0 <= r2 < d
    requires q1 * d + r1 == q2 * d + r2
    ensures q1 == q2 && r1 == r2
  {
    if q1 < q2 {
      MulMono(d, q1 + 1, q2);
      assert false;
    }
    if q2 < q1 {
      MulMono(d, q2 + 1, q1);
      assert false;
    }
  }

  // ---- frames ----

  /** Everything outside [lo, hi) is as it was. */
  twostate predicate OnlyWithin(a: array<Limb>, lo: nat, hi: nat)
    requires lo <= hi <= a.Length
    reads a
  {
    forall j :: 0 <= j < lo || hi <= j < a.Length ==> a[j] == old(a[j])
  }

  // ---- parts of buffers ----

  lemma PartOfPart(s: seq<Limb>, k: nat, e: nat, i: nat, j: nat)
    requires i <= j && k + j <= e <= |s|
    ensures s[k..e][i..j] == s[k + i..k + j]
  {
    var t, u := s[k..e][i..j], s[k + i..k + j];
    assert |t| == |u|;
    forall m | 0 <= m < |t|
      ensures t[m] == u[m]
    {
      assert t[m] == s[k..e][i + m] == s[k + (i + m)];
      assert u[m] == s[k + i + m];
    }
  }

  lemma ThreeParts(s: seq<Limb>, i: nat, l: nat, h: nat)
    requires i + l + h < |s|
    ensures s[i..i + l + h + 1] == s[i..i + l] + (s[i + l..i + l + h] + [s[i + l + h]])
  {
  }
}
