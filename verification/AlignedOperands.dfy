/**
 The operands of an addition as rows of limbs below the larger exponent.
 */
module AlignedOperands {
  import opened Limbs
  import opened Bits
  import opened RoundingTheory
  import opened RoundingLimbs
  import opened LimbStreams

  /** v ^ sub_mask */
  function Flip(v: Limb, isSub: bool): Limb {
    if isSub then B - 1 - v else v
  }

  /** Both mantissas in rows of n limbs below the exponent of a; b is d bits lower. */
  datatype Operands = Operands(ta: seq<Limb>, tb: seq<Limb>, d: nat, n: nat, isSub: bool)
  {
    predicate Valid() {
      |ta| <= n && 64 * |tb| + d <= 64 * n
    }

    function Shift(): nat
      requires Valid()
    {
      64 * n - 64 * |tb| - d
    }

    ghost function ValueA(): nat
      requires Valid()
    {
      Val(ta) * Two(64 * (n - |ta|))
    }

    ghost function ValueB(): nat
      requires Valid()
    {
      Val(tb) * Two(Shift())
    }

    ghost function RowA(): (s: seq<Limb>)
      requires Valid()
      ensures |s| == n
    {
      Row(ValueA(), n)
    }

    ghost function RowB(): (s: seq<Limb>)
      requires Valid()
      ensures |s| == n
    {
      seq(n, k requires 0 <= k < n => Flip(LimbOf(ValueB(), k), isSub))
    }

    ghost function CarryIn(): int {
      if isSub then 1 else 0
    }

    /** The exact result at the lowest bit of the rows. */
    ghost function Exact(): int
      requires Valid()
    {
      if isSub then ValueA() - ValueB() else ValueA() + ValueB()
    }
  }

  lemma LimbsOfA(o: Operands, k: nat)
    requires o.Valid() && k < o.n
    ensures LimbZ(o.ta, k - (o.n - |o.ta|)) == o.RowA()[k]
  {
    hide Val, Two;
    var sh := 64 * (o.n - |o.ta|);
    LimbOfShifted(Val(o.ta), sh, k);
    GetBitsIs(o.ta, 64 * k - sh);
    assert (64 * k - sh) / 64 == k - (o.n - |o.ta|) && (64 * k - sh) % 64 == 0;
  }

  lemma RawLimbsOfB(o: Operands, k: nat)
    requires o.Valid() && k < o.n
    ensures GetBits(o.tb, 64 * k - o.Shift()) == LimbOf(o.ValueB(), k)
  {
    hide Val, Two, GetBits, BitsAt, LimbOf;
    LimbOfShifted(Val(o.tb), o.Shift(), k);
    GetBitsIs(o.tb, 64 * k - o.Shift());
  }

  lemma LimbsOfB(o: Operands, k: nat)
    requires o.Valid() && k < o.n
    ensures Flip(GetBits(o.tb, 64 * k - o.Shift()), o.isSub) == o.RowB()[k]
  {
    hide Val, Two, GetBits, LimbOf;
    RawLimbsOfB(o, k);
  }

  lemma OperandBound(s: seq<Limb>, sh: nat, w: nat)
    requires 64 * |s| + sh <= w
    ensures Val(s) * Two(sh) < Two(w)
  {
    hide Val, Two, Pow;
    ValBound(s);
    TwoLimbs(|s|);
    TwoAdd(64 * |s|, sh);
    TwoMono(64 * |s| + sh, w);
    MulMono(Two(sh), Val(s) + 1, Pow(|s|));
    assert Two(sh) * (Val(s) + 1) == Val(s) * Two(sh) + Two(sh);
  }

  lemma GetBitsOutside(tab: seq<Limb>, pos: int)
    requires pos <= -64 || pos >= 64 * |tab|
    ensures GetBits(tab, pos) == 0
  {
    hide Two;
    if pos <= -64 {
      GetBitsBelow(tab, pos);
    } else {
      var i, p := pos / 64, pos % 64;
      assert LimbZ(tab, i) == 0;
      if p != 0 {
        assert LimbZ(tab, i + 1) == 0;
        RemainderIs(0, Two(p), 0, 0);
      }
    }
  }
}
