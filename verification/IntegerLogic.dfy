/**
 Bitwise operations of qjs/libbf.c on sign-magnitude integers (bf_logic_op): or, xor and and
 of the infinite two's-complement expansions.
 */
module IntegerLogic {
  import opened Limbs
  import opened Bits

  // ---- limbs ----

  datatype Op = Or | Xor | And

  predicate Apply(op: Op, p: bool, q: bool) {
    match op
    case Or => p || q
    case Xor => p != q
    case And => p && q
  }

  function Weight(p: bool): int {
    if p then 1 else 0
  }

  /** The machine's bitwise operation on the lowest n bits, bit by bit. */
  function BitOp(op: Op, x: nat, y: nat, n: nat): (r: nat)
    ensures r < Two(n)
  {
    if n == 0 then 0
    else Weight(Apply(op, x % 2 == 1, y % 2 == 1)) + 2 * BitOp(op, x / 2, y / 2, n - 1)
  }

  lemma Joined(p: bool, rest: int, k: nat)
    ensures On(Weight(p) + 2 * rest, k) == if k == 0 then p else On(rest, k - 1)
  {
    var r := Weight(p) + 2 * rest;
    assert r / 2 == rest && r % 2 == Weight(p);
  }

  lemma {:induction false} BitOpOn(op: Op, x: nat, y: nat, n: nat, k: nat)
    requires k < n
    ensures On(BitOp(op, x, y, n), k) == Apply(op, On(x, k), On(y, k))
    decreases n
  {
    hide Apply, Weight, Two;
    Joined(Apply(op, x % 2 == 1, y % 2 == 1), BitOp(op, x / 2, y / 2, n - 1), k);
    if k > 0 {
      BitOpOn(op, x / 2, y / 2, n - 1, k - 1);
    }
  }

  /** bf_logic_op1 */
  function LimbOp(op: Op, x: Limb, y: Limb): Limb {
    LimbIsTwo64();
    BitOp(op, x, y, 64)
  }

  lemma LimbOpOn(op: Op, x: Limb, y: Limb, k: nat)
    requires k < 64
    ensures On(LimbOp(op, x, y), k) == Apply(op, On(x, k), On(y, k))
  {
    BitOpOn(op, x, y, 64, k);
  }

  /** All bits set or none: the negation of a sign as a limb. */
  function Mask(sign: bool): Limb {
    if sign then B - 1 else 0
  }

  lemma MaskOn(sign: bool, k: nat)
    requires k < 64
    ensures On(Mask(sign), k) == sign
  {
    OnZero(k);
    if sign {
      LimbIsTwo64();
      Parts(-1, B - 1, 64, k);
      NotOn(0, k);
    }
  }

  /** get_bits at a limb boundary: limb i of a magnitude. */
  function LimbAt(m: nat, i: nat): Limb {
    if i == 0 then m % B else LimbAt(m / B, i - 1)
  }

  lemma {:induction false} LimbAtOn(m: nat, i: nat, k: nat)
    requires k < 64
    ensures On(LimbAt(m, i), k) == On(m, 64 * i + k)
    decreases i
  {
    LimbIsTwo64();
    if i == 0 {
      Parts(m / B, m % B, 64, k);
    } else {
      LimbAtOn(m / B, i - 1, k);
      Parts(m / B, m % B, 64, 64 * i + k);
    }
  }

  // ---- the operation ----

  /** The number of bits of a magnitude: the exponent of an integer. */
  function Expn(m: nat): (n: nat)
    ensures m < Two(n)
    ensures n > 0 ==> Two(n - 1) <= m
  {
    if m == 0 then 0 else Expn(m / 2) + 1
  }

  /** A magnitude below zero is stored less one, so that its limbs are the inverted two's complement. */
  function Folded(x: int): nat {
    if x < 0 then -(x + 1) else x
  }

  lemma FoldedOn(x: int, k: nat)
    ensures On(x, k) == (On(Folded(x), k) != (x < 0))
  {
    if x < 0 {
      NotOn(-x - 1, k);
    }
  }

  function Max(x: int, y: int): int {
    if x < y then y else x
  }

  function Min(x: int, y: int): int {
    if x < y then x else y
  }

  /** The number of limbs computed. */
  function Length(op: Op, a: int, b: int): nat {
    var ea, eb := Expn(Folded(a)), Expn(Folded(b));
    var l :=
      if op == And && !(a < 0 && b < 0) then
        (if a >= 0 && b >= 0 then Min(ea, eb) else if a >= 0 then ea else eb)
      else Max(ea, eb);
    (Max(l, 1) + 63) / 64
  }

  /** Beyond the computed limbs the result has only its sign. */
  lemma LengthSuffices(op: Op, a: int, b: int, k: nat)
    requires k >= 64 * Length(op, a, b)
    ensures Apply(op, On(a, k), On(b, k)) == Apply(op, a < 0, b < 0)
  {
    hide On, Two, Expn;
    FoldedOn(a, k);
    FoldedOn(b, k);
    if Expn(Folded(a)) <= k {
      OnAbove(Folded(a), Expn(Folded(a)), k);
    }
    if Expn(Folded(b)) <= k {
      OnAbove(Folded(b), Expn(Folded(b)), k);
    }
  }

  /** One limb of the result. */
  lemma ResultLimb(op: Op, a: int, b: int, v: Limb, i: nat, k: nat)
    requires k < 64
    requires var v1, v2 := LimbOp(Xor, LimbAt(Folded(a), i), Mask(a < 0)), LimbOp(Xor, LimbAt(Folded(b), i), Mask(b < 0));
             v == LimbOp(Xor, LimbOp(op, v1, v2), Mask(Apply(op, a < 0, b < 0)))
    ensures On(v, k) == (Apply(op, On(a, 64 * i + k), On(b, 64 * i + k)) != Apply(op, a < 0, b < 0))
  {
    hide On, LimbOp, Mask, LimbAt;
    var la, lb := LimbAt(Folded(a), i), LimbAt(Folded(b), i);
    var v1, v2 := LimbOp(Xor, la, Mask(a < 0)), LimbOp(Xor, lb, Mask(b < 0));
    LimbAtOn(Folded(a), i, k);
    LimbAtOn(Folded(b), i, k);
    FoldedOn(a, 64 * i + k);
    FoldedOn(b, 64 * i + k);
    MaskOn(a < 0, k);
    MaskOn(b < 0, k);
    MaskOn(Apply(op, a < 0, b < 0), k);
    LimbOpOn(Xor, la, Mask(a < 0), k);
    LimbOpOn(Xor, lb, Mask(b < 0), k);
    LimbOpOn(op, v1, v2, k);
    LimbOpOn(Xor, LimbOp(op, v1, v2), Mask(Apply(op, a < 0, b < 0)), k);
  }

  /** Limb i of the result, as the source computes it. */
  function LogicLimb(op: Op, a: int, b: int, i: nat): Limb {
    var v1, v2 := LimbOp(Xor, LimbAt(Folded(a), i), Mask(a < 0)), LimbOp(Xor, LimbAt(Folded(b), i), Mask(b < 0));
    LimbOp(Xor, LimbOp(op, v1, v2), Mask(Apply(op, a < 0, b < 0)))
  }

  /** The limbs unfolded into an integer have the bits of the operation. */
  lemma LogicBits(op: Op, a: int, b: int, tab: seq<Limb>, k: nat)
    requires |tab| == Length(op, a, b) && forall i :: 0 <= i < |tab| ==> tab[i] == LogicLimb(op, a, b, i)
    ensures var r := if Apply(op, a < 0, b < 0) then -Val(tab) - 1 else Val(tab);
            On(r, k) == Apply(op, On(a, k), On(b, k))
  {
    hide On, Val, Length, LimbOp, Mask, LimbAt;
    var sign := Apply(op, a < 0, b < 0);
    NotOn(Val(tab), k);
    var i, j := k / 64, k % 64;
    ValOn(tab, i, j);
    if i < |tab| {
      ResultLimb(op, a, b, tab[i], i, j);
    } else {
      LengthSuffices(op, a, b, k);
    }
  }

  /** bf_logic_op: add one to negative operands, combine masked limbs, subtract one from a negative result. */
  method LogicOp(op: Op, a1: int, b1: int) returns (r: int)
    ensures op == Or ==> forall k: nat :: On(r, k) <==> On(a1, k) || On(b1, k)
    ensures op == And ==> forall k: nat :: On(r, k) <==> On(a1, k) && On(b1, k)
    ensures op == Xor ==> forall k: nat :: On(r, k) <==> On(a1, k) != On(b1, k)
  {
    hide On, LimbOp, Mask, LimbAt, Expn, Val;
    var aSign, bSign := a1 < 0, b1 < 0;
    var a := if aSign then a1 + 1 else a1;
    var b := if bSign then b1 + 1 else b1;
    var aMagnitude, bMagnitude: nat := if aSign then -a else a, if bSign then -b else b;
    var rSign := Apply(op, aSign, bSign);
    var l;
    if op == And && !rSign {
      if !aSign && !bSign {
        l := Min(Expn(aMagnitude), Expn(bMagnitude));
      } else if !aSign {
        l := Expn(aMagnitude);
      } else {
        l := Expn(bMagnitude);
      }
    } else {
      l := Max(Expn(aMagnitude), Expn(bMagnitude));
    }
    l := (Max(l, 1) + 63) / 64;
    assert l == Length(op, a1, b1);
    var tab := new Limb[l];
    for i := 0 to l
      invariant forall m :: 0 <= m < i ==> tab[m] == LogicLimb(op, a1, b1, m)
    {
      var v1 := LimbOp(Xor, LimbAt(aMagnitude, i), Mask(aSign));
      var v2 := LimbOp(Xor, LimbAt(bMagnitude, i), Mask(bSign));
      tab[i] := LimbOp(Xor, LimbOp(op, v1, v2), Mask(rSign));
    }
    var magnitude := Val(tab[..]);
    r := if rSign then -magnitude - 1 else magnitude;
    forall k: nat
      ensures On(r, k) == Apply(op, On(a1, k), On(b1, k))
    {
      LogicBits(op, a1, b1, tab[..], k);
    }
  }

  /** The three operations on the same integers: or and and make up the sum, and exclusive or is their difference. */
  method LogicAll(a: int, b: int) returns (o: int, n: int, x: int)
    ensures o + n == a + b && x == o - n
    ensures n == 0 ==> o == a + b
  {
    o := LogicOp(Or, a, b);
    n := LogicOp(And, a, b);
    x := LogicOp(Xor, a, b);
    OrAndSum(a, b, o, n);
    forall k: nat
      ensures On(o, k) <==> On(n, k) || On(x, k)
      ensures !(On(n, k) && On(x, k))
    {
    }
    Disjoint(n, x);
    OrAndSum(n, x, o, 0);
  }

  /** What halving leaves of an integer, as a measure. */
  function Halvings(x: int): nat {
    if x >= 0 then x else -x - 1
  }

  lemma HalvingsShrink(x: int)
    ensures Halvings(x / 2) <= Halvings(x) && (x != 0 && x != -1 ==> Halvings(x / 2) < Halvings(x))
    ensures x == 2 * (x / 2) + x % 2
  {
  }

  lemma {:induction false} OrAndSum(a: int, b: int, o: int, n: int)
    requires forall k: nat :: On(o, k) <==> On(a, k) || On(b, k)
    requires forall k: nat :: On(n, k) <==> On(a, k) && On(b, k)
    ensures o + n == a + b
    decreases Halvings(a) + Halvings(b) + Halvings(o) + Halvings(n)
  {
    assert On(o, 0) == (o % 2 == 1) && On(n, 0) == (n % 2 == 1) && On(a, 0) == (a % 2 == 1) && On(b, 0) == (b % 2 == 1);
    HalvingsShrink(a);
    HalvingsShrink(b);
    HalvingsShrink(o);
    HalvingsShrink(n);
    if Halvings(a) + Halvings(b) + Halvings(o) + Halvings(n) > 0 {
      forall k: nat
        ensures On(o / 2, k) == On(o, k + 1) && On(n / 2, k) == On(n, k + 1) && On(a / 2, k) == On(a, k + 1) && On(b / 2, k) == On(b, k + 1)
      {
      }
      hide On;
      OrAndSum(a / 2, b / 2, o / 2, n / 2);
    }
  }

  /** Integers without a common bit. */
  lemma Disjoint(n: int, x: int)
    requires forall k: nat :: !(On(n, k) && On(x, k))
    ensures forall k: nat :: On(0, k) <==> On(n, k) && On(x, k)
  {
    hide On;
    forall k: nat
      ensures !On(0, k)
    {
      OnZero(k);
    }
  }

  /** The result is the only integer with these bits. */
  lemma LogicUnique(op: Op, a: int, b: int, r: int, r': int)
    requires forall k: nat :: On(r, k) == Apply(op, On(a, k), On(b, k))
    requires forall k: nat :: On(r', k) == Apply(op, On(a, k), On(b, k))
    ensures r == r'
  {
    BitsDetermine(r, r');
  }
}
