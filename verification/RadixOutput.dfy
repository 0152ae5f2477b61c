/**
 bf_integer_to_radix of qjs/libbf.c: the limbs of an integer in another radix, by divisions through
 cached inverses; together with bf_integer_from_radix a round trip in both directions.
 */
module RadixOutput {
  import opened Limbs
  import opened RadixConversion
  import opened RadixEstimate

  /** The two correction loops of bf_integer_to_radix_rec: each runs at most once, so q_add stays within -1 and 1. */
  method ExactDivision(a: int, b: int, guess: int) returns (q: int, r: int, qAdd: int)
    requires b > 0 && -b < a - guess * b < 2 * b
    ensures a == q * b + r && 0 <= r < b
    ensures q == guess + qAdd && -1 <= qAdd <= 1
  {
    q := guess;
    r := a - q * b;
    qAdd := 0;
    while r < 0
      invariant a == (q + qAdd) * b + r && -b < r < 2 * b && -1 <= qAdd <= 0 && (qAdd == -1 ==> 0 <= r < b)
      decreases -r
    {
      r := r + b;
      qAdd := qAdd - 1;
      Moved(q + qAdd, b);
    }
    while r >= b
      invariant a == (q + qAdd) * b + r && 0 <= r < 2 * b && -1 <= qAdd <= 1 && (qAdd != 0 ==> r < b)
      decreases r
    {
      r := r - b;
      qAdd := qAdd + 1;
      Moved(q + qAdd - 1, b);
    }
    q := q + qAdd;
  }

  lemma Moved(q: int, b: int)
    ensures (q + 1) * b == q * b + b
  {
  }

  /** out holds, from o on, the n limbs of a, and is otherwise unchanged. */
  ghost predicate Written(was: seq<int>, out: seq<int>, o: nat, n: nat, a: int, radix: int) {
    && |out| == |was| && o + n <= |out|
    && out[..o] == was[..o] && out[o + n..] == was[o + n..]
    && Digits(out[o..o + n], radix) && Value(out[o..o + n], radix) == a
  }

  lemma WrittenBoth(s: seq<int>, t: seq<int>, u: seq<int>, o: nat, n2: nat, n1: nat, q: int, r: int, radix: int)
    requires Written(s, t, o + n2, n1, q, radix) && Written(t, u, o, n2, r, radix)
    ensures Written(s, u, o, n2 + n1, q * Power(radix, n2) + r, radix)
  {
    hide Power, Value, Digits;
    var low, high := u[o..o + n2], t[o + n2..o + n2 + n1];
    assert u[o..o + (n2 + n1)] == low + high by {
      assert u[o + n2..] == t[o + n2..];
      assert u[o + n2..][..n1] == t[o + n2..][..n1];
    }
    ValueConcat(low, high, radix);
    assert u[..o] == s[..o] by {
      assert t[..o] == t[..o + n2][..o] && s[..o] == s[..o + n2][..o];
    }
    assert u[o + (n2 + n1)..] == s[o + (n2 + n1)..] by {
      assert u[o + n2..][n1..] == t[o + n2..][n1..];
      assert t[o + n2 + n1..] == s[o + n2 + n1..];
    }
    DigitsConcat(low, high, radix);
  }

  lemma DigitsConcat(s: seq<int>, t: seq<int>, radix: int)
    requires Digits(s, radix) && Digits(t, radix)
    ensures Digits(s + t, radix)
  {
  }

  /** The quotient by the power of the low limbs needs no more than the high limbs. */
  lemma QuotientFits(a: int, q: int, r: int, radix: int, n1: nat, n2: nat)
    requires radix >= 2 && 0 <= a < Power(radix, n1 + n2)
    requires a == q * Power(radix, n2) + r && 0 <= r < Power(radix, n2)
    ensures 0 <= q < Power(radix, n1)
  {
    PowerAdd(radix, n1, n2);
    var p, m := Power(radix, n2), Power(radix, n1);
    hide Power;
    Commute(p, q);
    Commute(p, m);
    if q < 0 {
      Gap(p, q, 0);
    }
    if q > m {
      Gap(p, m, q);
    }
  }

  /** One or two limbs are split off directly, from the low bits of the value. */
  method SmallDigits(out: array<int>, o: nat, a: int, n: nat, radix: int)
    requires 2 <= radix <= B && 1 <= n <= 2 && o + n <= out.Length && 0 <= a < Power(radix, n)
    modifies out
    ensures Written(old(out[..]), out[..], o, n, a, radix)
  {
    if n == 1 {
      OneLimb(out, o, a, radix);
    } else {
      TwoLimbs(out, o, a, radix);
    }
  }

  method OneLimb(out: array<int>, o: nat, a: int, radix: int)
    requires 2 <= radix <= B && o + 1 <= out.Length && 0 <= a < Power(radix, 1)
    modifies out
    ensures Written(old(out[..]), out[..], o, 1, a, radix)
  {
    ghost var was := out[..];
    assert Power(radix, 1) == radix * Power(radix, 0);
    out[o] := a % B;
    assert out[..] == was[o := a];
    assert out[o..o + 1] == [a];
    ValueOne(a, radix);
  }

  method TwoLimbs(out: array<int>, o: nat, a: int, radix: int)
    requires 2 <= radix <= B && o + 2 <= out.Length && 0 <= a < Power(radix, 2)
    modifies out
    ensures Written(old(out[..]), out[..], o, 2, a, radix)
  {
    ghost var was := out[..];
    Squared(radix);
    hide Power;
    SquareBound(radix);
    var t := a % (B * B);
    QuotientBound(t, radix);
    out[o] := t % radix;
    out[o + 1] := (t / radix) % B;
    assert out[..] == was[o := a % radix][o + 1 := a / radix];
    assert out[o..o + 2] == [a % radix, a / radix];
    ValueTwo(a % radix, a / radix, radix);
  }

  lemma Squared(radix: int)
    ensures Power(radix, 2) == radix * radix
  {
    assert Power(radix, 1) == radix * Power(radix, 0);
  }

  lemma SquareBound(radix: int)
    requires 0 <= radix <= B
    ensures radix * radix <= B * B
  {
    var k := B - radix;
    assert B * B == (radix + k) * (radix + k) == radix * radix + 2 * (radix * k) + k * k;
    Product(radix, k);
    Product(k, k);
  }

  lemma QuotientBound(t: int, radix: int)
    requires radix > 0 && 0 <= t < radix * radix
    ensures 0 <= t / radix < radix && t == (t % radix) + radix * (t / radix)
  {
    var q := t / radix;
    if q >= radix {
      assert radix * q >= radix * radix by {
        if q > radix {
          Gap(radix, radix, q);
        }
      }
    }
  }

  /** The inverses cached beside the powers, with enough bits for any node of their level. */
  ghost predicate InversesOk(pow: seq<int>, inv: seq<nat>, n0: nat, radix: int)
    requires radix >= 1
  {
    |inv| == |pow| && forall l :: 0 <= l < |pow| ==> pow[l] > 0 ==> inv[l] == Inverse(pow[l], InversePrec(LowSize(n0, l), radix))
  }

  /** The power and its rounded inverse, computed on first use of the level. */
  method CachedInverse(pow: array<int>, inv: array<nat>, level: nat, n2: nat, radix: int, ghost n0: nat) returns (b: int, m: nat)
    requires radix >= 2 && TableOk(pow[..], n0, radix) && level < pow.Length && n2 == LowSize(n0, level)
    requires InversesOk(pow[..], inv[..], n0, radix)
    modifies pow, inv
    ensures TableOk(pow[..], n0, radix) && InversesOk(pow[..], inv[..], n0, radix)
    ensures b == Power(radix, n2) && b > 0 && m == Inverse(b, InversePrec(n2, radix))
  {
    hide Power, Inverse, InversePrec, LowSize;
    PowerPositive(radix, n2);
    assert pow[level] == pow[..][level] && inv[level] == inv[..][level];
    if pow[level] == 0 {
      var p := PowUi(radix, n2);
      ghost var was, wasInv := pow[..], inv[..];
      pow[level] := p;
      inv[level] := Inverse(p, InversePrec(n2, radix));
      assert pow[..] == was[level := p] && inv[..] == wasInv[level := inv[level]];
    }
    b, m := pow[level], inv[level];
  }

  /** bf_integer_to_radix_rec */
  method ToRadixRec(pow: array<int>, inv: array<nat>, out: array<int>, o: nat, a: int, n: nat, level: nat, n0: nat, radix: int)
    requires pow != out && 2 <= radix <= B && n >= 1 && InversesOk(pow[..], inv[..], n0, radix) && o + n <= out.Length && NodeSize(n0, level, n)
    requires TableOk(pow[..], n0, radix) && 0 <= a < Power(radix, n)
    modifies pow, inv, out
    ensures Written(old(out[..]), out[..], o, n, a, radix) && TableOk(pow[..], n0, radix) && InversesOk(pow[..], inv[..], n0, radix)
    decreases n
  {
    hide TableOk, InversesOk, Power, LowSize, LevelSize, NodeSize, Written, Inverse, InversePrec, QuotientGuess;
    if n <= 2 {
      SmallDigits(out, o, a, n, radix);
    } else {
      var n2 := LowSize(n0, level);
      var n1 := n - n2;
      ghost var was := out[..];
      ChildSizes(n0, level, n);
      TableSuffices(n0, level, n);
      assert level < pow.Length by { TableLength(pow[..], n0, radix); }
      var b, m := CachedInverse(pow, inv, level, n2, radix, n0);
      GuessInRange(a, radix, n1, n2);
      var guess := QuotientGuess(a, m, InverseScale(b, InversePrec(n2, radix)), n1 * CeilLog2(radix));
      var q, r, qAdd := ExactDivision(a, b, guess);
      QuotientFits(a, q, r, radix, n1, n2);
      ToRadixRec(pow, inv, out, o + n2, q, n1, level + 1, n0, radix);
      ghost var mid := out[..];
      ToRadixRec(pow, inv, out, o, r, n2, level + 1, n0, radix);
      WrittenBoth(was, mid, out[..], o, n2, n1, q, r, radix);
    }
  }

  /** bf_integer_to_radix: the limbs of a. */
  method ToRadix(out: array<int>, a: int, radix: int)
    requires 2 <= radix <= B && out.Length >= 1 && 0 <= a < Power(radix, out.Length)
    modifies out
    ensures Digits(out[..], radix) && Value(out[..], radix) == a
  {
    var n := out.Length;
    var pow := new int[CeilLog2(n) + 2](_ => 0);
    var inv := new nat[pow.Length](_ => 0);
    assert TableOk(pow[..], n, radix) && InversesOk(pow[..], inv[..], n, radix);
    RootSize(n);
    ToRadixRec(pow, inv, out, 0, a, n, 0, n, radix);
    assert out[0..0 + n] == out[..];
  }

  /** Converting limbs to an integer and back gives the same limbs. */
  method ThereAndBack(tab: seq<int>, radix: int) returns (out: array<int>)
    requires 2 <= radix <= B && |tab| >= 1 && Digits(tab, radix)
    ensures fresh(out) && out[..] == tab
  {
    var a := FromRadix(tab, radix);
    ValueRange(tab, radix);
    out := new int[|tab|];
    ToRadix(out, a, radix);
    DigitsUnique(out[..], tab, radix);
  }

  /** Converting an integer to limbs and back gives the same integer. */
  method BackAndThere(a: int, n: nat, radix: int) returns (r: int)
    requires 2 <= radix <= B && n >= 1 && 0 <= a < Power(radix, n)
    ensures r == a
  {
    var out := new int[n];
    ToRadix(out, a, radix);
    r := FromRadix(out[..], radix);
  }
}
