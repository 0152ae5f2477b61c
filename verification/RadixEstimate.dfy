/**
 The estimated quotients of bf_integer_to_radix_rec (qjs/libbf.c): an inverse rounded to
 (n2 + 1) * radixl_bits + 2 bits, a product rounded to n1 * radixl_bits bits, cut to an integer.
 The result is off by at most one.
 */
module RadixEstimate {
  import opened Limbs
  import opened RadixConversion
  import opened RoundingModes = RoundingTheory

  // ---- rounding to nearest ----

  /** num / den to the nearest integer, ties to even. */
  function NearestEven(num: nat, den: nat): (k: nat)
    requires den >= 1
  {
    var q := num / den;
    assert num == den * q + num % den;
    assert q >= 0 by { QuotientPositive(num, den); }
    q + (if Up(RndN, false, q, num % den, den) then 1 else 0)
  }

  lemma QuotientPositive(num: int, den: int)
    requires num >= 0 && den >= 1
    ensures num / den >= 0
  {
  }

  /** It is the rounding to nearest that the floating-point operations use. */
  lemma NearestEvenRounds(num: nat, den: nat)
    requires den >= 1
    ensures IsRounding(num as real / den as real, false, RndN, NearestEven(num, den))
  {
    UpIsRounding(num, den, false, RndN);
  }

  lemma NearestError(num: nat, den: nat)
    requires den >= 1
    ensures 0 <= 2 * (NearestEven(num, den) * den - num) + den <= 2 * den
  {
    var q, r := num / den, num % den;
    assert num == den * q + r;
    var up := if Up(RndN, false, q, r, den) then 1 else 0;
    assert (q + up) * den == den * q + up * den;
  }

  /** A number just above a multiple is rounded down to it. */
  lemma NearestBelow(num: nat, den: nat, k: nat)
    requires den >= 1 && k * den <= num && 2 * (num - k * den) < den
    ensures NearestEven(num, den) == k
  {
    QuotientUnique(num / den, num % den, k, num - k * den, den);
  }

  /** The number of bits of x. */
  function BitLength(x: nat): (n: nat)
    ensures x < Power(2, n) && (n > 0 ==> Power(2, n - 1) <= x)
  {
    CeilLog2(x + 1)
  }

  // ---- the estimate ----

  /** The inverse has its last bit at 2^-InverseScale. */
  function InverseScale(b: nat, prec: nat): nat
    requires prec >= 1
  {
    prec - 1 + CeilLog2(b)
  }

  /** bf_div(B_inv, 1, B, prec, BF_RNDN), scaled to an integer. */
  function Inverse(b: nat, prec: nat): nat
    requires b >= 1 && prec >= 1
  {
    PowerPositive(2, InverseScale(b, prec));
    NearestEven(Power(2, InverseScale(b, prec)), b)
  }

  /** Enough bits for the largest n1, which is n2 + 1. */
  function InversePrec(n2: nat, radix: nat): (prec: nat)
    ensures prec >= 2
  {
    Product(n2 + 1, CeilLog2(radix));
    (n2 + 1) * CeilLog2(radix) + 2
  }

  /** bf_mul(Q, a, B_inv, qPrec, BF_RNDN), then bf_rint(Q, BF_RNDZ). */
  function QuotientGuess(a: nat, m: nat, s: nat, qPrec: nat): nat {
    Product(a, m);
    PowerPositive(2, s);
    var x := a * m;
    var n := BitLength(x);
    if n <= qPrec then QuotientPositive(x, Power(2, s)); x / Power(2, s)
    else
      PowerPositive(2, n - qPrec);
      var w := Power(2, n - qPrec);
      Product(NearestEven(x, w), w);
      QuotientPositive(NearestEven(x, w) * w, Power(2, s));
      (NearestEven(x, w) * w) / Power(2, s)
  }

  // ---- how close it is ----

  /** The inverse, times a, is within a quarter of the quotient. */
  lemma ProductClose(a: nat, b: nat, prec: nat, qPrec: nat, u: int, m: nat)
    requires b >= 1 && prec >= qPrec + 2 && a < b * Power(2, qPrec)
    requires u == Power(2, InverseScale(b, prec)) && m == Inverse(b, prec)
    ensures 2 * a < u && -u * b < 4 * ((a * m) * b - a * u) < u * b
  {
    hide Power, NearestEven;
    PowerPositive(2, InverseScale(b, prec));
    NearestError(u, b);
    PowerAdd(2, prec - 1, CeilLog2(b));
    PowerMonotone(qPrec + 1, prec - 1);
    DoublePower(qPrec);
    ScaleAbove(a, b, Power(2, qPrec), Power(2, prec - 1), Power(2, CeilLog2(b)));
    QuarterAway(a, b, u, m);
  }

  lemma DoublePower(k: nat)
    ensures Power(2, k + 1) == 2 * Power(2, k)
  {
  }

  lemma ScaleAbove(a: int, b: int, p: int, p1: int, c: int)
    requires 0 <= a < b * p && 1 <= b <= c && 2 * p <= p1
    ensures 2 * a < p1 * c
  {
    MulMono(b, 2 * p, p1);
    assert b * (2 * p) == 2 * (b * p);
    assert p1 >= 0 by {
      if p < 0 {
        MulMono(b, p, -1);
        assert false;
      }
    }
    MulMono(p1, b, c);
    assert b * p1 == p1 * b;
  }

  lemma QuarterAway(a: int, b: int, u: int, m: int)
    requires a >= 0 && b >= 1 && 2 * a < u && -b <= 2 * (m * b - u) <= b
    ensures -u * b < 4 * ((a * m) * b - a * u) < u * b
  {
    var d := m * b - u;
    Regrouped(a, m, b, u);
    HalfBound(a, d, b);
    MulMono(b, 2 * a, u - 1);
    assert b * (2 * a) == 2 * (a * b) && b * (u - 1) == u * b - b;
    Negated(u, b);
  }

  lemma Regrouped(a: int, m: int, b: int, u: int)
    ensures (a * m) * b - a * u == a * (m * b - u)
  {
    RadixConversion.Assoc(a, m, b);
  }

  lemma HalfBound(a: int, d: int, b: int)
    requires a >= 0 && -b <= 2 * d <= b
    ensures -(a * b) <= 2 * (a * d) <= a * b
  {
    MulMono(a, 2 * d, b);
    MulMono(a, -b, 2 * d);
    assert a * (2 * d) == 2 * (a * d) && a * (-b) == -(a * b);
  }

  lemma Negated(u: int, b: int)
    ensures -u * b == -(u * b)
  {
  }

  /** Rounding the product moves it by at most three quarters. */
  lemma RoundedClose(x: nat, u: int, b: int, a: int, s: nat, qPrec: nat, n: nat)
    requires b >= 1 && u == Power(2, s) && 0 <= a < b * Power(2, qPrec) && 4 * (x * b - a * u) < u * b
    requires n == BitLength(x) && n > qPrec >= 1
    ensures var w := Power(2, n - qPrec); w >= 1 && -3 * u <= 4 * (NearestEven(x, w) * w - x) <= 3 * u
  {
    hide Power, NearestEven, BitLength;
    var w := Power(2, n - qPrec);
    PowerPositive(2, n - qPrec);
    NearestError(x, w);
    if n - qPrec <= s {
      PowerMonotone(n - qPrec, s);
    } else {
      BelowTop(x, u, b, a, Power(2, qPrec));
      PowerAdd(2, qPrec, s);
      OneAbove(x, s, qPrec, n);
      DoublePower(s);
      PowerAdd(2, qPrec - 1, s + 1);
      assert n - 1 == qPrec + s && qPrec - 1 + (s + 1) == qPrec + s;
      NearestBelow(x, w, Power(2, qPrec - 1));
    }
  }

  /** The product lies less than a quarter above the range of the quotient. */
  lemma BelowTop(x: int, u: int, b: int, a: int, p: int)
    requires b >= 1 && a < b * p && 4 * (x * b - a * u) < u * b && u >= 1
    ensures 4 * x < 4 * (p * u) + u
  {
    MulMono(u, a, b * p);
    assert u * (b * p) == (p * u) * b && a * u == u * a;
    var t := p * u;
    assert b * (4 * t + u) == 4 * (t * b) + u * b && b * (4 * x) == 4 * (x * b);
    if 4 * x >= 4 * t + u {
      MulMono(b, 4 * t + u, 4 * x);
      assert false;
    }
  }

  /** When the last place is worth more than one, the product has exactly one bit more than the quotient may have. */
  lemma OneAbove(x: nat, s: nat, qPrec: nat, n: nat)
    requires n == BitLength(x) && n - qPrec > s && 4 * x < 4 * Power(2, qPrec + s) + Power(2, s)
    ensures n == qPrec + s + 1 && Power(2, qPrec + s) <= x
  {
    hide Power;
    PowerMonotone(s, qPrec + s);
    DoublePower(qPrec + s);
    if n > qPrec + s + 1 {
      PowerMonotone(qPrec + s + 1, n - 1);
      assert false;
    }
  }

  /** The guess leaves a remainder within one divisor of its range. */
  lemma GuessClose(a: nat, b: nat, prec: nat, qPrec: nat)
    requires b >= 1 && qPrec >= 1 && prec >= qPrec + 2 && a < b * Power(2, qPrec)
    ensures var guess := QuotientGuess(a, Inverse(b, prec), InverseScale(b, prec), qPrec); 0 < a - guess * b + b && a - guess * b < 2 * b
  {
    hide Power, NearestEven, BitLength, Inverse, InverseScale;
    var m, s := Inverse(b, prec), InverseScale(b, prec);
    var u, x := Power(2, s), a * m;
    PowerPositive(2, s);
    Product(a, m);
    ProductClose(a, b, prec, qPrec, u, m);
    var n := BitLength(x);
    if n <= qPrec {
      CutClose(a, b, u, x, x);
    } else {
      RoundedClose(x, u, b, a, s, qPrec, n);
      var w := Power(2, n - qPrec);
      Product(NearestEven(x, w), w);
      CutClose(a, b, u, x, NearestEven(x, w) * w);
    }
  }

  /** Cutting what is less than one away to an integer. */
  lemma CutClose(a: int, b: int, u: int, x: int, e: int)
    requires a >= 0 && b >= 1 && u >= 1 && -u * b < 4 * (x * b - a * u) < u * b && -3 * u <= 4 * (e - x) <= 3 * u
    ensures -b < a - (e / u) * b < 2 * b
  {
    var g := e / u;
    assert e == u * g + e % u;
    Scaled(b, u, x, e);
    Scaled2(b, u, g, e);
    Negated(u, b);
    NotTooHigh(a, b, u, g * b);
    NotTooLow(a, b, u, g * b);
  }

  lemma NotTooHigh(a: int, b: int, u: int, v: int)
    requires u >= 1 && u * v < a * u + u * b
    ensures v < a + b
  {
    if v >= a + b {
      MulMono(u, a + b, v);
      assert false;
    }
  }

  lemma NotTooLow(a: int, b: int, u: int, v: int)
    requires u >= 1 && u * v > a * u - 2 * (u * b)
    ensures v > a - 2 * b
  {
    if v <= a - 2 * b {
      MulMono(u, v, a - 2 * b);
      assert false;
    }
  }

  lemma Scaled(b: int, u: int, x: int, e: int)
    requires b >= 1 && -3 * u <= 4 * (e - x) <= 3 * u
    ensures -3 * (u * b) <= 4 * (e * b) - 4 * (x * b) <= 3 * (u * b)
  {
    MulMono(b, 4 * (e - x), 3 * u);
    MulMono(b, -3 * u, 4 * (e - x));
    assert b * (4 * (e - x)) == 4 * (e * b) - 4 * (x * b);
    assert b * (3 * u) == 3 * (u * b) && b * (-3 * u) == -3 * (u * b);
  }

  lemma Scaled2(b: int, u: int, g: int, e: int)
    requires b >= 1 && u * g <= e <= u * g + u - 1
    ensures u * (g * b) <= e * b <= u * (g * b) + u * b - b
  {
    MulMono(b, u * g, e);
    MulMono(b, e, u * g + u - 1);
    RadixConversion.Assoc(u, g, b);
    assert b * (u * g + u - 1) == (u * g) * b + u * b - b;
  }

  /** For every node of the recursion the guess is close enough. */
  lemma GuessInRange(a: nat, radix: nat, n1: nat, n2: nat)
    requires radix >= 2 && 1 <= n1 <= n2 + 1 && a < Power(radix, n1 + n2)
    ensures n1 * CeilLog2(radix) >= 0 && Power(radix, n2) >= 1
    ensures var b := Power(radix, n2);
            var prec := InversePrec(n2, radix);
            var guess := QuotientGuess(a, Inverse(b, prec), InverseScale(b, prec), n1 * CeilLog2(radix));
            0 < a - guess * b + b && a - guess * b < 2 * b
  {
    hide Power, QuotientGuess, Inverse, InverseScale;
    var b, l := Power(radix, n2), CeilLog2(radix);
    PowerPositive(radix, n2);
    assert l >= 1 by { AtLeastOneBit(radix); }
    MulMono(l, n1, n2 + 1);
    assert l * n1 == n1 * l && l * (n2 + 1) == (n2 + 1) * l;
    MulMono(l, 1, n1);
    PowerAdd(radix, n1, n2);
    RadixBits(radix, n1);
    MulMono(b, Power(radix, n1), Power(2, n1 * l));
    assert Power(radix, n1) * b == b * Power(radix, n1);
    GuessClose(a, b, InversePrec(n2, radix), n1 * l);
  }

  lemma AtLeastOneBit(radix: nat)
    requires radix >= 2
    ensures CeilLog2(radix) >= 1
  {
    assert Power(2, 0) == 1;
  }

  /** n limbs of the radix fit in n times its bits. */
  lemma {:induction false} RadixBits(radix: nat, n: nat)
    ensures n * CeilLog2(radix) >= 0 && 0 <= Power(radix, n) <= Power(2, n * CeilLog2(radix))
    decreases n
  {
    var l := CeilLog2(radix);
    Product(n, l);
    if n > 0 {
      RadixBits(radix, n - 1);
      Product(n - 1, l);
      assert n * l == l + (n - 1) * l;
      PowerAdd(2, l, (n - 1) * l);
      var p, q := Power(radix, n - 1), Power(2, (n - 1) * l);
      MulMono(radix, p, q);
      MulMono(q, radix, Power(2, l));
      Product(radix, p);
      assert radix * q == q * radix && Power(2, l) * q == q * Power(2, l);
    }
  }
}
