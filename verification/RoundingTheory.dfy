/**
 Correct rounding (section 4.3 of IEEE 754-2008) on the real line, and why a sticky bit is enough.
 */
module RoundingTheory {
  import opened Bits

  // ---- powers of two ----

  function P2(n: int): real
    decreases if n < 0 then -n else n
  {
    if n == 0 then 1.0 else if n > 0 then 2.0 * P2(n - 1) else P2(n + 1) / 2.0
  }

  lemma P2Next(n: int)
    ensures P2(n + 1) == 2.0 * P2(n)
  {
  }

  lemma {:induction false} P2Positive(n: int)
    ensures P2(n) > 0.0
    decreases if n < 0 then -n else n
  {
    if n > 0 {
      P2Positive(n - 1);
    } else if n < 0 {
      P2Positive(n + 1);
    }
  }

  lemma {:induction false} P2Add(m: int, n: int)
    ensures P2(m + n) == P2(m) * P2(n)
    decreases if m < 0 then -m else m
  {
    if m > 0 {
      P2Add(m - 1, n);
      P2Next(m - 1 + n);
      Assoc(2.0, P2(m - 1), P2(n));
    } else if m < 0 {
      P2Add(m + 1, n);
      P2Next(m + n);
      Assoc(0.5, P2(m + 1), P2(n));
    }
  }

  lemma Assoc(x: real, y: real, z: real)
    ensures x * (y * z) == (x * y) * z
  {
  }

  lemma P2Mono(m: int, n: int)
    requires m <= n
    ensures P2(m) <= P2(n)
    decreases n - m
  {
    if m < n {
      P2Mono(m, n - 1);
      P2Next(n - 1);
      P2Positive(n - 1);
    }
  }

  lemma {:induction false} TwoIsP2(n: nat)
    ensures Two(n) as real == P2(n)
  {
    if n > 0 {
      TwoIsP2(n - 1);
    }
  }

  lemma {:induction false} TwoAdd(m: nat, n: nat)
    ensures Two(m + n) == Two(m) * Two(n)
    decreases m
  {
    if m > 0 {
      TwoAdd(m - 1, n);
      assert 2 * (Two(m - 1) * Two(n)) == (2 * Two(m - 1)) * Two(n) by { Regroup(Two(m - 1), Two(n)); }
    }
  }

  lemma {:induction false} TwoMono(m: nat, n: nat)
    requires m <= n
    ensures Two(m) <= Two(n)
    decreases n
  {
    if m < n {
      TwoMono(m, n - 1);
    }
  }

  // ---- rounding ----

  /** The deterministic modes: to nearest even, to zero, down, up, to nearest away, away from zero. */
  datatype Mode = RndN | RndZ | RndD | RndU | RndNA | RndA

  /** k is t, a magnitude counted in units in the last place, rounded to an integer. */
  ghost predicate IsRounding(t: real, sign: bool, mode: Mode, k: int) {
    && (k - 1) as real < t < (k + 1) as real
    && match mode
       case RndZ => k as real <= t
       case RndA => t <= k as real
       case RndD => if sign then t <= k as real else k as real <= t
       case RndU => if sign then k as real <= t else t <= k as real
       case RndN => Nearest(t, k) && (Tie(t, k) ==> k % 2 == 0)
       case RndNA => Nearest(t, k) && (Tie(t, k) ==> t < k as real)
  }

  ghost predicate Nearest(t: real, k: int) {
    k as real - 0.5 <= t <= k as real + 0.5
  }

  ghost predicate Tie(t: real, k: int) {
    t == k as real - 0.5 || t == k as real + 0.5
  }

  /** Each mode allows exactly one result. */
  lemma RoundingUnique(t: real, sign: bool, mode: Mode, k: int, k': int)
    requires IsRounding(t, sign, mode, k) && IsRounding(t, sign, mode, k')
    ensures k == k'
  {
  }

  /** Whether a number of q whole units and rem of u parts of a unit is rounded up in magnitude. */
  predicate Up(mode: Mode, sign: bool, q: int, rem: int, u: int) {
    match mode
    case RndZ => false
    case RndA => rem != 0
    case RndD => sign && rem != 0
    case RndU => !sign && rem != 0
    case RndN => 2 * rem > u || (2 * rem == u && q % 2 == 1)
    case RndNA => 2 * rem >= u
  }

  lemma UpIsRounding(m: int, u: int, sign: bool, mode: Mode)
    requires u >= 1
    ensures var q, rem := m / u, m % u;
            IsRounding(m as real / u as real, sign, mode, if Up(mode, sign, q, rem, u) then q + 1 else q)
  {
    var q, rem := m / u, m % u;
    var t, f := m as real / u as real, rem as real / u as real;
    assert m == q * u + rem;
    assert t == q as real + f by { SplitQuotient(q, rem, u); }
    FractionSides(rem, u);
  }

  lemma SplitQuotient(q: int, rem: int, u: int)
    requires u >= 1
    ensures (q * u + rem) as real / u as real == q as real + rem as real / u as real
  {
    assert (q * u) as real == q as real * u as real;
    assert (q as real * u as real) / u as real == q as real;
  }

  lemma FractionSides(rem: int, u: int)
    requires 0 <= rem < u
    ensures var f := rem as real / u as real;
            0.0 <= f < 1.0 && (f == 0.0 <==> rem == 0) && (f > 0.5 <==> 2 * rem > u) && (f == 0.5 <==> 2 * rem == u)
  {
    var f, r, v := rem as real / u as real, rem as real, u as real;
    assert f * v == r;
    assert 0.0 <= r < v;
    Side(f, r, v, 1.0);
    Side(f, r, v, 0.5);
    Side(f, r, v, 0.0);
  }

  /** Comparing a fraction is comparing its numerator. */
  lemma Side(f: real, r: real, v: real, h: real)
    requires v > 0.0 && f * v == r
    ensures f < h <==> r < h * v
    ensures f == h <==> r == h * v
  {
    if f < h {
      TimesStrict(h, f, v);
    } else if f > h {
      TimesStrict(f, h, v);
    }
  }

  lemma Times(x: real, y: real, v: real)
    requires x >= y && v >= 0.0
    ensures x * v >= y * v
  {
  }

  lemma TimesStrict(x: real, y: real, v: real)
    requires x > y && v > 0.0
    ensures x * v > y * v
  {
  }

  // ---- sticky bits ----

  /** m, odd, stands for a number strictly between its even neighbours. */
  ghost predicate StandsFor(m: int, u: int, t: real)
    requires u >= 1
  {
    m as real / u as real == t
    || (m % 2 == 1 && (m - 1) as real / u as real < t < (m + 1) as real / u as real)
  }

  /** No half of a unit lies strictly between two even neighbours. */
  lemma SameSide(m: int, u: int, t: real, j: int)
    requires u >= 4 && u % 4 == 0 && m % 2 == 1
    requires (m - 1) as real / u as real < t < (m + 1) as real / u as real
    ensures var h, s := j as real / 2.0, m as real / u as real; t != h && s != h && (t < h <==> s < h)
  {
    var half := u / 2;
    var b := j * half;
    assert b % 2 == 0 by { EvenProduct(j, half); }
    assert b as real / u as real == j as real / 2.0 by { HalfOf(j, half, u); }
    if m < b {
      DivideMono(m + 1, b, u);
      DivideMono(m, m + 1, u);
      DivideStrict(m, b, u);
    } else {
      DivideMono(b, m - 1, u);
      DivideStrict(b, m, u);
    }
  }

  lemma EvenProduct(j: int, h: int)
    requires h % 2 == 0
    ensures (j * h) % 2 == 0
  {
    var g := h / 2;
    assert j * h == 2 * (j * g) by { assert h == 2 * g; Regroup(g, j); }
  }

  lemma HalfOf(j: int, half: int, u: int)
    requires u == 2 * half && half >= 1
    ensures (j * half) as real / u as real == j as real / 2.0
  {
    var v := half as real;
    assert (j * half) as real == j as real * v && u as real == 2.0 * v;
    assert (j as real / 2.0) * (2.0 * v) == j as real * v;
  }

  lemma DivideMono(x: int, y: int, u: int)
    requires x <= y && u >= 1
    ensures x as real / u as real <= y as real / u as real
  {
  }

  lemma DivideStrict(x: int, y: int, u: int)
    requires x < y && u >= 1
    ensures x as real / u as real < y as real / u as real
  {
  }

  /** A number kept with two extra bits and a sticky bit rounds like the number itself. */
  lemma StickyRounds(m: int, u: int, t: real, sign: bool, mode: Mode, k: int)
    requires u >= 4 && u % 4 == 0 && StandsFor(m, u, t) && IsRounding(m as real / u as real, sign, mode, k)
    ensures IsRounding(t, sign, mode, k)
    ensures t == k as real <==> m as real / u as real == k as real
  {
    var s := m as real / u as real;
    if s != t {
      SameSide(m, u, t, 2 * k - 2);
      SameSide(m, u, t, 2 * k - 1);
      SameSide(m, u, t, 2 * k);
      SameSide(m, u, t, 2 * k + 1);
      SameSide(m, u, t, 2 * k + 2);
    }
  }
}
