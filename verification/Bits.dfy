/**
 Bits of integers and of limb buffers.
 */
module Bits {
  import opened Limbs

  // ---- two's complement ----

  /** Bit k of the two's-complement expansion of x; division rounds down. */
  predicate On(x: int, k: nat)
    decreases k
  {
    if k == 0 then x % 2 == 1 else On(x / 2, k - 1)
  }

  function Two(n: nat): (r: int)
    ensures r >= 1
  {
    if n == 0 then 1 else 2 * Two(n - 1)
  }

  /** -x - 1 has the opposite bits. */
  lemma {:induction false} NotOn(x: int, k: nat)
    ensures On(-x - 1, k) == !On(x, k)
    decreases k
  {
    if k > 0 {
      assert (-x - 1) / 2 == -(x / 2) - 1;
      NotOn(x / 2, k - 1);
    }
  }

  /** The expansion of a number in two parts. */
  lemma {:induction false} Parts(q: int, r: int, n: nat, k: nat)
    requires 0 <= r < Two(n)
    ensures On(Two(n) * q + r, k) == if k < n then On(r, k) else On(q, k - n)
    decreases n
  {
    if n > 0 {
      var h := Two(n - 1);
      assert Two(n) * q == 2 * (h * q) by { Regroup(h, q); }
      assert (2 * (h * q) + r) / 2 == h * q + r / 2 && (2 * (h * q) + r) % 2 == r % 2;
      if k > 0 {
        Parts(q, r / 2, n - 1, k - 1);
      }
    }
  }

  lemma Regroup(h: int, q: int)
    ensures (2 * h) * q == 2 * (h * q)
  {
  }

  lemma {:induction false} OnZero(k: nat)
    ensures !On(0, k)
  {
    if k > 0 {
      OnZero(k - 1);
    }
  }

  /** Bits at and above the length of a number are clear. */
  lemma OnAbove(x: nat, n: nat, k: nat)
    requires x < Two(n) && n <= k
    ensures !On(x, k)
  {
    Parts(0, x, n, k);
    OnZero(k - n);
  }

  /** An integer is determined by its bits. */
  lemma {:induction false} BitsDetermine(x: int, y: int)
    requires forall k: nat :: On(x, k) == On(y, k)
    ensures x == y
    decreases Size(x) + Size(y)
  {
    assert On(x, 0) == On(y, 0);
    if !(x == 0 || x == -1) || !(y == 0 || y == -1) {
      forall k: nat
        ensures On(x / 2, k) == On(y / 2, k)
      {
        assert On(x, k + 1) == On(y, k + 1);
      }
      BitsDetermine(x / 2, y / 2);
    }
  }

  function Size(x: int): nat {
    if x >= 0 then x else -x - 1
  }

  // ---- limbs ----

  lemma TwoPlus8(n: nat)
    ensures Two(n + 8) == 256 * Two(n)
  {
    assert Two(n + 2) == 4 * Two(n);
    assert Two(n + 4) == 4 * Two(n + 2);
    assert Two(n + 6) == 4 * Two(n + 4);
  }

  lemma LimbIsTwo64()
    ensures Two(64) == B
  {
    TwoPlus8(0);
    TwoPlus8(8);
    TwoPlus8(16);
    TwoPlus8(24);
    TwoPlus8(32);
    TwoPlus8(40);
    TwoPlus8(48);
    TwoPlus8(56);
  }

  /** The limbs of a value, bit by bit. */
  lemma {:induction false} ValOn(s: seq<Limb>, i: nat, k: nat)
    requires k < 64
    ensures On(Val(s), 64 * i + k) == (i < |s| && On(s[i], k))
    decreases s
  {
    LimbIsTwo64();
    if s == [] {
      OnZero(64 * i + k);
    } else {
      Parts(Val(s[1..]), s[0], 64, 64 * i + k);
      if i > 0 {
        ValOn(s[1..], i - 1, k);
      }
    }
  }

  lemma TwoZero()
    ensures Two(0) == 1
  {
  }
}
