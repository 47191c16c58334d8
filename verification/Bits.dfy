/** Bitwise AND on the naturals, and what the program's two kinds of mask do. */
module Bits {
  import opened Prelude

  function Pow2(k: nat): (p: nat)
    ensures p > 0
  {
    if k == 0 then 1 else 2 * Pow2(k - 1)
  }

  /** x & y, bit by bit from the lowest. */
  function And(x: nat, y: nat): nat {
    if x == 0 || y == 0 then 0
    else (if x % 2 == 1 && y % 2 == 1 then 1 else 0) + 2 * And(x / 2, y / 2)
  }

  /** The remainder by 2^(k+1), from the lowest bit and the rest. */
  lemma RemainderBits(x: nat, p: nat)
    requires p > 0
    ensures x % (2 * p) == x % 2 + 2 * (x / 2 % p)
  {
    var half := x / 2;
    assert half == half / p * p + half % p;
    DivModUnique(x, 2 * p, half / p, x % 2 + 2 * (half % p));
  }

  /** Masking with a power of two less one leaves the remainder. */
  lemma {:induction false} LowMask(x: nat, k: nat)
    ensures And(x, Pow2(k) - 1) == x % Pow2(k)
    decreases k
  {
    if k > 0 {
      LowMask(x / 2, k - 1);
      RemainderBits(x, Pow2(k - 1));
    }
  }

  lemma EvenMask(x: nat, y: nat)
    ensures And(x, 2 * y) == 2 * And(x / 2, y)
  {
  }

  /** Masking with its complement in `width` bits takes the remainder away. */
  lemma {:induction false} HighMask(x: nat, k: nat, width: nat)
    requires x < Pow2(width) && k <= width
    ensures Pow2(k) <= Pow2(width)
    ensures And(x, Pow2(width) - Pow2(k)) == x - x % Pow2(k)
    decreases width
  {
    hide And;
    if k == 0 {
      LowMask(x, width);
      DivModUnique(x, Pow2(width), 0, x);
      DivModUnique(x, 1, x, 0);
    } else {
      var low, all := Pow2(k - 1), Pow2(width - 1);
      assert Pow2(k) == 2 * low && Pow2(width) == 2 * all;
      hide Pow2;
      HighMask(x / 2, k - 1, width - 1);
      EvenMask(x, all - low);
      RemainderBits(x, low);
      var rest := x / 2 % low;
      assert And(x / 2, all - low) == x / 2 - rest && x % (2 * low) == x % 2 + 2 * rest;
    }
  }

  lemma Pow2Values()
    ensures Pow2(3) == 8 && Pow2(31) == 0x8000_0000 && Pow2(64) == 0x1_0000_0000_0000_0000
  {
    assert Pow2(8) == 0x100;
    assert Pow2(16) == 0x10000;
    assert Pow2(24) == 0x1000000;
    assert Pow2(32) == 0x100000000;
    assert Pow2(40) == 0x10000000000;
    assert Pow2(48) == 0x1000000000000;
    assert Pow2(56) == 0x100000000000000;
  }

  /** Powers of two divide larger ones. */
  lemma {:induction false} Pow2Divides(k: nat, n: nat)
    requires k <= n
    ensures Pow2(k) <= Pow2(n) && Pow2(n) % Pow2(k) == 0
    decreases n
  {
    if k == n {
      DivModUnique(Pow2(n), Pow2(k), 1, 0);
    } else {
      Pow2Divides(k, n - 1);
      var q := Pow2(n - 1) / Pow2(k);
      DivModUnique(Pow2(n), Pow2(k), 2 * q, 0);
    }
  }
}
