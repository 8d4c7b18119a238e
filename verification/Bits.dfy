/** Bitwise operations on machine words, one bit at a time. */
module Bits {
  import opened Machine
  import Modulo

  function Pow2(k: nat): (p: nat)
    ensures p > 0
  {
    if k == 0 then 1 else 2 * Pow2(k - 1)
  }

  function XorBits(a: nat, b: nat, width: nat): nat {
    if width == 0 then 0 else (if a % 2 == b % 2 then 0 else 1) + 2 * XorBits(a / 2, b / 2, width - 1)
  }

  function OrBits(a: nat, b: nat, width: nat): nat {
    if width == 0 then 0 else (if a % 2 == 1 || b % 2 == 1 then 1 else 0) + 2 * OrBits(a / 2, b / 2, width - 1)
  }

  /** a & ~m */
  function ClearBits(a: nat, m: nat, width: nat): nat {
    if width == 0 then 0 else (if m % 2 == 1 then 0 else a % 2) + 2 * ClearBits(a / 2, m / 2, width - 1)
  }

  lemma {:induction false} XorBounded(a: nat, b: nat, width: nat)
    ensures XorBits(a, b, width) < Pow2(width)
  {
    if width > 0 { XorBounded(a / 2, b / 2, width - 1); }
  }

  lemma {:induction false} XorCommutes(a: nat, b: nat, width: nat)
    ensures XorBits(a, b, width) == XorBits(b, a, width)
  {
    if width > 0 { XorCommutes(a / 2, b / 2, width - 1); }
  }

  lemma {:induction false} XorTwice(a: nat, b: nat, width: nat)
    requires a < Pow2(width)
    ensures XorBits(XorBits(a, b, width), b, width) == a
  {
    if width > 0 {
      var low, high := if a % 2 == b % 2 then 0 else 1, XorBits(a / 2, b / 2, width - 1);
      XorTwice(a / 2, b / 2, width - 1);
      var x := low + 2 * high;
      assert x / 2 == high && x % 2 == low;
      assert XorBits(x, b, width) == (if low == b % 2 then 0 else 1) + 2 * XorBits(high, b / 2, width - 1);
    }
  }

  lemma {:induction false} OrNothing(a: nat, width: nat)
    requires a < Pow2(width)
    ensures OrBits(a, 0, width) == a
  {
    if width > 0 { OrNothing(a / 2, width - 1); }
  }

  lemma HalfAligned(a: nat, k: nat)
    requires k > 0 && a % Pow2(k) == 0
    ensures a % 2 == 0 && (a / 2) % Pow2(k - 1) == 0
  {
    var p := Pow2(k - 1);
    var q := a / Pow2(k);
    assert a == Pow2(k) * q;
    assert a == 2 * (p * q) by { assert (2 * p) * q == 2 * (p * q); }
    Modulo.AddMultiple(0, p, q);
  }

  /** Or-ing flags into the low bits of an aligned word adds them. */
  lemma {:induction false} OrAligned(a: nat, flags: nat, k: nat, width: nat)
    requires k <= width && a < Pow2(width) && flags < Pow2(k) && a % Pow2(k) == 0
    ensures OrBits(a, flags, width) == a + flags
  {
    if k == 0 {
      OrNothing(a, width);
    } else {
      HalfAligned(a, k);
      OrAligned(a / 2, flags / 2, k - 1, width - 1);
    }
  }

  lemma {:induction false} ClearNothing(a: nat, width: nat)
    requires a < Pow2(width)
    ensures ClearBits(a, 0, width) == a
  {
    if width > 0 { ClearNothing(a / 2, width - 1); }
  }

  lemma HalfRemainder(a: nat, p: nat)
    requires p > 0
    ensures a % (2 * p) == 2 * ((a / 2) % p) + a % 2
  {
    var h := a / 2;
    var q, r := h / p, h % p;
    assert h == p * q + r;
    assert a == (2 * p) * q + (2 * r + a % 2) by { assert (2 * p) * q == 2 * (p * q); }
    Modulo.Unique(a, 2 * p, q, 2 * r + a % 2);
  }

  /** Masking with ~(2^k - 1) rounds down to a multiple of 2^k. */
  lemma {:induction false} ClearRoundsDown(a: nat, k: nat, width: nat)
    requires k <= width && a < Pow2(width)
    ensures ClearBits(a, Pow2(k) - 1, width) == a - a % Pow2(k)
  {
    if k == 0 {
      ClearNothing(a, width);
    } else {
      var p := Pow2(k - 1);
      assert (Pow2(k) - 1) / 2 == p - 1 && (Pow2(k) - 1) % 2 == 1;
      ClearRoundsDown(a / 2, k - 1, width - 1);
      HalfRemainder(a, p);
    }
  }

  lemma {:induction false} Doubling(j: nat, k: nat)
    ensures Pow2(j + k) == Pow2(j) * Pow2(k)
  {
    if k > 0 {
      Doubling(j, k - 1);
      assert Pow2(j + k) == 2 * Pow2(j + k - 1);
    }
  }

  lemma WordSize()
    ensures Pow2(64) == TWO_64
  {
    assert Pow2(4) == 16;
    Doubling(4, 4);
    assert Pow2(8) == 256;
    Doubling(8, 8);
    assert Pow2(16) == 0x1_0000;
    Doubling(16, 16);
    assert Pow2(32) == 0x1_0000_0000;
    Doubling(32, 32);
  }

  function Xor(a: u64, b: u64): u64 {
    WordSize();
    XorBounded(a, b, 64);
    XorBits(a, b, 64)
  }

  lemma XorUndone(a: u64, b: u64)
    ensures Xor(Xor(a, b), b) == a && Xor(a, b) == Xor(b, a)
  {
    WordSize();
    XorTwice(a, b, 64);
    XorCommutes(a, b, 64);
  }

  lemma {:induction false} OrBounded(a: nat, b: nat, width: nat)
    ensures OrBits(a, b, width) < Pow2(width)
  {
    if width > 0 { OrBounded(a / 2, b / 2, width - 1); }
  }

  function Or(a: u64, b: u64): u64 {
    WordSize();
    OrBounded(a, b, 64);
    OrBits(a, b, 64)
  }

  /** Page-aligned address | attribute bits. */
  lemma OrPage(a: u64, flags: u64)
    requires a % 4096 == 0 && flags < 4096
    ensures Or(a, flags) == a + flags
  {
    WordSize();
    assert Pow2(12) == 4096 by { assert Pow2(6) == 64; Doubling(6, 6); }
    OrAligned(a, flags, 12, 64);
  }

  /** a & ~m on 64-bit words. */
  function AndNot(a: u64, m: u64): nat { ClearBits(a, m, 64) }

  lemma {:induction false} PowMonotone(j: nat, k: nat)
    requires j <= k
    ensures Pow2(j) <= Pow2(k)
  {
    if j < k { PowMonotone(j, k - 1); }
  }

  lemma AndNotRoundsDown(a: u64, k: nat)
    requires k <= 32
    ensures Pow2(k) - 1 < TWO_64 && AndNot(a, Pow2(k) - 1) == a - a % Pow2(k)
  {
    WordSize();
    PowMonotone(k, 64);
    ClearRoundsDown(a, k, 64);
  }
}
