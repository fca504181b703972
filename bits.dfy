/** Python's `&`, `>>` and `<<` on non-negative integers, and the facts the
    decomposition encoder's bit masks need. */
module Bits {

  /** x & y, bit by bit from the lowest. */
  function BitAnd(x: nat, y: nat): nat
    decreases x
  {
    if x == 0 || y == 0 then 0
    else 2 * BitAnd(x / 2, y / 2) + (if x % 2 == 1 && y % 2 == 1 then 1 else 0)
  }

  /** x >> k */
  function Shr(x: nat, k: nat): nat
  {
    if k == 0 then x else Shr(x / 2, k - 1)
  }

  /** y << k */
  function Shl(y: nat, k: nat): (r: nat)
    ensures y > 0 ==> r >= y
  {
    if k == 0 then y else 2 * Shl(y, k - 1)
  }

  /** The k low bits of x, that is x & ((1 << k) - 1). */
  function Low(x: nat, k: nat): nat
  {
    if k == 0 then 0 else 2 * Low(x / 2, k - 1) + x % 2
  }

  lemma {:induction false} ZeroShifts(k: nat)
    ensures Shr(0, k) == 0 && Shl(0, k) == 0 && Low(0, k) == 0
  {
    if k > 0 { ZeroShifts(k - 1); }
  }

  /** y << k is y times 2^k. */
  lemma {:induction false} ShlIsMul(y: nat, k: nat)
    ensures Shl(y, k) == y * Shl(1, k)
  {
    if k > 0 {
      ShlIsMul(y, k - 1);
      assert 2 * (y * Shl(1, k - 1)) == y * (2 * Shl(1, k - 1));
    }
  }

  /** The powers of two the encoder's masks are made of. */
  lemma Powers()
    ensures Shl(1, 2) == 0x4 && Shl(1, 4) == 0x10 && Shl(1, 7) == 0x80
    ensures Shl(1, 11) == 0x800 && Shl(1, 12) == 0x1000 && Shl(1, 14) == 0x4000
    ensures Shl(1, 16) == 0x1_0000 && Shl(1, 20) == 0x10_0000 && Shl(1, 21) == 0x20_0000
    ensures Shl(1, 25) == 0x200_0000 && Shl(1, 32) == 0x1_0000_0000
  {
    var k, p := 0, 1;
    while k < 32
      invariant k <= 32 && Shl(1, k) == p
      invariant k >= 2 ==> Shl(1, 2) == 0x4
      invariant k >= 4 ==> Shl(1, 4) == 0x10
      invariant k >= 7 ==> Shl(1, 7) == 0x80
      invariant k >= 11 ==> Shl(1, 11) == 0x800
      invariant k >= 12 ==> Shl(1, 12) == 0x1000
      invariant k >= 14 ==> Shl(1, 14) == 0x4000
      invariant k >= 16 ==> Shl(1, 16) == 0x1_0000
      invariant k >= 20 ==> Shl(1, 20) == 0x10_0000
      invariant k >= 21 ==> Shl(1, 21) == 0x20_0000
      invariant k >= 25 ==> Shl(1, 25) == 0x200_0000
    {
      k, p := k + 1, 2 * p;
    }
  }

  lemma {:induction false} ShlInjective(y: nat, z: nat, k: nat)
    ensures Shl(y, k) == Shl(z, k) <==> y == z
  {
    if k > 0 { ShlInjective(y, z, k - 1); }
  }

  lemma {:induction false} LowBound(x: nat, k: nat)
    ensures Low(x, k) < Shl(1, k)
  {
    if k > 0 { LowBound(x / 2, k - 1); }
  }

  lemma {:induction false} LowOfSmall(x: nat, k: nat)
    requires x < Shl(1, k)
    ensures Low(x, k) == x
  {
    if k > 0 { LowOfSmall(x / 2, k - 1); }
  }

  /** Shifting right by k gives q exactly on the range [q << k, (q + 1) << k). */
  lemma {:induction false} ShrIs(x: nat, k: nat, q: nat)
    ensures Shr(x, k) == q <==> Shl(q, k) <= x < Shl(q + 1, k)
  {
    if k > 0 { ShrIs(x / 2, k - 1, q); }
  }

  lemma {:induction false} ShrMonotone(x: nat, y: nat, k: nat)
    requires x <= y
    ensures Shr(x, k) <= Shr(y, k)
  {
    if k > 0 { ShrMonotone(x / 2, y / 2, k - 1); }
  }

  lemma {:induction false} ShrShr(x: nat, j: nat, k: nat)
    ensures Shr(Shr(x, j), k) == Shr(x, j + k)
  {
    if j > 0 { ShrShr(x / 2, j - 1, k); }
  }

  lemma {:induction false} ShrBelow(x: nat, n: nat, k: nat)
    requires x < Shl(1, n + k)
    ensures Shr(x, k) < Shl(1, n)
  {
    if k > 0 {
      assert Shl(1, n + k) == 2 * Shl(1, n + k - 1);
      ShrBelow(x / 2, n, k - 1);
    }
  }

  /** x is its high part shifted back plus its low part. */
  lemma {:induction false} HighLow(x: nat, k: nat)
    ensures Shl(Shr(x, k), k) + Low(x, k) == x
  {
    if k > 0 { HighLow(x / 2, k - 1); }
  }

  /** A mask of k low one-bits keeps the k low bits. */
  lemma {:induction false} BitAndLowOnes(x: nat, k: nat)
    ensures BitAnd(x, Shl(1, k) - 1) == Low(x, k)
  {
    if k == 0 {
    } else {
      BitAndLowOnes(x / 2, k - 1);
      ZeroShifts(k);
    }
  }

  /** A mask made of a high part shifted by k and a low part below bit k
      acts on each part separately. */
  lemma {:induction false} BitAndSplit(x: nat, hi: nat, lo: nat, k: nat)
    requires lo < Shl(1, k)
    ensures BitAnd(x, Shl(hi, k) + lo) == Shl(BitAnd(Shr(x, k), hi), k) + BitAnd(Low(x, k), lo)
  {
    var m := Shl(hi, k) + lo;
    if k == 0 {
    } else if x == 0 {
      ZeroShifts(k);
      ZeroShifts(k - 1);
    } else if m == 0 {
      ShlInjective(hi, 0, k);
      ZeroShifts(k);
    } else {
      var l := Low(x, k);
      var a := BitAnd(Shr(x, k), hi);
      assert m / 2 == Shl(hi, k - 1) + lo / 2 && m % 2 == lo % 2;
      assert lo / 2 < Shl(1, k - 1);
      BitAndSplit(x / 2, hi, lo / 2, k - 1);
      assert Shr(x / 2, k - 1) == Shr(x, k);
      assert l / 2 == Low(x / 2, k - 1) && l % 2 == x % 2;
      assert Shl(a, k) == 2 * Shl(a, k - 1);
      if l == 0 || lo == 0 {
        ZeroShifts(k - 1);
      }
    }
  }

  /** x & ((2^n - 1) << k) keeps the n bits of x that start at bit k. */
  lemma OnesAt(x: nat, n: nat, k: nat)
    ensures BitAnd(x, Shl(Shl(1, n) - 1, k)) == Shl(Low(Shr(x, k), n), k)
  {
    ZeroShifts(k);
    assert 0 < Shl(1, k);
    BitAndSplit(x, Shl(1, n) - 1, 0, k);
    BitAndLowOnes(Shr(x, k), n);
    ZeroShifts(k);
  }
}
