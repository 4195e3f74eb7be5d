/**
 * The integer arithmetic behind buddy.c's macros: powers of two (`1 << o`),
 * bitwise exclusive or on unsigned offsets (BUDDY_ADDR), single bits, and
 * alignment of an index to a power of two.
 */
module Bits {

  /** 2^n, that is `1 << n`. */
  function Pow2(n: nat): (r: nat)
    ensures r >= 1
  {
    if n == 0 then 1 else 2 * Pow2(n - 1)
  }

  /** Bitwise exclusive or of two non-negative integers, least significant bit first. */
  function Xor(a: nat, b: nat): nat
    decreases a + b
  {
    if a == 0 && b == 0 then 0
    else 2 * Xor(a / 2, b / 2) + (if a % 2 == b % 2 then 0 else 1)
  }

  /** Bit k of x. */
  function Bit(x: nat, k: nat): nat
  {
    if k == 0 then x % 2 else Bit(x / 2, k - 1)
  }

  /** x with bit k flipped. */
  function FlipBit(x: nat, k: nat): int
  {
    if Bit(x, k) == 0 then x + Pow2(k) else x - Pow2(k)
  }

  /** The k low bits of x are zero: x is a multiple of 2^k. */
  predicate Aligned(x: nat, k: nat)
  {
    k == 0 || (x % 2 == 0 && Aligned(x / 2, k - 1))
  }

  /** x >> k: the number of the aligned run of 2^k integers that holds x. */
  function Chunk(x: nat, k: nat): nat
  {
    if k == 0 then x else Chunk(x / 2, k - 1)
  }

  lemma {:induction false} Pow2Add(a: nat, b: nat)
    ensures Pow2(a + b) == Pow2(a) * Pow2(b)
  {
    if a > 0 {
      Pow2Add(a - 1, b);
      assert Pow2(a + b) == 2 * Pow2(a - 1 + b);
    }
  }

  lemma {:induction false} Pow2Monotone(a: nat, b: nat)
    requires a <= b
    ensures Pow2(a) <= Pow2(b)
  {
    if a < b {
      Pow2Monotone(a, b - 1);
    }
  }

  lemma {:induction false} XorZero(a: nat)
    ensures Xor(a, 0) == a
  {
    if a != 0 {
      XorZero(a / 2);
    }
  }

  /** Exclusive or with the same mask twice gives back the original value. */
  lemma {:induction false} XorTwice(a: nat, m: nat)
    ensures Xor(Xor(a, m), m) == a
    decreases a + m
  {
    if m == 0 {
      XorZero(a);
    } else {
      var q := Xor(a / 2, m / 2);
      var c := Xor(a, m);
      var low := if a % 2 == m % 2 then 0 else 1;
      assert c == 2 * q + low;
      assert c / 2 == q && c % 2 == low;
      XorTwice(a / 2, m / 2);
      assert Xor(c, m) == 2 * (a / 2) + (if low == m % 2 then 0 else 1);
    }
  }

  /** Exclusive or with 2^k flips bit k. */
  lemma {:induction false} XorPow2(x: nat, k: nat)
    ensures Xor(x, Pow2(k)) == FlipBit(x, k)
  {
    var m := Pow2(k);
    if k == 0 {
      XorZero(x / 2);
      assert m / 2 == 0 && m % 2 == 1;
      assert Xor(x, m) == 2 * (x / 2) + (if x % 2 == 1 then 0 else 1);
    } else {
      assert m == 2 * Pow2(k - 1);
      assert m / 2 == Pow2(k - 1) && m % 2 == 0;
      assert Xor(x, m) == 2 * Xor(x / 2, Pow2(k - 1)) + x % 2;
      XorPow2(x / 2, k - 1);
      FlipBitHalf(x, k);
    }
  }

  lemma {:induction false} BitIsBit(x: nat, k: nat)
    ensures Bit(x, k) <= 1
  {
    if k > 0 {
      BitIsBit(x / 2, k - 1);
    }
  }

  /** Flipping a bit above bit 0 acts on x / 2 and keeps bit 0. */
  lemma {:induction false} FlipBitHalf(x: nat, k: nat)
    requires k > 0
    ensures FlipBit(x, k) == 2 * FlipBit(x / 2, k - 1) + x % 2
  {
  }

  /** FlipBit changes bit k and no other bit. */
  lemma {:induction false} FlipBitBits(x: nat, k: nat, j: nat)
    ensures FlipBit(x, k) >= 0
    ensures Bit(FlipBit(x, k), j) == if j == k then 1 - Bit(x, k) else Bit(x, j)
  {
    BitIsBit(x, k);
    if k == 0 {
      if j > 0 {
        assert FlipBit(x, k) / 2 == x / 2;
      }
    } else {
      FlipBitHalf(x, k);
      FlipBitBits(x / 2, k - 1, if j == 0 then 0 else j - 1);
      var y := FlipBit(x, k);
      assert y / 2 == FlipBit(x / 2, k - 1) && y % 2 == x % 2;
    }
  }

  lemma {:induction false} FlipBitTwice(x: nat, k: nat)
    ensures FlipBit(x, k) >= 0 && FlipBit(FlipBit(x, k), k) == x
  {
    FlipBitBits(x, k, k);
    BitIsBit(x, k);
  }

  /** Flipping a bit below n keeps a value below 2^n. */
  lemma {:induction false} FlipBitBelow(x: nat, k: nat, n: nat)
    requires x < Pow2(n) && k < n
    ensures 0 <= FlipBit(x, k) < Pow2(n)
  {
    assert Pow2(n) == 2 * Pow2(n - 1);
    if k > 0 {
      assert x / 2 < Pow2(n - 1);
      FlipBitHalf(x, k);
      FlipBitBelow(x / 2, k - 1, n - 1);
    }
  }

  /** Alignment to 2^k is alignment to every smaller power, with those bits zero. */
  lemma {:induction false} AlignedLow(x: nat, k: nat, d: nat)
    requires Aligned(x, k) && d < k
    ensures Bit(x, d) == 0 && Aligned(x, d)
  {
    if d > 0 {
      AlignedLow(x / 2, k - 1, d - 1);
    }
  }

  /** An aligned index with bit k clear is aligned one level higher. */
  lemma {:induction false} AlignedUp(x: nat, k: nat)
    requires Aligned(x, k) && Bit(x, k) == 0
    ensures Aligned(x, k + 1)
  {
    if k > 0 {
      AlignedUp(x / 2, k - 1);
    }
  }

  /** The two halves of a block aligned to 2^(k+1) are aligned to 2^k. */
  lemma {:induction false} AlignedHalves(x: nat, k: nat)
    requires Aligned(x, k + 1)
    ensures Aligned(x, k) && Bit(x, k) == 0
    ensures FlipBit(x, k) == x + Pow2(k) && Aligned(x + Pow2(k), k)
  {
    AlignedLow(x, k + 1, k);
    if k > 0 {
      AlignedHalves(x / 2, k - 1);
      assert (x + Pow2(k)) / 2 == x / 2 + Pow2(k - 1);
    }
  }

  /** Of an aligned index and its buddy at level k, the lower one is aligned one level higher. */
  lemma {:induction false} AlignedLower(x: nat, k: nat)
    requires Aligned(x, k)
    ensures FlipBit(x, k) >= 0
    ensures Aligned(if FlipBit(x, k) < x then FlipBit(x, k) else x, k + 1)
  {
    BitIsBit(x, k);
    FlipBitBits(x, k, k);
    if Bit(x, k) == 0 {
      AlignedUp(x, k);
    } else {
      var y := FlipBit(x, k);
      assert Aligned(y, k) by {
        FlipBitTwice(x, k);
        AlignedLowerStep(x, k);
      }
      AlignedUp(y, k);
    }
  }

  /** Clearing bit k of an aligned index keeps it aligned at k. */
  lemma {:induction false} AlignedLowerStep(x: nat, k: nat)
    requires Aligned(x, k)
    ensures FlipBit(x, k) >= 0 && Aligned(FlipBit(x, k), k)
  {
    FlipBitBits(x, k, k);
    if k > 0 {
      FlipBitHalf(x, k);
      AlignedLowerStep(x / 2, k - 1);
      var z := FlipBit(x / 2, k - 1);
      var y := FlipBit(x, k);
      assert y == 2 * z;
      assert y % 2 == 0 && y / 2 == z;
    }
  }

  /** An aligned block starting below 2^n ends within 2^n. */
  lemma {:induction false} AlignedFits(x: nat, k: nat, n: nat)
    requires Aligned(x, k) && k <= n && x < Pow2(n)
    ensures x + Pow2(k) <= Pow2(n)
  {
    if k > 0 {
      AlignedFits(x / 2, k - 1, n - 1);
    }
  }

  /** Aligned means a multiple of the power: x == (x >> k) * 2^k. */
  lemma {:induction false} AlignedIsMultiple(x: nat, k: nat)
    ensures Aligned(x, k) <==> x == Chunk(x, k) * Pow2(k)
  {
    if k > 0 {
      AlignedIsMultiple(x / 2, k - 1);
      assert Chunk(x, k) * Pow2(k) == 2 * (Chunk(x / 2, k - 1) * Pow2(k - 1));
    }
  }

  /** Scaling by 2^m shifts alignment up by m. */
  lemma {:induction false} AlignedScale(x: nat, k: nat, m: nat)
    requires Aligned(x, k)
    ensures Aligned(x * Pow2(m), k + m)
  {
    if m > 0 {
      AlignedScale(x, k, m - 1);
      var z := x * Pow2(m - 1);
      var y := x * Pow2(m);
      assert y == 2 * z;
      assert y % 2 == 0 && y / 2 == z;
    }
  }

  /** Scaling by 2^m moves every bit up by m places. */
  lemma {:induction false} BitScale(x: nat, k: nat, m: nat)
    ensures Bit(x * Pow2(m), k + m) == Bit(x, k)
  {
    if m > 0 {
      BitScale(x, k, m - 1);
      var z := x * Pow2(m - 1);
      var y := x * Pow2(m);
      assert y == 2 * z;
      assert y % 2 == 0 && y / 2 == z;
    }
  }

  lemma {:induction false} ChunkStep(x: nat, k: nat)
    ensures Chunk(x, k + 1) == Chunk(x, k) / 2
  {
    if k > 0 {
      ChunkStep(x / 2, k - 1);
    }
  }

  /** Aligned runs nest: sharing a small run means sharing every larger one. */
  lemma {:induction false} ChunkNested(x: nat, y: nat, k: nat, m: nat)
    requires k <= m && Chunk(x, k) == Chunk(y, k)
    ensures Chunk(x, m) == Chunk(y, m)
    decreases m - k
  {
    if k < m {
      ChunkStep(x, k);
      ChunkStep(y, k);
      ChunkNested(x, y, k + 1, m);
    }
  }

  /** The run of an aligned x is exactly [x, x + 2^k). */
  lemma {:induction false} ChunkRange(x: nat, y: nat, k: nat)
    requires Aligned(x, k)
    ensures Chunk(y, k) == Chunk(x, k) <==> x <= y < x + Pow2(k)
  {
    if k > 0 {
      ChunkRange(x / 2, y / 2, k - 1);
    }
  }
}
