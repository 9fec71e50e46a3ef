/**
 * Powers of two and the bit-reversal permutation that the NTT uses to
 * reorder its input (dream_function-1.cpp, lines 41-46).
 *
 * The source manipulates the counter `j` with `&` and `^` against a single
 * power of two `bit`; on non-negative integers `j & bit != 0` is the test
 * `(j / bit) % 2 == 1`, and `j ^= bit` is `j - bit` when that bit is set and
 * `j + bit` when it is clear. The model states those operations that way.
 */
module Bits {
  import opened ModArith

  function Pow2(k: nat): (r: nat)
    ensures r >= 1
    decreases k
  {
    if k == 0 then 1 else 2 * Pow2(k - 1)
  }

  /** Floor of the base-2 logarithm (0 for 0 and 1). */
  function Log2(n: nat): nat
    decreases n
  {
    if n <= 1 then 0 else 1 + Log2(n / 2)
  }

  predicate IsPow2(n: int) {
    n >= 1 && Pow2(Log2(n)) == n
  }

  lemma {:induction false} Log2OfPow2(k: nat)
    ensures Log2(Pow2(k)) == k
    decreases k
  {
    if k > 0 {
      assert Pow2(k) / 2 == Pow2(k - 1);
      Log2OfPow2(k - 1);
    }
  }

  lemma Pow2IsPow2(k: nat)
    ensures IsPow2(Pow2(k))
  {
    Log2OfPow2(k);
  }

  lemma {:induction false} Pow2Monotone(j: nat, k: nat)
    requires j <= k
    ensures Pow2(j) <= Pow2(k)
    decreases k
  {
    if j < k {
      Pow2Monotone(j, k - 1);
    }
  }

  lemma {:induction false} Pow2IsPow(k: nat)
    ensures Pow2(k) == Pow(2, k)
    decreases k
  {
    if k > 0 {
      Pow2IsPow(k - 1);
    }
  }

  lemma {:induction false} Pow2Add(j: nat, k: nat)
    ensures Pow2(j + k) == Pow2(j) * Pow2(k)
    decreases j
  {
    if j > 0 {
      Pow2Add(j - 1, k);
    }
  }

  /** 2^23, the largest power of two dividing Q - 1. */
  lemma Pow2Of23()
    ensures Pow2(23) == 8388608
  {
    assert Pow2(1) == 2;
    assert Pow2(2) == 4;
    assert Pow2(3) == 8;
    assert Pow2(4) == 16;
    assert Pow2(5) == 32;
    assert Pow2(6) == 64;
    assert Pow2(7) == 128;
    assert Pow2(8) == 256;
    assert Pow2(9) == 512;
    assert Pow2(10) == 1024;
    assert Pow2(11) == 2048;
    assert Pow2(12) == 4096;
    assert Pow2(13) == 8192;
    assert Pow2(14) == 16384;
    assert Pow2(15) == 32768;
    assert Pow2(16) == 65536;
    assert Pow2(17) == 131072;
    assert Pow2(18) == 262144;
    assert Pow2(19) == 524288;
    assert Pow2(20) == 1048576;
    assert Pow2(21) == 2097152;
    assert Pow2(22) == 4194304;
    assert Pow2(23) == 8388608;
  }

  /** A power of two above 1 halves to a power of two. */
  lemma HalfOfPow2(n: int)
    requires IsPow2(n) && n >= 2
    ensures IsPow2(n / 2) && n / 2 * 2 == n && Log2(n / 2) == Log2(n) - 1
  {
    assert Log2(n) == 1 + Log2(n / 2);
    assert n == 2 * Pow2(Log2(n / 2));
  }

  /** Doubling a power of two adds one to its logarithm. */
  lemma DoublePow2(n: int)
    requires IsPow2(n)
    ensures IsPow2(2 * n) && Log2(2 * n) == Log2(n) + 1
  {
    assert (2 * n) / 2 == n;
    assert Log2(2 * n) == 1 + Log2(n);
  }

  /** A smaller power of two divides a larger one. */
  lemma Pow2Divides(m: int, n: int)
    requires IsPow2(m) && IsPow2(n) && m <= n
    ensures n % m == 0 && Log2(m) <= Log2(n)
  {
    Log2Monotone(m, n);
    Pow2DividesExp(Log2(m), Log2(n) - Log2(m));
  }

  lemma Log2Monotone(m: int, n: int)
    requires IsPow2(m) && IsPow2(n) && m <= n
    ensures Log2(m) <= Log2(n)
  {
    if Log2(m) > Log2(n) {
      Pow2Monotone(Log2(n) + 1, Log2(m));
      assert false;
    }
  }

  /** Below a power of two, the next power of two still fits. */
  lemma DoubleStaysBelow(m: int, n: int)
    requires IsPow2(m) && IsPow2(n) && m < n
    ensures 2 * m <= n
  {
    Log2Monotone(m, n);
    Pow2Monotone(Log2(m) + 1, Log2(n));
  }

  /** Alignment to `2 * len` implies alignment to `len` of both halves. */
  lemma HalvesAligned(p: int, len: int)
    requires len >= 1 && p >= 0 && p % (2 * len) == 0
    ensures p % len == 0 && (p + len) % len == 0
  {
    DivModDecompose(p, 2 * len);
    var k := p / (2 * len);
    MulShuffle(k, 2, len);
    DivModUnique(p, len, 2 * k, 0);
    DivModUnique(p + len, len, 2 * k + 1, 0);
  }

  lemma Pow2DividesExp(a: nat, c: nat)
    ensures Pow2(a + c) % Pow2(a) == 0
  {
    Pow2Add(a, c);
    DivModUnique(Pow2(a + c), Pow2(a), Pow2(c), 0);
  }

  /**
   * In a buffer whose length `n` is a multiple of `len`, the block of
   * length `len` containing `p` lies inside the buffer.
   */
  lemma BlockFits(p: int, len: int, n: int)
    requires len > 0 && n % len == 0 && 0 <= p < n
    ensures 0 <= p - p % len && p - p % len + len <= n && (p - p % len) % len == 0
  {
    DivModDecompose(p, len);
    DivModDecompose(n, len);
    var b, c := p / len, n / len;
    if b >= c {
      assert b * len >= c * len by {
        MulMonotone(c, b, len);
      }
    }
    MulMonotone(b + 1, c, len);
    DivModUnique(p - p % len, len, b, 0);
  }

  /** Offsets inside the block that starts at `i`. */
  lemma OffsetInBlock(i: int, len: int, d: int)
    requires len > 0 && i >= 0 && i % len == 0 && 0 <= d < len
    ensures (i + d) % len == d
  {
    DivModDecompose(i, len);
    DivModUnique(i + d, len, i / len, d);
  }

  lemma MulMonotone(x: int, y: int, m: int)
    requires x <= y && m >= 0
    ensures x * m <= y * m
  {
    assert y * m - x * m == (y - x) * m;
  }

  /**
   * The `bits`-bit reversal of `x`: bit t of the result is bit
   * `bits - 1 - t` of `x`.
   */
  function Rev(x: nat, bits: nat): nat
    decreases bits
  {
    if bits == 0 then 0 else (x % 2) * Pow2(bits - 1) + Rev(x / 2, bits - 1)
  }

  lemma {:induction false} RevZero(bits: nat)
    ensures Rev(0, bits) == 0
    decreases bits
  {
    if bits > 0 {
      RevZero(bits - 1);
    }
  }

  lemma {:induction false} RevBound(x: nat, bits: nat)
    ensures Rev(x, bits) < Pow2(bits)
    decreases bits
  {
    if bits > 0 {
      var H, b := Pow2(bits - 1), x % 2;
      RevBound(x / 2, bits - 1);
      assert b * H <= H by {
        MulMonotone(b, 1, H);
      }
    }
  }

  /** Reversal read from the top bit: the top bit of `x` becomes bit 0. */
  lemma {:induction false} RevFromTop(x: nat, bits: nat)
    requires bits >= 1 && x < Pow2(bits)
    ensures Rev(x, bits) == 2 * Rev(x % Pow2(bits - 1), bits - 1) + x / Pow2(bits - 1)
    decreases bits
  {
    if bits >= 2 {
      var H, h := Pow2(bits - 1), Pow2(bits - 2);
      var x2 := x / 2;
      var b := x % 2;
      assert H == 2 * h;
      assert x2 < H;
      RevFromTop(x2, bits - 1);
      var q, r := x2 / h, x2 % h;
      SplitBelowTop(x, h, H);
      var t := Rev(r, bits - 2);
      calc {
        Rev(x, bits);
        b * H + Rev(x2, bits - 1);
        b * H + 2 * t + q;
      }
      calc {
        2 * Rev(x % H, bits - 1) + x / H;
        2 * Rev(2 * r + b, bits - 1) + q;
        { DivModUnique(2 * r + b, 2, r, b); }
        2 * (b * h + t) + q;
        { assert 2 * (b * h) == b * H; }
        b * H + 2 * t + q;
      }
    }
  }

  /** Splitting `x` at bit 0 and at the bit of weight `H == 2 * h`. */
  lemma SplitBelowTop(x: nat, h: int, H: int)
    requires h > 0 && H == 2 * h
    ensures x / H == (x / 2) / h && x % H == 2 * ((x / 2) % h) + x % 2
  {
    var q, r := (x / 2) / h, (x / 2) % h;
    DivModDecompose(x / 2, h);
    assert x == H * q + (2 * r + x % 2);
    DivModUnique(x, H, q, 2 * r + x % 2);
  }

  /** Adding a multiple of `k` keeps the remainder modulo `k`. */
  lemma ShiftByMultiple(x: int, m: int, k: int)
    requires k > 0 && m % k == 0
    ensures (x + m) % k == x % k
  {
    DivModDecompose(m, k);
    ModAddMultiple(x, m / k, k);
  }

  lemma DivModDecompose(a: int, m: int)
    requires m > 0
    ensures a == (a / m) * m + a % m && 0 <= a % m < m
  {
  }

  /** Bit reversal is an involution on `bits`-bit numbers. */
  lemma {:induction false} RevInvolution(x: nat, bits: nat)
    requires x < Pow2(bits)
    ensures Rev(Rev(x, bits), bits) == x
    decreases bits
  {
    if bits >= 1 {
      var H := Pow2(bits - 1);
      var r := Rev(x / 2, bits - 1);
      RevBound(x / 2, bits - 1);
      var y := Rev(x, bits);
      assert y == (x % 2) * H + r;
      RevBound(x, bits);
      RevFromTop(y, bits);
      DivModUnique(y, H, x % 2, r);
      RevInvolution(x / 2, bits - 1);
    }
  }

  /**
   * The inner loop of the bit-reversal step (lines 42-44): clear the set
   * bits of `j` from `bit` downwards, then set the first clear one.
   */
  function ReversedSuccessor(j: int, bit: nat): int
    decreases bit
  {
    if bit > 0 && (j / bit) % 2 == 1 then ReversedSuccessor(j - bit, bit / 2) else j + bit
  }

  /**
   * Counting in reversed binary: when `j` is the reversal of `m`, the
   * incremental bit flip of lines 42-44 produces the reversal of `m + 1`.
   */
  lemma {:induction false} ReversedSuccessorIsRev(m: nat, bits: nat)
    requires bits >= 1 && m + 1 < Pow2(bits)
    ensures ReversedSuccessor(Rev(m, bits), Pow2(bits - 1)) == Rev(m + 1, bits)
    decreases bits
  {
    if m % 2 == 0 {
      SuccessorOfEven(m, bits);
    } else {
      var H := Pow2(bits - 1);
      assert bits >= 2;
      assert m / 2 + 1 < Pow2(bits - 1);
      ReversedSuccessorIsRev(m / 2, bits - 1);
      SuccessorOfOdd(m, bits);
    }
  }

  /** An even `m`: the top bit of its reversal is clear and gets set. */
  lemma SuccessorOfEven(m: nat, bits: nat)
    requires bits >= 1 && m % 2 == 0
    ensures ReversedSuccessor(Rev(m, bits), Pow2(bits - 1)) == Rev(m + 1, bits)
  {
    var H := Pow2(bits - 1);
    RevBound(m / 2, bits - 1);
    var r := Rev(m / 2, bits - 1);
    var j := Rev(m, bits);
    assert j == r;
    DivModUnique(j, H, 0, r);
    assert ReversedSuccessor(j, H) == j + H;
    assert (m + 1) % 2 == 1 && (m + 1) / 2 == m / 2;
    assert Rev(m + 1, bits) == H + r;
  }

  /** An odd `m`: the top bit of its reversal is set, cleared, and the carry moves on. */
  lemma SuccessorOfOdd(m: nat, bits: nat)
    requires bits >= 2 && m % 2 == 1
    ensures ReversedSuccessor(Rev(m, bits), Pow2(bits - 1))
            == ReversedSuccessor(Rev(m / 2, bits - 1), Pow2(bits - 2))
    ensures Rev(m + 1, bits) == Rev(m / 2 + 1, bits - 1)
  {
    var H := Pow2(bits - 1);
    RevBound(m / 2, bits - 1);
    var r := Rev(m / 2, bits - 1);
    var j := Rev(m, bits);
    assert j == H + r;
    DivModUnique(j, H, 1, r);
    assert H / 2 == Pow2(bits - 2);
    assert (m + 1) % 2 == 0 && (m + 1) / 2 == m / 2 + 1;
  }
}
