/**
 * The inverse direction of `fwht` (lines 70-86) undoes the forward one: on
 * a buffer of residues whose length n is a power of two below Q, the
 * forward transform followed by the inverse transform gives the buffer
 * back. The proof splits the buffer into halves: the stages of half-length
 * below n / 2 act on each half separately, the last stage combines the two
 * halves, and the transform is linear modulo Q.
 */
module FwhtInverse {
  import opened ModArith
  import opened Bits
  import opened Fermat
  import opened Fwht

  /** `x + y` or, when `minus` holds, `x - y`, modulo Q. */
  function Mix(x: int, y: int, minus: bool): int {
    if minus then (x - y) % Q else (x + y) % Q
  }

  /** Entrywise `Mix` of two buffers of the same length. */
  ghost function Combine(u: seq<int>, v: seq<int>, minus: bool): (r: seq<int>)
    requires |u| == |v|
    ensures |r| == |u| && forall p :: 0 <= p < |u| ==> r[p] == Mix(u[p], v[p], minus)
  {
    seq(|u|, p requires 0 <= p < |u| => Mix(u[p], v[p], minus))
  }

  lemma CombineSplits(u1: seq<int>, u2: seq<int>, v1: seq<int>, v2: seq<int>, minus: bool)
    requires |u1| == |v1| && |u2| == |v2|
    ensures Combine(u1 + u2, v1 + v2, minus) == Combine(u1, v1, minus) + Combine(u2, v2, minus)
  {
  }

  // ---------------------------------------------------------------------
  // Modular arithmetic of one entry
  // ---------------------------------------------------------------------

  /** Reducing both operands first does not change the residue. */
  lemma MixReduce(a: int, b: int, minus: bool)
    ensures Mix(a % Q, b % Q, minus) == Mix(a, b, minus)
  {
    DivModDecompose(a, Q);
    DivModDecompose(b, Q);
    var qa, qb := a / Q, b / Q;
    if minus {
      assert a - b == a % Q - b % Q + (qa - qb) * Q;
      ModAddMultiple(a % Q - b % Q, qa - qb, Q);
    } else {
      assert a + b == a % Q + b % Q + (qa + qb) * Q;
      ModAddMultiple(a % Q + b % Q, qa + qb, Q);
    }
  }

  /** Mixing two mixes is one signed sum of the four entries, in either order. */
  lemma MixInterchange(x1: int, x2: int, y1: int, y2: int, c: bool, e: bool)
    ensures Mix(Mix(x1, y1, c), Mix(x2, y2, c), e) == Mix(Mix(x1, x2, e), Mix(y1, y2, e), c)
  {
    MixReduce(if c then x1 - y1 else x1 + y1, if c then x2 - y2 else x2 + y2, e);
    MixReduce(if e then x1 - x2 else x1 + x2, if e then y1 - y2 else y1 + y2, c);
  }

  /** `(2 * (z % Q)) % Q == (2 * z) % Q` */
  lemma DoubleReduce(z: int)
    ensures Mix(z % Q, z % Q, false) == (2 * z) % Q
  {
    MixReduce(z, z, false);
  }

  /** The sum and the difference of `X` and `Y`, mixed again, give `2 X` and `2 Y`. */
  lemma MixTwice(X: int, Y: int)
    ensures Mix(Mix(X, Y, false), Mix(X, Y, true), false) == Mix(X, X, false)
    ensures Mix(Mix(X, Y, false), Mix(X, Y, true), true) == Mix(Y, Y, false)
  {
    MixReduce(X + Y, X - Y, false);
    MixReduce(X + Y, X - Y, true);
  }

  /** For residues: the entries of the double transform of two halves. */
  lemma DoubleEntries(x: int, y: int, m: int)
    ensures Mix(Mix(x * m % Q, y * m % Q, false), Mix(x * m % Q, y * m % Q, true), false) == (x * (2 * m)) % Q
    ensures Mix(Mix(x * m % Q, y * m % Q, false), Mix(x * m % Q, y * m % Q, true), true) == (y * (2 * m)) % Q
  {
    MixTwice(x * m % Q, y * m % Q);
    DoubleReduce(x * m);
    DoubleReduce(y * m);
    MulShuffle(2, x, m);
    MulShuffle(2, y, m);
  }

  /** The interchange of `MixInterchange` on whole buffers. */
  lemma CombineInterchange(u1: seq<int>, u2: seq<int>, v1: seq<int>, v2: seq<int>, c: bool)
    requires |u1| == |u2| == |v1| == |v2|
    ensures var c1, c2 := Combine(u1, v1, c), Combine(u2, v2, c);
            Combine(c1, c2, false) + Combine(c1, c2, true)
            == Combine(Combine(u1, u2, false) + Combine(u1, u2, true),
                       Combine(v1, v2, false) + Combine(v1, v2, true), c)
  {
    var m := |u1|;
    var c1, c2 := Combine(u1, v1, c), Combine(u2, v2, c);
    var lhs := Combine(c1, c2, false) + Combine(c1, c2, true);
    var rhs := Combine(Combine(u1, u2, false) + Combine(u1, u2, true),
                       Combine(v1, v2, false) + Combine(v1, v2, true), c);
    forall p | 0 <= p < 2 * m
      ensures lhs[p] == rhs[p]
    {
      if p < m {
        MixInterchange(u1[p], u2[p], v1[p], v2[p], c, false);
      } else {
        MixInterchange(u1[p - m], u2[p - m], v1[p - m], v2[p - m], c, true);
      }
    }
  }

  /** The double transform of two halves, entry by entry. */
  lemma CombineTwice(a: seq<int>, b: seq<int>)
    requires |a| == |b|
    ensures var sa, sb := Scaled(a, |a|), Scaled(b, |a|);
            var sums, diffs := Combine(sa, sb, false), Combine(sa, sb, true);
            Combine(sums, diffs, false) + Combine(sums, diffs, true) == Scaled(a + b, 2 * |a|)
  {
    var m := |a|;
    var sa, sb := Scaled(a, m), Scaled(b, m);
    var sums, diffs := Combine(sa, sb, false), Combine(sa, sb, true);
    var lhs := Combine(sums, diffs, false) + Combine(sums, diffs, true);
    forall p | 0 <= p < 2 * m
      ensures lhs[p] == Scaled(a + b, 2 * m)[p]
    {
      if p < m {
        DoubleEntries(a[p], b[p], m);
      } else {
        DoubleEntries(a[p - m], b[p - m], m);
      }
    }
  }

  // ---------------------------------------------------------------------
  // Splitting the buffer into halves
  // ---------------------------------------------------------------------

  /** A stage whose blocks fit in each half acts on the halves separately. */
  lemma HadamardSplits(a: seq<int>, b: seq<int>, len: int)
    requires len >= 1 && |a| == |b| && |a| % (2 * len) == 0
    ensures (|a| + |b|) % (2 * len) == 0
    ensures Hadamard(a + b, len) == Hadamard(a, len) + Hadamard(b, len)
  {
    var m := |a|;
    ShiftByMultiple(m, m, 2 * len);
    forall p | 0 <= p < 2 * m
      ensures Hadamard(a + b, len)[p] == (Hadamard(a, len) + Hadamard(b, len))[p]
    {
      if p < m {
        SplitLow(a, b, len, p);
      } else {
        SplitHigh(a, b, len, p);
      }
    }
  }

  /** An entry of the first half depends on the first half only. */
  lemma SplitLow(a: seq<int>, b: seq<int>, len: int, p: int)
    requires len >= 1 && |a| == |b| && |a| % (2 * len) == 0 && (|a| + |b|) % (2 * len) == 0
    requires 0 <= p < |a|
    ensures HadamardAt(a + b, len, p) == HadamardAt(a, len, p)
  {
    BlockFits(p, 2 * len, |a|);
  }

  /** An entry of the second half depends on the second half only. */
  lemma SplitHigh(a: seq<int>, b: seq<int>, len: int, p: int)
    requires len >= 1 && |a| == |b| && |a| % (2 * len) == 0 && (|a| + |b|) % (2 * len) == 0
    requires |a| <= p < |a| + |b|
    ensures HadamardAt(a + b, len, p) == HadamardAt(b, len, p - |a|)
  {
    BlockFits(p - |a|, 2 * len, |b|);
    ShiftByMultiple(p - |a|, |a|, 2 * len);
  }

  /** The last stage of a buffer of two halves: sums first, differences second. */
  lemma HadamardOfHalves(c: seq<int>, d: seq<int>)
    requires |c| == |d| >= 1
    ensures (|c| + |d|) % (2 * |c|) == 0
    ensures Hadamard(c + d, |c|) == Combine(c, d, false) + Combine(c, d, true)
  {
    var m := |c|;
    DivModUnique(2 * m, 2 * m, 1, 0);
    var s := c + d;
    forall p | 0 <= p < 2 * m
      ensures Hadamard(s, m)[p] == (Combine(c, d, false) + Combine(c, d, true))[p]
    {
      DivModUnique(p, 2 * m, 0, p);
      if p >= m {
        ModAddMultiple(c[p - m] - d[p - m], 1, Q);
      }
    }
  }

  /**
   * The stages from half-length `len` on a buffer of two halves: the stages
   * below `|a|` on each half, then the remaining ones on the whole.
   */
  lemma {:induction false} StagesSplit(a: seq<int>, b: seq<int>, len: int)
    requires IsPow2(|a|) && |a| == |b| && IsPow2(len) && len <= |a|
    ensures IsPow2(|a + b|)
    ensures FwhtStages(a + b, len) == FwhtStages(FwhtStages(a, len) + FwhtStages(b, len), |a|)
    decreases |a| - len
  {
    DoublePow2(|a|);
    if len < |a| {
      DoubleStaysBelow(len, |a|);
      DoublePow2(len);
      Pow2Divides(2 * len, |a|);
      HadamardSplits(a, b, len);
      Pow2Divides(2 * len, 2 * |a|);
      StagesSplit(Hadamard(a, len), Hadamard(b, len), 2 * len);
    }
  }

  /** The forward transform of two halves: the halves' sums, then their differences. */
  lemma FwhtOfHalves(a: seq<int>, b: seq<int>)
    requires IsPow2(|a|) && |a| == |b|
    ensures IsPow2(|a + b|)
    ensures FwhtSpec(a + b, false)
            == Combine(FwhtSpec(a, false), FwhtSpec(b, false), false)
               + Combine(FwhtSpec(a, false), FwhtSpec(b, false), true)
  {
    Pow2IsPow2(0);
    StagesSplit(a, b, 1);
    var fa, fb := FwhtSpec(a, false), FwhtSpec(b, false);
    var m := |a|;
    DoublePow2(m);
    HadamardOfHalves(fa, fb);
    assert FwhtStages(fa + fb, m) == FwhtStages(Hadamard(fa + fb, m), 2 * m);
  }

  /** For `|s| >= 2`, `s` is its two halves, each of a power-of-two length. */
  lemma Halves(s: seq<int>)
    requires IsPow2(|s|) && |s| >= 2
    ensures IsPow2(|s| / 2) && |s| / 2 * 2 == |s|
    ensures s == s[..|s| / 2] + s[|s| / 2..]
  {
    HalfOfPow2(|s|);
  }

  // ---------------------------------------------------------------------
  // Linearity and the double transform
  // ---------------------------------------------------------------------

  /** The forward transform commutes with entrywise sums and differences modulo Q. */
  lemma {:induction false} FwhtLinear(u: seq<int>, v: seq<int>, c: bool)
    requires IsPow2(|u|) && |u| == |v|
    ensures FwhtSpec(Combine(u, v, c), false) == Combine(FwhtSpec(u, false), FwhtSpec(v, false), c)
    decreases |u|
  {
    Pow2IsPow2(0);
    if |u| >= 2 {
      Halves(u);
      Halves(v);
      var m := |u| / 2;
      var u1, u2, v1, v2 := u[..m], u[m..], v[..m], v[m..];
      CombineSplits(u1, u2, v1, v2, c);
      FwhtLinear(u1, v1, c);
      FwhtLinear(u2, v2, c);
      FwhtOfHalves(Combine(u1, v1, c), Combine(u2, v2, c));
      FwhtOfHalves(u1, u2);
      FwhtOfHalves(v1, v2);
      CombineInterchange(FwhtSpec(u1, false), FwhtSpec(u2, false), FwhtSpec(v1, false), FwhtSpec(v2, false), c);
    } else {
      assert FwhtStages(Combine(u, v, c), 1) == Combine(u, v, c);
    }
  }

  /** Transforming twice multiplies every entry by the length, modulo Q. */
  lemma {:induction false} FwhtTwice(s: seq<int>)
    requires IsPow2(|s|) && AllResidues(s)
    ensures FwhtSpec(FwhtSpec(s, false), false) == Scaled(s, |s|)
    decreases |s|
  {
    Pow2IsPow2(0);
    if |s| >= 2 {
      Halves(s);
      var m := |s| / 2;
      var a, b := s[..m], s[m..];
      var fa, fb := FwhtSpec(a, false), FwhtSpec(b, false);
      FwhtOfHalves(a, b);
      FwhtOfHalves(Combine(fa, fb, false), Combine(fa, fb, true));
      FwhtLinear(fa, fb, false);
      FwhtLinear(fa, fb, true);
      FwhtTwice(a);
      FwhtTwice(b);
      CombineTwice(a, b);
    } else {
      ModOfResidue(s[0], Q);
      assert FwhtStages(s, 1) == s;
    }
  }

  /**
   * The round trip of lines 70-86: on residues, `fwht(a, true)` after
   * `fwht(a, false)` restores `a`.
   */
  lemma FwhtRoundTrip(s: seq<int>)
    requires IsPow2(|s|) && |s| < Q && AllResidues(s)
    ensures FwhtSpec(FwhtSpec(s, false), true) == s
  {
    FwhtTwice(s);
    SizeInverse(|s|);
    ScaledByInverse(s, |s|, PowMod(|s|, Q - 2, Q));
    Pow2IsPow2(0);
    assert FwhtSpec(FwhtSpec(s, false), true) == Scaled(FwhtSpec(FwhtSpec(s, false), false), PowMod(|s|, Q - 2, Q));
  }
}
