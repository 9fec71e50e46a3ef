/**
 * What the butterfly stages of `ntt` (lines 37-68) compute for the root 3
 * the pipeline uses: entry k of the forward transform of a buffer of length
 * n (a power of two up to 2^23) is the value modulo Q of the buffer's
 * polynomial at w^k, where w is the stage twiddle of block length n; the
 * inverse direction evaluates at the powers of w^-1 and scales by n^-1.
 * Because w is a primitive n-th root of unity, the inverse transform of the
 * forward transform gives the buffer back.
 *
 * The proof follows the radix-2 structure of the code: the bit-reversed
 * buffer is the bit-reversed even-degree half followed by the bit-reversed
 * odd-degree half, the stages below block length n act on each half
 * separately, and the last stage combines the two half-length transforms
 * as P(x) = E(x^2) + x O(x^2) at x and at -x.
 */
module NttEvaluation {
  import opened ModArith
  import opened Bits
  import opened Fermat
  import opened Ntt
  import opened Polynomial

  // ---------------------------------------------------------------------
  // The stage twiddles for the root 3
  // ---------------------------------------------------------------------

  /** (-1)^e modulo Q. */
  lemma {:induction false} MinusOnePow(e: nat)
    ensures Pow(Q - 1, e) % Q == if e % 2 == 0 then 1 else Q - 1
    decreases e
  {
    if e > 0 {
      MinusOnePow(e - 1);
      var r := Pow(Q - 1, e - 1);
      ModMulLeft(r, Q - 1, Q);
      assert Pow(Q - 1, e) == r * (Q - 1);
      if (e - 1) % 2 == 0 {
        ModOfResidue(Q - 1, Q);
      } else {
        DivModUnique((Q - 1) * (Q - 1), Q, Q - 2, 1);
      }
    }
  }

  lemma {:induction false} PowOfProduct(a: int, b: int, e: nat)
    ensures Pow(a * b, e) == Pow(a, e) * Pow(b, e)
    decreases e
  {
    if e > 0 {
      PowOfProduct(a, b, e - 1);
      Interchange(a, b, Pow(a, e - 1), Pow(b, e - 1));
    }
  }

  lemma {:induction false} Interchange(a: int, b: int, x: int, y: int)
    ensures (a * b) * (x * y) == (a * x) * (b * y)
  {
  }

  /** The length of a supported buffer as a number of stages. */
  lemma {:induction false} StageCount(n: int)
    requires IsPow2(n) && 2 <= n <= Pow2(23)
    ensures 1 <= Log2(n) <= 23 && Pow2(Log2(n)) == n && Pow2(Log2(n) - 1) == n / 2
    ensures n % 2 == 0 && n / 2 * 2 == n
  {
    Pow2IsPow2(23);
    Log2OfPow2(23);
    Log2Monotone(n, Pow2(23));
    HalfOfPow2(n);
    DivModUnique(n, 2, n / 2, 0);
  }

  /** The exponent of the half-length twiddle is twice that of the full one. */
  lemma {:induction false} HalfExponent(n: int)
    requires IsPow2(n) && 2 <= n <= Pow2(23)
    ensures (Q - 1) / (n / 2) == 2 * ((Q - 1) / n) && (Q - 1) / n >= 1
  {
    StageCount(n);
    StageExponent(Log2(n));
    var d, h := (Q - 1) / n, n / 2;
    assert d * n == Q - 1;
    Twice(d, h);
    DivModUnique(Q - 1, h, 2 * d, 0);
  }

  lemma {:induction false} Twice(d: int, h: int)
    ensures (2 * d) * h == d * (h * 2) == d * (2 * h)
  {
  }

  /** If v == w^2 then v^e == (w^e)^2, everything reduced modulo Q. */
  lemma {:induction false} SquareOfPower(v: int, w: int, e: nat)
    requires v % Q == (w * w) % Q
    ensures Pow(v, e) % Q == ((Pow(w, e) % Q) * (Pow(w, e) % Q)) % Q
  {
    PowCongruent(v, w * w, e);
    PowSquare(w, e);
    PowAdd(w, e, e);
    ModMulBoth(Pow(w, e), Pow(w, e), Q);
  }

  /** The twiddle of block length n / 2 is the square of that of block length n. */
  lemma {:induction false} RootSquare(n: int, inverse: bool)
    requires IsPow2(n) && 2 <= n <= Pow2(23)
    ensures var w := StageRoot(3, n, inverse); StageRoot(3, n / 2, inverse) == (w * w) % Q
  {
    HalfExponent(n);
    var d := (Q - 1) / n;
    var w, v := Pow(3, d) % Q, Pow(3, 2 * d) % Q;
    assert StageRoot(3, n, false) == w;
    assert StageRoot(3, n / 2, false) == v;
    PowAdd(3, d, d);
    ModMulBoth(Pow(3, d), Pow(3, d), Q);
    assert v == (w * w) % Q;
    if inverse {
      ModOfResidue(v, Q);
      var e := FermatExponent();
      SquareOfPower(v, w, e);
    }
  }

  /** The m-th power of any power of w is +-1 when w^m is -1, by the parity of the exponent. */
  lemma {:induction false} HalfPowerSign(w: int, m: nat, e: nat)
    requires Pow(w, m) % Q == Q - 1
    ensures Pow(Pow(w, e) % Q, m) % Q == (if e % 2 == 0 then 1 else Q - 1)
  {
    PowModBase(Pow(w, e), m, Q);
    PowMul(w, e, m);
    PowMul(w, m, e);
    assert e * m == m * e;
    PowCongruent(Pow(w, m), Q - 1, e);
    MinusOnePow(e);
  }

  /** The twiddle of block length n raised to n / 2 is -1 in both directions. */
  lemma {:induction false} RootHalfPower(n: int, inverse: bool)
    requires IsPow2(n) && 2 <= n <= Pow2(23)
    ensures Pow(StageRoot(3, n, inverse), n / 2) % Q == Q - 1
  {
    StageCount(n);
    var t := Log2(n);
    StageRootOfUnity(t);
    var w := StageRoot(3, n, false);
    assert Pow(w, n / 2) % Q == Q - 1;
    if inverse {
      var e := FermatExponent();
      HalfPowerSign(w, n / 2, e);
    }
  }

  /** The exponent Q - 2 of Fermat's inverse is odd. */
  lemma {:induction false} FermatExponent() returns (e: nat)
    ensures e == Q - 2 && e % 2 == 1
  {
    e := Q - 2;
  }

  // ---------------------------------------------------------------------
  // The radix-2 structure of the stages
  // ---------------------------------------------------------------------

  /** The butterfly stages for the root 3 on the bit-reversed buffer, before any scaling. */
  ghost function Transform(s: seq<int>, inverse: bool): (r: seq<int>)
    requires IsPow2(|s|)
    ensures |r| == |s|
  {
    Pow2IsPow2(1);
    NttStages(BitReversed(s), 2, 3, inverse)
  }

  /** Bit reversal sends the even positions to the first half, the odd ones to the second. */
  lemma {:induction false} BitReversedSplit(s: seq<int>)
    requires IsPow2(|s|) && |s| >= 2
    ensures IsPow2(|s| / 2) && |Evens(s)| == |s| / 2 && |Odds(s)| == |s| / 2
    ensures BitReversed(s) == BitReversed(Evens(s)) + BitReversed(Odds(s))
  {
    var n := |s|;
    var m := n / 2;
    HalfOfPow2(n);
    DivModUnique(n + 1, 2, m, 1);
    forall p | 0 <= p < n
      ensures BitReversed(s)[p] == (BitReversed(Evens(s)) + BitReversed(Odds(s)))[p]
    {
      BitReversedSplitAt(s, p);
    }
  }

  lemma {:induction false} BitReversedSplitAt(s: seq<int>, p: int)
    requires IsPow2(|s|) && |s| >= 2 && 0 <= p < |s|
    ensures IsPow2(|s| / 2) && |Evens(s)| == |s| / 2 && |Odds(s)| == |s| / 2
    ensures BitReversed(s)[p] == (BitReversed(Evens(s)) + BitReversed(Odds(s)))[p]
  {
    BitReversedEntry(s, p);
  }

  lemma {:induction false} BitReversedEntry(s: seq<int>, p: int)
    requires IsPow2(|s|) && |s| >= 2 && 0 <= p < |s|
    ensures IsPow2(|s| / 2) && |Evens(s)| == |s| / 2 && |Odds(s)| == |s| / 2
    ensures p < |s| / 2 ==> BitReversed(s)[p] == BitReversed(Evens(s))[p]
    ensures p >= |s| / 2 ==> BitReversed(s)[p] == BitReversed(Odds(s))[p - |s| / 2]
  {
    var n := |s|;
    HalfOfPow2(n);
    DivModUnique(n + 1, 2, n / 2, 1);
    if p < n / 2 {
      ReversedLow(n, p);
    } else {
      ReversedHigh(n, p);
    }
  }

  /** A position in the first half reverses to an even position. */
  lemma {:induction false} ReversedLow(n: int, p: int)
    requires IsPow2(n) && n >= 2 && 0 <= p < n / 2
    ensures IsPow2(n / 2) && RevIndex(p, n) == 2 * RevIndex(p, n / 2)
  {
    HalfOfPow2(n);
    RevTopBit(p, Log2(n), n / 2, 0, p);
  }

  /** A position in the second half reverses to an odd position. */
  lemma {:induction false} ReversedHigh(n: int, p: int)
    requires IsPow2(n) && n >= 2 && n / 2 <= p < n
    ensures IsPow2(n / 2) && RevIndex(p, n) == 2 * RevIndex(p - n / 2, n / 2) + 1
  {
    HalfOfPow2(n);
    RevTopBit(p, Log2(n), n / 2, 1, p - n / 2);
  }

  /** The top bit `hi` of `x` becomes bit 0 of its reversal. */
  lemma {:induction false} RevTopBit(x: nat, bits: nat, m: int, hi: int, lo: nat)
    requires bits >= 1 && m == Pow2(bits - 1) && 0 <= hi <= 1 && lo < m && x == hi * m + lo
    ensures Rev(x, bits) == 2 * Rev(lo, bits - 1) + hi
  {
    assert Pow2(bits) == 2 * m;
    RevFromTop(x, bits);
    DivModUnique(x, m, hi, lo);
  }

  /** An entry of a stage in the first half depends on the first half only. */
  lemma {:induction false} ButterflyLow(a: seq<int>, b: seq<int>, len: int, tw: seq<int>, p: int)
    requires len >= 2 && len % 2 == 0 && |a| == |b| && |a| % len == 0 && |tw| == len / 2
    requires (|a| + |b|) % len == 0 && 0 <= p < |a|
    ensures ButterflyAt(a + b, len, tw, p) == ButterflyAt(a, len, tw, p)
  {
    BlockFits(p, len, |a|);
  }

  /** An entry of a stage in the second half depends on the second half only. */
  lemma {:induction false} ButterflyHigh(a: seq<int>, b: seq<int>, len: int, tw: seq<int>, p: int)
    requires len >= 2 && len % 2 == 0 && |a| == |b| && |a| % len == 0 && |tw| == len / 2
    requires (|a| + |b|) % len == 0 && |a| <= p < |a| + |b|
    ensures ButterflyAt(a + b, len, tw, p) == ButterflyAt(b, len, tw, p - |a|)
  {
    BlockFits(p - |a|, len, |b|);
    ShiftByMultiple(p - |a|, |a|, len);
  }

  /** A stage whose blocks fit in each half acts on the halves separately. */
  lemma {:induction false} ButterfliesSplit(a: seq<int>, b: seq<int>, len: int, w: int)
    requires len >= 2 && len % 2 == 0 && |a| == |b| && |a| % len == 0
    ensures (|a| + |b|) % len == 0
    ensures Butterflies(a + b, len, w) == Butterflies(a, len, w) + Butterflies(b, len, w)
  {
    var m := |a|;
    var tw := Twiddles(w, len / 2);
    ShiftByMultiple(m, m, len);
    forall p | 0 <= p < 2 * m
      ensures Butterflies(a + b, len, w)[p] == (Butterflies(a, len, w) + Butterflies(b, len, w))[p]
    {
      if p < m {
        ButterflyLow(a, b, len, tw, p);
      } else {
        ButterflyHigh(a, b, len, tw, p);
      }
    }
  }

  /** The stages below the full length run on the two halves separately. */
  lemma {:induction false} NttStagesSplit(a: seq<int>, b: seq<int>, len: int, inverse: bool)
    requires IsPow2(|a|) && |a| == |b| && IsPow2(len) && 2 <= len <= 2 * |a|
    ensures IsPow2(|a + b|)
    ensures NttStages(a + b, len, 3, inverse)
            == NttStages(NttStages(a, len, 3, inverse) + NttStages(b, len, 3, inverse), 2 * |a|, 3, inverse)
    decreases 2 * |a| - len
  {
    DoublePow2(|a|);
    if len < 2 * |a| {
      DoubleStaysBelow(len, 2 * |a|);
      var w := StageRoot(3, len, inverse);
      NttStagesStep(a + b, len, 3, inverse);
      NttStagesStep(a, len, 3, inverse);
      NttStagesStep(b, len, 3, inverse);
      ButterfliesSplit(a, b, len, w);
      NttStagesSplit(Butterflies(a, len, w), Butterflies(b, len, w), 2 * len, inverse);
    }
  }

  /** The stages from the full block length on are that one stage. */
  lemma {:induction false} LastStageOnly(s: seq<int>, inverse: bool)
    requires IsPow2(|s|) && |s| >= 2
    ensures |s| % 2 == 0
    ensures NttStages(s, |s|, 3, inverse) == Butterflies(s, |s|, StageRoot(3, |s|, inverse))
  {
    NttStagesStep(s, |s|, 3, inverse);
    DoublePow2(|s|);
  }

  /** The last stage combines entry k of each half into entries k and k + m. */
  lemma {:induction false} LastButterflyAt(c: seq<int>, d: seq<int>, w: int, k: int, h: int)
    requires |c| == |d| && 0 <= k < |c| && h == k + |c|
    ensures (|c| + |d|) % (2 * |c|) == 0
    ensures Butterflies(c + d, 2 * |c|, w)[k] == (c[k] + (d[k] * Twiddle(w, k)) % Q) % Q
    ensures Butterflies(c + d, 2 * |c|, w)[h] == (c[k] - (d[k] * Twiddle(w, k)) % Q + Q) % Q
  {
    var m := |c|;
    DivModUnique(2 * m, 2, m, 0);
    FirstBlockPair(c + d, 2 * m, Twiddles(w, m), k, h);
  }

  /** The butterfly pair (k, h) of a buffer that is a single block. */
  lemma {:induction false} FirstBlockPair(s: seq<int>, len: int, tw: seq<int>, k: int, h: int)
    requires len >= 2 && len % 2 == 0 && |s| == len && |tw| == len / 2
    requires 0 <= k < len / 2 && h == k + len / 2
    ensures |s| % len == 0
    ensures ButterflyAt(s, len, tw, k) == (s[k] + (s[h] * tw[k]) % Q) % Q
    ensures ButterflyAt(s, len, tw, h) == (s[k] - (s[h] * tw[k]) % Q + Q) % Q
  {
    DivModUnique(len, len, 1, 0);
    DivModUnique(k, len, 0, k);
    DivModUnique(h, len, 0, h);
  }

  /** The transform is the last stage applied to the transforms of the two halves side by side. */
  lemma {:induction false} TransformSplit(s: seq<int>, inverse: bool)
    requires IsPow2(|s|) && |s| >= 2
    ensures IsPow2(|s| / 2) && |Evens(s)| == |s| / 2 && |Odds(s)| == |s| / 2 && |s| % 2 == 0
    ensures (|Evens(s)| + |Odds(s)|) % |s| == 0
    ensures Transform(s, inverse) ==
      Butterflies(Transform(Evens(s), inverse) + Transform(Odds(s), inverse), |s|, StageRoot(3, |s|, inverse))
  {
    BitReversedSplit(s);
    Pow2IsPow2(1);
    var m := |s| / 2;
    assert 2 * m == |s|;
    DivModUnique(|s|, |s|, 1, 0);
    NttStagesSplit(BitReversed(Evens(s)), BitReversed(Odds(s)), 2, inverse);
    LastStageOnly(Transform(Evens(s), inverse) + Transform(Odds(s), inverse), inverse);
  }

  // ---------------------------------------------------------------------
  // The transform evaluates the buffer's polynomial at the powers of the root
  // ---------------------------------------------------------------------

  /** The point of the half-length transform is the square of the full one's. */
  lemma {:induction false} HalfPoint(w: int, v: int, k: nat)
    requires v == (w * w) % Q
    ensures Twiddle(v, k) == (Twiddle(w, k) * Twiddle(w, k)) % Q
  {
    ModOfResidue(v, Q);
    PowCongruent(v, w * w, k);
    PowSquare(w, k);
    PowAdd(w, k, k);
    ModMulBoth(Pow(w, k), Pow(w, k), Q);
  }

  /** When w^m == -1, the point at k + m is the negative of the point at k. */
  lemma {:induction false} OppositePoint(w: int, m: nat, k: nat)
    requires Pow(w, m) % Q == Q - 1
    ensures (Twiddle(w, k + m) + Twiddle(w, k)) % Q == 0
  {
    var x := Pow(w, k);
    PowAdd(w, k, m);
    ModMulBoth(x, Pow(w, m), Q);
    var a := x % Q;
    assert Twiddle(w, k + m) == (a * (Q - 1)) % Q;
    ModAddBoth(a * (Q - 1), a, Q);
    ModOfResidue(a, Q);
    DivModUnique(a * Q, Q, a, 0);
  }

  /** Opposite points have the same square. */
  lemma {:induction false} SquareOfOpposite(z: int, x: int)
    requires (z + x) % Q == 0
    ensures (z * z) % Q == (x * x) % Q
  {
    DivModDecompose(z + x, Q);
    var c := (z + x) / Q;
    assert z * z == x * x + (c * (z - x)) * Q by {
      assert z * z - x * x == (z + x) * (z - x);
    }
    ModAddMultiple(x * x, c * (z - x), Q);
  }

  lemma {:induction false} PlusCombination(e: int, o: int, a: int, b: int, x: int)
    requires e == a % Q && o == b % Q
    ensures (e + (o * x) % Q) % Q == (a + x * b) % Q
  {
    ModMulLeft(b, x, Q);
    ModAddBoth(a, b * x, Q);
    assert b * x == x * b;
  }

  lemma {:induction false} MinusCombination(e: int, o: int, a: int, b: int, x: int, z: int)
    requires e == a % Q && o == b % Q && (z + x) % Q == 0
    ensures (e - (o * x) % Q + Q) % Q == (a + z * b) % Q
  {
    ModMulLeft(b, x, Q);
    var bx := b * x;
    DivModDecompose(a, Q);
    DivModDecompose(bx, Q);
    assert e - bx % Q + Q == (a - bx) + (1 - a / Q + bx / Q) * Q;
    ModAddMultiple(a - bx, 1 - a / Q + bx / Q, Q);
    DivModDecompose(z + x, Q);
    var c := (z + x) / Q;
    assert a + z * b == (a - bx) + (c * b) * Q by {
      assert z * b + x * b == (z + x) * b;
    }
    ModAddMultiple(a - bx, c * b, Q);
  }

  /** Entry k of the first half: E(x^2) + x O(x^2) at x == w^k. */
  lemma {:induction false} LowEntry(s: seq<int>, w: int, v: int, k: nat, e: int, o: int)
    requires |s| % 2 == 0 && v == (w * w) % Q
    requires e == Eval(Evens(s), Twiddle(v, k)) % Q && o == Eval(Odds(s), Twiddle(v, k)) % Q
    ensures (e + (o * Twiddle(w, k)) % Q) % Q == Eval(s, Twiddle(w, k)) % Q
  {
    var x := Twiddle(w, k);
    HalfPoint(w, v, k);
    ModOfResidue(Twiddle(v, k), Q);
    EvalAtCongruent(Evens(s), Twiddle(v, k), x * x);
    EvalAtCongruent(Odds(s), Twiddle(v, k), x * x);
    EvalEvenOdd(s, x);
    PlusCombination(e, o, Eval(Evens(s), x * x), Eval(Odds(s), x * x), x);
  }

  /** Entry k + m of the second half: E(x^2) - x O(x^2), the value at -x. */
  lemma {:induction false} HighEntry(s: seq<int>, w: int, v: int, m: nat, k: nat, e: int, o: int)
    requires |s| % 2 == 0 && v == (w * w) % Q && Pow(w, m) % Q == Q - 1
    requires e == Eval(Evens(s), Twiddle(v, k)) % Q && o == Eval(Odds(s), Twiddle(v, k)) % Q
    ensures (e - (o * Twiddle(w, k)) % Q + Q) % Q == Eval(s, Twiddle(w, k + m)) % Q
  {
    var x, z := Twiddle(w, k), Twiddle(w, k + m);
    HalfPoint(w, v, k);
    OppositePoint(w, m, k);
    SquareOfOpposite(z, x);
    ModOfResidue(Twiddle(v, k), Q);
    EvalAtCongruent(Evens(s), Twiddle(v, k), z * z);
    EvalAtCongruent(Odds(s), Twiddle(v, k), z * z);
    EvalEvenOdd(s, z);
    MinusCombination(e, o, Eval(Evens(s), z * z), Eval(Odds(s), z * z), x, z);
  }

  /** A buffer of length one is its own transform and its own value everywhere. */
  lemma {:induction false} SingletonTransform(s: seq<int>, inverse: bool, x: int)
    requires |s| == 1 && AllResidues(s)
    ensures IsPow2(|s|) && Transform(s, inverse)[0] == Eval(s, x) % Q
  {
    Pow2IsPow2(0);
    assert BitReversed(s) == s;
    assert s[..0] == [];
    ModOfResidue(s[0], Q);
  }

  /** The values of the buffer's polynomial at the powers of w, reduced modulo Q. */
  ghost function Values(s: seq<int>, w: int): (r: seq<int>)
    ensures |r| == |s| && forall k :: 0 <= k < |s| ==> r[k] == Eval(s, Twiddle(w, k)) % Q
  {
    seq(|s|, k requires 0 <= k < |s| => Eval(s, Twiddle(w, k)) % Q)
  }

  /** The last butterfly stage on two halves that are already transformed. */
  ghost function Combine(e: seq<int>, o: seq<int>, w: int): (r: seq<int>)
    requires |e| == |o|
    ensures |r| == 2 * |e|
    ensures forall k :: 0 <= k < |e| ==> r[k] == (e[k] + (o[k] * Twiddle(w, k)) % Q) % Q
    ensures forall k :: |e| <= k < 2 * |e| ==>
      r[k] == (e[k - |e|] - (o[k - |e|] * Twiddle(w, k - |e|)) % Q + Q) % Q
  {
    seq(2 * |e|, k requires 0 <= k < 2 * |e| =>
      if k < |e| then (e[k] + (o[k] * Twiddle(w, k)) % Q) % Q
      else (e[k - |e|] - (o[k - |e|] * Twiddle(w, k - |e|)) % Q + Q) % Q)
  }

  /** The transform of a buffer is the last stage applied to the transforms of its halves. */
  lemma {:induction false} TransformCombines(s: seq<int>, inverse: bool)
    requires IsPow2(|s|) && |s| >= 2
    ensures IsPow2(|s| / 2) && |Evens(s)| == |s| / 2 && |Odds(s)| == |s| / 2
    ensures Transform(s, inverse) ==
      Combine(Transform(Evens(s), inverse), Transform(Odds(s), inverse), StageRoot(3, |s|, inverse))
  {
    TransformSplit(s, inverse);
    LastStageCombines(Transform(Evens(s), inverse), Transform(Odds(s), inverse), StageRoot(3, |s|, inverse));
  }

  /** The last stage on two halves side by side is `Combine` of the halves. */
  lemma {:induction false} LastStageCombines(e: seq<int>, o: seq<int>, w: int)
    requires |e| == |o| && |e| >= 1
    ensures (|e| + |o|) % (2 * |e|) == 0
    ensures Butterflies(e + o, 2 * |e|, w) == Combine(e, o, w)
  {
    LastButterflyAt(e, o, w, 0, |e|);
    forall k | 0 <= k < 2 * |e|
      ensures Butterflies(e + o, 2 * |e|, w)[k] == Combine(e, o, w)[k]
    {
      LastStageEntry(e, o, w, k);
    }
  }

  lemma {:induction false} LastStageEntry(e: seq<int>, o: seq<int>, w: int, k: int)
    requires |e| == |o| && 0 <= k < 2 * |e|
    ensures (|e| + |o|) % (2 * |e|) == 0
    ensures Butterflies(e + o, 2 * |e|, w)[k] == Combine(e, o, w)[k]
  {
    if k < |e| {
      LastButterflyAt(e, o, w, k, k + |e|);
    } else {
      LastButterflyAt(e, o, w, k - |e|, k);
    }
  }

  /** The same last stage applied to the values of the halves gives the values of the whole. */
  lemma {:induction false} CombineValues(s: seq<int>, w: int, v: int)
    requires |s| % 2 == 0 && v == (w * w) % Q && Pow(w, |s| / 2) % Q == Q - 1
    requires |Evens(s)| == |s| / 2 && |Odds(s)| == |s| / 2
    ensures Combine(Values(Evens(s), v), Values(Odds(s), v), w) == Values(s, w)
  {
    var ve, vo := Values(Evens(s), v), Values(Odds(s), v);
    forall k | 0 <= k < |s|
      ensures Combine(ve, vo, w)[k] == Values(s, w)[k]
    {
      CombineValueAt(s, w, v, k);
    }
  }

  lemma {:induction false} CombineValueAt(s: seq<int>, w: int, v: int, k: int)
    requires |s| % 2 == 0 && v == (w * w) % Q && Pow(w, |s| / 2) % Q == Q - 1
    requires |Evens(s)| == |s| / 2 && |Odds(s)| == |s| / 2 && 0 <= k < |s|
    ensures Combine(Values(Evens(s), v), Values(Odds(s), v), w)[k] == Eval(s, Twiddle(w, k)) % Q
  {
    var m := |s| / 2;
    if k < m {
      LowEntry(s, w, v, k, Eval(Evens(s), Twiddle(v, k)) % Q, Eval(Odds(s), Twiddle(v, k)) % Q);
    } else {
      var j := k - m;
      HighEntry(s, w, v, m, j, Eval(Evens(s), Twiddle(v, j)) % Q, Eval(Odds(s), Twiddle(v, j)) % Q);
    }
  }

  /**
   * The transform is the buffer's polynomial evaluated at the powers of the
   * twiddle of the full block length, modulo Q.
   */
  lemma {:induction false} TransformIsEval(s: seq<int>, inverse: bool)
    requires IsPow2(|s|) && |s| <= Pow2(23) && AllResidues(s)
    ensures Transform(s, inverse) == Values(s, StageRoot(3, |s|, inverse))
    decreases |s|
  {
    var n := |s|;
    if n == 1 {
      forall k | 0 <= k < 1
        ensures Transform(s, inverse)[k] == Values(s, StageRoot(3, 1, inverse))[k]
      {
        SingletonTransform(s, inverse, Twiddle(StageRoot(3, 1, inverse), 0));
      }
    } else {
      Halves(s);
      TransformIsEval(Evens(s), inverse);
      TransformIsEval(Odds(s), inverse);
      TransformFromHalves(s, inverse);
    }
  }

  /** The two halves of a buffer of two or more residues meet the requirements of `TransformIsEval`. */
  lemma {:induction false} Halves(s: seq<int>)
    requires IsPow2(|s|) && 2 <= |s| <= Pow2(23) && AllResidues(s)
    ensures |Evens(s)| == |s| / 2 && |Odds(s)| == |s| / 2 && IsPow2(|s| / 2) && |s| / 2 < |s|
    ensures AllResidues(Evens(s)) && AllResidues(Odds(s))
  {
    HalfOfPow2(|s|);
    DivModUnique(|s| + 1, 2, |s| / 2, 1);
  }

  /** The step of `TransformIsEval`: values of the halves combine into the values of the whole. */
  lemma {:induction false} TransformFromHalves(s: seq<int>, inverse: bool)
    requires IsPow2(|s|) && 2 <= |s| <= Pow2(23)
    requires IsPow2(|s| / 2) && |Evens(s)| == |s| / 2 && |Odds(s)| == |s| / 2
    requires Transform(Evens(s), inverse) == Values(Evens(s), StageRoot(3, |s| / 2, inverse))
    requires Transform(Odds(s), inverse) == Values(Odds(s), StageRoot(3, |s| / 2, inverse))
    ensures Transform(s, inverse) == Values(s, StageRoot(3, |s|, inverse))
  {
    var n := |s|;
    TransformCombines(s, inverse);
    RootSquare(n, inverse);
    RootHalfPower(n, inverse);
    CombineValues(s, StageRoot(3, n, inverse), StageRoot(3, n / 2, inverse));
  }
}
