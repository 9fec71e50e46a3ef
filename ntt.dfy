/**
 * The in-place radix-2 number-theoretic transform `ntt` (lines 37-68):
 * an incremental bit-reversal permutation, butterfly stages of doubling
 * block length whose twiddles are powers of `root`, and for the inverse
 * direction a final scaling by n^-1.
 */
module Ntt {
  import opened ModArith
  import opened Bits
  import opened Fermat

  // ---------------------------------------------------------------------
  // Bit-reversal permutation (lines 41-46)
  // ---------------------------------------------------------------------

  /** The position that bit reversal pairs with `p` in a buffer of length `n`. */
  function RevIndex(p: nat, n: nat): (r: nat)
    requires IsPow2(n) && p < n
    ensures r < n
  {
    RevBound(p, Log2(n));
    Rev(p, Log2(n))
  }

  /** The buffer read in bit-reversed order. */
  ghost function BitReversed(s: seq<int>): (r: seq<int>)
    requires IsPow2(|s|)
    ensures |r| == |s|
  {
    seq(|s|, p requires 0 <= p < |s| => s[RevIndex(p, |s|)])
  }

  /** Reordering twice restores the buffer. */
  lemma BitReversedInvolution(s: seq<int>)
    requires IsPow2(|s|)
    ensures BitReversed(BitReversed(s)) == s
  {
    forall p | 0 <= p < |s|
      ensures BitReversed(BitReversed(s))[p] == s[p]
    {
      RevInvolution(p, Log2(|s|));
    }
  }

  /** Reordering keeps the residue range. */
  lemma BitReversedResidues(s: seq<int>)
    requires IsPow2(|s|) && AllResidues(s)
    ensures AllResidues(BitReversed(s))
  {
  }

  /**
   * After the turns `1 .. i - 1` of the bit-reversal loop: the pairs whose
   * smaller member is below `i` have been exchanged, the others not yet.
   */
  ghost predicate ReversedBelow(t: seq<int>, s: seq<int>, i: int)
    requires IsPow2(|s|)
  {
    |t| == |s| &&
    forall p :: 0 <= p < |s| ==>
      t[p] == s[if p < i || RevIndex(p, |s|) < i then RevIndex(p, |s|) else p]
  }

  /** One turn of the loop: swap `i` with its reversal `j` when `i < j`. */
  lemma SwapTurn(t: seq<int>, s: seq<int>, i: int, j: int)
    requires IsPow2(|s|) && 1 <= i < |s| && j == RevIndex(i, |s|)
    requires ReversedBelow(t, s, i)
    ensures i < j ==> ReversedBelow(t[i := t[j]][j := t[i]], s, i + 1)
    ensures j <= i ==> ReversedBelow(t, s, i + 1)
  {
    var n, L := |s|, Log2(|s|);
    RevInvolution(i, L);
    forall p | 0 <= p < n
      ensures RevIndex(p, n) == i ==> p == j
    {
      RevInvolution(p, L);
    }
  }

  /** `swap(a[i], a[j])` */
  method Swap(a: array<int>, i: int, j: int)
    requires 0 <= i < a.Length && 0 <= j < a.Length
    modifies a
    ensures a[..] == old(a[..])[i := old(a[j])][j := old(a[i])]
    ensures multiset(a[..]) == multiset(old(a[..]))
  {
    a[i], a[j] := a[j], a[i];
  }

  /**
   * The first loop of `ntt`: `j` runs through the reversals of `i` by the
   * reversed-binary increment, and each pair with `i < j` is swapped once.
   */
  method BitReverse(a: array<int>)
    requires IsPow2(a.Length)
    modifies a
    ensures a[..] == BitReversed(old(a[..]))
    ensures multiset(a[..]) == multiset(old(a[..]))
  {
    ghost var s := a[..];
    var n := a.Length;
    var i, j := 1, 0;
    RevZero(Log2(n));
    ReversedBelowStart(s);
    while i < n
      invariant 1 <= i <= n
      invariant j == RevIndex(i - 1, n)
      invariant ReversedBelow(a[..], s, i)
      invariant multiset(a[..]) == multiset(s)
    {
      j := BitReverseTurn(a, i, j, s);
      i := i + 1;
    }
    ReversedBelowEnd(a[..], s);
  }

  /** One turn of the bit-reversal loop (lines 42-45). */
  method BitReverseTurn(a: array<int>, i: int, j: int, ghost s: seq<int>) returns (next: int)
    requires IsPow2(|s|) && a.Length == |s| && 1 <= i < |s|
    requires j == RevIndex(i - 1, |s|) && ReversedBelow(a[..], s, i)
    modifies a
    ensures next == RevIndex(i, |s|)
    ensures ReversedBelow(a[..], s, i + 1)
    ensures multiset(a[..]) == multiset(old(a[..]))
  {
    next := ReversedIncrement(j, a.Length, i);
    SwapTurn(a[..], s, i, next);
    if i < next {
      Swap(a, i, next);
    }
  }

  /** Before the first turn only position 0, its own reversal, is settled. */
  lemma ReversedBelowStart(s: seq<int>)
    requires IsPow2(|s|)
    ensures ReversedBelow(s, s, 1)
  {
    var L := Log2(|s|);
    RevZero(L);
    forall p | 0 <= p < |s|
      ensures RevIndex(p, |s|) == 0 ==> p == 0
    {
      RevInvolution(p, L);
    }
  }

  /** After the last turn every position holds its bit-reversed partner. */
  lemma ReversedBelowEnd(t: seq<int>, s: seq<int>)
    requires IsPow2(|s|) && ReversedBelow(t, s, |s|)
    ensures t == BitReversed(s)
  {
  }

  /**
   * Lines 42-44: starting from the reversal of `i - 1`, clear the set bits
   * from the top down and set the first clear one, giving the reversal of `i`.
   */
  method ReversedIncrement(j: int, n: int, ghost i: nat) returns (next: int)
    requires IsPow2(n) && 1 <= i < n && j == RevIndex(i - 1, n)
    ensures next == RevIndex(i, n)
  {
    ghost var L := Log2(n);
    HalfOfPow2(n);
    var bit := n / 2;
    ReversedSuccessorIsRev(i - 1, L);
    assert bit == Pow2(L - 1);
    next := j;
    while bit > 0 && (next / bit) % 2 == 1
      invariant bit >= 0 && ReversedSuccessor(next, bit) == Rev(i, L)
      decreases bit
    {
      assert ReversedSuccessor(next, bit) == ReversedSuccessor(next - bit, bit / 2);
      next := next - bit;
      bit := bit / 2;
    }
    next := next + bit;
  }

  // ---------------------------------------------------------------------
  // Butterfly stages (lines 48-62)
  // ---------------------------------------------------------------------

  /** The running twiddle `wn` after `q` butterflies of a block: w^q mod Q. */
  function Twiddle(w: int, q: nat): int {
    Pow(w, q) % Q
  }

  /** The twiddles of the `m` butterflies of a block: w^0, w^1, ... mod Q. */
  ghost function Twiddles(w: int, m: nat): (tw: seq<int>)
    ensures |tw| == m && forall q :: 0 <= q < m ==> tw[q] == Twiddle(w, q)
  {
    seq(m, q requires 0 <= q < m => Twiddle(w, q))
  }

  /**
   * Entry `p` after the stage of block length `len` with twiddles `tw`: the
   * first half of each block receives `u + v`, the second half `u - v`,
   * where `u` is the first-half partner and `v` the second-half partner
   * times the twiddle of its offset inside the block.
   */
  ghost function ButterflyAt(s: seq<int>, len: int, tw: seq<int>, p: int): int
    requires len >= 2 && len % 2 == 0 && |s| % len == 0 && |tw| == len / 2 && 0 <= p < |s|
  {
    BlockFits(p, len, |s|);
    var h := len / 2;
    var q := p % len;
    if q < h then (s[p] + (s[p + h] * tw[q]) % Q) % Q
    else (s[p - h] - (s[p] * tw[q - h]) % Q + Q) % Q
  }

  /** The buffer after the stage of block length `len` with twiddle `w`. */
  ghost function Butterflies(s: seq<int>, len: int, w: int): (r: seq<int>)
    requires len >= 2 && len % 2 == 0 && |s| % len == 0
    ensures |r| == |s| && AllResidues(r)
  {
    var tw := Twiddles(w, len / 2);
    seq(|s|, p requires 0 <= p < |s| => ButterflyAt(s, len, tw, p))
  }

  /** The twiddle update `wn = (wn * w) % Q` advances the power by one. */
  lemma TwiddleStep(w: int, q: nat)
    ensures (Twiddle(w, q) * w) % Q == Twiddle(w, q + 1)
  {
    ModMulLeft(Pow(w, q), w, Q);
    assert Pow(w, q) * w == Pow(w, q + 1);
  }

  /** The two entries that the `j`-th butterfly of the block at `i` writes. */
  lemma ButterflyPair(s: seq<int>, len: int, tw: seq<int>, i: int, j: int)
    requires len >= 2 && len % 2 == 0 && |s| % len == 0 && |tw| == len / 2
    requires 0 <= i && i % len == 0 && i + len <= |s| && 0 <= j < len / 2
    ensures ButterflyAt(s, len, tw, i + j)
            == (s[i + j] + (s[i + j + len / 2] * tw[j]) % Q) % Q
    ensures ButterflyAt(s, len, tw, i + j + len / 2)
            == (s[i + j] - (s[i + j + len / 2] * tw[j]) % Q + Q) % Q
  {
    OffsetInBlock(i, len, j);
    OffsetInBlock(i, len, j + len / 2);
  }

  /** One pass of the butterflies of block length `len` (lines 52-61). */
  method ButterflyStage(a: array<int>, len: int, w: int)
    requires len >= 2 && len % 2 == 0 && a.Length % len == 0
    requires AllResidues(a[..])
    modifies a
    ensures a[..] == Butterflies(old(a[..]), len, w)
  {
    ghost var s := a[..];
    ghost var tw := Twiddles(w, len / 2);
    var n := a.Length;
    var i := 0;
    assert i % len == 0 by {
      DivModUnique(0, len, 0, 0);
    }
    while i < n
      invariant 0 <= i <= n && i % len == 0
      invariant forall p :: 0 <= p < i ==> a[p] == ButterflyAt(s, len, tw, p)
      invariant forall p :: i <= p < n ==> a[p] == s[p]
    {
      BlockFits(i, len, n);
      ButterflyBlock(a, i, len, w, s);
      ModAddMultiple(i, 1, len);
      assert (i + len) % len == 0;
      i := i + len;
    }
  }

  /**
   * The butterflies of the one block of length `len` that starts at `i`
   * (lines 53-60): the `d`-th one combines the entries `i + d` and
   * `i + d + len / 2` with the twiddle w^d.
   */
  method ButterflyBlock(a: array<int>, i: int, len: int, w: int, ghost s: seq<int>)
    requires len >= 2 && len % 2 == 0 && |s| % len == 0 && |s| == a.Length
    requires 0 <= i && i % len == 0 && i + len <= a.Length
    requires forall p :: i <= p < i + len ==> a[p] == s[p]
    modifies a
    ensures forall p :: i <= p < i + len ==> a[p] == ButterflyAt(s, len, Twiddles(w, len / 2), p)
    ensures forall p :: 0 <= p < a.Length && !(i <= p < i + len) ==> a[p] == old(a[p])
  {
    var h := len / 2;
    var wn := 1;
    var j := 0;
    while j < h
      invariant 0 <= j <= h
      invariant wn == Twiddle(w, j)
      invariant forall d :: 0 <= d < j ==>
        a[i + d] == (s[i + d] + (s[i + d + h] * Twiddle(w, d)) % Q) % Q &&
        a[i + d + h] == (s[i + d] - (s[i + d + h] * Twiddle(w, d)) % Q + Q) % Q
      invariant forall p :: 0 <= p < a.Length && !(i <= p < i + j) && !(i + h <= p < i + h + j) ==>
        a[p] == old(a[p])
    {
      var u := a[i + j];
      var v := (a[i + j + h] * wn) % Q;
      a[i + j] := (u + v) % Q;
      a[i + j + h] := (u - v + Q) % Q;
      TwiddleStep(w, j);
      wn := (wn * w) % Q;
      j := j + 1;
    }
    BlockIsStage(a[..], s, len, w, i);
  }

  /** The entries one block of butterflies writes are those of the stage. */
  lemma BlockIsStage(t: seq<int>, s: seq<int>, len: int, w: int, i: int)
    requires len >= 2 && len % 2 == 0 && |s| % len == 0 && |t| == |s|
    requires 0 <= i && i % len == 0 && i + len <= |s|
    requires forall d :: 0 <= d < len / 2 ==>
      t[i + d] == (s[i + d] + (s[i + d + len / 2] * Twiddle(w, d)) % Q) % Q &&
      t[i + d + len / 2] == (s[i + d] - (s[i + d + len / 2] * Twiddle(w, d)) % Q + Q) % Q
    ensures forall p :: i <= p < i + len ==> t[p] == ButterflyAt(s, len, Twiddles(w, len / 2), p)
  {
    var h, tw := len / 2, Twiddles(w, len / 2);
    forall p | i <= p < i + len
      ensures t[p] == ButterflyAt(s, len, tw, p)
    {
      if p < i + h {
        ButterflyPair(s, len, tw, i, p - i);
      } else {
        ButterflyPair(s, len, tw, i, p - i - h);
      }
    }
  }

  /** The twiddle of the stage of block length `len` (lines 49-50). */
  function StageRoot(root: int, len: int, inverse: bool): (r: int)
    requires len >= 1
    ensures 0 <= r < Q
  {
    var w := PowMod(root, (Q - 1) / len, Q);
    if inverse then PowMod(w, Q - 2, Q) else w
  }

  /** The butterfly stages from block length `len` up to the buffer length. */
  ghost function NttStages(s: seq<int>, len: int, root: int, inverse: bool): (r: seq<int>)
    requires IsPow2(|s|) && IsPow2(len) && len >= 2
    ensures |r| == |s|
    decreases if len <= |s| then |s| - len + 1 else 0
  {
    if len > |s| then s
    else
      Pow2Divides(len, |s|);
      HalfOfPow2(len);
      DoublePow2(len);
      NttStages(Butterflies(s, len, StageRoot(root, len, inverse)), 2 * len, root, inverse)
  }

  /**
   * What `ntt(a, inverse, root)` leaves in `a`: a buffer of length one is
   * returned untouched; otherwise the stages run on the bit-reversed buffer
   * and, for the inverse, every entry is multiplied by n^-1.
   */
  ghost function NttSpec(s: seq<int>, inverse: bool, root: int): (r: seq<int>)
    requires IsPow2(|s|)
    ensures |r| == |s|
  {
    if |s| == 1 then s
    else
      var t := NttStages(BitReversed(s), 2, root, inverse);
      if inverse then Scaled(t, PowMod(|s|, Q - 2, Q)) else t
  }

  method Ntt(a: array<int>, inverse: bool, root: int)
    requires IsPow2(a.Length) && root >= 0 && AllResidues(a[..])
    modifies a
    ensures a[..] == NttSpec(old(a[..]), inverse, root)
    ensures AllResidues(a[..])
  {
    var n := a.Length;
    if n == 1 {
      return;
    }
    BitReverse(a);
    BitReversedResidues(old(a[..]));
    RunStages(a, inverse, root);
    Pow2IsPow2(1);
    NttStagesResidues(BitReversed(old(a[..])), 2, root, inverse);
    if inverse {
      var nInv := ModInv(n, Q);
      Scale(a, nInv);
    }
    NttPreservesResidues(old(a[..]), inverse, root);
  }

  /** The stage loop of `ntt` (lines 48-62). */
  method RunStages(a: array<int>, inverse: bool, root: int)
    requires IsPow2(a.Length) && a.Length >= 2 && root >= 0 && AllResidues(a[..])
    modifies a
    ensures a[..] == NttStages(old(a[..]), 2, root, inverse)
  {
    var n := a.Length;
    var len := 2;
    Pow2IsPow2(1);
    while len <= n
      invariant IsPow2(len) && len >= 2
      invariant AllResidues(a[..])
      invariant NttStages(a[..], len, root, inverse) == NttStages(old(a[..]), 2, root, inverse)
      decreases n - len + 1
    {
      NttStagesStep(a[..], len, root, inverse);
      RunStage(a, len, inverse, root);
      DoublePow2(len);
      len := 2 * len;
    }
  }

  /** One stage (lines 49-61): the twiddle of block length `len`, then its butterflies. */
  method RunStage(a: array<int>, len: int, inverse: bool, root: int)
    requires len >= 2 && len % 2 == 0 && a.Length % len == 0 && root >= 0
    requires AllResidues(a[..])
    modifies a
    ensures a[..] == Butterflies(old(a[..]), len, StageRoot(root, len, inverse))
  {
    var w := ModPow(root, (Q - 1) / len, Q);
    if inverse {
      w := ModInv(w, Q);
    }
    ButterflyStage(a, len, w);
  }

  /** Unfolding one stage of `NttStages`. */
  lemma NttStagesStep(s: seq<int>, len: int, root: int, inverse: bool)
    requires IsPow2(|s|) && IsPow2(len) && 2 <= len <= |s|
    ensures |s| % len == 0 && len % 2 == 0 && IsPow2(2 * len)
    ensures NttStages(s, len, root, inverse)
            == NttStages(Butterflies(s, len, StageRoot(root, len, inverse)), 2 * len, root, inverse)
  {
    Pow2Divides(len, |s|);
    HalfOfPow2(len);
    DoublePow2(len);
  }

  // ---------------------------------------------------------------------
  // Properties of the transform
  // ---------------------------------------------------------------------

  lemma {:induction false} NttStagesResidues(s: seq<int>, len: int, root: int, inverse: bool)
    requires IsPow2(|s|) && IsPow2(len) && len >= 2 && AllResidues(s)
    ensures AllResidues(NttStages(s, len, root, inverse))
    decreases if len <= |s| then |s| - len + 1 else 0
  {
    if len <= |s| {
      NttStagesStep(s, len, root, inverse);
      var t := Butterflies(s, len, StageRoot(root, len, inverse));
      NttStagesResidues(t, 2 * len, root, inverse);
    }
  }

  /** A buffer of length one comes back untouched in both directions (line 39). */
  lemma NttOfSingleton(s: seq<int>, inverse: bool, root: int)
    requires |s| == 1
    ensures IsPow2(|s|) && NttSpec(s, inverse, root) == s
  {
    Pow2IsPow2(0);
  }

  /** Every entry stays in [0, Q) through the stages and the scaling. */
  lemma NttPreservesResidues(s: seq<int>, inverse: bool, root: int)
    requires IsPow2(|s|) && AllResidues(s)
    ensures AllResidues(NttSpec(s, inverse, root))
  {
    if |s| > 1 {
      Pow2IsPow2(1);
      NttStagesResidues(BitReversed(s), 2, root, inverse);
    }
  }
  /** The buffer lengths the transform supports exactly: powers of two dividing Q - 1. */
  lemma StageExponent(t: nat)
    requires 1 <= t <= 23
    ensures (Q - 1) / Pow2(t) * Pow2(t) == Q - 1
    ensures (Q - 1) / Pow2(t) * (Pow2(t) / 2) == (Q - 1) / 2
    ensures (Q - 1) / Pow2(t) >= 1
  {
    var c: nat := 23 - t;
    var len, e := Pow2(t), Pow2(c);
    Pow2Add(t, c);
    Pow2Of23();
    var d := 119 * e;
    assert Q - 1 == 119 * (len * e);
    MulShuffle(119, len, e);
    DivModUnique(Q - 1, len, d, 0);
    var h := Pow2(t - 1);
    assert len == 2 * h;
    MulShuffle(d, 2, h);
  }

  /**
   * For root 3 the forward twiddle of the stage of block length 2^t is a
   * primitive 2^t-th root of unity modulo Q: its 2^t-th power is 1 and its
   * 2^(t-1)-th power is -1.
   */
  lemma StageRootOfUnity(t: nat)
    requires 1 <= t <= 23
    ensures Pow(StageRoot(3, Pow2(t), false), Pow2(t)) % Q == 1
    ensures Pow(StageRoot(3, Pow2(t), false), Pow2(t) / 2) % Q == Q - 1
  {
    var len := Pow2(t);
    var d := (Q - 1) / len;
    StageExponent(t);
    var g := Pow(3, d);
    assert StageRoot(3, len, false) == g % Q;
    PowModBase(g, len, Q);
    PowMul(3, d, len);
    FermatForThree();
    PowModBase(g, len / 2, Q);
    PowMul(3, d, len / 2);
    EulerForThree();
  }

  /** The inverse-direction twiddle undoes the forward one (line 50). */
  lemma StageRootInverse(t: nat)
    requires 1 <= t <= 23
    ensures (StageRoot(3, Pow2(t), false) * StageRoot(3, Pow2(t), true)) % Q == 1
  {
    var d := (Q - 1) / Pow2(t);
    StageExponent(t);
    InverseOfFermatPower(3, d);
  }
}
