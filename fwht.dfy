/**
 * The in-place Walsh-Hadamard transform `fwht` (lines 70-86): XOR
 * butterflies of doubling half-length `len`, and for the inverse direction
 * a final scaling by n^-1.
 */
module Fwht {
  import opened ModArith
  import opened Bits

  // ---------------------------------------------------------------------
  // One stage of XOR butterflies (lines 73-80)
  // ---------------------------------------------------------------------

  /**
   * Entry `p` after the stage of half-length `len`: in each block of
   * `2 * len` entries the first half receives `u + v` and the second half
   * `u - v`, where `u` and `v` are the entries `len` apart.
   */
  ghost function HadamardAt(s: seq<int>, len: int, p: int): int
    requires len >= 1 && |s| % (2 * len) == 0 && 0 <= p < |s|
  {
    BlockFits(p, 2 * len, |s|);
    var q := p % (2 * len);
    if q < len then (s[p] + s[p + len]) % Q else (s[p - len] - s[p] + Q) % Q
  }

  ghost function Hadamard(s: seq<int>, len: int): (r: seq<int>)
    requires len >= 1 && |s| % (2 * len) == 0
    ensures |r| == |s| && AllResidues(r)
  {
    seq(|s|, p requires 0 <= p < |s| => HadamardAt(s, len, p))
  }

  /** The `d`-th butterfly of the block at `i` writes these two entries. */
  lemma HadamardPair(s: seq<int>, len: int, i: int, d: int)
    requires len >= 1 && |s| % (2 * len) == 0
    requires 0 <= i && i % (2 * len) == 0 && i + 2 * len <= |s| && 0 <= d < len
    ensures HadamardAt(s, len, i + d) == (s[i + d] + s[i + d + len]) % Q
    ensures HadamardAt(s, len, i + d + len) == (s[i + d] - s[i + d + len] + Q) % Q
  {
    OffsetInBlock(i, 2 * len, d);
    OffsetInBlock(i, 2 * len, d + len);
  }

  /** The entries that one block of XOR butterflies writes are those of the stage. */
  lemma HadamardBlockIsStage(t: seq<int>, s: seq<int>, len: int, i: int)
    requires len >= 1 && |s| % (2 * len) == 0 && |t| == |s|
    requires 0 <= i && i % (2 * len) == 0 && i + 2 * len <= |s|
    requires forall p :: i <= p < i + len ==>
      t[p] == (s[p] + s[p + len]) % Q && t[p + len] == (s[p] - s[p + len] + Q) % Q
    ensures forall p :: i <= p < i + 2 * len ==> t[p] == HadamardAt(s, len, p)
  {
    forall p | i <= p < i + 2 * len
      ensures t[p] == HadamardAt(s, len, p)
    {
      if p < i + len {
        HadamardPair(s, len, i, p - i);
      } else {
        HadamardPair(s, len, i, p - i - len);
      }
    }
  }

  /** The butterflies of the one block of `2 * len` entries at `i` (lines 74-79). */
  method HadamardBlock(a: array<int>, i: int, len: int, ghost s: seq<int>)
    requires len >= 1 && |s| % (2 * len) == 0 && |s| == a.Length
    requires 0 <= i && i % (2 * len) == 0 && i + 2 * len <= a.Length
    requires forall p :: i <= p < i + 2 * len ==> a[p] == s[p]
    modifies a
    ensures forall p :: i <= p < i + 2 * len ==> a[p] == HadamardAt(s, len, p)
    ensures forall p :: 0 <= p < a.Length && !(i <= p < i + 2 * len) ==> a[p] == old(a[p])
  {
    var j := 0;
    while j < len
      invariant 0 <= j <= len
      invariant forall p :: i <= p < i + j ==>
        a[p] == (s[p] + s[p + len]) % Q && a[p + len] == (s[p] - s[p + len] + Q) % Q
      invariant forall p :: 0 <= p < a.Length && !(i <= p < i + j) && !(i + len <= p < i + len + j) ==>
        a[p] == old(a[p])
    {
      var u := a[i + j];
      var v := a[i + j + len];
      a[i + j] := (u + v) % Q;
      a[i + j + len] := (u - v + Q) % Q;
      j := j + 1;
    }
    HadamardBlockIsStage(a[..], s, len, i);
  }

  /** One pass of the XOR butterflies of half-length `len` (lines 73-80). */
  method HadamardStage(a: array<int>, len: int)
    requires len >= 1 && a.Length % (2 * len) == 0
    requires AllResidues(a[..])
    modifies a
    ensures a[..] == Hadamard(old(a[..]), len)
  {
    ghost var s := a[..];
    var n := a.Length;
    var i := 0;
    assert i % (2 * len) == 0 by {
      DivModUnique(0, 2 * len, 0, 0);
    }
    while i < n
      invariant 0 <= i <= n && i % (2 * len) == 0
      invariant forall p :: 0 <= p < i ==> a[p] == HadamardAt(s, len, p)
      invariant forall p :: i <= p < n ==> a[p] == s[p]
    {
      BlockFits(i, 2 * len, n);
      HadamardBlock(a, i, len, s);
      ModAddMultiple(i, 1, 2 * len);
      assert (i + 2 * len) % (2 * len) == 0;
      i := i + 2 * len;
    }
  }

  // ---------------------------------------------------------------------
  // The whole transform (lines 70-86)
  // ---------------------------------------------------------------------

  /** The stages of half-length `len`, `2 * len`, ... below the buffer length. */
  ghost function FwhtStages(s: seq<int>, len: int): (r: seq<int>)
    requires IsPow2(|s|) && IsPow2(len)
    ensures |r| == |s|
    decreases if len < |s| then |s| - len else 0
  {
    if len >= |s| then s
    else
      DoubleStaysBelow(len, |s|);
      DoublePow2(len);
      Pow2Divides(2 * len, |s|);
      FwhtStages(Hadamard(s, len), 2 * len)
  }

  /**
   * What `fwht(a, inverse)` leaves in `a`: the stages, and for the inverse
   * every entry multiplied by n^-1.
   */
  ghost function FwhtSpec(s: seq<int>, inverse: bool): (r: seq<int>)
    requires IsPow2(|s|)
    ensures |r| == |s|
  {
    Pow2IsPow2(0);
    var t := FwhtStages(s, 1);
    if inverse then Scaled(t, PowMod(|s|, Q - 2, Q)) else t
  }

  method Fwht(a: array<int>, inverse: bool)
    requires IsPow2(a.Length) && AllResidues(a[..])
    modifies a
    ensures a[..] == FwhtSpec(old(a[..]), inverse)
    ensures AllResidues(a[..])
    ensures inverse ==> a[..] == Scaled(FwhtSpec(old(a[..]), false), PowMod(a.Length, Q - 2, Q))
  {
    var n := a.Length;
    var len := 1;
    Pow2IsPow2(0);
    while len < n
      invariant IsPow2(len) && AllResidues(a[..])
      invariant FwhtStages(a[..], len) == FwhtStages(old(a[..]), 1)
      decreases n - len
    {
      DoubleStaysBelow(len, n);
      DoublePow2(len);
      Pow2Divides(2 * len, n);
      HadamardStage(a, len);
      len := 2 * len;
    }
    if inverse {
      var nInv := ModInv(n, Q);
      Scale(a, nInv);
    }
  }

  // ---------------------------------------------------------------------
  // The first entry of the forward transform is the sum of the input
  // ---------------------------------------------------------------------

  /** Each block of length `len` of `t` starts with the sum of that block of `s`. */
  ghost predicate HeadsAreSums(t: seq<int>, s: seq<int>, len: int)
    requires len >= 1
  {
    |t| == |s| &&
    forall p :: 0 <= p && p + len <= |s| && p % len == 0 ==> t[p] == Sum(s[p..p + len]) % Q
  }

  lemma HeadsAtStart(s: seq<int>)
    requires AllResidues(s)
    ensures HeadsAreSums(s, s, 1)
  {
    forall p | 0 <= p && p + 1 <= |s| && p % 1 == 0
      ensures s[p] == Sum(s[p..p + 1]) % Q
    {
      assert s[p..p + 1][1..] == [];
      ModOfResidue(s[p], Q);
    }
  }

  /** A stage merges two neighbouring block sums into the sum of the double block. */
  lemma HeadsStep(t: seq<int>, s: seq<int>, len: int)
    requires len >= 1 && |s| % (2 * len) == 0 && HeadsAreSums(t, s, len)
    ensures HeadsAreSums(Hadamard(t, len), s, 2 * len)
  {
    var r := Hadamard(t, len);
    forall p | 0 <= p && p + 2 * len <= |s| && p % (2 * len) == 0
      ensures r[p] == Sum(s[p..p + 2 * len]) % Q
    {
      HalvesAligned(p, len);
      OffsetInBlock(p, 2 * len, 0);
      assert r[p] == (t[p] + t[p + len]) % Q;
      assert s[p..p + 2 * len] == s[p..p + len] + s[p + len..p + 2 * len];
      SumConcat(s[p..p + len], s[p + len..p + 2 * len]);
      ModAddBoth(Sum(s[p..p + len]), Sum(s[p + len..p + 2 * len]), Q);
    }
  }

  lemma {:induction false} HeadsThroughStages(t: seq<int>, s: seq<int>, len: int)
    requires IsPow2(|s|) && IsPow2(len) && len <= |s| && HeadsAreSums(t, s, len)
    ensures FwhtStages(t, len)[0] == Sum(s) % Q
    decreases |s| - len
  {
    if len >= |s| {
      assert s[0..len] == s;
      DivModUnique(0, len, 0, 0);
    } else {
      DoubleStaysBelow(len, |s|);
      DoublePow2(len);
      Pow2Divides(2 * len, |s|);
      HeadsStep(t, s, len);
      HeadsThroughStages(Hadamard(t, len), s, 2 * len);
    }
  }

  /** After the forward transform, entry 0 is the sum of the input modulo Q. */
  lemma FwhtHeadIsSum(s: seq<int>)
    requires IsPow2(|s|) && AllResidues(s)
    ensures FwhtSpec(s, false)[0] == Sum(s) % Q
  {
    Pow2IsPow2(0);
    HeadsAtStart(s);
    HeadsThroughStages(s, s, 1);
  }
}
