/**
 * The `DreamFunction` pipeline (lines 88-161): the constructor sizes the
 * spectral buffer, and `compute_permanent` hashes every matrix row into
 * the buffer, multiplies the rows' transforms pointwise (phase 1), raises
 * every entry to the mutation exponent (phase 2), and returns entry 0 of
 * the inverse Walsh-Hadamard transform (phase 3).
 */
module Dream {
  import opened ModArith
  import opened Bits
  import opened Fermat
  import opened Ntt
  import opened Fwht

  /** The cap on the buffer length (line 99). */
  const Cap: int := 16384

  /** The largest signed 32-bit `int`. */
  const IntMax: int := 0x7fff_ffff

  /**
   * The largest matrix dimension for which every bucket expression
   * `(i * n + j) * 31` with `i, j < n` stays within a signed 32-bit `int`.
   */
  const MaxDim: int := 8323

  /** A square matrix of dimension `n` with non-negative entries. */
  ghost predicate IsMatrix(M: seq<seq<int>>, n: int) {
    |M| == n && forall r :: 0 <= r < n ==> |M[r]| == n && forall c :: 0 <= c < n ==> M[r][c] >= 0
  }

  // ---------------------------------------------------------------------
  // Buffer sizing (lines 98-100)
  // ---------------------------------------------------------------------

  /** `min(n * n, 16384)` */
  function Target(n: nat): int {
    if n * n < Cap then n * n else Cap
  }

  /** `N` is the smallest power of two that is at least `Target(n)`. */
  ghost predicate IsBufferLength(N: int, n: nat) {
    IsPow2(N) && N >= Target(n) && (N == 1 || N / 2 < Target(n))
  }

  /** The doubling loop of the constructor (lines 98-100). */
  method SizeBuffer(n: nat) returns (N: int)
    ensures IsBufferLength(N, n)
  {
    N := 1;
    var target := Target(n);
    Pow2IsPow2(0);
    while N < target
      invariant IsPow2(N) && (N == 1 || N / 2 < target)
      decreases target - N
    {
      DoublePow2(N);
      N := N * 2;
    }
  }

  lemma CapIsPow2()
    ensures IsPow2(Cap) && Cap == Pow2(14)
  {
    Pow2Of23();
    Pow2IsPow2(14);
  }

  /** `N` is no larger than any power of two that reaches the target. */
  lemma BufferLengthIsSmallest(N: int, n: nat, m: int)
    requires IsBufferLength(N, n) && IsPow2(m) && m >= Target(n)
    ensures N <= m
  {
    if N > m {
      DoubleStaysBelow(m, N);
    }
  }

  /** Only one length qualifies, so the buffer length is a function of n. */
  lemma BufferLengthUnique(N1: int, N2: int, n: nat)
    requires IsBufferLength(N1, n) && IsBufferLength(N2, n)
    ensures N1 == N2
  {
    BufferLengthIsSmallest(N1, n, N2);
    BufferLengthIsSmallest(N2, n, N1);
  }

  /** 1 <= N <= 16384, and N == 1 for matrices of dimension 0 or 1. */
  lemma BufferLengthBounds(N: int, n: nat)
    requires IsBufferLength(N, n)
    ensures 1 <= N <= Cap && N < Q
    ensures n <= 1 ==> N == 1
  {
    CapIsPow2();
    BufferLengthIsSmallest(N, n, Cap);
    if n <= 1 {
      Pow2IsPow2(0);
      BufferLengthIsSmallest(N, n, 1);
    }
  }

  // ---------------------------------------------------------------------
  // Phase 1: row hashing, row transforms, pointwise product (lines 115-135)
  // ---------------------------------------------------------------------

  /** The bucket of entry (i, j): `((i * n + j) * 31) % N` (line 122). */
  function Bucket(i: int, j: int, n: int, N: int): (idx: int)
    requires N >= 1
    ensures 0 <= idx < N
  {
    ((i * n + j) * 31) % N
  }

  /** The bucket expression never leaves the signed 32-bit range. */
  lemma BucketFitsInt32(i: int, j: int, n: int)
    requires 0 <= i < n && 0 <= j < n && n <= MaxDim
    ensures 0 <= (i * n + j) * 31 <= IntMax
  {
    var sq := n * n;
    assert i * n <= (n - 1) * n by {
      MulMonotone(i, n - 1, n);
    }
    assert (n - 1) * n == sq - n;
    assert sq <= MaxDim * MaxDim by {
      MulMonotone(n, MaxDim, n);
      MulMonotone(n, MaxDim, MaxDim);
    }
    var e := i * n + j;
    assert 0 <= e <= 69272328;
    assert e * 31 <= 69272328 * 31 by {
      MulMonotone(e, 69272328, 31);
    }
  }

  /** The bucket buffer `P` of row `row` (number `i`) after its first `j` entries. */
  ghost function RowBuckets(row: seq<int>, i: int, n: int, N: int, j: nat): (P: seq<int>)
    requires N >= 1 && j <= |row|
    ensures |P| == N
    decreases j
  {
    if j == 0 then seq(N, _ => 0)
    else
      var P := RowBuckets(row, i, n, N, j - 1);
      var idx := Bucket(i, j - 1, n, N);
      P[idx := (P[idx] + row[j - 1]) % Q]
  }

  /** The sum of the first `j` entries of the row that hash to bucket `b`. */
  ghost function BucketSum(row: seq<int>, i: int, n: int, N: int, b: int, j: nat): int
    requires N >= 1 && j <= |row|
    decreases j
  {
    if j == 0 then 0
    else BucketSum(row, i, n, N, b, j - 1) + (if Bucket(i, j - 1, n, N) == b then row[j - 1] else 0)
  }

  /** Every bucket holds the sum, modulo Q, of the entries hashed into it. */
  lemma {:induction false} RowBucketsAreSums(row: seq<int>, i: int, n: int, N: int, j: nat)
    requires N >= 1 && j <= |row|
    ensures forall b :: 0 <= b < N ==> RowBuckets(row, i, n, N, j)[b] == BucketSum(row, i, n, N, b, j) % Q
    decreases j
  {
    if j > 0 {
      RowBucketsAreSums(row, i, n, N, j - 1);
      var P := RowBuckets(row, i, n, N, j - 1);
      forall b | 0 <= b < N
        ensures RowBuckets(row, i, n, N, j)[b] == BucketSum(row, i, n, N, b, j) % Q
      {
        var x := row[j - 1];
        var prev := BucketSum(row, i, n, N, b, j - 1);
        if Bucket(i, j - 1, n, N) == b {
          ModAddBoth(prev, x, Q);
          ModAddBoth(prev % Q, x, Q);
          ModOfResidue(prev % Q, Q);
        }
      }
    }
  }

  /** Accumulating non-negative entries keeps every bucket a residue. */
  lemma {:induction false} RowBucketsResidues(row: seq<int>, i: int, n: int, N: int, j: nat)
    requires N >= 1 && j <= |row|
    ensures AllResidues(RowBuckets(row, i, n, N, j))
    decreases j
  {
    if j > 0 {
      RowBucketsResidues(row, i, n, N, j - 1);
    }
  }

  /** The NTT of the bucket buffer of row `i` with root 3 (line 126). */
  ghost function Spectrum(M: seq<seq<int>>, n: int, N: int, i: int): (P: seq<int>)
    requires IsPow2(N) && IsMatrix(M, n) && 0 <= i < n
    ensures |P| == N && AllResidues(P)
  {
    RowBucketsResidues(M[i], i, n, N, n);
    NttPreservesResidues(RowBuckets(M[i], i, n, N, n), false, 3);
    NttSpec(RowBuckets(M[i], i, n, N, n), false, 3)
  }

  /** `psi` after the first `i` rows of phase 1: the pointwise product of their spectra. */
  ghost function Fused(M: seq<seq<int>>, n: int, N: int, i: nat): (psi: seq<int>)
    requires IsPow2(N) && IsMatrix(M, n) && i <= n
    ensures |psi| == N && AllResidues(psi)
    decreases i
  {
    if i == 0 then seq(N, _ => 1)
    else
      var prev := Fused(M, n, N, i - 1);
      var P := Spectrum(M, n, N, i - 1);
      seq(N, f requires 0 <= f < N => (prev[f] * P[f]) % Q)
  }

  /** The product over the integers of the spectra of the first `i` rows at `f`. */
  ghost function SpectrumProduct(M: seq<seq<int>>, n: int, N: int, i: nat, f: int): int
    requires IsPow2(N) && IsMatrix(M, n) && i <= n && 0 <= f < N
    decreases i
  {
    if i == 0 then 1 else SpectrumProduct(M, n, N, i - 1, f) * Spectrum(M, n, N, i - 1)[f]
  }

  /** Entry `f` of `psi` is the product of the rows' spectra at `f`, modulo Q. */
  lemma {:induction false} FusedIsProduct(M: seq<seq<int>>, n: int, N: int, i: nat, f: int)
    requires IsPow2(N) && IsMatrix(M, n) && i <= n && 0 <= f < N
    ensures Fused(M, n, N, i)[f] == SpectrumProduct(M, n, N, i, f) % Q
    decreases i
  {
    if i > 0 {
      FusedIsProduct(M, n, N, i - 1, f);
      ModMulLeft(SpectrumProduct(M, n, N, i - 1, f), Spectrum(M, n, N, i - 1)[f], Q);
    }
  }

  // ---------------------------------------------------------------------
  // Phases 2 and 3 (lines 142-160)
  // ---------------------------------------------------------------------

  /** Every entry raised to the exponent `k` by `mod_pow` (line 143). */
  ghost function Mutated(psi: seq<int>, k: int): (r: seq<int>)
    ensures |r| == |psi|
  {
    seq(|psi|, f requires 0 <= f < |psi| => PowMod(psi[f], k, Q))
  }

  lemma MutatedResidues(psi: seq<int>, k: int)
    ensures AllResidues(Mutated(psi, k))
  {
  }

  /** The value `compute_permanent` returns for the matrix `M`. */
  ghost function Permanent(M: seq<seq<int>>, n: int, N: int, k: int): int
    requires IsPow2(N) && IsMatrix(M, n)
  {
    FwhtSpec(Mutated(Fused(M, n, N, n), k), true)[0]
  }

  lemma PermanentRange(M: seq<seq<int>>, n: int, N: int, k: int)
    requires IsPow2(N) && IsMatrix(M, n)
    ensures 0 <= Permanent(M, n, N, k) < Q
  {
  }

  /**
   * Entry 0 of the inverse transform is the sum of the mutated spectrum
   * divided by N in the field of residues.
   */
  lemma PermanentIsScaledSum(M: seq<seq<int>>, n: int, N: int, k: int)
    requires IsPow2(N) && IsMatrix(M, n)
    ensures Permanent(M, n, N, k)
            == ((Sum(Mutated(Fused(M, n, N, n), k)) % Q) * PowMod(N, Q - 2, Q)) % Q
  {
    var m := Mutated(Fused(M, n, N, n), k);
    MutatedResidues(Fused(M, n, N, n), k);
    FwhtHeadIsSum(m);
  }

  lemma {:induction false} SumOfOnes(s: seq<int>)
    requires forall f :: 0 <= f < |s| ==> s[f] == 1
    ensures Sum(s) == |s|
    decreases |s|
  {
    if |s| > 0 {
      SumOfOnes(s[1..]);
    }
  }

  /** With exponent 0 every entry becomes 1, and the pipeline returns 1 whatever the matrix. */
  lemma ZeroExponentGivesOne(M: seq<seq<int>>, n: int, N: int)
    requires IsPow2(N) && N < Q && IsMatrix(M, n)
    ensures Permanent(M, n, N, 0) == 1
  {
    var m := Mutated(Fused(M, n, N, n), 0);
    SumOfOnes(m);
    ModOfResidue(N, Q);
    PermanentIsScaledSum(M, n, N, 0);
    SizeInverse(N);
  }

  // ---------------------------------------------------------------------
  // The class (lines 88-162)
  // ---------------------------------------------------------------------

  class DreamFunction {
    var n: int
    var M: seq<seq<int>>
    var N: int
    var kOpt: int

    /**
     * A square non-negative matrix of dimension at most MaxDim, the buffer
     * length the constructor chooses, and a non-negative exponent that is 0
     * when the matrix has dimension 0 or 1 (ceil(n * log2(1) * 1.2) == 0).
     */
    ghost predicate Valid()
      reads this
    {
      IsMatrix(M, n) && n <= MaxDim && IsBufferLength(N, n) && kOpt >= 0 && (n <= 1 ==> kOpt == 0)
    }

    /**
     * `DreamFunction(mat)`, with the mutation exponent `k_opt` given as `k`
     * (its floating-point formula is not modelled).
     */
    constructor (mat: seq<seq<int>>, k: int)
      requires IsMatrix(mat, |mat|) && |mat| <= MaxDim
      requires k >= 0 && (|mat| <= 1 ==> k == 0)
      ensures Valid()
      ensures M == mat && n == |mat| && kOpt == k && IsBufferLength(N, |mat|)
    {
      M := mat;
      n := |mat|;
      var size := SizeBuffer(|mat|);
      N := size;
      kOpt := k;
    }

    /** `compute_permanent`: phases 1-3, returning entry 0 of `psi`. */
    method ComputePermanent() returns (r: int)
      requires Valid()
      ensures r == Permanent(M, n, N, kOpt)
      ensures 0 <= r < Q
      ensures n <= 1 ==> r == 1
    {
      var psi := Fuse();
      // Phase 2: mutation law
      Mutate(psi, kOpt);
      // Phase 3: extraction
      BufferLengthBounds(N, n);
      Fwht.Fwht(psi, true);
      r := psi[0];
      if n <= 1 {
        ZeroExponentGivesOne(M, n, N);
      }
    }

    /** Phase 1 (lines 115-135): `psi` starts as N ones and takes in every row. */
    method Fuse() returns (psi: array<int>)
      requires Valid()
      ensures fresh(psi) && psi[..] == Fused(M, n, N, n)
    {
      psi := new int[N](_ => 1);
      assert psi[..] == Fused(M, n, N, 0);
      for i := 0 to n
        invariant psi.Length == N && psi[..] == Fused(M, n, N, i)
      {
        FuseRow(psi, i);
      }
    }

    /** One turn of phase 1: hash row `i`, transform it, and multiply it into `psi` (lines 116-131). */
    method FuseRow(psi: array<int>, i: int)
      requires Valid() && 0 <= i < n
      requires psi.Length == N && psi[..] == Fused(M, n, N, i)
      modifies psi
      ensures psi[..] == Fused(M, n, N, i + 1)
    {
      var P := HashRow(i);
      Ntt.Ntt(P, false, 3);
      MultiplyInto(psi, P);
      assert psi[..] == Fused(M, n, N, i + 1);
    }

    /** The bucket buffer `P` of row `i` (lines 118-124). */
    method HashRow(i: int) returns (P: array<int>)
      requires Valid() && 0 <= i < n
      ensures fresh(P) && P.Length == N
      ensures P[..] == RowBuckets(M[i], i, n, N, n) && AllResidues(P[..])
    {
      BufferLengthBounds(N, n);
      P := new int[N](_ => 0);
      for j := 0 to n
        invariant P[..] == RowBuckets(M[i], i, n, N, j)
      {
        BucketFitsInt32(i, j, n);
        var idx := ((i * n + j) * 31) % N;
        P[idx] := (P[idx] + M[i][j]) % Q;
      }
      RowBucketsResidues(M[i], i, n, N, n);
    }

    /** `psi[f] = mod_pow(psi[f], k_opt)` for every f (lines 142-144). */
    method Mutate(psi: array<int>, k: int)
      requires AllResidues(psi[..])
      modifies psi
      ensures psi[..] == Mutated(old(psi[..]), k)
    {
      for f := 0 to psi.Length
        invariant forall t :: 0 <= t < f ==> psi[t] == PowMod(old(psi[t]), k, Q)
        invariant forall t :: f <= t < psi.Length ==> psi[t] == old(psi[t])
      {
        psi[f] := ModPow(psi[f], k, Q);
      }
    }

    /** `psi[f] = (psi[f] * P[f]) % Q` for every f (lines 128-130). */
    method MultiplyInto(psi: array<int>, P: array<int>)
      requires psi != P && psi.Length == P.Length
      modifies psi
      ensures forall f :: 0 <= f < psi.Length ==> psi[f] == (old(psi[f]) * P[f]) % Q
    {
      for f := 0 to psi.Length
        invariant forall t :: 0 <= t < f ==> psi[t] == (old(psi[t]) * P[t]) % Q
        invariant forall t :: f <= t < psi.Length ==> psi[t] == old(psi[t])
      {
        psi[f] := (psi[f] * P[f]) % Q;
      }
    }
  }
}
