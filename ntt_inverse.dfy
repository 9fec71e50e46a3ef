/**
 * The inverse transform undoes the forward one. Both are evaluations of the
 * buffer's polynomial at the powers of a root of unity of order n (see
 * `NttEvaluation.TransformIsEval`), the two roots are inverse to each other,
 * and the powers of a root of unity of order n sum to n or to 0. So
 * evaluating the forward values at the inverse powers gives n times the
 * original buffer, which the scaling by n^-1 removes.
 */
module NttInverse {
  import opened ModArith
  import opened Bits
  import opened Fermat
  import opened Ntt
  import opened Polynomial
  import opened NttEvaluation

  // ---------------------------------------------------------------------
  // Sums of the powers of a twiddle
  // ---------------------------------------------------------------------

  /**
   * 1 + z + ... + z^(n-1) for z the d-th power of the twiddle of block
   * length n: n when d is 0, and 0 modulo Q for every other d below n.
   */
  lemma {:induction false} RootPowerSum(n: int, inverse: bool, d: int)
    requires IsPow2(n) && n <= Pow2(23) && 0 <= d < n
    ensures Eval(Ones(n), Twiddle(StageRoot(3, n, inverse), d)) % Q == (if d == 0 then n else 0)
    decreases n
  {
    if n == 1 {
      SumOfOne(Twiddle(StageRoot(3, n, inverse), d));
    } else {
      var m := HalfLength(n);
      var w := StageRoot(3, n, inverse);
      var z := Twiddle(w, d);
      var g, p := SumHalves(n, w, d);
      RootHalfPower(n, inverse);
      HalfPowerSign(w, m, d);
      if d % 2 == 1 {
        SumWithOpposite(g, p);
        assert Eval(Ones(n), z) % Q == 0;
      } else {
        var e := d / 2;
        EvenPower(n, inverse, d);
        RootPowerSum(m, inverse, e);
        BelowModulus(n);
        EvenSum(g, p, n, d);
      }
    }
  }

  lemma {:induction false} SumOfOne(x: int)
    ensures Eval(Ones(1), x) % Q == 1
  {
    assert Ones(1)[..0] == [];
  }

  /** Half of a supported length is a supported length. */
  lemma {:induction false} HalfLength(n: int) returns (m: int)
    requires IsPow2(n) && 2 <= n <= Pow2(23)
    ensures m == n / 2 && 2 * m == n && IsPow2(m) && 1 <= m < n
  {
    StageCount(n);
    m := n / 2;
    Pow2IsPow2(Log2(n) - 1);
  }

  /** A supported length is below the modulus. */
  lemma {:induction false} BelowModulus(n: int)
    requires n <= Pow2(23)
    ensures n % Q == n || n < 0
  {
    Pow2Of23();
    if n >= 0 {
      ModOfResidue(n, Q);
    }
  }

  /** The sum over n powers is the sum over the first n / 2 and z^(n/2) times it again. */
  lemma {:induction false} SumHalves(n: int, w: int, d: int) returns (g: int, p: int)
    requires n >= 2 && n % 2 == 0 && d >= 0
    ensures var z := Twiddle(w, d);
      g == Eval(Ones(n / 2), z) && p == Pow(z, n / 2) && Eval(Ones(n), z) == g + p * g
  {
    var m, z := n / 2, Twiddle(w, d);
    assert Ones(n) == Ones(m) + Ones(m);
    EvalAppend(Ones(m), Ones(m), z);
    g, p := Eval(Ones(m), z), Pow(z, m);
  }

  /** An even power of the twiddle is a power of the half-length twiddle. */
  lemma {:induction false} EvenPower(n: int, inverse: bool, d: int)
    requires IsPow2(n) && 2 <= n <= Pow2(23) && 0 <= d < n && d % 2 == 0
    ensures d / 2 < n / 2 &&
      Twiddle(StageRoot(3, n / 2, inverse), d / 2) == Twiddle(StageRoot(3, n, inverse), d)
  {
    var w, e := StageRoot(3, n, inverse), d / 2;
    RootSquare(n, inverse);
    PowModBase(w * w, e, Q);
    PowSquare(w, e);
    assert 2 * e == d;
  }

  lemma {:induction false} SumWithOpposite(g: int, p: int)
    requires p % Q == Q - 1
    ensures (g + p * g) % Q == 0
  {
    DivModDecompose(p, Q);
    var c := p / Q + 1;
    assert p + 1 == c * Q;
    assert g + p * g == (g * c) * Q by {
      assert g + p * g == g * (p + 1);
    }
    ModAddMultiple(0, g * c, Q);
  }

  /** The even case: twice the half sum, which is n / 2 or 0. */
  lemma {:induction false} EvenSum(g: int, p: int, n: int, d: int)
    requires p % Q == 1 && n % 2 == 0 && n % Q == n && d >= 0 && d % 2 == 0
    requires g % Q == (if d / 2 == 0 then n / 2 else 0)
    ensures (g + p * g) % Q == (if d == 0 then n else 0)
  {
    SumWithSame(g, p);
  }

  lemma {:induction false} SumWithSame(g: int, p: int)
    requires p % Q == 1
    ensures (g + p * g) % Q == (2 * (g % Q)) % Q
  {
    DivModDecompose(p, Q);
    var c := p / Q;
    assert g + p * g == 2 * g + (g * c) * Q by {
      assert p * g == (c * Q + 1) * g;
    }
    ModAddMultiple(2 * g, g * c, Q);
    DivModDecompose(g, Q);
    assert 2 * g == 2 * (g % Q) + (2 * (g / Q)) * Q;
    ModAddMultiple(2 * (g % Q), 2 * (g / Q), Q);
  }

  // ---------------------------------------------------------------------
  // The two twiddles of a block length are inverse roots of unity
  // ---------------------------------------------------------------------

  /** The twiddle of block length n has order dividing n, in both directions. */
  lemma {:induction false} RootOfUnity(n: int, inverse: bool)
    requires IsPow2(n) && 2 <= n <= Pow2(23)
    ensures Pow(StageRoot(3, n, inverse), n) % Q == 1
  {
    var w, h := StageRoot(3, n, inverse), n / 2;
    StageCount(n);
    RootHalfPower(n, inverse);
    PowAdd(w, h, h);
    ModMulBoth(Pow(w, h), Pow(w, h), Q);
    DivModUnique((Q - 1) * (Q - 1), Q, Q - 2, 1);
  }

  /** The forward and the inverse twiddle of a block length multiply to 1. */
  lemma {:induction false} RootsInverse(n: int, inverse: bool)
    requires IsPow2(n) && 2 <= n <= Pow2(23)
    ensures (StageRoot(3, n, inverse) * StageRoot(3, n, !inverse)) % Q == 1
  {
    StageCount(n);
    StageRootInverse(Log2(n));
    assert StageRoot(3, n, inverse) * StageRoot(3, n, !inverse) ==
      StageRoot(3, n, false) * StageRoot(3, n, true);
  }

  lemma {:induction false} TimesOne(u: int, v: int)
    requires v % Q == 1
    ensures (u * v) % Q == u % Q
  {
    ModMulBoth(u, v, Q);
    ModOfResidue(u % Q, Q);
  }

  lemma {:induction false} ProductCongruent(a: int, b: int, c: int, d: int)
    requires a % Q == c % Q && b % Q == d % Q
    ensures (a * b) % Q == (c * d) % Q
  {
    ModMulBoth(a, b, Q);
    ModMulBoth(c, d, Q);
  }

  /**
   * x^i y^j == x^d when x y == 1 and x^n == 1, for d + j equal to i or to
   * i + n (d is i - j modulo n).
   */
  lemma {:induction false} MixedPower(x: int, y: int, n: nat, i: nat, j: nat, d: nat, a: nat)
    requires a == d + j && (a == i || a == i + n) && (x * y) % Q == 1 && Pow(x, n) % Q == 1
    ensures (Pow(x, i) * Pow(y, j)) % Q == Pow(x, d) % Q
  {
    if a != i {
      WrapPower(x, n, i);
    }
    PowAdd(x, d, j);
    CancelPowers(x, y, j);
    CancelCongruent(Pow(x, i), Pow(x, a), Pow(x, d), Pow(x, j), Pow(y, j));
  }

  lemma {:induction false} CancelCongruent(pi: int, pa: int, pd: int, pj: int, pyj: int)
    requires pa % Q == pi % Q && pa == pd * pj && (pj * pyj) % Q == 1
    ensures (pi * pyj) % Q == pd % Q
  {
    Cancel(pa, pd, pj, pyj);
    ProductCongruent(pi, pyj, pa, pyj);
  }

  /** x^j y^j == 1 when x y == 1. */
  lemma {:induction false} CancelPowers(x: int, y: int, j: nat)
    requires (x * y) % Q == 1
    ensures (Pow(x, j) * Pow(y, j)) % Q == 1
  {
    PowOfProduct(x, y, j);
    PowOfUnit(x * y, j);
  }

  /** Powers of a number that is 1 modulo Q are 1 modulo Q. */
  lemma {:induction false} PowOfUnit(p: int, j: nat)
    requires p % Q == 1
    ensures Pow(p, j) % Q == 1
  {
    PowModBase(p, j, Q);
    PowOfOne(j);
  }

  lemma {:induction false} Cancel(pa: int, pd: int, pj: int, pyj: int)
    requires pa == pd * pj && (pj * pyj) % Q == 1
    ensures (pa * pyj) % Q == pd % Q
  {
    Associate(pd, pj, pyj);
    TimesOne(pd, pj * pyj);
  }

  /** (i - j) mod n + j is i itself or i + n. */
  lemma {:induction false} ShiftedIndex(i: int, j: int, n: int) returns (a: int)
    requires 0 <= i < n && 0 <= j < n
    ensures a == (i - j) % n + j && (a == i || a == i + n)
  {
    if i >= j {
      DivModUnique(i - j, n, 0, i - j);
      a := i;
    } else {
      DivModUnique(i - j, n, -1, i - j + n);
      a := i + n;
    }
  }

  /** Exponents of x count modulo n when x^n == 1. */
  lemma {:induction false} WrapPower(x: int, n: nat, i: nat)
    requires Pow(x, n) % Q == 1
    ensures Pow(x, i + n) % Q == Pow(x, i) % Q
  {
    PowAdd(x, i, n);
    TimesOne(Pow(x, i), Pow(x, n));
  }

  lemma {:induction false} Associate(a: int, b: int, c: int)
    ensures (a * b) * c == a * (b * c)
  {
  }

  /** The powers of x^k, as an entry of the twiddle table, commute: (x^k)^i == (x^i)^k. */
  lemma {:induction false} PowerOfTwiddle(x: int, k: nat, i: nat)
    ensures Pow(Twiddle(x, k), i) % Q == Pow(Pow(x, i), k) % Q
  {
    PowModBase(Pow(x, k), i, Q);
    PowMul(x, k, i);
    PowMul(x, i, k);
    assert k * i == i * k;
  }

  /** Term k of the orthogonality sum is the k-th power of x^((i - j) mod n). */
  lemma {:induction false} OrthogonalTerm(x: int, y: int, n: int, i: int, j: int, k: nat)
    requires 0 <= i < n && 0 <= j < n && (x * y) % Q == 1 && Pow(x, n) % Q == 1
    ensures (Pow(Twiddle(x, k), i) * Pow(Twiddle(y, j), k)) % Q == Pow(Twiddle(x, (i - j) % n), k) % Q
  {
    var s := ShiftedIndex(i, j, n);
    TermAsPower(x, y, i, j, k);
    ShiftedTerm(x, y, n, i, j, s - j, s, k);
  }

  /** The product of the two powers is the k-th power of x^i y^j. */
  lemma {:induction false} TermAsPower(x: int, y: int, i: nat, j: nat, k: nat)
    ensures (Pow(Twiddle(x, k), i) * Pow(Twiddle(y, j), k)) % Q == Pow(Pow(x, i) * Pow(y, j), k) % Q
  {
    var a, b := Pow(x, i), Pow(y, j);
    PowerOfTwiddle(x, k, i);
    PowModBase(b, k, Q);
    ProductCongruent(Pow(Twiddle(x, k), i), Pow(Twiddle(y, j), k), Pow(a, k), Pow(b, k));
    PowOfProduct(a, b, k);
  }

  /** x^i y^j reduces to x^d for d == i - j, taken modulo n. */
  lemma {:induction false} ShiftedTerm(x: int, y: int, n: nat, i: nat, j: nat, d: nat, a: nat, k: nat)
    requires a == d + j && (a == i || a == i + n) && (x * y) % Q == 1 && Pow(x, n) % Q == 1
    ensures Pow(Pow(x, i) * Pow(y, j), k) % Q == Pow(Twiddle(x, d), k) % Q
  {
    MixedPower(x, y, n, i, j, d, a);
    PowCongruent(Pow(x, i) * Pow(y, j), Twiddle(x, d), k);
  }

  /** Column i of the transform matrix: the i-th powers of the forward points. */
  ghost function Column(i: nat, n: nat, w: int): (r: seq<int>)
    ensures |r| == n && forall k :: 0 <= k < n ==> r[k] == Pow(Twiddle(w, k), i)
  {
    seq(n, k requires 0 <= k < n => Pow(Twiddle(w, k), i))
  }

  /**
   * Orthogonality: column i evaluated at the j-th inverse point sums to n
   * when i == j and to 0 otherwise.
   */
  lemma {:induction false} Orthogonality(n: int, inverse: bool, i: int, j: int)
    requires IsPow2(n) && 2 <= n <= Pow2(23) && 0 <= i < n && 0 <= j < n
    ensures var x, y := StageRoot(3, n, inverse), StageRoot(3, n, !inverse);
      Eval(Column(i, n, x), Twiddle(y, j)) % Q == (if i == j then n else 0)
  {
    var x, y := StageRoot(3, n, inverse), StageRoot(3, n, !inverse);
    RootsInverse(n, inverse);
    RootOfUnity(n, inverse);
    var d := (i - j) % n;
    ColumnSum(x, y, n, i, j);
    assert Eval(Column(i, n, x), Twiddle(y, j)) % Q == Eval(Ones(n), Twiddle(x, d)) % Q;
    RootPowerSum(n, inverse, d);
    assert Eval(Ones(n), Twiddle(x, d)) % Q == (if d == 0 then n else 0);
    DistinctResidues(i, j, n);
  }

  /** The orthogonality sum term by term is a geometric sum. */
  lemma {:induction false} ColumnSum(x: int, y: int, n: int, i: int, j: int)
    requires 0 <= i < n && 0 <= j < n && (x * y) % Q == 1 && Pow(x, n) % Q == 1
    ensures Eval(Column(i, n, x), Twiddle(y, j)) % Q == Eval(Ones(n), Twiddle(x, (i - j) % n)) % Q
  {
    var z := Twiddle(x, (i - j) % n);
    forall k | 0 <= k < n
      ensures (Column(i, n, x)[k] * Pow(Twiddle(y, j), k)) % Q == (Ones(n)[k] * Pow(z, k)) % Q
    {
      OrthogonalTerm(x, y, n, i, j, k);
    }
    EvalTermsCongruent(Column(i, n, x), Twiddle(y, j), Ones(n), z);
  }

  /** Two indices below n differ modulo n exactly when they differ. */
  lemma {:induction false} DistinctResidues(i: int, j: int, n: int)
    requires 0 <= i < n && 0 <= j < n
    ensures ((i - j) % n == 0) == (i == j)
  {
    if i == j {
      DivModUnique(0, n, 0, 0);
    } else if (i - j) % n == 0 {
      DivModDecompose(i - j, n);
      var c := (i - j) / n;
      if c >= 1 {
        MulAtLeast(c, n);
      } else if c <= -1 {
        MulAtLeast(-c, n);
      }
    }
  }

  // ---------------------------------------------------------------------
  // Evaluating the values at the inverse points
  // ---------------------------------------------------------------------

  /** The values of u's polynomial at the n points w^k mod Q, not reduced. */
  ghost function Evaluations(u: seq<int>, n: nat, w: int): (r: seq<int>)
    ensures |r| == n && forall k :: 0 <= k < n ==> r[k] == Eval(u, Twiddle(w, k))
  {
    seq(n, k requires 0 <= k < n => Eval(u, Twiddle(w, k)))
  }

  /** One more coefficient adds c times the column of its degree. */
  lemma {:induction false} EvaluationsSnoc(u: seq<int>, c: int, n: nat, w: int)
    ensures Evaluations(u + [c], n, w) == Plus(Evaluations(u, n, w), Times(c, Column(|u|, n, w)))
  {
    forall k | 0 <= k < n
      ensures Evaluations(u + [c], n, w)[k] == Evaluations(u, n, w)[k] + c * Column(|u|, n, w)[k]
    {
      EvalSnoc(u, c, Twiddle(w, k));
    }
  }

  /**
   * The values of the first i coefficients of s, evaluated at the j-th
   * inverse point: n times coefficient j when j < i and 0 otherwise.
   */
  ghost predicate PrefixValue(s: seq<int>, inverse: bool, i: int, j: int)
    requires 0 <= i <= |s| && 0 <= j < |s|
  {
    var n := |s|;
    var x, y := StageRoot(3, n, inverse), StageRoot(3, n, !inverse);
    Eval(Evaluations(s[..i], n, x), Twiddle(y, j)) % Q == (if j < i then n * s[j] else 0) % Q
  }

  lemma {:induction false} PrefixInversion(s: seq<int>, inverse: bool, i: int, j: int)
    requires IsPow2(|s|) && 2 <= |s| <= Pow2(23) && 0 <= i <= |s| && 0 <= j < |s|
    ensures PrefixValue(s, inverse, i, j)
    decreases i
  {
    if i == 0 {
      var n := |s|;
      EvalOfZeros(Evaluations(s[..0], n, StageRoot(3, n, inverse)), Twiddle(StageRoot(3, n, !inverse), j));
    } else {
      PrefixInversion(s, inverse, i - 1, j);
      PrefixExtend(s, inverse, i, j);
    }
  }

  /** One more coefficient adds its column's value times the coefficient. */
  lemma {:induction false} PrefixExtend(s: seq<int>, inverse: bool, i: int, j: int)
    requires IsPow2(|s|) && 2 <= |s| <= Pow2(23) && 1 <= i <= |s| && 0 <= j < |s|
    requires PrefixValue(s, inverse, i - 1, j)
    ensures PrefixValue(s, inverse, i, j)
  {
    var n := |s|;
    var x, y := StageRoot(3, n, inverse), StageRoot(3, n, !inverse);
    var z := Twiddle(y, j);
    var u, c := s[..i - 1], s[i - 1];
    var e := Eval(Evaluations(s[..i], n, x), z);
    var a, b := Eval(Evaluations(u, n, x), z), Eval(Column(i - 1, n, x), z);
    PrefixEval(s, i, n, x, z);
    Orthogonality(n, inverse, i - 1, j);
    PrefixStep(e, a, b, c, n, s[j], i, j);
  }

  /** The values of a prefix one longer: the values before plus the new coefficient times its column. */
  lemma {:induction false} PrefixEval(s: seq<int>, i: int, n: nat, x: int, z: int)
    requires 1 <= i <= |s|
    ensures Eval(Evaluations(s[..i], n, x), z) ==
      Eval(Evaluations(s[..i - 1], n, x), z) + s[i - 1] * Eval(Column(i - 1, n, x), z)
  {
    assert s[..i] == s[..i - 1] + [s[i - 1]];
    EvalOfSnoc(s[..i - 1], s[i - 1], n, x, z);
  }

  /** Evaluated at z, one more coefficient adds c times the column's value. */
  lemma {:induction false} EvalOfSnoc(u: seq<int>, c: int, n: nat, x: int, z: int)
    ensures Eval(Evaluations(u + [c], n, x), z) == Eval(Evaluations(u, n, x), z) + c * Eval(Column(|u|, n, x), z)
  {
    EvaluationsSnoc(u, c, n, x);
    var a, b := Evaluations(u, n, x), Column(|u|, n, x);
    EvalPlus(a, Times(c, b), z);
    EvalTimes(c, b, z);
  }

  lemma {:induction false} PrefixStep(e: int, a: int, b: int, c: int, n: int, sj: int, i: int, j: int)
    requires e == a + c * b
    requires a % Q == (if j < i - 1 then n * sj else 0) % Q
    requires b % Q == (if i - 1 == j then n else 0)
    requires i - 1 == j ==> c == sj
    ensures e % Q == (if j < i then n * sj else 0) % Q
  {
    ModMulLeft(b, c, Q);
    ModAddBoth(a, b * c, Q);
    ModAddBoth(if j < i - 1 then n * sj else 0, (b % Q) * c, Q);
    assert c * b == b * c;
    if i - 1 == j {
      assert (b % Q) * c == n * sj;
    }
  }

  /** Evaluating the reduced values of a buffer at the j-th inverse point gives n times entry j. */
  lemma {:induction false} Inversion(s: seq<int>, inverse: bool, j: int)
    requires IsPow2(|s|) && 2 <= |s| <= Pow2(23) && 0 <= j < |s|
    ensures var n := |s|; var x, y := StageRoot(3, n, inverse), StageRoot(3, n, !inverse);
      Eval(Values(s, x), Twiddle(y, j)) % Q == (n * s[j]) % Q
  {
    var n := |s|;
    var x, y := StageRoot(3, n, inverse), StageRoot(3, n, !inverse);
    forall k | 0 <= k < n
      ensures Values(s, x)[k] % Q == Evaluations(s, n, x)[k] % Q
    {
      var e := Eval(s, Twiddle(x, k));
      DivModDecompose(e, Q);
      ModOfResidue(e % Q, Q);
    }
    EvalOfCongruent(Values(s, x), Evaluations(s, n, x), Twiddle(y, j));
    assert s[..n] == s;
    PrefixInversion(s, inverse, n, j);
  }

  // ---------------------------------------------------------------------
  // The transforms in terms of evaluation, and the round trips
  // ---------------------------------------------------------------------

  /** The forward transform evaluates the buffer's polynomial at the powers of the twiddle. */
  lemma {:induction false} ForwardIsEvaluation(s: seq<int>)
    requires IsPow2(|s|) && |s| <= Pow2(23) && AllResidues(s)
    ensures NttSpec(s, false, 3) == Values(s, StageRoot(3, |s|, false))
  {
    if |s| == 1 {
      NttOfSingleton(s, false, 3);
      SingletonValues(s, StageRoot(3, 1, false));
    } else {
      SpecIsTransform(s, false);
      TransformIsEval(s, false);
    }
  }

  /** The inverse transform evaluates at the powers of the inverse twiddle and scales by n^-1. */
  lemma {:induction false} InverseIsEvaluation(s: seq<int>)
    requires IsPow2(|s|) && 2 <= |s| <= Pow2(23) && AllResidues(s)
    ensures NttSpec(s, true, 3) == Scaled(Values(s, StageRoot(3, |s|, true)), PowMod(|s|, Q - 2, Q))
  {
    SpecIsTransform(s, true);
    TransformIsEval(s, true);
  }

  /** The specified transform of a buffer of two or more entries is its butterfly stages, scaled for the inverse. */
  lemma {:induction false} SpecIsTransform(s: seq<int>, inverse: bool)
    requires IsPow2(|s|) && |s| >= 2
    ensures NttSpec(s, inverse, 3) ==
      if inverse then Scaled(Transform(s, true), PowMod(|s|, Q - 2, Q)) else Transform(s, false)
  {
  }

  /** A buffer of one residue is its own list of values. */
  lemma {:induction false} SingletonValues(s: seq<int>, w: int)
    requires |s| == 1 && AllResidues(s)
    ensures Values(s, w) == s
  {
    assert s[..0] == [];
    assert Eval(s, Twiddle(w, 0)) == s[0];
    ModOfResidue(s[0], Q);
    assert Values(s, w)[0] == s[0];
  }

  /** The inverse transform undoes the forward one. */
  lemma {:induction false} NttRoundTrip(s: seq<int>)
    requires IsPow2(|s|) && |s| <= Pow2(23) && AllResidues(s)
    ensures NttSpec(NttSpec(s, false, 3), true, 3) == s
  {
    var n := |s|;
    if n == 1 {
      NttOfSingleton(s, false, 3);
      NttOfSingleton(s, true, 3);
    } else {
      var a := NttSpec(s, false, 3);
      ForwardIsEvaluation(s);
      InverseIsEvaluation(a);
      forall j | 0 <= j < n
        ensures NttSpec(a, true, 3)[j] == s[j]
      {
        ForwardThenInverseAt(s, a, j);
      }
    }
  }

  /** Entry j of the round trip forward, then inverse. */
  lemma {:induction false} ForwardThenInverseAt(s: seq<int>, a: seq<int>, j: int)
    requires IsPow2(|s|) && 2 <= |s| <= Pow2(23) && AllResidues(s) && 0 <= j < |s|
    requires a == Values(s, StageRoot(3, |s|, false))
    ensures Scaled(Values(a, StageRoot(3, |s|, true)), PowMod(|s|, Q - 2, Q))[j] == s[j]
  {
    var n := |s|;
    BelowModulus(n);
    SizeInverse(n);
    Inversion(s, false, j);
    var y := StageRoot(3, n, true);
    ScaledEntry(Values(a, y), PowMod(n, Q - 2, Q), j, Eval(a, Twiddle(y, j)), n, s[j]);
  }

  /** The forward transform undoes the inverse one. */
  lemma {:induction false} InverseRoundTrip(s: seq<int>)
    requires IsPow2(|s|) && |s| <= Pow2(23) && AllResidues(s)
    ensures NttSpec(NttSpec(s, true, 3), false, 3) == s
  {
    var n := |s|;
    if n == 1 {
      NttOfSingleton(s, true, 3);
      NttOfSingleton(s, false, 3);
    } else {
      var a := NttSpec(s, true, 3);
      InverseIsEvaluation(s);
      ForwardIsEvaluation(a);
      forall j | 0 <= j < n
        ensures NttSpec(a, false, 3)[j] == s[j]
      {
        InverseThenForwardAt(s, a, j);
      }
    }
  }

  /** Entry j of the round trip inverse, then forward. */
  lemma {:induction false} InverseThenForwardAt(s: seq<int>, a: seq<int>, j: int)
    requires IsPow2(|s|) && 2 <= |s| <= Pow2(23) && AllResidues(s) && 0 <= j < |s|
    requires a == Scaled(Values(s, StageRoot(3, |s|, true)), PowMod(|s|, Q - 2, Q))
    ensures Values(a, StageRoot(3, |s|, false))[j] == s[j]
  {
    var n := |s|;
    var c := PowMod(n, Q - 2, Q);
    var v := Values(s, StageRoot(3, n, true));
    BelowModulus(n);
    SizeInverse(n);
    var x := Twiddle(StageRoot(3, n, false), j);
    EvalOfScaled(v, c, x);
    Inversion(s, true, j);
    UndoScale(Eval(v, x), n, c, s[j]);
  }

  /** Scaling the coefficients scales the value, modulo Q. */
  lemma {:induction false} EvalOfScaled(v: seq<int>, c: int, x: int)
    ensures Eval(Scaled(v, c), x) % Q == (c * Eval(v, x)) % Q
  {
    forall k | 0 <= k < |v|
      ensures Scaled(v, c)[k] % Q == Times(c, v)[k] % Q
    {
      ModMulLeft(v[k], c, Q);
      assert v[k] * c == c * v[k];
    }
    EvalOfCongruent(Scaled(v, c), Times(c, v), x);
    EvalTimes(c, v, x);
  }

  /** Entry j of the scaled values is x when the unreduced value is n x and c is the inverse of n. */
  lemma {:induction false} ScaledEntry(v: seq<int>, c: int, j: int, e: int, n: int, x: int)
    requires 0 <= j < |v| && v[j] == e % Q && e % Q == (n * x) % Q
    requires (n * c) % Q == 1 && IsResidue(x)
    ensures Scaled(v, c)[j] == x
  {
    ModOfResidue(e % Q, Q);
    UndoScale(v[j], n, c, x);
  }

  /** c (n x) == x modulo Q when c is the inverse of n and x a residue. */
  lemma {:induction false} UndoScale(e: int, n: int, c: int, x: int)
    requires e % Q == (n * x) % Q && (n * c) % Q == 1 && IsResidue(x)
    ensures (c * e) % Q == x && (e * c) % Q == x
  {
    ProductCongruent(c, e, c, n * x);
    assert c * (n * x) == (x * n) * c;
    MulByInverse(x, n, c);
    ModMulLeft(x * n, c, Q);
    assert c * e == e * c;
  }
}
