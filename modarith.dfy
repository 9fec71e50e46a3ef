/**
 * Fixed-modulus arithmetic of the spectral pipeline: the prime Q, the
 * square-and-multiply exponentiation `mod_pow` and the Fermat inverse
 * `mod_inv`, together with the facts about powers that the transforms need.
 */
module ModArith {

  /** The NTT-friendly Proth prime 119 * 2^23 + 1 used for every residue. */
  const Q: int := 998244353

  /** Every stored coefficient lies in [0, Q). */
  ghost predicate IsResidue(x: int) {
    0 <= x < Q
  }

  ghost predicate AllResidues(s: seq<int>) {
    forall p :: 0 <= p < |s| ==> IsResidue(s[p])
  }

  /** Mathematical exponentiation over the integers. */
  function Pow(b: int, e: nat): int
    decreases e
  {
    if e == 0 then 1 else b * Pow(b, e - 1)
  }

  /**
   * What `mod_pow(base, exp, mod)` returns: the loop body never runs for
   * `exp <= 0`, so the untouched initial result 1 comes back (even when
   * `mod == 1`); otherwise the reduced power.
   */
  function PowMod(base: int, exp: int, mod: int): int
    requires mod >= 1
  {
    if exp <= 0 then 1 else Pow(base, exp) % mod
  }

  // ---------------------------------------------------------------------
  // Euclidean division facts (Dafny's % is Euclidean; on the non-negative
  // operands used here it agrees with C++'s truncating %).
  // ---------------------------------------------------------------------

  lemma DivModUnique(a: int, m: int, q: int, r: int)
    requires m > 0 && 0 <= r < m && a == q * m + r
    ensures a / m == q && a % m == r
  {
    var q0, r0 := a / m, a % m;
    assert (q - q0) * m == r0 - r;
    if q > q0 {
      MulAtLeast(q - q0, m);
    } else if q < q0 {
      MulAtLeast(q0 - q, m);
    }
  }

  lemma MulAtLeast(d: int, m: int)
    requires d >= 1 && m > 0
    ensures d * m >= m
  {
    assert d * m == (d - 1) * m + m;
  }

  /** Reordering a product of three factors. */
  lemma MulShuffle(a: int, b: int, c: int)
    ensures a * (b * c) == (a * c) * b == b * (a * c)
  {
  }

  lemma ModAddMultiple(x: int, k: int, m: int)
    requires m > 0
    ensures (x + k * m) % m == x % m
  {
    DivModUnique(x + k * m, m, x / m + k, x % m);
  }

  lemma ModMulLeft(a: int, b: int, m: int)
    requires m > 0
    ensures ((a % m) * b) % m == (a * b) % m
  {
    calc {
      a * b;
      ((a / m) * m + a % m) * b;
      (a % m) * b + ((a / m) * b) * m;
    }
    ModAddMultiple((a % m) * b, (a / m) * b, m);
  }

  lemma ModMulBoth(a: int, b: int, m: int)
    requires m > 0
    ensures ((a % m) * (b % m)) % m == (a * b) % m
  {
    ModMulLeft(a, b % m, m);
    ModMulLeft(b, a, m);
  }

  lemma ModAddBoth(a: int, b: int, m: int)
    requires m > 0
    ensures ((a % m) + (b % m)) % m == (a + b) % m
  {
    calc {
      a + b;
      (a % m) + (b % m) + ((a / m) + (b / m)) * m;
    }
    ModAddMultiple((a % m) + (b % m), (a / m) + (b / m), m);
  }

  lemma ModOfResidue(x: int, m: int)
    requires 0 <= x < m
    ensures x % m == x
  {
    DivModUnique(x, m, 0, x);
  }

  // ---------------------------------------------------------------------
  // Laws of exponents
  // ---------------------------------------------------------------------

  lemma {:induction false} PowAdd(b: int, e1: nat, e2: nat)
    ensures Pow(b, e1 + e2) == Pow(b, e1) * Pow(b, e2)
    decreases e1
  {
    if e1 > 0 {
      PowAdd(b, e1 - 1, e2);
    }
  }

  lemma {:induction false} PowMul(b: int, e1: nat, e2: nat)
    ensures Pow(b, e1 * e2) == Pow(Pow(b, e1), e2)
    decreases e2
  {
    if e2 > 0 {
      calc {
        Pow(b, e1 * e2);
        { assert e1 * e2 == e1 + e1 * (e2 - 1); }
        Pow(b, e1 + e1 * (e2 - 1));
        { PowAdd(b, e1, e1 * (e2 - 1)); }
        Pow(b, e1) * Pow(b, e1 * (e2 - 1));
        { PowMul(b, e1, e2 - 1); }
        Pow(b, e1) * Pow(Pow(b, e1), e2 - 1);
      }
    }
  }

  lemma {:induction false} PowOfOne(e: nat)
    ensures Pow(1, e) == 1
    decreases e
  {
    if e > 0 {
      PowOfOne(e - 1);
    }
  }

  lemma {:induction false} PowSquare(b: int, e: nat)
    ensures Pow(b * b, e) == Pow(b, 2 * e)
  {
    PowMul(b, 2, e);
    assert Pow(b, 2) == b * b;
  }

  /** Reducing the base first does not change the reduced power. */
  lemma {:induction false} PowModBase(b: int, e: nat, m: int)
    requires m > 0
    ensures Pow(b % m, e) % m == Pow(b, e) % m
    decreases e
  {
    if e > 0 {
      calc {
        Pow(b % m, e) % m;
        ((b % m) * Pow(b % m, e - 1)) % m;
        { ModMulBoth(b % m, Pow(b % m, e - 1), m); }
        (((b % m) % m) * (Pow(b % m, e - 1) % m)) % m;
        { PowModBase(b, e - 1, m); ModOfResidue(b % m, m); }
        ((b % m) * (Pow(b, e - 1) % m)) % m;
        { ModMulBoth(b, Pow(b, e - 1), m); }
        (b * Pow(b, e - 1)) % m;
      }
    }
  }

  lemma {:induction false} PowNonNegative(b: int, e: nat)
    requires b >= 0
    ensures Pow(b, e) >= 0
    decreases e
  {
    if e > 0 {
      PowNonNegative(b, e - 1);
    }
  }

  // ---------------------------------------------------------------------
  // mod_pow (lines 22-31) and mod_inv (lines 33-35)
  // ---------------------------------------------------------------------

  /**
   * The square-and-multiply loop of `mod_pow` read as a recursion on the
   * remaining exponent: `r` is the running result, `b` the running base.
   */
  function PowLoop(r: int, b: int, e: nat, m: int): (res: int)
    requires m > 0
    ensures e > 0 ==> 0 <= res < m
    decreases e
  {
    if e == 0 then r
    else PowLoop(if e % 2 == 1 then (r * b) % m else r, (b * b) % m, e / 2, m)
  }

  /** Squaring the reduced base halves the exponent, modulo m. */
  lemma PowSquareMod(c: int, b: int, h: nat, m: int)
    requires m > 0
    ensures (c * Pow((b * b) % m, h)) % m == (c * Pow(b, 2 * h)) % m
  {
    calc {
      (c * Pow((b * b) % m, h)) % m;
      { ModMulBoth(c, Pow((b * b) % m, h), m); }
      ((c % m) * (Pow((b * b) % m, h) % m)) % m;
      { PowModBase(b * b, h, m); PowSquare(b, h); }
      ((c % m) * (Pow(b, 2 * h) % m)) % m;
      { ModMulBoth(c, Pow(b, 2 * h), m); }
      (c * Pow(b, 2 * h)) % m;
    }
  }

  /** One turn of the loop keeps `r * b^e (mod m)` unchanged. */
  lemma PowLoopStep(r: int, b: int, e: nat, m: int)
    requires m > 0 && e > 0
    ensures ((if e % 2 == 1 then (r * b) % m else r) * Pow((b * b) % m, e / 2)) % m
            == (r * Pow(b, e)) % m
  {
    var h := e / 2;
    if e % 2 == 1 {
      PowSquareMod((r * b) % m, b, h, m);
      ModMulLeft(r * b, Pow(b, 2 * h), m);
      PowAdd(b, 1, 2 * h);
      assert Pow(b, 1) == b;
      assert r * b * Pow(b, 2 * h) == r * Pow(b, e);
    } else {
      PowSquareMod(r, b, h, m);
    }
  }

  /** The loop computes `r * b^e mod m` once it has run at least once. */
  lemma {:induction false} PowLoopIsPow(r: int, b: int, e: nat, m: int)
    requires m > 0 && e > 0
    ensures PowLoop(r, b, e, m) == (r * Pow(b, e)) % m
    decreases e
  {
    var r' := if e % 2 == 1 then (r * b) % m else r;
    var b' := (b * b) % m;
    if e / 2 == 0 {
      assert e == 1;
      assert Pow(b, 1) == b;
      ModMulLeft(r * b, 1, m);
    } else {
      PowLoopIsPow(r', b', e / 2, m);
      PowLoopStep(r, b, e, m);
    }
  }

  /**
   * `mod_pow`: square-and-multiply. The result is 1 when the exponent is not
   * positive and the reduced power otherwise, so it lies in [0, mod) there.
   */
  method ModPow(base: int, exp: int, mod: int) returns (result: int)
    requires base >= 0 && mod >= 1
    ensures result == PowMod(base, exp, mod)
    ensures exp <= 0 ==> result == 1
    ensures exp > 0 ==> 0 <= result < mod && result == Pow(base, exp) % mod
  {
    result := 1;
    var b := base % mod;
    var e := exp;
    while e > 0
      invariant 0 <= b < mod
      invariant e <= exp && (exp <= 0 ==> e == exp)
      invariant e == exp ==> result == 1 && b == base % mod
      invariant exp > 0 && e > 0 ==> PowLoop(result, b, e, mod) == PowLoop(1, base % mod, exp, mod)
      invariant exp > 0 && e <= 0 ==> result == PowLoop(1, base % mod, exp, mod)
      decreases e
    {
      if e % 2 == 1 {
        result := (result * b) % mod;
      }
      b := (b * b) % mod;
      e := e / 2;
    }
    if exp > 0 {
      PowLoopIsPow(1, base % mod, exp, mod);
      PowModBase(base, exp, mod);
    }
  }

  /** `mod_inv`: the inverse of Fermat's little theorem, `a^(mod-2) mod mod`. */
  method ModInv(a: int, mod: int) returns (r: int)
    requires a >= 0 && mod >= 1
    ensures r == PowMod(a, mod - 2, mod)
    ensures mod >= 3 ==> 0 <= r < mod && r == Pow(a, mod - 2) % mod
  {
    r := ModPow(a, mod - 2, mod);
  }
  // ---------------------------------------------------------------------
  // Sums of buffers
  // ---------------------------------------------------------------------

  function Sum(s: seq<int>): int
    decreases |s|
  {
    if |s| == 0 then 0 else s[0] + Sum(s[1..])
  }

  lemma {:induction false} SumConcat(a: seq<int>, b: seq<int>)
    ensures Sum(a + b) == Sum(a) + Sum(b)
    decreases |a|
  {
    if |a| > 0 {
      assert (a + b)[1..] == a[1..] + b;
      SumConcat(a[1..], b);
    } else {
      assert a + b == b;
    }
  }

  // ---------------------------------------------------------------------
  // Normalisation by n^-1 shared by `ntt` (line 66) and `fwht` (line 84)
  // ---------------------------------------------------------------------

  /** Every entry multiplied by `c`, modulo Q. */
  ghost function Scaled(s: seq<int>, c: int): (r: seq<int>)
    ensures |r| == |s| && AllResidues(r)
    ensures forall p :: 0 <= p < |s| ==> r[p] == (s[p] * c) % Q
  {
    seq(|s|, p requires 0 <= p < |s| => (s[p] * c) % Q)
  }

  /** Multiplying a residue by `c` and then by an inverse of `c` gives it back. */
  lemma MulByInverse(x: int, c: int, d: int)
    requires IsResidue(x) && (c * d) % Q == 1
    ensures (((x * c) % Q) * d) % Q == x
  {
    ModMulLeft(x * c, d, Q);
    assert x * c * d == (c * d) * x;
    ModMulLeft(c * d, x, Q);
    ModOfResidue(x, Q);
  }

  /** Scaling by `c` and then by an inverse of `c` gives the residues back. */
  lemma ScaledByInverse(s: seq<int>, c: int, d: int)
    requires AllResidues(s) && (c * d) % Q == 1
    ensures Scaled(Scaled(s, c), d) == s
  {
    forall p | 0 <= p < |s|
      ensures Scaled(Scaled(s, c), d)[p] == s[p]
    {
      MulByInverse(s[p], c, d);
    }
  }

  /** `for (auto& x : a) x = (x * c) % Q;` */
  method Scale(a: array<int>, c: int)
    requires AllResidues(a[..]) && c >= 0
    modifies a
    ensures a[..] == Scaled(old(a[..]), c)
  {
    for p := 0 to a.Length
      invariant forall t :: 0 <= t < p ==> a[t] == (old(a[t]) * c) % Q
      invariant forall t :: p <= t < a.Length ==> a[t] == old(a[t])
    {
      a[p] := (a[p] * c) % Q;
    }
  }
}
