/**
 * Polynomial evaluation over the integers: a buffer `s` read as the
 * coefficients of s[0] + s[1] x + ... + s[n-1] x^(n-1). The butterfly
 * stages of the NTT compute these values modulo Q at the powers of the
 * stage root, which is what makes the inverse transform undo the forward one.
 */
module Polynomial {
  import opened ModArith

  /** s[0] + s[1] * x + ... + s[|s| - 1] * x^(|s| - 1) */
  function Eval(s: seq<int>, x: int): int
    decreases |s|
  {
    if |s| == 0 then 0 else Eval(s[..|s| - 1], x) + s[|s| - 1] * Pow(x, |s| - 1)
  }

  /** The coefficients of even degree. */
  ghost function Evens(s: seq<int>): (r: seq<int>)
    ensures |r| == (|s| + 1) / 2 && forall j :: 0 <= j < |r| ==> r[j] == s[2 * j]
  {
    seq((|s| + 1) / 2, j requires 0 <= j < (|s| + 1) / 2 => s[2 * j])
  }

  /** The coefficients of odd degree. */
  ghost function Odds(s: seq<int>): (r: seq<int>)
    ensures |r| == |s| / 2 && forall j :: 0 <= j < |r| ==> r[j] == s[2 * j + 1]
  {
    seq(|s| / 2, j requires 0 <= j < |s| / 2 => s[2 * j + 1])
  }

  /** Entrywise sum of two coefficient buffers. */
  ghost function Plus(u: seq<int>, v: seq<int>): (r: seq<int>)
    requires |u| == |v|
    ensures |r| == |u| && forall k :: 0 <= k < |u| ==> r[k] == u[k] + v[k]
  {
    seq(|u|, k requires 0 <= k < |u| => u[k] + v[k])
  }

  /** Every coefficient multiplied by `c`. */
  ghost function Times(c: int, u: seq<int>): (r: seq<int>)
    ensures |r| == |u| && forall k :: 0 <= k < |u| ==> r[k] == c * u[k]
  {
    seq(|u|, k requires 0 <= k < |u| => c * u[k])
  }

  /** 1 + x + ... + x^(n-1) */
  ghost function Ones(n: nat): (r: seq<int>)
    ensures |r| == n && forall k :: 0 <= k < n ==> r[k] == 1
  {
    seq(n, k => 1)
  }

  // ---------------------------------------------------------------------
  // Algebra of evaluation
  // ---------------------------------------------------------------------

  /** The coefficients of `v` sit |u| degrees above those of `u`. */
  lemma {:induction false} EvalAppend(u: seq<int>, v: seq<int>, x: int)
    ensures Eval(u + v, x) == Eval(u, x) + Pow(x, |u|) * Eval(v, x)
    decreases |v|
  {
    if |v| == 0 {
      assert u + v == u;
    } else {
      var w, c := v[..|v| - 1], v[|v| - 1];
      assert (u + v)[..|u + v| - 1] == u + w;
      EvalAppend(u, w, x);
      PowAdd(x, |u|, |w|);
      var px := Pow(x, |u|);
      calc {
        Eval(u + v, x);
        Eval(u + w, x) + c * Pow(x, |u| + |w|);
        Eval(u, x) + px * Eval(w, x) + c * (px * Pow(x, |w|));
        { MulShuffle(c, px, Pow(x, |w|)); }
        Eval(u, x) + px * (Eval(w, x) + c * Pow(x, |w|));
      }
    }
  }

  /** One more coefficient on top. */
  lemma EvalSnoc(t: seq<int>, c: int, x: int)
    ensures Eval(t + [c], x) == Eval(t, x) + c * Pow(x, |t|)
  {
    assert (t + [c])[..|t|] == t;
  }

  /** Splitting by parity: P(x) == E(x^2) + x * O(x^2). */
  lemma {:induction false} EvalEvenOdd(s: seq<int>, x: int)
    requires |s| % 2 == 0
    ensures Eval(s, x) == Eval(Evens(s), x * x) + x * Eval(Odds(s), x * x)
    decreases |s|
  {
    if |s| > 0 {
      var t := s[..|s| - 2];
      var a, b := s[|s| - 2], s[|s| - 1];
      var xx := x * x;
      EvalEvenOdd(t, x);
      var p := Pow(x, |s| - 2);
      TopTwoTerms(s, x);
      ParityStep(Eval(s, x), Eval(Evens(s), xx), Eval(Odds(s), xx),
                 Eval(Evens(t), xx), Eval(Odds(t), xx), a, b, x, p);
    }
  }

  /** Removing the two top coefficients from a buffer of even length. */
  lemma TopTwoTerms(s: seq<int>, x: int)
    requires |s| % 2 == 0 && |s| >= 2
    ensures var t, a, b, p := s[..|s| - 2], s[|s| - 2], s[|s| - 1], Pow(x, |s| - 2);
      Eval(s, x) == Eval(t, x) + a * p + b * (x * p) &&
      Eval(Evens(s), x * x) == Eval(Evens(t), x * x) + a * p &&
      Eval(Odds(s), x * x) == Eval(Odds(t), x * x) + b * p
  {
    var t := s[..|s| - 2];
    var a, b := s[|s| - 2], s[|s| - 1];
    var m := TopTwoParts(s);
    EvalSnoc(t + [a], b, x);
    EvalSnoc(t, a, x);
    EvalSnoc(Evens(t), a, x * x);
    EvalSnoc(Odds(t), b, x * x);
    SquarePowers(x, m);
  }

  /** The two top coefficients are the last even and the last odd one. */
  lemma TopTwoParts(s: seq<int>) returns (m: nat)
    requires |s| % 2 == 0 && |s| >= 2
    ensures var t, a, b := s[..|s| - 2], s[|s| - 2], s[|s| - 1];
      |t| == 2 * m && |Evens(t)| == m && |Odds(t)| == m &&
      s == (t + [a]) + [b] && Evens(s) == Evens(t) + [a] && Odds(s) == Odds(t) + [b]
  {
    var t := s[..|s| - 2];
    var a, b := s[|s| - 2], s[|s| - 1];
    m := |t| / 2;
    assert |t| == 2 * m;
    assert |Evens(t)| == m by { DivModUnique(|t| + 1, 2, m, 1); }
    assert |Odds(t)| == m by { DivModUnique(|t|, 2, m, 0); }
    assert s == (t + [a]) + [b];
    assert Evens(s) == Evens(t) + [a];
    assert Odds(s) == Odds(t) + [b];
  }

  lemma SquarePowers(x: int, m: nat)
    ensures Pow(x * x, m) == Pow(x, 2 * m) && Pow(x, 2 * m + 1) == x * Pow(x, 2 * m)
  {
    PowSquare(x, m);
  }

  lemma ParityStep(v: int, ve: int, vo: int, e: int, o: int, a: int, b: int, x: int, p: int)
    requires v == (e + x * o) + a * p + b * (x * p)
    requires ve == e + a * p && vo == o + b * p
    ensures v == ve + x * vo
  {
    MulShuffle(b, x, p);
  }

  /** Evaluation is additive in the coefficients. */
  lemma {:induction false} EvalPlus(u: seq<int>, v: seq<int>, x: int)
    requires |u| == |v|
    ensures Eval(Plus(u, v), x) == Eval(u, x) + Eval(v, x)
    decreases |u|
  {
    if |u| > 0 {
      var k := |u| - 1;
      assert Plus(u, v)[..k] == Plus(u[..k], v[..k]);
      EvalPlus(u[..k], v[..k], x);
    }
  }

  /** Evaluation is homogeneous in the coefficients. */
  lemma {:induction false} EvalTimes(c: int, u: seq<int>, x: int)
    ensures Eval(Times(c, u), x) == c * Eval(u, x)
    decreases |u|
  {
    if |u| > 0 {
      var k := |u| - 1;
      assert Times(c, u)[..k] == Times(c, u[..k]);
      EvalTimes(c, u[..k], x);
      MulShuffle(c, u[k], Pow(x, k));
    }
  }

  /**
   * Two evaluations agree modulo Q when their terms do degree by degree;
   * the coefficients and the points may differ.
   */
  lemma {:induction false} EvalTermsCongruent(u: seq<int>, x: int, v: seq<int>, y: int)
    requires |u| == |v|
    requires forall k :: 0 <= k < |u| ==> (u[k] * Pow(x, k)) % Q == (v[k] * Pow(y, k)) % Q
    ensures Eval(u, x) % Q == Eval(v, y) % Q
    decreases |u|
  {
    if |u| > 0 {
      var k := |u| - 1;
      EvalTermsCongruent(u[..k], x, v[..k], y);
      ModAddBoth(Eval(u[..k], x), u[k] * Pow(x, k), Q);
      ModAddBoth(Eval(v[..k], y), v[k] * Pow(y, k), Q);
    }
  }

  lemma PowCongruent(a: int, b: int, e: nat)
    requires a % Q == b % Q
    ensures Pow(a, e) % Q == Pow(b, e) % Q
  {
    PowModBase(a, e, Q);
    PowModBase(b, e, Q);
  }

  /** Congruent points give congruent values. */
  lemma EvalAtCongruent(s: seq<int>, x: int, y: int)
    requires x % Q == y % Q
    ensures Eval(s, x) % Q == Eval(s, y) % Q
  {
    forall k | 0 <= k < |s|
      ensures (s[k] * Pow(x, k)) % Q == (s[k] * Pow(y, k)) % Q
    {
      PowCongruent(x, y, k);
      ModMulLeft(Pow(x, k), s[k], Q);
      ModMulLeft(Pow(y, k), s[k], Q);
    }
    EvalTermsCongruent(s, x, s, y);
  }

  /** Congruent coefficients give congruent values. */
  lemma EvalOfCongruent(u: seq<int>, v: seq<int>, x: int)
    requires |u| == |v| && forall k :: 0 <= k < |u| ==> u[k] % Q == v[k] % Q
    ensures Eval(u, x) % Q == Eval(v, x) % Q
  {
    forall k | 0 <= k < |u|
      ensures (u[k] * Pow(x, k)) % Q == (v[k] * Pow(x, k)) % Q
    {
      ModMulLeft(u[k], Pow(x, k), Q);
      ModMulLeft(v[k], Pow(x, k), Q);
    }
    EvalTermsCongruent(u, x, v, x);
  }

  /** The zero polynomial vanishes everywhere. */
  lemma EvalOfZeros(s: seq<int>, x: int)
    requires forall k :: 0 <= k < |s| ==> s[k] == 0
    ensures Eval(s, x) == 0
  {
    assert s == Times(0, s);
    EvalTimes(0, s, x);
  }
}
