/**
 * Runs of `mod_pow` on the fixed arguments whose results the pipeline's
 * inverses rest on, recorded turn by turn and checked turn by turn.
 *
 * Fermat's little theorem is not proved for Q in general (that would need
 * the primality of Q); instead the two instances the pipeline uses,
 * 2^(Q-1) = 1 and 3^(Q-1) = 1 (mod Q), are computed, together with Euler's
 * criterion 3^((Q-1)/2) = -1 (mod Q), which makes 3 a non-residue.
 */
module Fermat {
  import opened ModArith
  import opened Bits

  /** The variables `result`, `base` and `exp` of `mod_pow`'s loop. */
  datatype PowState = PowState(result: int, base: int, exp: nat)

  /** One turn of the loop of `mod_pow(_, _, Q)`. */
  ghost predicate LoopTurn(s: PowState, t: PowState) {
    && s.exp > 0
    && t.exp == s.exp / 2
    && t.base == (s.base * s.base) % Q
    && t.result == (if s.exp % 2 == 1 then (s.result * s.base) % Q else s.result)
  }

  /** The run of `mod_pow(2, Q - 1, Q)`: state before turn k. */
  function FermatTwoTrace(k: nat): PowState
  {
    if k < 15 then
      if k < 7 then
        if k < 3 then
          if k < 1 then
            PowState(1, 2, 998244352)
          else
            if k < 2 then
              PowState(1, 4, 499122176)
            else
              PowState(1, 16, 249561088)
        else
          if k < 5 then
            if k < 4 then
              PowState(1, 256, 124780544)
            else
              PowState(1, 65536, 62390272)
          else
            if k < 6 then
              PowState(1, 301989884, 31195136)
            else
              PowState(1, 932051910, 15597568)
      else
        if k < 11 then
          if k < 9 then
            if k < 8 then
              PowState(1, 299560064, 7798784)
            else
              PowState(1, 169907034, 3899392)
          else
            if k < 10 then
              PowState(1, 60241440, 1949696)
            else
              PowState(1, 595200811, 974848)
        else
          if k < 13 then
            if k < 12 then
              PowState(1, 819041188, 487424)
            else
              PowState(1, 954185916, 243712)
          else
            if k < 14 then
              PowState(1, 830057642, 121856)
            else
              PowState(1, 679814667, 60928)
    else
      if k < 23 then
        if k < 19 then
          if k < 17 then
            if k < 16 then
              PowState(1, 167578608, 30464)
            else
              PowState(1, 683753077, 15232)
          else
            if k < 18 then
              PowState(1, 918327899, 7616)
            else
              PowState(1, 24717300, 3808)
        else
          if k < 21 then
            if k < 20 then
              PowState(1, 408611293, 1904)
            else
              PowState(1, 722462153, 952)
          else
            if k < 22 then
              PowState(1, 849665201, 476)
            else
              PowState(1, 820873187, 238)
      else
        if k < 27 then
          if k < 25 then
            if k < 24 then
              PowState(1, 255016623, 119)
            else
              PowState(255016623, 640755667, 59)
          else
            if k < 26 then
              PowState(503749204, 678702777, 29)
            else
              PowState(2524844, 598597635, 14)
        else
          if k < 29 then
            if k < 28 then
              PowState(2524844, 917380677, 7)
            else
              PowState(753863840, 346033774, 3)
          else
            if k < 30 then
              PowState(307542799, 539618490, 1)
            else
              PowState(1, 395868439, 0)
  }

  lemma FermatTwoTurns0()
    ensures LoopTurn(FermatTwoTrace(0), FermatTwoTrace(1))
    ensures LoopTurn(FermatTwoTrace(1), FermatTwoTrace(2))
    ensures LoopTurn(FermatTwoTrace(2), FermatTwoTrace(3))
    ensures LoopTurn(FermatTwoTrace(3), FermatTwoTrace(4))
    ensures LoopTurn(FermatTwoTrace(4), FermatTwoTrace(5))
  {
  }

  lemma FermatTwoTurns1()
    ensures LoopTurn(FermatTwoTrace(5), FermatTwoTrace(6))
    ensures LoopTurn(FermatTwoTrace(6), FermatTwoTrace(7))
    ensures LoopTurn(FermatTwoTrace(7), FermatTwoTrace(8))
    ensures LoopTurn(FermatTwoTrace(8), FermatTwoTrace(9))
    ensures LoopTurn(FermatTwoTrace(9), FermatTwoTrace(10))
  {
  }

  lemma FermatTwoTurns2()
    ensures LoopTurn(FermatTwoTrace(10), FermatTwoTrace(11))
    ensures LoopTurn(FermatTwoTrace(11), FermatTwoTrace(12))
    ensures LoopTurn(FermatTwoTrace(12), FermatTwoTrace(13))
    ensures LoopTurn(FermatTwoTrace(13), FermatTwoTrace(14))
    ensures LoopTurn(FermatTwoTrace(14), FermatTwoTrace(15))
  {
  }

  lemma FermatTwoTurns3()
    ensures LoopTurn(FermatTwoTrace(15), FermatTwoTrace(16))
    ensures LoopTurn(FermatTwoTrace(16), FermatTwoTrace(17))
    ensures LoopTurn(FermatTwoTrace(17), FermatTwoTrace(18))
    ensures LoopTurn(FermatTwoTrace(18), FermatTwoTrace(19))
    ensures LoopTurn(FermatTwoTrace(19), FermatTwoTrace(20))
  {
  }

  lemma FermatTwoTurns4()
    ensures LoopTurn(FermatTwoTrace(20), FermatTwoTrace(21))
    ensures LoopTurn(FermatTwoTrace(21), FermatTwoTrace(22))
    ensures LoopTurn(FermatTwoTrace(22), FermatTwoTrace(23))
    ensures LoopTurn(FermatTwoTrace(23), FermatTwoTrace(24))
    ensures LoopTurn(FermatTwoTrace(24), FermatTwoTrace(25))
  {
  }

  lemma FermatTwoTurns5()
    ensures LoopTurn(FermatTwoTrace(25), FermatTwoTrace(26))
    ensures LoopTurn(FermatTwoTrace(26), FermatTwoTrace(27))
    ensures LoopTurn(FermatTwoTrace(27), FermatTwoTrace(28))
    ensures LoopTurn(FermatTwoTrace(28), FermatTwoTrace(29))
    ensures LoopTurn(FermatTwoTrace(29), FermatTwoTrace(30))
  {
  }

  lemma FermatTwoTurn(k: nat)
    requires k < 30
    ensures LoopTurn(FermatTwoTrace(k), FermatTwoTrace(k + 1))
  {
    if k < 5 {
      FermatTwoTurns0();
    } else if k < 10 {
      FermatTwoTurns1();
    } else if k < 15 {
      FermatTwoTurns2();
    } else if k < 20 {
      FermatTwoTurns3();
    } else if k < 25 {
      FermatTwoTurns4();
    } else {
      FermatTwoTurns5();
    }
  }

  lemma {:induction false} FermatTwoReplay(k: nat)
    requires k <= 30
    ensures PowLoop(FermatTwoTrace(k).result, FermatTwoTrace(k).base, FermatTwoTrace(k).exp, Q) == 1
    decreases 30 - k
  {
    if k < 30 {
      FermatTwoTurn(k);
      FermatTwoReplay(k + 1);
    }
  }
  /** The run of `mod_pow(3, Q - 1, Q)`: state before turn k. */
  function FermatThreeTrace(k: nat): PowState
  {
    if k < 15 then
      if k < 7 then
        if k < 3 then
          if k < 1 then
            PowState(1, 3, 998244352)
          else
            if k < 2 then
              PowState(1, 9, 499122176)
            else
              PowState(1, 81, 249561088)
        else
          if k < 5 then
            if k < 4 then
              PowState(1, 6561, 124780544)
            else
              PowState(1, 43046721, 62390272)
          else
            if k < 6 then
              PowState(1, 159509354, 31195136)
            else
              PowState(1, 910876023, 15597568)
      else
        if k < 11 then
          if k < 9 then
            if k < 8 then
              PowState(1, 903365803, 7798784)
            else
              PowState(1, 272705337, 3899392)
          else
            if k < 10 then
              PowState(1, 763602687, 1949696)
            else
              PowState(1, 572051583, 974848)
        else
          if k < 13 then
            if k < 12 then
              PowState(1, 261390798, 487424)
            else
              PowState(1, 91020609, 243712)
          else
            if k < 14 then
              PowState(1, 940746568, 121856)
            else
              PowState(1, 647441648, 60928)
    else
      if k < 23 then
        if k < 19 then
          if k < 17 then
            if k < 16 then
              PowState(1, 192671909, 30464)
            else
              PowState(1, 84695472, 15232)
          else
            if k < 18 then
              PowState(1, 947794670, 7616)
            else
              PowState(1, 793151451, 3808)
        else
          if k < 21 then
            if k < 20 then
              PowState(1, 281849776, 1904)
            else
              PowState(1, 877908352, 952)
          else
            if k < 22 then
              PowState(1, 938296341, 476)
            else
              PowState(1, 619426492, 238)
      else
        if k < 27 then
          if k < 25 then
            if k < 24 then
              PowState(1, 470355006, 119)
            else
              PowState(470355006, 289156217, 59)
          else
            if k < 26 then
              PowState(785023286, 955499538, 29)
            else
              PowState(337827833, 626269029, 14)
        else
          if k < 29 then
            if k < 28 then
              PowState(337827833, 122371506, 7)
            else
              PowState(665556427, 155543970, 3)
          else
            if k < 30 then
              PowState(915251816, 301496519, 1)
            else
              PowState(1, 220050301, 0)
  }

  lemma FermatThreeTurns0()
    ensures LoopTurn(FermatThreeTrace(0), FermatThreeTrace(1))
    ensures LoopTurn(FermatThreeTrace(1), FermatThreeTrace(2))
    ensures LoopTurn(FermatThreeTrace(2), FermatThreeTrace(3))
    ensures LoopTurn(FermatThreeTrace(3), FermatThreeTrace(4))
    ensures LoopTurn(FermatThreeTrace(4), FermatThreeTrace(5))
  {
  }

  lemma FermatThreeTurns1()
    ensures LoopTurn(FermatThreeTrace(5), FermatThreeTrace(6))
    ensures LoopTurn(FermatThreeTrace(6), FermatThreeTrace(7))
    ensures LoopTurn(FermatThreeTrace(7), FermatThreeTrace(8))
    ensures LoopTurn(FermatThreeTrace(8), FermatThreeTrace(9))
    ensures LoopTurn(FermatThreeTrace(9), FermatThreeTrace(10))
  {
  }

  lemma FermatThreeTurns2()
    ensures LoopTurn(FermatThreeTrace(10), FermatThreeTrace(11))
    ensures LoopTurn(FermatThreeTrace(11), FermatThreeTrace(12))
    ensures LoopTurn(FermatThreeTrace(12), FermatThreeTrace(13))
    ensures LoopTurn(FermatThreeTrace(13), FermatThreeTrace(14))
    ensures LoopTurn(FermatThreeTrace(14), FermatThreeTrace(15))
  {
  }

  lemma FermatThreeTurns3()
    ensures LoopTurn(FermatThreeTrace(15), FermatThreeTrace(16))
    ensures LoopTurn(FermatThreeTrace(16), FermatThreeTrace(17))
    ensures LoopTurn(FermatThreeTrace(17), FermatThreeTrace(18))
    ensures LoopTurn(FermatThreeTrace(18), FermatThreeTrace(19))
    ensures LoopTurn(FermatThreeTrace(19), FermatThreeTrace(20))
  {
  }

  lemma FermatThreeTurns4()
    ensures LoopTurn(FermatThreeTrace(20), FermatThreeTrace(21))
    ensures LoopTurn(FermatThreeTrace(21), FermatThreeTrace(22))
    ensures LoopTurn(FermatThreeTrace(22), FermatThreeTrace(23))
    ensures LoopTurn(FermatThreeTrace(23), FermatThreeTrace(24))
    ensures LoopTurn(FermatThreeTrace(24), FermatThreeTrace(25))
  {
  }

  lemma FermatThreeTurns5()
    ensures LoopTurn(FermatThreeTrace(25), FermatThreeTrace(26))
    ensures LoopTurn(FermatThreeTrace(26), FermatThreeTrace(27))
    ensures LoopTurn(FermatThreeTrace(27), FermatThreeTrace(28))
    ensures LoopTurn(FermatThreeTrace(28), FermatThreeTrace(29))
    ensures LoopTurn(FermatThreeTrace(29), FermatThreeTrace(30))
  {
  }

  lemma FermatThreeTurn(k: nat)
    requires k < 30
    ensures LoopTurn(FermatThreeTrace(k), FermatThreeTrace(k + 1))
  {
    if k < 5 {
      FermatThreeTurns0();
    } else if k < 10 {
      FermatThreeTurns1();
    } else if k < 15 {
      FermatThreeTurns2();
    } else if k < 20 {
      FermatThreeTurns3();
    } else if k < 25 {
      FermatThreeTurns4();
    } else {
      FermatThreeTurns5();
    }
  }

  lemma {:induction false} FermatThreeReplay(k: nat)
    requires k <= 30
    ensures PowLoop(FermatThreeTrace(k).result, FermatThreeTrace(k).base, FermatThreeTrace(k).exp, Q) == 1
    decreases 30 - k
  {
    if k < 30 {
      FermatThreeTurn(k);
      FermatThreeReplay(k + 1);
    }
  }
  /** The run of `mod_pow(3, (Q - 1) / 2, Q)`: state before turn k. */
  function EulerThreeTrace(k: nat): PowState
  {
    if k < 15 then
      if k < 7 then
        if k < 3 then
          if k < 1 then
            PowState(1, 3, 499122176)
          else
            if k < 2 then
              PowState(1, 9, 249561088)
            else
              PowState(1, 81, 124780544)
        else
          if k < 5 then
            if k < 4 then
              PowState(1, 6561, 62390272)
            else
              PowState(1, 43046721, 31195136)
          else
            if k < 6 then
              PowState(1, 159509354, 15597568)
            else
              PowState(1, 910876023, 7798784)
      else
        if k < 11 then
          if k < 9 then
            if k < 8 then
              PowState(1, 903365803, 3899392)
            else
              PowState(1, 272705337, 1949696)
          else
            if k < 10 then
              PowState(1, 763602687, 974848)
            else
              PowState(1, 572051583, 487424)
        else
          if k < 13 then
            if k < 12 then
              PowState(1, 261390798, 243712)
            else
              PowState(1, 91020609, 121856)
          else
            if k < 14 then
              PowState(1, 940746568, 60928)
            else
              PowState(1, 647441648, 30464)
    else
      if k < 22 then
        if k < 18 then
          if k < 16 then
            PowState(1, 192671909, 15232)
          else
            if k < 17 then
              PowState(1, 84695472, 7616)
            else
              PowState(1, 947794670, 3808)
        else
          if k < 20 then
            if k < 19 then
              PowState(1, 793151451, 1904)
            else
              PowState(1, 281849776, 952)
          else
            if k < 21 then
              PowState(1, 877908352, 476)
            else
              PowState(1, 938296341, 238)
      else
        if k < 26 then
          if k < 24 then
            if k < 23 then
              PowState(1, 619426492, 119)
            else
              PowState(619426492, 470355006, 59)
          else
            if k < 25 then
              PowState(338469025, 289156217, 29)
            else
              PowState(949458275, 955499538, 14)
        else
          if k < 28 then
            if k < 27 then
              PowState(949458275, 626269029, 7)
            else
              PowState(311053323, 122371506, 3)
          else
            if k < 29 then
              PowState(171616614, 155543970, 1)
            else
              PowState(998244352, 301496519, 0)
  }

  lemma EulerThreeTurns0()
    ensures LoopTurn(EulerThreeTrace(0), EulerThreeTrace(1))
    ensures LoopTurn(EulerThreeTrace(1), EulerThreeTrace(2))
    ensures LoopTurn(EulerThreeTrace(2), EulerThreeTrace(3))
    ensures LoopTurn(EulerThreeTrace(3), EulerThreeTrace(4))
    ensures LoopTurn(EulerThreeTrace(4), EulerThreeTrace(5))
  {
  }

  lemma EulerThreeTurns1()
    ensures LoopTurn(EulerThreeTrace(5), EulerThreeTrace(6))
    ensures LoopTurn(EulerThreeTrace(6), EulerThreeTrace(7))
    ensures LoopTurn(EulerThreeTrace(7), EulerThreeTrace(8))
    ensures LoopTurn(EulerThreeTrace(8), EulerThreeTrace(9))
    ensures LoopTurn(EulerThreeTrace(9), EulerThreeTrace(10))
  {
  }

  lemma EulerThreeTurns2()
    ensures LoopTurn(EulerThreeTrace(10), EulerThreeTrace(11))
    ensures LoopTurn(EulerThreeTrace(11), EulerThreeTrace(12))
    ensures LoopTurn(EulerThreeTrace(12), EulerThreeTrace(13))
    ensures LoopTurn(EulerThreeTrace(13), EulerThreeTrace(14))
    ensures LoopTurn(EulerThreeTrace(14), EulerThreeTrace(15))
  {
  }

  lemma EulerThreeTurns3()
    ensures LoopTurn(EulerThreeTrace(15), EulerThreeTrace(16))
    ensures LoopTurn(EulerThreeTrace(16), EulerThreeTrace(17))
    ensures LoopTurn(EulerThreeTrace(17), EulerThreeTrace(18))
    ensures LoopTurn(EulerThreeTrace(18), EulerThreeTrace(19))
    ensures LoopTurn(EulerThreeTrace(19), EulerThreeTrace(20))
  {
  }

  lemma EulerThreeTurns4()
    ensures LoopTurn(EulerThreeTrace(20), EulerThreeTrace(21))
    ensures LoopTurn(EulerThreeTrace(21), EulerThreeTrace(22))
    ensures LoopTurn(EulerThreeTrace(22), EulerThreeTrace(23))
    ensures LoopTurn(EulerThreeTrace(23), EulerThreeTrace(24))
    ensures LoopTurn(EulerThreeTrace(24), EulerThreeTrace(25))
  {
  }

  lemma EulerThreeTurns5()
    ensures LoopTurn(EulerThreeTrace(25), EulerThreeTrace(26))
    ensures LoopTurn(EulerThreeTrace(26), EulerThreeTrace(27))
    ensures LoopTurn(EulerThreeTrace(27), EulerThreeTrace(28))
    ensures LoopTurn(EulerThreeTrace(28), EulerThreeTrace(29))
  {
  }

  lemma EulerThreeTurn(k: nat)
    requires k < 29
    ensures LoopTurn(EulerThreeTrace(k), EulerThreeTrace(k + 1))
  {
    if k < 5 {
      EulerThreeTurns0();
    } else if k < 10 {
      EulerThreeTurns1();
    } else if k < 15 {
      EulerThreeTurns2();
    } else if k < 20 {
      EulerThreeTurns3();
    } else if k < 25 {
      EulerThreeTurns4();
    } else {
      EulerThreeTurns5();
    }
  }

  lemma {:induction false} EulerThreeReplay(k: nat)
    requires k <= 29
    ensures PowLoop(EulerThreeTrace(k).result, EulerThreeTrace(k).base, EulerThreeTrace(k).exp, Q) == Q - 1
    decreases 29 - k
  {
    if k < 29 {
      EulerThreeTurn(k);
      EulerThreeReplay(k + 1);
    }
  }
  /** 2^(Q-1) = 1 (mod Q): Fermat's little theorem for the base 2. */
  lemma FermatForTwo()
    ensures Pow(2, Q - 1) % Q == 1
  {
    FermatTwoReplay(0);
    PowLoopIsPow(1, 2, Q - 1, Q);
  }

  /** 3^(Q-1) = 1 (mod Q): Fermat's little theorem for the root 3. */
  lemma FermatForThree()
    ensures Pow(3, Q - 1) % Q == 1
  {
    FermatThreeReplay(0);
    PowLoopIsPow(1, 3, Q - 1, Q);
  }

  /** 3^((Q-1)/2) = -1 (mod Q): Euler's criterion, 3 is not a square mod Q. */
  lemma EulerForThree()
    ensures Pow(3, (Q - 1) / 2) % Q == Q - 1
  {
    EulerThreeReplay(0);
    PowLoopIsPow(1, 3, (Q - 1) / 2, Q);
  }

  /** Every power of 2 or of 3 is a (Q-1)-th root of unity modulo Q. */
  lemma PowerOfFermatBase(g: int, d: nat)
    requires g == 2 || g == 3
    ensures Pow(Pow(g, d) % Q, Q - 1) % Q == 1
  {
    if g == 2 { FermatForTwo(); } else { FermatForThree(); }
    calc {
      Pow(Pow(g, d) % Q, Q - 1) % Q;
      { PowModBase(Pow(g, d), Q - 1, Q); }
      Pow(Pow(g, d), Q - 1) % Q;
      { PowMul(g, d, Q - 1); PowMul(g, Q - 1, d); assert d * (Q - 1) == (Q - 1) * d; }
      Pow(Pow(g, Q - 1), d) % Q;
      { PowModBase(Pow(g, Q - 1), d, Q); }
      Pow(Pow(g, Q - 1) % Q, d) % Q;
      { PowOfOne(d); }
      1;
    }
  }

  /**
   * `mod_inv` inverts every residue the pipeline hands it: the transform
   * length N (a power of 2) and the stage twiddles (powers of the root 3).
   */
  lemma InverseOfFermatPower(g: int, d: nat)
    requires g == 2 || g == 3
    ensures var x := Pow(g, d) % Q; (x * PowMod(x, Q - 2, Q)) % Q == 1
  {
    var x := Pow(g, d) % Q;
    PowerOfFermatBase(g, d);
    calc {
      (x * PowMod(x, Q - 2, Q)) % Q;
      (x * (Pow(x, Q - 2) % Q)) % Q;
      { ModMulBoth(x, Pow(x, Q - 2), Q); ModOfResidue(x, Q); }
      (x * Pow(x, Q - 2)) % Q;
      { PowAdd(x, 1, Q - 2); assert Pow(x, 1) == x; }
      Pow(x, Q - 1) % Q;
    }
  }

  /** n * n^-1 == 1 modulo Q for every power of two below Q (lines 65 and 83). */
  lemma SizeInverse(n: int)
    requires IsPow2(n) && n < Q
    ensures (n * PowMod(n, Q - 2, Q)) % Q == 1
  {
    Pow2IsPow(Log2(n));
    ModOfResidue(n, Q);
    InverseOfFermatPower(2, Log2(n));
  }
}
