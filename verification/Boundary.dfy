/** Changes that cross from the last bytes a frame check covers into the check itself. The check
    is written most significant byte first over a register whose first bit in transmission order
    is the least significant, so the burst promise of the CRC does not reach across. */
module Boundary {
  import opened Polynomial
  import opened Crc32

  /** The coefficient of x^(32-k) in the generator. */
  predicate Term(k: nat) {
    k == 0 || k == 6 || k == 9 || k == 10 || k == 16 || k == 20 || k == 21 || k == 22
    || k == 24 || k == 25 || k == 27 || k == 28 || k == 30 || k == 31 || k == 32
  }

  lemma TermIsCoefficient(k: nat)
    requires k <= 32
    ensures GENERATOR[k] == Term(k)
  {
    GeneratorExponents(32 - k);
  }

  /** The leading coefficients met in n multiplications by x: the quotient. */
  function Leads(r: Poly, n: nat): (q: Poly)
    requires |r| == 32
    ensures |q| == n
    decreases n
  {
    if n == 0 then [] else [r[0]] + Leads(TimesX(r, GENERATOR), n - 1)
  }

  /** What the quotient bits from t on contribute to coefficient i after n multiplications. */
  predicate Sum(q: Poly, n: nat, t: nat, i: nat)
    requires |q| == n >= t
    decreases n - t
  {
    if t == n then false else (q[t] && i + n - t <= 32 && Term(i + n - t)) != Sum(q, n, t + 1, i)
  }

  lemma {:induction false} SumShifts(b: bool, q: Poly, n: nat, t: nat, i: nat)
    requires |q| == n >= t
    ensures Sum([b] + q, n + 1, t + 1, i) == Sum(q, n, t, i)
    decreases n - t
  {
    if t < n {
      SumShifts(b, q, n, t + 1, i);
    }
  }

  lemma OneRound(r: Poly, m: nat)
    requires |r| == 32 && m < 32
    ensures TimesX(r, GENERATOR)[m] == ((m + 1 < 32 && r[m + 1]) != (r[0] && Term(m + 1)))
  {
    TermIsCoefficient(m + 1);
  }

  /** Long division written out: each coefficient of the remainder from the quotient. */
  lemma {:induction false} Unrolled(r: Poly, n: nat, i: nat)
    requires |r| == 32 && i < 32
    ensures TimesXn(r, n)[i] == ((i + n < 32 && r[i + n]) != Sum(Leads(r, n), n, 0, i))
    decreases n
  {
    if n > 0 {
      var r' := TimesX(r, GENERATOR);
      Unrolled(r', n - 1, i);
      var q := Leads(r', n - 1);
      SumShifts(r[0], q, n - 1, 0, i);
      assert Leads(r, n) == [r[0]] + q && TimesXn(r, n) == TimesXn(r', n - 1);
      if i + n <= 32 {
        OneRound(r, i + n - 1);
      }
    }
  }

  /** The quotient determines as many coefficients of the dividend. */
  lemma {:induction false} LeadsDetermine(r: Poly, s: Poly, n: nat)
    requires |r| == |s| == 32 && n <= 32 && Leads(r, n) == Leads(s, n)
    ensures forall k :: 0 <= k < n ==> r[k] == s[k]
    decreases n
  {
    if n > 0 {
      var r', s' := TimesX(r, GENERATOR), TimesX(s, GENERATOR);
      assert Leads(r, n)[0] == r[0] && Leads(s, n)[0] == s[0];
      assert Leads(r', n - 1) == Leads(r, n)[1..] && Leads(s', n - 1) == Leads(s, n)[1..];
      LeadsDetermine(r', s', n - 1);
      forall k | 1 <= k < n ensures r[k] == s[k] {
        OneRound(r, k - 1);
        OneRound(s, k - 1);
        assert r'[k - 1] == s'[k - 1];
      }
    }
  }

  /** The quotient of the one pattern that goes unseen. */
  const UNSEEN_QUOTIENT: Poly :=
    [true, false, false, false, false, true, false, false, false, true, true, false, true, false, false, true]

  /** The contribution of quotient bit t to coefficient i. */
  predicate Bit(q: Poly, n: nat, t: nat, i: nat)
    requires t < n == |q|
  {
    q[t] && i + n - t <= 32 && Term(i + n - t)
  }

  /** The sum of eight bits, written out. */
  predicate Eight(q: Poly, n: nat, t: nat, i: nat)
    requires t + 8 <= n == |q|
  {
    (((Bit(q, n, t, i) != Bit(q, n, t + 1, i)) != (Bit(q, n, t + 2, i) != Bit(q, n, t + 3, i))) !=
     ((Bit(q, n, t + 4, i) != Bit(q, n, t + 5, i)) != (Bit(q, n, t + 6, i) != Bit(q, n, t + 7, i))))
  }

  lemma SumOfEight(q: Poly, n: nat, t: nat, i: nat)
    requires t + 8 <= n == |q|
    ensures Sum(q, n, t, i) == (Eight(q, n, t, i) != Sum(q, n, t + 8, i))
  {
    assert Sum(q, n, t + 6, i) == (Bit(q, n, t + 6, i) != (Bit(q, n, t + 7, i) != Sum(q, n, t + 8, i)));
    assert Sum(q, n, t + 4, i) == (Bit(q, n, t + 4, i) != (Bit(q, n, t + 5, i) != Sum(q, n, t + 6, i)));
    assert Sum(q, n, t + 2, i) == (Bit(q, n, t + 2, i) != (Bit(q, n, t + 3, i) != Sum(q, n, t + 4, i)));
  }

  lemma Row8(q: Poly, i: nat)
    requires |q| == 8 && !Sum(q, 8, 0, i)
    ensures !Eight(q, 8, 0, i)
  {
    SumOfEight(q, 8, 0, i);
  }

  lemma Row16(q: Poly, i: nat)
    requires |q| == 16 && !Sum(q, 16, 0, i)
    ensures Eight(q, 16, 0, i) == Eight(q, 16, 8, i)
  {
    SumOfEight(q, 16, 0, i);
    SumOfEight(q, 16, 8, i);
  }

  lemma Row24(q: Poly, i: nat)
    requires |q| == 24 && !Sum(q, 24, 0, i)
    ensures (Eight(q, 24, 0, i) != Eight(q, 24, 8, i)) == Eight(q, 24, 16, i)
  {
    SumOfEight(q, 24, 0, i);
    SumOfEight(q, 24, 8, i);
    SumOfEight(q, 24, 16, i);
  }

  // ---- The quotients that make the leading coefficients vanish ----------------------------

  /** Coefficient i of the product of the generator and a quotient of 8 bits vanishes. */
  predicate OneByte(q: Poly, i: nat)
    requires |q| == 8 && i < 8
  {
    match i
    case 0 => !q[2]
    case 1 => (q[0] <==> q[3])
    case 2 => !(q[0] <==> q[1] <==> q[4])
    case 3 => !(q[1] <==> q[2] <==> q[5])
    case 4 => !(q[2] <==> q[3] <==> q[6])
    case 5 => !(q[3] <==> q[4] <==> q[7])
    case 6 => (q[4] <==> q[5])
    case 7 => (q[5] <==> q[6])
  }

  lemma OneByte0(q: Poly, i: nat)
    requires |q| == 8 && 0 <= i < 8 && !Sum(q, 8, 0, i)
    ensures OneByte(q, i)
  {
    Row8(q, i);
    match i {
      case 0 =>
      case 1 =>
      case 2 =>
      case 3 =>
      case 4 =>
      case 5 =>
      case 6 =>
      case 7 =>
    }
  }

  lemma OneByteSolution(q: Poly)
    requires |q| == 8 && forall i :: 0 <= i < 8 ==> OneByte(q, i)
    ensures forall i :: 0 <= i < 8 ==> !q[i]
  {
    assert OneByte(q, 0) && OneByte(q, 1) && OneByte(q, 2) && OneByte(q, 3);
    assert OneByte(q, 4) && OneByte(q, 5) && OneByte(q, 6) && OneByte(q, 7);
  }

  /** Coefficient i of the product of the generator and a quotient of 16 bits vanishes. */
  predicate TwoByte(q: Poly, i: nat)
    requires |q| == 16 && i < 16
  {
    match i
    case 0 => (q[0] <==> q[6] <==> q[7] <==> q[10])
    case 1 => (q[1] <==> q[7] <==> q[8] <==> q[11])
    case 2 => (q[2] <==> q[8] <==> q[9] <==> q[12])
    case 3 => (q[3] <==> q[9] <==> q[10] <==> q[13])
    case 4 => !(q[0] <==> q[4] <==> q[10] <==> q[11] <==> q[14])
    case 5 => (q[0] <==> q[1] <==> q[5] <==> q[11] <==> q[12] <==> q[15])
    case 6 => (q[0] <==> q[1] <==> q[2] <==> q[6] <==> q[12] <==> q[13])
    case 7 => (q[1] <==> q[2] <==> q[3] <==> q[7] <==> q[13] <==> q[14])
    case 8 => !(q[0] <==> q[2] <==> q[3] <==> q[4] <==> q[8] <==> q[14] <==> q[15])
    case 9 => !(q[0] <==> q[1] <==> q[3] <==> q[4] <==> q[5] <==> q[9] <==> q[15])
    case 10 => (q[1] <==> q[2] <==> q[4] <==> q[5] <==> q[6] <==> q[10])
    case 11 => !(q[0] <==> q[2] <==> q[3] <==> q[5] <==> q[6] <==> q[7] <==> q[11])
    case 12 => (q[0] <==> q[1] <==> q[3] <==> q[4] <==> q[6] <==> q[7] <==> q[8] <==> q[12])
    case 13 => (q[1] <==> q[2] <==> q[4] <==> q[5] <==> q[7] <==> q[8] <==> q[9] <==> q[13])
    case 14 => !(q[0] <==> q[2] <==> q[3] <==> q[5] <==> q[6] <==> q[8] <==> q[9] <==> q[10] <==> q[14])
    case 15 => (q[0] <==> q[1] <==> q[3] <==> q[4] <==> q[6] <==> q[7] <==> q[9] <==> q[10] <==> q[11] <==> q[15])
  }

  lemma TwoByte0(q: Poly, i: nat)
    requires |q| == 16 && 0 <= i < 8 && !Sum(q, 16, 0, i)
    ensures TwoByte(q, i)
  {
    Row16(q, i);
    match i {
      case 0 =>
      case 1 =>
      case 2 =>
      case 3 =>
      case 4 =>
      case 5 =>
      case 6 =>
      case 7 =>
    }
  }

  lemma TwoByte8(q: Poly, i: nat)
    requires |q| == 16 && 8 <= i < 16 && !Sum(q, 16, 0, i)
    ensures TwoByte(q, i)
  {
    Row16(q, i);
    match i {
      case 8 =>
      case 9 =>
      case 10 =>
      case 11 =>
      case 12 =>
      case 13 =>
      case 14 =>
      case 15 =>
    }
  }

  lemma TwoByteSolution(q: Poly)
    requires |q| == 16 && forall i :: 0 <= i < 16 ==> TwoByte(q, i)
    ensures forall i :: 0 <= i < 16 ==> q[i] == (q[0] && UNSEEN_QUOTIENT[i])
  {
    assert TwoByte(q, 0) && TwoByte(q, 1) && TwoByte(q, 2) && TwoByte(q, 3);
    assert TwoByte(q, 4) && TwoByte(q, 5) && TwoByte(q, 6) && TwoByte(q, 7);
    assert TwoByte(q, 8) && TwoByte(q, 9) && TwoByte(q, 10) && TwoByte(q, 11);
    assert TwoByte(q, 12) && TwoByte(q, 13) && TwoByte(q, 14) && TwoByte(q, 15);
  }

  /** Coefficient i of the product of the generator and a quotient of 24 bits vanishes. */
  predicate ThreeByte(q: Poly, i: nat)
    requires |q| == 24 && i < 24
  {
    match i
    case 0 => (q[0] <==> q[2] <==> q[3] <==> q[4] <==> q[8] <==> q[14] <==> q[15] <==> q[18])
    case 1 => !(q[0] <==> q[1] <==> q[3] <==> q[4] <==> q[5] <==> q[9] <==> q[15] <==> q[16] <==> q[19])
    case 2 => !(q[1] <==> q[2] <==> q[4] <==> q[5] <==> q[6] <==> q[10] <==> q[16] <==> q[17] <==> q[20])
    case 3 => (q[0] <==> q[2] <==> q[3] <==> q[5] <==> q[6] <==> q[7] <==> q[11] <==> q[17] <==> q[18] <==> q[21])
    case 4 =>
      var front := q[0] <==> q[1] <==> q[3] <==> q[4] <==> q[6];
      !(front <==> q[7] <==> q[8] <==> q[12] <==> q[18] <==> q[19] <==> q[22])
    case 5 =>
      var front := q[1] <==> q[2] <==> q[4] <==> q[5] <==> q[7];
      !(front <==> q[8] <==> q[9] <==> q[13] <==> q[19] <==> q[20] <==> q[23])
    case 6 =>
      var front := q[0] <==> q[2] <==> q[3] <==> q[5] <==> q[6];
      !(front <==> q[8] <==> q[9] <==> q[10] <==> q[14] <==> q[20] <==> q[21])
    case 7 =>
      var front := q[0] <==> q[1] <==> q[3] <==> q[4] <==> q[6] <==> q[7];
      (front <==> q[9] <==> q[10] <==> q[11] <==> q[15] <==> q[21] <==> q[22])
    case 8 =>
      var front := q[0] <==> q[1] <==> q[2] <==> q[4] <==> q[5] <==> q[7];
      !(front <==> q[8] <==> q[10] <==> q[11] <==> q[12] <==> q[16] <==> q[22] <==> q[23])
    case 9 =>
      var front := q[1] <==> q[2] <==> q[3] <==> q[5] <==> q[6] <==> q[8];
      (front <==> q[9] <==> q[11] <==> q[12] <==> q[13] <==> q[17] <==> q[23])
    case 10 =>
      var front := q[2] <==> q[3] <==> q[4] <==> q[6] <==> q[7];
      !(front <==> q[9] <==> q[10] <==> q[12] <==> q[13] <==> q[14] <==> q[18])
    case 11 =>
      var front := q[3] <==> q[4] <==> q[5] <==> q[7] <==> q[8];
      !(front <==> q[10] <==> q[11] <==> q[13] <==> q[14] <==> q[15] <==> q[19])
    case 12 =>
      var front := q[4] <==> q[5] <==> q[6] <==> q[8] <==> q[9];
      !(front <==> q[11] <==> q[12] <==> q[14] <==> q[15] <==> q[16] <==> q[20])
    case 13 =>
      var front := q[5] <==> q[6] <==> q[7] <==> q[9] <==> q[10];
      !(front <==> q[12] <==> q[13] <==> q[15] <==> q[16] <==> q[17] <==> q[21])
    case 14 =>
      var front := q[6] <==> q[7] <==> q[8] <==> q[10] <==> q[11];
      !(front <==> q[13] <==> q[14] <==> q[16] <==> q[17] <==> q[18] <==> q[22])
    case 15 =>
      var front := q[7] <==> q[8] <==> q[9] <==> q[11] <==> q[12];
      !(front <==> q[14] <==> q[15] <==> q[17] <==> q[18] <==> q[19] <==> q[23])
    case 16 => (q[8] <==> q[9] <==> q[10] <==> q[12] <==> q[13] <==> q[15] <==> q[16] <==> q[18] <==> q[19] <==> q[20])
    case 17 => (q[9] <==> q[10] <==> q[11] <==> q[13] <==> q[14] <==> q[16] <==> q[17] <==> q[19] <==> q[20] <==> q[21])
    case 18 =>
      var front := q[10] <==> q[11] <==> q[12] <==> q[14] <==> q[15];
      (front <==> q[17] <==> q[18] <==> q[20] <==> q[21] <==> q[22])
    case 19 =>
      var front := q[11] <==> q[12] <==> q[13] <==> q[15] <==> q[16];
      (front <==> q[18] <==> q[19] <==> q[21] <==> q[22] <==> q[23])
    case 20 => !(q[12] <==> q[13] <==> q[14] <==> q[16] <==> q[17] <==> q[19] <==> q[20] <==> q[22] <==> q[23])
    case 21 => (q[13] <==> q[14] <==> q[15] <==> q[17] <==> q[18] <==> q[20] <==> q[21] <==> q[23])
    case 22 => !(q[14] <==> q[15] <==> q[16] <==> q[18] <==> q[19] <==> q[21] <==> q[22])
    case 23 => !(q[15] <==> q[16] <==> q[17] <==> q[19] <==> q[20] <==> q[22] <==> q[23])
  }

  lemma ThreeByte0(q: Poly, i: nat)
    requires |q| == 24 && 0 <= i < 8 && !Sum(q, 24, 0, i)
    ensures ThreeByte(q, i)
  {
    Row24(q, i);
    match i {
      case 0 =>
      case 1 =>
      case 2 =>
      case 3 =>
      case 4 =>
      case 5 =>
      case 6 =>
      case 7 =>
    }
  }

  lemma ThreeByte8(q: Poly, i: nat)
    requires |q| == 24 && 8 <= i < 16 && !Sum(q, 24, 0, i)
    ensures ThreeByte(q, i)
  {
    Row24(q, i);
    match i {
      case 8 =>
      case 9 =>
      case 10 =>
      case 11 =>
      case 12 =>
      case 13 =>
      case 14 =>
      case 15 =>
    }
  }

  lemma ThreeByte16(q: Poly, i: nat)
    requires |q| == 24 && 16 <= i < 24 && !Sum(q, 24, 0, i)
    ensures ThreeByte(q, i)
  {
    Row24(q, i);
    match i {
      case 16 =>
      case 17 =>
      case 18 =>
      case 19 =>
      case 20 =>
      case 21 =>
      case 22 =>
      case 23 =>
    }
  }

  /** Elimination in three blocks of eight: the middle of the quotient from its end, its beginning
      from its end, and the end alone. */
  predicate MiddleFromEnd(q: Poly)
    requires |q| == 24
  {
    && !(q[8] <==> q[17] <==> q[18] <==> q[21] <==> q[23])
    && (q[9] <==> q[16] <==> q[17] <==> q[19] <==> q[20] <==> q[21] <==> q[22] <==> q[23])
    && !(q[10] <==> q[17] <==> q[18] <==> q[20] <==> q[21] <==> q[22] <==> q[23])
    && (q[11] <==> q[16] <==> q[17] <==> q[19] <==> q[20] <==> q[22])
    && (q[12] <==> q[17] <==> q[18] <==> q[20] <==> q[21] <==> q[23])
    && !(q[13] <==> q[16] <==> q[17] <==> q[19] <==> q[20] <==> q[22] <==> q[23])
    && (q[14] <==> q[17] <==> q[18] <==> q[20] <==> q[21] <==> q[23])
    && !(q[15] <==> q[16] <==> q[17] <==> q[19] <==> q[20] <==> q[22] <==> q[23])
  }

  predicate FrontFromEnd(q: Poly)
    requires |q| == 24
  {
    && !(q[0] <==> q[16] <==> q[17] <==> q[19] <==> q[21] <==> q[22] <==> q[23])
    && (q[1] <==> q[17] <==> q[18] <==> q[20] <==> q[22] <==> q[23])
    && !(q[2] <==> q[18] <==> q[19] <==> q[21] <==> q[23])
    && (q[3] <==> q[19] <==> q[20] <==> q[22])
    && (q[4] <==> q[16] <==> q[17] <==> q[18])
    && (q[5] <==> q[16] <==> q[19] <==> q[20] <==> q[21] <==> q[23])
    && !(q[6] <==> q[17] <==> q[20] <==> q[21] <==> q[22])
    && !(q[7] <==> q[16] <==> q[17] <==> q[20] <==> q[22])
  }

  lemma EliminateMiddle(q: Poly)
    requires |q| == 24
    requires ThreeByte(q, 16) && ThreeByte(q, 17) && ThreeByte(q, 18) && ThreeByte(q, 19)
    requires ThreeByte(q, 20) && ThreeByte(q, 21) && ThreeByte(q, 22) && ThreeByte(q, 23)
    ensures MiddleFromEnd(q)
  {
  }

  lemma EliminateFront(q: Poly)
    requires |q| == 24 && MiddleFromEnd(q)
    requires ThreeByte(q, 8) && ThreeByte(q, 9) && ThreeByte(q, 10) && ThreeByte(q, 11)
    requires ThreeByte(q, 12) && ThreeByte(q, 13) && ThreeByte(q, 14) && ThreeByte(q, 15)
    ensures FrontFromEnd(q)
  {
  }

  lemma EliminateEnd(q: Poly)
    requires |q| == 24 && MiddleFromEnd(q) && FrontFromEnd(q)
    requires ThreeByte(q, 0) && ThreeByte(q, 1) && ThreeByte(q, 2) && ThreeByte(q, 3)
    requires ThreeByte(q, 4) && ThreeByte(q, 5) && ThreeByte(q, 6) && ThreeByte(q, 7)
    ensures !q[16] && !q[17] && !q[18] && !q[19] && !q[20] && !q[21] && !q[22] && !q[23]
  {
  }

  lemma ThreeByteSolved(q: Poly)
    requires |q| == 24
    requires ThreeByte(q, 0) && ThreeByte(q, 1) && ThreeByte(q, 2) && ThreeByte(q, 3)
    requires ThreeByte(q, 4) && ThreeByte(q, 5) && ThreeByte(q, 6) && ThreeByte(q, 7)
    requires ThreeByte(q, 8) && ThreeByte(q, 9) && ThreeByte(q, 10) && ThreeByte(q, 11)
    requires ThreeByte(q, 12) && ThreeByte(q, 13) && ThreeByte(q, 14) && ThreeByte(q, 15)
    requires ThreeByte(q, 16) && ThreeByte(q, 17) && ThreeByte(q, 18) && ThreeByte(q, 19)
    requires ThreeByte(q, 20) && ThreeByte(q, 21) && ThreeByte(q, 22) && ThreeByte(q, 23)
    ensures !q[0] && !q[1] && !q[2] && !q[3] && !q[4] && !q[5] && !q[6] && !q[7]
    ensures !q[8] && !q[9] && !q[10] && !q[11] && !q[12] && !q[13] && !q[14] && !q[15]
    ensures !q[16] && !q[17] && !q[18] && !q[19] && !q[20] && !q[21] && !q[22] && !q[23]
  {
    EliminateMiddle(q);
    EliminateFront(q);
    EliminateEnd(q);
  }

  lemma ThreeByteSolution(q: Poly)
    requires |q| == 24 && forall i :: 0 <= i < 24 ==> ThreeByte(q, i)
    ensures forall i :: 0 <= i < 24 ==> !q[i]
  {
    ThreeByteSolved(q);
  }

  // ---- The pattern that goes unseen ----------------------------------------------------------

  const ONE_BYTE: Poly := [true, false, false, false, false, true, true, false]
  const NEXT_BYTE: Poly := [false, false, false, true, true, false, true, true]
  const FIRST_CHECK: Poly := [false, false, true, false, true, true, true, true]
  const SECOND_CHECK: Poly := [false, true, true, true, false, true, true, true]

  /** The last two covered bytes, in transmission order, and the rest of the register. */
  const UNSEEN: Poly := ONE_BYTE + NEXT_BYTE

  lemma BitsOf61()
    ensures ByteBits(0x61) == ONE_BYTE
  {
  }

  lemma BitsOfD8()
    ensures ByteBits(0xD8) == NEXT_BYTE
  {
  }

  lemma BitsOfF4()
    ensures ByteBits(0xF4) == FIRST_CHECK
  {
  }

  lemma BitsOfEE()
    ensures ByteBits(0xEE) == SECOND_CHECK
  {
  }

  lemma NextLeads(r: Poly, r': Poly, n: nat)
    requires |r| == 32 && n > 0 && r' == TimesX(r, GENERATOR)
    ensures Leads(r, n) == [r[0]] + Leads(r', n - 1)
  {
  }

  lemma {:induction false} LeadAt(r: Poly, n: nat, t: nat)
    requires |r| == 32 && t < n
    ensures Leads(r, n)[t] == TimesXn(r, t)[0] && Leads(r, n)[..t] == Leads(r, t)
    decreases n
  {
    if t > 0 {
      var r' := TimesX(r, GENERATOR);
      LeadAt(r', n - 1, t - 1);
      NextLeads(r, r', n);
      NextLeads(r, r', t);
      assert TimesXn(r, t) == TimesXn(r', t - 1);
    }
  }

  lemma {:induction false} SumInFront(q: Poly, n: nat, t: nat)
    requires |q| == n >= t && n < 16
    ensures Sum(q, n, t, 0) ==
            ((t + 6 <= n && q[n - 6]) != ((t + 9 <= n && q[n - 9]) != (t + 10 <= n && q[n - 10])))
    decreases n - t
  {
    if t < n {
      SumInFront(q, n, t + 1);
    }
  }

  /** Quotient bit t from the dividend and the bits before it. */
  predicate Follows(q: Poly, r: Poly, t: nat)
    requires |q| == 16 && |r| >= 16 && t < 16
  {
    q[t] == (r[t] != ((6 <= t && q[t - 6]) != ((9 <= t && q[t - 9]) != (10 <= t && q[t - 10]))))
  }

  lemma LeadsFollow(r: Poly, t: nat, n: nat)
    requires |r| == 32 && t < n == 16
    ensures Follows(Leads(r, n), r, t)
  {
    LeadAt(r, n, t);
    Unrolled(r, t, 0);
    LeadsInFront(Leads(r, n), Leads(r, t), t);
  }

  lemma LeadsInFront(q: Poly, p: Poly, t: nat)
    requires |q| == 16 && t < 16 && |p| == t && q[..t] == p
    ensures Sum(p, t, 0, 0) == ((6 <= t && q[t - 6]) != ((9 <= t && q[t - 9]) != (10 <= t && q[t - 10])))
  {
    SumInFront(p, t, 0);
    assert forall u :: 0 <= u < t ==> p[u] == q[u];
  }

  lemma UnseenFollows(q: Poly, r: Poly)
    requires |q| == 16 && |r| == 16 && (forall t :: 0 <= t < 16 ==> Follows(q, r, t))
    requires r[0] && !r[1] && !r[2] && !r[3] && !r[4] && r[5] && r[6] && !r[7]
    requires !r[8] && !r[9] && !r[10] && r[11] && r[12] && !r[13] && r[14] && r[15]
    ensures q[0] && !q[1] && !q[2] && !q[3] && !q[4] && q[5] && !q[6] && !q[7]
    ensures !q[8] && q[9] && q[10] && !q[11] && q[12] && !q[13] && !q[14] && q[15]
  {
    assert Follows(q, r, 0) && Follows(q, r, 1) && Follows(q, r, 2) && Follows(q, r, 3);
    assert Follows(q, r, 4) && Follows(q, r, 5) && Follows(q, r, 6) && Follows(q, r, 7);
    assert Follows(q, r, 8) && Follows(q, r, 9) && Follows(q, r, 10) && Follows(q, r, 11);
    assert Follows(q, r, 12) && Follows(q, r, 13) && Follows(q, r, 14) && Follows(q, r, 15);
  }

  lemma UnseenBits()
    ensures var r := UNSEEN;
            && |r| == 16
            && r[0] && !r[1] && !r[2] && !r[3] && !r[4] && r[5] && r[6] && !r[7]
            && !r[8] && !r[9] && !r[10] && r[11] && r[12] && !r[13] && r[14] && r[15]
  {
  }

  lemma UnseenFollowed(q: Poly)
    requires |q| == 16 && |UNSEEN| == 16 && forall t :: 0 <= t < 16 ==> Follows(q, UNSEEN, t)
    ensures q == UNSEEN_QUOTIENT
  {
    UnseenBits();
    UnseenFollows(q, UNSEEN);
  }

  lemma UnseenQuotient(r: Poly, n: nat)
    requires |r| == 32 && n == 16 && r[..n] == UNSEEN
    ensures Leads(r, n) == UNSEEN_QUOTIENT
  {
    UnseenBits();
    var front, q := UNSEEN, Leads(r, n);
    forall t | 0 <= t < n ensures Follows(q, front, t) {
      LeadsFollow(r, t, n);
      assert r[t] == r[..n][t];
    }
    UnseenFollowed(q);
  }

  lemma UnseenSum(i: nat)
    requires 16 <= i < 32
    ensures Sum(UNSEEN_QUOTIENT, 16, 0, i) == (if i < 24 then SECOND_CHECK[i - 16] else FIRST_CHECK[i - 24])
  {
    UnseenRow(UNSEEN_QUOTIENT, i);
  }

  /** Coefficients 16 to 31 of the product of the generator and this quotient. */
  lemma UnseenRow(q: Poly, i: nat)
    requires |q| == 16 && 16 <= i < 32
    requires q[0] && !q[1] && !q[2] && !q[3] && !q[4] && q[5] && !q[6] && !q[7]
    requires !q[8] && q[9] && q[10] && !q[11] && q[12] && !q[13] && !q[14] && q[15]
    ensures Sum(q, 16, 0, i) == (if i < 24 then SECOND_CHECK[i - 16] else FIRST_CHECK[i - 24])
  {
    SumOfEight(q, 16, 0, i);
    SumOfEight(q, 16, 8, i);
    UnseenTerms(i);
  }

  lemma UnseenTerms(i: nat)
    requires 16 <= i < 32
    ensures ((((i + 16 <= 32 && Term(i + 16)) != (i + 11 <= 32 && Term(i + 11)))
              != ((i + 7 <= 32 && Term(i + 7)) != (i + 6 <= 32 && Term(i + 6))))
             != ((i + 4 <= 32 && Term(i + 4)) != (i + 1 <= 32 && Term(i + 1))))
            == (if i < 24 then SECOND_CHECK[i - 16] else FIRST_CHECK[i - 24])
  {
    if i < 24 { SecondCheckBit(i - 16); } else { FirstCheckBit(i - 24); }
  }

  lemma SecondCheckBit(k: nat)
    requires k < 8
    ensures SECOND_CHECK[k] == (k == 1 || k == 2 || k == 3 || k == 5 || k == 6 || k == 7)
  {
  }

  lemma FirstCheckBit(k: nat)
    requires k < 8
    ensures FIRST_CHECK[k] == (k == 2 || k == 4 || k == 5 || k == 6 || k == 7)
  {
  }

  /** The effect of a change of n leading coefficients on the remainder, n multiplications on. */
  function Effect(d: Poly): (t: Poly)
    requires |d| <= 32
    ensures |t| == 32
  {
    TimesXn(d + Zeros(32 - |d|), |d|)
  }

  lemma {:induction false} ZeroLeads(n: nat)
    ensures Leads(Zeros(32), n) == Zeros(n)
    decreases n
  {
    if n > 0 {
      assert TimesX(Zeros(32), GENERATOR) == Zeros(32);
      ZeroLeads(n - 1);
    }
  }

  lemma EffectIsSum(d: Poly, i: nat)
    requires |d| <= 32 && i < 32
    ensures Effect(d)[i] == Sum(Leads(d + Zeros(32 - |d|), |d|), |d|, 0, i)
  {
    Unrolled(d + Zeros(32 - |d|), |d|, i);
  }

  lemma UnseenEffect()
    ensures |UNSEEN| == 16 && Effect(UNSEEN) == Zeros(16) + (SECOND_CHECK + FIRST_CHECK)
  {
    UnseenBits();
    var d := UNSEEN;
    var r := d + Zeros(16);
    assert r[..16] == d;
    UnseenQuotient(r, 16);
    forall i | 0 <= i < 32 ensures Effect(d)[i] == (Zeros(16) + (SECOND_CHECK + FIRST_CHECK))[i] {
      EffectIsSum(d, i);
      if i >= 16 {
        UnseenSum(i);
      } else {
        UnseenVanishes(i);
      }
    }
  }

  lemma UnseenVanishes(i: nat)
    requires i < 16
    ensures !Sum(UNSEEN_QUOTIENT, 16, 0, i)
  {
    UnseenRowVanishes(UNSEEN_QUOTIENT, i);
  }

  lemma UnseenRowVanishes(q: Poly, i: nat)
    requires |q| == 16 && i < 16
    requires q[0] && !q[1] && !q[2] && !q[3] && !q[4] && q[5] && !q[6] && !q[7]
    requires !q[8] && q[9] && q[10] && !q[11] && q[12] && !q[13] && !q[14] && q[15]
    ensures !Sum(q, 16, 0, i)
  {
    SumOfEight(q, 16, 0, i);
    SumOfEight(q, 16, 8, i);
  }

  /** The product with the generator has nothing in its n coefficients after the leading n. */
  ghost predicate Vanishes(q: Poly, n: nat)
    requires |q| == n
  {
    forall i :: 0 <= i < n ==> !Sum(q, n, 0, i)
  }

  lemma QuotientIsUnseen(q: Poly, n: nat)
    requires |q| == n && (n == 8 || n == 16 || n == 24) && Vanishes(q, n)
    ensures q == Zeros(n) || (n == 16 && q == UNSEEN_QUOTIENT)
  {
    if n == 8 {
      forall i | 0 <= i < 8 ensures OneByte(q, i) { OneByte0(q, i); }
      OneByteSolution(q);
    } else if n == 16 {
      forall i | 0 <= i < 16 ensures TwoByte(q, i) { if i < 8 { TwoByte0(q, i); } else { TwoByte8(q, i); } }
      TwoByteSolution(q);
    } else {
      forall i | 0 <= i < 24 ensures ThreeByte(q, i) {
        if i < 8 { ThreeByte0(q, i); } else if i < 16 { ThreeByte8(q, i); } else { ThreeByte16(q, i); }
      }
      ThreeByteSolution(q);
    }
  }

  lemma SamePrefix(d: Poly, p: Poly, r: Poly, u: Poly)
    requires |d| == |p| <= |r| && |p| <= |u| && r[..|d|] == d && u[..|p|] == p
    requires forall k :: 0 <= k < |d| ==> r[k] == u[k]
    ensures d == p
  {
    assert forall k :: 0 <= k < |d| ==> d[k] == r[k] && p[k] == u[k];
  }

  lemma SameQuotient(d: Poly, p: Poly, r: Poly, u: Poly, n: nat)
    requires |r| == |u| == 32 && |d| == |p| == n <= 32 && r[..n] == d && u[..n] == p
    requires Leads(r, n) == Leads(u, n)
    ensures d == p
  {
    LeadsDetermine(r, u, n);
    SamePrefix(d, p, r, u);
  }

  lemma ZeroQuotient(d: Poly, r: Poly, n: nat)
    requires |r| == 32 && |d| == n <= 32 && r[..n] == d && Leads(r, n) == Zeros(n)
    ensures d == Zeros(n)
  {
    ZeroLeads(n);
    SameQuotient(d, Zeros(n), r, Zeros(32), n);
  }

  lemma PatternQuotient(d: Poly, r: Poly, n: nat)
    requires |r| == 32 && |d| == n == 16 && r[..n] == d && Leads(r, n) == UNSEEN_QUOTIENT
    ensures d == UNSEEN
  {
    UnseenBits();
    var p := UNSEEN;
    var u := p + Zeros(16);
    UnseenQuotient(u, n);
    SameQuotient(d, p, r, u, n);
  }

  lemma QuotientDecides(d: Poly, r: Poly, n: nat)
    requires n == 8 || n == 16 || n == 24
    requires |r| == 32 && |d| == n && r[..n] == d && Vanishes(Leads(r, n), n)
    ensures d == Zeros(n) || d == UNSEEN
  {
    QuotientIsUnseen(Leads(r, n), n);
    if Leads(r, n) == Zeros(n) {
      ZeroQuotient(d, r, n);
    } else {
      PatternQuotient(d, r, n);
    }
  }

  /** A change of the last one, two or three covered bytes that leaves as many bytes of the check
      alone is no change, or the one unseen pattern. */
  lemma VanishingEffect(d: Poly)
    requires |d| == 8 || |d| == 16 || |d| == 24
    requires forall i :: 0 <= i < |d| ==> !Effect(d)[i]
    ensures d == Zeros(|d|) || d == UNSEEN
  {
    var n, r := |d|, d + Zeros(32 - |d|);
    forall i | 0 <= i < n ensures !Sum(Leads(r, n), n, 0, i) {
      EffectIsSum(d, i);
    }
    QuotientDecides(d, r, n);
  }
}
