/** src/link.c, mcl_link_crc32: a register shifted right once per bit, and what it computes:
    the CRC of section 3.2.9 of IEEE 802.3. The register is a number below 2^32; shifting it
    right halves it, and exclusive or is taken bit by bit. */
module Crc32 {
  import opened Words
  import opened Polynomial

  const POLYNOMIAL: u32 := 0xEDB8_8320
  const ALL_ONES: u32 := 0xFFFF_FFFF

  function Pow2(n: nat): (r: nat)
    ensures r > 0
  {
    if n == 0 then 1 else 2 * Pow2(n - 1)
  }

  /** The n low bits of a number, least significant first. */
  function NumberBits(v: nat, n: nat): (p: Poly)
    ensures |p| == n
  {
    if n == 0 then [] else [v % 2 == 1] + NumberBits(v / 2, n - 1)
  }

  /** The number with the given bits, least significant first. */
  function Value(bits: Poly): nat {
    if bits == [] then 0 else (if bits[0] then 1 else 0) + 2 * Value(bits[1..])
  }

  /** Exclusive or of the n low bits. */
  function XorBits(a: nat, b: nat, n: nat): (r: nat)
    ensures r < Pow2(n)
  {
    if n == 0 then 0
    else (if a % 2 != b % 2 then 1 else 0) + 2 * XorBits(a / 2, b / 2, n - 1)
  }

  lemma Pow2Of32()
    ensures Pow2(32) == 0x1_0000_0000 && Pow2(8) == 0x100
  {
    assert Pow2(8) == 0x100;
    Pow2Adds(8, 8);
    Pow2Adds(16, 16);
  }

  lemma {:induction false} Pow2Adds(m: nat, n: nat)
    ensures Pow2(m + n) == Pow2(m) * Pow2(n)
  {
    if m > 0 {
      Pow2Adds(m - 1, n);
      assert Pow2(m - 1 + n) * 2 == Pow2(m - 1) * 2 * Pow2(n);
    }
  }

  function Xor(a: u32, b: u32): u32 {
    Pow2Of32();
    XorBits(a, b, 32)
  }

  /** One round of the inner loop: shift, and fold the polynomial in when a one falls out. */
  function Round(c: u32): u32 {
    if c % 2 == 1 then Xor(c / 2, POLYNOMIAL) else c / 2
  }

  function Rounds(c: u32, n: nat): u32
    decreases n
  {
    if n == 0 then c else Rounds(Round(c), n - 1)
  }

  /** The register after the bytes of `data`. */
  function Register(data: seq<u8>): u32 {
    if data == [] then ALL_ONES
    else Rounds(Xor(Register(data[..|data| - 1]), data[|data| - 1]), 8)
  }

  function Crc(data: seq<u8>): u32 {
    ALL_ONES - Register(data)
  }

  lemma {:induction false} RoundsSnoc(c: u32, n: nat)
    ensures Rounds(c, n + 1) == Round(Rounds(c, n))
    decreases n
  {
    if n > 0 {
      RoundsSnoc(Round(c), n - 1);
    }
  }

  /** The loop of the source. Its mask is all ones or all zeros, so and-ing the polynomial
      with it takes the polynomial or nothing. */
  method ComputeCrc(data: seq<u8>) returns (crc: u32)
    ensures crc == Crc(data)
  {
    crc := ALL_ONES;
    for i := 0 to |data|
      invariant crc == Register(data[..i])
    {
      crc := Xor(crc, data[i]);
      ghost var start := crc;
      for bit := 0 to 8
        invariant crc == Rounds(start, bit)
      {
        RoundsSnoc(start, bit);
        var mask := if crc % 2 == 1 then POLYNOMIAL else 0;
        XorZero(crc / 2);
        crc := Xor(crc / 2, mask);
      }
      assert data[..i + 1][..i] == data[..i];
    }
    assert data[..|data|] == data;
    crc := ALL_ONES - crc;
  }

  // ---- Numbers as bits ---------------------------------------------------------

  lemma {:induction false} XorBitsZero(a: nat, n: nat)
    requires a < Pow2(n)
    ensures XorBits(a, 0, n) == a
  {
    if n > 0 {
      XorBitsZero(a / 2, n - 1);
    }
  }

  lemma XorZero(a: u32)
    ensures Xor(a, 0) == a
  {
    Pow2Of32();
    XorBitsZero(a, 32);
  }

  lemma {:induction false} BitsOfXor(a: nat, b: nat, n: nat)
    ensures NumberBits(XorBits(a, b, n), n) == Add(NumberBits(a, n), NumberBits(b, n))
  {
    if n > 0 {
      BitsOfXor(a / 2, b / 2, n - 1);
      assert XorBits(a, b, n) / 2 == XorBits(a / 2, b / 2, n - 1);
    }
  }

  lemma {:induction false} BitsOfZero(n: nat)
    ensures NumberBits(0, n) == Zeros(n)
  {
    if n > 0 {
      BitsOfZero(n - 1);
    }
  }

  /** A number below 2^m has nothing but zeros above its m low bits. */
  lemma {:induction false} BitsAbove(v: nat, m: nat, n: nat)
    requires v < Pow2(m)
    ensures NumberBits(v, m + n) == NumberBits(v, m) + Zeros(n)
  {
    if m == 0 {
      BitsOfZero(n);
    } else {
      BitsAbove(v / 2, m - 1, n);
    }
  }

  /** A number is determined by its bits. */
  lemma {:induction false} BitsDetermine(v: nat, w: nat, n: nat)
    requires v < Pow2(n) && w < Pow2(n) && NumberBits(v, n) == NumberBits(w, n)
    ensures v == w
  {
    if n > 0 {
      assert NumberBits(v, n)[0] == NumberBits(w, n)[0];
      assert NumberBits(v / 2, n - 1) == NumberBits(v, n)[1..] == NumberBits(w, n)[1..] == NumberBits(w / 2, n - 1);
      BitsDetermine(v / 2, w / 2, n - 1);
    }
  }

  lemma {:induction false} BitsOfComplement(v: nat, w: nat, n: nat)
    requires v + w == Pow2(n) - 1
    ensures NumberBits(w, n) == Add(NumberBits(v, n), Ones(n))
  {
    if n > 0 {
      Halves(v, w, Pow2(n - 1));
      BitsOfComplement(v / 2, w / 2, n - 1);
    }
  }

  lemma Halves(v: nat, w: nat, p: nat)
    requires v + w == 2 * p - 1
    ensures v / 2 + w / 2 == p - 1 && v % 2 != w % 2
  {
  }

  lemma {:induction false} BitsOfValue(bits: Poly)
    ensures NumberBits(Value(bits), |bits|) == bits
  {
    if bits != [] {
      BitsOfValue(bits[1..]);
      assert Value(bits) / 2 == Value(bits[1..]);
    }
  }

  // ---- The register as a polynomial ----------------------------------------------

  /** The generator, highest degree first: x^32, then the coefficients of degree 31 to 0. */
  const GENERATOR: Poly := [true] + (G31 + (G23 + (G15 + G7)))
  const G31: Poly := [false, false, false, false, false, true, false, false]
  const G23: Poly := [true, true, false, false, false, false, false, true]
  const G15: Poly := [false, false, false, true, true, true, false, true]
  const G7: Poly := [true, false, true, true, false, true, true, true]

  /** It is x^32 + x^26 + x^23 + x^22 + x^16 + x^12 + x^11 + x^10 + x^8 + x^7 + x^5 + x^4
      + x^2 + x + 1. */
  lemma GeneratorExponents(degree: nat)
    requires degree <= 32
    ensures GENERATOR[32 - degree] <==> degree in {32, 26, 23, 22, 16, 12, 11, 10, 8, 7, 5, 4, 2, 1, 0}
  {
  }

  /** The remainder a register stands for: its lowest bit is the coefficient of x^31. */
  function Coefficients(c: u32): (p: Poly)
    ensures |p| == 32
  {
    NumberBits(c, 32)
  }

  function One(b: bool): nat {
    if b then 1 else 0
  }

  lemma NibbleValue(b: Poly)
    requires |b| >= 4
    ensures Value(b) == One(b[0]) + 2 * One(b[1]) + 4 * One(b[2]) + 8 * One(b[3]) + 16 * Value(b[4..])
  {
    assert Value(b[3..]) == One(b[3]) + 2 * Value(b[4..]);
    assert Value(b[2..]) == One(b[2]) + 2 * Value(b[3..]);
    assert Value(b[1..]) == One(b[1]) + 2 * Value(b[2..]);
  }

  lemma ByteValue(b: Poly)
    requires |b| == 8
    ensures Value(b) == One(b[0]) + 2 * One(b[1]) + 4 * One(b[2]) + 8 * One(b[3])
                        + 16 * One(b[4]) + 32 * One(b[5]) + 64 * One(b[6]) + 128 * One(b[7])
  {
    NibbleValue(b);
    NibbleValue(b[4..]);
  }

  lemma ValueAfterByte(a: Poly, b: Poly)
    requires |a| == 8
    ensures Value(a + b) == Value(a) + 0x100 * Value(b)
  {
    NibbleValue(a + b);
    NibbleValue((a + b)[4..]);
    assert (a + b)[4..][4..] == b;
    ByteValue(a);
  }

  predicate Spells(a: Poly, b0: bool, b1: bool, b2: bool, b3: bool, b4: bool, b5: bool, b6: bool, b7: bool) {
    |a| == 8 && a[0] == b0 && a[1] == b1 && a[2] == b2 && a[3] == b3
    && a[4] == b4 && a[5] == b5 && a[6] == b6 && a[7] == b7
  }

  lemma GeneratorBytes(a: Poly, b: Poly, c: Poly, d: Poly)
    requires Spells(a, false, false, false, false, false, true, false, false)
    requires Spells(b, true, true, false, false, false, false, false, true)
    requires Spells(c, false, false, false, true, true, true, false, true)
    requires Spells(d, true, false, true, true, false, true, true, true)
    ensures Value(a) == 0x20 && Value(b) == 0x83 && Value(c) == 0xB8 && Value(d) == 0xED
  {
    ByteValue(a);
    ByteValue(b);
    ByteValue(c);
    ByteValue(d);
  }

  lemma GeneratorValue(a: Poly, b: Poly, c: Poly, d: Poly)
    requires Spells(a, false, false, false, false, false, true, false, false)
    requires Spells(b, true, true, false, false, false, false, false, true)
    requires Spells(c, false, false, false, true, true, true, false, true)
    requires Spells(d, true, false, true, true, false, true, true, true)
    ensures Value(a + (b + (c + d))) == POLYNOMIAL
  {
    GeneratorBytes(a, b, c, d);
    ValueAfterByte(c, d);
    ValueAfterByte(b, c + d);
    ValueAfterByte(a, b + (c + d));
  }

  /** The constant of the source is the generator without its leading term, read backwards. */
  lemma PolynomialIsGenerator()
    ensures Coefficients(POLYNOMIAL) == GENERATOR[1..]
  {
    var a, b, c, d := G31, G23, G15, G7;
    GeneratorValue(a, b, c, d);
    BitsOfValue(a + (b + (c + d)));
    assert GENERATOR[1..] == a + (b + (c + d));
  }

  // ---- Refinement: the loop computes a polynomial remainder ------------------------

  lemma CoefficientsOfXor(a: u32, b: u32)
    ensures Coefficients(Xor(a, b)) == Add(Coefficients(a), Coefficients(b))
  {
    BitsOfXor(a, b, 32);
  }

  lemma CoefficientsBelow(v: u32, m: nat)
    requires m <= 32 && v < Pow2(m)
    ensures Coefficients(v) == NumberBits(v, m) + Zeros(32 - m)
  {
    BitsAbove(v, m, 32 - m);
  }

  /** One round multiplies the remainder by x. */
  lemma RoundIsTimesX(c: u32)
    ensures Coefficients(Round(c)) == TimesX(Coefficients(c), GENERATOR)
  {
    Pow2Of32();
    CoefficientsBelow(c / 2, 31);
    assert Zeros(1) == [false];
    assert Coefficients(c)[1..] == NumberBits(c / 2, 31);
    PolynomialIsGenerator();
    CoefficientsOfXor(c / 2, POLYNOMIAL);
    assert c % 2 == 0 ==> Coefficients(Round(c)) == TimesX(Coefficients(c), GENERATOR);
  }

  function TimesXn(r: Poly, n: nat): (p: Poly)
    requires |r| == 32
    ensures |p| == 32
    decreases n
  {
    if n == 0 then r else TimesXn(TimesX(r, GENERATOR), n - 1)
  }

  lemma {:induction false} RoundsAreTimesXn(c: u32, n: nat)
    ensures Coefficients(Rounds(c, n)) == TimesXn(Coefficients(c), n)
    decreases n
  {
    if n > 0 {
      RoundIsTimesX(c);
      RoundsAreTimesXn(Round(c), n - 1);
    }
  }

  /** The remainder with one message bit met at its leading end. */
  function Meet(r: Poly, b: bool): (p: Poly)
    requires |r| == 32
    ensures |p| == 32
  {
    r[0 := r[0] != b]
  }

  /** The remainder after the message bits, one at a time. */
  function Absorb(r: Poly, bits: Poly): (p: Poly)
    requires |r| == 32
    ensures |p| == 32
    decreases |bits|
  {
    if bits == [] then r else Absorb(TimesX(Meet(r, bits[0]), GENERATOR), bits[1..])
  }

  lemma {:induction false} AbsorbConcat(r: Poly, s: Poly, t: Poly)
    requires |r| == 32
    ensures Absorb(r, s + t) == Absorb(Absorb(r, s), t)
    decreases |s|
  {
    if s == [] {
      assert s + t == t;
    } else {
      assert (s + t)[1..] == s[1..] + t;
      AbsorbConcat(TimesX(Meet(r, s[0]), GENERATOR), s[1..], t);
    }
  }

  lemma TimesXIsLinear(r: Poly, s: Poly)
    requires |r| == |s| == 32
    ensures TimesX(Add(r, s), GENERATOR) == Add(TimesX(r, GENERATOR), TimesX(s, GENERATOR))
  {
  }

  /** Up to 32 bits may be met all at once and multiplied through afterwards. */
  lemma {:induction false} AbsorbAtOnce(r: Poly, bits: Poly)
    requires |r| == 32 && |bits| <= 32
    ensures Absorb(r, bits) == TimesXn(Add(r, bits + Zeros(32 - |bits|)), |bits|)
    decreases |bits|
  {
    if bits == [] {
      assert Add(r, Zeros(32)) == r;
    } else {
      var rest := bits[1..];
      var later := [false] + rest + Zeros(32 - |bits|);
      AbsorbAtOnce(TimesX(Meet(r, bits[0]), GENERATOR), rest);
      assert Add(r, bits + Zeros(32 - |bits|)) == Add(Meet(r, bits[0]), later);
      TimesXIsLinear(Meet(r, bits[0]), later);
      assert TimesX(later, GENERATOR) == rest + Zeros(32 - |rest|);
    }
  }

  /** The bits of a byte in the order they are sent, least significant first. */
  function ByteBits(b: u8): (p: Poly)
    ensures |p| == 8
  {
    NumberBits(b, 8)
  }

  /** The bits of a message. */
  function Bits(data: seq<u8>): (p: Poly)
    ensures |p| == 8 * |data|
  {
    if data == [] then [] else Bits(data[..|data| - 1]) + ByteBits(data[|data| - 1])
  }

  lemma ByteIsAbsorbed(c: u32, b: u8)
    ensures Coefficients(Rounds(Xor(c, b), 8)) == Absorb(Coefficients(c), ByteBits(b))
  {
    Pow2Of32();
    RoundsAreTimesXn(Xor(c, b), 8);
    CoefficientsOfXor(c, b);
    CoefficientsBelow(b, 8);
    AbsorbAtOnce(Coefficients(c), ByteBits(b));
  }

  lemma CoefficientsOfOnes()
    ensures Coefficients(ALL_ONES) == Ones(32)
  {
    Pow2Of32();
    BitsOfZero(32);
    BitsOfComplement(0, ALL_ONES, 32);
  }

  lemma {:induction false} RegisterAbsorbs(data: seq<u8>)
    ensures Coefficients(Register(data)) == Absorb(Ones(32), Bits(data))
  {
    if data == [] {
      CoefficientsOfOnes();
    } else {
      var before := data[..|data| - 1];
      RegisterAbsorbs(before);
      ByteIsAbsorbed(Register(before), data[|data| - 1]);
      AbsorbConcat(Ones(32), Bits(before), ByteBits(data[|data| - 1]));
    }
  }

  /** The message times x^32, with its first 32 bits complemented. */
  function Dividend(bits: Poly): (p: Poly)
    ensures |p| == |bits| + 32
  {
    Add(bits + Zeros(32), Ones(32) + Zeros(|bits|))
  }

  lemma DividendSnoc(bits: Poly, b: bool)
    ensures Dividend(bits + [b]) == Add(Dividend(bits) + [false], Zeros(|bits|) + [b] + Zeros(32))
  {
  }

  lemma AbsorbSnoc(r: Poly, bits: Poly, b: bool)
    requires |r| == 32
    ensures Absorb(r, bits + [b]) == TimesX(Meet(Absorb(r, bits), b), GENERATOR)
  {
    AbsorbConcat(r, bits, [b]);
    assert [b][1..] == [];
  }

  lemma RemainderSnoc(bits: Poly, b: bool)
    requires IsRemainder(Dividend(bits), GENERATOR, Absorb(Ones(32), bits))
    ensures IsRemainder(Dividend(bits + [b]), GENERATOR, Absorb(Ones(32), bits + [b]))
  {
    var r := Absorb(Ones(32), bits);
    var q :| Divides(Dividend(bits), GENERATOR, q, r);
    DivideOneMore(Dividend(bits), GENERATOR, q, r, b);
    DividendSnoc(bits, b);
    AbsorbSnoc(Ones(32), bits, b);
    assert Divides(Dividend(bits + [b]), GENERATOR, q + [r[0] != b], Absorb(Ones(32), bits + [b]));
  }

  lemma NothingDivides()
    ensures IsRemainder(Dividend([]), GENERATOR, Ones(32))
  {
    assert Dividend([]) == Ones(32);
    OfLowerDegree(Ones(32), GENERATOR);
  }

  lemma {:induction false} AbsorbDivides(bits: Poly)
    ensures IsRemainder(Dividend(bits), GENERATOR, Absorb(Ones(32), bits))
  {
    if bits == [] {
      NothingDivides();
    } else {
      var front, last := bits[..|bits| - 1], bits[|bits| - 1];
      assert bits == front + [last];
      AbsorbDivides(front);
      RemainderSnoc(front, last);
    }
  }

  /** The CRC of section 3.2.9 of IEEE 802.3: the complement of the remainder of the dividend
      modulo the generator. */
  ghost predicate IsCrc(data: seq<u8>, v: u32) {
    IsRemainder(Dividend(Bits(data)), GENERATOR, Add(Coefficients(v), Ones(32)))
  }

  /** For every byte string, the value of the loop is that CRC, and no other value is. */
  lemma CrcIsPolynomialRemainder(data: seq<u8>, v: u32)
    ensures IsCrc(data, v) <==> v == Crc(data)
  {
    RegisterAbsorbs(data);
    AbsorbDivides(Bits(data));
    var c := Crc(data);
    Pow2Of32();
    BitsOfComplement(Register(data), c, 32);
    assert Add(Coefficients(c), Ones(32)) == Absorb(Ones(32), Bits(data));
    if IsCrc(data, v) {
      RemainderIsUnique(Dividend(Bits(data)), GENERATOR,
                        Add(Coefficients(v), Ones(32)), Add(Coefficients(c), Ones(32)));
      CancelOnes(Coefficients(v), Coefficients(c));
      BitsDetermine(v, c, 32);
    }
  }

  lemma {:induction false} ZeroStays(n: nat)
    ensures TimesXn(Zeros(32), n) == Zeros(32)
    decreases n
  {
    if n > 0 {
      assert TimesX(Zeros(32), GENERATOR) == Zeros(32);
      ZeroStays(n - 1);
    }
  }

  lemma BitsOfFF()
    ensures ByteBits(0xFF) == Ones(8)
  {
    Pow2Of32();
    BitsOfZero(8);
    BitsOfComplement(0, 0xFF, 8);
  }

  lemma {:induction false} BitsOfFFs(n: nat)
    ensures Bits(seq(n, _ => 0xFF)) == Ones(8 * n)
  {
    if n > 0 {
      BitsOfFF();
      BitsOfFFs(n - 1);
      var s := seq(n, _ => 0xFF);
      assert s[..n - 1] == seq(n - 1, _ => 0xFF);
    }
  }

  lemma FFsCancelTheStart(data: seq<u8>)
    requires Bits(data) == Ones(32)
    ensures Coefficients(Register(data)) == Zeros(32)
  {
    var bits := Bits(data);
    RegisterAbsorbs(data);
    OnesCancel(bits);
  }

  lemma OnesCancel(bits: Poly)
    requires bits == Ones(32)
    ensures Absorb(Ones(32), bits) == Zeros(32)
  {
    var n := |bits|;
    AbsorbAtOnce(Ones(32), bits);
    assert Add(Ones(32), bits + Zeros(32 - n)) == Zeros(32);
    ZeroStays(n);
  }

  /** Two values that fix the first and the last complement: of nothing it is 0, and of four bytes
      0xFF, which cancel the first complement, 0xFFFFFFFF. */
  lemma KnownValues()
    ensures Crc([]) == 0 && Crc([0xFF, 0xFF, 0xFF, 0xFF]) == 0xFFFF_FFFF
  {
    var data := [0xFF, 0xFF, 0xFF, 0xFF];
    BitsOfFFs(4);
    assert data == seq(4, _ => 0xFF);
    FFsCancelTheStart(data);
    Pow2Of32();
    BitsOfZero(32);
    BitsDetermine(Register(data), 0, 32);
  }

  lemma CancelOnes(p: Poly, q: Poly)
    requires |p| == |q| == 32 && Add(p, Ones(32)) == Add(q, Ones(32))
    ensures p == q
  {
  }

  // ---- Burst detection ---------------------------------------------------------

  /** Multiplication by x loses nothing, because the generator ends in one. */
  lemma TimesXIsInjective(r: Poly, s: Poly)
    requires |r| == |s| == 32 && TimesX(r, GENERATOR) == TimesX(s, GENERATOR)
    ensures r == s
  {
    var g := GENERATOR;
    assert TimesX(r, g)[31] == r[0] && TimesX(s, g)[31] == s[0];
    forall i | 1 <= i < 32 ensures r[i] == s[i] {
      assert TimesX(r, g)[i - 1] == (r[i] != Scale(r[0], g[1..])[i - 1]);
      assert TimesX(s, g)[i - 1] == (s[i] != Scale(s[0], g[1..])[i - 1]);
    }
  }

  lemma {:induction false} TimesXnIsInjective(r: Poly, s: Poly, n: nat)
    requires |r| == |s| == 32 && TimesXn(r, n) == TimesXn(s, n)
    ensures r == s
    decreases n
  {
    if n > 0 {
      TimesXnIsInjective(TimesX(r, GENERATOR), TimesX(s, GENERATOR), n - 1);
      TimesXIsInjective(r, s);
    }
  }

  lemma {:induction false} AbsorbIsInjective(r: Poly, s: Poly, bits: Poly)
    requires |r| == |s| == 32 && Absorb(r, bits) == Absorb(s, bits)
    ensures r == s
    decreases |bits|
  {
    if bits != [] {
      AbsorbIsInjective(TimesX(Meet(r, bits[0]), GENERATOR), TimesX(Meet(s, bits[0]), GENERATOR), bits[1..]);
      TimesXIsInjective(Meet(r, bits[0]), Meet(s, bits[0]));
      assert Meet(r, bits[0])[0] == Meet(s, bits[0])[0];
      assert forall i :: 1 <= i < 32 ==> Meet(r, bits[0])[i] == r[i] && Meet(s, bits[0])[i] == s[i];
    }
  }

  /** From one register, different windows of at most 32 bits lead to different registers. */
  lemma WindowsDiffer(r: Poly, v: Poly, w: Poly)
    requires |r| == 32 && |v| == |w| <= 32 && Absorb(r, v) == Absorb(r, w)
    ensures v == w
  {
    AbsorbAtOnce(r, v);
    AbsorbAtOnce(r, w);
    var padV, padW := v + Zeros(32 - |v|), w + Zeros(32 - |v|);
    TimesXnIsInjective(Add(r, padV), Add(r, padW), |v|);
    forall i | 0 <= i < |v| ensures v[i] == w[i] {
      assert Add(r, padV)[i] == (r[i] != v[i]) && Add(r, padW)[i] == (r[i] != w[i]);
    }
  }

  lemma {:induction false} BitsAreInjective(x: seq<u8>, y: seq<u8>)
    requires |x| == |y| && Bits(x) == Bits(y)
    ensures x == y
  {
    if x != [] {
      var n := |x| - 1;
      var headX, headY := Bits(x[..n]), Bits(y[..n]);
      assert headX == Bits(x)[..8 * n] == Bits(y)[..8 * n] == headY;
      assert ByteBits(x[n]) == Bits(x)[8 * n..] == Bits(y)[8 * n..] == ByteBits(y[n]);
      Pow2Of32();
      BitsDetermine(x[n], y[n], 8);
      BitsAreInjective(x[..n], y[..n]);
      assert x == x[..n] + [x[n]] && y == y[..n] + [y[n]];
    }
  }

  /** The two messages agree outside the 32 consecutive bits from `start` on. */
  ghost predicate DifferWithin(x: Poly, y: Poly, start: nat) {
    |x| == |y| && forall k :: 0 <= k < |x| && !(start <= k < start + 32) ==> x[k] == y[k]
  }

  lemma AbsorbThree(r: Poly, before: Poly, window: Poly, after: Poly)
    requires |r| == 32
    ensures Absorb(r, before + (window + after)) == Absorb(Absorb(Absorb(r, before), window), after)
  {
    AbsorbConcat(r, before, window + after);
    AbsorbConcat(Absorb(r, before), window, after);
  }

  lemma InThree(x: Poly, i: nat, j: nat)
    requires i <= j <= |x|
    ensures x == x[..i] + (x[i..j] + x[j..])
  {
  }

  lemma SameEnds(x: Poly, y: Poly, start: nat) returns (i: nat, j: nat)
    requires DifferWithin(x, y, start)
    ensures i <= j <= |x| == |y| && j - i <= 32 && x[..i] == y[..i] && x[j..] == y[j..]
  {
    i := if start <= |x| then start else |x|;
    j := if start + 32 <= |x| then start + 32 else |x|;
  }

  lemma BurstInBits(x: Poly, y: Poly, start: nat)
    requires DifferWithin(x, y, start) && Absorb(Ones(32), x) == Absorb(Ones(32), y)
    ensures x == y
  {
    var i, j := SameEnds(x, y, start);
    var before, v, w, after := x[..i], x[i..j], y[i..j], x[j..];
    InThree(x, i, j);
    InThree(y, i, j);
    AbsorbThree(Ones(32), before, v, after);
    AbsorbThree(Ones(32), before, w, after);
    SameWindows(Absorb(Ones(32), before), v, w, after);
  }

  lemma SameWindows(r: Poly, v: Poly, w: Poly, after: Poly)
    requires |r| == 32 && |v| == |w| <= 32 && Absorb(Absorb(r, v), after) == Absorb(Absorb(r, w), after)
    ensures v == w
  {
    AbsorbIsInjective(Absorb(r, v), Absorb(r, w), after);
    WindowsDiffer(r, v, w);
  }

  /** Burst detection: two different messages of one length that agree outside some 32
      consecutive bits, in transmission order and at any bit offset, have different CRCs. */
  lemma BurstIsDetected(x: seq<u8>, y: seq<u8>, start: nat)
    requires x != y && DifferWithin(Bits(x), Bits(y), start)
    ensures Crc(x) != Crc(y)
  {
    if Crc(x) == Crc(y) {
      RegisterAbsorbs(x);
      RegisterAbsorbs(y);
      BurstInBits(Bits(x), Bits(y), start);
      BitsAreInjective(x, y);
    }
  }

  /** Agreement outside four consecutive bytes is agreement outside 32 consecutive bits. */
  lemma {:induction false} FourBytesAreAWindow(x: seq<u8>, y: seq<u8>, k: nat)
    requires |x| == |y| && forall i :: 0 <= i < |x| && !(k <= i < k + 4) ==> x[i] == y[i]
    ensures DifferWithin(Bits(x), Bits(y), 8 * k)
  {
    if x != [] {
      var n := |x| - 1;
      FourBytesAreAWindow(x[..n], y[..n], k);
      assert Bits(x)[..8 * n] == Bits(x[..n]) && Bits(y)[..8 * n] == Bits(y[..n]);
      forall j | 0 <= j < |Bits(x)| && !(8 * k <= j < 8 * k + 32) ensures Bits(x)[j] == Bits(y)[j] {
        if j < 8 * n {
          assert Bits(x)[j] == Bits(x[..n])[j] && Bits(y)[j] == Bits(y[..n])[j];
        }
      }
    }
  }
}
