/** Bursts that cross the boundary between what a frame check covers and the check. */
module CheckBoundary {
  import opened Words
  import opened Frame
  import opened FrameTheorems
  import opened Polynomial
  import opened Crc32
  import opened Boundary
  import Corruption

  // ---- Bytes and coefficients ---------------------------------------------------------------

  lemma {:induction false} TimesXnIsLinear(r: Poly, s: Poly, n: nat)
    requires |r| == |s| == 32
    ensures TimesXn(Add(r, s), n) == Add(TimesXn(r, n), TimesXn(s, n))
    decreases n
  {
    if n > 0 {
      TimesXIsLinear(r, s);
      TimesXnIsLinear(TimesX(r, GENERATOR), TimesX(s, GENERATOR), n - 1);
    }
  }

  lemma {:induction false} BitsConcat(x: seq<u8>, y: seq<u8>)
    ensures Bits(x + y) == Bits(x) + Bits(y)
  {
    if y == [] {
      assert x + y == x;
    } else {
      var n := |y| - 1;
      var front := y[..n];
      BitsConcat(x, front);
      assert (x + y)[..|x + y| - 1] == x + front && (x + y)[|x + y| - 1] == y[n];
      assert Bits(x + y) == Bits(x + front) + ByteBits(y[n]) && Bits(y) == Bits(front) + ByteBits(y[n]);
    }
  }

  lemma HalfOfBoth(low: nat, p: nat, high: nat)
    ensures var v := low + 2 * p * high; v % 2 == low % 2 && v / 2 == low / 2 + p * high
  {
    var rest := p * high;
    assert 2 * p * high == 2 * rest;
  }

  lemma {:induction false} BitsInTwo(low: nat, high: nat, m: nat, n: nat)
    requires low < Pow2(m)
    ensures NumberBits(low + Pow2(m) * high, m + n) == NumberBits(low, m) + NumberBits(high, n)
    decreases m
  {
    if m > 0 {
      HalfOfBoth(low, Pow2(m - 1), high);
      BitsInTwo(low / 2, high, m - 1, n);
    }
  }

  lemma BitsOfNextByte(low: u8, high: nat, n: nat)
    ensures NumberBits(low + 0x100 * high, 8 + n) == ByteBits(low) + NumberBits(high, n)
  {
    Pow2Of32();
    BitsInTwo(low, high, 8, n);
  }

  lemma BitsOfFourBytes(b0: u8, b1: u8, b2: u8, b3: u8, n: nat)
    requires n == 8
    ensures NumberBits(b3 + 0x100 * (b2 + 0x100 * (b1 + 0x100 * (b0 as int))), 8 + (8 + (8 + n))) ==
            ByteBits(b3) + (ByteBits(b2) + (ByteBits(b1) + ByteBits(b0)))
  {
    BitsOfNextByte(b3, b2 + 0x100 * (b1 + 0x100 * (b0 as int)), 8 + (8 + n));
    BitsOfNextByte(b2, b1 + 0x100 * (b0 as int), 8 + n);
    BitsOfNextByte(b1, b0, n);
  }

  lemma FourBytes(v: u32)
    ensures var b := Put32(v); b[3] + 0x100 * (b[2] + 0x100 * (b[1] + 0x100 * (b[0] as int))) == v
  {
    Assembled(v);
  }

  /** The bytes of a check, last first, are the coefficients of its value. */
  lemma CoefficientsByByte(v: u32)
    ensures var b := Put32(v); Coefficients(v) == ByteBits(b[3]) + (ByteBits(b[2]) + (ByteBits(b[1]) + ByteBits(b[0])))
  {
    var b := Put32(v);
    FourBytes(v);
    BitsOfFourBytes(b[0], b[1], b[2], b[3], 8);
  }

  /** Exclusive or of two bytes. */
  function ByteXor(a: u8, b: u8): u8 {
    Pow2Of32();
    XorBits(a, b, 8)
  }

  lemma ByteXorIsSum(a: u8, b: u8, x: u8)
    ensures ByteXor(a, b) == x <==> Add(ByteBits(a), ByteBits(b)) == ByteBits(x)
    ensures ByteXor(a, b) == x <==> ByteBits(a) == Add(ByteBits(b), ByteBits(x))
  {
    Pow2Of32();
    BitsOfXor(a, b, 8);
    if Add(ByteBits(a), ByteBits(b)) == ByteBits(x) {
      BitsDetermine(ByteXor(a, b), x, 8);
    }
    Moves(ByteBits(a), ByteBits(b), ByteBits(x));
  }

  lemma Moves(a: Poly, b: Poly, x: Poly)
    requires |a| == |b| == |x|
    ensures Add(a, b) == x <==> a == Add(b, x)
  {
    if a == Add(b, x) {
      assert forall i :: 0 <= i < |a| ==> a[i] == (b[i] != x[i]);
    }
    if Add(a, b) == x {
      assert forall i :: 0 <= i < |a| ==> x[i] == (a[i] != b[i]);
    }
  }

  lemma SameBits(a: u8, b: u8)
    ensures ByteBits(a) == ByteBits(b) <==> a == b
  {
    Pow2Of32();
    if ByteBits(a) == ByteBits(b) {
      BitsDetermine(a, b, 8);
    }
  }

  // ---- What a change of the last covered bytes does to the check ------------------------------

  /** The register after a window of at most 32 bits. */
  function AfterWindow(r: Poly, w: Poly): (p: Poly)
    requires |r| == 32 && |w| <= 32
    ensures |p| == 32
  {
    TimesXn(Add(r, w + Zeros(32 - |w|)), |w|)
  }

  lemma RegisterAfter(pre: seq<u8>, w: seq<u8>)
    requires |w| <= 4
    ensures Coefficients(Register(pre + w)) == AfterWindow(Absorb(Ones(32), Bits(pre)), Bits(w))
  {
    RegisterAbsorbs(pre + w);
    BitsConcat(pre, w);
    AbsorbConcat(Ones(32), Bits(pre), Bits(w));
    AbsorbAtOnce(Absorb(Ones(32), Bits(pre)), Bits(w));
  }

  lemma CrcIsComplement(data: seq<u8>)
    ensures Coefficients(Crc(data)) == Add(Coefficients(Register(data)), Ones(32))
  {
    Pow2Of32();
    BitsOfComplement(Register(data), Crc(data), 32);
  }

  lemma ChangeMovesRegister(r: Poly, v: Poly, w: Poly)
    requires |r| == 32 && |v| == |w| <= 32
    ensures AfterWindow(r, v) == Add(AfterWindow(r, w), Effect(Add(v, w)))
  {
    var pv, pw, pd := v + Zeros(32 - |v|), w + Zeros(32 - |w|), Add(v, w) + Zeros(32 - |v|);
    assert Add(r, pv) == Add(Add(r, pw), pd);
    TimesXnIsLinear(Add(r, pw), pd, |v|);
  }

  lemma ChangeMovesSum(rv: Poly, rw: Poly, e: Poly, cv: Poly, cw: Poly)
    requires |rv| == |rw| == |e| == 32 && rv == Add(rw, e) && cv == Add(rv, Ones(32)) && cw == Add(rw, Ones(32))
    ensures cv == Add(cw, e)
  {
  }

  lemma RegisterMoves(pre: seq<u8>, v: seq<u8>, w: seq<u8>)
    requires |v| == |w| <= 4
    ensures Coefficients(Register(pre + v)) == Add(Coefficients(Register(pre + w)), Effect(Add(Bits(v), Bits(w))))
  {
    RegisterAfter(pre, v);
    RegisterAfter(pre, w);
    ChangeMovesRegister(Absorb(Ones(32), Bits(pre)), Bits(v), Bits(w));
  }

  lemma ChangeMovesCrc(pre: seq<u8>, v: seq<u8>, w: seq<u8>, e: Poly)
    requires |v| == |w| <= 4 && e == Effect(Add(Bits(v), Bits(w)))
    ensures Coefficients(Crc(pre + v)) == Add(Coefficients(Crc(pre + w)), e)
  {
    RegisterMoves(pre, v, w);
    CrcIsComplement(pre + v);
    CrcIsComplement(pre + w);
    ChangeMovesSum(Coefficients(Register(pre + v)), Coefficients(Register(pre + w)), e,
                   Coefficients(Crc(pre + v)), Coefficients(Crc(pre + w)));
  }

  // ---- One check against another ----------------------------------------------------------------

  /** The difference of two checks, byte by byte from the last. */
  predicate Differ(b: seq<u8>, c: seq<u8>, e: Poly)
    requires |b| == |c| == 4 && |e| == 32
  {
    && Add(ByteBits(b[3]), ByteBits(c[3])) == e[0..8] && Add(ByteBits(b[2]), ByteBits(c[2])) == e[8..16]
    && Add(ByteBits(b[1]), ByteBits(c[1])) == e[16..24] && Add(ByteBits(b[0]), ByteBits(c[0])) == e[24..32]
  }

  lemma ValuesDiffer(x: u32, y: u32, e: Poly)
    requires |e| == 32 && Coefficients(x) == Add(Coefficients(y), e)
    ensures Differ(Put32(x), Put32(y), e)
  {
    CoefficientsByByte(x);
    CoefficientsByByte(y);
    var b, c := Put32(x), Put32(y);
    Segments(ByteBits(b[3]), ByteBits(b[2]), ByteBits(b[1]), ByteBits(b[0]),
             ByteBits(c[3]), ByteBits(c[2]), ByteBits(c[1]), ByteBits(c[0]), e);
  }

  lemma ChecksDiffer(pre: seq<u8>, v: seq<u8>, w: seq<u8>)
    requires |v| == |w| <= 4
    ensures Differ(Put32(Crc(pre + v)), Put32(Crc(pre + w)), Effect(Add(Bits(v), Bits(w))))
  {
    ChangeMovesCrc(pre, v, w, Effect(Add(Bits(v), Bits(w))));
    ValuesDiffer(Crc(pre + v), Crc(pre + w), Effect(Add(Bits(v), Bits(w))));
  }

  lemma Segments(b3: Poly, b2: Poly, b1: Poly, b0: Poly, c3: Poly, c2: Poly, c1: Poly, c0: Poly, e: Poly)
    requires |b0| == |b1| == |b2| == |b3| == |c0| == |c1| == |c2| == |c3| == 8 && |e| == 32
    requires b3 + (b2 + (b1 + b0)) == Add(c3 + (c2 + (c1 + c0)), e)
    ensures Add(b3, c3) == e[0..8] && Add(b2, c2) == e[8..16] && Add(b1, c1) == e[16..24] && Add(b0, c0) == e[24..32]
  {
    var b, c := b3 + (b2 + (b1 + b0)), c3 + (c2 + (c1 + c0));
    forall i | 0 <= i < 32 ensures e[i] == (b[i] != c[i]) {
      assert b[i] == (c[i] != e[i]);
    }
  }

  lemma SumIsZero(a: u8, b: u8)
    ensures Add(ByteBits(a), ByteBits(b)) == Zeros(8) <==> a == b
  {
    SameBits(a, b);
    if Add(ByteBits(a), ByteBits(b)) == Zeros(8) {
      forall i | 0 <= i < 8 ensures ByteBits(a)[i] == ByteBits(b)[i] {
        assert Add(ByteBits(a), ByteBits(b))[i] == (ByteBits(a)[i] != ByteBits(b)[i]);
      }
    }
  }

  /** The two bytes before the boundary and the first two after it, changed by this pattern. */
  predicate Unseen(v: seq<u8>, w: seq<u8>, b: seq<u8>, c: seq<u8>)
    requires |b| == |c| == 4
  {
    && |v| == |w| == 2 && ByteXor(v[0], w[0]) == 0x61 && ByteXor(v[1], w[1]) == 0xD8
    && ByteXor(b[0], c[0]) == 0xF4 && ByteXor(b[1], c[1]) == 0xEE
  }

  lemma BitsOfTwo(v: seq<u8>)
    requires |v| == 2
    ensures Bits(v) == ByteBits(v[0]) + ByteBits(v[1])
  {
    assert v[..1] == [v[0]];
    assert Bits([v[0]]) == ByteBits(v[0]);
  }

  lemma UnseenWindow(v: seq<u8>, w: seq<u8>)
    requires |v| == |w| == 2
    ensures Add(Bits(v), Bits(w)) == UNSEEN <==> ByteXor(v[0], w[0]) == 0x61 && ByteXor(v[1], w[1]) == 0xD8
  {
    BitsOfTwo(v);
    BitsOfTwo(w);
    BitsOf61();
    BitsOfD8();
    ByteXorIsSum(v[0], w[0], 0x61);
    ByteXorIsSum(v[1], w[1], 0xD8);
    SumInTwo(ByteBits(v[0]), ByteBits(v[1]), ByteBits(w[0]), ByteBits(w[1]), ONE_BYTE, NEXT_BYTE);
  }

  lemma SumInTwo(a: Poly, b: Poly, c: Poly, d: Poly, x: Poly, y: Poly)
    requires |a| == |b| == |c| == |d| == |x| == |y| == 8
    ensures Add(a + b, c + d) == x + y <==> Add(a, c) == x && Add(b, d) == y
  {
    assert Add(a + b, c + d) == Add(a, c) + Add(b, d);
    assert (x + y)[..8] == x && (x + y)[8..] == y;
    assert (Add(a, c) + Add(b, d))[..8] == Add(a, c) && (Add(a, c) + Add(b, d))[8..] == Add(b, d);
  }

  /** Two checks agree in their last j bytes. */
  predicate SameTail(b: seq<u8>, c: seq<u8>, j: nat)
    requires |b| == |c| == 4 && j <= 4
  {
    forall k :: 4 - j <= k < 4 ==> b[k] == c[k]
  }

  /** Checks that agree in their last bytes have an effect that vanishes there. */
  lemma AgreeingTail(b: seq<u8>, c: seq<u8>, e: Poly, j: nat)
    requires |b| == |c| == 4 && |e| == 32 && Differ(b, c, e) && 1 <= j <= 3
    ensures SameTail(b, c, j) ==> forall i :: 0 <= i < 8 * j ==> !e[i]
  {
    SumIsZero(b[3], c[3]);
    SumIsZero(b[2], c[2]);
    SumIsZero(b[1], c[1]);
    if SameTail(b, c, j) {
      assert e[0..8] == Zeros(8) && (j >= 2 ==> e[8..16] == Zeros(8)) && (j >= 3 ==> e[16..24] == Zeros(8));
      forall i | 0 <= i < 8 * j ensures !e[i] {
        assert i < 8 ==> e[i] == e[0..8][i];
        assert 8 <= i < 16 ==> e[i] == e[8..16][i - 8];
        assert 16 <= i < 24 ==> e[i] == e[16..24][i - 16];
      }
    }
  }

  lemma EffectInBytes(b: seq<u8>, c: seq<u8>, e: Poly)
    requires |b| == |c| == 4 && e == Zeros(16) + (SECOND_CHECK + FIRST_CHECK) && Differ(b, c, e)
    ensures b[3] == c[3] && b[2] == c[2] && ByteXor(b[1], c[1]) == 0xEE && ByteXor(b[0], c[0]) == 0xF4
  {
    assert e[0..8] == Zeros(8) && e[8..16] == Zeros(8) && e[16..24] == SECOND_CHECK && e[24..32] == FIRST_CHECK;
    SumIsZero(b[3], c[3]);
    SumIsZero(b[2], c[2]);
    BitsOfEE();
    BitsOfF4();
    ByteXorIsSum(b[1], c[1], 0xEE);
    ByteXorIsSum(b[0], c[0], 0xF4);
  }

  lemma ByteXorDetermines(a: u8, b: u8, c: u8)
    requires ByteXor(a, c) == ByteXor(b, c)
    ensures a == b
  {
    ByteXorIsSum(a, c, ByteXor(a, c));
    ByteXorIsSum(b, c, ByteXor(a, c));
    SameBits(a, b);
  }

  lemma EffectIsUnseen(v: seq<u8>, w: seq<u8>)
    requires 1 <= |v| == |w| <= 3 && v != w
    requires forall i :: 0 <= i < 8 * |v| ==> !Effect(Add(Bits(v), Bits(w)))[i]
    ensures |v| == 2 && Add(Bits(v), Bits(w)) == UNSEEN
  {
    var d := Add(Bits(v), Bits(w));
    VanishingEffect(d);
    if d == Zeros(|d|) {
      CancelledBits(Bits(v), Bits(w));
      BitsAreInjective(v, w);
    } else {
      UnseenBits();
    }
  }

  lemma SeenUnlessPattern(v: seq<u8>, w: seq<u8>, b: seq<u8>, c: seq<u8>)
    requires 1 <= |v| == |w| <= 3 && v != w && |b| == |c| == 4
    requires Differ(b, c, Effect(Add(Bits(v), Bits(w)))) && SameTail(b, c, |v|)
    ensures Unseen(v, w, b, c)
  {
    AgreeingTail(b, c, Effect(Add(Bits(v), Bits(w))), |v|);
    EffectIsUnseen(v, w);
    UnseenEffect();
    UnseenWindow(v, w);
    EffectInBytes(b, c, Effect(Add(Bits(v), Bits(w))));
  }

  lemma CancelledBits(x: Poly, y: Poly)
    requires |x| == |y| && Add(x, y) == Zeros(|x|)
    ensures x == y
  {
    forall i | 0 <= i < |x| ensures x[i] == y[i] {
      assert Add(x, y)[i] == (x[i] != y[i]);
    }
  }

  lemma PatternIsUnseen(pre: seq<u8>, v: seq<u8>, w: seq<u8>, b: seq<u8>)
    requires |b| == 4 && |v| == |w| == 2
    requires var c := Put32(Crc(pre + w)); Unseen(v, w, b, c) && b[2] == c[2] && b[3] == c[3]
    ensures b == Put32(Crc(pre + v))
  {
    var y, c := Put32(Crc(pre + v)), Put32(Crc(pre + w));
    UnseenWindow(v, w);
    ChecksDiffer(pre, v, w);
    UnseenEffect();
    EffectInBytes(y, c, Effect(Add(Bits(v), Bits(w))));
    ByteXorDetermines(y[0], b[0], c[0]);
    ByteXorDetermines(y[1], b[1], c[1]);
  }

  /** One to three covered bytes changed from w to v, and the check changed from c to b in as many
      bytes as make four in a row: the check is right again exactly for the one pattern. */
  lemma CrossingChange(pre: seq<u8>, v: seq<u8>, w: seq<u8>, b: seq<u8>)
    requires 1 <= |v| == |w| <= 3 && |b| == 4
    requires var c := Put32(Crc(pre + w));
             (v != w || b != c) && SameTail(b, c, |v|)
    ensures b == Put32(Crc(pre + v)) <==> Unseen(v, w, b, Put32(Crc(pre + w)))
  {
    if b == Put32(Crc(pre + v)) {
      ChecksDiffer(pre, v, w);
      SeenUnlessPattern(v, w, b, Put32(Crc(pre + w)));
    }
    if Unseen(v, w, b, Put32(Crc(pre + w))) {
      PatternIsUnseen(pre, v, w, b);
    }
  }

  // ---- On frames ------------------------------------------------------------------------------

  /** A checked frame altered within four consecutive bytes that lie across the boundary, its flags
      and length left alone, is accepted exactly when the change is 61 D8 before the boundary
      and F4 EE after it. Every other such change is refused. */
  lemma CrossingBurst(s: seq<u8>, f: Frame, end: nat, x: seq<u8>, j: nat)
    requires Decode(s) == Decoded(f, end + 4) && HasCheck(f.flags) && 1 <= j <= 3
    requires |x| == |s| >= end + 4 && end >= MIN_SIZE
    requires x[..end - j] == s[..end - j] && x[end + 4 - j..] == s[end + 4 - j..] && x != s
    requires Get16(x, LengthAt(s[1])) == Get16(s, LengthAt(s[1]))
    ensures Decode(x).Decoded? <==>
            Unseen(x[end - j..end], s[end - j..end], x[end..end + 4], s[end..end + 4])
  {
    AcceptedOpens(s, f, end);
    CrossingDecides(s, x, end, j);
  }

  lemma AcceptedOpens(s: seq<u8>, f: Frame, end: nat)
    requires Decode(s) == Decoded(f, end + 4) && HasCheck(f.flags)
    ensures MIN_SIZE <= end && end + 4 <= |s| && Corruption.Opens(s, end) && Get32(s, end) == Crc(s[..end])
  {
    AcceptedIsParsed(s, f, end + 4);
  }

  lemma SplitWindows(s: seq<u8>, x: seq<u8>, end: nat, j: nat)
    requires |x| == |s| >= end + 4 && 1 <= j <= 3 && end >= MIN_SIZE
    requires x[..end - j] == s[..end - j] && x[end + 4 - j..] == s[end + 4 - j..] && x != s
    ensures x[0] == s[0] && x[1] == s[1]
    ensures x[..end] == s[..end - j] + x[end - j..end] && s[..end] == s[..end - j] + s[end - j..end]
    ensures x[end - j..end] != s[end - j..end] || x[end..end + 4] != s[end..end + 4]
    ensures SameTail(x[end..end + 4], s[end..end + 4], j)
  {
    assert x[0] == x[..end - j][0] == s[0] && x[1] == x[..end - j][1] == s[1];
    assert x == x[..end - j] + x[end - j..end] + (x[end..end + 4] + x[end + 4..]);
    assert s == s[..end - j] + s[end - j..end] + (s[end..end + 4] + s[end + 4..]);
    assert x[end + 4..] == x[end + 4 - j..][j..] && s[end + 4..] == s[end + 4 - j..][j..];
    var b, c := x[end..end + 4], s[end..end + 4];
    forall k | 4 - j <= k < 4 ensures b[k] == c[k] {
      assert x[end + 4 - j..][k - (4 - j)] == s[end + 4 - j..][k - (4 - j)];
    }
  }

  lemma CheckIsRead(s: seq<u8>, end: nat)
    requires end + 4 <= |s|
    ensures Get32(s, end) == Crc(s[..end]) <==> s[end..end + 4] == Put32(Crc(s[..end]))
  {
    PutGet32(s, end, Crc(s[..end]));
  }

  lemma CrossingDecides(s: seq<u8>, x: seq<u8>, end: nat, j: nat)
    requires |x| == |s| >= end + 4 && 1 <= j <= 3 && end >= MIN_SIZE
    requires Corruption.Opens(s, end) && Get32(s, end) == Crc(s[..end])
    requires x[..end - j] == s[..end - j] && x[end + 4 - j..] == s[end + 4 - j..] && x != s
    requires Get16(x, LengthAt(s[1])) == Get16(s, LengthAt(s[1]))
    ensures Decode(x).Decoded? <==>
            Unseen(x[end - j..end], s[end - j..end], x[end..end + 4], s[end..end + 4])
  {
    SplitWindows(s, x, end, j);
    CheckIsRead(s, end);
    WindowDecides(x, end, s[..end - j], x[end - j..end], s[end - j..end], s[end..end + 4]);
  }

  lemma WindowDecides(x: seq<u8>, end: nat, pre: seq<u8>, v: seq<u8>, w: seq<u8>, c: seq<u8>)
    requires end + 4 <= |x| && Corruption.Opens(x, end) && x[..end] == pre + v
    requires 1 <= |v| == |w| <= 3 && c == Put32(Crc(pre + w)) && SameTail(x[end..end + 4], c, |v|)
    requires v != w || x[end..end + 4] != c
    ensures Decode(x).Decoded? <==> Unseen(v, w, x[end..end + 4], c)
  {
    CheckIsRead(x, end);
    Corruption.OpenedDecides(x, end);
    CrossingChange(pre, v, w, x[end..end + 4]);
  }
}
