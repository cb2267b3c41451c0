/** What the frame check sees of a frame altered on its way, and what it cannot see. */
module Corruption {
  import opened Words
  import opened Frame
  import opened FrameTheorems
  import Crc32

  // ---- The frame check ------------------------------------------------------------------

  /** A checked frame altered inside one window of 32 consecutive bits of what its check
      covers, its flags and payload length left alone, is never accepted. Nor is one whose
      check field alone is altered. */
  lemma CorruptionIsRefused(s: seq<u8>, f: Frame, n: nat, x: seq<u8>, start: nat)
    requires Decode(s) == Decoded(f, n) && HasCheck(f.flags) && |x| == |s| >= n >= MIN_SIZE + 4 && x[..n] != s[..n]
    requires x[1] == s[1] && Get16(x, LengthAt(s[1])) == Get16(s, LengthAt(s[1]))
    requires || (x[n - 4..n] == s[n - 4..n]
                 && Crc32.DifferWithin(Crc32.Bits(x[..n - 4]), Crc32.Bits(s[..n - 4]), start))
             || x[..n - 4] == s[..n - 4]
    ensures Decode(x) in {Refused(IncompatibleVersion), Refused(Range), Refused(FrameCheck)}
  {
    AcceptedIsParsed(s, f, n);
    WrongCheckIsRefused(s, x, n - 4, start);
  }

  lemma WrongCheckIsRefused(s: seq<u8>, x: seq<u8>, end: nat, start: nat)
    requires |x| == |s| >= MIN_SIZE && |s| >= MIN_SIZE + OptionalSize(s[1]) && HasCheck(s[1])
    requires end == CoveredSize(s) && end + 4 <= |s| && Get32(s, end) == Crc32.Crc(s[..end])
    requires x[..end + 4] != s[..end + 4]
    requires x[1] == s[1] && Get16(x, LengthAt(s[1])) == Get16(s, LengthAt(s[1]))
    requires || (x[end..end + 4] == s[end..end + 4]
                 && Crc32.DifferWithin(Crc32.Bits(x[..end]), Crc32.Bits(s[..end]), start))
             || x[..end] == s[..end]
    ensures Decode(x) in {Refused(IncompatibleVersion), Refused(Range), Refused(FrameCheck)}
  {
    CheckDisagrees(s, x, end, start);
    SameEnd(s, x);
    WrongCheckIsSeen(x);
  }

  lemma SameEnd(s: seq<u8>, x: seq<u8>)
    requires |x| == |s| >= MIN_SIZE && |s| >= MIN_SIZE + OptionalSize(s[1])
    requires x[1] == s[1] && Get16(x, LengthAt(s[1])) == Get16(s, LengthAt(s[1]))
    ensures CoveredSize(x) == CoveredSize(s)
  {
  }

  lemma WrongCheckIsSeen(x: seq<u8>)
    requires |x| >= MIN_SIZE && |x| >= MIN_SIZE + OptionalSize(x[1]) && HasCheck(x[1]) && CoveredSize(x) + 4 <= |x|
    requires Get32(x, CoveredSize(x)) != Crc32.Crc(x[..CoveredSize(x)])
    ensures Decode(x) in {Refused(IncompatibleVersion), Refused(Range), Refused(FrameCheck)}
  {
  }

  // ---- One byte changed -----------------------------------------------------------------

  /** Change one byte of an accepted checked frame, its check included, to any other value:
      unless the byte belongs to the flags or the length, the frame is refused. */
  lemma ChangedByteIsRefused(s: seq<u8>, f: Frame, n: nat, k: nat, v: u8)
    requires Decode(s) == Decoded(f, n) && HasCheck(f.flags) && k < n <= |s| && v != s[k]
    requires k != 1 && k != LengthAt(f.flags) && k != LengthAt(f.flags) + 1
    ensures Decode(s[k := v]) in {Refused(IncompatibleVersion), Refused(Range), Refused(FrameCheck)}
  {
    AcceptedIsParsed(s, f, n);
    ChangeIsSeen(s, s[k := v], k, v, n - 4);
  }

  lemma ChangeIsSeen(s: seq<u8>, x: seq<u8>, k: nat, v: u8, end: nat)
    requires |s| >= MIN_SIZE && |s| >= MIN_SIZE + OptionalSize(s[1]) && HasCheck(s[1])
    requires end == CoveredSize(s) && end + 4 <= |s| && Get32(s, end) == Crc32.Crc(s[..end])
    requires k < end + 4 && k != 1 && k != LengthAt(s[1]) && k != LengthAt(s[1]) + 1
    requires x == s[k := v] && v != s[k]
    ensures Decode(x) in {Refused(IncompatibleVersion), Refused(Range), Refused(FrameCheck)}
  {
    var at := LengthAt(s[1]);
    assert x[at] == s[at] && x[at + 1] == s[at + 1];
    ChangedByteIsAWindow(s, x, k, v, end);
    WrongCheckIsRefused(s, x, end, 8 * k);
  }

  lemma ChangedByteIsAWindow(s: seq<u8>, x: seq<u8>, k: nat, v: u8, end: nat)
    requires k < end + 4 <= |s| && x == s[k := v] && v != s[k]
    ensures x[..end + 4] != s[..end + 4]
    ensures k >= end ==> x[..end] == s[..end]
    ensures k < end ==> x[end..end + 4] == s[end..end + 4]
    ensures k < end ==> Crc32.DifferWithin(Crc32.Bits(x[..end]), Crc32.Bits(s[..end]), 8 * k)
  {
    assert x[..end + 4][k] != s[..end + 4][k];
    if k < end {
      Crc32.FourBytesAreAWindow(x[..end], s[..end], k);
    }
  }

  /** The flags are outside that promise, and have to be: with the frame-check flag itself
      cleared, every checked frame is accepted as the same frame unchecked, its check left
      over as the first bytes of whatever follows. */
  lemma LostCheckFlagIsAccepted(s: seq<u8>, f: Frame, n: nat)
    requires Decode(s) == Decoded(f, n) && HasCheck(f.flags)
    ensures |s| >= n > 4 && f.flags >= 16
    ensures Decode(s[1 := f.flags - 16]) == Decoded(f.(flags := f.flags - 16), n - 4)
  {
    AcceptedIsFound(s, f, n);
    SameOtherFlags(f);
    FoundWithoutCheckFlag(s, f, f.flags - 16);
  }

  lemma FoundWithoutCheckFlag(s: seq<u8>, f: Frame, v: u8)
    requires Canonical(f) && HasCheck(f.flags) && EncodedSize(f) <= |s| && Found(s, f)
    requires s[LengthAt(f.flags) + 2..LengthAt(f.flags) + 2 + |f.payload|] == f.payload && v as int == f.flags - 16
    ensures EncodedSize(f) > 4 && Decode(s[1 := v]) == Decoded(f.(flags := v), EncodedSize(f) - 4)
  {
    SameOtherFlags(f);
    OtherFlagsAreAccepted(s, f, f.(flags := v));
  }

  lemma SameOtherFlags(f: Frame)
    requires HasCheck(f.flags) && Canonical(f)
    ensures f.flags >= 16
    ensures var g := f.(flags := f.flags - 16);
            SamePlaces(f, g) && !HasCheck(g.flags) && Canonical(g) && EncodedSize(g) == EncodedSize(f) - 4
  {
  }

  lemma OtherFlagsAreAccepted(s: seq<u8>, f: Frame, g: Frame)
    requires Canonical(f) && EncodedSize(f) <= |s| && Found(s, f)
    requires s[LengthAt(f.flags) + 2..LengthAt(f.flags) + 2 + |f.payload|] == f.payload
    requires g == f.(flags := g.flags) && SamePlaces(f, g) && Canonical(g) && !HasCheck(g.flags)
    ensures Decode(s[1 := g.flags]) == Decoded(g, EncodedSize(g))
  {
    OnlyTheFlagsDiffer(s, f, g);
    FoundIsAccepted(s[1 := g.flags], g);
  }

  predicate SamePlaces(f: Frame, g: Frame) {
    && HasDestination(g.flags) == HasDestination(f.flags) && HasSession(g.flags) == HasSession(f.flags)
    && HasSequence(g.flags) == HasSequence(f.flags) && HasFreshness(g.flags) == HasFreshness(f.flags)
  }

  lemma OnlyTheFlagsDiffer(s: seq<u8>, f: Frame, g: Frame)
    requires Encodable(f) && LengthAt(f.flags) + 2 + |f.payload| <= |s| && Found(s, f)
    requires g == f.(flags := g.flags) && SamePlaces(f, g)
    ensures Found(s[1 := g.flags], g)
    ensures var start := LengthAt(f.flags) + 2;
            s[1 := g.flags][start..start + |f.payload|] == s[start..start + |f.payload|]
  {
  }

  lemma FoundIsAccepted(s: seq<u8>, f: Frame)
    requires Canonical(f) && EncodedSize(f) <= |s| && Found(s, f) && !HasCheck(f.flags)
    requires s[LengthAt(f.flags) + 2..LengthAt(f.flags) + 2 + |f.payload|] == f.payload
    ensures Decode(s) == Decoded(f, EncodedSize(f))
  {
    FoundIsParsed(s, f);
  }

  /** The two checks cannot both agree with the bytes they cover. */
  lemma CheckDisagrees(s: seq<u8>, x: seq<u8>, end: nat, start: nat)
    requires |x| == |s| && end + 4 <= |s| && x[..end + 4] != s[..end + 4] && Get32(s, end) == Crc32.Crc(s[..end])
    requires || (x[end..end + 4] == s[end..end + 4]
                 && Crc32.DifferWithin(Crc32.Bits(x[..end]), Crc32.Bits(s[..end]), start))
             || x[..end] == s[..end]
    ensures Get32(x, end) != Crc32.Crc(x[..end])
  {
    SplitEquality(s, x, end);
    PutGet32(x, end, Get32(s, end));
    PutGet32(s, end, Get32(s, end));
    if x[..end] != s[..end] {
      Crc32.BurstIsDetected(x[..end], s[..end], start);
    }
  }

  lemma SplitEquality(s: seq<u8>, x: seq<u8>, end: nat)
    requires |x| == |s| && end + 4 <= |s|
    ensures x[..end + 4] == s[..end + 4] <==> x[..end] == s[..end] && x[end..end + 4] == s[end..end + 4]
  {
  }

  // ---- Two readings of one buffer ----------------------------------------------------------

  /** The bytes start with the header of a checked frame whose payload ends at `end`. */
  predicate Opens(p: seq<u8>, end: nat) {
    && |p| >= MIN_SIZE
    && (p[0] / 16 == FRAME_MAJOR || p[0] / 16 == STABLE_MAJOR)
    && p[0] % 16 < CLASS_COUNT && p[0] % 16 != CLASS_ADAPT
    && HasCheck(p[1]) && !HasReserved(p[1])
    && LengthAt(p[1]) + 2 <= |p|
    && Get16(p, LengthAt(p[1])) <= MAX_PAYLOAD
    && LengthAt(p[1]) + 2 + Get16(p, LengthAt(p[1])) == end
  }

  lemma OpenedIsAccepted(s: seq<u8>, end: nat)
    requires Opens(s, end) && end + 4 <= |s| && Get32(s, end) == Crc32.Crc(s[..end])
    ensures Decode(s).Decoded? && Decode(s).frame.flags == s[1] && Decode(s).consumed == end + 4
  {
  }

  /** The bytes and their check. */
  function Sealed(p: seq<u8>): (s: seq<u8>)
    ensures |s| == |p| + 4
  {
    p + Put32(Crc32.Crc(p))
  }

  lemma SealedIsAccepted(p: seq<u8>, tail: seq<u8>)
    requires Opens(p, |p|)
    ensures var d := Decode(Sealed(p) + tail);
            d.Decoded? && d.frame.flags == p[1] && d.consumed == |p| + 4
  {
    var s := Sealed(p) + tail;
    assert s[..|p|] == p && s[|p|..|p| + 4] == Put32(Crc32.Crc(p));
    PutGet32(s, |p|, Crc32.Crc(p));
    OpenedIsAccepted(s, |p|);
  }

  lemma OpensWithMore(p: seq<u8>, more: seq<u8>, end: nat)
    requires Opens(p, end)
    ensures Opens(p + more, end)
  {
  }

  /** A buffer in which one byte decides where the frame ends: with p[k] there, at its very end;
      with v there, after a check that is right for the shorter frame. */
  function TwoWays(p: seq<u8>, k: nat, v: u8, pad: seq<u8>): seq<u8>
    requires k < |p|
  {
    Sealed(p + Put32(Crc32.Crc(p[k := v])) + pad)
  }

  lemma ReplacedInFront(p: seq<u8>, more: seq<u8>, k: nat, v: u8)
    requires k < |p|
    ensures (p + more)[k] == p[k] && (p + more)[k := v] == p[k := v] + more
  {
  }

  lemma Regrouped(p: seq<u8>, c: seq<u8>, pad: seq<u8>, d: seq<u8>)
    ensures (p + c + pad) + d == p + (c + (pad + d)) == (p + c) + (pad + d)
  {
  }

  lemma ChangedWay(p: seq<u8>, k: nat, v: u8, pad: seq<u8>) returns (rest: seq<u8>)
    requires k < |p|
    ensures TwoWays(p, k, v, pad)[k] == p[k] && TwoWays(p, k, v, pad)[k := v] == Sealed(p[k := v]) + rest
  {
    var q := p[k := v];
    var c := Put32(Crc32.Crc(q));
    var d := Put32(Crc32.Crc(p + c + pad));
    rest := pad + d;
    Regrouped(p, c, pad, d);
    Regrouped(q, c, pad, d);
    ReplacedInFront(p, c + (pad + d), k, v);
  }

  lemma LongWayIsAccepted(p: seq<u8>, k: nat, v: u8, pad: seq<u8>)
    requires k < |p| && Opens(p, |p| + 4 + |pad|)
    ensures var s := TwoWays(p, k, v, pad);
            Decode(s).Decoded? && Decode(s).frame.flags == p[1] && Decode(s).consumed == |s|
  {
    var more := Put32(Crc32.Crc(p[k := v])) + pad;
    var longer := p + Put32(Crc32.Crc(p[k := v])) + pad;
    assert longer == p + more;
    OpensWithMore(p, more, |longer|);
    SealedIsAccepted(longer, []);
    assert Sealed(longer) + [] == Sealed(longer);
  }

  lemma BothWaysAreAccepted(p: seq<u8>, k: nat, v: u8, pad: seq<u8>)
    requires k < |p| && Opens(p, |p| + 4 + |pad|) && Opens(p[k := v], |p|)
    ensures var s := TwoWays(p, k, v, pad);
            && k < |s| && s[k] == p[k]
            && Decode(s).Decoded? && Decode(s).frame.flags == p[1] && Decode(s).consumed == |s|
            && Decode(s[k := v]).Decoded?
  {
    LongWayIsAccepted(p, k, v, pad);
    var rest := ChangedWay(p, k, v, pad);
    SealedIsAccepted(p[k := v], rest);
  }

  // ---- Which bytes the check protects ------------------------------------------------------

  /** An accepted frame with these flags, and another value for its byte k. */
  predicate Hit(s: seq<u8>, flags: u8, k: nat, v: u8) {
    Decode(s).Decoded? && Decode(s).frame.flags == flags && k < Decode(s).consumed && k < |s| && v != s[k]
  }

  ghost predicate EveryChangeIsRefused(flags: u8, k: nat) {
    forall s: seq<u8>, v: u8 :: Hit(s, flags, k, v) ==> Decode(s[k := v]).Refused?
  }

  /** The smallest header with these flags. */
  function Plain(flags: u8, length: u16): (p: seq<u8>)
    ensures |p| == LengthAt(flags) + 2
  {
    [0, flags] + ZeroBytes(LengthAt(flags) - 2) + Put16(length)
  }

  lemma PlainOpens(flags: u8, length: u16)
    requires HasCheck(flags) && !HasReserved(flags) && length <= MAX_PAYLOAD
    ensures Opens(Plain(flags, length), |Plain(flags, length)| + length)
    ensures Plain(flags, length)[LengthAt(flags)] == length / 0x100
    ensures Plain(flags, length)[LengthAt(flags) + 1] == length % 0x100
  {
  }

  lemma PlainIsAccepted(flags: u8)
    requires HasCheck(flags) && !HasReserved(flags)
    ensures var s := Sealed(Plain(flags, 0)); Decode(s).Decoded? && Decode(s).frame.flags == flags == s[1]
  {
    PlainOpens(flags, 0);
    SealedIsAccepted(Plain(flags, 0), []);
    assert Sealed(Plain(flags, 0)) + [] == Sealed(Plain(flags, 0));
  }

  lemma FlagsAreExposed(flags: u8) returns (s: seq<u8>, v: u8)
    requires HasCheck(flags) && !HasReserved(flags)
    ensures Hit(s, flags, 1, v) && Decode(s[1 := v]).Decoded?
  {
    s := Sealed(Plain(flags, 0));
    PlainIsAccepted(flags);
    var f, n := Decode(s).frame, Decode(s).consumed;
    LostCheckFlagIsAccepted(s, f, n);
    v := flags - 16;
  }

  /** With a payload of 4 to 1024 bytes that begins with the check of the empty frame, setting
      the length to zero gives another accepted frame. */
  lemma LengthIsExposed(flags: u8, length: u16, k: nat) returns (s: seq<u8>)
    requires HasCheck(flags) && !HasReserved(flags) && 4 <= length <= MAX_PAYLOAD
    requires LengthByte(flags, length, k)
    ensures Hit(s, flags, k, 0) && Decode(s[k := 0]).Decoded?
  {
    var p := Plain(flags, length);
    PlainOpens(flags, length);
    PlainOpens(flags, 0);
    assert p[k := 0] == Plain(flags, 0);
    BothWaysAreAccepted(p, k, 0, ZeroBytes(length - 4));
    s := TwoWays(p, k, 0, ZeroBytes(length - 4));
  }

  /** What the frame check protects, byte by byte. Whatever the flags of a checked frame, every
      change of byte k is refused in every frame exactly when the byte is neither the flags nor
      part of the payload length. */
  lemma ProtectedBytes(flags: u8, k: nat)
    requires HasCheck(flags) && !HasReserved(flags)
    ensures EveryChangeIsRefused(flags, k) <==> k != 1 && k != LengthAt(flags) && k != LengthAt(flags) + 1
  {
    if k == 1 {
      var s, v := FlagsAreExposed(flags);
    } else if k == LengthAt(flags) {
      var s := LengthIsExposed(flags, 0x100, k);
    } else if k == LengthAt(flags) + 1 {
      var s := LengthIsExposed(flags, 8, k);
    } else {
      forall s: seq<u8>, v: u8 | Hit(s, flags, k, v) ensures Decode(s[k := v]).Refused? {
        AcceptedIsParsed(s, Decode(s).frame, Decode(s).consumed);
        ChangedByteIsRefused(s, Decode(s).frame, Decode(s).consumed, k, v);
      }
    }
  }

  // ---- The flags, bit by bit ---------------------------------------------------------------

  function Place(b: nat): u8
    requires b < 8
  {
    match b
    case 0 => 1
    case 1 => 2
    case 2 => 4
    case 3 => 8
    case 4 => 16
    case 5 => 32
    case 6 => 64
    case 7 => 128
  }

  predicate IsSet(flags: u8, b: nat)
    requires b < 8
  {
    flags / Place(b) % 2 == 1
  }

  function Flip(flags: u8, b: nat): int
    requires b < 8
  {
    if IsSet(flags, b) then flags - Place(b) else flags + Place(b)
  }

  /** The size of the field a presence bit stands for. */
  function Width(b: nat): nat {
    if b < 2 then 4 else 2
  }

  lemma FlipReference(flags: u8, b: nat)
    requires HasCheck(flags) && !HasReserved(flags) && b < 2
    ensures 0 <= Flip(flags, b) < 0x100
    ensures HasCheck(Flip(flags, b)) && !HasReserved(Flip(flags, b)) && Flip(flags, b) != flags
    ensures LengthAt(Flip(flags, b)) ==
            if IsSet(flags, b) then LengthAt(flags) - Width(b) else LengthAt(flags) + Width(b)
    ensures IsSet(flags, b) ==> LengthAt(flags) >= 6 + Width(b)
  {
    if b == 0 { FlipDestination(flags); } else { FlipSession(flags); }
  }

  lemma FlipCounter(flags: u8, b: nat)
    requires HasCheck(flags) && !HasReserved(flags) && 2 <= b < 4
    ensures 0 <= Flip(flags, b) < 0x100
    ensures HasCheck(Flip(flags, b)) && !HasReserved(Flip(flags, b)) && Flip(flags, b) != flags
    ensures LengthAt(Flip(flags, b)) ==
            if IsSet(flags, b) then LengthAt(flags) - Width(b) else LengthAt(flags) + Width(b)
    ensures IsSet(flags, b) ==> LengthAt(flags) >= 6 + Width(b)
  {
    if b == 2 { FlipSequence(flags); } else { FlipFreshness(flags); }
  }

  lemma FlipPresence(flags: u8, b: nat)
    requires HasCheck(flags) && !HasReserved(flags) && b < 4
    ensures 0 <= Flip(flags, b) < 0x100
    ensures HasCheck(Flip(flags, b)) && !HasReserved(Flip(flags, b)) && Flip(flags, b) != flags
    ensures LengthAt(Flip(flags, b)) ==
            if IsSet(flags, b) then LengthAt(flags) - Width(b) else LengthAt(flags) + Width(b)
    ensures IsSet(flags, b) ==> LengthAt(flags) >= 6 + Width(b)
  {
    if b < 2 { FlipReference(flags, b); } else { FlipCounter(flags, b); }
  }

  lemma FlipDestination(flags: u8)
    requires HasCheck(flags) && !HasReserved(flags)
    ensures var g := if HasDestination(flags) then flags - 1 else flags + 1;
            && 0 <= g < 0x100 && HasCheck(g) && !HasReserved(g) && HasDestination(g) != HasDestination(flags)
            && HasSession(g) == HasSession(flags) && HasSequence(g) == HasSequence(flags)
            && HasFreshness(g) == HasFreshness(flags)
  {
  }

  lemma FlipSession(flags: u8)
    requires HasCheck(flags) && !HasReserved(flags)
    ensures var g := if HasSession(flags) then flags - 2 else flags + 2;
            && 0 <= g < 0x100 && HasCheck(g) && !HasReserved(g) && HasSession(g) != HasSession(flags)
            && HasDestination(g) == HasDestination(flags) && HasSequence(g) == HasSequence(flags)
            && HasFreshness(g) == HasFreshness(flags)
  {
  }

  lemma FlipSequence(flags: u8)
    requires HasCheck(flags) && !HasReserved(flags)
    ensures var g := if HasSequence(flags) then flags - 4 else flags + 4;
            && 0 <= g < 0x100 && HasCheck(g) && !HasReserved(g) && HasSequence(g) != HasSequence(flags)
            && HasDestination(g) == HasDestination(flags) && HasSession(g) == HasSession(flags)
            && HasFreshness(g) == HasFreshness(flags)
  {
  }

  lemma FlipFreshness(flags: u8)
    requires HasCheck(flags) && !HasReserved(flags)
    ensures var g := if HasFreshness(flags) then flags - 8 else flags + 8;
            && 0 <= g < 0x100 && HasCheck(g) && !HasReserved(g) && HasFreshness(g) != HasFreshness(flags)
            && HasDestination(g) == HasDestination(flags) && HasSession(g) == HasSession(flags)
            && HasSequence(g) == HasSequence(flags)
  {
  }

  lemma FlipReserved(flags: u8, b: nat)
    requires HasCheck(flags) && !HasReserved(flags) && 5 <= b < 8
    ensures 0 <= Flip(flags, b) < 0x100 && HasReserved(Flip(flags, b))
  {
  }

  lemma FlipCheck(flags: u8)
    requires HasCheck(flags) && !HasReserved(flags)
    ensures Flip(flags, 4) == flags - 16 >= 0
  {
  }

  /** A header that is one reading of a frame with the presence bit and another without it. */
  function Ambiguous(flags: u8, b: nat): (p: seq<u8>)
    requires HasCheck(flags) && !HasReserved(flags) && b < 4
  {
    FlipPresence(flags, b);
    var w := Width(b);
    if IsSet(flags, b) then
      [0, flags] + ZeroBytes(LengthAt(flags) - w - 2) + Put16(w) + ZeroBytes(w - 2) + Put16(4)
    else
      [0, flags] + ZeroBytes(LengthAt(flags) - 2) + Put16(w + 4) + ZeroBytes(w)
  }

  lemma AmbiguousOpens(flags: u8, b: nat)
    requires HasCheck(flags) && !HasReserved(flags) && b < 4
    ensures var p := Ambiguous(flags, b);
            && 0 <= Flip(flags, b) < 0x100 && |p| > 1 && p[1] == flags
            && Opens(p, |p| + 4) && Opens(p[1 := Flip(flags, b)], |p|)
  {
    FlipPresence(flags, b);
    var p, w, a := Ambiguous(flags, b), Width(b), LengthAt(flags);
    if IsSet(flags, b) {
      assert p[a - w] == 0 && p[a - w + 1] == w && p[a] == 0 && p[a + 1] == 4;
    } else {
      assert p[a] == 0 && p[a + 1] == w + 4 && p[a + w] == 0 && p[a + w + 1] == 0;
    }
  }

  /** A presence bit flipped on its way may leave an acceptable frame. */
  lemma PresenceMayBeAccepted(flags: u8, b: nat) returns (s: seq<u8>)
    requires HasCheck(flags) && !HasReserved(flags) && b < 4
    ensures 0 <= Flip(flags, b) < 0x100
    ensures Decode(s).Decoded? && Decode(s).frame.flags == flags && |s| > 1
    ensures Decode(s[1 := Flip(flags, b)]).Decoded?
  {
    AmbiguousOpens(flags, b);
    var p := Ambiguous(flags, b);
    BothWaysAreAccepted(p, 1, Flip(flags, b), []);
    s := TwoWays(p, 1, Flip(flags, b), []);
  }

  /** A header that without its presence bit would announce a payload far too long. */
  function Overlong(flags: u8, w: nat): (p: seq<u8>)
    requires 2 <= w && LengthAt(flags) >= 6 + w
  {
    [0, flags] + ZeroBytes(LengthAt(flags) - w - 2) + [0xFF, 0xFF] + ZeroBytes(w - 2) + Put16(0)
  }

  /** Nor does it always. */
  lemma PresenceMayBeRefused(flags: u8, b: nat) returns (s: seq<u8>)
    requires HasCheck(flags) && !HasReserved(flags) && b < 4
    ensures 0 <= Flip(flags, b) < 0x100
    ensures Decode(s).Decoded? && Decode(s).frame.flags == flags && |s| > 1
    ensures Decode(s[1 := Flip(flags, b)]).Refused?
  {
    FlipPresence(flags, b);
    var w, a := Width(b), LengthAt(flags);
    if IsSet(flags, b) {
      var p := Overlong(flags, w);
      assert p[a - w] == 0xFF && p[a - w + 1] == 0xFF && p[a] == 0 && p[a + 1] == 0;
      SealedIsAccepted(p, []);
      s := Sealed(p) + [];
      assert s[a - w] == 0xFF && s[a - w + 1] == 0xFF;
    } else {
      PlainIsAccepted(flags);
      s := Sealed(Plain(flags, 0));
    }
  }

  predicate Accepts(s: seq<u8>, flags: u8) {
    Decode(s).Decoded? && Decode(s).frame.flags == flags && |s| > 1
  }

  ghost predicate EveryFlipIs(flags: u8, b: nat, accepted: bool)
    requires b < 8 && 0 <= Flip(flags, b) < 0x100
  {
    forall s: seq<u8> :: Accepts(s, flags) ==> Decode(s[1 := Flip(flags, b)]).Decoded? == accepted
  }

  lemma PresenceFlips(flags: u8, b: nat)
    requires HasCheck(flags) && !HasReserved(flags) && b < 4
    ensures 0 <= Flip(flags, b) < 0x100
    ensures !EveryFlipIs(flags, b, false) && !EveryFlipIs(flags, b, true)
  {
    var s := PresenceMayBeAccepted(flags, b);
    assert Accepts(s, flags);
    var t := PresenceMayBeRefused(flags, b);
    assert Accepts(t, flags);
  }

  lemma CheckFlips(flags: u8)
    requires HasCheck(flags) && !HasReserved(flags)
    ensures 0 <= Flip(flags, 4) < 0x100 && EveryFlipIs(flags, 4, true)
  {
    FlipCheck(flags);
    forall s: seq<u8> | Accepts(s, flags) ensures Decode(s[1 := Flip(flags, 4)]).Decoded? {
      match Decode(s)
      case Decoded(f, n) => CheckFlip(s, f, n, Flip(flags, 4));
    }
  }

  lemma CheckFlip(s: seq<u8>, f: Frame, n: nat, v: u8)
    requires Decode(s) == Decoded(f, n) && HasCheck(f.flags) && v as int == f.flags - 16
    ensures Decode(s[1 := v]).Decoded?
  {
    AcceptedIsFound(s, f, n);
    FoundWithoutCheckFlag(s, f, v);
  }

  lemma ReservedFlips(flags: u8, b: nat)
    requires HasCheck(flags) && !HasReserved(flags) && 5 <= b < 8
    ensures 0 <= Flip(flags, b) < 0x100 && EveryFlipIs(flags, b, false)
  {
    FlipReserved(flags, b);
  }

  lemma NotBoth(flags: u8, b: nat, accepted: bool)
    requires HasCheck(flags) && !HasReserved(flags) && b < 8 && 0 <= Flip(flags, b) < 0x100
    requires EveryFlipIs(flags, b, accepted)
    ensures !EveryFlipIs(flags, b, !accepted)
  {
    PlainIsAccepted(flags);
    assert Accepts(Sealed(Plain(flags, 0)), flags);
  }

  /** What becomes of a checked frame that loses or gains one flag, whatever its other flags. The
      reserved bits never get through; the loss of the frame check itself always does; and a
      presence bit may or may not. */
  lemma FlippedFlags(flags: u8, b: nat)
    requires HasCheck(flags) && !HasReserved(flags) && b < 8
    ensures 0 <= Flip(flags, b) < 0x100
    ensures EveryFlipIs(flags, b, false) <==> b >= 5
    ensures EveryFlipIs(flags, b, true) <==> b == 4
  {
    if b < 4 {
      PresenceFlips(flags, b);
    } else if b == 4 {
      CheckFlips(flags);
      NotBoth(flags, b, true);
    } else {
      ReservedFlips(flags, b);
      NotBoth(flags, b, false);
    }
  }

  // ---- The length, value by value ------------------------------------------------------------

  /** The buffer with another payload length in its header. */
  function Relabelled(s: seq<u8>, at: nat, length: u16): seq<u8>
    requires at + 2 <= |s|
  {
    s[at := length / 0x100][at + 1 := length % 0x100]
  }

  /** The frame with the given payload instead of its own. */
  function Carrying(f: Frame, payload: seq<u8>): Frame {
    f.(payload := payload)
  }

  lemma Slices(s: seq<u8>, start: nat, t: seq<u8>, from: nat, to: nat)
    requires start <= |s| && s[start..] == t && from <= to <= |t|
    ensures s[start + from..start + to] == t[from..to]
  {
    var part, rest := s[start + from..start + to], s[start..];
    forall i | 0 <= i < to - from ensures part[i] == t[from..to][i] {
      assert part[i] == s[start + (from + i)] == rest[from + i];
    }
  }

  lemma RelabelledTail(s: seq<u8>, at: nat, length: u16)
    requires at + 2 <= |s|
    ensures Relabelled(s, at, length)[at + 2..] == s[at + 2..]
    ensures Get16(Relabelled(s, at, length), at) == length
  {
  }

  lemma RelabelledIsFound(s: seq<u8>, f: Frame, g: Frame)
    requires Canonical(f) && LengthAt(f.flags) + 2 <= |s| && Found(s, f)
    requires g == Carrying(f, g.payload) && |g.payload| <= MAX_PAYLOAD
    ensures Canonical(g) && Found(Relabelled(s, LengthAt(f.flags), |g.payload|), g)
  {
    RelabelledTail(s, LengthAt(f.flags), |g.payload|);
  }

  lemma FoundOpens(x: seq<u8>, g: Frame)
    requires Canonical(g) && HasCheck(g.flags) && LengthAt(g.flags) + 2 <= |x| && Found(x, g)
    ensures Opens(x, LengthAt(g.flags) + 2 + |g.payload|)
  {
  }

  lemma OpenedDecides(s: seq<u8>, end: nat)
    requires Opens(s, end) && end + 4 <= |s|
    ensures Decode(s).Decoded? <==> Get32(s, end) == Crc32.Crc(s[..end])
  {
  }

  lemma FoundDecides(x: seq<u8>, g: Frame, end: nat)
    requires Canonical(g) && HasCheck(g.flags) && end == LengthAt(g.flags) + 2 + |g.payload| && end + 4 <= |x|
    requires Found(x, g) && x[LengthAt(g.flags) + 2..end] == g.payload
    ensures Decode(x).Decoded? <==> x[end..end + 4] == Put32(Crc32.Crc(Covered(g, g.major)))
  {
    CoveredIsRead(x, g);
    FoundOpens(x, g);
    OpenedDecides(x, end);
    PutGet32(x, end, Crc32.Crc(x[..end]));
  }

  /** A reading under another length that stays within the buffer. */
  lemma FittingLength(s: seq<u8>, f: Frame, g: Frame, t: seq<u8>)
    requires Canonical(f) && HasCheck(f.flags) && LengthAt(f.flags) + 2 <= |s| && Found(s, f)
    requires s[LengthAt(f.flags) + 2..] == t && |g.payload| <= MAX_PAYLOAD && |g.payload| + 4 <= |t|
    requires g == Carrying(f, t[..|g.payload|])
    ensures Decode(Relabelled(s, LengthAt(f.flags), |g.payload|)).Decoded? <==>
            t[|g.payload|..|g.payload| + 4] == Put32(Crc32.Crc(Covered(g, g.major)))
  {
    var at, length := LengthAt(f.flags), |g.payload|;
    var x := Relabelled(s, at, length);
    RelabelledIsFound(s, f, g);
    RelabelledTail(s, at, length);
    Slices(x, at + 2, t, 0, length);
    Slices(x, at + 2, t, length, length + 4);
    FoundDecides(x, g, at + 2 + length);
  }

  /** A length beyond the limit or the end of the buffer. */
  lemma UnfittingLength(s: seq<u8>, f: Frame, length: u16)
    requires Canonical(f) && HasCheck(f.flags) && LengthAt(f.flags) + 2 <= |s| && Found(s, f)
    requires length > MAX_PAYLOAD || length + 4 > |s| - LengthAt(f.flags) - 2
    ensures Decode(Relabelled(s, LengthAt(f.flags), length)).Refused?
  {
    RelabelledTail(s, LengthAt(f.flags), length);
  }

  /** What becomes of a checked frame whose payload length is altered, whatever follows the frame.
      With t for everything after the length, it is accepted exactly when the new length is
      within the limit and the check of the frame with that much of t for its payload stands
      right behind it. */
  lemma AlteredLength(s: seq<u8>, f: Frame, n: nat, length: u16)
    requires Decode(s) == Decoded(f, n) && HasCheck(f.flags)
    ensures LengthAt(f.flags) + 2 <= |s| && f.major < 16 && f.class_ < 16
    ensures var t := s[LengthAt(f.flags) + 2..];
            Decode(Relabelled(s, LengthAt(f.flags), length)).Decoded? <==>
            && length <= MAX_PAYLOAD && length + 4 <= |t|
            && t[length..length + 4] == Put32(Crc32.Crc(Covered(Carrying(f, t[..length]), f.major)))
  {
    AcceptedIsFound(s, f, n);
    FoundLength(s, f, length, s[LengthAt(f.flags) + 2..]);
  }

  lemma FoundLength(s: seq<u8>, f: Frame, length: u16, t: seq<u8>)
    requires Canonical(f) && HasCheck(f.flags) && LengthAt(f.flags) + 2 <= |s| && Found(s, f)
    requires t == s[LengthAt(f.flags) + 2..]
    ensures Decode(Relabelled(s, LengthAt(f.flags), length)).Decoded? <==>
            && length <= MAX_PAYLOAD && length + 4 <= |t|
            && t[length..length + 4] == Put32(Crc32.Crc(Covered(Carrying(f, t[..length]), f.major)))
  {
    if length <= MAX_PAYLOAD && length + 4 <= |t| {
      FittingLength(s, f, Carrying(f, t[..length]), t);
    } else {
      UnfittingLength(s, f, length);
    }
  }

  /** Payload and check together: what follows the length of a frame that ends its buffer. */
  function Trailer(f: Frame): seq<u8>
    requires Canonical(f)
  {
    f.payload + Put32(Crc32.Crc(Covered(f, f.major)))
  }

  lemma EndsInTrailer(s: seq<u8>, f: Frame)
    requires Canonical(f) && HasCheck(f.flags) && s == Encoded(f, f.major)
    ensures |Header(f, f.major)| == LengthAt(f.flags) + 2 <= |s|
    ensures s[LengthAt(f.flags) + 2..] == Trailer(f)
  {
    assert s == Header(f, f.major) + Trailer(f);
  }

  /** When the buffer ends with the frame there is nothing for a greater length to read: only a
      smaller one is ever accepted. */
  lemma AlteredLengthAtTheEnd(s: seq<u8>, f: Frame, length: u16)
    requires Decode(s) == Decoded(f, |s|) && HasCheck(f.flags) && length != |f.payload|
    ensures LengthAt(f.flags) + 2 <= |s| && Canonical(f)
    ensures Decode(Relabelled(s, LengthAt(f.flags), length)).Decoded? <==>
            && length < |f.payload|
            && Trailer(f)[length..length + 4] == Put32(Crc32.Crc(Covered(Carrying(f, f.payload[..length]), f.major)))
  {
    AcceptedReEncodes(s, f, |s|);
    assert s[..|s|] == s;
    EndsInTrailer(s, f);
    AlteredLength(s, f, |s|, length);
    assert length < |f.payload| ==> Trailer(f)[..length] == f.payload[..length];
  }

  lemma EmptyIsAccepted(flags: u8, rest: seq<u8>)
    requires HasCheck(flags) && !HasReserved(flags)
    ensures var s := Sealed(Plain(flags, 0)) + rest;
            && Decode(s).Decoded? && Decode(s).frame.flags == flags && Decode(s).frame.payload == []
            && Decode(s).consumed == LengthAt(flags) + 6
  {
    PlainOpens(flags, 0);
    SealedIsAccepted(Plain(flags, 0), rest);
    var s := Sealed(Plain(flags, 0)) + rest;
    AcceptedIsParsed(s, Decode(s).frame, Decode(s).consumed);
  }

  /** The byte of the length that a length below 256, or a multiple of it, is written in. */
  predicate LengthByte(flags: u8, length: u16, k: nat) {
    (k == LengthAt(flags) && length % 0x100 == 0) || (k == LengthAt(flags) + 1 && length < 0x100)
  }

  lemma RaisedBuffer(flags: u8, pad: seq<u8>, k: nat) returns (s: seq<u8>, v: u8, rest: seq<u8>)
    requires HasCheck(flags) && !HasReserved(flags) && |pad| + 4 <= MAX_PAYLOAD && LengthByte(flags, |pad| + 4, k)
    ensures s == Sealed(Plain(flags, 0)) + rest && rest != [] && k < LengthAt(flags) + 2 && s[k] == 0 < v
    ensures s[k := v] == TwoWays(Plain(flags, |pad| + 4), k, 0, pad)
  {
    var p := Plain(flags, |pad| + 4);
    PlainOpens(flags, |pad| + 4);
    assert p[k := 0] == Plain(flags, 0);
    rest := ChangedWay(p, k, 0, pad);
    var whole := TwoWays(p, k, 0, pad);
    s, v := whole[k := 0], whole[k];
  }

  lemma RaisedIsAccepted(flags: u8, pad: seq<u8>, k: nat)
    requires HasCheck(flags) && !HasReserved(flags) && |pad| + 4 <= MAX_PAYLOAD && k < LengthAt(flags) + 2
    ensures var s := TwoWays(Plain(flags, |pad| + 4), k, 0, pad); Decode(s).Decoded? && Decode(s).consumed == |s|
  {
    PlainOpens(flags, |pad| + 4);
    LongWayIsAccepted(Plain(flags, |pad| + 4), k, 0, pad);
  }

  /** When more bytes follow, a greater length may be accepted as well: for all flags, and whatever
      pad lies between, there is a buffer that begins with a checked frame without payload,
      and is a checked frame from end to end once one byte of the length is raised. */
  lemma RaisedLengthIsExposed(flags: u8, pad: seq<u8>, k: nat) returns (s: seq<u8>, v: u8)
    requires HasCheck(flags) && !HasReserved(flags) && |pad| + 4 <= MAX_PAYLOAD && LengthByte(flags, |pad| + 4, k)
    ensures Hit(s, flags, k, v) && s[k] < v && Decode(s).frame.payload == [] && Decode(s).consumed < |s|
    ensures Decode(s[k := v]).Decoded? && Decode(s[k := v]).consumed == |s|
  {
    var rest;
    s, v, rest := RaisedBuffer(flags, pad, k);
    EmptyIsAccepted(flags, rest);
    RaisedIsAccepted(flags, pad, k);
  }
}
