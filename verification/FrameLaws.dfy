/** The frame in numbers: which bytes are accepted, where each field lies, and the reason of every
    refusal, without the names the codec gives them (include/mcl/link.h). */
module FrameLaws {
  import opened Words
  import opened Frame
  import opened FrameTheorems
  import Crc32

  /** The nine classes that travel; 7 is reserved. */
  predicate Travels(class_: int) {
    class_ in {0, 1, 2, 3, 4, 5, 6, 8, 9}
  }

  /** The size of the optional fields before the payload length, by flag bit. */
  function Optional(flags: u8): nat {
    4 * (flags % 2) + 4 * (flags / 2 % 2) + 2 * (flags / 4 % 2) + 2 * (flags / 8 % 2)
  }

  /** The size of the frame check. */
  function Check(flags: u8): nat {
    4 * (flags / 16 % 2)
  }

  /** Two and four bytes as a number, most significant first. */
  function Number2(s: seq<u8>, at: nat): int
    requires at + 2 <= |s|
  {
    s[at] as int * 256 + s[at + 1]
  }

  function Number4(s: seq<u8>, at: nat): int
    requires at + 4 <= |s|
  {
    s[at] as int * 16777216 + s[at + 1] as int * 65536 + s[at + 2] as int * 256 + s[at + 3]
  }

  /** The first two bytes are those of a frame. */
  predicate KnownStart(s: seq<u8>)
    requires |s| > 1
  {
    s[0] < 32 && Travels(s[0] % 16) && s[1] < 32
  }

  /** The header is there, and how many payload bytes it announces. */
  predicate HasHeader(s: seq<u8>)
    requires |s| > 1
  {
    |s| >= 8 + Optional(s[1]) + Check(s[1])
  }

  function Announced(s: seq<u8>): nat
    requires |s| > 1 && HasHeader(s)
  {
    Number2(s, 6 + Optional(s[1]))
  }

  predicate IsWhole(s: seq<u8>)
    requires |s| > 1 && HasHeader(s)
  {
    |s| >= 8 + Optional(s[1]) + Announced(s) + Check(s[1])
  }

  predicate IsRight(s: seq<u8>)
    requires |s| > 1 && HasHeader(s) && IsWhole(s)
  {
    var end := 8 + Optional(s[1]) + Announced(s);
    Check(s[1]) == 0 || Number4(s, end) == Crc32.Crc(s[..end])
  }

  lemma SizesAgree(flags: u8)
    ensures LengthAt(flags) == 6 + Optional(flags) && OptionalSize(flags) == Optional(flags) + Check(flags)
    ensures HasReserved(flags) <==> flags >= 32
    ensures flags < 32 ==> (HasCheck(flags) <==> flags >= 16)
  {
  }

  lemma MajorAgrees(b: u8)
    ensures b / 16 == FRAME_MAJOR || b / 16 == STABLE_MAJOR <==> b < 32
    ensures b % 16 < CLASS_COUNT && b % 16 != CLASS_ADAPT <==> Travels(b % 16)
  {
  }

  lemma NumbersAgree(s: seq<u8>, at: nat)
    requires at + 2 <= |s|
    ensures Number2(s, at) == Get16(s, at) && (at + 4 <= |s| ==> Number4(s, at) == Get32(s, at))
  {
  }

  lemma HeaderAgrees(s: seq<u8>)
    requires |s| >= 8
    ensures HasHeader(s) <==> |s| >= MIN_SIZE + OptionalSize(s[1])
    ensures HasHeader(s) ==>
              && Announced(s) == Get16(s, LengthAt(s[1])) && CoveredSize(s) == 8 + Optional(s[1]) + Announced(s)
  {
    SizesAgree(s[1]);
  }

  lemma VerdictsOnStart(s: seq<u8>)
    requires |s| < 8 || !KnownStart(s)
    ensures Decode(s) == Refused(if |s| < 8 then Truncated else if s[0] >= 32 then IncompatibleVersion else Range)
  {
    if |s| >= 8 {
      SizesAgree(s[1]);
      MajorAgrees(s[0]);
    }
  }

  lemma VerdictsOnHeader(s: seq<u8>)
    requires |s| >= 8 && KnownStart(s) && (!HasHeader(s) || Announced(s) > 1024 || !IsWhole(s))
    ensures Decode(s) == Refused(if HasHeader(s) && Announced(s) > 1024 then Range else Truncated)
  {
    SizesAgree(s[1]);
    MajorAgrees(s[0]);
    HeaderAgrees(s);
  }

  lemma CheckAgrees(s: seq<u8>)
    requires |s| >= 8 && KnownStart(s) && HasHeader(s) && IsWhole(s)
    ensures |s| >= MIN_SIZE + OptionalSize(s[1]) && CoveredSize(s) <= |s|
    ensures HasCheck(s[1]) ==> CoveredSize(s) + 4 <= |s|
    ensures IsRight(s) <==> HasCheck(s[1]) ==> Get32(s, CoveredSize(s)) == Crc32.Crc(s[..CoveredSize(s)])
  {
    SizesAgree(s[1]);
    HeaderAgrees(s);
    if HasCheck(s[1]) {
      NumbersAgree(s, CoveredSize(s));
    }
  }

  lemma VerdictsOnWhole(s: seq<u8>)
    requires |s| >= 8 && KnownStart(s) && HasHeader(s) && Announced(s) <= 1024 && IsWhole(s)
    ensures if IsRight(s) then Decode(s).Decoded? else Decode(s) == Refused(FrameCheck)
  {
    SizesAgree(s[1]);
    MajorAgrees(s[0]);
    HeaderAgrees(s);
    CheckAgrees(s);
  }

  /** Every verdict and its reason. */
  lemma Verdicts(s: seq<u8>)
    ensures Decode(s) == Refused(IncompatibleVersion) <==> |s| >= 8 && s[0] >= 32
    ensures Decode(s) == Refused(Range) <==>
            |s| >= 8 && s[0] < 32 && (!KnownStart(s) || (HasHeader(s) && Announced(s) > 1024))
    ensures Decode(s) == Refused(Truncated) <==>
            || |s| < 8
            || (KnownStart(s) && (!HasHeader(s) || (Announced(s) <= 1024 && !IsWhole(s))))
    ensures Decode(s) == Refused(FrameCheck) <==>
            |s| >= 8 && KnownStart(s) && HasHeader(s) && Announced(s) <= 1024 && IsWhole(s) && !IsRight(s)
    ensures Decode(s).Decoded? <==>
            |s| >= 8 && KnownStart(s) && HasHeader(s) && Announced(s) <= 1024 && IsWhole(s) && IsRight(s)
  {
    if |s| < 8 || !KnownStart(s) {
      VerdictsOnStart(s);
    } else if !HasHeader(s) || Announced(s) > 1024 || !IsWhole(s) {
      VerdictsOnHeader(s);
    } else {
      VerdictsOnWhole(s);
    }
  }

  /** The fields at their places, absent ones zero. */
  function Fields(s: seq<u8>): Frame
    requires |s| >= 8 && HasHeader(s) && IsWhole(s)
  {
    var flags := s[1];
    var d, e, q := 4 * (flags % 2), 4 * (flags / 2 % 2), 2 * (flags / 4 % 2);
    Frame(s[0] / 16, s[0] % 16, flags, Number4(s, 2),
          if d > 0 then Number4(s, 6) else 0,
          if e > 0 then Number4(s, 6 + d) else 0,
          if q > 0 then Number2(s, 6 + d + e) else 0,
          if flags / 8 % 2 == 1 then Number2(s, 6 + d + e + q) else 0,
          s[8 + Optional(flags)..8 + Optional(flags) + Announced(s)])
  }

  lemma PlacesAgree(flags: u8)
    ensures var d, e, q := 4 * (flags % 2), 4 * (flags / 2 % 2), 2 * (flags / 4 % 2);
            && (HasDestination(flags) <==> d > 0) && (HasSession(flags) <==> e > 0) && (HasSequence(flags) <==> q > 0)
            && (HasFreshness(flags) <==> flags / 8 % 2 == 1)
            && SessionAt(flags) == 6 + d && SequenceAt(flags) == 6 + d + e && FreshnessAt(flags) == 6 + d + e + q
  {
  }

  lemma ParsedFields(s: seq<u8>)
    requires |s| >= 8 && HasHeader(s) && IsWhole(s)
    ensures |s| >= MIN_SIZE + OptionalSize(s[1]) && CoveredSize(s) == 8 + Optional(s[1]) + Announced(s)
    ensures Parsed(s) == Fields(s)
  {
    SizesAgree(s[1]);
    PlacesAgree(s[1]);
    HeaderAgrees(s);
  }

  /** Where each field of an accepted frame was read. */
  lemma FieldsAreRead(s: seq<u8>)
    requires Decode(s).Decoded?
    ensures |s| >= 8 && HasHeader(s) && IsWhole(s)
    ensures Decode(s) == Decoded(Fields(s), 8 + Optional(s[1]) + Announced(s) + Check(s[1]))
  {
    Verdicts(s);
    ParsedFields(s);
    SizesAgree(s[1]);
  }

  /** What an accepted buffer begins with. */
  lemma AcceptedStart(s: seq<u8>)
    requires Decode(s).Decoded?
    ensures |s| >= 8 && s[0] / 16 in {0, 1} && s[0] % 16 in {0, 1, 2, 3, 4, 5, 6, 8, 9} && s[1] < 32
  {
    Verdicts(s);
  }

  /** And conversely: a frame without optional fields, of either major and any class that travels,
      from any source and with any payload of at most 1024 bytes, is accepted byte for byte. */
  lemma PlainFrameIsAccepted(major: u8, class_: u8, source: seq<u8>, payload: seq<u8>, tail: seq<u8>)
    requires major in {0, 1} && class_ in {0, 1, 2, 3, 4, 5, 6, 8, 9} && |source| == 4 && |payload| <= 1024
    ensures var s := [16 * major + class_, 0] + source + [|payload| / 256, |payload| % 256] + payload + tail;
            Decode(s) == Decoded(Frame(major, class_, 0, Number4(source, 0), 0, 0, 0, 0, payload), 8 + |payload|)
  {
    var s := [16 * major + class_, 0] + source + [|payload| / 256, |payload| % 256] + payload + tail;
    PlainBytes(major, class_, source, payload, tail);
    PlainRead(s, |payload|);
  }

  lemma PlainBytes(major: u8, class_: u8, source: seq<u8>, payload: seq<u8>, tail: seq<u8>)
    requires major < 2 && class_ < 10 && |source| == 4 && |payload| <= 1024
    ensures var s := [16 * major + class_, 0] + source + [|payload| / 256, |payload| % 256] + payload + tail;
            && |s| >= 8 + |payload| && s[0] == 16 * major + class_ && s[1] == 0
            && Number4(s, 2) == Number4(source, 0) && Number2(s, 6) == |payload| && s[8..8 + |payload|] == payload
  {
  }

  lemma PlainFields(s: seq<u8>, length: u16)
    requires |s| >= 8 + length && s[0] < 32 && s[1] == 0 && Number2(s, 6) == length
    ensures HasHeader(s) && Announced(s) == length && IsWhole(s) && IsRight(s)
    ensures Fields(s) == Frame(s[0] / 16, s[0] % 16, 0, Number4(s, 2), 0, 0, 0, 0, s[8..8 + length])
    ensures 8 + Optional(s[1]) + Announced(s) + Check(s[1]) == 8 + length
  {
  }

  lemma PlainRead(s: seq<u8>, length: u16)
    requires |s| >= 8 + length && s[0] < 32 && Travels(s[0] % 16) && s[1] == 0 && Number2(s, 6) == length <= 1024
    ensures Decode(s) ==
            Decoded(Frame(s[0] / 16, s[0] % 16, 0, Number4(s, 2), 0, 0, 0, 0, s[8..8 + length]), 8 + length)
  {
    PlainFields(s, length);
    VerdictsOnWhole(s);
    FieldsAreRead(s);
  }

  /** A KEEPALIVE with nothing in it is accepted, and the same bytes under class 7 are not. */
  lemma KeepaliveAndAdapt()
    ensures Decode([0x06, 0, 0, 0, 0, 1, 0, 0]) == Decoded(Frame(0, 6, 0, 1, 0, 0, 0, 0, []), 8)
    ensures Decode([0x07, 0, 0, 0, 0, 1, 0, 0]) == Refused(Range)
  {
    PlainFrameIsAccepted(0, 6, [0, 0, 0, 1], [], []);
    assert [0x06, 0] + [0, 0, 0, 1] + [0, 0] + [] + [] == [0x06, 0, 0, 0, 0, 1, 0, 0];
    Verdicts([0x07, 0, 0, 0, 0, 1, 0, 0]);
  }

  /** Which frames have an encoding, and its size. */
  lemma EncodableInNumbers(f: Frame)
    ensures Encodable(f) <==> Travels(f.class_) && f.flags < 32 && |f.payload| <= 1024
    ensures EncodedSize(f) ==
            if Encodable(f) then 8 + Optional(f.flags) + |f.payload| + Check(f.flags) else 0
  {
    SizesAgree(f.flags);
  }
}
