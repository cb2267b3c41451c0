/** The Link frame of src/link.c: layout, strict decoding, and the exact correspondence
    between canonical frames and accepted bytes. */
module Frame {
  import opened Words
  import Crc32

  const FRAME_MAJOR: u8 := 0
  const STABLE_MAJOR: u8 := 1
  const MIN_SIZE: nat := 8
  const MAX_PAYLOAD: nat := 1024
  const MAX_OPTIONAL: nat := 16
  const CLASS_ADAPT: u8 := 7
  const CLASS_HANDOFF: u8 := 8
  const CLASS_COUNT: u8 := 10

  datatype Frame = Frame(
    major: u8,
    class_: u8,
    flags: u8,
    source: u32,
    destination: u32,
    session: u32,
    sequence: u16,
    freshness: u16,
    payload: seq<u8>)

  // Flag bits 0 to 4; bits 5 to 7 are reserved.
  predicate HasDestination(flags: u8) { flags % 2 == 1 }
  predicate HasSession(flags: u8) { flags / 2 % 2 == 1 }
  predicate HasSequence(flags: u8) { flags / 4 % 2 == 1 }
  predicate HasFreshness(flags: u8) { flags / 8 % 2 == 1 }
  predicate HasCheck(flags: u8) { flags / 16 % 2 == 1 }
  predicate HasReserved(flags: u8) { flags / 32 != 0 }

  function OptionalSize(flags: u8): nat {
    (if HasDestination(flags) then 4 else 0) + (if HasSession(flags) then 4 else 0)
    + (if HasSequence(flags) then 2 else 0) + (if HasFreshness(flags) then 2 else 0)
    + (if HasCheck(flags) then 4 else 0)
  }

  predicate Encodable(f: Frame) {
    && f.class_ < CLASS_COUNT
    && f.class_ != CLASS_ADAPT
    && !HasReserved(f.flags)
    && |f.payload| <= MAX_PAYLOAD
  }

  /** Exact encoded size, or 0 for a frame that has no encoding. */
  function EncodedSize(f: Frame): nat {
    if Encodable(f) then MIN_SIZE + OptionalSize(f.flags) + |f.payload| else 0
  }

  // ---- Numbers in network order ----------------------------------------------------

  function Put16(v: u16): (s: seq<u8>)
    ensures |s| == 2
  {
    [v / 0x100, v % 0x100]
  }

  function Put32(v: u32): (s: seq<u8>)
    ensures |s| == 4
  {
    [v / 0x100_0000, v / 0x1_0000 % 0x100, v / 0x100 % 0x100, v % 0x100]
  }

  function Get16(s: seq<u8>, at: nat): u16
    requires at + 2 <= |s|
  {
    (s[at] as int) * 0x100 + s[at + 1]
  }

  function Get32(s: seq<u8>, at: nat): u32
    requires at + 4 <= |s|
  {
    (s[at] as int) * 0x100_0000 + (s[at + 1] as int) * 0x1_0000 + (s[at + 2] as int) * 0x100 + s[at + 3]
  }

  lemma PutGet32(s: seq<u8>, at: nat, v: u32)
    requires at + 4 <= |s|
    ensures s[at..at + 4] == Put32(v) <==> Get32(s, at) == v
  {
    var w := s[at..at + 4];
    assert w[0] == s[at] && w[1] == s[at + 1] && w[2] == s[at + 2] && w[3] == s[at + 3];
    if w == Put32(v) {
      Assembled(v);
    }
    if Get32(s, at) == v {
      Digits(w[0], w[1], w[2], w[3]);
      assert w == Put32(v);
    }
  }

  lemma Assembled(v: u32)
    ensures v / 0x100_0000 * 0x100_0000 + v / 0x1_0000 % 0x100 * 0x1_0000 + v / 0x100 % 0x100 * 0x100 + v % 0x100 == v
  {
    var x, y, z := v / 0x100, v / 0x1_0000, v / 0x100_0000;
    assert y == x / 0x100 && z == y / 0x100;
    assert v == 0x100 * x + v % 0x100 && x == 0x100 * y + x % 0x100 && y == 0x100 * z + y % 0x100;
  }

  lemma Digits(a: u8, b: u8, c: u8, d: u8)
    ensures var v := a as int * 0x100_0000 + b as int * 0x1_0000 + c as int * 0x100 + d;
            a == v / 0x100_0000 && b == v / 0x1_0000 % 0x100 && c == v / 0x100 % 0x100 && d == v % 0x100
  {
    var x: int := a;
    var y := x * 0x100 + b;
    var z := y * 0x100 + c;
    var v := z * 0x100 + d;
    assert v / 0x100 == z && v % 0x100 == d;
    assert z / 0x100 == y && z % 0x100 == c && v / 0x1_0000 == y;
    assert y / 0x100 == x && y % 0x100 == b && v / 0x100_0000 == x;
  }

  // ---- Layout ------------------------------------------------------------------------

  function Field(present: bool, bytes: seq<u8>): seq<u8> {
    if present then bytes else []
  }

  function Head(f: Frame, major: u8): (s: seq<u8>)
    requires major < 16 && f.class_ < 16
    ensures |s| == 6
  {
    [major * 16 + f.class_, f.flags] + Put32(f.source)
  }

  function Header(f: Frame, major: u8): (s: seq<u8>)
    requires major < 16 && f.class_ < 16 && |f.payload| <= MAX_PAYLOAD
  {
    Head(f, major)
    + Field(HasDestination(f.flags), Put32(f.destination))
    + Field(HasSession(f.flags), Put32(f.session))
    + Field(HasSequence(f.flags), Put16(f.sequence))
    + Field(HasFreshness(f.flags), Put16(f.freshness))
    + Put16(|f.payload|)
  }

  /** Everything the frame check covers. */
  function Covered(f: Frame, major: u8): seq<u8>
    requires major < 16 && f.class_ < 16 && |f.payload| <= MAX_PAYLOAD
  {
    Header(f, major) + f.payload
  }

  /** The bytes of a frame at a major. */
  function Encoded(f: Frame, major: u8): seq<u8>
    requires major < 16 && Encodable(f)
  {
    var body := Covered(f, major);
    body + Field(HasCheck(f.flags), Put32(Crc32.Crc(body)))
  }

  lemma EncodedHasItsSize(f: Frame, major: u8)
    requires major < 16 && Encodable(f)
    ensures |Encoded(f, major)| == EncodedSize(f)
  {
  }

  // ---- Decoding -----------------------------------------------------------------------

  datatype Decoding = Decoded(frame: Frame, consumed: nat) | Refused(status: Status)

  // Where the optional fields start.
  function SessionAt(flags: u8): nat { 6 + if HasDestination(flags) then 4 else 0 }
  function SequenceAt(flags: u8): nat { SessionAt(flags) + if HasSession(flags) then 4 else 0 }
  function FreshnessAt(flags: u8): nat { SequenceAt(flags) + if HasSequence(flags) then 2 else 0 }
  function LengthAt(flags: u8): nat { FreshnessAt(flags) + if HasFreshness(flags) then 2 else 0 }

  /** Where the frame check starts, or the frame ends when it has none. */
  function CoveredSize(s: seq<u8>): nat
    requires |s| >= MIN_SIZE && |s| >= MIN_SIZE + OptionalSize(s[1])
  {
    LengthAt(s[1]) + 2 + Get16(s, LengthAt(s[1]))
  }

  function Parsed(s: seq<u8>): Frame
    requires |s| >= MIN_SIZE && |s| >= MIN_SIZE + OptionalSize(s[1]) && CoveredSize(s) <= |s|
  {
    var flags := s[1];
    Frame(s[0] / 16, s[0] % 16, flags, Get32(s, 2),
          if HasDestination(flags) then Get32(s, 6) else 0,
          if HasSession(flags) then Get32(s, SessionAt(flags)) else 0,
          if HasSequence(flags) then Get16(s, SequenceAt(flags)) else 0,
          if HasFreshness(flags) then Get16(s, FreshnessAt(flags)) else 0,
          s[LengthAt(flags) + 2..CoveredSize(s)])
  }

  /** The verdict of the decoder on a buffer, checks in the order of the source. */
  function Decode(s: seq<u8>): Decoding {
    if |s| < MIN_SIZE then Refused(Truncated)
    else if s[0] / 16 != FRAME_MAJOR && s[0] / 16 != STABLE_MAJOR then Refused(IncompatibleVersion)
    else if s[0] % 16 >= CLASS_COUNT || s[0] % 16 == CLASS_ADAPT then Refused(Range)
    else if HasReserved(s[1]) then Refused(Range)
    else if |s| < MIN_SIZE + OptionalSize(s[1]) then Refused(Truncated)
    else if Get16(s, LengthAt(s[1])) > MAX_PAYLOAD then Refused(Range)
    else
      var end := CoveredSize(s);
      if |s| < end then Refused(Truncated)
      else if !HasCheck(s[1]) then Decoded(Parsed(s), end)
      else if |s| < end + 4 then Refused(Truncated)
      else if Get32(s, end) != Crc32.Crc(s[..end]) then Refused(FrameCheck)
      else Decoded(Parsed(s), end + 4)
  }

  /** A frame as decoding leaves it: encodable at an assigned major, absent fields zero. */
  predicate Canonical(f: Frame) {
    && Encodable(f)
    && (f.major == FRAME_MAJOR || f.major == STABLE_MAJOR)
    && (!HasDestination(f.flags) ==> f.destination == 0)
    && (!HasSession(f.flags) ==> f.session == 0)
    && (!HasSequence(f.flags) ==> f.sequence == 0)
    && (!HasFreshness(f.flags) ==> f.freshness == 0)
  }

  /** What decoding makes of a frame the caller filled in: the major it was sent at, and zero
      in every field its flags leave out. */
  function Cleared(f: Frame, major: u8): (g: Frame)
  {
    f.(major := major,
       destination := if HasDestination(f.flags) then f.destination else 0,
       session := if HasSession(f.flags) then f.session else 0,
       sequence := if HasSequence(f.flags) then f.sequence else 0,
       freshness := if HasFreshness(f.flags) then f.freshness else 0)
  }

  // ---- One field at a time -------------------------------------------------------------

  /** The bytes of s up to `at` are exactly `prefix`. */
  predicate Reads(s: seq<u8>, prefix: seq<u8>, at: nat) {
    |prefix| == at <= |s| && s[..at] == prefix
  }

  lemma Append(s: seq<u8>, prefix: seq<u8>, at: nat, bytes: seq<u8>)
    requires |prefix| == at && at + |bytes| <= |s|
    ensures Reads(s, prefix + bytes, at + |bytes|) <==> Reads(s, prefix, at) && s[at..at + |bytes|] == bytes
  {
  }

  lemma AppendField32(s: seq<u8>, prefix: seq<u8>, at: nat, present: bool, v: u32)
    requires |prefix| == at && at + (if present then 4 else 0) <= |s|
    ensures Reads(s, prefix + Field(present, Put32(v)), at + if present then 4 else 0)
            <==> Reads(s, prefix, at) && (present ==> Get32(s, at) == v)
  {
    Append(s, prefix, at, Field(present, Put32(v)));
    if present {
      PutGet32(s, at, v);
    }
  }

  lemma AppendField16(s: seq<u8>, prefix: seq<u8>, at: nat, present: bool, v: u16)
    requires |prefix| == at && at + (if present then 2 else 0) <= |s|
    ensures Reads(s, prefix + Field(present, Put16(v)), at + if present then 2 else 0)
            <==> Reads(s, prefix, at) && (present ==> Get16(s, at) == v)
  {
  }

  /** The field values of a frame are the ones found at their places in s. */
  predicate Found(s: seq<u8>, f: Frame)
    requires f.class_ < 16 && LengthAt(f.flags) + 2 <= |s|
  {
    && s[0] / 16 == f.major && s[0] % 16 == f.class_ && s[1] == f.flags && Get32(s, 2) == f.source
    && (HasDestination(f.flags) ==> Get32(s, 6) == f.destination)
    && (HasSession(f.flags) ==> Get32(s, SessionAt(f.flags)) == f.session)
    && (HasSequence(f.flags) ==> Get16(s, SequenceAt(f.flags)) == f.sequence)
    && (HasFreshness(f.flags) ==> Get16(s, FreshnessAt(f.flags)) == f.freshness)
    && Get16(s, LengthAt(f.flags)) == |f.payload|
  }

  lemma HeadIsRead(s: seq<u8>, f: Frame)
    requires f.major < 16 && f.class_ < 16 && |s| >= 6
    ensures Reads(s, Head(f, f.major), 6) <==>
            s[0] / 16 == f.major && s[0] % 16 == f.class_ && s[1] == f.flags && Get32(s, 2) == f.source
  {
    var first := [f.major * 16 + f.class_, f.flags];
    Append(s, first, 2, Put32(f.source));
    PutGet32(s, 2, f.source);
    assert Reads(s, first, 2) <==> s[0] == f.major * 16 + f.class_ && s[1] == f.flags;
  }

  /** Both directions at once: a buffer starts with the header of a frame exactly when every
      field is found in its place. */
  lemma HeaderIsRead(s: seq<u8>, f: Frame)
    requires f.major < 16 && f.class_ < 16 && |f.payload| <= MAX_PAYLOAD && LengthAt(f.flags) + 2 <= |s|
    ensures Reads(s, Header(f, f.major), LengthAt(f.flags) + 2) <==> Found(s, f)
  {
    HeadIsRead(s, f);
    var h0 := Head(f, f.major);
    var h1 := h0 + Field(HasDestination(f.flags), Put32(f.destination));
    AppendField32(s, h0, 6, HasDestination(f.flags), f.destination);
    var h2 := h1 + Field(HasSession(f.flags), Put32(f.session));
    AppendField32(s, h1, SessionAt(f.flags), HasSession(f.flags), f.session);
    var h3 := h2 + Field(HasSequence(f.flags), Put16(f.sequence));
    AppendField16(s, h2, SequenceAt(f.flags), HasSequence(f.flags), f.sequence);
    var h4 := h3 + Field(HasFreshness(f.flags), Put16(f.freshness));
    AppendField16(s, h3, FreshnessAt(f.flags), HasFreshness(f.flags), f.freshness);
    AppendField16(s, h4, LengthAt(f.flags), true, |f.payload|);
    assert Header(f, f.major) == h4 + Field(true, Put16(|f.payload|));
  }
}
