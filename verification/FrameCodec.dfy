/** The encoder and decoder of src/link.c as they run: a position advancing over a buffer. */
module FrameCodec {
  import opened Words
  import opened Frame
  import Crc32

  /** The buffer holds `bytes` up to `pos` and, from there on, what it held before. */
  predicate Wrote(now: seq<u8>, before: seq<u8>, bytes: seq<u8>, pos: nat) {
    |now| == |before| && pos == |bytes| <= |now| && now[..pos] == bytes && now[pos..] == before[pos..]
  }

  method Write(out: array<u8>, bytes: seq<u8>, pos: nat, ghost before: seq<u8>, ghost sofar: seq<u8>)
    returns (next: nat)
    requires Wrote(out[..], before, sofar, pos) && pos + |bytes| <= out.Length
    modifies out
    ensures next == pos + |bytes| && Wrote(out[..], before, sofar + bytes, next)
  {
    for i := 0 to |bytes|
      invariant out[..pos] == sofar
      invariant forall k :: 0 <= k < i ==> out[pos + k] == bytes[k]
      invariant forall k :: pos + i <= k < out.Length ==> out[k] == before[k]
    {
      out[pos + i] := bytes[i];
    }
    next := pos + |bytes|;
    assert out[..next] == sofar + bytes;
    assert out[next..] == before[next..];
  }

  /** Write the field if its flag is set. */
  method WriteField(out: array<u8>, present: bool, bytes: seq<u8>, pos: nat, ghost before: seq<u8>,
          ghost sofar: seq<u8>)
    returns (next: nat)
    requires Wrote(out[..], before, sofar, pos) && pos + |Field(present, bytes)| <= out.Length
    modifies out
    ensures next == pos + |Field(present, bytes)|
    ensures Wrote(out[..], before, sofar + Field(present, bytes), next)
  {
    next := pos;
    if present {
      next := Write(out, bytes, pos, before, sofar);
    } else {
      assert sofar + Field(present, bytes) == sofar;
    }
  }

  method WriteHeader(major: u8, f: Frame, out: array<u8>) returns (pos: nat)
    requires major < 16 && Encodable(f) && |Header(f, major)| <= out.Length
    modifies out
    ensures pos == |Header(f, major)| && Wrote(out[..], old(out[..]), Header(f, major), pos)
  {
    ghost var before := out[..];
    var first := [major * 16 + f.class_, f.flags];
    pos := Write(out, first, 0, before, []);
    assert [] + first == first;
    pos := Write(out, Put32(f.source), pos, before, first);
    ghost var done := Head(f, major);
    pos := WriteField(out, HasDestination(f.flags), Put32(f.destination), pos, before, done);
    done := done + Field(HasDestination(f.flags), Put32(f.destination));
    pos := WriteField(out, HasSession(f.flags), Put32(f.session), pos, before, done);
    done := done + Field(HasSession(f.flags), Put32(f.session));
    pos := WriteField(out, HasSequence(f.flags), Put16(f.sequence), pos, before, done);
    done := done + Field(HasSequence(f.flags), Put16(f.sequence));
    pos := WriteField(out, HasFreshness(f.flags), Put16(f.freshness), pos, before, done);
    done := done + Field(HasFreshness(f.flags), Put16(f.freshness));
    pos := Write(out, Put16(|f.payload|), pos, before, done);
  }

  /** Encode at a major. The buffer beyond the frame, and the whole buffer on any refusal, is
      left as it was. */
  method EncodeAtMajor(major: u8, f: Frame, out: array<u8>) returns (status: Status, written: nat)
    modifies out
    ensures status == (if major != FRAME_MAJOR && major != STABLE_MAJOR then IncompatibleVersion
                       else if !Encodable(f) || out.Length < EncodedSize(f) then Range
                       else Ok)
    ensures status == Ok <==>
            && major in {0, 1} && f.class_ in {0, 1, 2, 3, 4, 5, 6, 8, 9} && f.flags < 32 && |f.payload| <= 1024
            && 8 + OptionalSize(f.flags) + |f.payload| <= out.Length
    ensures status == Ok ==> written == EncodedSize(f) && Wrote(out[..], old(out[..]), Encoded(f, major), written)
    ensures status != Ok ==> out[..] == old(out[..])
  {
    if major != FRAME_MAJOR && major != STABLE_MAJOR { return IncompatibleVersion, 0; }
    if !Encodable(f) { return Range, 0; }
    if out.Length < EncodedSize(f) { return Range, 0; }
    EncodedHasItsSize(f, major);
    ghost var before := out[..];
    var pos := WriteHeader(major, f, out);
    pos := Write(out, f.payload, pos, before, Header(f, major));
    var crc := Crc32.ComputeCrc(out[..pos]);
    pos := WriteField(out, HasCheck(f.flags), Put32(crc), pos, before, Covered(f, major));
    return Ok, pos;
  }

  /** Read the field if its flag is set; an absent field is zero. */
  method Read32(input: seq<u8>, present: bool, pos: nat) returns (v: u32, next: nat)
    requires pos + (if present then 4 else 0) <= |input|
    ensures v == (if present then Get32(input, pos) else 0) && next == pos + if present then 4 else 0
  {
    v, next := 0, pos;
    if present {
      v, next := Get32(input, pos), pos + 4;
    }
  }

  method Read16(input: seq<u8>, present: bool, pos: nat) returns (v: u16, next: nat)
    requires pos + (if present then 2 else 0) <= |input|
    ensures v == (if present then Get16(input, pos) else 0) && next == pos + if present then 2 else 0
  {
    v, next := 0, pos;
    if present {
      v, next := Get16(input, pos), pos + 2;
    }
  }

  /** The fields between the flags and the payload. */
  method DecodeFields(input: seq<u8>) returns (frame: Frame, length: u16, pos: nat)
    requires |input| >= MIN_SIZE && |input| >= MIN_SIZE + OptionalSize(input[1])
    ensures pos == LengthAt(input[1]) + 2 && length == Get16(input, LengthAt(input[1]))
    ensures CoveredSize(input) <= |input| ==>
              Parsed(input) == frame.(payload := input[pos..CoveredSize(input)])
  {
    var flags := input[1];
    var source, destination, session, sequence, freshness;
    source, pos := Read32(input, true, 2);
    destination, pos := Read32(input, HasDestination(flags), pos);
    session, pos := Read32(input, HasSession(flags), pos);
    sequence, pos := Read16(input, HasSequence(flags), pos);
    freshness, pos := Read16(input, HasFreshness(flags), pos);
    length, pos := Read16(input, true, pos);
    frame := Frame(input[0] / 16, input[0] % 16, flags, source, destination, session, sequence, freshness, []);
  }

  /** Decode the frame at the front of a buffer. */
  method DecodeFrame(input: seq<u8>) returns (status: Status, frame: Frame, consumed: nat)
    ensures status == Ok ==> Decode(input) == Decoded(frame, consumed)
    ensures status != Ok ==> Decode(input) == Refused(status)
  {
    frame, consumed := Frame(0, 0, 0, 0, 0, 0, 0, 0, []), 0;
    if |input| < MIN_SIZE { return Truncated, frame, 0; }
    var major, class_, flags := input[0] / 16, input[0] % 16, input[1];
    if major != FRAME_MAJOR && major != STABLE_MAJOR { return IncompatibleVersion, frame, 0; }
    if class_ >= CLASS_COUNT { return Range, frame, 0; }
    if class_ == CLASS_ADAPT { return Range, frame, 0; }
    if HasReserved(flags) { return Range, frame, 0; }
    if |input| < MIN_SIZE + OptionalSize(flags) { return Truncated, frame, 0; }
    var length, pos;
    frame, length, pos := DecodeFields(input);
    if length > MAX_PAYLOAD { return Range, frame, 0; }
    if |input| - pos < length { return Truncated, frame, 0; }
    frame := frame.(payload := input[pos..pos + length]);
    pos := pos + length;
    if HasCheck(flags) {
      if |input| - pos < 4 { return Truncated, frame, 0; }
      var crc := Crc32.ComputeCrc(input[..pos]);
      if Get32(input, pos) != crc { return FrameCheck, frame, 0; }
      pos := pos + 4;
    }
    return Ok, frame, pos;
  }
}
