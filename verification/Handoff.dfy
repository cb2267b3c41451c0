/** The four handoff controls of src/handoff.c: a ten-byte header, and eight challenge bytes
    on the two operations that carry them. */
module Handoff {
  import opened Words
  import Frame
  import FrameCodec

  const VERSION: u8 := 0
  const HEADER_SIZE: nat := 10
  const MAX_SIZE: nat := HEADER_SIZE + CHALLENGE_SIZE

  const PATH_CHALLENGE: u8 := 1
  const PATH_RESPONSE: u8 := 2
  const COMMIT: u8 := 3
  const CONFIRM: u8 := 4

  /** `present` is the caller's claim that the challenge is meaningful, 0 or 1. */
  datatype Control = Control(operation: u8, ref: u32, session: u32, challenge: Challenge, present: u8)

  predicate Assigned(operation: u8) {
    operation == PATH_CHALLENGE || operation == PATH_RESPONSE || operation == COMMIT || operation == CONFIRM
  }

  function Carries(operation: u8): u8 {
    if operation == PATH_CHALLENGE || operation == PATH_RESPONSE then 1 else 0
  }

  /** Exact size of a control, or 0 for an operation that has none. */
  function EncodedSize(operation: u8): nat {
    if !Assigned(operation) then 0 else if Carries(operation) != 0 then MAX_SIZE else HEADER_SIZE
  }

  predicate Encodable(c: Control) {
    Assigned(c.operation) && c.ref != 0 && c.session != 0 && c.present == Carries(c.operation)
  }

  function Bytes(c: Control): seq<u8> {
    [VERSION, c.operation] + Frame.Put32(c.ref) + Frame.Put32(c.session)
    + Frame.Field(Carries(c.operation) != 0, c.challenge)
  }

  function EncodeStatus(c: Control, capacity: nat): Status {
    if EncodedSize(c.operation) == 0 || c.ref == 0 || c.session == 0 then Range
    else if c.present != Carries(c.operation) then InvalidArgument
    else if capacity < EncodedSize(c.operation) then Range
    else Ok
  }

  datatype Decoding = Decoded(control: Control) | Refused(status: Status)

  /** The verdict on a complete payload, checks in the order of the source. */
  function Decode(s: seq<u8>): Decoding {
    if |s| < HEADER_SIZE then Refused(Truncated)
    else if s[0] != VERSION then Refused(IncompatibleVersion)
    else if !Assigned(s[1]) then Refused(Range)
    else if |s| < EncodedSize(s[1]) then Refused(Truncated)
    else if |s| > EncodedSize(s[1]) then Refused(Range)
    else if Frame.Get32(s, 2) == 0 || Frame.Get32(s, 6) == 0 then Refused(Range)
    else
      Decoded(Control(s[1], Frame.Get32(s, 2), Frame.Get32(s, 6),
                      if Carries(s[1]) != 0 then s[HEADER_SIZE..] else ZERO_CHALLENGE,
                      Carries(s[1])))
  }

  /** A control as decoding leaves it. */
  predicate Canonical(c: Control) {
    Encodable(c) && (Carries(c.operation) == 0 ==> c.challenge == ZERO_CHALLENGE)
  }

  /** What decoding makes of an encodable control: no stale challenge behind an operation that
      does not carry one. */
  function Cleared(c: Control): Control {
    if Carries(c.operation) != 0 then c else c.(challenge := ZERO_CHALLENGE)
  }

  /** A payload is accepted exactly when it is the encoding of a canonical control. */
  lemma ControlBijection(s: seq<u8>, c: Control)
    ensures Decode(s) == Decoded(c) <==> Canonical(c) && s == Bytes(c)
  {
    var first := [VERSION, c.operation];
    if |s| == EncodedSize(c.operation) && |s| > 0 {
      var tail := Frame.Field(Carries(c.operation) != 0, c.challenge);
      assert Bytes(c) == first + Frame.Put32(c.ref) + Frame.Put32(c.session) + tail;
      Frame.Append(s, first, 2, Frame.Put32(c.ref));
      Frame.PutGet32(s, 2, c.ref);
      Frame.Append(s, first + Frame.Put32(c.ref), 6, Frame.Put32(c.session));
      Frame.PutGet32(s, 6, c.session);
      Frame.Append(s, first + Frame.Put32(c.ref) + Frame.Put32(c.session), HEADER_SIZE, tail);
      assert Frame.Reads(s, first, 2) <==> s[0] == VERSION && s[1] == c.operation;
      assert s[..|s|] == s && s[HEADER_SIZE..|s|] == s[HEADER_SIZE..];
    }
  }

  lemma ControlRoundTrip(c: Control)
    requires Encodable(c)
    ensures |Bytes(c)| == EncodedSize(c.operation)
    ensures Decode(Bytes(c)) == Decoded(Cleared(c))
  {
    assert Bytes(c) == Bytes(Cleared(c));
    ControlBijection(Bytes(c), Cleared(c));
  }

  /** A control is its payload, no less and no more: every strict prefix is TRUNCATED, and a
      trailing byte is malformed rather than left over. */
  lemma ControlFillsItsPayload(c: Control, k: nat, extra: seq<u8>)
    requires Encodable(c) && k < |Bytes(c)| && extra != []
    ensures Decode(Bytes(c)[..k]) == Refused(Truncated)
    ensures Decode(Bytes(c) + extra) == Refused(Range)
  {
  }

  method EncodeControl(c: Control, out: array<u8>) returns (status: Status, written: nat)
    modifies out
    ensures status == EncodeStatus(c, out.Length)
    ensures status == Ok <==> Encodable(c) && |Bytes(c)| <= out.Length
    ensures status == InvalidArgument <==>
            && 1 <= c.operation <= 4 && c.ref != 0 && c.session != 0
            && c.present != if c.operation <= 2 then 1 else 0
    ensures status == Ok ==>
              written == EncodedSize(c.operation) && FrameCodec.Wrote(out[..], old(out[..]), Bytes(c), written)
    ensures status != Ok ==> out[..] == old(out[..])
  {
    var size := EncodedSize(c.operation);
    if size == 0 { return Range, 0; }
    if c.ref == 0 { return Range, 0; }
    if c.session == 0 { return Range, 0; }
    var carries := Carries(c.operation);
    if c.present != carries { return InvalidArgument, 0; }
    if out.Length < size { return Range, 0; }
    ghost var before := out[..];
    var first := [VERSION, c.operation];
    var pos := FrameCodec.Write(out, first, 0, before, []);
    assert [] + first == first;
    pos := FrameCodec.Write(out, Frame.Put32(c.ref), pos, before, first);
    pos := FrameCodec.Write(out, Frame.Put32(c.session), pos, before, first + Frame.Put32(c.ref));
    pos := FrameCodec.WriteField(out, carries != 0, c.challenge, pos, before,
                                 first + Frame.Put32(c.ref) + Frame.Put32(c.session));
    return Ok, pos;
  }

  method DecodeControl(input: seq<u8>) returns (status: Status, c: Control)
    ensures Decode(input) == if status == Ok then Decoded(c) else Refused(status)
  {
    c := Control(0, 0, 0, ZERO_CHALLENGE, 0);
    if |input| < HEADER_SIZE { return Truncated, c; }
    if input[0] != VERSION { return IncompatibleVersion, c; }
    var operation := input[1];
    if !Assigned(operation) { return Range, c; }
    var expected := EncodedSize(operation);
    if |input| < expected { return Truncated, c; }
    if |input| > expected { return Range, c; }
    var ref, session := Frame.Get32(input, 2), Frame.Get32(input, 6);
    if ref == 0 { return Range, c; }
    if session == 0 { return Range, c; }
    c := Control(operation, ref, session, ZERO_CHALLENGE, Carries(operation));
    if c.present != 0 {
      c := c.(challenge := input[HEADER_SIZE..]);
    }
    return Ok, c;
  }

  /** The builders: a control whose operation and challenge agree, or a refusal. */
  function MakeCommon(operation: u8, ref: u32, session: u32): Decoding {
    if ref == 0 || session == 0 then Refused(Range)
    else Decoded(Control(operation, ref, session, ZERO_CHALLENGE, 0))
  }

  function MakeWithChallenge(operation: u8, ref: u32, session: u32, bytes: Challenge): Decoding {
    match MakeCommon(operation, ref, session)
    case Refused(status) => Refused(status)
    case Decoded(c) => Decoded(c.(challenge := bytes, present := 1))
  }

  function MakePathChallenge(ref: u32, session: u32, bytes: Challenge): Decoding {
    MakeWithChallenge(PATH_CHALLENGE, ref, session, bytes)
  }

  function MakePathResponse(ref: u32, session: u32, bytes: Challenge): Decoding {
    MakeWithChallenge(PATH_RESPONSE, ref, session, bytes)
  }

  function MakeCommit(ref: u32, session: u32): Decoding {
    MakeCommon(COMMIT, ref, session)
  }

  function MakeConfirm(ref: u32, session: u32): Decoding {
    MakeCommon(CONFIRM, ref, session)
  }

  /** The builders make exactly the canonical controls: every canonical control is built by the
      builder of its operation, and whatever a builder makes survives the wire unchanged. */
  lemma BuildersMakeCanonicalControls(c: Control)
    ensures Canonical(c) <==>
            || Decoded(c) == MakePathChallenge(c.ref, c.session, c.challenge)
            || Decoded(c) == MakePathResponse(c.ref, c.session, c.challenge)
            || Decoded(c) == MakeCommit(c.ref, c.session)
            || Decoded(c) == MakeConfirm(c.ref, c.session)
    ensures Canonical(c) ==> Decode(Bytes(c)) == Decoded(c)
  {
    if Canonical(c) {
      ControlRoundTrip(c);
    }
  }
}
