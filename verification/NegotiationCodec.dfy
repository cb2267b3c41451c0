/** The CAPABILITY and NEGOTIATION controls of src/negotiation.c, and the exchange they make
    up: two advertisements, one proposal, one answer. */
module NegotiationCodec {
  import opened Words
  import opened Negotiation
  import Frame
  import FrameCodec

  const CAPABILITY_SIZE: nat := 9
  const NEGOTIATION_SIZE: nat := 7

  datatype Decoding<T> = Decoded(value: T) | Refused(status: Status)

  /** What a node may advertise: some major of each kind, and room for every handoff control. */
  predicate Advertisable(c: Capability) {
    c.version == CONTROL_VERSION && c.wireMajors != 0 && c.linkMajors != 0 && c.maxFrame >= FRAME_FLOOR
  }

  predicate Proposable(p: Selection) {
    p.version == CONTROL_VERSION && p.wireMajor <= 15 && p.linkMajor <= 15 && p.maxFrame >= FRAME_FLOOR
  }

  function MakeCapability(wireMajors: u16, linkMajors: u16, maxFrame: u16, features: u16): Decoding<Capability> {
    if wireMajors == 0 || linkMajors == 0 then Refused(InvalidArgument)
    else if maxFrame < FRAME_FLOOR then Refused(Range)
    else Decoded(Capability(CONTROL_VERSION, wireMajors, linkMajors, maxFrame, features))
  }

  function CapabilityBytes(c: Capability): (s: seq<u8>)
    ensures |s| == CAPABILITY_SIZE
  {
    [c.version] + Frame.Put16(c.wireMajors) + Frame.Put16(c.linkMajors)
    + Frame.Put16(c.maxFrame) + Frame.Put16(c.features)
  }

  function ProposalBytes(p: Selection): (s: seq<u8>)
    ensures |s| == NEGOTIATION_SIZE
  {
    [p.version, p.wireMajor, p.linkMajor] + Frame.Put16(p.maxFrame) + Frame.Put16(p.features)
  }

  function CapabilityStatus(c: Capability, capacity: nat): Status {
    if c.version != CONTROL_VERSION then IncompatibleVersion
    else if c.wireMajors == 0 || c.linkMajors == 0 then InvalidArgument
    else if c.maxFrame < FRAME_FLOOR || capacity < CAPABILITY_SIZE then Range
    else Ok
  }

  function ProposalStatus(p: Selection, capacity: nat): Status {
    if p.version != CONTROL_VERSION then IncompatibleVersion
    else if p.wireMajor > 15 || p.linkMajor > 15 || p.maxFrame < FRAME_FLOOR || capacity < NEGOTIATION_SIZE then Range
    else Ok
  }

  function DecodeCapability(s: seq<u8>): Decoding<Capability> {
    if |s| < CAPABILITY_SIZE then Refused(Truncated)
    else if |s| > CAPABILITY_SIZE then Refused(Range)
    else if s[0] != CONTROL_VERSION then Refused(IncompatibleVersion)
    else if Frame.Get16(s, 1) == 0 || Frame.Get16(s, 3) == 0 then Refused(Range)
    else if Frame.Get16(s, 5) < FRAME_FLOOR then Refused(Range)
    else Decoded(Capability(s[0], Frame.Get16(s, 1), Frame.Get16(s, 3), Frame.Get16(s, 5), Frame.Get16(s, 7)))
  }

  function DecodeProposal(s: seq<u8>): Decoding<Selection> {
    if |s| < NEGOTIATION_SIZE then Refused(Truncated)
    else if |s| > NEGOTIATION_SIZE then Refused(Range)
    else if s[0] != CONTROL_VERSION then Refused(IncompatibleVersion)
    else if s[1] > 15 || s[2] > 15 then Refused(Range)
    else if Frame.Get16(s, 3) < FRAME_FLOOR then Refused(Range)
    else Decoded(Selection(s[0], s[1], s[2], Frame.Get16(s, 3), Frame.Get16(s, 5)))
  }

  /** An advertisement is accepted exactly when it is the encoding of an advertisable one. */
  lemma CapabilityBijection(s: seq<u8>, c: Capability)
    ensures DecodeCapability(s) == Decoded(c) <==> Advertisable(c) && s == CapabilityBytes(c)
  {
  }

  /** A proposal is accepted exactly when it is the encoding of a proposable one. */
  lemma ProposalBijection(s: seq<u8>, p: Selection)
    ensures DecodeProposal(s) == Decoded(p) <==> Proposable(p) && s == ProposalBytes(p)
  {
  }

  method EncodeCapability(c: Capability, out: array<u8>) returns (status: Status, written: nat)
    modifies out
    ensures status == CapabilityStatus(c, out.Length)
    ensures status == Ok ==>
              written == CAPABILITY_SIZE && FrameCodec.Wrote(out[..], old(out[..]), CapabilityBytes(c), written)
    ensures status != Ok ==> out[..] == old(out[..])
  {
    if c.version != CONTROL_VERSION { return IncompatibleVersion, 0; }
    if c.wireMajors == 0 || c.linkMajors == 0 { return InvalidArgument, 0; }
    if c.maxFrame < FRAME_FLOOR { return Range, 0; }
    if out.Length < CAPABILITY_SIZE { return Range, 0; }
    ghost var before := out[..];
    ghost var done := [c.version];
    var pos := FrameCodec.Write(out, [c.version], 0, before, []);
    assert [] + done == done;
    pos := FrameCodec.Write(out, Frame.Put16(c.wireMajors), pos, before, done);
    done := done + Frame.Put16(c.wireMajors);
    pos := FrameCodec.Write(out, Frame.Put16(c.linkMajors), pos, before, done);
    done := done + Frame.Put16(c.linkMajors);
    pos := FrameCodec.Write(out, Frame.Put16(c.maxFrame), pos, before, done);
    done := done + Frame.Put16(c.maxFrame);
    pos := FrameCodec.Write(out, Frame.Put16(c.features), pos, before, done);
    return Ok, pos;
  }

  method EncodeProposal(p: Selection, out: array<u8>) returns (status: Status, written: nat)
    modifies out
    ensures status == ProposalStatus(p, out.Length)
    ensures status == Ok ==>
              written == NEGOTIATION_SIZE && FrameCodec.Wrote(out[..], old(out[..]), ProposalBytes(p), written)
    ensures status != Ok ==> out[..] == old(out[..])
  {
    if p.version != CONTROL_VERSION { return IncompatibleVersion, 0; }
    if p.wireMajor > 15 || p.linkMajor > 15 { return Range, 0; }
    if p.maxFrame < FRAME_FLOOR { return Range, 0; }
    if out.Length < NEGOTIATION_SIZE { return Range, 0; }
    ghost var before := out[..];
    var first := [p.version, p.wireMajor, p.linkMajor];
    var pos := FrameCodec.Write(out, first, 0, before, []);
    assert [] + first == first;
    pos := FrameCodec.Write(out, Frame.Put16(p.maxFrame), pos, before, first);
    pos := FrameCodec.Write(out, Frame.Put16(p.features), pos, before, first + Frame.Put16(p.maxFrame));
    return Ok, pos;
  }

  /** The builder makes exactly what can be advertised. */
  lemma BuilderMakesAdvertisable(c: Capability)
    ensures Advertisable(c) <==> MakeCapability(c.wireMajors, c.linkMajors, c.maxFrame, c.features) == Decoded(c)
    ensures Advertisable(c) <==> CapabilityStatus(c, CAPABILITY_SIZE) == Ok
  {
  }

  /** Over the wire, one answer only. After two advertisements have crossed, each node computes
      the same outcome from the bytes it received and its own advertisement; when there is one
      it can be sent; and of all byte strings either node may receive as a proposal, the bytes
      of that outcome are the only one its strong check accepts. */
  lemma ExchangeHasOneAnswer(local: Capability, peer: Capability, s: seq<u8>, p: Selection)
    requires Advertisable(local) && Advertisable(peer)
    ensures DecodeCapability(CapabilityBytes(local)) == Decoded(local)
    ensures DecodeCapability(CapabilityBytes(peer)) == Decoded(peer)
    ensures Select(local, peer) == Some(p) ==> ProposalStatus(p, NEGOTIATION_SIZE) == Ok
    ensures DecodeProposal(s) == Decoded(p) && Check(p, local, Some(peer)) == Ok
            <==> Select(peer, local) == Some(p) && s == ProposalBytes(p)
    ensures DecodeProposal(s) == Decoded(p) && Check(p, peer, Some(local)) == Ok
            <==> Select(local, peer) == Some(p) && s == ProposalBytes(p)
  {
    CapabilityBijection(CapabilityBytes(local), local);
    CapabilityBijection(CapabilityBytes(peer), peer);
    ProposalBijection(s, p);
    SelectionIsSymmetric(local, peer);
    StrongCheckAcceptsOnlyTheSelection(p, local, peer);
  }
}
