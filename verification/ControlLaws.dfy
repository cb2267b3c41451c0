/** The controls and the negotiation in numbers: where each byte lies, which operations there are, and
    the reason of every refusal (include/mcl/handoff.h, include/mcl/negotiation.h). */
module ControlLaws {
  import opened Words
  import opened FrameLaws
  import Bitmap
  import Crc32
  import Frame
  import Handoff
  import Negotiation
  import NegotiationCodec

  // ---- Handoff controls -----------------------------------------------------------------------

  /** Ten bytes, and eight more on operations 1 and 2. */
  function HandoffSize(operation: u8): nat {
    if 1 <= operation <= 2 then 18 else if 3 <= operation <= 4 then 10 else 0
  }

  lemma HandoffInNumbers(c: Handoff.Control)
    ensures Handoff.EncodedSize(c.operation) == HandoffSize(c.operation)
    ensures Handoff.Encodable(c) <==>
            && 1 <= c.operation <= 4 && c.ref != 0 && c.session != 0
            && c.present == if c.operation <= 2 then 1 else 0
  {
  }

  lemma HandoffLayout(c: Handoff.Control)
    requires Handoff.Encodable(c)
    ensures var s := Handoff.Bytes(c);
            && |s| == HandoffSize(c.operation) && s[0] == 0 && s[1] == c.operation
            && Number4(s, 2) == c.ref && Number4(s, 6) == c.session
            && (c.operation <= 2 ==> s[10..18] == c.challenge)
  {
    var s := Handoff.Bytes(c);
    var r, n := Frame.Put32(c.ref), Frame.Put32(c.session);
    Frame.Assembled(c.ref);
    Frame.Assembled(c.session);
    assert s[2] == r[0] && s[3] == r[1] && s[4] == r[2] && s[5] == r[3];
    assert s[6] == n[0] && s[7] == n[1] && s[8] == n[2] && s[9] == n[3];
  }

  /** When a control can be encoded into a buffer, and why not. */
  lemma HandoffEncodeAnswers(c: Handoff.Control, capacity: nat)
    ensures var status := Handoff.EncodeStatus(c, capacity);
            var named := 1 <= c.operation <= 4 && c.ref != 0 && c.session != 0;
            && (status == Ok <==> Handoff.Encodable(c) && |Handoff.Bytes(c)| <= capacity)
            && (status == InvalidArgument <==> named && c.present != if c.operation <= 2 then 1 else 0)
            && (status != Ok && status != InvalidArgument ==> status == Range)
  {
    if Handoff.Encodable(c) {
      HandoffLayout(c);
    }
  }

  /** Every verdict on a payload and its reason. */
  lemma HandoffDecodeAnswers(s: seq<u8>)
    ensures var d := Handoff.Decode(s);
            var known := |s| >= 10 && s[0] == 0 && 1 <= s[1] <= 4;
            && (d == Handoff.Refused(IncompatibleVersion) <==> |s| >= 10 && s[0] != 0)
            && (d == Handoff.Refused(Truncated) <==> |s| < 10 || (known && |s| < HandoffSize(s[1])))
            && (d.Decoded? <==> known && |s| == HandoffSize(s[1]) && Number4(s, 2) != 0 && Number4(s, 6) != 0)
            && (d.Refused? ==> d.status == IncompatibleVersion || d.status == Truncated || d.status == Range)
  {
  }

  /** The four builders and the operation each stands for. */
  lemma BuildersInNumbers(ref: u32, session: u32, bytes: Challenge)
    ensures var named := ref != 0 && session != 0;
            && Handoff.MakePathChallenge(ref, session, bytes) ==
               (if named then Handoff.Decoded(Handoff.Control(1, ref, session, bytes, 1)) else Handoff.Refused(Range))
            && Handoff.MakePathResponse(ref, session, bytes) ==
               (if named then Handoff.Decoded(Handoff.Control(2, ref, session, bytes, 1)) else Handoff.Refused(Range))
            && Handoff.MakeCommit(ref, session) ==
               (if named then Handoff.Decoded(Handoff.Control(3, ref, session, ZERO_CHALLENGE, 0))
                else Handoff.Refused(Range))
            && Handoff.MakeConfirm(ref, session) ==
               (if named then Handoff.Decoded(Handoff.Control(4, ref, session, ZERO_CHALLENGE, 0))
                else Handoff.Refused(Range))
    ensures ZERO_CHALLENGE == [0, 0, 0, 0, 0, 0, 0, 0]
  {
  }

  // ---- Negotiation ------------------------------------------------------------------------------

  /** Bit i of a map is its i-th binary digit, the least significant first. */
  lemma {:induction false} BitIsDigit(m: nat, n: nat, i: nat)
    requires i < n
    ensures Bitmap.Bit(m, i) <==> Crc32.NumberBits(m, n)[i]
  {
    if i > 0 {
      BitIsDigit(m / 2, n - 1, i - 1);
    }
  }

  /** A proposal asks for no feature this node did not offer. */
  ghost predicate AsksWithin(p: u16, local: u16) {
    forall i: nat {:trigger Bitmap.Bit(p, i)} :: i < 16 && Bitmap.Bit(p, i) ==> Bitmap.Bit(local, i)
  }

  lemma NothingOutside(p: u16, local: u16)
    ensures Bitmap.AndNot(p, local) == 0 <==> AsksWithin(p, local)
  {
    Bitmap.AndNotIsWithin(p, local);
    if AsksWithin(p, local) {
      forall i | 0 <= i < 16 && Bitmap.Bit(p, i) ensures Bitmap.Bit(local, i) {
      }
    }
  }

  /** What the weak and the strong check say of a proposal. */
  lemma CheckAnswers(p: Negotiation.Selection, local: Negotiation.Capability, peer: Option<Negotiation.Capability>)
    ensures var status := Negotiation.Check(p, local, peer);
            && (status == IncompatibleVersion <==> p.version != 0)
            && (status == Ok || status == Range || status == IncompatibleVersion)
            && (peer.None? ==>
                  (status == Ok <==>
                     && p.version == 0 && p.wireMajor < 16 && p.linkMajor < 16
                     && Bitmap.Bit(local.wireMajors, p.wireMajor) && Bitmap.Bit(local.linkMajors, p.linkMajor)
                     && 42 <= p.maxFrame <= local.maxFrame
                     && AsksWithin(p.features, local.features)))
  {
    NothingOutside(p.features, local.features);
  }

  /** A selection there is only on common ground, and then of version 0. */
  lemma SelectAnswers(local: Negotiation.Capability, peer: Negotiation.Capability)
    ensures var s := Negotiation.Select(local, peer);
            && (s.Some? <==>
                  && (exists i: nat :: i < 16 && Bitmap.Bit(local.wireMajors, i) && Bitmap.Bit(peer.wireMajors, i))
                  && (exists i: nat :: i < 16 && Bitmap.Bit(local.linkMajors, i) && Bitmap.Bit(peer.linkMajors, i))
                  && local.maxFrame >= 42 && peer.maxFrame >= 42)
            && (s.Some? ==> s.value.version == 0)
  {
    CommonBit(local.wireMajors, peer.wireMajors);
    CommonBit(local.linkMajors, peer.linkMajors);
  }

  lemma CommonBit(a: u16, b: u16)
    ensures Negotiation.HighestBelow(Bitmap.And(a, b), 16) >= 0 <==>
            exists i: nat :: i < 16 && Bitmap.Bit(a, i) && Bitmap.Bit(b, i)
  {
    var h := Negotiation.HighestBelow(Bitmap.And(a, b), 16);
    if h >= 0 {
      Bitmap.BitOfAnd(a, b, 16, h);
    }
    if i: nat :| i < 16 && Bitmap.Bit(a, i) && Bitmap.Bit(b, i) {
      Bitmap.BitOfAnd(a, b, 16, i);
    }
  }

  lemma CapabilityLayout(c: Negotiation.Capability)
    ensures var s := NegotiationCodec.CapabilityBytes(c);
            && |s| == 9 && s[0] == c.version && Number2(s, 1) == c.wireMajors && Number2(s, 3) == c.linkMajors
            && Number2(s, 5) == c.maxFrame && Number2(s, 7) == c.features
  {
  }

  lemma ProposalLayout(p: Negotiation.Selection)
    ensures var s := NegotiationCodec.ProposalBytes(p);
            && |s| == 7 && s[0] == p.version && s[1] == p.wireMajor && s[2] == p.linkMajor
            && Number2(s, 3) == p.maxFrame && Number2(s, 5) == p.features
  {
  }

  /** What the builder and the encoders refuse, and why. */
  lemma CapabilityEncodeAnswers(c: Negotiation.Capability, capacity: nat)
    ensures var status := NegotiationCodec.CapabilityStatus(c, capacity);
            var empty := c.wireMajors == 0 || c.linkMajors == 0;
            && (status == IncompatibleVersion <==> c.version != 0)
            && (status == InvalidArgument <==> c.version == 0 && empty)
            && (status == Ok <==> c.version == 0 && !empty && c.maxFrame >= 42 && capacity >= 9)
            && (status == Ok || status == Range || status == IncompatibleVersion || status == InvalidArgument)
    ensures var made := NegotiationCodec.MakeCapability(c.wireMajors, c.linkMajors, c.maxFrame, c.features);
            var empty := c.wireMajors == 0 || c.linkMajors == 0;
            made == if empty then NegotiationCodec.Refused(InvalidArgument)
                    else if c.maxFrame < 42 then NegotiationCodec.Refused(Range)
                    else NegotiationCodec.Decoded(c.(version := 0))
  {
  }

  lemma ProposalEncodeAnswers(p: Negotiation.Selection, capacity: nat)
    ensures var status := NegotiationCodec.ProposalStatus(p, capacity);
            && (status == IncompatibleVersion <==> p.version != 0)
            && (status == Ok <==>
                  p.version == 0 && p.wireMajor < 16 && p.linkMajor < 16 && p.maxFrame >= 42 && capacity >= 7)
            && (status == Ok || status == Range || status == IncompatibleVersion)
  {
  }

  /** Every verdict on the two payloads and its reason. */
  lemma NegotiationDecodeAnswers(s: seq<u8>)
    ensures var d := NegotiationCodec.DecodeCapability(s);
            && (d == NegotiationCodec.Refused(Truncated) <==> |s| < 9)
            && (d == NegotiationCodec.Refused(IncompatibleVersion) <==> |s| == 9 && s[0] != 0)
            && (d.Decoded? <==>
                  |s| == 9 && s[0] == 0 && Number2(s, 1) != 0 && Number2(s, 3) != 0 && Number2(s, 5) >= 42)
            && (d.Refused? ==> d.status == Truncated || d.status == IncompatibleVersion || d.status == Range)
    ensures var d := NegotiationCodec.DecodeProposal(s);
            && (d == NegotiationCodec.Refused(Truncated) <==> |s| < 7)
            && (d == NegotiationCodec.Refused(IncompatibleVersion) <==> |s| == 7 && s[0] != 0)
            && (d.Decoded? <==> |s| == 7 && s[0] == 0 && s[1] < 16 && s[2] < 16 && Number2(s, 3) >= 42)
            && (d.Refused? ==> d.status == Truncated || d.status == IncompatibleVersion || d.status == Range)
  {
  }
}
