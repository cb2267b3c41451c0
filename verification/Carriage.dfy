/** A handoff control on its way: inside a HANDOFF frame, over a link whose frame limit was
    negotiated. Here the codecs, the negotiation and the two-peer protocol meet. */
module Carriage {
  import opened Words
  import Frame
  import FrameTheorems
  import Handoff
  import Negotiation
  import Stream
  import opened Messages
  import ContactModel
  import Migration
  import MigrationRuns
  import Peers
  import PeerRuns

  /** The frame carries the control, whatever its flags and addresses. */
  predicate Carries(f: Frame.Frame, c: Handoff.Control) {
    && f.class_ == Frame.CLASS_HANDOFF
    && !Frame.HasReserved(f.flags)
    && f.payload == Handoff.Bytes(c)
  }

  /** What a receiver makes of the bytes at the front of its buffer. */
  function Received(s: seq<u8>): Option<Handoff.Control> {
    match Frame.Decode(s)
    case Refused(_) => None
    case Decoded(f, _) => ControlIn(f)
  }

  function ControlIn(f: Frame.Frame): Option<Handoff.Control> {
    if f.class_ != Frame.CLASS_HANDOFF then None
    else match Handoff.Decode(f.payload) case Refused(_) => None case Decoded(c) => Some(c)
  }

  /** The largest frame a handoff control can need, and the negotiated limit never below it. */
  lemma ControlFits(f: Frame.Frame, c: Handoff.Control)
    requires Handoff.Encodable(c) && Carries(f, c)
    ensures Frame.Encodable(f) && 0 < Frame.EncodedSize(f) <= Negotiation.FRAME_FLOOR
    ensures Frame.EncodedSize(f) == Negotiation.FRAME_FLOOR <==>
            f.flags == 0x1F && Handoff.Carries(c.operation) != 0
  {
  }

  /** Composed carriage: over any link two nodes can negotiate, with any optional fields and at
      either major, a frame with an encodable handoff control stays within the negotiated
      limit, and decoding the frame and then its payload gives the control back, the challenge
      zeroed where the operation carries none, whatever follows in the buffer. */
  lemma ComposedCarriage(local: Negotiation.Capability, peer: Negotiation.Capability, f: Frame.Frame, major: u8,
                         c: Handoff.Control, tail: seq<u8>)
    requires Negotiation.Select(local, peer).Some?
    requires Handoff.Encodable(c) && Carries(f, c) && (major == Frame.FRAME_MAJOR || major == Frame.STABLE_MAJOR)
    ensures Frame.Encodable(f)
    ensures |Frame.Encoded(f, major)| <= Negotiation.Select(local, peer).value.maxFrame
    ensures Received(Frame.Encoded(f, major) + tail) == Some(Handoff.Cleared(c))
  {
    ControlFits(f, c);
    Frame.EncodedHasItsSize(f, major);
    FrameTheorems.RoundTrip(f, major, tail);
    Handoff.ControlRoundTrip(c);
  }

  // ---- The messages of the two peers ------------------------------------------------

  /** The messages that travel as handoff controls; offers and acceptances travel as contact
      controls of another layer. */
  predicate IsHandoff(m: Message) {
    m.MChallenge? || m.MResponse? || m.MCommit? || m.MConfirm?
  }

  /** The builder each message is made with. */
  function Build(m: Message): Handoff.Decoding
    requires IsHandoff(m)
  {
    match m
    case MChallenge(ref, session, bytes) => Handoff.MakePathChallenge(ref, session, bytes)
    case MResponse(ref, session, bytes) => Handoff.MakePathResponse(ref, session, bytes)
    case MCommit(ref, session) => Handoff.MakeCommit(ref, session)
    case MConfirm(ref, session) => Handoff.MakeConfirm(ref, session)
  }

  /** The message a decoded control stands for. */
  function Meaning(c: Handoff.Control): Message
    requires Handoff.Assigned(c.operation)
  {
    if c.operation == Handoff.PATH_CHALLENGE then MChallenge(c.ref, c.session, c.challenge)
    else if c.operation == Handoff.PATH_RESPONSE then MResponse(c.ref, c.session, c.challenge)
    else if c.operation == Handoff.COMMIT then MCommit(c.ref, c.session)
    else MConfirm(c.ref, c.session)
  }

  /** A message has a control exactly when both its references are real, and then it has one
      only: the canonical controls and these messages correspond. */
  lemma MessagesAreControls(m: Message, c: Handoff.Control)
    requires IsHandoff(m)
    ensures Build(m) == Handoff.Decoded(c) <==> Handoff.Canonical(c) && Meaning(c) == m
    ensures Build(m).Decoded? <==> m.ref != ContactModel.MIGRATION_NONE && m.session != ContactModel.SESSION_NONE
  {
  }

  /** In every run of the two peers, every challenge, response, commit and confirm ever sent
      can be built. */
  lemma EveryMessageCanBeSent(r: MigrationRuns.Run, k: nat, m: Message)
    requires r.Valid() && k < |r.states| && m in r.states[k].net && IsHandoff(m)
    ensures Build(m).Decoded?
  {
    MigrationRuns.RunKeeps(r, k);
    assert Migration.Witness(r.states[k], m);
  }

  /** So it is in every run of two peers in equal roles. */
  lemma EveryPeerMessageCanBeSent(r: PeerRuns.Run, k: nat, first: bool, m: Message)
    requires r.Valid() && k < |r.states| && m in PeerRuns.Me(r.states[k], first).sent && IsHandoff(m)
    ensures Build(m).Decoded?
  {
    PeerRuns.RunKeeps(r, k);
    PeerRuns.EitherSide(r.states[k], first, r.origin);
    assert Peers.Witness(PeerRuns.Me(r.states[k], first), m);
  }

  /** The frame carries the message, over a link the two have negotiated. */
  predicate Sends(f: Frame.Frame, major: u8, m: Message, local: Negotiation.Capability, peer: Negotiation.Capability)
    requires IsHandoff(m)
  {
    && Negotiation.Select(local, peer).Some? && (major == Frame.FRAME_MAJOR || major == Frame.STABLE_MAJOR)
    && (Build(m).Decoded? ==> Carries(f, Build(m).control))
  }

  /** It fits that link, and is read back as exactly that message, whatever follows. */
  predicate Arrives(f: Frame.Frame, major: u8, m: Message, local: Negotiation.Capability, peer: Negotiation.Capability,
                    tail: seq<u8>)
  {
    && Frame.Encodable(f) && major < 16 && Negotiation.Select(local, peer).Some?
    && |Frame.Encoded(f, major)| <= Negotiation.Select(local, peer).value.maxFrame
    && var got := Received(Frame.Encoded(f, major) + tail);
       got.Some? && Handoff.Canonical(got.value) && Meaning(got.value) == m
  }

  lemma MessageIsCarried(f: Frame.Frame, major: u8, m: Message, local: Negotiation.Capability,
                         peer: Negotiation.Capability, tail: seq<u8>)
    requires IsHandoff(m) && Build(m).Decoded? && Sends(f, major, m, local, peer)
    ensures Arrives(f, major, m, local, peer, tail)
  {
    var c := Build(m).control;
    MessagesAreControls(m, c);
    ComposedCarriage(local, peer, f, major, c, tail);
  }

  /** The networks of the two-peer models carry messages; this is why they may. In every run,
      every handoff message sent fits every link that could have been negotiated, and the bytes
      of any frame around it are read back as exactly that message, whatever follows. */
  lemma EveryMessageIsCarried(r: MigrationRuns.Run, k: nat, m: Message, f: Frame.Frame, major: u8, tail: seq<u8>,
                              local: Negotiation.Capability, peer: Negotiation.Capability)
    requires r.Valid() && k < |r.states| && m in r.states[k].net && IsHandoff(m) && Sends(f, major, m, local, peer)
    ensures Arrives(f, major, m, local, peer, tail)
  {
    EveryMessageCanBeSent(r, k, m);
    MessageIsCarried(f, major, m, local, peer, tail);
  }

  lemma EveryPeerMessageIsCarried(r: PeerRuns.Run, k: nat, first: bool, m: Message, f: Frame.Frame, major: u8,
                                  tail: seq<u8>, local: Negotiation.Capability, peer: Negotiation.Capability)
    requires r.Valid() && k < |r.states| && m in PeerRuns.Me(r.states[k], first).sent && IsHandoff(m)
    requires Sends(f, major, m, local, peer)
    ensures Arrives(f, major, m, local, peer, tail)
  {
    EveryPeerMessageCanBeSent(r, k, first, m);
    MessageIsCarried(f, major, m, local, peer, tail);
  }

  /** The messages in a stream of frames, in order. */
  predicate Holds(frames: seq<Frame.Frame>, sent: seq<Message>) {
    && |frames| == |sent|
    && forall i :: 0 <= i < |sent| ==>
         && IsHandoff(sent[i]) && Build(sent[i]).Decoded?
         && Frame.Canonical(frames[i]) && Carries(frames[i], Build(sent[i]).control)
  }

  /** A stream carriage between the peers: however the bytes are cut into chunks, and whatever
      incomplete frame comes last, the receiver takes exactly the messages sent, in order. */
  lemma StreamCarriesMessages(frames: seq<Frame.Frame>, sent: seq<Message>, tail: seq<u8>, chunks: seq<seq<u8>>)
    requires Holds(frames, sent)
    requires Frame.Decode(tail).Refused?
    requires Stream.Concat(chunks) == Stream.EncodeAll(frames) + tail
    ensures var r := Stream.ArriveAll(Stream.Taken([], []), chunks);
            && r.rest == tail && |r.frames| == |sent|
            && forall i :: 0 <= i < |sent| ==>
                 ControlIn(r.frames[i]).Some?
                 && Handoff.Canonical(ControlIn(r.frames[i]).value) && Meaning(ControlIn(r.frames[i]).value) == sent[i]
  {
    Stream.StreamIsRecovered(frames, tail, chunks);
    forall i | 0 <= i < |sent|
      ensures ControlIn(frames[i]) == Some(Build(sent[i]).control)
      ensures Handoff.Canonical(Build(sent[i]).control) && Meaning(Build(sent[i]).control) == sent[i]
    {
      var c := Build(sent[i]).control;
      MessagesAreControls(sent[i], c);
      Handoff.ControlBijection(frames[i].payload, c);
    }
  }
}
