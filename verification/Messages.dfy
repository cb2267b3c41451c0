/** What travels between two peers of a migration, and how a received message is applied
    to a contact: the state table of the handoff control specification
    (spec/link-handoff-control-v0.1.md section 7). */
module Messages {
  import opened Words
  import opened ContactModel

  datatype Message =
    | MOffer(offer: Offer)
    | MAccept(ref: u32, transport: u8, profile: u8, session: u32)
    | MChallenge(ref: u32, session: u32, bytes: Challenge)
    | MResponse(ref: u32, session: u32, bytes: Challenge)
    | MCommit(ref: u32, session: u32)
    | MConfirm(ref: u32, session: u32)

  /** The transaction a message names. */
  function RefOf(m: Message): u32 {
    if m.MOffer? then m.offer.ref else m.ref
  }

  /** A PATH_CHALLENGE is echoed at once: recording it and completing validation with the
      same bytes. Recording takes no references, so they are checked first. */
  function TakeChallenge(c: ContactState, ref: u32, session: u32, bytes: Challenge): ContactState {
    if c.phase == Agreed && CheckTransaction(c, ref, session) == Ok then
      ValidationResponse(ValidationBegin(c, bytes).1, ref, session, bytes).1
    else c
  }

  /** The contact after a message is delivered to it. */
  function Receive(c: ContactState, m: Message): ContactState {
    match m
    case MOffer(o) => RecordOffer(c, o).1
    case MAccept(ref, transport, profile, session) => Agree(c, ref, transport, profile, session).1
    case MChallenge(ref, session, bytes) => TakeChallenge(c, ref, session, bytes)
    case MResponse(ref, session, bytes) => ValidationResponse(c, ref, session, bytes).1
    case MCommit(ref, session) => CommitAccept(c, ref, session).1
    case MConfirm(ref, session) => CommitConfirm(c, ref, session).1
  }

  /** The message is accepted, as a first copy or as a recognised repeat. */
  predicate Taken(c: ContactState, m: Message) {
    match m
    case MOffer(o) => RecordOffer(c, o).0 == Ok
    case MAccept(ref, transport, profile, session) => Agree(c, ref, transport, profile, session).0 == Ok
    case MChallenge(ref, session, bytes) =>
      || (c.phase == Agreed && CheckTransaction(c, ref, session) == Ok)
      || ChallengeRepeat(c, ref, session, bytes)
    case MResponse(ref, session, bytes) => ValidationResponse(c, ref, session, bytes).0 == Ok
    case MCommit(ref, session) => CommitAccept(c, ref, session).0 == Ok || CommitRepeat(c, ref, session)
    case MConfirm(ref, session) => CommitConfirm(c, ref, session).0 == Ok
  }
}
