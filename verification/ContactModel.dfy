/** The value semantics of one contact: what each operation of the migration state
    machine returns and what it leaves behind. Class `Contact` is proved against
    these functions, and the two-peer protocol takes them as its local steps. */
module ContactModel {
  import opened Words

  const TRANSPORT_RESERVED: u8 := 0
  const PROFILE_RESERVED: u8 := 0
  const SESSION_NONE: u32 := 0
  const MIGRATION_NONE: u32 := 0
  const ROLE_INITIATOR: u8 := 0
  const ROLE_RESPONDER: u8 := 1

  datatype Phase = NotBegun | Active | Offered | Agreed | Validating | Validated | Committing | Closed {
    /** A migration transaction is outstanding at any stage. */
    predicate InProgress() {
      this == Offered || this == Agreed || this == Validating || this == Validated || this == Committing
    }

    /** COMMITTING is deliberately absent: once COMMIT is out nothing can be rolled back. */
    predicate Revocable() {
      this == Offered || this == Agreed || this == Validating || this == Validated
    }

    /** A session reference has been agreed for the outstanding transaction. */
    predicate PostAgreement() {
      this == Agreed || this == Validating || this == Validated || this == Committing
    }

    predicate Live() {
      this != NotBegun && this != Closed
    }
  }

  /** The five fields of a proposed transport change. */
  datatype Offer = Offer(ref: u32, transport: u8, profile: u8, token: u32, validity: u8)

  const NO_OFFER := Offer(MIGRATION_NONE, TRANSPORT_RESERVED, 0, 0, 0)

  datatype ContactState = ContactState(
    localRef: u32,
    peerRef: u32,
    sessionRef: u32,
    role: u8,
    phase: Phase,
    active: u8,
    pending: Offer,
    challenge: Challenge,
    challengeValid: bool,
    peerRefValid: bool,
    sessionValid: bool,
    count: u16,
    completedRef: u32)

  datatype Collision = LocalWins | PeerWins | TieAbort

  /** Status, state afterwards, and the outcome when one is written. */
  datatype Resolution = Resolution(status: Status, contact: ContactState, outcome: Option<Collision>)

  type Result = (Status, ContactState)

  function ClearPending(c: ContactState): ContactState {
    c.(pending := NO_OFFER, challenge := ZERO_CHALLENGE, challengeValid := false)
  }

  function SettleCommit(c: ContactState, ref: u32): ContactState {
    ClearPending(c.(active := c.pending.transport, completedRef := ref)).(
      phase := Active,
      count := if c.count < COUNT_MAX then c.count + 1 else c.count)
  }

  function CheckTransaction(c: ContactState, ref: u32, session: u32): Status {
    if !c.sessionValid then InvalidState
    else if ref != c.pending.ref then ContextMismatch
    else if session != c.sessionRef then ContextMismatch
    else Ok
  }

  function Begun(role: u8, localRef: u32, transport: u8): ContactState {
    ContactState(localRef, 0, SESSION_NONE, role, Active, transport, NO_OFFER, ZERO_CHALLENGE,
                 false, false, false, 0, MIGRATION_NONE)
  }

  /** A record with every field zero. */
  const BLANK: ContactState :=
    ContactState(0, 0, SESSION_NONE, ROLE_INITIATOR, NotBegun, TRANSPORT_RESERVED, NO_OFFER, ZERO_CHALLENGE,
                 false, false, false, 0, MIGRATION_NONE)

  predicate BeginAccepts(role: u8, transport: u8) {
    (role == ROLE_INITIATOR || role == ROLE_RESPONDER) && transport != TRANSPORT_RESERVED
  }

  function SetPeerRef(c: ContactState, peerRef: u32): Result {
    if !c.phase.Live() then (InvalidState, c)
    else if c.peerRefValid then (if peerRef == c.peerRef then Ok else ContextMismatch, c)
    else (Ok, c.(peerRef := peerRef, peerRefValid := true))
  }

  predicate WellFormedOffer(o: Offer) {
    o.ref != MIGRATION_NONE && o.transport != TRANSPORT_RESERVED && o.profile != PROFILE_RESERVED
  }

  function RecordOffer(c: ContactState, o: Offer): Result {
    if !WellFormedOffer(o) then (InvalidArgument, c)
    else if c.phase == Offered && o.ref == c.pending.ref then
      (if o == c.pending then Ok else ContextMismatch, c)
    else if c.phase != Active then (InvalidState, c)
    else if o.transport == c.active then (InvalidArgument, c)
    else (Ok, ClearPending(c).(pending := o, phase := Offered))
  }

  function ResolveCollision(c: ContactState, peerSource: u32, o: Offer): Resolution {
    if !WellFormedOffer(o) then Resolution(InvalidArgument, c, None)
    else if c.phase != Offered then Resolution(InvalidState, c, None)
    else if peerSource == c.localRef && o.ref == c.pending.ref then
      Resolution(Ok, ClearPending(c).(phase := Active), Some(TieAbort))
    else if peerSource > c.localRef || (peerSource == c.localRef && o.ref > c.pending.ref) then
      if o.transport == c.active then Resolution(InvalidArgument, c, None)
      else Resolution(Ok, ClearPending(c).(pending := o), Some(PeerWins))
    else Resolution(Ok, c, Some(LocalWins))
  }

  function Agree(c: ContactState, ref: u32, transport: u8, profile: u8, session: u32): Result {
    if session == SESSION_NONE then (InvalidArgument, c)
    else if c.sessionValid && session != c.sessionRef then (ContextMismatch, c)
    else if !c.phase.PostAgreement() && c.phase != Offered then (InvalidState, c)
    else if ref != c.pending.ref || transport != c.pending.transport || profile != c.pending.profile then
      (ContextMismatch, c)
    else if c.phase == Offered then
      (Ok, c.(sessionRef := session, sessionValid := true, phase := Agreed))
    else (Ok, c)
  }

  function ValidationBegin(c: ContactState, challenge: Challenge): Result {
    if c.phase != Agreed || !c.sessionValid then (InvalidState, c)
    else (Ok, c.(challenge := challenge, challengeValid := true, phase := Validating))
  }

  function ValidationResponse(c: ContactState, ref: u32, session: u32, echo: Challenge): Result {
    if c.phase == Validated then
      var status := CheckTransaction(c, ref, session);
      if status != Ok then (status, c)
      else if !c.challengeValid || c.challenge != echo then (ContextMismatch, c)
      else (Ok, c)
    else if c.phase != Validating || !c.challengeValid then (InvalidState, c)
    else
      var status := CheckTransaction(c, ref, session);
      if status != Ok then (status, c)
      else if c.challenge != echo then (ContextMismatch, c)
      else (Ok, c.(phase := Validated))
  }

  /** Is a repeated PATH_CHALLENGE answered with PATH_RESPONSE again? */
  predicate ChallengeRepeat(c: ContactState, ref: u32, session: u32, challenge: Challenge) {
    c.phase == Validated && c.challengeValid && CheckTransaction(c, ref, session) == Ok && c.challenge == challenge
  }

  function CommitBegin(c: ContactState): Result {
    if c.phase != Validated then (InvalidState, c) else (Ok, c.(phase := Committing))
  }

  function CommitConfirm(c: ContactState, ref: u32, session: u32): Result {
    if c.phase == Active then
      if !c.sessionValid || c.completedRef == MIGRATION_NONE then (InvalidState, c)
      else if ref != c.completedRef || session != c.sessionRef then (ContextMismatch, c)
      else (Ok, c)
    else if c.phase != Committing then (InvalidState, c)
    else
      var status := CheckTransaction(c, ref, session);
      if status != Ok then (status, c) else (Ok, SettleCommit(c, ref))
  }

  function CommitAccept(c: ContactState, ref: u32, session: u32): Result {
    if c.phase != Validated then (InvalidState, c)
    else
      var status := CheckTransaction(c, ref, session);
      if status != Ok then (status, c) else (Ok, SettleCommit(c, ref))
  }

  /** Is a COMMIT that finds no migration in progress answered with CONFIRM again? */
  predicate CommitRepeat(c: ContactState, ref: u32, session: u32) {
    && c.phase == Active
    && c.completedRef != MIGRATION_NONE
    && c.sessionValid
    && ref == c.completedRef
    && session == c.sessionRef
  }

  function Abandon(c: ContactState): Result {
    if !c.phase.Revocable() then (InvalidState, c)
    else (Ok, ClearPending(c).(phase := Active))
  }

  function Close(c: ContactState): Result {
    if c.phase == NotBegun then (InvalidState, c)
    else (Ok, ClearPending(c).(sessionRef := SESSION_NONE, sessionValid := false, phase := Closed))
  }

  /** Where a handoff control must be sent and must have arrived. */
  function ControlTransport(c: ContactState): u8 {
    if c.phase.InProgress() then c.pending.transport else c.active
  }

  /** What every reachable contact satisfies. */
  ghost predicate WellFormed(c: ContactState) {
    && (c.phase == NotBegun || c.active != TRANSPORT_RESERVED)
    && (!c.phase.InProgress() ==> c.pending == NO_OFFER)
    && (c.phase.InProgress() ==> WellFormedOffer(c.pending) && c.pending.transport != c.active)
    && (c.challengeValid <==> c.phase == Validating || c.phase == Validated || c.phase == Committing)
    && (!c.challengeValid ==> c.challenge == ZERO_CHALLENGE)
    && (c.phase.PostAgreement() ==> c.sessionValid)
    && (c.sessionValid <==> c.sessionRef != SESSION_NONE)
    && (c.completedRef == MIGRATION_NONE <==> c.count == 0)
    && (!c.phase.Live() ==> !c.sessionValid)
    && (c.count > 0 && c.phase.Live() ==> c.sessionValid)
  }

  /** One completed migration: the transaction that completed and where it moved to. */
  datatype Move = Move(ref: u32, transport: u8)

  type History = seq<Move>

  /** The transport a contact begun on `origin` is on after the moves of `h`. */
  function TransportAfter(origin: u8, h: History): u8 {
    if h == [] then origin else h[|h| - 1].transport
  }

  function RefAfter(h: History): u32 {
    if h == [] then MIGRATION_NONE else h[|h| - 1].ref
  }

  /** Every move names a transaction and leaves the transport it found. */
  ghost predicate Moving(origin: u8, h: History) {
    h != [] ==>
      var past, last := h[..|h| - 1], h[|h| - 1];
      Moving(origin, past) && last.ref != MIGRATION_NONE && last.transport != TransportAfter(origin, past)
  }

  /** The fields of the contact are a digest of its history: the last move, and how many
      there were until the counter saturates. */
  ghost predicate Refines(c: ContactState, origin: u8, h: History) {
    && c.active == TransportAfter(origin, h)
    && c.completedRef == RefAfter(h)
    && c.count == (if |h| < COUNT_MAX then |h| else COUNT_MAX)
    && Moving(origin, h)
  }

  lemma BegunIsWellFormed(role: u8, localRef: u32, transport: u8)
    requires BeginAccepts(role, transport)
    ensures WellFormed(Begun(role, localRef, transport)) && Refines(Begun(role, localRef, transport), transport, [])
  {
  }

  lemma CloseKeeps(c: ContactState, origin: u8, h: History)
    requires WellFormed(c) && Refines(c, origin, h)
    ensures WellFormed(Close(c).1) && Refines(Close(c).1, origin, h)
  {
  }

  /** Completing the outstanding transaction appends exactly one move. */
  lemma SettleKeepsDigest(c: ContactState, origin: u8, h: History)
    requires WellFormed(c) && Refines(c, origin, h) && c.phase.PostAgreement()
    ensures var after := SettleCommit(c, c.pending.ref);
            WellFormed(after) && Refines(after, origin, h + [Move(c.pending.ref, c.pending.transport)])
  {
  }
}
