/** Delayed duplicates: a message that was taken once changes nothing when it is delivered
    again, however much later and between whatever other operations. */
module Duplicates {
  import opened Words
  import opened ContactModel
  import opened Messages
  import opened ContactRuns

  /** The contact has moved to `transport` under `ref` and not moved since. */
  predicate Completed(c: ContactState, ref: u32, transport: u8) {
    c.completedRef == ref && c.active == transport
  }

  predicate Pending(c: ContactState, ref: u32, transport: u8) {
    c.phase.InProgress() && c.pending.ref == ref && c.pending.transport == transport
  }

  /** The transaction is outstanding, or it is the last one that completed: it has not been
      abandoned, and no later migration has completed. */
  predicate Current(c: ContactState, ref: u32, transport: u8) {
    Pending(c, ref, transport) || Completed(c, ref, transport)
  }

  /** What a taken message leaves behind for as long as its transaction is current. */
  predicate Past(c: ContactState, m: Message, transport: u8) {
    var ref := RefOf(m);
    && ref != MIGRATION_NONE
    && (!m.MOffer? && c.phase != Closed ==> c.sessionValid && c.sessionRef == m.session)
    && (|| Completed(c, ref, transport)
        || (Pending(c, ref, transport) &&
            match m
            case MOffer(_) => true
            case MAccept(_, _, profile, _) => c.phase.PostAgreement() && c.pending.profile == profile
            case MChallenge(_, _, bytes) => (c.phase == Validated || c.phase == Committing) && c.challenge == bytes
            case MResponse(_, _, bytes) => (c.phase == Validated || c.phase == Committing) && c.challenge == bytes
            case MCommit(_, _) => false
            case MConfirm(_, _) => false))
  }

  /** The transport of the transaction a message was taken for. */
  function TransportOf(before: ContactState, m: Message): u8 {
    var after := Receive(before, m);
    if after.phase.InProgress() then after.pending.transport else after.active
  }

  lemma TakenBecomesPast(c: ContactState, m: Message)
    requires WellFormed(c) && Taken(c, m)
    ensures WellFormed(Receive(c, m)) && Past(Receive(c, m), m, TransportOf(c, m))
  {
  }

  lemma PastIsKept(c: ContactState, e: Event, m: Message, transport: u8)
    requires WellFormed(c) && Past(c, m, transport)
    requires m.MOffer? ==> m.offer.transport == transport
    requires Current(Apply(c, e).1, RefOf(m), transport)
    ensures Past(Apply(c, e).1, m, transport)
  {
  }

  lemma WellFormedIsKept(c: ContactState, e: Event)
    requires WellFormed(c)
    ensures WellFormed(Apply(c, e).1)
  {
  }

  /** The phase in which a first copy of the message is taken. */
  function Awaits(m: Message): Phase {
    match m
    case MOffer(_) => Active
    case MAccept(_, _, _, _) => Offered
    case MChallenge(_, _, _) => Agreed
    case MResponse(_, _, _) => Validating
    case MCommit(_, _) => Validated
    case MConfirm(_, _) => Committing
  }

  /** A new transaction was opened under the reference the last one completed with, and has
      reached exactly the phase in which the old message would be a first copy. */
  predicate RefReused(c: ContactState, m: Message) {
    && !m.MOffer? && !m.MAccept?
    && c.phase == Awaits(m)
    && c.pending.ref == c.completedRef
    && c.sessionRef == m.session
    && (m.MResponse? ==> c.challenge == m.bytes)
  }

  /** A second delivery changes a contact exactly when the caller reused a reference. */
  lemma SecondDelivery(c: ContactState, m: Message, transport: u8)
    requires WellFormed(c) && Past(c, m, transport)
    requires m.MOffer? ==> m.offer.transport == transport
    requires m.MAccept? ==> m.transport == transport
    ensures Receive(c, m) != c <==> RefReused(c, m) && c.completedRef == RefOf(m)
  {
  }

  // ---- When a repeat succeeds ---------------------------------------------------------

  /** The phase a repeat is answered in. */
  predicate Answers(p: Phase, m: Message) {
    match m
    case MOffer(_) => p == Offered
    case MAccept(_, _, _, _) => p.PostAgreement()
    case MChallenge(_, _, _) => p == Validated
    case MResponse(_, _, _) => p == Validated
    case MCommit(_, _) => p == Active
    case MConfirm(_, _) => p == Active
  }

  /** The contact is in such a phase, still with the transaction and the content the message
      names. */
  predicate Repeats(c: ContactState, m: Message) {
    && Answers(c.phase, m)
    && (c.phase.InProgress() ==>
          && c.pending.ref == RefOf(m)
          && match m
             case MOffer(o) => c.pending == o
             case MAccept(_, transport, profile, _) => c.pending.transport == transport && c.pending.profile == profile
             case MChallenge(_, _, bytes) => c.challenge == bytes
             case MResponse(_, _, bytes) => c.challenge == bytes
             case MCommit(_, _) => true
             case MConfirm(_, _) => true)
  }

  /** A repeat of a message already taken succeeds exactly in these phases, in which the contact
      still holds the transaction it was taken for, or where a reused reference makes it a
      first copy. In any other phase it is refused, though it names the same transaction and
      carries the same content: an OFFER after agreement, an ACCEPT after completion, a
      challenge or response once COMMIT is out, a COMMIT or CONFIRM once the next migration is
      under way. */
  lemma RepeatSucceedsExactly(c: ContactState, m: Message, transport: u8)
    requires WellFormed(c) && Past(c, m, transport)
    requires m.MOffer? ==> m.offer.transport == transport
    requires m.MAccept? ==> m.transport == transport
    ensures Taken(c, m) <==> Repeats(c, m) || (RefReused(c, m) && c.completedRef == RefOf(m))
  {
  }

  // ---- On every run ---------------------------------------------------------------------

  predicate StepOf(states: seq<ContactState>, events: seq<Event>, i: nat)
    requires |states| == |events| + 1 && i < |events|
  {
    states[i + 1] == Apply(states[i], events[i]).1
  }

  lemma TakenNamesTransport(c: ContactState, m: Message)
    requires WellFormed(c) && Taken(c, m)
    ensures m.MOffer? ==> m.offer.transport == TransportOf(c, m)
    ensures m.MAccept? ==> m.transport == TransportOf(c, m)
  {
  }

  lemma StepStaysPast(c: ContactState, e: Event, after: ContactState, m: Message, transport: u8)
    requires WellFormed(c) && Past(c, m, transport) && after == Apply(c, e).1
    requires m.MOffer? ==> m.offer.transport == transport
    requires Current(after, RefOf(m), transport)
    ensures WellFormed(after) && Past(after, m, transport)
  {
    WellFormedIsKept(c, e);
    PastIsKept(c, e, m, transport);
  }

  /** State i is the outcome of the event before it, and the transaction is current in it. */
  predicate Goes(states: seq<ContactState>, events: seq<Event>, ref: u32, transport: u8, i: nat)
    requires |states| == |events| + 1 && 0 < i <= |events|
  {
    StepOf(states, events, i - 1) && Current(states[i], ref, transport)
  }

  lemma {:induction false} StaysPast(
    first: ContactState, m: Message, transport: u8, events: seq<Event>, states: seq<ContactState>, k: nat)
    requires WellFormed(first) && Past(first, m, transport) && (m.MOffer? ==> m.offer.transport == transport)
    requires |states| == |events| + 1 && states[0] == first && k <= |events|
    requires forall i :: 0 < i <= k ==> Goes(states, events, RefOf(m), transport, i)
    ensures WellFormed(states[k]) && Past(states[k], m, transport)
  {
    if k > 0 {
      StaysPast(first, m, transport, events, states, k - 1);
      assert Goes(states, events, RefOf(m), transport, k);
      StepStaysPast(states[k - 1], events[k - 1], states[k], m, transport);
    }
  }

  /** Delayed duplicates are inert. A message taken by a contact is delivered again after any
      run of operations in which its transaction stays current: every field is unchanged,
      so in particular no phase is undone. The one exception is exact: the run opened a
      second transaction under the completed reference. It is also exact when the repeat
      succeeds. */
  lemma DelayedDuplicatesAreInert(
    before: ContactState, m: Message, events: seq<Event>, states: seq<ContactState>, k: nat)
    requires WellFormed(before) && Taken(before, m)
    requires |states| == |events| + 1 && states[0] == Receive(before, m) && k <= |events|
    requires forall i :: 0 <= i < |events| ==> StepOf(states, events, i)
    requires forall i :: 0 <= i <= k ==> Current(states[i], RefOf(m), TransportOf(before, m))
    ensures var reused := RefReused(states[k], m) && states[k].completedRef == RefOf(m);
            && (Receive(states[k], m) != states[k] <==> reused)
            && (Taken(states[k], m) <==> Repeats(states[k], m) || reused)
  {
    TakenBecomesPast(before, m);
    TakenNamesTransport(before, m);
    forall i | 0 < i <= k ensures Goes(states, events, RefOf(m), TransportOf(before, m), i) {
      assert StepOf(states, events, i - 1);
    }
    StaysPast(states[0], m, TransportOf(before, m), events, states, k);
    SecondDelivery(states[k], m, TransportOf(before, m));
    RepeatSucceedsExactly(states[k], m, TransportOf(before, m));
  }

  // ---- The promise read literally ------------------------------------------------------

  /** The promise read literally fails in every transaction: the OFFER just agreed on is refused
      when it comes again, and so is the response just committed on. */
  lemma LiteralRepeatsAreRefused(c: ContactState)
    requires WellFormed(c)
    ensures c.phase == Agreed ==> RecordOffer(c, c.pending) == (InvalidState, c)
    ensures c.phase == Committing ==>
              ValidationResponse(c, c.pending.ref, c.sessionRef, c.challenge) == (InvalidState, c)
  {
  }

  // ---- The one exception, on a run ------------------------------------------------------

  /** Opening a second migration under the reference `m` completed, and bringing it to the phase
      in which that COMMIT would be a first copy. */
  function Reopening(c: ContactState, o: Offer, bytes: Challenge): seq<Event> {
    [EvOffer(o), EvAgree(o.ref, o.transport, o.profile, c.sessionRef), EvValidationBegin(bytes),
     EvValidationResponse(o.ref, c.sessionRef, bytes)]
  }

  /** The exception is real. Whatever contact has just completed a migration by COMMIT, its caller
      may reopen the reference for any other transport; the transaction stays current all the
      way, and the old COMMIT, delivered again, carries the contact off to that transport. */
  lemma ReusedReferenceMovesAgain(before: ContactState, o: Offer, bytes: Challenge) returns (states: seq<ContactState>)
    requires WellFormed(before) && before.phase == Validated && WellFormedOffer(o)
    requires o.ref == before.pending.ref && o.transport != before.pending.transport
    ensures var m := MCommit(before.pending.ref, before.sessionRef);
            var events := Reopening(before, o, bytes);
            && Taken(before, m)
            && |states| == |events| + 1 && states[0] == Receive(before, m)
            && (forall i :: 0 <= i < |events| ==> StepOf(states, events, i))
            && (forall i :: 0 <= i <= |events| ==> Current(states[i], o.ref, before.pending.transport))
            && RefReused(states[4], m) && states[4].active == before.pending.transport
            && Receive(states[4], m).active == o.transport
  {
    var m := MCommit(before.pending.ref, before.sessionRef);
    var c0 := Receive(before, m);
    var c1 := RecordOffer(c0, o).1;
    var c2 := Agree(c1, o.ref, o.transport, o.profile, before.sessionRef).1;
    var c3 := ValidationBegin(c2, bytes).1;
    states := [c0, c1, c2, c3, ValidationResponse(c3, o.ref, before.sessionRef, bytes).1];
  }
}
