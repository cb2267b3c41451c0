/** What each operation of a contact answers and leaves behind, field by field: the refusals of
    src/contact.c with their reasons, and one migration from begin to its end. */
module ContactLaws {
  import opened Words
  import opened ContactModel
  import opened ContactRuns

  /** Reserved values are never part of an offer. */
  predicate Names(o: Offer) {
    o.ref != 0 && o.transport != 0 && o.profile != 0
  }

  /** A contact as begun: the caller's reference, role and transport, and nothing else. */
  lemma BegunFields(role: u8, local: u32, transport: u8)
    ensures var c := Begun(role, local, transport);
            && c.localRef == local && c.role == role && c.active == transport && c.phase == Active
            && !c.peerRefValid && !c.sessionValid && !c.challengeValid && c.sessionRef == 0
            && c.count == 0 && c.completedRef == 0 && c.pending == Offer(0, 0, 0, 0, 0)
    ensures BeginAccepts(role, transport) <==> role < 2 && transport != 0
  {
  }

  /** First write wins: the first reference is kept, the same one may be set again, and any other
      is a mismatch from then on. */
  lemma PeerRefIsFirstWriteWins(c: ContactState, p: u32, q: u32)
    ensures var (status, after) := SetPeerRef(c, p);
            && (c.phase == NotBegun || c.phase == Closed ==> status == InvalidState && after == c)
            && (c.phase != NotBegun && c.phase != Closed ==>
                  && status == (if c.peerRefValid && c.peerRef != p then ContextMismatch else Ok)
                  && after == (if c.peerRefValid then c else c.(peerRef := p, peerRefValid := true))
                  && (status == Ok ==> SetPeerRef(after, q) == (if q == p then Ok else ContextMismatch, after)))
  {
  }

  lemma OfferAnswers(c: ContactState, o: Offer)
    requires WellFormed(c)
    ensures var (status, after) := RecordOffer(c, o);
            && (status == Ok <==>
                  && Names(o)
                  && ((c.phase == Active && o.transport != c.active) || (c.phase == Offered && o == c.pending)))
            && (status == ContextMismatch <==>
                  Names(o) && c.phase == Offered && o.ref == c.pending.ref && o != c.pending)
            && (status == InvalidArgument <==> !Names(o) || (c.phase == Active && o.transport == c.active))
            && (status == InvalidState <==>
                  Names(o) && c.phase != Active && !(c.phase == Offered && o.ref == c.pending.ref))
            && after == if status == Ok && c.phase == Active then c.(phase := Offered, pending := o) else c
  {
  }

  lemma CollisionAnswers(c: ContactState, peerSource: u32, o: Offer)
    requires WellFormed(c)
    ensures var r := ResolveCollision(c, peerSource, o);
            var wins := peerSource > c.localRef || (peerSource == c.localRef && o.ref > c.pending.ref);
            var tie := peerSource == c.localRef && o.ref == c.pending.ref;
            && (r.status == InvalidState <==> Names(o) && c.phase != Offered)
            && (r.status == InvalidArgument <==>
                  !Names(o) || (c.phase == Offered && wins && o.transport == c.active))
            && (r.status == Ok || r.status == InvalidState || r.status == InvalidArgument)
            && (r.status != Ok ==> r.contact == c && r.outcome == None)
            && (r.status == Ok && tie ==>
                  r.outcome == Some(TieAbort) && r.contact == c.(phase := Active, pending := Offer(0, 0, 0, 0, 0)))
            && (r.status == Ok && wins ==> r.outcome == Some(PeerWins) && r.contact == c.(pending := o))
            && (r.status == Ok && !wins && !tie ==> r.outcome == Some(LocalWins) && r.contact == c)
  {
  }

  /** The phases in which an acceptance can still be for the outstanding offer. */
  predicate AwaitsOrHasAgreement(p: Phase) {
    p == Offered || p == Agreed || p == Validating || p == Validated || p == Committing
  }

  lemma AgreeAnswers(c: ContactState, ref: u32, transport: u8, profile: u8, session: u32)
    requires WellFormed(c)
    ensures var (status, after) := Agree(c, ref, transport, profile, session);
            var offered := ref == c.pending.ref && transport == c.pending.transport && profile == c.pending.profile;
            var other := c.sessionValid && session != c.sessionRef;
            && (status == InvalidArgument <==> session == 0)
            && (status == InvalidState <==> session != 0 && !other && !AwaitsOrHasAgreement(c.phase))
            && (status == ContextMismatch <==>
                  session != 0 && (other || (AwaitsOrHasAgreement(c.phase) && !offered)))
            && (status == Ok <==> session != 0 && !other && AwaitsOrHasAgreement(c.phase) && offered)
            && after == if status == Ok && c.phase == Offered
                        then c.(sessionRef := session, sessionValid := true, phase := Agreed) else c
  {
  }

  lemma ChallengeAnswers(c: ContactState, bytes: Challenge)
    requires WellFormed(c)
    ensures ValidationBegin(c, bytes) ==
            if c.phase == Agreed then (Ok, c.(challenge := bytes, challengeValid := true, phase := Validating))
            else (InvalidState, c)
  {
  }

  /** Both references and all eight bytes are those of the outstanding transaction. */
  predicate Echoes(c: ContactState, ref: u32, session: u32, bytes: Challenge) {
    ref == c.pending.ref && session == c.sessionRef && forall i :: 0 <= i < 8 ==> bytes[i] == c.challenge[i]
  }

  lemma ResponseAnswers(c: ContactState, ref: u32, session: u32, echo: Challenge)
    requires WellFormed(c)
    ensures var (status, after) := ValidationResponse(c, ref, session, echo);
            && (status == InvalidState <==> c.phase != Validating && c.phase != Validated)
            && (status == Ok <==> (c.phase == Validating || c.phase == Validated) && Echoes(c, ref, session, echo))
            && (status != Ok && status != InvalidState ==> status == ContextMismatch)
            && after == if status == Ok then c.(phase := Validated) else c
    ensures ChallengeRepeat(c, ref, session, echo) <==> c.phase == Validated && Echoes(c, ref, session, echo)
  {
    assert echo == c.challenge <==> forall i :: 0 <= i < 8 ==> echo[i] == c.challenge[i];
  }

  /** The contact after its outstanding migration completes: on the candidate, with nothing
      outstanding, one migration more; references, role and session untouched. */
  function Moved(c: ContactState): ContactState {
    c.(phase := Active, active := c.pending.transport, completedRef := c.pending.ref,
       pending := Offer(0, 0, 0, 0, 0), challenge := [0, 0, 0, 0, 0, 0, 0, 0], challengeValid := false,
       count := if c.count == 65535 then 65535 else c.count + 1)
  }

  lemma CommitAnswers(c: ContactState, ref: u32, session: u32)
    requires WellFormed(c)
    ensures var right := ref == c.pending.ref && session == c.sessionRef;
            CommitAccept(c, ref, session) ==
            if c.phase != Validated then (InvalidState, c)
            else if right then (Ok, Moved(c)) else (ContextMismatch, c)
    ensures CommitBegin(c) == if c.phase == Validated then (Ok, c.(phase := Committing)) else (InvalidState, c)
    ensures CommitRepeat(c, ref, session) <==>
            c.phase == Active && c.count > 0 && ref == c.completedRef && session == c.sessionRef
  {
  }

  lemma ConfirmAnswers(c: ContactState, ref: u32, session: u32)
    requires WellFormed(c)
    ensures var (status, after) := CommitConfirm(c, ref, session);
            var awaited := c.phase == Committing && ref == c.pending.ref && session == c.sessionRef;
            var repeated := c.phase == Active && c.count > 0 && ref == c.completedRef && session == c.sessionRef;
            && (status == Ok <==> awaited || repeated)
            && (status == InvalidState <==> c.phase != Committing && !(c.phase == Active && c.count > 0))
            && (status != Ok && status != InvalidState ==> status == ContextMismatch)
            && after == if awaited then Moved(c) else c
  {
  }

  /** From the four phases before COMMIT, and from no other, a migration can be given up; the
      contact is then as it was before the offer, but for a session bound meanwhile. */
  lemma AbandonAnswers(c: ContactState)
    requires WellFormed(c)
    ensures var (status, after) := Abandon(c);
            && status == (if c.phase == Offered || c.phase == Agreed || c.phase == Validating || c.phase == Validated
                          then Ok else InvalidState)
            && after == if status != Ok then c
                        else c.(phase := Active, pending := Offer(0, 0, 0, 0, 0),
                                challenge := [0, 0, 0, 0, 0, 0, 0, 0], challengeValid := false)
  {
  }

  lemma CloseAnswers(c: ContactState)
    ensures Close(c) ==
            if c.phase == NotBegun then (InvalidState, c)
            else (Ok, c.(phase := Closed, sessionRef := 0, sessionValid := false, pending := Offer(0, 0, 0, 0, 0),
                         challenge := [0, 0, 0, 0, 0, 0, 0, 0], challengeValid := false))
  {
  }

  /** Handoff controls go to the candidate from the offer to the end of the commit. */
  lemma ControlsGoToTheCandidate(c: ContactState)
    ensures ControlTransport(c) ==
            if c.phase == Offered || c.phase == Agreed || c.phase == Validating || c.phase == Validated
               || c.phase == Committing
            then c.pending.transport else c.active
  {
  }

  /** A refusal changes nothing, whatever the operation and its arguments. */
  lemma RefusalsChangeNothing(c: ContactState, e: Event)
    requires Apply(c, e).0 != Ok
    ensures Apply(c, e).1 == c
  {
  }

  /** What no operation touches: the own reference and the role are those of begin, in every run. */
  lemma {:induction false} OwnReferenceIsFixed(r: Run, k: nat)
    requires r.Valid() && k < |r.states|
    ensures r.states[k].contact.localRef == r.localRef && r.states[k].contact.role == r.role
  {
    if k > 0 {
      OwnReferenceIsFixed(r, k - 1);
      assert r.StepAt(k - 1);
      StepKeepsOwnReference(r.states[k - 1].contact, r.events[k - 1]);
    }
  }

  lemma StepKeepsOwnReference(c: ContactState, e: Event)
    ensures Apply(c, e).1.localRef == c.localRef && Apply(c, e).1.role == c.role
  {
  }

  // ---- From begin -----------------------------------------------------------------------------

  /** One migration by either role, every call in its place: the initiator's ends with the CONFIRM,
      the responder's with the COMMIT. The two end alike. */
  lemma WholeMigration(role: u8, local: u32, from: u8, o: Offer, session: u32, bytes: Challenge)
    requires role < 2 && from != 0 && Names(o) && o.transport != from && session != 0
    ensures var c := Begun(role, local, from);
            var (s1, c1) := RecordOffer(c, o);
            var (s2, c2) := Agree(c1, o.ref, o.transport, o.profile, session);
            var (s3, c3) := ValidationBegin(c2, bytes);
            var (s4, c4) := ValidationResponse(c3, o.ref, session, bytes);
            var (s5, c5) := CommitBegin(c4);
            && s1 == s2 == s3 == s4 == s5 == Ok && c5.phase == Committing && ControlTransport(c5) == o.transport
            && CommitConfirm(c5, o.ref, session) == CommitAccept(c4, o.ref, session)
            && CommitAccept(c4, o.ref, session) ==
               (Ok, c.(active := o.transport, completedRef := o.ref, count := 1,
                       sessionRef := session, sessionValid := true))
  {
  }

  /** Glare from begin: of two contacts begun on one transport, each with an offer of its own, the one
      begun under the smaller reference finds that its peer wins, and the other that it wins; the
      peer is named by the very number it was begun with. */
  lemma GlareFromBegin(a: u32, b: u32, from: u8, o: Offer, p: Offer)
    requires a != b && from != 0 && Names(o) && Names(p) && o.transport != from && p.transport != from && o != p
    ensures var x := RecordOffer(Begun(0, a, from), o).1;
            var y := RecordOffer(Begun(1, b, from), p).1;
            var (rx, ry) := (ResolveCollision(x, b, p), ResolveCollision(y, a, o));
            && rx.status == ry.status == Ok
            && rx.outcome == Some(if b > a then PeerWins else LocalWins)
            && ry.outcome == Some(if a > b then PeerWins else LocalWins)
            && rx.contact.pending == ry.contact.pending == (if b > a then p else o)
  {
  }
}
