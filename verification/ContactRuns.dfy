/** One contact over every run: any sequence of operations, with any arguments, after begin. */
module ContactRuns {
  import opened Words
  import opened ContactModel

  datatype Event =
    | EvPeerRef(peerRef: u32)
    | EvOffer(offer: Offer)
    | EvCollision(peerSource: u32, offer: Offer)
    | EvAgree(ref: u32, transport: u8, profile: u8, session: u32)
    | EvValidationBegin(bytes: Challenge)
    | EvValidationResponse(ref: u32, session: u32, bytes: Challenge)
    | EvCommitBegin
    | EvCommitConfirm(ref: u32, session: u32)
    | EvCommitAccept(ref: u32, session: u32)
    | EvAbandon
    | EvClose

  function Apply(c: ContactState, e: Event): Result {
    match e
    case EvPeerRef(p) => SetPeerRef(c, p)
    case EvOffer(o) => RecordOffer(c, o)
    case EvCollision(p, o) => var r := ResolveCollision(c, p, o); (r.status, r.contact)
    case EvAgree(m, t, p, s) => Agree(c, m, t, p, s)
    case EvValidationBegin(b) => ValidationBegin(c, b)
    case EvValidationResponse(m, s, b) => ValidationResponse(c, m, s, b)
    case EvCommitBegin => CommitBegin(c)
    case EvCommitConfirm(m, s) => CommitConfirm(c, m, s)
    case EvCommitAccept(m, s) => CommitAccept(c, m, s)
    case EvAbandon => Abandon(c)
    case EvClose => Close(c)
  }

  /** The operation completes the outstanding migration. */
  predicate Completes(c: ContactState, e: Event) {
    || (e.EvCommitAccept? && Apply(c, e).0 == Ok)
    || (e.EvCommitConfirm? && c.phase == Committing && Apply(c, e).0 == Ok)
  }

  /** A contact, the migrations it has completed, and what the last operation returned. */
  datatype Track = Track(contact: ContactState, moves: History, returned: Status)

  function Step(t: Track, e: Event): Track {
    Track(Apply(t.contact, e).1,
          if Completes(t.contact, e) then t.moves + [Move(t.contact.pending.ref, t.contact.pending.transport)]
          else t.moves,
          Apply(t.contact, e).0)
  }

  /** A run: the state after each of its events, the first state being that of begin. */
  datatype Run = Run(role: u8, localRef: u32, origin: u8, events: seq<Event>, states: seq<Track>) {
    ghost predicate StepAt(k: nat)
      requires |states| == |events| + 1 && k < |events|
    {
      states[k + 1] == Step(states[k], events[k])
    }

    ghost predicate Valid() {
      && BeginAccepts(role, origin)
      && |states| == |events| + 1
      && states[0] == Track(Begun(role, localRef, origin), [], Ok)
      && (forall k :: 0 <= k < |events| ==> StepAt(k))
    }
  }

  lemma StepKeepsInvariant(t: Track, e: Event, origin: u8)
    requires WellFormed(t.contact) && Refines(t.contact, origin, t.moves)
    ensures WellFormed(Step(t, e).contact) && Refines(Step(t, e).contact, origin, Step(t, e).moves)
  {
    if Completes(t.contact, e) {
      SettleKeepsDigest(t.contact, origin, t.moves);
    }
  }

  lemma {:induction false} RunInvariant(r: Run, k: nat)
    requires r.Valid() && k < |r.states|
    ensures WellFormed(r.states[k].contact) && Refines(r.states[k].contact, r.origin, r.states[k].moves)
  {
    if k > 0 {
      RunInvariant(r, k - 1);
      assert r.StepAt(k - 1);
      StepKeepsInvariant(r.states[k - 1], r.events[k - 1], r.origin);
    }
  }

  /** Adjacent migrations, and the origin before the first, are on different transports. */
  ghost predicate NeverStays(origin: u8, h: History) {
    forall i {:trigger h[i]} :: 0 <= i < |h| ==> h[i].transport != (if i == 0 then origin else h[i - 1].transport)
  }

  lemma {:induction false} MovingNeverStays(origin: u8, h: History)
    requires Moving(origin, h)
    ensures NeverStays(origin, h)
  {
    if h != [] {
      var past := h[..|h| - 1];
      MovingNeverStays(origin, past);
      assert forall i :: 0 <= i < |past| ==> h[i] == past[i];
    }
  }

  /** History refinement: the two remembered fields are those of the last migration, the
      counter saturates at 65535, and no migration ever stayed where it was. */
  lemma HistoryRefinement(r: Run, k: nat)
    requires r.Valid() && k < |r.states|
    ensures var c, h := r.states[k].contact, r.states[k].moves;
            && c.active == (if h == [] then r.origin else h[|h| - 1].transport)
            && c.completedRef == (if h == [] then MIGRATION_NONE else h[|h| - 1].ref)
            && c.count == (if |h| < 65535 then |h| else 65535)
            && NeverStays(r.origin, h)
  {
    RunInvariant(r, k);
    MovingNeverStays(r.origin, r.states[k].moves);
  }

  lemma StepKeepsSession(c: ContactState, e: Event)
    requires c.sessionValid && c.phase.Live()
    ensures var c' := Apply(c, e).1;
            if c'.phase == Closed then !c'.sessionValid
            else c'.phase.Live() && c'.sessionValid && c'.sessionRef == c.sessionRef
  {
  }

  lemma StepKeepsClosed(c: ContactState, e: Event)
    requires c.phase == Closed && WellFormed(c)
    ensures Apply(c, e).1 == c && !Completes(c, e)
  {
  }

  /** One session reference for the life of the contact: bound once, it stays until close,
      and a closed contact never has one again. */
  lemma {:induction false} SessionOutlivesMigrations(r: Run, i: nat, k: nat)
    requires r.Valid() && i <= k < |r.states|
    requires r.states[i].contact.sessionValid
    ensures var c := r.states[k].contact;
            if c.phase == Closed then !c.sessionValid
            else c.phase.Live() && c.sessionValid && c.sessionRef == r.states[i].contact.sessionRef
    decreases k - i
  {
    RunInvariant(r, i);
    if i < k {
      SessionOutlivesMigrations(r, i, k - 1);
      RunInvariant(r, k - 1);
      assert r.StepAt(k - 1);
      if r.states[k - 1].contact.phase == Closed {
        StepKeepsClosed(r.states[k - 1].contact, r.events[k - 1]);
      } else {
        StepKeepsSession(r.states[k - 1].contact, r.events[k - 1]);
      }
    }
  }

  /** A closed contact is inert and cannot be revived. */
  lemma {:induction false} ClosedIsInert(r: Run, i: nat, k: nat)
    requires r.Valid() && i <= k < |r.states| && r.states[i].contact.phase == Closed
    ensures r.states[k].contact == r.states[i].contact && r.states[k].moves == r.states[i].moves
    decreases k - i
  {
    if i < k {
      ClosedIsInert(r, i, k - 1);
      RunInvariant(r, k - 1);
      assert r.StepAt(k - 1);
      StepKeepsClosed(r.states[k - 1].contact, r.events[k - 1]);
    }
  }

  // ---- No unvalidated move -------------------------------------------------

  /** Event x of the run installs `o` as the outstanding offer: recorded here, or adopted
      from the peer in a collision. */
  ghost predicate Installs(r: Run, x: nat, o: Offer)
    requires |r.states| == |r.events| + 1 && x < |r.events|
  {
    && (r.events[x] == EvOffer(o) || (r.events[x].EvCollision? && r.events[x].offer == o))
    && r.states[x + 1].returned == Ok
    && r.states[x + 1].contact.phase == Offered
    && r.states[x + 1].contact.pending == o
  }

  ghost predicate Succeeds(r: Run, x: nat, e: Event)
    requires |r.states| == |r.events| + 1 && x < |r.events|
  {
    r.events[x] == e && r.states[x + 1].returned == Ok
  }

  /** In every state after event x, up to state k, the same transaction is outstanding: it
      was neither abandoned, aborted, replaced nor closed. */
  ghost predicate Outstanding(r: Run, x: nat, k: nat, o: Offer)
    requires x < k < |r.states|
  {
    forall y :: x < y <= k ==> r.states[y].contact.phase.InProgress() && r.states[y].contact.pending == o
  }

  /** Where in the run the evidence behind a state lies; fields beyond the phase reached
      mean nothing. */
  datatype Evidence = Evidence(offered: nat, agreed: nat, challenged: nat, echoed: nat)

  ghost predicate Backed(r: Run, k: nat, w: Evidence)
    requires |r.states| == |r.events| + 1 && k < |r.states|
  {
    var c := r.states[k].contact;
    var o := c.pending;
    c.phase.InProgress() ==>
      && w.offered < k && Installs(r, w.offered, o) && Outstanding(r, w.offered, k, o)
      && (c.phase.PostAgreement() ==>
            && w.offered < w.agreed < k
            && Succeeds(r, w.agreed, EvAgree(o.ref, o.transport, o.profile, c.sessionRef)))
      && (c.challengeValid ==>
            && w.agreed < w.challenged < k
            && Succeeds(r, w.challenged, EvValidationBegin(c.challenge)))
      && (c.phase == Validated || c.phase == Committing ==>
            && w.challenged < w.echoed < k
            && Succeeds(r, w.echoed, EvValidationResponse(o.ref, c.sessionRef, c.challenge)))
  }

  /** One step, seen from the transaction outstanding after it: either the step installed
      it, or it was outstanding already and the step moved it on by at most one phase. */
  lemma StepAdvances(c: ContactState, e: Event)
    requires WellFormed(c) && Apply(c, e).1.phase.InProgress()
    ensures var (status, c') := Apply(c, e);
            || (status == Ok && c'.phase == Offered
                && (e == EvOffer(c'.pending) || (e.EvCollision? && e.offer == c'.pending)))
            || (c.phase.InProgress() && c'.pending == c.pending &&
                (|| (c'.phase == c.phase && c'.sessionRef == c.sessionRef && c'.challenge == c.challenge)
                 || (status == Ok && c.phase == Offered && c'.phase == Agreed
                     && e == EvAgree(c.pending.ref, c.pending.transport, c.pending.profile, c'.sessionRef))
                 || (status == Ok && c.phase == Agreed && c'.phase == Validating && c'.sessionRef == c.sessionRef
                     && e == EvValidationBegin(c'.challenge))
                 || (status == Ok && c.phase == Validating && c'.phase == Validated
                     && c'.sessionRef == c.sessionRef && c'.challenge == c.challenge
                     && e == EvValidationResponse(c.pending.ref, c.sessionRef, c.challenge))
                 || (status == Ok && c.phase == Validated && c'.phase == Committing && e == EvCommitBegin
                     && c'.sessionRef == c.sessionRef && c'.challenge == c.challenge)))
  {
  }

  /** One step, seen from a change of the active transport. */
  lemma StepMoves(c: ContactState, e: Event)
    requires WellFormed(c) && Apply(c, e).1.active != c.active
    ensures var (status, c') := Apply(c, e);
            && status == Ok && (c.phase == Validated || c.phase == Committing)
            && c'.active == c.pending.transport && c'.completedRef == c.pending.ref
            && (e == EvCommitAccept(c.pending.ref, c.sessionRef) || e == EvCommitConfirm(c.pending.ref, c.sessionRef))
  {
  }

  lemma OutstandingOneMore(r: Run, x: nat, k: nat, o: Offer)
    requires x < k < k + 1 < |r.states| && Outstanding(r, x, k, o)
    requires r.states[k + 1].contact.phase.InProgress() && r.states[k + 1].contact.pending == o
    ensures Outstanding(r, x, k + 1, o)
  {
  }

  /** The evidence behind the state before step x, brought forward to the state after it. */
  function Forward(r: Run, x: nat, w: Evidence): Evidence
    requires x + 1 < |r.states|
  {
    match r.states[x + 1].contact.phase
    case Agreed => if r.states[x].contact.phase == Offered then w.(agreed := x) else w
    case Validating => if r.states[x].contact.phase == Agreed then w.(challenged := x) else w
    case Validated => if r.states[x].contact.phase == Validating then w.(echoed := x) else w
    case _ => w
  }

  lemma EvidenceMovesOn(r: Run, x: nat, w: Evidence)
    requires r.Valid() && x < |r.events| && Backed(r, x, w)
    requires WellFormed(r.states[x].contact) && WellFormed(r.states[x + 1].contact)
    requires r.states[x + 1].contact.phase.InProgress() && !Installs(r, x, r.states[x + 1].contact.pending)
    ensures Backed(r, x + 1, Forward(r, x, w))
  {
    assert r.StepAt(x);
    var c := r.states[x].contact;
    StepAdvances(c, r.events[x]);
    OutstandingOneMore(r, w.offered, x, c.pending);
  }

  lemma {:induction false} EvidenceExists(r: Run, k: nat) returns (w: Evidence)
    requires r.Valid() && k < |r.states|
    ensures Backed(r, k, w)
  {
    w := Evidence(0, 0, 0, 0);
    if k > 0 && r.states[k].contact.phase.InProgress() {
      var x := k - 1;
      RunInvariant(r, x);
      RunInvariant(r, k);
      if Installs(r, x, r.states[k].contact.pending) {
        w := w.(offered := x);
      } else {
        w := EvidenceExists(r, x);
        EvidenceMovesOn(r, x, w);
        w := Forward(r, x, w);
      }
    }
  }

  /** No unvalidated move: whenever the active transport changes, the run holds an offer of
      exactly that transport, then an agreement binding the present session to it, then a
      recorded challenge, then its exact echo under both references, then the commit, with
      the transaction outstanding all the way. */
  lemma NoUnvalidatedMove(r: Run, k: nat) returns (w: Evidence, o: Offer, session: u32, bytes: Challenge)
    requires r.Valid() && k < |r.events|
    requires r.states[k + 1].contact.active != r.states[k].contact.active
    ensures w.offered < w.agreed < w.challenged < w.echoed < k
    ensures Installs(r, w.offered, o) && Outstanding(r, w.offered, k, o)
    ensures Succeeds(r, w.agreed, EvAgree(o.ref, o.transport, o.profile, session))
    ensures Succeeds(r, w.challenged, EvValidationBegin(bytes))
    ensures Succeeds(r, w.echoed, EvValidationResponse(o.ref, session, bytes))
    ensures Succeeds(r, k, EvCommitAccept(o.ref, session)) || Succeeds(r, k, EvCommitConfirm(o.ref, session))
    ensures r.states[k + 1].contact.active == o.transport && r.states[k + 1].contact.completedRef == o.ref
    ensures r.states[k + 1].moves == r.states[k].moves + [Move(o.ref, o.transport)]
  {
    RunInvariant(r, k);
    assert r.StepAt(k);
    w := EvidenceExists(r, k);
    var c := r.states[k].contact;
    o, session, bytes := c.pending, c.sessionRef, c.challenge;
    StepMoves(c, r.events[k]);
  }
}
