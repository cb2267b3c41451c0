/** What runs of two peers can reach: every migration can be completed, and a reference
    recorded twice can drive the peers apart. */
module MigrationReach {
  import opened Words
  import opened ContactModel
  import opened Messages
  import opened Migration
  import opened MigrationRuns

  ghost predicate Reaches(s: System, t: System) {
    exists steps :: Possible(s, steps) && After(s, steps) == t
  }

  lemma {:induction false} AfterSnoc(s: System, steps: seq<Step>, x: Step)
    requires Possible(s, steps) && Enabled(After(s, steps), x)
    ensures Possible(s, steps + [x]) && After(s, steps + [x]) == Do(After(s, steps), x)
    decreases |steps|
  {
    if steps == [] {
      Unroll1(s, x, []);
      assert [x] + [] == [] + [x];
    } else {
      AfterSnoc(Do(s, steps[0]), steps[1..], x);
      Unroll1(s, steps[0], steps[1..] + [x]);
      assert [steps[0]] + (steps[1..] + [x]) == steps + [x];
    }
  }

  lemma ReachesMore(s: System, t: System, x: Step)
    requires Reaches(s, t) && Enabled(t, x)
    ensures Reaches(s, Do(t, x))
  {
    var steps :| Possible(s, steps) && After(s, steps) == t;
    AfterSnoc(s, steps, x);
  }

  lemma ReachesItself(s: System)
    ensures Reaches(s, s)
  {
    assert Possible(s, []) && After(s, []) == s;
  }

  lemma {:induction false} ReachesOn(s: System, t: System, steps: seq<Step>)
    requires Reaches(s, t) && Possible(t, steps)
    ensures Reaches(s, After(t, steps))
    decreases |steps|
  {
    if steps != [] {
      ReachesMore(s, t, steps[0]);
      ReachesOn(s, Do(t, steps[0]), steps[1..]);
    }
  }

  lemma ReachIsTransitive(s: System, t: System, u: System)
    requires Reaches(s, t) && Reaches(t, u)
    ensures Reaches(s, u)
  {
    var steps :| Possible(t, steps) && After(t, steps) == u;
    ReachesOn(s, t, steps);
  }

  lemma {:induction false} PossibleKeeps(s: System, steps: seq<Step>)
    requires Inv(s) && Possible(s, steps)
    ensures Inv(After(s, steps))
    decreases |steps|
  {
    if steps != [] {
      StepKeeps(s, steps[0]);
      PossibleKeeps(Do(s, steps[0]), steps[1..]);
    }
  }

  // ---- One migration, start to end --------------------------------------------------

  predicate Side(c: ContactState, phase: Phase, from: u8, o: Offer, session: u32, bytes: Challenge) {
    && c.phase == phase && c.active == from
    && (c.sessionValid ==> c.sessionRef == session)
    && (phase.PostAgreement() ==> c.sessionValid)
    && (phase.InProgress() ==> c.pending == o)
    && (phase == Validating || phase == Validated || phase == Committing ==> c.challengeValid && c.challenge == bytes)
  }

  /** Nothing but `ref` has been offered or recorded since s. */
  predicate OnlyTouches(s: System, t: System, ref: u32) {
    t.offers.Keys <= s.offers.Keys + {ref} && t.recorded <= s.recorded + {ref}
  }

  /** How far migration o has come since s: the phase of each side, nothing completed yet. */
  predicate Midway(s: System, t: System, o: Offer, session: u32, bytes: Challenge, a: Phase, b: Phase) {
    && Side(t.a, a, s.a.active, o, session, bytes) && Side(t.b, b, s.b.active, o, session, bytes)
    && t.doneA == s.doneA && t.doneB == s.doneB && s.net <= t.net && OnlyTouches(s, t, o.ref)
  }

  /** Two idle peers, and a migration they have not dealt with. */
  ghost predicate Ready(s: System, o: Offer, session: u32) {
    && Inv(s) && s.a.phase == Active && s.b.phase == Active
    && WellFormedOffer(o) && o.transport != s.a.active && o.ref !in s.offers && o.ref !in s.recorded
    && session != SESSION_NONE && (s.session != SESSION_NONE ==> session == s.session)
  }

  lemma OfferGoesOut(s: System, o: Offer, session: u32, bytes: Challenge) returns (t: System)
    requires Ready(s, o, session)
    ensures Reaches(s, t) && Midway(s, t, o, session, bytes, Offered, Active)
    ensures MOffer(o) in t.net && o.ref !in t.recorded && s.a.active == s.b.active
  {
    ReachesItself(s);
    ReachesMore(s, s, AOffer(o));
    t := Do(s, AOffer(o));
  }

  lemma OfferArrives(s: System, o: Offer, session: u32, bytes: Challenge, t: System) returns (u: System)
    requires WellFormedOffer(o) && o.transport != s.b.active && Reaches(s, t)
    requires Midway(s, t, o, session, bytes, Offered, Active) && MOffer(o) in t.net && o.ref !in t.recorded
    ensures Reaches(s, u) && Midway(s, u, o, session, bytes, Offered, Offered) && MOffer(o) in u.net
  {
    ReachesMore(s, t, BReceive(MOffer(o)));
    u := Do(t, BReceive(MOffer(o)));
  }

  lemma AcceptanceReturns(s: System, o: Offer, session: u32, bytes: Challenge, t: System) returns (v: System)
    requires session != SESSION_NONE && Reaches(s, t)
    requires Midway(s, t, o, session, bytes, Offered, Offered) && MOffer(o) in t.net
    ensures Reaches(s, v) && Midway(s, v, o, session, bytes, Agreed, Agreed) && MOffer(o) in v.net
            && v.session == session
  {
    var accept := MAccept(o.ref, o.transport, o.profile, session);
    ReachesMore(s, t, BAccept(session));
    var u := Do(t, BAccept(session));
    assert accept in u.net;
    ReachesMore(s, u, AReceive(accept));
    v := Do(u, AReceive(accept));
  }

  predicate Sent(t: System, o: Offer, session: u32, bytes: Challenge) {
    MOffer(o) in t.net && MChallenge(o.ref, session, bytes) in t.net && t.session == session
  }

  lemma ChallengeGoesOut(s: System, o: Offer, session: u32, bytes: Challenge, t: System) returns (u: System)
    requires Reaches(s, t) && Midway(s, t, o, session, bytes, Agreed, Agreed) && MOffer(o) in t.net
            && t.session == session
    ensures Reaches(s, u) && Midway(s, u, o, session, bytes, Validating, Agreed) && Sent(u, o, session, bytes)
  {
    ReachesMore(s, t, AChallenge(bytes));
    u := Do(t, AChallenge(bytes));
  }

  lemma EchoReturns(s: System, o: Offer, session: u32, bytes: Challenge, t: System) returns (v: System)
    requires Reaches(s, t) && Midway(s, t, o, session, bytes, Validating, Agreed) && Sent(t, o, session, bytes)
    ensures Reaches(s, v) && Midway(s, v, o, session, bytes, Validated, Validated) && Sent(v, o, session, bytes)
  {
    var challenge, response := MChallenge(o.ref, session, bytes), MResponse(o.ref, session, bytes);
    ReachesMore(s, t, BReceive(challenge));
    var u := Do(t, BReceive(challenge));
    assert Midway(s, u, o, session, bytes, Validating, Validated) && response in u.net;
    ReachesMore(s, u, AReceive(response));
    v := Do(u, AReceive(response));
  }

  /** The migration is over on both sides, and its messages remain in the network. */
  predicate Moved(s: System, t: System, o: Offer, session: u32, bytes: Challenge) {
    && t.a.phase == Active && t.b.phase == Active && t.a.active == t.b.active == o.transport
    && t.doneA == t.doneB == s.doneA + [Move(o.ref, o.transport)]
    && {MOffer(o), MChallenge(o.ref, session, bytes), MCommit(o.ref, session)} + s.net <= t.net
    && t.session == session && OnlyTouches(s, t, o.ref)
  }

  lemma CommitGoesOut(s: System, o: Offer, session: u32, bytes: Challenge, t: System) returns (u: System)
    requires Reaches(s, t) && Midway(s, t, o, session, bytes, Validated, Validated) && Sent(t, o, session, bytes)
    ensures Reaches(s, u) && Midway(s, u, o, session, bytes, Committing, Validated) && Sent(u, o, session, bytes)
    ensures MCommit(o.ref, session) in u.net
  {
    ReachesMore(s, t, ACommit);
    u := Do(t, ACommit);
  }

  lemma ConfirmReturns(s: System, o: Offer, session: u32, bytes: Challenge, t: System) returns (v: System)
    requires Reaches(s, t) && Midway(s, t, o, session, bytes, Committing, Validated) && Sent(t, o, session, bytes)
    requires MCommit(o.ref, session) in t.net && s.doneA == s.doneB
    ensures Reaches(s, v) && Moved(s, v, o, session, bytes)
  {
    var commit, confirm := MCommit(o.ref, session), MConfirm(o.ref, session);
    ReachesMore(s, t, BReceive(commit));
    var u := Do(t, BReceive(commit));
    assert confirm in u.net && u.a == t.a && u.b.phase == Active && u.b.active == o.transport;
    assert s.net <= u.net && Sent(u, o, session, bytes) && commit in u.net;
    ReachesMore(s, u, AReceive(confirm));
    v := Do(u, AReceive(confirm));
  }

  /** The first half: two idle peers get as far as a COMMIT under way. */
  lemma CommitIsUnderWay(s: System, o: Offer, session: u32, bytes: Challenge) returns (t: System)
    requires Ready(s, o, session)
    ensures Reaches(s, t) && Midway(s, t, o, session, bytes, Committing, Validated) && Sent(t, o, session, bytes)
    ensures MCommit(o.ref, session) in t.net
  {
    t := OfferGoesOut(s, o, session, bytes);
    t := OfferArrives(s, o, session, bytes, t);
    t := AcceptanceReturns(s, o, session, bytes, t);
    t := ChallengeGoesOut(s, o, session, bytes, t);
    t := EchoReturns(s, o, session, bytes, t);
    t := CommitGoesOut(s, o, session, bytes, t);
  }

  lemma ReachKeeps(s: System, t: System)
    requires Inv(s) && Reaches(s, t)
    ensures Inv(t)
  {
    var steps :| Possible(s, steps) && After(s, steps) == t;
    PossibleKeeps(s, steps);
  }

  /** Every migration two idle peers may attempt can be completed, whatever happened before:
      safety is not bought by refusing to move. */
  lemma MigrationCanComplete(s: System, o: Offer, session: u32, bytes: Challenge) returns (t: System)
    requires Ready(s, o, session)
    ensures Reaches(s, t) && Inv(t) && Moved(s, t, o, session, bytes)
  {
    t := CommitIsUnderWay(s, o, session, bytes);
    t := ConfirmReturns(s, o, session, bytes, t);
    ReachKeeps(s, t);
  }

  /** Abandoning before COMMIT arrives is safe, for nobody has moved, but it is not without
      consequence: from any two idle peers, B may prove the path, A commit, and B then give the
      migration up. B is back to ordinary traffic, and A stays quiesced until it closes the
      contact, whatever is delivered and however often COMMIT is repeated. */
  lemma CommitCanBeStranded(s: System, o: Offer, session: u32, bytes: Challenge) returns (t: System)
    requires Ready(s, o, session)
    ensures Reaches(s, t) && BothLive(t) && t.a.phase == Committing && t.a.pending == o && t.b.phase == Active
    ensures forall u :: Reaches(t, u) ==> u.a == t.a || u.a.phase == Closed
  {
    t := CommitIsUnderWay(s, o, session, bytes);
    ReachesMore(s, t, BAbandon);
    t := Do(t, BAbandon);
    ReachKeeps(s, t);
    forall u | Reaches(t, u) ensures u.a == t.a || u.a.phase == Closed {
      var more :| Possible(t, more) && After(t, more) == u;
      Stranded(t, more);
    }
  }

  lemma Extend(r: Run, x: Step) returns (r': Run)
    requires r.Valid() && Enabled(r.states[|r.steps|], x)
    ensures r'.Valid() && r'.steps == r.steps + [x] && r'.states == r.states + [Do(r.states[|r.steps|], x)]
  {
    r' := Run(r.steps + [x], r.states + [Do(r.states[|r.steps|], x)]);
    forall k | 0 <= k < |r'.steps| ensures r'.StepAt(k) {
      assert k < |r.steps| ==> r.StepAt(k);
    }
  }

  lemma {:induction false} ExtendAll(r: Run, steps: seq<Step>) returns (r': Run)
    requires r.Valid() && Possible(r.states[|r.steps|], steps)
    ensures r'.Valid() && r'.states[|r'.steps|] == After(r.states[|r.steps|], steps)
    decreases |steps|
  {
    r' := r;
    if steps != [] {
      r' := Extend(r, steps[0]);
      r' := ExtendAll(r', steps[1..]);
    }
  }

  /** What can be reached from an initial state is the end of a run. */
  lemma ReachedByRun(s: System, t: System) returns (r: Run)
    requires Initial(s) && Reaches(s, t)
    ensures r.Valid() && r.states[|r.steps|] == t
  {
    var steps :| Possible(s, steps) && After(s, steps) == t;
    r := ExtendAll(Run([], [s]), steps);
  }

  /** In this run B abandons a transaction from phase p, and A is committing it afterwards, with
      no way to complete it. */
  ghost predicate Strands(r: Run, j: nat, k: nat, p: Phase) {
    && r.Valid() && j < k < |r.states|
    && WasAbandoned(r, j, r.states[j].b.pending.ref) && r.states[j].b.phase == p
    && r.states[k].a.phase == Committing && r.states[k].a.pending.ref == r.states[j].b.pending.ref
    && !CanSettle(r.states[k])
  }

  lemma StrandingRun(s: System, o: Offer, session: u32, bytes: Challenge) returns (r: Run)
    requires Initial(s) && Ready(s, o, session)
    ensures |r.steps| > 0 && Strands(r, |r.steps| - 1, |r.steps|, Validated)
  {
    var t := CommitIsUnderWay(s, o, session, bytes);
    r := ReachedByRun(s, t);
    r := Extend(r, BAbandon);
    RunKeeps(r, |r.steps|);
    DroppedCannotSettle(r.states[|r.steps|]);
  }

  /** The exact guard for abandoning: of all the phases the contact allows it in, VALIDATED is the
      one from which a run exists that strands A. From every other it never does. */
  lemma AbandonmentGuard(p: Phase)
    requires p.Revocable()
    ensures (exists r: Run, j: nat, k: nat :: Strands(r, j, k, p)) <==> p == Validated
  {
    if p == Validated {
      var o := Offer(1, 2, 1, 0, 0);
      var s := System(1, Begun(ROLE_INITIATOR, 0, 1), Begun(ROLE_RESPONDER, 0, 1),
                      [], [], {}, map[], {}, {}, {}, SESSION_NONE);
      InitialInv(s);
      var r := StrandingRun(s, o, 1, ZERO_CHALLENGE);
    } else if r: Run, j: nat, k: nat :| Strands(r, j, k, p) {
      EarlyAbandonNeverStrands(r, j, k, r.states[j].b.pending.ref);
    }
  }

  // ---- Why B must not record a reference again --------------------------------

  /** B has taken up the old offer and come as far as `phase` with it; A has not moved. */
  predicate Replayed(s: System, s': System, o: Offer, phase: Phase) {
    && s'.b.phase == phase && s'.b.pending == o && s'.b.active == s.b.active
    && s'.b.sessionValid && s'.b.sessionRef == s.session
    && s'.a == s.a && s.net <= s'.net
  }

  lemma OldOfferIsRecorded(s: System, o: Offer)
    requires Contacts(s) && Sessions(s) && s.b.phase == Active && s.session != SESSION_NONE
    requires o.transport != s.b.active && WellFormedOffer(o)
    ensures Replayed(s, BRecords(s, MOffer(o)), o, Offered)
  {
  }

  lemma OldOfferIsAccepted(s: System, s1: System, o: Offer)
    requires s.session != SESSION_NONE && Replayed(s, s1, o, Offered)
    ensures Enabled(s1, BAccept(s.session)) && Replayed(s, Do(s1, BAccept(s.session)), o, Agreed)
  {
  }

  lemma OldChallengeIsEchoed(s: System, s2: System, o: Offer, m: Message)
    requires Replayed(s, s2, o, Agreed) && m.MChallenge? && m.ref == o.ref && m.session == s.session && m in s.net
    ensures Enabled(s2, BReceive(m)) && Replayed(s, Do(s2, BReceive(m)), o, Validated)
  {
  }

  lemma OldCommitIsTaken(s: System, s3: System, o: Offer, m: Message)
    requires Replayed(s, s3, o, Validated) && m == MCommit(o.ref, s.session) && m in s.net
    ensures Enabled(s3, BReceive(m))
    ensures var s4 := Do(s3, BReceive(m)); s4.a == s.a && s4.b.phase == Active && s4.b.active == o.transport
  {
  }

  /** Recording the offer once more, answering its old challenge and taking its old commit
      would leave B on the transport of that offer, with A settled elsewhere and free to send. */
  ghost predicate RecordingAgainDiverges(s: System, o: Offer, bytes: Challenge) {
    var challenge, commit := MChallenge(o.ref, s.session, bytes), MCommit(o.ref, s.session);
    var s1 := BRecords(s, MOffer(o));
    && MOffer(o) in s.net && Taken(s.b, MOffer(o)) && o.ref in s.recorded
    && Enabled(s1, BAccept(s.session)) &&
    var s2 := Do(s1, BAccept(s.session));
    && Enabled(s2, BReceive(challenge)) &&
    var s3 := Do(s2, BReceive(challenge));
    && Enabled(s3, BReceive(commit)) &&
    var s4 := Do(s3, BReceive(commit));
    && s4.a == s.a && s4.a.phase == Active && s4.b.phase == Active && s4.b.active == o.transport != s4.a.active
  }

  lemma OldOfferDiverges(s: System, o: Offer, bytes: Challenge)
    requires Contacts(s) && Sessions(s) && s.a.phase == Active && s.b.phase == Active && s.session != SESSION_NONE
    requires {MOffer(o), MChallenge(o.ref, s.session, bytes), MCommit(o.ref, s.session)} <= s.net && o.ref in s.recorded
    requires s.a.active == s.b.active != o.transport && WellFormedOffer(o)
    ensures RecordingAgainDiverges(s, o, bytes)
  {
    var challenge, commit := MChallenge(o.ref, s.session, bytes), MCommit(o.ref, s.session);
    assert MOffer(o) in s.net && challenge in s.net && commit in s.net;
    OldOfferIsRecorded(s, o);
    var s1 := BRecords(s, MOffer(o));
    OldOfferIsAccepted(s, s1, o);
    var s2 := Do(s1, BAccept(s.session));
    OldChallengeIsEchoed(s, s2, o, challenge);
    OldCommitIsTaken(s, Do(s2, BReceive(challenge)), o, commit);
  }

  lemma MovedIsRecorded(s: System, t: System, o: Offer, session: u32, bytes: Challenge)
    requires Inv(t) && Moved(s, t, o, session, bytes)
    ensures o.ref in t.recorded
  {
  }

  lemma RecordedStays(s: System, step: Step)
    requires Enabled(s, step)
    ensures s.recorded <= Do(s, step).recorded
  {
  }

  lemma {:induction false} RecordedGrows(s: System, steps: seq<Step>)
    requires Possible(s, steps)
    ensures s.recorded <= After(s, steps).recorded
    decreases |steps|
  {
    if steps != [] {
      RecordedStays(s, steps[0]);
      RecordedGrows(Do(s, steps[0]), steps[1..]);
    }
  }

  /** The contact remembers only its last completed reference, so nothing in it refuses an
      older one, and the rule that B does not record a reference again carries weight: for any
      two migrations in a row there is a run that completes both and in which recording the
      first offer once more would drive the peers apart. */
  lemma RecordingAgainMatters(s: System, first: Offer, second: Offer, session: u32, bytes: Challenge)
    returns (t: System)
    requires Initial(s) && session != SESSION_NONE
    requires WellFormedOffer(first) && WellFormedOffer(second) && first.ref != second.ref
    requires s.origin != first.transport && first.transport != second.transport
    ensures Reaches(s, t) && RecordingAgainDiverges(t, first, bytes)
  {
    InitialInv(s);
    var u := MigrationCanComplete(s, first, session, bytes);
    MovedIsRecorded(s, u, first, session, bytes);
    t := MigrationCanComplete(u, second, session, bytes);
    ReachIsTransitive(s, u, t);
    var steps :| Possible(u, steps) && After(u, steps) == t;
    RecordedGrows(u, steps);
    OldOfferDiverges(t, first, bytes);
  }
}
