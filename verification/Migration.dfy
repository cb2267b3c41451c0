/** Two peers migrating one contact over a network that loses, duplicates and reorders.

    A offers and commits, B accepts and confirms. Every message ever sent stays in the
    network, so any of them may be delivered at any time, any number of times, or never.
    The local steps are the operations of the contact, applied as in `Messages`. */
module Migration {
  import opened Words
  import opened ContactModel
  import opened Messages

  /** The two contacts, the migrations each has completed, the messages sent so far, and a
      record of the run: every offer by its reference, the references B has recorded, has
      proven reachable and has given up, and the session reference B has chosen. */
  datatype System = System(
    origin: u8,
    a: ContactState,
    b: ContactState,
    doneA: History,
    doneB: History,
    net: set<Message>,
    offers: map<u32, Offer>,
    recorded: set<u32>,
    proven: set<u32>,
    dropped: set<u32>,
    session: u32)

  datatype Step =
    | AOffer(offer: Offer)
    | AReceive(message: Message)
    | AChallenge(bytes: Challenge)
    | ACommit
    | AAbandon
    | AClose
    | BReceive(message: Message)
    | BAccept(session: u32)
    | BAbandon
    | BClose

  ghost predicate Initial(s: System) {
    && s.origin != TRANSPORT_RESERVED
    && s.a == Begun(ROLE_INITIATOR, s.a.localRef, s.origin)
    && s.b == Begun(ROLE_RESPONDER, s.b.localRef, s.origin)
    && s.doneA == [] && s.doneB == [] && s.net == {} && s.offers == map[]
    && s.recorded == {} && s.proven == {} && s.dropped == {} && s.session == SESSION_NONE
  }

  function Settled(c: ContactState, h: History): History {
    h + [Move(c.pending.ref, c.pending.transport)]
  }

  /** What may happen. Two hypotheses are part of it: a reference names one offer, and B does
      not record a reference again once it has left that transaction. */
  predicate Enabled(s: System, step: Step) {
    match step
    case AOffer(o) => o.ref !in s.offers && s.a.phase == Active && RecordOffer(s.a, o).0 == Ok
    case AReceive(m) => m in s.net && (m.MAccept? || m.MResponse? || m.MConfirm?)
    case AChallenge(bytes) => ValidationBegin(s.a, bytes).0 == Ok
    case ACommit => CommitBegin(s.a).0 == Ok
    case AAbandon => Abandon(s.a).0 == Ok
    case AClose => true
    case BReceive(m) =>
      && m in s.net && (m.MOffer? || m.MChallenge? || m.MCommit?)
      && (m.MOffer? ==> m.offer.ref !in s.recorded || (s.b.phase.InProgress() && s.b.pending.ref == m.offer.ref))
    case BAccept(session) =>
      && s.b.phase == Offered
      && Agree(s.b, s.b.pending.ref, s.b.pending.transport, s.b.pending.profile, session).0 == Ok
    case BAbandon => Abandon(s.b).0 == Ok
    case BClose => true
  }

  function AReceives(s: System, m: Message): System {
    s.(a := Receive(s.a, m),
       doneA := if m.MConfirm? && s.a.phase == Committing && Taken(s.a, m) then Settled(s.a, s.doneA) else s.doneA)
  }

  function BRecords(s: System, m: Message): System
    requires m.MOffer?
  {
    s.(b := Receive(s.b, m),
       recorded := if Taken(s.b, m) then s.recorded + {m.offer.ref} else s.recorded)
  }

  function BEchoes(s: System, m: Message): System
    requires m.MChallenge?
  {
    if Taken(s.b, m) then
      s.(b := Receive(s.b, m),
         net := s.net + {MResponse(m.ref, m.session, m.bytes)},
         proven := s.proven + {m.ref})
    else s
  }

  function BCommits(s: System, m: Message): System
    requires m.MCommit?
  {
    if Taken(s.b, m) then
      s.(b := Receive(s.b, m),
         net := s.net + {MConfirm(m.ref, m.session)},
         doneB := if s.b.phase == Validated then Settled(s.b, s.doneB) else s.doneB)
    else s
  }

  function Do(s: System, step: Step): System
    requires Enabled(s, step)
  {
    match step
    case AOffer(o) =>
      s.(a := RecordOffer(s.a, o).1, net := s.net + {MOffer(o)}, offers := s.offers[o.ref := o])
    case AReceive(m) => AReceives(s, m)
    case AChallenge(bytes) =>
      s.(a := ValidationBegin(s.a, bytes).1,
         net := s.net + {MChallenge(s.a.pending.ref, s.a.sessionRef, bytes)})
    case ACommit =>
      s.(a := CommitBegin(s.a).1, net := s.net + {MCommit(s.a.pending.ref, s.a.sessionRef)})
    case AAbandon => s.(a := Abandon(s.a).1)
    case AClose => s.(a := Close(s.a).1)
    case BReceive(m) =>
      if m.MOffer? then BRecords(s, m) else if m.MChallenge? then BEchoes(s, m) else BCommits(s, m)
    case BAccept(session) =>
      var p := s.b.pending;
      s.(b := Agree(s.b, p.ref, p.transport, p.profile, session).1,
         net := s.net + {MAccept(p.ref, p.transport, p.profile, session)},
         session := session)
    case BAbandon => s.(b := Abandon(s.b).1, dropped := s.dropped + {s.b.pending.ref})
    case BClose => s.(b := Close(s.b).1)
  }

  // ---- Invariant ---------------------------------------------------------

  predicate Completes(h: History, ref: u32) {
    exists i :: 0 <= i < |h| && h[i].ref == ref
  }

  lemma CompletesOneMore(h: History, m: Move, ref: u32)
    ensures Completes(h + [m], ref) <==> Completes(h, ref) || m.ref == ref
  {
    if Completes(h, ref) {
      var i :| 0 <= i < |h| && h[i].ref == ref;
      assert (h + [m])[i].ref == ref;
    }
    if m.ref == ref {
      assert (h + [m])[|h|].ref == ref;
    }
  }

  lemma SettledCompletes(c: ContactState, h: History)
    ensures forall ref :: Completes(Settled(c, h), ref) <==> Completes(h, ref) || c.pending.ref == ref
  {
    forall ref ensures Completes(Settled(c, h), ref) <==> Completes(h, ref) || c.pending.ref == ref {
      CompletesOneMore(h, Move(c.pending.ref, c.pending.transport), ref);
    }
  }

  ghost predicate Contacts(s: System) {
    && WellFormed(s.a) && WellFormed(s.b)
    && Refines(s.a, s.origin, s.doneA) && Refines(s.b, s.origin, s.doneB)
    && s.a.phase != NotBegun
    && s.b.phase != NotBegun && s.b.phase != Validating && s.b.phase != Committing
  }

  /** Outstanding and completed transactions are offers A made, the way A made them. */
  ghost predicate OffersKept(s: System) {
    && (forall ref :: ref in s.offers ==> s.offers[ref].ref == ref && ref != MIGRATION_NONE)
    && (s.a.phase.InProgress() ==> s.a.pending.ref in s.offers && s.offers[s.a.pending.ref] == s.a.pending)
    && (s.b.phase.InProgress() ==> s.b.pending.ref in s.offers && s.offers[s.b.pending.ref] == s.b.pending)
    && (forall ref :: Completes(s.doneA, ref) ==> ref in s.offers)
    && (forall ref :: Completes(s.doneB, ref) ==> ref in s.recorded)
    && (s.a.phase.InProgress() ==> !Completes(s.doneA, s.a.pending.ref))
  }

  /** Where B stands with every reference it has dealt with. */
  ghost predicate Standing(s: System) {
    && s.dropped <= s.recorded
    && s.proven <= s.recorded
    && (s.b.phase.InProgress() ==>
          && s.b.pending.ref in s.recorded
          && !Completes(s.doneB, s.b.pending.ref)
          && s.b.pending.ref !in s.dropped)
    && (s.b.phase == Validated ==> s.b.pending.ref in s.proven)
    && (forall ref :: ref in s.dropped ==> !Completes(s.doneB, ref))
    && (forall ref :: ref in s.proven ==>
          || (s.b.phase == Validated && s.b.pending.ref == ref)
          || Completes(s.doneB, ref)
          || ref in s.dropped
          || s.b.phase == Closed)
  }

  ghost predicate Sessions(s: System) {
    && (s.a.sessionValid ==> s.a.sessionRef == s.session)
    && (s.b.sessionValid ==> s.b.sessionRef == s.session)
    && (s.session != SESSION_NONE ==> s.b.sessionValid || s.b.phase == Closed)
  }

  /** What each message in the network bears witness to. */
  ghost predicate Witness(s: System, m: Message) {
    && RefOf(m) in s.offers
    && (m.MOffer? ==> s.offers[m.offer.ref] == m.offer)
    && (!m.MOffer? ==> m.session == s.session && s.session != SESSION_NONE)
    && (m.MResponse? ==> m.ref in s.proven)
    && (m.MCommit? ==>
          || (s.a.phase == Committing && s.a.pending.ref == m.ref)
          || Completes(s.doneA, m.ref)
          || s.a.phase == Closed)
    && (m.MConfirm? ==> Completes(s.doneB, m.ref))
  }

  ghost predicate Network(s: System) {
    forall m :: m in s.net ==> Witness(s, m)
  }

  /** A is at most one migration behind, and then it is committing exactly that one. */
  ghost predicate InStep(s: System) {
    || s.doneB == s.doneA
    || (s.a.phase == Committing && s.doneB == Settled(s.a, s.doneA))
  }

  ghost predicate Inv(s: System) {
    && Contacts(s) && OffersKept(s) && Standing(s) && Sessions(s) && Network(s)
    && (s.a.phase != Closed ==> InStep(s))
    && (s.a.phase == Validated || s.a.phase == Committing ==> s.a.pending.ref in s.proven)
    && (s.a.phase == Committing ==> MCommit(s.a.pending.ref, s.a.sessionRef) in s.net)
  }

  lemma InitialInv(s: System)
    requires Initial(s)
    ensures Inv(s)
  {
  }

  lemma AOfferKeeps(s: System, o: Offer)
    requires Inv(s) && Enabled(s, AOffer(o))
    ensures Inv(Do(s, AOffer(o)))
  {
    var s' := Do(s, AOffer(o));
    assert Network(s');
  }

  lemma AAcceptanceKeeps(s: System, m: Message)
    requires Inv(s) && m.MAccept? && Enabled(s, AReceive(m))
    ensures Inv(Do(s, AReceive(m)))
  {
  }

  lemma AResponseKeeps(s: System, m: Message)
    requires Inv(s) && m.MResponse? && Enabled(s, AReceive(m))
    ensures Inv(Do(s, AReceive(m)))
  {
  }

  /** The CONFIRM A is waiting for comes from a B that is ahead by exactly this move. */
  lemma FirstConfirmMeans(s: System, m: Message)
    requires Inv(s) && m.MConfirm? && m in s.net && s.a.phase == Committing && Taken(s.a, m)
    ensures s.doneB == Settled(s.a, s.doneA) && m.ref == s.a.pending.ref
  {
    assert Witness(s, m);
  }

  lemma AFirstConfirmKeeps(s: System, m: Message)
    requires Inv(s) && m.MConfirm? && Enabled(s, AReceive(m)) && s.a.phase == Committing
    ensures Inv(Do(s, AReceive(m)))
  {
    if Taken(s.a, m) {
      FirstConfirmMeans(s, m);
      ATakesConfirm(s, m);
    }
  }

  lemma ATakesConfirm(s: System, m: Message)
    requires Inv(s) && m.MConfirm? && Enabled(s, AReceive(m)) && s.a.phase == Committing && Taken(s.a, m)
    requires s.doneB == Settled(s.a, s.doneA)
    ensures Inv(Do(s, AReceive(m)))
  {
    SettleKeepsDigest(s.a, s.origin, s.doneA);
    SettledCompletes(s.a, s.doneA);
    assert Network(Do(s, AReceive(m)));
  }

  lemma ARepeatedConfirmKeeps(s: System, m: Message)
    requires Inv(s) && m.MConfirm? && Enabled(s, AReceive(m)) && s.a.phase != Committing
    ensures Inv(Do(s, AReceive(m)))
  {
    assert Do(s, AReceive(m)) == s;
  }

  lemma AChallengeKeeps(s: System, bytes: Challenge)
    requires Inv(s) && Enabled(s, AChallenge(bytes))
    ensures Inv(Do(s, AChallenge(bytes)))
  {
  }

  lemma ACommitKeeps(s: System)
    requires Inv(s) && Enabled(s, ACommit)
    ensures Inv(Do(s, ACommit))
  {
  }

  lemma AAbandonKeeps(s: System)
    requires Inv(s) && Enabled(s, AAbandon)
    ensures Inv(Do(s, AAbandon))
  {
  }

  lemma ACloseKeeps(s: System)
    requires Inv(s) && Enabled(s, AClose)
    ensures Inv(Do(s, AClose))
  {
  }

  lemma BRecordsKeeps(s: System, m: Message)
    requires Inv(s) && m.MOffer? && Enabled(s, BReceive(m))
    ensures Inv(Do(s, BReceive(m)))
  {
    var s' := Do(s, BReceive(m));
    assert Witness(s, m);
    assert Network(s');
  }

  lemma BEchoesKeeps(s: System, m: Message)
    requires Inv(s) && m.MChallenge? && Enabled(s, BReceive(m))
    ensures Inv(Do(s, BReceive(m)))
  {
    var s' := Do(s, BReceive(m));
    assert Witness(s, m);
    assert Network(s');
  }

  lemma BFirstCommitKeeps(s: System, m: Message)
    requires Inv(s) && m.MCommit? && Enabled(s, BReceive(m)) && s.b.phase == Validated
    ensures Inv(Do(s, BReceive(m)))
  {
    var s' := Do(s, BReceive(m));
    assert Witness(s, m);
    if Taken(s.b, m) {
      SettleKeepsDigest(s.b, s.origin, s.doneB);
      SettledCompletes(s.b, s.doneB);
    }
    assert Network(s');
  }

  lemma BRepeatedCommitKeeps(s: System, m: Message)
    requires Inv(s) && m.MCommit? && Enabled(s, BReceive(m)) && s.b.phase != Validated
    ensures Inv(Do(s, BReceive(m)))
  {
  }

  lemma BAcceptKeeps(s: System, session: u32)
    requires Inv(s) && Enabled(s, BAccept(session))
    ensures Inv(Do(s, BAccept(session)))
  {
  }

  lemma BAbandonKeeps(s: System)
    requires Inv(s) && Enabled(s, BAbandon)
    ensures Inv(Do(s, BAbandon))
  {
    var s' := Do(s, BAbandon);
    assert Network(s');
  }

  lemma BCloseKeeps(s: System)
    requires Inv(s) && Enabled(s, BClose)
    ensures Inv(Do(s, BClose))
  {
  }

  /** Every step keeps the invariant. */
  lemma StepKeeps(s: System, step: Step)
    requires Inv(s) && Enabled(s, step)
    ensures Inv(Do(s, step))
  {
    match step
    case AOffer(o) => AOfferKeeps(s, o);
    case AReceive(m) =>
      if m.MAccept? {
        AAcceptanceKeeps(s, m);
      } else if m.MResponse? {
        AResponseKeeps(s, m);
      } else if s.a.phase == Committing {
        AFirstConfirmKeeps(s, m);
      } else {
        ARepeatedConfirmKeeps(s, m);
      }
    case AChallenge(bytes) => AChallengeKeeps(s, bytes);
    case ACommit => ACommitKeeps(s);
    case AAbandon => AAbandonKeeps(s);
    case AClose => ACloseKeeps(s);
    case BReceive(m) =>
      if m.MOffer? {
        BRecordsKeeps(s, m);
      } else if m.MChallenge? {
        BEchoesKeeps(s, m);
      } else if s.b.phase == Validated {
        BFirstCommitKeeps(s, m);
      } else {
        BRepeatedCommitKeeps(s, m);
      }
    case BAccept(session) => BAcceptKeeps(s, session);
    case BAbandon => BAbandonKeeps(s);
    case BClose => BCloseKeeps(s);
  }
}
