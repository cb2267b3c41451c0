/** Two peers either of which may open the next migration. Each offers, accepts, challenges,
    commits and gives up as it likes; offers that cross are resolved as glare. As in
    `Migration`, whatever was sent may arrive at any time, any number of times, or never. */
module Peers {
  import opened Words
  import opened ContactModel
  import opened Messages
  import Migration

  /** One peer: its contact and the migrations it has completed, the offers it made, the offers
      of the other it has taken up and those it has proven reachable, and all it has sent. */
  datatype Peer = Peer(
    c: ContactState,
    done: History,
    own: map<u32, Offer>,
    taken: set<u32>,
    proven: set<u32>,
    sent: set<Message>)

  datatype Action =
    | Propose(offer: Offer)
    | Take(message: Message)
    | Accept(session: u32)
    | Probe(bytes: Challenge)
    | Commit
    | Abandon
    | Close

  /** The transaction outstanding is one this peer offered. */
  predicate Leads(p: Peer) {
    p.c.phase.InProgress() && p.c.pending.ref in p.own
  }

  /** It is one the other offered. */
  predicate Follows(p: Peer) {
    p.c.phase.InProgress() && p.c.pending.ref in p.taken
  }

  /** What `me` may do while the other is `you`. Only the peer that made an offer challenges and
      commits it, a reference names one offer, and neither peer takes up an offer again once it
      has left that transaction. */
  predicate Enabled(me: Peer, you: Peer, x: Action) {
    match x
    case Propose(o) =>
      o.ref !in me.own && o.ref !in you.own && me.c.phase == Active && RecordOffer(me.c, o).0 == Ok
    case Take(m) =>
      && m in you.sent
      && (m.MOffer? ==> m.offer.ref !in me.taken || (me.c.phase.InProgress() && me.c.pending.ref == m.offer.ref))
    case Accept(session) =>
      && Follows(me) && me.c.phase == Offered
      && Agree(me.c, me.c.pending.ref, me.c.pending.transport, me.c.pending.profile, session).0 == Ok
    case Probe(bytes) => Leads(me) && ValidationBegin(me.c, bytes).0 == Ok
    case Commit => Leads(me) && CommitBegin(me.c).0 == Ok
    case Abandon => ContactModel.Abandon(me.c).0 == Ok
    case Close => true
  }

  /** An offer that meets an outstanding offer of one's own is a collision. */
  function TakeOffer(me: Peer, you: Peer, o: Offer): ContactState {
    if Leads(me) && me.c.phase == Offered then ResolveCollision(me.c, you.c.localRef, o).contact
    else RecordOffer(me.c, o).1
  }

  function Receives(me: Peer, you: Peer, m: Message): Peer {
    match m
    case MOffer(o) =>
      var c := TakeOffer(me, you, o);
      me.(c := c, taken := if c.phase.InProgress() && c.pending.ref == o.ref then me.taken + {o.ref} else me.taken)
    case MAccept(_, _, _, _) => me.(c := Messages.Receive(me.c, m))
    case MChallenge(ref, session, bytes) =>
      if Taken(me.c, m) then
        me.(c := Messages.Receive(me.c, m), proven := me.proven + {ref},
            sent := me.sent + {MResponse(ref, session, bytes)})
      else me
    case MResponse(_, _, _) => me.(c := Messages.Receive(me.c, m))
    case MCommit(ref, session) =>
      if Taken(me.c, m) then
        me.(c := Messages.Receive(me.c, m), sent := me.sent + {MConfirm(ref, session)},
            done := if me.c.phase == Validated then Migration.Settled(me.c, me.done) else me.done)
      else me
    case MConfirm(_, _) =>
      me.(c := Messages.Receive(me.c, m),
          done := if me.c.phase == Committing && Taken(me.c, m) then Migration.Settled(me.c, me.done) else me.done)
  }

  /** A step of `me` changes nothing but `me`. */
  function Act(me: Peer, you: Peer, x: Action): Peer
    requires Enabled(me, you, x)
  {
    match x
    case Propose(o) =>
      me.(c := RecordOffer(me.c, o).1, own := me.own[o.ref := o], sent := me.sent + {MOffer(o)})
    case Take(m) => Receives(me, you, m)
    case Accept(session) =>
      var p := me.c.pending;
      me.(c := Agree(me.c, p.ref, p.transport, p.profile, session).1,
          sent := me.sent + {MAccept(p.ref, p.transport, p.profile, session)})
    case Probe(bytes) =>
      me.(c := ValidationBegin(me.c, bytes).1,
          sent := me.sent + {MChallenge(me.c.pending.ref, me.c.sessionRef, bytes)})
    case Commit =>
      me.(c := CommitBegin(me.c).1, sent := me.sent + {MCommit(me.c.pending.ref, me.c.sessionRef)})
    case Abandon => me.(c := ContactModel.Abandon(me.c).1)
    case Close => me.(c := ContactModel.Close(me.c).1)
  }

  // ---- Invariant ------------------------------------------------------------------------

  ghost predicate Contact(me: Peer, origin: u8) {
    && WellFormed(me.c) && me.c.phase != NotBegun && Refines(me.c, origin, me.done)
    && (me.c.phase.InProgress() ==> !Migration.Completes(me.done, me.c.pending.ref))
    && (forall ref :: Migration.Completes(me.done, ref) ==> ref in me.own || ref in me.taken)
  }

  /** Whose transaction is outstanding, and how far it can have come. */
  ghost predicate Roles(me: Peer, you: Peer) {
    && me.own.Keys !! you.own.Keys && me.taken <= you.own.Keys && me.proven <= me.taken
    && (forall ref :: ref in me.own ==> me.own[ref].ref == ref && ref != MIGRATION_NONE)
    && (me.c.phase.InProgress() ==>
          || (Leads(me) && me.own[me.c.pending.ref] == me.c.pending)
          || (Follows(me) && you.own[me.c.pending.ref] == me.c.pending))
    && (Follows(me) ==> me.c.phase != Validating && me.c.phase != Committing)
    && (Follows(me) ==> (me.c.phase == Validated <==> me.c.pending.ref in me.proven))
    && (Leads(me) && (me.c.phase == Validated || me.c.phase == Committing) ==> me.c.pending.ref in you.proven)
  }

  /** What a message of `me` bears witness to. */
  ghost predicate Witness(me: Peer, m: Message) {
    match m
    case MOffer(o) => o.ref in me.own && me.own[o.ref] == o
    case MAccept(ref, _, _, _) => ref in me.taken
    case MChallenge(ref, _, _) => ref in me.own
    case MResponse(ref, _, _) => ref in me.proven
    case MCommit(ref, _) =>
      && ref in me.own
      && (|| (me.c.phase == Committing && me.c.pending.ref == ref)
          || Migration.Completes(me.done, ref)
          || me.c.phase == Closed)
    case MConfirm(ref, _) => ref in me.taken && Migration.Completes(me.done, ref)
  }

  ghost predicate Sent(me: Peer) {
    && (forall m :: m in me.sent ==> Witness(me, m) && (!m.MOffer? ==> m.session != SESSION_NONE))
    && (me.c.phase == Committing ==> MCommit(me.c.pending.ref, me.c.sessionRef) in me.sent)
  }

  ghost predicate Half(me: Peer, you: Peer, origin: u8) {
    Contact(me, origin) && Roles(me, you) && Sent(me)
  }

  /** Each peer holds an offer of its own that the other has proven. */
  predicate BothProven(me: Peer, you: Peer) {
    Leads(me) && Leads(you) && me.c.pending.ref in you.proven && you.c.pending.ref in me.proven
  }

  /** `you` is ahead by exactly the move `me` is committing. */
  predicate Ahead(me: Peer, you: Peer) {
    me.c.phase == Committing && you.done == Migration.Settled(me.c, me.done)
  }

  ghost predicate InStep(me: Peer, you: Peer) {
    me.done == you.done || Ahead(me, you) || Ahead(you, me)
  }

  ghost predicate Pair(me: Peer, you: Peer, origin: u8) {
    && Half(me, you, origin) && Half(you, me, origin)
    && !BothProven(me, you)
    && (me.c.phase != Closed && you.c.phase != Closed ==> InStep(me, you))
  }

  lemma PairIsSymmetric(me: Peer, you: Peer, origin: u8)
    ensures Pair(me, you, origin) <==> Pair(you, me, origin)
  {
  }

  lemma ProposeKeeps(me: Peer, you: Peer, o: Offer, origin: u8)
    requires Pair(me, you, origin) && Enabled(me, you, Propose(o))
    ensures Pair(Act(me, you, Propose(o)), you, origin)
  {
  }

  lemma TakeOfferKeeps(me: Peer, you: Peer, m: Message, origin: u8)
    requires Pair(me, you, origin) && m.MOffer? && Enabled(me, you, Take(m))
    ensures Pair(Act(me, you, Take(m)), you, origin)
  {
    assert Witness(you, m);
  }

  lemma TakeAcceptKeeps(me: Peer, you: Peer, m: Message, origin: u8)
    requires Pair(me, you, origin) && m.MAccept? && Enabled(me, you, Take(m))
    ensures Pair(Act(me, you, Take(m)), you, origin)
  {
    assert Witness(you, m);
  }

  /** A challenge taken names an offer of the other, which is then proven. */
  lemma ChallengeMeans(me: Peer, you: Peer, m: Message, origin: u8)
    requires Pair(me, you, origin) && m.MChallenge? && m in you.sent && Taken(me.c, m)
    ensures Follows(me) && me.c.pending.ref == m.ref && m.session != SESSION_NONE
    ensures Messages.Receive(me.c, m).phase == Validated && Messages.Receive(me.c, m).pending == me.c.pending
  {
    assert Witness(you, m);
  }

  lemma TakeChallengeKeeps(me: Peer, you: Peer, m: Message, origin: u8)
    requires Pair(me, you, origin) && m.MChallenge? && Enabled(me, you, Take(m))
    ensures Pair(Act(me, you, Take(m)), you, origin)
  {
    if Taken(me.c, m) {
      ChallengeMeans(me, you, m, origin);
    }
  }

  lemma TakeResponseKeeps(me: Peer, you: Peer, m: Message, origin: u8)
    requires Pair(me, you, origin) && m.MResponse? && Enabled(me, you, Take(m))
    ensures Pair(Act(me, you, Take(m)), you, origin)
  {
    assert Witness(you, m);
  }

  /** A first COMMIT comes from a peer that is committing exactly this transaction, from the same
      history. */
  lemma FirstCommitMeans(me: Peer, you: Peer, m: Message, origin: u8)
    requires Pair(me, you, origin) && m.MCommit? && m in you.sent && me.c.phase == Validated && Taken(me.c, m)
    ensures Follows(me) && me.c.pending.ref == m.ref
    ensures you.c.phase != Closed ==>
              you.c.phase == Committing && you.c.pending == me.c.pending && me.done == you.done
  {
    assert Witness(you, m);
  }

  lemma TakeFirstCommitKeeps(me: Peer, you: Peer, m: Message, origin: u8)
    requires Pair(me, you, origin) && m.MCommit? && Enabled(me, you, Take(m)) && me.c.phase == Validated
    ensures Pair(Act(me, you, Take(m)), you, origin)
  {
    if Taken(me.c, m) {
      FirstCommitMeans(me, you, m, origin);
      SettleKeepsDigest(me.c, origin, me.done);
      Migration.SettledCompletes(me.c, me.done);
    }
  }

  lemma TakeRepeatedCommitKeeps(me: Peer, you: Peer, m: Message, origin: u8)
    requires Pair(me, you, origin) && m.MCommit? && Enabled(me, you, Take(m)) && me.c.phase != Validated
    ensures Pair(Act(me, you, Take(m)), you, origin)
  {
    assert Witness(you, m);
  }

  /** A CONFIRM taken while committing comes from a peer that is ahead by exactly this move. */
  lemma FirstConfirmMeans(me: Peer, you: Peer, m: Message, origin: u8)
    requires Pair(me, you, origin) && m.MConfirm? && m in you.sent && me.c.phase == Committing && Taken(me.c, m)
    ensures Leads(me) && me.c.pending.ref == m.ref && you.c.phase != Committing
    ensures you.c.phase != Closed ==> Ahead(me, you)
  {
    assert Witness(you, m);
  }

  lemma TakeFirstConfirmKeeps(me: Peer, you: Peer, m: Message, origin: u8)
    requires Pair(me, you, origin) && m.MConfirm? && Enabled(me, you, Take(m)) && me.c.phase == Committing
    ensures Pair(Act(me, you, Take(m)), you, origin)
  {
    if Taken(me.c, m) {
      FirstConfirmMeans(me, you, m, origin);
      SettleKeepsDigest(me.c, origin, me.done);
      Migration.SettledCompletes(me.c, me.done);
    }
  }

  lemma TakeRepeatedConfirmKeeps(me: Peer, you: Peer, m: Message, origin: u8)
    requires Pair(me, you, origin) && m.MConfirm? && Enabled(me, you, Take(m)) && me.c.phase != Committing
    ensures Pair(Act(me, you, Take(m)), you, origin)
  {
  }

  lemma AcceptKeeps(me: Peer, you: Peer, session: u32, origin: u8)
    requires Pair(me, you, origin) && Enabled(me, you, Accept(session))
    ensures Pair(Act(me, you, Accept(session)), you, origin)
  {
  }

  lemma ProbeKeeps(me: Peer, you: Peer, bytes: Challenge, origin: u8)
    requires Pair(me, you, origin) && Enabled(me, you, Probe(bytes))
    ensures Pair(Act(me, you, Probe(bytes)), you, origin)
  {
  }

  lemma CommitKeeps(me: Peer, you: Peer, origin: u8)
    requires Pair(me, you, origin) && Enabled(me, you, Commit)
    ensures Pair(Act(me, you, Commit), you, origin)
  {
  }

  lemma AbandonKeeps(me: Peer, you: Peer, origin: u8)
    requires Pair(me, you, origin) && Enabled(me, you, Abandon)
    ensures Pair(Act(me, you, Abandon), you, origin)
  {
  }

  lemma CloseKeeps(me: Peer, you: Peer, origin: u8)
    requires Pair(me, you, origin) && Enabled(me, you, Close)
    ensures Pair(Act(me, you, Close), you, origin)
  {
  }

  lemma TakeKeeps(me: Peer, you: Peer, m: Message, origin: u8)
    requires Pair(me, you, origin) && Enabled(me, you, Take(m))
    ensures Pair(Act(me, you, Take(m)), you, origin)
  {
    match m
    case MOffer(_) => TakeOfferKeeps(me, you, m, origin);
    case MAccept(_, _, _, _) => TakeAcceptKeeps(me, you, m, origin);
    case MChallenge(_, _, _) => TakeChallengeKeeps(me, you, m, origin);
    case MResponse(_, _, _) => TakeResponseKeeps(me, you, m, origin);
    case MCommit(_, _) =>
      if me.c.phase == Validated {
        TakeFirstCommitKeeps(me, you, m, origin);
      } else {
        TakeRepeatedCommitKeeps(me, you, m, origin);
      }
    case MConfirm(_, _) =>
      if me.c.phase == Committing {
        TakeFirstConfirmKeeps(me, you, m, origin);
      } else {
        TakeRepeatedConfirmKeeps(me, you, m, origin);
      }
  }

  /** Whatever either peer does keeps the invariant of the two. */
  lemma ActKeeps(me: Peer, you: Peer, x: Action, origin: u8)
    requires Pair(me, you, origin) && Enabled(me, you, x)
    ensures Pair(Act(me, you, x), you, origin)
  {
    match x
    case Propose(o) => ProposeKeeps(me, you, o, origin);
    case Take(m) => TakeKeeps(me, you, m, origin);
    case Accept(session) => AcceptKeeps(me, you, session, origin);
    case Probe(bytes) => ProbeKeeps(me, you, bytes, origin);
    case Commit => CommitKeeps(me, you, origin);
    case Abandon => AbandonKeeps(me, you, origin);
    case Close => CloseKeeps(me, you, origin);
  }

  // ---- Sessions ---------------------------------------------------------------------------

  predicate Live(p: Peer) {
    p.c.phase.Live()
  }

  /** Both have bound the same session reference. */
  predicate Shared(me: Peer, you: Peer) {
    me.c.sessionValid && you.c.sessionValid && me.c.sessionRef == you.c.sessionRef
  }

  ghost predicate Spoken(me: Peer) {
    Live(me) ==> forall m :: m in me.sent && !m.MOffer? ==> me.c.sessionValid && m.session == me.c.sessionRef
  }

  /** A peer that leads past agreement shares the session with the other; so do two peers one of
      which has proven a path or completed a migration. */
  ghost predicate Bound(me: Peer, you: Peer) {
    && Spoken(me)
    && (Live(me) && Live(you) ==>
          (Leads(me) && me.c.phase != Offered) || me.proven != {} || me.done != [] ==> Shared(me, you))
  }

  ghost predicate PairBound(me: Peer, you: Peer, origin: u8) {
    Pair(me, you, origin) && Bound(me, you) && Bound(you, me)
  }

  lemma OfferBinds(me: Peer, you: Peer, m: Message, origin: u8)
    requires PairBound(me, you, origin) && Enabled(me, you, Take(m)) && m.MOffer?
    ensures Bound(Act(me, you, Take(m)), you) && Bound(you, Act(me, you, Take(m)))
  {
  }

  lemma AgreementBinds(me: Peer, you: Peer, m: Message, origin: u8)
    requires PairBound(me, you, origin) && Enabled(me, you, Take(m)) && (m.MAccept? || m.MChallenge?)
    ensures Bound(Act(me, you, Take(m)), you) && Bound(you, Act(me, you, Take(m)))
  {
    assert Witness(you, m);
  }

  lemma ResponseBinds(me: Peer, you: Peer, m: Message, origin: u8)
    requires PairBound(me, you, origin) && Enabled(me, you, Take(m)) && m.MResponse?
    ensures Bound(Act(me, you, Take(m)), you) && Bound(you, Act(me, you, Take(m)))
  {
  }

  lemma CommitBinds(me: Peer, you: Peer, m: Message, origin: u8)
    requires PairBound(me, you, origin) && Enabled(me, you, Take(m)) && (m.MCommit? || m.MConfirm?)
    ensures Bound(Act(me, you, Take(m)), you) && Bound(you, Act(me, you, Take(m)))
  {
    assert Witness(you, m);
  }

  lemma ActBinds(me: Peer, you: Peer, x: Action, origin: u8)
    requires PairBound(me, you, origin) && Enabled(me, you, x)
    ensures Bound(Act(me, you, x), you) && Bound(you, Act(me, you, x))
  {
    if x.Take? {
      if x.message.MOffer? {
        OfferBinds(me, you, x.message, origin);
      } else if x.message.MAccept? || x.message.MChallenge? {
        AgreementBinds(me, you, x.message, origin);
      } else if x.message.MResponse? {
        ResponseBinds(me, you, x.message, origin);
      } else {
        CommitBinds(me, you, x.message, origin);
      }
    }
  }

  /** Both live, and each bound to a session reference of its own. */
  predicate Split(me: Peer, you: Peer) {
    Live(me) && Live(you) && me.c.sessionValid && you.c.sessionValid && me.c.sessionRef != you.c.sessionRef
  }

  /** Two peers with different sessions have completed nothing, and stay that way. */
  lemma SplitStays(me: Peer, you: Peer, x: Action, origin: u8)
    requires PairBound(me, you, origin) && Split(me, you) && Enabled(me, you, x)
    ensures me.done == you.done == []
    ensures Live(Act(me, you, x)) ==> Split(Act(me, you, x), you)
  {
  }

  /** A peer that has not bound a session while the other has must have made an offer: the other
      bound it by accepting one. */
  predicate Heard(me: Peer, you: Peer) {
    Live(me) && Live(you) && you.c.sessionValid && !me.c.sessionValid ==> me.own.Keys != {}
  }

  /** How a live peer may come to its session: it keeps the one it has, or it binds its first, by
      accepting or by an acceptance that reached it. */
  predicate BindsFirst(me: Peer, me': Peer, x: Action) {
    && !me.c.sessionValid && me'.c.sessionValid
    && (x == Accept(me'.c.sessionRef) || (x.Take? && x.message.MAccept? && x.message.session == me'.c.sessionRef))
  }

  lemma SessionMoves(me: Peer, you: Peer, x: Action)
    requires Enabled(me, you, x) && WellFormed(me.c) && Live(Act(me, you, x))
    ensures Live(me) && me.own.Keys <= Act(me, you, x).own.Keys
    ensures var c := Act(me, you, x).c;
            || (c.sessionValid == me.c.sessionValid && c.sessionRef == me.c.sessionRef)
            || BindsFirst(me, Act(me, you, x), x)
  {
  }

  lemma AcceptBinds(me: Peer, you: Peer, session: u32)
    requires Enabled(me, you, Accept(session)) && WellFormed(me.c)
    ensures Act(me, you, Accept(session)).c.sessionValid && Act(me, you, Accept(session)).c.sessionRef == session
    ensures Live(Act(me, you, Accept(session))) && me.taken != {}
  {
  }

  lemma AcceptanceIsShared(me: Peer, you: Peer, m: Message)
    requires Spoken(you) && Live(you) && m.MAccept? && m in you.sent
    ensures you.c.sessionValid && m.session == you.c.sessionRef
  {
  }

  lemma HeardFromBoth(me: Peer, you: Peer, me': Peer, x: Action, origin: u8)
    requires PairBound(me, you, origin) && Heard(me, you) && Heard(you, me) && Enabled(me, you, x)
    requires me' == Act(me, you, x) && Live(me') && Live(you)
    ensures Heard(me', you) && Heard(you, me')
  {
    SessionMoves(me, you, x);
    if BindsFirst(me, me', x) {
      if x.Take? {
        AcceptanceIsShared(me, you, x.message);
      } else {
        AcceptBinds(me, you, x.session);
      }
    }
  }

  lemma ActKeepsHeard(me: Peer, you: Peer, x: Action, origin: u8)
    requires PairBound(me, you, origin) && Heard(me, you) && Heard(you, me) && Enabled(me, you, x)
    ensures Heard(Act(me, you, x), you) && Heard(you, Act(me, you, x))
  {
    var me' := Act(me, you, x);
    if Live(me') && Live(you) {
      HeardFromBoth(me, you, me', x, origin);
    }
  }

  /** Sessions part in one way only: a peer that has not bound one, and has made an offer before,
      accepts an offer under another reference than the one its peer has bound. */
  lemma PartingStep(me: Peer, you: Peer, me': Peer, x: Action, origin: u8)
    requires PairBound(me, you, origin) && Heard(me, you) && Enabled(me, you, x) && me' == Act(me, you, x)
    requires !Split(me, you)
    ensures Split(me', you) <==>
            && x.Accept? && Live(you) && !me.c.sessionValid && you.c.sessionValid && x.session != you.c.sessionRef
    ensures Split(me', you) ==> me.own.Keys != {}
  {
    if Live(me') {
      SessionMoves(me, you, x);
      if Live(you) && x.Take? && x.message.MAccept? {
        AcceptanceIsShared(me, you, x.message);
      }
    }
    if x.Accept? {
      AcceptBinds(me, you, x.session);
    }
  }
}
