/** What holds in every run of two peers in equal roles. */
module PeerRuns {
  import opened Words
  import opened ContactModel
  import opened Messages
  import opened Peers
  import Glare

  datatype System = System(a: Peer, b: Peer)

  /** A step of the first peer, or of the second. */
  datatype Step = Step(first: bool, action: Action)

  function Me(s: System, first: bool): Peer {
    if first then s.a else s.b
  }

  function You(s: System, first: bool): Peer {
    Me(s, !first)
  }

  ghost predicate Fresh(p: Peer, origin: u8) {
    && BeginAccepts(p.c.role, origin) && p.c == Begun(p.c.role, p.c.localRef, origin)
    && p.done == [] && p.own == map[] && p.taken == {} && p.proven == {} && p.sent == {}
  }

  predicate Possible(s: System, x: Step) {
    Enabled(Me(s, x.first), You(s, x.first), x.action)
  }

  function Do(s: System, x: Step): System
    requires Possible(s, x)
  {
    var me := Act(Me(s, x.first), You(s, x.first), x.action);
    if x.first then s.(a := me) else s.(b := me)
  }

  datatype Run = Run(origin: u8, steps: seq<Step>, states: seq<System>) {
    ghost predicate StepAt(k: nat)
      requires |states| == |steps| + 1 && k < |steps|
    {
      Possible(states[k], steps[k]) && states[k + 1] == Do(states[k], steps[k])
    }

    ghost predicate Valid() {
      && |states| == |steps| + 1
      && Fresh(states[0].a, origin) && Fresh(states[0].b, origin)
      && (forall k :: 0 <= k < |steps| ==> StepAt(k))
    }
  }

  ghost predicate Inv(s: System, origin: u8) {
    PairBound(s.a, s.b, origin) && Heard(s.a, s.b) && Heard(s.b, s.a)
  }

  /** The invariant as either peer sees it. */
  lemma EitherSide(s: System, first: bool, origin: u8)
    requires Inv(s, origin)
    ensures PairBound(Me(s, first), You(s, first), origin)
    ensures Heard(Me(s, first), You(s, first)) && Heard(You(s, first), Me(s, first))
  {
    PairIsSymmetric(s.a, s.b, origin);
  }

  lemma FreshInv(s: System, origin: u8)
    requires Fresh(s.a, origin) && Fresh(s.b, origin)
    ensures Inv(s, origin)
  {
  }

  lemma StepKeeps(s: System, x: Step, origin: u8)
    requires Inv(s, origin) && Possible(s, x)
    ensures Inv(Do(s, x), origin)
  {
    var me, you := Me(s, x.first), You(s, x.first);
    EitherSide(s, x.first, origin);
    ActKeeps(me, you, x.action, origin);
    ActBinds(me, you, x.action, origin);
    ActKeepsHeard(me, you, x.action, origin);
    PairIsSymmetric(Act(me, you, x.action), you, origin);
  }

  lemma {:induction false} RunKeeps(r: Run, k: nat)
    requires r.Valid() && k < |r.states|
    ensures Inv(r.states[k], r.origin)
  {
    if k == 0 {
      FreshInv(r.states[0], r.origin);
    } else {
      RunKeeps(r, k - 1);
      assert r.StepAt(k - 1);
      StepKeeps(r.states[k - 1], r.steps[k - 1], r.origin);
    }
  }

  /** Agreement in equal roles: while both live, the histories are equal, or one peer is committing
      exactly the move by which the other is ahead. */
  lemma Agreement(r: Run, k: nat)
    requires r.Valid() && k < |r.states| && Live(r.states[k].a) && Live(r.states[k].b)
    ensures var (a, b) := (r.states[k].a, r.states[k].b);
            || a.done == b.done
            || (a.c.phase == Committing && b.done == a.done + [Move(a.c.pending.ref, a.c.pending.transport)])
            || (b.c.phase == Committing && a.done == b.done + [Move(b.c.pending.ref, b.c.pending.transport)])
  {
    RunKeeps(r, k);
  }

  /** Data-plane safety in equal roles: the peers are never both quiesced. When neither is, they
      are on one transport; when one is, the other is on its present transport or on the one
      its controls go to. */
  lemma DataPlaneSafety(r: Run, k: nat)
    requires r.Valid() && k < |r.states| && Live(r.states[k].a) && Live(r.states[k].b)
    ensures var (a, b) := (r.states[k].a.c, r.states[k].b.c);
            && !(a.phase == Committing && b.phase == Committing)
            && (a.phase != Committing && b.phase != Committing ==> a.active == b.active)
            && (a.phase == Committing ==> b.active == a.active || b.active == ControlTransport(a))
            && (b.phase == Committing ==> a.active == b.active || a.active == ControlTransport(b))
  {
    RunKeeps(r, k);
  }

  /** Glare as a step of the system: two idle peers whose offers cross and each arrive hold the
      same offer afterwards, all five fields, whichever of the two it is. */
  lemma CrossedOffersMeet(s: System, origin: u8, o: Offer, p: Offer)
    requires Inv(s, origin) && s.a.c.phase == Active && s.b.c.phase == Active && o.ref != p.ref
    requires WellFormedOffer(o) && WellFormedOffer(p)
    requires o.transport != s.a.c.active && p.transport != s.b.c.active
    requires forall ref | ref == o.ref || ref == p.ref :: ref !in s.a.own && ref !in s.b.own
    ensures Possible(s, Step(true, Propose(o))) &&
            var s1 := Do(s, Step(true, Propose(o)));
            Possible(s1, Step(false, Propose(p))) &&
            var s2 := Do(s1, Step(false, Propose(p)));
            Possible(s2, Step(true, Take(MOffer(p)))) &&
            var s3 := Do(s2, Step(true, Take(MOffer(p))));
            Possible(s3, Step(false, Take(MOffer(o)))) &&
            var s4 := Do(s3, Step(false, Take(MOffer(o))));
            s4.a.c.phase == Offered && s4.b.c.phase == Offered && s4.a.c.pending == s4.b.c.pending
  {
    var s1 := Do(s, Step(true, Propose(o)));
    var s2 := Do(s1, Step(false, Propose(p)));
    StepKeeps(s, Step(true, Propose(o)), origin);
    StepKeeps(s1, Step(false, Propose(p)), origin);
    Glare.GlareConverges(s2.a.c, s2.b.c);
  }

  // ---- Sessions that part -------------------------------------------------------------------

  /** Once a migration has completed, or either peer leads one past agreement, the two share one
      session reference. */
  lemma SessionsAreShared(r: Run, k: nat)
    requires r.Valid() && k < |r.states| && Live(r.states[k].a) && Live(r.states[k].b)
    requires var (a, b) := (r.states[k].a, r.states[k].b);
             a.done != [] || b.done != [] || (Leads(a) && a.c.phase != Offered) || (Leads(b) && b.c.phase != Offered)
    ensures Shared(r.states[k].a, r.states[k].b)
  {
    RunKeeps(r, k);
  }

  lemma SplitStep(s: System, x: Step, origin: u8)
    requires Inv(s, origin) && Possible(s, x) && Split(s.a, s.b)
    ensures var t := Do(s, x); Live(t.a) && Live(t.b) ==> Split(t.a, t.b)
  {
    EitherSide(s, x.first, origin);
    SplitStays(Me(s, x.first), You(s, x.first), x.action, origin);
  }

  lemma SplitHasDoneNothing(s: System, origin: u8)
    requires Inv(s, origin) && Split(s.a, s.b)
    ensures s.a.done == [] && s.b.done == []
  {
  }

  predicate BothLive(s: System) {
    Live(s.a) && Live(s.b)
  }

  lemma SplitGoesOn(r: Run, k: nat)
    requires r.Valid() && k < |r.steps| && Split(r.states[k].a, r.states[k].b) && BothLive(r.states[k + 1])
    ensures Split(r.states[k + 1].a, r.states[k + 1].b)
  {
    RunKeeps(r, k);
    assert r.StepAt(k);
    SplitStep(r.states[k], r.steps[k], r.origin);
  }

  lemma {:induction false} SplitLasts(r: Run, i: nat, k: nat)
    requires r.Valid() && i <= k < |r.states| && Split(r.states[i].a, r.states[i].b)
    requires forall j :: i <= j <= k ==> BothLive(r.states[j])
    ensures Split(r.states[k].a, r.states[k].b)
    decreases k - i
  {
    if i < k {
      SplitLasts(r, i, k - 1);
      SplitGoesOn(r, k - 1);
    }
  }

  /** Until then they may come to hold two. From that moment on no migration completes on either
      side for as long as both live: the one value that must outlive every migration then
      prevents every migration. */
  lemma SplitSessionsNeverMove(r: Run, i: nat, k: nat)
    requires r.Valid() && i <= k < |r.states| && Split(r.states[i].a, r.states[i].b)
    requires forall j :: i <= j <= k ==> BothLive(r.states[j])
    ensures Split(r.states[k].a, r.states[k].b) && r.states[k].a.done == [] && r.states[k].b.done == []
  {
    SplitLasts(r, i, k);
    RunKeeps(r, k);
    SplitHasDoneNothing(r.states[k], r.origin);
  }

  lemma Extend(r: Run, x: Step) returns (r': Run)
    requires r.Valid() && Possible(r.states[|r.steps|], x)
    ensures r'.Valid() && r'.origin == r.origin && r'.steps == r.steps + [x]
    ensures r'.states == r.states + [Do(r.states[|r.steps|], x)]
  {
    r' := Run(r.origin, r.steps + [x], r.states + [Do(r.states[|r.steps|], x)]);
    forall k | 0 <= k < |r'.steps| ensures r'.StepAt(k) {
      assert k < |r.steps| ==> r.StepAt(k);
    }
  }

  /** Where one peer has accepted, its acceptance is lost, and both give up. */
  predicate OneBound(s: System, origin: u8, o: Offer, session: u32) {
    && s.a.c.phase == Active && s.b.c.phase == Active && s.a.c.active == s.b.c.active == origin
    && s.a.own.Keys == {o.ref} && s.b.own.Keys == {} && s.a.taken == {}
    && !s.a.c.sessionValid && s.b.c.sessionValid && s.b.c.sessionRef == session
  }

  lemma Accepted(s: System, origin: u8, o: Offer, session: u32) returns (r: Run)
    requires Fresh(s.a, origin) && Fresh(s.b, origin) && WellFormedOffer(o) && o.transport != origin
    requires session != SESSION_NONE
    ensures r.Valid() && r.origin == origin
    ensures var t := r.states[|r.steps|];
            && t.a.c.phase == Offered && t.b.c.phase == Agreed && t.a.c.active == t.b.c.active == origin
            && t.a.own.Keys == {o.ref} && t.b.own.Keys == {} && t.a.taken == {}
            && !t.a.c.sessionValid && t.b.c.sessionValid && t.b.c.sessionRef == session
  {
    r := Extend(Run(origin, [], [s]), Step(true, Propose(o)));
    r := Extend(r, Step(false, Take(MOffer(o))));
    r := Extend(r, Step(false, Accept(session)));
  }

  lemma LostAcceptance(s: System, origin: u8, o: Offer, session: u32) returns (r: Run)
    requires Fresh(s.a, origin) && Fresh(s.b, origin) && WellFormedOffer(o) && o.transport != origin
    requires session != SESSION_NONE
    ensures r.Valid() && r.origin == origin && OneBound(r.states[|r.steps|], origin, o, session)
  {
    r := Accepted(s, origin, o, session);
    r := Extend(r, Step(true, Abandon));
    r := Extend(r, Step(false, Abandon));
  }

  /** They can part: A's first offer is accepted, the acceptance is lost and both give up; then the
      other peer offers, and A accepts under a session reference of its own. Every call
      succeeds, and no later call can mend it. */
  lemma SessionsCanPart(s: System, origin: u8, o: Offer, p: Offer, session: u32, other: u32) returns (r: Run)
    requires Fresh(s.a, origin) && Fresh(s.b, origin) && o.ref != p.ref
    requires WellFormedOffer(o) && WellFormedOffer(p) && o.transport != origin && p.transport != origin
    requires session != SESSION_NONE && other != SESSION_NONE && session != other
    ensures |r.steps| > 0 && Parts(r, |r.steps| - 1, true)
  {
    r := LostAcceptance(s, origin, o, session);
    r := Extend(r, Step(false, Propose(p)));
    r := Extend(r, Step(true, Take(MOffer(p))));
    r := Extend(r, Step(true, Accept(other)));
  }

  /** Step k is an acceptance by a peer that has not bound a session, after which the two hold
      different ones; `proposed` says whether that peer has made an offer of its own before. */
  ghost predicate Parts(r: Run, k: nat, proposed: bool) {
    && r.Valid() && k < |r.steps| && r.steps[k].action.Accept?
    && !Me(r.states[k], r.steps[k].first).c.sessionValid
    && (Me(r.states[k], r.steps[k].first).own.Keys != {}) == proposed
    && !Split(r.states[k].a, r.states[k].b) && Split(r.states[k + 1].a, r.states[k + 1].b)
  }

  /** In every run, whatever step parts the sessions is such an acceptance, under another reference
      than the one the other peer has bound; and every such acceptance parts them. */
  lemma PartingExactly(r: Run, k: nat)
    requires r.Valid() && k < |r.steps| && !Split(r.states[k].a, r.states[k].b)
    ensures var (s, t, x) := (r.states[k], r.states[k + 1], r.steps[k].action);
            var (me, you) := (Me(s, r.steps[k].first), You(s, r.steps[k].first));
            && (Split(t.a, t.b) <==>
                  && x.Accept? && !me.c.sessionValid
                  && Live(you) && you.c.sessionValid && x.session != you.c.sessionRef)
            && (Split(t.a, t.b) ==> me.own.Keys != {})
  {
    RunKeeps(r, k);
    assert r.StepAt(k);
    var s, x := r.states[k], r.steps[k];
    EitherSide(s, x.first, r.origin);
    PartingStep(Me(s, x.first), You(s, x.first), Me(r.states[k + 1], x.first), x.action, r.origin);
  }

  /** The guard an accepting peer can check. Accepting while it has not bound a session can part the
      sessions if and only if it has made an offer of its own before. */
  lemma PartingGuard(proposed: bool)
    ensures (exists r: Run, k: nat :: Parts(r, k, proposed)) <==> proposed
  {
    if proposed {
      var p := Peer(Begun(ROLE_INITIATOR, 0, 1), [], map[], {}, {}, {});
      var r := SessionsCanPart(System(p, p), 1, Offer(1, 2, 1, 0, 0), Offer(2, 2, 1, 0, 0), 1, 2);
      assert Parts(r, |r.steps| - 1, true);
    } else if r: Run, k: nat :| Parts(r, k, proposed) {
      PartingExactly(r, k);
    }
  }
}
