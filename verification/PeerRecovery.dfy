/** Commits in equal roles: how a lost CONFIRM is made good, when a commit can still be completed,
    and which abandonment is harmless. */
module PeerRecovery {
  import opened Words
  import opened ContactModel
  import opened Messages
  import opened Peers
  import opened PeerRuns
  import Migration
  import MigrationReach

  // ---- Schedules --------------------------------------------------------------------------

  predicate Feasible(s: System, steps: seq<Step>)
    decreases |steps|
  {
    steps == [] || (Possible(s, steps[0]) && Feasible(Do(s, steps[0]), steps[1..]))
  }

  function After(s: System, steps: seq<Step>): System
    requires Feasible(s, steps)
    decreases |steps|
  {
    if steps == [] then s else After(Do(s, steps[0]), steps[1..])
  }

  lemma Prepend(s: System, x: Step, rest: seq<Step>)
    requires Possible(s, x) && Feasible(Do(s, x), rest)
    ensures Feasible(s, [x] + rest) && After(s, [x] + rest) == After(Do(s, x), rest)
  {
    assert ([x] + rest)[1..] == rest;
  }

  lemma TwoSteps(s: System, x: Step, y: Step)
    requires Possible(s, x) && Possible(Do(s, x), y)
    ensures Feasible(s, [x, y]) && After(s, [x, y]) == Do(Do(s, x), y)
  {
    Prepend(Do(s, x), y, []);
    assert [y] + [] == [y] && [x] + [y] == [x, y];
    Prepend(s, x, [y]);
  }

  // ---- One committing peer and the other ----------------------------------------------------

  /** The other still holds the path it proved, or has completed the migration. */
  predicate Held(you: Peer, ref: u32) {
    (you.c.phase == Validated && you.c.pending.ref == ref) || Migration.Completes(you.done, ref)
  }

  /** It took the offer up and has left it, without completing it. */
  predicate Gone(you: Peer, ref: u32) {
    && ref in you.taken && !Migration.Completes(you.done, ref)
    && !(you.c.phase.InProgress() && you.c.pending.ref == ref)
  }

  lemma HeldOrGone(me: Peer, you: Peer, origin: u8)
    requires Pair(me, you, origin) && me.c.phase == Committing
    ensures Held(you, me.c.pending.ref) <==> !Gone(you, me.c.pending.ref)
  {
  }

  function CommitOf(me: Peer): Message {
    MCommit(me.c.pending.ref, me.c.sessionRef)
  }

  function ConfirmOf(me: Peer): Message {
    MConfirm(me.c.pending.ref, me.c.sessionRef)
  }

  /** While one peer commits, whatever else the other has outstanding can be given up. */
  lemma OtherMayAbandon(me: Peer, you: Peer, origin: u8)
    requires PairBound(me, you, origin) && Live(you) && me.c.phase == Committing
    requires Held(you, me.c.pending.ref) && you.c.phase.InProgress() && you.c.pending.ref != me.c.pending.ref
    ensures Enabled(you, me, Abandon)
    ensures var you' := Act(you, me, Abandon);
            you'.c.phase == Active && you'.done == you.done && Migration.Completes(you'.done, me.c.pending.ref)
  {
  }

  predicate AtRest(you: Peer, ref: u32) {
    || (you.c.phase == Validated && you.c.pending.ref == ref)
    || (you.c.phase == Active && Migration.Completes(you.done, ref))
  }

  /** A COMMIT, first or repeated, is answered on the control transport it comes by. */
  lemma CommitIsAnswered(me: Peer, you: Peer, origin: u8)
    requires PairBound(me, you, origin) && Live(you) && me.c.phase == Committing && AtRest(you, me.c.pending.ref)
    ensures ControlTransport(me.c) == ControlTransport(you.c)
    ensures Enabled(you, me, Take(CommitOf(me)))
    ensures var you' := Act(you, me, Take(CommitOf(me)));
            you'.c.phase == Active && you'.done == Migration.Settled(me.c, me.done) && ConfirmOf(me) in you'.sent
  {
    assert Witness(me, CommitOf(me));
    assert Shared(me, you);
    assert Taken(you.c, CommitOf(me));
  }

  lemma ConfirmIsTaken(me: Peer, you: Peer, origin: u8)
    requires PairBound(me, you, origin) && Live(you) && me.c.phase == Committing && ConfirmOf(me) in you.sent
    requires you.c.phase == Active
    ensures Enabled(me, you, Take(ConfirmOf(me)))
    ensures var me' := Act(me, you, Take(ConfirmOf(me)));
            me'.c.phase == Active && me'.done == you.done && me'.c.active == me.c.pending.transport == you.c.active
  {
    assert Witness(you, ConfirmOf(me));
  }

  // ---- Recovery -----------------------------------------------------------------------------

  /** The other gives up whatever else it has outstanding, an offer of its own included; the COMMIT
      is delivered again, and the CONFIRM that answers it. */
  function Repair(s: System, first: bool): seq<Step> {
    var me, you := Me(s, first), You(s, first);
    (if you.c.phase.InProgress() && you.c.pending.ref != me.c.pending.ref then [Step(!first, Abandon)] else [])
    + [Step(!first, Take(CommitOf(me))), Step(first, Take(ConfirmOf(me)))]
  }

  /** Both settled on the transport the committing peer was moving to, with equal histories. */
  predicate Repaired(s: System, t: System, first: bool) {
    var me := Me(s, first);
    && t.a.c.phase == Active && t.b.c.phase == Active
    && t.a.c.active == t.b.c.active == me.c.pending.transport
    && t.a.done == t.b.done == Migration.Settled(me.c, me.done)
  }

  lemma CommitThenConfirm(s: System, first: bool, origin: u8)
    requires Inv(s, origin) && Live(You(s, first)) && Me(s, first).c.phase == Committing
    requires AtRest(You(s, first), Me(s, first).c.pending.ref)
    ensures var steps := [Step(!first, Take(CommitOf(Me(s, first)))), Step(first, Take(ConfirmOf(Me(s, first))))];
            Feasible(s, steps) && Repaired(s, After(s, steps), first)
  {
    var me, you := Me(s, first), You(s, first);
    var x, y := Step(!first, Take(CommitOf(me))), Step(first, Take(ConfirmOf(me)));
    EitherSide(s, first, origin);
    CommitIsAnswered(me, you, origin);
    StepKeeps(s, x, origin);
    var t := Do(s, x);
    EitherSide(t, first, origin);
    ConfirmIsTaken(Me(t, first), You(t, first), origin);
    TwoSteps(s, x, y);
  }

  lemma RepairWorks(s: System, first: bool, origin: u8)
    requires Inv(s, origin) && Live(You(s, first)) && Me(s, first).c.phase == Committing
    requires Held(You(s, first), Me(s, first).c.pending.ref)
    ensures Feasible(s, Repair(s, first)) && Repaired(s, After(s, Repair(s, first)), first)
  {
    var me, you := Me(s, first), You(s, first);
    EitherSide(s, first, origin);
    if you.c.phase.InProgress() && you.c.pending.ref != me.c.pending.ref {
      var x := Step(!first, Abandon);
      OtherMayAbandon(me, you, origin);
      StepKeeps(s, x, origin);
      CommitThenConfirm(Do(s, x), first, origin);
      Prepend(s, x, [Step(!first, Take(CommitOf(me))), Step(first, Take(ConfirmOf(me)))]);
    } else {
      CommitThenConfirm(s, first, origin);
      assert Repair(s, first) == [Step(!first, Take(CommitOf(me))), Step(first, Take(ConfirmOf(me)))];
    }
  }

  /** Recovery from a lost CONFIRM in equal roles: from every reachable state in which one peer is
      committing what the other has completed, the repair works, whatever the other has begun
      since, and it leaves the history of the other alone. */
  lemma LostConfirmRecovery(r: Run, k: nat, first: bool)
    requires r.Valid() && k < |r.states| && Live(You(r.states[k], first))
    requires Me(r.states[k], first).c.phase == Committing
    requires Migration.Completes(You(r.states[k], first).done, Me(r.states[k], first).c.pending.ref)
    ensures var s := r.states[k];
            && Feasible(s, Repair(s, first))
            && var t := After(s, Repair(s, first));
               && Repaired(s, t, first) && t.a.done == You(s, first).done && t.a.c.active == You(s, first).c.active
  {
    RunKeeps(r, k);
    RepairWorks(r.states[k], first, r.origin);
    EitherSide(r.states[k], first, r.origin);
  }

  // ---- When a commit can still be completed -------------------------------------------------

  ghost predicate CanSettle(s: System, first: bool) {
    exists steps :: Feasible(s, steps) && Me(After(s, steps), first).c.phase == Active
  }

  /** A message for another transaction completes that one, if any. */
  lemma TakeCompletesPending(you: Peer, me: Peer, m: Message, ref: u32, origin: u8)
    requires Pair(you, me, origin) && Enabled(you, me, Take(m))
    ensures Migration.Completes(Act(you, me, Take(m)).done, ref) ==>
              Migration.Completes(you.done, ref) || (you.c.phase.InProgress() && you.c.pending.ref == ref)
  {
    if you.c.phase.InProgress() {
      Migration.SettledCompletes(you.c, you.done);
    }
  }

  lemma GoneStaysOnTake(you: Peer, me: Peer, m: Message, ref: u32, origin: u8)
    requires Pair(you, me, origin) && Enabled(you, me, Take(m)) && Gone(you, ref)
    ensures Gone(Act(you, me, Take(m)), ref)
  {
    TakeCompletesPending(you, me, m, ref, origin);
  }

  lemma GoneStays(you: Peer, me: Peer, x: Action, ref: u32, origin: u8)
    requires Pair(you, me, origin) && Enabled(you, me, x) && Gone(you, ref)
    ensures Gone(Act(you, me, x), ref)
  {
    if x.Take? {
      GoneStaysOnTake(you, me, x.message, ref, origin);
    }
  }

  lemma StuckActs(me: Peer, you: Peer, x: Action, origin: u8)
    requires Pair(me, you, origin) && Enabled(me, you, x)
    requires me.c.phase == Closed || (me.c.phase == Committing && Gone(you, me.c.pending.ref))
    ensures Act(me, you, x).c == me.c || Act(me, you, x).c.phase == Closed
  {
    if x.Take? {
      assert Witness(you, x.message);
    }
  }

  /** Closed, or committing what the other has given up. */
  predicate Stuck(s: System, first: bool) {
    var me := Me(s, first);
    me.c.phase == Closed || (me.c.phase == Committing && Gone(You(s, first), me.c.pending.ref))
  }

  lemma StuckStays(s: System, x: Step, first: bool, origin: u8)
    requires Inv(s, origin) && Possible(s, x) && Stuck(s, first)
    ensures Stuck(Do(s, x), first)
    ensures Me(Do(s, x), first).c == Me(s, first).c || Me(Do(s, x), first).c.phase == Closed
  {
    var me, you := Me(s, first), You(s, first);
    EitherSide(s, first, origin);
    if x.first == first {
      StuckActs(me, you, x.action, origin);
    } else if me.c.phase != Closed {
      PairIsSymmetric(me, you, origin);
      GoneStays(you, me, x.action, me.c.pending.ref, origin);
    }
  }

  lemma {:induction false} Stranded(s: System, steps: seq<Step>, first: bool, origin: u8)
    requires Inv(s, origin) && Feasible(s, steps) && Stuck(s, first)
    ensures Me(After(s, steps), first).c == Me(s, first).c || Me(After(s, steps), first).c.phase == Closed
    decreases |steps|
  {
    if steps != [] {
      StuckStays(s, steps[0], first, origin);
      StepKeeps(s, steps[0], origin);
      Stranded(Do(s, steps[0]), steps[1..], first, origin);
    }
  }

  /** A commit can be brought to its end exactly as long as the other peer holds the path it proved
      or has completed the migration. */
  lemma SettlesWhileHeld(s: System, first: bool, origin: u8)
    requires Inv(s, origin) && Live(You(s, first)) && Me(s, first).c.phase == Committing
    ensures CanSettle(s, first) <==> Held(You(s, first), Me(s, first).c.pending.ref)
  {
    EitherSide(s, first, origin);
    HeldOrGone(Me(s, first), You(s, first), origin);
    if Held(You(s, first), Me(s, first).c.pending.ref) {
      RepairWorks(s, first, origin);
    } else if CanSettle(s, first) {
      var steps :| Feasible(s, steps) && Me(After(s, steps), first).c.phase == Active;
      Stranded(s, steps, first, origin);
    }
  }

  // ---- On every run -------------------------------------------------------------------------

  predicate GivesUp(s: System, x: Step, first: bool, ref: u32) {
    x == Step(first, Abandon) && Me(s, first).c.phase.InProgress() && Me(s, first).c.pending.ref == ref
  }

  /** The peer abandons this transaction at step j. */
  ghost predicate Abandons(r: Run, j: nat, first: bool, ref: u32)
    requires |r.states| == |r.steps| + 1 && j < |r.steps|
  {
    GivesUp(r.states[j], r.steps[j], first, ref)
  }

  ghost predicate AbandonedBefore(r: Run, k: nat, first: bool, ref: u32)
    requires |r.states| == |r.steps| + 1 && k < |r.states|
  {
    exists j :: 0 <= j < k && Abandons(r, j, first, ref)
  }

  lemma AbandonedIsGone(you: Peer, me: Peer, origin: u8)
    requires Pair(you, me, origin) && Enabled(you, me, Abandon) && Follows(you)
    ensures Gone(Act(you, me, Abandon), you.c.pending.ref)
  {
  }

  /** What one step does to a path a live peer has proven. */
  lemma ProvenStep(you: Peer, me: Peer, x: Action, ref: u32, origin: u8)
    requires Pair(you, me, origin) && Enabled(you, me, x) && ref in Act(you, me, x).proven && Live(Act(you, me, x))
    requires Gone(Act(you, me, x), ref)
    ensures ref in you.proven && Live(you)
    ensures Gone(you, ref) || (x == Abandon && you.c.phase.InProgress() && you.c.pending.ref == ref)
  {
    if x.Take? {
      ProvenTake(you, me, x.message, ref, origin);
    }
  }

  lemma ProvenTake(you: Peer, me: Peer, m: Message, ref: u32, origin: u8)
    requires Pair(you, me, origin) && Enabled(you, me, Take(m)) && ref in Act(you, me, Take(m)).proven
    requires Gone(Act(you, me, Take(m)), ref)
    ensures Gone(you, ref) && ref in you.proven
  {
    assert Witness(me, m);
    if you.c.phase.InProgress() {
      Migration.SettledCompletes(you.c, you.done);
    }
  }

  lemma GoneBeforeAStep(s: System, x: Step, first: bool, ref: u32, origin: u8)
    requires Inv(s, origin) && Possible(s, x) && Live(Me(Do(s, x), first))
    requires ref in Me(Do(s, x), first).proven && Gone(Me(Do(s, x), first), ref)
    ensures Live(Me(s, first)) && ref in Me(s, first).proven
    ensures Gone(Me(s, first), ref) || GivesUp(s, x, first, ref)
  {
    EitherSide(s, first, origin);
    if x.first == first {
      ProvenStep(Me(s, first), You(s, first), x.action, ref, origin);
    }
  }

  lemma GoneBefore(r: Run, k: nat, first: bool, ref: u32)
    requires r.Valid() && k < |r.steps| && Live(Me(r.states[k + 1], first))
    requires ref in Me(r.states[k + 1], first).proven && Gone(Me(r.states[k + 1], first), ref)
    ensures Live(Me(r.states[k], first)) && ref in Me(r.states[k], first).proven
    ensures Gone(Me(r.states[k], first), ref) || Abandons(r, k, first, ref)
  {
    RunKeeps(r, k);
    assert r.StepAt(k);
    GoneBeforeAStep(r.states[k], r.steps[k], first, ref, r.origin);
  }

  lemma {:induction false} GoneWasAbandoned(r: Run, k: nat, first: bool, ref: u32) returns (j: nat)
    requires r.Valid() && k < |r.states| && Live(Me(r.states[k], first))
    requires ref in Me(r.states[k], first).proven && Gone(Me(r.states[k], first), ref)
    ensures j < k && Abandons(r, j, first, ref)
  {
    assert k > 0;
    GoneBefore(r, k - 1, first, ref);
    if Abandons(r, k - 1, first, ref) {
      j := k - 1;
    } else {
      j := GoneWasAbandoned(r, k - 1, first, ref);
    }
  }

  lemma GoneForAStep(s: System, x: Step, first: bool, ref: u32, origin: u8)
    requires Inv(s, origin) && Possible(s, x) && Gone(Me(s, first), ref)
    ensures Gone(Me(Do(s, x), first), ref)
  {
    EitherSide(s, first, origin);
    if x.first == first {
      GoneStays(Me(s, first), You(s, first), x.action, ref, origin);
    }
  }

  /** The peer gives up an offer of the other at step j. */
  ghost predicate Declines(r: Run, j: nat, first: bool, ref: u32)
    requires |r.states| == |r.steps| + 1 && j < |r.steps|
  {
    Abandons(r, j, first, ref) && Follows(Me(r.states[j], first))
  }

  lemma GoneAfter(r: Run, k: nat, first: bool, ref: u32)
    requires r.Valid() && k < |r.steps| && (Gone(Me(r.states[k], first), ref) || Declines(r, k, first, ref))
    ensures Gone(Me(r.states[k + 1], first), ref)
  {
    RunKeeps(r, k);
    assert r.StepAt(k);
    if Gone(Me(r.states[k], first), ref) {
      GoneForAStep(r.states[k], r.steps[k], first, ref, r.origin);
    } else {
      EitherSide(r.states[k], first, r.origin);
      AbandonedIsGone(Me(r.states[k], first), You(r.states[k], first), r.origin);
    }
  }

  lemma {:induction false} AbandonedStaysGone(r: Run, j: nat, k: nat, first: bool, ref: u32)
    requires r.Valid() && j < k < |r.states| && Declines(r, j, first, ref)
    ensures Gone(Me(r.states[k], first), ref)
  {
    if j < k - 1 {
      AbandonedStaysGone(r, j, k - 1, first, ref);
    }
    GoneAfter(r, k - 1, first, ref);
  }

  lemma OwnStays(s: System, x: Step, first: bool, ref: u32)
    requires Possible(s, x) && ref in Me(s, first).own
    ensures ref in Me(Do(s, x), first).own
  {
  }

  lemma {:induction false} OwnLasts(r: Run, j: nat, k: nat, first: bool, ref: u32)
    requires r.Valid() && j <= k < |r.states| && ref in Me(r.states[j], first).own
    ensures ref in Me(r.states[k], first).own
    decreases k - j
  {
    if j < k {
      OwnLasts(r, j, k - 1, first, ref);
      assert r.StepAt(k - 1);
      OwnStays(r.states[k - 1], r.steps[k - 1], first, ref);
    }
  }

  /** What a peer abandons while the other comes to commit it, it had taken up from the other. */
  lemma AbandonerFollows(r: Run, j: nat, k: nat, first: bool, ref: u32)
    requires r.Valid() && j < k < |r.states| && Abandons(r, j, !first, ref)
    requires Me(r.states[k], first).c.phase == Committing && Me(r.states[k], first).c.pending.ref == ref
    ensures Follows(You(r.states[j], first))
  {
    RunKeeps(r, j);
    EitherSide(r.states[j], !first, r.origin);
    RunKeeps(r, k);
    EitherSide(r.states[k], first, r.origin);
    if Leads(You(r.states[j], first)) {
      OwnLasts(r, j, k, !first, ref);
    }
  }

  /** In equal roles too: a commit can be completed exactly when the other peer has not abandoned
      that transaction. */
  lemma RecoverableExactly(r: Run, k: nat, first: bool)
    requires r.Valid() && k < |r.states|
    requires Me(r.states[k], first).c.phase == Committing && Live(You(r.states[k], first))
    ensures CanSettle(r.states[k], first) <==> !AbandonedBefore(r, k, !first, Me(r.states[k], first).c.pending.ref)
  {
    var s, other := r.states[k], !first;
    var ref := Me(s, first).c.pending.ref;
    RunKeeps(r, k);
    EitherSide(s, first, r.origin);
    SettlesWhileHeld(s, first, r.origin);
    HeldOrGone(Me(s, first), You(s, first), r.origin);
    if Gone(You(s, first), ref) {
      var j := GoneWasAbandoned(r, k, other, ref);
      assert Abandons(r, j, other, ref);
    } else if j :| 0 <= j < k && Abandons(r, j, other, ref) {
      AbandonerFollows(r, j, k, first, ref);
      AbandonedStaysGone(r, j, k, other, ref);
    }
  }

  // ---- When abandoning is harmless ------------------------------------------------------------

  lemma UnprovenStep(you: Peer, me: Peer, x: Action, ref: u32, origin: u8)
    requires Pair(you, me, origin) && Enabled(you, me, x) && Gone(you, ref) && ref !in you.proven
    ensures ref !in Act(you, me, x).proven
  {
    if x.Take? {
      assert Witness(me, x.message);
    }
  }

  lemma UnprovenForAStep(s: System, x: Step, first: bool, ref: u32, origin: u8)
    requires Inv(s, origin) && Possible(s, x) && Gone(Me(s, first), ref) && ref !in Me(s, first).proven
    ensures ref !in Me(Do(s, x), first).proven
  {
    EitherSide(s, first, origin);
    if x.first == first {
      UnprovenStep(Me(s, first), You(s, first), x.action, ref, origin);
    }
  }

  lemma UnprovenWhenAbandoned(s: System, first: bool, origin: u8)
    requires Inv(s, origin) && Possible(s, Step(first, Abandon))
    requires Follows(Me(s, first)) && Me(s, first).c.phase != Validated
    ensures Me(s, first).c.pending.ref !in Me(Do(s, Step(first, Abandon)), first).proven
  {
    EitherSide(s, first, origin);
  }

  lemma UnprovenAfter(r: Run, k: nat, first: bool, ref: u32)
    requires r.Valid() && k < |r.steps|
    requires || (Gone(Me(r.states[k], first), ref) && ref !in Me(r.states[k], first).proven)
             || (Declines(r, k, first, ref) && Me(r.states[k], first).c.phase != Validated)
    ensures ref !in Me(r.states[k + 1], first).proven
  {
    RunKeeps(r, k);
    assert r.StepAt(k);
    if Gone(Me(r.states[k], first), ref) && ref !in Me(r.states[k], first).proven {
      UnprovenForAStep(r.states[k], r.steps[k], first, ref, r.origin);
    } else {
      UnprovenWhenAbandoned(r.states[k], first, r.origin);
    }
  }

  lemma {:induction false} StaysUnproven(r: Run, j: nat, k: nat, first: bool, ref: u32)
    requires r.Valid() && j < k < |r.states|
    requires Declines(r, j, first, ref) && Me(r.states[j], first).c.phase != Validated
    ensures ref !in Me(r.states[k], first).proven
  {
    if j < k - 1 {
      StaysUnproven(r, j, k - 1, first, ref);
      AbandonedStaysGone(r, j, k - 1, first, ref);
    }
    UnprovenAfter(r, k - 1, first, ref);
  }

  /** In this run a peer abandons a transaction from phase p, leading it or not, and the other is
      committing it afterwards with no way to complete it. */
  ghost predicate Strands(r: Run, j: nat, k: nat, first: bool, leads: bool, p: Phase) {
    && r.Valid() && j < k < |r.states|
    && Me(r.states[j], first).c.phase == p && Leads(Me(r.states[j], first)) == leads
    && Abandons(r, j, first, Me(r.states[j], first).c.pending.ref)
    && You(r.states[k], first).c.phase == Committing
    && You(r.states[k], first).c.pending.ref == Me(r.states[j], first).c.pending.ref
    && !CanSettle(r.states[k], !first)
  }

  lemma StrandingNeedsProof(r: Run, j: nat, k: nat, first: bool, leads: bool, p: Phase)
    requires Strands(r, j, k, first, leads, p)
    ensures p == Validated && !leads
  {
    var ref := Me(r.states[j], first).c.pending.ref;
    AbandonerFollows(r, j, k, !first, ref);
    RunKeeps(r, j);
    EitherSide(r.states[j], first, r.origin);
    RunKeeps(r, k);
    EitherSide(r.states[k], !first, r.origin);
    if p != Validated {
      StaysUnproven(r, j, k, first, ref);
    }
  }

  // ---- One migration, start to end --------------------------------------------------------------

  /** The leader and the follower of o, between their first step and the commit. */
  predicate Midway(s: System, first: bool, from: u8, o: Offer, session: u32, bytes: Challenge, me: Phase, you: Phase) {
    && MigrationReach.Side(Me(s, first).c, me, from, o, session, bytes)
    && MigrationReach.Side(You(s, first).c, you, from, o, session, bytes)
    && o.ref in Me(s, first).own && (you.InProgress() ==> o.ref in You(s, first).taken)
  }

  predicate Sees(s: System, first: bool, m: Message) {
    m in You(s, first).sent
  }

  /** Two idle peers on one transport, and a migration neither has dealt with. */
  ghost predicate Ready(s: System, first: bool, from: u8, o: Offer, session: u32) {
    && s.a.c.phase == Active && s.b.c.phase == Active && s.a.c.active == s.b.c.active == from
    && WellFormedOffer(o) && o.transport != from && session != SESSION_NONE
    && o.ref !in s.a.own && o.ref !in s.b.own && o.ref !in s.a.taken && o.ref !in s.b.taken
    && (s.a.c.sessionValid ==> s.a.c.sessionRef == session) && (s.b.c.sessionValid ==> s.b.c.sessionRef == session)
  }

  lemma Opened(r: Run, first: bool, from: u8, o: Offer, session: u32, bytes: Challenge) returns (r': Run)
    requires r.Valid() && Ready(r.states[|r.steps|], first, from, o, session)
    ensures r'.Valid() && Midway(r'.states[|r'.steps|], first, from, o, session, bytes, Offered, Offered)
  {
    r' := Extend(r, Step(first, Propose(o)));
    r' := Extend(r', Step(!first, Take(MOffer(o))));
  }

  lemma AgreedOn(r: Run, first: bool, from: u8, o: Offer, session: u32, bytes: Challenge) returns (r': Run)
    requires r.Valid() && Midway(r.states[|r.steps|], first, from, o, session, bytes, Offered, Offered)
    requires session != SESSION_NONE
    ensures r'.Valid() && Midway(r'.states[|r'.steps|], first, from, o, session, bytes, Agreed, Agreed)
  {
    var accept := MAccept(o.ref, o.transport, o.profile, session);
    r' := Extend(r, Step(!first, Accept(session)));
    assert Sees(r'.states[|r'.steps|], first, accept);
    r' := Extend(r', Step(first, Take(accept)));
  }

  lemma Challenged(r: Run, first: bool, from: u8, o: Offer, session: u32, bytes: Challenge) returns (r': Run)
    requires r.Valid() && Midway(r.states[|r.steps|], first, from, o, session, bytes, Agreed, Agreed)
    ensures r'.Valid() && Midway(r'.states[|r'.steps|], first, from, o, session, bytes, Validating, Agreed)
    ensures Sees(r'.states[|r'.steps|], !first, MChallenge(o.ref, session, bytes))
  {
    r' := Extend(r, Step(first, Probe(bytes)));
  }

  lemma Echoed(r: Run, first: bool, from: u8, o: Offer, session: u32, bytes: Challenge) returns (r': Run)
    requires r.Valid() && Midway(r.states[|r.steps|], first, from, o, session, bytes, Validating, Agreed)
    requires Sees(r.states[|r.steps|], !first, MChallenge(o.ref, session, bytes))
    ensures r'.Valid() && Midway(r'.states[|r'.steps|], first, from, o, session, bytes, Validated, Validated)
  {
    var response := MResponse(o.ref, session, bytes);
    r' := Extend(r, Step(!first, Take(MChallenge(o.ref, session, bytes))));
    assert Sees(r'.states[|r'.steps|], first, response);
    r' := Extend(r', Step(first, Take(response)));
  }

  /** Either peer may open the next migration and bring it to a COMMIT under way. */
  lemma CommitIsUnderWay(r: Run, first: bool, from: u8, o: Offer, session: u32, bytes: Challenge) returns (r': Run)
    requires r.Valid() && Ready(r.states[|r.steps|], first, from, o, session)
    ensures r'.Valid() && Midway(r'.states[|r'.steps|], first, from, o, session, bytes, Committing, Validated)
  {
    r' := Opened(r, first, from, o, session, bytes);
    r' := AgreedOn(r', first, from, o, session, bytes);
    r' := Challenged(r', first, from, o, session, bytes);
    r' := Echoed(r', first, from, o, session, bytes);
    r' := Extend(r', Step(first, Commit));
  }

  /** In any reachable state in which both are idle, either peer may open the next migration, and it
      can be completed. */
  lemma EitherCanMigrate(r: Run, first: bool, from: u8, o: Offer, session: u32, bytes: Challenge) returns (r': Run)
    requires r.Valid() && Ready(r.states[|r.steps|], first, from, o, session)
    ensures r'.Valid() && Midway(r'.states[|r'.steps|], first, from, o, session, bytes, Committing, Validated)
    ensures var s := r'.states[|r'.steps|];
            Feasible(s, Repair(s, first)) && Repaired(s, After(s, Repair(s, first)), first)
  {
    r' := CommitIsUnderWay(r, first, from, o, session, bytes);
    RunKeeps(r', |r'.steps|);
    RepairWorks(r'.states[|r'.steps|], first, r'.origin);
  }

  lemma StrandNow(r: Run, first: bool, from: u8, o: Offer, session: u32, bytes: Challenge) returns (r': Run)
    requires r.Valid() && Midway(r.states[|r.steps|], first, from, o, session, bytes, Committing, Validated)
    ensures r'.Valid() && r'.steps == r.steps + [Step(!first, Abandon)] && r.states <= r'.states
    ensures Abandons(r', |r.steps|, !first, o.ref)
    ensures var me := Me(r'.states[|r'.steps|], first).c; me.phase == Committing && me.pending.ref == o.ref
    ensures Live(You(r'.states[|r'.steps|], first))
  {
    r' := Extend(r, Step(!first, Abandon));
  }

  lemma NotOwn(r: Run, first: bool, from: u8, o: Offer, session: u32, bytes: Challenge)
    requires r.Valid() && Midway(r.states[|r.steps|], first, from, o, session, bytes, Committing, Validated)
    ensures !Leads(You(r.states[|r.steps|], first))
  {
    RunKeeps(r, |r.steps|);
    EitherSide(r.states[|r.steps|], first, r.origin);
  }

  lemma StrandingRun(s: System, origin: u8, first: bool, o: Offer, session: u32, bytes: Challenge) returns (r: Run)
    requires Fresh(s.a, origin) && Fresh(s.b, origin) && WellFormedOffer(o) && o.transport != origin
    requires session != SESSION_NONE
    ensures |r.steps| > 0 && Strands(r, |r.steps| - 1, |r.steps|, !first, false, Validated)
  {
    var r0 := CommitIsUnderWay(Run(origin, [], [s]), first, origin, o, session, bytes);
    NotOwn(r0, first, origin, o, session, bytes);
    r := StrandNow(r0, first, origin, o, session, bytes);
    var k, other := |r.steps|, !first;
    assert r.states[k - 1] == r0.states[k - 1];
    assert Abandons(r, k - 1, other, o.ref);
    RecoverableExactly(r, k, first);
  }

  /** The exact guard for abandoning, in equal roles: a run that strands the other peer exists if and
      only if the offer was the other's and its path has been proven. */
  lemma AbandonmentGuard(leads: bool, p: Phase)
    requires p.Revocable()
    ensures (exists r: Run, j: nat, k: nat, first: bool :: Strands(r, j, k, first, leads, p)) <==>
            p == Validated && !leads
  {
    if p == Validated && !leads {
      var peer := Peer(Begun(ROLE_INITIATOR, 0, 1), [], map[], {}, {}, {});
      var r := StrandingRun(System(peer, peer), 1, true, Offer(1, 2, 1, 0, 0), 1, ZERO_CHALLENGE);
      assert Strands(r, |r.steps| - 1, |r.steps|, false, leads, p);
    } else if r: Run, j: nat, k: nat, first: bool :| Strands(r, j, k, first, leads, p) {
      StrandingNeedsProof(r, j, k, first, leads, p);
    }
  }
}
