/** What holds in every run of two migrating peers. */
module MigrationRuns {
  import opened Words
  import opened ContactModel
  import opened Messages
  import opened Migration

  datatype Run = Run(steps: seq<Step>, states: seq<System>) {
    ghost predicate StepAt(k: nat)
      requires |states| == |steps| + 1 && k < |steps|
    {
      Enabled(states[k], steps[k]) && states[k + 1] == Do(states[k], steps[k])
    }

    ghost predicate Valid() {
      && |states| == |steps| + 1
      && Initial(states[0])
      && (forall k :: 0 <= k < |steps| ==> StepAt(k))
    }
  }

  lemma {:induction false} RunKeeps(r: Run, k: nat)
    requires r.Valid() && k < |r.states|
    ensures Inv(r.states[k])
  {
    if k == 0 {
      InitialInv(r.states[0]);
    } else {
      RunKeeps(r, k - 1);
      assert r.StepAt(k - 1);
      StepKeeps(r.states[k - 1], r.steps[k - 1]);
    }
  }

  ghost predicate BothLive(s: System) {
    s.a.phase.Live() && s.b.phase.Live()
  }

  /** Agreement: until A closes, what A has completed is a prefix of what B has completed,
      shorter by at most one; when it is shorter, A is committing exactly B's last migration
      and is about to move to where B already is. */
  lemma Agreement(r: Run, k: nat)
    requires r.Valid() && k < |r.states| && r.states[k].a.phase != Closed
    ensures var s := r.states[k];
            && s.doneA <= s.doneB
            && |s.doneB| <= |s.doneA| + 1
            && (|s.doneB| == |s.doneA| + 1 ==>
                  && s.a.phase == Committing
                  && s.doneB[|s.doneA|] == Move(s.a.pending.ref, s.a.pending.transport)
                  && s.b.active == s.a.pending.transport)
            && (|s.doneB| == |s.doneA| ==> s.b.active == s.a.active && s.b.completedRef == s.a.completedRef)
            && (s.a.sessionValid && s.b.sessionValid ==> s.a.sessionRef == s.b.sessionRef)
  {
    RunKeeps(r, k);
  }

  /** Data-plane safety: while neither peer is closed, a peer that may send ordinary traffic
      sends it where the other listens. B is never quiesced; while A is, B is on A's present
      transport or on the candidate, which is where A's controls go. */
  lemma DataPlaneSafety(r: Run, k: nat)
    requires r.Valid() && k < |r.states| && BothLive(r.states[k])
    ensures var s := r.states[k];
            && s.b.phase != Committing
            && (s.a.phase != Committing ==> s.a.active == s.b.active)
            && (s.a.phase == Committing ==> s.b.active == s.a.active || s.b.active == ControlTransport(s.a))
  {
    RunKeeps(r, k);
  }

  // ---- The meaning of COMMITTING ------------------------------------------

  /** B held `ref` as its outstanding transaction, with the candidate path proven. */
  ghost predicate WasValidated(r: Run, j: nat, ref: u32)
    requires j < |r.states|
  {
    r.states[j].b.phase == Validated && r.states[j].b.pending.ref == ref
  }

  ghost predicate WasAbandoned(r: Run, j: nat, ref: u32)
    requires |r.states| == |r.steps| + 1 && j < |r.steps|
  {
    r.steps[j] == BAbandon && r.states[j].b.phase.InProgress() && r.states[j].b.pending.ref == ref
  }

  lemma ProvenGrows(s: System, step: Step, ref: u32)
    requires Inv(s) && Enabled(s, step) && ref in Do(s, step).proven
    ensures ref in s.proven || (Do(s, step).b.phase == Validated && Do(s, step).b.pending.ref == ref)
  {
  }

  lemma DroppedGrows(s: System, step: Step, ref: u32)
    requires Inv(s) && Enabled(s, step)
    ensures ref in s.dropped ==> ref in Do(s, step).dropped
    ensures ref in Do(s, step).dropped ==>
              ref in s.dropped || (step == BAbandon && s.b.phase.InProgress() && s.b.pending.ref == ref)
  {
  }

  lemma {:induction false} ProvenWasValidated(r: Run, k: nat, ref: u32) returns (j: nat)
    requires r.Valid() && k < |r.states| && ref in r.states[k].proven
    ensures j <= k && WasValidated(r, j, ref)
  {
    RunKeeps(r, k - 1);
    assert r.StepAt(k - 1);
    ProvenGrows(r.states[k - 1], r.steps[k - 1], ref);
    if ref in r.states[k - 1].proven {
      j := ProvenWasValidated(r, k - 1, ref);
    } else {
      j := k;
    }
  }

  lemma {:induction false} DroppedWasAbandoned(r: Run, k: nat, ref: u32) returns (j: nat)
    requires r.Valid() && k < |r.states| && ref in r.states[k].dropped
    ensures j < k && WasAbandoned(r, j, ref)
  {
    RunKeeps(r, k - 1);
    assert r.StepAt(k - 1);
    DroppedGrows(r.states[k - 1], r.steps[k - 1], ref);
    if ref in r.states[k - 1].dropped {
      j := DroppedWasAbandoned(r, k - 1, ref);
    } else {
      j := k - 1;
    }
  }

  lemma {:induction false} AbandonedIsDropped(r: Run, j: nat, k: nat, ref: u32)
    requires r.Valid() && j < k < |r.states| && WasAbandoned(r, j, ref)
    ensures ref in r.states[k].dropped
  {
    assert r.StepAt(k - 1);
    RunKeeps(r, k - 1);
    if j < k - 1 {
      AbandonedIsDropped(r, j, k - 1, ref);
      DroppedGrows(r.states[k - 1], r.steps[k - 1], ref);
    }
  }

  /** Whenever A is committing a transaction, B has proven that path before; since then B
      still holds it, has completed it, has abandoned it, or has closed. */
  lemma MeaningOfCommitting(r: Run, k: nat) returns (j: nat)
    requires r.Valid() && k < |r.states| && r.states[k].a.phase == Committing
    ensures var s := r.states[k];
            var ref := s.a.pending.ref;
            && s.b.phase != Committing
            && j <= k && WasValidated(r, j, ref)
            && (|| WasValidated(r, k, ref)
                || Completes(s.doneB, ref)
                || (exists i :: j <= i < k && WasAbandoned(r, i, ref))
                || s.b.phase == Closed)
  {
    RunKeeps(r, k);
    var ref := r.states[k].a.pending.ref;
    j := ProvenWasValidated(r, k, ref);
    RunKeeps(r, j);
    if ref in r.states[k].dropped {
      var i := DroppedWasAbandoned(r, k, ref);
      if i < j {
        AbandonedIsDropped(r, i, j, ref);
      }
      assert j <= i < k && WasAbandoned(r, i, ref);
    }
  }

  /** A leaves COMMITTING by the matching CONFIRM or by closing, and nothing else touches it. */
  lemma ExitsOfCommitting(r: Run, k: nat)
    requires r.Valid() && k < |r.steps| && r.states[k].a.phase == Committing
    ensures var (a, a') := (r.states[k].a, r.states[k + 1].a);
            || a' == a
            || (r.steps[k] == AClose && a'.phase == Closed)
            || (r.steps[k] == AReceive(MConfirm(a.pending.ref, a.sessionRef))
                && a'.phase == Active && a'.active == a.pending.transport && a'.completedRef == a.pending.ref)
  {
    RunKeeps(r, k);
    assert r.StepAt(k);
    OneStepFromCommitting(r.states[k], r.steps[k]);
  }

  lemma OneStepFromCommitting(s: System, step: Step)
    requires Inv(s) && Enabled(s, step) && s.a.phase == Committing
    ensures var (a, a') := (s.a, Do(s, step).a);
            || a' == a
            || (step == AClose && a'.phase == Closed)
            || (step == AReceive(MConfirm(a.pending.ref, a.sessionRef))
                && a'.phase == Active && a'.active == a.pending.transport && a'.completedRef == a.pending.ref)
  {
  }

  // ---- Recovery -------------------------------------------------------------

  predicate Possible(s: System, steps: seq<Step>)
    decreases |steps|
  {
    steps == [] || (Enabled(s, steps[0]) && Possible(Do(s, steps[0]), steps[1..]))
  }

  function After(s: System, steps: seq<Step>): System
    requires Possible(s, steps)
    decreases |steps|
  {
    if steps == [] then s else After(Do(s, steps[0]), steps[1..])
  }

  function Commit(s: System): Message {
    MCommit(s.a.pending.ref, s.a.sessionRef)
  }

  function Confirm(s: System): Message {
    MConfirm(s.a.pending.ref, s.a.sessionRef)
  }

  /** B gives up whatever stale offer it holds, A's COMMIT is delivered again, and the CONFIRM
      that answers it is delivered. */
  function Repair(s: System): seq<Step> {
    (if s.b.phase.InProgress() && s.b.pending.ref != s.a.pending.ref then [BAbandon] else [])
    + [BReceive(Commit(s)), AReceive(Confirm(s))]
  }

  /** B answers a first or a repeated COMMIT, and is then on the candidate. */
  lemma CommitIsAnswered(s: System)
    requires Inv(s) && BothLive(s) && s.a.phase == Committing
    requires || (s.b.phase == Validated && s.b.pending.ref == s.a.pending.ref)
             || (s.b.phase == Active && Completes(s.doneB, s.a.pending.ref))
    ensures ControlTransport(s.a) == ControlTransport(s.b)
    ensures Enabled(s, BReceive(Commit(s)))
    ensures var s' := Do(s, BReceive(Commit(s)));
            Inv(s') && s'.a == s.a && s'.b.phase == Active && s'.doneB == Settled(s.a, s.doneA) && Confirm(s) in s'.net
  {
    assert Witness(s, Commit(s));
    assert Taken(s.b, Commit(s));
    StepKeeps(s, BReceive(Commit(s)));
  }

  lemma ConfirmIsTaken(s: System)
    requires Inv(s) && BothLive(s) && s.a.phase == Committing && Confirm(s) in s.net && s.b.phase == Active
    ensures Enabled(s, AReceive(Confirm(s)))
    ensures var s' := Do(s, AReceive(Confirm(s)));
            && s'.a.phase == Active && s'.b == s.b && s'.doneB == s.doneB && s'.doneA == s.doneB
            && s'.a.active == s.a.pending.transport == s.b.active
  {
  }

  lemma Unroll1(s: System, x: Step, rest: seq<Step>)
    requires Enabled(s, x) && Possible(Do(s, x), rest)
    ensures Possible(s, [x] + rest) && After(s, [x] + rest) == After(Do(s, x), rest)
  {
  }

  lemma Unroll2(s: System, x: Step, y: Step)
    requires Enabled(s, x) && Enabled(Do(s, x), y)
    ensures Possible(s, [x, y]) && After(s, [x, y]) == Do(Do(s, x), y)
  {
    Unroll1(Do(s, x), y, []);
    assert [y] + [] == [y] && [x] + [y] == [x, y];
    Unroll1(s, x, [y]);
  }

  /** The outcome of a repair: both settled on the transport A was committing to. */
  predicate Repaired(s: System, s': System) {
    && s'.a.phase == Active && s'.b.phase == Active
    && s'.a.active == s'.b.active == s.a.pending.transport
    && s'.doneA == s'.doneB == Settled(s.a, s.doneA)
  }

  lemma CommitThenConfirm(s: System)
    requires Inv(s) && BothLive(s) && s.a.phase == Committing
    requires || (s.b.phase == Validated && s.b.pending.ref == s.a.pending.ref)
             || (s.b.phase == Active && Completes(s.doneB, s.a.pending.ref))
    ensures var steps := [BReceive(Commit(s)), AReceive(Confirm(s))];
            Possible(s, steps) && Repaired(s, After(s, steps))
  {
    CommitIsAnswered(s);
    ConfirmIsTaken(Do(s, BReceive(Commit(s))));
    Unroll2(s, BReceive(Commit(s)), AReceive(Confirm(s)));
  }

  lemma AbandonIsPossible(s: System)
    requires Inv(s) && BothLive(s) && s.a.phase == Committing && s.a.pending.ref !in s.dropped
    requires s.b.phase.InProgress() && s.b.pending.ref != s.a.pending.ref
    ensures Enabled(s, BAbandon)
    ensures var s' := Do(s, BAbandon);
            Inv(s') && BothLive(s') && s'.a == s.a && s'.doneA == s.doneA && s'.doneB == s.doneB
            && s'.b.phase == Active && Completes(s'.doneB, s.a.pending.ref)
  {
    StepKeeps(s, BAbandon);
  }

  /** Recovery from a lost CONFIRM: A is committing what B has completed. The repair always
      works, leaves B's history alone, and ends with both peers on B's transport. */
  lemma LostConfirmRecovery(r: Run, k: nat)
    requires r.Valid() && k < |r.states| && BothLive(r.states[k])
    requires r.states[k].a.phase == Committing && Completes(r.states[k].doneB, r.states[k].a.pending.ref)
    ensures var s := r.states[k];
            && Possible(s, Repair(s))
            && var s' := After(s, Repair(s));
               && s'.a.phase == Active && s'.b.phase == Active
               && s'.a.active == s'.b.active == s.b.active
               && s'.doneB == s.doneB == s'.doneA
  {
    RunKeeps(r, k);
    RepairWorks(r.states[k]);
  }

  lemma RepairWorks(s: System)
    requires Inv(s) && BothLive(s) && s.a.phase == Committing && s.a.pending.ref !in s.dropped
    ensures Possible(s, Repair(s)) && Repaired(s, After(s, Repair(s)))
  {
    if s.b.phase.InProgress() && s.b.pending.ref != s.a.pending.ref {
      AbandonIsPossible(s);
      var s1 := Do(s, BAbandon);
      CommitThenConfirm(s1);
      Unroll1(s, BAbandon, [BReceive(Commit(s1)), AReceive(Confirm(s1))]);
    } else {
      CommitThenConfirm(s);
      assert Repair(s) == [BReceive(Commit(s)), AReceive(Confirm(s))];
    }
  }

  lemma DroppedIsNotConfirmed(s: System, m: Message)
    requires Inv(s) && m.MConfirm? && m.ref in s.dropped
    ensures m !in s.net
  {
    assert m in s.net ==> Witness(s, m);
  }

  /** Once B has abandoned the transaction A is committing, A stays exactly as it is until it
      closes, whatever else happens. */
  lemma {:induction false} Stranded(s: System, steps: seq<Step>)
    requires Inv(s) && Possible(s, steps)
    requires s.a.phase == Closed || (s.a.phase == Committing && s.a.pending.ref in s.dropped)
    ensures After(s, steps).a == s.a || After(s, steps).a.phase == Closed
    decreases |steps|
  {
    if steps != [] {
      var s1 := Do(s, steps[0]);
      StepKeeps(s, steps[0]);
      if s.a.phase == Committing {
        OneStepFromCommitting(s, steps[0]);
        DroppedGrows(s, steps[0], s.a.pending.ref);
        DroppedIsNotConfirmed(s, MConfirm(s.a.pending.ref, s.a.sessionRef));
      } else {
        ClosedStays(s, steps[0]);
      }
      Stranded(s1, steps[1..]);
    }
  }

  lemma ClosedStays(s: System, step: Step)
    requires Inv(s) && Enabled(s, step) && s.a.phase == Closed
    ensures Do(s, step).a == s.a
  {
  }

  ghost predicate CanSettle(s: System) {
    exists steps :: Possible(s, steps) && After(s, steps).a.phase == Active
  }

  lemma DroppedCannotSettle(s: System)
    requires Inv(s) && s.a.phase == Committing && s.a.pending.ref in s.dropped
    ensures !CanSettle(s)
  {
    if CanSettle(s) {
      var steps :| Possible(s, steps) && After(s, steps).a.phase == Active;
      Stranded(s, steps);
    }
  }

  lemma OthersCanSettle(s: System)
    requires Inv(s) && BothLive(s) && s.a.phase == Committing && s.a.pending.ref !in s.dropped
    ensures CanSettle(s)
  {
    RepairWorks(s);
  }

  lemma DroppedExactly(r: Run, k: nat, ref: u32)
    requires r.Valid() && k < |r.states|
    ensures ref in r.states[k].dropped <==> exists j :: 0 <= j < k && WasAbandoned(r, j, ref)
  {
    if ref in r.states[k].dropped {
      var j := DroppedWasAbandoned(r, k, ref);
      assert WasAbandoned(r, j, ref);
    }
    if j :| 0 <= j < k && WasAbandoned(r, j, ref) {
      AbandonedIsDropped(r, j, k, ref);
    }
  }

  /** A commit can be brought to its end exactly when B has not abandoned the transaction:
      whatever was lost, delivering COMMIT and CONFIRM then suffices, and otherwise nothing
      but closing the contact gets A out of COMMITTING. */
  lemma RecoverableExactly(r: Run, k: nat)
    requires r.Valid() && k < |r.states| && BothLive(r.states[k]) && r.states[k].a.phase == Committing
    ensures var s := r.states[k];
            CanSettle(s) <==> !exists j :: 0 <= j < k && WasAbandoned(r, j, s.a.pending.ref)
  {
    RunKeeps(r, k);
    DroppedExactly(r, k, r.states[k].a.pending.ref);
    if r.states[k].a.pending.ref in r.states[k].dropped {
      DroppedCannotSettle(r.states[k]);
    } else {
      OthersCanSettle(r.states[k]);
    }
  }

  // ---- When abandoning is harmless ----------------------------------------------

  lemma UnprovenStays(s: System, step: Step, ref: u32)
    requires Inv(s) && Enabled(s, step) && ref in s.dropped && ref !in s.proven
    ensures ref in Do(s, step).dropped && ref !in Do(s, step).proven
  {
    DroppedGrows(s, step, ref);
  }

  lemma AbandonedUnproven(s: System)
    requires Inv(s) && Enabled(s, BAbandon) && s.b.phase != Validated
    ensures s.b.pending.ref in Do(s, BAbandon).dropped && s.b.pending.ref !in Do(s, BAbandon).proven
  {
  }

  predicate GivenUpUnproven(s: System, ref: u32) {
    ref in s.dropped && ref !in s.proven
  }

  lemma UnprovenAfter(r: Run, k: nat, ref: u32)
    requires r.Valid() && k < |r.steps|
    requires GivenUpUnproven(r.states[k], ref) || (WasAbandoned(r, k, ref) && r.states[k].b.phase != Validated)
    ensures GivenUpUnproven(r.states[k + 1], ref)
  {
    RunKeeps(r, k);
    assert r.StepAt(k);
    if GivenUpUnproven(r.states[k], ref) {
      UnprovenStays(r.states[k], r.steps[k], ref);
    } else {
      AbandonedUnproven(r.states[k]);
    }
  }

  lemma {:induction false} StaysUnproven(r: Run, j: nat, k: nat, ref: u32)
    requires r.Valid() && j < k < |r.states| && WasAbandoned(r, j, ref) && r.states[j].b.phase != Validated
    ensures GivenUpUnproven(r.states[k], ref)
  {
    if j < k - 1 {
      StaysUnproven(r, j, k - 1, ref);
    }
    UnprovenAfter(r, k - 1, ref);
  }

  /** The guard B can check: abandoning before the path is proven never strands A, for A can then
      never commit that transaction. */
  lemma EarlyAbandonNeverStrands(r: Run, j: nat, k: nat, ref: u32)
    requires r.Valid() && j < k < |r.states| && WasAbandoned(r, j, ref) && r.states[j].b.phase != Validated
    ensures !(r.states[k].a.phase == Committing && r.states[k].a.pending.ref == ref)
  {
    StaysUnproven(r, j, k, ref);
    RunKeeps(r, k);
  }
}
