/** The lifecycle edge by edge and key by key: how each state is entered and left, the way to
    ESTABLISHED in every run, and what becomes of an installed context. */
module LifecycleLaws {
  import opened Words
  import opened Lifecycle
  import opened LifecycleRuns
  import Bitmap

  /** The states from which each state is entered. */
  predicate EnteredFrom(to: Phase, from: Phase) {
    match to
    case Idle => from != Idle
    case Discovered => from == Idle || from == Fallback
    case Capabilities => from == Discovered
    case Negotiating => from == Capabilities
    case Established => from == Negotiating || from == Adapting || from == Phase.Handoff || from == Fallback
    case Adapting => from == Established
    case Handoff => from == Established || from == Adapting
    case Fallback => from == Established || from == Adapting
    case Closed => from != Closed
  }

  /** A transition succeeds exactly from those states; it then leaves the link in the state asked
      for with its majors kept, and without a context in IDLE, DISCOVERED and CLOSED. */
  lemma EdgesIntoEachState(s: LinkState, to: Phase)
    requires Sound(s)
    ensures to in Successors(s.phase) <==> EnteredFrom(to, s.phase)
    ensures var t := AfterTransition(s, to);
            if !EnteredFrom(to, s.phase) then t == s
            else
              && t.phase == to && t.wireMajors == s.wireMajors
              && (to == Idle || to == Discovered || to == Closed ==> !t.contextValid && t.context == NO_CONTEXT)
              && (to != Idle && to != Discovered && to != Closed ==>
                    t.contextValid == s.contextValid && t.context == s.context)
  {
  }

  lemma InitAndReset(s: LinkState, wireMajors: u16)
    ensures Initialized(wireMajors) == LinkState(Idle, false, NO_CONTEXT, wireMajors)
    ensures AfterReset(s) == LinkState(Idle, false, NO_CONTEXT, s.wireMajors)
    ensures NO_CONTEXT.size == 0 && NO_CONTEXT.wireMajor == 0 && NO_CONTEXT.contextId == 0 && NO_CONTEXT.generation == 0
    ensures forall i :: 0 <= i < 32 ==> NO_CONTEXT.digest[i] == 0
  {
  }

  /** The forward path: four calls from init, each of which succeeds. */
  lemma ForwardPath(wireMajors: u16)
    ensures var s0 := Initialized(wireMajors);
            var s1 := AfterTransition(s0, Discovered);
            var s2 := AfterTransition(s1, Capabilities);
            var s3 := AfterTransition(s2, Negotiating);
            var s4 := AfterTransition(s3, Established);
            && Discovered in Successors(s0.phase) && Capabilities in Successors(s1.phase)
            && Negotiating in Successors(s2.phase) && Established in Successors(s3.phase)
            && s4 == LinkState(Established, false, NO_CONTEXT, wireMajors)
  {
  }

  // ---- The way to ESTABLISHED -------------------------------------------------------------------

  /** Where the run last discovered its peer, and where it passed on from there. */
  datatype Way = Way(discovered: nat, capabilities: nat, negotiating: nat, established: nat)

  ghost predicate SinceDiscovered(r: Run, j: nat, k: nat)
    requires |r.states| == |r.events| + 1 && k < |r.states|
  {
    j <= k && r.states[j].phase == Discovered && forall i :: j < i <= k ==> r.states[i].phase != Discovered
  }

  /** State k is entered from another state at event k - 1. */
  ghost predicate Enters(r: Run, k: nat, p: Phase)
    requires |r.states| == |r.events| + 1 && k < |r.states|
  {
    k > 0 && r.events[k - 1] == EvTransition(p) && r.states[k].phase == p && r.states[k - 1].phase != p
  }

  /** How far the way of the run has come in state k; points beyond it mean nothing. */
  ghost predicate Came(r: Run, k: nat, w: Way)
    requires |r.states| == |r.events| + 1 && k < |r.states|
  {
    var p := r.states[k].phase;
    p != Idle && p != Closed ==>
      && SinceDiscovered(r, w.discovered, k)
      && (p != Discovered ==> w.discovered < w.capabilities <= k && Enters(r, w.capabilities, Capabilities))
      && (p != Discovered && p != Capabilities ==>
            w.capabilities < w.negotiating <= k && Enters(r, w.negotiating, Negotiating))
      && (p == Established || p == Adapting || p == Phase.Handoff || p == Fallback ==>
            w.negotiating < w.established <= k && Enters(r, w.established, Established))
  }

  /** A step either stays, or goes along an edge. */
  lemma StepGoesAlong(s: LinkState, e: Event)
    ensures var t := Step(s, e);
            || t.phase == s.phase || t.phase == Idle
            || (e == EvTransition(t.phase) && EnteredFrom(t.phase, s.phase))
  {
  }

  lemma DiscoveredOneMore(r: Run, j: nat, k: nat)
    requires |r.states| == |r.events| + 1 && k + 1 < |r.states| && SinceDiscovered(r, j, k)
    requires r.states[k + 1].phase != Discovered
    ensures SinceDiscovered(r, j, k + 1)
  {
  }

  lemma {:induction false} WayOf(r: Run, k: nat) returns (w: Way)
    requires r.Valid() && k < |r.states|
    ensures Came(r, k, w)
  {
    w := Way(k, k, k, k);
    if k > 0 && r.states[k].phase != Idle && r.states[k].phase != Closed && r.states[k].phase != Discovered {
      assert r.StepAt(k - 1);
      StepGoesAlong(r.states[k - 1], r.events[k - 1]);
      w := WayOf(r, k - 1);
      DiscoveredOneMore(r, w.discovered, k - 1);
      if r.states[k].phase != r.states[k - 1].phase {
        match r.states[k].phase
        case Capabilities => w := w.(capabilities := k);
        case Negotiating => w := w.(negotiating := k);
        case Established =>
          if r.states[k - 1].phase == Negotiating {
            w := w.(established := k);
          }
        case _ =>
      }
    }
  }

  /** In every run, a link in ESTABLISHED, ADAPTING, HANDOFF or FALLBACK has, since it last was in
      DISCOVERED, entered CAPABILITIES, then NEGOTIATING, then ESTABLISHED: no step of the way
      can be skipped. */
  lemma EstablishedTheWholeWay(r: Run, k: nat) returns (w: Way)
    requires r.Valid() && k < |r.states|
    requires r.states[k].phase in {Established, Adapting, Phase.Handoff, Fallback}
    ensures SinceDiscovered(r, w.discovered, k)
    ensures w.discovered < w.capabilities < w.negotiating < w.established <= k
    ensures Enters(r, w.capabilities, Capabilities) && Enters(r, w.negotiating, Negotiating)
    ensures Enters(r, w.established, Established)
  {
    w := WayOf(r, k);
  }

  // ---- Contexts ---------------------------------------------------------------------------------

  /** Two keys are equal when both have a legal size and agree in every field and in that many bytes. */
  lemma KeysByField(a: ContextKey, b: ContextKey)
    ensures KeyEquals(a, b) <==>
            && 0 < a.size as int <= 32 && a.size == b.size
            && a.wireMajor == b.wireMajor && a.contextId == b.contextId && a.generation == b.generation
            && forall i :: 0 <= i < a.size ==> a.digest[i] == b.digest[i]
  {
    if 0 < a.size as int <= 32 && a.size == b.size {
      assert a.digest[..a.size] == b.digest[..b.size] <==> forall i :: 0 <= i < a.size ==> a.digest[i] == b.digest[i];
    }
  }

  /** When a key is installed, and why not. */
  lemma InstallAnswers(s: LinkState, key: ContextKey)
    ensures var status := InstallStatus(s, key);
            var open := s.phase != Idle && s.phase != Discovered && s.phase != Closed;
            var legal := key.wireMajor <= 15 && 0 < key.size as int <= 32;
            && (status == InvalidState <==> !open)
            && (status == Range <==> open && !legal)
            && (status == IncompatibleVersion <==> open && legal && !Bitmap.Bit(s.wireMajors, key.wireMajor))
            && (status == Ok <==> Takes(s, key))
  {
  }

  /** Whatever context the link holds, an installation replaces it: the new key is authorised, every
      key that differs from it is a mismatch, and the state and the majors stay. A refused one
      changes nothing. */
  lemma InstallReplaces(s: LinkState, key: ContextKey, other: ContextKey)
    ensures var t := Install(s, key);
            if Takes(s, key) then
              && t.contextValid && t.phase == s.phase && t.wireMajors == s.wireMajors
              && Authorize(t, key) == Ok
              && Authorize(t, other) == (if KeyEquals(key, other) then Ok else ContextMismatch)
              && (forall i :: key.size as int <= i < 32 ==> t.context.digest[i] == 0)
            else t == s
  {
    if Takes(s, key) {
      EqualExactlyWhenStoredAlike(key, other);
      EqualExactlyWhenStoredAlike(Stored(key), other);
      EqualExactlyWhenStoredAlike(Stored(key), key);
    }
  }
}
