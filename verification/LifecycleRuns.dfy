/** The lifecycle over every run: any calls, with any arguments, in any order after init. */
module LifecycleRuns {
  import opened Words
  import opened Lifecycle
  import Bitmap

  datatype Event =
    | EvInit(wireMajors: u16)
    | EvReset
    | EvTransition(to: Phase)
    | EvInstall(key: ContextKey)

  function Step(s: LinkState, e: Event): LinkState {
    match e
    case EvInit(wireMajors) => Initialized(wireMajors)
    case EvReset => AfterReset(s)
    case EvTransition(to) => AfterTransition(s, to)
    case EvInstall(key) => Install(s, key)
  }

  datatype Run = Run(wireMajors: u16, events: seq<Event>, states: seq<LinkState>) {
    ghost predicate StepAt(k: nat)
      requires |states| == |events| + 1 && k < |events|
    {
      states[k + 1] == Step(states[k], events[k])
    }

    ghost predicate Valid() {
      && |states| == |events| + 1
      && states[0] == Initialized(wireMajors)
      && (forall k :: 0 <= k < |events| ==> StepAt(k))
    }
  }

  lemma StepKeepsSound(s: LinkState, e: Event)
    requires Sound(s)
    ensures Sound(Step(s, e))
  {
  }

  /** Never a context in IDLE, DISCOVERED or CLOSED; never one of an unsupported major; never a
      byte of an earlier digest behind the present one. */
  lemma {:induction false} ContextIsSound(r: Run, k: nat)
    requires r.Valid() && k < |r.states|
    ensures Sound(r.states[k])
  {
    if k > 0 {
      ContextIsSound(r, k - 1);
      assert r.StepAt(k - 1);
      StepKeepsSound(r.states[k - 1], r.events[k - 1]);
    }
  }

  /** A key the link takes, whatever context it holds. */
  predicate Takes(s: LinkState, key: ContextKey) {
    && s.phase in {Capabilities, Negotiating, Established, Adapting, Phase.Handoff, Fallback}
    && key.wireMajor <= 15 && 0 < key.size as int <= 32 && Bitmap.Bit(s.wireMajors, key.wireMajor)
  }

  /** Event j installed a context. */
  ghost predicate Installs(r: Run, j: nat)
    requires |r.states| == |r.events| + 1 && j < |r.events|
  {
    r.events[j].EvInstall? && Takes(r.states[j], r.events[j].key)
  }

  /** Event j installed a context; up to state k none was installed after it, and the link has
      not entered IDLE, DISCOVERED or CLOSED. */
  ghost predicate InForce(r: Run, j: nat, k: nat)
    requires |r.states| == |r.events| + 1 && k < |r.states|
  {
    && j < k && Installs(r, j)
    && (forall i :: j < i < k ==> !Installs(r, i))
    && (forall i :: j < i <= k ==> MayHold(r.states[i].phase))
  }

  /** One step away from every way to lose or replace a context leaves it alone. */
  lemma StepLeavesContext(s: LinkState, e: Event)
    requires Sound(s) && MayHold(Step(s, e).phase)
    requires !(e.EvInstall? && Takes(s, e.key))
    ensures Step(s, e).contextValid == s.contextValid && Step(s, e).context == s.context
  {
  }

  lemma {:induction false} InForceIsHeld(r: Run, j: nat, k: nat)
    requires r.Valid() && k < |r.states| && InForce(r, j, k)
    ensures r.states[k].contextValid && r.states[k].context == Stored(r.events[j].key)
    decreases k
  {
    assert r.StepAt(k - 1);
    if j < k - 1 {
      InForceIsHeld(r, j, k - 1);
      ContextIsSound(r, k - 1);
      assert !Installs(r, k - 1);
      StepLeavesContext(r.states[k - 1], r.events[k - 1]);
    }
  }

  lemma {:induction false} HeldIsInForce(r: Run, k: nat) returns (j: nat)
    requires r.Valid() && k < |r.states| && r.states[k].contextValid
    ensures InForce(r, j, k)
  {
    assert k > 0;
    assert r.StepAt(k - 1);
    ContextIsSound(r, k - 1);
    ContextIsSound(r, k);
    if Installs(r, k - 1) {
      j := k - 1;
    } else {
      StepLeavesContext(r.states[k - 1], r.events[k - 1]);
      j := HeldIsInForce(r, k - 1);
    }
  }

  /** At most one installation is in force. */
  lemma InForceIsUnique(r: Run, i: nat, j: nat, k: nat)
    requires r.Valid() && k < |r.states| && InForce(r, i, k) && InForce(r, j, k)
    ensures i == j
  {
  }

  /** Authorisation agrees with history. A key is authorised exactly when it equals the key of
      the last successful installation and the link has entered none of IDLE, DISCOVERED and
      CLOSED since; there is no active context exactly when there is no such installation. */
  lemma AuthorizationAgreesWithHistory(r: Run, k: nat, key: ContextKey)
    requires r.Valid() && k < |r.states|
    ensures Authorize(r.states[k], key) == Ok <==>
            exists j: nat :: InForce(r, j, k) && KeyEquals(r.events[j].key, key)
    ensures Authorize(r.states[k], key) == NoActiveContext <==> !exists j: nat :: InForce(r, j, k)
    ensures Authorize(r.states[k], key) in {Ok, NoActiveContext, ContextMismatch}
  {
    if r.states[k].contextValid {
      var j := HeldIsInForce(r, k);
      InForceIsHeld(r, j, k);
      StoredStandsFor(r.events[j].key, key);
    }
    forall j: nat | InForce(r, j, k)
      ensures r.states[k].contextValid
      ensures Authorize(r.states[k], key) == Ok <==> KeyEquals(r.events[j].key, key)
    {
      InForceIsHeld(r, j, k);
      StoredStandsFor(r.events[j].key, key);
    }
  }

  lemma StoredStandsFor(key: ContextKey, other: ContextKey)
    requires WellSized(key)
    ensures KeyEquals(Stored(key), other) <==> KeyEquals(key, other)
  {
  }
}
