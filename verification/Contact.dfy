/** src/contact.c: the caller-owned record and the operations that update it in place.
    Every method is proved to return and leave behind what `ContactModel` says, and to
    keep the record a digest of the ghost history of completed migrations. */
module ContactRecord {
  import opened Words
  import M = ContactModel

  class Contact {
    var localRef: u32
    var peerRef: u32
    var sessionRef: u32
    var role: u8
    var phase: M.Phase
    var activeTransport: u8
    var pending: M.Offer
    const challenge: array<u8>
    var challengeValid: bool
    var peerRefValid: bool
    var sessionValid: bool
    var migrationCount: u16
    var completedRef: u32

    ghost var origin: u8
    ghost var moves: M.History

    ghost function View(): (c: M.ContactState)
      reads this, challenge
      requires challenge.Length == CHALLENGE_SIZE
    {
      M.ContactState(localRef, peerRef, sessionRef, role, phase, activeTransport,
                     pending, challenge[..], challengeValid, peerRefValid, sessionValid, migrationCount, completedRef)
    }

    ghost predicate Valid()
      reads this, challenge
    {
      && challenge.Length == CHALLENGE_SIZE
      && M.WellFormed(View())
      && M.Refines(View(), origin, moves)
    }

    /** A record that has not been begun: every field zero. */
    constructor ()
      ensures Valid() && fresh(challenge) && View() == M.BLANK && moves == []
    {
      localRef, peerRef, sessionRef, role := 0, 0, M.SESSION_NONE, 0;
      phase, activeTransport := M.NotBegun, M.TRANSPORT_RESERVED;
      pending := M.NO_OFFER;
      challenge := new u8[CHALLENGE_SIZE](_ => 0);
      challengeValid, peerRefValid, sessionValid, migrationCount, completedRef := false, false, false, 0, 0;
      origin, moves := M.TRANSPORT_RESERVED, [];
      new;
      assert challenge[..] == ZERO_CHALLENGE;
    }

    method ClearChallenge()
      requires challenge.Length == CHALLENGE_SIZE
      modifies this`challengeValid, challenge
      ensures challenge[..] == ZERO_CHALLENGE && !challengeValid
    {
      for i := 0 to CHALLENGE_SIZE
        invariant forall k :: 0 <= k < i ==> challenge[k] == 0
      {
        challenge[i] := 0;
      }
      challengeValid := false;
    }

    method StoreChallenge(bytes: Challenge)
      requires challenge.Length == CHALLENGE_SIZE
      modifies this`challengeValid, challenge
      ensures challenge[..] == bytes && challengeValid
    {
      for i := 0 to CHALLENGE_SIZE
        invariant forall k :: 0 <= k < i ==> challenge[k] == bytes[k]
      {
        challenge[i] := bytes[i];
      }
      challengeValid := true;
    }

    /** Compares every byte, without an early exit. */
    method ChallengeEquals(echo: Challenge) returns (same: bool)
      requires challenge.Length == CHALLENGE_SIZE
      ensures same <==> challenge[..] == echo
    {
      var differing := false;
      for i := 0 to CHALLENGE_SIZE
        invariant !differing <==> forall k :: 0 <= k < i ==> challenge[k] == echo[k]
      {
        differing := differing || challenge[i] != echo[i];
      }
      same := !differing;
    }

    method ClearPending()
      requires challenge.Length == CHALLENGE_SIZE
      modifies this`pending, this`challengeValid, challenge
      ensures pending == M.NO_OFFER && challenge[..] == ZERO_CHALLENGE && !challengeValid
    {
      pending := M.NO_OFFER;
      ClearChallenge();
    }

    /** Adopt the candidate and remember the transaction. The count saturates. */
    method SettleCommit(ref: u32)
      requires challenge.Length == CHALLENGE_SIZE
      modifies this, challenge
      ensures View() == M.SettleCommit(old(View()), ref)
      ensures origin == old(origin) && moves == old(moves) + [M.Move(ref, old(pending.transport))]
    {
      moves := moves + [M.Move(ref, pending.transport)];
      activeTransport, completedRef := pending.transport, ref;
      ClearPending();
      phase := M.Active;
      if migrationCount < COUNT_MAX {
        migrationCount := migrationCount + 1;
      }
    }

    method CheckTransaction(ref: u32, session: u32) returns (status: Status)
      requires Valid()
      ensures status == M.CheckTransaction(View(), ref, session)
    {
      if !sessionValid { return InvalidState; }
      if ref != pending.ref { return ContextMismatch; }
      if session != sessionRef { return ContextMismatch; }
      return Ok;
    }

    method Clear()
      requires challenge.Length == CHALLENGE_SIZE
      modifies this, challenge
      ensures View() == M.BLANK
    {
      localRef, peerRef, sessionRef, role := 0, 0, M.SESSION_NONE, M.ROLE_INITIATOR;
      phase, activeTransport := M.NotBegun, M.TRANSPORT_RESERVED;
      peerRefValid, sessionValid, migrationCount, completedRef := false, false, 0, M.MIGRATION_NONE;
      ClearPending();
    }

    /** Begins whatever the record held before; it need never have been cleared. */
    method Begin(newRole: u8, local: u32, transport: u8) returns (status: Status)
      requires challenge.Length == CHALLENGE_SIZE
      modifies this, challenge
      ensures status == Ok || old(Valid()) ==> Valid()
      ensures status == if M.BeginAccepts(newRole, transport) then Ok else InvalidArgument
      ensures status == Ok ==> View() == M.Begun(newRole, local, transport) && origin == transport && moves == []
      ensures status == Ok ==>
                && localRef == local && role == newRole && activeTransport == transport && phase == M.Active
                && !peerRefValid && !sessionValid && completedRef == 0 && migrationCount == 0
      ensures status != Ok ==> View() == old(View()) && origin == old(origin) && moves == old(moves)
    {
      if newRole != M.ROLE_INITIATOR && newRole != M.ROLE_RESPONDER { return InvalidArgument; }
      if transport == M.TRANSPORT_RESERVED { return InvalidArgument; }
      Clear();
      role, localRef, activeTransport, phase := newRole, local, transport, M.Active;
      origin, moves := transport, [];
      assert View() == M.Begun(newRole, local, transport);
      M.BegunIsWellFormed(newRole, local, transport);
      return Ok;
    }

    method SetPeerRef(ref: u32) returns (status: Status)
      requires Valid()
      modifies this`peerRef, this`peerRefValid
      ensures Valid() && var r := M.SetPeerRef(old(View()), ref); status == r.0 && View() == r.1
    {
      if phase == M.NotBegun || phase == M.Closed { return InvalidState; }
      if peerRefValid {
        return if ref == peerRef then Ok else ContextMismatch;
      }
      peerRef, peerRefValid := ref, true;
      return Ok;
    }

    method RecordOffer(ref: u32, transport: u8, profile: u8, token: u32, validity: u8) returns (status: Status)
      requires Valid()
      modifies this, challenge
      ensures Valid() && origin == old(origin) && moves == old(moves)
      ensures var r := M.RecordOffer(old(View()), M.Offer(ref, transport, profile, token, validity));
              status == r.0 && View() == r.1
    {
      if ref == M.MIGRATION_NONE || transport == M.TRANSPORT_RESERVED || profile == M.PROFILE_RESERVED {
        return InvalidArgument;
      }
      if phase == M.Offered && ref == pending.ref {
        if transport != pending.transport || profile != pending.profile || token != pending.token ||
           validity != pending.validity {
          return ContextMismatch;
        }
        return Ok;
      }
      if phase != M.Active { return InvalidState; }
      if transport == activeTransport { return InvalidArgument; }
      pending := M.Offer(ref, transport, profile, token, validity);
      ClearChallenge();
      phase := M.Offered;
      return Ok;
    }

    method ResolveOfferCollision(peerSource: u32, ref: u32, transport: u8, profile: u8, token: u32, validity: u8)
      returns (status: Status, outcome: Option<M.Collision>)
      requires Valid()
      modifies this, challenge
      ensures Valid() && origin == old(origin) && moves == old(moves)
      ensures M.Resolution(status, View(), outcome) ==
              M.ResolveCollision(old(View()), peerSource, M.Offer(ref, transport, profile, token, validity))
    {
      outcome := None;
      if ref == M.MIGRATION_NONE || transport == M.TRANSPORT_RESERVED || profile == M.PROFILE_RESERVED {
        return InvalidArgument, outcome;
      }
      if phase != M.Offered { return InvalidState, outcome; }
      var peerWins, tie := false, false;
      if peerSource != localRef {
        peerWins := peerSource > localRef;
      } else if ref != pending.ref {
        peerWins := ref > pending.ref;
      } else {
        tie := true;
      }
      if tie {
        ClearPending();
        phase := M.Active;
        return Ok, Some(M.TieAbort);
      }
      if peerWins {
        if transport == activeTransport { return InvalidArgument, outcome; }
        pending := M.Offer(ref, transport, profile, token, validity);
        ClearChallenge();
        phase := M.Offered;
        return Ok, Some(M.PeerWins);
      }
      return Ok, Some(M.LocalWins);
    }

    method Agree(ref: u32, transport: u8, profile: u8, session: u32) returns (status: Status)
      requires Valid()
      modifies this`sessionRef, this`sessionValid, this`phase
      ensures Valid() && var r := M.Agree(old(View()), ref, transport, profile, session); status == r.0 && View() == r.1
    {
      if session == M.SESSION_NONE { return InvalidArgument; }
      if sessionValid && session != sessionRef { return ContextMismatch; }
      if phase == M.Agreed || phase == M.Validating || phase == M.Validated || phase == M.Committing {
        if ref != pending.ref || transport != pending.transport || profile != pending.profile {
          return ContextMismatch;
        }
        return Ok;
      }
      if phase != M.Offered { return InvalidState; }
      if ref != pending.ref { return ContextMismatch; }
      if transport != pending.transport { return ContextMismatch; }
      if profile != pending.profile { return ContextMismatch; }
      sessionRef, sessionValid, phase := session, true, M.Agreed;
      return Ok;
    }

    method ValidationBegin(bytes: Challenge) returns (status: Status)
      requires Valid()
      modifies this`challengeValid, this`phase, challenge
      ensures Valid() && var r := M.ValidationBegin(old(View()), bytes); status == r.0 && View() == r.1
    {
      if phase != M.Agreed { return InvalidState; }
      if !sessionValid { return InvalidState; }
      StoreChallenge(bytes);
      phase := M.Validating;
      return Ok;
    }

    method ValidationResponse(ref: u32, session: u32, echo: Challenge) returns (status: Status)
      requires Valid()
      modifies this`phase
      ensures Valid() && var r := M.ValidationResponse(old(View()), ref, session, echo); status == r.0 && View() == r.1
    {
      var same := ChallengeEquals(echo);
      if phase == M.Validated {
        status := CheckTransaction(ref, session);
        if status != Ok { return; }
        if !challengeValid || !same { return ContextMismatch; }
        return Ok;
      }
      if phase != M.Validating { return InvalidState; }
      if !challengeValid { return InvalidState; }
      status := CheckTransaction(ref, session);
      if status != Ok { return; }
      if !same { return ContextMismatch; }
      phase := M.Validated;
      return Ok;
    }

    method ChallengeRepeat(ref: u32, session: u32, bytes: Challenge) returns (status: Status, reecho: bool)
      requires Valid()
      ensures status == Ok && reecho == M.ChallengeRepeat(View(), ref, session, bytes)
    {
      if phase != M.Validated { return Ok, false; }
      if !challengeValid { return Ok, false; }
      status := CheckTransaction(ref, session);
      if status != Ok { return Ok, false; }
      var same := ChallengeEquals(bytes);
      return Ok, same;
    }

    method CommitBegin() returns (status: Status)
      requires Valid()
      modifies this`phase
      ensures Valid() && var r := M.CommitBegin(old(View())); status == r.0 && View() == r.1
    {
      if phase != M.Validated { return InvalidState; }
      phase := M.Committing;
      return Ok;
    }

    method CommitConfirm(ref: u32, session: u32) returns (status: Status)
      requires Valid()
      modifies this, challenge
      ensures Valid() && origin == old(origin) && var r := M.CommitConfirm(old(View()), ref, session);
              status == r.0 && View() == r.1
      ensures moves == old(moves) + if status == Ok && old(phase) == M.Committing
                                    then [M.Move(ref, old(pending.transport))] else []
    {
      if phase == M.Active {
        if !sessionValid || completedRef == M.MIGRATION_NONE { return InvalidState; }
        if ref != completedRef || session != sessionRef { return ContextMismatch; }
        return Ok;
      }
      if phase != M.Committing { return InvalidState; }
      status := CheckTransaction(ref, session);
      if status != Ok { return; }
      M.SettleKeepsDigest(View(), origin, moves);
      SettleCommit(ref);
      return Ok;
    }

    method CommitAccept(ref: u32, session: u32) returns (status: Status)
      requires Valid()
      modifies this, challenge
      ensures Valid() && origin == old(origin) && var r := M.CommitAccept(old(View()), ref, session);
              status == r.0 && View() == r.1
      ensures moves == old(moves) + if status == Ok then [M.Move(ref, old(pending.transport))] else []
    {
      if phase != M.Validated { return InvalidState; }
      status := CheckTransaction(ref, session);
      if status != Ok { return; }
      M.SettleKeepsDigest(View(), origin, moves);
      SettleCommit(ref);
      return Ok;
    }

    method CommitRepeat(ref: u32, session: u32) returns (status: Status, reconfirm: bool)
      requires Valid()
      ensures status == Ok && reconfirm == M.CommitRepeat(View(), ref, session)
    {
      if phase != M.Active { return Ok, false; }
      if completedRef == M.MIGRATION_NONE { return Ok, false; }
      if !sessionValid { return Ok, false; }
      if ref != completedRef { return Ok, false; }
      if session != sessionRef { return Ok, false; }
      return Ok, true;
    }

    method AbandonMigration() returns (status: Status)
      requires Valid()
      modifies this, challenge
      ensures Valid() && origin == old(origin) && moves == old(moves)
      ensures var r := M.Abandon(old(View())); status == r.0 && View() == r.1
    {
      if !phase.Revocable() { return InvalidState; }
      ClearPending();
      phase := M.Active;
      return Ok;
    }

    method Close() returns (status: Status)
      requires Valid()
      modifies this, challenge
      ensures Valid() && origin == old(origin) && moves == old(moves)
      ensures var r := M.Close(old(View())); status == r.0 && View() == r.1
    {
      if phase == M.NotBegun { return InvalidState; }
      ghost var before := View();
      ClearPending();
      sessionRef, sessionValid, phase := M.SESSION_NONE, false, M.Closed;
      assert View() == M.Close(before).1;
      M.CloseKeeps(before, origin, moves);
      return Ok;
    }

    /** The transport handoff controls use: the candidate while a migration is outstanding. */
    method ControlTransport() returns (status: Status, transport: u8)
      requires Valid()
      ensures status == if phase.Live() then Ok else InvalidState
      ensures status == Ok ==> transport == M.ControlTransport(View())
      ensures status == Ok ==> (transport != activeTransport <==> phase.InProgress())
    {
      transport := M.TRANSPORT_RESERVED;
      if phase == M.NotBegun || phase == M.Closed { return InvalidState, transport; }
      if phase.InProgress() { return Ok, pending.transport; }
      return Ok, activeTransport;
    }

    /** The transport of ordinary traffic, and whether that traffic must wait. */
    method DataTransport() returns (status: Status, transport: u8, quiesced: bool)
      requires Valid()
      ensures status == if phase.Live() then Ok else InvalidState
      ensures status == Ok ==> transport == M.TransportAfter(origin, moves) && (quiesced <==> phase == M.Committing)
    {
      transport, quiesced := M.TRANSPORT_RESERVED, false;
      if phase == M.NotBegun || phase == M.Closed { return InvalidState, transport, quiesced; }
      return Ok, activeTransport, phase == M.Committing;
    }
  }
}
