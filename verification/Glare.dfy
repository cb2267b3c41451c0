/** Simultaneous offers: two contacts that each hold an offer of their own and each receive
    the other's. */
module Glare {
  import opened Words
  import opened ContactModel

  /** Each peer resolves the other's outstanding offer, under the other's reference. */
  function Resolved(own: ContactState, other: ContactState): Resolution {
    ResolveCollision(own, other.localRef, other.pending)
  }

  /** The keys (source_ref, migration_ref), most significant first. */
  predicate KeyBelow(x: ContactState, y: ContactState) {
    x.localRef < y.localRef || (x.localRef == y.localRef && x.pending.ref < y.pending.ref)
  }

  predicate SameKey(x: ContactState, y: ContactState) {
    x.localRef == y.localRef && x.pending.ref == y.pending.ref
  }

  predicate Nothing(c: ContactState) {
    c.phase == Active && c.pending == NO_OFFER && !c.challengeValid && c.challenge == ZERO_CHALLENGE
  }

  /** Glare convergence. With distinct keys the larger wins on both sides, and both peers are
      left with the winner's offer, field for field; with equal keys both withdraw. Neither
      peer's transport, session or history moves. */
  lemma GlareConverges(x: ContactState, y: ContactState)
    requires WellFormed(x) && WellFormed(y) && x.phase == Offered && y.phase == Offered
    requires x.active == y.active
    ensures var (rx, ry) := (Resolved(x, y), Resolved(y, x));
            && rx.status == Ok && ry.status == Ok
            && (SameKey(x, y) <==> rx.outcome == Some(TieAbort))
            && (SameKey(x, y) <==> ry.outcome == Some(TieAbort))
            && (SameKey(x, y) ==> Nothing(rx.contact) && Nothing(ry.contact))
            && (KeyBelow(x, y) <==> rx.outcome == Some(PeerWins))
            && (KeyBelow(x, y) <==> ry.outcome == Some(LocalWins))
            && (!SameKey(x, y) ==>
                  && rx.contact.phase == Offered && ry.contact.phase == Offered
                  && rx.contact.pending == ry.contact.pending
                  && rx.contact.pending == (if KeyBelow(x, y) then y else x).pending)
            && rx.contact == x.(phase := rx.contact.phase, pending := rx.contact.pending)
            && ry.contact == y.(phase := ry.contact.phase, pending := ry.contact.pending)
  {
  }

  /** Where they meet, they stay met: a repeated copy of either offer moves neither side. The
      loser's own offer is refused from then on, unless it was the winner's offer all along. */
  lemma LosersOfferIsSpent(x: ContactState, y: ContactState)
    requires WellFormed(x) && WellFormed(y) && x.phase == Offered && y.phase == Offered
    requires x.active == y.active && KeyBelow(x, y)
    ensures var (rx, ry) := (Resolved(x, y), Resolved(y, x));
            var status := if x.pending == y.pending then Ok
                          else if x.pending.ref == y.pending.ref then ContextMismatch
                          else InvalidState;
            && RecordOffer(rx.contact, y.pending) == (Ok, rx.contact)
            && RecordOffer(rx.contact, x.pending) == (status, rx.contact)
            && RecordOffer(ry.contact, x.pending) == (status, ry.contact)
  {
  }

  /** On different transports the tiebreak can fail on one side only: the loser refuses an
      offer that names the transport it is already on, and keeps its own. */
  lemma GlareOnDifferentTransports(x: ContactState, y: ContactState)
    requires WellFormed(x) && WellFormed(y) && x.phase == Offered && y.phase == Offered && KeyBelow(x, y)
    ensures Resolved(y, x).outcome == Some(LocalWins)
    ensures Resolved(x, y).status == Ok <==> y.pending.transport != x.active
    ensures Resolved(x, y).status == Ok ==> Resolved(x, y).contact.pending == Resolved(y, x).contact.pending
    ensures Resolved(x, y).status != Ok ==>
              Resolved(x, y).contact == x && Resolved(x, y).contact.pending != Resolved(y, x).contact.pending
  {
  }
}
