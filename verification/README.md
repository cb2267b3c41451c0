# MCL Link: contact migration, frames and negotiation

A Dafny model of the core of MCL Link, with proofs of what it promises:

- **Contact migration** (`src/contact.c`). `Contact` is the caller-owned record, updated in place;
  each method is proved to return and leave behind exactly what a function of `ContactModel` says,
  and to keep the record a digest of a ghost history of completed migrations. `ContactRuns` and
  `Duplicates` reason about one contact over every run, `Glare` about two simultaneous offers.
  `Migration`, `MigrationRuns` and `MigrationReach` are about two peers, one of which always opens the
  migration, on a network that loses, duplicates and reorders; `Peers`, `PeerRuns` and `PeerRecovery`
  are about two peers in equal roles, whose offers may cross.
- **Frames** (`src/link.c`). `Crc32` and `Polynomial` connect the bitwise CRC loop with division
  over GF(2). `Frame`, `FrameCodec` and `FrameTheorems` model the codec and its canonical form, and
  `Stream` a receiver that is handed bytes in chunks. `Corruption`, `Boundary` and `CheckBoundary` say
  exactly what the frame check sees of an altered frame.
- **Controls and negotiation** (`src/handoff.c`, `src/negotiation.c`). `Handoff`, `Bitmap`,
  `Negotiation`, `NegotiationCodec`; `Carriage` composes them with the frame codec and with the runs
  of the two peers.
- **Sequence window** (`src/control.c`) in `Sequence`, **lifecycle and active context**
  (`src/link.c`) in `Lifecycle` and `LifecycleRuns`.

`ContactLaws`, `FrameLaws`, `ControlLaws` and `LifecycleLaws` say of every operation when it succeeds,
which refusal it gives for which reason, and what it leaves behind, in the numbers of the headers and
without the definitions the models share.

Words of 8, 16 and 32 bits are numbers with their range; modular subtraction, saturation, shifts
and masks are written out on them. Error returns are values of `Words.Status`, checked in the order
of the source.

## The two-peer models

In `Migration` A offers and commits, B accepts and confirms; the steps of each are the contact
operations. Every message ever sent stays in the network and may be delivered at any time, any
number of times or never, so loss, duplication and reordering need no steps of their own. A received
message is applied as in the table of `spec/link-handoff-control-v0.1.md` section 7: B answers
PATH_CHALLENGE by recording it and completing its own validation with the same bytes, after comparing
both references, which `mcl_contact_validation_begin` does not take. Either peer may abandon whenever
the contact lets it, or close.

Hypotheses, all part of `Migration.Initial` and `Migration.Enabled`: both contacts begin on the same
transport; only A and B send; a migration reference names one offer; B does not record a reference
again once it has left that transaction. The last is a rule for the caller, since a contact remembers
only its latest completed reference. `MigrationReach.RecordingAgainMatters` shows that it cannot be
dropped: without it there are runs that put the peers on different transports with both free to send.

In `Peers` both peers do all of this: either may open the next migration, an offer that meets an
outstanding offer of one's own is resolved as a collision, and only the peer that made an offer
challenges and commits it. The hypotheses are the same, for both.

## Where the source and its documentation disagree

- `include/mcl/link.h:139-143` says an unknown link major is reported as RANGE. The decoder reports
  INCOMPATIBLE_VERSION (`src/link.c:517-530`), for an unknown major and for nothing else
  (`FrameTheorems.UnknownMajorIsIncompatible`).
- `spec/link-handoff-control-v0.1.md:338-340` calls abandonment before COMMIT unconditionally safe,
  and lines 327-330 offer repeating COMMIT as a way out of COMMITTING. The data plane does stay safe,
  but a responder may abandon from VALIDATED after the initiator has committed, and then no number of
  COMMITs gets an answer. `MigrationReach.AbandonmentGuard` gives the guard a caller can check: among
  the phases in which the contact allows it, abandoning strands the initiator in some run if and only
  if the phase is VALIDATED. Seen from the initiator, `MigrationRuns.RecoverableExactly` says that a
  commit can still be completed if and only if the responder has not abandoned that transaction.
  `PeerRecovery.AbandonmentGuard` and `PeerRecovery.RecoverableExactly` are the same for equal roles,
  where the phase counts only for an offer of the other peer: giving up an offer of one's own strands
  nobody.
- `include/mcl/contact.h:264-294` promises that a repeated control succeeds and changes nothing.
  It changes nothing but in one case, `Duplicates.RefReused`: the caller opened a new transaction
  under the reference completed last, and the old message fits its present phase.
  `Duplicates.ReusedReferenceMovesAgain` is a run of that kind, in which an old COMMIT moves the
  contact. That a repeat *succeeds* is not so in general: an OFFER repeated after agreement and a
  PATH_RESPONSE repeated in COMMITTING are refused with INVALID_STATE
  (`Duplicates.LiteralRepeatsAreRefused`). `Duplicates.RepeatSucceedsExactly` gives, for each of the
  six messages and with or without such a reuse, exactly when it does.
- `include/mcl/contact.h:187-206` binds one session reference by the first acceptance, for the life of
  the contact. Each peer binds its own first acceptance. When an acceptance is lost and the other peer
  opens the next migration, the two may bind different references
  (`PeerRuns.SessionsCanPart`), and from then on no migration can complete while both contacts live
  (`PeerRuns.SplitSessionsNeverMove`). Once one migration has completed this can no longer happen
  (`PeerRuns.SessionsAreShared`). `PeerRuns.PartingExactly` says which step parts them, and
  `PeerRuns.PartingGuard` gives the guard an accepting peer can check: accepting while it has bound no
  session can part the sessions if and only if it has made an offer of its own before.
- `tests/test_link_frame.c:382-410` is about single-bit corruption never decoding cleanly, and flips
  the lowest bit of each byte of one frame. As a general promise it holds for every byte but three,
  whatever the flags of the frame: the flags and the two bytes of the length
  (`Corruption.ProtectedBytes`). Of the flags, the reserved bits never get through, the loss of the
  frame-check flag always does, and a presence bit may or may not (`Corruption.FlippedFlags`). Another
  length gets through exactly when it is within the limit and the buffer happens to hold, right
  behind that much payload, the check of the frame so read (`Corruption.AlteredLength`). A smaller
  length finds it in the payload; a greater one in the bytes that follow the frame
  (`Corruption.RaisedLengthIsExposed`), and never when none follow
  (`Corruption.AlteredLengthAtTheEnd`).

## Model

| member | source | states |
|---|---|---|
| ContactRecord.Contact.Begin | src/contact.c:146-168 | Whatever the record held, a begun contact is ACTIVE on its transport, under the given role and own reference, with no peer, session or history; a reserved transport or unknown role is refused and nothing changes |
| ContactRecord.Contact.SetPeerRef | src/contact.c:170-194 | First write wins; the same value again succeeds, another is a mismatch, a closed contact refuses |
| ContactRecord.Contact.RecordOffer | src/contact.c:196-259 | Status and whole new state: a fresh offer from ACTIVE, an identical repeat, or a refusal; never the transport already in use |
| ContactRecord.Contact.ResolveOfferCollision | src/contact.c:261-337 | Status, outcome and whole new state of a collision; a losing peer offer leaves the contact alone |
| ContactRecord.Contact.Agree | src/contact.c:339-400 | Binds the session once; a repeat from any later phase changes nothing; every mismatch is refused |
| ContactRecord.Contact.ValidationBegin | src/contact.c:402-419 | Records the eight challenge bytes from AGREED only |
| ContactRecord.Contact.ValidationResponse | src/contact.c:421-466 | VALIDATED only on both references and all eight bytes; a repeat changes nothing |
| ContactRecord.Contact.ChallengeRepeat | src/contact.c:468-508 | Re-echo exactly for the validated transaction and the same bytes; writes nothing |
| ContactRecord.Contact.ChallengeEquals | src/contact.c:40-50 | The accumulating comparison decides equality of all eight bytes |
| ContactRecord.Contact.SettleCommit | src/contact.c:105-122 | Adopts the candidate, remembers the reference, clears the transaction, saturates the count, and appends one move to the history |
| ContactRecord.Contact.CommitBegin | src/contact.c:510-523 | COMMITTING from VALIDATED only |
| ContactRecord.Contact.CommitConfirm | src/contact.c:525-570 | One completed move from COMMITTING, none on a repeat from ACTIVE |
| ContactRecord.Contact.CommitAccept | src/contact.c:572-606 | One completed move from VALIDATED, checked before anything changes |
| ContactRecord.Contact.CommitRepeat | src/contact.c:608-643 | Reconfirm exactly for the last completed transaction; writes nothing |
| ContactRecord.Contact.AbandonMigration | src/contact.c:645-671 | From a revocable phase only; the session and the history stay |
| ContactRecord.Contact.Close | src/contact.c:673-687 | Unbinds the session and clears the transaction |
| ContactRecord.Contact.ControlTransport | src/contact.c:717-745 | The candidate while a migration is outstanding, and then different from the active transport |
| ContactRecord.Contact.DataTransport | src/contact.c:747-772 | The transport of the last completed move; quiesced exactly in COMMITTING |
| ContactModel.SettleKeepsDigest | src/contact.c:105-122 | Completing the outstanding transaction extends the history by that move, and the fields stay its digest |
| ContactLaws.BegunFields | src/contact.c:146-168 | Each field of a begun contact, and that roles 0 and 1 and every transport but 0 can be begun |
| ContactLaws.PeerRefIsFirstWriteWins | src/contact.c:170-194 | Once set, the same peer reference succeeds and every other one is a mismatch, and none is set outside a live contact |
| ContactLaws.OfferAnswers | src/contact.c:196-259 | Which offers are recorded, and the reason of every refusal, reserved reference, transport and profile included |
| ContactLaws.CollisionAnswers | src/contact.c:261-337 | Who wins a collision by the two keys, what it leaves, and why it is refused outside OFFERED |
| ContactLaws.AgreeAnswers | src/contact.c:339-400 | Which acceptance is taken, in which phases, and whether a refused one is reserved, out of place or for something else |
| ContactLaws.ChallengeAnswers | src/contact.c:402-419 | A challenge is recorded in AGREED and nowhere else |
| ContactLaws.ResponseAnswers | src/contact.c:421-508 | A response, and the repeat of a challenge, count exactly in their phases and with both references and all eight bytes |
| ContactLaws.CommitAnswers | src/contact.c:510-643 | COMMIT, its repeat and the start of committing: phase, references, and every field of the contact that has moved |
| ContactLaws.ConfirmAnswers | src/contact.c:525-570 | The awaited CONFIRM and the repeated one, told apart, and why any other is refused |
| ContactLaws.AbandonAnswers | src/contact.c:645-671 | The four phases that can be given up; the session stays |
| ContactLaws.CloseAnswers | src/contact.c:673-687 | What a closed contact still holds |
| ContactLaws.ControlsGoToTheCandidate | src/contact.c:717-745 | The five phases in which controls go to the candidate |
| ContactLaws.RefusalsChangeNothing | src/contact.c:170-687 | Whatever is refused leaves every field as it was |
| ContactLaws.OwnReferenceIsFixed | src/contact.c:146-687 | In every run the own reference and the role are those of begin |
| ContactLaws.WholeMigration | tests/test_contact.c:193-285 | From begin, each call of a migration succeeds in its place, and initiator and responder end alike |
| ContactLaws.GlareFromBegin | tests/test_contact.c:402-445 | Of two contacts begun under different references the one with the larger wins on both sides, and both keep its offer |
| ContactRuns.HistoryRefinement | src/contact.c:105-122 | In every run: active transport and completed reference are those of the last move, count is min(moves, 65535), and no move stays where it was |
| ContactRuns.SessionOutlivesMigrations | src/contact.c:339-400 | In every run a session reference, once bound, is the same until close, and never comes back after |
| ContactRuns.ClosedIsInert | src/contact.c:673-687 | In every run nothing changes a closed contact |
| ContactRuns.StepAdvances | src/contact.c:196-523 | After any operation that leaves a transaction outstanding, that operation either installed it or moved it on by at most one phase, with exactly the event, arguments and status this takes |
| ContactRuns.NoUnvalidatedMove | src/contact.c:196-606 | In every run, each change of transport is preceded in order by an offer of it, an agreement, a recorded challenge and its exact echo under the same references, the transaction outstanding throughout |
| Duplicates.SecondDelivery | src/contact.c:219-234 | A message already taken changes a contact if and only if the caller reused the completed reference |
| Duplicates.RepeatSucceedsExactly | src/contact.c:196-643 | For each of the six messages, exactly when a repeat of it succeeds: the phases in which it is answered, or a reused reference that makes it a first copy |
| Duplicates.DelayedDuplicatesAreInert | include/mcl/contact.h:264-294 | After any run in which the transaction stays current: exactly when a delayed repeat changes the contact, and exactly when it succeeds, for all six messages |
| Duplicates.LiteralRepeatsAreRefused | include/mcl/contact.h:273-276 | The offer just agreed on and the response just committed on are refused when they come again |
| Duplicates.ReusedReferenceMovesAgain | src/contact.c:196-259 | From every validated contact, a run that completes, reopens the same reference for another transport, and is carried there by the old COMMIT |
| Glare.GlareConverges | src/contact.c:261-337 | Two outstanding offers on one transport: the larger key wins on both sides and both hold its five fields; equal keys leave nothing pending on either |
| Glare.LosersOfferIsSpent | src/contact.c:196-259 | After a glare neither offer, delivered again, moves either side, and the status of each delivery, for any two references |
| Glare.GlareOnDifferentTransports | src/contact.c:318-333 | When the loser already is on the winner's transport it refuses and keeps its own offer; then and only then the two hold different offers |
| Migration.StepKeeps | src/contact.c:196-687 | Every step of the two peers keeps the invariant: message witnesses, the standing of each reference, the histories in step |
| MigrationRuns.Agreement | src/contact.c:510-606 | In every run, until A closes, A's history is a prefix of B's and at most one shorter, and then A is committing exactly B's last move; bound sessions agree |
| MigrationRuns.DataPlaneSafety | src/contact.c:747-772 | In every run with both live, A not quiesced means equal data transports, and A quiesced means B is on A's active or control transport |
| MigrationRuns.MeaningOfCommitting | src/contact.c:87-101 | In every run, when A commits, B has validated that transaction earlier and since then still holds it, has completed it, abandoned it, or closed |
| MigrationRuns.ExitsOfCommitting | src/contact.c:645-671 | In every run A leaves COMMITTING by the matching CONFIRM or by close only |
| MigrationRuns.LostConfirmRecovery | src/contact.c:608-643 | From every reachable lost-CONFIRM state a schedule of at most three steps ends with both on B's transport, B's history untouched |
| MigrationRuns.CommitIsAnswered | src/contact.c:717-745 | A's COMMIT, first or repeated, finds B on the control transport A sends to, and brings out the matching CONFIRM |
| MigrationRuns.Stranded | src/contact.c:645-671 | Once B has abandoned what A is committing, A never changes before it closes |
| MigrationRuns.RecoverableExactly | spec/link-handoff-control-v0.1.md:327-341 | A commit can be completed if and only if B has not abandoned that transaction |
| MigrationRuns.EarlyAbandonNeverStrands | spec/link-handoff-control-v0.1.md:338-341 | In every run, if B abandons from OFFERED or AGREED, A never commits that transaction |
| MigrationReach.MigrationCanComplete | tests/test_contact.c:193-285 | From any two idle peers in any reachable state, any legal migration under a fresh reference can be completed |
| MigrationReach.CommitCanBeStranded | spec/link-handoff-control-v0.1.md:327-341 | From the same states there is a run after which A can do nothing but close |
| MigrationReach.AbandonmentGuard | src/contact.c:95-101 | Of the phases that may be abandoned, a run that strands A exists if and only if B abandons from VALIDATED |
| MigrationReach.RecordingAgainMatters | src/contact.c:196-259 | Recording a finished reference again can put the peers on different transports with both free to send |
| Peers.ActKeeps | src/contact.c:196-687 | In equal roles, whatever either peer does keeps the invariant of the two: message witnesses, whose transaction is outstanding, the histories in step |
| Peers.FirstCommitMeans | src/contact.c:572-606 | A first COMMIT taken comes from a peer committing exactly this transaction from the same history |
| PeerRuns.Agreement | src/contact.c:510-606 | In every run in equal roles, the histories are equal or one peer is committing exactly the move by which the other is ahead |
| PeerRuns.DataPlaneSafety | src/contact.c:747-772 | In every run in equal roles, the peers are never both quiesced, share their transport when neither is, and otherwise the other is on the present or the control transport |
| PeerRuns.CrossedOffersMeet | src/contact.c:261-337 | Offers that cross and both arrive leave both peers with one and the same offer |
| PeerRuns.SessionsAreShared | include/mcl/contact.h:187-206 | Once a migration has completed, or a peer leads one past agreement, both hold one session reference |
| PeerRuns.SessionsCanPart | include/mcl/contact.h:187-206 | From any start, for any two offers and any two references, a run of successful calls after which the peers hold two |
| PeerRuns.PartingExactly | src/contact.c:339-400 | In every run, a step parts the sessions if and only if it is an acceptance by an unbound peer under another reference than the one its live peer has bound; that peer has made an offer before |
| PeerRuns.PartingGuard | src/contact.c:339-400 | Accepting while unbound parts the sessions in some run if and only if the accepting peer has made an offer of its own before |
| PeerRuns.SplitSessionsNeverMove | src/contact.c:339-400 | From then on no migration completes on either side while both live |
| PeerRecovery.LostConfirmRecovery | src/contact.c:608-643 | In equal roles, from every reachable lost-CONFIRM state a schedule of at most three steps settles both on the transport of the peer that is ahead, whatever that peer has begun since, its history untouched |
| PeerRecovery.CommitIsAnswered | src/contact.c:717-745 | In equal roles, a COMMIT finds the other on the control transport it is sent to and brings out the matching CONFIRM |
| PeerRecovery.SettlesWhileHeld | src/contact.c:525-643 | A commit can be completed if and only if the other holds the path it proved or has completed the migration |
| PeerRecovery.RecoverableExactly | spec/link-handoff-control-v0.1.md:327-341 | In equal roles, a commit can be completed if and only if the other has not abandoned that transaction |
| PeerRecovery.AbandonmentGuard | src/contact.c:95-101 | In equal roles, a run in which abandoning strands the other exists if and only if the offer was the other's and the phase is VALIDATED |
| PeerRecovery.EitherCanMigrate | tests/test_contact.c:193-285 | From any idle reachable state, either peer can open the next migration and it can be completed |
| Crc32.ComputeCrc | src/link.c:321-340 | The nested loops compute the register function |
| Crc32.PolynomialIsGenerator | src/link.c:321-340 | The constant is the CRC-32 generator, reflected and without its leading term |
| Crc32.GeneratorExponents | src/link.c:321-340 | The generator has exactly the fifteen terms of section 3.2.9 of IEEE 802.3 |
| Crc32.KnownValues | src/link.c:321-340 | The CRC of nothing, and of four bytes 0xFF: both complements are there |
| Crc32.CrcIsPolynomialRemainder | src/link.c:321-340 | For every byte string a value is the polynomial CRC if and only if the loop returns it |
| Crc32.BurstIsDetected | src/link.c:321-340 | Two messages that differ, but only inside 32 consecutive bits, have different CRCs |
| Crc32.FourBytesAreAWindow | src/link.c:321-340 | Messages that agree outside four consecutive bytes agree outside 32 consecutive bits in transmission order |
| Polynomial.RemainderIsUnique | src/link.c:321-340 | Division by the generator leaves one remainder, so the definition of the CRC determines it |
| FrameCodec.EncodeAtMajor | src/link.c:432-496 | Succeeds exactly for majors 0 and 1, the nine classes that travel, no reserved flag, at most 1024 payload bytes and room for all of it; then the bytes of the frame and nothing beyond; on refusal the buffer untouched |
| FrameCodec.DecodeFrame | src/link.c:498-629 | The advancing decoder returns the verdict, frame and length of the decoding function |
| FrameLaws.Verdicts | src/link.c:498-629 | Each of the four refusals and acceptance, exactly, in numbers |
| FrameLaws.FieldsAreRead | include/mcl/link.h:126-137 | Where every field of an accepted frame lies, most significant byte first, and what is consumed |
| FrameLaws.AcceptedStart | include/mcl/link.h:201-217 | Accepted bytes begin with major 0 or 1, one of the classes 0 to 6, 8 and 9, and no reserved flag |
| FrameLaws.PlainFrameIsAccepted | include/mcl/link.h:201-217 | Conversely each such major and class, with any source and payload, is accepted byte for byte |
| FrameLaws.KeepaliveAndAdapt | tests/test_link_frame.c:144-195 | The empty KEEPALIVE is accepted and the same bytes as ADAPT are refused |
| FrameLaws.EncodableInNumbers | src/link.c:356-388 | Which frames have an encoding, and its size |
| Frame.HeaderIsRead | include/mcl/link.h:126-137 | A buffer starts with the header of a frame if and only if every field is found, in network byte order, at the place its flags give it |
| FrameTheorems.CanonicalBijection | src/link.c:432-629 | A buffer is accepted as frame f with n bytes if and only if f is canonical and those n bytes are its encoding |
| FrameTheorems.RoundTrip | src/link.c:432-629 | Decoding any encoding followed by anything returns the frame, absent fields zeroed, and the encoded size |
| FrameTheorems.VerdictIsStable | src/link.c:498-629 | Appending bytes changes no verdict but TRUNCATED |
| FrameTheorems.PrefixIsTruncated | src/link.c:512-629 | Every strict prefix of an accepted frame is TRUNCATED |
| FrameTheorems.UnknownMajorIsIncompatible | src/link.c:517-530 | A buffer is reported as an incompatible version if and only if it holds eight bytes and an unknown major |
| FrameTheorems.EncodingsArePrefixFree | src/link.c:432-496 | No encoding begins another |
| Corruption.CorruptionIsRefused | src/link.c:615-625 | A checked frame altered within 32 consecutive covered bits, flags and length apart, or only in its check, is never accepted |
| Corruption.ChangedByteIsRefused | tests/test_link_frame.c:382-410 | Any change of one byte of an accepted checked frame, check included, flags and length apart, is refused |
| Corruption.ProtectedBytes | tests/test_link_frame.c:382-410 | For all flags: every change of byte k is refused in every frame if and only if k is neither the flags nor one of the two length bytes |
| Corruption.LostCheckFlagIsAccepted | src/link.c:604-629 | With its frame-check flag cleared, every accepted checked frame is accepted unchecked, four bytes shorter |
| Corruption.FlippedFlags | src/link.c:536-629 | For all flags: a flipped bit is refused in every frame exactly for the reserved bits, and accepted in every frame exactly for the frame-check bit |
| Corruption.BothWaysAreAccepted | src/link.c:615-625 | A byte that decides where a checked frame ends can be given two values under which one buffer is accepted |
| Corruption.AlteredLength | src/link.c:601-629 | Whatever follows the frame, another length is accepted if and only if it is within the limit and the check of the frame so read stands right behind its payload |
| Corruption.AlteredLengthAtTheEnd | src/link.c:601-629 | When nothing follows, only a smaller length is ever accepted, and exactly when the payload holds that check |
| Corruption.RaisedLengthIsExposed | src/link.c:601-629 | For all flags and any bytes between, a buffer that begins with a checked frame and, with one length byte raised, is a longer one to its end |
| Boundary.VanishingEffect | src/link.c:321-340 | A change of the last one to three covered bytes that leaves as many of the last bytes of the check alone is no change, or one pattern of two bytes |
| CheckBoundary.CrossingBurst | src/link.c:615-625 | A change within four consecutive bytes across the boundary of payload and check is accepted if and only if it is 61 D8 before and F4 EE after it |
| Stream.DecodeLoop | tests/test_link_frame.c:432-444 | The receiving loop terminates and takes exactly the frames at the front of the buffer |
| Stream.ChunksDoNotMatter | tests/test_link_frame.c:412-446 | Any byte stream, cut anywhere, gives the frames and the leftover of the whole |
| Stream.StreamIsRecovered | tests/test_link_frame.c:412-446 | Encoded frames, cut anywhere and followed by an incomplete one, are exactly what is received |
| Stream.WaitingOrStuck | src/link.c:498-629 | A receiver goes on only from TRUNCATED; after any other refusal no chunk yields a frame |
| Handoff.EncodeControl | src/handoff.c:74-128 | Succeeds exactly for an encodable control and room for its bytes; INVALID_ARGUMENT exactly when a named control contradicts itself about its challenge; the exact bytes, or the buffer untouched |
| Handoff.DecodeControl | src/handoff.c:130-208 | The verdict and control of the decoding function |
| ControlLaws.HandoffInNumbers | src/handoff.c:46-72 | Operations 1 to 4, their sizes, and which controls have an encoding |
| ControlLaws.HandoffLayout | src/handoff.c:116-128 | Where each byte of a control lies |
| ControlLaws.HandoffEncodeAnswers | src/handoff.c:85-114 | When a control can be encoded, a buffer of exactly its size included, and why not |
| ControlLaws.HandoffDecodeAnswers | src/handoff.c:130-208 | Each verdict on a payload, exactly |
| ControlLaws.BuildersInNumbers | src/handoff.c:210-297 | The operation and challenge of each builder, and what it refuses |
| Handoff.ControlBijection | src/handoff.c:74-208 | A payload is accepted if and only if it is the encoding of a canonical control |
| Handoff.ControlRoundTrip | src/handoff.c:63-208 | Decoding an encoding returns the control, without a stale challenge where none is carried |
| Handoff.ControlFillsItsPayload | src/handoff.c:160-185 | Strict prefixes are TRUNCATED and trailing bytes RANGE |
| Handoff.BuildersMakeCanonicalControls | src/handoff.c:210-297 | The four builders make exactly the canonical controls |
| Negotiation.HighestBit | src/negotiation.c:46-56 | The loop finds the highest set bit, or -1 |
| Negotiation.ComputeSelection | src/negotiation.c:245-295 | OK exactly when there is a selection, and then that one |
| ControlLaws.SelectAnswers | src/negotiation.c:245-295 | A selection there is exactly when both maps share a major of each kind and both limits reach 42 |
| ControlLaws.CheckAnswers | src/negotiation.c:297-354 | The version test in either branch, the statuses there are, and when the weak check passes |
| ControlLaws.BitIsDigit | src/negotiation.c:51 | A bit of a map is a binary digit of it |
| Negotiation.SelectionIsGreatest | src/negotiation.c:245-354 | Selection succeeds if and only if some proposal is legal on both sides, and is then the greatest of them in majors, frame size and features |
| Negotiation.SelectionIsSymmetric | src/negotiation.c:260-266 | Both nodes select the same |
| Negotiation.StrongCheckAcceptsOnlyTheSelection | src/negotiation.c:297-354 | With both advertisements known exactly the selection passes, on either side |
| Bitmap.AndNotIsWithin | src/negotiation.c:349-352 | Masking out leaves zero if and only if one map lies within the other |
| Bitmap.AndIsMeet | src/negotiation.c:267-293 | The intersection is the largest map within both |
| NegotiationCodec.EncodeCapability | src/negotiation.c:88-121 | Status in the order of the source; the nine bytes, or the buffer untouched |
| NegotiationCodec.EncodeProposal | src/negotiation.c:167-202 | Status in the order of the source; the seven bytes, or the buffer untouched |
| NegotiationCodec.CapabilityBijection | src/negotiation.c:88-165 | An advertisement is accepted if and only if it encodes an advertisable capability |
| NegotiationCodec.ProposalBijection | src/negotiation.c:167-243 | A proposal is accepted if and only if it encodes a proposable one |
| ControlLaws.CapabilityLayout | src/negotiation.c:112-117 | Where each field of an advertisement lies |
| ControlLaws.ProposalLayout | src/negotiation.c:193-198 | Where each field of a proposal lies |
| ControlLaws.CapabilityEncodeAnswers | src/negotiation.c:58-110 | What the builder and the encoder refuse, and why |
| ControlLaws.ProposalEncodeAnswers | src/negotiation.c:178-191 | What the encoder of proposals refuses, and why |
| ControlLaws.NegotiationDecodeAnswers | src/negotiation.c:123-243 | Each verdict on both payloads, exactly |
| NegotiationCodec.BuilderMakesAdvertisable | src/negotiation.c:58-121 | The builder makes exactly the capabilities that can be encoded |
| NegotiationCodec.ExchangeHasOneAnswer | src/negotiation.c:88-354 | After two advertisements cross, one byte string at most is accepted as a proposal by either side: the encoding of the common selection |
| Carriage.ControlFits | include/mcl/negotiation.h:57-72 | Every handoff control with any optional fields fits the floor, and one combination fills it, so the floor is tight |
| Carriage.ComposedCarriage | src/handoff.c:63-208 | Over every negotiated link, any frame around any encodable control fits and is read back as that control |
| Carriage.EveryMessageCanBeSent | src/handoff.c:210-297 | In every run of the two peers, every handoff message sent can be built |
| Carriage.EveryMessageIsCarried | src/link.c:432-629 | In every run, every such message fits every negotiated link and is read back from its frame |
| Carriage.EveryPeerMessageIsCarried | src/link.c:432-629 | The same in every run in equal roles |
| Carriage.StreamCarriesMessages | tests/test_link_frame.c:412-446 | A stream of such frames in any chunks yields the messages in order |
| Sequence.LiveExactlyInWindow | src/control.c:258-282 | Within one turn of the counter the test is live exactly for the last 16384 frames |
| Sequence.WindowIsUnambiguous | include/mcl/control.h:202-237 | Two frames of one window never share their 16 bits |
| Sequence.LiveNamesAFrame | src/control.c:258-282 | The acknowledged bits name one ordinal of the last turn, and are live if and only if it is in the window |
| Sequence.StaleIsMistakenExactly | src/control.c:258-282 | Exactly which older acknowledgements are mistaken for live ones |
| Sequence.LiveIsSerialOrder | include/mcl/control.h:202-237 | Live implies equal or earlier, and not later, under section 3.2 of RFC 1982 |
| Sequence.SequenceIsLive | src/control.c:258-282 | The modulo-65536 subtraction of the source decides that test |
| Lifecycle.ContextKeyEquals | src/link.c:81-113 | The byte loop decides key equality; a key of illegal size equals nothing |
| Lifecycle.EqualExactlyWhenStoredAlike | src/link.c:81-158 | Keys are equal if and only if both are legal and are stored identically |
| Lifecycle.Link.constructor | src/link.c:53-67 | A new link is IDLE without a context |
| Lifecycle.Link.Init | src/link.c:53-67 | Whole new state: IDLE, no context, the given majors |
| Lifecycle.Link.Reset | src/link.c:69-79 | Whole new state: IDLE, no context, majors kept |
| Lifecycle.Link.InstallContext | src/link.c:115-158 | Succeeds exactly in the six open states for a key of a supported major below 16 and a size of 1 to 32, whatever context is held; the key is then authorised; otherwise no change |
| Lifecycle.Link.AuthorizeContext | src/link.c:160-177 | No active context, mismatch, or OK, as the key compares |
| Lifecycle.Link.Transition | src/link.c:179-303 | Legal exactly along the table of successors; clears the context where the source does; otherwise no change |
| LifecycleLaws.EdgesIntoEachState | src/link.c:179-303 | The states each state is entered from, and what the entry leaves of majors and context |
| LifecycleLaws.InitAndReset | src/link.c:53-79 | Every field after init and after reset, which keeps the majors |
| LifecycleLaws.ForwardPath | src/link.c:187-231 | From init, DISCOVERED, CAPABILITIES, NEGOTIATING and ESTABLISHED succeed in a row |
| LifecycleLaws.EstablishedTheWholeWay | src/link.c:186-296 | In every run a link in ESTABLISHED, ADAPTING, HANDOFF or FALLBACK has entered CAPABILITIES, NEGOTIATING and ESTABLISHED in that order since it last was in DISCOVERED |
| LifecycleLaws.KeysByField | src/link.c:81-113 | Key equality field by field and byte by byte |
| LifecycleLaws.InstallAnswers | src/link.c:115-158 | When a key is installed, and the reason of each refusal |
| LifecycleLaws.InstallReplaces | tests/test_link.c:95-114 | An installation replaces whatever context was held, authorises the new key and no other |
| Lifecycle.Link.HasActiveContext | src/link.c:305-315 | True exactly when some key would be authorised, which is never in IDLE, DISCOVERED or CLOSED |
| LifecycleRuns.ContextIsSound | src/link.c:115-303 | In every run: no context in IDLE, DISCOVERED or CLOSED, none of an unsupported major, and nothing of an earlier digest behind the present one |
| LifecycleRuns.InForceIsUnique | src/link.c:115-158 | At most one installation is in force |
| LifecycleRuns.AuthorizationAgreesWithHistory | src/link.c:53-303 | In every run a key is authorised if and only if it equals that of the last successful installation with no entry to IDLE, DISCOVERED or CLOSED since |

## Left out

- The ACK, NACK, CLOSE and KEEPALIVE codecs, `src/endpoint_rendezvous.c`, and the getters `mcl_contact_active_transport` and `mcl_contact_migration_active`: short and fixed, they would add only easy members.
- `tools/`, the registries and the test vectors: input, output and data.
- NULL arguments and volatile destinations: the model has no null references.
- Borrowing of the payload: a decoded frame holds its payload as a value, not as a view of the caller's buffer, and encoders do not alias input and output.
- Output structures after a failed decode: the source writes fields before later checks, and nothing is claimed about them.
- Enumeration values outside their range in a link or contact record: those records are only written by the operations modelled.
- Clocks: expiry of an offer is the caller's abandon, which may happen at any time.
- Dishonest senders, identity and cryptography: peers are honest, the network is faulty.
- The rule that a handoff control is accepted only on the control transport (`src/contact.c:717-745`): the two-peer model delivers messages regardless of transport, which allows more runs than the rule does. That repairs respect the rule is part of `CommitIsAnswered`.
- The wire forms of TRANSPORT_OFFER and TRANSPORT_ACCEPT: the core files do not encode them, so offers and acceptances travel as values.
- The node layer and the rule that crosses links with contacts (`spec/link-contact-ownership-v0.1.md`): not part of this model.
- TRUNCATED as a promise that a buffer can be completed: below eight bytes the decoder reports it before looking at any byte, so only the other directions hold.
- Peer references: `mcl_contact_set_peer_ref` is an operation of the one-contact runs, not a step of the two-peer models; a collision compares the references the contacts were begun with.
