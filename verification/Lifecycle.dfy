/** The link lifecycle of src/link.c: nine states, and one active context that decides which
    compressed traffic may be decoded. */
module Lifecycle {
  import opened Words
  import Bitmap

  const DIGEST_MAX: nat := 32

  datatype Phase =
    | Idle | Discovered | Capabilities | Negotiating | Established | Adapting | Handoff | Fallback | Closed

  type Digest = s: seq<u8> | |s| == DIGEST_MAX witness ZeroBytes(DIGEST_MAX)

  /** The first `size` bytes of the digest are meant. */
  datatype ContextKey = ContextKey(wireMajor: u8, contextId: u32, generation: u32, digest: Digest, size: u8)

  const NO_CONTEXT: ContextKey := ContextKey(0, 0, 0, ZeroBytes(DIGEST_MAX), 0)

  datatype LinkState = LinkState(phase: Phase, contextValid: bool, context: ContextKey, wireMajors: u16)

  // ---- What each operation returns and leaves behind ------------------------------

  predicate WellSized(key: ContextKey) {
    0 < key.size as int <= DIGEST_MAX
  }

  /** Equality of two keys, bytes behind the digest left aside; a key of no size or too large a
      size equals nothing. */
  predicate KeyEquals(a: ContextKey, b: ContextKey) {
    && WellSized(a) && WellSized(b)
    && a.wireMajor == b.wireMajor && a.contextId == b.contextId && a.generation == b.generation
    && a.size == b.size && a.digest[..a.size] == b.digest[..b.size]
  }

  /** The key as it is kept: nothing of an earlier digest behind a shorter one. */
  function Stored(key: ContextKey): ContextKey
    requires WellSized(key)
  {
    key.(digest := key.digest[..key.size] + ZeroBytes(DIGEST_MAX - key.size))
  }

  function Initialized(wireMajors: u16): LinkState {
    LinkState(Idle, false, NO_CONTEXT, wireMajors)
  }

  function Forget(s: LinkState): LinkState {
    s.(contextValid := false, context := NO_CONTEXT)
  }

  function AfterReset(s: LinkState): LinkState {
    Forget(s.(phase := Idle))
  }

  function InstallStatus(s: LinkState, key: ContextKey): Status {
    if s.phase == Idle || s.phase == Discovered || s.phase == Closed then InvalidState
    else if key.wireMajor > 15 || !WellSized(key) then Range
    else if !Bitmap.Bit(s.wireMajors, key.wireMajor) then IncompatibleVersion
    else Ok
  }

  function Install(s: LinkState, key: ContextKey): LinkState {
    if InstallStatus(s, key) == Ok then s.(contextValid := true, context := Stored(key)) else s
  }

  function Authorize(s: LinkState, key: ContextKey): Status {
    if !s.contextValid then NoActiveContext
    else if KeyEquals(s.context, key) then Ok
    else ContextMismatch
  }

  function Successors(p: Phase): set<Phase> {
    match p
    case Idle => {Discovered, Closed}
    case Discovered => {Capabilities, Idle, Closed}
    case Capabilities => {Negotiating, Idle, Closed}
    case Negotiating => {Established, Idle, Closed}
    case Established => {Adapting, Handoff, Fallback, Idle, Closed}
    case Adapting => {Established, Handoff, Fallback, Idle, Closed}
    case Handoff => {Established, Idle, Closed}
    case Fallback => {Established, Discovered, Idle, Closed}
    case Closed => {Idle}
  }

  /** The transitions that clear the context. */
  predicate Clears(from: Phase, to: Phase) {
    to == Idle || to == Closed || (from == Fallback && to == Discovered)
  }

  function AfterTransition(s: LinkState, to: Phase): LinkState {
    if to !in Successors(s.phase) then s
    else if Clears(s.phase, to) then Forget(s.(phase := to))
    else s.(phase := to)
  }

  /** The states in which a link may hold a context. */
  predicate MayHold(p: Phase) {
    p != Idle && p != Discovered && p != Closed
  }

  /** What a held context is: held in the right states, kept clean, of a supported major. */
  predicate Sound(s: LinkState) {
    if s.contextValid then
      && MayHold(s.phase)
      && WellSized(s.context) && Stored(s.context) == s.context
      && s.context.wireMajor < 16 && Bitmap.Bit(s.wireMajors, s.context.wireMajor)
    else s.context == NO_CONTEXT
  }

  method ContextKeyEquals(a: ContextKey, b: ContextKey) returns (same: bool)
    ensures same == KeyEquals(a, b)
  {
    if a.size == 0 || a.size > DIGEST_MAX || b.size == 0 || b.size > DIGEST_MAX { return false; }
    if a.wireMajor != b.wireMajor || a.contextId != b.contextId || a.generation != b.generation
       || a.size != b.size { return false; }
    for i := 0 to a.size
      invariant a.digest[..i] == b.digest[..i]
    {
      if a.digest[i] != b.digest[i] {
        assert a.digest[..a.size][i] != b.digest[..b.size][i];
        return false;
      }
    }
    return true;
  }

  /** Two keys are equal exactly when both have a legal size and are kept alike. */
  lemma EqualExactlyWhenStoredAlike(a: ContextKey, b: ContextKey)
    ensures KeyEquals(a, b) <==> WellSized(a) && WellSized(b) && Stored(a) == Stored(b)
    ensures WellSized(a) ==> KeyEquals(Stored(a), a)
  {
  }

  /** The link record, its context kept in place. */
  class Link {
    var phase: Phase
    var contextValid: bool
    var wireMajor: u8
    var contextId: u32
    var generation: u32
    var size: u8
    const digest: array<u8>
    var wireMajors: u16

    ghost predicate Sized()
      reads this
    {
      digest.Length == DIGEST_MAX
    }

    ghost predicate Valid()
      reads this, digest
    {
      Sized() && Sound(View())
    }

    function Active(): ContextKey
      requires Sized()
      reads this, digest
    {
      ContextKey(wireMajor, contextId, generation, digest[..], size)
    }

    function View(): LinkState
      requires Sized()
      reads this, digest
    {
      LinkState(phase, contextValid, Active(), wireMajors)
    }

    constructor (supported: u16)
      ensures Valid() && fresh(digest) && View() == Initialized(supported)
    {
      phase, contextValid, wireMajors := Phase.Idle, false, supported;
      wireMajor, contextId, generation, size := 0, 0, 0, 0;
      digest := new u8[DIGEST_MAX](_ => 0);
      new;
      assert digest[..] == ZeroBytes(DIGEST_MAX);
    }

    method ZeroFrom(start: nat)
      requires Sized() && start <= DIGEST_MAX
      modifies digest
      ensures digest[..] == old(digest[..start]) + ZeroBytes(DIGEST_MAX - start)
    {
      for i := start to DIGEST_MAX
        invariant digest[..start] == old(digest[..start])
        invariant forall k :: start <= k < i ==> digest[k] == 0
      {
        digest[i] := 0;
      }
    }

    method ClearContext()
      requires Sized()
      modifies this, digest
      ensures Valid() && View() == Forget(old(View()))
    {
      contextValid := false;
      wireMajor, contextId, generation, size := 0, 0, 0, 0;
      ZeroFrom(0);
      assert digest[..] == ZeroBytes(DIGEST_MAX);
    }

    /** Whatever the record held before. */
    method Init(supported: u16)
      requires Sized()
      modifies this, digest
      ensures Valid() && View() == Initialized(supported)
    {
      phase := Phase.Idle;
      wireMajors := supported;
      ClearContext();
    }

    method Reset()
      requires Sized()
      modifies this, digest
      ensures Valid() && View() == AfterReset(old(View()))
    {
      phase := Phase.Idle;
      ClearContext();
    }

    method InstallContext(key: ContextKey) returns (status: Status)
      requires Valid()
      modifies this, digest
      ensures Valid() && status == InstallStatus(old(View()), key)
      ensures View() == Install(old(View()), key)
      ensures status == Ok <==>
              && old(phase) != Phase.Idle && old(phase) != Phase.Discovered && old(phase) != Phase.Closed
              && key.wireMajor <= 15 && 0 < key.size as int <= 32 && Bitmap.Bit(old(wireMajors), key.wireMajor)
      ensures status == Ok ==> contextValid && Authorize(View(), key) == Ok
    {
      if phase == Phase.Idle || phase == Phase.Discovered || phase == Phase.Closed { return InvalidState; }
      if key.wireMajor > 15 { return Range; }
      if key.size == 0 || key.size > DIGEST_MAX { return Range; }
      if !Bitmap.Bit(wireMajors, key.wireMajor) { return IncompatibleVersion; }
      wireMajor, contextId, generation, size := key.wireMajor, key.contextId, key.generation, key.size;
      for i := 0 to key.size
        modifies digest
        invariant forall k :: 0 <= k < i ==> digest[k] == key.digest[k]
      {
        digest[i] := key.digest[i];
      }
      assert digest[..key.size] == key.digest[..key.size];
      ZeroFrom(key.size);
      contextValid := true;
      return Ok;
    }

    method AuthorizeContext(key: ContextKey) returns (status: Status)
      requires Valid()
      ensures status == Authorize(View(), key)
    {
      if !contextValid { return NoActiveContext; }
      var same := ContextKeyEquals(Active(), key);
      return if same then Ok else ContextMismatch;
    }

    /** Whether some key would be authorised now, which no link is in IDLE, DISCOVERED or CLOSED. */
    method HasActiveContext() returns (has: bool)
      requires Valid()
      ensures has <==> exists key :: Authorize(View(), key) == Ok
      ensures has ==> MayHold(phase)
    {
      assert contextValid ==> Authorize(View(), Active()) == Ok;
      return contextValid;
    }

    /** The switch of the source, one arm a state. */
    method Transition(next: Phase) returns (status: Status)
      requires Valid()
      modifies this, digest
      ensures Valid() && status == if next in Successors(old(phase)) then Ok else InvalidState
      ensures View() == AfterTransition(old(View()), next)
    {
      var legal, clears := false, next == Phase.Idle || next == Phase.Closed;
      match phase {
        case Idle => legal := next == Phase.Discovered || next == Phase.Closed;
        case Discovered => legal := next == Phase.Capabilities || clears;
        case Capabilities => legal := next == Phase.Negotiating || clears;
        case Negotiating => legal := next == Phase.Established || clears;
        case Established =>
          legal := next == Phase.Adapting || next == Phase.Handoff || next == Phase.Fallback || clears;
        case Adapting =>
          legal := next == Phase.Established || next == Phase.Handoff || next == Phase.Fallback || clears;
        case Handoff => legal := next == Phase.Established || clears;
        case Fallback =>
          clears := clears || next == Phase.Discovered;
          legal := next == Phase.Established || clears;
        case Closed => legal := next == Phase.Idle;
      }
      if !legal { return InvalidState; }
      phase := next;
      if clears { ClearContext(); }
      return Ok;
    }
  }
}
