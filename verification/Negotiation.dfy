/** src/negotiation.c: choosing what two nodes will use from what each says it supports. */
module Negotiation {
  import opened Words
  import Frame
  import Handoff
  import opened Bitmap

  const CONTROL_VERSION: u8 := 0

  /** The smallest frame limit anyone may advertise: the largest handoff control, with every
      optional field, must fit. */
  const FRAME_FLOOR: nat := Frame.MIN_SIZE + Frame.MAX_OPTIONAL + Handoff.MAX_SIZE

  /** What a node supports. The majors and the features are bitmaps. */
  datatype Capability = Capability(version: u8, wireMajors: u16, linkMajors: u16, maxFrame: u16, features: u16)

  /** What two nodes will use. */
  datatype Selection = Selection(version: u8, wireMajor: u8, linkMajor: u8, maxFrame: u16, features: u16)

  /** Index of the highest set bit below n, or -1. */
  function HighestBelow(mask: u16, n: nat): (index: int)
    ensures -1 <= index < n
    ensures index >= 0 ==> Bit(mask, index)
    ensures forall j :: index < j < n ==> !Bit(mask, j)
  {
    if n == 0 then -1 else if Bit(mask, n - 1) then n - 1 else HighestBelow(mask, n - 1)
  }

  method HighestBit(mask: u16) returns (index: int)
    ensures index == HighestBelow(mask, 16)
  {
    index := 15;
    while index >= 0
      invariant -1 <= index < 16
      invariant HighestBelow(mask, 16) == HighestBelow(mask, index + 1)
    {
      if Bit(mask, index) {
        return;
      }
      index := index - 1;
    }
  }

  function Min(a: u16, b: u16): u16 {
    if a < b then a else b
  }

  /** The selection, when the two have something in common. */
  function Select(local: Capability, peer: Capability): Option<Selection> {
    var wire := HighestBelow(And(local.wireMajors, peer.wireMajors), 16);
    var link := HighestBelow(And(local.linkMajors, peer.linkMajors), 16);
    var frame := Min(local.maxFrame, peer.maxFrame);
    if wire < 0 || link < 0 || frame < FRAME_FLOOR then None
    else Some(Selection(CONTROL_VERSION, wire, link, frame, And(local.features, peer.features)))
  }

  method ComputeSelection(local: Capability, peer: Capability) returns (status: Status, selection: Selection)
    ensures status == if Select(local, peer).Some? then Ok else Range
    ensures status == Ok ==> Select(local, peer) == Some(selection)
  {
    selection := Selection(0, 0, 0, 0, 0);
    var wire := HighestBit(And(local.wireMajors, peer.wireMajors));
    var link := HighestBit(And(local.linkMajors, peer.linkMajors));
    if wire < 0 || link < 0 { return Range, selection; }
    var frame := if local.maxFrame < peer.maxFrame then local.maxFrame else peer.maxFrame;
    if frame < FRAME_FLOOR { return Range, selection; }
    return Ok, Selection(CONTROL_VERSION, wire, link, frame, And(local.features, peer.features));
  }

  /** Is a proposal acceptable here? With the peer's advertisement the answer is known; without
      it only legality at this node can be. */
  function Check(p: Selection, local: Capability, peer: Option<Capability>): Status {
    if p.version != CONTROL_VERSION then IncompatibleVersion
    else if p.wireMajor > 15 || p.linkMajor > 15 then Range
    else if peer.Some? then
      match Select(local, peer.value)
      case None => Range
      case Some(expected) =>
        if p.wireMajor != expected.wireMajor || p.linkMajor != expected.linkMajor
           || p.maxFrame != expected.maxFrame || p.features != expected.features
        then Range else Ok
    else if !Bit(local.wireMajors, p.wireMajor) then Range
    else if !Bit(local.linkMajors, p.linkMajor) then Range
    else if p.maxFrame > local.maxFrame || p.maxFrame < FRAME_FLOOR then Range
    else if AndNot(p.features, local.features) != 0 then Range
    else Ok
  }

  /** The proposal passes the weak check on both sides. */
  predicate LegalForBoth(p: Selection, local: Capability, peer: Capability) {
    Check(p, local, None) == Ok && Check(p, peer, None) == Ok
  }

  /** One proposal asks for no more than another. */
  ghost predicate Below(p: Selection, q: Selection) {
    && p.wireMajor <= q.wireMajor && p.linkMajor <= q.linkMajor
    && p.maxFrame <= q.maxFrame && Within(p.features, q.features, WIDTH)
  }

  lemma LegalIsBelow(p: Selection, local: Capability, peer: Capability)
    requires LegalForBoth(p, local, peer)
    ensures Select(local, peer).Some? && Below(p, Select(local, peer).value)
  {
    BitOfAnd(local.wireMajors, peer.wireMajors, WIDTH, p.wireMajor);
    BitOfAnd(local.linkMajors, peer.linkMajors, WIDTH, p.linkMajor);
    AndNotIsWithin(p.features, local.features);
    AndNotIsWithin(p.features, peer.features);
    AndIsMeet(p.features, local.features, peer.features);
  }

  lemma SelectionIsLegal(local: Capability, peer: Capability)
    requires Select(local, peer).Some?
    ensures LegalForBoth(Select(local, peer).value, local, peer)
  {
    var s := Select(local, peer).value;
    BitOfAnd(local.wireMajors, peer.wireMajors, WIDTH, s.wireMajor);
    BitOfAnd(local.linkMajors, peer.linkMajors, WIDTH, s.linkMajor);
    AndNotIsWithin(s.features, local.features);
    AndNotIsWithin(s.features, peer.features);
    AndIsMeet(s.features, local.features, peer.features);
  }

  /** Negotiation finds the greatest common proposal: it succeeds exactly when some proposal is
      legal on both sides, and then its result is legal on both sides and above every other
      such proposal in both majors, the frame size and the features. */
  lemma SelectionIsGreatest(local: Capability, peer: Capability)
    ensures Select(local, peer).Some? <==> exists p :: LegalForBoth(p, local, peer)
    ensures Select(local, peer).Some? ==> LegalForBoth(Select(local, peer).value, local, peer)
    ensures forall p :: LegalForBoth(p, local, peer) ==>
                          Select(local, peer).Some? && Below(p, Select(local, peer).value)
  {
    if Select(local, peer).Some? {
      SelectionIsLegal(local, peer);
    }
    forall p | LegalForBoth(p, local, peer)
      ensures Select(local, peer).Some? && Below(p, Select(local, peer).value)
    {
      LegalIsBelow(p, local, peer);
    }
  }

  /** Two nodes that each select from the same two advertisements select the same. */
  lemma SelectionIsSymmetric(local: Capability, peer: Capability)
    ensures Select(local, peer) == Select(peer, local)
  {
    AndCommutes(local.wireMajors, peer.wireMajors, WIDTH);
    AndCommutes(local.linkMajors, peer.linkMajors, WIDTH);
    AndCommutes(local.features, peer.features, WIDTH);
  }

  /** Knowing both advertisements, one proposal passes: the selection. It therefore passes the
      weak check of either node too. */
  lemma StrongCheckAcceptsOnlyTheSelection(p: Selection, local: Capability, peer: Capability)
    ensures Check(p, local, Some(peer)) == Ok <==> Select(local, peer) == Some(p)
    ensures Check(p, local, Some(peer)) == Check(p, peer, Some(local))
    ensures Check(p, local, Some(peer)) == Ok ==> LegalForBoth(p, local, peer)
  {
    SelectionIsSymmetric(local, peer);
    if Select(local, peer).Some? {
      SelectionIsLegal(local, peer);
    }
  }
}
