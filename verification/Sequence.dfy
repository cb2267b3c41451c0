/** src/control.c, mcl_link_sequence_is_live: which 16-bit sequence numbers may still be
    awaiting acknowledgement, against the unbounded count of frames sent. */
module Sequence {
  import opened Words

  const SPACE: int := 0x1_0000
  const WINDOW_MAX: int := 16384

  /** The modulo-65536 distance from the acknowledged number up to the highest sent. */
  function Distance(highest: u16, acked: u16): u16 {
    (highest - acked) % SPACE
  }

  predicate IsLive(highest: u16, acked: u16) {
    Distance(highest, acked) < WINDOW_MAX
  }

  /** The 16 bits a frame carries. */
  function Wire(ordinal: nat): u16 {
    ordinal % SPACE
  }

  /** Frame i may be outstanding when frame n is the newest. */
  predicate InWindow(n: nat, i: nat) {
    i <= n < i + WINDOW_MAX
  }

  lemma SameResidue(x: int, y: int, k: int)
    requires x == k * SPACE + y
    ensures x % SPACE == y % SPACE
  {
  }

  /** Among frames less than one turn of the counter apart, the test says exactly which are in
      the window. */
  lemma LiveExactlyInWindow(n: nat, i: nat)
    requires i <= n < i + 65536
    ensures IsLive(Wire(n), Wire(i)) <==> n < i + 16384
    ensures InWindow(n, i) <==> n < i + 16384
  {
  }

  /** Two frames of one window never carry the same 16 bits, so a live acknowledgement names
      one frame. */
  lemma WindowIsUnambiguous(n: nat, i: nat, j: nat)
    requires InWindow(n, i) && InWindow(n, j) && Wire(i) == Wire(j)
    ensures i == j
  {
  }

  /** The test is live exactly when some frame of the window carries the acknowledged bits;
      before the first 16384 frames are sent it also passes bits no frame has carried yet. */
  lemma LiveNamesAFrame(n: nat, acked: u16) returns (i: int)
    ensures IsLive(Wire(n), acked) <==> n - 16384 < i <= n
    ensures i % 65536 == acked && n - 65536 < i <= n
    ensures i >= 0 || n < SPACE
  {
    var d: int := Distance(Wire(n), acked);
    i := n - d;
    var k := (Wire(n) - acked - d) / SPACE;
    assert Wire(n) - acked - d == k * SPACE by {
      var y: int := Wire(n) - acked;
      assert y / SPACE * SPACE + y % SPACE == y;
      assert y - d == y / SPACE * SPACE;
      assert (y / SPACE * SPACE) / SPACE == y / SPACE;
    }
    SameResidue(i, acked, n / SPACE + k);
  }

  /** An acknowledgement delayed past a whole turn is mistaken for a recent one exactly when its
      frame lies a whole number of turns, and less than a window, behind. */
  lemma StaleIsMistakenExactly(n: nat, i: nat)
    requires i <= n
    ensures IsLive(Wire(n), Wire(i)) && !InWindow(n, i) <==> n - i >= SPACE && (n - i) % SPACE < WINDOW_MAX
  {
  }

  /** Section 3.2 of RFC 1982 with SERIAL_BITS = 16. */
  predicate SerialBefore(s: u16, t: u16) {
    (s < t && t - s < 0x8000) || (s > t && s - t > 0x8000)
  }

  /** A live number is the highest sent or comes before it, and never after: the window stays
      inside the half of the space where the comparison of RFC 1982 is defined. */
  lemma LiveIsSerialOrder(highest: u16, acked: u16)
    requires IsLive(highest, acked)
    ensures acked == highest || SerialBefore(acked, highest)
    ensures !SerialBefore(highest, acked)
  {
  }

  method SequenceIsLive(highest: u16, acked: u16) returns (live: bool)
    ensures live == IsLive(highest, acked)
  {
    var distance: u16 := (highest - acked + SPACE) % SPACE;
    SameResidue(highest - acked + SPACE, highest - acked, 1);
    live := distance < WINDOW_MAX;
  }
}
