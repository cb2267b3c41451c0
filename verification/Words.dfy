/** Fixed-width words and the status codes shared by every Link operation.

    A word is a number with its range written out; wrap-around, saturation and the bit
    operations of the source are spelled out where they are used. */
module Words {
  type u8 = x: int | 0 <= x < 0x100
  type u16 = x: int | 0 <= x < 0x1_0000
  type u32 = x: int | 0 <= x < 0x1_0000_0000

  datatype Option<+T> = None | Some(value: T)

  /** include/mcl/link.h, mcl_link_status_t */
  datatype Status =
    | Ok
    | InvalidArgument
    | Range
    | IncompatibleVersion
    | ContextMismatch
    | NoActiveContext
    | InvalidState
    | FrameCheck
    | Truncated

  const CHALLENGE_SIZE: nat := 8

  /** Eight opaque bytes supplied by the caller for path validation. */
  type Challenge = s: seq<u8> | |s| == CHALLENGE_SIZE witness [0, 0, 0, 0, 0, 0, 0, 0]

  const ZERO_CHALLENGE: Challenge := [0, 0, 0, 0, 0, 0, 0, 0]

  const COUNT_MAX: u16 := 0xFFFF

  function ZeroBytes(n: nat): (s: seq<u8>)
    ensures |s| == n && forall i :: 0 <= i < n ==> s[i] == 0
  {
    seq(n, _ => 0)
  }
}
