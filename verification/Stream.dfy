/** A stream carriage: bytes arrive in chunks of any size, frames are taken off the front as
    soon as they are complete (tests/test_link_frame.c, test_stream_of_frames). */
module Stream {
  import opened Words
  import opened Frame
  import opened FrameCodec
  import opened FrameTheorems

  datatype Taken = Taken(frames: seq<Frame>, rest: seq<u8>)

  lemma Progress(s: seq<u8>, f: Frame, n: nat)
    requires Decode(s) == Decoded(f, n)
    ensures 0 < n <= |s|
  {
  }

  /** Every frame at the front of a buffer, and the bytes after the last of them. */
  function Drain(s: seq<u8>): (r: Taken)
    ensures |r.rest| <= |s|
    ensures Decode(r.rest).Refused?
    decreases |s|
  {
    match Decode(s)
    case Refused(_) => Taken([], s)
    case Decoded(f, n) =>
      Progress(s, f, n);
      var r := Drain(s[n..]);
      Taken([f] + r.frames, r.rest)
  }

  /** Frames already taken, in front of what the rest of the buffer gives. */
  function After(frames: seq<Frame>, r: Taken): Taken {
    Taken(frames + r.frames, r.rest)
  }

  lemma Regroup(frames: seq<Frame>, more: seq<Frame>, r: Taken)
    ensures After(frames, After(more, r)) == After(frames + more, r)
  {
  }

  lemma OneMore(s: seq<u8>, f: Frame, n: nat)
    requires Decode(s) == Decoded(f, n)
    ensures 0 < n <= |s| && Drain(s) == After([f], Drain(s[n..]))
  {
  }

  lemma NoMore(frames: seq<Frame>, s: seq<u8>)
    requires Decode(s).Refused?
    ensures After(frames, Drain(s)) == Taken(frames, s)
  {
  }

  /** The decode loop of the source over one buffer. */
  method DecodeLoop(s: seq<u8>) returns (frames: seq<Frame>, pos: nat)
    ensures pos <= |s| && Drain(s) == Taken(frames, s[pos..])
  {
    frames, pos := [], 0;
    assert s[0..] == s && [] + Drain(s).frames == Drain(s).frames;
    while pos < |s|
      invariant pos <= |s| && Drain(s) == After(frames, Drain(s[pos..]))
    {
      var status, f, n := DecodeFrame(s[pos..]);
      if status != Ok {
        NoMore(frames, s[pos..]);
        return;
      }
      OneMore(s[pos..], f, n);
      Regroup(frames, [f], Drain(s[pos..][n..]));
      assert s[pos..][n..] == s[pos + n..];
      frames, pos := frames + [f], pos + n;
    }
    NoMore(frames, s[pos..]);
  }

  /** What arrived so far, cut into frames as far as it goes, and kept for the next chunk. */
  function Arrive(r: Taken, chunk: seq<u8>): Taken {
    var next := Drain(r.rest + chunk);
    Taken(r.frames + next.frames, next.rest)
  }

  function ArriveAll(r: Taken, chunks: seq<seq<u8>>): Taken {
    if chunks == [] then r else Arrive(ArriveAll(r, chunks[..|chunks| - 1]), chunks[|chunks| - 1])
  }

  function Concat(chunks: seq<seq<u8>>): seq<u8> {
    if chunks == [] then [] else Concat(chunks[..|chunks| - 1]) + chunks[|chunks| - 1]
  }

  /** Taking off what is complete first makes no difference. */
  lemma {:induction false} DrainInTwo(s: seq<u8>, t: seq<u8>)
    ensures Drain(s + t) == Arrive(Drain(s), t)
    decreases |s|
  {
    if Decode(s).Refused? {
      NoMore([], s);
      assert [] + Drain(s).frames == Drain(s).frames && [] + Drain(s + t).frames == Drain(s + t).frames;
    } else {
      var f, n := Decode(s).frame, Decode(s).consumed;
      OneMore(s, f, n);
      VerdictIsStable(s, t);
      OneMore(s + t, f, n);
      assert (s + t)[n..] == s[n..] + t;
      DrainInTwo(s[n..], t);
      Regroup([f], Drain(s[n..]).frames, Drain(Drain(s[n..]).rest + t));
    }
  }

  /** Chunk independence, for every byte stream, well formed or not: however it is cut, the
      frames taken and the bytes left over are those of the whole stream at once. */
  lemma {:induction false} ChunksDoNotMatter(chunks: seq<seq<u8>>)
    ensures ArriveAll(Taken([], []), chunks) == Drain(Concat(chunks))
  {
    if chunks != [] {
      var before := chunks[..|chunks| - 1];
      ChunksDoNotMatter(before);
      DrainInTwo(Concat(before), chunks[|chunks| - 1]);
    }
  }

  predicate AllCanonical(frames: seq<Frame>) {
    forall i :: 0 <= i < |frames| ==> Canonical(frames[i])
  }

  function EncodeAll(frames: seq<Frame>): seq<u8>
    requires AllCanonical(frames)
  {
    if frames == [] then []
    else Encoded(frames[0], frames[0].major) + EncodeAll(frames[1..])
  }

  lemma FirstComesOff(f: Frame, rest: seq<u8>)
    requires Canonical(f)
    ensures Drain(Encoded(f, f.major) + rest) == After([f], Drain(rest))
  {
    var first := Encoded(f, f.major);
    var s := first + rest;
    EncodedHasItsSize(f, f.major);
    assert s[..|first|] == first && s[|first|..] == rest;
    EncodingIsAccepted(s, f);
    OneMore(s, f, |first|);
  }

  lemma FirstInFront(frames: seq<Frame>, tail: seq<u8>)
    requires frames != [] && AllCanonical(frames)
    ensures EncodeAll(frames) + tail == Encoded(frames[0], frames[0].major) + (EncodeAll(frames[1..]) + tail)
  {
    Associates(Encoded(frames[0], frames[0].major), EncodeAll(frames[1..]), tail);
  }

  lemma Associates(x: seq<u8>, y: seq<u8>, z: seq<u8>)
    ensures (x + y) + z == x + (y + z)
  {
  }

  lemma {:induction false} DrainRecovers(frames: seq<Frame>, tail: seq<u8>)
    requires AllCanonical(frames) && Decode(tail).Refused?
    ensures Drain(EncodeAll(frames) + tail) == Taken(frames, tail)
    decreases |frames|
  {
    if frames == [] {
      NoMore([], tail);
      assert EncodeAll(frames) + tail == tail && [] + Drain(tail).frames == Drain(tail).frames;
    } else {
      DrainRecovers(frames[1..], tail);
      FirstComesOff(frames[0], EncodeAll(frames[1..]) + tail);
      FirstInFront(frames, tail);
    }
  }

  /** A stream of canonical frames, cut anywhere and followed by the beginning of another one
      or by nothing, yields exactly those frames in order. */
  lemma StreamIsRecovered(frames: seq<Frame>, tail: seq<u8>, chunks: seq<seq<u8>>)
    requires AllCanonical(frames)
    requires Decode(tail).Refused?
    requires Concat(chunks) == EncodeAll(frames) + tail
    ensures ArriveAll(Taken([], []), chunks) == Taken(frames, tail)
  {
    ChunksDoNotMatter(chunks);
    DrainRecovers(frames, tail);
  }

  /** When a whole frame is yet to come, the carriage waits; once it refuses, no further chunk
      makes it go on. */
  lemma WaitingOrStuck(r: Taken, chunk: seq<u8>)
    requires Decode(r.rest).Refused?
    ensures Decode(r.rest) != Refused(Truncated) ==> Arrive(r, chunk) == Taken(r.frames, r.rest + chunk)
    ensures Arrive(r, chunk).frames != r.frames ==> Decode(r.rest) == Refused(Truncated)
  {
    if Decode(r.rest) != Refused(Truncated) {
      VerdictIsStable(r.rest, chunk);
      assert r.frames + [] == r.frames;
    }
  }
}
