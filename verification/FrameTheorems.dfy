/** What the frame codec promises: one frame, one encoding; verdicts that more bytes cannot
    change. */
module FrameTheorems {
  import opened Words
  import opened Frame
  import Crc32

  /** The bytes before the frame check, once the header is known. */
  lemma CoveredIsRead(s: seq<u8>, f: Frame)
    requires f.major < 16 && f.class_ < 16 && |f.payload| <= MAX_PAYLOAD
    requires LengthAt(f.flags) + 2 + |f.payload| <= |s|
    ensures var start := LengthAt(f.flags) + 2;
            Reads(s, Covered(f, f.major), start + |f.payload|)
            <==> Found(s, f) && s[start..start + |f.payload|] == f.payload
  {
    HeaderIsRead(s, f);
    var start := LengthAt(f.flags) + 2;
    assert |Header(f, f.major)| == start;
    Append(s, Header(f, f.major), start, f.payload);
  }

  lemma EncodedIsRead(s: seq<u8>, f: Frame)
    requires f.major < 16 && Encodable(f) && EncodedSize(f) <= |s|
    ensures var end := LengthAt(f.flags) + 2 + |f.payload|;
            Reads(s, Encoded(f, f.major), EncodedSize(f))
            <==> Reads(s, Covered(f, f.major), end)
                 && (HasCheck(f.flags) ==> Get32(s, end) == Crc32.Crc(Covered(f, f.major)))
  {
    var end := LengthAt(f.flags) + 2 + |f.payload|;
    assert |Covered(f, f.major)| == end;
    AppendField32(s, Covered(f, f.major), end, HasCheck(f.flags), Crc32.Crc(Covered(f, f.major)));
  }

  lemma ParsedIsFound(s: seq<u8>)
    requires |s| >= MIN_SIZE && |s| >= MIN_SIZE + OptionalSize(s[1]) && CoveredSize(s) <= |s|
    ensures Found(s, Parsed(s)) && Parsed(s).flags == s[1]
    ensures s[LengthAt(s[1]) + 2..CoveredSize(s)] == Parsed(s).payload
    ensures |Parsed(s).payload| == Get16(s, LengthAt(s[1]))
  {
  }

  lemma AcceptedIsParsed(s: seq<u8>, f: Frame, n: nat)
    requires Decode(s) == Decoded(f, n)
    ensures |s| >= MIN_SIZE && |s| >= MIN_SIZE + OptionalSize(s[1]) && CoveredSize(s) <= n <= |s| && f == Parsed(s)
    ensures Canonical(f) && n == CoveredSize(s) + if HasCheck(s[1]) then 4 else 0
    ensures HasCheck(s[1]) ==> Get32(s, CoveredSize(s)) == Crc32.Crc(s[..CoveredSize(s)])
  {
  }

  /** What acceptance says about the bytes, before it is put together again. */
  lemma AcceptedIsFound(s: seq<u8>, f: Frame, n: nat)
    requires Decode(s) == Decoded(f, n)
    ensures Canonical(f) && n == EncodedSize(f) <= |s| && Found(s, f)
    ensures var end := LengthAt(f.flags) + 2 + |f.payload|;
            && end <= |s| && s[LengthAt(f.flags) + 2..end] == f.payload
            && (HasCheck(f.flags) ==> end + 4 <= |s| && Get32(s, end) == Crc32.Crc(s[..end]))
  {
    AcceptedIsParsed(s, f, n);
    ParsedIsFound(s);
  }

  lemma AcceptedReEncodes(s: seq<u8>, f: Frame, n: nat)
    requires Decode(s) == Decoded(f, n)
    ensures Canonical(f) && n == EncodedSize(f) <= |s| && s[..n] == Encoded(f, f.major)
  {
    AcceptedIsFound(s, f, n);
    CoveredIsRead(s, f);
    EncodedIsRead(s, f);
  }

  lemma FoundIsParsed(s: seq<u8>, f: Frame)
    requires Canonical(f) && EncodedSize(f) <= |s| && Found(s, f)
    requires s[LengthAt(f.flags) + 2..LengthAt(f.flags) + 2 + |f.payload|] == f.payload
    ensures CoveredSize(s) == LengthAt(f.flags) + 2 + |f.payload| && Parsed(s) == f
  {
  }

  lemma EncodingIsAccepted(s: seq<u8>, f: Frame)
    requires Canonical(f) && EncodedSize(f) <= |s| && s[..EncodedSize(f)] == Encoded(f, f.major)
    ensures Decode(s) == Decoded(f, EncodedSize(f))
  {
    EncodedHasItsSize(f, f.major);
    EncodedIsRead(s, f);
    CoveredIsRead(s, f);
    FoundIsParsed(s, f);
  }

  /** Canonical bijection: a buffer is accepted as frame f with n bytes consumed exactly when f
      is canonical and those n bytes are the encoding of f at its major. */
  lemma CanonicalBijection(s: seq<u8>, f: Frame, n: nat)
    ensures Decode(s) == Decoded(f, n) <==>
            Canonical(f) && n == EncodedSize(f) <= |s| && s[..n] == Encoded(f, f.major)
  {
    if Decode(s) == Decoded(f, n) {
      AcceptedReEncodes(s, f, n);
    }
    if Canonical(f) && n == EncodedSize(f) <= |s| && s[..n] == Encoded(f, f.major) {
      EncodingIsAccepted(s, f);
    }
  }

  /** Decoding an encoding, whatever follows it, returns the frame with the fields its flags
      leave out zeroed, and consumes exactly the encoded size. */
  lemma RoundTrip(f: Frame, major: u8, tail: seq<u8>)
    requires Encodable(f) && (major == FRAME_MAJOR || major == STABLE_MAJOR)
    ensures Decode(Encoded(f, major) + tail) == Decoded(Cleared(f, major), EncodedSize(f))
  {
    var g := Cleared(f, major);
    ClearedEncodesAlike(f, major);
    EncodedHasItsSize(g, major);
    assert (Encoded(g, major) + tail)[..EncodedSize(g)] == Encoded(g, major);
    EncodingIsAccepted(Encoded(g, major) + tail, g);
  }

  lemma ClearedEncodesAlike(f: Frame, major: u8)
    requires Encodable(f) && (major == FRAME_MAJOR || major == STABLE_MAJOR)
    ensures Canonical(Cleared(f, major)) && Encoded(f, major) == Encoded(Cleared(f, major), major)
  {
    assert Header(f, major) == Header(Cleared(f, major), major);
  }

  // ---- Stable verdicts ----------------------------------------------------------------

  /** Two buffers that agree up to the payload length have it in the same place. */
  lemma SameLength(s: seq<u8>, u: seq<u8>)
    requires |s| >= MIN_SIZE && |s| >= MIN_SIZE + OptionalSize(s[1]) && |u| >= MIN_SIZE + OptionalSize(s[1])
    requires u[..LengthAt(s[1]) + 2] == s[..LengthAt(s[1]) + 2]
    ensures u[0] == s[0] && u[1] == s[1] && CoveredSize(u) == CoveredSize(s)
  {
  }

  lemma SameGet16(s: seq<u8>, u: seq<u8>, at: nat, end: nat)
    requires at + 2 <= end <= |s| && end <= |u| && u[..end] == s[..end]
    ensures Get16(u, at) == Get16(s, at)
  {
  }

  lemma SameGet32(s: seq<u8>, u: seq<u8>, at: nat, end: nat)
    requires at + 4 <= end <= |s| && end <= |u| && u[..end] == s[..end]
    ensures Get32(u, at) == Get32(s, at)
  {
  }

  /** Two buffers that agree up to the end of the payload hold the same frame. */
  lemma SameFrame(s: seq<u8>, u: seq<u8>)
    requires |s| >= MIN_SIZE && |s| >= MIN_SIZE + OptionalSize(s[1]) && |u| >= MIN_SIZE + OptionalSize(s[1])
    requires CoveredSize(s) <= |s| && CoveredSize(s) <= |u| && u[..CoveredSize(s)] == s[..CoveredSize(s)]
    ensures u[0] == s[0] && u[1] == s[1] && CoveredSize(u) == CoveredSize(s) && Parsed(u) == Parsed(s)
  {
    var end, at := CoveredSize(s), LengthAt(s[1]);
    assert u[..at + 2] == u[..end][..at + 2] && s[..at + 2] == s[..end][..at + 2];
    SameLength(s, u);
    SameGet32(s, u, 2, end);
    if HasDestination(s[1]) { SameGet32(s, u, 6, end); }
    if HasSession(s[1]) { SameGet32(s, u, SessionAt(s[1]), end); }
    if HasSequence(s[1]) { SameGet16(s, u, SequenceAt(s[1]), end); }
    if HasFreshness(s[1]) { SameGet16(s, u, FreshnessAt(s[1]), end); }
    assert u[at + 2..end] == u[..end][at + 2..] && s[at + 2..end] == s[..end][at + 2..];
  }

  /** Any verdict but TRUNCATED is final: appending bytes changes neither the status nor, when
      the frame was accepted, the frame and the bytes consumed. */
  lemma VerdictIsStable(s: seq<u8>, t: seq<u8>)
    requires Decode(s) != Refused(Truncated)
    ensures Decode(s + t) == Decode(s)
  {
    var u := s + t;
    assert u[0] == s[0] && u[1] == s[1];
    if MIN_SIZE + OptionalSize(s[1]) <= |s| {
      SameLength(s, u);
      var end := CoveredSize(s);
      if end <= |s| {
        assert u[..end] == s[..end];
        SameFrame(s, u);
        if end + 4 <= |s| {
          assert u[..end + 4] == s[..end + 4];
          SameGet32(s, u, end, end + 4);
        }
      }
    }
  }

  /** Every strict prefix of an accepted frame is TRUNCATED, never malformed. */
  lemma PrefixIsTruncated(s: seq<u8>, f: Frame, n: nat, k: nat)
    requires Decode(s) == Decoded(f, n) && k < n <= |s|
    ensures Decode(s[..k]) == Refused(Truncated)
  {
    var u := s[..k];
    if MIN_SIZE <= k {
      assert u[0] == s[0] && u[1] == s[1];
      if MIN_SIZE + OptionalSize(s[1]) <= k {
        assert u[..LengthAt(s[1]) + 2] == s[..LengthAt(s[1]) + 2];
        SameLength(s, u);
      }
    }
  }

  /** An unknown link major, and nothing else, is reported as an incompatible version. */
  lemma UnknownMajorIsIncompatible(s: seq<u8>)
    ensures Decode(s) == Refused(IncompatibleVersion) <==>
            |s| >= MIN_SIZE && s[0] / 16 != FRAME_MAJOR && s[0] / 16 != STABLE_MAJOR
  {
  }

  /** No encoding is the beginning of another: a stream of frames can be cut in one way only. */
  lemma EncodingsArePrefixFree(f: Frame, g: Frame, tail: seq<u8>)
    requires Canonical(f) && Canonical(g) && Encoded(g, g.major) == Encoded(f, f.major) + tail
    ensures f == g && tail == []
  {
    EncodedHasItsSize(g, g.major);
    EncodedHasItsSize(f, f.major);
    var s := Encoded(g, g.major);
    assert s[..|s|] == s;
    assert s[..EncodedSize(f)] == Encoded(f, f.major);
    EncodingIsAccepted(s, f);
    EncodingIsAccepted(s, g);
  }
}
