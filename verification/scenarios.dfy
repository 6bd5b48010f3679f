/**
 * Worked inputs: the chunks, the lossy text and the debug text of a few
 * small buffers, derived from the general lemmas.
 */
module LossyScenarios {
  import opened Unicode
  import opened Lossy
  import opened LossyDisplay
  import opened LossyDebug
  import opened SeqFacts

  /** Bytes below 0x80 are each a character on their own. */
  lemma {:induction false} AsciiIsWellFormed(s: seq<Byte>)
    requires forall k | 0 <= k < |s| :: s[k] < 0x80
    ensures WellFormed(s)
  {
    if s != [] {
      assert Fills([s[0]], RowAscii);
      AsciiIsWellFormed(s[1..]);
      WellFormedCons([s[0]], s[1..]);
      assert [s[0]] + s[1..] == s;
    }
  }

  /** Nothing to scan: no chunks, no text, and a pair of quotes. */
  lemma EmptyBuffer(escape: Scalar -> seq<Scalar>)
    ensures ChunkSeq([]) == [] && LossyText([]) == []
    ensures DebugText([], escape) == [Quote, Quote]
  {
  }

  /** "hello" is one chunk with nothing broken, and is rendered as it is. */
  lemma Hello()
    ensures ChunkSeq([0x68, 0x65, 0x6C, 0x6C, 0x6F]) == [Chunk([0x68, 0x65, 0x6C, 0x6C, 0x6F], [])]
    ensures LossyText([0x68, 0x65, 0x6C, 0x6C, 0x6F]) == [0x68, 0x65, 0x6C, 0x6C, 0x6F]
  {
    var s: seq<Byte> := [0x68, 0x65, 0x6C, 0x6C, 0x6F];
    AsciiIsWellFormed(s);
    ChunksOfWellFormed(s);
    LossyOfWellFormed(s);
  }

  /** A step that takes everything left: the scan is that one chunk. */
  lemma LastStep(s: seq<Byte>, c: Chunk)
    requires s != [] && Step(s) == (c, [])
    ensures ChunkSeq(s) == [c]
    ensures LossyText(s) == c.valid + Mark(c.broken)
  {
    assert ChunkSeq(s) == [c] + ChunkSeq([]);
    LossyTextStep(s);
  }

  /** A step that leaves `rest`: the scan is its chunk, then the scan of `rest`. */
  lemma NextStep(s: seq<Byte>, c: Chunk, rest: seq<Byte>)
    requires s != [] && Step(s) == (c, rest)
    ensures ChunkSeq(s) == [c] + ChunkSeq(rest)
    ensures LossyText(s) == c.valid + Mark(c.broken) + LossyText(rest)
  {
    LossyTextStep(s);
  }

  /**
   * A lone 0xFF is the first and last chunk, and its broken part is not
   * empty: being the last item does not make `broken` empty, only the
   * converse holds.
   */
  lemma LoneInvalidByte(s: seq<Byte>, escape: Scalar -> seq<Scalar>)
    requires s == [0xFF]
    ensures ChunkSeq(s) == [Chunk([], [0xFF])]
    ensures LossyText(s) == Replacement
    ensures DebugText(s, escape) == [Quote, Backslash, LowerX, 0x66, 0x66, Quote]
  {
    InvalidLead(s);
    assert Step(s).1 == [];
    LastStep(s, Chunk([], [0xFF]));
    DebugOfInvalidByte(0xFF, escape);
  }

  /** The first step over `61 E2 28 A1`: 28 cannot follow E2, so E2 alone is broken. */
  lemma StrayBytesFirstStep(s: seq<Byte>)
    requires s == [0x61, 0xE2, 0x28, 0xA1]
    ensures Step(s) == (Chunk([0x61], [0xE2]), [0x28, 0xA1])
  {
    assert s[1..][..2] == [0xE2, 0x28];
    NoCharAt(s[1..], 1);
    assert ValidLen(s[1..]) == 0;
    assert ValidLen(s) == 1;
    assert s[..1] == [0x61] && s[1..][..1] == [0xE2] && s[1..][1..] == [0x28, 0xA1];
  }

  /** The second step: the continuation byte A1 begins nothing. */
  lemma StrayBytesSecondStep(t: seq<Byte>)
    requires t == [0x28, 0xA1]
    ensures Step(t) == (Chunk([0x28], [0xA1]), [])
  {
    NoCharAt(t[1..], 1);
    assert ValidLen(t[1..]) == 0;
    assert ValidLen(t) == 1;
    assert t[..1] == [0x28] && t[1..][..1] == [0xA1] && t[1..][1..] == [];
  }

  /**
   * "a", then E2 whose second byte 0x28 is not a continuation, then "(",
   * then a stray continuation byte A1: two chunks, each with a one-byte
   * broken part, and two replacement characters.
   */
  lemma StrayBytes(s: seq<Byte>)
    requires s == [0x61, 0xE2, 0x28, 0xA1]
    ensures ChunkSeq(s) == [Chunk([0x61], [0xE2]), Chunk([0x28], [0xA1])]
    ensures LossyText(s) == [0x61] + Replacement + [0x28] + Replacement
  {
    StrayBytesFirstStep(s);
    StrayBytesSecondStep(s[2..]);
    TwoBrokenSteps(s, 2, [0x61], [0xE2], [0x28], [0xA1]);
  }

  /** Two steps, each a valid run and a non-empty broken part, the first ending at `k`. */
  lemma TwoBrokenSteps(s: seq<Byte>, k: nat, v1: seq<Byte>, b1: seq<Byte>, v2: seq<Byte>, b2: seq<Byte>)
    requires 0 < k < |s| && b1 != [] && b2 != []
    requires Step(s) == (Chunk(v1, b1), s[k..])
    requires Step(s[k..]) == (Chunk(v2, b2), [])
    ensures ChunkSeq(s) == [Chunk(v1, b1), Chunk(v2, b2)]
    ensures LossyText(s) == v1 + Replacement + v2 + Replacement
  {
    var t := s[k..];
    LastStep(t, Chunk(v2, b2));
    NextStep(s, Chunk(v1, b1), t);
    assert LossyText(t) == v2 + Replacement;
    Assoc(v1 + Replacement, v2, Replacement);
  }

  /**
   * The first three bytes of a four-byte sequence with the fourth missing
   * are one broken part of three bytes, shown as one replacement character.
   */
  lemma TruncatedFourByteSequence(s: seq<Byte>)
    requires s == [0xF0, 0x9F, 0x98]
    ensures Step(s) == (Chunk([], s), [])
    ensures ChunkSeq(s) == [Chunk([], [0xF0, 0x9F, 0x98])]
    ensures LossyText(s) == Replacement
  {
    FourByteLead(s);
    assert s[..3] == s;
    assert Step(s).1 == [];
    LastStep(s, Chunk([], s));
  }

  /** The scanner stops at once on `F0 9F 98` and breaks all three bytes. */
  lemma TruncatedLengths(t: seq<Byte>)
    requires t == [0xF0, 0x9F, 0x98]
    ensures ValidLen(t) == 0 && SubpartLen(t) == 3
  {
    TruncatedFourByteSequence(t);
    assert t[0..] == t;
  }

  /** The step over U+1F600 and then `F0 9F 98`. */
  lemma WholeThenTruncatedStep(s: seq<Byte>)
    requires s == [0xF0, 0x9F, 0x98, 0x80, 0xF0, 0x9F, 0x98]
    ensures Step(s) == (Chunk(s[..4], s[4..]), [])
  {
    var t := s[4..];
    assert t == [0xF0, 0x9F, 0x98];
    TruncatedLengths(t);
    assert Fills(s[..4], RowF0);
    CharLenAtFinds(s, 4);
    assert ValidLen(s) == 4;
    assert t[..3] == t && t[3..] == [];
  }

  /**
   * A whole four-byte sequence (U+1F600) followed by the first three bytes
   * of the same sequence: one chunk whose valid run is the whole sequence
   * and whose broken part is the truncated one.
   */
  lemma WholeThenTruncatedFourByteSequence(s: seq<Byte>)
    requires s == [0xF0, 0x9F, 0x98, 0x80, 0xF0, 0x9F, 0x98]
    ensures ChunkSeq(s) == [Chunk([0xF0, 0x9F, 0x98, 0x80], [0xF0, 0x9F, 0x98])]
    ensures LossyText(s) == [0xF0, 0x9F, 0x98, 0x80] + Replacement
  {
    WholeThenTruncatedStep(s);
    assert s[..4] == [0xF0, 0x9F, 0x98, 0x80] && s[4..] == [0xF0, 0x9F, 0x98];
    LastStep(s, Chunk(s[..4], s[4..]));
  }

  /** The letters of "hello", as scalar values, encode to its bytes. */
  lemma HelloEncodes()
    ensures EncodeAll([0x68, 0x65, 0x6C, 0x6C, 0x6F]) == [0x68, 0x65, 0x6C, 0x6C, 0x6F]
  {
    var xs: seq<Scalar> := [0x68, 0x65, 0x6C, 0x6C, 0x6F];
    assert EncodeAll(xs[4..]) == [0x6F];
    assert EncodeAll(xs[3..]) == [0x6C, 0x6F];
    assert EncodeAll(xs[2..]) == [0x6C, 0x6C, 0x6F];
    assert EncodeAll(xs[1..]) == [0x65, 0x6C, 0x6C, 0x6F];
  }

  /**
   * Text whose characters are all lower-case letters is written between
   * quotes as it is, by any escape function that leaves those letters alone.
   */
  lemma DebugOfLetters(s: seq<Byte>, xs: seq<Scalar>, escape: Scalar -> seq<Scalar>)
    requires EncodeAll(xs) == s
    requires forall k | 0 <= k < |xs| :: 0x61 <= xs[k] <= 0x7A
    requires forall x: Scalar | 0x61 <= x <= 0x7A :: |escape(x)| == 1
    ensures DebugText(s, escape) == [Quote] + s + [Quote]
  {
    DecodeEncodeAll(xs);
    DebugOfWellFormed(s, escape);
  }

  /**
   * `escape_debug` leaves plain letters alone while it escapes the quote,
   * so "hello" is written between quotes as it is.
   */
  lemma HelloDebug(escape: Scalar -> seq<Scalar>)
    requires escape(Quote) == [Backslash, Quote]
    requires forall x: Scalar | 0x61 <= x <= 0x7A :: |escape(x)| == 1
    ensures DebugText([0x68, 0x65, 0x6C, 0x6C, 0x6F], escape) == [Quote] + [0x68, 0x65, 0x6C, 0x6C, 0x6F] + [Quote]
  {
    HelloEncodes();
    DebugOfLetters([0x68, 0x65, 0x6C, 0x6C, 0x6F], [0x68, 0x65, 0x6C, 0x6C, 0x6F], escape);
  }

  /** A step whose chunk is `n` broken bytes leaves the bytes after them. */
  lemma BrokenStep(s: seq<Byte>, n: nat)
    requires 1 <= n <= |s| && Step(s).0 == Chunk([], s[..n])
    ensures Step(s) == (Chunk([], s[..n]), s[n..])
  {
    assert s == s[..n] + s[n..];
  }

  /** The three steps over `ED A0 80`, one broken byte each. */
  lemma EncodedSurrogateSteps(s: seq<Byte>)
    requires s == [0xED, 0xA0, 0x80]
    ensures Step(s) == (Chunk([], [0xED]), s[1..])
    ensures Step(s[1..]) == (Chunk([], [0xA0]), s[2..])
    ensures Step(s[2..]) == (Chunk([], [0x80]), [])
  {
    var t, u := s[1..], s[2..];
    assert t == [0xA0, 0x80] && u == [0x80] && t[1..] == u && u[1..] == [];
    assert s[..1] == [0xED] && t[..1] == [0xA0] && u[..1] == [0x80];
    ThreeByteLead(s);
    assert !ThreeByteGate(s[0], SafeGet(s, 1));
    BrokenStep(s, 1);
    InvalidLead(t);
    BrokenStep(t, 1);
    InvalidLead(u);
    BrokenStep(u, 1);
  }

  /** Three steps of one broken part each make three chunks and three U+FFFD. */
  lemma ThreeBrokenSteps(s: seq<Byte>, b1: seq<Byte>, b2: seq<Byte>, b3: seq<Byte>)
    requires |s| == 3 && b1 != [] && b2 != [] && b3 != []
    requires Step(s) == (Chunk([], b1), s[1..])
    requires Step(s[1..]) == (Chunk([], b2), s[2..])
    requires Step(s[2..]) == (Chunk([], b3), [])
    ensures ChunkSeq(s) == [Chunk([], b1), Chunk([], b2), Chunk([], b3)]
    ensures LossyText(s) == Replacement + Replacement + Replacement
  {
    var t, u := s[1..], s[2..];
    LastStep(u, Chunk([], b3));
    NextStep(t, Chunk([], b2), u);
    NextStep(s, Chunk([], b1), t);
    assert LossyText(u) == Replacement;
    assert LossyText(t) == Replacement + Replacement;
    Assoc(Replacement, Replacement, Replacement);
  }

  /**
   * An encoded surrogate, ED A0 80, is three broken parts of one byte: ED
   * does not accept A0 as its second byte, and A0 and 80 cannot begin a
   * character.
   */
  lemma EncodedSurrogate(s: seq<Byte>)
    requires s == [0xED, 0xA0, 0x80]
    ensures ChunkSeq(s) == [Chunk([], [0xED]), Chunk([], [0xA0]), Chunk([], [0x80])]
    ensures LossyText(s) == Replacement + Replacement + Replacement
  {
    EncodedSurrogateSteps(s);
    ThreeBrokenSteps(s, [0xED], [0xA0], [0x80]);
  }
}
