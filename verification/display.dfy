/**
 * `Display` for the lossy view: every valid run is written as it is and every
 * non-empty broken run becomes one U+FFFD. The text written is modelled as
 * the UTF-8 bytes the formatter receives.
 */
module LossyDisplay {
  import opened Unicode
  import opened Lossy
  import opened SeqFacts

  /** The text a run of chunks renders to. */
  function LossyChunks(cs: seq<Chunk>): (out: seq<Byte>)
  {
    if cs == [] then [] else cs[0].valid + Mark(cs[0].broken) + LossyChunks(cs[1..])
  }

  /** One U+FFFD for a non-empty broken run, nothing for an empty one. */
  function Mark(broken: seq<Byte>): (m: seq<Byte>)
  {
    if broken == [] then [] else Replacement
  }

  /** The text `bytes` renders to. */
  function LossyText(bytes: seq<Byte>): (out: seq<Byte>)
  {
    LossyChunks(ChunkSeq(bytes))
  }

  /**
   * Writes the lossy text of the view. When the first chunk's valid run
   * covers the whole buffer, that run is written at once; otherwise the
   * chunks are written one after another.
   */
  method Fmt(view: Utf8Lossy) returns (out: seq<Byte>)
    ensures out == LossyText(view.bytes)
  {
    if |view.bytes| == 0 {
      return [];
    }
    var it := view.Chunks();
    out := [];
    while true
      invariant |it.source| <= |view.bytes|
      invariant |it.source| == |view.bytes| ==> it.source == view.bytes && out == []
      invariant out + LossyText(it.source) == LossyText(view.bytes)
      decreases |it.source|
    {
      ghost var source := it.source;
      var next := it.Next();
      if next.None? {
        assert LossyText(source) == [];
        break;
      }
      var chunk := next.value;
      LossyTextStep(source);
      if |chunk.valid| == |view.bytes| {
        // The fast path: the valid run is the whole buffer, so this is the
        // only chunk and nothing is broken.
        assert source == view.bytes && out == [];
        assert chunk.broken == [] && it.source == [];
        assert LossyText(view.bytes) == chunk.valid + [] + [];
        return chunk.valid;
      }
      ghost var before, tail := out, LossyText(it.source);
      var mark := Mark(chunk.broken);
      out := out + chunk.valid + mark;
      Assoc4(before, chunk.valid, mark, tail);
    }
  }

  /** The text of a non-empty buffer is its first chunk's text, then the rest's. */
  lemma LossyTextStep(s: seq<Byte>)
    requires s != []
    ensures LossyText(s) == Step(s).0.valid + Mark(Step(s).0.broken) + LossyText(Step(s).1)
  {
    assert ChunkSeq(s) == [Step(s).0] + ChunkSeq(Step(s).1);
    assert ([Step(s).0] + ChunkSeq(Step(s).1))[1..] == ChunkSeq(Step(s).1);
  }

  /** Valid runs and replacement characters make well-formed text. */
  lemma {:induction false} LossyChunksWellFormed(cs: seq<Chunk>)
    requires forall c | c in cs :: WellFormed(c.valid)
    ensures WellFormed(LossyChunks(cs))
  {
    if cs != [] {
      assert cs[0] in cs;
      assert forall c | c in cs[1..] :: c in cs;
      LossyChunksWellFormed(cs[1..]);
      var mark := Mark(cs[0].broken);
      ReplacementIsEncoded();
      CharIsWellFormed(Replacement);
      assert WellFormed(mark);
      WellFormedConcat(cs[0].valid, mark);
      WellFormedConcat(cs[0].valid + mark, LossyChunks(cs[1..]));
    }
  }

  /** The lossy text of any buffer is well-formed UTF-8. */
  lemma LossyWellFormed(bytes: seq<Byte>)
    ensures WellFormed(LossyText(bytes))
  {
    LossyChunksWellFormed(ChunkSeq(bytes));
  }

  /** Well-formed input is rendered unchanged. */
  lemma LossyOfWellFormed(bytes: seq<Byte>)
    requires WellFormed(bytes)
    ensures LossyText(bytes) == bytes
  {
    if bytes != [] {
      ChunksOfWellFormed(bytes);
      assert LossyChunks([Chunk(bytes, [])]) == bytes + [] + LossyChunks([]);
    }
  }

  /** The lossy text leaves the buffer as it is exactly when the buffer is well-formed. */
  lemma LossyIsIdentityIffWellFormed(bytes: seq<Byte>)
    ensures LossyText(bytes) == bytes <==> WellFormed(bytes)
  {
    LossyWellFormed(bytes);
    if WellFormed(bytes) {
      LossyOfWellFormed(bytes);
    }
  }

  /** Rendering the rendered text again changes nothing. */
  lemma LossyIdempotent(bytes: seq<Byte>)
    ensures LossyText(LossyText(bytes)) == LossyText(bytes)
  {
    LossyWellFormed(bytes);
    LossyOfWellFormed(LossyText(bytes));
  }
}
