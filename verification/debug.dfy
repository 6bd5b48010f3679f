/**
 * `Debug` for the lossy view: the text is put between double quotes, every
 * character of a valid run whose debug escape is longer than one character
 * is replaced by that escape, and every byte of a broken run is written as
 * `\x` followed by two lower-case hex digits.
 *
 * The character escape itself is a parameter: `escape` maps a scalar value
 * to the characters its debug escape consists of.
 */
module LossyDebug {
  import opened Unicode
  import opened Lossy
  import opened SeqFacts

  const Quote: Byte := 0x22
  const Backslash: Byte := 0x5C
  const LowerX: Byte := 0x78

  // ---------------------------------------------------------------------
  // Hex escapes of broken bytes.

  /** The lower-case hex digit of a value below sixteen, as an ASCII byte. */
  function HexDigit(d: int): (h: Byte)
    requires 0 <= d < 16
    ensures h < 0x80
  {
    if d < 10 then 0x30 + d else 0x61 + (d - 10)
  }

  /** The value of a lower-case hex digit, or -1 for any other byte. */
  function HexValue(h: Byte): (d: int)
    ensures -1 <= d < 16
  {
    if 0x30 <= h <= 0x39 then h - 0x30
    else if 0x61 <= h <= 0x66 then h - 0x61 + 10
    else -1
  }

  /** `\x` and the byte as two lower-case, zero-padded hex digits. */
  function HexEscape(b: Byte): (e: seq<Byte>)
    ensures |e| == 4 && e[0] == Backslash && e[1] == LowerX
  {
    [Backslash, LowerX, HexDigit(b / 16), HexDigit(b % 16)]
  }

  /** The hex escapes of a run of bytes, one after another. */
  function HexEscapes(bs: seq<Byte>): (e: seq<Byte>)
    ensures |e| == 4 * |bs|
  {
    if bs == [] then [] else HexEscape(bs[0]) + HexEscapes(bs[1..])
  }

  /** Reads one hex escape back: the byte it stands for, if it is one. */
  function Unescape(e: seq<Byte>): (r: Option<Byte>)
    ensures r.Some? ==> |e| == 4 && e[0] == Backslash && e[1] == LowerX
  {
    if |e| == 4 && e[0] == Backslash && e[1] == LowerX && HexValue(e[2]) >= 0 && HexValue(e[3]) >= 0
    then Some(HexValue(e[2]) * 16 + HexValue(e[3]))
    else None
  }

  /** Reads a run of hex escapes back into the bytes they stand for. */
  function UnescapeAll(e: seq<Byte>): (r: Option<seq<Byte>>)
    ensures r.Some? ==> 4 * |r.value| == |e|
    decreases |e|
  {
    if e == [] then Some([])
    else if |e| < 4 then None
    else match (Unescape(e[..4]), UnescapeAll(e[4..]))
      case (Some(b), Some(bs)) => Some([b] + bs)
      case _ => None
  }

  /** Each hex digit reads back as the value it was written for. */
  lemma HexDigitValue(d: int)
    requires 0 <= d < 16
    ensures HexValue(HexDigit(d)) == d
  {
  }

  /** A hex escape reads back as its byte, and it is the only escape that does. */
  lemma UnescapeHexEscape(b: Byte, e: seq<Byte>)
    ensures Unescape(HexEscape(b)) == Some(b)
    ensures Unescape(e) == Some(b) ==> e == HexEscape(b)
  {
    HexDigitValue(b / 16);
    HexDigitValue(b % 16);
    if Unescape(e) == Some(b) {
      var hi, lo := HexValue(e[2]), HexValue(e[3]);
      DivMod(hi, lo, 16);
      assert HexDigit(hi) == e[2];
      assert HexDigit(lo) == e[3];
    }
  }

  /** The hex escapes of a broken run read back as that run. */
  lemma {:induction false} UnescapeHexEscapes(bs: seq<Byte>)
    ensures UnescapeAll(HexEscapes(bs)) == Some(bs)
  {
    if bs != [] {
      var e := HexEscapes(bs);
      assert e[..4] == HexEscape(bs[0]);
      assert e[4..] == HexEscapes(bs[1..]);
      UnescapeHexEscape(bs[0], []);
      UnescapeHexEscapes(bs[1..]);
      assert [bs[0]] + bs[1..] == bs;
    }
  }

  /** Hex escapes are ASCII, hence well-formed. */
  lemma {:induction false} HexEscapesWellFormed(bs: seq<Byte>)
    ensures WellFormed(HexEscapes(bs))
  {
    if bs != [] {
      var e := HexEscape(bs[0]);
      forall k | 0 <= k < 4
        ensures IsChar([e[k]])
      {
        assert Fills([e[k]], RowAscii);
      }
      assert e == [e[0]] + ([e[1]] + ([e[2]] + ([e[3]] + [])));
      CharIsWellFormed([e[3]]);
      WellFormedCons([e[2]], [e[3]]);
      assert [e[2]] + [e[3]] == e[2..];
      WellFormedCons([e[1]], e[2..]);
      assert [e[1]] + e[2..] == e[1..];
      WellFormedCons([e[0]], e[1..]);
      assert [e[0]] + e[1..] == e;
      HexEscapesWellFormed(bs[1..]);
      WellFormedConcat(e, HexEscapes(bs[1..]));
    }
  }

  /** Appending one byte's escape extends the run's escapes by it. */
  lemma {:induction false} HexEscapesSnoc(bs: seq<Byte>, b: Byte)
    ensures HexEscapes(bs + [b]) == HexEscapes(bs) + HexEscape(b)
  {
    if bs == [] {
      assert [] + [b] == [b];
      assert HexEscapes([b]) == HexEscape(b) + HexEscapes([]);
    } else {
      assert (bs + [b])[0] == bs[0];
      assert (bs + [b])[1..] == bs[1..] + [b];
      HexEscapesSnoc(bs[1..], b);
    }
  }

  // ---------------------------------------------------------------------
  // Escaping valid runs.

  /**
   * One character of a valid run: its own encoding when its escape is a
   * single character, the encoded escape otherwise.
   */
  function EscapeOne(x: Scalar, escape: Scalar -> seq<Scalar>): (out: seq<Byte>)
  {
    var esc := escape(x);
    if |esc| == 1 then Encode(x) else EncodeAll(esc)
  }

  /**
   * Read back as text, one escaped character is the character itself when
   * its escape is one character long, and the characters of its escape
   * otherwise.
   */
  lemma EscapeOneDecodes(x: Scalar, escape: Scalar -> seq<Scalar>)
    ensures WellFormed(EscapeOne(x, escape))
    ensures |escape(x)| == 1 ==> DecodeAll(EscapeOne(x, escape)) == [x]
    ensures |escape(x)| != 1 ==> DecodeAll(EscapeOne(x, escape)) == escape(x)
  {
    DecodeEncodeAll([x]);
    DecodeEncodeAll(escape(x));
    assert [x][1..] == [];
    assert EncodeAll([x]) == Encode(x) + EncodeAll([]);
    EncodeIsChar(x);
    CharIsWellFormed(Encode(x));
  }

  /** Characters, each written as `EscapeOne` writes it, one after another. */
  function EscapeChars(xs: seq<Scalar>, escape: Scalar -> seq<Scalar>): (out: seq<Byte>)
  {
    if xs == [] then [] else EscapeChars(xs[..|xs| - 1], escape) + EscapeOne(xs[|xs| - 1], escape)
  }

  /** A valid run with each of its characters escaped. */
  function EscapeRun(v: seq<Byte>, escape: Scalar -> seq<Scalar>): (out: seq<Byte>)
    requires WellFormed(v)
  {
    EscapeChars(DecodeAll(v), escape)
  }

  /** The text a run of chunks renders to, without the surrounding quotes. */
  function DebugChunks(cs: seq<Chunk>, escape: Scalar -> seq<Scalar>): (out: seq<Byte>)
    requires forall c | c in cs :: WellFormed(c.valid)
  {
    if cs == [] then []
    else
      assert cs[0] in cs;
      EscapeRun(cs[0].valid, escape) + HexEscapes(cs[0].broken) + DebugChunks(cs[1..], escape)
  }

  /** The text between the quotes for `bytes`. */
  function DebugBody(bytes: seq<Byte>, escape: Scalar -> seq<Scalar>): (out: seq<Byte>)
  {
    DebugChunks(ChunkSeq(bytes), escape)
  }

  /** The text `bytes` renders to. */
  function DebugText(bytes: seq<Byte>, escape: Scalar -> seq<Scalar>): (out: seq<Byte>)
  {
    [Quote] + DebugBody(bytes, escape) + [Quote]
  }

  /**
   * Writes the debug text of the view: the opening quote, then for each
   * chunk its valid run, escaping characters as it goes, then the hex
   * escapes of its broken run, and finally the closing quote.
   */
  method Fmt(view: Utf8Lossy, escape: Scalar -> seq<Scalar>) returns (out: seq<Byte>)
    ensures out == DebugText(view.bytes, escape)
  {
    out := [Quote];
    var it := view.Chunks();
    while true
      invariant out + DebugBody(it.source, escape) + [Quote] == DebugText(view.bytes, escape)
      decreases |it.source|
    {
      ghost var source := it.source;
      var next := it.Next();
      if next.None? {
        break;
      }
      DebugBodyStep(source, escape);
      ghost var start := out;
      out := WriteChunk(out, next.value, escape);
      Assoc5(start, EscapeRun(next.value.valid, escape), HexEscapes(next.value.broken),
        DebugBody(it.source, escape), [Quote]);
    }
    assert it.source == [];
    out := out + [Quote];
  }

  /** Writes one chunk: its valid run, escaped, then its broken bytes in hex. */
  method WriteChunk(prefix: seq<Byte>, chunk: Chunk, escape: Scalar -> seq<Scalar>) returns (out: seq<Byte>)
    requires WellFormed(chunk.valid)
    ensures out == prefix + EscapeRun(chunk.valid, escape) + HexEscapes(chunk.broken)
  {
    out := WriteValid(prefix, chunk.valid, escape);
    out := WriteBroken(out, chunk.broken);
  }

  /**
   * Writes a valid run character by character, visiting the characters
   * with their byte offsets: characters that need no escape are left in the
   * slice that starts at `from`, and that slice is written when a character
   * that does need one comes, followed by its escape.
   */
  method WriteValid(prefix: seq<Byte>, valid: seq<Byte>, escape: Scalar -> seq<Scalar>) returns (out: seq<Byte>)
    requires WellFormed(valid)
    ensures out == prefix + EscapeRun(valid, escape)
  {
    var chars := DecodeAll(valid);
    out := WriteChars(prefix, valid, chars, escape);
  }

  /**
   * The loop of `WriteValid` over the characters `chars` of `valid`: `i` is
   * the byte offset of character `k`.
   */
  method WriteChars(prefix: seq<Byte>, valid: seq<Byte>, chars: seq<Scalar>, escape: Scalar -> seq<Scalar>)
    returns (out: seq<Byte>)
    requires EncodeAll(chars) == valid
    ensures out == prefix + EscapeChars(chars, escape)
  {
    out := prefix;
    var from: nat, i: nat, k: nat := 0, 0, 0;
    while k < |chars|
      invariant k <= |chars| && from <= i <= |valid|
      invariant valid[..i] == EncodeAll(chars[..k])
      invariant out + valid[from..i] == prefix + EscapeChars(chars[..k], escape)
    {
      var c := chars[k];
      var n := |Encode(c)|;
      var esc := escape(c);
      CharIndexStep(valid, chars, i, k);
      if |esc| != 1 {
        ghost var out0 := out;
        out := WriteEscape(out + valid[from..i], esc);
        EscapedChar(prefix, valid, chars, escape, k, i, from, out0);
        from := i + n;
      } else {
        VerbatimChar(prefix, valid, chars, escape, k, i, from, out);
      }
      i := i + n;
      k := k + 1;
    }
    assert chars[..k] == chars;
    assert valid[..i] == valid;
    out := out + valid[from..];
  }

  /**
   * A turn of the loop of `WriteChars` for a character whose escape is one
   * character long: the character stays in the pending slice.
   */
  lemma VerbatimChar(prefix: seq<Byte>, valid: seq<Byte>, chars: seq<Scalar>, escape: Scalar -> seq<Scalar>,
                     k: nat, i: nat, from: nat, out: seq<Byte>)
    requires k < |chars| && from <= i && i + |Encode(chars[k])| <= |valid|
    requires valid[i..i + |Encode(chars[k])|] == Encode(chars[k]) && |escape(chars[k])| == 1
    requires out + valid[from..i] == prefix + EscapeChars(chars[..k], escape)
    ensures out + valid[from..i + |Encode(chars[k])|] == prefix + EscapeChars(chars[..k + 1], escape)
  {
    var n := |Encode(chars[k])|;
    EscapeCharsStep(chars, k, escape);
    assert EscapeOne(chars[k], escape) == valid[i..i + n];
    VerbatimStep(out, prefix, valid, from, i, n, EscapeChars(chars[..k], escape));
  }

  /**
   * A turn of the loop of `WriteChars` for a character whose escape is
   * longer: the pending slice and then the escape are written, and the
   * pending slice starts after the character.
   */
  lemma EscapedChar(prefix: seq<Byte>, valid: seq<Byte>, chars: seq<Scalar>, escape: Scalar -> seq<Scalar>,
                    k: nat, i: nat, from: nat, out: seq<Byte>)
    requires k < |chars| && from <= i && i + |Encode(chars[k])| <= |valid| && |escape(chars[k])| != 1
    requires out + valid[from..i] == prefix + EscapeChars(chars[..k], escape)
    ensures var n := |Encode(chars[k])|;
      out + valid[from..i] + EncodeAll(escape(chars[k])) + valid[i + n..i + n] ==
      prefix + EscapeChars(chars[..k + 1], escape)
  {
    EscapeCharsStep(chars, k, escape);
    EscapedStep(out, prefix, valid, from, i, |Encode(chars[k])|, EscapeChars(chars[..k], escape),
      EncodeAll(escape(chars[k])));
  }

  /** A character written as it is joins the pending slice. */
  lemma VerbatimStep(out: seq<Byte>, prefix: seq<Byte>, v: seq<Byte>, from: nat, i: nat, n: nat, done: seq<Byte>)
    requires from <= i <= i + n <= |v| && out + v[from..i] == prefix + done
    ensures out + v[from..i + n] == prefix + (done + v[i..i + n])
  {
    calc {
      out + v[from..i + n];
      { assert v[from..i + n] == v[from..i] + v[i..i + n]; }
      out + (v[from..i] + v[i..i + n]);
      out + v[from..i] + v[i..i + n];
      prefix + done + v[i..i + n];
    }
  }

  /** A character written as its escape, after the pending slice, empties the slice. */
  lemma EscapedStep(out: seq<Byte>, prefix: seq<Byte>, v: seq<Byte>, from: nat, i: nat, n: nat, done: seq<Byte>, e: seq<Byte>)
    requires from <= i <= i + n <= |v| && out + v[from..i] == prefix + done
    ensures out + v[from..i] + e + v[i + n..i + n] == prefix + (done + e)
  {
    assert v[i + n..i + n] == [];
    assert out + v[from..i] + e + [] == prefix + done + e;
  }

  /** Escaping one more character appends its escape. */
  lemma EscapeCharsStep(xs: seq<Scalar>, k: nat, escape: Scalar -> seq<Scalar>)
    requires k < |xs|
    ensures EscapeChars(xs[..k + 1], escape) == EscapeChars(xs[..k], escape) + EscapeOne(xs[k], escape)
  {
    assert xs[..k + 1][..k] == xs[..k];
  }

  /**
   * Where the `k`-th character of `xs` starts in its encoding `v`, its own
   * encoding follows, and the encoding of the first `k + 1` characters ends
   * after it.
   */
  lemma CharIndexStep(v: seq<Byte>, xs: seq<Scalar>, i: nat, k: nat)
    requires EncodeAll(xs) == v && k < |xs| && i <= |v| && v[..i] == EncodeAll(xs[..k])
    ensures i + |Encode(xs[k])| <= |v|
    ensures v[i..i + |Encode(xs[k])|] == Encode(xs[k])
    ensures v[..i + |Encode(xs[k])|] == EncodeAll(xs[..k + 1])
  {
    EncodeAllAt(xs, k);
    Slices3(v, EncodeAll(xs[..k]), Encode(xs[k]), EncodeAll(xs[k + 1..]));
  }


  /** Writes the characters of an escape one at a time. */
  method WriteEscape(prefix: seq<Byte>, esc: seq<Scalar>) returns (out: seq<Byte>)
    ensures out == prefix + EncodeAll(esc)
  {
    out := prefix;
    var k := 0;
    while k < |esc|
      invariant k <= |esc|
      invariant out == prefix + EncodeAll(esc[..k])
    {
      EncodeAllSnoc(esc[..k], esc[k]);
      assert esc[..k + 1] == esc[..k] + [esc[k]];
      out := out + Encode(esc[k]);
      k := k + 1;
    }
    assert esc[..k] == esc;
  }

  /** Writes every byte of a broken run as its hex escape. */
  method WriteBroken(prefix: seq<Byte>, broken: seq<Byte>) returns (out: seq<Byte>)
    ensures out == prefix + HexEscapes(broken)
  {
    out := prefix;
    var j := 0;
    while j < |broken|
      invariant j <= |broken|
      invariant out == prefix + HexEscapes(broken[..j])
    {
      HexEscapesSnoc(broken[..j], broken[j]);
      assert broken[..j + 1] == broken[..j] + [broken[j]];
      out := out + HexEscape(broken[j]);
      j := j + 1;
    }
    assert broken[..j] == broken;
  }

  /** The text of a non-empty buffer is its first chunk's text, then the rest's. */
  lemma DebugBodyStep(s: seq<Byte>, escape: Scalar -> seq<Scalar>)
    requires s != []
    ensures WellFormed(Step(s).0.valid)
    ensures DebugBody(s, escape)
      == EscapeRun(Step(s).0.valid, escape) + HexEscapes(Step(s).0.broken) + DebugBody(Step(s).1, escape)
  {
    assert ChunkSeq(s) == [Step(s).0] + ChunkSeq(Step(s).1);
    assert ([Step(s).0] + ChunkSeq(Step(s).1))[1..] == ChunkSeq(Step(s).1);
  }

  // ---------------------------------------------------------------------
  // What the debug text is.

  /** The quote is a one-byte character. */
  lemma QuoteIsChar()
    ensures IsChar([Quote]) && WellFormed([Quote])
  {
    assert Fills([Quote], RowAscii);
    CharIsWellFormed([Quote]);
  }

  /** Escaped characters make well-formed text. */
  lemma {:induction false} EscapeCharsWellFormed(xs: seq<Scalar>, escape: Scalar -> seq<Scalar>)
    ensures WellFormed(EscapeChars(xs, escape))
  {
    if xs != [] {
      var x := xs[|xs| - 1];
      EscapeCharsWellFormed(xs[..|xs| - 1], escape);
      EncodeIsChar(x);
      CharIsWellFormed(Encode(x));
      EncodeAllWellFormed(escape(x));
      WellFormedConcat(EscapeChars(xs[..|xs| - 1], escape), EscapeOne(x, escape));
    }
  }

  /** The body of the debug text is well-formed. */
  lemma {:induction false} DebugChunksWellFormed(cs: seq<Chunk>, escape: Scalar -> seq<Scalar>)
    requires forall c | c in cs :: WellFormed(c.valid)
    ensures WellFormed(DebugChunks(cs, escape))
  {
    if cs != [] {
      assert cs[0] in cs;
      assert forall c | c in cs[1..] :: c in cs;
      var v, b := cs[0].valid, cs[0].broken;
      EscapeCharsWellFormed(DecodeAll(v), escape);
      HexEscapesWellFormed(b);
      DebugChunksWellFormed(cs[1..], escape);
      WellFormedConcat(EscapeRun(v, escape), HexEscapes(b));
      WellFormedConcat(EscapeRun(v, escape) + HexEscapes(b), DebugChunks(cs[1..], escape));
    }
  }

  /** The debug text of any buffer is well-formed UTF-8. */
  lemma DebugWellFormed(bytes: seq<Byte>, escape: Scalar -> seq<Scalar>)
    ensures WellFormed(DebugText(bytes, escape))
  {
    QuoteIsChar();
    DebugChunksWellFormed(ChunkSeq(bytes), escape);
    WellFormedConcat([Quote], DebugBody(bytes, escape));
    WellFormedConcat([Quote] + DebugBody(bytes, escape), [Quote]);
  }

  /** When none of the characters needs an escape, escaping writes their encodings. */
  lemma {:induction false} EscapeCharsVerbatim(xs: seq<Scalar>, escape: Scalar -> seq<Scalar>)
    requires forall x | x in xs :: |escape(x)| == 1
    ensures EscapeChars(xs, escape) == EncodeAll(xs)
  {
    if xs != [] {
      var init, x := xs[..|xs| - 1], xs[|xs| - 1];
      assert forall y | y in init :: y in xs;
      EscapeCharsVerbatim(init, escape);
      assert init + [x] == xs;
      EncodeAllSnoc(init, x);
    }
  }

  /**
   * When none of its characters needs an escape, the debug text of
   * well-formed input is the input between quotes.
   */
  lemma DebugOfWellFormed(bytes: seq<Byte>, escape: Scalar -> seq<Scalar>)
    requires WellFormed(bytes)
    requires forall x | x in DecodeAll(bytes) :: |escape(x)| == 1
    ensures DebugText(bytes, escape) == [Quote] + bytes + [Quote]
  {
    if bytes != [] {
      ChunksOfWellFormed(bytes);
      EscapeCharsVerbatim(DecodeAll(bytes), escape);
      assert DebugChunks([Chunk(bytes, [])], escape) == EscapeRun(bytes, escape) + [] + DebugChunks([], escape);
    }
  }

  /**
   * A byte that cannot begin a character, on its own, is written as its
   * hex escape between quotes.
   */
  lemma DebugOfInvalidByte(b: Byte, escape: Scalar -> seq<Scalar>)
    requires CharWidth(b) == 0
    ensures DebugText([b], escape) == [Quote] + HexEscape(b) + [Quote]
  {
    InvalidLead([b]);
    var cs := ChunkSeq([b]);
    assert cs == [Chunk([], [b])] + ChunkSeq([]);
    assert DebugChunks(cs, escape) == EscapeRun([], escape) + HexEscapes([b]) + DebugChunks([], escape);
    assert HexEscapes([b]) == HexEscape(b) + HexEscapes([]);
  }
}
