# Lossy UTF-8 chunks, modelled and proved in Dafny

This project models the lossy UTF-8 view of a byte buffer from the Rust core
library (`Utf8Lossy`, file `examples/output.prettyplease.rs`). It covers four
things:

- The byte view, `from_bytes` and `chunks`.
- The chunk iterator `Utf8LossyChunksIter::next`. Each call cuts the bytes
  not yet scanned into a `Utf8LossyChunk`: first a run of valid UTF-8
  (`valid`), then the one to three bytes of the malformed sequence that
  stopped decoding (`broken`).
- `Display`, which writes each valid run as it is and one U+FFFD for each
  non-empty broken run.
- `Debug`, which quotes the text, escapes characters with an
  `escape_debug` function, and writes broken bytes as `\xNN`.

The files and modules:

- `seqfacts.dfy` (`SeqFacts`) holds small facts about sequences that the
  proofs use.
- `unicode.dfy` (`Unicode`) holds UTF-8 as the scanner relies on it:
  - Table 3-7 of The Unicode Standard (section 3.9), written row by row as
    data, with prefixes of rows, whole sequences and well-formed text;
  - `utf8_char_width`;
  - the encoding of scalar values (RFC 3629, section 3) and its inverse.
- `lossy.dfy` (`Lossy`) holds the scanner. `Step` is the specification of
  one call of `next`, and it is built from the table alone:
  - `valid` is the longest well-formed prefix;
  - `broken` is the maximal subpart of the ill-formed sequence after it, in
    the sense of section 3.9 of The Unicode Standard.

  `ChunksIter.Next` is the loop as the source writes it. It keeps the
  length table, the per-lead second-byte ranges, the `safe_get` sentinel
  and the `break`s, and it is proved to make the same cut as `Step`.
  `ChunkSeq` is the whole scan.
- `display.dfy` (`LossyDisplay`) and `debug.dfy` (`LossyDebug`) hold the
  two formatters. Each is a method that loops over the iterator, as the
  source does. Each is proved equal to a function of the whole chunk
  sequence, and the lemmas then state what that text is.
- `scenarios.dfy` (`LossyScenarios`) works through a few concrete buffers.

`Lossy.Chunk` is `Utf8LossyChunk` (lines 31-38). The contracts of
`Lossy.Step` and `Lossy.ChunkSeq` state what its two fields hold: `valid` is
well-formed and `broken` has at most three bytes.

Text that is written to a formatter is modelled as the UTF-8 bytes it
consists of.

The doc comment on `broken` (line 36) says it is "empty iff iterator item is
last". The code makes it true in one direction only. An empty `broken` does
mark the last item (`Lossy.StepBrokenEmpty`, `Lossy.ChunksBrokenBeforeLast`).
The last item can still have a non-empty `broken`, as the one-byte buffer
`FF` shows (`LossyScenarios.LoneInvalidByte`). The model follows the code.

## Model

| member | source | states |
|---|---|---|
| `Unicode.CharWidth` | examples/output.prettyplease.rs:56 | `utf8_char_width` as a table from the first byte; every width is at most 4 (which widths are 0 is stated by `Unicode.CharWidthAgreesWithTable`) |
| `Unicode.CharWidthAgreesWithTable` | examples/output.prettyplease.rs:56 | `utf8_char_width` gives 0 exactly for bytes that begin no row of Table 3-7 |
| `Unicode.DecodeEncode` | examples/output.prettyplease.rs:133-140 | every scalar value encodes to a whole well-formed sequence, and decoding gives the value back |
| `Unicode.EncodeDecode` | examples/output.prettyplease.rs:133-140 | every whole well-formed sequence is the encoding of the value it decodes to, so `len_utf8` is the sequence's length |
| `Unicode.DecodeAll` | examples/output.prettyplease.rs:133 | the characters of a well-formed run, in order, re-encode to exactly that run |
| `Unicode.DecodeEncodeAll` | examples/output.prettyplease.rs:133-140 | encoding a sequence of characters gives well-formed text, and `char_indices` over that text yields exactly those characters again |
| `Unicode.WellFormedConcat` | examples/output.prettyplease.rs:119-121 | well-formed text followed by well-formed text is well-formed |
| `Lossy.SentinelFailsEveryTest` | examples/output.prettyplease.rs:46-48 | the 0 that `safe_get` yields past the end fails the continuation test and both second-byte gates |
| `Lossy.SafeGet` | examples/output.prettyplease.rs:46-48 | a read inside the buffer yields that byte, and a read past the end yields 0 |
| `Lossy.IsContinuation` | examples/output.prettyplease.rs:59 | the test `b & 192 != TAG_CONT_U8`, negated, accepts exactly the trailing bytes 80..BF |
| `Lossy.ThreeByteGate` | examples/output.prettyplease.rs:65-71 | the match on (lead, second byte) after a width-3 lead passes only width-3 leads followed by a continuation byte |
| `Lossy.FourByteGate` | examples/output.prettyplease.rs:79-84 | the match on (lead, second byte) after a width-4 lead passes only width-4 leads followed by a continuation byte |
| `Lossy.ThreeByteGateIsTable` | examples/output.prettyplease.rs:64-71 | after a three-byte lead, the match admits exactly the second bytes Table 3-7 allows |
| `Lossy.FourByteGateIsTable` | examples/output.prettyplease.rs:78-84 | after a four-byte lead, the match admits exactly the second bytes Table 3-7 allows |
| `Lossy.Step` | examples/output.prettyplease.rs:41-107 | one step of a non-empty buffer: `valid ++ broken ++ rest` is the buffer, `rest` is shorter, `valid` is well-formed and `broken` has at most 3 bytes |
| `Lossy.ChunksIter.Next` | examples/output.prettyplease.rs:41-107 | the scanning loop returns None and leaves the cursor on empty input; otherwise it returns the chunk `Step` specifies, moves the cursor to the rest, and consumes at least one byte |
| `Lossy.StepValidIsLongest` | examples/output.prettyplease.rs:49-98 | `valid` is a well-formed prefix of the input, and no longer prefix is well-formed |
| `Lossy.StepBrokenEmpty` | examples/output.prettyplease.rs:35-37 | `broken` is empty exactly when the remaining input is well-formed; then `valid` is all of it and nothing remains |
| `Lossy.StepMaximalSubpart` | examples/output.prettyplease.rs:54-97 | a non-empty `broken` begins no well-formed sequence; it is one byte or a prefix of a table row; the next byte cannot extend it |
| `Lossy.TwoByteLead` | examples/output.prettyplease.rs:58-63 | a width-2 lead without a continuation byte after it is broken on its own; with one, both bytes start `valid` |
| `Lossy.ThreeByteLead` | examples/output.prettyplease.rs:64-77 | a width-3 lead is gated on its second byte: failing the gate breaks the lead alone; a missing third continuation breaks two bytes; otherwise all three start `valid` |
| `Lossy.FourByteLead` | examples/output.prettyplease.rs:78-94 | a width-4 lead is gated on its second byte, and its third and fourth bytes are checked one at a time: 1, 2 or 3 bytes are broken, or all four start `valid` |
| `Lossy.InvalidLead` | examples/output.prettyplease.rs:95 | a byte of width 0 that is not ASCII is broken on its own, after an empty `valid` |
| `Lossy.ValidLenOfWellFormed` | examples/output.prettyplease.rs:49-99 | on well-formed input the valid run covers the whole input |
| `Lossy.ChunkSeq` | examples/output.prettyplease.rs:114 | every item the iterator yields until it returns None, in order: there are no more chunks than bytes, and every chunk has a well-formed valid run and at most 3 broken bytes |
| `Lossy.ChunksReconstruct` | examples/output.prettyplease.rs:100-106 | the chunks of the whole scan, `valid` then `broken`, concatenate back to the buffer |
| `Lossy.ChunksBrokenBeforeLast` | examples/output.prettyplease.rs:35-37 | every chunk except the last has a broken part of 1 to 3 bytes |
| `Lossy.ChunksOfWellFormed` | examples/output.prettyplease.rs:32-37 | a non-empty buffer is well-formed exactly when its scan is one chunk holding the whole buffer with nothing broken |
| `Lossy.Utf8Lossy.Chunks` | examples/output.prettyplease.rs:16-20 | a new iterator whose cursor is the whole buffer |
| `Lossy.FromBytes` | examples/output.prettyplease.rs:13-15 | the view holds exactly the given bytes |
| `LossyDisplay.Fmt` | examples/output.prettyplease.rs:109-126 | the method (empty case, fast path and chunk loop) writes exactly the lossy text: each valid run, then one U+FFFD if the chunk's broken part is non-empty |
| `LossyDisplay.LossyTextStep` | examples/output.prettyplease.rs:114-122 | the lossy text of a non-empty buffer is the first chunk's valid run, its mark, then the lossy text of the rest |
| `LossyDisplay.LossyWellFormed` | examples/output.prettyplease.rs:109-126 | the lossy text of any buffer is well-formed UTF-8 |
| `LossyDisplay.LossyOfWellFormed` | examples/output.prettyplease.rs:115-118 | well-formed input is written unchanged |
| `LossyDisplay.LossyIsIdentityIffWellFormed` | examples/output.prettyplease.rs:109-126 | the lossy text equals the input exactly when the input is well-formed |
| `LossyDisplay.LossyIdempotent` | examples/output.prettyplease.rs:109-126 | writing the lossy text of the lossy text changes nothing |
| `LossyDebug.Fmt` | examples/output.prettyplease.rs:127-151 | the method writes exactly the debug text: a quote, each chunk's escaped valid run and hex-escaped broken bytes, then a quote |
| `LossyDebug.WriteChunk` | examples/output.prettyplease.rs:130-148 | one chunk is written as its escaped valid run, then the hex escapes of its broken bytes |
| `LossyDebug.WriteValid` | examples/output.prettyplease.rs:131-144 | a valid run is written with each character escaped as `escape_debug` says |
| `LossyDebug.WriteChars` | examples/output.prettyplease.rs:132-143 | the `char_indices` loop with its pending slice `valid[from..i]` writes each character's encoding when its escape is one character, and the escape otherwise |
| `LossyDebug.EscapeOneDecodes` | examples/output.prettyplease.rs:134-141 | what is written for one character is well-formed text, and it reads back as the character itself when its escape is one character long and as the characters of the escape otherwise |
| `LossyDebug.CharIndexStep` | examples/output.prettyplease.rs:133-140 | the byte index of character k is where its encoding starts in the run, and `i + len_utf8` is where it ends |
| `LossyDebug.WriteEscape` | examples/output.prettyplease.rs:137-139 | the characters of an escape are written one after another |
| `LossyDebug.WriteBroken` | examples/output.prettyplease.rs:145-147 | each broken byte is written as its `\x` escape, in order |
| `LossyDebug.HexEscape` | examples/output.prettyplease.rs:146 | a byte is written as four bytes, starting with `\` and `x`; that the last two are its lower-case, zero-padded hex digits is stated by `LossyDebug.UnescapeHexEscape` |
| `LossyDebug.UnescapeHexEscape` | examples/output.prettyplease.rs:146 | `\x{:02x}` reads back as its byte, and it is the only four-byte escape that reads back as that byte |
| `LossyDebug.UnescapeHexEscapes` | examples/output.prettyplease.rs:145-147 | the hex escapes of a broken run read back as exactly that run |
| `LossyDebug.DebugWellFormed` | examples/output.prettyplease.rs:127-151 | the debug text of any buffer is well-formed UTF-8 |
| `LossyDebug.EscapeCharsVerbatim` | examples/output.prettyplease.rs:133-143 | when none of the run's characters needs an escape, they are written as their own encodings |
| `LossyDebug.DebugOfWellFormed` | examples/output.prettyplease.rs:127-151 | when none of the characters of well-formed input needs an escape, its debug text is the input between quotes |
| `LossyDebug.DebugOfInvalidByte` | examples/output.prettyplease.rs:145-146 | a lone byte that begins no sequence is written as `"\xNN"` |
| `LossyScenarios.EmptyBuffer` | examples/output.prettyplease.rs:42-44 | an empty buffer has no chunks, writes nothing under `Display` and `""` under `Debug` |
| `LossyScenarios.Hello` | examples/output.prettyplease.rs:115-117 | ASCII text is one chunk with nothing broken and is written unchanged |
| `LossyScenarios.DebugOfLetters` | examples/output.prettyplease.rs:127-151 | text made of lower-case letters is written between quotes as it is, by any escape function that leaves letters alone |
| `LossyScenarios.HelloDebug` | examples/output.prettyplease.rs:127-151 | with an escape function that escapes the quote but not letters, as `escape_debug` does, `hello` is written as `"hello"` |
| `LossyScenarios.LoneInvalidByte` | examples/output.prettyplease.rs:36 | `FF` is a single chunk that is last and still has a non-empty `broken`; it is written as U+FFFD and as `"\xff"` |
| `LossyScenarios.StrayBytes` | examples/output.prettyplease.rs:58-97 | `61 E2 28 A1` is cut into `(a, E2)` and `((, A1)`, and written with two U+FFFD |
| `LossyScenarios.TruncatedFourByteSequence` | examples/output.prettyplease.rs:78-94 | `F0 9F 98` is one broken part of three bytes, written as one U+FFFD |
| `LossyScenarios.WholeThenTruncatedFourByteSequence` | examples/output.prettyplease.rs:78-102 | `F0 9F 98 80 F0 9F 98` is one chunk: U+1F600 is valid, and the truncated copy after it is a 3-byte broken part |
| `LossyScenarios.EncodedSurrogate` | examples/output.prettyplease.rs:68 | `ED A0 80` is three broken parts of one byte each, written as three U+FFFD |

## Left out

- Formatter errors are left out. The model has no error path for `?` and treats every write as successful.
- `LossyDisplay.Fmt` assumes a formatter with no width, precision or fill flags. Under those flags, `valid.fmt(f)` and `"".fmt(f)` pad or truncate, while `write_str` does not. The model writes the run as it is.
- `escape_debug` is a parameter `escape` from a scalar value to the characters of its escape. The Unicode property tables that decide which characters it escapes are not part of this model.
- Lifetimes, `mem::transmute`, `split_at_unchecked`, `get_unchecked` and `from_utf8_unchecked` are modelled as plain sequence slicing and indexing. The bounds and well-formedness they rely on are proved instead.
- `usize` indices are modelled as unbounded naturals. No index in the code can exceed the buffer length plus 4, so wrap-around does not arise.
- `byte & 192 != TAG_CONT_U8` is modelled as a comparison of the byte's top two bits, `b / 64 != 2`.
- `char_indices` is modelled as decoding the valid run into its characters up front (`Unicode.DecodeAll`) and then walking them together with their byte offsets.
- The `assert!` on line 116 is not a runtime check in the model. `LossyDisplay.Fmt` proves that it always holds.
- src/pat.rs is not part of this model.
