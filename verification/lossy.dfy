/**
 * The lossy UTF-8 view of a byte buffer and the chunk scanner over it
 * (`Utf8Lossy`, `Utf8LossyChunksIter`, `Utf8LossyChunk`).
 *
 * The scanner cuts the remaining bytes into a longest well-formed prefix
 * (`valid`) and, after it, the maximal subpart of the ill-formed sequence that
 * stops decoding (`broken`, one to three bytes). That cut is specified by
 * `Step`, built from Table 3-7 alone; the loop of `ChunksIter.Next`, which
 * works with the length table and per-lead second-byte ranges instead, is
 * proved to make the same cut.
 */
module Lossy {
  import opened Unicode

  datatype Option<T> = None | Some(value: T)

  /** One item of the scan: a well-formed run, then the malformed bytes that end it. */
  datatype Chunk = Chunk(valid: seq<Byte>, broken: seq<Byte>)

  // ---------------------------------------------------------------------
  // What the scanner tests, byte by byte.

  /**
   * The `TAG_CONT_U8` test: the top two bits of `b` are 10, that is
   * `b & 0xC0 == 0x80`. It accepts exactly the trailing bytes of Table 3-7.
   */
  function IsContinuation(b: Byte): (r: bool)
    ensures r <==> Trail.Has(b)
  {
    b / 0x40 == 0x80 / 0x40
  }

  /** A bounds-checked read: past the end of `xs` it yields the sentinel 0. */
  function SafeGet(xs: seq<Byte>, i: nat): (b: Byte)
    ensures i < |xs| ==> b == xs[i]
    ensures i >= |xs| ==> b == 0
  {
    if i < |xs| then xs[i] else 0
  }

  /** The second bytes the scanner admits after a three-byte lead. */
  function ThreeByteGate(lead: Byte, second: Byte): (r: bool)
    ensures r ==> CharWidth(lead) == 3 && IsContinuation(second)
  {
    (lead == 0xE0 && 0xA0 <= second <= 0xBF) ||
    (0xE1 <= lead <= 0xEC && 0x80 <= second <= 0xBF) ||
    (lead == 0xED && 0x80 <= second <= 0x9F) ||
    (0xEE <= lead <= 0xEF && 0x80 <= second <= 0xBF)
  }

  /** The second bytes the scanner admits after a four-byte lead. */
  function FourByteGate(lead: Byte, second: Byte): (r: bool)
    ensures r ==> CharWidth(lead) == 4 && IsContinuation(second)
  {
    (lead == 0xF0 && 0x90 <= second <= 0xBF) ||
    (0xF1 <= lead <= 0xF3 && 0x80 <= second <= 0xBF) ||
    (lead == 0xF4 && 0x80 <= second <= 0x8F)
  }

  /** The sentinel read past the end passes none of the byte tests. */
  lemma SentinelFailsEveryTest(xs: seq<Byte>, i: nat, lead: Byte)
    requires i >= |xs|
    ensures !IsContinuation(SafeGet(xs, i))
    ensures !ThreeByteGate(lead, SafeGet(xs, i)) && !FourByteGate(lead, SafeGet(xs, i))
  {
  }

  /** After a three-byte lead, the gate admits exactly the second bytes Table 3-7 allows. */
  lemma ThreeByteGateIsTable(lead: Byte, second: Byte)
    requires CharWidth(lead) == 3
    ensures ThreeByteGate(lead, second) <==> IsCharPrefix([lead, second])
  {
  }

  /** After a four-byte lead, the gate admits exactly the second bytes Table 3-7 allows. */
  lemma FourByteGateIsTable(lead: Byte, second: Byte)
    requires CharWidth(lead) == 4
    ensures FourByteGate(lead, second) <==> IsCharPrefix([lead, second])
  {
  }

  // ---------------------------------------------------------------------
  // The cut, specified from Table 3-7.

  /** The length of the well-formed sequence `t` starts with, or 0 if it starts with none. */
  function CharLenAt(t: seq<Byte>): (n: nat)
    ensures n <= |t| && n <= 4
    ensures n > 0 ==> IsChar(t[..n])
  {
    if |t| >= 1 && IsChar(t[..1]) then 1
    else if |t| >= 2 && IsChar(t[..2]) then 2
    else if |t| >= 3 && IsChar(t[..3]) then 3
    else if |t| >= 4 && IsChar(t[..4]) then 4
    else 0
  }

  /** How far `t` decodes, one well-formed sequence after another. */
  function ValidLen(t: seq<Byte>): (n: nat)
    ensures n <= |t|
    decreases |t|
  {
    var k := CharLenAt(t);
    if k == 0 then 0 else k + ValidLen(t[k..])
  }

  /**
   * The length of the maximal subpart at the start of `t` (The Unicode
   * Standard, section 3.9): the longest prefix that could still begin a
   * well-formed sequence, and at least one byte. It is applied only where no
   * well-formed sequence begins, so it never reaches four bytes.
   */
  function SubpartLen(t: seq<Byte>): (n: nat)
    ensures n <= |t| && n <= 3
    ensures t != [] <==> n >= 1
  {
    if t == [] then 0
    else if |t| >= 3 && IsCharPrefix(t[..3]) then 3
    else if |t| >= 2 && IsCharPrefix(t[..2]) then 2
    else 1
  }

  /**
   * One step of the scan over a non-empty `s`: the chunk it yields and the
   * bytes left for the next step.
   */
  function Step(s: seq<Byte>): (r: (Chunk, seq<Byte>))
    requires s != []
    ensures r.0.valid + r.0.broken + r.1 == s
    ensures |r.1| < |s|
    ensures WellFormed(r.0.valid) && |r.0.broken| <= 3
  {
    var v := ValidLen(s);
    var t := s[v..];
    var b := SubpartLen(t);
    ValidPrefixWellFormed(s);
    assert s[..v] + t[..b] + t[b..] == s;
    (Chunk(s[..v], t[..b]), t[b..])
  }

  /** The whole scan: every chunk the iterator yields over `s`, in order. */
  function ChunkSeq(s: seq<Byte>): (cs: seq<Chunk>)
    ensures |cs| <= |s|
    ensures forall c | c in cs :: WellFormed(c.valid) && |c.broken| <= 3
    decreases |s|
  {
    if s == [] then [] else [Step(s).0] + ChunkSeq(Step(s).1)
  }

  /** The bytes of a run of chunks, `valid` then `broken`, chunk after chunk. */
  function Joined(cs: seq<Chunk>): (s: seq<Byte>)
  {
    if cs == [] then [] else cs[0].valid + cs[0].broken + Joined(cs[1..])
  }

  // ---------------------------------------------------------------------
  // The valid prefix.

  /** Whatever `ValidLen` walks over is well-formed. */
  lemma {:induction false} ValidPrefixWellFormed(s: seq<Byte>)
    ensures WellFormed(s[..ValidLen(s)])
    decreases |s|
  {
    var k := CharLenAt(s);
    if k > 0 {
      var rest := s[k..];
      ValidPrefixWellFormed(rest);
      var v := s[..ValidLen(s)];
      assert v[..k] == s[..k];
      assert v[k..] == rest[..ValidLen(rest)];
      assert IsChar(v[..k]) && WellFormed(v[k..]);
    } else {
      assert s[..0] == [];
    }
  }

  /** At most one well-formed sequence starts where `s` starts, and `CharLenAt` finds it. */
  lemma CharLenAtFinds(s: seq<Byte>, k: nat)
    requires 1 <= k <= |s| && IsChar(s[..k])
    ensures CharLenAt(s) == k
  {
    CharIsCharPrefix(s[..k]);
    var j := CharLenAt(s);
    if 0 < j < k {
      CharIsCharPrefix(s[..j]);
    }
  }

  /** `ValidLen` stops at the longest well-formed prefix: no longer prefix is well-formed. */
  lemma {:induction false} ValidPrefixLongest(s: seq<Byte>, n: nat)
    requires ValidLen(s) < n <= |s|
    ensures !WellFormed(s[..n])
    decreases |s|
  {
    var p := s[..n];
    var k := CharWidth(s[0]);
    assert p[0] == s[0];
    if 1 <= k <= n && IsChar(s[..k]) {
      CharLenAtFinds(s, k);
      ValidPrefixLongest(s[k..], n - k);
      assert p[k..] == s[k..][..n - k];
    }
    assert 1 <= k <= n ==> p[..k] == s[..k];
    WellFormedFirstChar(p);
  }

  /** On well-formed input the valid prefix is everything. */
  lemma ValidLenOfWellFormed(s: seq<Byte>)
    requires WellFormed(s)
    ensures ValidLen(s) == |s|
  {
    assert s[..|s|] == s;
    if ValidLen(s) < |s| {
      ValidPrefixLongest(s, |s|);
    }
  }

  /** Where `ValidLen` stops short of the end, no well-formed sequence begins. */
  lemma {:induction false} ValidLenStops(s: seq<Byte>)
    requires ValidLen(s) < |s|
    ensures CharLenAt(s[ValidLen(s)..]) == 0
    decreases |s|
  {
    var k := CharLenAt(s);
    if k > 0 {
      ValidLenStops(s[k..]);
      assert s[k..][ValidLen(s[k..])..] == s[ValidLen(s)..];
    }
  }

  // ---------------------------------------------------------------------
  // The scanner's cases, one lead-byte class at a time. Each states how far
  // the specification decodes at position p of s in terms of the bytes the
  // loop reads there.

  lemma AsciiCase(s: seq<Byte>, p: nat)
    requires p < |s| && s[p] < 0x80
    ensures CharLenAt(s[p..]) == 1
  {
    assert Fills(s[p..][..1], RowAscii);
  }

  lemma TwoByteCase(s: seq<Byte>, p: nat)
    requires p < |s| && CharWidth(s[p]) == 2
    ensures IsContinuation(SafeGet(s, p + 1)) ==> CharLenAt(s[p..]) == 2
    ensures !IsContinuation(SafeGet(s, p + 1)) ==>
      CharLenAt(s[p..]) == 0 && SubpartLen(s[p..]) == 1
  {
    var t := s[p..];
    if IsContinuation(SafeGet(s, p + 1)) {
      assert Fills(t[..2], RowC2DF);
      CharLenAtFinds(t, 2);
    } else {
      if |t| >= 2 {
        assert t[..2] == [t[0], t[1]];
      }
      NoCharAt(t, 1);
    }
  }

  lemma ThreeByteCase(s: seq<Byte>, p: nat)
    requires p < |s| && CharWidth(s[p]) == 3
    ensures !ThreeByteGate(s[p], SafeGet(s, p + 1)) ==>
      CharLenAt(s[p..]) == 0 && SubpartLen(s[p..]) == 1
    ensures ThreeByteGate(s[p], SafeGet(s, p + 1)) && !IsContinuation(SafeGet(s, p + 2)) ==>
      CharLenAt(s[p..]) == 0 && SubpartLen(s[p..]) == 2
    ensures ThreeByteGate(s[p], SafeGet(s, p + 1)) && IsContinuation(SafeGet(s, p + 2)) ==>
      CharLenAt(s[p..]) == 3
  {
    var t := s[p..];
    if !ThreeByteGate(s[p], SafeGet(s, p + 1)) {
      if |t| >= 2 {
        ThreeByteGateIsTable(t[0], t[1]);
        assert t[..2] == [t[0], t[1]];
      }
      NoCharAt(t, 1);
    } else {
      ThreeByteGateIsTable(t[0], t[1]);
      assert t[..2] == [t[0], t[1]];
      if !IsContinuation(SafeGet(s, p + 2)) {
        if |t| >= 3 {
          TrailExtends(t[..2], t[2]);
          assert t[..3] == t[..2] + [t[2]];
        }
        NoCharAt(t, 2);
      } else {
        assert Fills(t[..3], RowE0) || Fills(t[..3], RowE1EC) ||
          Fills(t[..3], RowED) || Fills(t[..3], RowEEEF);
        CharLenAtFinds(t, 3);
      }
    }
  }

  lemma FourByteCase(s: seq<Byte>, p: nat)
    requires p < |s| && CharWidth(s[p]) == 4
    ensures !FourByteGate(s[p], SafeGet(s, p + 1)) ==>
      CharLenAt(s[p..]) == 0 && SubpartLen(s[p..]) == 1
    ensures FourByteGate(s[p], SafeGet(s, p + 1)) && !IsContinuation(SafeGet(s, p + 2)) ==>
      CharLenAt(s[p..]) == 0 && SubpartLen(s[p..]) == 2
    ensures FourByteGate(s[p], SafeGet(s, p + 1)) && IsContinuation(SafeGet(s, p + 2)) &&
            !IsContinuation(SafeGet(s, p + 3)) ==>
      CharLenAt(s[p..]) == 0 && SubpartLen(s[p..]) == 3
    ensures FourByteGate(s[p], SafeGet(s, p + 1)) && IsContinuation(SafeGet(s, p + 2)) &&
            IsContinuation(SafeGet(s, p + 3)) ==>
      CharLenAt(s[p..]) == 4
  {
    var t := s[p..];
    if !FourByteGate(s[p], SafeGet(s, p + 1)) {
      if |t| >= 2 {
        FourByteGateIsTable(t[0], t[1]);
        assert t[..2] == [t[0], t[1]];
      }
      NoCharAt(t, 1);
    } else {
      FourByteGateIsTable(t[0], t[1]);
      assert t[..2] == [t[0], t[1]];
      if !IsContinuation(SafeGet(s, p + 2)) {
        if |t| >= 3 {
          TrailExtends(t[..2], t[2]);
          assert t[..3] == t[..2] + [t[2]];
        }
        NoCharAt(t, 2);
      } else {
        TrailExtends(t[..2], t[2]);
        assert t[..3] == t[..2] + [t[2]];
        if !IsContinuation(SafeGet(s, p + 3)) {
          if |t| >= 4 {
            TrailExtends(t[..3], t[3]);
            assert t[..4] == t[..3] + [t[3]];
          }
          NoCharAt(t, 3);
        } else {
          assert Fills(t[..4], RowF0) || Fills(t[..4], RowF1F3) || Fills(t[..4], RowF4);
          CharLenAtFinds(t, 4);
        }
      }
    }
  }

  lemma InvalidLeadCase(s: seq<Byte>, p: nat)
    requires p < |s| && s[p] >= 0x80 && CharWidth(s[p]) == 0
    ensures CharLenAt(s[p..]) == 0 && SubpartLen(s[p..]) == 1
  {
    var t := s[p..];
    CharWidthAgreesWithTable(t[0]);
    if |t| >= 2 {
      assert t[..2][..1] == [t[0]];
      if IsCharPrefix(t[..2]) {
        CharPrefixClosed(t[..2], 1);
      }
    }
    NoCharAt(t, 1);
  }

  /**
   * Past the second byte every row of Table 3-7 asks for a trailing byte:
   * an unfinished multi-byte prefix grows exactly by a continuation byte.
   */
  lemma TrailExtends(q: seq<Byte>, b: Byte)
    requires IsCharPrefix(q) && 2 <= |q| && q[0] >= 0x80
    ensures IsCharPrefix(q + [b]) <==> |q| < CharWidth(q[0]) && IsContinuation(b)
  {
    CharWidthAgreesWithTable(q[0]);
    var qb := q + [b];
    assert qb[..|q|] == q;
    assert forall k | 0 <= k < |q| :: qb[k] == q[k];
  }

  /**
   * The first m bytes of t begin a sequence but do not complete one, and
   * the byte after them (if any) cannot extend them: then no well-formed
   * sequence starts at t, and those m bytes are its maximal subpart.
   */
  lemma NoCharAt(t: seq<Byte>, m: nat)
    requires 1 <= m <= 3 && m <= |t|
    requires m == 1 || IsCharPrefix(t[..m])
    requires m < CharWidth(t[0]) || CharWidth(t[0]) == 0
    requires m < |t| ==> !IsCharPrefix(t[..m + 1])
    ensures CharLenAt(t) == 0 && SubpartLen(t) == m
  {
    forall k | 1 <= k <= |t| && k <= 4
      ensures !IsChar(t[..k])
    {
      CharIsCharPrefix(t[..k]);
      assert t[..k][0] == t[0];
      if k > m {
        CharPrefixClosed(t[..k], m + 1);
        assert t[..k][..m + 1] == t[..m + 1];
      }
    }
    if m == 1 && |t| >= 3 {
      CharPrefixClosed(t[..3], 2);
      assert t[..3][..2] == t[..2];
    }
  }

  // ---------------------------------------------------------------------
  // What one step yields.

  /** The valid part of a step is the longest well-formed prefix of the input. */
  lemma StepValidIsLongest(s: seq<Byte>)
    requires s != []
    ensures var v := Step(s).0.valid;
      s[..|v|] == v && WellFormed(v) &&
      forall n | |v| < n <= |s| :: !WellFormed(s[..n])
  {
    forall n | ValidLen(s) < n <= |s|
      ensures !WellFormed(s[..n])
    {
      ValidPrefixLongest(s, n);
    }
  }

  /**
   * The broken part is empty exactly when the whole input is well-formed, and
   * then the step takes everything: an empty `broken` marks the last chunk.
   */
  lemma StepBrokenEmpty(s: seq<Byte>)
    requires s != []
    ensures var (c, rest) := Step(s);
      (c.broken == [] <==> WellFormed(s)) &&
      (c.broken == [] ==> c.valid == s && rest == [])
  {
    if WellFormed(s) {
      ValidLenOfWellFormed(s);
    }
    assert s[..|s|] == s;
  }

  /**
   * A non-empty broken part is the maximal subpart of the ill-formed sequence
   * where decoding stopped: no well-formed sequence starts there, the broken
   * bytes are one byte or could still begin a well-formed sequence, and the
   * byte after them could not continue it.
   */
  lemma StepMaximalSubpart(s: seq<Byte>)
    requires s != []
    ensures var (c, rest) := Step(s);
      var t := c.broken + rest;
      c.broken != [] ==>
        (forall k | 1 <= k <= |t| :: !IsChar(t[..k])) &&
        (|c.broken| == 1 || IsCharPrefix(c.broken)) &&
        (rest != [] ==> !IsCharPrefix(c.broken + [rest[0]]))
  {
    var v := ValidLen(s);
    var t := s[v..];
    if t != [] {
      ValidLenStops(s);
      SubpartIsMaximal(t);
    }
    assert Step(s).0.broken + Step(s).1 == t;
  }

  /** `SubpartLen` measures a maximal subpart wherever no well-formed sequence begins. */
  lemma SubpartIsMaximal(t: seq<Byte>)
    requires t != [] && CharLenAt(t) == 0
    ensures var b := SubpartLen(t);
      (forall k | 1 <= k <= |t| :: !IsChar(t[..k])) &&
      (b == 1 || IsCharPrefix(t[..b])) &&
      (b < |t| ==> !IsCharPrefix(t[..b] + [t[b]]))
  {
    var b := SubpartLen(t);
    forall k | 1 <= k <= |t|
      ensures !IsChar(t[..k])
    {
      CharIsCharPrefix(t[..k]);
    }
    if b < |t| {
      assert t[..b] + [t[b]] == t[..b + 1];
      if b == 3 {
        FourBytePrefixIsChar(t[..4]);
      }
    }
  }

  /** Four bytes that could begin a well-formed sequence are one. */
  lemma FourBytePrefixIsChar(p: seq<Byte>)
    requires |p| == 4
    ensures IsCharPrefix(p) ==> IsChar(p)
  {
  }

  /**
   * A lead byte of width 2 is followed by one continuation byte; without it
   * only the lead byte is broken.
   */
  lemma TwoByteLead(s: seq<Byte>)
    requires s != [] && CharWidth(s[0]) == 2
    ensures !IsContinuation(SafeGet(s, 1)) ==> Step(s).0 == Chunk([], [s[0]])
    ensures IsContinuation(SafeGet(s, 1)) ==> |Step(s).0.valid| >= 2 && Step(s).0.valid[..2] == s[..2]
  {
    TwoByteCase(s, 0);
    assert s[0..] == s;
    LeadSteps(s);
  }

  /**
   * A lead byte of width 3 is gated on its second byte (E0: A0..BF, E1..EC
   * and EE..EF: 80..BF, ED: 80..9F). A second byte that fails the gate is not
   * consumed, so only the lead byte is broken; a missing third continuation
   * byte leaves the first two broken.
   */
  lemma ThreeByteLead(s: seq<Byte>)
    requires s != [] && CharWidth(s[0]) == 3
    ensures !ThreeByteGate(s[0], SafeGet(s, 1)) ==> Step(s).0 == Chunk([], [s[0]])
    ensures ThreeByteGate(s[0], SafeGet(s, 1)) && !IsContinuation(SafeGet(s, 2)) ==>
      Step(s).0 == Chunk([], s[..2])
    ensures ThreeByteGate(s[0], SafeGet(s, 1)) && IsContinuation(SafeGet(s, 2)) ==>
      |Step(s).0.valid| >= 3 && Step(s).0.valid[..3] == s[..3]
  {
    ThreeByteCase(s, 0);
    assert s[0..] == s;
    LeadSteps(s);
  }

  /**
   * A lead byte of width 4 is gated on its second byte (F0: 90..BF, F1..F3:
   * 80..BF, F4: 80..8F) and then needs two continuation bytes, each checked
   * on its own: a truncated attempt leaves one, two or three bytes broken.
   */
  lemma FourByteLead(s: seq<Byte>)
    requires s != [] && CharWidth(s[0]) == 4
    ensures !FourByteGate(s[0], SafeGet(s, 1)) ==> Step(s).0 == Chunk([], [s[0]])
    ensures FourByteGate(s[0], SafeGet(s, 1)) && !IsContinuation(SafeGet(s, 2)) ==>
      Step(s).0 == Chunk([], s[..2])
    ensures FourByteGate(s[0], SafeGet(s, 1)) && IsContinuation(SafeGet(s, 2)) &&
            !IsContinuation(SafeGet(s, 3)) ==>
      Step(s).0 == Chunk([], s[..3])
    ensures FourByteGate(s[0], SafeGet(s, 1)) && IsContinuation(SafeGet(s, 2)) &&
            IsContinuation(SafeGet(s, 3)) ==>
      |Step(s).0.valid| >= 4 && Step(s).0.valid[..4] == s[..4]
  {
    FourByteCase(s, 0);
    assert s[0..] == s;
    LeadSteps(s);
  }

  /** A byte that starts no sequence is broken on its own. */
  lemma InvalidLead(s: seq<Byte>)
    requires s != [] && s[0] >= 0x80 && CharWidth(s[0]) == 0
    ensures Step(s).0 == Chunk([], [s[0]])
  {
    InvalidLeadCase(s, 0);
    assert s[0..] == s;
    LeadSteps(s);
  }

  /** How a step begins, given how far decoding goes from the first byte. */
  lemma LeadSteps(s: seq<Byte>)
    requires s != []
    ensures CharLenAt(s) == 0 ==> Step(s).0 == Chunk([], s[..SubpartLen(s)])
    ensures CharLenAt(s) > 0 ==>
      var v := Step(s).0.valid;
      |v| >= CharLenAt(s) && v[..CharLenAt(s)] == s[..CharLenAt(s)]
  {
    assert s[0..] == s;
    if SubpartLen(s) == 1 {
      assert s[..1] == [s[0]];
    }
  }

  // ---------------------------------------------------------------------
  // The whole scan.

  /** The chunks, `valid` then `broken`, put back together give the buffer. */
  lemma {:induction false} ChunksReconstruct(s: seq<Byte>)
    ensures Joined(ChunkSeq(s)) == s
    decreases |s|
  {
    if s != [] {
      var (c, rest) := Step(s);
      ChunksReconstruct(rest);
      var cs := ChunkSeq(s);
      assert cs[0] == c && cs[1..] == ChunkSeq(rest);
    }
  }

  /** Every chunk but the last has a broken part of one to three bytes. */
  lemma {:induction false} ChunksBrokenBeforeLast(s: seq<Byte>)
    ensures var cs := ChunkSeq(s);
      forall j | 0 <= j < |cs| - 1 :: 1 <= |cs[j].broken| <= 3
    decreases |s|
  {
    if s != [] {
      var (c, rest) := Step(s);
      ChunksBrokenBeforeLast(rest);
      StepBrokenEmpty(s);
      var cs := ChunkSeq(s);
      assert cs[1..] == ChunkSeq(rest);
      forall j | 0 <= j < |cs| - 1
        ensures 1 <= |cs[j].broken| <= 3
      {
        if j > 0 {
          assert cs[j] == ChunkSeq(rest)[j - 1];
        }
      }
    }
  }

  /** A non-empty buffer is well-formed exactly when its scan is one chunk with nothing broken. */
  lemma ChunksOfWellFormed(s: seq<Byte>)
    requires s != []
    ensures WellFormed(s) <==> ChunkSeq(s) == [Chunk(s, [])]
  {
    StepBrokenEmpty(s);
    var cs := ChunkSeq(s);
    assert cs[0] == Step(s).0;
  }

  // ---------------------------------------------------------------------
  // The byte view and the iterator.

  /** The cursor over the bytes not yet scanned (`Utf8LossyChunksIter`). */
  class ChunksIter {
    var source: seq<Byte>

    constructor (source: seq<Byte>)
      ensures this.source == source
    {
      this.source := source;
    }

    /**
     * Yields the next chunk and moves the cursor past it; yields None once
     * the bytes are used up.
     */
    method Next() returns (r: Option<Chunk>)
      modifies this
      ensures old(source) == [] ==> r == None && source == []
      ensures old(source) != [] ==> r == Some(Step(old(source)).0) && source == Step(old(source)).1
      ensures r.Some? ==> old(source) == r.value.valid + r.value.broken + source && |source| < |old(source)|
    {
      if |source| == 0 {
        return None;
      }
      var s := source;
      var i := 0;
      var validUpTo := 0;
      while i < |s|
        invariant validUpTo == i <= |s|
        invariant ScannedTo(s, i)
      {
        var byte := s[i];
        i := i + 1;
        if byte < 128 {
          AsciiScan(s, validUpTo);
        } else {
          var w := CharWidth(byte);
          if w == 2 {
            TwoByteScan(s, validUpTo);
            if !IsContinuation(SafeGet(s, i)) {
              break;
            }
            i := i + 1;
          } else if w == 3 {
            ThreeByteScan(s, validUpTo);
            if !ThreeByteGate(byte, SafeGet(s, i)) {
              break;
            }
            i := i + 1;
            if !IsContinuation(SafeGet(s, i)) {
              break;
            }
            i := i + 1;
          } else if w == 4 {
            FourByteScan(s, validUpTo);
            if !FourByteGate(byte, SafeGet(s, i)) {
              break;
            }
            i := i + 1;
            if !IsContinuation(SafeGet(s, i)) {
              break;
            }
            i := i + 1;
            if !IsContinuation(SafeGet(s, i)) {
              break;
            }
            i := i + 1;
          } else {
            InvalidLeadScan(s, validUpTo);
            break;
          }
        }
        validUpTo := i;
      }
      if validUpTo == i {
        CutAtEnd(s, i);
      }
      source := s[i..];
      r := Some(Chunk(s[..validUpTo], s[validUpTo..i]));
    }
  }

  /** Step cuts `s` into `s[..v]`, `s[v..i]` and `s[i..]`. */
  ghost predicate CutsAt(s: seq<Byte>, v: nat, i: nat)
    requires s != [] && v <= i <= |s|
  {
    Step(s) == (Chunk(s[..v], s[v..i]), s[i..])
  }

  /** Decoding `s` from its start passes through position i. */
  ghost predicate ScannedTo(s: seq<Byte>, i: nat)
  {
    i <= |s| && ValidLen(s) == i + ValidLen(s[i..])
  }

  /** One more well-formed sequence of length k at position v. */
  lemma ScanChar(s: seq<Byte>, v: nat, k: nat)
    requires ScannedTo(s, v) && v + k <= |s| && k >= 1 && CharLenAt(s[v..]) == k
    ensures ScannedTo(s, v + k)
  {
    assert s[v..][k..] == s[v + k..];
  }

  /** The cut where the scanner breaks out of its loop. */
  lemma CutAtStop(s: seq<Byte>, v: nat, i: nat)
    requires v < i <= |s| && ScannedTo(s, v)
    requires CharLenAt(s[v..]) == 0 && SubpartLen(s[v..]) == i - v
    ensures CutsAt(s, v, i)
  {
    assert s[v..][..i - v] == s[v..i];
    assert s[v..][i - v..] == s[i..];
  }

  /** The cut where the scanner runs off the end of the bytes. */
  lemma CutAtEnd(s: seq<Byte>, i: nat)
    requires s != [] && i == |s| && ScannedTo(s, i)
    ensures CutsAt(s, i, i)
  {
    assert s[i..] == [];
  }

  // The loop body of `Next`, case by case, from position v where the
  // previous character ended.

  lemma AsciiScan(s: seq<Byte>, v: nat)
    requires ScannedTo(s, v) && v < |s| && s[v] < 0x80
    ensures ScannedTo(s, v + 1)
  {
    AsciiCase(s, v);
    ScanChar(s, v, 1);
  }

  lemma TwoByteScan(s: seq<Byte>, v: nat)
    requires ScannedTo(s, v) && v < |s| && CharWidth(s[v]) == 2
    ensures !IsContinuation(SafeGet(s, v + 1)) ==> CutsAt(s, v, v + 1)
    ensures IsContinuation(SafeGet(s, v + 1)) ==> ScannedTo(s, v + 2)
  {
    TwoByteCase(s, v);
    if IsContinuation(SafeGet(s, v + 1)) {
      ScanChar(s, v, 2);
    } else {
      CutAtStop(s, v, v + 1);
    }
  }

  lemma ThreeByteScan(s: seq<Byte>, v: nat)
    requires ScannedTo(s, v) && v < |s| && CharWidth(s[v]) == 3
    ensures !ThreeByteGate(s[v], SafeGet(s, v + 1)) ==> CutsAt(s, v, v + 1)
    ensures ThreeByteGate(s[v], SafeGet(s, v + 1)) ==> v + 2 <= |s|
    ensures ThreeByteGate(s[v], SafeGet(s, v + 1)) && !IsContinuation(SafeGet(s, v + 2)) ==>
      CutsAt(s, v, v + 2)
    ensures ThreeByteGate(s[v], SafeGet(s, v + 1)) && IsContinuation(SafeGet(s, v + 2)) ==>
      ScannedTo(s, v + 3)
  {
    ThreeByteCase(s, v);
    if !ThreeByteGate(s[v], SafeGet(s, v + 1)) {
      CutAtStop(s, v, v + 1);
    } else if !IsContinuation(SafeGet(s, v + 2)) {
      CutAtStop(s, v, v + 2);
    } else {
      ScanChar(s, v, 3);
    }
  }

  lemma FourByteScan(s: seq<Byte>, v: nat)
    requires ScannedTo(s, v) && v < |s| && CharWidth(s[v]) == 4
    ensures !FourByteGate(s[v], SafeGet(s, v + 1)) ==> CutsAt(s, v, v + 1)
    ensures FourByteGate(s[v], SafeGet(s, v + 1)) ==> v + 2 <= |s|
    ensures FourByteGate(s[v], SafeGet(s, v + 1)) && !IsContinuation(SafeGet(s, v + 2)) ==>
      CutsAt(s, v, v + 2)
    ensures FourByteGate(s[v], SafeGet(s, v + 1)) && IsContinuation(SafeGet(s, v + 2)) ==>
      v + 3 <= |s|
    ensures FourByteGate(s[v], SafeGet(s, v + 1)) && IsContinuation(SafeGet(s, v + 2)) &&
            !IsContinuation(SafeGet(s, v + 3)) ==>
      CutsAt(s, v, v + 3)
    ensures FourByteGate(s[v], SafeGet(s, v + 1)) && IsContinuation(SafeGet(s, v + 2)) &&
            IsContinuation(SafeGet(s, v + 3)) ==>
      ScannedTo(s, v + 4)
  {
    FourByteCase(s, v);
    if !FourByteGate(s[v], SafeGet(s, v + 1)) {
      CutAtStop(s, v, v + 1);
    } else if !IsContinuation(SafeGet(s, v + 2)) {
      CutAtStop(s, v, v + 2);
    } else if !IsContinuation(SafeGet(s, v + 3)) {
      CutAtStop(s, v, v + 3);
    } else {
      ScanChar(s, v, 4);
    }
  }

  lemma InvalidLeadScan(s: seq<Byte>, v: nat)
    requires ScannedTo(s, v) && v < |s| && s[v] >= 0x80 && CharWidth(s[v]) == 0
    ensures CutsAt(s, v, v + 1)
  {
    InvalidLeadCase(s, v);
    CutAtStop(s, v, v + 1);
  }

  /** A byte buffer seen as lossy UTF-8 text, without copying (`Utf8Lossy`). */
  datatype Utf8Lossy = Utf8Lossy(bytes: seq<Byte>)
  {
    /** A fresh cursor at the start of the bytes. */
    method Chunks() returns (it: ChunksIter)
      ensures fresh(it) && it.source == bytes
    {
      it := new ChunksIter(bytes);
    }
  }

  /** Wraps the bytes as they are: no check, no copy. */
  function FromBytes(bytes: seq<Byte>): (v: Utf8Lossy)
    ensures v.bytes == bytes
  {
    Utf8Lossy(bytes)
  }
}
