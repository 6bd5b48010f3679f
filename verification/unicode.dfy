/**
 * The UTF-8 encoding form as the lossy decoder relies on it: RFC 3629,
 * section 4 (the byte-sequence grammar) and The Unicode Standard, chapter 3,
 * section 3.9, Table 3-7 (Well-Formed UTF-8 Byte Sequences).
 *
 * Table 3-7 is written down here as data, row by row; everything the decoder
 * does is later checked against these rows, never against its own match arms.
 */
module Unicode {
  import opened SeqFacts

  /** One octet of the input buffer. */
  type Byte = b: int | 0 <= b < 0x100

  /** A Unicode scalar value: a code point that is not a surrogate. */
  type Scalar = x: int | 0 <= x < 0x11_0000 && !(0xD800 <= x < 0xE000)

  /** The code point U+FFFD REPLACEMENT CHARACTER. */
  const ReplacementChar: Scalar := 0xFFFD

  /** An inclusive range of byte values: one cell of Table 3-7. */
  datatype Range = Range(lo: Byte, hi: Byte)
  {
    predicate Has(b: Byte) { lo <= b <= hi }
  }

  /** The range every trailing byte of the table falls into. */
  const Trail: Range := Range(0x80, 0xBF)

  /** The empty range, for cells a row does not use. */
  const Unused: Range := Range(0xFF, 0x00)

  /**
   * One row of Table 3-7: how many bytes the sequence has and the range of
   * each of its first, second, third and fourth byte.
   */
  datatype Row = Row(width: nat, first: Range, second: Range, third: Range, fourth: Range)

  // The nine rows of Table 3-7.
  const RowAscii: Row := Row(1, Range(0x00, 0x7F), Unused, Unused, Unused)
  const RowC2DF: Row := Row(2, Range(0xC2, 0xDF), Trail, Unused, Unused)
  const RowE0: Row := Row(3, Range(0xE0, 0xE0), Range(0xA0, 0xBF), Trail, Unused)
  const RowE1EC: Row := Row(3, Range(0xE1, 0xEC), Trail, Trail, Unused)
  const RowED: Row := Row(3, Range(0xED, 0xED), Range(0x80, 0x9F), Trail, Unused)
  const RowEEEF: Row := Row(3, Range(0xEE, 0xEF), Trail, Trail, Unused)
  const RowF0: Row := Row(4, Range(0xF0, 0xF0), Range(0x90, 0xBF), Trail, Trail)
  const RowF1F3: Row := Row(4, Range(0xF1, 0xF3), Trail, Trail, Trail)
  const RowF4: Row := Row(4, Range(0xF4, 0xF4), Range(0x80, 0x8F), Trail, Trail)

  /** `p` agrees, byte for byte, with the first |p| cells of `row`. */
  predicate Fits(p: seq<Byte>, row: Row)
  {
    |p| <= row.width && |p| <= 4 &&
    (|p| > 0 ==> row.first.Has(p[0])) &&
    (|p| > 1 ==> row.second.Has(p[1])) &&
    (|p| > 2 ==> row.third.Has(p[2])) &&
    (|p| > 3 ==> row.fourth.Has(p[3]))
  }

  /** `c` fills `row` completely. */
  predicate Fills(c: seq<Byte>, row: Row)
  {
    |c| == row.width && Fits(c, row)
  }

  /**
   * `p` is the beginning of some well-formed byte sequence: it can still be
   * completed to a row of Table 3-7.
   */
  predicate IsCharPrefix(p: seq<Byte>)
  {
    Fits(p, RowAscii) || Fits(p, RowC2DF) ||
    Fits(p, RowE0) || Fits(p, RowE1EC) || Fits(p, RowED) || Fits(p, RowEEEF) ||
    Fits(p, RowF0) || Fits(p, RowF1F3) || Fits(p, RowF4)
  }

  /** `c` is exactly one well-formed byte sequence (one encoded character). */
  predicate IsChar(c: seq<Byte>)
  {
    Fills(c, RowAscii) || Fills(c, RowC2DF) ||
    Fills(c, RowE0) || Fills(c, RowE1EC) || Fills(c, RowED) || Fills(c, RowEEEF) ||
    Fills(c, RowF0) || Fills(c, RowF1F3) || Fills(c, RowF4)
  }

  /** `s` splits into well-formed byte sequences, one after another. */
  predicate WellFormed(s: seq<Byte>)
    decreases |s|
  {
    s == [] ||
    exists k {:trigger WellFormed(s[k..])} | 1 <= k <= |s| && k <= 4 :: IsChar(s[..k]) && WellFormed(s[k..])
  }

  /**
   * The length table of RFC 3629 indexed by the first byte (the library's
   * `utf8_char_width`): 1 for ASCII, 2 for C2..DF, 3 for E0..EF, 4 for F0..F4
   * and 0 for every byte that cannot begin a character.
   */
  function CharWidth(b: Byte): (w: nat)
    ensures w <= 4
  {
    if b < 0x80 then 1
    else if 0xC2 <= b <= 0xDF then 2
    else if 0xE0 <= b <= 0xEF then 3
    else if 0xF0 <= b <= 0xF4 then 4
    else 0
  }

  /** The UTF-8 encoding of a scalar value (RFC 3629, section 3). */
  function Encode(x: Scalar): (c: seq<Byte>)
  {
    if x < 0x80 then [x]
    else if x < 0x800 then [0xC0 + x / 0x40, 0x80 + x % 0x40]
    else if x < 0x1_0000 then [0xE0 + x / 0x1000, 0x80 + x / 0x40 % 0x40, 0x80 + x % 0x40]
    else [0xF0 + x / 0x4_0000, 0x80 + x / 0x1000 % 0x40, 0x80 + x / 0x40 % 0x40, 0x80 + x % 0x40]
  }

  /** The bytes of U+FFFD. */
  const Replacement: seq<Byte> := [0xEF, 0xBF, 0xBD]

  /** The scalar value a well-formed byte sequence stands for. */
  function Decode(c: seq<Byte>): (x: Scalar)
    requires IsChar(c)
  {
    var b: seq<int> := c;
    if |c| == 1 then b[0]
    else if |c| == 2 then (b[0] - 0xC0) * 0x40 + (b[1] - 0x80)
    else if |c| == 3 then (b[0] - 0xE0) * 0x1000 + (b[1] - 0x80) * 0x40 + (b[2] - 0x80)
    else (b[0] - 0xF0) * 0x4_0000 + (b[1] - 0x80) * 0x1000 + (b[2] - 0x80) * 0x40 + (b[3] - 0x80)
  }

  /** The encodings of a sequence of scalar values, concatenated. */
  function EncodeAll(xs: seq<Scalar>): (s: seq<Byte>)
  {
    if xs == [] then [] else Encode(xs[0]) + EncodeAll(xs[1..])
  }

  // ---------------------------------------------------------------------
  // The table and the length table agree.

  /**
   * A byte starts some row of Table 3-7 exactly when the length table gives
   * it a non-zero width.
   */
  lemma CharWidthAgreesWithTable(b: Byte)
    ensures CharWidth(b) == 0 <==> !IsCharPrefix([b])
  {
  }

  /** Prefixes of a prefix of a row are prefixes of that row too. */
  lemma CharPrefixClosed(p: seq<Byte>, n: nat)
    requires n <= |p|
    ensures IsCharPrefix(p) ==> IsCharPrefix(p[..n])
  {
  }

  /** A row prefix as long as the width of its first byte fills the row. */
  lemma FullPrefixIsChar(p: seq<Byte>)
    requires IsCharPrefix(p) && p != [] && |p| == CharWidth(p[0])
    ensures IsChar(p)
  {
  }

  /**
   * Each complete sequence is also a row prefix, and it is as long as the
   * length table says for its first byte.
   */
  lemma CharIsCharPrefix(c: seq<Byte>)
    ensures IsChar(c) ==> IsCharPrefix(c) && c != [] && |c| == CharWidth(c[0])
  {
  }

  // ---------------------------------------------------------------------
  // Table 3-7 describes exactly the shortest encodings of scalar values.

  /** Every scalar value encodes to one row of the table. */
  lemma EncodeIsChar(x: Scalar)
    ensures IsChar(Encode(x))
  {
    var c := Encode(x);
    if x < 0x80 {
      assert Fills(c, RowAscii);
    } else if x < 0x800 {
      assert Fills(c, RowC2DF);
    } else if x < 0x1000 {
      assert Fills(c, RowE0);
    } else if x < 0xD000 {
      assert Fills(c, RowE1EC);
    } else if x < 0xD800 {
      assert Fills(c, RowED);
    } else if x < 0x1_0000 {
      assert Fills(c, RowEEEF);
    } else if x < 0x4_0000 {
      assert Fills(c, RowF0);
    } else if x < 0x10_0000 {
      assert Fills(c, RowF1F3);
    } else {
      assert Fills(c, RowF4);
    }
  }

  /** Dividing `q * d + r` by `d` gives back `q`, with remainder `r`. */
  lemma DivMod(q: int, r: int, d: int)
    requires d > 0 && 0 <= r < d
    ensures (q * d + r) / d == q && (q * d + r) % d == r
  {
    var n := q * d + r;
    var a, m := n / d, n % d;
    assert n == a * d + m;
    assert (q - a) * d == m - r;
    if q - a > 0 {
      MulAtLeast(q - a, d);
    } else if q - a < 0 {
      MulAtLeast(a - q, d);
    }
  }

  lemma MulAtLeast(k: int, d: int)
    requires k >= 1 && d > 0
    ensures k * d >= d
  {
  }

  /** Decoding undoes encoding. */
  lemma DecodeEncode(x: Scalar)
    ensures IsChar(Encode(x)) && Decode(Encode(x)) == x
  {
    EncodeIsChar(x);
    var c: seq<int> := Encode(x);
    if x >= 0x80 {
      DivMod(x / 0x40, x % 0x40, 0x40);
    }
    if x >= 0x800 {
      var q := x / 0x40;
      DivMod(q / 0x40, q % 0x40, 0x40);
      DivMod(q / 0x40, q % 0x40 * 0x40 + x % 0x40, 0x1000);
      assert x / 0x1000 == q / 0x40;
      if x >= 0x1_0000 {
        var q2 := q / 0x40;
        DivMod(q2 / 0x40, q2 % 0x40, 0x40);
        DivMod(q2 / 0x40, q2 % 0x40 * 0x1000 + x % 0x1000, 0x4_0000);
        assert x / 0x4_0000 == q2 / 0x40;
        assert x / 0x1000 % 0x40 == q2 % 0x40;
      }
    }
  }

  /**
   * Encoding undoes decoding: every well-formed sequence is the encoding of
   * the scalar value it stands for, so the table admits no overlong form, no
   * surrogate and nothing above U+10FFFF.
   */
  lemma EncodeDecode(c: seq<Byte>)
    requires IsChar(c)
    ensures Encode(Decode(c)) == c
  {
    CharIsCharPrefix(c);
    if |c| == 2 {
      EncodeDecodeTwo(c);
    } else if |c| == 3 {
      EncodeDecodeThree(c);
    } else if |c| == 4 {
      EncodeDecodeFour(c);
    }
  }

  lemma EncodeDecodeTwo(c: seq<Byte>)
    requires IsChar(c) && |c| == 2
    ensures Encode(Decode(c)) == c
  {
    var b: seq<int> := c;
    assert 0x80 <= Decode(c) < 0x800;
    DivMod(b[0] - 0xC0, b[1] - 0x80, 0x40);
  }

  lemma EncodeDecodeThree(c: seq<Byte>)
    requires IsChar(c) && |c| == 3
    ensures Encode(Decode(c)) == c
  {
    var b: seq<int> := c;
    assert 0x800 <= Decode(c) < 0x1_0000;
    EncodeDecode3(b[0] - 0xE0, b[1] - 0x80, b[2] - 0x80);
  }

  lemma EncodeDecodeFour(c: seq<Byte>)
    requires IsChar(c) && |c| == 4
    ensures Encode(Decode(c)) == c
  {
    var b: seq<int> := c;
    assert 0x1_0000 <= Decode(c);
    EncodeDecode4(b[0] - 0xF0, b[1] - 0x80, b[2] - 0x80, b[3] - 0x80);
  }


  /** The arithmetic of a three-byte sequence: its three 4-, 6- and 6-bit fields come back out. */
  lemma EncodeDecode3(h: int, m: int, l: int)
    requires 0 <= h < 0x10 && 0 <= m < 0x40 && 0 <= l < 0x40
    ensures var x := h * 0x1000 + m * 0x40 + l;
      x / 0x1000 == h && x / 0x40 % 0x40 == m && x % 0x40 == l
  {
    var hm := h * 0x40 + m;
    assert h * 0x1000 + m * 0x40 + l == hm * 0x40 + l;
    DivMod(hm, l, 0x40);
    DivMod(h, m, 0x40);
    DivMod(h, m * 0x40 + l, 0x1000);
  }

  /** The arithmetic of a four-byte sequence: its 3-, 6-, 6- and 6-bit fields come back out. */
  lemma EncodeDecode4(h: int, m1: int, m2: int, l: int)
    requires 0 <= h < 0x8 && 0 <= m1 < 0x40 && 0 <= m2 < 0x40 && 0 <= l < 0x40
    ensures var x := h * 0x4_0000 + m1 * 0x1000 + m2 * 0x40 + l;
      x / 0x4_0000 == h && x / 0x1000 % 0x40 == m1 && x / 0x40 % 0x40 == m2 && x % 0x40 == l
  {
    var x := h * 0x4_0000 + m1 * 0x1000 + m2 * 0x40 + l;
    var hm := h * 0x40 + m1;
    var hmm := hm * 0x40 + m2;
    assert x == hmm * 0x40 + l;
    DivMod(hmm, l, 0x40);
    DivMod(hm, m2, 0x40);
    assert x == hm * 0x1000 + (m2 * 0x40 + l);
    DivMod(hm, m2 * 0x40 + l, 0x1000);
    DivMod(h, m1, 0x40);
    DivMod(h, m1 * 0x1000 + m2 * 0x40 + l, 0x4_0000);
  }

  /** U+FFFD is written as EF BF BD. */
  lemma ReplacementIsEncoded()
    ensures Encode(ReplacementChar) == Replacement && IsChar(Replacement)
  {
    EncodeIsChar(ReplacementChar);
  }

  // ---------------------------------------------------------------------
  // Well-formed text.

  /** One whole sequence is well-formed text. */
  lemma CharIsWellFormed(c: seq<Byte>)
    requires IsChar(c)
    ensures WellFormed(c)
  {
    CharIsCharPrefix(c);
    var k := |c|;
    assert c[..k] == c && c[k..] == [];
    assert WellFormed(c[k..]);
  }

  /** A whole sequence in front of well-formed text keeps it well-formed. */
  lemma WellFormedCons(c: seq<Byte>, rest: seq<Byte>)
    requires IsChar(c) && WellFormed(rest)
    ensures WellFormed(c + rest)
  {
    CharIsCharPrefix(c);
    var s, k := c + rest, |c|;
    assert s[..k] == c && s[k..] == rest;
  }

  /** Well-formed text followed by well-formed text is well-formed. */
  lemma {:induction false} WellFormedConcat(a: seq<Byte>, b: seq<Byte>)
    requires WellFormed(a) && WellFormed(b)
    ensures WellFormed(a + b)
    decreases |a|
  {
    if a == [] {
      assert a + b == b;
    } else {
      WellFormedFirstChar(a);
      var k := CharWidth(a[0]);
      var c, rest := a[..k], a[k..];
      assert a + b == c + (rest + b);
      WellFormedConcat(rest, b);
      WellFormedCons(c, rest + b);
    }
  }

  /**
   * Non-empty well-formed text starts with a whole sequence whose length is
   * the width of its first byte, and the rest is well-formed again.
   */
  lemma WellFormedFirstChar(s: seq<Byte>)
    requires s != []
    ensures WellFormed(s) <==>
      var w := CharWidth(s[0]);
      1 <= w <= |s| && IsChar(s[..w]) && WellFormed(s[w..])
  {
    var w := CharWidth(s[0]);
    if WellFormed(s) {
      var k :| 1 <= k <= |s| && k <= 4 && IsChar(s[..k]) && WellFormed(s[k..]);
      CharIsCharPrefix(s[..k]);
    }
    if 1 <= w <= |s| && IsChar(s[..w]) && WellFormed(s[w..]) {
      assert w <= 4;
    }
  }

  /**
   * The length of the first character of non-empty well-formed text: the
   * width its first byte gives, covering one whole sequence.
   */
  function FirstCharLen(s: seq<Byte>): (w: nat)
    requires s != [] && WellFormed(s)
    ensures 1 <= w <= |s| && w == CharWidth(s[0]) && IsChar(s[..w]) && WellFormed(s[w..])
  {
    WellFormedFirstChar(s);
    CharWidth(s[0])
  }

  /**
   * The scalar values of well-formed text, first to last: decoding it
   * character by character and encoding the result gives the text back.
   */
  function DecodeAll(s: seq<Byte>): (xs: seq<Scalar>)
    requires WellFormed(s)
    ensures EncodeAll(xs) == s
    decreases |s|
  {
    if s == [] then []
    else
      var w := FirstCharLen(s);
      var x, rest := Decode(s[..w]), DecodeAll(s[w..]);
      EncodeDecode(s[..w]);
      EncodeAllCons(x, rest);
      SplitAt(s, w);
      [x] + rest
  }

  /** The encodings of `x` and then `xs`. */
  lemma EncodeAllCons(x: Scalar, xs: seq<Scalar>)
    ensures EncodeAll([x] + xs) == Encode(x) + EncodeAll(xs)
  {
    assert ([x] + xs)[0] == x && ([x] + xs)[1..] == xs;
  }

  /** Appending one scalar value's encoding extends the encodings by it. */
  lemma {:induction false} EncodeAllSnoc(xs: seq<Scalar>, x: Scalar)
    ensures EncodeAll(xs + [x]) == EncodeAll(xs) + Encode(x)
  {
    if xs == [] {
      assert [] + [x] == [x];
      assert EncodeAll([x]) == Encode(x) + EncodeAll([]);
    } else {
      assert (xs + [x])[0] == xs[0];
      assert (xs + [x])[1..] == xs[1..] + [x];
      EncodeAllSnoc(xs[1..], x);
    }
  }

  /** Encoding distributes over concatenation. */
  lemma {:induction false} EncodeAllAppend(xs: seq<Scalar>, ys: seq<Scalar>)
    ensures EncodeAll(xs + ys) == EncodeAll(xs) + EncodeAll(ys)
  {
    if xs != [] {
      assert (xs + ys)[0] == xs[0];
      assert (xs + ys)[1..] == xs[1..] + ys;
      EncodeAllAppend(xs[1..], ys);
    } else {
      assert xs + ys == ys;
    }
  }
  /** The encoding of `xs` around its `k`-th value. */
  lemma EncodeAllAt(xs: seq<Scalar>, k: nat)
    requires k < |xs|
    ensures EncodeAll(xs[..k + 1]) == EncodeAll(xs[..k]) + Encode(xs[k])
    ensures EncodeAll(xs) == EncodeAll(xs[..k]) + Encode(xs[k]) + EncodeAll(xs[k + 1..])
  {
    TakeOneMore(xs, k);
    SplitAt(xs, k + 1);
    EncodeAllAppend(xs[..k + 1], xs[k + 1..]);
    EncodeAllSnoc(xs[..k], xs[k]);
  }

  /** Encoded scalar values make well-formed text. */
  lemma {:induction false} EncodeAllWellFormed(xs: seq<Scalar>)
    ensures WellFormed(EncodeAll(xs))
  {
    if xs != [] {
      EncodeIsChar(xs[0]);
      CharIsWellFormed(Encode(xs[0]));
      EncodeAllWellFormed(xs[1..]);
      WellFormedConcat(Encode(xs[0]), EncodeAll(xs[1..]));
    }
  }

  /** Decoding the encodings of scalar values gives those values back. */
  lemma {:induction false} DecodeEncodeAll(xs: seq<Scalar>)
    ensures WellFormed(EncodeAll(xs)) && DecodeAll(EncodeAll(xs)) == xs
  {
    EncodeAllWellFormed(xs);
    if xs != [] {
      var s, c, rest := EncodeAll(xs), Encode(xs[0]), EncodeAll(xs[1..]);
      DecodeEncode(xs[0]);
      CharIsCharPrefix(c);
      assert s == c + rest;
      assert s[0] == c[0] && s[..|c|] == c && s[|c|..] == rest;
      DecodeEncodeAll(xs[1..]);
      assert DecodeAll(s) == [xs[0]] + xs[1..];
      HeadTail(xs);
    }
  }
}
