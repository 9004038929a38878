/**
 * UTF-8, the byte encoding of a Rust `String`.  `String::push(c)` appends the
 * encoding of `c`, and `len`, `truncate` and byte slicing all count bytes.
 */
module Utf8 {

  type byte = x: int | 0 <= x < 0x100

  /** A byte of the form 10xxxxxx, which never starts a character. */
  predicate IsContinuation(b: byte) {
    0x80 <= b < 0xC0
  }

  /** A character that UTF-8 encodes in a single byte. */
  predicate IsAscii(c: char) {
    c as int < 0x80
  }

  /** The UTF-8 encoding of one Unicode scalar value. */
  function EncodeChar(c: char): (r: seq<byte>)
    ensures 1 <= |r| <= 4
    ensures |r| == 1 <==> IsAscii(c)
    ensures IsAscii(c) ==> r == [c as int]
    ensures !IsContinuation(r[0])
    ensures forall i :: 1 <= i < |r| ==> IsContinuation(r[i])
  {
    var n := c as int;
    if n < 0x80 then [n]
    else if n < 0x800 then [0xC0 + n / 0x40, 0x80 + n % 0x40]
    else if n < 0x1_0000 then [0xE0 + n / 0x1000, 0x80 + (n / 0x40) % 0x40, 0x80 + n % 0x40]
    else [0xF0 + n / 0x4_0000, 0x80 + (n / 0x1000) % 0x40, 0x80 + (n / 0x40) % 0x40, 0x80 + n % 0x40]
  }

  /** The code point a well-formed one-character encoding stands for (the inverse of EncodeChar). */
  function DecodeChar(r: seq<byte>): int
    requires 1 <= |r| <= 4
  {
    if |r| == 1 then r[0] as int
    else if |r| == 2 then (r[0] as int - 0xC0) * 0x40 + (r[1] as int - 0x80)
    else if |r| == 3 then (r[0] as int - 0xE0) * 0x1000 + (r[1] as int - 0x80) * 0x40 + (r[2] as int - 0x80)
    else (r[0] as int - 0xF0) * 0x4_0000 + (r[1] as int - 0x80) * 0x1000 + (r[2] as int - 0x80) * 0x40 + (r[3] as int - 0x80)
  }

  /** Encoding a character and decoding it again gives the character back. */
  lemma DecodeEncode(c: char)
    ensures DecodeChar(EncodeChar(c)) == c as int
  {
    var n := c as int;
    if n >= 0x80 {
      assert n == (n / 0x40) * 0x40 + n % 0x40;
      if n >= 0x800 {
        assert n / 0x40 == (n / 0x1000) * 0x40 + (n / 0x40) % 0x40;
        if n >= 0x1_0000 {
          assert n / 0x1000 == (n / 0x4_0000) * 0x40 + (n / 0x1000) % 0x40;
        }
      }
    }
  }

  /** The UTF-8 encoding of a string, character after character. */
  function EncodeString(s: string): (r: seq<byte>)
    ensures |r| >= |s|
    ensures |s| > 0 ==> !IsContinuation(r[0])
  {
    if s == [] then [] else EncodeChar(s[0]) + EncodeString(s[1..])
  }

  /**
   * Byte index `i` of `b` is a character boundary in Rust's sense
   * (`str::is_char_boundary`): the start, the end, or a byte that starts a character.
   */
  predicate IsCharBoundary(b: seq<byte>, i: nat) {
    i == 0 || i == |b| || (i < |b| && !IsContinuation(b[i]))
  }

  /** Encoding a concatenation encodes the parts one after the other. */
  lemma {:induction false} EncodeAppend(a: string, b: string)
    ensures EncodeString(a + b) == EncodeString(a) + EncodeString(b)
  {
    if a != [] {
      assert (a + b)[0] == a[0] && (a + b)[1..] == a[1..] + b;
      EncodeAppend(a[1..], b);
    } else {
      assert a + b == b;
    }
  }

  /** The number of bytes a sequence starting with lead byte `b` has; 0 when `b` can start none. */
  function SequenceLength(b: byte): (n: nat)
    ensures n <= 4
    ensures n == 0 <==> IsContinuation(b) || b == 0xC0 || b == 0xC1 || b >= 0xF5
  {
    if b < 0x80 then 1
    else if 0xC2 <= b < 0xE0 then 2
    else if 0xE0 <= b < 0xF0 then 3
    else if 0xF0 <= b < 0xF5 then 4
    else 0
  }

  /**
   * The byte after lead byte `lead` may follow it in a well-formed sequence:
   * table 3-7 of the Unicode Standard narrows the range after E0, ED, F0 and F4
   * so that no overlong form, surrogate or value above U+10FFFF is accepted.
   */
  predicate ValidSecond(lead: byte, x: byte) {
    if lead == 0xE0 then 0xA0 <= x < 0xC0
    else if lead == 0xED then 0x80 <= x < 0xA0
    else if lead == 0xF0 then 0x90 <= x < 0xC0
    else if lead == 0xF4 then 0x80 <= x < 0x90
    else IsContinuation(x)
  }

  /**
   * The length of the longest prefix of `b` that starts a well-formed
   * sequence: SequenceLength(b[0]) when the whole sequence is there, less when
   * it breaks off, and 0 when b[0] can start none.
   */
  function ValidPrefix(b: seq<byte>): (k: nat)
    requires b != []
    ensures k <= SequenceLength(b[0]) && k <= |b|
    ensures k == 0 <==> SequenceLength(b[0]) == 0
  {
    var n := SequenceLength(b[0]);
    if n <= 1 then n
    else if |b| < 2 || !ValidSecond(b[0], b[1]) then 1
    else if n == 2 then 2
    else if |b| < 3 || !IsContinuation(b[2]) then 2
    else if n == 3 then 3
    else if |b| < 4 || !IsContinuation(b[3]) then 3
    else 4
  }

  /** A complete well-formed sequence stands for a Unicode scalar value. */
  lemma WellFormedIsScalar(b: seq<byte>)
    requires b != [] && SequenceLength(b[0]) > 0 && ValidPrefix(b) == SequenceLength(b[0])
    ensures var v := DecodeChar(b[..SequenceLength(b[0])]);
      (0 <= v < 0xD800) || (0xE000 <= v < 0x11_0000)
  {
    var n := SequenceLength(b[0]);
    var r := b[..n];
    if n == 3 {
      assert r[0] == 0xED ==> DecodeChar(r) < 0xD800;
      assert r[0] != 0xED ==> DecodeChar(r) < 0xD800 || DecodeChar(r) >= 0xE000;
    }
  }

  /** The value of a lead byte's well-formed sequence as a character. */
  function DecodeAt(b: seq<byte>): (c: char)
    requires b != [] && SequenceLength(b[0]) > 0 && ValidPrefix(b) == SequenceLength(b[0])
  {
    WellFormedIsScalar(b);
    DecodeChar(b[..SequenceLength(b[0])]) as char
  }

  /**
   * Rust's `String::from_utf8_lossy`: well-formed sequences become their
   * characters, and each maximal prefix of a sequence that breaks off (or a
   * byte that can start none) becomes one U+FFFD REPLACEMENT CHARACTER.
   */
  function DecodeLossy(b: seq<byte>): (s: string)
    ensures |s| <= |b|
    decreases |b|
  {
    if b == [] then []
    else
      var n := SequenceLength(b[0]);
      var k := ValidPrefix(b);
      if n > 0 && k == n then [DecodeAt(b)] + DecodeLossy(b[n..])
      else ['\U{FFFD}'] + DecodeLossy(b[if k == 0 then 1 else k..])
  }

  /** The second byte of a three-byte encoding lies in the range its lead byte allows. */
  lemma ThreeByteSecond(c: char)
    requires 0x800 <= c as int < 0x1_0000
    ensures ValidSecond(EncodeChar(c)[0], EncodeChar(c)[1])
  {
    var n := c as int;
    var e := EncodeChar(c);
    assert e[0] == 0xE0 ==> n < 0x1000 && e[1] >= 0xA0;
    assert e[0] == 0xED ==> 0xD000 <= n < 0xD800 && e[1] < 0xA0;
  }

  /** The second byte of a four-byte encoding lies in the range its lead byte allows. */
  lemma FourByteSecond(c: char)
    requires 0x1_0000 <= c as int
    ensures ValidSecond(EncodeChar(c)[0], EncodeChar(c)[1])
  {
    var n := c as int;
    var e := EncodeChar(c);
    assert e[0] == 0xF0 ==> n < 0x4_0000 && e[1] >= 0x90;
    assert e[0] == 0xF4 ==> n >= 0x10_0000 && e[1] < 0x90;
  }

  /** The encoding of a character is one complete well-formed sequence. */
  lemma EncodedCharWellFormed(c: char, rest: seq<byte>)
    ensures var e := EncodeChar(c);
      SequenceLength(e[0]) == |e| && ValidPrefix(e + rest) == |e|
  {
    var n := c as int;
    var e := EncodeChar(c);
    if 0x800 <= n < 0x1_0000 {
      ThreeByteSecond(c);
    } else if n >= 0x1_0000 {
      FourByteSecond(c);
    }
    var b := e + rest;
    assert b[..|e|] == e;
  }

  /** Decoding a valid encoding loses nothing: the round trip of `String::from_utf8_lossy`. */
  lemma {:induction false} DecodeEncodeString(s: string)
    ensures DecodeLossy(EncodeString(s)) == s
  {
    if s != [] {
      var e := EncodeChar(s[0]);
      var rest := EncodeString(s[1..]);
      var b := e + rest;
      EncodedCharWellFormed(s[0], rest);
      assert b[..|e|] == e && b[|e|..] == rest;
      DecodeEncode(s[0]);
      DecodeEncodeString(s[1..]);
    }
  }

  /** Where the last character of `b` starts: the last byte that is not a continuation byte. */
  function LastCharStart(b: seq<byte>): (i: nat)
    requires b != []
    ensures i < |b| && IsCharBoundary(b, i)
    ensures forall j :: i < j < |b| ==> IsContinuation(b[j])
    decreases |b|
  {
    if |b| == 1 || !IsContinuation(b[|b| - 1]) then |b| - 1 else LastCharStart(b[..|b| - 1])
  }

  /** After the encoding of a string, the last character starts where the encoding of its last character does. */
  lemma {:induction false} LastCharStartOf(p: seq<byte>, e: seq<byte>)
    requires e != [] && !IsContinuation(e[0])
    requires forall i :: 1 <= i < |e| ==> IsContinuation(e[i])
    ensures LastCharStart(p + e) == |p|
    decreases |e|
  {
    if |e| > 1 {
      assert (p + e)[..|p + e| - 1] == p + e[..|e| - 1];
      LastCharStartOf(p, e[..|e| - 1]);
    }
  }

  /** Cutting the encoding of a string at its last character start drops exactly the last character. */
  lemma DropLastChar(s: string)
    requires s != []
    ensures var b := EncodeString(s);
      b[..LastCharStart(b)] == EncodeString(s[..|s| - 1])
  {
    EncodeLast(s);
    CutAtLast(EncodeString(s[..|s| - 1]), s[|s| - 1]);
  }

  /** The encoding of a non-empty string ends with the encoding of its last character. */
  lemma EncodeLast(s: string)
    requires s != []
    ensures EncodeString(s) == EncodeString(s[..|s| - 1]) + EncodeChar(s[|s| - 1])
  {
    var init, c := s[..|s| - 1], s[|s| - 1];
    assert s == init + [c];
    EncodeAppend(init, [c]);
    assert EncodeString([c]) == EncodeChar(c);
  }

  /** Cutting any bytes followed by a character's encoding at the last character start leaves those bytes. */
  lemma CutAtLast(p: seq<byte>, c: char)
    ensures (p + EncodeChar(c))[..LastCharStart(p + EncodeChar(c))] == p
  {
    LastCharStartOf(p, EncodeChar(c));
    assert (p + EncodeChar(c))[..|p|] == p;
  }
}
