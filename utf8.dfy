/**
 * Strict UTF-8 as defined by section 4 of RFC 3629, the syntax that
 * Python's `bytes.decode('utf-8')` accepts: no overlong forms, no encoded
 * surrogates, nothing above U+10FFFF. Anything else raises
 * UnicodeDecodeError, which the model reports as `None`.
 */
module Utf8 {
  import opened Wrappers
  import opened Bytes

  /** UTF8-tail = %x80-BF */
  predicate IsTail(b: Byte) { 0x80 <= b <= 0xBF }

  /**
   * The number of bytes of the UTF8-char (RFC 3629 section 4) that starts
   * `b`, or 0 when `b` does not start with one.
   */
  function CharLength(b: seq<Byte>): (k: nat)
    ensures k <= 4 && k <= |b|
  {
    if b == [] then 0
    else if b[0] <= 0x7F then 1
    else if 0xC2 <= b[0] <= 0xDF then
      if |b| >= 2 && IsTail(b[1]) then 2 else 0
    else if b[0] == 0xE0 then
      if |b| >= 3 && 0xA0 <= b[1] <= 0xBF && IsTail(b[2]) then 3 else 0
    else if 0xE1 <= b[0] <= 0xEC || 0xEE <= b[0] <= 0xEF then
      if |b| >= 3 && IsTail(b[1]) && IsTail(b[2]) then 3 else 0
    else if b[0] == 0xED then
      if |b| >= 3 && 0x80 <= b[1] <= 0x9F && IsTail(b[2]) then 3 else 0
    else if b[0] == 0xF0 then
      if |b| >= 4 && 0x90 <= b[1] <= 0xBF && IsTail(b[2]) && IsTail(b[3]) then 4 else 0
    else if 0xF1 <= b[0] <= 0xF3 then
      if |b| >= 4 && IsTail(b[1]) && IsTail(b[2]) && IsTail(b[3]) then 4 else 0
    else if b[0] == 0xF4 then
      if |b| >= 4 && 0x80 <= b[1] <= 0x8F && IsTail(b[2]) && IsTail(b[3]) then 4 else 0
    else 0
  }

  /** The grammar of RFC 3629 section 4, written as the four UTF8-n rules. */
  predicate StartsWithChar(b: seq<Byte>)
  {
    || (|b| >= 1 && b[0] <= 0x7F)
    || (|b| >= 2 && 0xC2 <= b[0] <= 0xDF && IsTail(b[1]))
    || (|b| >= 3 && b[0] == 0xE0 && 0xA0 <= b[1] <= 0xBF && IsTail(b[2]))
    || (|b| >= 3 && (0xE1 <= b[0] <= 0xEC || 0xEE <= b[0] <= 0xEF) && IsTail(b[1]) && IsTail(b[2]))
    || (|b| >= 3 && b[0] == 0xED && 0x80 <= b[1] <= 0x9F && IsTail(b[2]))
    || (|b| >= 4 && b[0] == 0xF0 && 0x90 <= b[1] <= 0xBF && IsTail(b[2]) && IsTail(b[3]))
    || (|b| >= 4 && 0xF1 <= b[0] <= 0xF3 && IsTail(b[1]) && IsTail(b[2]) && IsTail(b[3]))
    || (|b| >= 4 && b[0] == 0xF4 && 0x80 <= b[1] <= 0x8F && IsTail(b[2]) && IsTail(b[3]))
  }

  /** UTF8-octets = *( UTF8-char ) */
  predicate Valid(b: seq<Byte>)
    decreases |b|
  {
    b == [] || (CharLength(b) > 0 && Valid(b[CharLength(b)..]))
  }

  /** A Unicode scalar value: what a Python `str` (and a Dafny `char`) holds. */
  predicate IsScalarValue(n: int)
  {
    0 <= n < 0xD800 || 0xE000 <= n < 0x11_0000
  }

  /** The scalar value carried by the first `CharLength(b)` bytes of `b`. */
  function ScalarValue(b: seq<Byte>): (n: int)
    requires CharLength(b) > 0
    ensures IsScalarValue(n)
  {
    var k := CharLength(b);
    var b0: int := b[0];
    var b1: int := if k >= 2 then b[1] else 0x80;
    var b2: int := if k >= 3 then b[2] else 0x80;
    var b3: int := if k >= 4 then b[3] else 0x80;
    if k == 1 then b0
    else if k == 2 then (b0 - 0xC0) * 0x40 + (b1 - 0x80)
    else if k == 3 then (b0 - 0xE0) * 0x1000 + (b1 - 0x80) * 0x40 + (b2 - 0x80)
    else (b0 - 0xF0) * 0x4_0000 + (b1 - 0x80) * 0x1000 + (b2 - 0x80) * 0x40 + (b3 - 0x80)
  }

  /** `bytes.decode('utf-8')`: the text, or `None` where Python raises. */
  function Decode(b: seq<Byte>): (r: Option<string>)
    ensures r.Some? ==> |r.value| <= |b|
    decreases |b|
  {
    if b == [] then Some([])
    else
      var k := CharLength(b);
      if k == 0 then None
      else
        match Decode(b[k..])
        case None => None
        case Some(rest) => Some([ScalarValue(b) as char] + rest)
  }

  /** CharLength recognises exactly the UTF8-char rule of the grammar. */
  lemma CharLengthGrammar(b: seq<Byte>)
    ensures CharLength(b) == 0 <==> b == [] || !StartsWithChar(b)
  {
  }

  /** Decoding succeeds exactly on the byte strings the grammar accepts. */
  lemma {:induction false} DecodeValid(b: seq<Byte>)
    ensures Decode(b).Some? <==> Valid(b)
    decreases |b|
  {
    if b != [] && CharLength(b) > 0 {
      DecodeValid(b[CharLength(b)..]);
    }
  }

  /** `str.encode('utf-8')` of one character. */
  function EncodeChar(c: char): (b: seq<Byte>)
    ensures 1 <= |b| <= 4
  {
    var n := c as int;
    if n < 0x80 then [n]
    else if n < 0x800 then [0xC0 + n / 0x40, 0x80 + n % 0x40]
    else if n < 0x1_0000 then [0xE0 + n / 0x1000, 0x80 + (n / 0x40) % 0x40, 0x80 + n % 0x40]
    else [0xF0 + n / 0x4_0000, 0x80 + (n / 0x1000) % 0x40, 0x80 + (n / 0x40) % 0x40, 0x80 + n % 0x40]
  }

  /** `str.encode('utf-8')`. */
  function Encode(s: string): (b: seq<Byte>)
    ensures |s| <= |b| <= 4 * |s|
  {
    if s == [] then [] else EncodeChar(s[0]) + Encode(s[1..])
  }

  /** The encoding of a character is one UTF8-char, whatever follows it, and carries its scalar value. */
  lemma EncodeCharReadsBack(c: char, rest: seq<Byte>)
    ensures CharLength(EncodeChar(c) + rest) == |EncodeChar(c)|
    ensures ScalarValue(EncodeChar(c) + rest) == c as int
  {
    var n := c as int;
    if n < 0x80 {
    } else if n < 0x800 {
      EncodeTwoReadsBack(n, EncodeChar(c) + rest);
    } else if n < 0x1_0000 {
      EncodeThreeReadsBack(n, EncodeChar(c) + rest);
    } else {
      EncodeFourReadsBack(n, EncodeChar(c) + rest);
    }
  }

  lemma EncodeTwoReadsBack(n: int, b: seq<Byte>)
    requires 0x80 <= n < 0x800
    requires |b| >= 2 && b[0] == 0xC0 + n / 0x40 && b[1] == 0x80 + n % 0x40
    ensures CharLength(b) == 2 && ScalarValue(b) == n
  {
  }

  lemma EncodeThreeReadsBack(n: int, b: seq<Byte>)
    requires 0x800 <= n < 0x1_0000 && IsScalarValue(n)
    requires |b| >= 3 && b[0] == 0xE0 + n / 0x1000
    requires b[1] == 0x80 + (n / 0x40) % 0x40 && b[2] == 0x80 + n % 0x40
    ensures CharLength(b) == 3 && ScalarValue(b) == n
  {
    var m := n / 0x40;
    assert n == m * 0x40 + n % 0x40;
    assert n / 0x1000 == m / 0x40;
    assert m == (m / 0x40) * 0x40 + m % 0x40;
    assert n == (b[0] as int - 0xE0) * 0x1000 + (b[1] as int - 0x80) * 0x40 + (b[2] as int - 0x80);
  }

  lemma EncodeFourReadsBack(n: int, b: seq<Byte>)
    requires 0x1_0000 <= n < 0x11_0000
    requires |b| >= 4 && b[0] == 0xF0 + n / 0x4_0000 && b[1] == 0x80 + (n / 0x1000) % 0x40
    requires b[2] == 0x80 + (n / 0x40) % 0x40 && b[3] == 0x80 + n % 0x40
    ensures CharLength(b) == 4 && ScalarValue(b) == n
  {
    var m := n / 0x40;
    var m2 := m / 0x40;
    assert n == m * 0x40 + n % 0x40;
    assert m == m2 * 0x40 + m % 0x40;
    assert n / 0x1000 == m2;
    assert m2 == (m2 / 0x40) * 0x40 + m2 % 0x40;
    assert n / 0x4_0000 == m2 / 0x40;
    assert n == (b[0] as int - 0xF0) * 0x4_0000 + (b[1] as int - 0x80) * 0x1000 + (b[2] as int - 0x80) * 0x40 + (b[3] as int - 0x80);
  }

  /** Decoding undoes encoding: every string survives the round trip. */
  lemma {:induction false} DecodeEncode(s: string)
    ensures Decode(Encode(s)) == Some(s)
  {
    if s != [] {
      var e := EncodeChar(s[0]);
      var b := Encode(s);
      EncodeCharReadsBack(s[0], Encode(s[1..]));
      assert b[|e|..] == Encode(s[1..]);
      DecodeEncode(s[1..]);
      assert (s[0] as int) as char == s[0];
      assert [s[0]] + s[1..] == s;
    }
  }

  /** Splitting a number into a base-64 digit and the rest. */
  lemma DivMod64(q: int, r: int)
    requires 0 <= q && 0 <= r < 0x40
    ensures (q * 0x40 + r) / 0x40 == q && (q * 0x40 + r) % 0x40 == r
  {
  }

  /** A well-formed UTF8-char is the encoding of the scalar value it carries. */
  lemma CharReencodes(b: seq<Byte>)
    requires CharLength(b) > 0
    ensures EncodeChar(ScalarValue(b) as char) == b[..CharLength(b)]
  {
    var k := CharLength(b);
    if k == 2 {
      ReencodeTwo(ScalarValue(b), b[0], b[1]);
    } else if k == 3 {
      ReencodeThree(ScalarValue(b), b[0], b[1], b[2]);
    } else if k == 4 {
      ReencodeFour(ScalarValue(b), b[0], b[1], b[2], b[3]);
    }
  }

  lemma ReencodeTwo(n: int, b0: Byte, b1: Byte)
    requires 0xC2 <= b0 <= 0xDF && IsTail(b1)
    requires n == (b0 - 0xC0) * 0x40 + (b1 - 0x80) && IsScalarValue(n)
    ensures EncodeChar(n as char) == [b0, b1]
  {
    DivMod64(b0 - 0xC0, b1 - 0x80);
  }

  lemma ReencodeThree(n: int, b0: Byte, b1: Byte, b2: Byte)
    requires 0xE0 <= b0 <= 0xEF && IsTail(b1) && IsTail(b2)
    requires n == (b0 - 0xE0) * 0x1000 + (b1 - 0x80) * 0x40 + (b2 - 0x80)
    requires 0x800 <= n && IsScalarValue(n)
    ensures EncodeChar(n as char) == [b0, b1, b2]
  {
    var m := (b0 - 0xE0) * 0x40 + (b1 - 0x80);
    assert n == m * 0x40 + (b2 - 0x80);
    DivMod64(m, b2 - 0x80);
    DivMod64(b0 - 0xE0, b1 - 0x80);
    assert n / 0x1000 == (n / 0x40) / 0x40;
  }

  lemma ReencodeFour(n: int, b0: Byte, b1: Byte, b2: Byte, b3: Byte)
    requires 0xF0 <= b0 <= 0xF4 && IsTail(b1) && IsTail(b2) && IsTail(b3)
    requires n == (b0 - 0xF0) * 0x4_0000 + (b1 - 0x80) * 0x1000 + (b2 - 0x80) * 0x40 + (b3 - 0x80)
    requires 0x1_0000 <= n && IsScalarValue(n)
    ensures EncodeChar(n as char) == [b0, b1, b2, b3]
  {
    var m2 := (b0 - 0xF0) * 0x40 + (b1 - 0x80);
    var m := m2 * 0x40 + (b2 - 0x80);
    assert n == m * 0x40 + (b3 - 0x80);
    DivMod64(m, b3 - 0x80);
    DivMod64(m2, b2 - 0x80);
    DivMod64(b0 - 0xF0, b1 - 0x80);
    assert n / 0x1000 == (n / 0x40) / 0x40;
    assert n / 0x4_0000 == (n / 0x1000) / 0x40;
  }

  /** A successful decode of non-empty bytes is the first character's value followed by the decode of the rest. */
  lemma DecodeStep(b: seq<Byte>)
    requires b != [] && Decode(b).Some?
    ensures CharLength(b) > 0 && Decode(b[CharLength(b)..]).Some?
    ensures Decode(b).value == [ScalarValue(b) as char] + Decode(b[CharLength(b)..]).value
  {
  }

  /** Encoding a string is encoding its first character, then the rest. */
  lemma EncodeCons(c: char, r: string)
    ensures Encode([c] + r) == EncodeChar(c) + Encode(r)
  {
    var s := [c] + r;
    assert s[0] == c && s[1..] == r;
  }

  /** If the rest re-encodes to its bytes, so does the whole: one step of the round trip. */
  lemma ReencodeStep(b: seq<Byte>, r: string)
    requires CharLength(b) > 0 && Encode(r) == b[CharLength(b)..]
    ensures Encode([ScalarValue(b) as char] + r) == b
  {
    var k := CharLength(b);
    EncodeCons(ScalarValue(b) as char, r);
    CharReencodes(b);
    assert b == b[..k] + b[k..];
  }

  /** Encoding undoes decoding: valid bytes decode to the one string that encodes to them. */
  lemma {:induction false} EncodeDecode(b: seq<Byte>)
    requires Decode(b).Some?
    ensures Encode(Decode(b).value) == b
    decreases |b|
  {
    if b != [] {
      DecodeStep(b);
      EncodeDecode(b[CharLength(b)..]);
      ReencodeStep(b, Decode(b[CharLength(b)..]).value);
    }
  }
}
