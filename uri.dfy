/** `encodeURIComponent` and `decodeURIComponent` as ECMAScript (section 19.2.6 of ECMA-262)
    defines them, over Unicode scalar values: a character outside the unreserved set becomes
    its UTF-8 bytes (RFC 3629), each written `%XY` in upper-case hexadecimal. */
module Uri {
  import opened Options

  type Byte = b: nat | b < 256

  /** The characters `encodeURIComponent` leaves as they are: letters, digits and `-_.!~*'()`. */
  predicate Unreserved(c: char) {
    || 'A' <= c <= 'Z'
    || 'a' <= c <= 'z'
    || '0' <= c <= '9'
    || c == '-' || c == '_' || c == '.' || c == '!' || c == '~' || c == '*' || c == '\'' || c == '(' || c == ')'
  }

  /** The characters an encoded component is made of. */
  predicate Escaped(c: char) {
    Unreserved(c) || c == '%'
  }

  /** The upper-case hexadecimal digit for `n`. */
  function HexDigit(n: nat): (c: char)
    requires n < 16
    ensures Unreserved(c) && HexValue(c) == Some(n)
  {
    if n < 10 then ('0' as int + n) as char else ('A' as int + n - 10) as char
  }

  /** The value of a hexadecimal digit of either case. */
  function HexValue(c: char): (r: Option<nat>)
    ensures r.Some? ==> r.value < 16
  {
    if '0' <= c <= '9' then Some(c as int - '0' as int)
    else if 'A' <= c <= 'F' then Some(c as int - 'A' as int + 10)
    else if 'a' <= c <= 'f' then Some(c as int - 'a' as int + 10)
    else None
  }

  /** The UTF-8 encoding of a Unicode scalar value. */
  function Utf8(c: char): (bytes: seq<Byte>)
    ensures 1 <= |bytes| <= 4
    ensures (|bytes| == 1) == (c as int < 0x80)
  {
    var cp := c as int;
    if cp < 0x80 then [cp]
    else if cp < 0x800 then [0xC0 + cp / 64, 0x80 + cp % 64]
    else if cp < 0x10000 then [0xE0 + cp / 4096, 0x80 + (cp / 64) % 64, 0x80 + cp % 64]
    else [0xF0 + cp / 0x40000, 0x80 + (cp / 4096) % 64, 0x80 + (cp / 64) % 64, 0x80 + cp % 64]
  }

  /** One byte written as `%XY`. */
  function PercentByte(b: Byte): (s: string)
    ensures |s| == 3 && s[0] == '%' && Escaped(s[1]) && Escaped(s[2])
  {
    ['%', HexDigit(b / 16), HexDigit(b % 16)]
  }

  /** Bytes written as `%XY` each. */
  function PercentBytes(bytes: seq<Byte>): (s: string)
    ensures |s| == 3 * |bytes|
    ensures forall i :: 0 <= i < |s| ==> Escaped(s[i])
    ensures bytes != [] ==> s[0] == '%'
  {
    if bytes == [] then [] else PercentByte(bytes[0]) + PercentBytes(bytes[1..])
  }

  /** How `encodeURIComponent` writes one character. */
  function EncodeChar(c: char): (s: string)
    ensures Unreserved(c) ==> s == [c]
    ensures !Unreserved(c) ==> 3 <= |s| && s[0] == '%'
    ensures forall i :: 0 <= i < |s| ==> Escaped(s[i])
  {
    if Unreserved(c) then [c] else PercentBytes(Utf8(c))
  }

  /** `encodeURIComponent(s)`: the result is made of unreserved characters and `%` only (so it
      holds no `/`), and it is empty exactly when `s` is. */
  function EncodeURIComponent(s: string): (r: string)
    ensures forall i :: 0 <= i < |r| ==> Escaped(r[i])
    ensures |r| >= |s|
    ensures r == [] <==> s == []
  {
    if s == [] then [] else EncodeChar(s[0]) + EncodeURIComponent(s[1..])
  }

  /** The byte written `%XY` at the head of `s`, if `s` starts with one. */
  function ReadByte(s: string): (r: Option<Byte>)
    ensures r.Some? ==> 3 <= |s| && s[0] == '%'
  {
    if |s| < 3 || s[0] != '%' then None
    else if HexValue(s[1]).None? || HexValue(s[2]).None? then None
    else Some(16 * HexValue(s[1]).value + HexValue(s[2]).value)
  }

  /** The payload (low six bits) of a UTF-8 continuation byte written `%XY` at the head of `s`. */
  function ReadContinuation(s: string): (r: Option<nat>)
    ensures r.Some? ==> 3 <= |s| && r.value < 64
  {
    var b :- ReadByte(s);
    if 0x80 <= b < 0xC0 then Some(b - 0x80) else None
  }

  /** Decodes the escapes at the head of `s` into one character and the number of characters
      they span; None where `decodeURIComponent` throws URIError: a malformed escape, a lead byte
      that starts no sequence, a missing continuation byte, an overlong form, a surrogate or a
      value beyond U+10FFFF. */
  function DecodeEscape(s: string): (r: Option<(char, nat)>)
    ensures r.Some? ==> 3 <= r.value.1 <= |s|
  {
    var b0 :- ReadByte(s);
    if b0 < 0x80 then
      Some((b0 as char, 3))
    else if 0xC0 <= b0 < 0xE0 then
      var x1 :- ReadContinuation(s[3..]);
      var cp := (b0 - 0xC0) * 64 + x1;
      if 0x80 <= cp then Some((cp as char, 6)) else None
    else if 0xE0 <= b0 < 0xF0 then
      var x1 :- ReadContinuation(s[3..]);
      var x2 :- ReadContinuation(s[6..]);
      var cp := (b0 - 0xE0) * 4096 + x1 * 64 + x2;
      if 0x800 <= cp && !(0xD800 <= cp < 0xE000) then Some((cp as char, 9)) else None
    else if 0xF0 <= b0 < 0xF8 then
      var x1 :- ReadContinuation(s[3..]);
      var x2 :- ReadContinuation(s[6..]);
      var x3 :- ReadContinuation(s[9..]);
      var cp := (b0 - 0xF0) * 0x40000 + x1 * 4096 + x2 * 64 + x3;
      if 0x10000 <= cp < 0x110000 then Some((cp as char, 12)) else None
    else
      None
  }

  /** `decodeURIComponent(s)`, or None where it throws URIError. A decoded string is never
      longer than its source, and is empty only when the source is. */
  function DecodeURIComponent(s: string): (r: Option<string>)
    ensures r.Some? ==> |r.value| <= |s| && (r.value == [] <==> s == [])
    decreases |s|
  {
    if s == [] then Some([])
    else if s[0] != '%' then
      var rest :- DecodeURIComponent(s[1..]);
      Some([s[0]] + rest)
    else
      var (c, n) :- DecodeEscape(s);
      var rest :- DecodeURIComponent(s[n..]);
      Some([c] + rest)
  }

  /** Writing a byte list is writing its first byte, then the rest. */
  lemma PercentBytesCons(b: Byte, bytes: seq<Byte>)
    ensures PercentBytes([b] + bytes) == PercentByte(b) + PercentBytes(bytes)
  {
    assert ([b] + bytes)[1..] == bytes;
  }

  /** Concatenation is associative. */
  lemma AppendAssoc(x: string, y: string, z: string)
    ensures (x + y) + z == x + (y + z)
  {
  }

  /** Writing two bytes, followed by `rest`. */
  lemma PercentTwo(b0: Byte, b1: Byte, rest: string)
    ensures PercentBytes([b0, b1]) + rest == PercentByte(b0) + (PercentByte(b1) + rest)
  {
    assert [b0, b1] == [b0] + [b1];
    assert [b1] == [b1] + [];
    PercentBytesCons(b0, [b1]);
    PercentBytesCons(b1, []);
    assert PercentByte(b1) + [] == PercentByte(b1);
    AppendAssoc(PercentByte(b0), PercentByte(b1), rest);
  }

  /** Writing three bytes, followed by `rest`. */
  lemma PercentThree(b0: Byte, b1: Byte, b2: Byte, rest: string)
    ensures PercentBytes([b0, b1, b2]) + rest == PercentByte(b0) + (PercentByte(b1) + (PercentByte(b2) + rest))
  {
    assert [b0, b1, b2] == [b0] + [b1, b2];
    PercentBytesCons(b0, [b1, b2]);
    PercentTwo(b1, b2, rest);
    AppendAssoc(PercentByte(b0), PercentBytes([b1, b2]), rest);
  }

  /** Writing four bytes, followed by `rest`. */
  lemma PercentFour(b0: Byte, b1: Byte, b2: Byte, b3: Byte, rest: string)
    ensures PercentBytes([b0, b1, b2, b3]) + rest
         == PercentByte(b0) + (PercentByte(b1) + (PercentByte(b2) + (PercentByte(b3) + rest)))
  {
    assert [b0, b1, b2, b3] == [b0] + [b1, b2, b3];
    PercentBytesCons(b0, [b1, b2, b3]);
    PercentThree(b1, b2, b3, rest);
    AppendAssoc(PercentByte(b0), PercentBytes([b1, b2, b3]), rest);
  }

  /** Reading back a byte written `%XY` gives the byte, and what follows it is `rest`. */
  lemma ReadPercentByte(b: Byte, rest: string)
    ensures ReadByte(PercentByte(b) + rest) == Some(b)
    ensures (PercentByte(b) + rest)[3..] == rest
  {
    var s := PercentByte(b) + rest;
    assert s[1] == HexDigit(b / 16) && s[2] == HexDigit(b % 16);
  }

  /** Decoding the escapes `encodeURIComponent` writes for a reserved character gives back the
      character and consumes exactly those escapes. */
  lemma DecodeEscapeOfEncoded(c: char, rest: string)
    requires !Unreserved(c)
    ensures DecodeEscape(EncodeChar(c) + rest) == Some((c, |EncodeChar(c)|))
  {
    var cp := c as int;
    var bytes := Utf8(c);
    if cp < 0x80 {
      assert EncodeChar(c) == PercentByte(bytes[0]);
      ReadPercentByte(bytes[0], rest);
    } else if cp < 0x800 {
      Utf8TwoBytes(c, rest);
    } else if cp < 0x10000 {
      Utf8ThreeBytes(c, rest);
    } else {
      Utf8FourBytes(c, rest);
    }
  }

  /** A two-byte lead followed by a continuation byte decodes to the combination of their
      payloads. */
  lemma DecodeTwoChain(s: string, t1: string, b0: Byte, b1: Byte)
    requires 0xC0 <= b0 < 0xE0 && 0x80 <= b1 < 0xC0
    requires ReadByte(s) == Some(b0) && s[3..] == t1 && ReadByte(t1) == Some(b1)
    requires 0x80 <= (b0 - 0xC0) * 64 + (b1 - 0x80)
    ensures DecodeEscape(s) == Some((((b0 - 0xC0) * 64 + (b1 - 0x80)) as char, 6))
  {
  }

  /** Decoding a two-byte sequence. */
  lemma DecodeTwo(b0: Byte, b1: Byte, rest: string)
    requires 0xC0 <= b0 < 0xE0 && 0x80 <= b1 < 0xC0
    requires 0x80 <= (b0 - 0xC0) * 64 + (b1 - 0x80)
    ensures DecodeEscape(PercentByte(b0) + (PercentByte(b1) + rest))
         == Some((((b0 - 0xC0) * 64 + (b1 - 0x80)) as char, 6))
  {
    var t1 := PercentByte(b1) + rest;
    ReadPercentByte(b0, t1);
    ReadPercentByte(b1, rest);
    DecodeTwoChain(PercentByte(b0) + t1, t1, b0, b1);
  }

  /** A three-byte lead followed by two continuation bytes, each escape read off the string left
      by the one before, decodes to the combination of their payloads. */
  lemma DecodeThreeChain(s: string, t1: string, t2: string, b0: Byte, b1: Byte, b2: Byte)
    requires 0xE0 <= b0 < 0xF0 && 0x80 <= b1 < 0xC0 && 0x80 <= b2 < 0xC0
    requires ReadByte(s) == Some(b0) && s[3..] == t1
    requires ReadByte(t1) == Some(b1) && t1[3..] == t2
    requires ReadByte(t2) == Some(b2)
    requires var cp := (b0 - 0xE0) * 4096 + (b1 - 0x80) * 64 + (b2 - 0x80);
             0x800 <= cp && !(0xD800 <= cp < 0xE000)
    ensures DecodeEscape(s) == Some((((b0 - 0xE0) * 4096 + (b1 - 0x80) * 64 + (b2 - 0x80)) as char, 9))
  {
    assert s[6..] == t2;
  }

  /** Decoding a three-byte sequence. */
  lemma DecodeThree(b0: Byte, b1: Byte, b2: Byte, rest: string)
    requires 0xE0 <= b0 < 0xF0 && 0x80 <= b1 < 0xC0 && 0x80 <= b2 < 0xC0
    requires var cp := (b0 - 0xE0) * 4096 + (b1 - 0x80) * 64 + (b2 - 0x80);
             0x800 <= cp && !(0xD800 <= cp < 0xE000)
    ensures DecodeEscape(PercentByte(b0) + (PercentByte(b1) + (PercentByte(b2) + rest)))
         == Some((((b0 - 0xE0) * 4096 + (b1 - 0x80) * 64 + (b2 - 0x80)) as char, 9))
  {
    var t2 := PercentByte(b2) + rest;
    var t1 := PercentByte(b1) + t2;
    ReadPercentByte(b0, t1);
    ReadPercentByte(b1, t2);
    ReadPercentByte(b2, rest);
    DecodeThreeChain(PercentByte(b0) + t1, t1, t2, b0, b1, b2);
  }

  /** A four-byte lead followed by three continuation bytes, each escape read off the string
      left by the one before, decodes to the combination of their payloads. */
  lemma DecodeFourChain(s: string, t1: string, t2: string, t3: string, b0: Byte, b1: Byte, b2: Byte, b3: Byte)
    requires 0xF0 <= b0 < 0xF8 && 0x80 <= b1 < 0xC0 && 0x80 <= b2 < 0xC0 && 0x80 <= b3 < 0xC0
    requires ReadByte(s) == Some(b0) && s[3..] == t1
    requires ReadByte(t1) == Some(b1) && t1[3..] == t2
    requires ReadByte(t2) == Some(b2) && t2[3..] == t3
    requires ReadByte(t3) == Some(b3)
    requires var cp := (b0 - 0xF0) * 0x40000 + (b1 - 0x80) * 4096 + (b2 - 0x80) * 64 + (b3 - 0x80);
             0x10000 <= cp < 0x110000
    ensures DecodeEscape(s)
         == Some((((b0 - 0xF0) * 0x40000 + (b1 - 0x80) * 4096 + (b2 - 0x80) * 64 + (b3 - 0x80)) as char, 12))
  {
    assert s[6..] == t2;
    assert s[9..] == t3;
  }

  /** Decoding a four-byte sequence. */
  lemma DecodeFour(b0: Byte, b1: Byte, b2: Byte, b3: Byte, rest: string)
    requires 0xF0 <= b0 < 0xF8 && 0x80 <= b1 < 0xC0 && 0x80 <= b2 < 0xC0 && 0x80 <= b3 < 0xC0
    requires var cp := (b0 - 0xF0) * 0x40000 + (b1 - 0x80) * 4096 + (b2 - 0x80) * 64 + (b3 - 0x80);
             0x10000 <= cp < 0x110000
    ensures DecodeEscape(PercentByte(b0) + (PercentByte(b1) + (PercentByte(b2) + (PercentByte(b3) + rest))))
         == Some((((b0 - 0xF0) * 0x40000 + (b1 - 0x80) * 4096 + (b2 - 0x80) * 64 + (b3 - 0x80)) as char, 12))
  {
    var t3 := PercentByte(b3) + rest;
    var t2 := PercentByte(b2) + t3;
    var t1 := PercentByte(b1) + t2;
    ReadPercentByte(b0, t1);
    ReadPercentByte(b1, t2);
    ReadPercentByte(b2, t3);
    ReadPercentByte(b3, rest);
    DecodeFourChain(PercentByte(b0) + t1, t1, t2, t3, b0, b1, b2, b3);
  }

  /** Six-bit groups recombine to the code point they were cut from. */
  lemma Recombine(cp: int)
    requires 0 <= cp
    ensures (cp / 64) * 64 + cp % 64 == cp
    ensures (cp / 4096) * 4096 + ((cp / 64) % 64) * 64 + cp % 64 == cp
    ensures (cp / 0x40000) * 0x40000 + ((cp / 4096) % 64) * 4096 + ((cp / 64) % 64) * 64 + cp % 64 == cp
  {
    assert cp / 4096 == (cp / 0x40000) * 64 + (cp / 4096) % 64;
    assert cp / 64 == (cp / 4096) * 64 + (cp / 64) % 64;
  }

  /** The two bytes UTF-8 writes for a character from U+0080 to U+07FF: a lead byte and a
      continuation byte whose payloads recombine to the code point. */
  lemma Utf8TwoLayout(c: char) returns (b0: Byte, b1: Byte)
    requires 0x80 <= c as int < 0x800
    ensures Utf8(c) == [b0, b1]
    ensures 0xC0 <= b0 < 0xE0 && 0x80 <= b1 < 0xC0
    ensures (b0 - 0xC0) * 64 + (b1 - 0x80) == c as int
  {
    var cp := c as int;
    b0, b1 := 0xC0 + cp / 64, 0x80 + cp % 64;
    Recombine(cp);
  }

  /** The three bytes UTF-8 writes for a character from U+0800 to U+FFFF. */
  lemma Utf8ThreeLayout(c: char) returns (b0: Byte, b1: Byte, b2: Byte)
    requires 0x800 <= c as int < 0x10000
    ensures Utf8(c) == [b0, b1, b2]
    ensures 0xE0 <= b0 < 0xF0 && 0x80 <= b1 < 0xC0 && 0x80 <= b2 < 0xC0
    ensures (b0 - 0xE0) * 4096 + (b1 - 0x80) * 64 + (b2 - 0x80) == c as int
  {
    var cp := c as int;
    b0, b1, b2 := 0xE0 + cp / 4096, 0x80 + (cp / 64) % 64, 0x80 + cp % 64;
    Recombine(cp);
  }

  /** The four bytes UTF-8 writes for a character beyond U+FFFF. */
  lemma Utf8FourLayout(c: char) returns (b0: Byte, b1: Byte, b2: Byte, b3: Byte)
    requires 0x10000 <= c as int
    ensures Utf8(c) == [b0, b1, b2, b3]
    ensures 0xF0 <= b0 < 0xF8 && 0x80 <= b1 < 0xC0 && 0x80 <= b2 < 0xC0 && 0x80 <= b3 < 0xC0
    ensures (b0 - 0xF0) * 0x40000 + (b1 - 0x80) * 4096 + (b2 - 0x80) * 64 + (b3 - 0x80) == c as int
  {
    var cp := c as int;
    b0, b1, b2, b3 := 0xF0 + cp / 0x40000, 0x80 + (cp / 4096) % 64, 0x80 + (cp / 64) % 64, 0x80 + cp % 64;
    Recombine(cp);
  }

  lemma Utf8TwoBytes(c: char, rest: string)
    requires 0x80 <= c as int < 0x800
    ensures DecodeEscape(PercentBytes(Utf8(c)) + rest) == Some((c, 6))
  {
    var b0, b1 := Utf8TwoLayout(c);
    PercentTwo(b0, b1, rest);
    DecodeTwo(b0, b1, rest);
  }

  lemma Utf8ThreeBytes(c: char, rest: string)
    requires 0x800 <= c as int < 0x10000
    ensures DecodeEscape(PercentBytes(Utf8(c)) + rest) == Some((c, 9))
  {
    var b0, b1, b2 := Utf8ThreeLayout(c);
    PercentThree(b0, b1, b2, rest);
    DecodeThree(b0, b1, b2, rest);
  }

  lemma Utf8FourBytes(c: char, rest: string)
    requires 0x10000 <= c as int
    ensures DecodeEscape(PercentBytes(Utf8(c)) + rest) == Some((c, 12))
  {
    var b0, b1, b2, b3 := Utf8FourLayout(c);
    PercentFour(b0, b1, b2, b3, rest);
    DecodeFour(b0, b1, b2, b3, rest);
  }

  /** `decodeURIComponent(encodeURIComponent(s))` is `s` for every string. */
  lemma {:induction false} DecodeEncode(s: string)
    ensures DecodeURIComponent(EncodeURIComponent(s)) == Some(s)
  {
    if s != [] {
      var e, tail := EncodeChar(s[0]), EncodeURIComponent(s[1..]);
      DecodeEncode(s[1..]);
      assert EncodeURIComponent(s) == e + tail;
      if Unreserved(s[0]) {
        assert (e + tail)[1..] == tail;
      } else {
        DecodeEscapeOfEncoded(s[0], tail);
        assert (e + tail)[|e|..] == tail;
      }
      assert [s[0]] + s[1..] == s;
    }
  }

  /** On a string of unreserved characters `encodeURIComponent` is the identity. */
  lemma {:induction false} EncodeUnreserved(s: string)
    requires forall i :: 0 <= i < |s| ==> Unreserved(s[i])
    ensures EncodeURIComponent(s) == s
  {
    if s != [] {
      EncodeUnreserved(s[1..]);
      assert [s[0]] + s[1..] == s;
    }
  }
}
