// Which byte strings are UTF-8: a check byte by byte, against the encoding of Unicode scalar values.
module Utf8 {
  import opened MachineInts

  /** A code point that is not a surrogate. */
  type Scalar = c: int | 0 <= c < 0xD800 || 0xE000 <= c < 0x11_0000

  predicate Continues(s: seq<byte>, i: nat, low: byte, high: byte) {
    i < |s| && low <= s[i] <= high
  }

  /** The well-formed byte sequences of table 3-7 of the Unicode Standard. */
  predicate IsUtf8(s: seq<byte>) {
    if s == [] then true
    else if s[0] < 0x80 then IsUtf8(s[1..])
    else if 0xc2 <= s[0] <= 0xdf then Continues(s, 1, 0x80, 0xbf) && IsUtf8(s[2..])
    else if 0xe0 <= s[0] <= 0xef then
      && Continues(s, 1, if s[0] == 0xe0 then 0xa0 else 0x80, if s[0] == 0xed then 0x9f else 0xbf)
      && Continues(s, 2, 0x80, 0xbf) && IsUtf8(s[3..])
    else if 0xf0 <= s[0] <= 0xf4 then
      && Continues(s, 1, if s[0] == 0xf0 then 0x90 else 0x80, if s[0] == 0xf4 then 0x8f else 0xbf)
      && Continues(s, 2, 0x80, 0xbf) && Continues(s, 3, 0x80, 0xbf) && IsUtf8(s[4..])
    else false
  }

  /** The encoding of one scalar value, as section 3 of RFC 3629 has it. */
  function Encode(c: Scalar): seq<byte> {
    if c < 0x80 then [c]
    else if c < 0x800 then [0xc0 + c / 0x40, 0x80 + c % 0x40]
    else if c < 0x1_0000 then [0xe0 + c / 0x1000, 0x80 + c / 0x40 % 0x40, 0x80 + c % 0x40]
    else [0xf0 + c / 0x4_0000, 0x80 + c / 0x1000 % 0x40, 0x80 + c / 0x40 % 0x40, 0x80 + c % 0x40]
  }

  function EncodeAll(text: seq<Scalar>): seq<byte> {
    if text == [] then [] else Encode(text[0]) + EncodeAll(text[1..])
  }

  ghost predicate IsEncoding(s: seq<byte>) {
    exists text :: EncodeAll(text) == s
  }

  lemma EncodedFirst(c: Scalar, rest: seq<byte>)
    requires IsUtf8(rest)
    ensures IsUtf8(Encode(c) + rest)
  {
    var s := Encode(c) + rest;
    assert s[|Encode(c)|..] == rest;
    if 0x800 <= c < 0x1_0000 {
      TwelveBits(c);
    } else if 0x1_0000 <= c {
      EighteenBits(c);
    }
  }

  lemma {:induction false} EncodingIsUtf8(text: seq<Scalar>)
    ensures IsUtf8(EncodeAll(text))
  {
    if text != [] {
      EncodingIsUtf8(text[1..]);
      EncodedFirst(text[0], EncodeAll(text[1..]));
    }
  }

  lemma SixBits(high: nat, low: nat)
    requires low < 0x40
    ensures (high * 0x40 + low) / 0x40 == high && (high * 0x40 + low) % 0x40 == low
  {
  }

  lemma TwelveBits(c: nat)
    ensures c / 0x40 / 0x40 == c / 0x1000
  {
  }

  lemma EighteenBits(c: nat)
    ensures c / 0x1000 / 0x40 == c / 0x4_0000
  {
  }

  lemma DecodeTwo(a: byte, b: byte) returns (c: Scalar)
    requires 0xc2 <= a <= 0xdf && 0x80 <= b <= 0xbf
    ensures Encode(c) == [a, b]
  {
    c := (a - 0xc0) * 0x40 + (b - 0x80);
    SixBits(a - 0xc0, b - 0x80);
  }

  lemma DecodeThree(a: byte, b: byte, d: byte) returns (c: Scalar)
    requires 0xe0 <= a <= 0xef && 0x80 <= b <= 0xbf && 0x80 <= d <= 0xbf
    requires (a == 0xe0 ==> 0xa0 <= b) && (a == 0xed ==> b <= 0x9f)
    ensures Encode(c) == [a, b, d]
  {
    var high: int := (a - 0xe0) * 0x40 + (b - 0x80);
    c := high * 0x40 + (d - 0x80);
    SixBits(a - 0xe0, b - 0x80);
    SixBits(high, d - 0x80);
    TwelveBits(c);
  }

  lemma DecodeFour(a: byte, b: byte, d: byte, e: byte) returns (c: Scalar)
    requires 0xf0 <= a <= 0xf4 && 0x80 <= b <= 0xbf && 0x80 <= d <= 0xbf && 0x80 <= e <= 0xbf
    requires (a == 0xf0 ==> 0x90 <= b) && (a == 0xf4 ==> b <= 0x8f)
    ensures Encode(c) == [a, b, d, e]
  {
    var top: int := (a - 0xf0) * 0x40 + (b - 0x80);
    var high: int := top * 0x40 + (d - 0x80);
    c := high * 0x40 + (e - 0x80);
    SixBits(a - 0xf0, b - 0x80);
    SixBits(top, d - 0x80);
    SixBits(high, e - 0x80);
    TwelveBits(c);
    EighteenBits(c);
  }

  /** The scalar value that a checked text starts with, and the rest of the text. */
  lemma DecodeFirst(s: seq<byte>) returns (c: Scalar, rest: seq<byte>)
    requires IsUtf8(s) && s != []
    ensures s == Encode(c) + rest && IsUtf8(rest) && |rest| < |s|
  {
    if s[0] < 0x80 {
      c, rest := s[0], s[1..];
    } else if s[0] <= 0xdf {
      c := DecodeTwo(s[0], s[1]);
      rest := s[2..];
    } else if s[0] <= 0xef {
      c := DecodeThree(s[0], s[1], s[2]);
      rest := s[3..];
    } else {
      c := DecodeFour(s[0], s[1], s[2], s[3]);
      rest := s[4..];
    }
    assert s == s[..|s| - |rest|] + rest;
    assert s[..|s| - |rest|] == Encode(c);
  }

  lemma {:induction false} Utf8IsEncoding(s: seq<byte>)
    requires IsUtf8(s)
    ensures IsEncoding(s)
    decreases |s|
  {
    if s == [] {
      assert EncodeAll([]) == s;
    } else {
      var c, rest := DecodeFirst(s);
      Utf8IsEncoding(rest);
      var text :| EncodeAll(text) == rest;
      assert ([c] + text)[1..] == text;
      assert EncodeAll([c] + text) == s;
    }
  }

  /** The check accepts exactly the encodings of texts. */
  lemma Utf8Iff(s: seq<byte>)
    ensures IsUtf8(s) <==> IsEncoding(s)
  {
    if IsUtf8(s) {
      Utf8IsEncoding(s);
    }
    if text :| EncodeAll(text) == s {
      EncodingIsUtf8(text);
    }
  }
}
