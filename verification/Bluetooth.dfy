// Beacon identities: the UUID text form, the iBeacon frame and the static random address.
module Bluetooth {
  import opened Wrappers
  import opened MachineInts

  datatype ConfigError = InvalidBeaconUuid

  type Uuid = u: seq<byte> | |u| == 16 witness [0, 0, 0, 0, 0, 0, 0, 0, 0, 0, 0, 0, 0, 0, 0, 0]
  type Nibble = n: int | 0 <= n < 16

  const HYPHEN: byte := 0x2d
  const TEXT_LENGTH := 36

  /* ---------- hexadecimal digits ---------- */

  function DecodeHex(value: byte): Option<Nibble> {
    if 0x30 <= value <= 0x39 then Some(value - 0x30)
    else if 0x61 <= value <= 0x66 then Some(value - 0x61 + 10)
    else if 0x41 <= value <= 0x46 then Some(value - 0x41 + 10)
    else None
  }

  /** The high digit fills the upper four bits, the low digit the lower four. */
  function PairByte(high: Nibble, low: Nibble): (b: byte)
    ensures b / 16 == high && b % 16 == low
  {
    var h: int := high;
    16 * h + low
  }

  function LowerHex(n: Nibble): byte {
    if n < 10 then 0x30 + n else 0x61 + (n - 10)
  }

  function LowerAscii(value: byte): byte {
    if 0x41 <= value <= 0x5a then value + 0x20 else value
  }

  const LOWER_DIGITS: seq<byte> :=
    [0x30, 0x31, 0x32, 0x33, 0x34, 0x35, 0x36, 0x37, 0x38, 0x39, 0x61, 0x62, 0x63, 0x64, 0x65, 0x66]
  const UPPER_DIGITS: seq<byte> :=
    [0x30, 0x31, 0x32, 0x33, 0x34, 0x35, 0x36, 0x37, 0x38, 0x39, 0x41, 0x42, 0x43, 0x44, 0x45, 0x46]

  /** The character is the n-th hexadecimal digit, in either case. */
  predicate IsDigit(c: byte, n: Nibble) {
    c == LOWER_DIGITS[n] || c == UPPER_DIGITS[n]
  }

  lemma HexDigitsAreListed(c: byte, n: Nibble)
    ensures DecodeHex(c) == Some(n) <==> IsDigit(c, n)
    ensures DecodeHex(c).Some? <==> c in LOWER_DIGITS || c in UPPER_DIGITS
    ensures LowerHex(n) == LOWER_DIGITS[n]
  {
  }

  /* ---------- positions in the text ---------- */

  /** Where the two digits of each byte start. */
  const PAIR_STARTS := [0, 2, 4, 6, 9, 11, 14, 16, 19, 21, 24, 26, 28, 30, 32, 34]

  predicate HyphenAt(i: int) {
    i == 8 || i == 13 || i == 18 || i == 23
  }

  /** Where the two digits of byte k start; the text ends where a seventeenth byte would start. */
  function DigitsOf(k: nat): nat
    requires k <= 16
  {
    2 * k + if k < 4 then 0 else if k < 6 then 1 else if k < 8 then 2 else if k < 10 then 3 else 4
  }

  /** The byte that the digit at position i belongs to. */
  function ByteOf(i: nat): nat
    requires i < TEXT_LENGTH && !HyphenAt(i)
  {
    (i - if i < 8 then 0 else if i < 13 then 1 else if i < 18 then 2 else if i < 23 then 3 else 4) / 2
  }

  /** Every position is a hyphen or one of the two digits of its byte. */
  lemma PositionsPartition(i: nat)
    requires i < TEXT_LENGTH && !HyphenAt(i)
    ensures ByteOf(i) < 16 && (i == DigitsOf(ByteOf(i)) || i == DigitsOf(ByteOf(i)) + 1)
  {
  }

  lemma DigitsAreNotHyphens(k: nat)
    requires k < 16
    ensures !HyphenAt(DigitsOf(k)) && !HyphenAt(DigitsOf(k) + 1) && DigitsOf(k) + 1 < TEXT_LENGTH
    ensures ByteOf(DigitsOf(k)) == ByteOf(DigitsOf(k) + 1) == k
    ensures DigitsOf(k + 1) == DigitsOf(k) + 2 + if HyphenAt(DigitsOf(k) + 2) then 1 else 0
  {
  }

  /* ---------- parsing and printing ---------- */

  predicate HexPair(s: seq<byte>, k: nat)
    requires |s| == TEXT_LENGTH && k < 16
  {
    DecodeHex(s[DigitsOf(k)]).Some? && DecodeHex(s[DigitsOf(k) + 1]).Some?
  }

  predicate Hyphenated(s: seq<byte>) {
    |s| == TEXT_LENGTH && s[8] == HYPHEN && s[13] == HYPHEN && s[18] == HYPHEN && s[23] == HYPHEN
  }

  /** The 8-4-4-4-12 form of section 4 of RFC 9562, in either case. */
  predicate Canonical(s: seq<byte>) {
    Hyphenated(s) && forall k :: 0 <= k < 16 ==> HexPair(s, k)
  }

  function ByteAt(s: seq<byte>, k: nat): byte
    requires |s| == TEXT_LENGTH && k < 16 && HexPair(s, k)
  {
    PairByte(DecodeHex(s[DigitsOf(k)]).value, DecodeHex(s[DigitsOf(k) + 1]).value)
  }

  /** Hyphens in their four places, and hexadecimal digits everywhere else. */
  predicate IsUuidText(s: seq<byte>) {
    |s| == 36 && forall i :: 0 <= i < 36 ==>
      if i == 8 || i == 13 || i == 18 || i == 23 then s[i] == 0x2d else s[i] in LOWER_DIGITS || s[i] in UPPER_DIGITS
  }

  /** The k-th pair of digits spells the k-th byte, high digit first. */
  predicate Spells(s: seq<byte>, u: Uuid)
    requires |s| == 36
  {
    forall k :: 0 <= k < 16 ==> IsDigit(s[PAIR_STARTS[k]], u[k] / 16) && IsDigit(s[PAIR_STARTS[k] + 1], u[k] % 16)
  }

  lemma CanonicalIsUuidText(s: seq<byte>)
    ensures Canonical(s) <==> IsUuidText(s)
  {
    if Canonical(s) {
      forall i | 0 <= i < 36 && !HyphenAt(i)
        ensures s[i] in LOWER_DIGITS || s[i] in UPPER_DIGITS
      {
        PositionsPartition(i);
        assert HexPair(s, ByteOf(i));
        HexDigitsAreListed(s[i], 0);
      }
    }
    if IsUuidText(s) {
      forall k | 0 <= k < 16
        ensures HexPair(s, k)
      {
        DigitsAreNotHyphens(k);
        HexDigitsAreListed(s[DigitsOf(k)], 0);
        HexDigitsAreListed(s[DigitsOf(k) + 1], 0);
      }
    }
  }

  lemma DenotedIsSpelled(s: seq<byte>, u: Uuid)
    requires Denotes(s, u)
    ensures Spells(s, u)
  {
    forall k | 0 <= k < 16
      ensures IsDigit(s[PAIR_STARTS[k]], u[k] / 16) && IsDigit(s[PAIR_STARTS[k] + 1], u[k] % 16)
    {
      PairIsSpelled(s, u, k);
    }
  }

  lemma PairIsSpelled(s: seq<byte>, u: Uuid, k: nat)
    requires Denotes(s, u) && k < 16
    ensures IsDigit(s[PAIR_STARTS[k]], u[k] / 16) && IsDigit(s[PAIR_STARTS[k] + 1], u[k] % 16)
  {
    assert PAIR_STARTS[k] == DigitsOf(k);
    assert HexPair(s, k) && u[k] == ByteAt(s, k);
    DigitOfDecoded(s[DigitsOf(k)], u[k] / 16);
    DigitOfDecoded(s[DigitsOf(k) + 1], u[k] % 16);
  }

  lemma DigitOfDecoded(c: byte, n: Nibble)
    requires DecodeHex(c) == Some(n)
    ensures IsDigit(c, n)
  {
  }

  predicate Denotes(s: seq<byte>, u: Uuid) {
    Canonical(s) && forall k :: 0 <= k < 16 ==> u[k] == ByteAt(s, k)
  }

  function TextAt(u: Uuid, i: nat): byte
    requires i < TEXT_LENGTH
  {
    if HyphenAt(i) then HYPHEN else
    PositionsPartition(i);
    var b := u[ByteOf(i)];
    LowerHex(if i == DigitsOf(ByteOf(i)) then b / 16 else b % 16)
  }

  function Text(u: Uuid): (s: seq<byte>)
    ensures |s| == TEXT_LENGTH
  {
    seq(TEXT_LENGTH, i requires 0 <= i < TEXT_LENGTH => TextAt(u, i))
  }

  function LowerText(s: seq<byte>): (t: seq<byte>)
    ensures |t| == |s| && forall i :: 0 <= i < |s| ==> t[i] == LowerAscii(s[i])
  {
    if s == [] then [] else [LowerAscii(s[0])] + LowerText(s[1..])
  }

  /** The printed text of a UUID denotes it. */
  lemma ParsePrinted(u: Uuid)
    ensures Denotes(Text(u), u)
  {
    forall k | 0 <= k < 16
      ensures HexPair(Text(u), k) && u[k] == ByteAt(Text(u), k)
    {
      DigitsAreNotHyphens(k);
      HexDigitsInvert(u[k] / 16);
      HexDigitsInvert(u[k] % 16);
    }
  }

  /** The text has the form of a UUID, its digits are lower-case and spell the sixteen bytes. */
  predicate IsLowerText(s: seq<byte>, u: Uuid) {
    IsUuidText(s) && Spells(s, u) && forall i :: 0 <= i < 36 ==> s[i] == 0x2d || s[i] in LOWER_DIGITS
  }

  lemma TextIsSpelled(u: Uuid)
    ensures IsLowerText(Text(u), u)
  {
    ParsePrinted(u);
    CanonicalIsUuidText(Text(u));
    DenotedIsSpelled(Text(u), u);
    forall i | 0 <= i < 36 && !HyphenAt(i)
      ensures Text(u)[i] in LOWER_DIGITS
    {
      PositionsPartition(i);
      HexDigitsAreListed(0, u[ByteOf(i)] / 16);
      HexDigitsAreListed(0, u[ByteOf(i)] % 16);
    }
  }

  lemma HexDigitsInvert(n: Nibble)
    ensures DecodeHex(LowerHex(n)) == Some(n)
  {
  }

  /** Printing what a text denotes gives the text in lower case. */
  lemma PrintParsed(s: seq<byte>, u: Uuid)
    requires Denotes(s, u)
    ensures Text(u) == LowerText(s)
  {
    forall i | 0 <= i < TEXT_LENGTH
      ensures Text(u)[i] == LowerText(s)[i]
    {
      if !HyphenAt(i) {
        PrintParsedDigit(s, u, i);
      }
    }
  }

  lemma PrintParsedDigit(s: seq<byte>, u: Uuid, i: nat)
    requires Denotes(s, u) && i < TEXT_LENGTH && !HyphenAt(i)
    ensures TextAt(u, i) == LowerAscii(s[i])
  {
    PositionsPartition(i);
    var k := ByteOf(i);
    assert HexPair(s, k) && u[k] == ByteAt(s, k);
    LowerOfDigit(s[i]);
  }

  lemma LowerOfDigit(value: byte)
    requires DecodeHex(value).Some?
    ensures LowerHex(DecodeHex(value).value) == LowerAscii(value)
  {
  }

  /** A text denotes at most one UUID. */
  lemma DenotesOne(s: seq<byte>, u: Uuid, v: Uuid)
    requires Denotes(s, u) && Denotes(s, v)
    ensures u == v
  {
    assert forall k :: 0 <= k < 16 ==> u[k] == v[k];
  }

  lemma WhatTextsDenote(s: seq<byte>)
    ensures forall u: Uuid, v: Uuid :: Denotes(s, u) && Denotes(s, v) ==> u == v
    ensures forall u: Uuid :: Denotes(s, u) ==> Text(u) == LowerText(s)
    ensures forall u: Uuid :: s == Text(u) ==> Denotes(s, u)
  {
    forall u: Uuid, v: Uuid | Denotes(s, u) && Denotes(s, v)
      ensures u == v
    {
      DenotesOne(s, u, v);
    }
    forall u: Uuid | Denotes(s, u)
      ensures Text(u) == LowerText(s)
    {
      PrintParsed(s, u);
    }
    forall u: Uuid | s == Text(u)
      ensures Denotes(s, u)
    {
      ParsePrinted(u);
    }
  }

  /**
    * The two-index loop: it accepts exactly the canonical texts, reads within them, never takes a pair
    * across a hyphen and fills all sixteen bytes. Parsing undoes printing, and printing gives the text back
    * in lower case.
    */
  method ParseUuid(source: seq<byte>) returns (r: Result<Uuid, ConfigError>)
    ensures r.Ok? <==> IsUuidText(source)
    ensures r.Ok? ==> Spells(source, r.value)
    ensures r.Ok? <==> Canonical(source)
    ensures forall u: Uuid :: Denotes(source, u) <==> r == Ok(u)
    ensures forall u: Uuid :: source == Text(u) ==> r == Ok(u)
    ensures r.Ok? ==> Text(r.value) == LowerText(source)
    ensures r.Err? ==> r.error == InvalidBeaconUuid
  {
    WhatTextsDenote(source);
    CanonicalIsUuidText(source);
    if |source| != TEXT_LENGTH
      || source[8] != HYPHEN || source[13] != HYPHEN || source[18] != HYPHEN || source[23] != HYPHEN {
      return Err(InvalidBeaconUuid);
    }
    var bytes := new byte[16](_ => 0);
    var sourceIndex, byteIndex := 0, 0;
    while sourceIndex < |source|
      invariant byteIndex <= 16
      invariant sourceIndex == DigitsOf(byteIndex) || (HyphenAt(sourceIndex) && sourceIndex + 1 == DigitsOf(byteIndex))
      invariant forall k :: 0 <= k < byteIndex ==> HexPair(source, k) && bytes[k] == ByteAt(source, k)
    {
      if sourceIndex == 8 || sourceIndex == 13 || sourceIndex == 18 || sourceIndex == 23 {
        sourceIndex := sourceIndex + 1;
        continue;
      }
      assert byteIndex < 16;
      DigitsAreNotHyphens(byteIndex);
      var high := DecodeHex(source[sourceIndex]);
      if high.None? {
        assert !HexPair(source, byteIndex);
        return Err(InvalidBeaconUuid);
      }
      var low := DecodeHex(source[sourceIndex + 1]);
      if low.None? {
        assert !HexPair(source, byteIndex);
        return Err(InvalidBeaconUuid);
      }
      bytes[byteIndex] := PairByte(high.value, low.value);
      sourceIndex := sourceIndex + 2;
      byteIndex := byteIndex + 1;
    }
    assert Denotes(source, bytes[..]);
    DenotedIsSpelled(source, bytes[..]);
    r := Ok(bytes[..]);
  }

  method DisplayUuid(u: Uuid) returns (s: seq<byte>)
    ensures s == Text(u)
    ensures IsLowerText(s, u)
  {
    s := [];
    for index := 0 to 16
      invariant |s| == DigitsOf(index) - if index == 4 || index == 6 || index == 8 || index == 10 then 1 else 0
      invariant forall i :: 0 <= i < |s| ==> s[i] == TextAt(u, i)
    {
      DigitsAreNotHyphens(index);
      if index == 4 || index == 6 || index == 8 || index == 10 {
        s := s + [HYPHEN];
      }
      s := s + [LowerHex(u[index] / 16), LowerHex(u[index] % 16)];
    }
    assert s == Text(u);
    TextIsSpelled(u);
  }

  /* ---------- the iBeacon frame ---------- */

  datatype IBeacon = IBeacon(uuid: Uuid, major: u16, minor: u16, measuredPower: i8)

  function BigEndian(x: u16): seq<byte> {
    [x / 0x100, x % 0x100]
  }

  /** What follows the company identifier in the advertisement. */
  function ManufacturerPayload(b: IBeacon): seq<byte> {
    [0x02, 0x15] + b.uuid + BigEndian(b.major) + BigEndian(b.minor) + [b.measuredPower % 0x100]
  }

  /** The frame has its fixed length and two beacons never share one. */
  lemma PayloadIsInjective(a: IBeacon, b: IBeacon)
    ensures |ManufacturerPayload(a)| == 23
    ensures ManufacturerPayload(a) == ManufacturerPayload(b) ==> a == b
    ensures var p := ManufacturerPayload(a);
      && p[0] == 0x02 && p[1] == 0x15 && p[2..18] == a.uuid
      && p[18] == a.major / 256 && p[19] == a.major % 256 && p[20] == a.minor / 256 && p[21] == a.minor % 256
      && p[22] == if 0 <= a.measuredPower then a.measuredPower else a.measuredPower + 256
  {
    var p, q := ManufacturerPayload(a), ManufacturerPayload(b);
    assert p[2..18] == a.uuid && q[2..18] == b.uuid;
    assert p[18..] == BigEndian(a.major) + BigEndian(a.minor) + [a.measuredPower % 0x100];
    assert q[18..] == BigEndian(b.major) + BigEndian(b.minor) + [b.measuredPower % 0x100];
    if p == q {
      BigEndianInverts(a.major, b.major);
      BigEndianInverts(a.minor, b.minor);
      assert p[18..20] == BigEndian(a.major) && q[18..20] == BigEndian(b.major);
      assert p[20..22] == BigEndian(a.minor) && q[20..22] == BigEndian(b.minor);
      assert p[22] == a.measuredPower % 0x100 && q[22] == b.measuredPower % 0x100;
    }
  }

  lemma BigEndianInverts(x: u16, y: u16)
    ensures BigEndian(x) == BigEndian(y) ==> x == y
  {
    assert BigEndian(x)[0] == x / 0x100 && BigEndian(x)[1] == x % 0x100;
    assert BigEndian(y)[0] == y / 0x100 && BigEndian(y)[1] == y % 0x100;
  }

  /* ---------- the static random address ---------- */

  type AddressBytes = a: seq<bv8> | |a| == 6 witness [0, 0, 0, 0, 0, 0]

  /** Section 1.3.2.1 of volume 6, part B of the Bluetooth Core Specification. */
  predicate IsStaticRandom(a: AddressBytes) {
    && a[0] & 0xc0 == 0xc0
    && !Is(a, 0xc0, 0)
    && !Is(a, 0xff, 0xff)
  }

  predicate Is(a: AddressBytes, first: bv8, rest: bv8) {
    a[0] == first && a[1] == rest && a[2] == rest && a[3] == rest && a[4] == rest && a[5] == rest
  }

  /** Every seed gives a valid address, and a seed that is one already is kept. */
  method FromSeed(seed: AddressBytes) returns (a: AddressBytes)
    ensures IsStaticRandom(a)
    ensures a == seed <==> IsStaticRandom(seed)
    ensures a[..5] == [seed[0] | 0xc0] + seed[1..5] && (a[5] == seed[5] || a[5] == seed[5] ^ 1)
  {
    a := seed[0 := seed[0] | 0xc0];
    var allZeroes := a[0] == 0xc0 && a[1] == 0 && a[2] == 0 && a[3] == 0 && a[4] == 0 && a[5] == 0;
    var allOnes := a[0] == 0xff && a[1] == 0xff && a[2] == 0xff && a[3] == 0xff && a[4] == 0xff && a[5] == 0xff;
    TopBits(seed[0]);
    LowBit(a[5]);
    if allZeroes || allOnes {
      a := a[5 := a[5] ^ 1];
    }
  }

  lemma TopBits(b: bv8)
    ensures (b | 0xc0) & 0xc0 == 0xc0
    ensures b | 0xc0 == b <==> b & 0xc0 == 0xc0
  {
  }

  lemma LowBit(b: bv8)
    ensures b ^ 1 != b && (b == 0 ==> b ^ 1 == 1) && (b == 0xff ==> b ^ 1 == 0xfe)
  {
  }
}
