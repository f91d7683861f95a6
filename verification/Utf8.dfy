// UTF-8 in googletest: CodePointToUtf8 (gtest.cc) writes it, IsValidUTF8 (gtest-printers.cc) checks it.
// The references are the syntax of section 4 and the encoding of section 3 of RFC 3629.
module Utf8 {
  import opened Words

  type Byte = b: int | 0 <= b < 256
  type Bytes = seq<Byte>

  // ---- section 4 of RFC 3629: the syntax of UTF-8 byte sequences ----

  ghost predicate Tail(b: Byte) {
    0x80 <= b <= 0xBF
  }

  ghost predicate IsUtf8Char(c: Bytes) {
    || (|c| == 1 && c[0] <= 0x7F)
    || (|c| == 2 && 0xC2 <= c[0] <= 0xDF && Tail(c[1]))
    || (|c| == 3 && Tail(c[2]) &&
        (|| (c[0] == 0xE0 && 0xA0 <= c[1] <= 0xBF)
         || (0xE1 <= c[0] <= 0xEC && Tail(c[1]))
         || (c[0] == 0xED && 0x80 <= c[1] <= 0x9F)
         || (0xEE <= c[0] <= 0xEF && Tail(c[1]))))
    || (|c| == 4 && Tail(c[2]) && Tail(c[3]) &&
        (|| (c[0] == 0xF0 && 0x90 <= c[1] <= 0xBF)
         || (0xF1 <= c[0] <= 0xF3 && Tail(c[1]))
         || (c[0] == 0xF4 && 0x80 <= c[1] <= 0x8F)))
  }

  /** A sequence of UTF-8 characters. */
  ghost predicate IsUtf8(s: Bytes)
    decreases |s|
  {
    s == [] || exists n :: 1 <= n <= |s| && IsUtf8Char(s[..n]) && IsUtf8(s[n..])
  }

  /** The first byte tells how long a character is. */
  ghost function LengthOf(lead: Byte): nat {
    if lead <= 0x7F then 1 else if lead <= 0xDF then 2 else if lead <= 0xEF then 3 else 4
  }

  lemma CharLength(c: Bytes)
    requires IsUtf8Char(c)
    ensures |c| == LengthOf(c[0])
  {
  }

  /** So there is only one way to take a character off the front. */
  lemma IsUtf8Unfolds(s: Bytes, n: nat)
    requires 1 <= n <= |s| && IsUtf8Char(s[..n])
    ensures IsUtf8(s) <==> IsUtf8(s[n..])
  {
    CharLength(s[..n]);
    if IsUtf8(s) {
      var m :| 1 <= m <= |s| && IsUtf8Char(s[..m]) && IsUtf8(s[m..]);
      CharLength(s[..m]);
      assert s[..m][0] == s[0] == s[..n][0];
    }
  }

  lemma NoCharNoUtf8(s: Bytes)
    requires s != [] && (LengthOf(s[0]) <= |s| ==> !IsUtf8Char(s[..LengthOf(s[0])]))
    ensures !IsUtf8(s)
  {
    forall n | 1 <= n <= |s| && IsUtf8Char(s[..n]) ensures n == LengthOf(s[0]) {
      CharLength(s[..n]);
    }
  }

  // ---- the validator ----

  predicate IsUTF8TrailByte(t: Byte) {
    0x80 <= t <= 0xBF
  }

  method IsValidUTF8(s: Bytes) returns (valid: bool)
    ensures valid <==> IsUtf8(s)
  {
    hide IsUtf8;
    var i := 0;
    assert s[0..] == s;
    while i < |s|
      invariant 0 <= i <= |s| && (IsUtf8(s) <==> IsUtf8(s[i..]))
    {
      ghost var rest := s[i..];
      ghost var start := i;
      var lead := s[i];
      i := i + 1;
      if lead <= 0x7F {
        OneCharacter(s, start, 1);
        continue;
      }
      if lead < 0xC2 {
        NoCharNoUtf8(rest);
        return false;
      } else if lead <= 0xDF && i + 1 <= |s| && IsUTF8TrailByte(s[i]) {
        i := i + 1;
      } else if 0xE0 <= lead <= 0xEF && i + 2 <= |s|
                && IsUTF8TrailByte(s[i])
                && IsUTF8TrailByte(s[i + 1])
                && (lead != 0xE0 || s[i] >= 0xA0)
                && (lead != 0xED || s[i] < 0xA0) {
        i := i + 2;
      } else if 0xF0 <= lead <= 0xF4 && i + 3 <= |s|
                && IsUTF8TrailByte(s[i])
                && IsUTF8TrailByte(s[i + 1])
                && IsUTF8TrailByte(s[i + 2])
                && (lead != 0xF0 || s[i] >= 0x90)
                && (lead != 0xF4 || s[i] < 0x90) {
        i := i + 3;
      } else {
        NoCharNoUtf8(rest);
        return false;
      }
      OneCharacter(s, start, i - start);
    }
    EmptyIsUtf8();
    assert s[i..] == [];
    return true;
  }

  lemma EmptyIsUtf8()
    ensures IsUtf8([])
  {
  }

  lemma OneCharacter(s: Bytes, i: nat, n: nat)
    requires 1 <= n && i + n <= |s| && IsUtf8Char(s[i..][..n])
    ensures IsUtf8(s[i..]) <==> IsUtf8(s[i + n..])
  {
    IsUtf8Unfolds(s[i..], n);
    assert s[i..][n..] == s[i + n..];
  }

  // ---- section 3 of RFC 3629: the encoding ----

  ghost predicate IsScalar(cp: nat) {
    cp <= 0x10FFFF && !(0xD800 <= cp <= 0xDFFF)
  }

  /** What a byte holds beside its marker. */
  ghost function Payload(b: Byte, marker: int): int {
    b - marker
  }

  /** The code point that a UTF-8 character stands for. */
  ghost function Decode(c: Bytes): int
    requires 1 <= |c| <= 4
  {
    if |c| == 1 then c[0]
    else if |c| == 2 then Payload(c[0], 0xC0) * 64 + Payload(c[1], 0x80)
    else if |c| == 3 then (Payload(c[0], 0xE0) * 64 + Payload(c[1], 0x80)) * 64 + Payload(c[2], 0x80)
    else ((Payload(c[0], 0xF0) * 64 + Payload(c[1], 0x80)) * 64 + Payload(c[2], 0x80)) * 64 + Payload(c[3], 0x80)
  }

  /** With the markers of the layouts, setting bits is adding: the bits below each marker are free. */
  lemma MarkersAreSums(marker: Word, low: Word)
    requires |marker| == |low|
    requires || (Number(marker) == 0x80 && Number(low) < 0x40) || (Number(marker) == 0xC0 && Number(low) < 0x20)
             || (Number(marker) == 0xE0 && Number(low) < 0x10) || (Number(marker) == 0xF0 && Number(low) < 0x08)
    ensures Number(Or(marker, low)) == Number(marker) + Number(low)
  {
    assert Pow2(3) == 8 && Pow2(4) == 16 && Pow2(5) == 32 && Pow2(6) == 64;
    hide Number, Or, Pow2;
    if Number(marker) == 0x80 {
      MarkerIsAdded(marker, low, 6, 2);
    } else if Number(marker) == 0xC0 {
      MarkerIsAdded(marker, low, 5, 6);
    } else if Number(marker) == 0xE0 {
      MarkerIsAdded(marker, low, 4, 14);
    } else {
      MarkerIsAdded(marker, low, 3, 30);
    }
  }

  // ---- the encoder ----

  const MAX_CODE_POINT_1 := 0x7F
  const MAX_CODE_POINT_2 := 0x7FF
  const MAX_CODE_POINT_3 := 0xFFFF
  const MAX_CODE_POINT_4 := 0x1FFFFF

  /** The n lowest bits, and the number shifted to the right by n bits (ChopIsDivision in Words.dfy). */
  method ChopLowBits(bits: nat, n: nat) returns (low: nat, rest: nat)
    ensures low < Pow2(n) && bits == rest * Pow2(n) + low
  {
    var (quotient, remainder) := DivMod(bits, Pow2(n));
    low, rest := remainder, quotient;
  }

  /** Digits to the base 16, upper case, without leading zeros. */
  function FormatHex(value: nat): (text: Bytes)
    ensures |text| > 0 && (value > 0 ==> text[0] != 0x30)
    ensures forall i :: 0 <= i < |text| ==> 0x30 <= text[i] <= 0x39 || 0x41 <= text[i] <= 0x46
  {
    (if value < 16 then [] else FormatHex(value / 16)) + [if value % 16 < 10 then 0x30 + value % 16 else 0x37 + value % 16]
  }

  ghost function HexValue(text: Bytes): int {
    if text == [] then 0 else
      var last := text[|text| - 1];
      HexValue(text[..|text| - 1]) * 16 + Payload(last, if last <= 0x39 then 0x30 else 0x37)
  }

  lemma {:induction false} HexReadsBack(value: nat)
    ensures HexValue(FormatHex(value)) == value
  {
    var text := FormatHex(value);
    if value >= 16 {
      HexReadsBack(value / 16);
      assert text[..|text| - 1] == FormatHex(value / 16);
    } else {
      assert text[..|text| - 1] == [];
    }
  }

  /** "(Invalid Unicode 0x" in ASCII. */
  const INVALID: Bytes := [0x28, 0x49, 0x6E, 0x76, 0x61, 0x6C, 0x69, 0x64, 0x20,
                           0x55, 0x6E, 0x69, 0x63, 0x6F, 0x64, 0x65, 0x20, 0x30, 0x78]

  function Message(cp: nat): Bytes {
    INVALID + FormatHex(cp) + [0x29]
  }

  /** The encoder's buffer is read as a C string, so the code point 0 comes out empty. */
  ghost predicate Encodes(cp: nat, c: Bytes) {
    if cp > MAX_CODE_POINT_4 then c == Message(cp)
    else if cp == 0 then c == []
    else LaidOut(cp, c)
  }

  /** c has the shape of the table in section 3, with as few bytes as the number of bits of cp allows. */
  ghost predicate LaidOut(cp: nat, c: Bytes) {
    && |c| == (if cp <= MAX_CODE_POINT_1 then 1 else if cp <= MAX_CODE_POINT_2 then 2 else if cp <= MAX_CODE_POINT_3 then 3 else 4)
    && Decode(c) == cp
    && (forall i :: 1 <= i < |c| ==> Tail(c[i]))
  }

  method CodePointToUtf8(codePoint: nat) returns (str: Bytes)
    ensures Encodes(codePoint, str)
  {
    if codePoint > MAX_CODE_POINT_4 {
      return Message(codePoint);
    }
    assert Pow2(6) == 64;
    hide Pow2;
    var b1, b2, b3, rest := 0, 0, 0, codePoint;
    if codePoint <= MAX_CODE_POINT_1 {
      str := if codePoint == 0 then [] else [codePoint];
    } else if codePoint <= MAX_CODE_POINT_2 {
      b1, rest := ChopLowBits(rest, 6);
      str := [0xC0 + rest, 0x80 + b1];
    } else if codePoint <= MAX_CODE_POINT_3 {
      b2, rest := ChopLowBits(rest, 6);
      b1, rest := ChopLowBits(rest, 6);
      str := [0xE0 + rest, 0x80 + b1, 0x80 + b2];
    } else {
      b3, rest := ChopLowBits(rest, 6);
      b2, rest := ChopLowBits(rest, 6);
      b1, rest := ChopLowBits(rest, 6);
      str := [0xF0 + rest, 0x80 + b1, 0x80 + b2, 0x80 + b3];
    }
  }

  /** What is left of a number without its last six bits, and the trailing byte that holds those. */
  ghost function Chopped(bits: nat): (r: (nat, Byte))
    ensures Tail(r.1) && bits == r.0 * 64 + Payload(r.1, 0x80)
  {
    (bits / 64, 0x80 + bits % 64)
  }

  ghost function Encoding(cp: nat): (c: Bytes)
    ensures Encodes(cp, c)
  {
    if cp > MAX_CODE_POINT_4 then Message(cp)
    else if cp == 0 then []
    else if cp <= MAX_CODE_POINT_1 then [cp]
    else
      var (h1, t1) := Chopped(cp);
      if cp <= MAX_CODE_POINT_2 then [0xC0 + h1, t1] else
        var (h2, t2) := Chopped(h1);
        if cp <= MAX_CODE_POINT_3 then [0xE0 + h2, t2, t1] else
          var (h3, t3) := Chopped(h2);
          [0xF0 + h3, t3, t2, t1]
  }

  /** Only one byte string is right for a code point. */
  lemma EncodingIsUnique(cp: nat, c: Bytes, d: Bytes)
    requires Encodes(cp, c) && Encodes(cp, d)
    ensures c == d
  {
    if 1 < cp <= MAX_CODE_POINT_4 {
      if |c| == 2 {
        SameDigits(Payload(c[0], 0xC0), Payload(c[1], 0x80), Payload(d[0], 0xC0), Payload(d[1], 0x80));
      } else if |c| == 3 {
        SameDigits(Payload(c[0], 0xE0) * 64 + Payload(c[1], 0x80), Payload(c[2], 0x80),
                   Payload(d[0], 0xE0) * 64 + Payload(d[1], 0x80), Payload(d[2], 0x80));
        SameDigits(Payload(c[0], 0xE0), Payload(c[1], 0x80), Payload(d[0], 0xE0), Payload(d[1], 0x80));
      } else if |c| == 4 {
        SameDigits((Payload(c[0], 0xF0) * 64 + Payload(c[1], 0x80)) * 64 + Payload(c[2], 0x80), Payload(c[3], 0x80),
                   (Payload(d[0], 0xF0) * 64 + Payload(d[1], 0x80)) * 64 + Payload(d[2], 0x80), Payload(d[3], 0x80));
        SameDigits(Payload(c[0], 0xF0) * 64 + Payload(c[1], 0x80), Payload(c[2], 0x80),
                   Payload(d[0], 0xF0) * 64 + Payload(d[1], 0x80), Payload(d[2], 0x80));
        SameDigits(Payload(c[0], 0xF0), Payload(c[1], 0x80), Payload(d[0], 0xF0), Payload(d[1], 0x80));
      }
    }
  }

  lemma SameDigits(high: int, low: int, high': int, low': int)
    requires 0 <= low < 64 && 0 <= low' < 64 && high * 64 + low == high' * 64 + low'
    ensures high == high' && low == low'
  {
  }

  /** Up to four bytes, a UTF-8 character comes out exactly for scalar values. */
  lemma EncodingIsUtf8Iff(cp: nat, c: Bytes)
    requires 0 < cp <= MAX_CODE_POINT_4 && Encodes(cp, c)
    ensures IsUtf8Char(c) <==> IsScalar(cp)
    ensures LengthOf(c[0]) == |c|
  {
  }

  /** Every UTF-8 character but NUL is the encoding of the scalar value it stands for. */
  lemma DecodesBack(c: Bytes)
    requires IsUtf8Char(c) && c != [0]
    ensures Decode(c) > 0 && IsScalar(Decode(c)) && Encoding(Decode(c)) == c
  {
    hide Encoding;
    EncodingIsUnique(Decode(c), c, Encoding(Decode(c)));
  }

  /**
   * The whole range of the encoder: its output is UTF-8 except for surrogates and for 0x110000 to 0x1FFFFF,
   * which take four bytes although no Unicode code point is there.
   */
  lemma EncoderWritesUtf8Iff(cp: nat, c: Bytes)
    requires Encodes(cp, c)
    ensures IsUtf8(c) <==> !(0xD800 <= cp <= 0xDFFF) && !(0x10FFFF < cp <= MAX_CODE_POINT_4)
  {
    if cp > MAX_CODE_POINT_4 {
      AsciiIsUtf8(c);
    } else if cp > 0 {
      EncodingIsUtf8Iff(cp, c);
      assert c[..|c|] == c && c[|c|..] == [];
      if IsScalar(cp) {
        IsUtf8Unfolds(c, |c|);
      } else {
        NoCharNoUtf8(c);
      }
    }
  }

  /** The message that is announced for everything beyond the last code point is given exactly beyond four bytes. */
  lemma MessageIsGivenIff(cp: nat, c: Bytes)
    requires Encodes(cp, c)
    ensures (cp > 0x10FFFF ==> c == Message(cp)) <==> cp <= 0x10FFFF || cp > MAX_CODE_POINT_4
  {
  }

  /** What the message says: the words, the number in hexadecimal, and a closing parenthesis. */
  lemma MessageNamesNumber(cp: nat, c: Bytes)
    requires Encodes(cp, c) && cp > MAX_CODE_POINT_4
    ensures |c| > 20 && c[|c| - 1] == 0x29 && HexValue(c[19..|c| - 1]) == cp
    ensures c[..19] == [0x28, 0x49, 0x6E, 0x76, 0x61, 0x6C, 0x69, 0x64, 0x20,
                        0x55, 0x6E, 0x69, 0x63, 0x6F, 0x64, 0x65, 0x20, 0x30, 0x78]
  {
    HexReadsBack(cp);
    var hex := FormatHex(cp);
    hide FormatHex, HexValue;
    assert c == INVALID + hex + [0x29];
    assert c[19..|c| - 1] == hex;
  }

  /** The first number that is no code point gets four bytes, which are not UTF-8. */
  lemma FourBytesForNoCodePoint(c: Bytes)
    requires Encodes(0x110000, c)
    ensures c == [0xF4, 0x90, 0x80, 0x80] && c != Message(0x110000) && !IsUtf8(c)
  {
    var four: Bytes := [0xF4, 0x90, 0x80, 0x80];
    assert Encodes(0x110000, four);
    EncodingIsUnique(0x110000, c, four);
    EncoderWritesUtf8Iff(0x110000, c);
    hide IsUtf8;
  }

  lemma {:induction false} AsciiIsUtf8(s: Bytes)
    requires forall i :: 0 <= i < |s| ==> s[i] <= 0x7F
    ensures IsUtf8(s)
  {
    if s != [] {
      AsciiIsUtf8(s[1..]);
      IsUtf8Unfolds(s, 1);
    }
  }

  // ---- strings ----

  ghost predicate Scalars(cps: seq<nat>) {
    forall i :: 0 <= i < |cps| ==> cps[i] > 0 && IsScalar(cps[i])
  }

  ghost function EncodeAll(cps: seq<nat>): Bytes {
    if cps == [] then [] else Encoding(cps[0]) + EncodeAll(cps[1..])
  }

  /** The code points of a UTF-8 string. */
  ghost function DecodeAll(s: Bytes): seq<nat>
    requires IsUtf8(s)
    decreases |s|
  {
    if s == [] then [] else
      FirstChar(s);
      var n := LengthOf(s[0]);
      [Decode(s[..n])] + DecodeAll(s[n..])
  }

  lemma FirstChar(s: Bytes)
    requires IsUtf8(s) && s != []
    ensures var n := LengthOf(s[0]); n <= |s| && IsUtf8Char(s[..n]) && IsUtf8(s[n..]) && Decode(s[..n]) >= 0
  {
    var m :| 1 <= m <= |s| && IsUtf8Char(s[..m]) && IsUtf8(s[m..]);
    CharLength(s[..m]);
  }

  lemma EncodingReadsBack(cp: nat)
    requires 0 < cp && IsScalar(cp)
    ensures IsUtf8Char(Encoding(cp)) && Decode(Encoding(cp)) == cp && 0 !in Encoding(cp)
  {
    EncodingIsUtf8Iff(cp, Encoding(cp));
    hide Encoding;
  }

  /** What is written for scalar values is UTF-8, and reading it gives them back; so no other scalar values are written so. */
  lemma {:induction false} EncodedReadsBack(cps: seq<nat>)
    requires Scalars(cps)
    ensures IsUtf8(EncodeAll(cps)) && DecodeAll(EncodeAll(cps)) == cps && 0 !in EncodeAll(cps)
  {
    EmptyIsUtf8();
    hide Encoding, IsUtf8Char, Decode, IsScalar, IsUtf8;
    if cps != [] {
      EncodedReadsBack(cps[1..]);
      EncodingReadsBack(cps[0]);
      Concatenated(Encoding(cps[0]), EncodeAll(cps[1..]));
    }
  }

  /** A character in front of a string is the first one read. */
  lemma Concatenated(c: Bytes, s: Bytes)
    requires IsUtf8Char(c) && IsUtf8(s)
    ensures Decode(c) >= 0 && IsUtf8(c + s) && DecodeAll(c + s) == [Decode(c)] + DecodeAll(s)
  {
    assert (c + s)[..|c|] == c && (c + s)[|c|..] == s;
    IsUtf8Unfolds(c + s, |c|);
    CharLength(c);
    hide IsUtf8, IsUtf8Char, Decode, LengthOf;
    assert (c + s)[0] == c[0];
  }

  /** UTF-8 without NUL is what the encoder writes for the scalar values read from it. */
  lemma {:induction false} Utf8IsEncoded(s: Bytes)
    requires IsUtf8(s) && 0 !in s
    ensures Scalars(DecodeAll(s)) && EncodeAll(DecodeAll(s)) == s
    decreases |s|
  {
    if s != [] {
      FirstChar(s);
      var c, rest := s[..LengthOf(s[0])], s[LengthOf(s[0])..];
      assert c != [0] && |rest| < |s| && 0 !in rest && s == c + rest by {
        assert c[0] == s[0] && s[0] in s;
      }
      hide Encoding, IsUtf8Char, Decode, IsScalar, IsUtf8, LengthOf;
      DecodesBack(c);
      Utf8IsEncoded(rest);
      Concatenated(c, rest);
      hide DecodeAll;
      assert DecodeAll(s)[1..] == DecodeAll(rest);
    }
  }

  /** The validator's language, among strings without NUL, is the encoder's. */
  lemma Utf8IffEncoded(s: Bytes)
    requires 0 !in s
    ensures IsUtf8(s) <==> exists cps :: Scalars(cps) && EncodeAll(cps) == s
  {
    if IsUtf8(s) {
      Utf8IsEncoded(s);
    }
    if cps :| Scalars(cps) && EncodeAll(cps) == s {
      EncodedReadsBack(cps);
    }
  }
}
