/** Percent-encoding of the status message (section 2.1 of RFC 3986) and UTF-8 well-formedness. */
module Percent {
  import opened Bytes

  const PERCENT: byte := 37

  /** Controls, everything outside ASCII, and space " # % < > ` ? { } are escaped. */
  predicate MustEscape(b: byte) {
    || b < 0x20 || b >= 0x7F
    || b == 32 || b == 34 || b == 35 || b == PERCENT || b == 60 || b == 62
    || b == 96 || b == 63 || b == 123 || b == 125
  }

  function HexDigit(n: nat): (c: byte)
    requires n < 16
  {
    if n < 10 then 48 + n else 55 + n
  }

  predicate IsHex(c: byte) { 48 <= c <= 57 || 65 <= c <= 70 || 97 <= c <= 102 }

  function HexValue(c: byte): (n: nat)
    requires IsHex(c)
    ensures n < 16
  {
    if c <= 57 then c - 48 else if c <= 70 then c - 55 else c - 87
  }

  function EscapeByte(b: byte): (t: seq<byte>) {
    if MustEscape(b) then [PERCENT, HexDigit(b / 16), HexDigit(b % 16)] else [b]
  }

  function Encode(s: seq<byte>): (t: seq<byte>) {
    if s == [] then [] else EscapeByte(s[0]) + Encode(s[1..])
  }

  /** A percent sign that two hexadecimal digits do not follow stands for itself. */
  function Decode(t: seq<byte>): (s: seq<byte>) {
    if t == [] then []
    else if t[0] == PERCENT && |t| >= 3 && IsHex(t[1]) && IsHex(t[2])
    then [HexValue(t[1]) * 16 + HexValue(t[2])] + Decode(t[3..])
    else [t[0]] + Decode(t[1..])
  }

  lemma HexRoundTrip(b: byte)
    ensures var hi, lo := HexDigit(b / 16), HexDigit(b % 16);
            IsHex(hi) && IsHex(lo) && HexValue(hi) * 16 + HexValue(lo) == b
  {
  }

  lemma DecodeEscaped(b: byte, rest: seq<byte>)
    ensures Decode(EscapeByte(b) + rest) == [b] + Decode(rest)
  {
    HexRoundTrip(b);
    var t := EscapeByte(b) + rest;
    if MustEscape(b) {
      assert t[3..] == rest;
    } else {
      assert t[1..] == rest;
    }
  }

  /** Decoding inverts encoding on every byte string. */
  lemma {:induction false} RoundTrip(s: seq<byte>)
    ensures Decode(Encode(s)) == s
  {
    if s != [] {
      RoundTrip(s[1..]);
      DecodeEscaped(s[0], Encode(s[1..]));
      assert s == [s[0]] + s[1..];
    }
  }

  /** The encoded text is visible ASCII without spaces. */
  lemma {:induction false} EncodedIsVisible(s: seq<byte>)
    ensures forall i :: 0 <= i < |Encode(s)| ==> 0x20 < Encode(s)[i] < 0x7F
    ensures Encode(s) == [] <==> s == []
  {
    if s != [] {
      EncodedIsVisible(s[1..]);
      assert |EscapeByte(s[0])| >= 1;
    }
  }

  predicate InRange(s: seq<byte>, i: nat, lo: byte, hi: byte) { i < |s| && lo <= s[i] <= hi }

  /** Length of the well-formed character at the head of `s`; zero when there is none. */
  function CharLen(s: seq<byte>): (n: nat)
    ensures n <= |s| && n <= 4
  {
    if InRange(s, 0, 0x00, 0x7F) then 1
    else if InRange(s, 0, 0xC2, 0xDF) && InRange(s, 1, 0x80, 0xBF) then 2
    else if InRange(s, 0, 0xE0, 0xEF) && InRange(s, 2, 0x80, 0xBF) &&
            InRange(s, 1, if s[0] == 0xE0 then 0xA0 else 0x80, if s[0] == 0xED then 0x9F else 0xBF) then 3
    else if InRange(s, 0, 0xF0, 0xF4) && InRange(s, 2, 0x80, 0xBF) && InRange(s, 3, 0x80, 0xBF) &&
            InRange(s, 1, if s[0] == 0xF0 then 0x90 else 0x80, if s[0] == 0xF4 then 0x8F else 0xBF) then 4
    else 0
  }

  predicate IsUtf8(s: seq<byte>) {
    s == [] || (CharLen(s) > 0 && IsUtf8(s[CharLen(s)..]))
  }
}
