/** Percent-encoding and UTF-8 in the terms of their standards. */
module TextFormat {
  import opened Bytes
  import opened Percent

  // ----- Percent-encoding (section 2.1 of RFC 3986) -----

  /** `c` is a hexadecimal digit, in either case, that stands for `n`. */
  predicate IsNibble(c: byte, n: nat) {
    || (n < 10 && c == '0' as int + n)
    || (10 <= n < 16 && (c == 'A' as int + (n - 10) || c == 'a' as int + (n - 10)))
  }

  /** Visible ASCII goes out as it is, but for ten characters; all else as a percent sign and two upper-case digits. */
  lemma EscapedBytes(b: byte, s: seq<byte>)
    ensures var plain := '!' as int <= b <= '~' as int && b !in {34, 35, 37, 60, 62, 63, 96, 123, 125};
            Encode([b] + s) ==
            (if plain then [b]
             else ['%' as int, "0123456789ABCDEF"[b / 16] as int, "0123456789ABCDEF"[b % 16] as int]) + Encode(s)
  {
    assert ([b] + s)[1..] == s;
  }

  lemma NibbleIsHex(c: byte, n: nat)
    requires IsNibble(c, n)
    ensures IsHex(c) && HexValue(c) == n
  {
  }

  /** A percent sign and two digits of either case stand for one byte. */
  lemma EscapeReads(c: byte, d: byte, a: nat, b: nat, rest: seq<byte>)
    requires IsNibble(c, a) && IsNibble(d, b)
    ensures Decode(['%' as int, c, d] + rest) == [a * 16 + b] + Decode(rest)
  {
    NibbleIsHex(c, a);
    NibbleIsHex(d, b);
    var t := ['%' as int, c, d] + rest;
    hide IsHex, HexValue, IsNibble;
    assert t[0] == 37 && t[1] == c && t[2] == d && t[3..] == rest;
  }

  /** Everything else stands for itself. */
  lemma PlainReads(c: byte, rest: seq<byte>)
    requires c == '%' as int ==>
               |rest| < 2 || (forall n :: !IsNibble(rest[0], n)) || (forall n :: !IsNibble(rest[1], n))
    ensures Decode([]) == [] && Decode([c] + rest) == [c] + Decode(rest)
  {
    var t := [c] + rest;
    assert t[1..] == rest;
    if c == '%' as int && |rest| >= 2 {
      assert t[1] == rest[0] && t[2] == rest[1];
      HexIsNibble(rest[0]);
      HexIsNibble(rest[1]);
    }
  }

  lemma HexIsNibble(c: byte)
    ensures IsHex(c) ==> exists n :: IsNibble(c, n)
  {
    if IsHex(c) {
      assert IsNibble(c, HexValue(c));
    }
  }

  // ----- UTF-8 (section 3 of RFC 3629) -----

  /** Unicode scalar values: all code points but the surrogates. */
  type scalar = c: int | 0 <= c <= 0x10_FFFF && !(0xD800 <= c <= 0xDFFF)

  function EncodeScalar(c: scalar): (s: seq<byte>)
    ensures s != []
  {
    if c < 0x80 then [c]
    else if c < 0x800 then [0xC0 + c / 0x40, 0x80 + c % 0x40]
    else if c < 0x1_0000 then [0xE0 + c / 0x1000, 0x80 + c / 0x40 % 0x40, 0x80 + c % 0x40]
    else [0xF0 + c / 0x4_0000, 0x80 + c / 0x1000 % 0x40, 0x80 + c / 0x40 % 0x40, 0x80 + c % 0x40]
  }

  function EncodeText(cs: seq<scalar>): (s: seq<byte>) {
    if cs == [] then [] else EncodeScalar(cs[0]) + EncodeText(cs[1..])
  }

  lemma ScalarIsChar(c: scalar, rest: seq<byte>)
    ensures CharLen(EncodeScalar(c) + rest) == |EncodeScalar(c)|
  {
    var s := EncodeScalar(c) + rest;
    if 0x800 <= c < 0x1_0000 {
      assert s[0] == 0xE0 ==> s[1] >= 0xA0;
      assert s[0] == 0xED ==> s[1] <= 0x9F;
    }
  }

  /** The code point of the character at the head of `s`. */
  function HeadScalar(s: seq<byte>): (c: int)
    requires CharLen(s) > 0
  {
    match CharLen(s)
    case 1 => s[0]
    case 2 => (s[0] as int - 0xC0) * 0x40 + (s[1] as int - 0x80)
    case 3 => ((s[0] as int - 0xE0) * 0x40 + (s[1] as int - 0x80)) * 0x40 + (s[2] as int - 0x80)
    case _ => (((s[0] as int - 0xF0) * 0x40 + (s[1] as int - 0x80)) * 0x40 + (s[2] as int - 0x80)) * 0x40 + (s[3] as int - 0x80)
  }

  /** Four digits of base 64, the first of any size. */
  lemma Digits(a: nat, b: nat, c: nat, d: nat)
    requires b < 0x40 && c < 0x40 && d < 0x40
    ensures var x := ((a * 0x40 + b) * 0x40 + c) * 0x40 + d;
            x % 0x40 == d && x / 0x40 % 0x40 == c && x / 0x1000 % 0x40 == b && x / 0x4_0000 == a
  {
    var x := ((a * 0x40 + b) * 0x40 + c) * 0x40 + d;
    assert x / 0x40 == (a * 0x40 + b) * 0x40 + c;
    assert x / 0x1000 == a * 0x40 + b;
  }

  predicate IsScalar(c: int) { 0 <= c <= 0x10_FFFF && !(0xD800 <= c <= 0xDFFF) }

  lemma ThreeBytes(s: seq<byte>)
    requires CharLen(s) == 3
    ensures IsScalar(HeadScalar(s)) && EncodeScalar(HeadScalar(s)) == s[..3]
  {
    Digits(0, s[0] as int - 0xE0, s[1] as int - 0x80, s[2] as int - 0x80);
    assert s[..3] == [s[0], s[1], s[2]];
  }

  lemma FourBytes(s: seq<byte>)
    requires CharLen(s) == 4
    ensures IsScalar(HeadScalar(s)) && EncodeScalar(HeadScalar(s)) == s[..4]
  {
    Digits(s[0] as int - 0xF0, s[1] as int - 0x80, s[2] as int - 0x80, s[3] as int - 0x80);
    assert s[..4] == [s[0], s[1], s[2], s[3]];
  }

  lemma CharIsScalar(s: seq<byte>)
    requires CharLen(s) > 0
    ensures IsScalar(HeadScalar(s)) && EncodeScalar(HeadScalar(s)) == s[..CharLen(s)]
  {
    match CharLen(s)
    case 1 =>
      assert s[..1] == [s[0]];
    case 2 =>
      Digits(0, 0, s[0] as int - 0xC0, s[1] as int - 0x80);
      assert s[..2] == [s[0], s[1]];
    case 3 =>
      ThreeBytes(s);
    case _ =>
      FourBytes(s);
  }

  lemma {:induction false} EncodedIsUtf8(cs: seq<scalar>)
    ensures IsUtf8(EncodeText(cs))
  {
    if cs != [] {
      var rest := EncodeText(cs[1..]);
      EncodedIsUtf8(cs[1..]);
      ScalarIsChar(cs[0], rest);
      hide CharLen, EncodeScalar;
      assert (EncodeScalar(cs[0]) + rest)[|EncodeScalar(cs[0])|..] == rest;
    }
  }

  lemma TextFirst(c: scalar, cs: seq<scalar>)
    ensures EncodeText([c] + cs) == EncodeScalar(c) + EncodeText(cs)
  {
    assert ([c] + cs)[1..] == cs;
  }

  lemma {:induction false} Utf8IsEncoded(s: seq<byte>) returns (cs: seq<scalar>)
    requires IsUtf8(s)
    ensures EncodeText(cs) == s
    decreases |s|
  {
    if s == [] {
      cs := [];
    } else {
      hide CharLen, EncodeScalar, HeadScalar;
      var n := CharLen(s);
      CharIsScalar(s);
      var c: scalar := HeadScalar(s);
      var rest := Utf8IsEncoded(s[n..]);
      cs := [c] + rest;
      TextFirst(c, rest);
      hide EncodeText, IsUtf8;
      assert s == s[..n] + s[n..];
    }
  }

  /** Well-formed text is exactly what some sequence of scalar values encodes to. */
  lemma Utf8Exactly(s: seq<byte>)
    ensures IsUtf8(s) <==> exists cs :: EncodeText(cs) == s
  {
    if IsUtf8(s) {
      var cs := Utf8IsEncoded(s);
    }
    forall cs | EncodeText(cs) == s ensures IsUtf8(s) {
      EncodedIsUtf8(cs);
    }
  }
}
