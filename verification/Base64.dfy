/**
  The standard base64 alphabet (section 4 of RFC 4648).  Decoding is indifferent
  to padding and rejects non-zero trailing bits.
 */
module Base64 {
  import opened Bytes

  const PAD: byte := 61

  type sextet = v: int | 0 <= v < 64

  function Symbol(v: sextet): (c: byte) {
    if v < 26 then 65 + v
    else if v < 52 then 71 + v
    else if v < 62 then v - 4
    else if v == 62 then 43
    else 47
  }

  predicate IsSymbol(c: byte) {
    65 <= c <= 90 || 97 <= c <= 122 || 48 <= c <= 57 || c == 43 || c == 47
  }

  function Sextet(c: byte): (v: sextet)
    requires IsSymbol(c)
    ensures Symbol(v) == c
  {
    if 65 <= c <= 90 then c - 65
    else if 97 <= c <= 122 then c - 71
    else if 48 <= c <= 57 then c + 4
    else if c == 43 then 62
    else 63
  }

  lemma SymbolSextet(v: sextet)
    ensures IsSymbol(Symbol(v)) && Sextet(Symbol(v)) == v
  {
  }

  function EncodeGroup(a: byte, b: byte, c: byte): (t: seq<byte>)
    ensures |t| == 4
  {
    [Symbol(a / 4), Symbol(a % 4 * 16 + b / 16), Symbol(b % 16 * 4 + c / 64), Symbol(c % 64)]
  }

  /** Three bytes and their four symbols are the same 24-bit number. */
  lemma GroupIsOneNumber(a: byte, b: byte, c: byte)
    ensures var t := EncodeGroup(a, b, c);
            && IsQuad(t)
            && ((Sextet(t[0]) * 64 + Sextet(t[1])) * 64 + Sextet(t[2])) * 64 + Sextet(t[3]) == (a * 256 + b) * 256 + c
  {
    var p, q, r, s := a / 4, a % 4 * 16 + b / 16, b % 16 * 4 + c / 64, c % 64;
    SymbolSextet(p);
    SymbolSextet(q);
    SymbolSextet(r);
    SymbolSextet(s);
  }

  function Encode(x: seq<byte>, padded: bool): (t: seq<byte>) {
    match |x|
    case 0 => []
    case 1 => EncodeGroup(x[0], 0, 0)[..2] + (if padded then [PAD, PAD] else [])
    case 2 => EncodeGroup(x[0], x[1], 0)[..3] + (if padded then [PAD] else [])
    case _ => EncodeGroup(x[0], x[1], x[2]) + Encode(x[3..], padded)
  }

  predicate IsQuad(t: seq<byte>) {
    |t| >= 4 && IsSymbol(t[0]) && IsSymbol(t[1]) && IsSymbol(t[2]) && IsSymbol(t[3])
  }

  function DecodeGroup(p: sextet, q: sextet, r: sextet, s: sextet): (x: seq<byte>)
    ensures |x| == 3
  {
    [p * 4 + q / 16, q % 16 * 16 + r / 4, r % 4 * 64 + s]
  }

  function DecodeQuad(t: seq<byte>): (x: seq<byte>)
    requires IsQuad(t)
  {
    DecodeGroup(Sextet(t[0]), Sextet(t[1]), Sextet(t[2]), Sextet(t[3]))
  }

  /** All but the padding at the end of a last group. */
  function StripPad(t: seq<byte>): (r: seq<byte>)
    requires |t| <= 4
    ensures |r| <= |t|
  {
    if |t| == 4 && t[2] == PAD && t[3] == PAD then t[..2]
    else if |t| >= 3 && t[|t| - 1] == PAD then t[..|t| - 1]
    else t
  }

  /** A last group of two or three symbols whose unused bits are zero. */
  function DecodeTail(t: seq<byte>): (r: Option<seq<byte>>)
    requires |t| <= 4
  {
    var u := StripPad(t);
    if |u| == 2 && IsSymbol(u[0]) && IsSymbol(u[1]) && Sextet(u[1]) % 16 == 0
    then Some(DecodeGroup(Sextet(u[0]), Sextet(u[1]), 0, 0)[..1])
    else if |u| == 3 && IsSymbol(u[0]) && IsSymbol(u[1]) && IsSymbol(u[2]) && Sextet(u[2]) % 4 == 0
    then Some(DecodeGroup(Sextet(u[0]), Sextet(u[1]), Sextet(u[2]), 0)[..2])
    else None
  }

  function Decode(t: seq<byte>): (r: Option<seq<byte>>) {
    if t == [] then Some([])
    else if IsQuad(t) then
      (match Decode(t[4..])
       case None => None
       case Some(x) => Some(DecodeQuad(t) + x))
    else if |t| <= 4 then DecodeTail(t)
    else None
  }

  lemma GroupBits(a: byte, b: byte, c: byte)
    ensures var p, q, r, s := a / 4, a % 4 * 16 + b / 16, b % 16 * 4 + c / 64, c % 64;
            DecodeGroup(p, q, r, s) == [a, b, c]
  {
  }

  lemma GroupRoundTrip(a: byte, b: byte, c: byte)
    ensures IsQuad(EncodeGroup(a, b, c))
    ensures DecodeQuad(EncodeGroup(a, b, c)) == [a, b, c]
  {
    var p, q, r, s := a / 4, a % 4 * 16 + b / 16, b % 16 * 4 + c / 64, c % 64;
    SymbolSextet(p);
    SymbolSextet(q);
    SymbolSextet(r);
    SymbolSextet(s);
    GroupBits(a, b, c);
  }

  lemma OneByteRoundTrip(a: byte, padded: bool)
    ensures Decode(Encode([a], padded)) == Some([a])
  {
    var p, q := a / 4, a % 4 * 16;
    SymbolSextet(p);
    SymbolSextet(q);
    GroupBits(a, 0, 0);
    var t := Encode([a], padded);
    assert |t| == 4 ==> t[2] == PAD && t[3] == PAD;
    assert StripPad(t) == [Symbol(p), Symbol(q)];
    assert DecodeGroup(p, q, 0, 0)[..1] == [a];
  }

  lemma TwoBytesRoundTrip(a: byte, b: byte, padded: bool)
    ensures Decode(Encode([a, b], padded)) == Some([a, b])
  {
    var p, q, r := a / 4, a % 4 * 16 + b / 16, b % 16 * 4;
    SymbolSextet(p);
    SymbolSextet(q);
    SymbolSextet(r);
    GroupBits(a, b, 0);
    var t := Encode([a, b], padded);
    assert |t| == 4 ==> t[3] == PAD && t[2] != PAD;
    assert StripPad(t) == [Symbol(p), Symbol(q), Symbol(r)];
    assert DecodeGroup(p, q, r, 0)[..2] == [a, b];
  }

  /** Both the padded and the unpadded text decode to the original bytes. */
  lemma {:induction false} RoundTrip(x: seq<byte>, padded: bool)
    ensures Decode(Encode(x, padded)) == Some(x)
  {
    hide DecodeQuad, DecodeTail, EncodeGroup, IsQuad;
    if |x| >= 3 {
      var g, rest := EncodeGroup(x[0], x[1], x[2]), Encode(x[3..], padded);
      GroupRoundTrip(x[0], x[1], x[2]);
      RoundTrip(x[3..], padded);
      DecodeQuadThen(g, rest);
      assert x == [x[0], x[1], x[2]] + x[3..];
    } else if |x| == 2 {
      TwoBytesRoundTrip(x[0], x[1], padded);
      assert x == [x[0], x[1]];
    } else if |x| == 1 {
      OneByteRoundTrip(x[0], padded);
      assert x == [x[0]];
    }
  }

  lemma DecodeQuadThen(g: seq<byte>, rest: seq<byte>)
    requires |g| == 4 && IsQuad(g) && Decode(rest).Some?
    ensures Decode(g + rest) == Some(DecodeQuad(g) + Decode(rest).value)
  {
    assert (g + rest)[4..] == rest;
  }

  /** Encoded text holds alphabet symbols and padding only; padded text comes in whole groups. */
  lemma {:induction false} EncodedText(x: seq<byte>, padded: bool)
    ensures forall i :: 0 <= i < |Encode(x, padded)| ==>
              IsSymbol(Encode(x, padded)[i]) || (padded && Encode(x, padded)[i] == PAD)
    ensures padded ==> |Encode(x, padded)| % 4 == 0
    ensures Encode(x, padded) == [] <==> x == []
  {
    if |x| >= 3 {
      EncodedText(x[3..], padded);
    }
  }

  /** Text that decodes can be cut at any group boundary and decoded in two pieces. */
  lemma {:induction false} DecodeSplit(a: seq<byte>, b: seq<byte>)
    requires |a| % 4 == 0 && Decode(a + b).Some?
    ensures Decode(a).Some? && Decode(b).Some?
    ensures Decode(a + b).value == Decode(a).value + Decode(b).value
  {
    hide DecodeGroup, DecodeTail;
    if a == [] {
      assert a + b == b;
    } else if b == [] {
      assert a + b == a;
    } else {
      assert (a + b)[4..] == a[4..] + b;
      DecodeSplit(a[4..], b);
      Regroup(DecodeQuad(a), Decode(a[4..]).value, Decode(b).value);
    }
  }

  /** Conversely, when the first piece has no padding, the pieces decide the whole. */
  lemma {:induction false} DecodeJoin(a: seq<byte>, b: seq<byte>)
    requires |a| % 4 == 0 && PAD !in a
    requires Decode(a).Some? && Decode(b).Some?
    ensures Decode(a + b) == Some(Decode(a).value + Decode(b).value)
  {
    hide DecodeQuad, DecodeTail, IsQuad;
    if a == [] {
      assert a + b == b;
      assert Decode(a).value + Decode(b).value == Decode(b).value;
    } else {
      QuadWithoutPad(a);
      assert a == a[..4] + a[4..];
      DecodeJoin(a[4..], b);
      DecodeJoinQuad(a[..4], a[4..], b);
    }
  }

  lemma DecodeJoinQuad(g: seq<byte>, a: seq<byte>, b: seq<byte>)
    requires |g| == 4 && IsQuad(g) && Decode(a).Some? && Decode(b).Some?
    requires Decode(a + b) == Some(Decode(a).value + Decode(b).value)
    ensures Decode(g + a).Some? && Decode(g + a + b) == Some(Decode(g + a).value + Decode(b).value)
  {
    hide Decode, DecodeQuad, IsQuad;
    DecodeQuadThen(g, a);
    DecodeQuadThen(g, a + b);
    assert g + (a + b) == g + a + b;
    var q, x, y := DecodeQuad(g), Decode(a).value, Decode(b).value;
    assert q + (x + y) == (q + x) + y;
  }

  lemma QuadWithoutPad(a: seq<byte>)
    requires |a| >= 4 && PAD !in a && Decode(a).Some?
    ensures IsQuad(a[..4]) && Decode(a[4..]).Some?
  {
    assert a[2] in a && a[3] in a;
  }

  /** Only the empty text stands for no bytes. */
  lemma OnlyEmptyIsEmpty(t: seq<byte>)
    ensures Decode(t) == Some([]) <==> t == []
  {
  }
}
