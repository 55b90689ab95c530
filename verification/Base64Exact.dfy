/** Exactly which texts the base64 decoder takes, and for which bytes. */
module Base64Exact {
  import opened Bytes
  import opened Base64

  /** The alphabet of section 4 of RFC 4648. */
  lemma Alphabet(v: sextet)
    ensures Symbol(v) == if v < 26 then 'A' as int + v
                         else if v < 52 then 'a' as int + (v - 26)
                         else if v < 62 then '0' as int + (v - 52)
                         else if v == 62 then '+' as int else '/' as int
  {
  }

  /** Examples from section 10 of RFC 4648: f, fo, foo and foob. */
  lemma Examples()
    ensures Encode([102], true) == [90, 103, 61, 61] && Encode([102], false) == [90, 103]
    ensures Encode([102, 111], true) == [90, 109, 56, 61] && Encode([102, 111], false) == [90, 109, 56]
    ensures Encode([102, 111, 111], true) == [90, 109, 57, 118]
    ensures Encode([102, 111, 111, 98], true) == [90, 109, 57, 118, 89, 103, 61, 61]
  {
    assert [102, 111, 111, 98][3..] == [98];
    assert Encode([98], true) == [89, 103, 61, 61];
  }

  /** How many padding characters complete the last group. */
  function PadRoom(x: seq<byte>): (n: nat) { if |x| % 3 == 0 then 0 else 3 - |x| % 3 }

  function Pads(k: nat): (t: seq<byte>)
    ensures |t| == k
  {
    seq(k, i => 61)
  }

  lemma {:induction false} PaddedIsPads(x: seq<byte>)
    ensures Encode(x, true) == Encode(x, false) + Pads(PadRoom(x))
  {
    if |x| >= 3 {
      PaddedIsPads(x[3..]);
      Regroup(EncodeGroup(x[0], x[1], x[2]), Encode(x[3..], false), Pads(PadRoom(x)));
    }
  }

  lemma OneByte(a: byte, k: nat)
    requires k <= 2
    ensures Decode(Encode([a], false) + Pads(k)) == Some([a])
  {
    var p, q := a / 4, a % 4 * 16;
    SymbolSextet(p);
    SymbolSextet(q);
    var t := Encode([a], false) + Pads(k);
    assert StripPad(t) == [Symbol(p), Symbol(q)];
    assert DecodeGroup(p, q, 0, 0)[..1] == [a];
  }

  lemma TwoBytes(a: byte, b: byte, k: nat)
    requires k <= 1
    ensures Decode(Encode([a, b], false) + Pads(k)) == Some([a, b])
  {
    if k == 0 {
      assert Encode([a, b], false) + Pads(k) == Encode([a, b], false);
      TwoBytesRoundTrip(a, b, false);
    } else {
      PaddedIsPads([a, b]);
      TwoBytesRoundTrip(a, b, true);
    }
  }

  /** Any part of the padding may be missing. */
  lemma {:induction false} PartlyPadded(x: seq<byte>, k: nat)
    requires k <= PadRoom(x)
    ensures Decode(Encode(x, false) + Pads(k)) == Some(x)
  {
    if |x| == 0 {
    } else if |x| == 1 {
      assert x == [x[0]];
      OneByte(x[0], k);
    } else if |x| == 2 {
      assert x == [x[0], x[1]];
      TwoBytes(x[0], x[1], k);
    } else {
      var g, rest := EncodeGroup(x[0], x[1], x[2]), Encode(x[3..], false) + Pads(k);
      assert x == [x[0], x[1], x[2]] + x[3..];
      GroupRoundTrip(x[0], x[1], x[2]);
      hide Decode, EncodeGroup, DecodeQuad;
      PartlyPadded(x[3..], k);
      DecodeQuadThen(g, rest);
      Regroup(g, Encode(x[3..], false), Pads(k));
    }
  }

  /** `t` is the text of `x`, with all, some or none of its padding. */
  ghost predicate IsTextOf(t: seq<byte>, x: seq<byte>) {
    exists k :: 0 <= k <= PadRoom(x) && t == Encode(x, false) + Pads(k)
  }

  lemma GroupInverse(p: sextet, q: sextet, r: sextet, s: sextet)
    ensures var x := DecodeGroup(p, q, r, s);
            EncodeGroup(x[0], x[1], x[2]) == [Symbol(p), Symbol(q), Symbol(r), Symbol(s)]
  {
    var a, b, c := p * 4 + q / 16, q % 16 * 16 + r / 4, r % 4 * 64 + s;
    assert a / 4 == p && a % 4 * 16 + b / 16 == q && b % 16 * 4 + c / 64 == r && c % 64 == s;
  }

  lemma QuadInverse(t: seq<byte>)
    requires IsQuad(t)
    ensures var x := DecodeQuad(t); |x| == 3 && EncodeGroup(x[0], x[1], x[2]) == t[..4]
  {
    GroupInverse(Sextet(t[0]), Sextet(t[1]), Sextet(t[2]), Sextet(t[3]));
  }

  lemma TwoSymbols(p: sextet, q: sextet)
    requires q % 16 == 0
    ensures Encode(DecodeGroup(p, q, 0, 0)[..1], false) == [Symbol(p), Symbol(q)]
  {
    var x := DecodeGroup(p, q, 0, 0);
    GroupInverse(p, q, 0, 0);
    assert x[1] == 0 && x[2] == 0 && x[..1] == [x[0]];
  }

  lemma ThreeSymbols(p: sextet, q: sextet, r: sextet)
    requires r % 4 == 0
    ensures Encode(DecodeGroup(p, q, r, 0)[..2], false) == [Symbol(p), Symbol(q), Symbol(r)]
  {
    var x := DecodeGroup(p, q, r, 0);
    GroupInverse(p, q, r, 0);
    assert x[2] == 0 && x[..2] == [x[0], x[1]];
  }

  lemma TailInverse(t: seq<byte>)
    requires |t| <= 4 && DecodeTail(t).Some?
    ensures IsTextOf(t, DecodeTail(t).value)
  {
    var u, x := StripPad(t), DecodeTail(t).value;
    var k := |t| - |u|;
    assert t == u + Pads(k);
    if |u| == 2 {
      TwoSymbols(Sextet(u[0]), Sextet(u[1]));
    } else {
      ThreeSymbols(Sextet(u[0]), Sextet(u[1]), Sextet(u[2]));
    }
    hide Encode, DecodeGroup;
    assert Encode(x, false) == u;
    assert k <= PadRoom(x);
  }

  lemma EncodeMore(g: seq<byte>, rest: seq<byte>)
    requires |g| == 3
    ensures Encode(g + rest, false) == EncodeGroup(g[0], g[1], g[2]) + Encode(rest, false)
    ensures PadRoom(g + rest) == PadRoom(rest)
  {
    assert (g + rest)[3..] == rest;
  }

  lemma QuadThenText(t: seq<byte>, rest: seq<byte>)
    requires IsQuad(t) && IsTextOf(t[4..], rest)
    ensures IsTextOf(t, DecodeQuad(t) + rest)
  {
    QuadInverse(t);
    assert t == t[..4] + t[4..];
    hide Encode, EncodeGroup, DecodeQuad, PadRoom;
    var k :| 0 <= k <= PadRoom(rest) && t[4..] == Encode(rest, false) + Pads(k);
    EncodeMore(DecodeQuad(t), rest);
    Regroup(t[..4], Encode(rest, false), Pads(k));
  }

  lemma {:induction false} DecodedIsText(t: seq<byte>)
    requires Decode(t).Some?
    ensures IsTextOf(t, Decode(t).value)
  {
    if t == [] {
      assert t == Encode([], false) + Pads(0);
    } else if IsQuad(t) {
      DecodedIsText(t[4..]);
      QuadThenText(t, Decode(t[4..]).value);
    } else {
      TailInverse(t);
    }
  }

  /** The decoder takes the text of `x`, whole or short of padding, for `x`, and takes nothing else. */
  lemma DecodeExactly(t: seq<byte>, x: seq<byte>)
    ensures Decode(t) == Some(x) <==> IsTextOf(t, x)
  {
    if Decode(t) == Some(x) {
      DecodedIsText(t);
    }
    if IsTextOf(t, x) {
      var k :| 0 <= k <= PadRoom(x) && t == Encode(x, false) + Pads(k);
      PartlyPadded(x, k);
    }
  }
}
