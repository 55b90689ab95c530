/** Frames and the trailer block byte by byte, in the numbers of the wire format. */
module FrameFormat {
  import opened Bytes
  import opened Headers
  import opened WebFrame
  import opened TrailerBlock

  // ----- Frame headers -----

  /** The announced length is big-endian: the first length byte that differs decides. */
  lemma FrameLengthOrder(a: seq<byte>, b: seq<byte>, i: nat)
    requires |a| >= 5 && |b| >= 5 && 1 <= i <= 4
    requires (forall j :: 1 <= j < i ==> a[j] == b[j]) && a[i] != b[i]
    ensures FrameTotalLen(a).value < FrameTotalLen(b).value <==> a[i] < b[i]
  {
    forall j | 0 <= j < i - 1 ensures a[1..5][j] == b[1..5][j] {
      assert a[1 + j] == b[1 + j];
    }
    WordOrder(a[1..5], b[1..5], i - 1);
  }

  /** It lies between the bare header and the header with the largest 32-bit payload. */
  lemma FrameLengthRange(a: seq<byte>)
    requires |a| >= 5
    ensures 5 <= FrameTotalLen(a).value <= 0x1_0000_0004
    ensures FrameTotalLen(a).value == 5 <==> a[1] == a[2] == a[3] == a[4] == 0
    ensures FrameTotalLen(a).value == 0x1_0000_0004 <==> a[1] == a[2] == a[3] == a[4] == 255
  {
  }

  /** A whole frame on its own, with the given flag and length bytes. */
  lemma OneFrame(flag: byte, l: seq<byte>, p: seq<byte>)
    requires |l| == 4 && |p| == ((l[0] as int * 256 + l[1] as int) * 256 + l[2] as int) * 256 + l[3] as int
    ensures FindSpec([flag] + l + p) ==
            match flag {
              case 0 => Done(5 + |p|)
              case 1 => Done(5 + |p|)
              case 128 => Trailer(0)
              case _ => InvalidFlag(flag)
            }
  {
    var f := [flag] + l + p;
    assert f[1..5] == l && FrameTotalLen(f) == Some(|f|);
    assert f[0..] == f && f[|f|..] == [];
  }

  /** A byte less than announced, and a message is incomplete. */
  lemma OneCutFrame(flag: byte, l: seq<byte>, p: seq<byte>)
    requires |l| == 4 && |p| < ((l[0] as int * 256 + l[1] as int) * 256 + l[2] as int) * 256 + l[3] as int
    requires flag == 0 || flag == 1
    ensures FindSpec([flag] + l + p) == IncompleteBuf
  {
    var f := [flag] + l + p;
    assert f[1..5] == l && f[0..] == f;
  }

  /** The frame that carries the trailers: flag 0x80, the length in four bytes from the highest down, the block. */
  lemma TrailersFrameBytes(items: seq<(Name, Value)>)
    requires |EncodeTrailers(items)| < 0x1_0000_0000
    ensures var n := |EncodeTrailers(items)|;
            MakeTrailersFrame(items) ==
            [128, n / 0x100_0000, n / 0x1_0000 % 256, n / 256 % 256, n % 256] + EncodeTrailers(items)
  {
    hide EncodeTrailers;
    var n := |EncodeTrailers(items)|;
    assert PutU32(n) == [n / 0x100_0000, n / 0x1_0000 % 256, n / 256 % 256, n % 256];
  }

  // ----- The trailer block -----

  /** Each field is a line: the name, a colon, the value, carriage return, line feed. */
  lemma FieldBytes(k: Name, v: Value, items: seq<(Name, Value)>)
    ensures EncodeTrailers([]) == []
    ensures EncodeTrailers([(k, v)] + items) == k + [58] + v + [13, 10] + EncodeTrailers(items)
  {
    assert ([(k, v)] + items)[1..] == items;
  }

  /** Lines that end with carriage return and line feed, one after the other. */
  function Joined(ls: seq<seq<byte>>): (s: seq<byte>) {
    if ls == [] then [] else ls[0] + [13, 10] + Joined(ls[1..])
  }

  predicate HasCrLf(s: seq<byte>) { exists i :: 0 <= i < |s| - 1 && PairAt(s, i) }

  predicate PairAt(s: seq<byte>, i: nat) { i + 1 < |s| && s[i] == 13 && s[i + 1] == 10 }

  /** Nothing in the line can be taken for its end. */
  predicate IsLine(l: seq<byte>) { !HasCrLf(l + [13]) }

  lemma LineEnd(l: seq<byte>, rest: seq<byte>)
    requires IsLine(l)
    ensures var s := l + [13, 10] + rest;
            CrLfAt(s, |l|) && forall i :: 0 <= i < |l| ==> !CrLfAt(s, i)
  {
    var s := l + [13, 10] + rest;
    forall i | 0 <= i < |l| ensures !CrLfAt(s, i) {
      assert s[i] == (l + [13])[i] && s[i + 1] == (l + [13])[i + 1];
      assert !PairAt(l + [13], i);
    }
  }

  /** A block splits into its lines, and what follows the last line end is dropped. */
  lemma {:induction false} LinesOfJoined(ls: seq<seq<byte>>, rest: seq<byte>)
    requires (forall i :: 0 <= i < |ls| ==> IsLine(ls[i])) && !HasCrLf(rest)
    ensures Lines(Joined(ls) + rest) == ls
    decreases |ls|
  {
    if ls == [] {
      assert Joined(ls) + rest == rest;
      forall i | 0 <= i < |rest| ensures !CrLfAt(rest, i) {
        assert i + 1 < |rest| ==> !PairAt(rest, i);
      }
      NoLine(rest);
    } else {
      var l, more := ls[0], Joined(ls[1..]) + rest;
      var s := l + [13, 10] + more;
      assert Joined(ls) + rest == s;
      LineEnd(l, more);
      FirstLine(s, |l|);
      assert s[..|l|] == l && s[|l| + 2..] == more;
      LinesOfJoined(ls[1..], rest);
    }
  }

  /** Every block is such lines and such a rest. */
  lemma {:induction false} EveryBlock(s: seq<byte>) returns (rest: seq<byte>)
    ensures s == Joined(Lines(s)) + rest && !HasCrLf(rest)
    ensures forall i :: 0 <= i < |Lines(s)| ==> IsLine(Lines(s)[i])
    decreases |s|
  {
    var n := FindCrLf(s);
    FirstCrLf(s);
    if n == |s| {
      rest := s;
      forall i | 0 <= i < |s| - 1 ensures !PairAt(s, i) {
        assert !CrLfAt(s, i);
      }
    } else {
      var l := s[..n];
      rest := EveryBlock(s[n + 2..]);
      assert s == l + [13, 10] + s[n + 2..];
      assert IsLine(l) by {
        forall i | 0 <= i < |l| ensures !PairAt(l + [13], i) {
          assert (l + [13])[i] == s[i] && (l + [13])[i + 1] == s[i + 1];
          assert !CrLfAt(s, i);
        }
      }
      assert Lines(s) == [l] + Lines(s[n + 2..]);
      Regroup(l + [13, 10], Joined(Lines(s[n + 2..])), rest);
    }
  }

  lemma {:induction false} FirstCrLf(s: seq<byte>)
    ensures forall i :: 0 <= i < FindCrLf(s) ==> !CrLfAt(s, i)
  {
    if |s| >= 2 && !CrLfAt(s, 0) {
      FirstCrLf(s[1..]);
      forall i | 0 <= i < FindCrLf(s) ensures !CrLfAt(s, i) {
        assert i > 0 ==> !CrLfAt(s[1..], i - 1);
      }
    }
  }

  // ----- One line -----

  predicate IsBlank(b: byte) { b in {9, 10, 12, 13, 32} }

  /** Tab, line feed, form feed, carriage return and space go; the first other byte stays. */
  lemma TrimmedBytes(blanks: seq<byte>, v: seq<byte>)
    requires forall i :: 0 <= i < |blanks| ==> IsBlank(blanks[i])
    requires v == [] || !IsBlank(v[0])
    ensures TrimStart(blanks + v) == v
  {
    var n := LeadingWhitespace(blanks + v);
    assert forall i :: 0 <= i < |blanks| ==> (blanks + v)[i] == blanks[i];
    assert v != [] ==> (blanks + v)[|blanks|] == v[0];
    assert n == |blanks|;
    assert (blanks + v)[|blanks|..] == v;
  }

  /** `n` is `k` with the letters A to Z in lower case. */
  predicate IsLowered(k: seq<byte>, n: seq<byte>) {
    |n| == |k| && forall i :: 0 <= i < |k| ==> n[i] == if 65 <= k[i] <= 90 then k[i] + 32 else k[i]
  }

  predicate IsToken(k: seq<byte>) { 1 <= |k| <= 65535 && forall i :: 0 <= i < |k| ==> IsTokenByte(k[i]) }

  /** Token bytes are the visible ASCII characters that are not delimiters (section 5.6.2 of RFC 9110). */
  lemma TokenBytes(b: byte)
    ensures IsTokenByte(b) <==>
            && '!' as int <= b <= '~' as int
            && b !in {'"' as int, '(' as int, ')' as int, ',' as int, '/' as int, ':' as int, ';' as int, '<' as int, '=' as int}
            && b !in {'>' as int, '?' as int, '@' as int, '[' as int, '\\' as int, ']' as int, '{' as int, '}' as int}
  {
  }

  /** A line without a colon, or with a bad name or a bad value, is refused, and in this order. */
  lemma LineMeaning(k: seq<byte>, v: seq<byte>, n: seq<byte>)
    requires 58 !in k && IsLowered(k, n)
    ensures ParseLine(k) == Err(NoColon)
    ensures ParseLine(k + [58] + v) ==
            if !IsToken(k) then Err(BadName)
            else if !IsValue(TrimStart(v)) then Err(BadValue)
            else Ok((n, TrimStart(v)))
  {
    var line := k + [58] + v;
    FindColonAt(k, v);
    assert line[..|k|] == k && line[|k| + 1..] == v;
    hide TrimStart, IsValue;
    if IsToken(k) {
      assert ParseName(k).value == n;
    }
  }

  // ----- All lines -----

  predicate AllParse(lines: seq<seq<byte>>) { forall i :: 0 <= i < |lines| ==> ParseLine(lines[i]).Ok? }

  predicate ParseTo(lines: seq<seq<byte>>, items: seq<(Name, Value)>) {
    |items| == |lines| && forall i :: 0 <= i < |lines| ==> ParseLine(lines[i]) == Ok(items[i])
  }

  /** When every line parses, each name has the value of its last line and nothing else is there. */
  lemma {:induction false} ParsedLines(lines: seq<seq<byte>>, items: seq<(Name, Value)>, m: HeaderMap, k: Name)
    requires ParseTo(lines, items)
    ensures InsertLines(lines, m).Ok?
    ensures var r, vs := InsertLines(lines, m).value, ValuesOf(items, k);
            && (k in r <==> vs != [] || k in m)
            && (k in r ==> r[k] == if vs != [] then [vs[|vs| - 1]] else m[k])
    decreases |lines|
  {
    hide ParseLine;
    if lines != [] {
      ParsedLines(lines[1..], items[1..], Insert(m, items[0].0, items[0].1), k);
    }
  }

  /** The first line that does not parse decides the error. */
  lemma {:induction false} RefusedLine(lines: seq<seq<byte>>, i: nat, m: HeaderMap)
    requires i < |lines| && ParseLine(lines[i]).Err?
    requires forall j :: 0 <= j < i ==> ParseLine(lines[j]).Ok?
    ensures InsertLines(lines, m) == Err(ParseLine(lines[i]).error)
    decreases i
  {
    hide ParseLine;
    if i > 0 {
      var item := ParseLine(lines[0]).value;
      RefusedLine(lines[1..], i - 1, Insert(m, item.0, item.1));
    }
  }

  /**
    Decoding any frame: the five header bytes are skipped, the block is cut into
    lines, and either the first bad line is reported or every name gets the
    value of its last line.
   */
  lemma FrameMeaning(f: seq<byte>, items: seq<(Name, Value)>, k: Name)
    requires |f| >= 5
    ensures var lines := Lines(f[5..]);
            && (DecodeFrame(f).Ok? <==> AllParse(lines))
            && (ParseTo(lines, items) ==>
                  && DecodeFrame(f).Ok? && DecodeFrame(f).value.Some?
                  && var r, vs := DecodeFrame(f).value.value, ValuesOf(items, k);
                     (k in r <==> vs != []) && (k in r ==> r[k] == [vs[|vs| - 1]]))
  {
    var lines := Lines(f[5..]);
    hide AllParse, ParseTo, Lines, ValuesOf, InsertLines;
    if ParseTo(lines, items) {
      ParsedLines(lines, items, map[], k);
    }
    FirstRefusal(lines, map[]);
  }

  lemma {:induction false} FirstRefusal(lines: seq<seq<byte>>, m: HeaderMap)
    ensures InsertLines(lines, m).Ok? <==> AllParse(lines)
    decreases |lines|
  {
    hide ParseLine;
    if lines != [] && ParseLine(lines[0]).Ok? {
      var item := ParseLine(lines[0]).value;
      FirstRefusal(lines[1..], Insert(m, item.0, item.1));
      assert forall i :: 0 < i < |lines| ==> lines[i] == lines[1..][i - 1];
    }
  }
}
