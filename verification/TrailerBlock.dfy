/** The trailers frame of a gRPC-Web body: header fields as CRLF-terminated lines. */
module TrailerBlock {
  import opened Bytes
  import opened Headers
  import opened WebFrame

  const CR: byte := 13
  const LF: byte := 10
  const COLON: byte := 58

  datatype TrailerError = NoColon | BadName | BadValue

  predicate IsAsciiWhitespace(b: byte) { b == 32 || b == 9 || b == 10 || b == 12 || b == 13 }

  /** How many bytes of whitespace `v` starts with. */
  function LeadingWhitespace(v: seq<byte>): (n: nat)
    ensures n <= |v|
    ensures forall i :: 0 <= i < n ==> IsAsciiWhitespace(v[i])
    ensures n < |v| ==> !IsAsciiWhitespace(v[n])
  {
    if v == [] || !IsAsciiWhitespace(v[0]) then 0 else 1 + LeadingWhitespace(v[1..])
  }

  function TrimStart(v: seq<byte>): (r: seq<byte>) { v[LeadingWhitespace(v)..] }

  // ----- Encoding -----

  function RawLine(item: (Name, Value)): (s: seq<byte>) { item.0 + [COLON] + item.1 }

  function RawLines(items: seq<(Name, Value)>): (r: seq<seq<byte>>) {
    if items == [] then [] else [RawLine(items[0])] + RawLines(items[1..])
  }

  function EncodeTrailers(items: seq<(Name, Value)>): (s: seq<byte>) {
    if items == [] then [] else RawLine(items[0]) + [CR, LF] + EncodeTrailers(items[1..])
  }

  function MakeTrailersFrame(items: seq<(Name, Value)>): (f: seq<byte>)
    requires |EncodeTrailers(items)| < 0x1_0000_0000
    ensures IsTrailersFrame(f)
    ensures f[HEADER_SIZE..] == EncodeTrailers(items)
  {
    var block := EncodeTrailers(items);
    var f := [TRAILERS_BIT] + PutU32(|block|) + block;
    assert f[1..5] == PutU32(|block|);
    f
  }

  lemma {:induction false} EncodeTrailersConcat(a: seq<(Name, Value)>, b: seq<(Name, Value)>)
    ensures EncodeTrailers(a + b) == EncodeTrailers(a) + EncodeTrailers(b)
  {
    if a == [] {
      assert a + b == b;
    } else {
      EncodeTrailersConcat(a[1..], b);
      TailOfConcat(a, b);
      Regroup(RawLine(a[0]) + [CR, LF], EncodeTrailers(a[1..]), EncodeTrailers(b));
    }
  }

  // ----- Decoding -----

  predicate CrLfAt(s: seq<byte>, i: nat) { i + 1 < |s| && s[i] == CR && s[i + 1] == LF }

  /** Position of the first CRLF, or the length when there is none. */
  function FindCrLf(s: seq<byte>): (i: nat)
    ensures i <= |s|
    ensures i < |s| ==> CrLfAt(s, i)
  {
    if |s| < 2 then |s|
    else if CrLfAt(s, 0) then 0
    else 1 + FindCrLf(s[1..])
  }

  /** The CRLF-terminated lines of `s`; bytes after the last CRLF are dropped. */
  function Lines(s: seq<byte>): (r: seq<seq<byte>>)
    decreases |s|
  {
    var i := FindCrLf(s);
    if i < |s| then [s[..i]] + Lines(s[i + 2..]) else []
  }

  function FindColon(s: seq<byte>): (i: nat)
    ensures i <= |s|
    ensures i < |s| ==> s[i] == COLON
    ensures forall j :: 0 <= j < i ==> s[j] != COLON
  {
    if s == [] || s[0] == COLON then 0 else 1 + FindColon(s[1..])
  }

  function ParseField(key: seq<byte>, value: seq<byte>): (r: Result<(Name, Value), TrailerError>)
    ensures r.Ok? ==> IsName(r.value.0) && IsValue(r.value.1)
  {
    match ParseName(key)
    case None => Err(BadName)
    case Some(name) => if IsValue(value) then Ok((name, value)) else Err(BadValue)
  }

  function ParseLine(line: seq<byte>): (r: Result<(Name, Value), TrailerError>)
    ensures r.Ok? ==> IsName(r.value.0) && IsValue(r.value.1)
  {
    var pos := FindColon(line);
    if pos == |line| then Err(NoColon)
    else ParseField(line[..pos], TrimStart(line[pos + 1..]))
  }

  /** Inserts the parsed lines into `m`, a later line replacing an earlier one. */
  function InsertLines(lines: seq<seq<byte>>, m: HeaderMap): (r: Result<HeaderMap, TrailerError>) {
    if lines == [] then Ok(m)
    else
      match ParseLine(lines[0])
      case Err(e) => Err(e)
      case Ok(item) => InsertLines(lines[1..], Insert(m, item.0, item.1))
  }

  function DecodeBlock(block: seq<byte>): (r: Result<HeaderMap, TrailerError>) {
    InsertLines(Lines(block), map[])
  }

  /** A trailers frame too short for its header decodes to nothing. */
  function DecodeFrame(f: seq<byte>): (r: Result<Option<HeaderMap>, TrailerError>)
    ensures r == Ok(None) <==> |f| < HEADER_SIZE
  {
    if |f| < HEADER_SIZE then Ok(None)
    else
      match DecodeBlock(f[HEADER_SIZE..])
      case Ok(m) => Ok(Some(m))
      case Err(e) => Err(e)
  }

  // ----- The source's loops -----

  method EncodeTrailersLoop(items: seq<(Name, Value)>) returns (acc: seq<byte>)
    ensures acc == EncodeTrailers(items)
  {
    acc := [];
    for i := 0 to |items|
      invariant acc == EncodeTrailers(items[..i])
    {
      EncodeTrailersConcat(items[..i], [items[i]]);
      assert items[..i + 1] == items[..i] + [items[i]];
      acc := acc + items[i].0;
      acc := acc + [COLON];
      acc := acc + items[i].1;
      acc := acc + [CR, LF];
    }
    assert items[..|items|] == items;
  }

  /** No CRLF starts before `n`, so the search can skip to it. */
  lemma {:induction false} FindCrLfSkip(s: seq<byte>, n: nat)
    requires n <= |s|
    requires forall i :: 0 <= i < n ==> !CrLfAt(s, i)
    ensures FindCrLf(s) == n + FindCrLf(s[n..])
  {
    if n == 0 {
      assert s[0..] == s;
    } else if |s| >= 2 {
      assert !CrLfAt(s, 0);
      forall i | 0 <= i < n - 1 ensures !CrLfAt(s[1..], i) {
        assert !CrLfAt(s, i + 1);
      }
      FindCrLfSkip(s[1..], n - 1);
      assert s[1..][n - 1..] == s[n..];
    }
  }

  /** The line that ends at `n`, the first CRLF of `s`. */
  lemma FirstLine(s: seq<byte>, n: nat)
    requires CrLfAt(s, n)
    requires forall i :: 0 <= i < n ==> !CrLfAt(s, i)
    ensures Lines(s) == [s[..n]] + Lines(s[n + 2..])
  {
    FindCrLfSkip(s, n);
    assert CrLfAt(s[n..], 0);
  }

  /** `trailers` are the lines of `buf` that end at or before `cursor`. */
  ghost predicate Scanned(buf: seq<byte>, cursor: nat, trailers: seq<seq<byte>>) {
    cursor <= |buf| && Lines(buf) == trailers + Lines(buf[cursor..])
  }

  lemma LineAt(buf: seq<byte>, cursor: nat, i: nat)
    requires cursor <= i && CrLfAt(buf, i)
    requires forall j :: cursor <= j < i ==> !CrLfAt(buf, j)
    ensures Lines(buf[cursor..]) == [buf[cursor..i]] + Lines(buf[i + 2..])
  {
    var temp := buf[cursor..];
    assert CrLfAt(temp, i - cursor);
    forall j | 0 <= j < i - cursor ensures !CrLfAt(temp, j) {
      assert !CrLfAt(buf, cursor + j);
    }
    FirstLine(temp, i - cursor);
    assert temp[..i - cursor] == buf[cursor..i];
    assert temp[i - cursor + 2..] == buf[i + 2..];
  }

  lemma NextLine(buf: seq<byte>, cursor: nat, trailers: seq<seq<byte>>, i: nat)
    requires Scanned(buf, cursor, trailers)
    requires cursor <= i && CrLfAt(buf, i)
    requires forall j :: cursor <= j < i ==> !CrLfAt(buf, j)
    ensures Scanned(buf, i + 2, trailers + [buf[cursor..i]])
  {
    LineAt(buf, cursor, i);
    Regroup(trailers, [buf[cursor..i]], Lines(buf[i + 2..]));
  }

  lemma LastLine(buf: seq<byte>, cursor: nat, trailers: seq<seq<byte>>)
    requires Scanned(buf, cursor, trailers)
    requires forall j :: cursor <= j < |buf| ==> !CrLfAt(buf, j)
    ensures trailers == Lines(buf)
  {
    var temp := buf[cursor..];
    forall j | 0 <= j < |temp| ensures !CrLfAt(temp, j) {
      assert !CrLfAt(buf, cursor + j);
    }
    NoLine(temp);
  }

  lemma NoLine(s: seq<byte>)
    requires forall i :: 0 <= i < |s| ==> !CrLfAt(s, i)
    ensures Lines(s) == []
  {
    FindCrLfSkip(s, |s|);
  }

  /**
    The delimiter scan.  `cursor` is where the current line starts; it never
    overtakes the delimiter being looked at, and `temp` is always what is left
    from `cursor` on.
   */
  method ScanLines(buf: seq<byte>) returns (trailers: seq<seq<byte>>)
    ensures trailers == Lines(buf)
  {
    trailers := [];
    var temp := buf;
    var cursor := 0;
    assert buf[0..] == buf;
    for i := 0 to |buf|
      invariant Scanned(buf, cursor, trailers)
      invariant temp == buf[cursor..]
      invariant cursor <= i || (cursor == i + 1 && buf[i] == LF)
      invariant forall j :: cursor <= j < i ==> !CrLfAt(buf, j)
    {
      if buf[i] == CR && i + 1 < |buf| && buf[i + 1] == LF {
        NextLine(buf, cursor, trailers, i);
        var trailer := temp[..i - cursor];
        assert trailer == buf[cursor..i];
        temp := temp[i - cursor..];
        cursor := i + 2;
        trailers := trailers + [trailer];
        if temp != [] {
          temp := temp[1..];
          temp := temp[1..];
        }
        assert temp == buf[cursor..];
      } else {
        assert !CrLfAt(buf, i);
      }
    }
    LastLine(buf, cursor, trailers);
  }

  method ParseTrailer(trailer: seq<byte>) returns (r: Result<(Name, Value), TrailerError>)
    ensures r == ParseLine(trailer)
  {
    var pos := FindColon(trailer);
    if pos == |trailer| {
      return Err(NoColon);
    }
    var key, value := trailer[..pos], trailer[pos..];
    value := value[1..];
    assert value == trailer[pos + 1..];
    value := TrimStart(value);
    var name := ParseName(key);
    if name.None? {
      return Err(BadName);
    }
    if !IsValue(value) {
      return Err(BadValue);
    }
    return Ok((name.value, value));
  }

  method DecodeTrailersFrame(frame: seq<byte>) returns (r: Result<Option<HeaderMap>, TrailerError>)
    ensures r == DecodeFrame(frame)
  {
    if |frame| < HEADER_SIZE {
      return Ok(None);
    }
    var buf := frame[1..][4..];
    assert buf == frame[HEADER_SIZE..];
    var m: HeaderMap := map[];
    var lines := ScanLines(buf);
    for i := 0 to |lines|
      invariant InsertLines(lines, map[]) == InsertLines(lines[i..], m)
    {
      var field := ParseTrailer(lines[i]);
      if field.Err? {
        return Err(field.error);
      }
      m := Insert(m, field.value.0, field.value.1);
      assert lines[i..][1..] == lines[i + 1..];
    }
    return Ok(Some(m));
  }

  // ----- Decoding inverts encoding -----

  /** The map built by visiting `items` in order, on top of `m`. */
  function Collected(items: seq<(Name, Value)>, m: HeaderMap): (r: HeaderMap) {
    if items == [] then m
    else Collected(items[1..], Insert(m, items[0].0, TrimStart(items[0].1)))
  }

  predicate ValidItems(items: seq<(Name, Value)>) {
    forall i :: 0 <= i < |items| ==> IsName(items[i].0) && IsValue(items[i].1)
  }

  lemma {:induction false} FindCrLfAt(line: seq<byte>, rest: seq<byte>)
    requires CR !in line
    ensures FindCrLf(line + [CR, LF] + rest) == |line|
  {
    var s := line + [CR, LF] + rest;
    FindCrLfSkip(s, |line|);
    assert CrLfAt(s[|line|..], 0);
  }

  lemma {:induction false} LinesOfBlock(items: seq<(Name, Value)>)
    requires ValidItems(items)
    ensures Lines(EncodeTrailers(items)) == RawLines(items)
  {
    if items != [] {
      var line := RawLine(items[0]);
      var rest := EncodeTrailers(items[1..]);
      var s := line + [CR, LF] + rest;
      assert CR !in line;
      FindCrLfAt(line, rest);
      assert s[..|line|] == line && s[|line| + 2..] == rest;
      LinesOfBlock(items[1..]);
    }
  }

  lemma {:induction false} FindColonAt(k: seq<byte>, v: seq<byte>)
    requires COLON !in k
    ensures FindColon(k + [COLON] + v) == |k|
  {
    var s := k + [COLON] + v;
    if k != [] {
      FindColonAt(k[1..], v);
      assert s[1..] == k[1..] + [COLON] + v;
    }
  }

  lemma TrimmedIsValue(v: Value)
    requires IsValue(v)
    ensures IsValue(TrimStart(v))
  {
    var k := LeadingWhitespace(v);
    assert forall i :: 0 <= i < |v| - k ==> v[k..][i] == v[k + i];
  }

  lemma NameHasNoColon(k: Name)
    requires IsName(k)
    ensures COLON !in k
  {
  }

  lemma ParseRawLine(item: (Name, Value))
    requires IsName(item.0) && IsValue(item.1)
    ensures ParseLine(RawLine(item)) == Ok((item.0, TrimStart(item.1)))
  {
    var (k, v) := item;
    var line := k + [COLON] + v;
    assert FindColon(line) == |k| by {
      NameHasNoColon(k);
      FindColonAt(k, v);
    }
    assert line[..|k|] == k && line[|k| + 1..] == v;
    assert ParseField(k, TrimStart(v)) == Ok((k, TrimStart(v))) by {
      TrimmedIsValue(v);
    }
  }

  lemma {:induction false} InsertRawLines(items: seq<(Name, Value)>, m: HeaderMap)
    requires ValidItems(items)
    ensures InsertLines(RawLines(items), m) == Ok(Collected(items, m))
  {
    if items != [] {
      ParseRawLine(items[0]);
      assert RawLines(items)[1..] == RawLines(items[1..]);
      InsertRawLines(items[1..], Insert(m, items[0].0, TrimStart(items[0].1)));
    }
  }

  function Last(vs: seq<Value>): (v: Value)
    requires vs != []
  {
    vs[|vs| - 1]
  }

  /** Visiting the fields in order leaves each name with its last value, trimmed. */
  lemma {:induction false} CollectedMeaning(items: seq<(Name, Value)>, m: HeaderMap, k: Name)
    ensures ValuesOf(items, k) != [] ==>
              k in Collected(items, m) && Collected(items, m)[k] == [TrimStart(Last(ValuesOf(items, k)))]
    ensures ValuesOf(items, k) == [] ==>
              (k in Collected(items, m) <==> k in m) && (k in m ==> Collected(items, m)[k] == m[k])
  {
    if items != [] {
      CollectedMeaning(items[1..], Insert(m, items[0].0, TrimStart(items[0].1)), k);
    }
  }

  /** What a trailers frame keeps of a header map: the last value of each name, trimmed. */
  function Carried(m: HeaderMap): (r: HeaderMap)
    requires forall k :: k in m ==> m[k] != []
  {
    map k | k in m :: [TrimStart(Last(m[k]))]
  }

  lemma CollectedIsCarried(m: HeaderMap, items: seq<(Name, Value)>)
    requires IsIteration(items, m) && forall k :: k in m ==> m[k] != []
    ensures Collected(items, map[]) == Carried(m)
  {
    hide TrimStart, Collected, ValuesOf;
    var r := Collected(items, map[]);
    forall k ensures k in r <==> k in m {
      CollectedMeaning(items, map[], k);
      if k !in m {
        ForeignName(items, m, k);
      }
    }
    forall k | k in m ensures r[k] == Carried(m)[k] {
      CollectedMeaning(items, map[], k);
    }
    assert r.Keys == m.Keys == Carried(m).Keys;
  }

  /**
    Trailer block law: whatever order the fields are visited in, decoding the
    frame gives each name its last value with leading whitespace removed.
   */
  lemma FrameRoundTrip(m: HeaderMap, items: seq<(Name, Value)>)
    requires IsHeaderMap(m) && IsIteration(items, m)
    requires |EncodeTrailers(items)| < 0x1_0000_0000
    ensures DecodeFrame(MakeTrailersFrame(items)) == Ok(Some(Carried(m)))
  {
    IterationValid(items, m);
    CollectedIsCarried(m, items);
    hide IsHeaderMap, IsIteration, EncodeTrailers, Lines, InsertLines, Collected, Carried, IsName, IsValue;
    LinesOfBlock(items);
    InsertRawLines(items, map[]);
  }

  lemma {:induction false} ForeignName(items: seq<(Name, Value)>, m: HeaderMap, k: Name)
    requires forall i :: 0 <= i < |items| ==> items[i].0 in m
    requires k !in m
    ensures ValuesOf(items, k) == []
  {
    if items != [] {
      ForeignName(items[1..], m, k);
    }
  }

  /** A single value that does not start with whitespace. */
  predicate IsPlain(vs: seq<Value>) {
    |vs| == 1 && (vs[0] == [] || !IsAsciiWhitespace(vs[0][0]))
  }

  lemma PlainIsKept(vs: seq<Value>)
    requires vs != []
    ensures [TrimStart(Last(vs))] == vs <==> IsPlain(vs)
  {
    var v := Last(vs);
    if IsPlain(vs) {
      assert v[0..] == v;
      assert vs == [v];
    }
    if [TrimStart(v)] == vs {
      assert vs[0] == TrimStart(v);
    }
  }

  /** A map survives the frame exactly when every name has one plain value. */
  lemma CarriedExactly(m: HeaderMap)
    requires forall k :: k in m ==> m[k] != []
    ensures Carried(m) == m <==> forall k :: k in m ==> IsPlain(m[k])
  {
    hide IsPlain, TrimStart, Last;
    var r := Carried(m);
    forall k | k in m ensures r[k] == m[k] <==> IsPlain(m[k]) {
      PlainIsKept(m[k]);
    }
    hide Carried;
    assert r.Keys == m.Keys;
    if forall k :: k in m ==> IsPlain(m[k]) {
      assert forall k :: k in m ==> r[k] == m[k];
    }
  }
}
