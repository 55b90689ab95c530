/** From a server's response frames through the gRPC-Web encoding and back. */
module WebEncode {
  import opened Bytes
  import opened Headers
  import opened WebFrame
  import opened TrailerBlock
  import opened WebCall
  import opened WebDecode
  import opened WebChunking
  import opened WebText
  import Base64

  /** `outs` is what polling the encoder until the end or the first error may yield. */
  ghost predicate IsEncodeRun(inner: seq<Item>, encoding: Encoding, outs: seq<Poll>) {
    if inner == [] then outs == [End]
    else
      && outs != []
      && EncodeOut(inner[0], encoding, outs[0])
      && if inner[0].Broken? then |outs| == 1 else IsEncodeRun(inner[1..], encoding, outs[1..])
  }

  /** A response: data frames, then the HTTP trailers. */
  function Response(ds: seq<seq<byte>>, m: HeaderMap): (inner: seq<Item>) {
    Chunks(ds) + [Whole(Trailers(m))]
  }

  /** Without base64 the encoder sends the data on as it is, then the trailers as one frame. */
  lemma {:induction false} EncodedBody(ds: seq<seq<byte>>, m: HeaderMap, outs: seq<Poll>)
    requires IsEncodeRun(Response(ds, m), Binary, outs)
    ensures exists f :: EncodesTo(Trailers(m), Binary, f) && DataBytes(outs) == Flatten(ds) + f
  {
    var inner := Response(ds, m);
    if ds == [] {
      assert inner[0] == Whole(Trailers(m)) && inner[1..] == [];
      var f := outs[0].frame.bytes;
      assert DataBytes(outs[1..]) == [];
      assert DataBytes(outs) == Flatten(ds) + f;
      assert EncodesTo(Trailers(m), Binary, f);
    } else {
      assert inner[0] == Whole(Data(ds[0]));
      assert inner[1..] == Response(ds[1..], m);
      EncodedBody(ds[1..], m, outs[1..]);
      var f :| EncodesTo(Trailers(m), Binary, f) && DataBytes(outs[1..]) == Flatten(ds[1..]) + f;
      assert outs[0] == Yield(Data(ds[0]));
      Regroup(ds[0], Flatten(ds[1..]), f);
    }
  }

  /** An inner error ends the encoding with that error, after the data before it. */
  lemma {:induction false} EncodingFails(ds: seq<seq<byte>>, message: string, more: seq<Item>, encoding: Encoding, outs: seq<Poll>)
    requires IsEncodeRun(Chunks(ds) + ([Broken(message)] + more), encoding, outs)
    ensures |outs| == |ds| + 1 && outs[|ds|] == Fail(InnerError(message))
    ensures forall i :: 0 <= i < |ds| ==> outs[i] == Yield(Data(Armoured(ds[i], encoding)))
  {
    var inner := Chunks(ds) + ([Broken(message)] + more);
    if ds != [] {
      assert inner[0] == Whole(Data(ds[0])) && inner[1..] == Chunks(ds[1..]) + ([Broken(message)] + more);
      hide Armoured;
      EncodingFails(ds[1..], message, more, encoding, outs[1..]);
      assert forall i :: 0 < i < |outs| ==> outs[i] == outs[1..][i - 1];
      assert forall i :: 0 < i < |ds| ==> ds[i] == ds[1..][i - 1];
    } else {
      assert inner[0] == Broken(message);
    }
  }

  lemma EncodedFrame(m: HeaderMap, f: seq<byte>)
    requires IsHeaderMap(m) && EncodesTo(Trailers(m), Binary, f)
    ensures IsTrailersFrame(f) && DecodeFrame(f) == Ok(Some(Carried(m)))
  {
    var items :| IsIteration(items, m) && |EncodeTrailers(items)| < 0x1_0000_0000 && f == MakeTrailersFrame(items);
    FrameRoundTrip(m, items);
  }

  /**
    End to end: whole messages and HTTP trailers are encoded, the bytes are cut
    into chunks anywhere, and the client decoder yields the same message bytes,
    then the trailers that the frame carries, then the end.
   */
  lemma EndToEnd(ds: seq<seq<byte>>, m: HeaderMap, sent: seq<Poll>, cs: seq<seq<byte>>)
    requires IsMessages(Flatten(ds)) && IsHeaderMap(m)
    requires IsEncodeRun(Response(ds, m), Binary, sent)
    requires Flatten(cs) == DataBytes(sent)
    ensures DeliversAll(Run(Start(Chunks(cs))), Flatten(ds), Carried(m))
  {
    var t := Carried(m);
    hide IsMessages, IsHeaderMap, IsEncodeRun, EncodesTo, Run, Carried, DataBytes, Flatten, DeliversAll, IsTrailersFrame;
    EncodedBody(ds, m, sent);
    var f :| EncodesTo(Trailers(m), Binary, f) && Flatten(cs) == Flatten(ds) + f;
    EncodedFrame(m, f);
    assert Flatten(ds) + f + [] == Flatten(ds) + f;
    BodyDelivered(Flatten(ds), f, t, [], cs);
  }

  /** With one plain value per name, the client gets the very trailers that the server sent. */
  lemma EndToEndExact(ds: seq<seq<byte>>, m: HeaderMap, sent: seq<Poll>, cs: seq<seq<byte>>)
    requires IsMessages(Flatten(ds)) && IsHeaderMap(m) && forall k :: k in m ==> IsPlain(m[k])
    requires IsEncodeRun(Response(ds, m), Binary, sent)
    requires Flatten(cs) == DataBytes(sent)
    ensures DeliversAll(Run(Start(Chunks(cs))), Flatten(ds), m)
  {
    CarriedExactly(m);
    hide IsMessages, IsHeaderMap, IsEncodeRun, Run, Carried, DataBytes, Flatten, DeliversAll;
    EndToEnd(ds, m, sent, cs);
  }

  // ----- Text bodies -----

  /** The bytes of the data frames at the head of `outs`. */
  function FrameBytes(outs: seq<Poll>): (cs: seq<seq<byte>>) {
    if outs == [] || !outs[0].Yield? || !outs[0].frame.Data? then []
    else [outs[0].frame.bytes] + FrameBytes(outs[1..])
  }

  /** Each text decoded on its own. */
  function DecodeEach(cs: seq<seq<byte>>): (r: Option<seq<byte>>) {
    if cs == [] then Some([])
    else
      match (Base64.Decode(cs[0]), DecodeEach(cs[1..]))
      case (Some(x), Some(rest)) => Some(x + rest)
      case _ => None
  }

  /** The text frames `cs` carry `x`: each decodes by itself, and so does the stream of them. */
  ghost predicate Carries(cs: seq<seq<byte>>, x: seq<byte>) {
    && DecodeEach(cs) == Some(x)
    && var run := TextRun(Text(cs, []));
       WebText.Last(run) == End && DataBytes(run) == x
  }

  lemma CarriesNothing()
    ensures Carries([], [])
  {
    assert TextRun(Text([], [])) == [End];
  }

  lemma PieceRuns(x: seq<byte>, cs: seq<seq<byte>>)
    ensures TextRun(Text([Base64.Encode(x, true)] + cs, [])) ==
            (if x == [] then [] else [Yield(Data(x))]) + TextRun(Text(cs, []))
  {
    Base64.RoundTrip(x, true);
    Base64.EncodedText(x, true);
    hide Base64.Encode, Base64.Decode, TextRun, Text;
    if x == [] {
      ChunkToBuffer([], cs, []);
    } else {
      OnePiece(Base64.Encode(x, true), x, cs);
    }
  }

  lemma DecodeEachFirst(a: seq<byte>, x: seq<byte>, cs: seq<seq<byte>>, rest: seq<byte>)
    requires Base64.Decode(a) == Some(x) && DecodeEach(cs) == Some(rest)
    ensures DecodeEach([a] + cs) == Some(x + rest)
  {
    hide Base64.Decode;
    assert ([a] + cs)[1..] == cs;
  }

  lemma RunFirst(x: seq<byte>, run: seq<Poll>)
    requires run != []
    ensures var longer := (if x == [] then [] else [Yield(Data(x))]) + run;
            WebText.Last(longer) == WebText.Last(run) && DataBytes(longer) == x + DataBytes(run)
  {
    hide DataBytes;
    if x == [] {
      assert [] + run == run;
    } else {
      DataBytesFirst(x, run);
    }
  }

  lemma CarriesMore(x: seq<byte>, cs: seq<seq<byte>>, rest: seq<byte>)
    requires Carries(cs, rest)
    ensures Carries([Base64.Encode(x, true)] + cs, x + rest)
  {
    hide Base64.Encode, Base64.Decode, TextRun, Text, DataBytes, DecodeEach, WebText.Last;
    Base64.RoundTrip(x, true);
    DecodeEachFirst(Base64.Encode(x, true), x, cs, rest);
    PieceRuns(x, cs);
    RunFirst(x, TextRun(Text(cs, [])));
  }

  /**
    With base64 every frame goes out as a padded text of its own.  Decoded frame
    by frame, or by the streaming decoder over just these frames, they give the
    data as it was and then the trailers as one frame.
   */
  lemma {:induction false} EncodedTextBody(ds: seq<seq<byte>>, m: HeaderMap, outs: seq<Poll>)
    requires IsEncodeRun(Response(ds, m), Base64Text, outs)
    ensures exists f :: EncodesTo(Trailers(m), Binary, f) && Carries(FrameBytes(outs), Flatten(ds) + f)
  {
    var inner := Response(ds, m);
    hide Base64.Encode, Base64.Decode, TextRun, Text, Carries, MakeTrailersFrame, EncodeTrailers;
    if ds == [] {
      assert inner[0] == Whole(Trailers(m)) && inner[1..] == [];
      var items :| && IsIteration(items, m) && |EncodeTrailers(items)| < 0x1_0000_0000
                   && outs[0].frame.bytes == Base64.Encode(MakeTrailersFrame(items), true);
      var f := MakeTrailersFrame(items);
      assert EncodesTo(Trailers(m), Binary, f);
      assert outs[1..] == [End];
      assert FrameBytes(outs) == [Base64.Encode(f, true)] + [];
      CarriesNothing();
      CarriesMore(f, [], []);
      assert f + [] == Flatten(ds) + f;
    } else {
      assert inner[0] == Whole(Data(ds[0]));
      assert inner[1..] == Response(ds[1..], m);
      EncodedTextBody(ds[1..], m, outs[1..]);
      var f :| EncodesTo(Trailers(m), Binary, f) && Carries(FrameBytes(outs[1..]), Flatten(ds[1..]) + f);
      assert outs[0] == Yield(Data(Base64.Encode(ds[0], true)));
      CarriesMore(ds[0], FrameBytes(outs[1..]), Flatten(ds[1..]) + f);
      Regroup(ds[0], Flatten(ds[1..]), f);
    }
  }
}
