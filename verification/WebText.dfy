/** Streaming base64 decoding of a gRPC-Web text body. */
module WebText {
  import opened Bytes
  import opened WebCall
  import opened WebDecode
  import Base64
  import Codes

  /** `s` is polled until the end or the first error. */
  function TextRun(s: CallState): (outs: seq<Poll>)
    ensures outs != []
    decreases |s.inner|, |s.buf|, s.trailers.Some?
  {
    TextProgress(s);
    var step := PollText(s);
    if step.out.Yield? then [step.out] + TextRun(step.next) else [step.out]
  }

  lemma {:induction false} TextProgress(s: CallState)
    ensures var step := PollText(s);
            && |step.next.inner| <= |s.inner|
            && (step.out.Yield? ==>
                  || |step.next.inner| < |s.inner|
                  || |step.next.buf| < |s.buf|
                  || (|step.next.buf| == |s.buf| && s.trailers.Some? && step.next.trailers.None?))
    decreases |s.inner|
  {
    if MaxDecodable(s.buf) == 0 && s.inner != [] {
      match s.inner[0]
      case Broken(_) =>
      case Whole(Trailers(_)) =>
      case Whole(Data(d)) => TextProgress(s.(inner := s.inner[1..], buf := s.buf + d));
    }
  }

  function Text(cs: seq<seq<byte>>, buf: seq<byte>): (s: CallState) { CallState(Chunks(cs), buf, [], None) }

  function Last(outs: seq<Poll>): (p: Poll)
    requires outs != []
  {
    outs[|outs| - 1]
  }

  // ----- Texts, group by group -----

  /** `t` is groups of four characters, each of which decodes on its own. */
  predicate Groups(t: seq<byte>) {
    t == [] || (|t| >= 4 && Base64.Decode(t[..4]).Some? && Groups(t[4..]))
  }

  /** What the groups of `t` decode to, up to the first that does not. */
  function GroupBytes(t: seq<byte>): (x: seq<byte>) {
    if |t| >= 4 && Base64.Decode(t[..4]).Some? then Base64.Decode(t[..4]).value + GroupBytes(t[4..]) else []
  }

  lemma {:induction false} GroupsLength(a: seq<byte>)
    requires Groups(a)
    ensures |a| % 4 == 0
  {
    hide Base64.Decode;
    if a != [] {
      GroupsLength(a[4..]);
    }
  }

  lemma {:induction false} GroupsThen(a: seq<byte>, t: seq<byte>)
    requires Groups(a)
    ensures Groups(a + t) <==> Groups(t)
    ensures GroupBytes(a + t) == GroupBytes(a) + GroupBytes(t)
    decreases |a|
  {
    hide Base64.Decode;
    if a == [] {
      assert a + t == t;
    } else {
      GroupsThen(a[4..], t);
      assert (a + t)[..4] == a[..4] && (a + t)[4..] == a[4..] + t;
      Regroup(Base64.Decode(a[..4]).value, GroupBytes(a[4..]), GroupBytes(t));
    }
  }

  lemma EmptyText()
    ensures Base64.Decode([]) == Some([])
  {
  }

  /** A text that decodes is groups that decode, and to the same bytes. */
  lemma {:induction false} DecodedGroups(a: seq<byte>)
    requires |a| % 4 == 0 && Base64.Decode(a).Some?
    ensures Groups(a) && GroupBytes(a) == Base64.Decode(a).value
    decreases |a|
  {
    hide Base64.Decode;
    if a == [] {
      EmptyText();
    } else {
      assert a[..4] + a[4..] == a;
      Base64.DecodeSplit(a[..4], a[4..]);
      DecodedGroups(a[4..]);
    }
  }

  /** Padding occurs in the last four characters only. */
  predicate IsOneText(t: seq<byte>) { forall i :: 0 <= i < |t| - 4 ==> t[i] != Base64.PAD }

  /** Then groups that decode make a text that decodes. */
  lemma {:induction false} OneTextDecodes(t: seq<byte>)
    requires IsOneText(t) && Groups(t)
    ensures Base64.Decode(t).Some?
    decreases |t|
  {
    if t != [] {
      var q, rest := t[..4], t[4..];
      assert t == q + rest;
      assert IsOneText(rest) by {
        forall i | 0 <= i < |rest| - 4 ensures rest[i] != Base64.PAD {
          assert t[i + 4] == rest[i];
        }
      }
      hide Base64.Decode;
      OneTextDecodes(rest);
      if rest == [] {
        assert t == q;
      } else {
        assert |rest| >= 4;
        Base64.DecodeJoin(q, rest);
      }
    }
  }

  // ----- Runs -----

  /** What a run over the text `t` may look like. */
  ghost predicate TextDelivers(outs: seq<Poll>, t: seq<byte>) {
    && outs != []
    && (forall i :: 0 <= i < |outs| - 1 ==> outs[i].Yield? && outs[i].frame.Data?)
    && (Last(outs) == End || (Last(outs).Fail? && Last(outs).error.Code() == Codes.Internal))
    && DataBytes(outs) <= GroupBytes(t)
    && (Last(outs) == End ==> Groups(t) && DataBytes(outs) == GroupBytes(t))
    && (|t| % 4 == 0 && Base64.Decode(t).Some? ==> Last(outs) == End)
  }

  lemma ChunkToBuffer(c: seq<byte>, cs: seq<seq<byte>>, buf: seq<byte>)
    requires |buf| < 4
    ensures TextRun(Text([c] + cs, buf)) == TextRun(Text(cs, buf + c))
    ensures buf + Flatten([c] + cs) == (buf + c) + Flatten(cs)
  {
    hide Base64.Decode;
    assert ([c] + cs)[1..] == cs;
    var s := Text([c] + cs, buf);
    assert s.inner[0] == Whole(Data(c)) && s.inner[1..] == Chunks(cs);
    assert MaxDecodable(buf) == 0;
    assert PollText(s) == PollText(Text(cs, buf + c));
  }

  lemma DecodedPiece(a: seq<byte>, x: seq<byte>, outs: seq<Poll>, t: seq<byte>)
    requires a != [] && |a| % 4 == 0 && Base64.Decode(a) == Some(x) && TextDelivers(outs, t)
    ensures TextDelivers([Yield(Data(x))] + outs, a + t)
  {
    hide Base64.Decode, Groups, GroupBytes;
    var more := [Yield(Data(x))] + outs;
    assert Last(more) == Last(outs);
    assert more[1..] == outs;
    assert DataBytes(more) == x + DataBytes(outs);
    DecodedGroups(a);
    GroupsThen(a, t);
    if Base64.Decode(a + t).Some? {
      Base64.DecodeSplit(a, t);
    }
  }

  lemma BadPiece(a: seq<byte>, t: seq<byte>)
    requires |a| % 4 == 0 && Base64.Decode(a).None?
    ensures TextDelivers([Fail(UndecodableBase64)], a + t)
  {
    hide Base64.Decode, Groups, GroupBytes;
    if Base64.Decode(a + t).Some? {
      Base64.DecodeSplit(a, t);
    }
  }

  /** Any cutting of the text into chunks: whole groups are decoded as they come. */
  lemma {:induction false} TextAnyChunking(cs: seq<seq<byte>>, buf: seq<byte>)
    ensures TextDelivers(TextRun(Text(cs, buf)), buf + Flatten(cs))
    decreases |cs|, |buf|
  {
    var n := MaxDecodable(buf);
    if n > 0 {
      WholeGroups(cs, buf, n);
    } else if cs == [] {
      assert buf + Flatten(cs) == buf;
      TextEnd(buf);
    } else {
      assert cs == [cs[0]] + cs[1..];
      hide TextDelivers;
      ChunkToBuffer(cs[0], cs[1..], buf);
      TextAnyChunking(cs[1..], buf + cs[0]);
    }
  }

  lemma TextEnd(buf: seq<byte>)
    requires |buf| < 4
    ensures TextDelivers(TextRun(Text([], buf)), buf)
  {
    assert MaxDecodable(buf) == 0;
    if buf == [] {
      assert TextRun(Text([], buf)) == [End];
    } else {
      assert TextRun(Text([], buf)) == [Fail(MalformedBase64)];
    }
  }

  lemma {:induction false} WholeGroups(cs: seq<seq<byte>>, buf: seq<byte>, n: nat)
    requires n == MaxDecodable(buf) > 0
    ensures TextDelivers(TextRun(Text(cs, buf)), buf + Flatten(cs))
    decreases |cs|, |buf|, 0
  {
    hide Base64.Decode, TextDelivers, Flatten;
    var a, t := buf[..n], buf[n..] + Flatten(cs);
    assert buf + Flatten(cs) == a + t;
    match Base64.Decode(a)
    case None => BadPiece(a, t);
    case Some(x) =>
      TextAnyChunking(cs, buf[n..]);
      DecodedPiece(a, x, TextRun(Text(cs, buf[n..])), t);
  }

  /**
    For every byte string and every cutting of its padded base64 text, the
    pieces that come out join to the byte string, and the stream ends cleanly.
   */
  lemma EncodedBodyDecodes(x: seq<byte>, cs: seq<seq<byte>>)
    requires Flatten(cs) == Base64.Encode(x, true)
    ensures var outs := TextRun(Text(cs, []));
            && outs != [] && Last(outs) == End && DataBytes(outs) == x
            && forall i :: 0 <= i < |outs| - 1 ==> outs[i].Yield? && outs[i].frame.Data?
  {
    Base64.RoundTrip(x, true);
    Base64.EncodedText(x, true);
    assert [] + Flatten(cs) == Flatten(cs);
    hide Base64.Decode, Groups, GroupBytes, Flatten;
    TextAnyChunking(cs, []);
    DecodedGroups(Flatten(cs));
  }

  /**
    A run of groups that fails as one text is the only thing that lets the
    chunking show; without it a stream ends cleanly exactly when its text is
    groups that decode.  One text, padded at most at its end, is such a case.
   */
  lemma OneTextEndsCleanly(cs: seq<seq<byte>>)
    ensures var outs, t := TextRun(Text(cs, [])), Flatten(cs);
            && ((Groups(t) && Base64.Decode(t).None?) || (Last(outs) == End <==> Groups(t)))
            && (IsOneText(t) ==> (Last(outs) == End <==> |t| % 4 == 0 && Base64.Decode(t).Some?))
            && (Last(outs) != End ==> Last(outs).Fail?)
  {
    var t := Flatten(cs);
    assert [] + t == t;
    hide Base64.Decode, Groups, GroupBytes, Flatten, IsOneText;
    TextAnyChunking(cs, []);
    if Groups(t) {
      GroupsLength(t);
      if IsOneText(t) {
        OneTextDecodes(t);
      }
    }
  }

  function Quads(t: seq<byte>): (cs: seq<seq<byte>>) {
    if |t| < 4 then [] else [t[..4]] + Quads(t[4..])
  }

  /** Cut into single groups, a text of groups that decode ends cleanly. */
  lemma {:induction false} QuadsEndCleanly(t: seq<byte>)
    requires Groups(t)
    ensures Flatten(Quads(t)) == t && Last(TextRun(Text(Quads(t), []))) == End
    decreases |t|
  {
    hide Base64.Decode;
    if t == [] {
      assert TextRun(Text([], [])) == [End];
    } else {
      QuadsEndCleanly(t[4..]);
      OnePiece(t[..4], Base64.Decode(t[..4]).value, Quads(t[4..]));
      assert t == t[..4] + t[4..];
    }
  }

  /** Some cutting of `t` ends cleanly exactly when its groups decode one by one. */
  lemma SomeChunkingEndsCleanly(t: seq<byte>)
    ensures (exists cs :: Flatten(cs) == t && Last(TextRun(Text(cs, []))) == End) <==> Groups(t)
  {
    hide Base64.Decode, Groups, GroupBytes, Flatten, TextRun;
    if Groups(t) {
      QuadsEndCleanly(t);
    }
    forall cs | Flatten(cs) == t && Last(TextRun(Text(cs, []))) == End ensures Groups(t) {
      assert [] + t == t;
      TextAnyChunking(cs, []);
    }
  }

  lemma CutNowhere(t: seq<byte>)
    ensures Flatten([t]) == t
    ensures Last(TextRun(Text([t], []))) == End ==> Groups(t)
    ensures t == [] ==> Base64.Decode(t) == Some([])
  {
    assert Flatten([t]) == t && [] + t == t;
    hide Base64.Decode, Groups, GroupBytes, TextRun, Flatten;
    TextAnyChunking([t], []);
  }

  lemma WholeFails(t: seq<byte>)
    requires |t| % 4 != 0 || Base64.Decode(t).None?
    ensures Last(TextRun(Text([t], []))) != End
  {
    if |t| % 4 == 0 {
      EmptyText();
      hide Base64.Decode, TextRun, Text;
      OneChunk(t);
      assert Last([Fail(UndecodableBase64)]) != End;
    } else {
      hide *;
      CutNowhere(t);
      if Groups(t) {
        GroupsLength(t);
      }
    }
  }

  /** Every cutting of `t` ends cleanly exactly when `t` decodes as one text of whole groups. */
  lemma EveryChunkingEndsCleanly(t: seq<byte>)
    ensures (forall cs :: Flatten(cs) == t ==> Last(TextRun(Text(cs, []))) == End) <==>
            |t| % 4 == 0 && Base64.Decode(t).Some?
  {
    hide Base64.Decode, Groups, GroupBytes, TextRun;
    if |t| % 4 == 0 && Base64.Decode(t).Some? {
      forall cs | Flatten(cs) == t ensures Last(TextRun(Text(cs, []))) == End {
        assert [] + t == t;
        TextAnyChunking(cs, []);
      }
    } else {
      assert Flatten([t]) == t;
      WholeFails(t);
    }
  }

  /** The chunking decides how the run ends exactly when the groups decode and the whole does not. */
  lemma ChunkingShowsExactly(t: seq<byte>)
    ensures (exists cs, ds :: && Flatten(cs) == t == Flatten(ds)
                              && Last(TextRun(Text(cs, []))) == End && Last(TextRun(Text(ds, []))) != End) <==>
            Groups(t) && Base64.Decode(t).None?
  {
    hide Base64.Decode, Groups, GroupBytes, TextRun, Flatten;
    SomeChunkingEndsCleanly(t);
    EveryChunkingEndsCleanly(t);
    if Groups(t) {
      GroupsLength(t);
    }
  }

  /**
    A body of two padded texts is not one text, and then the chunk boundaries
    decide: text by text it ends cleanly, in one chunk it fails.
   */
  lemma TwoTextsDependOnChunking()
    ensures var quad := Base64.Encode([65], true);
            && Last(TextRun(Text([quad, quad], []))) == End
            && Last(TextRun(Text([quad + quad], []))).Fail?
  {
    Base64.OneByteRoundTrip(65, true);
    var quad := Base64.Encode([65], true);
    assert |quad| == 4 && quad[2] == Base64.PAD && quad[3] == Base64.PAD;
    var both := quad + quad;
    assert [] + quad == quad && [] + both == both;
    TwoQuads(quad, [65]);
    assert Base64.Decode(both).None?;
    OneChunk(both);
  }

  lemma OneChunk(t: seq<byte>)
    requires t != [] && |t| % 4 == 0 && Base64.Decode(t).None?
    ensures TextRun(Text([t], [])) == [Fail(UndecodableBase64)]
  {
    assert [t] + [] == [t] && [] + t == t;
    ChunkToBuffer(t, [], []);
    assert MaxDecodable(t) == |t| && t[..|t|] == t;
  }

  lemma TwoQuads(quad: seq<byte>, x: seq<byte>)
    requires |quad| == 4 && Base64.Decode(quad) == Some(x)
    ensures TextRun(Text([quad, quad], [])) == [Yield(Data(x)), Yield(Data(x)), End]
  {
    OnePiece(quad, x, [quad]);
    OnePiece(quad, x, []);
    assert [quad] + [quad] == [quad, quad] && [quad] + [] == [quad];
    assert TextRun(Text([], [])) == [End];
  }

  /** A chunk that is a text of its own is decoded as soon as it is there. */
  lemma OnePiece(a: seq<byte>, x: seq<byte>, cs: seq<seq<byte>>)
    requires a != [] && |a| % 4 == 0 && Base64.Decode(a) == Some(x)
    ensures TextRun(Text([a] + cs, [])) == [Yield(Data(x))] + TextRun(Text(cs, []))
  {
    hide Base64.Decode;
    ChunkToBuffer(a, cs, []);
    assert [] + a == a;
    assert MaxDecodable(a) == |a| && a[..|a|] == a && a[|a|..] == [];
  }

  // ----- Anything but data ends the run -----

  function TextThen(cs: seq<seq<byte>>, more: seq<Item>, buf: seq<byte>): (s: CallState) {
    CallState(Chunks(cs) + more, buf, [], None)
  }

  /** The error with which a text body reports an inner error or HTTP trailers. */
  function Refusal(item: Item): (e: WebError)
    requires item.Broken? || item.frame.Trailers?
    ensures e.Code() == Codes.Internal
  {
    if item.Broken? then InnerError(item.message) else UnencodedTrailers
  }

  /** The run over the chunks alone, cut short or with the refusal in place of its last answer. */
  function WithRefusal(outs: seq<Poll>, item: Item): (r: seq<Poll>)
    requires outs != [] && (item.Broken? || item.frame.Trailers?)
  {
    if Last(outs) == Fail(UndecodableBase64) then outs else outs[..|outs| - 1] + [Fail(Refusal(item))]
  }

  lemma RefusalFirst(p: Poll, outs: seq<Poll>, item: Item)
    requires outs != [] && (item.Broken? || item.frame.Trailers?)
    ensures WithRefusal([p] + outs, item) == [p] + WithRefusal(outs, item)
  {
    assert Last([p] + outs) == Last(outs);
    assert ([p] + outs)[..|outs|] == [p] + outs[..|outs| - 1];
  }

  lemma ThenChunk(c: seq<byte>, cs: seq<seq<byte>>, more: seq<Item>, buf: seq<byte>)
    requires |buf| < 4
    ensures TextRun(TextThen([c] + cs, more, buf)) == TextRun(TextThen(cs, more, buf + c))
  {
    hide Base64.Decode;
    assert ([c] + cs)[1..] == cs;
    var s := TextThen([c] + cs, more, buf);
    assert s.inner[0] == Whole(Data(c)) && s.inner[1..] == Chunks(cs) + more;
    assert MaxDecodable(buf) == 0;
    assert PollText(s) == PollText(TextThen(cs, more, buf + c));
  }

  lemma ThenNothing(more: seq<Item>, item: Item, buf: seq<byte>)
    requires |buf| < 4 && (item.Broken? || item.frame.Trailers?)
    ensures TextRun(TextThen([], [item] + more, buf)) == [Fail(Refusal(item))]
    ensures |TextRun(Text([], buf))| == 1 && Last(TextRun(Text([], buf))) != Fail(UndecodableBase64)
  {
    hide Base64.Decode;
    assert MaxDecodable(buf) == 0;
    assert Chunks([]) + ([item] + more) == [item] + more;
  }

  /** Inner errors and HTTP trailers end a text body, whatever has been decoded before them. */
  lemma {:induction false} OnlyDataIsText(cs: seq<seq<byte>>, item: Item, more: seq<Item>, buf: seq<byte>)
    requires item.Broken? || item.frame.Trailers?
    ensures TextRun(TextThen(cs, [item] + more, buf)) == WithRefusal(TextRun(Text(cs, buf)), item)
    decreases |cs|, |buf|
  {
    var n, s, s1 := MaxDecodable(buf), TextThen(cs, [item] + more, buf), Text(cs, buf);
    hide Base64.Decode;
    if n > 0 {
      match Base64.Decode(buf[..n])
      case None =>
        assert TextRun(s1) == [Fail(UndecodableBase64)];
      case Some(x) =>
        var p := Yield(Data(x));
        assert PollText(s).out == p && PollText(s).next == TextThen(cs, [item] + more, buf[n..]);
        assert PollText(s1).out == p && PollText(s1).next == Text(cs, buf[n..]);
        hide PollText;
        OnlyDataIsText(cs, item, more, buf[n..]);
        RefusalFirst(p, TextRun(Text(cs, buf[n..])), item);
    } else if cs == [] {
      ThenNothing(more, item, buf);
    } else {
      assert cs == [cs[0]] + cs[1..];
      hide TextRun, TextThen, Text;
      ThenChunk(cs[0], cs[1..], [item] + more, buf);
      ChunkToBuffer(cs[0], cs[1..], buf);
      OnlyDataIsText(cs[1..], item, more, buf + cs[0]);
    }
  }
}
