/** Where the cutting of a body into chunks shows, and where it does not. */
module WebChunking {
  import opened Bytes
  import opened Headers
  import opened WebFrame
  import opened TrailerBlock
  import opened WebCall
  import opened WebDecode

  // ----- Bodies with a trailers frame -----

  /** `outs` is whole-message data frames that join to `msgs`, then the trailers `t`, then the end. */
  ghost predicate DeliversAll(outs: seq<Poll>, msgs: seq<byte>, t: HeaderMap) {
    Delivers(outs, msgs, |msgs|, [Yield(Trailers(t)), End])
  }

  lemma DeliversPrefix(outs: seq<Poll>, x: seq<byte>, rest: seq<byte>, n: nat, ending: seq<Poll>)
    requires Delivers(outs, x + rest, n, ending) && n <= |x|
    ensures Delivers(outs, x, n, ending)
  {
    assert (x + rest)[..n] == x[..n];
    hide AllMessages, DataBytes;
  }

  /** Messages, a trailers frame that parses and anything behind it are found as such. */
  lemma FollowedTrailers(x: seq<byte>, f: seq<byte>, t: HeaderMap, y: seq<byte>)
    requires IsMessages(x) && IsTrailersFrame(f) && DecodeFrame(f) == Ok(Some(t))
    ensures HoldsTrailers(x + f + y, |x|, t, y)
  {
    var d := x + f + y;
    MessagesThen(x, f + y);
    Regroup(x, f, y);
    FrameHeadOfConcat(f, y);
    assert d[|x|..] == f + y;
    assert (f + y)[..|f|] == f && (f + y)[|f|..] == y;
    hide DecodeFrame, IsMessages;
  }

  lemma TrailersAreFound(x: seq<byte>, f: seq<byte>, t: HeaderMap)
    requires IsMessages(x) && IsTrailersFrame(f) && DecodeFrame(f) == Ok(Some(t))
    ensures HoldsTrailers(x + f, |x|, t, [])
  {
    hide *;
    FollowedTrailers(x, f, t, []);
    assert x + f + [] == x + f;
  }

  lemma ClassifyFramed(x: seq<byte>, f: seq<byte>, t: HeaderMap, y: seq<byte>)
    requires IsMessages(x) && IsTrailersFrame(f) && DecodeFrame(f) == Ok(Some(t))
    ensures Classify(x + f + y) == TrailersAnd(t, |y|) && MessagesLen(x + f + y) == |x|
  {
    TrailersAreFound(x, f, t);
    assert (x + f)[|x|..] == f && f[..|f|] == f;
    hide Classify, DecodeFrame, IsMessages, FindSpec, MessagesLen;
    ClassifyWithTrailers(x + f, |x|, y);
  }

  /** Whole messages, one trailers frame that parses, and fewer than five bytes, cut into chunks anywhere. */
  lemma BodyDelivered(x: seq<byte>, f: seq<byte>, t: HeaderMap, y: seq<byte>, cs: seq<seq<byte>>)
    requires IsMessages(x) && IsTrailersFrame(f) && DecodeFrame(f) == Ok(Some(t)) && |y| < HEADER_SIZE
    requires Flatten(cs) == x + f + y
    ensures DeliversAll(Run(Start(Chunks(cs))), x, t)
  {
    hide IsMessages, IsTrailersFrame, DecodeFrame, Classify, Run, Flatten, Delivers, MessagesLen;
    ClassifyFramed(x, f, t, y);
    ClientDecodesAnyChunking(cs);
    Regroup(x, f, y);
    DeliversPrefix(Run(Start(Chunks(cs))), x, f + y, |x|, [Yield(Trailers(t)), End]);
  }

  lemma ReadyIsNoEnd(s: CallState)
    ensures Examine(s, false).Ready? ==> Examine(s, false).step.out != End
  {
  }

  lemma FiveBytesLeft(y: seq<byte>)
    requires |y| >= HEADER_SIZE && Examine(Start([]).(decoded := y), false).Again?
    ensures PollClient(Start([]).(decoded := y)).out != End
  {
    var s := Start([]).(decoded := y);
    assert y[0..] == y;
    hide FrameTotalLen, DecodeFrame;
    assert FindSpec(y).IncompleteBuf? || FindSpec(y) == Trailer(0);
  }

  /** Five bytes or more never come to a plain end. */
  lemma FiveBytesShow(y: seq<byte>)
    requires |y| >= HEADER_SIZE
    ensures Run(Start(Chunks([y]))) != [] && Run(Start(Chunks([y])))[0] != End
  {
    var s, s1 := Start(Chunks([y])), Start([]).(decoded := y);
    ReadyIsNoEnd(s1);
    assert s.inner == [Whole(Data(y))] && s.inner[1..] == [] && [] + y == y;
    if Examine(s1, false).Again? {
      FiveBytesLeft(y);
    }
    ExamineProgress(s1, false);
    hide Examine;
  }

  lemma SecondTrailersShow(pre: seq<Poll>, t: HeaderMap, after: seq<Poll>, x: seq<byte>)
    requires after != [] && after[0] != End
    ensures !DeliversAll(pre + ([Yield(Trailers(t))] + after), x, t)
  {
    var outs := pre + ([Yield(Trailers(t))] + after);
    assert outs[|pre|] == Yield(Trailers(t)) && outs[|pre| + 1] == after[0];
    var n := |outs| - 2;
    assert n >= 0 ==> outs[n..][1] == outs[n + 1];
    assert |pre| < n ==> outs[..n][|pre|] == outs[|pre|];
    hide DataBytes;
  }

  lemma LateBytesShow(x: seq<byte>, f: seq<byte>, t: HeaderMap, y: seq<byte>)
    requires IsMessages(x) && IsTrailersFrame(f) && DecodeFrame(f) == Ok(Some(t)) && |y| >= HEADER_SIZE
    ensures Flatten([x + f, y]) == x + f + y && !DeliversAll(Run(Start(Chunks([x + f, y]))), x, t)
  {
    TwoChunks(x + f, y);
    hide *;
    TrailersAreFound(x, f, t);
    assert [] + (x + f) == x + f;
    RunTrailersAtEnd(x + f, [y], [], [], |x|, t);
    assert [x + f] + [y] == [x + f, y];
    HeldFromStart([x + f, y]);
    HeldFromStart([y]);
    FiveBytesShow(y);
    var pre := if |x| == 0 then [] else [Yield(Data((x + f)[..|x|]))];
    SecondTrailersShow(pre, t, Run(Start(Chunks([y]))), x);
  }

  lemma TwoChunks(a: seq<byte>, b: seq<byte>)
    ensures Flatten([a, b]) == a + b
  {
    assert Flatten([b]) == b;
    assert [a, b][1..] == [b];
  }

  /**
    Messages, then the trailers once, then the end, whatever the chunking:
    exactly when fewer than five bytes follow the trailers frame.
   */
  lemma TrailersDeliveredExactly(x: seq<byte>, f: seq<byte>, t: HeaderMap, y: seq<byte>)
    requires IsMessages(x) && IsTrailersFrame(f) && DecodeFrame(f) == Ok(Some(t))
    ensures (forall cs :: Flatten(cs) == x + f + y ==> DeliversAll(Run(Start(Chunks(cs))), x, t)) <==> |y| < HEADER_SIZE
  {
    hide *;
    if |y| < HEADER_SIZE {
      forall cs | Flatten(cs) == x + f + y ensures DeliversAll(Run(Start(Chunks(cs))), x, t) {
        BodyDelivered(x, f, t, y, cs);
      }
    } else {
      LateBytesShow(x, f, t, y);
    }
  }

  // ----- Messages after the trailers frame -----

  lemma MessagesAreFound(y: seq<byte>)
    requires IsMessages(y)
    ensures FindSpec(y) == Done(|y|)
  {
    MessagesThen(y, []);
    assert y + [] == y;
  }

  lemma RunDrained(y: seq<byte>, t: HeaderMap)
    requires y != [] && FindSpec(y) == Done(|y|)
    ensures Run(CallState([], [], y, Some(t))) == [Yield(Data(y)), Yield(Trailers(t)), End]
  {
    hide FindSpec;
    var s1, s2 := CallState([], [], y, Some(t)), CallState([], [], [], Some(t));
    assert y[..|y|] == y && y[|y|..] == [];
    assert PollClient(s2) == Step(Yield(Trailers(t)), Start([]), []);
    assert PollClient(s1).out == Yield(Data(y)) && PollClient(s1).next == s2;
    RunEmpty();
    hide PollClient;
    assert Run(s2) == [Yield(Trailers(t))] + Run(Start([]));
    assert Run(s1) == [Yield(Data(y))] + Run(s2);
  }

  lemma RunFollowed(d: seq<byte>, x: seq<byte>, t: HeaderMap, y: seq<byte>)
    requires x != [] && HoldsTrailers(d, |x|, t, y) && |x| <= |d| && d[..|x|] == x
    requires y != [] && FindSpec(y) == Done(|y|)
    ensures Run(Start(Chunks([d]))) == [Yield(Data(x)), Yield(Data(y)), Yield(Trailers(t)), End]
  {
    NoChunks();
    WaitingAlone(y, t);
    hide *;
    assert [] + d == d && [d] + [] == [d];
    TrailersReady(d, [], [], [], |x|, t, y);
    HeldFromStart([d]);
    RunDrained(y, t);
  }

  lemma WaitingAlone(y: seq<byte>, t: HeaderMap)
    ensures Waiting([], [], y, t) == CallState([], [], y, Some(t))
  {
  }

  lemma RunWhole(x: seq<byte>, f: seq<byte>, t: HeaderMap, y: seq<byte>)
    requires x != [] && HoldsTrailers(x + f + y, |x|, t, y)
    requires y != [] && FindSpec(y) == Done(|y|)
    ensures Run(Start(Chunks([x + f + y]))) == [Yield(Data(x)), Yield(Data(y)), Yield(Trailers(t)), End]
  {
    hide *;
    assert (x + f + y)[..|x|] == x;
    RunFollowed(x + f + y, x, t, y);
  }

  lemma RunOneChunk(y: seq<byte>)
    requires y != [] && FindSpec(y) == Done(|y|)
    ensures Run(Start(Chunks([y]))) == [Yield(Data(y)), End]
  {
    NoChunks();
    hide *;
    assert [] + y == y && [y] + [] == [y] && y[..|y|] == y && y[|y|..] == [];
    RunMessages(y, [], [], [], |y|);
    HeldFromStart([y]);
    HeldFromStart([]);
    RunEmpty();
  }

  lemma NoChunks()
    ensures Chunks([]) == []
  {
  }

  lemma RunSplit(x: seq<byte>, f: seq<byte>, t: HeaderMap, y: seq<byte>)
    requires x != [] && HoldsTrailers(x + f, |x|, t, [])
    requires y != [] && FindSpec(y) == Done(|y|)
    ensures Run(Start(Chunks([x + f, y]))) == [Yield(Data(x)), Yield(Trailers(t)), Yield(Data(y)), End]
  {
    var d := x + f;
    hide *;
    assert [] + d == d && d[..|x|] == x && [d] + [y] == [d, y];
    RunTrailersAtEnd(d, [y], [], [], |x|, t);
    HeldFromStart([d, y]);
    HeldFromStart([y]);
    RunOneChunk(y);
  }

  /**
    Messages that follow the trailers frame overtake the trailers when all of it
    comes in one chunk, and stay behind them when they come in a chunk of their own.
   */
  lemma MessagesAfterTrailers(x: seq<byte>, f: seq<byte>, t: HeaderMap, y: seq<byte>)
    requires x != [] && IsMessages(x) && IsTrailersFrame(f) && DecodeFrame(f) == Ok(Some(t))
    requires y != [] && IsMessages(y)
    ensures Run(Start(Chunks([x + f + y]))) == [Yield(Data(x)), Yield(Data(y)), Yield(Trailers(t)), End]
    ensures Run(Start(Chunks([x + f, y]))) == [Yield(Data(x)), Yield(Trailers(t)), Yield(Data(y)), End]
  {
    hide *;
    MessagesAreFound(y);
    TrailersAreFound(x, f, t);
    FollowedTrailers(x, f, t, y);
    RunWhole(x, f, t, y);
    RunSplit(x, f, t, y);
  }

  // ----- Messages in front of a broken end -----

  lemma {:induction false} DataBytesConcat(a: seq<Poll>, b: seq<Poll>)
    ensures DataBytes(a + b) == DataBytes(a) + DataBytes(b)
  {
    if a == [] {
      assert a + b == b;
    } else {
      TailOfConcat(a, b);
      DataBytesConcat(a[1..], b);
    }
  }

  lemma NoDataInFinal(k: Body)
    requires !k.Beyond?
    ensures DataBytes(Final(k)) == []
  {
    var last := Final(k)[|Final(k)| - 1];
    assert DataBytes([last]) == [] by {
      assert [last][1..] == [];
    }
    if k.WithTrailers? || k.WithLeftover? {
      assert Final(k)[1..] == [last];
    } else {
      assert Final(k) == [last];
    }
  }

  /** The data of a run over these chunks, in one piece. */
  lemma DataOfRun(cs: seq<seq<byte>>)
    requires !Classify(Flatten(cs)).Beyond?
    ensures var b, shown := Flatten(cs), MessagesLen(Flatten(cs[..LastSettled(cs)]));
            && shown <= MessagesLen(b) && (Settled(b) ==> shown == MessagesLen(b))
            && DataBytes(Run(Start(Chunks(cs)))) == b[..shown]
  {
    hide Classify, Settled, Run, MessagesLen, Flatten, DataBytes, AllMessages;
    ClientDecodesAnyChunking(cs);
    var outs, ending := Run(Start(Chunks(cs))), Final(Classify(Flatten(cs)));
    var n := |outs| - |ending|;
    assert outs == outs[..n] + outs[n..];
    DataBytesConcat(outs[..n], ending);
    NoDataInFinal(Classify(Flatten(cs)));
  }

  lemma OneChunkShows(b: seq<byte>)
    requires !Settled(b)
    ensures Flatten([b]) == b && MessagesLen(Flatten([b][..LastSettled([b])])) == 0
  {
    assert Flatten([b]) == b;
    EmptyIsSettled();
    hide Settled, MessagesLen, Flatten;
    assert [b][..0] == [];
  }

  /**
    Every chunking delivers all the messages of a body exactly when the body is
    settled (nothing is wrong with it but a cut trailers frame) or has none.
   */
  lemma MessagesDeliveredExactly(b: seq<byte>)
    requires !Classify(b).Beyond?
    ensures (forall cs :: Flatten(cs) == b ==> DataBytes(Run(Start(Chunks(cs)))) == b[..MessagesLen(b)]) <==>
            Settled(b) || MessagesLen(b) == 0
  {
    hide *;
    if Settled(b) || MessagesLen(b) == 0 {
      forall cs | Flatten(cs) == b ensures DataBytes(Run(Start(Chunks(cs)))) == b[..MessagesLen(b)] {
        DataOfRun(cs);
      }
    } else {
      OneChunkShows(b);
      DataOfRun([b]);
      assert |b[..0]| != |b[..MessagesLen(b)]|;
    }
  }

  lemma CutMessageIsQuiet(c: seq<byte>)
    requires |c| >= HEADER_SIZE && IsMessageFlag(c[0]) && |c| < FrameTotalLen(c).value
    ensures FindSpec(c) == IncompleteBuf && Quiet(c) && MessagesLen(c) == 0 && Classify(c) == CutMessage
  {
    assert c[0..] == c;
  }

  lemma NoFrames(outs: seq<Poll>)
    requires AllMessages(outs)
    ensures DataBytes(outs) == [] ==> outs == []
  {
    if outs != [] {
      assert YieldsMessages(outs[0]);
    }
  }

  lemma OnlyEnding(outs: seq<Poll>, b: seq<byte>, last: Poll)
    requires Delivers(outs, b, 0, [last])
    ensures outs == [last]
  {
    hide DataBytes, AllMessages;
    var n := |outs| - 1;
    NoFrames(outs[..n]);
    assert outs == outs[..n] + outs[n..];
  }

  lemma RunCutWhole(x: seq<byte>, c: seq<byte>)
    requires IsMessages(x) && Classify(c) == CutMessage
    ensures Run(Start(Chunks([x + c]))) == [Fail(IncompleteMessage)]
  {
    hide Classify, IsMessages, MessagesLen, Run, Delivers, Flatten, LastSettled, Chunks;
    ClassifyAfterMessages(x, c);
    OneChunkShows(x + c);
    ClientDecodesAnyChunking([x + c]);
    OnlyEnding(Run(Start(Chunks([x + c]))), x + c, Fail(IncompleteMessage));
  }

  lemma RunCutSplit(x: seq<byte>, c: seq<byte>)
    requires x != [] && FindSpec(x) == Done(|x|) && Quiet(c) && FindSpec(c) == IncompleteBuf
    ensures Run(Start(Chunks([x, c]))) == [Yield(Data(x)), Fail(IncompleteMessage)]
  {
    assert Held([], [], c) == Start([]).(decoded := c);
    hide *;
    assert [] + x == x && [] + c == c && x[..|x|] == x && x[|x|..] == [] && [x] + [c] == [x, c] && [c] + [] == [c];
    RunMessages(x, [c], [], [], |x|);
    TakeChunkQuiet(c, [], [], []);
    HeldFromStart([x, c]);
    CutMessageLeft(c);
  }

  /** Messages in front of a cut message are lost when they come in one chunk with it. */
  lemma CutMessageDependsOnChunking(x: seq<byte>, c: seq<byte>)
    requires x != [] && IsMessages(x)
    requires |c| >= HEADER_SIZE && IsMessageFlag(c[0]) && |c| < FrameTotalLen(c).value
    ensures Run(Start(Chunks([x + c]))) == [Fail(IncompleteMessage)]
    ensures Run(Start(Chunks([x, c]))) == [Yield(Data(x)), Fail(IncompleteMessage)]
  {
    hide *;
    CutMessageIsQuiet(c);
    MessagesAreFound(x);
    RunCutWhole(x, c);
    RunCutSplit(x, c);
  }

  // ----- HTTP trailers after the body -----

  lemma HttpTrailersLeft(d: seq<byte>, t: HeaderMap)
    requires FindSpec(d) == Done(0)
    ensures Run(Start([Whole(Trailers(t))]).(decoded := d)) == [Yield(Trailers(t)), End]
  {
    hide FindSpec;
    var s, s1 := Start([Whole(Trailers(t))]).(decoded := d), CallState([], [], d, Some(t));
    assert s.inner[1..] == [];
    assert PollClient(s) == PollLoop(s1);
    NothingLeft(d);
  }

  lemma HttpTrailersTooLate(d: seq<byte>, t: HeaderMap)
    requires Classify(d).CutMessage? || (Classify(d).CutTrailers? && MessagesLen(d) == 0)
    ensures Run(Start([Whole(Trailers(t))]).(decoded := d)) == Final(Classify(d))
  {
    var s, s1 := Start([Whole(Trailers(t))]).(decoded := d), CallState([], [], d, Some(t));
    assert s.inner[1..] == [] && d[0..] == d;
    assert Classify(d).CutMessage? ==> FindSpec(d) == IncompleteBuf;
    assert Classify(d).CutTrailers? ==> FindSpec(d) == Trailer(0) && |d| < FrameTotalLen(d).value;
    hide Classify, FindSpec, FrameTotalLen;
    assert PollClient(s) == PollLoop(s1);
  }

  lemma HttpTrailersEnding(b: seq<byte>, n: nat, t: HeaderMap)
    requires n <= MessagesLen(b) && IsMessages(b[..n]) && (Settled(b) ==> n == MessagesLen(b))
    requires Classify(b).Clean? || Classify(b).CutMessage? || Classify(b).CutTrailers?
    ensures Ending(b, n, [Whole(Trailers(t))]) ==
            if Classify(b).Clean? then [Yield(Trailers(t)), End] else Final(Classify(b))
  {
    assert b == b[..n] + b[n..];
    ClassifyAfterMessages(b[..n], b[n..]);
    if Classify(b).Clean? {
      FewBytes(b[n..]);
      HttpTrailersLeft(b[n..], t);
    } else {
      hide Classify, Run, MessagesLen, IsMessages;
      HttpTrailersTooLate(b[n..], t);
    }
  }

  /**
    A body without a trailers frame, in any chunking, and then HTTP trailers: a
    clean body delivers all its messages, the HTTP trailers and the end; a body
    that is cut ends in data loss all the same.
   */
  lemma HttpTrailersFollow(cs: seq<seq<byte>>, t: HeaderMap)
    requires var k := Classify(Flatten(cs)); k.Clean? || k.CutMessage? || k.CutTrailers?
    ensures var b, shown := Flatten(cs), MessagesLen(Flatten(cs[..LastSettled(cs)]));
            && Delivers(Run(Start(Chunks(cs) + [Whole(Trailers(t))])), b, shown,
                        if Classify(b).Clean? then [Yield(Trailers(t)), End] else Final(Classify(b)))
            && shown <= MessagesLen(b) && (Settled(b) ==> shown == MessagesLen(b))
  {
    var b, more := Flatten(cs), [Whole(Trailers(t))];
    assert [] + b == b;
    assert Held(cs, more, []) == Start(Chunks(cs) + more);
    FewBytes([]);
    hide Classify, Quiet, Flatten, Delivers, Run, MessagesLen, Shown, Settled, Held;
    ShownFromStart(cs);
    ShownIsMessages(cs);
    HttpTrailersEnding(b, Shown([], cs), t);
    AnyChunking(cs, more, []);
  }
}
