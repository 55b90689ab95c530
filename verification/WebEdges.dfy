/** Errors of the inner body, error codes, late HTTP trailers, and bodies handed through. */
module WebEdges {
  import opened Bytes
  import opened Headers
  import opened WebFrame
  import opened TrailerBlock
  import opened WebCall
  import opened WebDecode
  import opened WebChunking
  import Codes

  // ----- Error codes -----

  /** A body that is cut is data loss; everything else that is wrong with a body is internal. */
  lemma BodyErrorCode(cs: seq<seq<byte>>)
    requires !Classify(Flatten(cs)).Beyond?
    ensures var outs, k := Run(Start(Chunks(cs))), Classify(Flatten(cs));
            && outs != []
            && var last := outs[|outs| - 1];
               && (last.Fail? <==> k.CutMessage? || k.CutTrailers? || k.Unflagged? || k.Unparsable?)
               && (last.Fail? ==>
                     last.error.Code() == if k.CutMessage? || k.CutTrailers? then Codes.DataLoss else Codes.Internal)
  {
    hide Classify, Run, Flatten, MessagesLen, LastSettled, DataBytes, AllMessages;
    ClientDecodesAnyChunking(cs);
    var outs, ending := Run(Start(Chunks(cs))), Final(Classify(Flatten(cs)));
    assert outs[|outs| - |ending|..][|ending| - 1] == outs[|outs| - 1];
  }

  // ----- Errors of the inner body -----

  lemma BrokenNext(d: seq<byte>, message: string, more: seq<Item>)
    ensures Run(Start([Broken(message)] + more).(decoded := d)) == [Fail(InnerError(message))]
    ensures InnerError(message).Code() == Codes.Internal
  {
  }

  /** An inner error ends the run with that error, after the messages that could be emitted before it. */
  lemma InnerErrorEnds(cs: seq<seq<byte>>, message: string, more: seq<Item>)
    requires var k := Classify(Flatten(cs)); k.Clean? || k.CutMessage? || k.CutTrailers?
    ensures var b, shown := Flatten(cs), MessagesLen(Flatten(cs[..LastSettled(cs)]));
            Delivers(Run(Start(Chunks(cs) + ([Broken(message)] + more))), b, shown, [Fail(InnerError(message))])
  {
    var b, rest := Flatten(cs), [Broken(message)] + more;
    assert [] + b == b;
    assert Held(cs, rest, []) == Start(Chunks(cs) + rest);
    FewBytes([]);
    hide Classify, Quiet, Flatten, Delivers, Run, MessagesLen, Shown, Held;
    ShownFromStart(cs);
    AnyChunking(cs, rest, []);
    BrokenNext(b[Shown([], cs)..], message, more);
  }

  // ----- HTTP trailers while trailers wait -----

  /** `m` has every name of `t` and `u`, with the values of `u` where it has any. */
  ghost predicate IsMerged(t: HeaderMap, u: HeaderMap, m: HeaderMap) {
    && (forall k :: k in m <==> k in t || k in u)
    && (forall k :: k in m ==> m[k] == if k in u then u[k] else t[k])
  }

  lemma MergedIsSum(t: HeaderMap, u: HeaderMap, m: HeaderMap)
    requires IsMerged(t, u, m)
    ensures m == t + u
  {
    assert m.Keys == (t + u).Keys;
  }

  lemma WaitingExtended(y: seq<byte>, t: HeaderMap, u: HeaderMap)
    requires FindSpec(y) == Done(0) && y != []
    ensures Run(Waiting([], [Whole(Trailers(u))], y, t)) == [Yield(Trailers(t + u)), End]
  {
    hide FindSpec;
    var s, s1 := Waiting([], [Whole(Trailers(u))], y, t), CallState([], [], y, Some(t + u));
    assert s.inner == [Whole(Trailers(u))] && s.inner[1..] == [];
    assert PollClient(s) == PollLoop(s1);
    NothingLeft(y);
  }

  /**
    A few bytes behind the trailers frame hold the trailers back; HTTP trailers
    that come then are merged into them, each name taking its HTTP values.
   */
  lemma LateHttpTrailers(x: seq<byte>, f: seq<byte>, t: HeaderMap, y: seq<byte>, u: HeaderMap, m: HeaderMap)
    requires x != [] && IsMessages(x) && IsTrailersFrame(f) && DecodeFrame(f) == Ok(Some(t)) && 0 < |y| < HEADER_SIZE
    requires IsMerged(t, u, m)
    ensures Run(Start(Chunks([x + f + y]) + [Whole(Trailers(u))])) == [Yield(Data(x)), Yield(Trailers(m)), End]
  {
    var d, more := x + f + y, [Whole(Trailers(u))];
    HeldThen(d, more);
    hide *;
    FollowedTrailers(x, f, t, y);
    assert [] + d == d && [d] + [] == [d] && d[..|x|] == x;
    TrailersReady(d, [], more, [], |x|, t, y);
    FewBytes(y);
    WaitingExtended(y, t, u);
    MergedIsSum(t, u, m);
  }

  lemma HeldThen(d: seq<byte>, more: seq<Item>)
    ensures Held([d], more, []) == Start(Chunks([d]) + more)
  {
  }

  // ----- Bodies handed through -----

  /** `s` is polled without looking into it, until the end or the first error. */
  function PlainRun(s: CallState): (outs: seq<Poll>)
    ensures outs != []
    decreases |s.inner|
  {
    var step := PollPlain(s);
    if step.out.Yield? then [step.out] + PlainRun(step.next) else [step.out]
  }

  /** Every frame comes out as it went in, up to the end or the first inner error. */
  lemma {:induction false} HandedThrough(frames: seq<Frame>, inner: seq<Item>, s: CallState)
    requires inner == [] || inner[0].Broken?
    requires |s.inner| == |frames| + |inner| && s.inner[|frames|..] == inner
    requires forall i :: 0 <= i < |frames| ==> s.inner[i] == Whole(frames[i])
    ensures var outs := PlainRun(s);
            && |outs| == |frames| + 1
            && (forall i :: 0 <= i < |frames| ==> outs[i] == Yield(frames[i]))
            && outs[|frames|] == if inner == [] then End else Fail(InnerError(inner[0].message))
    decreases |frames|
  {
    if frames == [] {
      assert s.inner == inner;
    } else {
      HandedThrough(frames[1..], inner, s.(inner := s.inner[1..]));
    }
  }
}
