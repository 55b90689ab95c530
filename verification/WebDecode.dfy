/** What whole runs of the gRPC-Web client decoder deliver, for every chunking of the body. */
module WebDecode {
  import opened Bytes
  import opened Headers
  import opened WebFrame
  import opened TrailerBlock
  import opened WebCall

  // ----- What a body means, read in one go -----

  datatype Body =
    | Clean                            // whole messages, then fewer than five bytes
    | WithTrailers(headers: HeaderMap)
    | WithLeftover(headers: HeaderMap) // the trailers frame, then fewer than five bytes
    | CutMessage
    | CutTrailers
    | Unflagged(flag: byte)
    | Unparsable(cause: TrailerError)
    | Beyond                           // five bytes or more after the trailers frame

  function Classify(b: seq<byte>): (k: Body) {
    var a := b[MessagesLen(b)..];
    if |a| < HEADER_SIZE then Clean
    else if a[0] == TRAILERS_BIT then ClassifyTrailers(a)
    else if !IsMessageFlag(a[0]) then Unflagged(a[0])
    else CutMessage
  }

  function ClassifyTrailers(a: seq<byte>): (k: Body)
    requires |a| >= HEADER_SIZE
  {
    var total := FrameTotalLen(a).value;
    if |a| < total then CutTrailers
    else
      match DecodeFrame(a[..total])
      case Err(e) => Unparsable(e)
      case Ok(None) => Beyond
      case Ok(Some(t)) => TrailersAnd(t, |a| - total)
  }

  function TrailersAnd(t: HeaderMap, left: nat): (k: Body) {
    if left == 0 then WithTrailers(t) else if left < HEADER_SIZE then WithLeftover(t) else Beyond
  }

  /** All whole messages of such a body can be emitted at once. */
  predicate Settled(b: seq<byte>) {
    var k := Classify(b);
    k.Clean? || k.WithTrailers? || k.WithLeftover? || k.CutTrailers?
  }

  /** How many of the chunks are there when the bytes are settled for the last time. */
  function LastSettled(cs: seq<seq<byte>>): (j: nat)
    ensures j <= |cs|
  {
    if cs == [] || Settled(Flatten(cs)) then |cs| else LastSettled(cs[..|cs| - 1])
  }

  lemma {:induction false} LastSettledMeaning(cs: seq<seq<byte>>)
    ensures Settled(Flatten(cs[..LastSettled(cs)]))
    ensures forall i :: LastSettled(cs) < i <= |cs| ==> !Settled(Flatten(cs[..i]))
  {
    hide Settled, Flatten;
    assert cs[..|cs|] == cs;
    if cs == [] {
      EmptyIsSettled();
    } else if !Settled(Flatten(cs)) {
      var front := cs[..|cs| - 1];
      LastSettledMeaning(front);
      assert front[..LastSettled(cs)] == cs[..LastSettled(cs)];
      forall i | LastSettled(cs) < i <= |cs| ensures !Settled(Flatten(cs[..i])) {
        assert i < |cs| ==> front[..i] == cs[..i];
      }
    }
  }

  lemma EmptyIsSettled()
    ensures Flatten([]) == [] && Settled([]) && MessagesLen([]) == 0
  {
  }

  function DataBytes(outs: seq<Poll>): (b: seq<byte>) {
    if outs == [] then []
    else (if outs[0].Yield? && outs[0].frame.Data? then outs[0].frame.bytes else []) + DataBytes(outs[1..])
  }

  predicate YieldsMessages(p: Poll) {
    p.Yield? && p.frame.Data? && p.frame.bytes != [] && IsMessages(p.frame.bytes)
  }

  predicate AllMessages(outs: seq<Poll>) { forall i :: 0 <= i < |outs| ==> YieldsMessages(outs[i]) }

  /**
    `outs` is a number of data frames, each of them whole messages, that join to
    the first `shown` bytes of `b`, and then `ending`.
   */
  ghost predicate Delivers(outs: seq<Poll>, b: seq<byte>, shown: nat, ending: seq<Poll>) {
    var n := |outs| - |ending|;
    && 0 <= n && outs[n..] == ending
    && AllMessages(outs[..n])
    && shown <= |b| && DataBytes(outs[..n]) == b[..shown]
  }

  // ----- Bodies in chunks -----

  function Chunks(cs: seq<seq<byte>>): (items: seq<Item>)
    ensures |items| == |cs|
  {
    if cs == [] then [] else [Whole(Data(cs[0]))] + Chunks(cs[1..])
  }

  function Start(inner: seq<Item>): (s: CallState) { CallState(inner, [], [], None) }

  lemma ClassifyAfterMessages(a: seq<byte>, b: seq<byte>)
    requires IsMessages(a)
    ensures Classify(a + b) == Classify(b)
    ensures MessagesLen(a + b) == |a| + MessagesLen(b)
    ensures (a + b)[..MessagesLen(a + b)] == a + b[..MessagesLen(b)]
  {
    hide IsMessages, MessagesLen, ClassifyTrailers;
    MessagesThen(a, b);
    CutOfConcat(a, b, MessagesLen(b));
  }

  /** Nothing can be emitted yet from the buffered bytes `d`. */
  predicate Quiet(d: seq<byte>) {
    match FindSpec(d)
    case InvalidFlag(_) => false
    case IncompleteBuf => true
    case Done(len) => len == 0
    case Trailer(len) => len == 0 && |d| < FrameTotalLen(d).value
  }

  lemma QuietExamine(s: CallState)
    requires s.trailers.None? && Quiet(s.decoded)
    ensures Examine(s, false) == Again(s)
  {
    if FindSpec(s.decoded).Trailer? {
      assert s.decoded[0..] == s.decoded;
    }
  }

  lemma QuietClass(d: seq<byte>)
    requires Quiet(d)
    ensures var k := Classify(d);
            && (k.Clean? || k.CutMessage? || k.CutTrailers?)
            && (Settled(d) ==> MessagesLen(d) == 0)
  {
    if FindSpec(d).Trailer? {
      assert d[0..] == d;
    }
  }

  lemma DeliversNothing(b: seq<byte>, ending: seq<Poll>)
    ensures Delivers(ending, b, 0, ending)
  {
    assert ending[..0] == [];
  }

  lemma DeliversMore(x: seq<byte>, outs: seq<Poll>, b: seq<byte>, shown: nat, ending: seq<Poll>)
    requires x != [] && IsMessages(x) && Delivers(outs, b, shown, ending)
    ensures Delivers([Yield(Data(x))] + outs, x + b, |x| + shown, ending)
  {
    var n := |outs| - |ending|;
    hide DataBytes, AllMessages, IsMessages;
    CutOfConcat([Yield(Data(x))], outs, n);
    AllMessagesFirst(x, outs[..n]);
    DataBytesFirst(x, outs[..n]);
    CutOfConcat(x, b, shown);
  }

  lemma AllMessagesFirst(x: seq<byte>, outs: seq<Poll>)
    requires x != [] && IsMessages(x) && AllMessages(outs)
    ensures AllMessages([Yield(Data(x))] + outs)
  {
  }

  lemma DataBytesFirst(x: seq<byte>, outs: seq<Poll>)
    ensures DataBytes([Yield(Data(x))] + outs) == x + DataBytes(outs)
  {
    assert ([Yield(Data(x))] + outs)[1..] == outs;
  }

  // ----- What the chunks let through -----

  /** The messages in front of the last settled point, with `d` buffered before the first chunk. */
  function Shown(d: seq<byte>, cs: seq<seq<byte>>): (n: nat) {
    if Settled(d + Flatten(cs)) then MessagesLen(d + Flatten(cs))
    else if cs == [] then 0
    else Shown(d, cs[..|cs| - 1])
  }

  lemma {:induction false} ShownFromStart(cs: seq<seq<byte>>)
    ensures Shown([], cs) == MessagesLen(Flatten(cs[..LastSettled(cs)]))
  {
    hide Settled, MessagesLen, Flatten;
    assert [] + Flatten(cs) == Flatten(cs) && cs[..|cs|] == cs;
    if cs == [] {
      EmptyIsSettled();
    } else if !Settled(Flatten(cs)) {
      var front := cs[..|cs| - 1];
      ShownFromStart(front);
      assert front[..LastSettled(cs)] == cs[..LastSettled(cs)];
    }
  }

  /** Nothing is emitted from a quiet buffer, so the first chunk may as well have been there. */
  lemma {:induction false} ShownTake(d: seq<byte>, c: seq<byte>, cs: seq<seq<byte>>)
    requires Quiet(d)
    ensures Shown(d, [c] + cs) == Shown(d + c, cs)
    decreases |cs|
  {
    QuietClass(d);
    var all := [c] + cs;
    FlattenFirst(c, cs);
    EmptyIsSettled();
    hide Settled, MessagesLen, Quiet, Flatten;
    Regroup(d, c, Flatten(cs));
    if !Settled(d + Flatten(all)) {
      if cs == [] {
        assert all[..0] == [] && d + [] == d;
        assert Shown(d, []) == 0;
      } else {
        assert all[..|cs|] == [c] + cs[..|cs| - 1];
        ShownTake(d, c, cs[..|cs| - 1]);
      }
    }
  }

  /** Messages in front of a settled buffer are all shown. */
  lemma {:induction false} ShownAfterMessages(x: seq<byte>, d: seq<byte>, cs: seq<seq<byte>>)
    requires IsMessages(x) && Settled(d)
    ensures Shown(x + d, cs) == |x| + Shown(d, cs)
    decreases |cs|
  {
    Regroup(x, d, Flatten(cs));
    ClassifyAfterMessages(x, d + Flatten(cs));
    hide Classify, MessagesLen, IsMessages;
    if cs == [] {
      assert d + Flatten(cs) == d;
    } else {
      ShownAfterMessages(x, d, cs[..|cs| - 1]);
    }
  }

  /** A buffer that ends the run in an error never settles. */
  predicate Stuck(d: seq<byte>) {
    || FindSpec(d).InvalidFlag?
    || (FindSpec(d).Trailer? && HasTrailers(d, FindSpec(d).len)
        && DecodeFrame(d[FindSpec(d).len..][..FrameTotalLen(d[FindSpec(d).len..]).value]).Err?)
  }

  lemma StuckStays(d: seq<byte>, rest: seq<byte>)
    requires Stuck(d)
    ensures !Settled(d + rest)
  {
    hide Classify, FrameTotalLen, DecodeFrame, MessagesLen;
    if FindSpec(d).InvalidFlag? {
      ClassifyBadFlag(d, rest);
    } else {
      ClassifyWithTrailers(d, FindSpec(d).len, rest);
    }
  }

  lemma {:induction false} ShownStuck(d: seq<byte>, cs: seq<seq<byte>>)
    requires Stuck(d)
    ensures Shown(d, cs) == 0
    decreases |cs|
  {
    hide Stuck, Settled;
    StuckStays(d, Flatten(cs));
    if cs != [] {
      ShownStuck(d, cs[..|cs| - 1]);
    }
  }

  // ----- One chunk arrives -----

  function Held(cs: seq<seq<byte>>, more: seq<Item>, d: seq<byte>): (s: CallState) {
    CallState(Chunks(cs) + more, [], d, None)
  }

  /** The first chunk of a body is moved into the buffer; the answer may be ready then... */
  lemma TakeChunk(c: seq<byte>, cs: seq<seq<byte>>, more: seq<Item>, d: seq<byte>)
    ensures Held([c] + cs, more, d).inner == [Whole(Data(c))] + Held(cs, more, d + c).inner
    ensures d + Flatten([c] + cs) == (d + c) + Flatten(cs)
  {
    assert ([c] + cs)[1..] == cs;
  }

  lemma TakeChunkReady(c: seq<byte>, cs: seq<seq<byte>>, more: seq<Item>, d: seq<byte>, step: Step)
    requires Examine(Held(cs, more, d + c), false) == Ready(step)
    ensures PollClient(Held([c] + cs, more, d)) == step
  {
    hide Examine;
    TakeChunk(c, cs, more, d);
    assert Held([c] + cs, more, d).inner[1..] == Held(cs, more, d + c).inner;
  }

  /** ... or polling goes on as if the chunk had been there before. */
  lemma TakeChunkQuiet(c: seq<byte>, cs: seq<seq<byte>>, more: seq<Item>, d: seq<byte>)
    requires Quiet(d + c)
    ensures Run(Held([c] + cs, more, d)) == Run(Held(cs, more, d + c))
  {
    QuietExamine(Held(cs, more, d + c));
    hide Examine, Quiet;
    TakeChunk(c, cs, more, d);
    assert Held([c] + cs, more, d).inner[1..] == Held(cs, more, d + c).inner;
  }

  /** Chunks that hold no bytes change nothing. */
  lemma {:induction false} SkipEmpty(cs: seq<seq<byte>>, more: seq<Item>)
    requires Flatten(cs) == []
    ensures Run(Held(cs, more, [])) == Run(Start(more))
  {
    if cs == [] {
      assert Chunks(cs) + more == more;
    } else {
      assert cs[0] == [] && [] + cs[0] == [];
      assert cs == [cs[0]] + cs[1..];
      TakeChunkQuiet(cs[0], cs[1..], more, []);
      SkipEmpty(cs[1..], more);
    }
  }

  /** The buffer holds whole messages and at most a piece of the next frame. */
  lemma ExamineMessages(s: CallState, len: nat)
    requires s.trailers.None? && 0 < len <= |s.decoded|
    requires FindSpec(s.decoded) == Done(len) ||
             (FindSpec(s.decoded) == Trailer(len) && |s.decoded| - len < FrameTotalLen(s.decoded[len..]).value)
    ensures IsMessages(s.decoded[..len]) && Quiet(s.decoded[len..])
    ensures Examine(s, false).Ready?
    ensures Examine(s, false).step.out == Yield(Data(s.decoded[..len]))
    ensures Examine(s, false).step.next == s.(decoded := s.decoded[len..])
  {
    MessagesPrefix(s.decoded);
    var rest := s.decoded[len..];
    assert rest[0..] == rest;
  }

  /** The buffer holds `len` bytes of messages and then a whole trailers frame. */
  predicate HasTrailers(d: seq<byte>, len: nat) {
    FindSpec(d) == Trailer(len) && |d| - len >= FrameTotalLen(d[len..]).value
  }

  lemma ClassifyWithTrailers(d: seq<byte>, len: nat, rest: seq<byte>)
    requires HasTrailers(d, len)
    ensures len + HEADER_SIZE <= |d| && IsMessages(d[..len]) && MessagesLen(d + rest) == len
    ensures var total := FrameTotalLen(d[len..]).value;
            match DecodeFrame(d[len..][..total]) {
              case Err(e) => Classify(d + rest) == Unparsable(e)
              case Ok(None) => false
              case Ok(Some(t)) => Classify(d + rest) == TrailersAnd(t, |d| + |rest| - len - total)
            }
  {
    MessagesPrefix(d);
    MessagesSplit(d, rest);
    var a, b := d[len..], d[len..] + rest;
    FrameHeadOfConcat(a, rest);
    assert (d + rest)[len..] == b;
    assert b[..FrameTotalLen(a).value] == a[..FrameTotalLen(a).value];
  }

  /** Messages are ready: they are yielded, and the rest of the run goes on from what follows them. */
  lemma RunMessages(c: seq<byte>, cs: seq<seq<byte>>, more: seq<Item>, d: seq<byte>, len: nat)
    requires 0 < len <= |d + c|
    requires FindSpec(d + c) == Done(len) ||
             (FindSpec(d + c) == Trailer(len) && |d + c| - len < FrameTotalLen((d + c)[len..]).value)
    ensures IsMessages((d + c)[..len]) && Quiet((d + c)[len..])
    ensures Run(Held([c] + cs, more, d)) == [Yield(Data((d + c)[..len]))] + Run(Held(cs, more, (d + c)[len..]))
  {
    var s1 := Held(cs, more, d + c);
    ExamineMessages(s1, len);
    TakeChunkReady(c, cs, more, d, Examine(s1, false).step);
  }

  /** The buffer is `len` bytes of messages, a whole trailers frame that parses, and `y`. */
  predicate HoldsTrailers(d: seq<byte>, len: nat, t: HeaderMap, y: seq<byte>) {
    && HasTrailers(d, len)
    && var total := FrameTotalLen(d[len..]).value;
       DecodeFrame(d[len..][..total]) == Ok(Some(t)) && y == d[len..][total..]
  }

  lemma ExamineTrailersFrame(s: CallState, len: nat, t: HeaderMap, y: seq<byte>)
    requires s.trailers.None? && HoldsTrailers(s.decoded, len, t, y)
    ensures Examine(s, false).Ready?
    ensures var done := s.(decoded := y);
            var step := Examine(s, false).step;
            if len == 0 then step.out == Yield(Trailers(t)) && step.next == done
            else step.out == Yield(Data(s.decoded[..len])) && step.next == done.(trailers := Some(t))
  {
    assert FindSpec(s.decoded) == Trailer(len);
    hide FindSpec, FrameTotalLen, DecodeFrame;
    assert Examine(s, false) == ExamineTrailer(s, len, false);
    hide Examine;
    assert s.decoded[..len] == [] <==> len == 0;
  }

  /** What the client sees past the trailers, when `rest` still follows the trailers frame. */
  function Past(rest: seq<byte>, more: seq<Item>): (outs: seq<Poll>) {
    if rest == [] then Run(Start(more)) else [End]
  }

  lemma FewBytes(d: seq<byte>)
    requires |d| < HEADER_SIZE
    ensures FindSpec(d) == Done(0) && Quiet(d)
  {
  }

  /** Fewer than five bytes are left: they never come to anything. */
  lemma {:induction false} FewBytesLeft(cs: seq<seq<byte>>, y: seq<byte>)
    requires |y + Flatten(cs)| < HEADER_SIZE
    ensures Run(Held(cs, [], y)) == [End]
    decreases |cs|
  {
    if cs == [] {
      assert y + Flatten(cs) == y;
      FewBytes(y);
    } else {
      assert cs == [cs[0]] + cs[1..];
      TakeChunk(cs[0], cs[1..], [], y);
      FewBytes(y + cs[0]);
      hide Run, Quiet, Flatten, Held;
      TakeChunkQuiet(cs[0], cs[1..], [], y);
      FewBytesLeft(cs[1..], y + cs[0]);
    }
  }

  lemma RunPast(cs: seq<seq<byte>>, more: seq<Item>, y: seq<byte>)
    requires |y + Flatten(cs)| < HEADER_SIZE && (y + Flatten(cs) == [] || more == [])
    ensures Run(Held(cs, more, y)) == Past(y + Flatten(cs), more)
  {
    hide Run, Held, Flatten;
    if y + Flatten(cs) == [] {
      SkipEmpty(cs, more);
    } else {
      FewBytesLeft(cs, y);
    }
  }

  function Waiting(cs: seq<seq<byte>>, more: seq<Item>, y: seq<byte>, t: HeaderMap): (s: CallState) {
    Held(cs, more, y).(trailers := Some(t))
  }

  /** Trailers that wait behind a few bytes come out with the next chunk or at the end. */
  lemma WaitingPoll(cs: seq<seq<byte>>, y: seq<byte>, t: HeaderMap)
    requires |y + Flatten(cs)| < HEADER_SIZE && y != []
    ensures var step := PollClient(Waiting(cs, [], y, t));
            && step.out == Yield(Trailers(t))
            && exists ds, z :: step.next == Held(ds, [], z) && |z + Flatten(ds)| < HEADER_SIZE
  {
    if cs == [] {
      FewBytes(y);
      assert Waiting(cs, [], y, t).inner == [];
      assert PollClient(Waiting(cs, [], y, t)).next == Held(cs, [], y);
    } else {
      var c, ds := cs[0], cs[1..];
      assert cs == [c] + ds;
      TakeChunk(c, ds, [], y);
      FewBytes(y + c);
      hide FindSpec, Flatten;
      assert Held(cs, [], y).inner[1..] == Held(ds, [], y + c).inner;
      assert PollClient(Waiting(cs, [], y, t)).next == Held(ds, [], y + c);
    }
  }

  lemma RunWaiting(cs: seq<seq<byte>>, more: seq<Item>, y: seq<byte>, t: HeaderMap)
    requires |y + Flatten(cs)| < HEADER_SIZE && (y + Flatten(cs) == [] || more == [])
    ensures Run(Waiting(cs, more, y, t)) == [Yield(Trailers(t))] + Past(y + Flatten(cs), more)
  {
    hide Flatten, PollLoop;
    if y == [] {
      RunYield(Waiting(cs, more, y, t), PollClient(Waiting(cs, more, y, t)));
      assert PollClient(Waiting(cs, more, y, t)).next == Held(cs, more, y);
      hide Run, Held, Waiting;
      RunPast(cs, more, y);
    } else {
      hide Run, Held, Waiting, PollClient;
      WaitingPoll(cs, y, t);
      var step := PollClient(Waiting(cs, more, y, t));
      RunYield(Waiting(cs, more, y, t), step);
      var ds, z :| step.next == Held(ds, [], z) && |z + Flatten(ds)| < HEADER_SIZE;
      FewBytesLeft(ds, z);
    }
  }

  lemma RunYield(s: CallState, step: Step)
    requires PollClient(s) == step && step.out.Yield?
    ensures Run(s) == [step.out] + Run(step.next)
  {
  }

  /** Trailers are ready: the messages before them are yielded first, and the trailers wait. */
  lemma TrailersReady(c: seq<byte>, cs: seq<seq<byte>>, more: seq<Item>, d: seq<byte>, len: nat, t: HeaderMap, y: seq<byte>)
    requires HoldsTrailers(d + c, len, t, y)
    ensures Run(Held([c] + cs, more, d)) ==
            if len == 0 then [Yield(Trailers(t))] + Run(Held(cs, more, y))
            else [Yield(Data((d + c)[..len]))] + Run(Waiting(cs, more, y, t))
  {
    var s1 := Held(cs, more, d + c);
    ExamineTrailersFrame(s1, len, t, y);
    assert s1.(decoded := y) == Held(cs, more, y);
    assert s1.(decoded := y, trailers := Some(t)) == Waiting(cs, more, y, t);
    hide Examine, HoldsTrailers, Run, Held, Waiting, PollClient;
    var step := Examine(s1, false).step;
    TakeChunkReady(c, cs, more, d, step);
    RunYield(Held([c] + cs, more, d), step);
  }

  /** A chunk that ends with the trailers frame brings the trailers out before anything else. */
  lemma RunTrailersAtEnd(c: seq<byte>, cs: seq<seq<byte>>, more: seq<Item>, d: seq<byte>, len: nat, t: HeaderMap)
    requires HoldsTrailers(d + c, len, t, [])
    ensures Run(Held([c] + cs, more, d)) ==
            (if len == 0 then [] else [Yield(Data((d + c)[..len]))]) + ([Yield(Trailers(t))] + Run(Held(cs, more, [])))
  {
    var s := Waiting(cs, more, [], t);
    assert PollClient(s).out == Yield(Trailers(t)) && PollClient(s).next == Held(cs, more, []);
    hide HoldsTrailers, Run, Held, Waiting, PollClient;
    TrailersReady(c, cs, more, d, len, t, []);
    RunYield(s, PollClient(s));
  }

  lemma RunTrailers(c: seq<byte>, cs: seq<seq<byte>>, more: seq<Item>, d: seq<byte>, len: nat, t: HeaderMap, y: seq<byte>)
    requires HoldsTrailers(d + c, len, t, y)
    requires |y + Flatten(cs)| < HEADER_SIZE && (y + Flatten(cs) == [] || more == [])
    ensures Run(Held([c] + cs, more, d)) ==
            (if len == 0 then [] else [Yield(Data((d + c)[..len]))]) + ([Yield(Trailers(t))] + Past(y + Flatten(cs), more))
  {
    hide HoldsTrailers, Run, Past, Held, Waiting, Flatten;
    TrailersReady(c, cs, more, d, len, t, y);
    if len == 0 {
      RunPast(cs, more, y);
    } else {
      RunWaiting(cs, more, y, t);
    }
  }

  lemma RunBadTrailers(c: seq<byte>, cs: seq<seq<byte>>, more: seq<Item>, d: seq<byte>, len: nat)
    requires HasTrailers(d + c, len)
    requires DecodeFrame((d + c)[len..][..FrameTotalLen((d + c)[len..]).value]).Err?
    ensures Run(Held([c] + cs, more, d)) ==
            [Fail(BadTrailers(DecodeFrame((d + c)[len..][..FrameTotalLen((d + c)[len..]).value]).error))]
  {
    var s1 := Held(cs, more, d + c);
    assert Examine(s1, false).Ready?;
    TakeChunkReady(c, cs, more, d, Examine(s1, false).step);
  }

  lemma RunBadFlag(c: seq<byte>, cs: seq<seq<byte>>, more: seq<Item>, d: seq<byte>)
    requires FindSpec(d + c).InvalidFlag?
    ensures Run(Held([c] + cs, more, d)) == [Fail(BadFlag(FindSpec(d + c).flag))]
  {
    var s1 := Held(cs, more, d + c);
    TakeChunkReady(c, cs, more, d, Examine(s1, false).step);
  }

  lemma ClassifyBadFlag(d: seq<byte>, rest: seq<byte>)
    requires FindSpec(d).InvalidFlag?
    ensures Classify(d + rest) == Unflagged(FindSpec(d).flag)
  {
    MessagesSplit(d, rest);
    MessagesPrefix(d);
    var m := MessagesLen(d);
    assert (d[m..] + rest)[0] == d[m];
    assert (d + rest)[m..] == d[m..] + rest;
  }

  // ----- Whole runs -----

  /** The body is understood; after a leftover behind the trailers nothing more may come. */
  ghost predicate Readable(b: seq<byte>, more: seq<Item>) {
    var k := Classify(b);
    !k.Beyond? && (k.WithLeftover? ==> more == [])
  }

  /** How a run ends that has emitted `shown` bytes of `b`, with `more` to come from the inner body. */
  ghost function Ending(b: seq<byte>, shown: nat, more: seq<Item>): (outs: seq<Poll>)
    requires shown <= |b|
  {
    match Classify(b)
    case WithTrailers(t) => [Yield(Trailers(t))] + Run(Start(more))
    case WithLeftover(t) => [Yield(Trailers(t)), End]
    case Unflagged(x) => [Fail(BadFlag(x))]
    case Unparsable(e) => [Fail(BadTrailers(e))]
    case _ => Run(Start(more).(decoded := b[shown..]))
  }

  /** `outs` is a run over the body `b` and then over `more` that shows `shown` bytes of messages. */
  ghost predicate Faithful(outs: seq<Poll>, b: seq<byte>, more: seq<Item>, shown: nat) {
    shown <= |b| && Delivers(outs, b, shown, Ending(b, shown, more))
  }

  lemma EndingAfterMessages(x: seq<byte>, b: seq<byte>, shown: nat, more: seq<Item>)
    requires IsMessages(x) && shown <= |b|
    ensures Ending(x + b, |x| + shown, more) == Ending(b, shown, more)
    ensures Readable(x + b, more) <==> Readable(b, more)
  {
    hide Classify, IsMessages, Run, MessagesLen;
    ClassifyAfterMessages(x, b);
    CutOfConcat(x, b, shown);
  }

  lemma FaithfulMore(x: seq<byte>, outs: seq<Poll>, b: seq<byte>, more: seq<Item>, shown: nat)
    requires x != [] && IsMessages(x) && Faithful(outs, b, more, shown)
    ensures Faithful([Yield(Data(x))] + outs, x + b, more, |x| + shown)
  {
    hide Ending, Delivers, IsMessages;
    EndingAfterMessages(x, b, shown, more);
    DeliversMore(x, outs, b, shown, Ending(b, shown, more));
  }

  /**
    The decoder refines the one-shot reading of the body.  However the bytes
    still to come are cut into chunks (empty ones included), the client sees the
    messages up to the last settled point in whole-message data frames, and then
    the ending that the whole body calls for.  When the body ends in a trailers
    frame, the trailers come out before anything that follows is even looked at.
   */
  lemma {:induction false} AnyChunking(cs: seq<seq<byte>>, more: seq<Item>, d: seq<byte>)
    requires Quiet(d) && Readable(d + Flatten(cs), more)
    ensures Faithful(Run(Held(cs, more, d)), d + Flatten(cs), more, Shown(d, cs))
    decreases |cs|, 0
  {
    if cs == [] {
      assert d + Flatten(cs) == d && d[0..] == d;
      QuietClass(d);
      assert Chunks(cs) + more == more;
      hide Classify, Delivers, Run;
      DeliversNothing(d, Run(Held(cs, more, d)));
    } else {
      hide *;
      assert cs == [cs[0]] + cs[1..];
      TakeChunk(cs[0], cs[1..], more, d);
      ShownTake(d, cs[0], cs[1..]);
      ChunkArrives(cs[0], cs[1..], more, d);
    }
  }

  lemma {:induction false} ChunkArrives(c: seq<byte>, cs: seq<seq<byte>>, more: seq<Item>, d: seq<byte>)
    requires Readable(d + c + Flatten(cs), more)
    ensures Faithful(Run(Held([c] + cs, more, d)), d + c + Flatten(cs), more, Shown(d + c, cs))
    decreases |cs|, 3
  {
    var d1 := d + c;
    var find := FindSpec(d1);
    hide Classify, Faithful, Readable, Run, Held, Flatten, Shown;
    if Quiet(d1) {
      TakeChunkQuiet(c, cs, more, d);
      AnyChunking(cs, more, d1);
    } else if Stuck(d1) {
      StuckArrives(c, cs, more, d);
    } else if HasTrailers(d1, find.len) {
      TrailersArrive(c, cs, more, d, find.len);
    } else {
      MessagesArrive(c, cs, more, d, find.len);
    }
  }

  lemma StuckArrives(c: seq<byte>, cs: seq<seq<byte>>, more: seq<Item>, d: seq<byte>)
    requires Stuck(d + c)
    ensures Faithful(Run(Held([c] + cs, more, d)), d + c + Flatten(cs), more, Shown(d + c, cs))
  {
    var d1, rest := d + c, Flatten(cs);
    hide Classify, Delivers, Run, Held, Flatten, Shown, IsMessages, MessagesLen, DecodeFrame, FrameTotalLen;
    ShownStuck(d1, cs);
    if FindSpec(d1).InvalidFlag? {
      RunBadFlag(c, cs, more, d);
      ClassifyBadFlag(d1, rest);
    } else {
      RunBadTrailers(c, cs, more, d, FindSpec(d1).len);
      ClassifyWithTrailers(d1, FindSpec(d1).len, rest);
    }
    DeliversNothing(d1 + rest, Run(Held([c] + cs, more, d)));
  }

  lemma {:induction false} MessagesArrive(c: seq<byte>, cs: seq<seq<byte>>, more: seq<Item>, d: seq<byte>, len: nat)
    requires 0 < len <= |d + c|
    requires FindSpec(d + c) == Done(len) ||
             (FindSpec(d + c) == Trailer(len) && |d + c| - len < FrameTotalLen((d + c)[len..]).value)
    requires Readable(d + c + Flatten(cs), more)
    ensures Faithful(Run(Held([c] + cs, more, d)), d + c + Flatten(cs), more, Shown(d + c, cs))
    decreases |cs|, 2
  {
    hide *;
    RunMessages(c, cs, more, d, len);
    var x, d2 := (d + c)[..len], (d + c)[len..];
    assert d + c == x + d2;
    Regroup(x, d2, Flatten(cs));
    SettledAfterMessages(d + c, len);
    RunContinues(x, d2, cs, more);
  }

  lemma SettledAfterMessages(d: seq<byte>, len: nat)
    requires 0 < len <= |d|
    requires FindSpec(d) == Done(len) || (FindSpec(d) == Trailer(len) && |d| - len < FrameTotalLen(d[len..]).value)
    ensures Settled(d[len..])
  {
    MessagesPrefix(d);
    var rest := d[len..];
    assert rest[0..] == rest;
  }

  lemma {:induction false} RunContinues(x: seq<byte>, d: seq<byte>, cs: seq<seq<byte>>, more: seq<Item>)
    requires x != [] && IsMessages(x) && Quiet(d) && Settled(d)
    requires Readable(x + (d + Flatten(cs)), more)
    ensures Faithful([Yield(Data(x))] + Run(Held(cs, more, d)), x + (d + Flatten(cs)), more, Shown(x + d, cs))
    decreases |cs|, 1
  {
    hide *;
    EndingAfterMessages(x, d + Flatten(cs), 0, more);
    ShownAfterMessages(x, d, cs);
    AnyChunking(cs, more, d);
    FaithfulMore(x, Run(Held(cs, more, d)), d + Flatten(cs), more, Shown(d, cs));
  }

  lemma TrailersArrive(c: seq<byte>, cs: seq<seq<byte>>, more: seq<Item>, d: seq<byte>, len: nat)
    requires HasTrailers(d + c, len) && !Stuck(d + c)
    requires Readable(d + c + Flatten(cs), more)
    ensures Faithful(Run(Held([c] + cs, more, d)), d + c + Flatten(cs), more, Shown(d + c, cs))
  {
    hide *;
    var t, y := LittleIsLeft(d + c, len, Flatten(cs), more);
    RunTrailers(c, cs, more, d, len, t, y);
    FaithfulTrailers(d + c, len, t, y, Flatten(cs), more);
    ShownWhole(d + c, cs);
  }

  lemma ShownWhole(d: seq<byte>, cs: seq<seq<byte>>)
    requires Settled(d + Flatten(cs))
    ensures Shown(d, cs) == MessagesLen(d + Flatten(cs))
  {
  }

  lemma LittleIsLeft(d: seq<byte>, len: nat, rest: seq<byte>, more: seq<Item>) returns (t: HeaderMap, y: seq<byte>)
    requires HasTrailers(d, len) && !Stuck(d)
    requires Readable(d + rest, more)
    ensures HoldsTrailers(d, len, t, y) && |y + rest| < HEADER_SIZE && (y + rest == [] || more == [])
  {
    assert FindSpec(d) == Trailer(len);
    hide Classify, IsMessages, MessagesLen, DecodeFrame, FindSpec, FrameTotalLen;
    ClassifyWithTrailers(d, len, rest);
    var total := FrameTotalLen(d[len..]).value;
    t, y := DecodeFrame(d[len..][..total]).value.value, d[len..][total..];
  }

  lemma TrailersEnding(d: seq<byte>, len: nat, t: HeaderMap, y: seq<byte>, rest: seq<byte>, more: seq<Item>)
    requires HoldsTrailers(d, len, t, y) && |y + rest| < HEADER_SIZE && (y + rest == [] || more == [])
    ensures Settled(d + rest) && MessagesLen(d + rest) == len <= |d| && IsMessages(d[..len])
    ensures Ending(d + rest, len, more) == [Yield(Trailers(t))] + Past(y + rest, more)
  {
    hide Classify, Run, IsMessages, MessagesLen, DecodeFrame, FrameTotalLen, FindSpec;
    ClassifyWithTrailers(d, len, rest);
  }

  /** All messages at once, if there are any, and then the ending. */
  lemma DeliversAtOnce(x: seq<byte>, rest: seq<byte>, ending: seq<Poll>)
    requires IsMessages(x)
    ensures Delivers((if x == [] then [] else [Yield(Data(x))]) + ending, x + rest, |x|, ending)
  {
    hide Delivers, IsMessages;
    DeliversNothing(rest, ending);
    if x == [] {
      assert [] + ending == ending && x + rest == rest;
    } else {
      DeliversMore(x, ending, rest, 0, ending);
    }
  }

  lemma FaithfulTrailers(d: seq<byte>, len: nat, t: HeaderMap, y: seq<byte>, rest: seq<byte>, more: seq<Item>)
    requires HoldsTrailers(d, len, t, y) && |y + rest| < HEADER_SIZE && (y + rest == [] || more == [])
    ensures Settled(d + rest) && MessagesLen(d + rest) == len <= |d|
    ensures var outs := (if len == 0 then [] else [Yield(Data(d[..len]))]) + ([Yield(Trailers(t))] + Past(y + rest, more));
            Faithful(outs, d + rest, more, len)
  {
    hide HoldsTrailers, Settled, Delivers, Ending, Past, IsMessages, MessagesLen;
    TrailersEnding(d, len, t, y, rest, more);
    DeliversAtOnce(d[..len], d[len..] + rest, [Yield(Trailers(t))] + Past(y + rest, more));
    assert d + rest == d[..len] + (d[len..] + rest);
  }

  // ----- What a fresh client sees of a body -----

  /** How the run over a body that is not followed by anything ends. */
  function Final(k: Body): (outs: seq<Poll>)
    requires !k.Beyond?
    ensures outs != []
  {
    match k
    case Clean => [End]
    case WithTrailers(t) => [Yield(Trailers(t)), End]
    case WithLeftover(t) => [Yield(Trailers(t)), End]
    case CutMessage => [Fail(IncompleteMessage)]
    case CutTrailers => [Fail(IncompleteTrailers)]
    case Unflagged(x) => [Fail(BadFlag(x))]
    case Unparsable(e) => [Fail(BadTrailers(e))]
  }

  lemma NothingLeft(d: seq<byte>)
    requires FindSpec(d) == Done(0)
    ensures Run(Start([]).(decoded := d)) == [End]
  {
    hide FindSpec;
  }

  lemma CutMessageLeft(d: seq<byte>)
    requires FindSpec(d) == IncompleteBuf
    ensures Run(Start([]).(decoded := d)) == [Fail(IncompleteMessage)]
  {
    hide FindSpec;
  }

  lemma CutTrailersLeft(d: seq<byte>)
    requires FindSpec(d) == Trailer(0) && |d| < FrameTotalLen(d).value
    ensures Run(Start([]).(decoded := d)) == [Fail(IncompleteTrailers)]
  {
    hide FrameTotalLen;
    assert d[0..] == d;
  }

  /** At the end of the body, what is left decides how the run ends. */
  lemma BytesLeft(d: seq<byte>)
    requires Classify(d).CutMessage? || ((Classify(d).Clean? || Classify(d).CutTrailers?) && MessagesLen(d) == 0)
    ensures Run(Start([]).(decoded := d)) == Final(Classify(d))
  {
    assert d[0..] == d;
    hide Run;
    match Classify(d)
    case CutMessage => CutMessageLeft(d);
    case Clean => NothingLeft(d);
    case CutTrailers => CutTrailersLeft(d);
  }

  /** The part of the body that every run over these chunks shows is whole messages of it. */
  lemma ShownIsMessages(cs: seq<seq<byte>>)
    ensures var b, n := Flatten(cs), Shown([], cs);
            n <= MessagesLen(b) && IsMessages(b[..n]) && (Settled(b) ==> n == MessagesLen(b))
  {
    hide Settled, Shown, MessagesLen, IsMessages, Flatten;
    var j := LastSettled(cs);
    ShownFromStart(cs);
    var p := Flatten(cs[..j]);
    assert cs == cs[..j] + cs[j..];
    FlattenConcat(cs[..j], cs[j..]);
    MessagesPrefix(p);
    var n := MessagesLen(p);
    assert Flatten(cs)[..n] == p[..n];
    MessagesLongest(Flatten(cs), n);
    if Settled(Flatten(cs)) {
      assert [] + Flatten(cs) == Flatten(cs);
      ShownWhole([], cs);
    }
  }

  lemma EndingIsFinal(b: seq<byte>, n: nat)
    requires n <= MessagesLen(b) && IsMessages(b[..n]) && (Settled(b) ==> n == MessagesLen(b)) && !Classify(b).Beyond?
    ensures Ending(b, n, []) == Final(Classify(b))
  {
    assert b == b[..n] + b[n..];
    ClassifyAfterMessages(b[..n], b[n..]);
    RunEmpty();
    hide Classify, Run, MessagesLen, IsMessages;
    var k := Classify(b);
    if k.Clean? || k.CutMessage? || k.CutTrailers? {
      BytesLeft(b[n..]);
    }
  }

  lemma RunEmpty()
    ensures Run(Start([])) == [End]
  {
  }

  /**
    Every chunking of a body delivers its messages up to the last point at which
    the chunks so far were settled, and then what the body as a whole calls for.
   */
  lemma ClientDecodesAnyChunking(cs: seq<seq<byte>>)
    requires !Classify(Flatten(cs)).Beyond?
    ensures var b, shown := Flatten(cs), MessagesLen(Flatten(cs[..LastSettled(cs)]));
            && Delivers(Run(Start(Chunks(cs))), b, shown, Final(Classify(b)))
            && shown <= MessagesLen(b) && (Settled(b) ==> shown == MessagesLen(b))
  {
    var b := Flatten(cs);
    assert [] + b == b;
    HeldFromStart(cs);
    FewBytes([]);
    hide Classify, Quiet, Flatten, Delivers, Run, MessagesLen, Shown, Settled;
    ShownFromStart(cs);
    ShownIsMessages(cs);
    EndingIsFinal(b, Shown([], cs));
    AnyChunking(cs, [], []);
  }

  lemma HeldFromStart(cs: seq<seq<byte>>)
    ensures Held(cs, [], []) == Start(Chunks(cs))
  {
    assert Chunks(cs) + [] == Chunks(cs);
  }
}
