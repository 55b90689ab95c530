/** Conservation of bytes by the gRPC-Web client decoder, over arbitrary inner frames. */
module WebConserve {
  import opened Bytes
  import opened WebFrame
  import opened TrailerBlock
  import opened WebCall

  function ItemData(item: Item): (b: seq<byte>) {
    if item.Whole? && item.frame.Data? then item.frame.bytes else []
  }

  /** The data bytes that a stretch of inner frames carries. */
  function DataOf(items: seq<Item>): (b: seq<byte>) {
    if items == [] then [] else ItemData(items[0]) + DataOf(items[1..])
  }

  lemma {:induction false} DataOfConcat(a: seq<Item>, b: seq<Item>)
    ensures DataOf(a + b) == DataOf(a) + DataOf(b)
  {
    if a == [] {
      assert a + b == b;
    } else {
      DataOfConcat(a[1..], b);
      TailOfConcat(a, b);
      Regroup(ItemData(a[0]), DataOf(a[1..]), DataOf(b));
    }
  }

  function WireBytes(w: seq<Wire>): (b: seq<byte>) {
    if w == [] then [] else w[0].bytes + WireBytes(w[1..])
  }

  function MessagePart(w: Wire): (b: seq<byte>) { if w.Messages? then w.bytes else [] }

  /** The bytes of a log that went out as messages. */
  function MessageBytes(w: seq<Wire>): (b: seq<byte>) {
    if w == [] then [] else MessagePart(w[0]) + MessageBytes(w[1..])
  }

  lemma {:induction false} WireBytesConcat(a: seq<Wire>, b: seq<Wire>)
    ensures WireBytes(a + b) == WireBytes(a) + WireBytes(b)
  {
    if a == [] {
      assert a + b == b;
    } else {
      WireBytesConcat(a[1..], b);
      TailOfConcat(a, b);
      Regroup(a[0].bytes, WireBytes(a[1..]), WireBytes(b));
    }
  }

  lemma {:induction false} MessageBytesConcat(a: seq<Wire>, b: seq<Wire>)
    ensures MessageBytes(a + b) == MessageBytes(a) + MessageBytes(b)
  {
    if a == [] {
      assert a + b == b;
    } else {
      MessageBytesConcat(a[1..], b);
      TailOfConcat(a, b);
      Regroup(MessagePart(a[0]), MessageBytes(a[1..]), MessageBytes(b));
    }
  }

  predicate IsWhole(w: Wire) {
    match w
    case Messages(b) => b != [] && IsMessages(b)
    case TrailersFrame(f) => IsTrailersFrame(f)
  }

  function Emitted(p: Poll): (b: seq<byte>) {
    if p.Yield? && p.frame.Data? then p.frame.bytes else []
  }

  /** What a poll consumed is whole frames, and its messages are what it yielded. */
  predicate Accounted(step: Step) {
    && (forall i :: 0 <= i < |step.wire| ==> IsWhole(step.wire[i]))
    && MessageBytes(step.wire) == Emitted(step.out)
  }

  /** `t` still holds all of `s` but the bytes of the log `w`. */
  predicate Balanced(s: CallState, w: seq<Wire>, t: CallState) {
    s.decoded + DataOf(s.inner) == WireBytes(w) + (t.decoded + DataOf(t.inner))
  }

  predicate IsSuffix(t: seq<Item>, s: seq<Item>) { |t| <= |s| && s[|s| - |t|..] == t }

  lemma EmitConserves(s: CallState, msg: seq<byte>, eof: bool, wire: seq<Wire>)
    requires MessageBytes(wire) == msg && (forall i :: 0 <= i < |wire| ==> IsWhole(wire[i]))
    ensures var v := Emit(s, msg, eof, wire);
            v.Ready? ==> Accounted(v.step) && v.step.next.decoded == s.decoded && v.step.next.inner == s.inner
                         && v.step.wire == wire
  {
  }

  lemma WireOf(msg: seq<byte>, f: seq<byte>)
    requires IsMessages(msg)
    ensures WireBytes(MessagesWire(msg)) == msg && MessageBytes(MessagesWire(msg)) == msg
    ensures forall i :: 0 <= i < |MessagesWire(msg)| ==> IsWhole(MessagesWire(msg)[i])
    ensures var w := MessagesWire(msg) + [TrailersFrame(f)];
            WireBytes(w) == msg + f && MessageBytes(w) == msg
  {
    WireBytesConcat(MessagesWire(msg), [TrailersFrame(f)]);
    MessageBytesConcat(MessagesWire(msg), [TrailersFrame(f)]);
    assert MessagesWire(msg) != [] ==> MessagesWire(msg)[1..] == [];
    assert [TrailersFrame(f)][1..] == [];
  }

  /** Looking into the buffer splits it into what is consumed and what is kept. */
  predicate Splits(s: CallState, step: Step) {
    && Accounted(step)
    && step.next.inner == s.inner
    && s.decoded == WireBytes(step.wire) + step.next.decoded
  }

  /** The buffer as messages, then a trailers frame that may be cut short. */
  lemma CutAtTrailer(d: seq<byte>, len: nat)
    requires FindSpec(d) == Trailer(len)
    ensures IsMessages(d[..len]) && d == d[..len] + d[len..]
    ensures var rest := d[len..];
            var total := FrameTotalLen(rest).value;
            |rest| >= total ==> IsTrailersFrame(rest[..total]) && d == (d[..len] + rest[..total]) + rest[total..]
  {
    MessagesPrefix(d);
    var rest := d[len..];
    var total := FrameTotalLen(rest).value;
    if |rest| >= total {
      assert rest == rest[..total] + rest[total..];
      FrameHeadOfConcat(rest[..total], rest[total..]);
    }
  }

  lemma WholeTrailerConserves(s: CallState, len: nat, eof: bool)
    requires FindSpec(s.decoded) == Trailer(len)
    requires |s.decoded| - len >= FrameTotalLen(s.decoded[len..]).value
    ensures var v := ExamineTrailer(s, len, eof);
            v.Ready? && !v.step.out.Fail? ==> Splits(s, v.step)
  {
    var msg, rest := s.decoded[..len], s.decoded[len..];
    var total := FrameTotalLen(rest).value;
    var f, s1 := rest[..total], s.(decoded := rest[total..]);
    CutAtTrailer(s.decoded, len);
    WireOf(msg, f);
    var wire := MessagesWire(msg) + [TrailersFrame(f)];
    hide FindSpec, FrameTotalLen, IsMessages, IsTrailersFrame, DecodeFrame, MessagesWire, WireBytes, MessageBytes;
    EmitConserves(s1, msg, eof, wire);
    if DecodeFrame(f).Ok? && DecodeFrame(f).value.Some? {
      EmitConserves(s1.(trailers := DecodeFrame(f).value), msg, eof, wire);
    }
  }

  lemma CutTrailerConserves(s: CallState, len: nat, eof: bool)
    requires FindSpec(s.decoded) == Trailer(len)
    requires |s.decoded| - len < FrameTotalLen(s.decoded[len..]).value
    ensures var v := ExamineTrailer(s, len, eof);
            v.Ready? && !v.step.out.Fail? ==> Splits(s, v.step)
  {
    var msg, rest := s.decoded[..len], s.decoded[len..];
    CutAtTrailer(s.decoded, len);
    WireOf(msg, []);
    hide FindSpec, FrameTotalLen, IsMessages, MessagesWire, WireBytes, MessageBytes;
    EmitConserves(s.(decoded := rest), msg, eof, MessagesWire(msg));
  }

  lemma DoneConserves(s: CallState, len: nat, eof: bool)
    requires FindSpec(s.decoded) == Done(len)
    ensures var v := Examine(s, eof);
            v.Ready? && !v.step.out.Fail? ==> Splits(s, v.step)
  {
    MessagesPrefix(s.decoded);
    WireOf(s.decoded[..len], []);
    hide FindSpec, IsMessages, MessagesWire, WireBytes, MessageBytes;
    assert WireBytes([]) == [] && MessageBytes([]) == [];
    assert s.decoded == s.decoded[..len] + s.decoded[len..];
  }

  lemma ExamineConserves(s: CallState, eof: bool)
    ensures var v := Examine(s, eof);
            v.Ready? && !v.step.out.Fail? ==> Splits(s, v.step)
  {
    hide FindSpec, ExamineTrailer, Splits;
    var find := FindSpec(s.decoded);
    match find
    case InvalidFlag(_) =>
    case IncompleteBuf =>
    case Done(len) => DoneConserves(s, len, eof);
    case Trailer(len) => TrailerConserves(s, len, eof);
  }

  lemma TrailerConserves(s: CallState, len: nat, eof: bool)
    requires FindSpec(s.decoded) == Trailer(len)
    ensures len + HEADER_SIZE <= |s.decoded|
    ensures var v := ExamineTrailer(s, len, eof);
            v.Ready? && !v.step.out.Fail? ==> Splits(s, v.step)
  {
    hide ExamineTrailer, Splits;
    if |s.decoded| - len >= FrameTotalLen(s.decoded[len..]).value {
      WholeTrailerConserves(s, len, eof);
    } else {
      CutTrailerConserves(s, len, eof);
    }
  }

  predicate Conserves(s: CallState, step: Step) {
    Accounted(step) && Balanced(s, step.wire, step.next) && IsSuffix(step.next.inner, s.inner)
  }

  lemma SplitsBalance(s: CallState, step: Step)
    requires Splits(s, step)
    ensures Conserves(s, step)
  {
    Regroup(WireBytes(step.wire), step.next.decoded, DataOf(s.inner));
  }

  /** Taking an inner frame moves its data, if any, from the body to the buffer. */
  lemma TakeConserves(s: CallState, s1: CallState, step: Step)
    requires s.inner != [] && s1.inner == s.inner[1..]
    requires s.decoded + DataOf(s.inner) == s1.decoded + DataOf(s1.inner)
    requires Conserves(s1, step)
    ensures Conserves(s, step)
  {
  }

  lemma {:induction false} LoopConserves(s: CallState)
    ensures !PollLoop(s).out.Fail? ==> Conserves(s, PollLoop(s))
    decreases |s.inner|
  {
    if s.inner == [] {
      ExamineProgress(s, true);
      ExamineConserves(s, true);
      if !PollLoop(s).out.Fail? {
        SplitsBalance(s, PollLoop(s));
      }
    } else {
      var s1 := s.(inner := s.inner[1..]);
      match s.inner[0]
      case Broken(_) =>
      case Whole(Trailers(t)) =>
        var s2 := s1.(trailers := AddTrailers(s.trailers, t));
        LoopConserves(s2);
        assert s.decoded + ([] + DataOf(s1.inner)) == s.decoded + DataOf(s1.inner);
        if !PollLoop(s).out.Fail? {
          TakeConserves(s, s2, PollLoop(s));
        }
      case Whole(Data(d)) =>
        var s2 := s1.(decoded := s.decoded + d);
        DataConserves(s, s2, d);
    }
  }

  lemma {:induction false} DataConserves(s: CallState, s2: CallState, d: seq<byte>)
    requires s.inner != [] && s.inner[0] == Whole(Data(d))
    requires s2 == s.(inner := s.inner[1..], decoded := s.decoded + d)
    ensures !PollLoop(s).out.Fail? ==> Conserves(s, PollLoop(s))
    decreases |s.inner|, 0
  {
    assert s.decoded + (d + DataOf(s2.inner)) == (s.decoded + d) + DataOf(s2.inner);
    ExamineProgress(s2, false);
    if Examine(s2, false).Again? {
      LoopConserves(s2);
    } else {
      ExamineConserves(s2, false);
      if !PollLoop(s).out.Fail? {
        SplitsBalance(s2, PollLoop(s));
      }
    }
    if !PollLoop(s).out.Fail? {
      TakeConserves(s, s2, PollLoop(s));
    }
  }

  lemma {:induction false} WholeLogIsMessages(w: seq<Wire>)
    requires forall i :: 0 <= i < |w| ==> IsWhole(w[i])
    ensures IsMessages(MessageBytes(w))
  {
    if w != [] {
      hide IsMessages;
      WholeLogIsMessages(w[1..]);
      assert IsWhole(w[0]);
      if w[0].Messages? {
        MessagesThen(w[0].bytes, MessageBytes(w[1..]));
      } else {
        assert [] + MessageBytes(w[1..]) == MessageBytes(w[1..]);
      }
    }
  }

  predicate DataIsMessages(p: Poll) { p.Yield? && p.frame.Data? ==> IsMessages(p.frame.bytes) }

  /** Every poll that does not fail conserves bytes, and the data that it yields is whole messages. */
  lemma PollConserves(s: CallState)
    ensures !PollClient(s).out.Fail? ==> Conserves(s, PollClient(s)) && DataIsMessages(PollClient(s).out)
  {
    LoopConserves(s);
    hide PollLoop, IsMessages, IsWhole;
    if !PollClient(s).out.Fail? {
      WholeLogIsMessages(PollClient(s).wire);
    }
  }

  // ----- Runs -----

  /** The state after `n` polls. */
  function After(s: CallState, n: nat): (t: CallState)
    decreases n
  {
    if n == 0 then s else After(PollClient(s).next, n - 1)
  }

  /** What the first `n` polls consumed, in wire order. */
  function Log(s: CallState, n: nat): (w: seq<Wire>)
    decreases n
  {
    if n == 0 then [] else PollClient(s).wire + Log(PollClient(s).next, n - 1)
  }

  /** The message bytes that the first `n` polls yielded. */
  function Output(s: CallState, n: nat): (b: seq<byte>)
    decreases n
  {
    if n == 0 then [] else Emitted(PollClient(s).out) + Output(PollClient(s).next, n - 1)
  }

  predicate NoFailure(s: CallState, n: nat)
    decreases n
  {
    n == 0 || (!PollClient(s).out.Fail? && NoFailure(PollClient(s).next, n - 1))
  }

  /** The bytes that reached the decoder during the first `n` polls. */
  function Received(s: CallState, n: nat): (b: seq<byte>)
    requires |After(s, n).inner| <= |s.inner|
  {
    DataOf(s.inner[..|s.inner| - |After(s, n).inner|])
  }

  ghost predicate LogIsWhole(w: seq<Wire>) { forall i :: 0 <= i < |w| ==> IsWhole(w[i]) }

  lemma {:induction false} RunBalance(s: CallState, n: nat)
    requires NoFailure(s, n)
    ensures Balanced(s, Log(s, n), After(s, n))
    ensures IsSuffix(After(s, n).inner, s.inner)
    ensures LogIsWhole(Log(s, n)) && MessageBytes(Log(s, n)) == Output(s, n)
    decreases n
  {
    if n == 0 {
      assert WireBytes([]) + (s.decoded + DataOf(s.inner)) == s.decoded + DataOf(s.inner);
    } else {
      hide PollClient, DataIsMessages;
      var step := PollClient(s);
      PollConserves(s);
      RunBalance(step.next, n - 1);
      ChainBalance(s, step, Log(step.next, n - 1), After(s, n));
    }
  }

  lemma ChainBalance(s: CallState, step: Step, w: seq<Wire>, t: CallState)
    requires Conserves(s, step) && Balanced(step.next, w, t) && IsSuffix(t.inner, step.next.inner) && LogIsWhole(w)
    ensures Balanced(s, step.wire + w, t) && IsSuffix(t.inner, s.inner) && LogIsWhole(step.wire + w)
    ensures MessageBytes(step.wire + w) == Emitted(step.out) + MessageBytes(w)
  {
    hide IsSuffix, IsWhole, WireBytes, MessageBytes, DataOf, Emitted;
    SuffixChain(t.inner, step.next.inner, s.inner);
    WireBytesConcat(step.wire, w);
    MessageBytesConcat(step.wire, w);
    Regroup(WireBytes(step.wire), WireBytes(w), t.decoded + DataOf(t.inner));
  }

  lemma SuffixChain(a: seq<Item>, b: seq<Item>, c: seq<Item>)
    requires IsSuffix(a, b) && IsSuffix(b, c)
    ensures IsSuffix(a, c)
  {
    assert c[|c| - |a|..] == b[|b| - |a|..];
  }

  lemma {:induction false} RunYieldsMessages(s: CallState, n: nat)
    requires NoFailure(s, n)
    ensures forall i :: 0 <= i < n ==> DataIsMessages(PollClient(After(s, i)).out)
    decreases n
  {
    hide PollClient, DataIsMessages;
    if n > 0 {
      var next := PollClient(s).next;
      PollConserves(s);
      RunYieldsMessages(next, n - 1);
      forall i | 0 <= i < n ensures DataIsMessages(PollClient(After(s, i)).out) {
        if i > 0 {
          assert After(s, i) == After(next, i - 1);
        }
      }
    }
  }

  /**
    Conservation.  After any number of polls without a failure, over any inner
    frames, the bytes received so far are exactly the consumed frames in wire
    order followed by the bytes still buffered; every consumed stretch is whole
    message frames or one whole trailers frame, the message bytes among them are
    exactly the data yielded, in order, and every data frame is whole messages.
   */
  lemma Conservation(s: CallState, n: nat)
    requires NoFailure(s, n)
    ensures |After(s, n).inner| <= |s.inner|
    ensures s.decoded + Received(s, n) == WireBytes(Log(s, n)) + After(s, n).decoded
    ensures LogIsWhole(Log(s, n)) && MessageBytes(Log(s, n)) == Output(s, n)
    ensures forall i :: 0 <= i < n ==> DataIsMessages(PollClient(After(s, i)).out)
  {
    RunBalance(s, n);
    RunYieldsMessages(s, n);
    hide PollClient, DataIsMessages, Log, NoFailure, DataOf, WireBytes, MessageBytes, Output, LogIsWhole;
    var t := After(s, n);
    var k := |s.inner| - |t.inner|;
    assert s.inner == s.inner[..k] + s.inner[k..];
    DataOfConcat(s.inner[..k], s.inner[k..]);
    var d, got, w, rest := s.decoded, DataOf(s.inner[..k]), WireBytes(Log(s, n)), DataOf(t.inner);
    Regroup(d, got, rest);
    Regroup(w, t.decoded, rest);
    CancelSuffix(d + got, w + t.decoded, rest);
  }

  lemma CancelSuffix(a: seq<byte>, b: seq<byte>, c: seq<byte>)
    requires a + c == b + c
    ensures a == b
  {
    assert |a| == |b|;
    assert a == (a + c)[..|a|] && b == (b + c)[..|b|];
  }
}
