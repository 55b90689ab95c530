/**
  What one poll of a gRPC-Web body does, as a function of the body's state: the
  frames the inner HTTP body still holds, the base64 buffer, the decoded bytes
  not yet emitted and the trailers waiting to be emitted.
 */
module WebCall {
  import opened Bytes
  import opened Headers
  import opened WebFrame
  import opened TrailerBlock
  import Base64
  import Codes

  datatype Frame = Data(bytes: seq<byte>) | Trailers(headers: HeaderMap)

  /** What the inner body yields; after its last item it keeps reporting the end. */
  datatype Item = Whole(frame: Frame) | Broken(message: string)

  datatype WebError =
    | BadFlag(flag: byte)
    | IncompleteMessage
    | IncompleteTrailers
    | BadTrailers(cause: TrailerError)
    | MalformedBase64
    | UndecodableBase64
    | UnencodedTrailers
    | InnerError(message: string)
  {
    function Code(): (c: Codes.Code) {
      if IncompleteMessage? || IncompleteTrailers? then Codes.DataLoss else Codes.Internal
    }
  }

  datatype Poll = End | Yield(frame: Frame) | Fail(error: WebError)

  /** A stretch of decoded bytes that a poll consumed. */
  datatype Wire = Messages(bytes: seq<byte>) | TrailersFrame(bytes: seq<byte>)

  datatype CallState = CallState(
    inner: seq<Item>,
    buf: seq<byte>,
    decoded: seq<byte>,
    trailers: Option<HeaderMap>)

  datatype Step = Step(out: Poll, next: CallState, wire: seq<Wire>)

  // ----- The client decoder -----

  datatype Verdict = Again(state: CallState) | Ready(step: Step)

  /** Emits the messages in front of a trailers frame, else waiting trailers. */
  function Emit(s: CallState, msg: seq<byte>, eof: bool, wire: seq<Wire>): (v: Verdict) {
    if msg != [] then Ready(Step(Yield(Data(msg)), s, wire))
    else if s.trailers.Some? then Ready(Step(Yield(Trailers(s.trailers.value)), s.(trailers := None), wire))
    else if !eof then Again(s)
    else Ready(Step(End, s, wire))
  }

  function MessagesWire(msg: seq<byte>): (w: seq<Wire>) { if msg == [] then [] else [Messages(msg)] }

  /** The buffer holds `len` bytes of messages, then the start of a trailers frame. */
  function ExamineTrailer(s: CallState, len: nat, eof: bool): (v: Verdict)
    requires len + HEADER_SIZE <= |s.decoded|
  {
    var msg, rest := s.decoded[..len], s.decoded[len..];
    var total := FrameTotalLen(rest).value;
    if |rest| >= total then
      var s1, wire := s.(decoded := rest[total..]), MessagesWire(msg) + [TrailersFrame(rest[..total])];
      match DecodeFrame(rest[..total])
      case Err(e) => Ready(Step(Fail(BadTrailers(e)), s1, wire))
      case Ok(None) => Emit(s1, msg, eof, wire)
      case Ok(Some(t)) => Emit(s1.(trailers := Some(t)), msg, eof, wire)
    else if eof && msg == [] then Ready(Step(Fail(IncompleteTrailers), s.(decoded := rest), []))
    else Emit(s.(decoded := rest), msg, eof, MessagesWire(msg))
  }

  /** Looks for whole messages or a trailers frame in the buffered bytes. */
  function Examine(s: CallState, eof: bool): (v: Verdict) {
    match FindSpec(s.decoded)
    case InvalidFlag(b) => Ready(Step(Fail(BadFlag(b)), s, []))
    case IncompleteBuf => if eof then Ready(Step(Fail(IncompleteMessage), s, [])) else Again(s)
    case Trailer(len) => ExamineTrailer(s, len, eof)
    case Done(len) =>
      if len > 0 then
        var msg := s.decoded[..len];
        Ready(Step(Yield(Data(msg)), s.(decoded := s.decoded[len..]), MessagesWire(msg)))
      else if s.trailers.Some? then Ready(Step(Yield(Trailers(s.trailers.value)), s.(trailers := None), []))
      else if !eof then Again(s)
      else Ready(Step(End, s, []))
  }

  lemma ExamineProgress(s: CallState, eof: bool)
    ensures var v := Examine(s, eof);
            match v {
              case Again(n) => !eof && n == s
              case Ready(step) =>
                && step.next.inner == s.inner && step.next.buf == s.buf
                && (step.out.Yield? ==>
                      || |step.next.decoded| < |s.decoded|
                      || (step.next.decoded == s.decoded && s.trailers.Some? && step.next.trailers.None?))
            }
  {
    var find := FindSpec(s.decoded);
    if find.Trailer? && find.len == 0 {
      assert s.decoded[0..] == s.decoded;
    }
  }

  function AddTrailers(current: Option<HeaderMap>, t: HeaderMap): (r: Option<HeaderMap>) {
    match current
    case None => Some(t)
    case Some(m) => Some(m + t)
  }

  /** Pulls inner frames until the buffered bytes allow an answer. */
  function PollLoop(s: CallState): (step: Step)
    decreases |s.inner|
  {
    if s.inner == [] then
      ExamineProgress(s, true);
      Examine(s, true).step
    else
      var s1 := s.(inner := s.inner[1..]);
      match s.inner[0]
      case Broken(message) => Step(Fail(InnerError(message)), s1, [])
      case Whole(Trailers(t)) => PollLoop(s1.(trailers := AddTrailers(s.trailers, t)))
      case Whole(Data(d)) =>
        var s2 := s1.(decoded := s.decoded + d);
        ExamineProgress(s2, false);
        match Examine(s2, false)
        case Ready(step) => step
        case Again(s3) => PollLoop(s3)
  }

  function PollClient(s: CallState): (step: Step) {
    if s.decoded == [] && s.trailers.Some? then
      Step(Yield(Trailers(s.trailers.value)), s.(trailers := None), [])
    else PollLoop(s)
  }

  ghost predicate Progress(s: CallState, t: CallState) {
    || |t.inner| < |s.inner|
    || (|t.inner| == |s.inner| && |t.decoded| < |s.decoded|)
    || (|t.inner| == |s.inner| && |t.decoded| == |s.decoded| && s.trailers.Some? && t.trailers.None?)
  }

  lemma {:induction false} LoopProgress(s: CallState)
    ensures PollLoop(s).out.Yield? ==> Progress(s, PollLoop(s).next)
    ensures |PollLoop(s).next.inner| <= |s.inner|
    decreases |s.inner|
  {
    if s.inner == [] {
      ExamineProgress(s, true);
    } else {
      var s1 := s.(inner := s.inner[1..]);
      match s.inner[0]
      case Broken(_) =>
      case Whole(Trailers(t)) => LoopProgress(s1.(trailers := AddTrailers(s.trailers, t)));
      case Whole(Data(d)) =>
        var s2 := s1.(decoded := s.decoded + d);
        ExamineProgress(s2, false);
        if Examine(s2, false).Again? {
          LoopProgress(s2);
        }
    }
  }

  /** Every poll that yields a frame uses something up, so a run is finite. */
  lemma PollProgress(s: CallState)
    ensures PollClient(s).out.Yield? ==> Progress(s, PollClient(s).next)
    ensures |PollClient(s).next.inner| <= |s.inner|
  {
    LoopProgress(s);
  }

  /** Everything a client sees when it polls until the end or the first error. */
  function Run(s: CallState): (outs: seq<Poll>)
    decreases |s.inner|, |s.decoded|, s.trailers.Some?
  {
    var step := PollClient(s);
    PollProgress(s);
    if step.out.Yield? then [step.out] + Run(step.next) else [step.out]
  }

  // ----- Decoding without looking for trailers -----

  /** The largest multiple of four characters that is buffered. */
  function MaxDecodable(buf: seq<byte>): (n: nat)
    ensures n <= |buf| < n + 4 && n % 4 == 0
  {
    |buf| / 4 * 4
  }

  /** Decodes base64 text in whole groups of four characters. */
  function PollText(s: CallState): (step: Step)
    decreases |s.inner|
  {
    var n := MaxDecodable(s.buf);
    if n > 0 then
      var s1 := s.(buf := s.buf[n..]);
      match Base64.Decode(s.buf[..n])
      case None => Step(Fail(UndecodableBase64), s1, [])
      case Some(x) => Step(Yield(Data(x)), s1, [])
    else if s.inner == [] then
      if s.buf != [] then Step(Fail(MalformedBase64), s, [])
      else if s.trailers.Some? then Step(Yield(Trailers(s.trailers.value)), s.(trailers := None), [])
      else Step(End, s, [])
    else
      var s1 := s.(inner := s.inner[1..]);
      match s.inner[0]
      case Broken(message) => Step(Fail(InnerError(message)), s1, [])
      case Whole(Trailers(_)) => Step(Fail(UnencodedTrailers), s1, [])
      case Whole(Data(d)) => PollText(s1.(buf := s.buf + d))
  }

  /** Hands the inner frames through. */
  function PollPlain(s: CallState): (step: Step) {
    if s.inner == [] then Step(End, s, [])
    else
      var s1 := s.(inner := s.inner[1..]);
      match s.inner[0]
      case Broken(message) => Step(Fail(InnerError(message)), s1, [])
      case Whole(frame) => Step(Yield(frame), s1, [])
  }

  // ----- Encoding -----

  datatype Encoding = Base64Text | Binary

  /** `bytes` is how a frame goes into the body; the header fields may come in any order. */
  ghost predicate EncodesTo(frame: Frame, encoding: Encoding, bytes: seq<byte>) {
    match frame
    case Data(d) => bytes == Armoured(d, encoding)
    case Trailers(m) =>
      exists items ::
        && IsIteration(items, m)
        && |EncodeTrailers(items)| < 0x1_0000_0000
        && bytes == Armoured(MakeTrailersFrame(items), encoding)
  }

  function Armoured(bytes: seq<byte>, encoding: Encoding): (r: seq<byte>) {
    if encoding.Base64Text? then Base64.Encode(bytes, true) else bytes
  }

  /** What the encoding side may yield for an inner item. */
  ghost predicate EncodeOut(item: Item, encoding: Encoding, out: Poll) {
    match item
    case Broken(message) => out == Fail(InnerError(message))
    case Whole(frame) => out.Yield? && out.frame.Data? && EncodesTo(frame, encoding, out.frame.bytes)
  }

  ghost predicate EncodeStep(s: CallState, encoding: Encoding, out: Poll, next: CallState) {
    if s.inner == [] then out == End && next == s
    else EncodeOut(s.inner[0], encoding, out) && next == s.(inner := s.inner[1..])
  }
}
