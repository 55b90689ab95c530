/** The body adapter itself: a mutable object polled frame by frame. */
module GrpcWebCall {
  import opened Bytes
  import opened Headers
  import opened WebFrame
  import opened TrailerBlock
  import opened WebCall
  import Base64

  datatype Direction = Decode | Encode | Empty

  function FieldsOf(k: Name, vs: seq<Value>): (items: seq<(Name, Value)>)
    ensures |items| == |vs| && forall i :: 0 <= i < |vs| ==> items[i] == (k, vs[i])
  {
    seq(|vs|, i requires 0 <= i < |vs| => (k, vs[i]))
  }

  lemma {:induction false} ValuesOfFields(k: Name, vs: seq<Value>, j: Name)
    ensures ValuesOf(FieldsOf(k, vs), j) == if j == k then vs else []
  {
    if vs != [] {
      ValuesOfFields(k, vs[1..], j);
      assert FieldsOf(k, vs)[1..] == FieldsOf(k, vs[1..]);
      assert vs == [vs[0]] + vs[1..];
    }
  }

  /** `items` are the fields of all names of `m` but those in `rest`. */
  ghost predicate Visited(items: seq<(Name, Value)>, m: HeaderMap, rest: set<Name>) {
    && (forall i :: 0 <= i < |items| ==> items[i].0 in m)
    && (forall k :: k in m ==> ValuesOf(items, k) == if k in rest then [] else m[k])
  }

  lemma VisitName(items: seq<(Name, Value)>, m: HeaderMap, rest: set<Name>, k: Name)
    requires Visited(items, m, rest) && k in rest && k in m
    ensures Visited(items + FieldsOf(k, m[k]), m, rest - {k})
  {
    hide ValuesOf;
    forall j | j in m ensures ValuesOf(items + FieldsOf(k, m[k]), j) == if j in rest - {k} then [] else m[j] {
      ValuesOfConcat(items, FieldsOf(k, m[k]), j);
      ValuesOfFields(k, m[k], j);
    }
  }

  /** Visits the fields of a header map: the names in some order, the values of a name oldest first. */
  method VisitFields(m: HeaderMap) returns (items: seq<(Name, Value)>)
    ensures IsIteration(items, m)
  {
    items := [];
    var rest := m.Keys;
    while rest != {}
      invariant rest <= m.Keys && Visited(items, m, rest)
      decreases rest
    {
      var k :| k in rest;
      VisitName(items, m, rest, k);
      items := items + FieldsOf(k, m[k]);
      rest := rest - {k};
    }
  }

  /** The limit that `make_trailers_frame` asserts. */
  ghost predicate FitsFrame(item: Item) {
    item.Whole? && item.frame.Trailers? ==>
      forall items :: IsIteration(items, item.frame.headers) ==> |EncodeTrailers(items)| < 0x1_0000_0000
  }

  class Call {
    var inner: seq<Item>
    var buf: seq<byte>
    var decoded: seq<byte>
    var trailers: Option<HeaderMap>
    const direction: Direction
    const encoding: Encoding
    const client: bool

    function State(): (s: CallState)
      reads this
    {
      CallState(inner, buf, decoded, trailers)
    }

    /** Clients never use the text encoding. */
    predicate Valid() { client ==> encoding.Binary? }

    constructor (inner: seq<Item>, direction: Direction, encoding: Encoding)
      ensures Valid() && !client && this.direction == direction && this.encoding == encoding
      ensures State() == CallState(inner, [], [], None)
    {
      this.inner, buf, decoded, trailers := inner, [], [], None;
      this.direction, this.encoding, client := direction, encoding, false;
    }

    constructor ForClient(inner: seq<Item>, direction: Direction)
      ensures Valid() && client && this.direction == direction && encoding.Binary?
      ensures State() == CallState(inner, [], [], None)
    {
      this.inner, buf, decoded, trailers := inner, [], [], None;
      this.direction, encoding, client := direction, Binary, true;
    }

    /** The inner body: hands out its items, then keeps reporting the end. */
    method PollInner() returns (r: Option<Item>)
      modifies this`inner
      ensures old(inner) == [] ==> r.None? && inner == []
      ensures old(inner) != [] ==> r == Some(old(inner)[0]) && inner == old(inner)[1..]
    {
      if inner == [] {
        return None;
      }
      r := Some(inner[0]);
      inner := inner[1..];
    }

    /** Decodes as many whole groups of four characters as are buffered. */
    method DecodeChunk() returns (r: Result<Option<seq<byte>>, WebError>)
      modifies this`buf
      ensures var n := MaxDecodable(old(buf));
              && buf == old(buf)[n..]
              && (n == 0 ==> r == Ok(None))
              && (n > 0 ==> r == match Base64.Decode(old(buf)[..n]) {
                                   case None => Err(UndecodableBase64)
                                   case Some(x) => Ok(Some(x))
                                 })
      ensures |buf| < 4
    {
      if buf == [] || |buf| < 4 {
        assert MaxDecodable(buf) == 0 && buf[0..] == buf;
        return Ok(None);
      }
      var index := MaxDecodable(buf);
      var piece := buf[..index];
      buf := buf[index..];
      match Base64.Decode(piece)
      case None => return Err(UndecodableBase64);
      case Some(x) => return Ok(Some(x));
    }

    method PollDecodeText() returns (p: Poll)
      modifies this`inner, this`buf, this`trailers
      ensures var step := PollText(old(State()));
              p == step.out && State() == step.next
    {
      while true
        invariant PollText(State()) == PollText(old(State()))
        decreases |inner|
      {
        ghost var s := State();
        var chunk := DecodeChunk();
        if chunk.Err? {
          return Fail(chunk.error);
        }
        if chunk.value.Some? {
          return Yield(Data(chunk.value.value));
        }
        assert State() == s by {
          assert s.buf[0..] == s.buf;
        }
        var item := PollInner();
        match item
        case None =>
          if buf != [] {
            return Fail(MalformedBase64);
          } else if trailers.Some? {
            p := Yield(Trailers(trailers.value));
            trailers := None;
            return;
          } else {
            return End;
          }
        case Some(Broken(message)) => return Fail(InnerError(message));
        case Some(Whole(Trailers(_))) => return Fail(UnencodedTrailers);
        case Some(Whole(Data(d))) => buf := buf + d;
      }
    }

    method PollDecode() returns (p: Poll)
      modifies this`inner, this`buf, this`trailers
      ensures var step := if encoding.Base64Text? then PollText(old(State())) else PollPlain(old(State()));
              p == step.out && State() == step.next
    {
      if encoding.Base64Text? {
        p := PollDecodeText();
        return;
      }
      var item := PollInner();
      match item
      case None => return End;
      case Some(Broken(message)) => return Fail(InnerError(message));
      case Some(Whole(frame)) => return Yield(frame);
    }

    method PollEncode() returns (p: Poll)
      requires inner != [] ==> FitsFrame(inner[0])
      modifies this`inner
      ensures EncodeStep(old(State()), encoding, p, State())
    {
      var item := PollInner();
      match item
      case None => return End;
      case Some(Broken(message)) => return Fail(InnerError(message));
      case Some(Whole(Data(d))) =>
        var res := d;
        if encoding.Base64Text? {
          res := Base64.Encode(res, true);
        }
        return Yield(Data(res));
      case Some(Whole(Trailers(m))) =>
        var items := VisitFields(m);
        var res := MakeTrailersFrame(items);
        assert EncodesTo(Trailers(m), encoding, Armoured(res, encoding));
        if encoding.Base64Text? {
          res := Base64.Encode(res, true);
        }
        return Yield(Data(res));
    }

    /** The outcome of looking at the buffer: an answer, or nothing yet. */
    ghost predicate Settled(v: Verdict, answer: Option<Poll>)
      reads this
    {
      match v
      case Again(s) => answer.None? && State() == s
      case Ready(step) => answer == Some(step.out) && State() == step.next
    }

    /** The buffer holds `len` bytes of messages and then the start of a trailers frame. */
    method SettleTrailer(len: nat, eof: bool) returns (answer: Option<Poll>)
      requires len + HEADER_SIZE <= |decoded|
      modifies this`decoded, this`trailers
      ensures Settled(ExamineTrailer(old(State()), len, eof), answer)
    {
      var msg := decoded[..len];
      decoded := decoded[len..];
      var total := FrameTotalLen(decoded);
      if total.Some? && |decoded| >= total.value {
        var frame := decoded[..total.value];
        decoded := decoded[total.value..];
        var r := DecodeTrailersFrame(frame);
        match r
        case Err(e) => return Some(Fail(BadTrailers(e)));
        case Ok(None) =>
        case Ok(Some(t)) => trailers := Some(t);
      } else if eof && msg == [] {
        return Some(Fail(IncompleteTrailers));
      }
      if msg != [] {
        return Some(Yield(Data(msg)));
      } else if trailers.Some? {
        answer := Some(Yield(Trailers(trailers.value)));
        trailers := None;
        return;
      } else if !eof {
        return None;
      }
      return Some(End);
    }

    method Settle(eof: bool) returns (answer: Option<Poll>)
      modifies this`decoded, this`trailers
      ensures Settled(Examine(old(State()), eof), answer)
    {
      var find := FindTrailers(decoded);
      match find
      case InvalidFlag(b) => return Some(Fail(BadFlag(b)));
      case Trailer(len) =>
        answer := SettleTrailer(len, eof);
        return;
      case IncompleteBuf => return if eof then Some(Fail(IncompleteMessage)) else None;
      case Done(len) =>
        if len == 0 {
          if trailers.Some? {
            answer := Some(Yield(Trailers(trailers.value)));
            trailers := None;
            return;
          }
          return if eof then Some(End) else None;
        }
        answer := Some(Yield(Data(decoded[..len])));
        decoded := decoded[len..];
    }

    /** Every turn of the loop takes one inner item; at the end of the body it does not turn again. */
    method PollFrameOfClient() returns (p: Poll)
      requires encoding.Binary?
      modifies this
      ensures var step := PollClient(old(State()));
              p == step.out && State() == step.next
    {
      if decoded == [] && trailers.Some? {
        p := Yield(Trailers(trailers.value));
        trailers := None;
        return;
      }
      while true
        invariant PollLoop(State()) == PollClient(old(State()))
        decreases |inner|
      {
        var incoming := PollDecode();
        var eof := false;
        match incoming {
          case Yield(Data(d)) => decoded := decoded + d;
          case Yield(Trailers(t)) =>
            trailers := match trailers case Some(m) => Some(m + t) case None => Some(t);
            continue;
          case End => eof := true;
          case Fail(e) => return Fail(e);
        }
        ExamineProgress(State(), eof);
        var answer := Settle(eof);
        if answer.Some? {
          return answer.value;
        }
      }
    }

    /** One poll, on either side. */
    method PollFrame() returns (p: Poll)
      requires Valid()
      requires direction.Encode? && inner != [] ==> FitsFrame(inner[0])
      modifies this
      ensures client && direction.Decode? ==>
                p == PollClient(old(State())).out && State() == PollClient(old(State())).next
      ensures !client && direction.Decode? ==>
                var step := if encoding.Base64Text? then PollText(old(State())) else PollPlain(old(State()));
                p == step.out && State() == step.next
      ensures direction.Encode? ==> EncodeStep(old(State()), encoding, p, State())
      ensures direction.Empty? ==> p == End && State() == old(State())
    {
      if client && direction.Decode? {
        p := PollFrameOfClient();
        return;
      }
      match direction
      case Decode => p := PollDecode();
      case Encode => p := PollEncode();
      case Empty => p := End;
    }
  }
}
