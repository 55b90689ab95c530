/** gRPC statuses as HTTP header fields. */
module Status {
  import opened Bytes
  import opened Headers
  import opened Codes
  import Base64
  import Percent

  // "grpc-status", "grpc-message", "grpc-status-details-bin"
  const GRPC_STATUS: Name := [103, 114, 112, 99, 45, 115, 116, 97, 116, 117, 115]
  const GRPC_MESSAGE: Name := [103, 114, 112, 99, 45, 109, 101, 115, 115, 97, 103, 101]
  const GRPC_STATUS_DETAILS: Name :=
    [103, 114, 112, 99, 45, 115, 116, 97, 116, 117, 115, 45, 100, 101, 116, 97, 105, 108, 115, 45, 98, 105, 110]

  // "te", "content-type", "grpc-message-type"
  const TE: Name := [116, 101]
  const CONTENT_TYPE: Name := [99, 111, 110, 116, 101, 110, 116, 45, 116, 121, 112, 101]
  const GRPC_MESSAGE_TYPE: Name := [103, 114, 112, 99, 45, 109, 101, 115, 115, 97, 103, 101, 45, 116, 121, 112, 101]

  const RESERVED: set<Name> := {TE, CONTENT_TYPE, GRPC_MESSAGE, GRPC_MESSAGE_TYPE, GRPC_STATUS}

  /** `message` is the UTF-8 text of the error message. */
  datatype Status = Status(code: Code, message: seq<byte>, details: seq<byte>, metadata: HeaderMap)

  function Number(c: Code): (n: nat)
    ensures n <= 16
  {
    match c
    case Ok => 0
    case Cancelled => 1
    case Unknown => 2
    case InvalidArgument => 3
    case DeadlineExceeded => 4
    case NotFound => 5
    case AlreadyExists => 6
    case PermissionDenied => 7
    case ResourceExhausted => 8
    case FailedPrecondition => 9
    case Aborted => 10
    case OutOfRange => 11
    case Unimplemented => 12
    case Internal => 13
    case Unavailable => 14
    case DataLoss => 15
    case Unauthenticated => 16
  }

  function FromNumber(i: int): (c: Code) {
    match i
    case 0 => Code.Ok
    case 1 => Cancelled
    case 2 => Unknown
    case 3 => InvalidArgument
    case 4 => DeadlineExceeded
    case 5 => NotFound
    case 6 => AlreadyExists
    case 7 => PermissionDenied
    case 8 => ResourceExhausted
    case 9 => FailedPrecondition
    case 10 => Aborted
    case 11 => OutOfRange
    case 12 => Unimplemented
    case 13 => Internal
    case 14 => Unavailable
    case 15 => DataLoss
    case 16 => Unauthenticated
    case _ => Unknown
  }

  /** The code as a header value: its number in decimal. */
  function CodeValue(c: Code): (v: Value) {
    var n := Number(c);
    if n < 10 then [48 + n] else [49, 48 + (n - 10)]
  }

  function CodeFromBytes(b: seq<byte>): (c: Code) {
    if |b| == 1 && 48 <= b[0] <= 57 then FromNumber(b[0] - 48)
    else if |b| == 2 && b[0] == 49 && 48 <= b[1] <= 54 then FromNumber(10 + (b[1] - 48))
    else Unknown
  }

  /** Header text reads back as the code it was written for, and nothing else reads as another code. */
  lemma CodeRoundTrip(c: Code, b: seq<byte>)
    ensures CodeFromBytes(CodeValue(c)) == c
    ensures CodeFromBytes(b) == c && c != Unknown ==> b == CodeValue(c)
  {
    if CodeFromBytes(b) == c && c != Unknown {
      if |b| == 1 {
        assert b == [b[0]];
      } else {
        assert b == [b[0], b[1]];
      }
    }
  }

  // ----- To headers -----

  function Sanitized(m: HeaderMap): (r: HeaderMap) { m - RESERVED }

  function MessageField(s: Status): (m: HeaderMap) {
    if s.message == [] then map[] else map[GRPC_MESSAGE := [Percent.Encode(s.message)]]
  }

  function DetailsField(s: Status): (m: HeaderMap) {
    if s.details == [] then map[] else map[GRPC_STATUS_DETAILS := [Base64.Encode(s.details, false)]]
  }

  function StatusFields(s: Status): (m: HeaderMap) {
    map[GRPC_STATUS := [CodeValue(s.code)]] + MessageField(s) + DetailsField(s)
  }

  lemma MessageIsValue(message: seq<byte>)
    ensures IsValue(Percent.Encode(message))
  {
    Percent.EncodedIsVisible(message);
  }

  lemma DetailsAreValue(details: seq<byte>)
    ensures IsValue(Base64.Encode(details, false))
  {
    Base64.EncodedText(details, false);
  }

  lemma InsertAll(h: HeaderMap, s: Status)
    ensures var h1 := Insert(h, GRPC_STATUS, CodeValue(s.code));
            var h2 := if s.message == [] then h1 else Insert(h1, GRPC_MESSAGE, Percent.Encode(s.message));
            var h3 := if s.details == [] then h2 else Insert(h2, GRPC_STATUS_DETAILS, Base64.Encode(s.details, false));
            h3 == h + StatusFields(s)
  {
    hide Percent.Encode, Base64.Encode, CodeValue;
  }

  /**
    Adds a status to a header map.  The two conversions to header values can be
    refused by the HTTP library; they never are.
   */
  method AddHeader(s: Status, headers: HeaderMap) returns (r: Result<HeaderMap, ()>)
    ensures r == Result.Ok(headers + Sanitized(s.metadata) + StatusFields(s))
  {
    hide Percent.Encode, Base64.Encode, CodeValue, StatusFields;
    var h := headers + Sanitized(s.metadata);
    InsertAll(h, s);
    h := Insert(h, GRPC_STATUS, CodeValue(s.code));
    if s.message != [] {
      var text := Percent.Encode(s.message);
      MessageIsValue(s.message);
      if !IsValue(text) {
        return Err(());
      }
      h := Insert(h, GRPC_MESSAGE, text);
    }
    if s.details != [] {
      var text := Base64.Encode(s.details, false);
      DetailsAreValue(s.details);
      if !IsValue(text) {
        return Err(());
      }
      h := Insert(h, GRPC_STATUS_DETAILS, text);
    }
    return Result.Ok(h);
  }

  function ToHeaders(s: Status): (h: HeaderMap) { Sanitized(s.metadata) + StatusFields(s) }

  method ToHeaderMap(s: Status) returns (r: Result<HeaderMap, ()>)
    ensures r == Result.Ok(ToHeaders(s))
  {
    r := AddHeader(s, map[]);
    assert map[] + Sanitized(s.metadata) == Sanitized(s.metadata);
  }

  // ----- From headers -----

  /** `Panicked`: the details field is not base64 text. */
  datatype Parsed = NoStatus | Panicked | Parsed(status: Status)

  /** Stands for the text that reports a message that is not UTF-8. */
  const BAD_MESSAGE: seq<byte> := [63]

  function ParsedMessage(h: HeaderMap): (r: Option<seq<byte>>) {
    match Get(h, GRPC_MESSAGE)
    case None => Some([])
    case Some(v) => var text := Percent.Decode(v); if Percent.IsUtf8(text) then Some(text) else None
  }

  function ParsedDetails(h: HeaderMap): (r: Option<seq<byte>>) {
    match Get(h, GRPC_STATUS_DETAILS)
    case None => Some([])
    case Some(v) => Base64.Decode(v)
  }

  function Others(h: HeaderMap): (r: HeaderMap) { h - {GRPC_STATUS, GRPC_MESSAGE, GRPC_STATUS_DETAILS} }

  function ParseStatus(h: HeaderMap): (r: Parsed) {
    match Get(h, GRPC_STATUS)
    case None => NoStatus
    case Some(code) =>
      match ParsedDetails(h)
      case None => Panicked
      case Some(details) =>
        match ParsedMessage(h)
        case Some(message) => Parsed(Status(CodeFromBytes(code), message, details, Others(h)))
        case None => Parsed(Status(Unknown, BAD_MESSAGE, details, Others(h)))
  }

  /** Reads the three status fields and removes them, one by one, from a copy of the map. */
  method FromHeaderMap(h: HeaderMap) returns (r: Parsed)
    ensures r == ParseStatus(h)
  {
    var field := Get(h, GRPC_STATUS);
    if field.None? {
      return NoStatus;
    }
    var code := CodeFromBytes(field.value);
    var message := ParsedMessage(h);
    var details := ParsedDetails(h);
    if details.None? {
      return Panicked;
    }
    var others := h;
    others := others - {GRPC_STATUS};
    others := others - {GRPC_MESSAGE};
    others := others - {GRPC_STATUS_DETAILS};
    assert others == Others(h);
    if message.None? {
      code, message := Unknown, Some(BAD_MESSAGE);
    }
    return Parsed(Status(code, message.value, details.value, others));
  }

  // ----- What a reader gets back -----

  lemma NamesDiffer()
    ensures GRPC_STATUS != GRPC_MESSAGE && GRPC_STATUS != GRPC_STATUS_DETAILS && GRPC_MESSAGE != GRPC_STATUS_DETAILS
    ensures GRPC_STATUS_DETAILS !in RESERVED
  {
    assert |GRPC_STATUS| == 11 && |GRPC_MESSAGE| == 12 && |GRPC_STATUS_DETAILS| == 23;
    assert |TE| == 2 && |CONTENT_TYPE| == 12 && |GRPC_MESSAGE_TYPE| == 17;
  }

  /** The metadata that comes back: all but the reserved names and the details field. */
  function Kept(m: HeaderMap): (r: HeaderMap) { m - RESERVED - {GRPC_STATUS_DETAILS} }

  /** A status whose details field is not taken over by a metadata field of the same name. */
  predicate OwnsDetails(s: Status) { s.details != [] || GRPC_STATUS_DETAILS !in s.metadata }

  predicate IsStatus(s: Status) { Percent.IsUtf8(s.message) && IsHeaderMap(s.metadata) }

  lemma FieldsRead(s: Status)
    requires IsStatus(s)
    ensures var h := ToHeaders(s);
            && Get(h, GRPC_STATUS) == Some(CodeValue(s.code))
            && ParsedMessage(h) == Some(s.message)
            && (s.details != [] ==> ParsedDetails(h) == Some(s.details))
            && (s.details == [] ==> ParsedDetails(h) == ParsedDetails(s.metadata))
  {
    NamesDiffer();
    Percent.RoundTrip(s.message);
    Base64.RoundTrip(s.details, false);
    hide Percent.Decode, Percent.Encode, Base64.Decode, Base64.Encode, Percent.IsUtf8, IsHeaderMap, CodeValue;
    assert GRPC_MESSAGE in RESERVED;
  }

  lemma OthersRead(s: Status)
    ensures Others(ToHeaders(s)) == Kept(s.metadata)
  {
    NamesDiffer();
    assert GRPC_STATUS in RESERVED && GRPC_MESSAGE in RESERVED;
    assert Others(ToHeaders(s)).Keys == Kept(s.metadata).Keys;
  }

  /**
    What a reader gets back of a status with any metadata.  Code, message and
    details come back as they were, with one exception: empty details are not
    written, so the first value of a metadata field named like the details field
    is read in their place, and reading panics when it is not base64 text.
   */
  function ReadBack(s: Status): (r: Parsed)
    requires IsStatus(s)
  {
    if OwnsDetails(s) then Parsed(s.(metadata := Kept(s.metadata)))
    else
      match Base64.Decode(s.metadata[GRPC_STATUS_DETAILS][0])
      case None => Panicked
      case Some(d) => Parsed(s.(details := d, metadata := Kept(s.metadata)))
  }

  lemma StatusRoundTrip(s: Status)
    requires IsStatus(s)
    ensures ParseStatus(ToHeaders(s)) == ReadBack(s)
  {
    FieldsRead(s);
    OthersRead(s);
    CodeRoundTrip(s.code, []);
    hide Base64.Decode, ToHeaders, Others, Kept, CodeFromBytes;
  }

  /** The status itself comes back exactly when no metadata value stands in for its empty details. */
  lemma StatusSurvives(s: Status)
    requires IsStatus(s)
    ensures ParseStatus(ToHeaders(s)) == Parsed(s.(metadata := Kept(s.metadata))) <==>
            OwnsDetails(s) || s.metadata[GRPC_STATUS_DETAILS][0] == []
  {
    StatusRoundTrip(s);
    hide Base64.Decode, ParseStatus, ToHeaders, Kept;
    if !OwnsDetails(s) {
      Base64.OnlyEmptyIsEmpty(s.metadata[GRPC_STATUS_DETAILS][0]);
    }
  }

  lemma OnlyDetails(v: Value)
    requires IsValue(v)
    ensures var m := map[GRPC_STATUS_DETAILS := [v]];
            IsHeaderMap(m) && Kept(m) == map[]
  {
    assert IsName(GRPC_STATUS_DETAILS);
  }

  /**
    The documentation says that metadata named like a field of the status is
    ignored.  It is not: the details of this status come back non-empty, and
    those of the second one cannot be read at all.
   */
  lemma DetailsFromMetadata(code: Code)
    ensures var bytes := map[GRPC_STATUS_DETAILS := [Base64.Encode([65], false)]];
            ParseStatus(ToHeaders(Status(code, [], [], bytes))) == Parsed(Status(code, [], [65], map[]))
    ensures var junk := map[GRPC_STATUS_DETAILS := [[33]]];
            ParseStatus(ToHeaders(Status(code, [], [], junk))) == Panicked
  {
    assert Base64.Decode([33]).None?;
    Base64.RoundTrip([65], false);
    DetailsAreValue([65]);
    hide Base64.Decode, Base64.Encode, ParseStatus, ToHeaders, Kept;
    OnlyDetails(Base64.Encode([65], false));
    OnlyDetails([33]);
    StatusRoundTrip(Status(code, [], [], map[GRPC_STATUS_DETAILS := [Base64.Encode([65], false)]]));
    StatusRoundTrip(Status(code, [], [], map[GRPC_STATUS_DETAILS := [[33]]]));
  }

  // ----- The outcome of a call -----

  datatype Outcome = Fine | Failed(status: Status) | FromHttp(code: Code) | Crashed

  /** The code that an HTTP status stands for when there is no gRPC status. */
  function HttpCode(http: nat): (c: Code)
    ensures c in {Internal, Unauthenticated, PermissionDenied, Unimplemented, Unavailable, Unknown}
    ensures (c == Internal <==> http == 400) && (c == Unauthenticated <==> http == 401)
    ensures (c == PermissionDenied <==> http == 403) && (c == Unimplemented <==> http == 404)
    ensures c == Unavailable <==> http in {429, 502, 503, 504}
  {
    match http
    case 400 => Internal
    case 401 => Unauthenticated
    case 403 => PermissionDenied
    case 404 => Unimplemented
    case 429 => Unavailable
    case 502 => Unavailable
    case 503 => Unavailable
    case 504 => Unavailable
    case _ => Unknown
  }

  function InferStatus(trailers: Option<HeaderMap>, http: nat): (o: Outcome) {
    match trailers
    case None => FromHttp(HttpCode(http))
    case Some(h) =>
      match ParseStatus(h)
      case NoStatus => FromHttp(HttpCode(http))
      case Panicked => Crashed
      case Parsed(status) => if status.code == Code.Ok then Fine else Failed(status)
  }

  /** A call is fine exactly when the trailers say "0" and their message and details can be read. */
  lemma FineExactly(trailers: Option<HeaderMap>, http: nat)
    ensures InferStatus(trailers, http) == Fine <==>
            && trailers.Some?
            && Get(trailers.value, GRPC_STATUS) == Some([48])
            && ParsedMessage(trailers.value).Some?
            && ParsedDetails(trailers.value).Some?
  {
    hide ParsedMessage, ParsedDetails;
    if trailers.Some? && Get(trailers.value, GRPC_STATUS).Some? {
      CodeRoundTrip(Code.Ok, Get(trailers.value, GRPC_STATUS).value);
    }
  }

  /**
    On a status's own headers, whatever the HTTP status: fine exactly for the
    code Ok, and otherwise the status as it is read back; no details of its own
    and metadata in their place that is not base64 text make the reader panic.
   */
  lemma InferOwnHeaders(s: Status, http: nat)
    requires IsStatus(s)
    ensures InferStatus(Some(ToHeaders(s)), http) ==
            match ReadBack(s) {
              case Parsed(t) => if s.code == Code.Ok then Fine else Failed(t)
              case _ => Crashed
            }
    ensures OwnsDetails(s) ==> ReadBack(s) == Parsed(s.(metadata := Kept(s.metadata)))
  {
    StatusRoundTrip(s);
    hide Base64.Decode, ToHeaders, ParseStatus, Kept;
  }
}
