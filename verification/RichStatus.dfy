/** Statuses with payloads, carried as a serialized `google.rpc.Status` in binary metadata. */
module RichStatus {
  import opened Bytes
  import Codes
  import Percent

  type ErrorCode = c: Codes.Code | c != Codes.Ok witness Codes.Unknown

  function FromI32(i: int): (c: ErrorCode) {
    match i
    case 1 => Codes.Cancelled
    case 3 => Codes.InvalidArgument
    case 4 => Codes.DeadlineExceeded
    case 5 => Codes.NotFound
    case 6 => Codes.AlreadyExists
    case 7 => Codes.PermissionDenied
    case 8 => Codes.ResourceExhausted
    case 9 => Codes.FailedPrecondition
    case 10 => Codes.Aborted
    case 11 => Codes.OutOfRange
    case 12 => Codes.Unimplemented
    case 13 => Codes.Internal
    case 14 => Codes.Unavailable
    case 15 => Codes.DataLoss
    case 16 => Codes.Unauthenticated
    case _ => Codes.Unknown
  }

  function ToI32(c: ErrorCode): (i: int)
    ensures 1 <= i <= 16 && FromI32(i) == c
  {
    match c
    case Cancelled => 1
    case Unknown => 2
    case InvalidArgument => 3
    case DeadlineExceeded => 4
    case NotFound => 5
    case AlreadyExists => 6
    case PermissionDenied => 7
    case ResourceExhausted => 8
    case FailedPrecondition => 9
    case Aborted => 10
    case OutOfRange => 11
    case Unimplemented => 12
    case Internal => 13
    case Unavailable => 14
    case DataLoss => 15
    case Unauthenticated => 16
  }

  type Bytestring = seq<byte>

  function CodeName(c: ErrorCode): (name: string) {
    match c
    case Cancelled => "Cancelled"
    case Unknown => "Unknown"
    case InvalidArgument => "InvalidArgument"
    case DeadlineExceeded => "DeadlineExceeded"
    case NotFound => "NotFound"
    case AlreadyExists => "AlreadyExists"
    case PermissionDenied => "PermissionDenied"
    case ResourceExhausted => "ResourceExhausted"
    case FailedPrecondition => "FailedPrecondition"
    case Aborted => "Aborted"
    case OutOfRange => "OutOfRange"
    case Unimplemented => "Unimplemented"
    case Internal => "Internal"
    case Unavailable => "Unavailable"
    case DataLoss => "DataLoss"
    case Unauthenticated => "Unauthenticated"
  }

  const DETAILS_WITH_OK := Ascii("grpc-status-details-bin metadata cannot be present when gRPC status code is OK")
  const DETAILS_SAY_OK := Ascii("grpc-status-details-bin status code was OK, but should always be an error")
  const UNPARSABLE := Ascii("Failed to parse grpc-status-details-bin: ")
  const UNSERIALIZABLE := Ascii("Failed to serialize grpc-status-details-bin: ")

  function CodeMismatch(expected: ErrorCode, actual: ErrorCode): (message: Bytestring) {
    Ascii("RPC status code mismatch: gRPC code " + CodeName(expected) + ", google.rpc.Code " + CodeName(actual))
  }

  /** The value of a status error. */
  datatype ErrorView = ErrorView(code: ErrorCode, message: Bytestring, payloads: map<Bytestring, Bytestring>)

  function NewError(code: ErrorCode, message: Bytestring): (e: ErrorView) { ErrorView(code, message, map[]) }

  datatype Any = Any(typeUrl: Bytestring, value: Bytestring)

  datatype RpcStatus = RpcStatus(code: int, message: Bytestring, details: seq<Any>)

  /** Protobuf strings are UTF-8; the code is a 32-bit integer. */
  predicate IsRpcStatus(s: RpcStatus) {
    && -0x8000_0000 <= s.code < 0x8000_0000
    && Percent.IsUtf8(s.message)
    && forall i :: 0 <= i < |s.details| ==> Percent.IsUtf8(s.details[i].typeUrl)
  }

  /** The protobuf runtime. */
  datatype Codec = Codec(serialize: RpcStatus -> Option<Bytestring>, parse: Bytestring -> Option<RpcStatus>)

  ghost predicate IsLossless(codec: Codec) {
    forall s: RpcStatus :: IsRpcStatus(s) ==>
      codec.serialize(s).Some? && codec.parse(codec.serialize(s).value) == Some(s)
  }

  const DETAILS_KEY := "grpc-status-details-bin"

  datatype GrpcStatus = Fine | Failed(code: ErrorCode, message: Bytestring)

  datatype Trailers = Trailers(status: GrpcStatus, metadata: map<string, Bytestring>)

  // ----- Reading -----

  /** Sets the payloads one after the other; a repeated type URL keeps the last. */
  function SetAll(payloads: map<Bytestring, Bytestring>, details: seq<Any>): (r: map<Bytestring, Bytestring>)
    decreases |details|
  {
    if details == [] then payloads else SetAll(payloads[details[0].typeUrl := details[0].value], details[1..])
  }

  function ParseRpc(codec: Codec, buf: Bytestring): (r: Result<ErrorView, ErrorView>) {
    match codec.parse(buf)
    case None => Err(NewError(Codes.Internal, UNPARSABLE))
    case Some(rpc) =>
      if rpc.code == 0 then Err(NewError(Codes.Internal, DETAILS_SAY_OK))
      else Ok(ErrorView(FromI32(rpc.code), rpc.message, SetAll(map[], rpc.details)))
  }

  /** The status that trailers stand for. */
  function StatusOf(codec: Codec, t: Trailers): (r: Result<(), ErrorView>) {
    var details := if DETAILS_KEY in t.metadata then Some(t.metadata[DETAILS_KEY]) else None;
    match t.status
    case Fine => if details.Some? then Err(NewError(Codes.Internal, DETAILS_WITH_OK)) else Ok(())
    case Failed(code, message) =>
      match details
      case None => Err(NewError(code, message))
      case Some(buf) =>
        match ParseRpc(codec, buf)
        case Err(e) => Err(e)
        case Ok(e) => if e.code != code then Err(NewError(Codes.Internal, CodeMismatch(code, e.code))) else Err(e)
  }

  // ----- Writing -----

  /** `items` are the entries of `m`, in some order. */
  predicate IsEntries(items: seq<(Bytestring, Bytestring)>, m: map<Bytestring, Bytestring>) {
    && (forall i, j :: 0 <= i < j < |items| ==> items[i].0 != items[j].0)
    && (forall i :: 0 <= i < |items| ==> items[i].0 in m && m[items[i].0] == items[i].1)
    && (forall k :: k in m ==> exists i :: 0 <= i < |items| && items[i].0 == k)
  }

  /** One detail per entry; entries whose type URL is not UTF-8 are skipped. */
  function DetailsOf(items: seq<(Bytestring, Bytestring)>): (r: seq<Any>) {
    if items == [] then []
    else (if Percent.IsUtf8(items[0].0) then [Any(items[0].0, items[0].1)] else []) + DetailsOf(items[1..])
  }

  /** What a status becomes, with its payloads visited in the order of `items`. */
  function TrailersOf(codec: Codec, e: ErrorView, items: seq<(Bytestring, Bytestring)>): (t: Trailers) {
    if e.payloads == map[] then Trailers(Failed(e.code, e.message), map[])
    else
      match codec.serialize(RpcStatus(ToI32(e.code), e.message, DetailsOf(items)))
      case None => Trailers(Failed(Codes.Internal, UNSERIALIZABLE), map[])
      case Some(b) => Trailers(Failed(e.code, e.message), map[DETAILS_KEY := b])
  }

  // ----- The source's loops -----

  class StatusError {
    const code: ErrorCode
    const message: Bytestring
    var payloads: map<Bytestring, Bytestring>

    function View(): (e: ErrorView)
      reads this
    {
      ErrorView(code, message, payloads)
    }

    constructor (code: ErrorCode, message: Bytestring)
      ensures View() == NewError(code, message)
    {
      this.code, this.message, payloads := code, message, map[];
    }

    function GetPayload(typeUrl: Bytestring): (r: Option<Bytestring>)
      reads this
    {
      if typeUrl in payloads then Some(payloads[typeUrl]) else None
    }

    method SetPayload(typeUrl: Bytestring, payload: Bytestring)
      modifies this
      ensures payloads == old(payloads)[typeUrl := payload]
      ensures GetPayload(typeUrl) == Some(payload)
      ensures forall k :: k != typeUrl ==> GetPayload(k) == old(GetPayload(k))
    {
      payloads := payloads[typeUrl := payload];
    }
  }

  method ParseRpcStatus(codec: Codec, buf: Bytestring) returns (r: Result<StatusError, StatusError>)
    ensures r.Ok? ==> fresh(r.value) && ParseRpc(codec, buf) == Ok(r.value.View())
    ensures r.Err? ==> fresh(r.error) && ParseRpc(codec, buf) == Err(r.error.View())
  {
    var parsed := codec.parse(buf);
    if parsed.None? {
      var e := new StatusError(Codes.Internal, UNPARSABLE);
      return Err(e);
    }
    var rpc := parsed.value;
    if rpc.code == 0 {
      var e := new StatusError(Codes.Internal, DETAILS_SAY_OK);
      return Err(e);
    }
    var e := new StatusError(FromI32(rpc.code), rpc.message);
    assert rpc.details[0..] == rpc.details;
    for i := 0 to |rpc.details|
      invariant SetAll(e.payloads, rpc.details[i..]) == SetAll(map[], rpc.details)
    {
      assert rpc.details[i..][1..] == rpc.details[i + 1..];
      e.SetPayload(rpc.details[i].typeUrl, rpc.details[i].value);
    }
    return Ok(e);
  }

  method StatusFromTrailers(codec: Codec, t: Trailers) returns (r: Result<(), StatusError>)
    ensures r.Ok? ==> StatusOf(codec, t) == Ok(())
    ensures r.Err? ==> fresh(r.error) && StatusOf(codec, t) == Err(r.error.View())
  {
    var bin := if DETAILS_KEY in t.metadata then Some(t.metadata[DETAILS_KEY]) else None;
    match t.status
    case Fine =>
      if bin.Some? {
        var e := new StatusError(Codes.Internal, DETAILS_WITH_OK);
        return Err(e);
      }
      return Ok(());
    case Failed(code, message) =>
      if bin.None? {
        var e := new StatusError(code, message);
        return Err(e);
      }
      var parsed := ParseRpcStatus(codec, bin.value);
      if parsed.Err? {
        return Err(parsed.error);
      }
      if parsed.value.code != code {
        var e := new StatusError(Codes.Internal, CodeMismatch(code, parsed.value.code));
        return Err(e);
      }
      return Err(parsed.value);
  }

  lemma {:induction false} DetailsOfConcat(a: seq<(Bytestring, Bytestring)>, b: seq<(Bytestring, Bytestring)>)
    ensures DetailsOf(a + b) == DetailsOf(a) + DetailsOf(b)
  {
    hide Percent.IsUtf8;
    if a == [] {
      assert a + b == b;
    } else {
      DetailsOfConcat(a[1..], b);
      TailOfConcat(a, b);
    }
  }

  method EncodeRpcStatus(codec: Codec, code: int, message: Bytestring, payloads: seq<(Bytestring, Bytestring)>)
    returns (r: Option<Bytestring>)
    ensures r == codec.serialize(RpcStatus(code, message, DetailsOf(payloads)))
  {
    hide Percent.IsUtf8;
    var details := [];
    for i := 0 to |payloads|
      invariant details == DetailsOf(payloads[..i])
    {
      assert payloads[..i + 1] == payloads[..i] + [payloads[i]];
      DetailsOfConcat(payloads[..i], [payloads[i]]);
      if !Percent.IsUtf8(payloads[i].0) {
        continue;
      }
      details := details + [Any(payloads[i].0, payloads[i].1)];
    }
    assert payloads[..|payloads|] == payloads;
    r := codec.serialize(RpcStatus(code, message, details));
  }

  /** The payloads as a list; the order is that of the map's own iterator. */
  method IntoEntries(m: map<Bytestring, Bytestring>) returns (items: seq<(Bytestring, Bytestring)>)
    ensures IsEntries(items, m)
  {
    items := [];
    var rest := m.Keys;
    while rest != {}
      invariant rest <= m.Keys
      invariant IsEntries(items, m - rest)
      decreases rest
    {
      var k :| k in rest;
      AddEntry(items, m, rest, k);
      items := items + [(k, m[k])];
      rest := rest - {k};
    }
    assert m - {} == m;
  }

  lemma AddEntry(items: seq<(Bytestring, Bytestring)>, m: map<Bytestring, Bytestring>, rest: set<Bytestring>, k: Bytestring)
    requires k in rest && k in m && IsEntries(items, m - rest)
    ensures IsEntries(items + [(k, m[k])], m - (rest - {k}))
  {
    var more := items + [(k, m[k])];
    forall j | j in m - (rest - {k}) ensures exists i :: 0 <= i < |more| && more[i].0 == j {
      if j == k {
        assert more[|items|].0 == k;
      } else {
        assert j in m - rest;
        var i :| 0 <= i < |items| && items[i].0 == j;
        assert more[i].0 == j;
      }
    }
  }

  method TrailersFromStatus(codec: Codec, s: Result<(), StatusError>) returns (t: Trailers)
    ensures s.Ok? ==> t == Trailers(Fine, map[])
    ensures s.Err? ==> exists items :: IsEntries(items, s.error.payloads) && t == TrailersOf(codec, s.error.View(), items)
  {
    if s.Ok? {
      return Trailers(Fine, map[]);
    }
    var e := s.error;
    var items := IntoEntries(e.payloads);
    var m := map[];
    if e.payloads != map[] {
      var bytes := EncodeRpcStatus(codec, ToI32(e.code), e.message, items);
      if bytes.None? {
        t := Trailers(Failed(Codes.Internal, UNSERIALIZABLE), map[]);
        assert t == TrailersOf(codec, e.View(), items);
        return;
      }
      m := m[DETAILS_KEY := bytes.value];
    }
    t := Trailers(Failed(FromI32(ToI32(e.code)), e.message), m);
    assert t == TrailersOf(codec, e.View(), items);
  }

  // ----- Laws -----

  /** What setting all details leaves under a key that they hold at most once. */
  lemma {:induction false} SetAllMeaning(p: map<Bytestring, Bytestring>, items: seq<(Bytestring, Bytestring)>, k: Bytestring)
    requires forall i, j :: 0 <= i < j < |items| ==> items[i].0 != items[j].0
    ensures var r := SetAll(p, DetailsOf(items));
            && (forall i :: 0 <= i < |items| && items[i].0 == k && Percent.IsUtf8(k) ==> k in r && r[k] == items[i].1)
            && ((forall i :: 0 <= i < |items| && items[i].0 == k ==> !Percent.IsUtf8(k)) ==>
                  (k in r <==> k in p) && (k in p ==> r[k] == p[k]))
    decreases |items|
  {
    hide Percent.IsUtf8;
    if items != [] {
      var rest := DetailsOf(items[1..]);
      var head := items[0];
      if Percent.IsUtf8(head.0) {
        assert DetailsOf(items)[1..] == rest;
        SetAllMeaning(p[head.0 := head.1], items[1..], k);
      } else {
        assert DetailsOf(items) == rest;
        SetAllMeaning(p, items[1..], k);
      }
    }
  }

  /** The payloads that survive: those whose type URL is UTF-8. */
  function Utf8Payloads(p: map<Bytestring, Bytestring>): (r: map<Bytestring, Bytestring>) {
    map k | k in p && Percent.IsUtf8(k) :: p[k]
  }

  lemma PayloadsReadBack(p: map<Bytestring, Bytestring>, items: seq<(Bytestring, Bytestring)>)
    requires IsEntries(items, p)
    ensures SetAll(map[], DetailsOf(items)) == Utf8Payloads(p)
  {
    hide Percent.IsUtf8, DetailsOf, SetAll;
    var r := SetAll(map[], DetailsOf(items));
    forall k ensures (k in r <==> k in Utf8Payloads(p)) && (k in r ==> r[k] == Utf8Payloads(p)[k]) {
      SetAllMeaning(map[], items, k);
      if k in p {
        var i :| 0 <= i < |items| && items[i].0 == k;
      }
    }
    assert r == Utf8Payloads(p);
  }

  lemma {:induction false} DetailsAreUtf8(items: seq<(Bytestring, Bytestring)>)
    ensures forall i :: 0 <= i < |DetailsOf(items)| ==> Percent.IsUtf8(DetailsOf(items)[i].typeUrl)
  {
    hide Percent.IsUtf8;
    if items != [] {
      DetailsAreUtf8(items[1..]);
    }
  }

  /**
    Given a lossless protobuf runtime, a status error comes back from its
    trailers with its code, its message and exactly the payloads whose type URL
    is UTF-8, whatever order the payloads were visited in.
   */
  lemma RichRoundTrip(codec: Codec, e: ErrorView, items: seq<(Bytestring, Bytestring)>)
    requires IsLossless(codec) && Percent.IsUtf8(e.message)
    requires IsEntries(items, e.payloads)
    ensures StatusOf(codec, Trailers(Fine, map[])) == Ok(())
    ensures StatusOf(codec, TrailersOf(codec, e, items)) == Err(e.(payloads := Utf8Payloads(e.payloads)))
  {
    hide Percent.IsUtf8, DetailsOf, SetAll;
    PayloadsReadBack(e.payloads, items);
    DetailsAreUtf8(items);
    var rpc := RpcStatus(ToI32(e.code), e.message, DetailsOf(items));
    assert IsRpcStatus(rpc);
    if e.payloads == map[] {
      assert Utf8Payloads(e.payloads) == map[];
    }
  }

  /** The number `i` in a serialized status stands for `code`; numbers of no code stand for Unknown. */
  predicate Agrees(code: ErrorCode, i: int) {
    i == ToI32(code) || (code == Codes.Unknown && (i < 0 || i > 16))
  }

  lemma AgreesExactly(code: ErrorCode, i: int)
    requires i != 0
    ensures FromI32(i) == code <==> Agrees(code, i)
  {
  }

  /** Details that cannot be believed: not a status, a status that says OK, or one with another code. */
  predicate Unbelievable(code: ErrorCode, rpc: Option<RpcStatus>) {
    rpc.None? || rpc.value.code == 0 || !Agrees(code, rpc.value.code)
  }

  /**
    Arbitrary trailers.  The result is Ok exactly when they say so and carry no
    details; details beside Ok, or details that cannot be believed, are an
    Internal error without payloads; believable details replace the message and
    bring the payloads; without details the error is the trailers' own.
   */
  lemma ArbitraryTrailers(codec: Codec, t: Trailers)
    ensures var r := StatusOf(codec, t);
            match t.status {
              case Fine =>
                if DETAILS_KEY !in t.metadata then r == Ok(())
                else r.Err? && r.error.code == Codes.Internal && r.error.payloads == map[]
              case Failed(code, message) =>
                if DETAILS_KEY !in t.metadata then r == Err(ErrorView(code, message, map[]))
                else
                  var rpc := codec.parse(t.metadata[DETAILS_KEY]);
                  if Unbelievable(code, rpc) then r.Err? && r.error.code == Codes.Internal && r.error.payloads == map[]
                  else r == Err(ErrorView(code, rpc.value.message, SetAll(map[], rpc.value.details)))
            }
    ensures var r := StatusOf(codec, t);
            r.Err? ==> r.error.code == Codes.Internal || (t.status.Failed? && r.error.code == t.status.code)
  {
    hide SetAll, FromI32, ToI32, Agrees, CodeMismatch;
    if t.status.Failed? && DETAILS_KEY in t.metadata {
      var rpc := codec.parse(t.metadata[DETAILS_KEY]);
      if rpc.Some? && rpc.value.code != 0 {
        AgreesExactly(t.status.code, rpc.value.code);
      }
    }
  }

  /** The payload under a type URL is the value of the last detail with that URL. */
  lemma {:induction false} LastDetailCounts(p: map<Bytestring, Bytestring>, details: seq<Any>, i: nat)
    requires i < |details| && forall j :: i < j < |details| ==> details[j].typeUrl != details[i].typeUrl
    ensures details[i].typeUrl in SetAll(p, details) && SetAll(p, details)[details[i].typeUrl] == details[i].value
    decreases |details|
  {
    var q, rest := p[details[0].typeUrl := details[0].value], details[1..];
    if i > 0 {
      LastDetailCounts(q, rest, i - 1);
    } else {
      OtherDetails(q, rest, details[0].typeUrl);
    }
  }

  /** A type URL of no detail keeps what it had. */
  lemma {:induction false} OtherDetails(p: map<Bytestring, Bytestring>, details: seq<Any>, k: Bytestring)
    requires forall j :: 0 <= j < |details| ==> details[j].typeUrl != k
    ensures (k in SetAll(p, details) <==> k in p) && (k in p ==> SetAll(p, details)[k] == p[k])
    decreases |details|
  {
    if details != [] {
      OtherDetails(p[details[0].typeUrl := details[0].value], details[1..], k);
    }
  }

  /** What goes out for an error: its code and message, and details exactly when it has payloads. */
  lemma WrittenTrailers(codec: Codec, e: ErrorView, items: seq<(Bytestring, Bytestring)>)
    ensures var t, details := TrailersOf(codec, e, items), codec.serialize(RpcStatus(ToI32(e.code), e.message, DetailsOf(items)));
            if e.payloads != map[] && details.None? then t.status.Failed? && t.status.code == Codes.Internal && t.metadata == map[]
            else
              && t.status == Failed(e.code, e.message)
              && (DETAILS_KEY in t.metadata <==> e.payloads != map[])
              && (e.payloads != map[] ==> t.metadata[DETAILS_KEY] == details.value)
    ensures DETAILS_KEY == "grpc-status-details-bin"
  {
    hide DetailsOf, ToI32;
  }
}
