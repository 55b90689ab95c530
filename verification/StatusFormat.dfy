/** The status headers in the names, numbers and letters of the protocol. */
module StatusFormat {
  import opened Bytes
  import opened Headers
  import opened Codes
  import opened Status
  import Base64
  import Decimal
  import Percent
  import RichStatus

  /** The codes in the order of the protocol, from 0 up. */
  const CODES: seq<Code> := [
    Code.Ok, Cancelled, Unknown, InvalidArgument, DeadlineExceeded, NotFound, AlreadyExists, PermissionDenied,
    ResourceExhausted, FailedPrecondition, Aborted, OutOfRange, Unimplemented, Internal, Unavailable, DataLoss,
    Unauthenticated
  ]

  lemma CodesAreNumbered(i: nat)
    requires i < 17
    ensures |CODES| == 17 && Number(CODES[i]) == i && FromNumber(i) == CODES[i]
  {
  }

  lemma SmallNumerals(i: nat)
    requires i < 17
    ensures Ascii(Decimal.Print(i)) == if i < 10 then [48 + i] else [49, 48 + (i - 10)]
  {
    if i >= 10 {
      assert Decimal.Print(i / 10) == ['1'];
    }
  }

  /** The header text of the i-th code is the numeral i, and it reads back as that code. */
  lemma CodeTexts(i: nat)
    requires i < 17
    ensures |CODES| == 17 && CodeValue(CODES[i]) == Ascii(Decimal.Print(i))
    ensures CodeFromBytes(Ascii(Decimal.Print(i))) == CODES[i]
  {
    CodesAreNumbered(i);
    SmallNumerals(i);
    hide Number, FromNumber, Decimal.Print, Ascii;
  }

  /** The two modules number the errors alike. */
  lemma OneNumbering(c: RichStatus.ErrorCode)
    ensures RichStatus.ToI32(c) == Number(c)
  {
  }

  lemma HeaderNames()
    ensures GRPC_STATUS == Ascii("grpc-status") && GRPC_MESSAGE == Ascii("grpc-message")
    ensures GRPC_STATUS_DETAILS == Ascii("grpc-status-details-bin")
    ensures RESERVED == {Ascii("te"), Ascii("content-type"), GRPC_MESSAGE, Ascii("grpc-message-type"), GRPC_STATUS}
  {
    assert TE == Ascii("te") && CONTENT_TYPE == Ascii("content-type") && GRPC_MESSAGE_TYPE == Ascii("grpc-message-type");
  }

  /**
    What is written: the code always; the message, percent-encoded, exactly when
    there is one; the details, as base64 without padding, exactly when there are
    any; and of the metadata whatever is not reserved.
   */
  lemma WrittenFields(s: Status, k: Name)
    ensures var h := ToHeaders(s);
            && GRPC_STATUS in h && h[GRPC_STATUS] == [CodeValue(s.code)]
            && (GRPC_MESSAGE in h <==> s.message != [])
            && (s.message != [] ==> h[GRPC_MESSAGE] == [Percent.Encode(s.message)])
            && (GRPC_STATUS_DETAILS in h <==> s.details != [] || GRPC_STATUS_DETAILS in s.metadata)
            && (s.details != [] ==> h[GRPC_STATUS_DETAILS] == [Base64.Encode(s.details, false)])
    ensures var h := ToHeaders(s);
            k !in {GRPC_STATUS, GRPC_MESSAGE, GRPC_STATUS_DETAILS} ==>
              && (k in h <==> k in s.metadata && k !in RESERVED)
              && (k in h ==> h[k] == s.metadata[k])
  {
    NamesDiffer();
    assert GRPC_MESSAGE in RESERVED;
    hide Percent.Encode, Base64.Encode, CodeValue;
  }

  /** Reading any headers, by the first value of each field. */
  lemma ReadFields(h: HeaderMap)
    requires forall k :: k in h ==> h[k] != []
    ensures ParseStatus(h) == NoStatus <==> GRPC_STATUS !in h
    ensures ParseStatus(h) == Panicked <==>
            GRPC_STATUS in h && GRPC_STATUS_DETAILS in h && Base64.Decode(h[GRPC_STATUS_DETAILS][0]).None?
    ensures ParseStatus(h).Parsed? ==>
              var s := ParseStatus(h).status;
              && s.details == (if GRPC_STATUS_DETAILS in h then Base64.Decode(h[GRPC_STATUS_DETAILS][0]).value else [])
              && s.metadata == h - {GRPC_STATUS, GRPC_MESSAGE, GRPC_STATUS_DETAILS}
              && if GRPC_MESSAGE !in h then s.code == CodeFromBytes(h[GRPC_STATUS][0]) && s.message == []
                 else
                   var text := Percent.Decode(h[GRPC_MESSAGE][0]);
                   if Percent.IsUtf8(text) then s.code == CodeFromBytes(h[GRPC_STATUS][0]) && s.message == text
                   else s.code == Unknown
  {
    hide Percent.Decode, Percent.IsUtf8, Base64.Decode, CodeFromBytes;
  }

  /** Without a gRPC status the HTTP status decides; with one it plays no part. */
  lemma InferredOutcome(trailers: Option<HeaderMap>, http: nat)
    ensures trailers.None? || Get(trailers.value, GRPC_STATUS).None? ==>
              InferStatus(trailers, http) ==
              FromHttp(if http == 400 then Internal
                       else if http == 401 then Unauthenticated
                       else if http == 403 then PermissionDenied
                       else if http == 404 then Unimplemented
                       else if http in {429, 502, 503, 504} then Unavailable
                       else Unknown)
    ensures trailers.Some? && Get(trailers.value, GRPC_STATUS).Some? ==>
              match ParseStatus(trailers.value) {
                case NoStatus => false
                case Panicked => InferStatus(trailers, http) == Crashed
                case Parsed(s) => InferStatus(trailers, http) == if s.code == Code.Ok then Fine else Failed(s)
              }
  {
    hide ParsedMessage, ParsedDetails, CodeFromBytes;
  }
}
