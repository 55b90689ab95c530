/** A status that travels as trailers of a gRPC-Web body. */
module StatusOverWeb {
  import opened Bytes
  import opened Headers
  import opened WebFrame
  import opened TrailerBlock
  import opened WebCall
  import opened WebDecode
  import opened WebChunking
  import opened WebEncode
  import opened Status
  import Base64
  import Percent
  import Codes

  /** No custom metadata. */
  predicate IsBare(s: Status) { s.metadata == map[] }

  lemma CodeIsPlain(s: Status)
    ensures IsPlain([CodeValue(s.code)]) && IsValue(CodeValue(s.code))
  {
  }

  lemma MessageIsPlain(message: seq<byte>)
    ensures IsPlain([Percent.Encode(message)])
  {
    Percent.EncodedIsVisible(message);
    hide Percent.Encode;
  }

  lemma DetailsArePlain(details: seq<byte>)
    ensures IsPlain([Base64.Encode(details, false)])
  {
    Base64.EncodedText(details, false);
    hide Base64.Encode;
  }

  lemma NamesAreNames()
    ensures IsName(GRPC_STATUS) && IsName(GRPC_MESSAGE) && IsName(GRPC_STATUS_DETAILS)
  {
  }

  lemma FieldValid(s: Status, k: Name)
    requires k in StatusFields(s)
    ensures IsName(k) && IsPlain(StatusFields(s)[k]) && IsValue(StatusFields(s)[k][0])
  {
    NamesAreNames();
    NamesDiffer();
    CodeIsPlain(s);
    MessageIsPlain(s.message);
    MessageIsValue(s.message);
    DetailsArePlain(s.details);
    DetailsAreValue(s.details);
    hide IsName, IsValue, CodeValue, Percent.Encode, Base64.Encode;
  }

  /** The status fields are valid header fields, one plain value each. */
  lemma FieldsArePlain(s: Status)
    ensures IsHeaderMap(StatusFields(s))
    ensures forall k :: k in StatusFields(s) ==> IsPlain(StatusFields(s)[k])
  {
    forall k | k in StatusFields(s)
      ensures IsName(k) && IsPlain(StatusFields(s)[k]) && IsValue(StatusFields(s)[k][0])
    {
      FieldValid(s, k);
    }
    hide StatusFields, IsName, IsValue;
  }

  lemma HeadersValid(s: Status)
    requires IsHeaderMap(s.metadata)
    ensures IsHeaderMap(ToHeaders(s))
  {
    FieldsArePlain(s);
    hide StatusFields, IsName, IsValue;
  }

  lemma CarriedAt(m: HeaderMap, k: Name)
    requires forall j :: j in m ==> m[j] != []
    ensures k in Carried(m) <==> k in m
    ensures k in m ==> Carried(m)[k] == [TrimStart(Last(m[k]))]
  {
    hide TrimStart, Last;
  }

  predicate HasValues(m: HeaderMap) { forall k :: k in m ==> m[k] != [] }

  lemma OverlayAt(m: HeaderMap, f: HeaderMap, k: Name)
    requires HasValues(m) && HasValues(f) && Carried(f) == f
    ensures HasValues(m + f)
    ensures var a, b := Carried(m + f), Carried(m) + f;
            (k in a <==> k in b) && (k in a ==> a[k] == b[k])
  {
    hide TrimStart, Last, Carried;
    CarriedAt(m + f, k);
    CarriedAt(m, k);
    CarriedAt(f, k);
  }

  lemma SameMap(a: HeaderMap, b: HeaderMap)
    requires forall k :: k in a <==> k in b
    requires forall k :: k in a ==> a[k] == b[k]
    ensures a == b
  {
  }

  lemma CarriedOverlay(m: HeaderMap, f: HeaderMap)
    requires HasValues(m) && HasValues(f) && Carried(f) == f
    ensures HasValues(m + f) && Carried(m + f) == Carried(m) + f
  {
    OverlayAt(m, f, []);
    var a, b := Carried(m + f), Carried(m) + f;
    forall k ensures k in a <==> k in b {
      OverlayAt(m, f, k);
    }
    forall k | k in a ensures a[k] == b[k] {
      OverlayAt(m, f, k);
    }
    hide Carried, HasValues;
    SameMap(a, b);
  }

  lemma CarriedHeaders(s: Status)
    requires IsHeaderMap(s.metadata)
    ensures IsHeaderMap(ToHeaders(s))
    ensures Carried(ToHeaders(s)) == Carried(Sanitized(s.metadata)) + StatusFields(s)
  {
    HeadersValid(s);
    FieldsArePlain(s);
    hide StatusFields, IsName, IsValue, IsPlain, Carried;
    CarriedExactly(StatusFields(s));
    CarriedOverlay(Sanitized(s.metadata), StatusFields(s));
  }

  lemma CarriedIsHeaderMap(m: HeaderMap)
    requires IsHeaderMap(m)
    ensures IsHeaderMap(Carried(m))
  {
    forall k | k in m ensures IsValue(TrimStart(Last(m[k]))) {
      TrimmedIsValue(Last(m[k]));
    }
    hide TrimStart, IsValue, IsName;
  }

  lemma CarriedSanitized(m: HeaderMap)
    requires IsHeaderMap(m)
    ensures Carried(Sanitized(m)) == Sanitized(Carried(m)) && Carried(Kept(m)) == Kept(Carried(m))
  {
  }

  /** The status with the metadata that a trailers frame carries. */
  function CarriedStatus(s: Status): (r: Status)
    requires IsStatus(s)
  {
    s.(metadata := Carried(s.metadata))
  }

  lemma CarriedIsStatus(s: Status)
    requires IsStatus(s)
    ensures IsHeaderMap(ToHeaders(s)) && IsStatus(CarriedStatus(s))
    ensures Carried(ToHeaders(s)) == ToHeaders(CarriedStatus(s))
    ensures OwnsDetails(CarriedStatus(s)) <==> OwnsDetails(s)
    ensures Carried(Kept(s.metadata)) == Kept(CarriedStatus(s).metadata)
  {
    CarriedHeaders(s);
    CarriedIsHeaderMap(s.metadata);
    CarriedSanitized(s.metadata);
    hide StatusFields, IsHeaderMap, Percent.IsUtf8, TrimStart, Sanitized, Kept;
  }

  /**
    After the trip through a trailers frame, the code, the message and details
    of its own are exactly those of the status; of each metadata name, the last
    value arrives, without leading whitespace.  That value, not the first one,
    is also what stands in for empty details.
   */
  lemma StatusThroughFrame(s: Status, items: seq<(Name, Value)>)
    requires IsStatus(s)
    requires IsIteration(items, ToHeaders(s)) && |EncodeTrailers(items)| < 0x1_0000_0000
    ensures IsStatus(CarriedStatus(s))
    ensures exists h :: DecodeFrame(MakeTrailersFrame(items)) == Ok(Some(h)) && ParseStatus(h) == ReadBack(CarriedStatus(s))
    ensures OwnsDetails(s) ==> ReadBack(CarriedStatus(s)) == Parsed(s.(metadata := Carried(Kept(s.metadata))))
    ensures ReadBack(CarriedStatus(s)) == Parsed(s.(metadata := Carried(Kept(s.metadata)))) <==>
            OwnsDetails(s) || TrimStart(Last(s.metadata[GRPC_STATUS_DETAILS])) == []
  {
    CarriedHeaders(s);
    CarriedIsStatus(s);
    var t := CarriedStatus(s);
    FrameRoundTrip(ToHeaders(s), items);
    hide DecodeFrame, MakeTrailersFrame, EncodeTrailers, IsIteration, ParseStatus, ToHeaders, IsStatus, Kept, TrimStart,
      Base64.Decode, StatusFields;
    StatusRoundTrip(t);
    StatusSurvives(t);
  }

  lemma BareHeaders(s: Status)
    requires IsBare(s) && Percent.IsUtf8(s.message)
    ensures IsHeaderMap(ToHeaders(s)) && ParseStatus(ToHeaders(s)) == Parsed(s)
    ensures forall k :: k in ToHeaders(s) ==> IsPlain(ToHeaders(s)[k])
  {
    FieldsArePlain(s);
    StatusRoundTrip(s);
    assert Sanitized(s.metadata) == map[] && Kept(s.metadata) == map[];
    assert ToHeaders(s) == StatusFields(s);
    hide StatusFields, ParseStatus, IsHeaderMap, IsPlain, Percent.IsUtf8;
  }

  /**
    A bare status at the end of a response survives the whole way: encoding,
    any cutting into chunks, client decoding, and reading the trailers; the call
    is fine exactly when its code is Ok, whatever the HTTP status.
   */
  lemma StatusEndToEnd(s: Status, ds: seq<seq<byte>>, sent: seq<Poll>, cs: seq<seq<byte>>, http: nat)
    requires IsBare(s) && Percent.IsUtf8(s.message) && IsMessages(Flatten(ds))
    requires IsEncodeRun(Response(ds, ToHeaders(s)), Binary, sent)
    requires Flatten(cs) == DataBytes(sent)
    ensures DeliversAll(Run(Start(Chunks(cs))), Flatten(ds), ToHeaders(s))
    ensures ParseStatus(ToHeaders(s)) == Parsed(s)
    ensures InferStatus(Some(ToHeaders(s)), http) == if s.code == Codes.Ok then Fine else Failed(s)
  {
    hide IsMessages, IsHeaderMap, IsEncodeRun, Run, DataBytes, Flatten, DeliversAll, ParseStatus, Percent.IsUtf8,
      ToHeaders, IsPlain, IsBare, Response;
    BareHeaders(s);
    EndToEndExact(ds, ToHeaders(s), sent, cs);
  }
}
