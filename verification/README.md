# grpc-rust: a verified model of its wire codecs, control plane and attribute list

The project models five parts of the repository and proves, for all inputs and
all runs, what they promise.

- **The gRPC-Web body codec** (`WebFrame`, `TrailerBlock`, `FrameFormat`,
  `Base64`, `Base64Exact`, `WebCall`, `WebDecode`, `WebChunking`, `WebEdges`,
  `WebTruncation`, `WebConserve`, `WebText`, `WebEncode`, `GrpcWebCall`).
  A `GrpcWebCall` pulls HTTP chunks of any size and must emit whole gRPC messages
  and then one trailers frame. `GrpcWebCall.Call` is the mutable object; each of
  its methods is proved equal to a step function in `WebCall`, and the theorems
  are about whole runs of those steps. The inner body is a finite sequence of
  frames and errors that goes on answering "end" after its last one.
- **Statuses** (`Percent`, `TextFormat`, `Status`, `StatusFormat`,
  `StatusOverWeb`, `RichStatus`): the printer and parser of `grpc-status`,
  `grpc-message` and `grpc-status-details-bin`, alone, through an in-body
  trailers frame, and with typed payloads.
- **The request timeout** (`Decimal`, `Timeout`): unit selection under the
  8-digit limit, read back by the server's own parser.
- **Persistent attributes** (`Attributes`, `AttributesOrder`): a shared linked
  list of heap nodes that behaves as a map from type to latest value.
- **The ADS test control plane** (`ControlPlane`, `ControlPlaneLaws`,
  `ControlPlaneHistory`, `ControlPlaneRequests`, `AdsServer`): a transition
  system over any number of streams, types and names; `AdsServer.Server` is the
  mutable object, proved against its steps.

The modules `FrameFormat`, `Base64Exact`, `TextFormat` and `StatusFormat` state
the wire formats in literal bytes, letters and names, apart from the functions
that write and read them.

`Headers` holds the HTTP library's rules for header names and values; a header
map is a map from lower-case names to non-empty value lists, and its iteration
order is left open (`IsIteration`).

Where the code and what is said about it differ, the model follows the code:

- The comment at `tonic/src/status.rs:73-76` says that metadata under the name
  of a status field is ignored. `grpc-status-details-bin` is not among the
  reserved names (`tonic/src/metadata/map.rs:241-247`), so with empty details it
  is read back as the details, or makes the reader panic
  (`DetailsFromMetadata`). `StatusSurvives` gives the exact condition.
- Order of timeouts is lost just above 10^8 seconds and just above 10^8 minutes,
  because the coarser unit rounds down further. `OrderExactly` gives the exact
  pairs.
- Base64 request bodies made of several padded texts decode or fail depending on
  the chunking (`TwoTextsDependOnChunking`); `ChunkingShowsExactly` says for
  which texts.
- Messages that follow the trailers frame in the same chunk are emitted before
  the trailers, in a later chunk after them (`MessagesAfterTrailers`);
  `TrailersDeliveredExactly` says how much may follow.
- Whole messages are lost when they share a chunk with a cut message, a bad flag
  or unparsable trailers, and delivered when they come in an earlier chunk
  (`CutMessageDependsOnChunking`); `MessagesDeliveredExactly` says for which
  bodies no chunking loses any.
- A leftover of one to four bytes at the end of a body ends the stream cleanly;
  a cut after a frame's five header bytes is reported as data loss
  (`TruncationDetected`).

## Model

| member | source | states |
|---|---|---|
| `WebFrame.FrameTotalLen` | tonic-web/src/call.rs:556-566 | a total is known exactly when five bytes are buffered, and is never below five |
| `FrameFormat.FrameLengthOrder` | tonic-web/src/call.rs:561-565 | the announced length is big-endian: of two headers the first length byte that differs decides which announces more |
| `FrameFormat.FrameLengthRange` | tonic-web/src/call.rs:561-565 | the total runs from 5, exactly for four zero bytes, to 5 plus the largest 32-bit number, exactly for four bytes 255 |
| `WebFrame.FindTrailers` | tonic-web/src/call.rs:572-607 | on every buffer the scan loop ends and finds what the longest run of whole messages leaves: a trailers frame, a bad flag, an incomplete frame or nothing; the reported prefix is whole messages |
| `FrameFormat.OneFrame` | tonic-web/src/call.rs:583-606 | for every payload and its four length bytes: flags 0 and 1 make a whole message, 0x80 a trailers frame, every other flag is refused |
| `FrameFormat.OneCutFrame` | tonic-web/src/call.rs:595-603 | a message with fewer payload bytes than its length bytes say is incomplete |
| `WebFrame.MessagesLongest` | tonic-web/src/call.rs:568-607 | no longer prefix of the buffer is whole messages |
| `WebFrame.MessagesPrefix` | tonic-web/src/call.rs:568-607 | the prefix found is whole messages and what follows starts with none |
| `WebFrame.MessagesSplit` | tonic-web/src/call.rs:572-607 | scanning a buffer and then what is left plus new bytes finds as much as scanning all of it at once |
| `TrailerBlock.EncodeTrailersLoop` | tonic-web/src/call.rs:467-475 | the fold over the fields writes exactly one `name:value` CRLF line per field, in iteration order |
| `FrameFormat.FieldBytes` | tonic-web/src/call.rs:467-475 | the block byte by byte: name, colon, value, carriage return, line feed, field after field |
| `TrailerBlock.MakeTrailersFrame` | tonic-web/src/call.rs:538-549 | the result is one complete frame with the trailers flag whose length field equals its payload |
| `FrameFormat.TrailersFrameBytes` | tonic-web/src/call.rs:538-549 | the frame byte by byte: 0x80, the length from its highest byte down, the block |
| `TrailerBlock.ScanLines` | tonic-web/src/call.rs:485-505 | on any bytes the cursor loop neither underflows nor reads past the buffer, and collects exactly the CRLF-terminated lines |
| `FrameFormat.LinesOfJoined` | tonic-web/src/call.rs:488-505 | any lines joined by CRLF, with any rest that holds none, scan back as exactly these lines |
| `FrameFormat.EveryBlock` | tonic-web/src/call.rs:488-505 | every block is such lines and such a rest, so the scan is determined on all bytes |
| `TrailerBlock.DecodeTrailersFrame` | tonic-web/src/call.rs:477-528 | the whole decoder, error cases included, equals the one-pass reading of lines into a map |
| `FrameFormat.FrameMeaning` | tonic-web/src/call.rs:477-528 | any frame decodes if and only if all its lines parse, and then each name has the value of its last line and no other name is there |
| `FrameFormat.RefusedLine` | tonic-web/src/call.rs:507-525 | the first line that does not parse decides the error |
| `TrailerBlock.ParseTrailer` | tonic-web/src/call.rs:507-524 | one line is split at its first colon, its value trimmed, and refused in the source's order of checks |
| `FrameFormat.LineMeaning` | tonic-web/src/call.rs:507-524 | a line without a colon is refused, then a bad name, then a bad value; otherwise the name in lower case and the trimmed value |
| `FrameFormat.TrimmedBytes` | tonic-web/src/call.rs:530-536 | exactly leading tabs, line feeds, form feeds, carriage returns and spaces go |
| `FrameFormat.TokenBytes` | tonic-web/src/call.rs:520-521 | names are made of the token characters of section 5.6.2 of RFC 9110 |
| `TrailerBlock.ParseRawLine` | tonic-web/src/call.rs:507-536 | every valid field written as a line reads back as itself without leading ASCII whitespace |
| `TrailerBlock.LinesOfBlock` | tonic-web/src/call.rs:467-505 | the lines scanned from an encoded block are the lines that were written, for every list of valid fields |
| `TrailerBlock.FrameRoundTrip` | tonic-web/src/call.rs:467-549 | for every header map and every iteration order, decoding the encoded frame gives each name its last value without leading whitespace |
| `TrailerBlock.CarriedExactly` | tonic-web/src/call.rs:467-549 | the frame carries a header map unchanged if and only if every name has one value with no leading whitespace |
| `Base64.RoundTrip` | tonic/src/util.rs:39-51 | decoding undoes encoding for every byte string, with and without padding |
| `Base64Exact.Alphabet` | tonic/src/util.rs:39-51 | the alphabet of section 4 of RFC 4648 |
| `Base64Exact.Examples` | tonic/src/util.rs:39-51 | examples from section 10 of RFC 4648, with and without padding |
| `Base64Exact.DecodeExactly` | tonic/src/util.rs:39-51 | a text decodes to some bytes if and only if it is their text with all, some or none of its padding |
| `Base64.GroupIsOneNumber` | tonic/src/util.rs:39-51 | three bytes and their four symbols denote the same 24-bit number (section 4 of RFC 4648) |
| `Base64.EncodedText` | tonic/src/util.rs:39-51 | encoded text holds only alphabet symbols and, if padded, padding and a multiple of four characters |
| `Base64.DecodeSplit` | tonic-web/src/lib.rs:119-124 | a decodable text cut at a multiple of four decodes piecewise to the same bytes |
| `Base64.DecodeJoin` | tonic-web/src/lib.rs:119-124 | decodable pieces join to a decodable text when only the last one is padded |
| `WebCall.MaxDecodable` | tonic-web/src/call.rs:161-166 | the decodable prefix is the longest multiple of four and leaves fewer than four characters |
| `WebCall.PollProgress` | tonic-web/src/call.rs:282-404 | every poll that yields a frame uses up an inner frame, buffered bytes or the pending trailers, so every run is finite |
| `WebDecode.AnyChunking` | tonic-web/src/call.rs:282-404 | from any buffered rest that cannot be emitted yet, for every chunking of any body with fewer than five bytes past its trailers frame: data frames of whole messages that join to exactly the body's messages up to the last settled point, then exactly the ending the body calls for; without trailers the run goes on over whatever the inner body yields next |
| `WebDecode.ClientDecodesAnyChunking` | tonic-web/src/call.rs:282-404 | from a fresh decoder, for every chunking: the messages up to the last settled point (all of them if the body is settled), then end, decoded trailers and end, data loss inside a message or trailers frame, bad flag, or unparsable trailers, as the whole body demands |
| `WebDecode.LastSettledMeaning` | tonic-web/src/call.rs:333-402 | the last settled point is the largest number of chunks whose bytes are whole messages followed by fewer than five bytes, by a cut trailers frame, or by a whole one |
| `WebDecode.ClassifyAfterMessages` | tonic-web/src/call.rs:572-607 | what a body means does not change when whole messages are taken off its front |
| `WebDecode.BytesLeft` | tonic-web/src/call.rs:351-398 | bytes left at the end of the body decide the ending: fewer than five end cleanly, an incomplete frame is data loss |
| `WebTruncation.TruncationDetected` | tonic-web/src/call.rs:333-402 | whole messages and then a frame cut anywhere, in any chunking: before the frame's five header bytes all messages and a clean end; past them data loss, after all messages if the frame holds trailers, and after those up to the last settled point if it is a message |
| `WebChunking.TrailersDeliveredExactly` | tonic-web/src/call.rs:289-404 | every chunking delivers the messages, then the trailers once, then the end, if and only if fewer than five bytes follow the trailers frame |
| `WebChunking.MessagesAfterTrailers` | tonic-web/src/call.rs:289-404 | for all messages, trailers and further messages, two chunkings of the same bytes emit trailers and messages in different orders |
| `WebChunking.MessagesDeliveredExactly` | tonic-web/src/call.rs:333-402 | every chunking delivers all messages of a body if and only if the body is settled or has none |
| `WebChunking.CutMessageDependsOnChunking` | tonic-web/src/call.rs:374-380 | messages in one chunk with a cut message are lost, and delivered when the cut message comes in a chunk of its own |
| `WebChunking.HttpTrailersFollow` | tonic-web/src/call.rs:311-321 | HTTP trailers after a clean body in any chunking come out once, after all messages and before the end; after a cut body the run still ends in data loss |
| `WebEdges.LateHttpTrailers` | tonic-web/src/call.rs:311-321 | HTTP trailers that come while in-body trailers wait behind a few bytes are merged into them, and win name by name |
| `WebEdges.InnerErrorEnds` | tonic-web/src/call.rs:326 | an inner error after any chunks ends the run with that error, after the messages up to the last settled point |
| `WebEdges.BodyErrorCode` | tonic-web/src/call.rs:351-377 | over any chunking a run fails exactly for a cut, wrongly flagged or unparsable body, with DataLoss exactly for a cut one and Internal otherwise |
| `WebEdges.HandedThrough` | tonic-web/src/call.rs:231-237 | without base64 the server side yields every inner frame unchanged, up to the end or the first inner error |
| `WebConserve.PollConserves` | tonic-web/src/call.rs:282-404 | each poll without error, on arbitrary state and bytes, neither loses nor invents a byte, and data it yields is whole messages |
| `WebConserve.Conservation` | tonic-web/src/call.rs:299-403 | after any number of polls without error, on arbitrary bytes: bytes received equal emitted messages and consumed trailers frames in wire order, then the buffer; each single data frame is whole messages |
| `WebText.TextAnyChunking` | tonic-web/src/call.rs:163-229 | for any bytes and chunking: data frames that join to a prefix of what the groups of four decode to one by one, then an end or an error; an end only if all groups decode, and then with all their bytes; always an end if the whole decodes |
| `WebText.EncodedBodyDecodes` | tonic-web/src/call.rs:163-229 | every byte string comes back from every chunking of its padded base64 text, then a clean end |
| `WebText.OnlyDataIsText` | tonic-web/src/call.rs:210-218 | an inner error or HTTP trailers in a text body replace the last answer of the run over the chunks before them by an Internal error |
| `WebText.SomeChunkingEndsCleanly` | tonic-web/src/call.rs:163-229 | some chunking of a text ends cleanly if and only if its groups of four decode one by one |
| `WebText.EveryChunkingEndsCleanly` | tonic-web/src/call.rs:163-229 | every chunking of a text ends cleanly if and only if its length is a multiple of four and it decodes as one text |
| `WebText.ChunkingShowsExactly` | tonic-web/src/call.rs:163-229 | two chunkings of a text end differently if and only if its groups decode one by one and the whole does not |
| `WebText.OneTextEndsCleanly` | tonic-web/src/call.rs:163-229 | for every chunking of every text but those: a clean end if and only if the groups decode; for a text padded at most at its end, if and only if it is whole groups and decodes; otherwise an error |
| `WebText.TwoTextsDependOnChunking` | tonic-web/src/call.rs:168-182 | a concrete pair of padded texts that decodes in two chunks and fails in one |
| `WebEncode.EncodedBody` | tonic-web/src/call.rs:240-271 | a binary encoder run over messages and HTTP trailers emits the message bytes and then one trailers frame |
| `WebChunking.BodyDelivered` | tonic-web/src/call.rs:282-404 | whole messages, one parsable trailers frame and fewer than five bytes, in any chunking: data frames of whole messages that join to exactly the messages, then the decoded trailers once, then the end |
| `WebEncode.EndToEnd` | tonic-web/src/call.rs:240-404 | encoder run, any re-chunking, client decoder: the same message bytes, the trailers as carried by the frame, then the end |
| `WebEncode.EndToEndExact` | tonic-web/src/call.rs:240-404 | with one value per name and no leading whitespace the trailers come back identical |
| `WebEncode.EncodedTextBody` | tonic-web/src/call.rs:240-271 | a base64 encoder run emits texts that, decoded one by one or by the streaming decoder over just these frames, give the message bytes and one trailers frame |
| `WebEncode.EncodingFails` | tonic-web/src/call.rs:268 | an inner error ends an encoder run with that error, after the encoded data before it |
| `GrpcWebCall.VisitFields` | tonic-web/src/call.rs:468 | visiting a header map name by name yields every value, each name's values in order |
| `GrpcWebCall.Call.constructor` | tonic-web/src/call.rs:146-159 | a server-side call starts with empty buffers and no trailers |
| `GrpcWebCall.Call.ForClient` | tonic-web/src/call.rs:128-144 | a client-side call is never base64 and starts empty |
| `GrpcWebCall.Call.DecodeChunk` | tonic-web/src/call.rs:168-182 | decodes and drops the longest decodable prefix of the buffer, also when it is refused |
| `GrpcWebCall.Call.PollDecodeText` | tonic-web/src/call.rs:199-229 | the base64 loop takes exactly the text step: answer and all fields |
| `GrpcWebCall.Call.PollDecode` | tonic-web/src/call.rs:194-238 | dispatches on the encoding and takes that decoder's step |
| `GrpcWebCall.Call.PollEncode` | tonic-web/src/call.rs:240-271 | takes an encoder step: data passed on, trailers as an in-body frame, both as base64 if asked for |
| `GrpcWebCall.Call.SettleTrailer` | tonic-web/src/call.rs:334-373 | the trailers arm drains messages and frame in place and answers as the specification of that arm says |
| `GrpcWebCall.Call.Settle` | tonic-web/src/call.rs:329-402 | every arm after the scan updates buffer and slot, or asks for more bytes, as specified |
| `GrpcWebCall.Call.PollFrameOfClient` | tonic-web/src/call.rs:282-404 | the client loop ends and equals the client step that the run theorems are about |
| `GrpcWebCall.Call.PollFrame` | tonic-web/src/call.rs:282-411 | the public poll takes the step of its direction and side; an empty call changes nothing |
| `Percent.RoundTrip` | tonic/src/status.rs:37-47 | decoding undoes escaping for every byte string (section 2.1 of RFC 3986) |
| `TextFormat.EscapedBytes` | tonic/src/status.rs:37-47 | visible ASCII but ten characters goes out unchanged, every other byte as a percent sign and two upper-case hexadecimal digits |
| `TextFormat.EscapeReads` | tonic/src/status.rs:494-499 | a percent sign and two hexadecimal digits of either case read as one byte |
| `TextFormat.PlainReads` | tonic/src/status.rs:494-499 | everything else, an incomplete escape included, reads as itself |
| `TextFormat.Utf8Exactly` | tonic/src/status.rs:495-497 | a message counts as text if and only if it encodes a sequence of Unicode scalar values (section 3 of RFC 3629) |
| `Percent.EncodedIsVisible` | tonic/src/status.rs:575-584 | an escaped message is visible ASCII without spaces, so it is always a legal header value |
| `Status.CodeRoundTrip` | tonic/src/status.rs:901-955 | every code reads back from its header text, and no other text reads as a code other than unknown |
| `StatusFormat.CodeTexts` | tonic/src/status.rs:901-950 | the header text of the i-th code of the protocol is the decimal numeral i, and reads back as that code, for all seventeen |
| `StatusFormat.OneNumbering` | grpc-protobuf/src/status.rs:135-157 | the numbers of the rich statuses are those of the header texts |
| `StatusFormat.HeaderNames` | tonic/src/metadata/map.rs:241-247 | the three status header names and the reserved names, spelled out |
| `Status.AddHeader` | tonic/src/status.rs:570-596 | never fails, and lays sanitised metadata and then the status fields over the given headers |
| `Status.ToHeaderMap` | tonic/src/status.rs:563-567 | serialising a status never fails |
| `StatusFormat.WrittenFields` | tonic/src/status.rs:570-596 | the code always; the percent-encoded message if and only if there is one; unpadded base64 details if and only if there are any; of other metadata exactly what is not reserved, unchanged |
| `Status.FromHeaderMap` | tonic/src/status.rs:491-536 | the reader that removes entries from a copy equals the specification of the three fields and the rest, with its panic on bad details |
| `StatusFormat.ReadFields` | tonic/src/status.rs:491-536 | from any headers, by first values: no status without grpc-status, a panic exactly for details that are not base64, Unknown for a message that is not text, and everything else as read |
| `Status.StatusRoundTrip` | tonic/src/status.rs:491-596 | what any status reads back as: itself without reserved metadata, or with the first metadata value under the details name in place of empty details, or a panic |
| `Status.StatusSurvives` | tonic/src/status.rs:491-596 | code, message, details and unreserved metadata survive if and only if the status has details, or its metadata has no field under that name, or the first value of that field is empty |
| `Status.DetailsFromMetadata` | tonic/src/status.rs:73-76 | concrete metadata that is read back as details, and other metadata that makes the reader panic |
| `Status.HttpCode` | tonic/src/status.rs:816-858 | which HTTP statuses stand for each code when there is no gRPC status; none stands for success |
| `Status.FineExactly` | tonic/src/status.rs:802-866 | a call is fine if and only if trailers are there, their status is "0" and their message and details can be read |
| `StatusFormat.InferredOutcome` | tonic/src/status.rs:802-866 | without grpc-status the HTTP status decides, by its table; with it the HTTP status plays no part |
| `Status.InferOwnHeaders` | tonic/src/status.rs:802-815 | on any status's own headers and for every HTTP status: fine exactly for code Ok and otherwise the status as read back, unless metadata in place of empty details makes the reader panic |
| `StatusOverWeb.StatusThroughFrame` | tonic-web/src/call.rs:467-549 | what any status reads back as after its headers pass through a trailers frame, in any iteration order; it survives if and only if it has details, or no metadata under their name, or the last such value is empty or whitespace |
| `StatusOverWeb.CarriedHeaders` | tonic-web/src/call.rs:467-549 | the frame never changes the status fields, only custom metadata |
| `StatusOverWeb.BareHeaders` | tonic/src/status.rs:491-596 | a status without metadata reads back exactly and its headers are ones a frame keeps |
| `StatusOverWeb.StatusEndToEnd` | tonic-web/src/call.rs:240-404 | messages and a status sent through the encoder, any chunking and the client decoder arrive as the same messages and the same status, judged fine exactly for Ok |
| `RichStatus.ToI32` | grpc-protobuf/src/status.rs:135-157 | every error code reads back from its number |
| `RichStatus.StatusError.constructor` | grpc-protobuf/src/status.rs:183-189 | a new error has no payloads |
| `RichStatus.StatusError.SetPayload` | grpc-protobuf/src/status.rs:207-209 | sets one payload and leaves all others as they were |
| `RichStatus.ParseRpcStatus` | grpc-protobuf/src/trailers_conv.rs:79-102 | the loop over details builds the error with all payloads, later ones winning; bad bytes and code OK are internal errors |
| `RichStatus.StatusFromTrailers` | grpc-protobuf/src/trailers_conv.rs:43-77 | all branches, code mismatch included, equal the specification |
| `RichStatus.EncodeRpcStatus` | grpc-protobuf/src/trailers_conv.rs:132-159 | the loop serialises exactly the payloads whose type URL is UTF-8, in order |
| `RichStatus.TrailersFromStatus` | grpc-protobuf/src/trailers_conv.rs:105-130 | details are attached exactly when there are payloads; a failed serialisation is reported instead of the error |
| `RichStatus.SetAllMeaning` | grpc-protobuf/src/trailers_conv.rs:97-99 | after reading the details back a key holds its written payload if it is UTF-8, and is otherwise untouched |
| `RichStatus.LastDetailCounts` | grpc-protobuf/src/trailers_conv.rs:97-99 | of details with the same type URL the last one counts |
| `RichStatus.OtherDetails` | grpc-protobuf/src/trailers_conv.rs:97-99 | a type URL of no detail keeps what it had |
| `RichStatus.WrittenTrailers` | grpc-protobuf/src/trailers_conv.rs:105-130 | an error goes out with its code and message, with details if and only if it has payloads, and as an Internal error when these cannot be serialised |
| `RichStatus.RichRoundTrip` | grpc-protobuf/src/trailers_conv.rs:43-159 | success comes back as success; given lossless serialisation, every error comes back with its code, its message and exactly its UTF-8 payloads |
| `RichStatus.ArbitraryTrailers` | grpc-protobuf/src/trailers_conv.rs:43-102 | for any trailers and any serialiser, the exact result: success only without details; an Internal error without payloads for details beside success and for details that do not parse, say OK or name another code; otherwise the trailers' code with the message and payloads of the details, or with their own message when there are none |
| `Decimal.PrintInjective` | xds-test-util/src/control_plane.rs:179 | two numbers have the same decimal text only if they are equal |
| `Decimal.PrintDigit` | xds-test-util/src/control_plane.rs:608-611 | the digit in each place of a numeral is that power of ten, counted from the right |
| `Decimal.NoLeadingZero` | xds-test-util/src/control_plane.rs:608-611 | a numeral has no more digits than its number needs |
| `Timeout.ChosenUnit` | tonic/src/request.rs:439-471 | the chain of attempts picks the finest unit in which the value has at most eight digits, and fails only if none has |
| `Timeout.TimeoutText` | tonic/src/request.rs:439-471 | the header text of every duration: which of the letters n, u, m, S, M, H follows which quotient, range by range |
| `Timeout.UnitThresholds` | tonic/src/request.rs:457-468 | the unit chosen, as thresholds on the duration |
| `Timeout.WrittenExactly` | tonic/src/request.rs:463-470 | a timeout is written if and only if it is at most 99,999,999 whole hours |
| `Timeout.FormatReadsBack` | tonic/src/transport/service/grpc_timeout.rs:127-170 | the server's parser reads every eight-digit value in every unit as that duration |
| `Timeout.LetterReads` | tonic/src/transport/service/grpc_timeout.rs:151-167 | how many nanoseconds each of the six letters stands for to the server |
| `Timeout.ReadExactly` | tonic/src/transport/service/grpc_timeout.rs:134-170 | the server takes a text if and only if one of the six letters follows one to eight digits, or a plus sign and one to seven |
| `Timeout.TimeoutRoundTrip` | tonic/src/request.rs:439-471 | written and parsed: never longer than the duration, short by less than one unit, exact in nanoseconds, and otherwise short by less than a 100,000th |
| `Timeout.OrderExactly` | tonic/src/request.rs:439-471 | a longer duration reads back shorter if and only if the pair straddles 10^8 seconds or 10^8 minutes within the stated windows |
| `Timeout.OrderBelow` | tonic/src/request.rs:439-471 | order holds below 10^8 seconds, and fails between 99,999,999 and 100,000,000 seconds |
| `Attributes.Node.constructor` | grpc/src/attributes.rs:78-81 | a node keeps its value and its older neighbour for good |
| `Attributes.New` | grpc/src/attributes.rs:104-106 | a new set holds nothing |
| `Attributes.Add` | grpc/src/attributes.rs:111-118 | one fresh node in front of the shared old chain; as a map, the entry of that type is replaced and no other |
| `Attributes.Get` | grpc/src/attributes.rs:121-130 | the walk returns what the map from type to newest value returns |
| `Attributes.Collect` | grpc/src/attributes.rs:142-147 | collects the node objects, newest first |
| `Attributes.FindOldest` | grpc/src/attributes.rs:148-153 | the position of the oldest node of the type, or that there is none |
| `Attributes.Rebuild` | grpc/src/attributes.rs:155-164 | fresh nodes for all other values in order, in front of the very tail objects given |
| `Attributes.Remove` | grpc/src/attributes.rs:139-166 | the values without the type in the same order; the map without that key; nodes older than the oldest of the type are the same objects, newer ones fresh, and without such a node the whole chain is shared |
| `Attributes.AsMapWithout` | grpc/src/attributes.rs:139-166 | filtering the chain is removing the key from the map |
| `AttributesOrder.Iter.constructor` | grpc/src/attributes.rs:172-175 | a fresh iterator has all live values ahead of it |
| `AttributesOrder.Iter.Next` | grpc/src/attributes.rs:175-183 | each call yields the next live value, and ends when none is left |
| `AttributesOrder.IterationMeaning` | grpc/src/attributes.rs:168-184 | each live type once, newest first, with the value a lookup returns, and none missing |
| `AttributesOrder.CollectSorted` | grpc/src/attributes.rs:195-199 | draining the iterator and sorting yields the live values in the order of their type ids |
| `AttributesOrder.Equal` | grpc/src/attributes.rs:193-207 | sort-and-zip answers true if and only if the two sets denote the same map, values compared by their type's equality |
| `AttributesOrder.ZipIsSameMap` | grpc/src/attributes.rs:200-205 | zipping two sorted lists compares the maps they denote, both ways |
| `AttributesOrder.EqualityExtensional` | grpc/src/attributes.rs:193-207 | equality depends on the denoted maps only, not on insertion order or shadowed values |
| `AttributesOrder.EqualityIsEquivalence` | grpc/src/attributes.rs:209 | equality is reflexive, symmetric and transitive when each type's equality is |
| `AttributesOrder.HistoryMeaning` | grpc/src/attributes.rs:102-166 | after any history of adds and removes a lookup finds the latest added value not removed since |
| `ControlPlane.PickedMeaning` | xds-test-util/src/control_plane.rs:603-606 | a response holds each resource once per requested name configured with it, and nothing else |
| `ControlPlane.IgnoredExactly` | xds-test-util/src/control_plane.rs:148-212 | a request changes nothing if and only if it is a NACK, has an unknown type, a stale nonce or unchanged names |
| `ControlPlaneRequests.UrlTable` | xds-test-util/src/config.rs:48-66 | the type URLs, spelled out |
| `ControlPlaneRequests.UrlsAreRead` | xds-test-util/src/control_plane.rs:158-168 | a request is for a type if and only if it carries that type's URL |
| `ControlPlaneRequests.IgnoredUnlessEffective` | xds-test-util/src/control_plane.rs:148-212 | a request changes nothing if and only if for no type it has the URL, rejects nothing, has no stale nonce and asks for names other than the recorded ones |
| `ControlPlaneRequests.StepSub` | xds-test-util/src/control_plane.rs:142-357 | what each action makes of one subscription: dropped by its stream's close, renumbered by a config set of its type, replaced by an effective request, else unchanged |
| `ControlPlaneRequests.SubscriptionOrigin` | xds-test-util/src/control_plane.rs:197-254 | in every run a stream is subscribed if and only if a request took effect after its last close, and its names are exactly those the last such request asks for |
| `ControlPlaneLaws.StepView` | xds-test-util/src/control_plane.rs:142-254 | one step, seen from one stream, is a step of a single-stream machine or no step at all |
| `ControlPlaneLaws.RunView` | xds-test-util/src/control_plane.rs:142-357 | every run, seen from one stream, is the single-stream run over that stream's requests and the config sets |
| `ControlPlaneLaws.NonInterference` | xds-test-util/src/control_plane.rs:142-357 | runs that agree on the config sets and a stream's own requests send it the same responses, whatever other streams do |
| `ControlPlaneLaws.NoSubscriberIsBehind` | xds-test-util/src/control_plane.rs:197-357 | in every reachable state the last response of each live subscription is the one for the current version, resources, names and nonce |
| `ControlPlaneHistory.BundleMeaning` | xds-test-util/src/control_plane.rs:88-104 | the version is the number of config sets so far and the resources are those of the last one |
| `ControlPlaneHistory.ResponseOrigin` | xds-test-util/src/control_plane.rs:234-241 | every response ever sent was sent by one action of the run, as the response current right after it |
| `ControlPlaneHistory.RecordedContent` | xds-test-util/src/control_plane.rs:326-357 | every response with version v holds the v-th configured set under the names recorded when it was sent |
| `ControlPlaneRequests.VersionDeterminesContent` | xds-test-util/src/control_plane.rs:197-357 | every response with version v, on any stream, holds each value of the v-th configured set once per name that the last effective request asked for and that is configured with it, and nothing else |
| `ControlPlaneHistory.VersionsNeverDecrease` | xds-test-util/src/control_plane.rs:326-357 | versions of one type on one stream never decrease over a run |
| `ControlPlaneHistory.NonceCheckIsExact` | xds-test-util/src/control_plane.rs:174-189 | comparing nonces as text accepts exactly the current nonce |
| `ControlPlaneHistory.NonceAccounting` | xds-test-util/src/control_plane.rs:148-242 | the current nonce is the number of config sets while subscribed plus accepted requests that created or changed the subscription |
| `ControlPlaneHistory.NoncesCountUp` | xds-test-util/src/control_plane.rs:554-575 | on a stream that closes once, the nonces sent per type are 1, 2, 3 and so on, up to the current one |
| `AdsServer.Pick` | xds-test-util/src/control_plane.rs:603-606 | the loop over the names, in any order, collects exactly the configured ones |
| `AdsServer.Build` | xds-test-util/src/control_plane.rs:596-614 | the response carries version, nonce and the picked resources |
| `AdsServer.Server.constructor` | xds-test-util/src/control_plane.rs:118-131 | a new server is the initial state of the machine |
| `AdsServer.Server.OpenStream` | xds-test-util/src/control_plane.rs:561 | stream ids are handed out in order |
| `AdsServer.Server.HandleRequest` | xds-test-util/src/control_plane.rs:142-243 | with its early returns, exactly the machine's step for that request |
| `AdsServer.Server.Resubscribe` | xds-test-util/src/control_plane.rs:214-243 | creates or changes the subscription, bumps its nonce and sends one response built from the new names |
| `AdsServer.Server.RemoveStream` | xds-test-util/src/control_plane.rs:246-254 | the loop drops the stream from every type and touches nothing else |
| `AdsServer.Server.SetPackedXdsConfig` | xds-test-util/src/control_plane.rs:326-357 | exactly the machine's configuration step |
| `AdsServer.Server.PushToAll` | xds-test-util/src/control_plane.rs:344-356 | the loop, in any order of streams, serves every subscriber once with its next nonce and no one else |

## Left out

- `Pin`, `Context`, wakers and `Pending`: a pending poll only pauses a step whose state is already in the fields.
- HTTP body frames that are neither data nor trailers; the body types in use have no third kind.
- Error texts: errors of the codec are constructors with a gRPC code, the text for an undecodable message is the placeholder `BAD_MESSAGE`, and foreign error texts in status messages are not spelled out.
- Buffer capacities, content types and `Accept` handling (tonic-web/src/call.rs:42-62, 434-456), `is_end_stream` and `size_hint`.
- 32-bit targets: lengths are unbounded, so the saturating addition at tonic-web/src/call.rs:565 never saturates.
- Header maps over the HTTP library's size limit; the rules for names and values are those of the library, restated in `Headers`.
- PollEncode: trailers of 4 GiB and more, on which the source panics (tonic-web/src/call.rs:541), are excluded by its precondition, and the order of fields in a frame is whatever the header map yields.
- AnyChunking: says nothing about bodies with five bytes or more after the trailers frame, for which some chunking breaks the promised order (TrailersDeliveredExactly); Conservation covers those too. With one to four bytes there it takes the inner body to end with them, because what comes next is mixed with the waiting trailers.
- Base64 responses cut at other places than the frames: each frame is encoded as a padded text of its own, and whether a re-chunked body decodes is what ChunkingShowsExactly decides.
- The HTTP-derived error of `infer_grpc_status` is modelled by its code only, and hyper, h2 and I/O error tables (tonic/src/status.rs:368-480, 749-774) are not modelled.
- The `source` error of a status, which never goes over the wire.
- RichRoundTrip: protobuf serialisation is a parameter assumed lossless (`IsLossless`); its wire format and the failure branch of a lossless serialiser are not modelled.
- TrailersFromStatus: payloads are visited in some order without repetition, not in the ascending key order of the source's map, because nothing read back depends on it.
- Reference counts and drops of attribute nodes; sharing is modelled by object identity.
- The standard library's sort is modelled by an insertion sort on distinct keys, where every sort gives the same result.
- 64-bit wrap-around of versions, nonces and stream ids: all three are unbounded here.
- NoncesCountUp: assumes no request of a stream after its close, which the serving loop ensures (xds-test-util/src/control_plane.rs:563-574); stream ids are never reused there.
- The order of resources inside a response, which follows a hash set; they are compared as multisets.
- A client that has gone away: responses to it count as sent, as the source ignores the failed send.
- Read-only accessors of the control plane (xds-test-util/src/control_plane.rs:359-440) and packing of protobuf messages into `Any`: they would only add easy members.
- tonic-health, the xds-client worker, load balancers, transport, TLS, credentials, code generation, interop programs and examples.
