# Staged Server Framework core, modelled in Dafny

This project models the core of the Staged Server Framework, a Java toolkit for
staged (SEDA-style) network servers. It covers the parts whose behaviour can be
stated precisely:

- **The HTTP request parser** (`HttpRequestParser`). It reads bytes from the
  socket into a fixed-size buffer with `head` and `tail` indices. It splits off
  the header section at the first CR LF CR LF and reads the request line and
  headers. Then it dispatches:
  - GET: arguments come from the query string.
  - urlencoded POST: arguments come from the body.
  - multipart POST: the parser streams each part, scanning for the delimiter
    CR LF "--" boundary (section 5.1.1 of RFC 2046).
- **The request record** (`HttpRequest`) and **the server configuration**
  (`DefaultHttpServerConfiguration`).
- **The outbound socket pool** (`SocketPool`): per-endpoint lists of cached
  connections.
- **The consistent-hash ring** (`ConsistentHash`), **endpoints**
  (`EndPoint`) and the local-host test (`BasicUtilities.isHostLocalHost`).
- **String helpers** (`StringUtil`).
- **The stage registry** (`StageManager`) and **the worker thread naming
  factory** (`ThreadFactoryImpl`).

Layout, one module per file:

- `wrappers.dfy`: `Option` and `Result` (`Result` carries the Java exception
  kinds), and Java `int` arithmetic (32-bit wrap-around, `/` and `%` truncating
  toward zero).
- `java_text.dfy`: the `java.lang.String` operations the code relies on. These
  are `split` with a regular expression or a literal (limit 0, trailing empty
  strings dropped), `trim`, ASCII `toLowerCase`, `indexOf`, `lastIndexOf`,
  `Integer.parseInt` and `String.valueOf(int)`.
- `http_stream.dfy`: the input side of the parser. It covers the buffer, the
  refill (`InputStream.read`), `readByte` and `readBytes`.
- `http_headers.dfy`: `readHeaders`.
- `http_multipart.dfy`: `readMultiPartValue` and `isMultiPartRequestDone`.
- `http_query.dfy`: `parseQueryString` and `parseGETRequest`.
- `http_process.dfy`: `process`, `getHeaders`, `parsePOSTRequest`,
  `readMultiPartParameter` and `parseMultiPartRequest`, as functions on the
  parser state.
- `http_parser.dfy`: the parser as a class over a byte `array`. Each method is
  proved equal to the function that specifies it.
- `http_request.dfy`, `http_config.dfy`, `socket_pool.dfy`,
  `consistent_hash.dfy`, `endpoint.dfy`, `basic_utilities.dfy`,
  `string_util.dfy`, `stage_manager.dfy`, `thread_factory.dfy`: one module per
  Java class.

The parser's methods mutate the buffer array and fields, so their contracts
use `old` and tie each call to a pure function of the prior state. The
properties (what a request on the wire turns into, and each error case) are
lemmas about those functions.

The socket is a sequence of non-empty chunks. Each `read(buffer, 0, bufSize)`
hands over at most `bufSize` bytes of the next chunk; end of stream is -1.
`Remaining(s)` is the unread part of the buffer followed by the rest of the
stream.

Java runtime exceptions are values rather than preconditions:
`RuntimeFailure(NullPointer)`, `IndexOutOfBounds`, `NumberFormat`,
`Arithmetic`, `ConcurrentModification`, `Security` and `IllegalArgument`. Checked exceptions are
`IOFailure(msg)`, `HttpParseFailure(msg)` and `SocketPoolFailure(msg)`, with
the source's messages.

Behaviour of the code that the model keeps as written:

- `StageManager.shutdown` has no try/catch. A null stage, or a stage whose
  `shutdown` throws, ends the loop, so the stages it has not reached yet are
  not shut down.
- `SocketPool.shutdown` removes entries from the map it is iterating, which
  throws `ConcurrentModificationException` (see Findings).
- `readMultiPartValue`'s rewind of `head` after a false delimiter is not sound
  when the compare refilled the buffer (see `RewindAfterRefillFails`).

## Model

| member | source | states |
|---|---|---|
| HttpConfig.Configured | src/main/java/in/kote/ssf/net/http/DefaultHttpServerConfiguration.java:35-41 | the three-argument constructor stores exactly the three given limits |
| HttpConfig.WithMaxPostSize | src/main/java/in/kote/ssf/net/http/DefaultHttpServerConfiguration.java:43-45 | the one-argument constructor keeps the given POST limit, a 10240-byte header limit and a 4096-byte buffer |
| HttpConfig.Default | src/main/java/in/kote/ssf/net/http/DefaultHttpServerConfiguration.java:47-49 | the default configuration is 20971520 / 10240 / 4096 |
| HttpConfig.WithMaxPostSizeKeepsDefaults | src/main/java/in/kote/ssf/net/http/DefaultHttpServerConfiguration.java:18-49 | the one-argument constructor differs from the default only in the POST limit, and equals it for the default POST size |
| HttpRequests.FreshRequest | src/in/kote/ssf/net/http/HttpRequest.java:28-69 | a new request has an empty argument map, content length 0, is not multipart, and every other field is null |
| HttpRequests.PutArg | src/in/kote/ssf/net/http/HttpRequest.java:128-134 | putting through the live argument map updates exactly that key, and a null map is a NullPointerException |
| HttpRequests.HttpRequest.constructor | src/in/kote/ssf/net/http/HttpRequest.java:28-69 | the new object's state is `FreshRequest()` |
| HttpRequests.HttpRequest.SetHttpHeaders | src/in/kote/ssf/net/http/HttpRequest.java:116-118 | overwrites that one field and nothing else |
| HttpRequests.HttpRequest.SetRequestArgs | src/in/kote/ssf/net/http/HttpRequest.java:132-134 | replaces the whole map (possibly by null) and nothing else |
| HttpRequests.HttpRequest.SetRequestMethod | src/in/kote/ssf/net/http/HttpRequest.java:140-142 | overwrites that one field and nothing else |
| HttpRequests.HttpRequest.SetContentLength | src/in/kote/ssf/net/http/HttpRequest.java:148-150 | overwrites that one field and nothing else |
| HttpRequests.HttpRequest.SetMultiPartRequest | src/in/kote/ssf/net/http/HttpRequest.java:124-126 | overwrites that one field and nothing else |
| HttpRequests.HttpRequest.SetFileContents | src/in/kote/ssf/net/http/HttpRequest.java:92-94 | overwrites that one field and nothing else |
| HttpRequests.HttpRequest.SetFileName | src/in/kote/ssf/net/http/HttpRequest.java:100-102 | overwrites that one field and nothing else |
| HttpRequests.HttpRequest.SetFileContentType | src/in/kote/ssf/net/http/HttpRequest.java:84-86 | overwrites that one field and nothing else |
| HttpRequests.HttpRequest.SetHeaderEncoding | src/in/kote/ssf/net/http/HttpRequest.java:108-110 | overwrites that one field and nothing else |
| HttpRequests.HttpRequest.PutRequestArg | src/in/kote/ssf/net/http/HttpRequest.java:128-130 | `getRequestArgs().put(k, v)` changes the object as `PutArg` says, or throws NullPointerException and changes nothing |
| HttpStream.ReadChunk | src/in/kote/ssf/net/http/HttpRequestParser.java:322 | `read` returns -1 exactly at end of stream, otherwise no more than the buffer holds, at least one byte for a non-empty buffer and non-empty chunks, and 0 for an empty buffer; it takes that many bytes off the stream |
| HttpStream.Fetch | src/in/kote/ssf/net/http/HttpRequestParser.java:330 | `buffer[head++]` yields a byte exactly when head is inside the buffer, otherwise ArrayIndexOutOfBoundsException; head advances either way |
| HttpStream.ReadByteF | src/in/kote/ssf/net/http/HttpRequestParser.java:317-331 | readByte fails only with "No more data is available" or an index error, and keeps the buffer size |
| HttpStream.ReadByteShrinks | src/in/kote/ssf/net/http/HttpRequestParser.java:317-331 | every byte delivered lowers the measure (stream length scaled by buffer size, plus room left in the buffer) |
| HttpStream.ReadByteStream | src/in/kote/ssf/net/http/HttpRequestParser.java:317-331 | from a valid state, readByte returns the first remaining byte and leaves the rest, or fails with "No more data is available" when nothing remains |
| HttpStream.ReadByteRefill | src/in/kote/ssf/net/http/HttpRequestParser.java:319-327 | when the buffer is used up and the stream is not, the refill delivers the first remaining byte and leaves the rest unread |
| HttpStream.ReadBytesAcc | src/in/kote/ssf/net/http/HttpRequestParser.java:340-348 | readBytes(count) returns exactly `count` bytes after the accumulator, or a readByte failure |
| HttpStream.ReadBytesStream | src/in/kote/ssf/net/http/HttpRequestParser.java:340-348 | from a valid state, readBytes returns the next `count` remaining bytes and leaves the rest, or fails when fewer remain |
| HttpStream.ReadBytesNoRefill | src/in/kote/ssf/net/http/HttpRequestParser.java:340-348 | when the stream has nothing left, a successful readBytes only advances head by `count` and changes nothing else |
| HttpStream.ReadBytesShrinks | src/in/kote/ssf/net/http/HttpRequestParser.java:340-348 | a successful readBytes never raises the measure |
| HttpHeaders.Latin1 | src/in/kote/ssf/net/http/HttpRequestParser.java:295-306 | header bytes become characters one for one (ISO-8859-1) |
| HttpHeaders.EndAt | src/in/kote/ssf/net/http/HttpRequestParser.java:275-293 | the matcher's end position lies within the data or is -1 (no separator), and is 0 exactly when the separator is already matched |
| HttpHeaders.HeadersLoop | src/in/kote/ssf/net/http/HttpRequestParser.java:275-293 | the header loop keeps the buffer size and a readable state, and consumes input |
| HttpHeaders.ReadHeadersF | src/in/kote/ssf/net/http/HttpRequestParser.java:269-309 | readHeaders keeps a readable state and strictly lowers the measure on success; it fails only with an IOException or ArrayIndexOutOfBoundsException |
| HttpHeaders.HeadersLoopResult | src/in/kote/ssf/net/http/HttpRequestParser.java:275-293 | a successful header loop returns the accumulated bytes extended by at most `max - size` bytes, ending in CR LF CR LF |
| HttpHeaders.ReadHeadersEndsWithSeparator | src/in/kote/ssf/net/http/HttpRequestParser.java:269-293 | a header section ends with CR LF CR LF and holds at most headerPartMaxSize bytes |
| HttpHeaders.HeadersLoopCompletes | src/in/kote/ssf/net/http/HttpRequestParser.java:275-293 | when the separator ends within the limit, the loop returns exactly the bytes up to and including it and leaves the rest unread |
| HttpHeaders.HeadersLoopFails | src/in/kote/ssf/net/http/HttpRequestParser.java:276-286 | too many bytes before the separator is "Header section has more than … bytes", and a stream that ends first is "Stream ended unexpectedly" |
| HttpHeaders.HeadersLoopOnStream | src/in/kote/ssf/net/http/HttpRequestParser.java:275-293 | all four outcomes of the header loop on a given stream, as one case split |
| HttpHeaders.ReadHeadersOnStream | src/in/kote/ssf/net/http/HttpRequestParser.java:269-309 | readHeaders on a stream: the Latin-1 text up to the first CR LF CR LF with the rest left unread, or the too-long or ended-early error |
| HttpHeaders.MismatchResetsToZero | src/in/kote/ssf/net/http/HttpRequestParser.java:287-291 | a mismatch resets the match index to 0 without rechecking the byte, so CR CR LF CR LF is found only at the next full separator (here at 7, not 5) |
| HttpMultipart.DoneF | src/in/kote/ssf/net/http/HttpRequestParser.java:360-377 | isMultiPartRequestDone reads two bytes: "--" is true, CR LF false, anything else "Invalid multipart request"; it lowers the measure |
| HttpMultipart.ScanStep | src/in/kote/ssf/net/http/HttpRequestParser.java:472-506 | one step of the prefix matcher: what was written plus the matched part of CR LF "--" is always the old output, the old match and the new byte |
| HttpParser.MatchPrefixByte | src/in/kote/ssf/net/http/HttpRequestParser.java:472-506 | the same step on the four-byte `miniBuffer` array: it agrees with `ScanStep` and keeps the array holding the matched prefix |
| HttpMultipart.ValueLoopShrinks | src/in/kote/ssf/net/http/HttpRequestParser.java:463-528 | the value loop, including the head rewind, strictly lowers the measure on success |
| HttpMultipart.DoneOnStream | src/in/kote/ssf/net/http/HttpRequestParser.java:360-377 | after the boundary, "--" ends the request and CR LF starts another part; either way two bytes are consumed |
| HttpMultipart.FalsePrefixSkipped | src/in/kote/ssf/net/http/HttpRequestParser.java:509-526 | when everything is buffered, a CR LF "--" not followed by the boundary is written out and head returns exactly after it |
| HttpMultipart.ValueRoundTrip | src/in/kote/ssf/net/http/HttpRequestParser.java:453-531 | a part body `b` followed by CR LF "--" boundary is read back as exactly `b`, the end flag says whether "--" followed, and the stream is left after the two bytes |
| HttpMultipart.ReadValueWithinMax | src/in/kote/ssf/net/http/HttpRequestParser.java:461-470 | maxPostSize bounds every value readMultiPartValue returns: the value plus the four-byte delimiter prefix is at most maxPostSize bytes |
| HttpMultipart.ValueTooLarge | src/in/kote/ssf/net/http/HttpRequestParser.java:461-470 | a body with no delimiter among its first maxPostSize bytes (and the stream either fully buffered or free of CR LF "--" there) fails with "File size exceeds maximum allowed size of … bytes" |
| HttpMultipart.RewindAfterRefillFails | src/in/kote/ssf/net/http/HttpRequestParser.java:510-525 | one concrete case: a four-byte buffer filled by CR LF "--", then two stream bytes that are not the two-byte boundary; the compare refills the buffer, the rewind sets head to 4 with tail 2, and the next read throws ArrayIndexOutOfBoundsException |
| HttpParser.IsBoundary | src/in/kote/ssf/net/http/HttpRequestParser.java:386-394 | compares the first boundary-length bytes; a shorter candidate that matches as far as it goes throws ArrayIndexOutOfBoundsException |
| HttpQuery.ParseQueryString | src/in/kote/ssf/net/http/HttpRequestParser.java:581-601 | the loop over the `[&;]+` pieces builds the map `QueryArgs` describes; the empty string gives null |
| HttpQuery.ParseGETRequest | src/in/kote/ssf/net/http/HttpRequestParser.java:560-574 | takes the target between the first and last space, then the query after its first '?' |
| HttpQuery.PiecesHaveNoSeparator | src/in/kote/ssf/net/http/HttpRequestParser.java:586 | no piece holds '&' or ';' |
| HttpQuery.AddPieceKept | src/in/kote/ssf/net/http/HttpRequestParser.java:589-598 | a piece with '=' at index 1 or later and a non-empty value is stored under its lower-cased key with the decoded value; any other piece changes nothing |
| HttpQuery.QueryArgsKeys | src/in/kote/ssf/net/http/HttpRequestParser.java:589-598 | the map's keys are exactly the keys of the kept pieces |
| HttpQuery.QueryArgsLastWins | src/in/kote/ssf/net/http/HttpRequestParser.java:597 | each key maps to the decoded value of its last kept piece |
| HttpQuery.QueryKeysLower | src/in/kote/ssf/net/http/HttpRequestParser.java:597 | every key is non-empty and lower-case |
| HttpQuery.ParseQueryStringNull | src/in/kote/ssf/net/http/HttpRequestParser.java:584 | the result is null exactly for the empty query |
| HttpQuery.GetLineArgs | src/in/kote/ssf/net/http/HttpRequestParser.java:560-574 | for `METHOD SP path?query SP VERSION`, the arguments are those of the query |
| HttpQuery.GetNeedsTwoSpacesAndQuery | src/in/kote/ssf/net/http/HttpRequestParser.java:562-569 | a non-null result needs two distinct spaces with a '?' between them |
| HttpProcess.Latin1Bytes | src/in/kote/ssf/net/http/HttpRequestParser.java:211 | `getBytes("ISO-8859-1")` maps each character below 256 to its code and any other to '?' |
| HttpProcess.GetHeadersF | src/in/kote/ssf/net/http/HttpRequestParser.java:251-260 | getHeaders stores the header text and keeps the boundary and completion flag; it never fails with an HTTPParseException |
| HttpProcess.ScanLines | src/in/kote/ssf/net/http/HttpRequestParser.java:194-218 | the header-line loop never touches the input or the completion flag |
| HttpProcess.ScanLineFacts | src/in/kote/ssf/net/http/HttpRequestParser.java:194-218 | one header line sets the method exactly when it starts with GET or POST, and clears boundaryAvailable exactly on a multipart line without a usable boundary |
| HttpProcess.ScanLinesMethod | src/in/kote/ssf/net/http/HttpRequestParser.java:194-199 | after the loop the method is still null exactly when no line starts with GET or POST |
| HttpProcess.ScanLinesBoundary | src/in/kote/ssf/net/http/HttpRequestParser.java:203-216 | boundaryAvailable stays true exactly when no multipart line lacks a usable `boundary=` part |
| HttpProcess.ScanFirstLine | src/in/kote/ssf/net/http/HttpRequestParser.java:195-197 | the remembered first line always starts with GET |
| HttpProcess.ContentLengthBranch | src/in/kote/ssf/net/http/HttpRequestParser.java:200-202 | a Content-Length line sets the length to the integer after the whitespace |
| HttpProcess.ContentLengthLine | src/in/kote/ssf/net/http/HttpRequestParser.java:200-202 | `Content-Length: n` in any letter case sets the content length to n |
| HttpProcess.MultiPartBranch | src/in/kote/ssf/net/http/HttpRequestParser.java:203-213 | a multipart line with exactly one `boundary=` marks the request multipart and stores the ISO-8859-1 bytes after it |
| HttpProcess.MultiPartLine | src/in/kote/ssf/net/http/HttpRequestParser.java:203-213 | `Content-Type: multipart/form-data; boundary=B` sets the multipart flag and the boundary bytes of B |
| HttpProcess.DispatchOnScan | src/in/kote/ssf/net/http/HttpRequestParser.java:220-241 | the dispatch after the header scan: no method, GET, multipart POST with or without a boundary, and plain POST |
| HttpProcess.DispatchErrors | src/in/kote/ssf/net/http/HttpRequestParser.java:220-240 | each of the dispatch's three parse errors comes only from its own branch: no method, a multipart POST without a usable boundary, a plain POST with Content-Length 0 |
| HttpProcess.ProcessErrors | src/in/kote/ssf/net/http/HttpRequestParser.java:187-241 | process fails with "Invalid HTTP request", "Boundary is mandatory in a multipart request" or "Content-Length HTTP header is mandatory" exactly in those header situations: each situation gives its error, and each error implies its situation |
| HttpProcess.ProcessGet | src/in/kote/ssf/net/http/HttpRequestParser.java:187-225 | a GET request's arguments are parseGETRequest of its GET line, and the body is not read |
| HttpProcess.PostLoop | src/in/kote/ssf/net/http/HttpRequestParser.java:619-626 | the POST body loop returns its accumulator extended by at most the remaining count |
| HttpProcess.PostLoopOnStream | src/in/kote/ssf/net/http/HttpRequestParser.java:619-626 | the POST loop reads min(n, available) bytes; end of stream ends it silently |
| HttpProcess.PostF | src/in/kote/ssf/net/http/HttpRequestParser.java:608-629 | parsePOSTRequest leaves the request, boundary and flag unchanged; it fails with "Content-Length HTTP header is mandatory" exactly when the length is 0, and otherwise only with ArrayIndexOutOfBoundsException |
| HttpProcess.PostOnStream | src/in/kote/ssf/net/http/HttpRequestParser.java:608-629 | the POST arguments are parseQueryString of the first Content-Length bytes, or of all bytes if fewer arrive |
| HttpProcess.DispositionPiece | src/in/kote/ssf/net/http/HttpRequestParser.java:415-425 | a disposition piece can only fail with an index error (a `name` or `filename` without '=') |
| HttpProcess.Disposition | src/in/kote/ssf/net/http/HttpRequestParser.java:414-426 | a Content-Disposition line's pieces can only fail with an index error |
| HttpProcess.NamePiece | src/in/kote/ssf/net/http/HttpRequestParser.java:416-418 | ` name="v"` sets the parameter name to v |
| HttpProcess.FileNamePiece | src/in/kote/ssf/net/http/HttpRequestParser.java:420-425 | ` filename="path"` sets the file name to the path's last backslash-separated component |
| HttpProcess.DescribeLine | src/in/kote/ssf/net/http/HttpRequestParser.java:411-432 | a part header line changes at most the request's file content type |
| HttpProcess.DescribeLines | src/in/kote/ssf/net/http/HttpRequestParser.java:411-433 | the part header loop changes at most the request's file content type |
| HttpProcess.PartContentTypeLine | src/in/kote/ssf/net/http/HttpRequestParser.java:429-432 | `Content-Type: T` in a part sets the file content type to lower-case T |
| HttpProcess.ContentTypeBranch | src/in/kote/ssf/net/http/HttpRequestParser.java:429-432 | a part line mentioning content-type sets the file content type to its second whitespace-separated word, lower-cased |
| HttpProcess.StoreF | src/in/kote/ssf/net/http/HttpRequestParser.java:437-443 | storing a part value leaves the input, boundary and flag unchanged |
| HttpProcess.ParamF | src/in/kote/ssf/net/http/HttpRequestParser.java:402-445 | readMultiPartParameter keeps the boundary; its only HTTPParseException is "Invalid multipart request" |
| HttpProcess.ParamShrinks | src/in/kote/ssf/net/http/HttpRequestParser.java:402-445 | a successful part read strictly lowers the measure, so the part loop terminates |
| HttpProcess.ParamOnStream | src/in/kote/ssf/net/http/HttpRequestParser.java:402-445 | one complete part on the wire: a file part stores its bytes and file name, a field part stores the text under the lower-cased name, a part with neither is a NullPointerException; the stream is left after the two bytes |
| HttpProcess.PartsLoop | src/in/kote/ssf/net/http/HttpRequestParser.java:548-550 | the part loop succeeds only once the request is complete; its only HTTPParseException is "Invalid multipart request" |
| HttpProcess.MultiPartF | src/in/kote/ssf/net/http/HttpRequestParser.java:539-551 | parseMultiPartRequest's only HTTPParseException is "Invalid multipart request" |
| HttpProcess.MultiPartOpening | src/in/kote/ssf/net/http/HttpRequestParser.java:539-551 | the body must open with "--" (otherwise "Invalid multipart request", or "No more data is available" at end of stream); the opening boundary text is not checked |
| HttpParser.HttpRequestParser.constructor | src/in/kote/ssf/net/http/HttpRequestParser.java:158-167 | a buffer of defaultBufSize bytes, head = tail = 0, a fresh request |
| HttpParser.HttpRequestParser.Read | src/in/kote/ssf/net/http/HttpRequestParser.java:322 | the array and indices change as `ReadChunk` says |
| HttpParser.HttpRequestParser.ReadByte | src/in/kote/ssf/net/http/HttpRequestParser.java:317-331 | the array and indices change as `ReadByteF` says |
| HttpParser.HttpRequestParser.ReadBytes | src/in/kote/ssf/net/http/HttpRequestParser.java:340-348 | the loop of readByte calls, as `ReadBytesF` says |
| HttpParser.HttpRequestParser.ReadHeaders | src/in/kote/ssf/net/http/HttpRequestParser.java:269-309 | the header loop on the array, as `ReadHeadersF` with headerPartMaxSize says |
| HttpParser.HttpRequestParser.IsMultiPartRequestDone | src/in/kote/ssf/net/http/HttpRequestParser.java:360-377 | as `DoneF` says |
| HttpParser.HttpRequestParser.CompareBoundary | src/in/kote/ssf/net/http/HttpRequestParser.java:509-526 | reads boundary-length bytes; on a match reads the end marker and sets the completion flag; on a mismatch puts head back |
| HttpParser.HttpRequestParser.ReadMultiPartValue | src/in/kote/ssf/net/http/HttpRequestParser.java:453-531 | the value loop with `miniBuffer`, as `ReadValueF` with maxPostSize says; the end flag sets requestComplete |
| HttpParser.HttpRequestParser.DescribeDisposition | src/in/kote/ssf/net/http/HttpRequestParser.java:414-426 | the loop over the `;` pieces, as `Disposition` says |
| HttpParser.HttpRequestParser.DescribePart | src/in/kote/ssf/net/http/HttpRequestParser.java:411-433 | the loop over a part's header lines, as `DescribeLines` says |
| HttpParser.HttpRequestParser.ReadMultiPartParameter | src/in/kote/ssf/net/http/HttpRequestParser.java:402-445 | as `ParamF` says |
| HttpParser.HttpRequestParser.ParseMultiPartRequest | src/in/kote/ssf/net/http/HttpRequestParser.java:539-551 | as `MultiPartF` says |
| HttpParser.HttpRequestParser.ParsePOSTRequest | src/in/kote/ssf/net/http/HttpRequestParser.java:608-629 | as `PostF` says |
| HttpParser.HttpRequestParser.GetHeaders | src/in/kote/ssf/net/http/HttpRequestParser.java:251-260 | as `GetHeadersF` says |
| HttpParser.HttpRequestParser.ScanHeaderLines | src/in/kote/ssf/net/http/HttpRequestParser.java:194-218 | the header-line loop, as `ScanLines` says |
| HttpParser.HttpRequestParser.Process | src/in/kote/ssf/net/http/HttpRequestParser.java:187-241 | as `ProcessF` says, whose outcomes `ProcessErrors`, `ProcessGet`, `PostOnStream` and `ParamOnStream` describe |
| Pooling.SocketPoolEntry.constructor | src/in/kote/ssf/net/SocketPool.java:155-164 | a new connection is open |
| Pooling.EmptyLists | src/in/kote/ssf/net/SocketPool.java:85-93 | every endpoint that is not the local host gets an empty list, and no other key is added |
| Pooling.Taken | src/in/kote/ssf/net/SocketPool.java:178-220 | taking a cached connection removes the head of that endpoint's list and drops the key when the list empties; other endpoints are untouched |
| Pooling.Returned | src/in/kote/ssf/net/SocketPool.java:232-273 | a returned connection is appended, or starts a list, unless the list is full; other endpoints are untouched |
| Pooling.TakenKeepsBound | src/in/kote/ssf/net/SocketPool.java:178-220 | taking keeps every list within perEndPointPoolSize |
| Pooling.ReturnedKeepsBound | src/in/kote/ssf/net/SocketPool.java:232-273 | returning keeps every list within perEndPointPoolSize |
| Pooling.EmptyListsKeepBound | src/in/kote/ssf/net/SocketPool.java:85-93 | adding empty lists keeps the bound |
| Pooling.ReturnThenTake | src/in/kote/ssf/net/SocketPool.java:178-273 | returning to an endpoint without a list and then taking gives that entry back and restores the pool |
| Pooling.ReturnedGoesLast | src/in/kote/ssf/net/SocketPool.java:178-273 | the pool is FIFO: a returned entry goes behind the cached ones |
| Pooling.Updated | src/in/kote/ssf/net/SocketPool.java:329-373 | updatePool adds empty lists for the new non-local endpoints, drops the removed unhashed ones and keeps the rest |
| Pooling.UpdateKeepsSurvivors | src/in/kote/ssf/net/SocketPool.java:329-373 | an endpoint in both lists keeps its cached connections |
| Pooling.UpdatedKeepsBound | src/in/kote/ssf/net/SocketPool.java:329-373 | updating keeps the bound |
| Pooling.SocketPool.constructor | src/in/kote/ssf/net/SocketPool.java:61 | an empty pool |
| Pooling.SocketPool.InitPool | src/in/kote/ssf/net/SocketPool.java:71-93 | "already been initialized" for a non-empty pool, "Invalid initialization parameters" for a null or empty list or size 0, otherwise an empty list per non-local endpoint |
| Pooling.SocketPool.DisconnectEndPoint | src/in/kote/ssf/net/SocketPool.java:132-145 | closes every cached connection of the endpoint; an endpoint without a list is a NullPointerException |
| Pooling.SocketPool.GetSocketPoolEntry | src/in/kote/ssf/net/SocketPool.java:178-220 | a null endpoint is an error; a cached entry is taken from the front; otherwise a new connection is opened (or its failure reported) and the pool is unchanged |
| Pooling.SocketPool.ReturnSocketPoolEntry | src/in/kote/ssf/net/SocketPool.java:232-273 | a null endpoint or entry is an error; otherwise `Returned`, and the entry is closed when the list is full |
| Pooling.SocketPool.UpdatePool | src/in/kote/ssf/net/SocketPool.java:329-373 | `Updated`, with every dropped endpoint's connections closed; a null list or a dropped endpoint without a list is a NullPointerException |
| Pooling.SocketPool.PutEmptyLists | src/in/kote/ssf/net/SocketPool.java:343-350 | adds `EmptyLists` of the new endpoints |
| Pooling.SocketPool.DisconnectAll | src/in/kote/ssf/net/SocketPool.java:353-365 | disconnects and removes each removed unhashed endpoint |
| Pooling.SocketPool.ShutdownAsWritten | src/in/kote/ssf/net/SocketPool.java:380-397 | removing inside the iteration throws ConcurrentModificationException exactly when there are at least two endpoints, after one endpoint is closed and removed |
| Pooling.SocketPool.Shutdown | src/in/kote/ssf/net/SocketPool.java:380-397 | the intended shutdown: every connection is closed and the pool is empty |
| Hashing.Position | src/in/kote/ssf/net/ConsistentHash.java:85-86 | `md5.intValue() % 1000` lies in -999..999 (Java remainder of the wrapped value) |
| Hashing.Positions | src/in/kote/ssf/net/ConsistentHash.java:84-88 | one position per replica index: entry i is the position of `toString() + i`, for every i below the replica count |
| Hashing.ReplicaCountOf | src/in/kote/ssf/net/ConsistentHash.java:73-75 | getReplicaCount throws ArithmeticException exactly when the total weight is 0 |
| Hashing.ReplicaCountExact | src/in/kote/ssf/net/ConsistentHash.java:73-75 | without overflow it is floor(1000 * w / total) |
| Hashing.ReplicaCountsFitTheRing | src/in/kote/ssf/net/ConsistentHash.java:32-35 | the replica counts of all nodes add up to at most 1000 |
| Hashing.PutAllSpec | src/in/kote/ssf/net/ConsistentHash.java:84-88 | after add, every replica position maps to the node and other positions are unchanged |
| Hashing.RemoveAllSpec | src/in/kote/ssf/net/ConsistentHash.java:98-103 | after remove, the node's positions are gone and the rest are unchanged |
| Hashing.RemoveUndoesPut | src/in/kote/ssf/net/ConsistentHash.java:82-104 | removing a node whose positions were free undoes adding it |
| Hashing.TotalWeightIsWrappedSum | src/in/kote/ssf/net/ConsistentHash.java:47-49 | the total weight is the 32-bit wrapped sum of the weights |
| Hashing.BuildCircle | src/in/kote/ssf/net/ConsistentHash.java:44-55 | the constructor fails exactly when there are nodes and the total is 0, and every position maps to one of the nodes |
| Hashing.Least | src/in/kote/ssf/net/ConsistentHash.java:126 | `firstKey()` is the least key |
| Hashing.Successor | src/in/kote/ssf/net/ConsistentHash.java:124-126 | the first key at or after the hash, wrapping to the least key |
| Hashing.Get | src/in/kote/ssf/net/ConsistentHash.java:114-130 | null exactly for an empty circle, otherwise the node at the successor of the key's position |
| Hashing.ConsistentHash.Empty | src/in/kote/ssf/net/ConsistentHash.java:28-36 | an empty circle and total weight 0 |
| Hashing.ConsistentHash.Create | src/in/kote/ssf/net/ConsistentHash.java:44-55 | the constructor's circle is `BuildCircle` of the nodes and its total `TotalWeightOf` |
| Hashing.ConsistentHash.SumWeights | src/in/kote/ssf/net/ConsistentHash.java:47-49 | the weight loop sets the total to `TotalWeightOf` |
| Hashing.ConsistentHash.AddAll | src/in/kote/ssf/net/ConsistentHash.java:52-54 | the add loop builds `BuildCircle` |
| Hashing.ConsistentHash.Add | src/in/kote/ssf/net/ConsistentHash.java:82-89 | puts the node at each replica position, or throws ArithmeticException and changes nothing |
| Hashing.ConsistentHash.Remove | src/in/kote/ssf/net/ConsistentHash.java:96-104 | removes each replica position, or throws ArithmeticException and changes nothing |
| EndPoints.StringHashIsWrappedPolynomial | src/in/kote/ssf/net/EndPoint.java:111-115 | `String.hashCode` is the polynomial sum of 31^k times the characters, wrapped to 32 bits |
| EndPoints.CompareStringsZero | src/in/kote/ssf/net/EndPoint.java:117-120 | `String.compareTo` is 0 exactly for equal strings |
| EndPoints.CompareStringsAntisymmetric | src/in/kote/ssf/net/EndPoint.java:117-120 | `String.compareTo` is antisymmetric |
| EndPoints.CheckAddress | src/in/kote/ssf/net/EndPoint.java:31-39 | the constructor's socket address check: it passes exactly for ports 0..65535 and otherwise raises IllegalArgumentException |
| EndPoints.ParseEndPoint | src/in/kote/ssf/net/EndPoint.java:128-132 | fromString fails only with an index, number-format or illegal-argument error, and yields a colon-free host and a port in 0..65535 |
| EndPoints.ParseEndPointOfText | src/in/kote/ssf/net/EndPoint.java:128-132 | `host:port` for a colon-free host and a port in 0..65535 parses back to that host and port; any other `int` port raises IllegalArgumentException |
| EndPoints.ColonHostDoesNotRoundTrip | src/in/kote/ssf/net/EndPoint.java:122-132 | an IPv6-style host such as "::1" does not survive toString then fromString |
| EndPoints.EndPoint.constructor | src/in/kote/ssf/net/EndPoint.java:31-36 | the object built once the port check has passed: host and port as given; weight 0, id 0, type null |
| EndPoints.EndPoint.Create | src/in/kote/ssf/net/EndPoint.java:31-39 | `new EndPoint(host, port)`: a fresh endpoint with host and port as given, weight 0, id 0, type null, exactly when the port is in 0..65535; otherwise IllegalArgumentException |
| EndPoints.EndPoint.Equals | src/in/kote/ssf/net/EndPoint.java:101-110 | equal exactly when the other is non-null with the same host and port |
| EndPoints.EndPoint.HashCode | src/in/kote/ssf/net/EndPoint.java:111-115 | the wrapped string hash of host followed by port |
| EndPoints.EndPoint.CompareTo | src/in/kote/ssf/net/EndPoint.java:117-120 | 0 exactly when the hosts are equal, and the opposite of comparing the other way |
| EndPoints.EndPoint.SetPort | src/in/kote/ssf/net/EndPoint.java:51-54 | changes the port and nothing else |
| EndPoints.EndPoint.SetWeight | src/in/kote/ssf/net/EndPoint.java:60-62 | changes the weight and nothing else |
| EndPoints.EndPoint.SetId | src/in/kote/ssf/net/EndPoint.java:68-70 | changes the id and nothing else |
| EndPoints.EndPoint.SetType | src/in/kote/ssf/net/EndPoint.java:76-78 | changes the type and nothing else |
| EndPoints.ToStringRoundTrip | src/in/kote/ssf/net/EndPoint.java:122-132 | fromString(toString()) gives back host and port for a colon-free host and a port in 0..65535, and raises IllegalArgumentException for a port setPort moved out of that range |
| EndPoints.EqualsImpliesSameHash | src/in/kote/ssf/net/EndPoint.java:101-115 | equal endpoints have equal hash codes |
| EndPoints.EqualsIsEquivalence | src/in/kote/ssf/net/EndPoint.java:101-110 | equals is reflexive, symmetric and transitive |
| EndPoints.CompareToIgnoresPort | src/in/kote/ssf/net/EndPoint.java:101-120 | compareTo is inconsistent with equals: same host, different port compares 0 but is not equal |
| EndPoints.FromString | src/in/kote/ssf/net/EndPoint.java:128-132 | a fresh endpoint with the parsed host and port, or the error of the split, `parseInt` or the constructor's port check |
| BasicUtilities.IsHostLocalHost | src/main/java/in/kote/ssf/util/BasicUtilities.java:29-43 | "localhost" in any case and "127.0.0.1" are local; with no configured name nothing else is |
| BasicUtilities.LoopbackIgnoringCase | src/main/java/in/kote/ssf/util/BasicUtilities.java:33-34 | only "127.0.0.1" itself equals it ignoring case |
| BasicUtilities.NoConfiguredLocalHost | src/main/java/in/kote/ssf/util/BasicUtilities.java:29-43 | with a null local host, local exactly for the two loopback spellings |
| BasicUtilities.ConfiguredLocalHost | src/main/java/in/kote/ssf/util/BasicUtilities.java:29-43 | with a configured name, local exactly for a loopback spelling or the name ignoring case |
| StringUtil.Join | src/main/java/in/kote/ssf/util/StringUtil.java:17-28 | the loop builds the pieces separated by `sep` |
| StringUtil.JoinArray | src/main/java/in/kote/ssf/util/StringUtil.java:39-49 | the array form gives the same join |
| StringUtil.Joinv | src/main/java/in/kote/ssf/util/StringUtil.java:51-53 | the varargs form gives the same join |
| StringUtil.JoinIntegerList | src/main/java/in/kote/ssf/util/StringUtil.java:30-37 | the join of the decimal forms |
| StringUtil.Concat | src/main/java/in/kote/ssf/util/StringUtil.java:55-64 | the pieces run together |
| StringUtil.Concatv | src/main/java/in/kote/ssf/util/StringUtil.java:66-69 | the varargs form gives the same concatenation |
| StringUtil.JoinIsHeadThenPrefixedTail | src/main/java/in/kote/ssf/util/StringUtil.java:17-28 | the join is the first piece followed by `sep + piece` for each later piece |
| StringUtil.ConcatIsJoinWithEmptySeparator | src/main/java/in/kote/ssf/util/StringUtil.java:39-64 | concat equals join with "" |
| StringUtil.JoinAppend | src/main/java/in/kote/ssf/util/StringUtil.java:17-28 | joining two non-empty lists puts one separator between their joins |
| StringUtil.JoinLength | src/main/java/in/kote/ssf/util/StringUtil.java:17-28 | the join's length is the pieces' total plus n - 1 separators |
| StringUtil.ConcatAppend | src/main/java/in/kote/ssf/util/StringUtil.java:55-64 | concatenation distributes over appending lists |
| StringUtil.Escape | src/main/java/in/kote/ssf/util/StringUtil.java:121-145 | null gives "", otherwise each of & < > " is replaced by its entity |
| StringUtil.UnescapeEscape | src/main/java/in/kote/ssf/util/StringUtil.java:121-145 | decoding the four entities gives back the original string |
| StringUtil.EscapeHasNoMarkup | src/main/java/in/kote/ssf/util/StringUtil.java:121-145 | the escaped text holds no < > or " |
| StringUtil.PrepareCsv | src/main/java/in/kote/ssf/util/StringUtil.java:154-166 | the field always ends with a comma |
| StringUtil.UndoubleDouble | src/main/java/in/kote/ssf/util/StringUtil.java:158 | undoubling the doubled quotes gives back the text |
| StringUtil.PrepareCsvRoundTrip | src/main/java/in/kote/ssf/util/StringUtil.java:154-166 | reading the CSV field back gives the original string ("" for null) |
| StringUtil.ContainsIgnoreCase | src/main/java/in/kote/ssf/util/StringUtil.java:176-185 | true exactly when some needle lower-cased occurs in the lower-cased haystack |
| Stages.Stage.Shutdown | src/in/kote/ssf/concurrent/StageManager.java:71 | a stage is shut down, or its shutdown throws and it is left as it was |
| Stages.StageManager.constructor | src/in/kote/ssf/concurrent/StageManager.java:23 | an empty registry |
| Stages.StageManager.GetStage | src/in/kote/ssf/concurrent/StageManager.java:39-42 | the registered stage, or null for an unknown name |
| Stages.StageManager.RegisterStage | src/in/kote/ssf/concurrent/StageManager.java:30-33 | the name now maps to the stage (replacing any earlier one); other names are unchanged |
| Stages.StageManager.DeregisterStage | src/in/kote/ssf/concurrent/StageManager.java:48-51 | the name is gone; other names are unchanged |
| Stages.StageManager.GetStageTaskCount | src/in/kote/ssf/concurrent/StageManager.java:59-62 | the stage's task count, or a NullPointerException exactly when no stage is registered |
| Stages.StageManager.Shutdown | src/in/kote/ssf/concurrent/StageManager.java:67-73 | succeeds exactly when every registered stage is non-null and shuts down, and then all are shut down; no stage is un-shut |
| Threads.NameHasPrefix | src/in/kote/ssf/concurrent/ThreadFactoryImpl.java:37 | every name is the factory id, ':' and a number |
| Threads.NamesDistinct | src/in/kote/ssf/concurrent/ThreadFactoryImpl.java:25-37 | counter values less than 2^32 apart give distinct names |
| Threads.NamesRepeatAfterWrap | src/in/kote/ssf/concurrent/ThreadFactoryImpl.java:25-37 | the 32-bit counter wraps: call 2^32 + 1 repeats the name of call 1 |
| Threads.ThreadFactoryImpl.constructor | src/in/kote/ssf/concurrent/ThreadFactoryImpl.java:25-33 | the counter starts at 1 and no names have been issued |
| Threads.ThreadFactoryImpl.NewThread | src/in/kote/ssf/concurrent/ThreadFactoryImpl.java:35-40 | the name is `id:n` for the current counter, and the counter goes up with 32-bit wrap-around |
| Threads.IssuedNamesDistinct | src/in/kote/ssf/concurrent/ThreadFactoryImpl.java:25-40 | the first 2^32 names a factory issues are pairwise distinct |

## Findings

| source | as written | input that shows it | evidently intended | confidence | as-written member | corrected member |
|---|---|---|---|---|---|---|
| src/in/kote/ssf/net/SocketPool.java:380-397 | `shutdown` calls `socketPool.remove(ep)` inside a for-each over `socketPool.entrySet()` | a pool with two endpoints: after the first removal the iterator's next `next()` throws ConcurrentModificationException, and the second endpoint's connections stay open | close every cached connection and empty the pool | high (not executed) | Pooling.SocketPool.ShutdownAsWritten | Pooling.SocketPool.Shutdown |

## Left out

- I/O: the socket is a sequence of chunks passed in. Refusal to connect in `getSocketPoolEntry` is a parameter (`connectError`).
- Concurrency: the `ReentrantLock` in `SocketPool`, thread-safety of the static maps and `AtomicInteger`. Each operation runs alone. The thread group and the `Thread` object in `newThread` are not modelled; only the name is.
- Character sets: header and part text is decoded as ISO-8859-1, one character per byte. That includes the `headerEncoding` choice and the UTF-8 decoding of field values, which the model treats the same way. `toLowerCase` and `equalsIgnoreCase` are ASCII-only.
- `URLDecoder.decode` and MD5 are not modelled: they are parameters (`decode`, `md5`) that any function can fill.
- Logging, `getOut`/`getIn`, `initEndPoint`'s commented-out connection code, `getNewCircle` and `get(Object)` on the static circle are not modelled.
- `InetSocketAddress` in `EndPoint`: only its port-range check is modelled. Host name resolution, `getInetSocketAddress` and `getInetAddress` are not, nor the IllegalArgumentException for a null host (the model's strings are never null).
- EndPoints.StringHash, EndPoints.EndPoint.HashCode, EndPoints.EndPoint.CompareTo: a `char` here is a Unicode code point, where Java's `String.hashCode` and `compareTo` work on UTF-16 code units. They agree on text inside the Basic Multilingual Plane and differ for supplementary characters (e.g. U+1D538).
- EndPoints.ParseEndPoint: `Integer.parseInt` is modelled on ASCII digits only. Java also accepts other Unicode decimal digits (e.g. Arabic-Indic digits), which the model rejects with NumberFormatException.
- `StringUtil.urlEncode`, `urlDecode` and `convertToQueryString` are not modelled: they wrap the JDK URL codecs and HashMap order. The model's strings cannot be null, so `StringBuilder.append(null)` printing "null" is not modelled.
- Stage implementations (queues, executors) are not modelled. A stage is its shutdown flag, task count and whether `shutdown` throws (a SecurityException).
- The "Unsupported HTTP request" branch of `process` is unreachable: the method is only ever set to GET or POST. It is therefore not modelled separately.
- HttpMultipart.ValueRoundTrip: proved when all remaining bytes are already buffered, or when the body holds no CR LF "--" at all. In other cases a false delimiter whose compare refills the buffer breaks the rewind (`RewindAfterRefillFails`).
- HttpProcess.ParamOnStream: like `ValueRoundTrip`, it assumes the body holds no CR LF "--".
- HttpMultipart.ValueTooLarge: proved under the same condition as `ValueRoundTrip` (everything buffered, or no CR LF "--" among the first maxPostSize bytes), and when at least boundary-length bytes follow the limit, so that no compare runs out of data first.
- HttpMultipart.RewindAfterRefillFails: proves one instance, not the general behaviour. With a larger buffer the rewound head can land inside the refilled bytes instead, and the scan then re-reads the wrong bytes rather than throwing; that case is not stated.
- Hashing.ReplicaCountsFitTheRing: proved only when `1000 * total weight` fits in 32 bits. Beyond that, Java's overflowing multiplication gives meaningless counts.
- Threads.IssuedNamesDistinct: holds only for the first 2^32 names. After that the counter wraps and names repeat (`NamesRepeatAfterWrap`).
- StageManager iteration order: `Stages.StageManager.Shutdown` visits stages in an unspecified order, as HashMap does. Its contract therefore does not say which stages were shut down before a failure.
