/**
 * HttpRequestParser: the byte-level request parser over its read buffer.
 * The buffer is a fixed-size array with `head` and `tail` indices; the
 * socket's InputStream is the sequence of chunks it has yet to deliver. Each
 * method changes the fields exactly as the matching function of the
 * HttpStream, HttpHeaders, HttpMultipart, HttpQuery and HttpProcess modules
 * says, so the properties proved there hold of the parser's runs.
 */
module HttpParser {
  import opened Wrappers
  import opened JavaText
  import opened HttpRequests
  import opened HttpConfig
  import opened HttpStream
  import opened HttpHeaders
  import opened HttpMultipart
  import opened HttpQuery
  import opened HttpProcess

  /** isBoundary: compares the first boundaryLength bytes of `candidate`
      with the boundary; a shorter candidate that agrees as far as it goes
      runs off its end. The only caller passes readBytes(boundaryLength),
      so that branch is not reached from the parser. */
  method IsBoundary(candidate: seq<byte>, boundary: seq<byte>) returns (r: Result<bool>)
    ensures |candidate| >= |boundary| ==> r == Ok(candidate[..|boundary|] == boundary)
    ensures |candidate| < |boundary| ==>
      r == (if candidate == boundary[..|candidate|] then Err(RuntimeFailure(IndexOutOfBounds)) else Ok(false))
  {
    var i := 0;
    while i < |boundary|
      invariant 0 <= i <= |boundary|
      invariant i <= |candidate|
      invariant candidate[..i] == boundary[..i]
    {
      if i >= |candidate| {
        assert candidate == boundary[..|candidate|];
        return Err(RuntimeFailure(IndexOutOfBounds));
      }
      if candidate[i] != boundary[i] {
        assert |candidate| < |boundary| || candidate[..|boundary|][i] != boundary[i];
        return Ok(false);
      }
      i := i + 1;
    }
    assert candidate[..|boundary|] == boundary;
    return Ok(true);
  }

  /** One byte of the prefix matcher in readMultiPartValue: a CR writes out
      the bytes matched so far and starts a new match, the next prefix byte
      extends the match, any other byte writes out the match and itself.
      miniBuffer holds the matched bytes. */
  method MatchPrefixByte(miniBuffer: array<byte>, i: nat, c: byte, value: seq<byte>) returns (i': nat, value': seq<byte>)
    requires miniBuffer.Length == 4 && i < 4 && miniBuffer[..i] == BoundaryPrefix[..i]
    modifies miniBuffer
    ensures (i', value') == ScanStep(i, c, value)
    ensures i' <= 4 && miniBuffer[..i'] == BoundaryPrefix[..i']
  {
    i', value' := i, value;
    if c == CR {
      value' := value' + miniBuffer[..i'];
      miniBuffer[i'] := c;
      i' := 1;
    } else if c == BoundaryPrefix[i'] {
      miniBuffer[i'] := c;
      i' := i' + 1;
    } else {
      value' := value' + miniBuffer[..i'];
      i' := 0;
    }
    if i' == 0 {
      value' := value' + [c];
    }
  }

  class HttpRequestParser {
    /** The configuration's limits. */
    const serverConfig: ServerConfig
    /** The read buffer, of defaultBufSize bytes. */
    const buffer: array<byte>
    /** The index of the next byte to read. */
    var head: int
    /** One past the last valid byte of the buffer, or -1 after the end of the stream. */
    var tail: int
    /** The chunks the socket's InputStream has yet to deliver. */
    var input: seq<seq<byte>>
    /** The multipart boundary; boundaryLength is its length. */
    var boundary: Option<seq<byte>>
    var requestComplete: bool
    const httpRequest: HttpRequest
    /** StringUtil.urlDecode. */
    const decode: string -> string

    function Source(): Src
      reads this, buffer
    {
      Src(buffer[..], head, tail, input)
    }

    function State(): Parser
      reads this, buffer, httpRequest
    {
      Parser(Source(), httpRequest.State(), boundary, requestComplete)
    }

    /** HttpRequestParser(config, socket): an empty buffer of the configured
        size, a fresh request, no boundary. */
    constructor(config: ServerConfig, stream: seq<seq<byte>>, urlDecode: string -> string)
      requires config.defaultBufSize >= 0
      requires NonEmptyChunks(stream)
      ensures serverConfig == config && decode == urlDecode
      ensures buffer.Length == config.defaultBufSize
      ensures head == 0 && tail == 0 && input == stream
      ensures boundary.None? && !requestComplete && httpRequest.State() == FreshRequest()
      ensures Sane(Source())
      ensures fresh(buffer) && fresh(httpRequest)
    {
      serverConfig := config;
      buffer := new byte[config.defaultBufSize](_ => 0);
      head, tail := 0, 0;
      input := stream;
      boundary := None;
      requestComplete := false;
      httpRequest := new HttpRequest();
      decode := urlDecode;
    }

    /** input.read(buffer, 0, bufSize). */
    method Read() returns (n: int)
      modifies this, buffer
      ensures (n, Source()) == ReadChunk(old(Source()))
      ensures boundary == old(boundary) && requestComplete == old(requestComplete)
    {
      if |input| == 0 {
        return -1;
      }
      if buffer.Length == 0 {
        return 0;
      }
      var c := input[0];
      n := Min(buffer.Length, |c|);
      forall k | 0 <= k < n {
        buffer[k] := c[k];
      }
      assert buffer[..] == c[..n] + old(buffer[..])[n..];
      input := if n == |c| then input[1..] else [c[n..]] + input[1..];
    }

    /** readByte(). */
    method ReadByte() returns (r: Result<byte>)
      modifies this, buffer
      ensures (r, Source()) == ReadByteF(old(Source()))
      ensures boundary == old(boundary) && requestComplete == old(requestComplete)
    {
      if head == tail {
        head := 0;
        tail := Read();
        if tail == -1 {
          return Err(IOFailure("No more data is available"));
        }
      }
      if head < 0 || head >= buffer.Length {
        head := head + 1;
        return Err(RuntimeFailure(IndexOutOfBounds));
      }
      r := Ok(buffer[head]);
      head := head + 1;
    }

    /** readBytes(count). */
    method ReadBytes(count: nat) returns (r: Result<seq<byte>>)
      modifies this, buffer
      ensures (r, Source()) == ReadBytesF(old(Source()), count)
      ensures boundary == old(boundary) && requestComplete == old(requestComplete)
    {
      var bytes := new byte[count](_ => 0);
      var i := 0;
      while i < count
        invariant 0 <= i <= count
        invariant ReadBytesAcc(Source(), bytes[..i], count - i) == ReadBytesF(old(Source()), count)
        invariant boundary == old(boundary) && requestComplete == old(requestComplete)
      {
        var b := ReadByte();
        if b.Err? {
          return Err(b.error);
        }
        bytes[i] := b.value;
        assert bytes[..i + 1] == bytes[..i] + [b.value];
        i := i + 1;
      }
      assert bytes[..i] == bytes[..];
      return Ok(bytes[..]);
    }

    /** readHeaders(). */
    method ReadHeaders() returns (r: Result<string>)
      modifies this, buffer
      ensures (r, Source()) == ReadHeadersF(old(Source()), serverConfig.headerPartMaxSize)
      ensures boundary == old(boundary) && requestComplete == old(requestComplete)
    {
      var max := serverConfig.headerPartMaxSize;
      var i := 0;
      var size := 0;
      var baos: seq<byte> := [];
      while i < |HeaderSeparator|
        invariant i <= 4
        invariant HeadersLoop(Source(), i, size, baos, max) == HeadersLoop(old(Source()), 0, 0, [], max)
        invariant boundary == old(boundary) && requestComplete == old(requestComplete)
        decreases max - size
      {
        ghost var s0 := Source();
        var b := ReadByte();
        if b.Err? {
          return Err(if b.error.IOFailure? then IOFailure("Stream ended unexpectedly") else b.error);
        }
        size := size + 1;
        if size > max {
          return Err(IOFailure(HeaderTooLong(max)));
        }
        HeadersStep(s0, i, size - 1, baos, max);
        if b.value == HeaderSeparator[i] {
          i := i + 1;
        } else {
          i := 0;
        }
        baos := baos + [b.value];
      }
      return Ok(Latin1(baos));
    }

    /** isMultiPartRequestDone(). */
    method IsMultiPartRequestDone() returns (r: Result<bool>)
      modifies this, buffer
      ensures (r, Source()) == DoneF(old(Source()))
      ensures boundary == old(boundary) && requestComplete == old(requestComplete)
    {
      var b0 := ReadByte();
      if b0.Err? {
        return Err(b0.error);
      }
      var b1 := ReadByte();
      if b1.Err? {
        return Err(b1.error);
      }
      if b0.value == DASH && b1.value == DASH {
        return Ok(true);
      }
      if b0.value != CR || b1.value != LF {
        return Err(HttpParseFailure("Invalid multipart request"));
      }
      return Ok(false);
    }

    /** readMultiPartValue(): the value before the delimiter; requestComplete
        is set when "--" follows the delimiter. */
    method ReadMultiPartValue(bnd: seq<byte>) returns (r: Result<seq<byte>>)
      modifies this, buffer
      ensures var (v, s') := ReadValueF(old(Source()), bnd, serverConfig.maxPostSize);
        Source() == s' && boundary == old(boundary) &&
        (v.Err? ==> r == Err(v.error) && requestComplete == old(requestComplete)) &&
        (v.Ok? ==> r == Ok(v.value.0) && requestComplete == (old(requestComplete) || v.value.1))
    {
      var max := serverConfig.maxPostSize;
      var miniBuffer := new byte[4](_ => 0);
      var value: seq<byte> := [];
      var i: nat := 0;
      var size := 0;
      ghost var target := ReadValueF(Source(), bnd, max);
      while true
        invariant i < 4
        invariant miniBuffer[..i] == BoundaryPrefix[..i]
        invariant ValueLoop(Source(), i, size, value, bnd, max) == target
        invariant boundary == old(boundary) && requestComplete == old(requestComplete)
        decreases max - size
      {
        ghost var s0, i0, value0 := Source(), i, value;
        var b := ReadByte();
        if b.Err? {
          return Err(b.error);
        }
        size := size + 1;
        if size > max {
          return Err(IOFailure(TooLarge(max)));
        }
        var c := b.value;
        ghost var s1 := Source();
        i, value := MatchPrefixByte(miniBuffer, i, c, value);
        if i < 4 {
          PartialStep(s0, s1, c, i0, size - 1, value0, bnd, max);
        } else {
          ghost var compared := ReadBytesF(s1, |bnd|);
          var found := CompareBoundary(bnd);
          if found.Err? {
            return Err(found.error);
          }
          ValueStepFull(s0, i0, size - 1, value0, bnd, max);
          if found.value {
            return Ok(value);
          }
          value := value + BoundaryPrefix;
          i := 0;
          FullStep(s0, s1, c, compared.1, compared.0.value, i0, size - 1, value0, bnd, max);
        }
      }
    }

    /** The turn of readMultiPartValue after "\r\n--": read as many bytes as
        the boundary has; on a match read the end marker, otherwise rewind
        head to where the compare began. Ok(true) means the boundary matched. */
    method CompareBoundary(bnd: seq<byte>) returns (r: Result<bool>)
      modifies this, buffer
      ensures boundary == old(boundary)
      ensures var (bs, s2) := ReadBytesF(old(Source()), |bnd|);
        (bs.Err? ==> r == Err(bs.error) && Source() == s2 && requestComplete == old(requestComplete)) &&
        (bs.Ok? && bs.value != bnd ==>
          r == Ok(false) && Source() == s2.(head := old(head)) && requestComplete == old(requestComplete)) &&
        (bs.Ok? && bs.value == bnd ==> var (d, s3) := DoneF(s2);
          Source() == s3 &&
          (d.Err? ==> r == Err(d.error) && requestComplete == old(requestComplete)) &&
          (d.Ok? ==> r == Ok(true) && requestComplete == (old(requestComplete) || d.value)))
    {
      var currentHead := head;
      var bs := ReadBytes(|bnd|);
      if bs.Err? {
        return Err(bs.error);
      }
      var matched := IsBoundary(bs.value, bnd);
      if matched == Ok(true) {
        var done := IsMultiPartRequestDone();
        if done.Err? {
          return Err(done.error);
        }
        if done.value {
          requestComplete := true;
        }
        return Ok(true);
      }
      head := currentHead;
      return Ok(false);
    }

    /** The piece loop over a Content-Disposition line in readMultiPartParameter. */
    method DescribeDisposition(paramDetails: seq<string>, info: PartInfo) returns (r: Result<PartInfo>)
      ensures r == Disposition(paramDetails, 0, info)
    {
      var paramName, fileNameLocal := info.paramName, info.fileName;
      for m := 0 to |paramDetails|
        invariant Disposition(paramDetails, m, PartInfo(paramName, fileNameLocal)) == Disposition(paramDetails, 0, info)
      {
        var d := paramDetails[m];
        if StartsWith(Trim(Lower(d)), "name") {
          var ps := SplitLiteral(Trim(d), "=");
          if |ps| < 2 {
            return Err(RuntimeFailure(IndexOutOfBounds));
          }
          paramName := Some(RemoveQuotes(ps[1]));
        }
        if StartsWith(Trim(Lower(d)), "filename") {
          var ps := SplitLiteral(Trim(d), "=");
          if |ps| < 2 {
            return Err(RuntimeFailure(IndexOutOfBounds));
          }
          var pathElements := SplitWhere(RemoveQuotes(ps[1]), IsBackslash);
          if |pathElements| == 0 {
            return Err(RuntimeFailure(IndexOutOfBounds));
          }
          fileNameLocal := Some(pathElements[|pathElements| - 1]);
        }
      }
      return Ok(PartInfo(paramName, fileNameLocal));
    }

    /** The line loop over a part's headers in readMultiPartParameter. */
    method DescribePart(lines: seq<string>) returns (r: Result<PartInfo>)
      modifies httpRequest
      ensures (r, httpRequest.State()) == DescribeLines(lines, 0, PartInfo(None, None), old(httpRequest.State()))
    {
      var info := PartInfo(None, None);
      for n := 0 to |lines|
        invariant DescribeLines(lines, n, info, httpRequest.State()) ==
          DescribeLines(lines, 0, PartInfo(None, None), old(httpRequest.State()))
      {
        var line := lines[n];
        if Contains(Lower(line), "content-disposition") {
          var d := DescribeDisposition(SplitWhere(line, IsSemicolon), info);
          if d.Err? {
            return Err(d.error);
          }
          info := d.value;
        }
        if Contains(Lower(line), "content-type") {
          var ws := SplitWhere(line, IsJavaWhitespace);
          if |ws| < 2 {
            return Err(RuntimeFailure(IndexOutOfBounds));
          }
          httpRequest.SetFileContentType(Some(Lower(ws[1])));
        }
      }
      return Ok(info);
    }

    /** readMultiPartParameter(). */
    method ReadMultiPartParameter(bnd: seq<byte>) returns (r: Result<()>)
      modifies this, buffer, httpRequest
      ensures (r, State()) == ParamF(old(State()), bnd, serverConfig)
    {
      ghost var p0 := State();
      var elementHeaders := ReadHeaders();
      ghost var s1 := Source();
      if elementHeaders.Err? {
        return Err(elementHeaders.error);
      }
      var lines := SplitLiteral(elementHeaders.value, CRLF);
      var info := DescribePart(lines);
      ghost var req1 := httpRequest.State();
      if info.Err? {
        assert State() == p0.(src := s1, req := req1);
        return Err(info.error);
      }
      var paramValue := ReadMultiPartValue(bnd);
      ghost var v := ReadValueF(s1, bnd, serverConfig.maxPostSize);
      if paramValue.Err? {
        assert State() == p0.(src := v.1, req := req1);
        return Err(paramValue.error);
      }
      ghost var p2 := p0.(src := v.1, req := req1, complete := p0.complete || v.0.value.1);
      assert State() == p2;
      assert ParamF(p0, bnd, serverConfig) == StoreF(p2, info.value, paramValue.value);
      if info.value.fileName.None? {
        if info.value.paramName.None? {
          return Err(RuntimeFailure(NullPointer));
        }
        r := httpRequest.PutRequestArg(Lower(info.value.paramName.value), Latin1(paramValue.value));
      } else {
        httpRequest.SetFileContents(Some(paramValue.value));
        httpRequest.SetFileName(info.value.fileName);
        r := Ok(());
      }
    }

    /** parseMultiPartRequest(). */
    method ParseMultiPartRequest() returns (r: Result<()>)
      requires Sane(Source())
      modifies this, buffer, httpRequest
      ensures (r, State()) == MultiPartF(old(State()), serverConfig)
    {
      if boundary.None? {
        return Err(RuntimeFailure(NullPointer));
      }
      var bnd := boundary.value;
      var b0 := ReadByte();
      if b0.Err? {
        return Err(b0.error);
      }
      if b0.value != DASH {
        return Err(HttpParseFailure("Invalid multipart request"));
      }
      var b1 := ReadByte();
      if b1.Err? {
        return Err(b1.error);
      }
      if b1.value != DASH {
        return Err(HttpParseFailure("Invalid multipart request"));
      }
      ghost var start := State();
      while !requestComplete
        invariant Sane(Source()) && boundary == Some(bnd)
        invariant PartsLoop(State(), bnd, serverConfig) == PartsLoop(start, bnd, serverConfig)
        decreases Measure(Source())
      {
        ghost var p := State();
        MeasureNonNegative(p.src);
        ParamShrinks(p, bnd, serverConfig);
        var part := ReadMultiPartParameter(bnd);
        if part.Err? {
          return part;
        }
      }
      return Ok(());
    }

    /** parsePOSTRequest(): the body's first contentLength bytes as a query string. */
    method ParsePOSTRequest() returns (r: Result<Option<map<string, string>>>)
      modifies this, buffer
      ensures (r, State()) == PostF(old(State()), decode)
    {
      var contentLength := httpRequest.contentLength;
      if contentLength == 0 {
        return Err(HttpParseFailure("Content-Length HTTP header is mandatory"));
      }
      var postParams: seq<byte> := [];
      var i := 0;
      while i < contentLength
        invariant PostLoop(Source(), i, contentLength, postParams) == PostLoop(old(Source()), 0, contentLength, [])
        invariant boundary == old(boundary) && requestComplete == old(requestComplete)
        decreases contentLength - i
      {
        var b := ReadByte();
        if b.Err? {
          if b.error.IOFailure? {
            break;
          }
          return Err(b.error);
        }
        postParams := postParams + [b.value];
        i := i + 1;
      }
      var args := ParseQueryString(Latin1(postParams), decode);
      return Ok(args);
    }

    /** getHeaders(). */
    method GetHeaders() returns (r: Result<seq<string>>)
      modifies this, buffer, httpRequest
      ensures (r, State()) == GetHeadersF(old(State()), serverConfig)
    {
      var headers := ReadHeaders();
      if headers.Err? {
        return Err(headers.error);
      }
      httpRequest.SetHttpHeaders(Some(headers.value));
      return Ok(SplitLiteral(headers.value, CRLF));
    }

    /** The loop of process() over the header lines. */
    method ScanHeaderLines(lines: seq<string>) returns (r: Result<()>, sc: Scan)
      modifies this, httpRequest
      ensures (r, State(), sc) == ScanLines(lines, 0, old(State()), Scan(None, true))
    {
      var firstLine: Option<string> := None;
      var boundaryAvailable := true;
      for n := 0 to |lines|
        invariant ScanLines(lines, n, State(), Scan(firstLine, boundaryAvailable)) ==
          ScanLines(lines, 0, old(State()), Scan(None, true))
      {
        var line := lines[n];
        if StartsWith(line, "GET") {
          httpRequest.SetRequestMethod(Some("GET"));
          firstLine := Some(line);
        } else if StartsWith(line, "POST") {
          httpRequest.SetRequestMethod(Some("POST"));
        } else if StartsWith(Lower(line), "content-length") {
          var ws := SplitWhere(line, IsJavaWhitespace);
          if |ws| < 2 {
            return Err(RuntimeFailure(IndexOutOfBounds)), Scan(firstLine, boundaryAvailable);
          }
          var n := ParseInt(ws[1]);
          if n.None? {
            return Err(RuntimeFailure(NumberFormat)), Scan(firstLine, boundaryAvailable);
          }
          httpRequest.SetContentLength(n.value);
        } else if Contains(line, "multipart/form-data") {
          httpRequest.SetMultiPartRequest(true);
          if Contains(line, "boundary=") {
            var parts := SplitLiteral(line, "boundary=");
            if |parts| != 2 {
              boundaryAvailable := false;
            } else {
              boundary := Some(Latin1Bytes(parts[1]));
            }
          } else {
            boundaryAvailable := false;
          }
        }
      }
      return Ok(()), Scan(firstLine, boundaryAvailable);
    }

    /** process(). */
    method Process() returns (r: Result<()>)
      requires Sane(Source())
      modifies this, buffer, httpRequest
      ensures (r, State()) == ProcessF(old(State()), serverConfig, decode)
    {
      var lines := GetHeaders();
      if lines.Err? {
        return Err(lines.error);
      }
      var scanned, sc := ScanHeaderLines(lines.value);
      if scanned.Err? {
        return Err(scanned.error);
      }
      if httpRequest.requestMethod.None? {
        return Err(HttpParseFailure("Invalid HTTP request"));
      }
      var m := httpRequest.requestMethod.value;
      if EqualsIgnoreCase(m, "GET") {
        if sc.firstLine.None? {
          return Err(RuntimeFailure(NullPointer));
        }
        var args := ParseGETRequest(sc.firstLine.value, decode);
        httpRequest.SetRequestArgs(args);
        return Ok(());
      } else if EqualsIgnoreCase(m, "POST") && httpRequest.multiPartRequest {
        if !sc.boundaryAvailable {
          return Err(HttpParseFailure("Boundary is mandatory in a multipart request"));
        }
        r := ParseMultiPartRequest();
      } else if EqualsIgnoreCase(m, "POST") {
        var args := ParsePOSTRequest();
        if args.Err? {
          return Err(args.error);
        }
        httpRequest.SetRequestArgs(args.value);
        return Ok(());
      } else {
        return Err(HttpParseFailure("Unsupported HTTP request"));
      }
    }
  }
}
