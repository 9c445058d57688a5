/**
 * The request-level steps of HttpRequestParser as functions of the parser's
 * fields: getHeaders, the header-line loop of process() and its dispatch on
 * the method, parsePOSTRequest, parseMultiPartRequest with its loop over the
 * parts, and readMultiPartParameter with its scan of a part's
 * Content-Disposition and Content-Type lines (section 4.2 of RFC 7578).
 *
 * Every step gives the outcome and the fields it leaves behind; a failure
 * keeps whatever the step had already changed, as the Java exceptions do.
 */
module HttpProcess {
  import opened Wrappers
  import opened JavaText
  import opened HttpRequests
  import opened HttpConfig
  import opened HttpStream
  import opened HttpHeaders
  import opened HttpMultipart
  import opened HttpQuery

  /** The parser's fields: its input side, the request it fills, the
      multipart boundary (boundaryLength is always its length) and
      requestComplete. */
  datatype Parser = Parser(src: Src, req: RequestState, boundary: Option<seq<byte>>, complete: bool)

  const CRLF: string := "\r\n"

  predicate IsSemicolon(c: char) {
    c == ';'
  }

  predicate IsBackslash(c: char) {
    c == '\\'
  }

  /** String.getBytes("ISO-8859-1"): a character past U+00FF becomes '?'. */
  function Latin1Bytes(s: string): (r: seq<byte>)
    ensures |r| == |s|
    ensures forall k :: 0 <= k < |s| ==> r[k] == (if s[k] as int < 256 then s[k] as int else 63)
  {
    seq(|s|, k requires 0 <= k < |s| => if s[k] as int < 256 then s[k] as int else 63)
  }

  // -------------------------------------------------------------- getHeaders

  /** getHeaders(): the header block stored as httpHeaders, split into lines. */
  function GetHeadersF(p: Parser, cfg: ServerConfig): (r: (Result<seq<string>>, Parser))
    ensures r.1.boundary == p.boundary && r.1.complete == p.complete
    ensures r.0.Err? ==> !r.0.error.HttpParseFailure?
    ensures Sane(p.src) && r.0.Ok? ==> Sane(r.1.src)
  {
    var (h, s1) := ReadHeadersF(p.src, cfg.headerPartMaxSize);
    if h.Err? then (Err(h.error), p.(src := s1))
    else (Ok(SplitLiteral(h.value, CRLF)), p.(src := s1, req := p.req.(httpHeaders := Some(h.value))))
  }

  // ------------------------------------------------- the header loop of process

  /** The locals of process(): firstLine and boundaryAvailable. */
  datatype Scan = Scan(firstLine: Option<string>, boundaryAvailable: bool)

  /** One header line: the method, the content length, or the multipart flag and boundary. */
  function ScanLine(line: string, p: Parser, sc: Scan): (r: Result<(Parser, Scan)>)
    ensures r.Ok? ==> r.value.0.src == p.src && r.value.0.complete == p.complete
    ensures r.Err? ==> r.error.RuntimeFailure?
  {
    if StartsWith(line, "GET") then
      Ok((p.(req := p.req.(requestMethod := Some("GET"))), sc.(firstLine := Some(line))))
    else if StartsWith(line, "POST") then
      Ok((p.(req := p.req.(requestMethod := Some("POST"))), sc))
    else if StartsWith(Lower(line), "content-length") then
      var ws := SplitWhere(line, IsJavaWhitespace);
      if |ws| < 2 then Err(RuntimeFailure(IndexOutOfBounds))
      else
        match ParseInt(ws[1])
        case None => Err(RuntimeFailure(NumberFormat))
        case Some(n) => Ok((p.(req := p.req.(contentLength := n)), sc))
    else if Contains(line, "multipart/form-data") then
      var p1 := p.(req := p.req.(multiPartRequest := true));
      if Contains(line, "boundary=") then
        var parts := SplitLiteral(line, "boundary=");
        if |parts| != 2 then Ok((p1, sc.(boundaryAvailable := false)))
        else Ok((p1.(boundary := Some(Latin1Bytes(parts[1]))), sc))
      else Ok((p1, sc.(boundaryAvailable := false)))
    else Ok((p, sc))
  }

  /** The loop over the header lines from line k on; a failing line stops it. */
  function ScanLines(lines: seq<string>, k: nat, p: Parser, sc: Scan): (r: (Result<()>, Parser, Scan))
    ensures r.1.src == p.src && r.1.complete == p.complete
    ensures r.0.Err? ==> r.0.error.RuntimeFailure?
    decreases |lines| - k
  {
    if k >= |lines| then (Ok(()), p, sc)
    else
      match ScanLine(lines[k], p, sc)
      case Err(e) => (Err(e), p, sc)
      case Ok((p', sc')) => ScanLines(lines, k + 1, p', sc')
  }

  // ------------------------------------------------------------ parsePOSTRequest

  /** The read loop of parsePOSTRequest from byte i on: an IOException ends it
      quietly, any other failure propagates. */
  function PostLoop(s: Src, i: int, n: int, acc: seq<byte>): (r: (Result<seq<byte>>, Src))
    ensures r.0.Ok? ==> |acc| <= |r.0.value| && r.0.value[..|acc|] == acc && |r.0.value| <= |acc| + (if i < n then n - i else 0)
    ensures r.0.Err? ==> r.0.error == RuntimeFailure(IndexOutOfBounds)
    decreases n - i
  {
    if i >= n then (Ok(acc), s)
    else
      var (b, s1) := ReadByteF(s);
      if b.Err? then
        if b.error.IOFailure? then (Ok(acc), s1) else (Err(b.error), s1)
      else
        var r := PostLoop(s1, i + 1, n, acc + [b.value]);
        assert r.0.Ok? ==> r.0.value[..|acc|] == r.0.value[..|acc| + 1][..|acc|];
        r
  }

  /** parsePOSTRequest(): the arguments of the body's first contentLength bytes. */
  function PostF(p: Parser, decode: string -> string): (r: (Result<Option<map<string, string>>>, Parser))
    ensures r.1.req == p.req && r.1.boundary == p.boundary && r.1.complete == p.complete
    ensures r.0 == Err(HttpParseFailure("Content-Length HTTP header is mandatory")) <==> p.req.contentLength == 0
    ensures r.0.Err? && p.req.contentLength != 0 ==> r.0.error == RuntimeFailure(IndexOutOfBounds)
  {
    if p.req.contentLength == 0 then (Err(HttpParseFailure("Content-Length HTTP header is mandatory")), p)
    else
      var (bs, s1) := PostLoop(p.src, 0, p.req.contentLength, []);
      if bs.Err? then (Err(bs.error), p.(src := s1))
      else (Ok(ParseQueryStringF(Latin1(bs.value), decode)), p.(src := s1))
  }

  // ------------------------------------------------------ readMultiPartParameter

  /** What the part's headers name: the parameter and the file. */
  datatype PartInfo = PartInfo(paramName: Option<string>, fileName: Option<string>)

  /** One `;`-separated piece of a Content-Disposition line. */
  function DispositionPiece(d: string, info: PartInfo): (r: Result<PartInfo>)
    ensures r.Err? ==> r.error == RuntimeFailure(IndexOutOfBounds)
  {
    var t := Trim(Lower(d));
    var named :=
      if StartsWith(t, "name") then
        var ps := SplitLiteral(Trim(d), "=");
        if |ps| < 2 then Err(RuntimeFailure(IndexOutOfBounds))
        else Ok(info.(paramName := Some(RemoveQuotes(ps[1]))))
      else Ok(info);
    if named.Err? || !StartsWith(t, "filename") then named
    else
      var ps := SplitLiteral(Trim(d), "=");
      if |ps| < 2 then Err(RuntimeFailure(IndexOutOfBounds))
      else
        var path := SplitWhere(RemoveQuotes(ps[1]), IsBackslash);
        if |path| == 0 then Err(RuntimeFailure(IndexOutOfBounds))
        else Ok(named.value.(fileName := Some(path[|path| - 1])))
  }

  /** The pieces of a Content-Disposition line from piece k on. */
  function Disposition(ds: seq<string>, k: nat, info: PartInfo): (r: Result<PartInfo>)
    ensures r.Err? ==> r.error == RuntimeFailure(IndexOutOfBounds)
    decreases |ds| - k
  {
    if k >= |ds| then Ok(info)
    else
      var r := DispositionPiece(ds[k], info);
      if r.Err? then r else Disposition(ds, k + 1, r.value)
  }

  /** One header line of a part; a Content-Type line sets fileContentType at once. */
  function DescribeLine(line: string, info: PartInfo, req: RequestState): (r: Result<(PartInfo, RequestState)>)
    ensures r.Err? ==> r.error == RuntimeFailure(IndexOutOfBounds)
    ensures r.Ok? ==> r.value.1.(fileContentType := req.fileContentType) == req
  {
    var info1 :=
      if Contains(Lower(line), "content-disposition") then Disposition(SplitWhere(line, IsSemicolon), 0, info)
      else Ok(info);
    if info1.Err? then Err(info1.error)
    else if Contains(Lower(line), "content-type") then
      var ws := SplitWhere(line, IsJavaWhitespace);
      if |ws| < 2 then Err(RuntimeFailure(IndexOutOfBounds))
      else Ok((info1.value, req.(fileContentType := Some(Lower(ws[1])))))
    else Ok((info1.value, req))
  }

  /** The part's header lines from line k on. */
  function DescribeLines(lines: seq<string>, k: nat, info: PartInfo, req: RequestState)
    : (r: (Result<PartInfo>, RequestState))
    ensures r.1.(fileContentType := req.fileContentType) == req
    ensures r.0.Err? ==> r.0.error == RuntimeFailure(IndexOutOfBounds)
    decreases |lines| - k
  {
    if k >= |lines| then (Ok(info), req)
    else
      match DescribeLine(lines[k], info, req)
      case Err(e) => (Err(e), req)
      case Ok((info', req')) => DescribeLines(lines, k + 1, info', req')
  }

  /** The end of readMultiPartParameter: a named field's text into the
      arguments, or a file's bytes and name into the request. */
  function StoreF(p: Parser, info: PartInfo, value: seq<byte>): (r: (Result<()>, Parser))
    ensures r.1.src == p.src && r.1.boundary == p.boundary && r.1.complete == p.complete
    ensures r.0.Err? ==> r.0.error == RuntimeFailure(NullPointer)
  {
    if info.fileName.None? then
      if info.paramName.None? then (Err(RuntimeFailure(NullPointer)), p)
      else
        match PutArg(p.req, Lower(info.paramName.value), Latin1(value))
        case Err(e) => (Err(e), p)
        case Ok(req') => (Ok(()), p.(req := req'))
    else (Ok(()), p.(req := p.req.(fileContents := Some(value), fileName := info.fileName)))
  }

  /** readMultiPartParameter(): the part's headers, then its value, then the store. */
  function ParamF(p: Parser, boundary: seq<byte>, cfg: ServerConfig): (r: (Result<()>, Parser))
    ensures r.1.boundary == p.boundary
    ensures r.0.Err? ==> PartFailure(r.0.error)
  {
    var (h, s1) := ReadHeadersF(p.src, cfg.headerPartMaxSize);
    if h.Err? then (Err(h.error), p.(src := s1))
    else
      var (info, req1) := DescribeLines(SplitLiteral(h.value, CRLF), 0, PartInfo(None, None), p.req);
      if info.Err? then (Err(info.error), p.(src := s1, req := req1))
      else
        var (v, s2) := ReadValueF(s1, boundary, cfg.maxPostSize);
        if v.Err? then (Err(v.error), p.(src := s2, req := req1))
        else StoreF(p.(src := s2, req := req1, complete := p.complete || v.value.1), info.value, v.value.0)
  }

  /** A part that parses leaves a readable state and a lower measure. */
  lemma ParamShrinks(p: Parser, boundary: seq<byte>, cfg: ServerConfig)
    requires Sane(p.src)
    ensures ParamF(p, boundary, cfg).0.Ok? ==> Sane(ParamF(p, boundary, cfg).1.src) && Measure(ParamF(p, boundary, cfg).1.src) < Measure(p.src)
  {
    var (h, s1) := ReadHeadersF(p.src, cfg.headerPartMaxSize);
    if h.Ok? {
      ValueLoopShrinks(s1, 0, 0, [], boundary, cfg.maxPostSize);
    }
  }

  // ------------------------------------------------------- parseMultiPartRequest

  /** The loop `while (!requestComplete) readMultiPartParameter()`. */
  function PartsLoop(p: Parser, boundary: seq<byte>, cfg: ServerConfig): (r: (Result<()>, Parser))
    requires Sane(p.src)
    ensures r.0.Ok? ==> r.1.complete
    ensures r.1.boundary == p.boundary
    ensures r.0.Err? ==> PartFailure(r.0.error)
    decreases Measure(p.src)
  {
    if p.complete then (Ok(()), p)
    else
      var (r, p1) := ParamF(p, boundary, cfg);
      if r.Err? then (r, p1)
      else
        ParamShrinks(p, boundary, cfg);
        MeasureNonNegative(p.src);
        PartsLoop(p1, boundary, cfg)
  }

  /** parseMultiPartRequest(): the body must open with "--"; then the parts. */
  function MultiPartF(p: Parser, cfg: ServerConfig): (r: (Result<()>, Parser))
    requires Sane(p.src)
    ensures r.0.Err? ==> PartFailure(r.0.error)
  {
    if p.boundary.None? then (Err(RuntimeFailure(NullPointer)), p)
    else
      var (b0, s1) := ReadByteF(p.src);
      if b0.Err? then (Err(b0.error), p.(src := s1))
      else if b0.value != DASH then (Err(HttpParseFailure("Invalid multipart request")), p.(src := s1))
      else
        var (b1, s2) := ReadByteF(s1);
        if b1.Err? then (Err(b1.error), p.(src := s2))
        else if b1.value != DASH then (Err(HttpParseFailure("Invalid multipart request")), p.(src := s2))
        else PartsLoop(p.(src := s2), p.boundary.value, cfg)
  }

  // ------------------------------------------------------------------- process

  /** The dispatch of process() on the method the header lines named. */
  function DispatchF(p: Parser, sc: Scan, cfg: ServerConfig, decode: string -> string): (r: (Result<()>, Parser))
    requires Sane(p.src)
  {
    if p.req.requestMethod.None? then (Err(HttpParseFailure("Invalid HTTP request")), p)
    else
      var m := p.req.requestMethod.value;
      if EqualsIgnoreCase(m, "GET") then
        if sc.firstLine.None? then (Err(RuntimeFailure(NullPointer)), p)
        else (Ok(()), p.(req := p.req.(requestArgs := ParseGETF(sc.firstLine.value, decode))))
      else if EqualsIgnoreCase(m, "POST") && p.req.multiPartRequest then
        if !sc.boundaryAvailable then (Err(HttpParseFailure("Boundary is mandatory in a multipart request")), p)
        else MultiPartF(p, cfg)
      else if EqualsIgnoreCase(m, "POST") then
        var (args, p1) := PostF(p, decode);
        if args.Err? then (Err(args.error), p1)
        else (Ok(()), p1.(req := p1.req.(requestArgs := args.value)))
      else (Err(HttpParseFailure("Unsupported HTTP request")), p)
  }

  /** process(). */
  function ProcessF(p: Parser, cfg: ServerConfig, decode: string -> string): (r: (Result<()>, Parser))
    requires Sane(p.src)
  {
    var (h, p1) := GetHeadersF(p, cfg);
    if h.Err? then (Err(h.error), p1)
    else
      var (sr, p2, sc) := ScanLines(h.value, 0, p1, Scan(None, true));
      if sr.Err? then (Err(sr.error), p2)
      else DispatchF(p2, sc, cfg, decode)
  }

  // ---------------------------------------------------------- the header scan

  /** What the header scan keeps: the method is unset, GET or POST; a GET has
      its request line; a multipart request whose boundary was not found
      wanting has a boundary. */
  predicate ScanOk(p: Parser, sc: Scan) {
    (p.req.requestMethod.None? || p.req.requestMethod == Some("GET") || p.req.requestMethod == Some("POST")) &&
    (p.req.requestMethod == Some("GET") ==> sc.firstLine.Some?) &&
    (p.req.multiPartRequest && sc.boundaryAvailable ==> p.boundary.Some?)
  }

  /** A line that names the method. */
  predicate MethodLine(line: string) {
    StartsWith(line, "GET") || StartsWith(line, "POST")
  }

  /** A line that reaches the multipart test and leaves the boundary unavailable:
      no `boundary=`, or one that does not split the line in two. */
  predicate BadBoundaryLine(line: string) {
    !MethodLine(line) && !StartsWith(Lower(line), "content-length") &&
    Contains(line, "multipart/form-data") &&
    (!Contains(line, "boundary=") || |SplitLiteral(line, "boundary=")| != 2)
  }

  /** The scan keeps ScanOk. */
  lemma {:induction false} ScanLinesKeepOk(lines: seq<string>, k: nat, p: Parser, sc: Scan)
    requires ScanOk(p, sc)
    ensures ScanOk(ScanLines(lines, k, p, sc).1, ScanLines(lines, k, p, sc).2)
    decreases |lines| - k
  {
    if k < |lines| {
      var l := ScanLine(lines[k], p, sc);
      ScanLineFacts(lines[k], p, sc);
      if l.Ok? {
        ScanLinesKeepOk(lines, k + 1, l.value.0, l.value.1);
      }
    }
  }

  /** After a successful scan the method is unset exactly when it was unset
      and no line names one. */
  lemma {:induction false} ScanLinesMethod(lines: seq<string>, k: nat, p: Parser, sc: Scan)
    requires k <= |lines|
    ensures var (r, p', _) := ScanLines(lines, k, p, sc);
      r.Ok? ==> (p'.req.requestMethod.None? <==>
        p.req.requestMethod.None? && forall j :: k <= j < |lines| ==> !MethodLine(lines[j]))
    decreases |lines| - k
  {
    if k < |lines| {
      var l := ScanLine(lines[k], p, sc);
      ScanLineFacts(lines[k], p, sc);
      if l.Ok? {
        ScanLinesMethod(lines, k + 1, l.value.0, l.value.1);
        assert (forall j :: k <= j < |lines| ==> !MethodLine(lines[j])) <==>
          !MethodLine(lines[k]) && forall j :: k + 1 <= j < |lines| ==> !MethodLine(lines[j]);
      }
    }
  }

  /** After a successful scan the boundary is available exactly when it was
      and no line spoils it. */
  lemma {:induction false} ScanLinesBoundary(lines: seq<string>, k: nat, p: Parser, sc: Scan)
    requires k <= |lines|
    ensures var (r, _, sc') := ScanLines(lines, k, p, sc);
      r.Ok? ==> (sc'.boundaryAvailable <==>
        sc.boundaryAvailable && forall j :: k <= j < |lines| ==> !BadBoundaryLine(lines[j]))
    decreases |lines| - k
  {
    if k < |lines| {
      var l := ScanLine(lines[k], p, sc);
      ScanLineFacts(lines[k], p, sc);
      if l.Ok? {
        ScanLinesBoundary(lines, k + 1, l.value.0, l.value.1);
        assert (forall j :: k <= j < |lines| ==> !BadBoundaryLine(lines[j])) <==>
          !BadBoundaryLine(lines[k]) && forall j :: k + 1 <= j < |lines| ==> !BadBoundaryLine(lines[j]);
      }
    }
  }

  /** The same for one line. */
  lemma ScanLineFacts(line: string, p: Parser, sc: Scan)
    ensures var l := ScanLine(line, p, sc);
      l.Ok? ==>
        (ScanOk(p, sc) ==> ScanOk(l.value.0, l.value.1)) &&
        (l.value.0.req.requestMethod.None? <==> p.req.requestMethod.None? && !MethodLine(line)) &&
        (l.value.1.boundaryAvailable <==> sc.boundaryAvailable && !BadBoundaryLine(line))
  {
  }

  // ------------------------------------------------------------ the dispatch

  /** From a state the scan left, the dispatch never reaches its
      "Unsupported HTTP request" branch nor a null request line or boundary:
      no method is "Invalid HTTP request"; GET parses the request line without
      reading the body; a multipart POST needs an available boundary and then
      parses the parts; any other POST needs a non-zero Content-Length and
      then stores the body's arguments. */
  lemma DispatchOnScan(p: Parser, sc: Scan, cfg: ServerConfig, decode: string -> string)
    requires Sane(p.src) && ScanOk(p, sc)
    ensures p.req.requestMethod.None? ==>
      DispatchF(p, sc, cfg, decode) == (Err(HttpParseFailure("Invalid HTTP request")), p)
    ensures p.req.requestMethod == Some("GET") ==>
      (sc.firstLine.Some? &&
       DispatchF(p, sc, cfg, decode) == (Ok(()), p.(req := p.req.(requestArgs := ParseGETF(sc.firstLine.value, decode)))))
    ensures p.req.requestMethod == Some("POST") && p.req.multiPartRequest && !sc.boundaryAvailable ==>
      DispatchF(p, sc, cfg, decode) == (Err(HttpParseFailure("Boundary is mandatory in a multipart request")), p)
    ensures p.req.requestMethod == Some("POST") && p.req.multiPartRequest && sc.boundaryAvailable ==>
      p.boundary.Some? && DispatchF(p, sc, cfg, decode) == MultiPartF(p, cfg)
    ensures p.req.requestMethod == Some("POST") && !p.req.multiPartRequest && p.req.contentLength == 0 ==>
      DispatchF(p, sc, cfg, decode) == (Err(HttpParseFailure("Content-Length HTTP header is mandatory")), p)
    ensures p.req.requestMethod == Some("POST") && !p.req.multiPartRequest ==>
      var (args, p1) := PostF(p, decode);
      DispatchF(p, sc, cfg, decode) ==
        if args.Err? then (Err(args.error), p1) else (Ok(()), p1.(req := p1.req.(requestArgs := args.value)))
  {
    assert EqualsIgnoreCase("GET", "GET") && !EqualsIgnoreCase("POST", "GET") && EqualsIgnoreCase("POST", "POST");
  }

  /** Each of the dispatch's parse errors comes from its own branch only:
      the GET branch, parseMultiPartRequest and parsePOSTRequest with a
      non-zero Content-Length never raise them. */
  lemma DispatchErrors(p: Parser, sc: Scan, cfg: ServerConfig, decode: string -> string)
    requires Sane(p.src) && ScanOk(p, sc)
    ensures DispatchF(p, sc, cfg, decode).0 == Err(HttpParseFailure("Invalid HTTP request")) ==>
      p.req.requestMethod.None?
    ensures DispatchF(p, sc, cfg, decode).0 == Err(HttpParseFailure("Boundary is mandatory in a multipart request")) ==>
      p.req.requestMethod == Some("POST") && p.req.multiPartRequest && !sc.boundaryAvailable
    ensures DispatchF(p, sc, cfg, decode).0 == Err(HttpParseFailure("Content-Length HTTP header is mandatory")) ==>
      p.req.requestMethod == Some("POST") && !p.req.multiPartRequest && p.req.contentLength == 0
  {
    DispatchOnScan(p, sc, cfg, decode);
  }

  /** The three parse errors of process(), from a fresh request, and the
      conditions that raise them, in both directions: no header line naming
      GET or POST is "Invalid HTTP request"; a multipart POST with a line
      that spoils the boundary is "Boundary is mandatory"; a plain POST
      without a non-zero Content-Length is "Content-Length HTTP header is
      mandatory"; and none of the three arises any other way (reading the
      headers and scanning them fail only with I/O or runtime failures). */
  lemma ProcessErrors(p: Parser, cfg: ServerConfig, decode: string -> string)
    requires Sane(p.src) && p.req.requestMethod.None? && !p.req.multiPartRequest
    ensures var (h, p1) := GetHeadersF(p, cfg);
      h.Ok? && ScanLines(h.value, 0, p1, Scan(None, true)).0.Ok? ==>
      var (_, p2, sc) := ScanLines(h.value, 0, p1, Scan(None, true));
      ((forall j :: 0 <= j < |h.value| ==> !MethodLine(h.value[j])) ==>
         ProcessF(p, cfg, decode) == (Err(HttpParseFailure("Invalid HTTP request")), p2)) &&
      (p2.req.requestMethod == Some("POST") && p2.req.multiPartRequest &&
       (exists j :: 0 <= j < |h.value| && BadBoundaryLine(h.value[j])) ==>
         ProcessF(p, cfg, decode) == (Err(HttpParseFailure("Boundary is mandatory in a multipart request")), p2)) &&
      (p2.req.requestMethod == Some("POST") && !p2.req.multiPartRequest && p2.req.contentLength == 0 ==>
         ProcessF(p, cfg, decode) == (Err(HttpParseFailure("Content-Length HTTP header is mandatory")), p2))
    ensures ProcessF(p, cfg, decode).0 == Err(HttpParseFailure("Invalid HTTP request")) ==>
      var (h, p1) := GetHeadersF(p, cfg);
      h.Ok? && ScanLines(h.value, 0, p1, Scan(None, true)).0.Ok? &&
      forall j :: 0 <= j < |h.value| ==> !MethodLine(h.value[j])
    ensures ProcessF(p, cfg, decode).0 == Err(HttpParseFailure("Boundary is mandatory in a multipart request")) ==>
      var (h, p1) := GetHeadersF(p, cfg);
      h.Ok? && ScanLines(h.value, 0, p1, Scan(None, true)).0.Ok? &&
      var p2 := ScanLines(h.value, 0, p1, Scan(None, true)).1;
      p2.req.requestMethod == Some("POST") && p2.req.multiPartRequest &&
      exists j :: 0 <= j < |h.value| && BadBoundaryLine(h.value[j])
    ensures ProcessF(p, cfg, decode).0 == Err(HttpParseFailure("Content-Length HTTP header is mandatory")) ==>
      var (h, p1) := GetHeadersF(p, cfg);
      h.Ok? && ScanLines(h.value, 0, p1, Scan(None, true)).0.Ok? &&
      var p2 := ScanLines(h.value, 0, p1, Scan(None, true)).1;
      p2.req.requestMethod == Some("POST") && !p2.req.multiPartRequest && p2.req.contentLength == 0
  {
    var (h, p1) := GetHeadersF(p, cfg);
    if h.Ok? {
      ScanLinesKeepOk(h.value, 0, p1, Scan(None, true));
      ScanLinesMethod(h.value, 0, p1, Scan(None, true));
      ScanLinesBoundary(h.value, 0, p1, Scan(None, true));
      var (r, p2, sc) := ScanLines(h.value, 0, p1, Scan(None, true));
      if r.Ok? {
        DispatchOnScan(p2, sc, cfg, decode);
        DispatchErrors(p2, sc, cfg, decode);
      }
    }
  }

  /** A GET request line stores the arguments of its query and leaves the
      body unread. */
  lemma ProcessGet(p: Parser, cfg: ServerConfig, decode: string -> string)
    requires Sane(p.src) && p.req.requestMethod.None? && !p.req.multiPartRequest
    ensures var (h, p1) := GetHeadersF(p, cfg);
      h.Ok? && ScanLines(h.value, 0, p1, Scan(None, true)).0.Ok? ==>
      var (_, p2, sc) := ScanLines(h.value, 0, p1, Scan(None, true));
      p2.req.requestMethod == Some("GET") ==>
        sc.firstLine.Some? && StartsWith(sc.firstLine.value, "GET") &&
        ProcessF(p, cfg, decode) == (Ok(()), p2.(req := p2.req.(requestArgs := ParseGETF(sc.firstLine.value, decode)))) &&
        p2.src == p1.src
  {
    var (h, p1) := GetHeadersF(p, cfg);
    if h.Ok? {
      ScanLinesKeepOk(h.value, 0, p1, Scan(None, true));
      ScanFirstLine(h.value, 0, p1, Scan(None, true));
      var (r, p2, sc) := ScanLines(h.value, 0, p1, Scan(None, true));
      if r.Ok? {
        DispatchOnScan(p2, sc, cfg, decode);
      }
    }
  }

  /** The request line the scan keeps is one that starts with GET. */
  lemma {:induction false} ScanFirstLine(lines: seq<string>, k: nat, p: Parser, sc: Scan)
    requires k <= |lines|
    requires sc.firstLine.Some? ==> StartsWith(sc.firstLine.value, "GET")
    ensures var sc' := ScanLines(lines, k, p, sc).2;
      sc'.firstLine.Some? ==> StartsWith(sc'.firstLine.value, "GET")
    decreases |lines| - k
  {
    if k < |lines| {
      var l := ScanLine(lines[k], p, sc);
      if l.Ok? {
        ScanFirstLine(lines, k + 1, l.value.0, l.value.1);
      }
    }
  }

  // -------------------------------------------------------- the POST body

  /** On a valid state the POST loop collects the next bytes of the stream,
      as many as are left to read or as the stream still holds, and an early
      end of the stream ends it quietly. */
  lemma {:induction false} PostLoopOnStream(s: Src, i: int, n: int, acc: seq<byte>)
    requires Valid(s)
    ensures var m := if i < n then Min(n - i, |Remaining(s)|) else 0;
      PostLoop(s, i, n, acc).0 == Ok(acc + Remaining(s)[..m])
    decreases n - i
  {
    var rs := Remaining(s);
    var m := if i < n then Min(n - i, |rs|) else 0;
    if i < n && rs != [] {
      var s1 := PostLoopStep(s, i, n, acc);
      PostLoopOnStream(s1, i + 1, n, acc + [rs[0]]);
      var rs1 := Remaining(s1);
      var m1 := if i + 1 < n then Min(n - i - 1, |rs1|) else 0;
      PrefixAfterHead(acc, rs, m, m1);
    } else {
      PostLoopStop(s, i, n, acc);
      assert m == 0;
      assert acc + rs[..m] == acc;
    }
  }

  /** A byte read by the POST loop: the loop goes on from the next state. */
  lemma PostLoopStep(s: Src, i: int, n: int, acc: seq<byte>) returns (s1: Src)
    requires Valid(s) && i < n && Remaining(s) != []
    ensures Valid(s1) && Remaining(s1) == Remaining(s)[1..]
    ensures PostLoop(s, i, n, acc) == PostLoop(s1, i + 1, n, acc + [Remaining(s)[0]])
  {
    ReadByteStream(s);
    s1 := ReadByteF(s).1;
  }

  /** The POST loop stops with what it has once the count is reached or the stream is empty. */
  lemma PostLoopStop(s: Src, i: int, n: int, acc: seq<byte>)
    requires Valid(s) && (i >= n || Remaining(s) == [])
    ensures PostLoop(s, i, n, acc).0 == Ok(acc)
  {
    if i < n {
      ReadByteStream(s);
    }
  }

  /** Taking m bytes of a sequence is taking its head and m - 1 bytes of its tail. */
  lemma PrefixAfterHead(acc: seq<byte>, rs: seq<byte>, m: int, m1: int)
    requires rs != [] && 1 <= m <= |rs| && m1 == m - 1
    ensures acc + [rs[0]] + rs[1..][..m1] == acc + rs[..m]
  {
    assert rs[..m] == [rs[0]] + rs[1..][..m1];
  }

  /** parsePOSTRequest reads at most contentLength bytes, stops quietly when
      the stream ends first, and parses what it read as a query string. */
  lemma PostOnStream(p: Parser, decode: string -> string)
    requires Valid(p.src) && p.req.contentLength != 0
    ensures var n := p.req.contentLength; var data := Remaining(p.src);
      PostF(p, decode).0 == Ok(ParseQueryStringF(Latin1(data[..if n > 0 then Min(n, |data|) else 0]), decode))
  {
    var n := p.req.contentLength;
    var data := Remaining(p.src);
    var m := if n > 0 then Min(n, |data|) else 0;
    PostLoopOnStream(p.src, 0, n, []);
    assert [] + data[..m] == data[..m];
    var bs := PostLoop(p.src, 0, n, []).0;
    assert bs == Ok(data[..m]);
    assert PostF(p, decode).0 == Ok(ParseQueryStringF(Latin1(bs.value), decode));
  }

  // ------------------------------------------------- the multipart opening

  /** The body must open with "--"; the opening boundary text after it is
      never compared with the boundary: the part loop starts right after the
      two dashes, whatever the boundary is, and the first part's header block
      begins with that text. */
  lemma MultiPartOpening(p: Parser, cfg: ServerConfig) returns (s2: Src)
    requires Valid(p.src) && p.boundary.Some?
    ensures var data := Remaining(p.src);
      |data| >= 2 && data[0] == DASH && data[1] == DASH ==>
        Valid(s2) && Remaining(s2) == data[2..] &&
        MultiPartF(p, cfg) == PartsLoop(p.(src := s2), p.boundary.value, cfg)
    ensures var data := Remaining(p.src);
      (|data| >= 1 && data[0] != DASH) || (|data| >= 2 && data[0] == DASH && data[1] != DASH) ==>
        MultiPartF(p, cfg).0 == Err(HttpParseFailure("Invalid multipart request"))
    ensures var data := Remaining(p.src);
      data == [] || data == [DASH] ==> MultiPartF(p, cfg).0 == Err(IOFailure("No more data is available"))
  {
    var data := Remaining(p.src);
    ReadByteStream(p.src);
    var s1 := ReadByteF(p.src).1;
    s2 := s1;
    if data != [] {
      ReadByteStream(s1);
      s2 := ReadByteF(s1).1;
      assert Remaining(s1) == data[1..];
      if |data| >= 2 {
        assert Remaining(s2) == data[2..];
      }
    }
  }

  // ------------------------------------------------------ header lines

  /** No character of the regex class `\s`. */
  predicate NoWhitespace(s: string) {
    ' ' !in s && '\t' !in s && '\n' !in s && '\U{000B}' !in s && '\U{000C}' !in s && '\r' !in s
  }

  /** Text made only of characters above the space has no `\s` character. */
  lemma NoWhitespaceAbove(s: string)
    requires forall k :: 0 <= k < |s| ==> s[k] > ' '
    ensures NoWhitespace(s)
  {
  }

  /** A header name that lower-cases to `lowered`: it is neither a GET nor a
      POST line, the lower-cased line starts with `lowered`, and the name holds
      no whitespace when `lowered` holds none. */
  lemma HeaderName(name: string, rest: string, lowered: string)
    requires Lower(name) == lowered && |lowered| >= 1 && lowered[0] != 'g' && lowered[0] != 'p'
    ensures !StartsWith(name + rest, "GET") && !StartsWith(name + rest, "POST")
    ensures StartsWith(Lower(name + rest), lowered)
    ensures NoWhitespace(lowered) ==> forall k :: 0 <= k < |name| ==> !IsJavaWhitespace(name[k])
  {
    var line := name + rest;
    assert line[0] == name[0] && Lower(name)[0] == LowerChar(name[0]);
    NotStartsWith(line, "GET");
    NotStartsWith(line, "POST");
    assert Lower(line)[..|name|] == Lower(name);
    forall k | 0 <= k < |name| && NoWhitespace(lowered)
      ensures !IsJavaWhitespace(name[k])
    {
      assert lowered[k] in lowered;
    }
  }

  /** The header names the scan looks for, lower-cased and with their colon. */
  const ContentLengthName: string := "content-length" + ":"
  const ContentTypeName: string := "content-type" + ":"

  lemma ContentLengthNameFacts()
    ensures ContentLengthName[0] == 'c' && StartsWith(ContentLengthName, "content-length") && NoWhitespace(ContentLengthName)
  {
    NoWhitespaceAbove(ContentLengthName);
    assert ContentLengthName[..14] == "content-length";
  }

  lemma ContentTypeNameFacts()
    ensures ContentTypeName[0] == 'c' && ContentTypeName[8] == 't' && '=' !in ContentTypeName
    ensures NoWhitespace(ContentTypeName) && ContentTypeName[12] == ':'
  {
    NoWhitespaceAbove(ContentTypeName);
  }

  lemma DispositionNameFacts()
    ensures "content-disposition"[0] == 'c' && "content-disposition"[8] == 'd' && ':' !in "content-disposition"
  {
  }

  /** A text whose first character differs from the pattern's does not start with it. */
  lemma NotStartsWith(s: string, p: string)
    requires |p| > 0 && (|s| == 0 || s[0] != p[0])
    ensures !StartsWith(s, p)
  {
    assert |p| <= |s| ==> s[..|p|][0] == s[0];
  }

  /** A text that differs from the pattern at index i does not start with it. */
  lemma NotStartsWithAt(s: string, p: string, i: nat)
    requires i < |p| && (|s| <= i || s[i] != p[i])
    ensures !StartsWith(s, p)
  {
    assert |p| <= |s| ==> s[..|p|][i] == s[i];
  }

  /** `Content-Length: n`, with the name in any letter case, sets
      contentLength to n. */
  lemma ContentLengthLine(name: string, n: int, p: Parser, sc: Scan)
    requires Lower(name) == ContentLengthName && IsInt32(n)
    ensures ScanLine(name + " " + IntToDecimal(n), p, sc) == Ok((p.(req := p.req.(contentLength := n)), sc))
  {
    var v := IntToDecimal(n);
    ContentLengthNameFacts();
    HeaderName(name, " " + v, ContentLengthName);
    assert name + " " + v == name + (" " + v) == name + [' '] + v;
    SplitWhereOnce(name, ' ', v, IsJavaWhitespace);
    ParseIntOfDecimal(n);
    ContentLengthBranch(name + " " + v, name, v, p, sc);
  }

  /** The content-length branch of the scan, given what it tests. */
  lemma ContentLengthBranch(line: string, name: string, v: string, p: Parser, sc: Scan)
    requires !MethodLine(line) && StartsWith(Lower(line), "content-length")
    requires SplitWhere(line, IsJavaWhitespace) == [name, v] && ParseInt(v).Some?
    ensures ScanLine(line, p, sc) == Ok((p.(req := p.req.(contentLength := ParseInt(v).value)), sc))
  {
  }

  const MultiPartType: string := "multipart/form-data"
  const BoundaryKey: string := "boundary="

  /** The multipart Content-Type line: the header name, a space, the type,
      "; " and the boundary parameter. */
  function MultiPartLineText(name: string, b: string): string {
    name + " " + MultiPartType + "; " + BoundaryKey + b
  }

  /** The only '=' of a multipart Content-Type line before b is the one of `boundary=`. */
  lemma MultiPartLineEquals(name: string, b: string)
    requires Lower(name) == ContentTypeName && '=' !in b
    ensures var line, k0 := MultiPartLineText(name, b), |name| + 22;
      forall i :: 0 <= i < |line| && line[i] == '=' ==> i == k0 + 8
  {
    var line := MultiPartLineText(name, b);
    var mid := " " + MultiPartType + "; ";
    var k0 := |name| + |mid|;
    assert line == name + mid + BoundaryKey + b;
    ContentTypeNameFacts();
    assert '=' !in mid;
    forall i | 0 <= i < |line| && i != k0 + 8
      ensures line[i] != '='
    {
      if i < |name| {
        assert Lower(name)[i] == LowerChar(line[i]);
        assert Lower(name)[i] in Lower(name);
      } else if i < k0 {
        assert line[i] == mid[i - |name|];
      } else if i > k0 + 8 {
        assert line[i] == b[i - k0 - 9];
      } else {
        assert line[i] == BoundaryKey[i - k0];
      }
    }
  }

  /** `Content-Type: multipart/form-data; boundary=b`, with the name in any
      letter case, marks the request multipart and sets the boundary to b's
      bytes, for a non-empty b without '='. */
  lemma MultiPartLine(name: string, b: string, p: Parser, sc: Scan)
    requires Lower(name) == ContentTypeName && b != [] && '=' !in b
    ensures ScanLine(MultiPartLineText(name, b), p, sc) ==
      Ok((p.(req := p.req.(multiPartRequest := true), boundary := Some(Latin1Bytes(b))), sc))
  {
    var line := MultiPartLineText(name, b);
    var mid := " " + MultiPartType + "; ";
    assert line == name + (mid + BoundaryKey + b);
    ContentTypeNameFacts();
    HeaderName(name, mid + BoundaryKey + b, ContentTypeName);
    assert Lower(line)[8] == LowerChar(name[8]) == Lower(name)[8];
    assert "content-length"[8] == 'l';
    NotStartsWithAt(Lower(line), "content-length", 8);
    MultiPartLineSplits(name, b);
    MultiPartBranch(line, line[..|name| + 22], b, p, sc);
  }

  /** The multipart line holds the type, and splits at `boundary=` into the
      text before it and b. */
  lemma MultiPartLineSplits(name: string, b: string)
    requires Lower(name) == ContentTypeName && b != [] && '=' !in b
    ensures var line := MultiPartLineText(name, b);
      Contains(line, MultiPartType) && Contains(line, BoundaryKey) &&
      SplitLiteral(line, BoundaryKey) == [line[..|name| + 22], b]
  {
    var line := MultiPartLineText(name, b);
    var mid := " " + MultiPartType + "; ";
    var k0 := |name| + |mid|;
    assert line == name + mid + BoundaryKey + b;
    assert line[|name| + 1..|name| + 20] == MultiPartType;
    assert OccursAt(line, MultiPartType, |name| + 1);
    assert line[k0..k0 + 9] == BoundaryKey;
    MultiPartLineEquals(name, b);
    forall j | OccursAt(line, BoundaryKey, j)
      ensures j == k0
    {
      assert line[j + 8] == line[j..j + 9][8] == BoundaryKey[8];
    }
    SplitLiteralOnce(line, BoundaryKey, k0);
    assert line[k0 + 9..] == b;
  }

  /** The multipart branch of the scan, given what it tests. */
  lemma MultiPartBranch(line: string, a: string, b: string, p: Parser, sc: Scan)
    requires !MethodLine(line) && !StartsWith(Lower(line), "content-length")
    requires Contains(line, MultiPartType) && Contains(line, BoundaryKey)
    requires SplitLiteral(line, BoundaryKey) == [a, b]
    ensures ScanLine(line, p, sc) ==
      Ok((p.(req := p.req.(multiPartRequest := true), boundary := Some(Latin1Bytes(b))), sc))
  {
  }

  // ---------------------------------------------------- the part's header lines

  /** The text of a ` key="v"` piece of a Content-Disposition line. */
  function QuotedPiece(key: string, v: string): string {
    " " + key + "=\"" + v + "\""
  }

  /** Trimmed, such a piece is `key="v"`; lower-cased and trimmed, it starts
      with the lower-cased key; split on '=' it is the key and the quoted value. */
  lemma QuotedPieceFacts(key: string, v: string)
    requires |key| > 0 && key[0] > ' ' && '=' !in key && '"' !in v && '=' !in v
    ensures var d, x := QuotedPiece(key, v), key + "=\"" + v + "\"";
      Trim(d) == x && StartsWith(Trim(Lower(d)), Lower(key)) &&
      SplitLiteral(x, "=") == [key, "\"" + v + "\""]
  {
    QuotedPieceTrim(key, v);
    QuotedPieceSplit(key, v);
  }

  lemma QuotedPieceTrim(key: string, v: string)
    requires |key| > 0 && key[0] > ' '
    ensures var d, x := QuotedPiece(key, v), key + "=\"" + v + "\"";
      Trim(d) == x && StartsWith(Trim(Lower(d)), Lower(key))
  {
    var rest := "=\"" + v + "\"";
    var x := key + rest;
    assert x == key + "=\"" + v + "\"";
    assert QuotedPiece(key, v) == " " + x;
    assert x[0] == key[0] && x[|x| - 1] == '"';
    SpacedTrim(x);
    LowerPrefix(key, rest);
  }

  /** Lower-casing works character by character, so it keeps prefixes. */
  lemma LowerPrefix(a: string, b: string)
    ensures Lower(a + b)[..|a|] == Lower(a)
  {
  }

  /** Trim takes one leading space off a text that starts and ends past
      U+0020, before or after lower-casing. */
  lemma SpacedTrim(x: string)
    requires |x| > 0 && x[0] > ' ' && x[|x| - 1] > ' '
    ensures Trim(" " + x) == x && Trim(Lower(" " + x)) == Lower(x)
  {
    TrimLeadingBlanks(" ", x);
    var lx := Lower(x);
    assert Lower(" " + x) == " " + lx;
    assert lx[0] == LowerChar(x[0]) && lx[|lx| - 1] == LowerChar(x[|x| - 1]);
    TrimLeadingBlanks(" ", lx);
  }

  lemma QuotedPieceSplit(key: string, v: string)
    requires '=' !in key && '"' !in v && '=' !in v
    ensures SplitLiteral(key + "=\"" + v + "\"", "=") == [key, "\"" + v + "\""]
  {
    var x := key + "=\"" + v + "\"";
    var tail := "\"" + v + "\"";
    assert x == key + "=" + tail;
    assert '=' !in tail;
    forall j | 0 <= j < |x| && j != |key|
      ensures x[j] != '='
    {
      if j < |key| {
        assert x[j] == key[j];
      } else {
        assert x[j] == tail[j - |key| - 1];
      }
    }
    forall j | OccursAt(x, "=", j)
      ensures j == |key|
    {
      assert x[j] == x[j..j + 1][0];
    }
    assert x[|key|..|key| + 1] == "=";
    SplitLiteralOnce(x, "=", |key|);
    assert x[..|key|] == key && x[|key| + 1..] == tail;
  }

  /** ` name="v"` names the parameter v. */
  lemma NamePiece(v: string, info: PartInfo)
    requires '"' !in v && '=' !in v
    ensures DispositionPiece(QuotedPiece("name", v), info) == Ok(info.(paramName := Some(v)))
  {
    LowerOfLowerCase("name");
    var d := QuotedPiece("name", v);
    assert "name"[0] == 'n' && '=' !in "name";
    QuotedPieceFacts("name", v);
    var t := Trim(Lower(d));
    NotStartsWithAt(t, "filename", 0);
    RemoveQuotesOfQuoteFree(v);
  }

  /** ` filename="path"` names the file by the last backslash-separated
      component of path. */
  lemma FileNamePiece(path: string, file: string, info: PartInfo)
    requires '"' !in path && '=' !in path
    requires 0 < |file| <= |path| && path[|path| - |file|..] == file && '\\' !in file
    requires |file| == |path| || path[|path| - |file| - 1] == '\\'
    ensures DispositionPiece(QuotedPiece("filename", path), info) == Ok(info.(fileName := Some(file)))
  {
    FileNameText(path);
    assert forall k :: 0 <= k < |file| ==> !IsBackslash(file[k]);
    SplitWhereLast(path, file, IsBackslash);
    FileNameBranch(QuotedPiece("filename", path), info, "\"" + path + "\"", path, file);
  }

  /** ` filename="path"` takes the filename branch with the quoted path as its value. */
  lemma FileNameText(path: string)
    requires '"' !in path && '=' !in path
    ensures var d := QuotedPiece("filename", path);
      !StartsWith(Trim(Lower(d)), "name") && StartsWith(Trim(Lower(d)), "filename") &&
      SplitLiteral(Trim(d), "=") == ["filename", "\"" + path + "\""] &&
      RemoveQuotes("\"" + path + "\"") == path
  {
    var d := QuotedPiece("filename", path);
    LowerOfLowerCase("filename");
    assert "filename"[0] == 'f' && '=' !in "filename";
    QuotedPieceFacts("filename", path);
    NotStartsWithAt(Trim(Lower(d)), "name", 0);
    RemoveQuotesOfQuoteFree(path);
  }

  /** The filename branch of a piece, once its trimmed text splits in two
      around '=' and the unquoted path ends in `file`. */
  lemma FileNameBranch(d: string, info: PartInfo, quoted: string, path: string, file: string)
    requires !StartsWith(Trim(Lower(d)), "name") && StartsWith(Trim(Lower(d)), "filename")
    requires |SplitLiteral(Trim(d), "=")| == 2 && SplitLiteral(Trim(d), "=")[1] == quoted
    requires RemoveQuotes(quoted) == path
    requires var ps := SplitWhere(path, IsBackslash); |ps| > 0 && ps[|ps| - 1] == file
    ensures DispositionPiece(d, info) == Ok(info.(fileName := Some(file)))
  {
  }

  /** A part's `Content-Type: t` line, with the name in any letter case,
      sets fileContentType to t lower-cased, for a t without whitespace that
      does not itself mention content-disposition. */
  lemma PartContentTypeLine(name: string, t: string, info: PartInfo, req: RequestState)
    requires Lower(name) == ContentTypeName && t != [] && NoWhitespace(t)
    requires !Contains(Lower(t), "content-disposition")
    ensures DescribeLine(name + " " + t, info, req) == Ok((info, req.(fileContentType := Some(Lower(t)))))
  {
    var line := name + " " + t;
    assert line == name + [' '] + t && name + " " + t == name + (" " + t);
    ContentTypeNameFacts();
    HeaderName(name, " " + t, ContentTypeName);
    NotDisposition(name, t);
    assert OccursAt(Lower(line), "content-type", 0) by {
      assert StartsWith(ContentTypeName, "content-type");
      assert Lower(line)[..12] == Lower(line)[..13][..12];
    }
    forall k | 0 <= k < |t|
      ensures !IsJavaWhitespace(t[k])
    {
      assert t[k] in t;
    }
    SplitWhereOnce(name, ' ', t, IsJavaWhitespace);
    ContentTypeBranch(line, name, t, info, req);
  }

  /** The content-type branch of a part's header line, given what it tests. */
  lemma ContentTypeBranch(line: string, name: string, t: string, info: PartInfo, req: RequestState)
    requires !Contains(Lower(line), "content-disposition") && Contains(Lower(line), "content-type")
    requires SplitWhere(line, IsJavaWhitespace) == [name, t]
    ensures DescribeLine(line, info, req) == Ok((info, req.(fileContentType := Some(Lower(t)))))
  {
  }

  /** Such a line does not mention content-disposition. */
  lemma NotDisposition(name: string, t: string)
    requires Lower(name) == ContentTypeName && !Contains(Lower(t), "content-disposition")
    ensures !Contains(Lower(name + " " + t), "content-disposition")
  {
    var cd := "content-disposition";
    var l := Lower(name + " " + t);
    assert l == ContentTypeName + " " + Lower(t);
    ContentTypeNameFacts();
    DispositionNameFacts();
    assert l[8] == ContentTypeName[8] && l[12] == ContentTypeName[12];
    forall j | 0 <= j && j + |cd| <= |l|
      ensures !OccursAt(l, cd, j)
    {
      var w := l[j..j + |cd|];
      if j == 0 {
        assert w[8] == l[8];
        assert w[8] != cd[8];
      } else if j <= 12 {
        assert w[12 - j] == l[12];
        assert cd[12 - j] in cd;
        assert w[12 - j] != cd[12 - j];
      } else if j == 13 {
        assert w[0] == l[13] == ' ';
        assert w[0] != cd[0];
      } else {
        assert w == Lower(t)[j - 14..j - 14 + |cd|];
        assert !OccursAt(Lower(t), cd, j - 14);
      }
    }
  }

  // ------------------------------------------------------------- one part

  /** One part on the stream: a header block h that the matcher ends exactly
      at its last byte, a value b with no CR LF "--" in it, the delimiter,
      then "--" or CR LF. The part's headers are read and described, the
      value comes back whole, and it is stored: a file part's bytes as the
      file contents under its file name, a field's text under its lower-cased
      name in the arguments, and a part with neither name is a null
      dereference. A closing "--" sets requestComplete. */
  lemma ParamOnStream(p: Parser, bnd: seq<byte>, cfg: ServerConfig, h: seq<byte>, b: seq<byte>, tl: seq<byte>)
    returns (e: Src)
    requires Valid(p.src) && Remaining(p.src) == h + b + BoundaryPrefix + bnd + tl
    requires EndAt(0, Remaining(p.src)) == |h| <= cfg.headerPartMaxSize
    requires NoDelimiterBefore(b + BoundaryPrefix + bnd + tl, BoundaryPrefix + bnd, |b|)
    requires NoPrefixBefore(b + BoundaryPrefix + bnd + tl, |b|)
    requires |b| + 4 <= cfg.maxPostSize
    requires |tl| >= 2 && ((tl[0] == DASH && tl[1] == DASH) || (tl[0] == CR && tl[1] == LF))
    requires DescribeLines(SplitLiteral(Latin1(h), CRLF), 0, PartInfo(None, None), p.req).0.Ok?
    ensures Valid(e) && Remaining(e) == tl[2..]
    ensures var (info, req1) := DescribeLines(SplitLiteral(Latin1(h), CRLF), 0, PartInfo(None, None), p.req);
      var p1 := p.(src := e, req := req1, complete := p.complete || tl[0] == DASH);
      var r := ParamF(p, bnd, cfg);
      (info.value.fileName.Some? ==>
         r == (Ok(()), p1.(req := req1.(fileContents := Some(b), fileName := info.value.fileName)))) &&
      (info.value.fileName.None? && info.value.paramName.Some? && req1.requestArgs.Some? ==>
         r == (Ok(()), p1.(req := req1.(requestArgs :=
           Some(req1.requestArgs.value[Lower(info.value.paramName.value) := Latin1(b)]))))) &&
      (info.value.fileName.None? && info.value.paramName.None? ==> r == (Err(RuntimeFailure(NullPointer)), p1))
  {
    var data := Remaining(p.src);
    var rest := b + BoundaryPrefix + bnd + tl;
    assert data == h + rest;
    ReadHeadersOnStream(p.src, cfg.headerPartMaxSize);
    var s1 := ReadHeadersF(p.src, cfg.headerPartMaxSize).1;
    assert data[..|h|] == h && data[|h|..] == rest;
    ValueRoundTrip(s1, bnd, cfg.maxPostSize, b, tl);
    e := ReadValueF(s1, bnd, cfg.maxPostSize).1;
  }
}
