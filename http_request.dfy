/**
 * HttpRequest: the mutable record the request parser fills in. Every field
 * but the arguments map and the content length starts out null (None); the
 * arguments map starts out empty. The socket field is not part of this model.
 */
module HttpRequests {
  import opened Wrappers

  /** A byte as an unsigned value; Java's signed bytes compare equal exactly when these do. */
  type byte = b: int | 0 <= b < 256

  /** The values of all fields at one moment. */
  datatype RequestState = RequestState(
    httpHeaders: Option<string>,
    requestArgs: Option<map<string, string>>,
    requestMethod: Option<string>,
    contentLength: int,
    multiPartRequest: bool,
    fileContents: Option<seq<byte>>,
    fileName: Option<string>,
    fileContentType: Option<string>,
    headerEncoding: Option<string>)

  /** The state of `new HttpRequest()`. */
  function FreshRequest(): (r: RequestState)
    ensures r.requestArgs == Some(map[]) && r.contentLength == 0 && !r.multiPartRequest
    ensures r.httpHeaders.None? && r.requestMethod.None? && r.fileContents.None?
    ensures r.fileName.None? && r.fileContentType.None? && r.headerEncoding.None?
  {
    RequestState(None, Some(map[]), None, 0, false, None, None, None, None)
  }

  /** getRequestArgs().put(key, value): the live map updated in place; a null map is a null dereference. */
  function PutArg(r: RequestState, key: string, value: string): (r': Result<RequestState>)
    ensures r'.Err? <==> r.requestArgs.None?
    ensures r'.Err? ==> r'.error == RuntimeFailure(NullPointer)
    ensures r'.Ok? ==> r'.value.requestArgs == Some(r.requestArgs.value[key := value])
    ensures r'.Ok? ==> r'.value.(requestArgs := r.requestArgs) == r
  {
    if r.requestArgs.None? then Err(RuntimeFailure(NullPointer))
    else Ok(r.(requestArgs := Some(r.requestArgs.value[key := value])))
  }

  class HttpRequest {
    var httpHeaders: Option<string>
    var requestArgs: Option<map<string, string>>
    var requestMethod: Option<string>
    var contentLength: int
    var multiPartRequest: bool
    var fileContents: Option<seq<byte>>
    var fileName: Option<string>
    var fileContentType: Option<string>
    var headerEncoding: Option<string>

    function State(): RequestState
      reads this
    {
      RequestState(httpHeaders, requestArgs, requestMethod, contentLength, multiPartRequest,
                   fileContents, fileName, fileContentType, headerEncoding)
    }

    constructor()
      ensures State() == FreshRequest()
    {
      httpHeaders := None;
      requestArgs := Some(map[]);
      requestMethod := None;
      contentLength := 0;
      multiPartRequest := false;
      fileContents := None;
      fileName := None;
      fileContentType := None;
      headerEncoding := None;
    }

    method SetHttpHeaders(httpHeaders: Option<string>)
      modifies this
      ensures State() == old(State()).(httpHeaders := httpHeaders)
    {
      this.httpHeaders := httpHeaders;
    }

    /** setRequestArgs replaces the whole map, and may make it null. */
    method SetRequestArgs(requestArgs: Option<map<string, string>>)
      modifies this
      ensures State() == old(State()).(requestArgs := requestArgs)
    {
      this.requestArgs := requestArgs;
    }

    method SetRequestMethod(requestMethod: Option<string>)
      modifies this
      ensures State() == old(State()).(requestMethod := requestMethod)
    {
      this.requestMethod := requestMethod;
    }

    method SetContentLength(contentLength: int)
      modifies this
      ensures State() == old(State()).(contentLength := contentLength)
    {
      this.contentLength := contentLength;
    }

    method SetMultiPartRequest(multiPartRequest: bool)
      modifies this
      ensures State() == old(State()).(multiPartRequest := multiPartRequest)
    {
      this.multiPartRequest := multiPartRequest;
    }

    method SetFileContents(fileContents: Option<seq<byte>>)
      modifies this
      ensures State() == old(State()).(fileContents := fileContents)
    {
      this.fileContents := fileContents;
    }

    method SetFileName(fileName: Option<string>)
      modifies this
      ensures State() == old(State()).(fileName := fileName)
    {
      this.fileName := fileName;
    }

    method SetFileContentType(fileContentType: Option<string>)
      modifies this
      ensures State() == old(State()).(fileContentType := fileContentType)
    {
      this.fileContentType := fileContentType;
    }

    method SetHeaderEncoding(headerEncoding: Option<string>)
      modifies this
      ensures State() == old(State()).(headerEncoding := headerEncoding)
    {
      this.headerEncoding := headerEncoding;
    }

    /** getRequestArgs().put(key, value) on the live map. */
    method PutRequestArg(key: string, value: string) returns (r: Result<()>)
      modifies this
      ensures PutArg(old(State()), key, value).Err? ==> r == Err(RuntimeFailure(NullPointer)) && State() == old(State())
      ensures PutArg(old(State()), key, value).Ok? ==> r == Ok(()) && State() == PutArg(old(State()), key, value).value
    {
      if requestArgs.None? {
        return Err(RuntimeFailure(NullPointer));
      }
      requestArgs := Some(requestArgs.value[key := value]);
      return Ok(());
    }
  }
}
