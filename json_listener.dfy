/**
 * The request handling of the JSON web interface: which request-body type a
 * service is decoded to, what the invoked handler hands back, and the rule
 * that turns the outcome into a response (200 on success, 303 with the
 * exception otherwise) before the exchange is ended.
 */
module JsonListener {
  import opened Wrappers
  import opened RestService

  /** The request-body classes a service's JSON payload is decoded into. */
  datatype BodyType =
    | EntityRequestBody
    | EntityQueryBody
    | EntityListRequestBody
    | EntityInitializeBody
    | SaveRelationshipRequestBody

  /** getClassForEndpoint: the body type a request for service `p` is decoded into. */
  function GetClassForEndpoint(p: RestServicePath): (t: BodyType)
    ensures t == HandlerArgument(p)
  {
    match p
    case SAVE | DELETE | FIND | FIND_BY_PARTITION | FIND_BY_REFERENCE | EXISTS => EntityRequestBody
    case EXECUTE | EXECUTE_DELETE | EXECUTE_UPDATE => EntityQueryBody
    case INITIALIZE => EntityInitializeBody
    case BATCH_DELETE | BATCH_SAVE => EntityListRequestBody
    case SAVE_RELATIONSHIPS => SaveRelationshipRequestBody
  }

  /** The type each endpoint operation of invokeHandler casts its body to. */
  function HandlerArgument(p: RestServicePath): BodyType
  {
    match p
    case SAVE => EntityRequestBody
    case DELETE => EntityRequestBody
    case FIND => EntityRequestBody
    case FIND_BY_PARTITION => EntityRequestBody
    case FIND_BY_REFERENCE => EntityRequestBody
    case EXISTS => EntityRequestBody
    case EXECUTE => EntityQueryBody
    case EXECUTE_DELETE => EntityQueryBody
    case EXECUTE_UPDATE => EntityQueryBody
    case INITIALIZE => EntityInitializeBody
    case BATCH_DELETE => EntityListRequestBody
    case BATCH_SAVE => EntityListRequestBody
    case SAVE_RELATIONSHIPS => SaveRelationshipRequestBody
  }

  /** The services grouped by the body type they are decoded into. */
  lemma BodyTypeMatchesHandler(p: RestServicePath)
    ensures GetClassForEndpoint(p) == EntityRequestBody <==>
      p in {SAVE, DELETE, FIND, FIND_BY_PARTITION, FIND_BY_REFERENCE, EXISTS}
    ensures GetClassForEndpoint(p) == EntityQueryBody <==> p in {EXECUTE, EXECUTE_DELETE, EXECUTE_UPDATE}
    ensures GetClassForEndpoint(p) == EntityListRequestBody <==> p in {BATCH_SAVE, BATCH_DELETE}
    ensures GetClassForEndpoint(p) == EntityInitializeBody <==> p == INITIALIZE
    ensures GetClassForEndpoint(p) == SaveRelationshipRequestBody <==> p == SAVE_RELATIONSHIPS
  {
  }

  /** An exception, by its class name and whether it is an EntityException. */
  datatype Failure = Failure(className: string, isEntityException: bool)

  const UNKNOWN_DATABASE_EXCEPTION: string := "com.onyx.exception.UnknownDatabaseException"
  const ILLEGAL_ARGUMENT_EXCEPTION: string := "java.lang.IllegalArgumentException"
  const JSON_PROCESSING_EXCEPTION: string := "com.fasterxml.jackson.core.JsonProcessingException"

  /** What a call into the persistence endpoint or the JSON mapper did. */
  datatype Outcome<T> = Returned(value: T) | Threw(failure: Failure)

  /** The services whose endpoint operation is void: the handler answers null. */
  predicate ReturnsNull(p: RestServicePath) {
    p in {BATCH_DELETE, BATCH_SAVE, SAVE_RELATIONSHIPS}
  }

  /**
   * invokeHandler: runs the endpoint operation of `p`; a void operation gives
   * null, every other gives the endpoint's result; an exception passes through.
   */
  function InvokeHandler<B, V>(p: RestServicePath, body: B, endpoint: (RestServicePath, B) -> Outcome<V>): (r: Outcome<Option<V>>)
    ensures r.Threw? <==> endpoint(p, body).Threw?
    ensures r.Threw? ==> r.failure == endpoint(p, body).failure
    ensures r.Returned? && ReturnsNull(p) ==> r.value == None
    ensures r.Returned? && !ReturnsNull(p) ==> r.value == Some(endpoint(p, body).value)
  {
    match endpoint(p, body)
    case Threw(f) => Threw(f)
    case Returned(v) => if ReturnsNull(p) then Returned(None) else Returned(Some(v))
  }

  /** The exception value a 303 response carries. */
  datatype ExceptionValue = Raised(failure: Failure) | UnknownDatabase(cause: Failure)

  datatype Response<V> =
    | Payload(value: Option<V>)
    | ExceptionResponse(exception: ExceptionValue, className: string)

  /**
   * The catch rule of handleRequest: an EntityException is sent as it is with
   * its own class name; anything else is wrapped in an UnknownDatabaseException.
   */
  function ErrorResponse<V>(f: Failure): (r: Response<V>)
    ensures r.ExceptionResponse?
    ensures f.isEntityException ==> r.exception == Raised(f) && r.className == f.className
    ensures !f.isEntityException ==> r.exception == UnknownDatabase(f) && r.className == UNKNOWN_DATABASE_EXCEPTION
  {
    if f.isEntityException then ExceptionResponse(Raised(f), f.className)
    else ExceptionResponse(UnknownDatabase(f), UNKNOWN_DATABASE_EXCEPTION)
  }

  /**
   * The try block of handleRequest up to the response: resolve the path,
   * decode the body as the service's body type, invoke the handler.
   */
  function Process<B, V>(
    relativePath: string,
    content: seq<int>,
    decode: (BodyType, seq<int>) -> Outcome<B>,
    endpoint: (RestServicePath, B) -> Outcome<V>
  ): (r: Result<Option<V>, Failure>)
    ensures ValueOfPath(relativePath).Err? ==> r == Err(Failure(ILLEGAL_ARGUMENT_EXCEPTION, false))
    ensures r.Ok? ==> ValueOfPath(relativePath).Ok?
  {
    match ValueOfPath(relativePath)
    case Err(_) => Err(Failure(ILLEGAL_ARGUMENT_EXCEPTION, false))
    case Ok(p) =>
      match decode(GetClassForEndpoint(p), content)
      case Threw(f) => Err(f)
      case Returned(body) =>
        match InvokeHandler(p, body, endpoint)
        case Threw(f) => Err(f)
        case Returned(v) => Ok(v)
  }

  /** The HTTP exchange of one request, as far as the handler touches it. */
  class Exchange {
    var relativePath: string
    var content: seq<int>
    var responseCode: int
    var headers: map<string, string>
    var sent: Option<seq<int>>
    var ended: bool

    constructor (relativePath: string, content: seq<int>)
      ensures this.relativePath == relativePath && this.content == content
      ensures responseCode == 200 && headers == map[] && sent == None && !ended
    {
      this.relativePath := relativePath;
      this.content := content;
      responseCode := 200;
      headers := map[];
      sent := None;
      ended := false;
    }
  }

  const CONTENT_TYPE: string := "Content-Type"
  const APPLICATION_JSON: string := "application/json"

  /**
   * sendResponse: serialise the response; when that fails nothing is touched
   * and false is returned, otherwise the JSON content type and the status are
   * set and the bytes sent.
   */
  method SendResponse<V>(exchange: Exchange, response: Response<V>, code: int, encode: Response<V> -> Option<seq<int>>)
    returns (ok: bool)
    modifies exchange
    ensures ok <==> encode(response).Some?
    ensures ok ==> (exchange.responseCode == code && exchange.sent == encode(response)
      && exchange.headers == old(exchange.headers)[CONTENT_TYPE := APPLICATION_JSON])
    ensures !ok ==> (exchange.responseCode == old(exchange.responseCode) && exchange.sent == old(exchange.sent)
      && exchange.headers == old(exchange.headers))
    ensures exchange.relativePath == old(exchange.relativePath) && exchange.content == old(exchange.content)
    ensures exchange.ended == old(exchange.ended)
  {
    var bytes := encode(response);
    if bytes.None? {
      return false;
    }
    exchange.headers := exchange.headers[CONTENT_TYPE := APPLICATION_JSON];
    exchange.responseCode := code;
    exchange.sent := bytes;
    return true;
  }

  /**
   * The failure handleRequest answers with, if any: the failure of the try
   * block, or a JsonProcessingException when the success response cannot be
   * serialised.
   */
  function FailureOf<B, V>(
    relativePath: string,
    content: seq<int>,
    decode: (BodyType, seq<int>) -> Outcome<B>,
    endpoint: (RestServicePath, B) -> Outcome<V>,
    encode: Response<V> -> Option<seq<int>>
  ): (r: Option<Failure>)
    ensures r.None? <==> (Process(relativePath, content, decode, endpoint).Ok?
      && encode(Payload(Process(relativePath, content, decode, endpoint).value)).Some?)
  {
    match Process(relativePath, content, decode, endpoint)
    case Err(f) => Some(f)
    case Ok(v) => if encode(Payload(v)).Some? then None else Some(Failure(JSON_PROCESSING_EXCEPTION, false))
  }

  /**
   * handleRequest for one dispatched request. Success sends 200 with the
   * handler's answer; any failure sends 303 with the exception response; a
   * response that cannot be serialised is swallowed; the exchange is ended on
   * every path.
   */
  method HandleRequest<B, V>(
    exchange: Exchange,
    decode: (BodyType, seq<int>) -> Outcome<B>,
    endpoint: (RestServicePath, B) -> Outcome<V>,
    encode: Response<V> -> Option<seq<int>>
  )
    modifies exchange
    ensures exchange.ended
    ensures exchange.relativePath == old(exchange.relativePath) && exchange.content == old(exchange.content)
    ensures var f := FailureOf(old(exchange.relativePath), old(exchange.content), decode, endpoint, encode);
      f.None? ==>
        var v := Process(old(exchange.relativePath), old(exchange.content), decode, endpoint).value;
        exchange.responseCode == 200 && exchange.sent == encode(Payload(v))
        && exchange.headers == old(exchange.headers)[CONTENT_TYPE := APPLICATION_JSON]
    ensures var f := FailureOf(old(exchange.relativePath), old(exchange.content), decode, endpoint, encode);
      f.Some? && encode(ErrorResponse(f.value)).Some? ==>
        exchange.responseCode == 303 && exchange.sent == encode(ErrorResponse(f.value))
        && exchange.headers == old(exchange.headers)[CONTENT_TYPE := APPLICATION_JSON]
    ensures var f := FailureOf(old(exchange.relativePath), old(exchange.content), decode, endpoint, encode);
      f.Some? && encode(ErrorResponse(f.value)).None? ==>
        exchange.responseCode == old(exchange.responseCode) && exchange.sent == old(exchange.sent)
        && exchange.headers == old(exchange.headers)
  {
    var failure: Option<Failure> := None;
    var path := ValueOfPath(exchange.relativePath);
    if path.Err? {
      failure := Some(Failure(ILLEGAL_ARGUMENT_EXCEPTION, false));
    } else {
      var bodyType := GetClassForEndpoint(path.value);
      var body := decode(bodyType, exchange.content);
      if body.Threw? {
        failure := Some(body.failure);
      } else {
        var response := InvokeHandler(path.value, body.value, endpoint);
        if response.Threw? {
          failure := Some(response.failure);
        } else {
          var ok := SendResponse(exchange, Payload(response.value), 200, encode);
          if !ok {
            failure := Some(Failure(JSON_PROCESSING_EXCEPTION, false));
          }
        }
      }
    }
    if failure.Some? {
      var _ := SendResponse(exchange, ErrorResponse(failure.value), 303, encode);
    }
    exchange.ended := true;
  }

  /** A request for a path no service has is answered as an UnknownDatabaseException. */
  lemma UnknownPathAnswersUnknownDatabase<B, V>(
    relativePath: string,
    content: seq<int>,
    decode: (BodyType, seq<int>) -> Outcome<B>,
    endpoint: (RestServicePath, B) -> Outcome<V>,
    encode: Response<V> -> Option<seq<int>>
  )
    requires forall q :: !JavaStrings.EqualsIgnoreCase(Path(q), relativePath)
    ensures FailureOf(relativePath, content, decode, endpoint, encode) == Some(Failure(ILLEGAL_ARGUMENT_EXCEPTION, false))
    ensures ErrorResponse<V>(FailureOf(relativePath, content, decode, endpoint, encode).value).className
      == UNKNOWN_DATABASE_EXCEPTION
  {
  }

  /**
   * A known service whose handler throws an EntityException is answered with
   * that exception under its own class name.
   */
  lemma EntityExceptionKeepsClassName<B, V>(
    p: RestServicePath,
    content: seq<int>,
    decode: (BodyType, seq<int>) -> Outcome<B>,
    endpoint: (RestServicePath, B) -> Outcome<V>,
    encode: Response<V> -> Option<seq<int>>
  )
    requires decode(GetClassForEndpoint(p), content).Returned?
    requires endpoint(p, decode(GetClassForEndpoint(p), content).value).Threw?
    requires endpoint(p, decode(GetClassForEndpoint(p), content).value).failure.isEntityException
    ensures var f := endpoint(p, decode(GetClassForEndpoint(p), content).value).failure;
      FailureOf(Path(p), content, decode, endpoint, encode) == Some(f)
      && ErrorResponse<V>(f).className == f.className
  {
    JavaStrings.EqualsIgnoreCaseReflexive(Path(p));
    ValueOfPathRoundTrip(p, Path(p));
  }

  /**
   * A batch or relationship save that completes is answered 200 with a null
   * body (when null serialises).
   */
  lemma VoidServiceAnswersNull<B, V>(
    p: RestServicePath,
    content: seq<int>,
    decode: (BodyType, seq<int>) -> Outcome<B>,
    endpoint: (RestServicePath, B) -> Outcome<V>,
    encode: Response<V> -> Option<seq<int>>
  )
    requires ReturnsNull(p)
    requires decode(GetClassForEndpoint(p), content).Returned?
    requires endpoint(p, decode(GetClassForEndpoint(p), content).value).Returned?
    requires encode(Payload(None)).Some?
    ensures FailureOf(Path(p), content, decode, endpoint, encode) == None
    ensures Process(Path(p), content, decode, endpoint) == Ok(None)
  {
    JavaStrings.EqualsIgnoreCaseReflexive(Path(p));
    ValueOfPathRoundTrip(p, Path(p));
  }
}
