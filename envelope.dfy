/**
 * The response envelope of app/utils.py, the HTTPException handler of
 * app/exceptions.py and the message constants of app/global_constants.py.
 *
 * JSON is modelled as a plain value tree; `jsonable_encoder` is the identity
 * on such values.
 */
module Envelope {
  import opened Wrappers

  datatype Json =
    | JNull
    | JBool(b: bool)
    | JInt(i: int)
    | JStr(s: string)
    | JArr(items: seq<Json>)
    | JObj(fields: map<string, Json>)

  /** An HTTP response: its status line and its JSON body. */
  datatype Response = Response(statusCode: int, body: Json)

  /** fastapi's HTTPException: a status code and an arbitrary detail. */
  datatype HttpError = HttpError(statusCode: int, detail: Json)

  /**
   * What running a route handler (or one of its dependencies) ends in:
   * a value it returned, an HTTPException it raised (rendered by the
   * registered handler), or any other exception, which escapes to the
   * framework and becomes a bare 500 outside the envelope.
   */
  datatype Outcome<+T> = Done(value: T) | Raised(error: HttpError) | Crashed {

    /** A failed dependency ends the route the same way. */
    function Propagate<U>(): (o: Outcome<U>)
      requires !Done?
      ensures Raised? ==> o == Raised(error)
      ensures Crashed? ==> o == Crashed
    {
      if Raised? then Raised(error) else Crashed
    }
  }

  const HTTP_200_OK := 200
  const HTTP_201_CREATED := 201
  const HTTP_204_NO_CONTENT := 204
  const HTTP_400_BAD_REQUEST := 400
  const HTTP_401_UNAUTHORIZED := 401
  const HTTP_403_FORBIDDEN := 403
  const HTTP_404_NOT_FOUND := 404

  const MESSAGE_KEY := "message"
  const STATUS_KEY := "status"
  const RESULTS_KEY := "results"
  /** The non-field-error key under which a non-dict detail is listed. */
  const DETAIL_KEY := "detail"

  /**
   * The members of SuccessMessage and ErrorMessage the routes refer to.
   * LogoutSuccess, EmailAlreadyExists, InvalidCredentials, InvalidToken,
   * LogoutFailed and AuthorizationHeaderMissingOrInvalid are not declared
   * in app/global_constants.py.
   */
  datatype Message =
    | RecordCreated | RecordUpdated | RecordDeleted | RecordRetrieved
    | LoginSuccess | LogoutSuccess
    | BadRequest | NotFound | SomethingWentWrong
    | EmailAlreadyExists | InvalidCredentials | InvalidToken | LogoutFailed
    | AuthorizationHeaderMissingOrInvalid

  /**
   * The `.value` of each member. For the undeclared members the text is the
   * member's own name, standing in for a value the repository never defines.
   */
  function Text(m: Message): string {
    match m
    case RecordCreated => "Record created successfully."
    case RecordUpdated => "Record updated successfully."
    case RecordDeleted => "Record deleted successfully."
    case RecordRetrieved => "Record retrieved successfully."
    case LoginSuccess => "Login successful."
    case LogoutSuccess => "LOGOUT_SUCCESS"
    case BadRequest => "Bad request."
    case NotFound => "Record not found."
    case SomethingWentWrong => "Something went wrong. Please try again later."
    case EmailAlreadyExists => "EMAIL_ALREADY_EXISTS"
    case InvalidCredentials => "INVALID_CREDENTIALS"
    case InvalidToken => "INVALID_TOKEN"
    case LogoutFailed => "LOGOUT_FAILED"
    case AuthorizationHeaderMissingOrInvalid => "AUTHORIZATION_HEADER_MISSING_OR_INVALID"
  }

  /** The three fields of the envelope, as a client reads them. */
  datatype Envelope = Envelope(message: string, status: int, results: Json)

  /**
   * How a client reads an envelope back out of a response: the body is an
   * object with exactly the keys message, status and results, the message is
   * a string and the status field agrees with the HTTP status code.
   */
  function ReadEnvelope(r: Response): Option<Envelope> {
    if r.body.JObj?
       && r.body.fields.Keys == {MESSAGE_KEY, STATUS_KEY, RESULTS_KEY}
       && r.body.fields[MESSAGE_KEY].JStr?
       && r.body.fields[STATUS_KEY] == JInt(r.statusCode)
    then Some(Envelope(r.body.fields[MESSAGE_KEY].s, r.statusCode, r.body.fields[RESULTS_KEY]))
    else None
  }

  /** get_response_schema: wrap `schema` and `message` in the uniform envelope. */
  function ResponseSchema(schema: Json, message: string, statusCode: int): (r: Response)
    ensures r.statusCode == statusCode
    ensures r.body.JObj? && r.body.fields.Keys == {MESSAGE_KEY, STATUS_KEY, RESULTS_KEY}
    ensures ReadEnvelope(r) == Some(Envelope(message, statusCode, schema))
  {
    Response(statusCode, JObj(map[MESSAGE_KEY := JStr(message), STATUS_KEY := JInt(statusCode), RESULTS_KEY := schema]))
  }

  /** Every response a client reads as an envelope is the one get_response_schema builds from it. */
  lemma ReadEnvelopeInverse(r: Response)
    requires ReadEnvelope(r).Some?
    ensures var e := ReadEnvelope(r).value; r == ResponseSchema(e.results, e.message, e.status)
  {
    var e := ReadEnvelope(r).value;
    var f := r.body.fields;
    var g := ResponseSchema(e.results, e.message, e.status).body.fields;
    assert f.Keys == g.Keys;
    forall k | k in f ensures f[k] == g[k] {
      if k == MESSAGE_KEY {
        assert f[k] == JStr(f[k].s);
      }
    }
    assert f == g;
  }

  /** get_response_schema is injective: different arguments give different responses. */
  lemma ResponseSchemaInjective(s1: Json, m1: string, c1: int, s2: Json, m2: string, c2: int)
    requires ResponseSchema(s1, m1, c1) == ResponseSchema(s2, m2, c2)
    ensures s1 == s2 && m1 == m2 && c1 == c2
  {
    assert ReadEnvelope(ResponseSchema(s1, m1, c1)) == ReadEnvelope(ResponseSchema(s2, m2, c2));
  }

  /** The `results` the exception handler builds from an exception's detail. */
  function ErrorResults(detail: Json): Json {
    if detail.JObj? then detail else JObj(map[DETAIL_KEY := JArr([detail])])
  }

  /** http_exception_handler: a generic message, the exception's status, the detail in results. */
  function HttpExceptionHandler(exc: HttpError): (r: Response)
    ensures r.statusCode == exc.statusCode
    ensures ReadEnvelope(r).Some?
    ensures ReadEnvelope(r).value.message == Text(SomethingWentWrong)
    ensures ReadEnvelope(r).value.status == exc.statusCode
    ensures exc.detail.JObj? ==> ReadEnvelope(r).value.results == exc.detail
    ensures !exc.detail.JObj? ==> ReadEnvelope(r).value.results == JObj(map[DETAIL_KEY := JArr([exc.detail])])
    ensures !exc.detail.JObj? ==> ReadErrorDetails(ReadEnvelope(r).value.results) == Some([exc.detail])
  {
    ResponseSchema(ErrorResults(exc.detail), Text(SomethingWentWrong), exc.statusCode)
  }

  /** How a client reads the non-field error list out of `results`. */
  function ReadErrorDetails(results: Json): Option<seq<Json>> {
    if results.JObj? && DETAIL_KEY in results.fields && results.fields[DETAIL_KEY].JArr?
    then Some(results.fields[DETAIL_KEY].items)
    else None
  }

  /**
   * The handler's message never depends on the detail: two exceptions with
   * the same status differ in their responses only through `results`.
   */
  lemma HandlerMessageIsFixed(e1: HttpError, e2: HttpError)
    requires e1.statusCode == e2.statusCode
    ensures ReadEnvelope(HttpExceptionHandler(e1)).value.message
         == ReadEnvelope(HttpExceptionHandler(e2)).value.message
    ensures HttpExceptionHandler(e1) == HttpExceptionHandler(e2) <==> ErrorResults(e1.detail) == ErrorResults(e2.detail)
  {
    if HttpExceptionHandler(e1) == HttpExceptionHandler(e2) {
      ResponseSchemaInjective(ErrorResults(e1.detail), Text(SomethingWentWrong), e1.statusCode,
                              ErrorResults(e2.detail), Text(SomethingWentWrong), e2.statusCode);
    }
  }

  /**
   * A client cannot tell a string detail from a dict detail that already
   * has the non-field-error shape: both render to the same response.
   */
  lemma DictAndTextDetailCollide(status: int, text: string)
    ensures HttpExceptionHandler(HttpError(status, JStr(text)))
         == HttpExceptionHandler(HttpError(status, JObj(map[DETAIL_KEY := JArr([JStr(text)])])))
  {
  }
}
