/**
 * The HTTP error type of the `utils` crate (`utils/src/http.rs`): an error with
 * an optional public (status, message) part and an inner report, the
 * combinators that build it, and its conversion into a JSON response.
 */
module Http {
  import opened Proto
  import opened Wrappers

  /** An HTTP status code, as the `http` crate bounds it. */
  type StatusCode = c: int | 100 <= c <= 999 witness 500

  const INTERNAL_SERVER_ERROR: StatusCode := 500

  const INTERNAL_ERROR_MESSAGE: string := "internal error"

  datatype Error = Error(public: Option<(StatusCode, string)>, inner: Report)

  /** The JSON values the error body is made of. */
  datatype Json = JString(text: string) | JObject(fields: seq<(string, Json)>)

  /** A response: its status, its JSON body, and the report logged while building it, if any. */
  datatype Response = Response(status: StatusCode, body: Json, logged: Option<Report>)

  /** `Error::public`: the public message doubles as the inner report. */
  function Public(status: StatusCode, msg: string): (e: Error)
    ensures e.public == Some((status, msg))
    ensures e.inner.message == msg
  {
    PublicWith(Report(msg), status, msg)
  }

  /** `Error::public_with`. */
  function PublicWith(inner: Report, status: StatusCode, msg: string): (e: Error)
    ensures e.public == Some((status, msg)) && e.inner == inner
  {
    Error(Some((status, msg)), inner)
  }

  /** `From<eyre::Report>`: an internal error with nothing public. */
  function FromReport(inner: Report): (e: Error)
    ensures e.public.None? && e.inner == inner
  {
    Error(None, inner)
  }

  /** The field `name` of a JSON object, if it has one. */
  function Field(j: Json, name: string): Option<Json>
    decreases j
  {
    if !j.JObject? then None
    else FieldIn(j.fields, name)
  }

  function FieldIn(fields: seq<(string, Json)>, name: string): Option<Json>
  {
    if |fields| == 0 then None
    else if fields[0].0 == name then Some(fields[0].1)
    else FieldIn(fields[1..], name)
  }

  /** How a client reads the message of an error body: `body.error.message`. */
  function ErrorMessage(body: Json): Option<string>
  {
    match Field(body, "error")
    case None => None
    case Some(err) =>
      match Field(err, "message")
      case Some(JString(msg)) => Some(msg)
      case _ => None
  }

  /** The body `{"error": {"message": msg}}`. */
  function ErrorBody(msg: string): (body: Json)
    ensures ErrorMessage(body) == Some(msg)
  {
    JObject([("error", JObject([("message", JString(msg))]))])
  }

  /**
   * `IntoResponse for Error`: the public status and message when there are some,
   * otherwise 500 with a generic message; the inner report is logged exactly when
   * the status is a server error.
   */
  function IntoResponse(e: Error): (r: Response)
    ensures e.public.Some? ==> r.status == e.public.value.0 && ErrorMessage(r.body) == Some(e.public.value.1)
    ensures e.public.None? ==> r.status == 500 && ErrorMessage(r.body) == Some("internal error")
    ensures r.logged.Some? <==> r.status >= 500
    ensures r.logged.Some? ==> r.logged.value == e.inner
  {
    var (status, message) := if e.public.Some? then e.public.value
                             else (INTERNAL_SERVER_ERROR, INTERNAL_ERROR_MESSAGE);
    var logged := if INTERNAL_SERVER_ERROR <= status then Some(e.inner) else None;
    Response(status, ErrorBody(message), logged)
  }

  /** `ResultExt::http_error`: a success passes through; a failure gets a public status and message. */
  function HttpError<T>(r: Result<T, Report>, status: StatusCode, msg: string): (o: Result<T, Error>)
    ensures r.Ok? <==> o.Ok?
    ensures r.Ok? ==> o.value == r.value
    ensures r.Err? ==> o.error == PublicWith(r.error, status, msg)
  {
    match r
    case Ok(v) => Ok(v)
    case Err(error) => Err(Error(Some((status, msg)), error))
  }

  /** `OptionExt::or_http_error`: `None` becomes a public error. */
  function OrHttpError<T>(o: Option<T>, status: StatusCode, msg: string): (r: Result<T, Error>)
    ensures o.Some? <==> r.Ok?
    ensures o.Some? ==> r.value == o.value
    ensures o.None? ==> r.error.public == Some((status, msg))
  {
    match o
    case Some(v) => Ok(v)
    case None => Err(Public(status, msg))
  }

  /**
   * A client that hits a missing value sees the status and message the handler
   * chose, and nothing is logged for a client error.
   */
  lemma MissingValueResponse<T>(status: StatusCode, msg: string)
    ensures var r := OrHttpError<T>(None, status, msg);
      var resp := IntoResponse(r.error);
      resp.status == status && ErrorMessage(resp.body) == Some(msg) &&
      (resp.logged.Some? <==> status >= 500)
  {
  }

  /**
   * An error built with `public_with` reaches the client with its own status and
   * message; its inner report is logged exactly when that status is a server error.
   */
  lemma PublicWithResponse(inner: Report, status: StatusCode, msg: string)
    ensures var resp := IntoResponse(PublicWith(inner, status, msg));
      && resp.status == status && ErrorMessage(resp.body) == Some(msg)
      && (status >= 500 ==> resp.logged == Some(inner))
      && (status < 500 ==> resp.logged.None?)
  {
  }

  /**
   * An error built with `public` shows its message to the client, and the report
   * logged for a server error carries that same message.
   */
  lemma PublicResponse(status: StatusCode, msg: string)
    ensures var resp := IntoResponse(Public(status, msg));
      && resp.status == status && ErrorMessage(resp.body) == Some(msg)
      && (status >= 500 ==> resp.logged == Some(Report(msg)))
      && (status < 500 ==> resp.logged.None?)
  {
  }

  /**
   * A failed result tagged with `http_error` reaches the client with the chosen
   * status and message, not the failure's own text; the failure itself is logged
   * exactly when the status is a server error.
   */
  lemma HttpErrorResponse<T>(error: Report, status: StatusCode, msg: string)
    ensures var resp := IntoResponse(HttpError<T>(Err(error), status, msg).error);
      && resp.status == status && ErrorMessage(resp.body) == Some(msg)
      && (status >= 500 ==> resp.logged == Some(error))
      && (status < 500 ==> resp.logged.None?)
  {
  }

  /** An error raised with `?` from a plain report is a logged 500 that hides its detail. */
  lemma InternalErrorResponse(inner: Report)
    ensures var resp := IntoResponse(FromReport(inner));
      resp.status == 500 && ErrorMessage(resp.body) == Some("internal error") &&
      resp.logged == Some(inner)
  {
  }
}
