/**
 * The headers and error responses of the REST servlet: the CORS headers that
 * `service` sets on every response, the debugger switch, the `Allow` and
 * CORS headers of an OPTIONS request, and the status, challenge and body that
 * `handleException` / `sendError` produce for each kind of failure.
 */
module ResponseHeaders {
  import opened Base
  import opened Strings
  import opened Values
  import ContentKinds

  const NodebugHeader: Str := "servoy.nodebug"
  const UserPropertiesHeader: Str := "servoy.userproperties"
  const AllowedMethods: Str := "GET, DELETE, POST, PUT, OPTIONS"

  /** The response headers, of which `setHeader` keeps one value per name. */
  class HeaderSink {
    var headers: map<Str, Str>

    constructor()
      ensures headers == map[]
    {
      headers := map[];
    }

    method SetHeader(name: Str, value: Str)
      modifies this
      ensures headers == old(headers)[name := value]
    {
      headers := headers[name := value];
    }
  }

  /**
   * Debugging is switched off by the `servoy.nodebug` header, or, on an
   * OPTIONS pre-flight, by that name among the announced request headers.
   */
  predicate Nodebug(requestMethod: Str, requestHeaders: Option<Str>, nodebugHeaderPresent: bool) {
    || (EqualsIgnoreCase(requestMethod, "OPTIONS") && requestHeaders.Some? && Contains(requestHeaders.value, NodebugHeader))
    || nodebugHeaderPresent
  }

  /** The headers `service` sets before dispatching on the verb, over those already set. */
  function ServiceHeaders(before: map<Str, Str>, origin: Option<Str>, requestMethodHeader: Option<Str>, nodebug: bool,
                          requestHeaders: Option<Str>): map<Str, Str>
  {
    var base := before
      ["Access-Control-Allow-Origin" := if origin.Some? then origin.value else "*"]
      ["Access-Control-Max-Age" := "1728000"]
      ["Access-Control-Allow-Credentials" := "true"];
    var withMethods := if requestMethodHeader.Some? then base["Access-Control-Allow-Methods" := AllowedMethods] else base;
    var withExpose := withMethods["Access-Control-Expose-Headers" :=
                                    if nodebug then NodebugHeader + ", " + UserPropertiesHeader else UserPropertiesHeader];
    if requestHeaders.Some? then withExpose["Access-Control-Allow-Headers" := requestHeaders.value] else withExpose
  }

  /** The header writes of `service`, in the source's order. */
  method SetServiceHeaders(response: HeaderSink, origin: Option<Str>, requestMethodHeader: Option<Str>,
                           nodebug: bool, requestHeaders: Option<Str>)
    modifies response
    ensures response.headers == ServiceHeaders(old(response.headers), origin, requestMethodHeader, nodebug, requestHeaders)
  {
    var value := if origin.None? then "*" else origin.value;
    response.SetHeader("Access-Control-Allow-Origin", value);
    response.SetHeader("Access-Control-Max-Age", "1728000");
    response.SetHeader("Access-Control-Allow-Credentials", "true");
    if requestMethodHeader.Some? {
      response.SetHeader("Access-Control-Allow-Methods", AllowedMethods);
    }
    if nodebug {
      response.SetHeader("Access-Control-Expose-Headers", NodebugHeader + ", " + UserPropertiesHeader);
    } else {
      response.SetHeader("Access-Control-Expose-Headers", UserPropertiesHeader);
    }
    if requestHeaders.Some? {
      response.SetHeader("Access-Control-Allow-Headers", requestHeaders.value);
    }
  }

  /**
   * Every response allows the requesting origin (any origin when none is
   * named), exposes the user-properties header, and allows the announced
   * request headers; methods are only listed for a pre-flight.
   */
  lemma ServiceHeadersContents(before: map<Str, Str>, origin: Option<Str>, requestMethodHeader: Option<Str>, nodebug: bool,
                               requestHeaders: Option<Str>)
    requires "Access-Control-Allow-Methods" !in before && "Access-Control-Allow-Headers" !in before
    ensures var h := ServiceHeaders(before, origin, requestMethodHeader, nodebug, requestHeaders);
            && h["Access-Control-Allow-Origin"] == (if origin.Some? then origin.value else "*")
            && ("Access-Control-Allow-Methods" in h <==> requestMethodHeader.Some?)
            && EndsWith(h["Access-Control-Expose-Headers"], UserPropertiesHeader)
            && (StartsWith(h["Access-Control-Expose-Headers"], NodebugHeader) <==> nodebug)
            && ("Access-Control-Allow-Headers" in h <==> requestHeaders.Some?)
            && (requestHeaders.Some? ==> h["Access-Control-Allow-Headers"] == requestHeaders.value)
  {
    var h := ServiceHeaders(before, origin, requestMethodHeader, nodebug, requestHeaders);
    var expose := h["Access-Control-Expose-Headers"];
    if nodebug {
      assert expose[|expose| - |UserPropertiesHeader|..] == UserPropertiesHeader;
      assert expose[..|NodebugHeader|] == NodebugHeader;
    } else {
      assert expose[..|NodebugHeader|] != NodebugHeader by {
        assert expose[7] == 'u' && NodebugHeader[7] == 'n';
      }
    }
  }

  /** Which of the form's `ws_*` methods exist (`Exist.METHOD_FOUND`). */
  datatype FormMethods = FormMethods(read: bool, create: bool, update: bool, patch: bool, delete: bool)

  /** The verbs named in `Allow`: TRACE and OPTIONS, GET, HEAD, then the updating verbs. */
  function AllowTokens(m: FormMethods): seq<Str> {
    ["TRACE", "OPTIONS"] + Optional(m.read, "GET") + ["HEAD"]
    + Optional(m.create, "POST") + Optional(m.update, "PUT") + Optional(m.patch, "PATCH") + Optional(m.delete, "DELETE")
  }

  function Optional(present: bool, token: Str): seq<Str> {
    if present then [token] else []
  }

  /** Appending `, <token>` when the verb is present keeps `retval` the joined token list. */
  lemma AppendOptional(tokens: seq<Str>, retval: Str, present: bool, token: Str)
    requires |tokens| > 0 && retval == Join(tokens, ", ")
    ensures (if present then retval + ", " + token else retval) == Join(tokens + Optional(present, token), ", ")
  {
    if present {
      JoinSnoc(tokens, token, ", ");
    } else {
      assert tokens + [] == tokens;
    }
  }

  /** The `retval` accumulation of `doOptions`. */
  method AllowHeader(m: FormMethods) returns (retval: Str)
    ensures retval == Join(AllowTokens(m), ", ")
  {
    ghost var tokens: seq<Str> := ["TRACE", "OPTIONS"];
    retval := "TRACE" + ", " + "OPTIONS";
    assert retval == Join(tokens, ", ");
    AppendOptional(tokens, retval, m.read, "GET");
    if m.read {
      retval := retval + ", " + "GET";
    }
    tokens := tokens + Optional(m.read, "GET");
    AppendOptional(tokens, retval, true, "HEAD");
    retval := retval + ", " + "HEAD";
    tokens := tokens + Optional(true, "HEAD");
    AppendOptional(tokens, retval, m.create, "POST");
    if m.create {
      retval := retval + ", " + "POST";
    }
    tokens := tokens + Optional(m.create, "POST");
    AppendOptional(tokens, retval, m.update, "PUT");
    if m.update {
      retval := retval + ", " + "PUT";
    }
    tokens := tokens + Optional(m.update, "PUT");
    AppendOptional(tokens, retval, m.patch, "PATCH");
    if m.patch {
      retval := retval + ", " + "PATCH";
    }
    tokens := tokens + Optional(m.patch, "PATCH");
    AppendOptional(tokens, retval, m.delete, "DELETE");
    if m.delete {
      retval := retval + ", " + "DELETE";
    }
    tokens := tokens + Optional(m.delete, "DELETE");
  }

  /**
   * A verb is allowed exactly when its form method exists; TRACE, OPTIONS and
   * HEAD always are, and HEAD comes right after GET.
   */
  lemma AllowListsExistingVerbs(m: FormMethods)
    ensures var t := AllowTokens(m);
            && t[..2] == ["TRACE", "OPTIONS"]
            && ("HEAD" in t)
            && ("GET" in t <==> m.read)
            && ("POST" in t <==> m.create)
            && ("PUT" in t <==> m.update)
            && ("PATCH" in t <==> m.patch)
            && ("DELETE" in t <==> m.delete)
            && (m.read ==> t[2] == "GET" && t[3] == "HEAD")
            && (!m.read ==> t[2] == "HEAD")
  {
  }

  /** `Access-Control-Allow-Headers` of an OPTIONS answer: the announced headers, with `Allow` added if missing. */
  function OptionsAllowHeaders(requestHeaders: Option<Str>): (value: Str)
    ensures Contains(value, "Allow")
  {
    match requestHeaders
    case None => "Allow"
    case Some(v) =>
      if Contains(v, "Allow") then v
      else
        ContainsInfix(v + ", ", "Allow", "");
        assert v + ", " + "Allow" + "" == v + ", Allow";
        v + ", Allow"
  }

  /** `Access-Control-Expose-Headers` of an OPTIONS answer. */
  function OptionsExposeHeaders(requestHeaders: Option<Str>): Str {
    OptionsAllowHeaders(requestHeaders) + ", " + NodebugHeader + ", " + UserPropertiesHeader
  }

  /** The announced headers are kept as they are, in front. */
  lemma OptionsHeadersKeepRequest(v: Str)
    ensures StartsWith(OptionsAllowHeaders(Some(v)), v)
    ensures StartsWith(OptionsExposeHeaders(Some(v)), OptionsAllowHeaders(Some(v)))
    ensures EndsWith(OptionsExposeHeaders(Some(v)), UserPropertiesHeader)
  {
    var allow := OptionsAllowHeaders(Some(v));
    assert allow[..|v|] == v;
    var expose := OptionsExposeHeaders(Some(v));
    assert expose[..|allow|] == allow;
    assert expose[|expose| - |UserPropertiesHeader|..] == UserPropertiesHeader;
  }

  const MinInt: int := -0x8000_0000
  const MaxInt: int := 0x7FFF_FFFF

  /** `Double.intValue()`: truncation toward zero, saturating at the 32-bit bounds. */
  function DoubleIntValue(n: real): (r: int)
    ensures MinInt <= r <= MaxInt
  {
    var t := if n >= 0.0 then n.Floor else -((-n).Floor);
    if t > MaxInt then MaxInt else if t < MinInt then MinInt else t
  }

  /** In range, the conversion drops the fraction only: it stays within 1 of the number, on the zero side. */
  lemma DoubleIntValueTruncates(n: real)
    requires MinInt as real <= n <= MaxInt as real
    ensures 0.0 <= n ==> DoubleIntValue(n) as real <= n < DoubleIntValue(n) as real + 1.0
    ensures n < 0.0 ==> DoubleIntValue(n) as real - 1.0 < n <= DoubleIntValue(n) as real
    ensures n == n.Floor as real ==> DoubleIntValue(n) == n.Floor
  {
  }

  /** The script-side conversions `handleException` relies on. */
  datatype Conversions = Conversions(asInteger: Value -> int, toString: Value -> Str)

  /** Status, `WWW-Authenticate` challenge, body and content type of an error answer. */
  datatype ErrorResponse = ErrorResponse(status: int, wwwAuthenticate: Option<Str>, body: Option<Str>, contentType: Option<Str>)

  /**
   * `sendError`: an answer without a body has length 0; a body is typed JSON
   * or XML by its first character and otherwise left untyped.
   */
  function SendError(status: int, errorResponse: Option<Str>): ErrorResponse {
    var contentType :=
      if errorResponse.None? then None
      else match ContentKinds.GuessContentType(errorResponse, ContentKinds.Text)
        case Json => Some("application/json")
        case Xml => Some("application/xml")
        case _ => None;
    ErrorResponse(status, None, errorResponse, contentType)
  }

  function BasicChallenge(realm: Str): Str {
    "Basic realm=\"" + realm + "\""
  }

  /**
   * `handleException`; None is the ArrayIndexOutOfBoundsException raised
   * inside it when a script throws an array of fewer than two elements.
   */
  function HandleException(failure: Failure, conversions: Conversions): Option<ErrorResponse> {
    match failure
    case NotAuthenticated(realm) => Some(SendError(401, None).(wwwAuthenticate := Some(BasicChallenge(realm))))
    case NotAuthorized(_) => Some(SendError(403, None))
    case NoClients => Some(SendError(503, None))
    case IllegalArgument(_) => Some(SendError(400, None))
    case WebService(_, code) => Some(SendError(code, None))
    case JavaScript(thrown) =>
      if thrown.VNumber? then Some(SendError(DoubleIntValue(thrown.n), None))
      else if thrown.VWrappedArray? then
        if |thrown.elements| < 2 then None
        else
          var errorResponse := if thrown.elements[1] == VNull then None else Some(conversions.toString(thrown.elements[1]));
          Some(SendError(conversions.asInteger(thrown.elements[0]), errorResponse))
      else Some(SendError(500, None))
    case UnsupportedEncoding => Some(SendError(500, None))
    case OtherFailure => Some(SendError(500, None))
  }

  /**
   * The status of each failure; only 401 carries a challenge, naming the
   * exception's realm, and only a thrown `[status, message]` carries a body.
   */
  lemma HandleExceptionStatus(failure: Failure, conversions: Conversions)
    ensures var r := HandleException(failure, conversions);
            && (r.None? <==> failure.JavaScript? && failure.thrown.VWrappedArray? && |failure.thrown.elements| < 2)
            && (r.Some? ==>
                  && r.value.status == (match failure
                                        case NotAuthenticated(_) => 401
                                        case NotAuthorized(_) => 403
                                        case NoClients => 503
                                        case IllegalArgument(_) => 400
                                        case WebService(_, code) => code
                                        case JavaScript(thrown) =>
                                          if thrown.VNumber? then DoubleIntValue(thrown.n)
                                          else if thrown.VWrappedArray? then conversions.asInteger(thrown.elements[0])
                                          else 500
                                        case _ => 500)
                  && (r.value.wwwAuthenticate.Some? <==> failure.NotAuthenticated?)
                  && (failure.NotAuthenticated? ==> r.value.wwwAuthenticate == Some(BasicChallenge(failure.realm)))
                  && (r.value.body.Some? ==> failure.JavaScript? && failure.thrown.VWrappedArray?))
  {
  }

  /** An error body is typed JSON exactly when it starts with '{' and XML exactly when it starts with '<'. */
  lemma ErrorBodyType(status: int, body: Str)
    ensures SendError(status, Some(body)).contentType == Some("application/json") <==> |body| > 0 && body[0] == '{'
    ensures SendError(status, Some(body)).contentType == Some("application/xml") <==> |body| > 0 && body[0] == '<'
    ensures SendError(status, None).contentType.None?
  {
  }
}
