/**
 * The request lifecycle of the REST servlet around one `ws_*` call: the
 * body checks of POST, PUT and PATCH, the pool key of the client, the
 * decision steps of `doWsService` (path, authorization, method existence,
 * argument list), what each verb does with the method's result, and the
 * rule that decides whether the client's solution is reloaded afterwards.
 */
module Dispatcher {
  import opened Base
  import opened Strings
  import opened Values
  import RequestPath
  import ContentKinds
  import Authorization

  datatype Verb = Get | Post | Put | Patch | Delete

  /** The form method each verb calls. */
  function MethodName(verb: Verb): (name: Str)
    ensures StartsWith(name, "ws_")
  {
    match verb
    case Get => "ws_read"
    case Post => "ws_create"
    case Put => "ws_update"
    case Patch => "ws_patch"
    case Delete => "ws_delete"
  }

  /**
   * Dispatch is unambiguous: each verb calls its own method, and no verb calls
   * the `ws_authenticate` hook.
   */
  lemma MethodNamesDistinct(v1: Verb, v2: Verb)
    ensures MethodName(v1) == MethodName(v2) <==> v1 == v2
    ensures MethodName(v1) != AuthenticateKey
  {
  }

  const NodebugSuffix: Str := ":nodebug"

  /** The key of the client pool: a separate pool for requests that disable the debugger. */
  function PoolKey(solutionName: Str, nodebug: bool): Str {
    if nodebug then solutionName + NodebugSuffix else solutionName
  }

  /** For solution names without ':' the pool keys of all requests are distinct. */
  lemma PoolKeysDistinct(s1: Str, n1: bool, s2: Str, n2: bool)
    requires ':' !in s1 && ':' !in s2
    requires PoolKey(s1, n1) == PoolKey(s2, n2)
    ensures s1 == s2 && n1 == n2
  {
    var k := PoolKey(s1, n1);
    if n1 && n2 {
      assert |s1| == |s2|;
      assert s1 == k[..|s1|] && s2 == k[..|s2|];
    }
  }

  /** `FunctionDefinition.Exist` */
  datatype Exist = NoSolution | FormNotFound | MethodNotFound | MethodFound

  /** The WebServiceException thrown for a method that cannot be called: 503, 404 or 405. */
  function ExistsFailure(exist: Exist, solutionName: Str, formName: Str, methodName: Str): (r: Option<Failure>)
    ensures r.None? <==> exist == MethodFound
    ensures r.Some? ==> r.value.WebService?
    ensures exist == NoSolution ==> r.value.httpResponseCode == 503
    ensures exist == FormNotFound ==> r.value.httpResponseCode == 404
    ensures exist == MethodNotFound ==> r.value.httpResponseCode == 405
  {
    match exist
    case NoSolution => Some(WebService("Solution " + solutionName + " not loaded", 503))
    case FormNotFound => Some(WebService("Form " + formName + " not found", 404))
    case MethodNotFound => Some(WebService("Method " + methodName + " not found on form " + formName, 405))
    case MethodFound => None
  }

  const AuthenticateKey: Str := "ws_authenticate"

  /** Each query parameter's values as a script array of strings. */
  function ParameterValues(values: seq<Str>): (r: Value)
    ensures r.VList? && |r.items| == |values|
    ensures forall i :: 0 <= i < |values| ==> r.items[i] == VString(values[i])
  {
    VList(seq(|values|, i requires 0 <= i < |values| => VString(values[i])))
  }

  /** The map argument: the query parameters, plus `ws_authenticate: [result]` when authentication returned one. */
  function ParameterMap(params: map<Str, seq<Str>>, authResult: Value): map<Str, Value> {
    var m := map k | k in params :: ParameterValues(params[k]);
    if authResult != VNull then m[AuthenticateKey := VList([authResult])] else m
  }

  function PathValues(pathArgs: seq<Str>): (r: seq<Value>)
    ensures |r| == |pathArgs|
    ensures forall i :: 0 <= i < |pathArgs| ==> r[i] == VString(pathArgs[i])
  {
    seq(|pathArgs|, i requires 0 <= i < |pathArgs| => VString(pathArgs[i]))
  }

  /** Whether the map argument is passed at all. */
  predicate HasMapArgument(params: map<Str, seq<Str>>, authResult: Value) {
    |params| > 0 || authResult != VNull
  }

  /** The trailing map argument, when there is one. */
  function MapArgument(params: map<Str, seq<Str>>, authResult: Value): (tail: seq<Value>)
    ensures |tail| == (if HasMapArgument(params, authResult) then 1 else 0)
  {
    if HasMapArgument(params, authResult) then [VMap(ParameterMap(params, authResult))] else []
  }

  /** The filled array: the fixed arguments, then the path arguments, then the map argument. */
  function ArgsOf(fixed: seq<Value>, pathArgs: seq<Str>, tail: seq<Value>): seq<Value> {
    fixed + PathValues(pathArgs) + tail
  }

  lemma ArgsOfShape(fixed: seq<Value>, pathArgs: seq<Str>, tail: seq<Value>)
    ensures var args := ArgsOf(fixed, pathArgs, tail);
            && |args| == |fixed| + |pathArgs| + |tail|
            && args[..|fixed|] == fixed
            && (forall i :: 0 <= i < |pathArgs| ==> args[|fixed| + i] == VString(pathArgs[i]))
            && (|tail| == 1 ==> args[|args| - 1] == tail[0])
  {
    var path := PathValues(pathArgs);
    var args := ArgsOf(fixed, pathArgs, tail);
    assert args == fixed + (path + tail);
    assert args[..|fixed|] == fixed;
    forall i | 0 <= i < |pathArgs|
      ensures args[|fixed| + i] == VString(pathArgs[i])
    {
      assert args[|fixed| + i] == (path + tail)[i] == path[i];
    }
  }

  /** The fixed arguments of the servlet, none when they are null. */
  function FixedArgs(fixedArgs: Option<seq<Value>>): seq<Value> {
    if fixedArgs.Some? then fixedArgs.value else []
  }

  /** The argument array of the `ws_*` call; None is a null array. */
  function ArgList(fixedArgs: Option<seq<Value>>, pathArgs: seq<Str>, params: map<Str, seq<Str>>,
                   authResult: Value): Option<seq<Value>>
  {
    if fixedArgs.None? && |pathArgs| == 0 && |params| == 0 then None
    else Some(ArgsOf(FixedArgs(fixedArgs), pathArgs, MapArgument(params, authResult)))
  }

  /** The arguments `doWsService` passes: none when there is nothing to pass, else the filled array. */
  method BuildArgs(fixedArgs: Option<seq<Value>>, pathArgs: seq<Str>, params: map<Str, seq<Str>>,
                   authResult: Value) returns (args: Option<seq<Value>>)
    ensures args == ArgList(fixedArgs, pathArgs, params, authResult)
  {
    if fixedArgs.None? && |pathArgs| == 0 && |params| == 0 {
      return None;
    }
    var fixed := FixedArgs(fixedArgs);
    var tail := MapArgument(params, authResult);
    var a := FillArgs(fixed, pathArgs, tail);
    return Some(a);
  }

  /** The argument array: the fixed arguments, then the path arguments as strings, then the map argument if any. */
  method FillArgs(fixed: seq<Value>, pathArgs: seq<Str>, tail: seq<Value>) returns (args: seq<Value>)
    requires |tail| <= 1
    ensures args == ArgsOf(fixed, pathArgs, tail)
  {
    var a := new Value[|fixed| + |pathArgs| + |tail|](_ => VNull);
    // System.arraycopy of the fixed arguments, then of the path arguments after them
    CopyInto(a, 0, fixed);
    CopyInto(a, |fixed|, PathValues(pathArgs));
    if |tail| == 1 {
      a[|fixed| + |pathArgs|] := tail[0];
    }
    Concat3(a[..], fixed, PathValues(pathArgs), tail);
    args := a[..];
  }

  /** `System.arraycopy(src, 0, a, from, src.length)`: `a` holds `src` from `from` on and is otherwise unchanged. */
  method CopyInto(a: array<Value>, from: nat, src: seq<Value>)
    requires from + |src| <= a.Length
    modifies a
    ensures forall k :: 0 <= k < from ==> a[k] == old(a[k])
    ensures forall k :: 0 <= k < |src| ==> a[from + k] == src[k]
    ensures forall k :: from + |src| <= k < a.Length ==> a[k] == old(a[k])
  {
    var j := 0;
    while j < |src|
      invariant 0 <= j <= |src|
      invariant forall k :: 0 <= k < from ==> a[k] == old(a[k])
      invariant forall k :: 0 <= k < j ==> a[from + k] == src[k]
      invariant forall k :: from + j <= k < a.Length ==> a[k] == old(a[k])
    {
      a[from + j] := src[j];
      j := j + 1;
    }
  }

  lemma Concat3(out: seq<Value>, x: seq<Value>, y: seq<Value>, z: seq<Value>)
    requires |out| == |x| + |y| + |z|
    requires forall k :: 0 <= k < |x| ==> out[k] == x[k]
    requires forall k :: 0 <= k < |y| ==> out[|x| + k] == y[k]
    requires forall k :: 0 <= k < |z| ==> out[|x| + |y| + k] == z[k]
    ensures out == x + y + z
  {
    forall k | 0 <= k < |out|
      ensures out[k] == (x + y + z)[k]
    {
      if k < |x| {
      } else if k < |x| + |y| {
        assert out[|x| + (k - |x|)] == y[k - |x|];
      } else {
        assert out[|x| + |y| + (k - |x| - |y|)] == z[k - |x| - |y|];
      }
    }
  }

  /**
   * No fixed arguments, no path arguments and no query parameters pass a
   * null array, even when authentication returned a result.
   */
  lemma ArgListNull(fixedArgs: Option<seq<Value>>, pathArgs: seq<Str>, params: map<Str, seq<Str>>, authResult: Value)
    ensures ArgList(fixedArgs, pathArgs, params, authResult).None? <==> fixedArgs.None? && pathArgs == [] && params == map[]
  {
    if params != map[] {
      var k :| k in params;
      assert |params| > 0;
    }
  }

  /** Otherwise the array is the fixed arguments, then the path arguments, then the map. */
  lemma ArgListShape(fixedArgs: Option<seq<Value>>, pathArgs: seq<Str>, params: map<Str, seq<Str>>, authResult: Value)
    ensures var args := ArgList(fixedArgs, pathArgs, params, authResult);
            args.Some? ==>
              && |args.value| == |FixedArgs(fixedArgs)| + |pathArgs| + (if HasMapArgument(params, authResult) then 1 else 0)
              && (fixedArgs.Some? ==> args.value[..|fixedArgs.value|] == fixedArgs.value)
              && (forall i :: 0 <= i < |pathArgs| ==> args.value[|FixedArgs(fixedArgs)| + i] == VString(pathArgs[i]))
              && (HasMapArgument(params, authResult) ==> args.value[|args.value| - 1] == VMap(ParameterMap(params, authResult)))
  {
    var tail := MapArgument(params, authResult);
    ArgsOfShape(FixedArgs(fixedArgs), pathArgs, tail);
    if HasMapArgument(params, authResult) {
      assert tail[0] == VMap(ParameterMap(params, authResult));
    }
  }

  /**
   * The map argument holds every query parameter with its values, and the
   * `ws_authenticate` entry exactly when authentication returned a result
   * (which then hides a query parameter of that name).
   */
  lemma ParameterMapContents(params: map<Str, seq<Str>>, authResult: Value)
    ensures var m := ParameterMap(params, authResult);
            && (forall k :: k in params && (k != AuthenticateKey || authResult == VNull) ==> k in m && m[k] == ParameterValues(params[k]))
            && (AuthenticateKey in m ==> authResult != VNull || AuthenticateKey in params)
            && (authResult != VNull ==> m[AuthenticateKey] == VList([authResult]))
            && m.Keys == params.Keys + (if authResult != VNull then {AuthenticateKey} else {})
  {
  }

  /** What `doWsService` calls (form, method and arguments), or the exception that stops it first. */
  datatype Call = Call(formName: Str, methodName: Str, args: Option<seq<Value>>)

  datatype CallOrFailure = Calls(call: Call) | Stops(failure: Failure)

  /**
   * The decisions of `doWsService`, in order: the path (400), authorization
   * (401, 403), the method's existence (503, 404, 405), then the argument list.
   * `auth` and `exist` stand for the results of `checkAuthorization` and
   * `FunctionDefinition.exists` on the parsed path.
   */
  function WsService(verb: Verb, path: RequestPath.ParseResult, auth: Authorization.AuthResult, exist: Exist,
                     fixedArgs: Option<seq<Value>>, params: map<Str, seq<Str>>): CallOrFailure
  {
    match path
    case InvalidPath(raw) => Stops(IllegalArgument(raw))
    case Parsed(p) =>
      match auth
      case Refused(failure) => Stops(failure)
      case Allowed(authResult) =>
        match ExistsFailure(exist, p.solutionName, p.formName, MethodName(verb))
        case Some(failure) => Stops(failure)
        case None => Calls(Call(p.formName, MethodName(verb), ArgList(fixedArgs, p.args, params, authResult)))
  }

  /** A method is only ever called on a parsed path, for an authorized caller, when it exists. */
  lemma CalledOnlyWhenAllowed(verb: Verb, path: RequestPath.ParseResult, auth: Authorization.AuthResult, exist: Exist,
                              fixedArgs: Option<seq<Value>>, params: map<Str, seq<Str>>)
    ensures WsService(verb, path, auth, exist, fixedArgs, params).Calls? <==>
              path.Parsed? && auth.Allowed? && exist == MethodFound
    ensures WsService(verb, path, auth, exist, fixedArgs, params).Calls? ==>
              WsService(verb, path, auth, exist, fixedArgs, params).call
                == Call(path.path.formName, MethodName(verb), ArgList(fixedArgs, path.path.args, params, auth.authResult))
  {
  }

  /** What a verb does with the method's result. */
  datatype ResultAction = RespondNotFound | RespondWith(result: Value) | RespondEmpty

  /**
   * GET answers 404 for null; POST sends a result that is neither null nor
   * undefined; PUT and PATCH answer 404 for false and send anything else;
   * DELETE answers 404 for false and sends nothing otherwise.
   */
  function ActionFor(verb: Verb, result: Value): (r: ResultAction)
    ensures r.RespondWith? ==> r.result == result
  {
    match verb
    case Get => if result == VNull then RespondNotFound else RespondWith(result)
    case Post => if result != VNull && result != VUndefined then RespondWith(result) else RespondEmpty
    case Put => if result == VBool(false) then RespondNotFound else RespondWith(result)
    case Patch => if result == VBool(false) then RespondNotFound else RespondWith(result)
    case Delete => if result == VBool(false) then RespondNotFound else RespondEmpty
  }

  /** 404 comes from null for GET, from false for the updating verbs, and never for POST. */
  lemma NotFoundRule(verb: Verb, result: Value)
    ensures ActionFor(verb, result) == RespondNotFound <==>
              match verb
              case Get => result == VNull
              case Post => false
              case _ => result == VBool(false)
    ensures verb == Delete ==> !ActionFor(verb, result).RespondWith?
    ensures verb == Get || verb == Put || verb == Patch ==>
              (ActionFor(verb, result).RespondWith? <==> ActionFor(verb, result) != RespondNotFound)
  {
  }

  /** The outcome of the body checks that POST, PUT and PATCH make before taking a client. */
  datatype BodyVerdict = NoContent | UnsupportedMediaType | BodyFailed(failure: Failure) | BodyAccepted(kind: ContentKinds.ContentKind)

  /**
   * No body or an empty one is 204; then the request content type (with OTHER
   * as default) must be known, or the answer is 415; a charset that cannot be
   * decoded ends in the encoding exception.
   */
  function BodyCheck(contents: Option<Bytes>, contentTypeHeader: Option<Str>,
                     decode: (Bytes, Str) -> Option<Str>): BodyVerdict
  {
    if contents.None? || |contents.value| == 0 then NoContent
    else
      match ContentKinds.RequestContentType(contentTypeHeader, contentTypeHeader, contents, ContentKinds.Other, decode)
      case None => BodyFailed(UnsupportedEncoding)
      case Some(kind) => if kind == ContentKinds.Other then UnsupportedMediaType else BodyAccepted(kind)
  }

  /**
   * A body reaches the method only when it is non-empty and of a known kind,
   * and the kind is the header's when the header says one.
   */
  lemma BodyCheckAccepts(contents: Option<Bytes>, contentTypeHeader: Option<Str>, decode: (Bytes, Str) -> Option<Str>)
    ensures BodyCheck(contents, contentTypeHeader, decode).BodyAccepted? ==>
              contents.Some? && |contents.value| > 0 && BodyCheck(contents, contentTypeHeader, decode).kind != ContentKinds.Other
    ensures contents.Some? && |contents.value| > 0 && ContentKinds.ClassifyHeader(contentTypeHeader) != ContentKinds.Other ==>
              BodyCheck(contents, contentTypeHeader, decode) == BodyAccepted(ContentKinds.ClassifyHeader(contentTypeHeader))
  {
  }

  /** How the `try` of a verb handler ended. */
  datatype Outcome = Completed | Failed(failure: Failure) | ExecFailed(cause: Failure, userScriptException: bool)

  /**
   * The reload flag given to `releaseClient`: it starts as the plugin setting
   * and is only raised, by a failed execution that was not thrown by solution code.
   */
  function ReloadAfter(initial: bool, outcome: Outcome): (reload: bool)
    ensures reload <==> initial || (outcome.ExecFailed? && !outcome.userScriptException)
    ensures initial ==> reload
  {
    if outcome.ExecFailed? && !initial then !outcome.userScriptException else initial
  }

  /** The exception `handleException` is given: the cause of a failed execution. */
  function HandledFailure(outcome: Outcome): Option<Failure> {
    match outcome
    case Completed => None
    case Failed(f) => Some(f)
    case ExecFailed(cause, _) => Some(cause)
  }
}
