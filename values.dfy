/**
 * What crosses the boundary between the gateway and the script engine:
 * script values (results of `ws_*` methods, thrown values, the arguments
 * passed in) and the failures a request can end in.
 */
module Values {
  import opened Base

  /**
   * A script value. `VNumber` is a JavaScript number (a Java Double) taken
   * as a real; `VWrappedArray` is a Java `Object[]` behind a script wrapper;
   * `VOpaque` is any host object the gateway only passes through.
   */
  datatype Value =
    | VNull
    | VUndefined
    | VBool(b: bool)
    | VNumber(n: real)
    | VString(s: Str)
    | VBytes(bytes: Bytes)
    | VList(items: seq<Value>)
    | VWrappedArray(elements: seq<Value>)
    | VMap(entries: map<Str, Value>)
    | VXml(text: Str)
    | VOpaque(id: nat)

  /** The exceptions a request can end in. */
  datatype Failure =
    | NotAuthenticated(realm: Str)
    | NotAuthorized(message: Str)
    | NoClients
    | IllegalArgument(path: Option<Str>)
    | WebService(reason: Str, httpResponseCode: int)
    | JavaScript(thrown: Value)
    | UnsupportedEncoding
    | OtherFailure
}
