/**
 * The user-property bridge: before a call, the client's user properties are
 * set from the `servoy.userproperties` header (a JSON object) or, without it,
 * from the `servoy.userproperty.*` cookies; after a call, they are written
 * back as that header and as one cookie per property. Cookie values go
 * through the `B64p_` codec.
 */
module UserProperties {
  import opened Base
  import opened Strings
  import Values
  import ResponseHeaders

  const CookiePrefix: Str := "servoy.userproperty."
  const Base64Marker: Str := "B64p_"

  /** UTF-8 encoding followed by base64, and its inverse. */
  datatype Base64Utf8 = Base64Utf8(encode: Str -> Str, decode: Str -> Str)

  predicate RoundTrips(codec: Base64Utf8, v: Str) {
    codec.decode(codec.encode(v)) == v
  }

  predicate LineTerminator(c: char) {
    c == '\n' || c == '\r'
  }

  predicate SingleLine(s: Str) {
    forall i :: 0 <= i < |s| ==> !LineTerminator(s[i])
  }

  /** Where the first line of `s` ends. */
  function LineEnd(s: Str): (r: nat)
    ensures r <= |s|
    ensures forall i :: 0 <= i < r ==> !LineTerminator(s[i])
    ensures r < |s| ==> LineTerminator(s[r])
  {
    if |s| == 0 || LineTerminator(s[0]) then 0 else 1 + LineEnd(s[1..])
  }

  /** `BufferedReader.readLine()` on a fresh stream: null when the stream is empty. */
  function ReadLine(text: Str): Option<Str> {
    if |text| == 0 then None else Some(text[..LineEnd(text)])
  }

  /** `Utils_encodeCookieValue`: every value is base64-encoded behind the marker. */
  function EncodeCookieValue(codec: Base64Utf8, value: Str): (r: Str)
    ensures StartsWith(r, Base64Marker)
  {
    Base64Marker + codec.encode(value)
  }

  /**
   * `Utils_decodeCookieValue` as written: a marked value is decoded and its
   * first line read, which is null when the decoded text is empty.
   */
  function DecodeCookieValueAsWritten(codec: Base64Utf8, value: Str): Option<Str> {
    if StartsWith(value, Base64Marker) then ReadLine(codec.decode(value[|Base64Marker|..])) else Some(value)
  }

  /** The decoder as intended: an empty decoded text is the empty string. */
  function DecodeCookieValue(codec: Base64Utf8, value: Str): Str {
    if StartsWith(value, Base64Marker) then
      var text := codec.decode(value[|Base64Marker|..]);
      text[..LineEnd(text)]
    else value
  }

  /** The source's decoder loses the empty value: it comes back as null. */
  lemma EmptyValueLostAsWritten(codec: Base64Utf8)
    requires RoundTrips(codec, "")
    ensures DecodeCookieValueAsWritten(codec, EncodeCookieValue(codec, "")) == None
  {
    var e := EncodeCookieValue(codec, "");
    assert e[|Base64Marker|..] == codec.encode("");
  }

  /** The two decoders agree on every other value. */
  lemma DecodersAgree(codec: Base64Utf8, value: Str)
    requires DecodeCookieValueAsWritten(codec, value).Some?
    ensures DecodeCookieValueAsWritten(codec, value) == Some(DecodeCookieValue(codec, value))
  {
  }

  /** Decoding undoes encoding for every single-line value, the empty one included. */
  lemma CookieValueRoundTrip(codec: Base64Utf8, v: Str)
    requires RoundTrips(codec, v) && SingleLine(v)
    ensures DecodeCookieValue(codec, EncodeCookieValue(codec, v)) == v
  {
    var e := EncodeCookieValue(codec, v);
    assert e[|Base64Marker|..] == codec.encode(v);
    SingleLineEnd(v);
  }

  lemma {:induction false} SingleLineEnd(v: Str)
    requires SingleLine(v)
    ensures LineEnd(v) == |v|
    decreases |v|
  {
    if |v| > 0 {
      SingleLineEnd(v[1..]);
    }
  }

  /** Only the first line of a multi-line value survives a round trip. */
  lemma {:induction false} FirstLineOnly(codec: Base64Utf8, first: Str, rest: Str)
    requires RoundTrips(codec, first + "\n" + rest) && SingleLine(first)
    ensures DecodeCookieValue(codec, EncodeCookieValue(codec, first + "\n" + rest)) == first
    ensures DecodeCookieValueAsWritten(codec, EncodeCookieValue(codec, first + "\n" + rest)) == Some(first)
  {
    var v := first + "\n" + rest;
    var e := EncodeCookieValue(codec, v);
    assert e[|Base64Marker|..] == codec.encode(v);
    FirstLineEnd(first, rest);
    assert v[..|first|] == first;
  }

  lemma {:induction false} FirstLineEnd(first: Str, rest: Str)
    requires SingleLine(first)
    ensures LineEnd(first + "\n" + rest) == |first|
    decreases |first|
  {
    var v := first + "\n" + rest;
    if |first| > 0 {
      assert v[1..] == first[1..] + "\n" + rest;
      FirstLineEnd(first[1..], rest);
    } else {
      assert v[0] == '\n';
    }
  }

  /** A value without the marker is taken as it is. */
  lemma PlainValuesPassThrough(codec: Base64Utf8, value: Str)
    requires !StartsWith(value, Base64Marker)
    ensures DecodeCookieValue(codec, value) == value
    ensures DecodeCookieValueAsWritten(codec, value) == Some(value)
  {
  }

  datatype RequestCookie = RequestCookie(name: Str, value: Str)

  /**
   * The properties the cookies carry: the prefix stripped from the names of the
   * cookies that have it, values decoded by the source's decoder (None is the
   * null it stores for an empty decoded text); a later cookie overwrites an
   * earlier one of the same name.
   */
  function CookieProperties(cookies: seq<RequestCookie>, codec: Base64Utf8): map<Str, Option<Str>>
    decreases |cookies|
  {
    if |cookies| == 0 then map[]
    else
      var m := CookieProperties(cookies[..|cookies| - 1], codec);
      var cookie := cookies[|cookies| - 1];
      if StartsWith(cookie.name, CookiePrefix) then m[cookie.name[|CookiePrefix|..] := DecodeCookieValueAsWritten(codec, cookie.value)]
      else m
  }

  /** The cookie loop of `setApplicationUserProperties`, filling a fresh map. */
  method ReadCookieProperties(cookies: seq<RequestCookie>, codec: Base64Utf8) returns (properties: map<Str, Option<Str>>)
    ensures properties == CookieProperties(cookies, codec)
  {
    properties := map[];
    for i := 0 to |cookies|
      invariant properties == CookieProperties(cookies[..i], codec)
    {
      var cookie := cookies[i];
      assert cookies[..i + 1][..i] == cookies[..i];
      if StartsWith(cookie.name, CookiePrefix) {
        properties := properties[cookie.name[|CookiePrefix|..] := DecodeCookieValueAsWritten(codec, cookie.value)];
      }
    }
    assert cookies[..|cookies|] == cookies;
  }

  /** A property comes from the LAST cookie that carries its name behind the prefix. */
  lemma {:induction false} LastCookieWins(cookies: seq<RequestCookie>, codec: Base64Utf8, key: Str)
    ensures key in CookieProperties(cookies, codec) <==>
              exists i :: 0 <= i < |cookies| && cookies[i].name == CookiePrefix + key
    ensures key in CookieProperties(cookies, codec) ==>
              exists i :: 0 <= i < |cookies| && cookies[i].name == CookiePrefix + key
                && CookieProperties(cookies, codec)[key] == DecodeCookieValueAsWritten(codec, cookies[i].value)
                && forall j :: i < j < |cookies| ==> cookies[j].name != CookiePrefix + key
    decreases |cookies|
  {
    if |cookies| > 0 {
      var init := cookies[..|cookies| - 1];
      var last := |cookies| - 1;
      var before := CookieProperties(init, codec);
      var after := CookieProperties(cookies, codec);
      LastCookieWins(init, codec, key);
      assert forall i :: 0 <= i < last ==> init[i] == cookies[i];
      var name := cookies[last].name;
      if StartsWith(name, CookiePrefix) && name[|CookiePrefix|..] == key {
        assert name == CookiePrefix + key by {
          assert name == name[..|CookiePrefix|] + name[|CookiePrefix|..];
        }
        assert after[key] == DecodeCookieValueAsWritten(codec, cookies[last].value);
      } else {
        assert name != CookiePrefix + key by {
          PrefixedNames(name, key);
        }
        assert key in after <==> key in before;
        assert key in after ==> after[key] == before[key];
        if key in before {
          var i :| 0 <= i < |init| && init[i].name == CookiePrefix + key
                   && before[key] == DecodeCookieValueAsWritten(codec, init[i].value)
                   && forall j :: i < j < |init| ==> init[j].name != CookiePrefix + key;
          assert cookies[i] == init[i];
        } else {
          forall i | 0 <= i < |cookies|
            ensures cookies[i].name != CookiePrefix + key
          {
            if i < last {
              assert cookies[i] == init[i];
            }
          }
        }
      }
    }
  }

  /** A map of strings as a map whose values are never null. */
  function NonNull(m: map<Str, Str>): (r: map<Str, Option<Str>>)
    ensures r.Keys == m.Keys
    ensures forall k :: k in m ==> r[k] == Some(m[k])
  {
    map k | k in m :: Some(m[k])
  }

  /**
   * `setApplicationUserProperties`: the new property map (None values are
   * nulls), or None when the client's properties are left as they are. The
   * header wins over cookies and the two are never merged; `parseJson` stands
   * for reading the header as a flat JSON object of strings (None for its
   * JSONException).
   */
  function InboundProperties(header: Option<Str>, cookies: Option<seq<RequestCookie>>, codec: Base64Utf8,
                             parseJson: Str -> Option<map<Str, Str>>): Option<map<Str, Option<Str>>>
  {
    if header.Some? then
      (if parseJson(header.value).Some? then Some(NonNull(parseJson(header.value).value)) else None)
    else if cookies.None? then None
    else Some(CookieProperties(cookies.value, codec))
  }

  method SetApplicationUserProperties(header: Option<Str>, cookies: Option<seq<RequestCookie>>, codec: Base64Utf8,
                                      parseJson: Str -> Option<map<Str, Str>>) returns (properties: Option<map<Str, Option<Str>>>)
    ensures properties == InboundProperties(header, cookies, codec, parseJson)
  {
    if header.Some? {
      var json := parseJson(header.value);
      if json.Some? {
        var map_: map<Str, Option<Str>> := map[];
        var keys := json.value.Keys;
        while keys != {}
          invariant keys <= json.value.Keys
          invariant map_.Keys == json.value.Keys - keys
          invariant forall k :: k in map_ ==> map_[k] == Some(json.value[k])
          decreases keys
        {
          var key :| key in keys;
          map_ := map_[key := Some(json.value[key])];
          keys := keys - {key};
        }
        assert map_ == NonNull(json.value);
        properties := Some(map_);
      } else {
        properties := None;
      }
    } else if cookies.Some? {
      var map_ := ReadCookieProperties(cookies.value, codec);
      properties := Some(map_);
    } else {
      properties := None;
    }
  }

  /** With the header present, cookies are ignored. */
  lemma HeaderWins(header: Str, cookies1: Option<seq<RequestCookie>>, cookies2: Option<seq<RequestCookie>>,
                   codec: Base64Utf8, parseJson: Str -> Option<map<Str, Str>>)
    ensures InboundProperties(Some(header), cookies1, codec, parseJson)
         == InboundProperties(Some(header), cookies2, codec, parseJson)
  {
  }

  datatype ResponseCookie = ResponseCookie(name: Str, value: Str, path: Str, secure: bool)

  /** The cookie path: the context path ("" for none or "/"), the servlet path, the service and the solution. */
  function CookiePath(contextPath: Option<Str>, servletPath: Str, serviceName: Str, solutionName: Str): Str {
    var ctxPath := if contextPath.None? || contextPath.value == "/" || |contextPath.value| < 1 then "" else contextPath.value;
    ctxPath + servletPath + "/" + serviceName + "/" + solutionName
  }

  /** A name is the prefix followed by `key` exactly when it starts with the prefix and the rest is `key`. */
  lemma PrefixedNames(name: Str, key: Str)
    ensures name == CookiePrefix + key <==> StartsWith(name, CookiePrefix) && name[|CookiePrefix|..] == key
  {
    if StartsWith(name, CookiePrefix) && name[|CookiePrefix|..] == key {
      assert name == name[..|CookiePrefix|] + name[|CookiePrefix|..];
    }
    if name == CookiePrefix + key {
      assert name[|CookiePrefix|..] == key;
    }
  }

  /** The key order of the map's iteration: every key exactly once. */
  predicate EnumeratesKeys<V>(order: seq<Str>, properties: map<Str, V>) {
    && (forall i :: 0 <= i < |order| ==> order[i] in properties)
    && (forall k :: k in properties ==> k in order)
    && (forall i, j :: 0 <= i < j < |order| ==> order[i] != order[j])
  }

  function PropertyCookie(codec: Base64Utf8, key: Str, value: Str, path: Str, secure: bool): ResponseCookie {
    ResponseCookie(CookiePrefix + key, EncodeCookieValue(codec, value), path, secure)
  }

  /**
   * What stops the cookie loop at `key`: `Utils_encodeCookieValue(null)`
   * throws a NullPointerException before the `Cookie` constructor runs, and
   * the constructor throws an IllegalArgumentException for a name the servlet
   * container refuses (`validName` stands for the container's rule).
   */
  function CookieFault(properties: map<Str, Option<Str>>, key: Str, validName: Str -> bool): Option<Values.Failure>
    requires key in properties
  {
    if properties[key].None? then Some(Values.OtherFailure)
    else if !validName(CookiePrefix + key) then Some(Values.IllegalArgument(None))
    else None
  }

  /** The position of the first key whose cookie cannot be made, or the length of the order when there is none. */
  function FirstFault(properties: map<Str, Option<Str>>, order: seq<Str>, validName: Str -> bool): (r: nat)
    requires forall i :: 0 <= i < |order| ==> order[i] in properties
    ensures r <= |order|
    ensures forall i :: 0 <= i < r ==> CookieFault(properties, order[i], validName).None?
    ensures r < |order| ==> CookieFault(properties, order[r], validName).Some?
    decreases |order|
  {
    if order == [] then 0
    else if CookieFault(properties, order[0], validName).Some? then 0
    else 1 + FirstFault(properties, order[1..], validName)
  }

  /** The header and cookies `setResponseUserProperties` writes, and the exception that ends it early, if any. */
  datatype Outbound = Outbound(header: Option<Str>, cookies: seq<ResponseCookie>, failure: Option<Values.Failure>)

  /**
   * Nothing for an empty map; otherwise the JSON header (unless serialising
   * fails; a null value is written as JSON null) and one cookie per property in
   * iteration order, up to the first property whose cookie cannot be made,
   * where the exception propagates.
   */
  function OutboundProperties(properties: map<Str, Option<Str>>, order: seq<Str>, codec: Base64Utf8,
                              serialize: seq<(Str, Option<Str>)> -> Option<Str>, validName: Str -> bool,
                              path: Str, secure: bool): Outbound
    requires EnumeratesKeys(order, properties)
  {
    if |properties| == 0 then Outbound(None, [], None)
    else
      var pairs := seq(|order|, i requires 0 <= i < |order| => (order[i], properties[order[i]]));
      Outbound(serialize(pairs), CookiesWritten(properties, order, codec, validName, path, secure),
               CookieLoopFault(properties, order, validName))
  }

  /** The cookies the loop adds before it ends: one per property up to the first fault. */
  function CookiesWritten(properties: map<Str, Option<Str>>, order: seq<Str>, codec: Base64Utf8, validName: Str -> bool,
                          path: Str, secure: bool): seq<ResponseCookie>
    requires forall i :: 0 <= i < |order| ==> order[i] in properties
  {
    var n := FirstFault(properties, order, validName);
    seq(n, i requires 0 <= i < n => PropertyCookie(codec, order[i], properties[order[i]].value, path, secure))
  }

  /** The exception that ends the cookie loop, if any. */
  function CookieLoopFault(properties: map<Str, Option<Str>>, order: seq<Str>, validName: Str -> bool): Option<Values.Failure>
    requires forall i :: 0 <= i < |order| ==> order[i] in properties
  {
    var n := FirstFault(properties, order, validName);
    if n < |order| then CookieFault(properties, order[n], validName) else None
  }

  /** The two loops of `setResponseUserProperties`. */
  method SetResponseUserProperties(properties: map<Str, Option<Str>>, order: seq<Str>, codec: Base64Utf8,
                                   serialize: seq<(Str, Option<Str>)> -> Option<Str>, validName: Str -> bool,
                                   contextPath: Option<Str>, servletPath: Str, serviceName: Str, solutionName: Str,
                                   secure: bool)
    returns (out: Outbound)
    requires EnumeratesKeys(order, properties)
    ensures out == OutboundProperties(properties, order, codec, serialize, validName,
                                      CookiePath(contextPath, servletPath, serviceName, solutionName), secure)
  {
    if |properties| == 0 {
      return Outbound(None, [], None);
    }
    var pairs: seq<(Str, Option<Str>)> := [];
    for i := 0 to |order|
      invariant pairs == seq(i, j requires 0 <= j < i => (order[j], properties[order[j]]))
    {
      pairs := pairs + [(order[i], properties[order[i]])];
    }
    var header := serialize(pairs);
    var cookies, failure := AddCookies(properties, order, codec, validName, contextPath, servletPath, serviceName, solutionName, secure);
    return Outbound(header, cookies, failure);
  }

  /** The cookie loop of `setResponseUserProperties`, which an exception ends early. */
  method AddCookies(properties: map<Str, Option<Str>>, order: seq<Str>, codec: Base64Utf8, validName: Str -> bool,
                    contextPath: Option<Str>, servletPath: Str, serviceName: Str, solutionName: Str, secure: bool)
    returns (cookies: seq<ResponseCookie>, failure: Option<Values.Failure>)
    requires forall i :: 0 <= i < |order| ==> order[i] in properties
    ensures cookies == CookiesWritten(properties, order, codec, validName, CookiePath(contextPath, servletPath, serviceName, solutionName), secure)
    ensures failure == CookieLoopFault(properties, order, validName)
  {
    ghost var path := CookiePath(contextPath, servletPath, serviceName, solutionName);
    ghost var n := FirstFault(properties, order, validName);
    cookies := [];
    var i := 0;
    while i < |order|
      invariant 0 <= i <= n
      invariant |cookies| == i
      invariant forall j :: 0 <= j < i ==> cookies[j] == PropertyCookie(codec, order[j], properties[order[j]].value, path, secure)
    {
      var propName := order[i];
      var value := properties[propName];
      if value.None? {
        // Utils_encodeCookieValue(null)
        return cookies, Some(Values.OtherFailure);
      }
      var encoded := EncodeCookieValue(codec, value.value);
      if !validName(CookiePrefix + propName) {
        // new Cookie(...) refuses the name
        return cookies, Some(Values.IllegalArgument(None));
      }
      var ctxPath := if contextPath.None? || contextPath.value == "/" || |contextPath.value| < 1 then "" else contextPath.value;
      var cookie := ResponseCookie(CookiePrefix + propName, encoded,
                                   ctxPath + servletPath + "/" + serviceName + "/" + solutionName, false);
      if secure {
        cookie := cookie.(secure := true);
      }
      assert cookie == PropertyCookie(codec, propName, value.value, path, secure);
      cookies := cookies + [cookie];
      i := i + 1;
    }
    return cookies, None;
  }

  lemma {:induction false} EnumerationLength<V>(order: seq<Str>, properties: map<Str, V>)
    requires EnumeratesKeys(order, properties)
    ensures |order| == |properties|
  {
    var keys := set i | 0 <= i < |order| :: order[i];
    assert keys == properties.Keys;
    DistinctCardinality(order);
  }

  lemma {:induction false} DistinctCardinality(order: seq<Str>)
    requires forall i, j :: 0 <= i < j < |order| ==> order[i] != order[j]
    ensures |set i | 0 <= i < |order| :: order[i]| == |order|
    decreases |order|
  {
    if |order| > 0 {
      var init := order[..|order| - 1];
      DistinctCardinality(init);
      var s := set i | 0 <= i < |order| :: order[i];
      var t := set i | 0 <= i < |init| :: init[i];
      assert s == t + {order[|order| - 1]};
      assert order[|order| - 1] !in t;
    }
  }

  /**
   * An empty map emits nothing. Otherwise every cookie has the same path and
   * the request's secure flag, and the loop ends early exactly when some
   * property is null or has a name the container refuses; without that, there
   * is one cookie per property.
   */
  lemma OutboundShape(properties: map<Str, Option<Str>>, order: seq<Str>, codec: Base64Utf8,
                      serialize: seq<(Str, Option<Str>)> -> Option<Str>, validName: Str -> bool, path: Str, secure: bool)
    requires EnumeratesKeys(order, properties)
    ensures var out := OutboundProperties(properties, order, codec, serialize, validName, path, secure);
            && (properties == map[] ==> out == Outbound(None, [], None))
            && |out.cookies| <= |properties|
            && (out.failure.None? <==> forall k :: k in properties ==> CookieFault(properties, k, validName).None?)
            && (out.failure.None? ==> |out.cookies| == |properties|)
            && (forall i :: 0 <= i < |out.cookies| ==> out.cookies[i].path == path && out.cookies[i].secure == secure)
  {
    EnumerationLength(order, properties);
    var out := OutboundProperties(properties, order, codec, serialize, validName, path, secure);
    if |properties| > 0 {
      var n := FirstFault(properties, order, validName);
      if n == |order| {
        forall k | k in properties
          ensures CookieFault(properties, k, validName).None?
        {
          var i :| 0 <= i < |order| && order[i] == k;
        }
      }
    }
  }

  /**
   * The exception of the cookie loop and the status `handleException` answers
   * it with: a null value is a NullPointerException, answered 500; a refused
   * name an IllegalArgumentException, answered 400. The cookies before the
   * faulty property were already added.
   */
  lemma OutboundFailureStatus(properties: map<Str, Option<Str>>, order: seq<Str>, codec: Base64Utf8,
                              serialize: seq<(Str, Option<Str>)> -> Option<Str>, validName: Str -> bool, path: Str, secure: bool,
                              conversions: ResponseHeaders.Conversions)
    requires EnumeratesKeys(order, properties)
    ensures var out := OutboundProperties(properties, order, codec, serialize, validName, path, secure);
            out.failure.Some? ==>
              && |out.cookies| < |order|
              && var key := order[|out.cookies|];
                 && (forall j :: 0 <= j < |out.cookies| ==> CookieFault(properties, order[j], validName).None?)
                 && ResponseHeaders.HandleException(out.failure.value, conversions).Some?
                 && ResponseHeaders.HandleException(out.failure.value, conversions).value.status
                    == (if properties[key].None? then 500 else 400)
                 && (properties[key].Some? ==> !validName(CookiePrefix + key))
  {
  }

  /** Every cookie belongs to a property; when the loop runs to the end, each property has its cookie. */
  lemma OutboundCookieNames(properties: map<Str, Option<Str>>, order: seq<Str>, codec: Base64Utf8,
                            serialize: seq<(Str, Option<Str>)> -> Option<Str>, validName: Str -> bool,
                            path: Str, secure: bool, k: Str)
    requires EnumeratesKeys(order, properties)
    ensures var out := OutboundProperties(properties, order, codec, serialize, validName, path, secure);
            && ((exists i :: 0 <= i < |out.cookies| && out.cookies[i].name == CookiePrefix + k) ==> k in properties)
            && (out.failure.None? && k in properties ==> exists i :: 0 <= i < |out.cookies| && out.cookies[i].name == CookiePrefix + k)
  {
    var out := OutboundProperties(properties, order, codec, serialize, validName, path, secure);
    var cookies := out.cookies;
    if out.failure.None? && k in properties {
      var i :| 0 <= i < |order| && order[i] == k;
      assert cookies[i].name == CookiePrefix + k;
    }
    if exists i :: 0 <= i < |cookies| && cookies[i].name == CookiePrefix + k {
      var i :| 0 <= i < |cookies| && cookies[i].name == CookiePrefix + k;
      assert |properties| > 0;
      assert cookies[i].name == CookiePrefix + order[i];
      PrefixedNames(cookies[i].name, k);
      PrefixedNames(cookies[i].name, order[i]);
    }
  }

  function AsRequestCookies(cookies: seq<ResponseCookie>): seq<RequestCookie> {
    seq(|cookies|, i requires 0 <= i < |cookies| => RequestCookie(cookies[i].name, cookies[i].value))
  }

  /** What the source's reader gives back for a written single-line value: null for the empty string, else the value. */
  function ReadBackValue(v: Str): Option<Str> {
    if v == "" then None else Some(v)
  }

  /** The source's decoder applied to an encoded single-line value. */
  lemma CookieValueReadBack(codec: Base64Utf8, v: Str)
    requires RoundTrips(codec, v) && SingleLine(v)
    ensures DecodeCookieValueAsWritten(codec, EncodeCookieValue(codec, v)) == ReadBackValue(v)
  {
    var e := EncodeCookieValue(codec, v);
    assert e[|Base64Marker|..] == codec.encode(v);
    SingleLineEnd(v);
    assert v[..|v|] == v;
  }

  function ReadBackMap(values: map<Str, Str>): map<Str, Option<Str>> {
    map k | k in values :: ReadBackValue(values[k])
  }

  /** The properties a round trip can start from: non-null single-line values the codec restores, under names the container takes. */
  predicate Writable(values: map<Str, Str>, codec: Base64Utf8, validName: Str -> bool) {
    forall k :: k in values ==> RoundTrips(codec, values[k]) && SingleLine(values[k]) && validName(CookiePrefix + k)
  }

  /**
   * The cookies written after a call carry the properties back in on the next
   * request: the cookie loop runs to the end, every key comes back, a
   * non-empty value unchanged and an empty one as null. With no empty value,
   * the map read back is the map written.
   */
  lemma CookiesRoundTrip(values: map<Str, Str>, order: seq<Str>, codec: Base64Utf8,
                         serialize: seq<(Str, Option<Str>)> -> Option<Str>, validName: Str -> bool, path: Str, secure: bool)
    requires EnumeratesKeys(order, values)
    requires Writable(values, codec, validName)
    ensures var out := OutboundProperties(NonNull(values), order, codec, serialize, validName, path, secure);
            var back := CookieProperties(AsRequestCookies(out.cookies), codec);
            && out.failure.None?
            && back.Keys == values.Keys
            && (forall k :: k in values ==> back[k] == (if values[k] == "" then None else Some(values[k])))
            && ((forall k :: k in values ==> values[k] != "") ==> back == NonNull(values))
  {
    CookiesReadBack(values, order, codec, serialize, validName, path, secure);
    ReadBackMapValues(values);
  }

  /**
   * When the container takes every name, the cookie loop fails exactly when
   * some property is null, and then with the NullPointerException.
   */
  lemma NullValueFails(properties: map<Str, Option<Str>>, order: seq<Str>, validName: Str -> bool)
    requires EnumeratesKeys(order, properties)
    requires forall k :: k in properties ==> validName(CookiePrefix + k)
    ensures CookieLoopFault(properties, order, validName).Some? <==> exists k :: k in properties && properties[k].None?
    ensures CookieLoopFault(properties, order, validName).Some? ==> CookieLoopFault(properties, order, validName) == Some(Values.OtherFailure)
  {
    var n := FirstFault(properties, order, validName);
    if exists k :: k in properties && properties[k].None? {
      var k :| k in properties && properties[k].None?;
      var i :| 0 <= i < |order| && order[i] == k;
      assert CookieFault(properties, order[i], validName).Some?;
    }
  }

  /**
   * An empty property breaks the next response: it is read back as null
   * (`ReadBackMap`, the map `CookiesReadBack` proves the cookies give), and
   * when the client hands that map back unchanged, writing it out again throws
   * the NullPointerException (`OutboundFailureStatus` gives its status, 500).
   */
  lemma EmptyPropertyFailsNextResponse(values: map<Str, Str>, codec: Base64Utf8,
                                       serialize: seq<(Str, Option<Str>)> -> Option<Str>, validName: Str -> bool,
                                       path: Str, secure: bool, order2: seq<Str>)
    requires forall k :: k in values ==> validName(CookiePrefix + k)
    requires exists k :: k in values && values[k] == ""
    requires EnumeratesKeys(order2, values)
    ensures EnumeratesKeys(order2, ReadBackMap(values))
    ensures OutboundProperties(ReadBackMap(values), order2, codec, serialize, validName, path, secure).failure == Some(Values.OtherFailure)
  {
    ReadBackMapValues(values);
    var back := ReadBackMap(values);
    SameKeysEnumerated(order2, values, back);
    var k :| k in values && values[k] == "";
    assert k in back && back[k].None?;
    NullValueFails(back, order2, validName);
  }

  lemma SameKeysEnumerated<V, W>(order: seq<Str>, a: map<Str, V>, b: map<Str, W>)
    requires EnumeratesKeys(order, a) && a.Keys == b.Keys
    ensures EnumeratesKeys(order, b)
  {
    assert forall k :: k in b ==> k in a;
  }

  lemma ReadBackMapValues(values: map<Str, Str>)
    ensures ReadBackMap(values).Keys == values.Keys
    ensures forall k :: k in values ==> ReadBackMap(values)[k] == (if values[k] == "" then None else Some(values[k]))
    ensures (forall k :: k in values ==> values[k] != "") ==> ReadBackMap(values) == NonNull(values)
  {
    var back := ReadBackMap(values);
    if forall k :: k in values ==> values[k] != "" {
      assert back.Keys == NonNull(values).Keys;
      assert forall k :: k in back ==> back[k] == NonNull(values)[k];
    }
  }

  lemma CookiesReadBack(values: map<Str, Str>, order: seq<Str>, codec: Base64Utf8,
                        serialize: seq<(Str, Option<Str>)> -> Option<Str>, validName: Str -> bool, path: Str, secure: bool)
    requires EnumeratesKeys(order, values)
    requires Writable(values, codec, validName)
    ensures var out := OutboundProperties(NonNull(values), order, codec, serialize, validName, path, secure);
            && out.failure.None?
            && CookieProperties(AsRequestCookies(out.cookies), codec) == ReadBackMap(values)
  {
    var out := OutboundProperties(NonNull(values), order, codec, serialize, validName, path, secure);
    var cs := AsRequestCookies(out.cookies);
    if |values| == 0 {
      assert cs == [];
    } else {
      OutboundCookieValues(values, order, codec, serialize, validName, path, secure);
      EncodedCookiesReadBack(values, order, codec, cs);
    }
  }

  /** Cookies carrying every enumerated key's encoded value read back as `ReadBackMap`. */
  lemma EncodedCookiesReadBack(values: map<Str, Str>, order: seq<Str>, codec: Base64Utf8, cs: seq<RequestCookie>)
    requires EnumeratesKeys(order, values)
    requires forall k :: k in values ==> RoundTrips(codec, values[k]) && SingleLine(values[k])
    requires |cs| == |order|
    requires forall i :: 0 <= i < |order| ==> cs[i] == RequestCookie(CookiePrefix + order[i], EncodeCookieValue(codec, values[order[i]]))
    ensures CookieProperties(cs, codec) == ReadBackMap(values)
  {
    PrefixRoundTrip(values, order, codec, cs, |order|);
    assert cs[..|order|] == cs;
    assert order[..|order|] == order;
    EnumeratedMap(values, order);
  }

  lemma {:induction false} NoFaultRunsToEnd(properties: map<Str, Option<Str>>, order: seq<Str>, validName: Str -> bool)
    requires forall i :: 0 <= i < |order| ==> order[i] in properties
    requires forall i :: 0 <= i < |order| ==> CookieFault(properties, order[i], validName).None?
    ensures FirstFault(properties, order, validName) == |order|
    decreases |order|
  {
    if order != [] {
      NoFaultRunsToEnd(properties, order[1..], validName);
    }
  }

  lemma OutboundCookieValues(values: map<Str, Str>, order: seq<Str>, codec: Base64Utf8,
                             serialize: seq<(Str, Option<Str>)> -> Option<Str>, validName: Str -> bool, path: Str, secure: bool)
    requires EnumeratesKeys(order, values) && |values| > 0
    requires Writable(values, codec, validName)
    ensures var out := OutboundProperties(NonNull(values), order, codec, serialize, validName, path, secure);
            var cs := AsRequestCookies(out.cookies);
            && out.failure.None?
            && |cs| == |order|
            && forall i :: 0 <= i < |order| ==> cs[i] == RequestCookie(CookiePrefix + order[i], EncodeCookieValue(codec, values[order[i]]))
  {
    var properties := NonNull(values);
    assert EnumeratesKeys(order, properties);
    NoFaultRunsToEnd(properties, order, validName);
  }

  lemma EnumeratedMap(values: map<Str, Str>, order: seq<Str>)
    requires EnumeratesKeys(order, values)
    ensures (map k | k in order :: ReadBackValue(values[k])) == ReadBackMap(values)
  {
    var m := map k | k in order :: ReadBackValue(values[k]);
    assert m.Keys == values.Keys;
  }

  lemma {:induction false} PrefixRoundTrip(values: map<Str, Str>, order: seq<Str>, codec: Base64Utf8,
                                           cs: seq<RequestCookie>, n: nat)
    requires forall i :: 0 <= i < |order| ==> order[i] in values
    requires forall k :: k in values ==> RoundTrips(codec, values[k]) && SingleLine(values[k])
    requires n <= |order| == |cs|
    requires forall i :: 0 <= i < |order| ==> cs[i] == RequestCookie(CookiePrefix + order[i], EncodeCookieValue(codec, values[order[i]]))
    ensures CookieProperties(cs[..n], codec) == map k | k in order[..n] :: ReadBackValue(values[k])
    decreases n
  {
    if n > 0 {
      PrefixRoundTrip(values, order, codec, cs, n - 1);
      assert cs[..n][..n - 1] == cs[..n - 1];
      var c := cs[n - 1];
      var key := order[n - 1];
      assert c.name[..|CookiePrefix|] == CookiePrefix;
      assert c.name[|CookiePrefix|..] == key;
      CookieValueReadBack(codec, values[key]);
      assert order[..n] == order[..n - 1] + [key];
    } else {
      assert cs[..0] == [];
    }
  }
}
