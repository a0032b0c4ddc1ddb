/**
 * `getHeaderKey`: the value of one `key=value` or `key="value"` parameter of
 * a header such as `Content-Type: text/xml; charset="utf-8"` or
 * `Content-Disposition: form-data; name="file"` (the parameter syntax of
 * section 3.1.1.1 of RFC 7231), with a default when the header is absent or
 * has no such parameter.
 */
module HeaderParams {
  import opened Base
  import opened Strings

  function StripSpaces(s: Str): Str {
    if |s| > 0 && s[0] == ' ' then StripSpaces(s[1..]) else s
  }

  /**
   * `header.split("; *")`: the pieces between semicolons, each one after a
   * semicolon without the spaces that follow it, trailing empty pieces dropped.
   */
  function ParamElements(header: Str): seq<Str> {
    if ';' !in header then [header]
    else
      var ps := Pieces(header, ';');
      DropTrailingEmpty([ps[0]] + seq(|ps| - 1, i requires 0 <= i < |ps| - 1 => StripSpaces(ps[i + 1])))
  }

  /** One pair of enclosing double quotes is removed from a value longer than one character. */
  function Unquote(v: Str): Str {
    if |v| > 1 && v[0] == '"' && v[|v| - 1] == '"' then v[1..|v| - 1] else v
  }

  /** The element, lower-cased, starts with `key=` (the key itself is not lower-cased). */
  predicate Names(element: Str, key: Str) {
    StartsWith(ToLower(element), key + "=")
  }

  /** The unquoted value of the first element that names `key`. */
  function FindParam(elements: seq<Str>, key: Str): Option<Str> {
    if |elements| == 0 then None
    else if Names(elements[0], key) then Some(Unquote(elements[0][|key| + 1..]))
    else FindParam(elements[1..], key)
  }

  /** What `getHeaderKey(header, key, defaultValue)` returns. */
  function HeaderKey(header: Option<Str>, key: Str, defaultValue: Str): Str {
    match header
    case None => defaultValue
    case Some(h) =>
      match FindParam(ParamElements(h), key)
      case Some(v) => v
      case None => defaultValue
  }

  /** The search loop of `getHeaderKey`, which returns at the first element naming `key`. */
  method GetHeaderKey(header: Option<Str>, key: Str, defaultValue: Str) returns (value: Str)
    ensures value == HeaderKey(header, key, defaultValue)
  {
    if header.Some? {
      var split := ParamElements(header.value);
      for i := 0 to |split|
        invariant FindParam(split, key) == FindParam(split[i..], key)
      {
        var element := split[i];
        if StartsWith(ToLower(element), key + "=") {
          var charset := element[|key| + 1..];
          if |charset| > 1 && charset[0] == '"' && charset[|charset| - 1] == '"' {
            charset := charset[1..|charset| - 1];
          }
          return charset;
        }
        assert split[i..][1..] == split[i + 1..];
      }
    }
    return defaultValue;
  }

  /**
   * The parameter found is the one of the FIRST element naming `key`, and none
   * is found exactly when no element names it.
   */
  lemma {:induction false} FindParamIsFirstMatch(elements: seq<Str>, key: Str)
    ensures FindParam(elements, key).None? <==> forall i :: 0 <= i < |elements| ==> !Names(elements[i], key)
    ensures FindParam(elements, key).Some? ==>
              exists i :: 0 <= i < |elements| && Names(elements[i], key)
                          && FindParam(elements, key).value == Unquote(elements[i][|key| + 1..])
                          && forall j :: 0 <= j < i ==> !Names(elements[j], key)
    decreases |elements|
  {
    if |elements| > 0 && !Names(elements[0], key) {
      var rest := elements[1..];
      FindParamIsFirstMatch(rest, key);
      assert forall i :: 1 <= i < |elements| ==> elements[i] == rest[i - 1];
      if FindParam(rest, key).Some? {
        var i :| 0 <= i < |rest| && Names(rest[i], key)
                 && FindParam(rest, key).value == Unquote(rest[i][|key| + 1..])
                 && forall j :: 0 <= j < i ==> !Names(rest[j], key);
        assert Names(elements[i + 1], key);
      }
    } else if |elements| > 0 {
      assert Names(elements[0], key);
    }
  }

  /** A header that names no `key` parameter yields the default. */
  lemma AbsentParameterGivesDefault(header: Str, key: Str, defaultValue: Str)
    requires forall e :: e in ParamElements(header) ==> !Names(e, key)
    ensures HeaderKey(Some(header), key, defaultValue) == defaultValue
  {
    FindParamIsFirstMatch(ParamElements(header), key);
  }

  lemma ToLowerOfWord(key: Str, rest: Str)
    requires LowerWord(key)
    ensures StartsWith(ToLower(key + "=" + rest), key + "=")
  {
    var s := key + "=" + rest;
    assert ToLower(s)[..|key| + 1] == key + "=";
  }

  /** The two elements of `<media type>; <param>`. */
  lemma ElementsOfTwo(mediaType: Str, param: Str)
    requires ';' !in mediaType && ';' !in param
    requires |param| > 0 && param[0] != ' '
    ensures ParamElements(mediaType + "; " + param) == [mediaType, param]
  {
    var h := mediaType + "; " + param;
    assert h == mediaType + [';'] + (" " + param);
    assert ';' !in " " + param;
    PiecesAfter(mediaType, " " + param, ';');
    PiecesWithout(" " + param, ';');
    assert h[|mediaType|] == ';';
    var ps := Pieces(h, ';');
    assert ps == [mediaType, " " + param];
    assert (" " + param)[1..] == param;
    assert StripSpaces(" " + param) == param;
  }

  /**
   * `<media type>; key=value`: the value is found, without its enclosing
   * quotes, whatever the media type before it (as long as it is not itself a
   * `key=` element).
   */
  lemma ParameterAfterMediaType(mediaType: Str, key: Str, v: Str, defaultValue: Str)
    requires ';' !in mediaType && ';' !in v
    requires LowerWord(key)
    requires !Names(mediaType, key)
    ensures HeaderKey(Some(mediaType + "; " + key + "=" + v), key, defaultValue) == Unquote(v)
  {
    var param := key + "=" + v;
    assert ';' !in key;
    assert ';' !in param;
    assert param[0] != ' ' by {
      if |key| > 0 { assert param[0] == key[0]; } else { assert param[0] == '='; }
    }
    var h := mediaType + "; " + key + "=" + v;
    assert h == mediaType + "; " + param;
    ElementsOfTwo(mediaType, param);
    var es := ParamElements(h);
    ToLowerOfWord(key, v);
    assert Names(es[1], key);
    assert es[1..] == [param];
    assert FindParam(es, key) == FindParam([param], key);
    assert param[|key| + 1..] == v;
  }
}
