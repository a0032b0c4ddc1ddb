/**
 * Classification of a request or response body: `getContentType` (ordered
 * substring tests on a lower-cased header), `guessContentType` (the first
 * character of the body) and `getRequestContentType` (the header first, the
 * body only when the header says nothing usable).
 */
module ContentKinds {
  import opened Base
  import opened Strings
  import HeaderParams

  /** The servlet's CONTENT_* constants. */
  datatype ContentKind = Other | Json | Xml | Binary | Multipart | Text | FormPost

  const OpenXmlMarker: Str := "vnd.openxmlformats-officedocument"
  const DefaultCharset: Str := "UTF-8"

  /** `getContentType`: the first of the ordered substring tests that holds. */
  function ClassifyHeader(headerValue: Option<Str>): ContentKind {
    match headerValue
    case None => Other
    case Some(v) =>
      var header := ToLower(v);
      if Contains(header, "json") then Json
      else if Contains(header, OpenXmlMarker) then Binary
      else if Contains(header, "xml") then Xml
      else if Contains(header, "text") then Text
      else if Contains(header, "multipart") then Multipart
      else if Contains(header, "application/x-www-form-urlencoded") then FormPost
      else if Contains(header, "octet-stream") || Contains(header, "application") then Binary
      else Other
  }

  /** `guessContentType`: only the very first character of the body is looked at. */
  function GuessContentType(content: Option<Str>, defaultKind: ContentKind): ContentKind {
    if content.Some? && |content.value| > 0 then
      if content.value[0] == '<' then Xml
      else if content.value[0] == '{' then Json
      else defaultKind
    else defaultKind
  }

  /**
   * `getRequestContentType`: classify the named header; only when that gives
   * OTHER and a body is present, decode the body with the charset of the
   * Content-Type header and guess from it. `decode` stands for
   * `new String(bytes, charset)`; None is its UnsupportedEncodingException,
   * which is what a None result here means.
   */
  function RequestContentType(headerValue: Option<Str>, contentTypeHeader: Option<Str>,
                              contents: Option<Bytes>, defaultKind: ContentKind,
                              decode: (Bytes, Str) -> Option<Str>): Option<ContentKind>
  {
    var kind := ClassifyHeader(headerValue);
    if kind != Other then Some(kind)
    else if contents.None? then Some(defaultKind)
    else
      var charset := HeaderParams.HeaderKey(contentTypeHeader, "charset", DefaultCharset);
      match decode(contents.value, charset)
      case None => None
      case Some(text) => Some(GuessContentType(Some(text), defaultKind))
  }

  /**
   * The openxml media types contain "xml" but are office documents: unless the
   * header also says "json", they are BINARY, never XML.
   */
  lemma OpenXmlIsBinary(header: Str)
    requires Contains(ToLower(header), OpenXmlMarker)
    ensures ClassifyHeader(Some(header)) == (if Contains(ToLower(header), "json") then Json else Binary)
    ensures ClassifyHeader(Some(header)) != Xml
  {
  }

  /** XML is chosen exactly when "xml" occurs and neither "json" nor the openxml marker does. */
  lemma XmlExactly(header: Str)
    ensures ClassifyHeader(Some(header)) == Xml <==>
              var h := ToLower(header);
              Contains(h, "xml") && !Contains(h, "json") && !Contains(h, OpenXmlMarker)
  {
  }

  lemma {:induction false} ToLowerIdempotent(s: Str)
    ensures ToLower(ToLower(s)) == ToLower(s)
  {
    var once := ToLower(s);
    var twice := ToLower(once);
    assert forall i :: 0 <= i < |s| ==> twice[i] == once[i];
  }

  /** Classification does not depend on the letter case of the header. */
  lemma ClassifyIgnoresCase(header: Str)
    ensures ClassifyHeader(Some(ToLower(header))) == ClassifyHeader(Some(header))
  {
    ToLowerIdempotent(header);
  }

  /** Any mention of "json", anywhere in the header, wins over every other test. */
  lemma {:induction false} JsonAnywhereWins(before: Str, after: Str)
    ensures ClassifyHeader(Some(before + "json" + after)) == Json
  {
    var h := before + "json" + after;
    var lower := ToLower(h);
    assert lower == ToLower(before) + "json" + ToLower(after) by {
      assert forall i :: |before| <= i < |before| + 4 ==> lower[i] == h[i];
    }
    ContainsInfix(ToLower(before), "json", ToLower(after));
  }

  /** A missing header gives OTHER, so the body (if any) decides. */
  lemma {:induction false} MissingHeaderFallsBackToBody(contentTypeHeader: Option<Str>, contents: Bytes,
                                                        defaultKind: ContentKind,
                                                        decode: (Bytes, Str) -> Option<Str>)
    requires decode(contents, HeaderParams.HeaderKey(contentTypeHeader, "charset", DefaultCharset)).Some?
    ensures RequestContentType(None, contentTypeHeader, Some(contents), defaultKind, decode)
         == Some(GuessContentType(decode(contents, HeaderParams.HeaderKey(contentTypeHeader, "charset", DefaultCharset)), defaultKind))
  {
  }

  /** The body is consulted only when the header classifies as OTHER. */
  lemma HeaderDecidesFirst(headerValue: Option<Str>, contentTypeHeader: Option<Str>,
                           contents: Option<Bytes>, defaultKind: ContentKind,
                           decode: (Bytes, Str) -> Option<Str>)
    requires ClassifyHeader(headerValue) != Other
    ensures RequestContentType(headerValue, contentTypeHeader, contents, defaultKind, decode)
         == Some(ClassifyHeader(headerValue))
  {
  }

  /** The guess reads `charAt(0)` only: leading white space hides a JSON or XML body. */
  lemma GuessSeesFirstCharOnly(text: Str, defaultKind: ContentKind)
    requires |text| > 0 && text[0] != '<' && text[0] != '{'
    ensures GuessContentType(Some(text), defaultKind) == defaultKind
    ensures GuessContentType(Some("<" + text), defaultKind) == Xml
    ensures GuessContentType(Some("{" + text), defaultKind) == Json
  {
  }
}
