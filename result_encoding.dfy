/**
 * `sendResult`: how the value a `ws_*` method returned is turned into the
 * response body, its media type and its charset. A content type or charset
 * preset by the solution wins; a byte array is sent as it is; anything else is
 * serialised in the format the Accept header asks for (or the request's own).
 */
module ResultEncoding {
  import opened Base
  import opened Strings
  import opened Values
  import HeaderParams
  import ContentKinds
  import AcceptNegotiation
  import MimeSniffer

  /** The request and response state `sendResult` reads. */
  datatype ResultRequest = ResultRequest(
    accept: Option<Str>,
    contentType: Option<Str>,
    callback: Option<Str>,
    presetCharset: Option<Str>,
    presetContentType: Option<Str>)

  /**
   * The serialisers: the JSON serialiser (None for its exception), JSON then
   * `XML.toString` (None likewise), `XML.toJSONObject` of XML text, and
   * `toString`.
   */
  datatype Serializers = Serializers(
    toJson: Value -> Option<Str>,
    toXml: Value -> Option<Str>,
    xmlToJson: Str -> Str,
    toString: Value -> Str)

  /**
   * The charset of the answer: the one the solution set, else the Accept
   * header's `charset`, else the Content-Type header's, else UTF-8.
   */
  function ResponseCharset(r: ResultRequest): Str {
    if r.presetCharset.Some? then r.presetCharset.value
    else
      var contentTypeCharset := HeaderParams.HeaderKey(r.contentType, "charset", ContentKinds.DefaultCharset);
      HeaderParams.HeaderKey(r.accept, "charset", contentTypeCharset)
  }

  /** Accept decides the charset, then Content-Type, then the default. */
  lemma CharsetPrecedence(r: ResultRequest)
    requires r.presetCharset.None?
    ensures r.accept.Some? && HeaderParams.FindParam(HeaderParams.ParamElements(r.accept.value), "charset").Some? ==>
              ResponseCharset(r) == HeaderParams.FindParam(HeaderParams.ParamElements(r.accept.value), "charset").value
    ensures (r.accept.None? || HeaderParams.FindParam(HeaderParams.ParamElements(r.accept.value), "charset").None?) ==>
              ResponseCharset(r) == HeaderParams.HeaderKey(r.contentType, "charset", ContentKinds.DefaultCharset)
    ensures (r.accept.None? || HeaderParams.FindParam(HeaderParams.ParamElements(r.accept.value), "charset").None?)
            && (r.contentType.None? || HeaderParams.FindParam(HeaderParams.ParamElements(r.contentType.value), "charset").None?) ==>
              ResponseCharset(r) == "UTF-8"
  {
  }

  /** The format asked for: what the Accept header names, else the default. */
  function ResponseKind(accept: Option<Str>, defaultKind: ContentKinds.ContentKind): (k: ContentKinds.ContentKind)
    ensures k == ContentKinds.Other ==> defaultKind == ContentKinds.Other
  {
    var kind := ContentKinds.ClassifyHeader(accept);
    if kind == ContentKinds.Other then defaultKind else kind
  }

  /** It is `getRequestContentType(request, "Accept", null, default)`: without a body nothing is decoded. */
  lemma ResponseKindIsRequestContentType(accept: Option<Str>, contentTypeHeader: Option<Str>,
                                         defaultKind: ContentKinds.ContentKind, decode: (Bytes, Str) -> Option<Str>)
    ensures ContentKinds.RequestContentType(accept, contentTypeHeader, None, defaultKind, decode) == Some(ResponseKind(accept, defaultKind))
  {
  }

  /** `getContent`; None is the serialiser's exception. */
  function GetContent(result: Value, interpretResult: bool, kind: ContentKinds.ContentKind, s: Serializers): Option<Str> {
    if result == VNull then Some("")
    else if result.VXml? then Some(if kind == ContentKinds.Json then s.xmlToJson(result.text) else result.text)
    else if kind == ContentKinds.Xml then s.toXml(result)
    else if interpretResult then s.toJson(result)
    else Some(s.toString(result))
  }

  /** The body of a JSON answer: wrapped in the `callback` parameter's call when one is given (JSONP). */
  function JsonBody(content: Str, callback: Option<Str>): Str {
    if callback.Some? && callback.value != "" then callback.value + "(" + content + ")" else content
  }

  function XmlProlog(charset: Str): Str {
    "<?xml version=\"1.0\" encoding=\"" + charset + "\"?>\n"
  }

  /** The body bytes: text to be encoded in a charset, or a byte array as it is. */
  datatype Payload = TextPayload(text: Str, charset: Str) | BytesPayload(bytes: Bytes)

  /**
   * What is sent: the Content-Type header `sendResult` sets (None when it sets
   * none) and the body; a 415 for a binary format without a byte array; or the
   * exception that stops it.
   */
  datatype Sent = Sent(contentType: Option<Str>, body: Payload) | UnsupportedMedia | SendFailed(failure: Failure)

  /** The first switch of `sendResult`: the body text for each format; None is its IllegalStateException. */
  function FramedContent(content: Str, callback: Option<Str>, result: Value, kind: ContentKinds.ContentKind,
                         charset: Str, s: Serializers): Option<Str>
  {
    match kind
    case Json => Some(JsonBody(content, callback))
    case Xml => Some(XmlProlog(charset) + content)
    case Multipart => Some("")
    case FormPost => Some("")
    case Text => Some(if result == VNull then "" else s.toString(result))
    case _ => None
  }

  /** The second switch: the media type for each format; multipart and form posts are answered as JSON. */
  function MediaTypeOf(kind: ContentKinds.ContentKind): Option<Str> {
    match kind
    case Json => Some("application/json")
    case Multipart => Some("application/json")
    case FormPost => Some("application/json")
    case Xml => Some("application/xml")
    case Text => Some("text/plain")
    case _ => None
  }

  /** The serialised answer for a result that is not a byte array and has no preset type. */
  function SendFormatted(callback: Option<Str>, result: Value, kind: ContentKinds.ContentKind, charset: Str, s: Serializers): Sent {
    if kind == ContentKinds.Binary then UnsupportedMedia
    else
      match GetContent(result, true, kind, s)
      case None => SendFailed(OtherFailure)
      case Some(content) =>
        match FramedContent(content, callback, result, kind, charset, s)
        case None => SendFailed(OtherFailure)
        case Some(text) =>
          match MediaTypeOf(kind)
          case None => SendFailed(OtherFailure)
          case Some(media) => Sent(Some(media + ";charset=" + charset), TextPayload(text, charset))
  }

  /** A preset content type: the result's plain text, no header written. */
  function SendPreset(r: ResultRequest, result: Value, s: Serializers): Sent
    requires r.presetContentType.Some?
  {
    match GetContent(result, false, ContentKinds.ClassifyHeader(r.presetContentType), s)
    case None => SendFailed(OtherFailure)
    case Some(content) => Sent(None, TextPayload(content, ResponseCharset(r)))
  }

  /**
   * `sendResult` as written: for a byte array the media type is worked out but
   * never written to the response.
   */
  function SendResultAsWritten(r: ResultRequest, result: Value, defaultKind: ContentKinds.ContentKind, s: Serializers): Sent {
    if r.presetContentType.Some? then SendPreset(r, result, s)
    else if result.VBytes? then
      match AcceptNegotiation.BytesContentType(r.accept, result.bytes)
      case None => SendFailed(OtherFailure)
      case Some(_) => Sent(None, BytesPayload(result.bytes))
    else SendFormatted(r.callback, result, ResponseKind(r.accept, defaultKind), ResponseCharset(r), s)
  }

  /** `sendResult` as intended: a byte array is sent with the media type worked out for it. */
  function SendResult(r: ResultRequest, result: Value, defaultKind: ContentKinds.ContentKind, s: Serializers): Sent {
    if r.presetContentType.Some? then SendPreset(r, result, s)
    else if result.VBytes? then
      match AcceptNegotiation.BytesContentType(r.accept, result.bytes)
      case None => SendFailed(OtherFailure)
      case Some(contentType) => Sent(Some(contentType), BytesPayload(result.bytes))
    else SendFormatted(r.callback, result, ResponseKind(r.accept, defaultKind), ResponseCharset(r), s)
  }

  /** A PNG returned as it is goes out without a media type. */
  lemma BytesUntypedAsWritten(r: ResultRequest, bytes: Bytes, defaultKind: ContentKinds.ContentKind, s: Serializers)
    requires r.presetContentType.None? && r.accept.None?
    requires MimeSniffer.HasPrefix(bytes, MimeSniffer.Png)
    ensures AcceptNegotiation.BytesContentType(r.accept, bytes) == Some("image/png")
    ensures SendResultAsWritten(r, VBytes(bytes), defaultKind, s) == Sent(None, BytesPayload(bytes))
  {
    MimeSniffer.KnownSignatures(bytes);
  }

  /**
   * A byte array is sent unchanged, typed by its magic number, the Accept
   * header or octet-stream; the two versions differ in nothing else.
   */
  lemma BytesSentTyped(r: ResultRequest, bytes: Bytes, defaultKind: ContentKinds.ContentKind, s: Serializers)
    requires r.presetContentType.None?
    requires r.accept.Some? ==> AcceptNegotiation.WellFormed(Split(r.accept.value, ','))
    ensures SendResult(r, VBytes(bytes), defaultKind, s)
         == Sent(AcceptNegotiation.BytesContentType(r.accept, bytes), BytesPayload(bytes))
    ensures SendResultAsWritten(r, VBytes(bytes), defaultKind, s)
         == SendResult(r, VBytes(bytes), defaultKind, s).(contentType := None)
  {
    AcceptNegotiation.BytesContentTypeChoice(r.accept, bytes);
  }

  /** The two versions agree on every result that is not a byte array. */
  lemma VersionsAgreeOnValues(r: ResultRequest, result: Value, defaultKind: ContentKinds.ContentKind, s: Serializers)
    requires !result.VBytes? || r.presetContentType.Some?
    ensures SendResultAsWritten(r, result, defaultKind, s) == SendResult(r, result, defaultKind, s)
  {
  }

  /** Only a binary format is refused with 415; every other format is serialised or fails in its serialiser. */
  lemma BinaryRefused(callback: Option<Str>, result: Value, kind: ContentKinds.ContentKind, charset: Str, s: Serializers)
    ensures SendFormatted(callback, result, kind, charset, s) == UnsupportedMedia <==> kind == ContentKinds.Binary
  {
  }

  /** A serialised answer always names its charset in its media type and is encoded in it. */
  lemma FormattedAnswer(callback: Option<Str>, result: Value, kind: ContentKinds.ContentKind, charset: Str, s: Serializers)
    ensures var sent := SendFormatted(callback, result, kind, charset, s);
            sent.Sent? ==>
              && sent.contentType.Some?
              && EndsWith(sent.contentType.value, ";charset=" + charset)
              && sent.body == TextPayload(sent.body.text, charset)
  {
    if MediaTypeOf(kind).Some? {
      SuffixAfterMedia(MediaTypeOf(kind).value, charset);
    }
  }

  lemma SuffixAfterMedia(media: Str, charset: Str)
    ensures EndsWith(media + ";charset=" + charset, ";charset=" + charset)
  {
    var ct := media + ";charset=" + charset;
    assert ct[|ct| - |";charset=" + charset|..] == ";charset=" + charset;
  }

  /**
   * JSON is wrapped in the callback exactly when a non-empty one is given; XML
   * carries a prolog naming the charset; multipart and form posts are answered
   * with an empty JSON body; text is the result's string form.
   */
  lemma FramingByKind(callback: Option<Str>, result: Value, kind: ContentKinds.ContentKind, charset: Str, s: Serializers)
    requires GetContent(result, true, kind, s).Some?
    ensures var content := GetContent(result, true, kind, s).value;
            var sent := SendFormatted(callback, result, kind, charset, s);
            && (kind == ContentKinds.Json && callback.Some? && callback.value != "" ==>
                  sent.body.text == callback.value + "(" + content + ")")
            && (kind == ContentKinds.Json && (callback.None? || callback.value == "") ==> sent.body.text == content)
            && (kind == ContentKinds.Xml ==> StartsWith(sent.body.text, XmlProlog(charset)) && EndsWith(sent.body.text, content))
            && (kind == ContentKinds.Multipart || kind == ContentKinds.FormPost ==>
                  sent == Sent(Some("application/json" + ";charset=" + charset), TextPayload("", charset)))
            && (kind == ContentKinds.Text ==> sent.body.text == (if result == VNull then "" else s.toString(result)))
  {
    var content := GetContent(result, true, kind, s).value;
    if kind == ContentKinds.Xml {
      var text := XmlProlog(charset) + content;
      assert text[..|XmlProlog(charset)|] == XmlProlog(charset);
      assert text[|text| - |content|..] == content;
    }
  }

  /** Without a preset type, a value that is not a byte array is serialised in the format and charset negotiated above. */
  lemma ValuesAreFormatted(r: ResultRequest, result: Value, defaultKind: ContentKinds.ContentKind, s: Serializers)
    requires r.presetContentType.None? && !result.VBytes?
    ensures SendResult(r, result, defaultKind, s)
         == SendFormatted(r.callback, result, ResponseKind(r.accept, defaultKind), ResponseCharset(r), s)
  {
  }
}
