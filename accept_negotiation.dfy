/**
 * The media type of a byte-array result: the type sniffed from its magic
 * number, else the first concrete (wildcard-free) media range of the Accept
 * header, else `application/octet-stream`; plus the media-range matcher used
 * to check the choice against the Accept header (section 5.3.2 of RFC 7231).
 */
module AcceptNegotiation {
  import opened Base
  import opened Strings
  import MimeSniffer

  const OctetStream: Str := "application/octet-stream"

  /**
   * Outcome of a scan over the Accept entries. `IndexFault` is the
   * ArrayIndexOutOfBoundsException of `acc.trim().split(";")[0]` on an entry
   * made of semicolons only (Java's split then returns an empty array).
   */
  datatype Scan = Hit(contentType: Str) | Miss | IndexFault

  /** `acc.trim().split(";")[0]`, or None where that indexing throws. */
  function MediaRange(acc: Str): Option<Str> {
    var parts := Split(Trim(acc), ';');
    if |parts| == 0 then None else Some(parts[0])
  }

  /** A `type/subtype` with neither half a `*`. */
  predicate Concrete(contentType: Str) {
    var split := Split(contentType, '/');
    |split| == 2 && split[0] != "*" && split[1] != "*"
  }

  /** `getFirstNonpatternContentType`: the first entry whose media range is concrete. */
  function FirstNonpattern(contentTypes: seq<Str>): Scan {
    if |contentTypes| == 0 then Miss
    else match MediaRange(contentTypes[0])
      case None => IndexFault
      case Some(contentType) =>
        if Concrete(contentType) then Hit(contentType) else FirstNonpattern(contentTypes[1..])
  }

  method FirstNonpatternContentType(contentTypes: seq<Str>) returns (r: Scan)
    ensures r == FirstNonpattern(contentTypes)
  {
    for i := 0 to |contentTypes|
      invariant FirstNonpattern(contentTypes) == FirstNonpattern(contentTypes[i..])
    {
      var parts := Split(Trim(contentTypes[i]), ';');
      if |parts| == 0 {
        return IndexFault;
      }
      var contentType := parts[0];
      var split := Split(contentType, '/');
      if |split| == 2 && split[0] != "*" && split[1] != "*" {
        return Hit(contentType);
      }
      assert contentTypes[i..][1..] == contentTypes[i + 1..];
    }
    return Miss;
  }

  /**
   * `matchContentType`: both sides must have exactly two '/'-separated parts;
   * each part of the pattern is `*` or equal, ignoring case, to the type's.
   */
  predicate MatchContentType(contentTypePattern: Str, contentType: Str) {
    var patSplit := Split(contentTypePattern, '/');
    var typeSplit := Split(contentType, '/');
    && |patSplit| == 2
    && |typeSplit| == 2
    && (patSplit[0] == "*" || EqualsIgnoreCase(patSplit[0], typeSplit[0]))
    && (patSplit[1] == "*" || EqualsIgnoreCase(patSplit[1], typeSplit[1]))
  }

  /** Whether some Accept entry's media range matches; None where an entry throws. */
  function AcceptListed(accepts: seq<Str>, contentType: Str): Option<bool> {
    if |accepts| == 0 then Some(false)
    else match MediaRange(accepts[0])
      case None => None
      case Some(range) =>
        if MatchContentType(range, contentType) then Some(true) else AcceptListed(accepts[1..], contentType)
  }

  /**
   * `getBytesContentType`; None is the exception a semicolon-only Accept entry
   * raises. The Accept check only decides whether a warning is logged.
   */
  function BytesContentType(accept: Option<Str>, bytes: Bytes): Option<Str> {
    var sniffed := MimeSniffer.SniffMime(Some(bytes));
    match accept
    case None => Some(if sniffed.Some? then sniffed.value else OctetStream)
    case Some(header) =>
      var accepts := Split(header, ',');
      var first := if sniffed.Some? then Hit(sniffed.value) else FirstNonpattern(accepts);
      if first.IndexFault? then None
      else
        var resultContentType := if first.Hit? then first.contentType else OctetStream;
        if AcceptListed(accepts, resultContentType).None? then None else Some(resultContentType)
  }

  method GetBytesContentType(accept: Option<Str>, bytes: Bytes) returns (r: Option<Str>)
    ensures r == BytesContentType(accept, bytes)
  {
    var resultContentType := MimeSniffer.SniffMime(Some(bytes));
    if accept.Some? {
      var acceptContentTypes := Split(accept.value, ',');
      if resultContentType.None? {
        var first := FirstNonpatternContentType(acceptContentTypes);
        if first.IndexFault? {
          return None;
        }
        resultContentType := if first.Hit? then Some(first.contentType) else None;
      }
      if resultContentType.None? {
        resultContentType := Some(OctetStream);
      }
      var found := false;
      for i := 0 to |acceptContentTypes|
        invariant !found
        invariant AcceptListed(acceptContentTypes, resultContentType.value)
               == AcceptListed(acceptContentTypes[i..], resultContentType.value)
      {
        var parts := Split(Trim(acceptContentTypes[i]), ';');
        assert acceptContentTypes[i..][0] == acceptContentTypes[i];
        if |parts| == 0 {
          return None;
        }
        assert MediaRange(acceptContentTypes[i]) == Some(parts[0]);
        if MatchContentType(parts[0], resultContentType.value) {
          found := true;
          break;
        }
        assert acceptContentTypes[i..][1..] == acceptContentTypes[i + 1..];
      }
    }
    if resultContentType.None? {
      resultContentType := Some(OctetStream);
    }
    return resultContentType;
  }

  /** An entry the scan passes over: its media range can be taken and has a wildcard or no `/`. */
  predicate Skipped(acc: Str) {
    MediaRange(acc).Some? && !Concrete(MediaRange(acc).value)
  }

  /** The scan returns the FIRST concrete media range, and only an earlier bad entry stops it. */
  lemma {:induction false} FirstNonpatternIsFirst(contentTypes: seq<Str>)
    ensures FirstNonpattern(contentTypes).Hit? ==>
              exists i :: 0 <= i < |contentTypes|
                && MediaRange(contentTypes[i]) == Some(FirstNonpattern(contentTypes).contentType)
                && Concrete(FirstNonpattern(contentTypes).contentType)
                && forall j :: 0 <= j < i ==> Skipped(contentTypes[j])
    ensures FirstNonpattern(contentTypes).Miss? <==> forall j :: 0 <= j < |contentTypes| ==> Skipped(contentTypes[j])
    decreases |contentTypes|
  {
    if |contentTypes| == 0 {
      return;
    }
    var head := MediaRange(contentTypes[0]);
    if head.None? {
      assert FirstNonpattern(contentTypes) == IndexFault;
      assert !Skipped(contentTypes[0]);
      return;
    }
    if Concrete(head.value) {
      assert FirstNonpattern(contentTypes) == Hit(head.value);
      assert !Skipped(contentTypes[0]);
      return;
    }
    var rest := contentTypes[1..];
    assert Skipped(contentTypes[0]);
    assert FirstNonpattern(contentTypes) == FirstNonpattern(rest);
    FirstNonpatternIsFirst(rest);
    assert forall j :: 1 <= j < |contentTypes| ==> contentTypes[j] == rest[j - 1];
    if FirstNonpattern(rest).Hit? {
      var c := FirstNonpattern(rest).contentType;
      var i :| 0 <= i < |rest| && MediaRange(rest[i]) == Some(c) && Concrete(c)
               && forall j :: 0 <= j < i ==> Skipped(rest[j]);
      assert MediaRange(contentTypes[i + 1]) == Some(c);
      assert forall j :: 0 <= j < i + 1 ==> Skipped(contentTypes[j]);
    }
  }

  /** Entries whose media ranges can all be taken never make the scans throw. */
  predicate WellFormed(accepts: seq<Str>) {
    forall i :: 0 <= i < |accepts| ==> MediaRange(accepts[i]).Some?
  }

  lemma {:induction false} ScansDoNotThrow(accepts: seq<Str>, contentType: Str)
    requires WellFormed(accepts)
    ensures !FirstNonpattern(accepts).IndexFault?
    ensures AcceptListed(accepts, contentType).Some?
    decreases |accepts|
  {
    if |accepts| > 0 {
      assert MediaRange(accepts[0]).Some?;
      assert forall i :: 1 <= i < |accepts| ==> accepts[1..][i - 1] == accepts[i];
      ScansDoNotThrow(accepts[1..], contentType);
    }
  }

  /**
   * The choice for a byte array: the sniffed type if there is one, else the
   * first concrete Accept range, else octet-stream; it is never missing when
   * every Accept entry is well formed.
   */
  lemma BytesContentTypeChoice(accept: Option<Str>, bytes: Bytes)
    requires accept.Some? ==> WellFormed(Split(accept.value, ','))
    ensures BytesContentType(accept, bytes).Some?
    ensures MimeSniffer.SniffMime(Some(bytes)).Some? ==>
              BytesContentType(accept, bytes) == MimeSniffer.SniffMime(Some(bytes))
    ensures MimeSniffer.SniffMime(Some(bytes)).None? && accept.Some?
            && FirstNonpattern(Split(accept.value, ',')).Hit? ==>
              BytesContentType(accept, bytes) == Some(FirstNonpattern(Split(accept.value, ',')).contentType)
    ensures MimeSniffer.SniffMime(Some(bytes)).None? && (accept.None? || FirstNonpattern(Split(accept.value, ',')).Miss?) ==>
              BytesContentType(accept, bytes) == Some(OctetStream)
  {
    if accept.Some? {
      var accepts := Split(accept.value, ',');
      ScansDoNotThrow(accepts, OctetStream);
      ScansDoNotThrow(accepts, if MimeSniffer.SniffMime(Some(bytes)).Some? then MimeSniffer.SniffMime(Some(bytes)).value else OctetStream);
      if FirstNonpattern(accepts).Hit? {
        ScansDoNotThrow(accepts, FirstNonpattern(accepts).contentType);
      }
    }
  }

  /** `type/subtype` splits into its two halves. */
  lemma SplitMediaType(t: Str, s: Str)
    requires '/' !in t && '/' !in s && s != ""
    ensures Split(t + "/" + s, '/') == [t, s]
  {
    assert Join([t, s], "/") == t + "/" + Join([s], "/");
    SplitOfJoin([t, s], '/');
  }

  /** Two-part types match exactly when each non-wildcard half agrees ignoring case. */
  lemma MatchHalves(pt: Str, ps: Str, t: Str, s: Str)
    requires '/' !in pt && '/' !in ps && ps != ""
    requires '/' !in t && '/' !in s && s != ""
    ensures MatchContentType(pt + "/" + ps, t + "/" + s) <==>
              (pt == "*" || EqualsIgnoreCase(pt, t)) && (ps == "*" || EqualsIgnoreCase(ps, s))
  {
    SplitMediaType(pt, ps);
    SplitMediaType(t, s);
  }

  // The all-wildcard range matches every two-part type, and every type matches itself.
  lemma WildcardAndSelfMatch(t: Str, s: Str)
    requires '/' !in t && '/' !in s && s != ""
    ensures MatchContentType("*/*", t + "/" + s)
    ensures MatchContentType(t + "/" + s, t + "/" + s)
  {
    MatchHalves("*", "*", t, s);
    MatchHalves(t, s, t, s);
  }

  /** A type without exactly one interior '/' matches nothing. */
  lemma MalformedNeverMatches(pattern: Str, contentType: Str)
    requires '/' !in contentType
    ensures !MatchContentType(pattern, contentType)
  {
  }
}
