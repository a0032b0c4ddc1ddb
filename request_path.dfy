/**
 * The path parser of the REST servlet: a request path
 * `/<service>/<solution>/<form>/<arg>...` (the servlet's path info) becomes the
 * solution to open, the form whose `ws_*` methods are called and the
 * positional arguments.
 */
module RequestPath {
  import opened Base
  import opened Strings

  datatype WsRequestPath = WsRequestPath(solutionName: Str, formName: Str, args: seq<Str>)

  /** A parsed path, or the IllegalArgumentException that carries the raw path. */
  datatype ParseResult = Parsed(path: WsRequestPath) | InvalidPath(raw: Option<Str>)

  /**
   * `parsePath`: split the path info at '/', demand at least four segments
   * (the empty one before the leading '/', the service name, the solution and
   * the form) and a second segment equal to the servlet's service name.
   */
  function ParsePath(pathInfo: Option<Str>, webServiceName: Str): ParseResult {
    match pathInfo
    case None => InvalidPath(None)
    case Some(path) =>
      var segments := Split(path, '/');
      if |segments| < 4 || segments[1] != webServiceName then InvalidPath(pathInfo)
      else Parsed(WsRequestPath(segments[2], segments[3], segments[4..]))
  }

  /** The path a client writes for a service, solution, form and arguments. */
  function PathOf(segments: seq<Str>): Str {
    Join([""] + segments, "/")
  }

  predicate Segment(s: Str) {
    s != "" && '/' !in s
  }

  /**
   * A path built from non-empty, slash-free segments parses back into the
   * solution, the form and the arguments it was built from.
   */
  lemma ParseBuiltPath(service: Str, solution: Str, form: Str, args: seq<Str>)
    requires Segment(service) && Segment(solution) && Segment(form)
    requires forall i :: 0 <= i < |args| ==> Segment(args[i])
    ensures ParsePath(Some(PathOf([service, solution, form] + args)), service)
         == Parsed(WsRequestPath(solution, form, args))
  {
    var segs := [""] + ([service, solution, form] + args);
    assert forall i :: 0 <= i < |segs| ==> '/' !in segs[i] by {
      forall i | 1 <= i < |segs| ensures '/' !in segs[i] {
        if i >= 4 { assert segs[i] == args[i - 4]; }
      }
    }
    SplitOfJoin(segs, '/');
    assert segs[4..] == args;
  }

  /** Fewer than a service, a solution and a form is a bad request. */
  lemma ShortPathRejected(segments: seq<Str>, service: Str)
    requires 1 <= |segments| < 3
    requires forall i :: 0 <= i < |segments| ==> Segment(segments[i])
    ensures ParsePath(Some(PathOf(segments)), service).InvalidPath?
  {
    var segs := [""] + segments;
    SplitOfJoin(segs, '/');
  }

  /** A path addressed to another service name is a bad request. */
  lemma OtherServiceRejected(service: Str, solution: Str, form: Str, args: seq<Str>, webServiceName: Str)
    requires Segment(service) && Segment(solution) && Segment(form)
    requires forall i :: 0 <= i < |args| ==> Segment(args[i])
    requires service != webServiceName
    ensures ParsePath(Some(PathOf([service, solution, form] + args)), webServiceName).InvalidPath?
  {
    var segs := [""] + ([service, solution, form] + args);
    assert forall i :: 0 <= i < |segs| ==> '/' !in segs[i] by {
      forall i | 1 <= i < |segs| ensures '/' !in segs[i] {
        if i >= 4 { assert segs[i] == args[i - 4]; }
      }
    }
    SplitOfJoin(segs, '/');
    assert segs[1] == service;
  }

  lemma {:induction false} PiecesSnocSeparator(s: Str, c: char)
    ensures Pieces(s + [c], c) == Pieces(s, c) + [""]
    decreases |s|
  {
    if |s| == 0 {
      assert s + [c] == [c];
      assert [c][1..] == "";
    } else {
      var rest := Pieces(s[1..], c);
      assert (s + [c])[0] == s[0];
      assert (s + [c])[1..] == s[1..] + [c];
      PiecesSnocSeparator(s[1..], c);
      if s[0] == c {
        assert Pieces(s + [c], c) == [""] + (rest + [""]);
      } else {
        var rest' := rest + [""];
        assert rest'[0] == rest[0];
        assert rest'[1..] == rest[1..] + [""];
        assert Pieces(s + [c], c) == [[s[0]] + rest'[0]] + rest'[1..];
      }
    }
  }

  lemma DropTrailingEmptySnoc(ps: seq<Str>)
    ensures DropTrailingEmpty(ps + [""]) == DropTrailingEmpty(ps)
  {
    assert (ps + [""])[..|ps|] == ps;
  }

  /** Java's split drops trailing empty segments, so a trailing '/' changes nothing. */
  lemma TrailingSlashIgnored(path: Str, webServiceName: Str)
    requires '/' in path
    ensures ParsePath(Some(path + "/"), webServiceName).Parsed? == ParsePath(Some(path), webServiceName).Parsed?
    ensures ParsePath(Some(path), webServiceName).Parsed? ==>
              ParsePath(Some(path + "/"), webServiceName).path == ParsePath(Some(path), webServiceName).path
  {
    var ps := Pieces(path, '/');
    PiecesSnocSeparator(path, '/');
    DropTrailingEmptySnoc(ps);
    assert (path + "/")[|path|] == '/';
    assert Split(path + "/", '/') == Split(path, '/');
  }
}
