/**
 * The callback address the OAuth plugin registers with a provider: the server
 * URL, the solutions path, the solution's name and the deep-link method that
 * receives the provider's answer.
 */
module OAuthRedirect {
  import opened Base
  import opened Strings

  const SolutionsPath: Str := "solutions/"
  const MethodPath: Str := "/m/"

  /** The server URL with exactly one `/` after it. */
  function WithSlash(serverUrl: Str): (r: Str)
    ensures EndsWith(r, "/")
    ensures StartsWith(r, serverUrl)
  {
    if EndsWith(serverUrl, "/") then serverUrl
    else
      var r := serverUrl + "/";
      assert r[..|serverUrl|] == serverUrl;
      r
  }

  /** `getRedirectURL(callbackmethod)`, given the server URL and the solution name. */
  function RedirectUrl(serverUrl: Str, solutionName: Str, callbackMethod: Str): (r: Str)
    ensures StartsWith(r, serverUrl)
    ensures EndsWith(r, solutionName + MethodPath + callbackMethod)
  {
    var front := WithSlash(serverUrl) + SolutionsPath;
    var tail := solutionName + MethodPath + callbackMethod;
    PrefixOfConcat(WithSlash(serverUrl), SolutionsPath);
    StartsWithTrans(front, WithSlash(serverUrl), serverUrl);
    PrefixOfConcat(front, tail);
    StartsWithTrans(front + tail, front, serverUrl);
    SuffixOfConcat(front, tail);
    front + tail
  }

  /**
   * One `/` separates the server URL from `solutions/`: it is added only when
   * the URL does not end with one, so the result is the same either way.
   */
  lemma OneSlashBeforeSolutions(serverUrl: Str, solutionName: Str, callbackMethod: Str)
    requires !EndsWith(serverUrl, "/")
    ensures RedirectUrl(serverUrl + "/", solutionName, callbackMethod) == RedirectUrl(serverUrl, solutionName, callbackMethod)
    ensures RedirectUrl(serverUrl, solutionName, callbackMethod)[|serverUrl|] == '/'
    ensures RedirectUrl(serverUrl, solutionName, callbackMethod)[|serverUrl| + 1..|serverUrl| + 1 + |SolutionsPath|] == SolutionsPath
  {
    var u := serverUrl + "/";
    assert u[|u| - 1..] == "/";
    assert WithSlash(u) == u;
    assert WithSlash(serverUrl) == u;
    var rest := SolutionsPath + solutionName + MethodPath + callbackMethod;
    var r := RedirectUrl(serverUrl, solutionName, callbackMethod);
    assert r == u + rest;
    assert r[|serverUrl|] == u[|serverUrl|] == '/';
    assert rest[..|SolutionsPath|] == SolutionsPath;
    assert r[|u|..|u| + |SolutionsPath|] == rest[..|SolutionsPath|];
  }

  /** Nothing is dropped or added besides the one slash: the length is the sum of the parts. */
  lemma RedirectLength(serverUrl: Str, solutionName: Str, callbackMethod: Str)
    ensures |RedirectUrl(serverUrl, solutionName, callbackMethod)|
         == |serverUrl| + (if EndsWith(serverUrl, "/") then 0 else 1) + |SolutionsPath| + |solutionName| + |MethodPath| + |callbackMethod|
  {
  }

  /** The deep-link method can be read back from the end of the address. */
  lemma {:induction false} CallbackReadBack(serverUrl: Str, solutionName: Str, callbackMethod: Str)
    ensures var r := RedirectUrl(serverUrl, solutionName, callbackMethod);
            r[|r| - |callbackMethod|..] == callbackMethod
            && r[..|r| - |callbackMethod|] == WithSlash(serverUrl) + SolutionsPath + solutionName + MethodPath
  {
    var r := RedirectUrl(serverUrl, solutionName, callbackMethod);
    var front := WithSlash(serverUrl) + SolutionsPath + solutionName + MethodPath;
    assert r == front + callbackMethod;
    assert r[|front|..] == callbackMethod;
    assert r[..|front|] == front;
  }
}
