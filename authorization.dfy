/**
 * `checkAuthorization`: HTTP Basic credentials (section 2 of RFC 7617),
 * checked either by the form's `ws_authenticate` method or by the server's
 * user directory against the configured authorized groups.
 */
module Authorization {
  import opened Base
  import opened Strings
  import opened Values

  const BasicScheme: Str := "basic "
  const NotAuthorizedMessage: Str := "User not authorized"

  /**
   * The collaborators: base64 decoding followed by UTF-8 decoding, the
   * `ws_authenticate` method, the directory's password check (a user UID or
   * null) and its group lookup (null when the user has none).
   */
  datatype AuthServices = AuthServices(
    decodeBase64Utf8: Str -> Str,
    authenticate: (Str, Str) -> Value,
    checkPasswordForUserName: (Str, Str) -> Option<Str>,
    getUserGroups: Str -> Option<seq<Str>>)

  /** The method's return value (VNull is null), or the exception it throws. */
  datatype AuthResult = Allowed(authResult: Value) | Refused(failure: Failure)

  /**
   * User and password of an `Authorization: Basic <token>` header: the scheme
   * is matched ignoring case, and the decoded token must hold a ':' after at
   * least one character; the password is everything after the first ':'.
   */
  function Credentials(header: Option<Str>, decodeBase64Utf8: Str -> Str): Option<(Str, Str)> {
    if header.None? || !StartsWith(ToLower(header.value), BasicScheme) then None
    else
      var authorization := decodeBase64Utf8(header.value[|BasicScheme|..]);
      var index := IndexOf(authorization, ":");
      if index > 0 then Some((authorization[..index], authorization[index + 1..])) else None
  }

  /** `s.trim().length() == 0` */
  predicate Blank(s: Str) {
    Trim(s) == ""
  }

  /** Some group of the user equals some authorized group once that is trimmed. */
  predicate SharesGroup(userGroups: seq<Str>, authorizedGroups: seq<Str>) {
    exists i, j :: 0 <= i < |userGroups| && 0 <= j < |authorizedGroups| && Trim(authorizedGroups[j]) == userGroups[i]
  }

  /** What `checkAuthorization` returns or throws. */
  function Authorize(authorizedGroups: Option<seq<Str>>, authMethodExists: bool, header: Option<Str>,
                     solutionName: Str, services: AuthServices): AuthResult
  {
    if authorizedGroups.None? && !authMethodExists then Allowed(VNull)
    else match Credentials(header, services.decodeBase64Utf8)
      case None => Refused(NotAuthenticated(solutionName))
      case Some((user, password)) =>
        if Blank(user) || Blank(password) then Refused(NotAuthenticated(solutionName))
        else if authMethodExists then
          var retval := services.authenticate(user, password);
          if retval == VNull || retval == VBool(false) || retval == VUndefined then Refused(NotAuthenticated(solutionName))
          else Allowed(if retval.VBool? then VNull else retval)
        else match services.checkPasswordForUserName(user, password)
          case None => Refused(NotAuthenticated(user))
          case Some(uid) =>
            match services.getUserGroups(uid)
            case Some(groups) =>
              if SharesGroup(groups, authorizedGroups.value) then Allowed(VNull)
              else Refused(NotAuthorized(NotAuthorizedMessage))
            case None => Refused(NotAuthorized(NotAuthorizedMessage))
  }

  /** The nested group scan, which returns at the first match. */
  method FindGroupMatch(userGroups: seq<Str>, authorizedGroups: seq<Str>) returns (found: bool)
    ensures found <==> SharesGroup(userGroups, authorizedGroups)
  {
    for i := 0 to |userGroups|
      invariant forall i', j :: 0 <= i' < i && 0 <= j < |authorizedGroups| ==> Trim(authorizedGroups[j]) != userGroups[i']
    {
      for j := 0 to |authorizedGroups|
        invariant forall j' :: 0 <= j' < j ==> Trim(authorizedGroups[j']) != userGroups[i]
      {
        if Trim(authorizedGroups[j]) == userGroups[i] {
          return true;
        }
      }
    }
    return false;
  }

  method CheckAuthorization(authorizedGroups: Option<seq<Str>>, authMethodExists: bool, header: Option<Str>,
                            solutionName: Str, services: AuthServices) returns (r: AuthResult)
    ensures r == Authorize(authorizedGroups, authMethodExists, header, solutionName, services)
  {
    if authorizedGroups.None? && !authMethodExists {
      return Allowed(VNull);
    }
    var user: Option<Str> := None;
    var password: Option<Str> := None;
    if header.Some? && StartsWith(ToLower(header.value), BasicScheme) {
      var authorization := services.decodeBase64Utf8(header.value[|BasicScheme|..]);
      var index := IndexOf(authorization, ":");
      if index > 0 {
        user := Some(authorization[..index]);
        password := Some(authorization[index + 1..]);
      }
    }
    if user.None? || password.None? || Blank(user.value) || Blank(password.value) {
      return Refused(NotAuthenticated(solutionName));
    }
    if authMethodExists {
      var retval := services.authenticate(user.value, password.value);
      if retval != VNull && retval != VBool(false) && retval != VUndefined {
        return Allowed(if retval.VBool? then VNull else retval);
      }
      return Refused(NotAuthenticated(solutionName));
    }
    var userUid := services.checkPasswordForUserName(user.value, password.value);
    if userUid.None? {
      return Refused(NotAuthenticated(user.value));
    }
    var userGroups := services.getUserGroups(userUid.value);
    if userGroups.Some? {
      var found := FindGroupMatch(userGroups.value, authorizedGroups.value);
      if found {
        return Allowed(VNull);
      }
    }
    return Refused(NotAuthorized(NotAuthorizedMessage));
  }

  /** With neither authorized groups nor `ws_authenticate`, every request passes. */
  lemma OpenWhenUnprotected(header: Option<Str>, solutionName: Str, services: AuthServices)
    ensures Authorize(None, false, header, solutionName, services) == Allowed(VNull)
  {
  }

  /** A protected form is only ever entered with non-blank Basic credentials. */
  lemma AccessNeedsCredentials(authorizedGroups: Option<seq<Str>>, authMethodExists: bool, header: Option<Str>,
                               solutionName: Str, services: AuthServices)
    requires authorizedGroups.Some? || authMethodExists
    requires Authorize(authorizedGroups, authMethodExists, header, solutionName, services).Allowed?
    ensures Credentials(header, services.decodeBase64Utf8).Some?
    ensures !Blank(Credentials(header, services.decodeBase64Utf8).value.0)
    ensures !Blank(Credentials(header, services.decodeBase64Utf8).value.1)
  {
  }

  /**
   * A header `<scheme><token>` whose scheme is "Basic " in any letter case and
   * whose token decodes to `user:password` (a user without ':') yields exactly
   * that user and password; the password may itself contain ':'.
   */
  lemma {:induction false} BasicCredentialsDecoded(scheme: Str, token: Str, user: Str, password: Str,
                                                   decodeBase64Utf8: Str -> Str)
    requires ToLower(scheme) == BasicScheme
    requires decodeBase64Utf8(token) == user + ":" + password
    requires user != "" && ':' !in user
    ensures Credentials(Some(scheme + token), decodeBase64Utf8) == Some((user, password))
  {
    var header := scheme + token;
    assert ToLower(header)[..|BasicScheme|] == ToLower(scheme);
    assert header[|BasicScheme|..] == token;
    var authorization := user + ":" + password;
    forall j | 0 <= j < |user|
      ensures !StartsWith(authorization[j..], ":")
    {
      assert authorization[j..][0] == user[j];
    }
    assert StartsWith(authorization[|user|..], ":");
    assert IndexOf(authorization, ":") == |user|;
    assert authorization[..|user|] == user;
    assert authorization[|user| + 1..] == password;
  }

  /**
   * When `ws_authenticate` exists it alone decides: access is refused exactly
   * for null, false and undefined, true grants with a null result, and every
   * other value is handed on as the authentication result.
   */
  lemma HookDecides(authorizedGroups: Option<seq<Str>>, header: Option<Str>, solutionName: Str,
                    services: AuthServices, user: Str, password: Str)
    requires Credentials(header, services.decodeBase64Utf8) == Some((user, password))
    requires !Blank(user) && !Blank(password)
    ensures var retval := services.authenticate(user, password);
            var r := Authorize(authorizedGroups, true, header, solutionName, services);
            && (r.Allowed? <==> retval !in {VNull, VBool(false), VUndefined})
            && (r.Refused? ==> r.failure == NotAuthenticated(solutionName))
            && (r.Allowed? ==> r.authResult == (if retval == VBool(true) then VNull else retval))
  {
  }

  /** The hook takes precedence: the directory is not consulted when it exists. */
  lemma HookIgnoresDirectory(authorizedGroups: Option<seq<Str>>, header: Option<Str>, solutionName: Str,
                             services: AuthServices, other: AuthServices)
    requires other.decodeBase64Utf8 == services.decodeBase64Utf8
    requires other.authenticate == services.authenticate
    ensures Authorize(authorizedGroups, true, header, solutionName, services)
         == Authorize(authorizedGroups, true, header, solutionName, other)
  {
  }

  /**
   * Without the hook, a user the directory knows is let in exactly when one of
   * their groups is an authorized group; unknown credentials are challenged
   * with the user name as realm.
   */
  lemma DirectoryDecides(authorizedGroups: seq<Str>, header: Option<Str>, solutionName: Str,
                         services: AuthServices, user: Str, password: Str)
    requires Credentials(header, services.decodeBase64Utf8) == Some((user, password))
    requires !Blank(user) && !Blank(password)
    ensures var r := Authorize(Some(authorizedGroups), false, header, solutionName, services);
            match services.checkPasswordForUserName(user, password)
            case None => r == Refused(NotAuthenticated(user))
            case Some(uid) =>
              (r.Allowed? <==> services.getUserGroups(uid).Some? && SharesGroup(services.getUserGroups(uid).value, authorizedGroups))
              && (r.Refused? ==> r.failure == NotAuthorized(NotAuthorizedMessage))
  {
  }
}
