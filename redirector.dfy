/** The access-control middleware (the_library/middleware/redirector.py).
    Anonymous requests for non-public paths are redirected to the landing
    page, and the middleware remembers that it did so; the next authenticated
    request is then redirected once to the post-login page. Calls are taken
    one after another; the flag is shared by every request the instance
    serves. */
module Redirector {
  import opened Text

  datatype Request = Request(path: string, authenticated: bool)

  /** What a call returns: the wrapped handler's response (the request was
      passed on to `get_response`), or a redirect. */
  datatype Response = Forwarded | RedirectTo(location: string)

  /** The middleware's fixed configuration: the public paths and path
      prefixes, and the two redirect targets. */
  datatype Settings = Settings(
    publicUrls: seq<string>,
    publicUrlPrefixes: seq<string>,
    landingPageUrl: string,
    loginRedirectUrl: string)

  /** A path is public when it equals a public path or starts with a public prefix. */
  predicate IsPublicPath(s: Settings, path: string)
  {
    || (exists i | 0 <= i < |s.publicUrls| :: s.publicUrls[i] == path)
    || (exists i | 0 <= i < |s.publicUrlPrefixes| :: IsPrefix(s.publicUrlPrefixes[i], path))
  }

  /** One call, from the flag before it to the flag after it and the response. */
  function Step(s: Settings, loginPending: bool, r: Request): (bool, Response)
  {
    if !r.authenticated then
      if IsPublicPath(s, r.path) then (loginPending, Forwarded)
      else (true, RedirectTo(s.landingPageUrl))
    else if loginPending then (false, RedirectTo(s.loginRedirectUrl))
    else (false, Forwarded)
  }

  /** A sequence of calls on one instance: the final flag and every response. */
  function Run(s: Settings, loginPending: bool, trace: seq<Request>): (result: (bool, seq<Response>))
    ensures |result.1| == |trace|
  {
    if trace == [] then (loginPending, [])
    else
      var before := Run(s, loginPending, trace[..|trace| - 1]);
      var after := Step(s, before.0, trace[|trace| - 1]);
      (after.0, before.1 + [after.1])
  }

  /** An anonymous request for a non-public path: the one that gets turned away. */
  predicate Blocked(s: Settings, r: Request)
  {
    !r.authenticated && !IsPublicPath(s, r.path)
  }

  predicate NoAuthenticatedFrom(trace: seq<Request>, k: int)
  {
    forall j | 0 <= j < |trace| && k <= j :: !trace[j].authenticated
  }

  /** A post-login redirect is owed when some request was turned away and no
      authenticated request has come since, or when one was owed at the start
      and no authenticated request has come at all. */
  predicate LoginPending(s: Settings, pendingAtStart: bool, trace: seq<Request>)
  {
    || (exists i | 0 <= i < |trace| :: Blocked(s, trace[i]) && NoAuthenticatedFrom(trace, i + 1))
    || (pendingAtStart && NoAuthenticatedFrom(trace, 0))
  }

  /** The flag after a sequence of calls is exactly "a post-login redirect is owed". */
  lemma {:induction false} RunFlag(s: Settings, pendingAtStart: bool, trace: seq<Request>)
    ensures Run(s, pendingAtStart, trace).0 == LoginPending(s, pendingAtStart, trace)
  {
    if trace != [] {
      var n := |trace|;
      var prefix, last := trace[..n - 1], trace[n - 1];
      RunFlag(s, pendingAtStart, prefix);
      if last.authenticated {
        assert !NoAuthenticatedFrom(trace, 0);
        forall i | 0 <= i < n ensures !(Blocked(s, trace[i]) && NoAuthenticatedFrom(trace, i + 1)) {
          if i < n - 1 {
            assert !NoAuthenticatedFrom(trace, i + 1) by { assert trace[n - 1].authenticated; }
          }
        }
      } else if !IsPublicPath(s, last.path) {
        assert Blocked(s, trace[n - 1]) && NoAuthenticatedFrom(trace, n);
      } else {
        assert !Blocked(s, trace[n - 1]);
        forall k | 0 <= k <= n - 1 ensures NoAuthenticatedFrom(trace, k) == NoAuthenticatedFrom(prefix, k) {
          assert forall j | k <= j < n - 1 :: trace[j] == prefix[j];
        }
        assert (exists i | 0 <= i < n :: Blocked(s, trace[i]) && NoAuthenticatedFrom(trace, i + 1))
           == (exists i | 0 <= i < n - 1 :: Blocked(s, prefix[i]) && NoAuthenticatedFrom(prefix, i + 1));
      }
    }
  }

  /** The k-th response of a run is the response of one call made with the
      flag the first k calls left behind. */
  lemma {:induction false} RunResponse(s: Settings, pendingAtStart: bool, trace: seq<Request>, k: int)
    requires 0 <= k < |trace|
    ensures Run(s, pendingAtStart, trace).1[k] == Step(s, Run(s, pendingAtStart, trace[..k]).0, trace[k]).1
  {
    var n := |trace|;
    if k < n - 1 {
      var prefix := trace[..n - 1];
      RunResponse(s, pendingAtStart, prefix, k);
      assert prefix[..k] == trace[..k] && prefix[k] == trace[k];
    } else {
      assert trace[..k] == trace[..n - 1];
    }
  }

  /** An authenticated request is sent to the post-login page exactly when
      a post-login redirect is owed; otherwise it is passed on. */
  lemma AuthenticatedResponse(s: Settings, pendingAtStart: bool, trace: seq<Request>, k: int)
    requires 0 <= k < |trace| && trace[k].authenticated
    ensures Run(s, pendingAtStart, trace).1[k] ==
      if LoginPending(s, pendingAtStart, trace[..k]) then RedirectTo(s.loginRedirectUrl) else Forwarded
  {
    RunResponse(s, pendingAtStart, trace, k);
    RunFlag(s, pendingAtStart, trace[..k]);
  }

  /** Following the redirect an anonymous user receives does not redirect
      again: the landing page is public. */
  lemma LandingPageServed(s: Settings, loginPending: bool)
    requires s.landingPageUrl in s.publicUrls
    ensures Step(s, loginPending, Request(s.landingPageUrl, false)) == (loginPending, Forwarded)
  {
    var i :| 0 <= i < |s.publicUrls| && s.publicUrls[i] == s.landingPageUrl;
  }

  /** `RedirectUnauthenticatedMiddleware`. The constructor's arguments are
      what `reverse` and the settings module give: the landing page's path,
      the admin login path, `STATIC_URL`, and the `LOGIN_REDIRECT_URL` target. */
  class RedirectUnauthenticatedMiddleware {
    /** The private `__user_login_page` flag. */
    var userLoginPage: bool
    const publicUrls: seq<string>
    const publicUrlPrefixes: seq<string>
    const landingPageUrl: string
    const loginRedirectUrl: string

    function Config(): Settings
    {
      Settings(publicUrls, publicUrlPrefixes, landingPageUrl, loginRedirectUrl)
    }

    constructor (landingPageUrl: string, adminLoginUrl: string, staticUrl: string, loginRedirectUrl: string)
      ensures !userLoginPage
      ensures publicUrls == [landingPageUrl, adminLoginUrl] && publicUrlPrefixes == [staticUrl]
      ensures this.landingPageUrl == landingPageUrl && this.loginRedirectUrl == loginRedirectUrl
      ensures this.landingPageUrl in publicUrls
    {
      userLoginPage := false;
      publicUrls := [landingPageUrl, adminLoginUrl];
      publicUrlPrefixes := [staticUrl];
      this.landingPageUrl := landingPageUrl;
      this.loginRedirectUrl := loginRedirectUrl;
    }

    /** The two `any(...)` scans of `__call__`. */
    method IsPublic(path: string) returns (isPublic: bool)
      ensures isPublic == IsPublicPath(Config(), path)
    {
      var isPublicUrl := false;
      var i := 0;
      while i < |publicUrls| && !isPublicUrl
        invariant 0 <= i <= |publicUrls|
        invariant isPublicUrl <==> exists j | 0 <= j < i :: publicUrls[j] == path
      {
        isPublicUrl := publicUrls[i] == path;
        i := i + 1;
      }
      var isPublicPrefix := false;
      i := 0;
      while i < |publicUrlPrefixes| && !isPublicPrefix
        invariant 0 <= i <= |publicUrlPrefixes|
        invariant isPublicPrefix <==> exists j | 0 <= j < i :: IsPrefix(publicUrlPrefixes[j], path)
      {
        isPublicPrefix := IsPrefix(publicUrlPrefixes[i], path);
        i := i + 1;
      }
      isPublic := isPublicUrl || isPublicPrefix;
    }

    /** `__call__`. */
    method Call(request: Request) returns (response: Response)
      modifies this
      ensures (userLoginPage, response) == Step(Config(), old(userLoginPage), request)
      ensures !request.authenticated && !IsPublicPath(Config(), request.path) ==>
        response == RedirectTo(landingPageUrl) && userLoginPage
      ensures !request.authenticated && IsPublicPath(Config(), request.path) ==>
        response == Forwarded && userLoginPage == old(userLoginPage)
      ensures request.authenticated && old(userLoginPage) ==>
        response == RedirectTo(loginRedirectUrl) && !userLoginPage
      ensures request.authenticated && !old(userLoginPage) ==>
        response == Forwarded && !userLoginPage
    {
      if !request.authenticated {
        var isPublic := IsPublic(request.path);
        if !isPublic {
          userLoginPage := true;
          return RedirectTo(landingPageUrl);
        }
      } else if userLoginPage {
        userLoginPage := false;
        return RedirectTo(loginRedirectUrl);
      }
      response := Forwarded;
    }
  }
}
