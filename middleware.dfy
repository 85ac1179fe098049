/**
 * The request gate run before every page: logged-in users are kept away from
 * the login page, public paths pass, anonymous users are sent to the login
 * page, and a logged-in user's token is checked against the backend.
 *
 * The backend check (a fetch of `/api/nodes` with the token) is an input: its
 * outcome is either the HTTP status it answered with or a network error.
 * Deleting the cookie is folded into the decision.
 */
module Middleware {
  import opened JsText

  /** What the auth probe produced: a response status, or an exception from fetch. */
  datatype ProbeOutcome = Status(code: int) | NetworkError

  /** What the middleware does with the request. */
  datatype Decision =
    | Next                                   // `next()`: serve the page
    | Redirect(location: string)             // `context.redirect(location)`
    | DeleteCookieAndRedirect(location: string) // delete `authToken` on path "/", then redirect

  const LoginPath: string := "/login"
  const ApiUnavailable: string := "/login?error=api_unavailable"

  /** The login page, by prefix: "/loginx" counts too. */
  predicate IsLoginPath(pathname: string) {
    StartsWith(pathname, LoginPath)
  }

  /** Paths served without an auth check: the login pages, the API and anything with a dot in it. */
  predicate IsPublicPath(pathname: string) {
    IsLoginPath(pathname) || StartsWith(pathname, "/api/") || Includes(pathname, '.')
  }

  /** Whether the middleware asks the backend about the token at all. */
  predicate NeedsProbe(pathname: string, hasToken: bool) {
    hasToken && !IsPublicPath(pathname)
  }

  /** `onRequest`: the chain of guarded early returns, in source order. */
  function OnRequest(pathname: string, hasToken: bool, probe: ProbeOutcome): (d: Decision)
    ensures IsLoginPath(pathname) && hasToken ==> d == Redirect("/")
    ensures d == Next <==>
              || (IsPublicPath(pathname) && !(IsLoginPath(pathname) && hasToken))
              || (NeedsProbe(pathname, hasToken) && probe.Status? && probe.code != 401)
    ensures d == Redirect(LoginPath) <==> !hasToken && !IsPublicPath(pathname)
    ensures d.DeleteCookieAndRedirect? <==> NeedsProbe(pathname, hasToken) && probe == Status(401)
    ensures d.DeleteCookieAndRedirect? ==> d.location == LoginPath
    ensures d == Redirect(ApiUnavailable) <==> NeedsProbe(pathname, hasToken) && probe.NetworkError?
  {
    if IsLoginPath(pathname) && hasToken then Redirect("/")
    else if IsPublicPath(pathname) then Next
    else if !hasToken then Redirect(LoginPath)
    else
      match probe
      case Status(code) => if code == 401 then DeleteCookieAndRedirect(LoginPath) else Next
      case NetworkError => Redirect(ApiUnavailable)
  }

  // ---------------------------------------------------------------------------
  // Properties

  /** When no probe is made, its outcome cannot matter. */
  lemma NoProbeNoDependence(pathname: string, hasToken: bool, p1: ProbeOutcome, p2: ProbeOutcome)
    requires !NeedsProbe(pathname, hasToken)
    ensures OnRequest(pathname, hasToken, p1) == OnRequest(pathname, hasToken, p2)
  {
  }

  /** The cookie is deleted only after the backend rejected the token. */
  lemma CookieDeletedOnlyOn401(pathname: string, hasToken: bool, probe: ProbeOutcome)
    requires OnRequest(pathname, hasToken, probe).DeleteCookieAndRedirect?
    ensures hasToken && probe == Status(401)
  {
  }

  /** Every status other than 401, errors included, serves the page. */
  lemma OtherStatusesPass(pathname: string, code: int)
    requires !IsPublicPath(pathname) && code != 401
    ensures OnRequest(pathname, true, Status(code)) == Next
  {
  }

  /** The checks are prefix and substring checks, not path-segment checks. */
  lemma PrefixAndDotExamples(probe: ProbeOutcome)
    ensures OnRequest("/loginx", true, probe) == Redirect("/")
    ensures OnRequest("/loginx", false, probe) == Next
    ensures OnRequest("/login.png", true, probe) == Redirect("/")
    ensures OnRequest("/reports/v1.2", false, probe) == Next
    ensures OnRequest("/api", false, probe) == Redirect(LoginPath)
    ensures OnRequest("/api/nodes", false, probe) == Next
  {
    assert StartsWith("/loginx", LoginPath) by {
      assert "/loginx"[..|LoginPath|] == LoginPath;
    }
    assert StartsWith("/login.png", LoginPath) by {
      assert "/login.png"[..|LoginPath|] == LoginPath;
    }
    assert Includes("/reports/v1.2", '.') by {
      assert "/reports/v1.2"[11] == '.';
    }
    assert !IsPublicPath("/api") by {
      assert !StartsWith("/api", "/api/");
      assert !StartsWith("/api", LoginPath) by {
        assert "/api"[1] != LoginPath[1];
      }
    }
    assert StartsWith("/api/nodes", "/api/") by {
      assert "/api/nodes"[..5] == "/api/";
    }
  }
}
