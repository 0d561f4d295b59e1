/** The access gate of middleware.ts: a stateless classification of one
    request, given its pathname and the value of the
    `better-auth.session_token` cookie (`None` when the cookie is absent),
    into "pass through", "redirect to sign-in" or "redirect home". The
    `config.matcher` pattern decides which requests reach the gate at all. */
module Middleware {
  import opened Wrappers

  /** The gate's answer. `RedirectToSignIn(callbackUrl)` stands for the URL
      `/sign-in?callbackUrl=<callbackUrl>` resolved against the request URL. */
  datatype Decision = Next | RedirectToSignIn(callbackUrl: string) | RedirectHome

  const SignIn: string := "/sign-in"
  const SignUp: string := "/sign-up"
  const Home: string := "/"

  /** The route prefixes that need no session. */
  const PublicRoutes: seq<string> := [SignIn, SignUp, "/api/auth"]

  /** `publicRoutes.some(route => pathname.startsWith(route))`. */
  predicate IsPublicRoute(pathname: string) {
    exists i :: 0 <= i < |PublicRoutes| && PublicRoutes[i] <= pathname
  }

  /** JavaScript truthiness of the cookie value: absent and `""` are falsy. */
  predicate HasSession(sessionToken: Option<string>) {
    sessionToken.Some? && sessionToken.value != ""
  }

  /** The pages an authenticated user is sent away from (exact match). */
  predicate IsAuthPage(pathname: string) {
    pathname == SignIn || pathname == SignUp
  }

  /** `middleware(request)`. */
  function Gate(pathname: string, sessionToken: Option<string>): Decision {
    if !IsPublicRoute(pathname) && !HasSession(sessionToken) then
      RedirectToSignIn(pathname)
    else if HasSession(sessionToken) && IsAuthPage(pathname) then
      RedirectHome
    else
      Next
  }

  /** The destination a redirect sends the browser to. */
  function Target(d: Decision): string
    requires !d.Next?
  {
    if d.RedirectToSignIn? then SignIn else Home
  }

  // ---------------------------------------------------------------------
  // The decision table
  // ---------------------------------------------------------------------

  /** A pathname that starts with a public prefix is never sent to sign-in,
      whatever the session. */
  lemma PublicNeverSentToSignIn(pathname: string, sessionToken: Option<string>)
    requires IsPublicRoute(pathname)
    ensures !Gate(pathname, sessionToken).RedirectToSignIn?
  {
  }

  /** Without a session (no cookie, or an empty one), a non-public pathname
      is sent to sign-in with the pathname as its callback. */
  lemma UnauthenticatedSentToSignIn(pathname: string, sessionToken: Option<string>)
    requires !IsPublicRoute(pathname)
    requires sessionToken.None? || sessionToken == Some("")
    ensures Gate(pathname, sessionToken) == RedirectToSignIn(pathname)
  {
  }

  /** With a session, exactly `/sign-in` and `/sign-up` redirect home. */
  lemma AuthenticatedOnAuthPageSentHome(pathname: string, token: string)
    requires token != ""
    ensures Gate(pathname, Some(token)) == RedirectHome <==> pathname == SignIn || pathname == SignUp
  {
  }

  /** With a session, every other pathname passes, including the prefix
      variants of the auth pages such as `/sign-in/x`. */
  lemma AuthenticatedOtherwisePasses(pathname: string, token: string)
    requires token != "" && pathname != SignIn && pathname != SignUp
    ensures Gate(pathname, Some(token)) == Next
  {
  }

  /** `/sign-in/x` is public, so an authenticated request for it passes. */
  lemma SignInPrefixVariantPasses(token: string)
    requires token != ""
    ensures Gate("/sign-in/x", Some(token)) == Next
    ensures Gate("/sign-in/x", None) == Next
  {
    assert PublicRoutes[0] <= "/sign-in/x";
  }

  /** The whole table: the gate passes the request exactly when the route is
      public or there is a session, and it is not an authenticated request
      for an auth page. */
  lemma GateDecisionTable(pathname: string, sessionToken: Option<string>)
    ensures Gate(pathname, sessionToken) == Next <==>
      (IsPublicRoute(pathname) || HasSession(sessionToken)) && !(HasSession(sessionToken) && IsAuthPage(pathname))
    ensures Gate(pathname, sessionToken).RedirectToSignIn? <==>
      !IsPublicRoute(pathname) && !HasSession(sessionToken)
    ensures Gate(pathname, sessionToken).RedirectToSignIn? ==> Gate(pathname, sessionToken).callbackUrl == pathname
    ensures Gate(pathname, sessionToken) == RedirectHome <==> HasSession(sessionToken) && IsAuthPage(pathname)
  {
  }

  /** Only whether a session token is present matters, not its value. */
  lemma OnlyPresenceMatters(pathname: string, a: Option<string>, b: Option<string>)
    requires HasSession(a) == HasSession(b)
    ensures Gate(pathname, a) == Gate(pathname, b)
  {
  }

  /** Following a redirect with the same cookie never redirects again. The
      follow-up request passes through the matcher too: both targets are
      selected, the sign-in page is public for an unauthenticated caller, and
      home passes for an authenticated one. */
  lemma NoRedirectLoop(pathname: string, sessionToken: Option<string>)
    requires !Handle(pathname, sessionToken).Next?
    ensures MatcherSelects(Target(Handle(pathname, sessionToken)))
    ensures Handle(Target(Handle(pathname, sessionToken)), sessionToken) == Next
  {
    assert PublicRoutes[0] <= SignIn;
    var d := Handle(pathname, sessionToken);
    if d.RedirectHome? {
      assert !IsPublicRoute(Home) by {
        forall i | 0 <= i < |PublicRoutes| ensures !(PublicRoutes[i] <= Home) {
          assert |PublicRoutes[i]| > 1;
        }
      }
    }
  }

  /** Prefix matching is not segment-aware: `/sign-inbox` counts as public. */
  lemma PublicPrefixIsNotSegmentAware()
    ensures IsPublicRoute("/sign-inbox")
    ensures Gate("/sign-inbox", None) == Next
  {
    assert PublicRoutes[0] <= "/sign-inbox";
  }

  // ---------------------------------------------------------------------
  // The matcher: which requests reach the gate
  // ---------------------------------------------------------------------

  /** `s` at `i` matches the regular-expression text `pat`, where `.` in
      `pat` stands for any character. */
  predicate MatchesAt(s: string, i: nat, pat: string) {
    i + |pat| <= |s| && forall k :: 0 <= k < |pat| ==> pat[k] == '.' || s[i + k] == pat[k]
  }

  /** The alternatives of the negative lookahead, as regular-expression text. */
  const ExcludedPatterns: seq<string> := ["_next/static", "_next/image", "favicon.ico"]

  /** `"/((?!_next/static|_next/image|favicon.ico).*)"`: the pathname is `/`
      followed by a remainder that no excluded alternative matches at its
      start. */
  predicate MatcherSelects(pathname: string) {
    && |pathname| >= 1 && pathname[0] == '/'
    && forall j :: 0 <= j < |ExcludedPatterns| ==> !MatchesAt(pathname, 1, ExcludedPatterns[j])
  }

  /** The request as it is answered: the gate runs only where the matcher
      selects the path; elsewhere it passes untouched. */
  function Handle(pathname: string, sessionToken: Option<string>): Decision {
    if MatcherSelects(pathname) then Gate(pathname, sessionToken) else Next
  }

  /** A path whose remainder after `/` begins with `_next/static`,
      `_next/image` or `favicon.ico` is never processed by the gate. */
  lemma ExcludedPathsPass(rest: string, sessionToken: Option<string>)
    requires "_next/static" <= rest || "_next/image" <= rest || "favicon.ico" <= rest
    ensures !MatcherSelects("/" + rest)
    ensures Handle("/" + rest, sessionToken) == Next
  {
    var p := "/" + rest;
    if "_next/static" <= rest {
      assert MatchesAt(p, 1, ExcludedPatterns[0]) by {
        forall k | 0 <= k < 12 ensures p[1 + k] == ExcludedPatterns[0][k] {
          assert p[1 + k] == rest[k];
        }
      }
    } else if "_next/image" <= rest {
      assert MatchesAt(p, 1, ExcludedPatterns[1]) by {
        forall k | 0 <= k < 11 ensures p[1 + k] == ExcludedPatterns[1][k] {
          assert p[1 + k] == rest[k];
        }
      }
    } else {
      assert MatchesAt(p, 1, ExcludedPatterns[2]) by {
        forall k | 0 <= k < 11 ensures p[1 + k] == ExcludedPatterns[2][k] {
          assert p[1 + k] == rest[k];
        }
      }
    }
  }

  /** The `.` of `favicon.ico` is a regular-expression wildcard: every
      remainder that begins with `favicon`, any one character and `ico`
      (such as `favicon-ico`) is excluded from the gate as well. */
  lemma FaviconDotIsWildcard(rest: string, sessionToken: Option<string>)
    requires |rest| >= 11 && rest[..7] == "favicon" && rest[8..11] == "ico"
    ensures !MatcherSelects("/" + rest)
    ensures Handle("/" + rest, sessionToken) == Next
  {
    var p := "/" + rest;
    assert MatchesAt(p, 1, ExcludedPatterns[2]) by {
      forall k | 0 <= k < 11 ensures ExcludedPatterns[2][k] == '.' || p[1 + k] == ExcludedPatterns[2][k] {
        assert p[1 + k] == rest[k];
        if k < 7 {
          assert rest[k] == rest[..7][k];
        } else if k > 7 {
          assert rest[k] == rest[8..11][k - 8];
        }
      }
    }
  }

  /** Ordinary pages do reach the gate: `/` with no session goes to sign-in. */
  lemma HomeWithoutSessionIsGated()
    ensures MatcherSelects(Home)
    ensures Handle(Home, None) == RedirectToSignIn(Home)
  {
  }
}
