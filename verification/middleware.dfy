/** The admin gate (middleware.ts): requests for the dashboard without a session
    cookie are sent to the login page. The cookie's value is never checked. */
module Middleware {
  import opened Wrappers
  import Text

  const GatedPrefix := "/admin/dashboard"
  const LoginPath := "/admin"
  const SessionCookie := "admin_session"

  datatype Outcome = Next | Redirect(location: string)

  /** `request.cookies.get("admin_session")?.value`. */
  function Session(cookies: map<string, string>): (v: Option<string>)
    ensures v.Some? <==> SessionCookie in cookies
    ensures v.Some? ==> v.value == cookies[SessionCookie]
  {
    if SessionCookie in cookies then Some(cookies[SessionCookie]) else None
  }

  /** The body of `middleware`: a prefix test on the path, then a truthiness
      test on the cookie. */
  function Gate(path: string, cookies: map<string, string>): (o: Outcome)
    ensures o == Redirect(LoginPath) <==>
              Text.StartsWith(path, GatedPrefix) &&
              (SessionCookie !in cookies || cookies[SessionCookie] == "")
    ensures o.Next? <==> !o.Redirect?
  {
    var session := Session(cookies);
    if Text.StartsWith(path, GatedPrefix) && (session.None? || session.value == "") then
      Redirect(LoginPath)
    else
      Next
  }

  /** `config.matcher` `/admin/dashboard/:path*`: the dashboard itself or any
      path below it. */
  predicate Matched(path: string) {
    path == GatedPrefix || Text.StartsWith(path, GatedPrefix + "/")
  }

  /** What a request meets: the gate runs only on matched paths. */
  function Handle(path: string, cookies: map<string, string>): (o: Outcome)
    ensures Matched(path) ==> o == Gate(path, cookies)
    ensures !Matched(path) ==> o == Next
  {
    if Matched(path) then Gate(path, cookies) else Next
  }

  /** Every matched path falls under the gate's prefix test, so on matched
      paths the redirect depends only on the cookie. */
  lemma MatchedIsGated(path: string, cookies: map<string, string>)
    requires Matched(path)
    ensures Text.StartsWith(path, GatedPrefix)
    ensures Handle(path, cookies).Redirect? <==>
              SessionCookie !in cookies || cookies[SessionCookie] == ""
  {
    if path != GatedPrefix {
      assert path[..|GatedPrefix|] == (GatedPrefix + "/")[..|GatedPrefix|];
    }
  }

  /** Any non-empty cookie value is let through, whatever it is. */
  lemma AnySessionPasses(path: string, cookies: map<string, string>)
    requires SessionCookie in cookies && cookies[SessionCookie] != ""
    ensures Handle(path, cookies) == Next
  {
  }

  /** The gate is a prefix test: the login page is never gated, but
      "/admin/dashboardX" is, although the matcher never sends it there. */
  lemma PrefixGate()
    ensures Gate("/admin", map[]) == Next
    ensures Gate("/admin/dashboardX", map[]) == Redirect(LoginPath)
    ensures !Matched("/admin/dashboardX") && Handle("/admin/dashboardX", map[]) == Next
    ensures Handle("/admin/dashboard/settings", map[]) == Redirect(LoginPath)
  {
    assert "/admin/dashboardX"[..|GatedPrefix|] == GatedPrefix;
    assert "/admin/dashboardX"[16] != (GatedPrefix + "/")[16];
    assert "/admin/dashboard/settings"[..|GatedPrefix + "/"|] == GatedPrefix + "/";
    assert "/admin/dashboard/settings"[..|GatedPrefix|] == GatedPrefix;
  }
}
