/**
 * The request guard in front of the admin pages (src/proxy.ts): a decision
 * over the request's path and whether it carries a valid session token.
 */
module Proxy {
  import opened Text

  const AdminPrefix := "/admin"
  const LoginPath := "/admin/login"

  /** `NextResponse.redirect(…)` to a path with an optional `callbackUrl`, or `NextResponse.next()`. */
  datatype Decision =
    | RedirectToLogin(callbackUrl: string)
    | RedirectToAdmin
    | Pass

  /** `proxy(req)`; `hasToken` is whether `getToken` found a session. */
  function Decide(pathname: string, hasToken: bool): (r: Decision)
    ensures r.RedirectToLogin? <==> StartsWith(pathname, AdminPrefix) && pathname != LoginPath && !hasToken
    ensures r.RedirectToLogin? ==> r.callbackUrl == pathname
    ensures r.RedirectToAdmin? <==> pathname == LoginPath && hasToken
  {
    var isAdminRoute := StartsWith(pathname, AdminPrefix);
    var isLoginPage := pathname == LoginPath;
    if isAdminRoute && !isLoginPage && !hasToken then RedirectToLogin(pathname)
    else if isLoginPage && hasToken then RedirectToAdmin
    else Pass
  }

  /** Where a redirect sends the browser. */
  function Destination(d: Decision): string
    requires !d.Pass?
  {
    if d.RedirectToLogin? then LoginPath else AdminPrefix
  }

  /**
   * The requests that pass: any path with a token other than the login page,
   * the login page without one, and every path outside the admin area.
   */
  lemma PassCases(pathname: string, hasToken: bool)
    ensures Decide(pathname, hasToken).Pass? <==>
      (hasToken && pathname != LoginPath) || (!hasToken && pathname == LoginPath) || !StartsWith(pathname, AdminPrefix)
  {
    if pathname == LoginPath {
      assert StartsWith(pathname, AdminPrefix);
    }
  }

  /** Following a redirect, with the same token state, is never redirected again. */
  lemma RedirectSettles(pathname: string, hasToken: bool)
    requires !Decide(pathname, hasToken).Pass?
    ensures Decide(Destination(Decide(pathname, hasToken)), hasToken).Pass?
  {
    assert StartsWith(LoginPath, AdminPrefix);
    assert AdminPrefix != LoginPath;
  }
}
