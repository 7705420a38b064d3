/**
 * The decision part of `handleRouting`: from the location hash and the
 * authenticated user's role (if any) to the page that becomes active or the
 * redirect that is issued instead.
 */
module Routing {
  import opened Wrappers
  import opened Records

  /** Routes that need a signed-in user. */
  const ProtectedRoutes: set<string> := {"profile", "requests"}

  /** Routes that need a signed-in user whose role is Admin. */
  const AdminRoutes: set<string> := {"employees", "departments", "accounts"}

  /** The warning toast that accompanies a redirect. */
  datatype Notice = PleaseLogin | AdminAccessRequired

  /** Either the page (named by its route, `<route>-page` in the document) that becomes active, or the hash navigated to instead. */
  datatype Decision = Show(page: string) | Redirect(hash: string, notice: Notice)

  /** `(location.hash || '#/').substring(2)`: the hash without its `#/` prefix. */
  function RouteOf(hash: string): (route: string)
    ensures |hash| <= 2 ==> route == ""
    ensures |hash| > 2 ==> route == hash[2..]
  {
    var h := if hash == "" then "#/" else hash;
    if |h| <= 2 then "" else h[2..]
  }

  /**
   * The route guard. `session` is the role of the user `checkAuth` restored,
   * None when nobody is signed in; `pages` are the routes that have a page in
   * the document.
   */
  function Decide(route: string, session: Option<Role>, pages: set<string>): (d: Decision)
    // Guarded routes send an anonymous visitor to the login page, and a non-admin away from admin pages.
    ensures d == Redirect("#/login", PleaseLogin) <==> (route in ProtectedRoutes || route in AdminRoutes) && session.None?
    ensures d == Redirect("#/", AdminAccessRequired) <==> route in AdminRoutes && session == Some(User)
    // The guard issues no other redirect.
    ensures d.Redirect? ==> d == Redirect("#/login", PleaseLogin) || d == Redirect("#/", AdminAccessRequired)
    // A shown page exists, or is the home page that every miss falls back to.
    ensures d.Show? ==> d.page in pages || d.page == "home"
    // Safety: a guarded page is shown only to a user allowed to see it.
    ensures d.Show? && d.page in ProtectedRoutes ==> session.Some?
    ensures d.Show? && d.page in AdminRoutes ==> session == Some(Admin)
    // Liveness: an allowed route that has a page is shown; one without a page falls back to home.
    ensures (&& route != "" && route in pages
             && (route in ProtectedRoutes ==> session.Some?)
             && (route in AdminRoutes ==> session == Some(Admin)))
            ==> d == Show(route)
    ensures d.Show? && route !in pages ==> d == Show("home")
    // The empty route, `#/` or no hash at all, is the home page.
    ensures route == "" ==> d == Show("home")
  {
    if route in ProtectedRoutes && session.None? then Redirect("#/login", PleaseLogin)
    else if route in AdminRoutes && session.None? then Redirect("#/login", PleaseLogin)
    else if route in AdminRoutes && session.value != Admin then
      assert session.value == User;
      assert session == Some(User);
      Redirect("#/", AdminAccessRequired)
    else
      var page := if route == "" then "home" else route;
      if page in pages then Show(page) else Show("home")
  }

  /** A redirect always lands on a page that is shown without a further redirect. */
  lemma RedirectSettles(route: string, session: Option<Role>, pages: set<string>)
    requires Decide(route, session, pages).Redirect?
    ensures Decide(RouteOf(Decide(route, session, pages).hash), session, pages).Show?
  {
    var d := Decide(route, session, pages);
    assert RouteOf(d.hash) == "login" || RouteOf(d.hash) == "";
  }
}
