/** The server's access control and request checks: the routes registered
    before the authentication middleware, the middleware's decision for every
    other request, the password check of `POST /api/login`, and the validation
    of a `POST /api/process-stream` body. */
module ServerAuth {
  import opened Text
  import opened Json

  predicate EndsWith(s: string, suffix: string) {
    |suffix| <= |s| && s[|s| - |suffix|..] == suffix
  }

  /** What the authentication middleware does with a request. */
  datatype Decision = Proceed | RedirectToLogin | NotAuthenticated

  /** The middleware: an authenticated session always passes; otherwise the home
      page and `.html` pages redirect to the login page, `/api/` paths are
      refused, and everything else (stylesheets, scripts) passes. */
  function AuthDecision(authenticated: bool, path: string): (d: Decision)
    ensures authenticated ==> d == Proceed
    ensures d == RedirectToLogin <==> !authenticated && (path == "/" || EndsWith(path, ".html"))
    ensures d == NotAuthenticated ==> !authenticated && "/api/" <= path
  {
    if authenticated then Proceed
    else if path == "/" || EndsWith(path, ".html") then RedirectToLogin
    else if "/api/" <= path then NotAuthenticated
    else Proceed
  }

  /** An unauthenticated request never reaches an API handler, a page, or the home page. */
  lemma UnauthenticatedStopped(path: string)
    requires "/api/" <= path || path == "/" || EndsWith(path, ".html")
    ensures AuthDecision(false, path) != Proceed
  {
  }

  /** The page rule comes first: an `/api/` path ending in `.html` is redirected, not refused. */
  lemma PageRuleFirst(path: string)
    requires "/api/" <= path && EndsWith(path, ".html")
    ensures AuthDecision(false, path) == RedirectToLogin
  {
  }

  datatype Verb = Get | Post

  /** Where a request ends up. */
  datatype Handler =
    | LoginPage                  // `GET /login`
    | LoginApi                   // `POST /api/login`
    | LogoutApi                  // `POST /api/logout`
    | Stopped(decision: Decision)  // answered by the middleware
    | Application                // static files and the other API routes

  /** How the router matches a registered route by default: case is ignored
      (for ASCII letters) and one trailing slash is allowed. */
  predicate RouteMatches(path: string, route: string) {
    Lower(path) == route || Lower(path) == route + "/"
  }

  /** Routes registered before the middleware are matched first, then the
      middleware decides on the path as it stands. */
  function Route(verb: Verb, path: string, authenticated: bool): (h: Handler)
    ensures h.Stopped? ==> h.decision != Proceed
    ensures h == Application ==> AuthDecision(authenticated, path) == Proceed
  {
    if verb == Get && RouteMatches(path, "/login") then LoginPage
    else if verb == Post && RouteMatches(path, "/api/login") then LoginApi
    else if verb == Post && RouteMatches(path, "/api/logout") then LogoutApi
    else match AuthDecision(authenticated, path)
      case Proceed => Application
      case d => Stopped(d)
  }

  /** Logging in and out is possible without a session. */
  lemma LoginReachable(authenticated: bool)
    ensures Route(Get, "/login", authenticated) == LoginPage
    ensures Route(Post, "/api/login", authenticated) == LoginApi
    ensures Route(Post, "/api/logout", authenticated) == LogoutApi
  {
    assert Lower("/login") == "/login";
    assert Lower("/api/login") == "/api/login";
    assert Lower("/api/logout") == "/api/logout" && "/api/logout"[8] != "/api/login/"[8];
  }

  /** The login routes are also reached with another capitalisation or a trailing slash. */
  lemma RouteVariants(authenticated: bool)
    ensures Route(Get, "/LOGIN", authenticated) == LoginPage
    ensures Route(Post, "/api/login/", authenticated) == LoginApi
    ensures Route(Post, "/API/Logout/", authenticated) == LogoutApi
  {
    assert Lower("/LOGIN") == "/login";
    assert Lower("/api/login/") == "/api/login/";
    assert Lower("/API/Logout/") == "/api/logout/";
  }

  /** Without a session, an `/api/` request is stopped exactly when it is not
      a `POST` to the login or logout route. */
  lemma ApiNeedsSession(verb: Verb, path: string)
    requires "/api/" <= path
    ensures Route(verb, path, false).Stopped? <==>
              !(verb == Post && (RouteMatches(path, "/api/login") || RouteMatches(path, "/api/logout")))
  {
    assert !RouteMatches(path, "/login") by {
      assert Lower(path)[1] == 'a';
    }
  }

  /** `process.env.APP_PASSWORD || 'editorial'`: an unset or empty variable
      falls back to the default. */
  function CorrectPassword(appPassword: Option<string>): (p: string)
    ensures p != ""
    ensures appPassword.Some? && appPassword.value != "" ==> p == appPassword.value
  {
    match appPassword
    case Some(p) => if p == "" then "editorial" else p
    case None => "editorial"
  }

  /** `password === correctPassword`: only a string equal to the password is
      accepted; `None` stands for a missing or non-string field. */
  predicate PasswordAccepted(password: Option<string>, appPassword: Option<string>) {
    password == Some(CorrectPassword(appPassword))
  }

  /** Without a configured password, exactly `editorial` is accepted, and an
      empty password is never accepted. */
  lemma DefaultPassword(password: Option<string>, appPassword: Option<string>)
    requires appPassword.None? || appPassword == Some("")
    ensures PasswordAccepted(password, appPassword) <==> password == Some("editorial")
    ensures !PasswordAccepted(Some(""), appPassword)
  {
  }

  /** A JSON response with its status code. */
  datatype Reply = Reply(status: nat, body: Json)

  const SuccessBody := JObj([("success", JBool(true))])

  /** The cookie session. */
  class Session {
    var authenticated: bool

    constructor ()
      ensures !authenticated
    {
      authenticated := false;
    }

    /** `POST /api/login`: a correct password marks the session as
        authenticated; a wrong one is answered with 401 and changes nothing. */
    method Login(password: Option<string>, appPassword: Option<string>) returns (reply: Reply)
      modifies this
      ensures PasswordAccepted(password, appPassword) ==> authenticated && reply == Reply(200, SuccessBody)
      ensures !PasswordAccepted(password, appPassword) ==>
                authenticated == old(authenticated) && reply == Reply(401, JObj([("error", JStr("Incorrect password"))]))
    {
      var correct := CorrectPassword(appPassword);
      if password == Some(correct) {
        authenticated := true;
        reply := Reply(200, SuccessBody);
      } else {
        reply := Reply(401, JObj([("error", JStr("Incorrect password"))]));
      }
    }

    /** `POST /api/logout` drops the session. */
    method Logout() returns (reply: Reply)
      modifies this
      ensures !authenticated && reply == Reply(200, SuccessBody)
    {
      authenticated := false;
      reply := Reply(200, SuccessBody);
    }
  }

  /** Why `POST /api/process-stream` answers 400. */
  datatype ProcessError = MissingText | MissingTask

  /** The `error` text of the 400 reply. */
  function ErrorText(e: ProcessError): string {
    match e
    case MissingText => "Article text is required"
    case MissingTask => "Select at least one task"
  }

  /** `tasks` is an object whose values are judged by truthiness. */
  predicate SomeTask(tasks: map<string, bool>) {
    exists k :: k in tasks && tasks[k]
  }

  /** The two checks of `POST /api/process-stream`, in order: the reason for
      the 400 reply, or `None` when the request is accepted and events start. */
  function ValidateProcess(text: Option<string>, tasks: Option<map<string, bool>>): (error: Option<ProcessError>)
    ensures error.None? <==> text.Some? && Trim(text.value) != "" && tasks.Some? && SomeTask(tasks.value)
    ensures error == Some(MissingText) <==> text.None? || Trim(text.value) == ""
  {
    if text.None? || Trim(text.value) == "" then Some(MissingText)
    else if tasks.None? || !SomeTask(tasks.value) then Some(MissingTask)
    else None
  }
}
