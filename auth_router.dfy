/**
 * The sub-router for the `/api/auth/` paths of api/auth/index.ts: the request URL loses its
 * query string and one trailing slash, and the resulting path is matched
 * exactly against nine routes; anything else is a 404 that echoes the path.
 */
module AuthRouter {
  import opened Wrappers
  import opened Listing

  /** The nine authentication handlers. */
  datatype Handler =
    | Login | Google | LoginGoogle | Verify | EnsureUser
    | Register | SendOtp | VerifyOtp | ResetPassword

  /** The path each handler is mounted at. */
  function PathOf(h: Handler): string {
    match h
    case Login => "/api/auth/login"
    case Google => "/api/auth/google"
    case LoginGoogle => "/api/auth/login-google"
    case Verify => "/api/auth/verify"
    case EnsureUser => "/api/auth/ensure-user"
    case Register => "/api/auth/register"
    case SendOtp => "/api/auth/send-otp"
    case VerifyOtp => "/api/auth/verify-otp"
    case ResetPassword => "/api/auth/reset-password"
  }

  /** What the router does with a request: hand it to a handler, or answer 404 "Route not found" with the path. */
  datatype Response = Dispatch(handler: Handler) | NotFound(path: string)

  /** `url.split("?")[0]` on `req.url || ""`: the part of the URL before its first '?'. */
  function RoutedPath(url: Option<string>): (p: string)
    ensures url.None? ==> p == ""
    ensures url.Some? ==> p <= url.value && '?' !in p
    ensures url.Some? && |p| < |url.value| ==> url.value[|p|] == '?'
  {
    var u := url.GetOr("");
    FirstPiece(u, '?');
    Split(u, '?')[0]
  }

  /** The first piece of a split is the prefix before the first separator. */
  lemma {:induction false} FirstPiece(s: string, sep: char)
    ensures Split(s, sep)[0] <= s
    ensures |Split(s, sep)[0]| < |s| ==> s[|Split(s, sep)[0]|] == sep
  {
    if s != [] && s[0] != sep {
      FirstPiece(s[1..], sep);
      assert s == [s[0]] + s[1..];
    }
  }

  /** `path.endsWith("/") && path !== "/" ? path.slice(0, -1) : path`. */
  function Normalize(path: string): (r: string)
    ensures path == "/" ==> r == "/"
    ensures r == path || r + "/" == path
    ensures r != path <==> path != "/" && |path| > 0 && path[|path| - 1] == '/'
  {
    if |path| > 0 && path[|path| - 1] == '/' && path != "/" then path[..|path| - 1] else path
  }

  /** The exact-match route table, tried in order. */
  function HandlerFor(path: string): (h: Option<Handler>)
    ensures h.Some? ==> PathOf(h.value) == path
    ensures h.None? ==> forall g :: PathOf(g) != path
  {
    if path == "/api/auth/login" then Some(Login)
    else if path == "/api/auth/google" then Some(Google)
    else if path == "/api/auth/login-google" then Some(LoginGoogle)
    else if path == "/api/auth/verify" then Some(Verify)
    else if path == "/api/auth/ensure-user" then Some(EnsureUser)
    else if path == "/api/auth/register" then Some(Register)
    else if path == "/api/auth/send-otp" then Some(SendOtp)
    else if path == "/api/auth/verify-otp" then Some(VerifyOtp)
    else if path == "/api/auth/reset-password" then Some(ResetPassword)
    else None
  }

  /** The handler of api/auth/index.ts: it dispatches on the normalised path, and a 404 echoes a path no route has. */
  function Route(url: Option<string>): (r: Response)
    ensures r.Dispatch? ==> PathOf(r.handler) == Normalize(RoutedPath(url))
    ensures r.NotFound? ==> r.path == Normalize(RoutedPath(url)) && forall g :: PathOf(g) != r.path
  {
    var path := Normalize(RoutedPath(url));
    match HandlerFor(path)
    case Some(h) => Dispatch(h)
    case None => NotFound(path)
  }

  /** No two handlers share a path, so at most one route can match. */
  lemma PathsDistinct(h: Handler, g: Handler)
    ensures PathOf(h) == PathOf(g) <==> h == g
  {
    if h != g {
      assert HandlerFor(PathOf(h)) == Some(h);
    }
  }

  /** A request reaches handler `h` exactly when its normalised path is `h`'s path; anything else echoes that path in a 404. */
  lemma RouteExactly(url: Option<string>, h: Handler)
    ensures Route(url) == Dispatch(h) <==> Normalize(RoutedPath(url)) == PathOf(h)
    ensures Route(url).NotFound? <==> forall g :: PathOf(g) != Normalize(RoutedPath(url))
    ensures Route(url).NotFound? ==> Route(url).path == Normalize(RoutedPath(url))
  {
    var path := Normalize(RoutedPath(url));
    if path == PathOf(h) {
      PathsDistinct(h, HandlerFor(path).value);
    }
  }

  /** Every route path is longer than "/", holds no '?' and does not end in '/'. */
  lemma PathShape(h: Handler)
    ensures |PathOf(h)| > 1 && '?' !in PathOf(h) && PathOf(h)[|PathOf(h)| - 1] != '/'
  {
  }

  /** The normalised path of a route's own URL, with or without a query string and one trailing slash. */
  lemma NormalizedForms(p: string, query: string)
    requires |p| > 1 && '?' !in p && p[|p| - 1] != '/'
    ensures Normalize(RoutedPath(Some(p))) == p
    ensures Normalize(RoutedPath(Some(p + "?" + query))) == p
    ensures Normalize(RoutedPath(Some(p + "/"))) == p
    ensures Normalize(RoutedPath(Some(p + "/?" + query))) == p
  {
    FirstPieceOf(p, "");
    assert p + "" == p;
    FirstPieceOf(p, "?" + query);
    assert p + "?" + query == p + ("?" + query);
    var slashed := p + "/";
    assert '?' !in slashed;
    assert slashed[..|p|] == p;
    FirstPieceOf(slashed, "");
    assert slashed + "" == slashed;
    FirstPieceOf(slashed, "?" + query);
    assert p + "/?" + query == slashed + ("?" + query);
  }

  /** A route's own path reaches its handler, also with a query string and with one trailing slash. */
  lemma QueryAndSlashIgnored(h: Handler, query: string)
    ensures Route(Some(PathOf(h))) == Dispatch(h)
    ensures Route(Some(PathOf(h) + "?" + query)) == Dispatch(h)
    ensures Route(Some(PathOf(h) + "/")) == Dispatch(h)
    ensures Route(Some(PathOf(h) + "/?" + query)) == Dispatch(h)
  {
    PathShape(h);
    NormalizedForms(PathOf(h), query);
    RouteExactly(Some(PathOf(h)), h);
    RouteExactly(Some(PathOf(h) + "?" + query), h);
    RouteExactly(Some(PathOf(h) + "/"), h);
    RouteExactly(Some(PathOf(h) + "/?" + query), h);
  }

  /** Only one trailing slash is removed: a route with two of them is not found, and the 404 shows one. */
  lemma DoubleSlashNotFound(h: Handler)
    ensures Route(Some(PathOf(h) + "//")) == NotFound(PathOf(h) + "/")
  {
    var p := PathOf(h);
    PathShape(h);
    var u := p + "//";
    assert '?' !in u;
    FirstPieceOf(u, "");
    assert u + "" == u;
    assert u[..|u| - 1] == p + "/";
    forall g
      ensures PathOf(g) != p + "/"
    {
      PathShape(g);
    }
  }

  /** Splitting `a + b` where `a` has no '?' and `b` is empty or starts with '?' gives `a` as the first piece. */
  lemma FirstPieceOf(a: string, b: string)
    requires '?' !in a
    requires b == [] || b[0] == '?'
    ensures Split(a + b, '?')[0] == a
  {
    var s := a + b;
    FirstPiece(s, '?');
    var p := Split(s, '?')[0];
    assert '?' !in p;
    if |p| == |a| {
      assert p == s[..|a|] == a;
    }
  }
}
