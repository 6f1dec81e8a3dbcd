/** Trailing slashes around the router (vyuh/src/slash.rs). Paths are absolute; the router's path matching is a
    parameter. */
module Slash {
  import opened Wrappers

  datatype Uri = Uri(path: string, query: Option<string>)

  datatype Mode = Redirecting | Rejecting | Open

  /** A declared route; `trim` is its option to accept the slashful form as well. */
  datatype Route = Route(path: string, trim: bool)

  datatype Response = Served(seen: Uri) | Missed | Rejected | Redirect(target: Uri)

  /** Whether the router's stored path matches a request path. */
  type Matcher = (string, string) -> bool

  predicate HasSlash(path: string) {
    path != "/" && path != "" && path[|path| - 1] == '/'
  }

  function InternalPath(path: string): string {
    if path == "/" then path
    else if path != "" && path[|path| - 1] == '/' then path[..|path| - 1]
    else path
  }

  /** One trailing slash is taken off, and only one; every other path is its own stored form. */
  lemma OneSlashGoes(path: string)
    ensures path != "" ==> InternalPath(path + "/") == path
    ensures (path == "/" || path == "" || path[|path| - 1] != '/') ==> InternalPath(path) == path
  {
    assert (path + "/")[..|path|] == path;
  }

  function ModeOf(route: Route): Mode {
    if HasSlash(route.path) then Redirecting else if !route.trim then Rejecting else Open
  }

  /** A request on its way in: what axum routes by, what was asked for, and the mark of a removed slash. */
  class Request {
    var uri: Uri
    var original: Option<Uri>
    var trimmed: bool

    constructor (asked: Uri)
      ensures uri == asked && original == None && !trimmed
    {
      uri, original, trimmed := asked, None, false;
    }

    method Normalize()
      modifies this
      ensures trimmed == (old(trimmed) || HasSlash(old(uri).path))
      ensures original == if HasSlash(old(uri).path) then Some(old(uri)) else old(original)
      ensures uri == if HasSlash(old(uri).path) then Uri(InternalPath(old(uri).path), old(uri).query) else old(uri)
    {
      if !HasSlash(uri.path) {
        return;
      }
      var asked := uri;
      uri := Uri(InternalPath(asked.path), asked.query);
      original := Some(asked);
      trimmed := true;
    }
  }

  /** The redirect goes to what was asked for, with a slash added and the query kept. */
  function RedirectTarget(uri: Uri): Uri {
    Uri(uri.path + "/", uri.query)
  }

  /** What a site with one route answers. */
  function Answer(route: Route, asked: Uri, matches: Matcher): Response {
    var trimmed := HasSlash(asked.path);
    var path := if trimmed then InternalPath(asked.path) else asked.path;
    if !matches(InternalPath(route.path), path) then Missed
    else match (ModeOf(route), trimmed)
      case (Redirecting, false) => Redirect(RedirectTarget(asked))
      case (Rejecting, true) => Rejected
      case _ => Served(asked)
  }

  method Serve(route: Route, asked: Uri, matches: Matcher) returns (r: Response)
    ensures r == Answer(route, asked, matches)
  {
    var req := new Request(asked);
    req.Normalize();
    if !matches(InternalPath(route.path), req.uri.path) {
      return Missed;
    }
    var uri := if req.original.Some? then req.original.value else req.uri;
    match (ModeOf(route), req.trimmed)
    case (Redirecting, false) => return Redirect(RedirectTarget(uri));
    case (Rejecting, true) => return Rejected;
    case _ => return Served(uri);
  }

  /** Where a client goes with a redirect: a path that starts with two slashes names another host (section 4.2 of
      RFC 3986). */
  datatype Followed = SameSite(uri: Uri) | OtherSite

  function Follow(target: Uri): Followed {
    if "//" <= target.path then OtherSite else SameSite(target)
  }

  /** A slashful route misses, serves, or redirects once, with the query kept: what it redirects to is served, and the
      client comes back for it exactly when the request path did not start with two slashes. */
  lemma SlashfulRedirectsOnce(route: Route, asked: Uri, matches: Matcher)
    requires HasSlash(route.path) && asked.path != "" && asked.path[0] == '/'
    ensures var r := Answer(route, asked, matches);
            && (r.Missed? <==> !matches(InternalPath(route.path), InternalPath(asked.path)))
            && !r.Rejected?
            && (r.Served? <==> !r.Missed? && HasSlash(asked.path)) && (r.Served? ==> r == Served(asked))
            && (r.Redirect? ==>
                  && r.target.query == asked.query && r.target.path == asked.path + "/"
                  && Answer(route, r.target, matches) == Served(r.target)
                  && (Follow(r.target) == SameSite(r.target) <==> !("//" <= asked.path) && asked.path != "/"))
  {
    var target := RedirectTarget(asked);
    assert target.path[..|target.path| - 1] == asked.path;
  }

  /** A slashless route without `trim` serves exactly the untrimmed form, one with `trim` serves both, each as it was
      asked for; another path misses in both forms. */
  lemma SlashlessServes(route: Route, path: string, query: Option<string>, matches: Matcher)
    requires !HasSlash(route.path) && path != "" && !HasSlash(path)
    ensures var plain, slashed := Uri(path, query), Uri(path + "/", query);
            if matches(route.path, path) then
              && Answer(route, plain, matches) == Served(plain)
              && Answer(route, slashed, matches) == if route.trim then Served(slashed) else Rejected
            else Answer(route, plain, matches) == Missed && Answer(route, slashed, matches) == Missed
  {
    assert (path + "/")[..|path|] == path;
  }
}
