/** The breadcrumb bar (frontend/src/components/Breadcrumbs.tsx) and the
  `/files` routes its links lead to.
 */
module Breadcrumbs {
  import opened Common
  import Text
  import opened FileStore

  /** The link target of a crumb: `/files` for Home, `/files/{id}` otherwise. */
  function Href(id: Option<int>): (r: string)
    ensures Text.StartsWith(r, "/files")
    ensures RouteParam(r).Some? <==> id.Some?
  {
    match id
    case None => "/files"
    case Some(n) => "/files/" + Text.IntToString(n)
  }

  /** Where `handleClick` navigates, written separately in the component. */
  function ClickTarget(id: Option<int>): (r: string)
    ensures r == Href(id)
  {
    if id.None? then "/files" else "/files/" + Text.IntToString(id.value)
  }

  /** The `:folderId` parameter the router extracts from a `/files` path;
      `None` when the path has none. */
  function RouteParam(path: string): Option<string> {
    if Text.StartsWith(path, "/files/") then Some(path[7..]) else None
  }

  /** `folderId ? parseInt(folderId) : 0` in the explorer page: no parameter
      (or an empty one) is the root, 0; `None` is `NaN`. */
  function UrlFolder(param: Option<string>): (r: Option<int>)
    ensures param.None? ==> r == Some(0)
    ensures param.Some? && param.value != [] && Text.IsDigit(param.value[0]) ==> r.Some? && r.value >= 0
  {
    if param.None? || param.value == "" then Some(0) else Text.ParseIntPrefix(param.value)
  }

  /** Following a crumb's link opens the crumb's folder, and Home opens the
      root; the click handler goes to the same place as the link. */
  lemma LinkOpensCrumb(id: Option<int>)
    ensures ClickTarget(id) == Href(id)
    ensures UrlFolder(RouteParam(Href(id))) == Some(id.GetOr(0))
  {
    if id.Some? {
      var h := Href(id);
      assert h[..7] == "/files/";
      assert h[7..] == Text.IntToString(id.value);
      Text.ParseIntPrefixRendered(id.value);
    }
  }

  /** `cacheKey`: 'home' for Home, the id otherwise (React keys are strings). */
  function CacheKey(id: Option<int>): string {
    match id
    case None => "home"
    case Some(n) => Text.IntToString(n)
  }

  /** Distinct crumb ids give distinct keys. */
  lemma CacheKeyInjective(a: Option<int>, b: Option<int>)
    ensures CacheKey(a) == CacheKey(b) ==> a == b
  {
    if a.Some? { Text.IntToStringHead(a.value); }
    if b.Some? { Text.IntToStringHead(b.value); }
    if a.Some? && b.Some? { Text.IntToStringInjective(a.value, b.value); }
  }

  datatype Element =
    | Plain(key: string, name: string)
    | Link(key: string, name: string, href: string, onClick: string)

  /** One element per crumb, in order: the last one plain text, every
      earlier one a link to its folder. */
  function Render(crumbs: seq<Crumb>): (r: seq<Element>)
    ensures |r| == |crumbs|
    ensures forall k :: 0 <= k < |r| ==> r[k].name == crumbs[k].name && r[k].key == CacheKey(crumbs[k].id)
    ensures forall k :: 0 <= k < |r| ==> (r[k].Plain? <==> k == |crumbs| - 1)
    ensures forall k :: 0 <= k < |r| && r[k].Link? ==>
              UrlFolder(RouteParam(r[k].href)) == Some(crumbs[k].id.GetOr(0)) && r[k].onClick == r[k].href
  {
    var r := seq(|crumbs|, k requires 0 <= k < |crumbs| =>
      var c := crumbs[k];
      if k == |crumbs| - 1 then Plain(CacheKey(c.id), c.name)
      else Link(CacheKey(c.id), c.name, Href(c.id), ClickTarget(c.id)));
    assert forall k :: 0 <= k < |r| && r[k].Link? ==>
             UrlFolder(RouteParam(r[k].href)) == Some(crumbs[k].id.GetOr(0)) && r[k].onClick == r[k].href by {
      forall k | 0 <= k < |crumbs| {
        LinkOpensCrumb(crumbs[k].id);
      }
    }
    r
  }
}
