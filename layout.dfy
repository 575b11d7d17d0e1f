/** The sidebar of the page layout: five fixed sections, and which of them
    is highlighted for the current path. */
module Layout {

  /** The paths of `navItems`, in order: Dashboard, YouTube Tools, Trading
      Tools, SEO Tools and Utility Tools. */
  const NavPaths: seq<string> := ["/", "/youtube", "/trading", "/seo", "/utility"]

  /** `isActive`: the path itself, or, for any item but the dashboard, any
      path that starts with it. */
  function IsActive(pathname: string, path: string): (active: bool)
    ensures active <==> path <= pathname && (path == "/" ==> pathname == "/")
  {
    pathname == path || (path != "/" && path <= pathname)
  }

  /** The dashboard is highlighted only on `/` itself. */
  lemma DashboardExact(pathname: string)
    ensures IsActive(pathname, NavPaths[0]) <==> pathname == "/"
  {
  }

  /** Prefixes are raw, not whole path segments: `/seoabc` highlights SEO
      Tools. */
  lemma RawPrefix()
    ensures IsActive("/seoabc", "/seo")
    ensures IsActive("/seo/meta-description", "/seo")
  {
    assert "/seo" == "/seoabc"[..4];
    assert "/seo" == "/seo/meta-description"[..4];
  }

  /** Every item but the dashboard has a second character, and no two of
      them share it. */
  lemma SecondCharacters()
    ensures forall k :: 1 <= k < |NavPaths| ==> |NavPaths[k]| >= 2
    ensures forall k, l :: 1 <= k < l < |NavPaths| ==> NavPaths[k][1] != NavPaths[l][1]
  {
  }

  /** No path highlights two items. */
  lemma AtMostOneActive(pathname: string, i: nat, j: nat)
    requires i < |NavPaths| && j < |NavPaths|
    requires IsActive(pathname, NavPaths[i]) && IsActive(pathname, NavPaths[j])
    ensures i == j
  {
    SecondCharacters();
  }

  /** Which items are highlighted for `pathname`. */
  function ActiveItems(pathname: string): set<nat> {
    set i | 0 <= i < |NavPaths| && IsActive(pathname, NavPaths[i])
  }

  /** The sidebar highlights at most one item. */
  lemma OneActiveItem(pathname: string)
    ensures |ActiveItems(pathname)| <= 1
  {
    var r := ActiveItems(pathname);
    if r != {} {
      var i :| i in r;
      forall j | j in r ensures j == i {
        AtMostOneActive(pathname, i, j);
      }
      assert r == {i};
    }
  }
}
