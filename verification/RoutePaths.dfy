/** The addresses a router builds from the route list, and the ones the landing page is chosen from. */
module RoutePaths {
  import opened GoStrings
  import opened MenuModel
  import opened MenuLinks
  import opened MenuRoutes
  import opened HomePath

  /** A row that is no link is routed at the segments of its own path. */
  lemma RouteKeepsSegments(u: Runes, m: SysMenu)
    requires NormalizeMenuLinkTarget(u, m.path) == ""
    ensures Segments(GenerateRoutePath(u, m)) == Segments(m.path)
  {
    RoutePathRule(u, m);
    PiecesAround("", m.path, '/');
    NoPieces('/');
    assert "" + (['/'] + m.path) == "/" + m.path;
  }

  // ----- Addresses

  /** The address of every route, in preorder: a router joins the path of a route to that of its parent. */
  function Addresses(rs: seq<Route>, parentPath: string): seq<string>
    decreases rs
  {
    if rs == [] then []
    else
      var r := rs[|rs| - 1];
      var path := JoinMenuPath(parentPath, r.path);
      Addresses(rs[..|rs| - 1], parentPath) + ([path] + Addresses(r.children, path))
  }

  function PathsOf(es: seq<Entry>): seq<string> { if es == [] then [] else [es[0].path] + PathsOf(es[1..]) }

  /** The menu tree without buttons and empty directories. */
  function Shown(ts: seq<Tree>): seq<Tree>
    decreases ts
  {
    if ts == [] then []
    else
      var t := ts[|ts| - 1];
      Shown(ts[..|ts| - 1]) +
      if t.menu.kind == Button then []
      else
        var kids := Shown(t.children);
        if t.menu.kind == Directory && kids == [] then [] else [Node(t.menu, kids)]
  }

  /** No row is a link, no path has blanks around it, and the roots are the rows without a parent. */
  predicate Ordinary(u: Runes, ts: seq<Tree>, root: bool)
    decreases ts
  {
    ts == [] ||
    var t := ts[|ts| - 1];
    && Ordinary(u, ts[..|ts| - 1], root) && Ordinary(u, t.children, false)
    && NormalizeMenuLinkTarget(u, t.menu.path) == "" && Trimmed(t.menu.path, Whitespace)
    && (root <==> t.menu.parentId == 0)
  }

  lemma Regroup(a: seq<Entry>, b: seq<Entry>, c: seq<Entry>, ab: seq<Entry>, abc: seq<Entry>)
    requires ab == a + b && abc == a + (b + c)
    ensures abc == ab + c
  {
  }

  /** The router and the search for the landing page give the shown menus the same paths, in one order. */
  predicate Agrees(u: Runes, ts: seq<Tree>, parentPath: string) {
    Addresses(Routes(Flat(u), ts), parentPath) == PathsOf(Listing(Shown(ts), parentPath))
  }

  lemma LastIsOrdinary(u: Runes, ts: seq<Tree>, root: bool)
    requires Ordinary(u, ts, root) && ts != []
    ensures var t := ts[|ts| - 1];
            && Ordinary(u, ts[..|ts| - 1], root) && Ordinary(u, t.children, false)
            && NormalizeMenuLinkTarget(u, t.menu.path) == "" && Trimmed(t.menu.path, Whitespace)
            && (root <==> t.menu.parentId == 0)
  {
  }

  /** What one node adds to a listing. */
  function ListingOf(t: Tree, parentPath: string): seq<Entry> {
    var path := JoinMenuPath(parentPath, t.menu.path);
    [Entry(t.menu, path)] + Listing(t.children, path)
  }

  lemma ListingOfCons(t: Tree, rest: seq<Tree>, parentPath: string)
    ensures Listing([t] + rest, parentPath) == ListingOf(t, parentPath) + Listing(rest, parentPath)
  {
    assert ([t] + rest)[0] == t && ([t] + rest)[1..] == rest;
  }

  /** The listing grows at its end by what the last node adds. */
  lemma {:induction false} ListingAppend(ts: seq<Tree>, t: Tree, parentPath: string)
    ensures Listing(ts + [t], parentPath) == Listing(ts, parentPath) + ListingOf(t, parentPath)
    decreases |ts|
  {
    if ts == [] {
      assert ts + [t] == [t] + [];
      ListingOfCons(t, [], parentPath);
    } else {
      var rest := ts[1..];
      ListingAppend(rest, t, parentPath);
      ListingOfCons(ts[0], rest, parentPath);
      ListingOfCons(ts[0], rest + [t], parentPath);
      assert ts == [ts[0]] + rest && ts + [t] == [ts[0]] + (rest + [t]);
      Regroup(ListingOf(ts[0], parentPath), Listing(rest, parentPath), ListingOf(t, parentPath),
              Listing(ts, parentPath), Listing(ts + [t], parentPath));
    }
  }

  lemma ListingOfLast(ts: seq<Tree>, t: Tree, parentPath: string)
    ensures var path := JoinMenuPath(parentPath, t.menu.path);
            Listing(ts + [t], parentPath)
            == Listing(ts, parentPath) + ([Entry(t.menu, path)] + Listing(t.children, path))
  {
    ListingAppend(ts, t, parentPath);
  }

  lemma {:induction false} PathsConcat(a: seq<Entry>, b: seq<Entry>)
    ensures PathsOf(a + b) == PathsOf(a) + PathsOf(b)
  {
    if a == [] {
      assert a + b == b;
    } else {
      PathsConcat(a[1..], b);
      assert (a + b)[1..] == a[1..] + b;
    }
  }

  lemma JoinOfRoute(u: Runes, m: SysMenu, parentPath: string)
    requires NormalizeMenuLinkTarget(u, m.path) == "" && Trimmed(m.path, Whitespace)
    requires m.parentId == 0 ==> parentPath == ""
    ensures JoinMenuPath(parentPath, GenerateRoutePath(u, m)) == JoinMenuPath(parentPath, m.path)
  {
    RoutePathRule(u, m);
    var r := GenerateRoutePath(u, m);
    TrimOfTrimmed(m.path, Whitespace);
    if r != m.path {
      assert r[|r| - 1] == m.path[|m.path| - 1];
      TrimOfTrimmed(r, Whitespace);
    }
  }

  lemma AddressesOfLast(rs: seq<Route>, r: Route, parentPath: string)
    ensures var path := JoinMenuPath(parentPath, r.path);
            Addresses(rs + [r], parentPath) == Addresses(rs, parentPath) + ([path] + Addresses(r.children, path))
  {
    assert (rs + [r])[..|rs|] == rs;
  }

  lemma {:induction false} ShownAlike(flat: SysMenu -> Route, ts: seq<Tree>)
    ensures Routes(flat, ts) == [] <==> Shown(ts) == []
    decreases ts
  {
    if ts != [] {
      ShownAlike(flat, ts[..|ts| - 1]);
      ShownAlike(flat, ts[|ts| - 1].children);
    }
  }

  lemma LastHidden(flat: SysMenu -> Route, init: seq<Tree>, t: Tree)
    requires t.menu.kind == Button || (t.menu.kind == Directory && Routes(flat, t.children) == [])
    requires Shown(t.children) == [] <==> Routes(flat, t.children) == []
    ensures Routes(flat, init + [t]) == Routes(flat, init) && Shown(init + [t]) == Shown(init)
  {
    assert (init + [t])[..|init|] == init;
  }

  /** Along a tree of ordinary menus, the addresses of the routes are the paths that the search for the
      landing page joins over the shown menus, in the same order. */
  lemma {:induction false} AddressesAreListedPaths(u: Runes, ts: seq<Tree>, parentPath: string, root: bool)
    requires Ordinary(u, ts, root) && (root ==> parentPath == "")
    ensures Agrees(u, ts, parentPath)
    decreases ts
  {
    if ts != [] {
      var t, init := ts[|ts| - 1], ts[..|ts| - 1];
      LastIsOrdinary(u, ts, root);
      AddressesAreListedPaths(u, init, parentPath, root);
      AddressesAreListedPaths(u, t.children, JoinMenuPath(parentPath, t.menu.path), false);
      AddressesStep(u, ts, parentPath);
    }
  }

  lemma AddressesStep(u: Runes, ts: seq<Tree>, parentPath: string)
    requires ts != []
    requires var t, init := ts[|ts| - 1], ts[..|ts| - 1];
             && NormalizeMenuLinkTarget(u, t.menu.path) == "" && Trimmed(t.menu.path, Whitespace)
             && (t.menu.parentId == 0 ==> parentPath == "")
             && Agrees(u, init, parentPath) && Agrees(u, t.children, JoinMenuPath(parentPath, t.menu.path))
    ensures Agrees(u, ts, parentPath)
  {
    var t, init := ts[|ts| - 1], ts[..|ts| - 1];
    assert ts == init + [t];
    ShownAlike(Flat(u), t.children);
    if t.menu.kind != Button && (t.menu.kind != Directory || Routes(Flat(u), t.children) != []) {
      LastAddress(u, init, t, parentPath);
    } else {
      LastHidden(Flat(u), init, t);
    }
  }

  lemma LastAddress(u: Runes, init: seq<Tree>, t: Tree, parentPath: string)
    requires NormalizeMenuLinkTarget(u, t.menu.path) == "" && Trimmed(t.menu.path, Whitespace)
    requires t.menu.parentId == 0 ==> parentPath == ""
    requires t.menu.kind != Button && (t.menu.kind != Directory || Routes(Flat(u), t.children) != [])
    requires Shown(t.children) == [] <==> Routes(Flat(u), t.children) == []
    requires Agrees(u, init, parentPath) && Agrees(u, t.children, JoinMenuPath(parentPath, t.menu.path))
    ensures Agrees(u, init + [t], parentPath)
  {
    assert (init + [t])[..|init|] == init;
    var path := JoinMenuPath(parentPath, t.menu.path);
    var r := WithKids(FlatRoute(u, t.menu), t.menu.kind, Routes(Flat(u), t.children));
    var n := Node(t.menu, Shown(t.children));
    JoinOfRoute(u, t.menu, parentPath);
    AddressesOfLast(Routes(Flat(u), init), r, parentPath);
    ListingOfLast(Shown(init), n, parentPath);
    PathsConcat(Listing(Shown(init), parentPath), [Entry(t.menu, path)] + Listing(Shown(t.children), path));
  }

  // ----- The landing page has a route

  predicate ButtonsAreLeaves(ts: seq<Tree>)
    decreases ts
  {
    ts == [] ||
    var t := ts[|ts| - 1];
    ButtonsAreLeaves(ts[..|ts| - 1]) && ButtonsAreLeaves(t.children) && (t.menu.kind == Button ==> t.children == [])
  }

  lemma LastShown(init: seq<Tree>, t: Tree, parentPath: string, e: Entry)
    ensures e in Listing(Shown(init), parentPath) ==> e in Listing(Shown(init + [t]), parentPath)
    ensures var path := JoinMenuPath(parentPath, t.menu.path);
            t.menu.kind != Button
            && ((e == Entry(t.menu, path) && t.menu.kind == Menu) || e in Listing(Shown(t.children), path)) ==>
              e in Listing(Shown(init + [t]), parentPath)
  {
    assert (init + [t])[..|init|] == init;
    ListingOfLast(Shown(init), Node(t.menu, Shown(t.children)), parentPath);
    assert Shown(init + [t]) == Shown(init) || Shown(init + [t]) == Shown(init) + [Node(t.menu, Shown(t.children))];
  }

  lemma {:induction false} PagesAreShown(ts: seq<Tree>, parentPath: string, e: Entry)
    requires ButtonsAreLeaves(ts) && e in Listing(ts, parentPath) && e.menu.kind == Menu
    ensures e in Listing(Shown(ts), parentPath)
    decreases ts
  {
    if ts != [] {
      var t, init := ts[|ts| - 1], ts[..|ts| - 1];
      var path := JoinMenuPath(parentPath, t.menu.path);
      assert ts == init + [t];
      ListingOfLast(init, t, parentPath);
      LastShown(init, t, parentPath, e);
      if e in Listing(init, parentPath) {
        PagesAreShown(init, parentPath, e);
      } else if e in Listing(t.children, path) {
        PagesAreShown(t.children, path, e);
      }
    }
  }

  lemma {:induction false} PathsHold(es: seq<Entry>, e: Entry)
    requires e in es
    ensures e.path in PathsOf(es)
  {
    if e != es[0] { PathsHold(es[1..], e); }
  }

  /** On a tree of ordinary menus whose buttons are leaves, the landing page is the address of a route, if
      it is not the profile page. */
  lemma LandingPageIsRouted(u: Runes, ts: seq<Tree>)
    requires Ordinary(u, ts, true) && ButtonsAreLeaves(ts)
    ensures ResolveHomePath(ts) == "/profile" || ResolveHomePath(ts) in Addresses(Routes(Flat(u), ts), "")
  {
    HomeIsFirstFit(ts);
    AddressesAreListedPaths(u, ts, "", true);
    var es := Listing(ts, "");
    var k := if FirstFit(es, true) < |es| then FirstFit(es, true) else FirstFit(es, false);
    if k < |es| {
      assert es[k] in es;
      PagesAreShown(ts, "", es[k]);
      PathsHold(Listing(Shown(ts), ""), es[k]);
    }
  }

  lemma ExternalIsLink(u: Runes, path: string)
    requires AgreesOnAscii(u) && IsExternalPath(path) && Trimmed(path, Whitespace)
    ensures NormalizeMenuLinkTarget(u, path) == path
  {
    TrimOfTrimmed(path, Whitespace);
    var lower := Lower(u, path);
    var n := if "http://" <= path then 7 else 8;
    assert forall i :: 0 <= i < n ==> lower[i] == path[i];
    assert lower[..n] == path[..n];
  }

  lemma SingleRoute(flat: SysMenu -> Route, m: SysMenu)
    requires m.kind == Menu && HasIdentity(flat(m), m)
    ensures Routes(flat, [Node(m, [])]) == [flat(m)]
  {
    var ts := [Node(m, [])];
    assert ts[..0] == [];
    assert NodeRoutes(flat, ts[0]) == [flat(m)];
  }

  lemma AddressOfSlug(slug: string)
    requires slug != "" && slug[0] == 'l'
    ensures var path := JoinMenuPath("", "/" + slug); |path| >= 2 && path[1] == 'l'
  {
    var s := "/" + slug;
    assert s[1] == 'l';
    assert TrimLeft(s, Whitespace) == s;
    TrimRightSpec(s, Whitespace);
  }

  lemma RouteOfLink(u: Runes, m: SysMenu)
    requires m.kind == Menu && m.parentId == 0 && NormalizeMenuLinkTarget(u, m.path) != ""
    ensures FlatRoute(u, m).path == "/" + Slug(u, m.id, m.path)
  {
  }

  lemma AddressesOfOne(r: Route)
    requires r.children == []
    ensures Addresses([r], "") == [JoinMenuPath("", r.path)]
  {
    assert [r][..0] == [];
    assert Addresses([], "") == [];
  }

  lemma LinkAddress(u: Runes, m: SysMenu) returns (a: string)
    requires m.kind == Menu && m.parentId == 0 && NormalizeMenuLinkTarget(u, m.path) != ""
    ensures Addresses(Routes(Flat(u), [Node(m, [])]), "") == [a] && |a| >= 2 && a[1] == 'l'
  {
    RouteOfLink(u, m);
    SlugIsClean(u, m.id, m.path);
    AddressOfSlug(Slug(u, m.id, m.path));
    var r := FlatRoute(u, m);
    a := JoinMenuPath("", r.path);
    SingleRoute(Flat(u), m);
    AddressesOfOne(r);
  }

  lemma ExternalStartsWithH(path: string)
    requires IsExternalPath(path)
    ensures path != "" && path[0] == 'h'
  {
  }

  /** A link is routed at its slug, so the landing page that an external link becomes has no route. */
  lemma ExternalHomeIsNotRouted(u: Runes, m: SysMenu)
    requires AgreesOnAscii(u) && m.kind == Menu && m.isFrame == 0 && m.parentId == 0
    requires IsExternalPath(m.path) && Trimmed(m.path, Whitespace)
    ensures var ts := [Node(m, [])]; ResolveHomePath(ts) !in Addresses(Routes(Flat(u), ts), "")
  {
    ExternalLinkBecomesHome(m);
    ExternalIsLink(u, m.path);
    ExternalStartsWithH(m.path);
    var a := LinkAddress(u, m);
    assert ("/" + m.path)[1] == m.path[0];
  }
}
