/** From the linked menu tree to the router's route list and to the user-info menu list. */
module MenuRoutes {
  import opened GoStrings
  import opened MenuModel
  import opened MenuLinks

  datatype Meta = Meta(
    title: string, icon: string, i18nKey: string, hideInMenu: bool, keepAlive: bool, order: int,
    authority: string, link: string, iframeSrc: string, openInNewWindow: bool, query: map<string, string>)

  datatype Route = Route(
    id: int, parentId: int, name: string, path: string, component: string, redirect: string,
    meta: Meta, children: seq<Route>)

  // ----- Route fields

  function I18nKey(menuKey: string, name: string): string {
    if TrimSpace(menuKey) != "" then "menu." + TrimSpace(menuKey) + ".title"
    else if '.' in TrimSpace(name) then TrimSpace(name)
    else ""
  }

  function LinkRoutePath(u: Runes, m: SysMenu): string {
    if m.parentId == 0 then "/" + Slug(u, m.id, m.path) else Slug(u, m.id, m.path)
  }

  function GenerateRouteName(u: Runes, m: SysMenu): string {
    if NormalizeMenuLinkTarget(u, m.path) != "" then RouteName(u, m.id, m.path)
    else if m.path != "" then Pascal(m.path, true)
    else Pascal(m.name, true)
  }

  function GenerateRoutePath(u: Runes, m: SysMenu): string {
    if NormalizeMenuLinkTarget(u, m.path) != "" then LinkRoutePath(u, m)
    else if m.path == "" then ""
    else if m.parentId != 0 || m.path[0] == '/' then m.path
    else "/" + m.path
  }

  /** Root routes are absolute, and but for that slash a row is routed at the path it was given, or at its
      slug if it is a link. */
  lemma RoutePathRule(u: Runes, m: SysMenu)
    ensures var path, r := if NormalizeMenuLinkTarget(u, m.path) == "" then m.path else Slug(u, m.id, m.path),
                           GenerateRoutePath(u, m);
            && (r == "" <==> m.path == "")
            && (m.parentId == 0 && r != "" ==> r[0] == '/')
            && (r == path || (r == "/" + path && m.parentId == 0 && path[0] != '/'))
  {
    if NormalizeMenuLinkTarget(u, m.path) != "" { SlugIsClean(u, m.id, m.path); }
  }

  function GenerateComponentPath(component: string): string {
    if component == "" || component[0] == '#' then component else "#/views/" + component
  }

  function TrimPrefix(s: string, p: string): string { if p <= s then s[|p|..] else s }

  function TrimSuffix(s: string, p: string): string {
    if |p| <= |s| && s[|s| - |p|..] == p then s[..|s| - |p|] else s
  }

  function NormalizeComponent(component: string): string {
    var c := TrimPrefix(TrimPrefix(TrimSpace(component), "#"), "/");
    var d := TrimSuffix(TrimPrefix(TrimPrefix(c, "views/"), "views\\"), ".vue");
    ReplaceAll(d, "\\", "/")
  }

  const ACCESS_MODE_KEY := "pluginAccessMode"
  const EMBEDDED_SOURCE_KEY := "embeddedSrc"
  const EMBEDDED_MOUNT := "embedded-mount"

  predicate IsEmbeddedMount(m: SysMenu) {
    && NormalizeComponent(m.component) == DYNAMIC_PAGE
    && ACCESS_MODE_KEY in m.query
    && TrimSpace(m.query[ACCESS_MODE_KEY]) == EMBEDDED_MOUNT
  }

  function MergeQuery(base: map<string, string>, overrides: map<string, string>): map<string, string> {
    (map k | k in base && TrimSpace(k) != "" && TrimSpace(base[k]) != "" :: base[k])
    + (map k | k in overrides && TrimSpace(k) != "" && TrimSpace(overrides[k]) != "" :: overrides[k])
  }

  function BaseRoute(u: Runes, m: SysMenu): (r: Route)
    ensures HasIdentity(r, m)
  {
    Route(m.id, m.parentId, GenerateRouteName(u, m), GenerateRoutePath(u, m), "", "",
          Meta(m.name, m.icon, I18nKey(m.menuKey, m.name), m.visible == 0, m.isCache == 1, m.sort,
               m.perms, "", "", false, m.query),
          [])
  }

  /** The parts of a row's route that depend on neither its kind nor its target. */
  predicate HasIdentity(r: Route, m: SysMenu) {
    && r.id == m.id && r.parentId == m.parentId && r.redirect == "" && r.children == []
    && ShowsRow(r.meta, m)
  }

  /** The meta data that every route takes over from its row. */
  predicate ShowsRow(meta: Meta, m: SysMenu) {
    && meta.title == m.name && meta.icon == m.icon && meta.order == m.sort && meta.authority == m.perms
    && (meta.hideInMenu <==> m.visible == 0) && (meta.keepAlive <==> m.isCache == 1)
    && HasTitleKey(meta.i18nKey, m)
  }

  /** The title key is made from the menu key, or else is the name if that has a dot. */
  predicate HasTitleKey(key: string, m: SysMenu) {
    var menuKey, name := TrimSpace(m.menuKey), TrimSpace(m.name);
    && (menuKey != "" ==> key == "menu." + menuKey + ".title")
    && (menuKey == "" && '.' in name ==> key == name)
    && (menuKey == "" && '.' !in name ==> key == "")
  }

  /** The route of one row before children are attached: link menus become iframe, new-window or
      embedded routes, other pages get their view component. */
  function FlatRoute(u: Runes, m: SysMenu): (r: Route)
    ensures HasIdentity(r, m)
  {
    var route := BaseRoute(u, m);
    var target := NormalizeMenuLinkTarget(u, m.path);
    if m.kind != Menu then route
    else if target == "" then route.(component := GenerateComponentPath(m.component))
    else LinkedRoute(route.(name := RouteName(u, m.id, m.path), path := LinkRoutePath(u, m)),
                     m, target, IsEmbeddedMount(m))
  }

  function LinkedRoute(linked: Route, m: SysMenu, target: string, embedded: bool): (r: Route)
    requires HasIdentity(linked, m)
    ensures HasIdentity(r, m)
  {
    if embedded then
      linked.(component := GenerateComponentPath(m.component),
              meta := linked.meta.(query := MergeQuery(m.query,
                map[EMBEDDED_SOURCE_KEY := target, ACCESS_MODE_KEY := EMBEDDED_MOUNT])))
    else if m.isFrame == 1 then
      linked.(component := "BasicLayout", meta := linked.meta.(link := target, openInNewWindow := true))
    else
      linked.(component := "IFrameView", meta := linked.meta.(iframeSrc := target))
  }

  /** Attaches the converted children; a directory redirects to its first one. */
  function WithKids(route: Route, kind: Kind, kids: seq<Route>): Route {
    if kind == Directory && kids != [] then route.(children := kids, redirect := kids[0].path)
    else route.(children := kids)
  }

  /** The routes one menu node contributes: none for a button or an empty directory. The rows'
      own fields come from `flat`, which is Flat for the real endpoint. */
  function NodeRoutes(flat: SysMenu -> Route, t: Tree): seq<Route>
    decreases t, 0
  {
    if t.menu.kind == Button then []
    else
      var kids := Routes(flat, t.children);
      if t.menu.kind == Directory && kids == [] then []
      else [WithKids(flat(t.menu), t.menu.kind, kids)]
  }

  function Routes(flat: SysMenu -> Route, ts: seq<Tree>): seq<Route>
    decreases ts
  {
    if ts == [] then [] else Routes(flat, ts[..|ts| - 1]) + NodeRoutes(flat, ts[|ts| - 1])
  }

  ghost predicate KeepsIdentity(flat: SysMenu -> Route) {
    forall m :: HasIdentity(flat(m), m)
  }

  lemma TargetIsSolid(u: Runes, path: string)
    ensures NormalizeMenuLinkTarget(u, path) != "" ==> TrimSpace(NormalizeMenuLinkTarget(u, path)) != ""
  {
    var target := NormalizeMenuLinkTarget(u, path);
    if target != "" {
      if target == TrimSpace(path) { TrimOfTrimmed(target, Whitespace); } else { NotBlank(target); }
    }
  }

  /** How the target of a link menu reaches the router: as the embedded source, as the link of a new
      window, or as the iframe source. */
  datatype Channel = EmbeddedSource | NewWindow | Iframe | NoLink

  function ChannelOf(u: Runes, m: SysMenu): Channel {
    if m.kind != Menu || NormalizeMenuLinkTarget(u, m.path) == "" then NoLink
    else if && NormalizeComponent(m.component) == DYNAMIC_PAGE
            && ACCESS_MODE_KEY in m.query && TrimSpace(m.query[ACCESS_MODE_KEY]) == EMBEDDED_MOUNT then EmbeddedSource
    else if m.isFrame == 1 then NewWindow
    else Iframe
  }

  lemma BaseHasNoTarget(u: Runes, m: SysMenu)
    ensures var meta := BaseRoute(u, m).meta;
            meta.link == "" && meta.iframeSrc == "" && !meta.openInNewWindow && meta.query == m.query
  {
  }

  /** What linking does to the four fields, given that nothing was set before. */
  lemma LinkedTarget(linked: Route, m: SysMenu, target: string, embedded: bool)
    requires HasIdentity(linked, m) && TrimSpace(target) != ""
    requires linked.meta.link == "" && linked.meta.iframeSrc == "" && !linked.meta.openInNewWindow
    requires linked.meta.query == m.query
    ensures var meta := LinkedRoute(linked, m, target, embedded).meta;
            && meta.link == (if !embedded && m.isFrame == 1 then target else "")
            && (meta.openInNewWindow <==> !embedded && m.isFrame == 1)
            && meta.iframeSrc == (if !embedded && m.isFrame != 1 then target else "")
            && (embedded ==>
                  && EMBEDDED_SOURCE_KEY in meta.query && meta.query[EMBEDDED_SOURCE_KEY] == target
                  && ACCESS_MODE_KEY in meta.query && meta.query[ACCESS_MODE_KEY] == EMBEDDED_MOUNT)
            && (!embedded ==> meta.query == m.query)
  {
    if embedded { EmbeddedQuery(m.query, target); }
  }

  /** Of every row, its route carries the link target in one channel and leaves the others unset; the
      query stays as it was except for an embedded mount, which always keeps its access mode. */
  lemma TargetReachesRouterOnce(u: Runes, m: SysMenu)
    ensures var meta, target, channel := FlatRoute(u, m).meta, NormalizeMenuLinkTarget(u, m.path), ChannelOf(u, m);
            && meta.link == (if channel.NewWindow? then target else "")
            && (meta.openInNewWindow <==> channel.NewWindow?)
            && meta.iframeSrc == (if channel.Iframe? then target else "")
            && (channel.EmbeddedSource? ==>
                  && EMBEDDED_SOURCE_KEY in meta.query && meta.query[EMBEDDED_SOURCE_KEY] == target
                  && ACCESS_MODE_KEY in meta.query && meta.query[ACCESS_MODE_KEY] == EMBEDDED_MOUNT)
            && (!channel.EmbeddedSource? ==> meta.query == m.query)
  {
    BaseHasNoTarget(u, m);
    var target := NormalizeMenuLinkTarget(u, m.path);
    if m.kind == Menu && target != "" {
      TargetIsSolid(u, m.path);
      var linked := BaseRoute(u, m).(name := RouteName(u, m.id, m.path), path := LinkRoutePath(u, m));
      LinkedTarget(linked, m, target, IsEmbeddedMount(m));
    }
  }

  /** The address a router follows for a route: its link, else its iframe source, else the embedded
      source handed to the dynamic page. */
  function FollowedTarget(meta: Meta): string {
    if meta.link != "" then meta.link
    else if meta.iframeSrc != "" then meta.iframeSrc
    else if EMBEDDED_SOURCE_KEY in meta.query then meta.query[EMBEDDED_SOURCE_KEY]
    else ""
  }

  /** Unless the row's own query names an embedded source, the router reads the link target of every
      menu back from its route, and none from any other row. */
  lemma RouterReadsTarget(u: Runes, m: SysMenu)
    requires EMBEDDED_SOURCE_KEY !in m.query
    ensures FollowedTarget(FlatRoute(u, m).meta) == if m.kind == Menu then NormalizeMenuLinkTarget(u, m.path) else ""
  {
    TargetReachesRouterOnce(u, m);
  }

  lemma EmbeddedQuery(query: map<string, string>, target: string)
    requires TrimSpace(target) != ""
    ensures var q := MergeQuery(query, map[EMBEDDED_SOURCE_KEY := target, ACCESS_MODE_KEY := EMBEDDED_MOUNT]);
            && EMBEDDED_SOURCE_KEY in q && q[EMBEDDED_SOURCE_KEY] == target
            && ACCESS_MODE_KEY in q && q[ACCESS_MODE_KEY] == EMBEDDED_MOUNT
  {
    assert |EMBEDDED_SOURCE_KEY| != |ACCESS_MODE_KEY|;
    NotBlank(EMBEDDED_SOURCE_KEY);
    NotBlank(ACCESS_MODE_KEY);
    NotBlank(EMBEDDED_MOUNT);
    MergeTwo(query, EMBEDDED_SOURCE_KEY, target, ACCESS_MODE_KEY, EMBEDDED_MOUNT);
  }

  lemma MergeTwo(query: map<string, string>, k: string, v: string, l: string, w: string)
    requires k != l && TrimSpace(k) != "" && TrimSpace(v) != "" && TrimSpace(l) != "" && TrimSpace(w) != ""
    ensures var q := MergeQuery(query, map[k := v, l := w]); k in q && q[k] == v && l in q && q[l] == w
  {
    MergeKeeps(query, map[k := v, l := w], k);
    MergeKeeps(query, map[k := v, l := w], l);
  }

  /** Apart from the two keys of an embedded mount, `merged` holds exactly the non-blank pairs of `query`. */
  ghost predicate OthersMerged(query: map<string, string>, merged: map<string, string>) {
    forall k :: k != EMBEDDED_SOURCE_KEY && k != ACCESS_MODE_KEY ==>
      && (k in merged <==> k in query && TrimSpace(k) != "" && TrimSpace(query[k]) != "")
      && (k in merged ==> merged[k] == query[k])
  }

  lemma MergeOthers(query: map<string, string>, overrides: map<string, string>)
    requires forall k :: k in overrides ==> k == EMBEDDED_SOURCE_KEY || k == ACCESS_MODE_KEY
    ensures OthersMerged(query, MergeQuery(query, overrides))
  {
  }

  lemma NotBlank(s: string)
    requires s != "" && !IsSpace(s[0])
    ensures TrimSpace(s) != ""
  {
    TrimToNothing(s, Whitespace);
  }

  lemma MergeKeeps(base: map<string, string>, overrides: map<string, string>, k: string)
    requires k in overrides && TrimSpace(k) != "" && TrimSpace(overrides[k]) != ""
    ensures k in MergeQuery(base, overrides) && MergeQuery(base, overrides)[k] == overrides[k]
  {
  }

  /** An embedded mount keeps the rest of the row's query, blank keys and values left out. */
  lemma EmbeddedKeepsQuery(u: Runes, m: SysMenu)
    requires ChannelOf(u, m).EmbeddedSource?
    ensures OthersMerged(m.query, FlatRoute(u, m).meta.query)
  {
    MergeOthers(m.query, map[EMBEDDED_SOURCE_KEY := NormalizeMenuLinkTarget(u, m.path),
                             ACCESS_MODE_KEY := EMBEDDED_MOUNT]);
  }

  method FillRoute(u: Runes, m: SysMenu) returns (route: Route)
    ensures route == FlatRoute(u, m)
  {
    route := BaseRoute(u, m);
    var target := NormalizeMenuLinkTarget(u, m.path);
    if m.kind == Menu && target != "" {
      route := route.(name := RouteName(u, m.id, m.path));
      route := route.(path := LinkRoutePath(u, m));
      if IsEmbeddedMount(m) {
        route := route.(component := GenerateComponentPath(m.component));
        var overrides := map[EMBEDDED_SOURCE_KEY := target, ACCESS_MODE_KEY := EMBEDDED_MOUNT];
        route := route.(meta := route.meta.(query := MergeQuery(m.query, overrides)));
      } else if m.isFrame == 1 {
        route := route.(component := "BasicLayout");
        route := route.(meta := route.meta.(link := target));
        route := route.(meta := route.meta.(openInNewWindow := true));
      } else {
        route := route.(component := "IFrameView");
        route := route.(meta := route.meta.(iframeSrc := target));
      }
    } else if m.kind == Menu {
      route := route.(component := GenerateComponentPath(m.component));
    }
  }

  /** The row builder of the endpoint. */
  function Flat(u: Runes): SysMenu -> Route { m => FlatRoute(u, m) }

  method ConvertToRouteItems(u: Runes, items: seq<Tree>) returns (result: seq<Route>)
    ensures result == Routes(Flat(u), items)
    decreases items
  {
    result := [];
    for k := 0 to |items|
      invariant result == Routes(Flat(u), items[..k])
    {
      assert items[..k + 1][..k] == items[..k];
      var item := items[k];
      if item.menu.kind == Button {
        continue;
      }
      var route := FillRoute(u, item.menu);
      if |item.children| > 0 {
        var kids := ConvertToRouteItems(u, item.children);
        route := route.(children := kids);
      }
      if item.menu.kind == Directory && |route.children| == 0 {
        continue;
      }
      if item.menu.kind == Directory && |route.children| > 0 {
        route := route.(redirect := route.children[0].path);
      }
      result := result + [route];
    }
    assert items[..|items|] == items;
  }

  // ----- The user-info list

  datatype MenuNode = MenuNode(
    id: int, parentId: int, name: string, path: string, component: string, perms: string,
    icon: string, kind: Kind, sort: int, visible: int, status: int, isFrame: int, isCache: int,
    children: seq<MenuNode>)

  function ProjectNode(m: SysMenu, kids: seq<MenuNode>): MenuNode {
    MenuNode(m.id, m.parentId, m.name, m.path, m.component, m.perms, m.icon, m.kind, m.sort,
             m.visible, m.status, m.isFrame, m.isCache, kids)
  }

  /** Each column of the user-info list is the column of that name in the row. */
  lemma ColumnsAreKept(m: SysMenu, kids: seq<MenuNode>)
    ensures var n := ProjectNode(m, kids);
            && n.id == m.id && n.parentId == m.parentId && n.name == m.name && n.path == m.path
            && n.component == m.component && n.perms == m.perms && n.icon == m.icon && n.kind == m.kind
            && n.sort == m.sort && n.visible == m.visible && n.status == m.status
            && n.isFrame == m.isFrame && n.isCache == m.isCache && n.children == kids
  {
  }

  function MenuNodes(ts: seq<Tree>): seq<MenuNode>
    decreases ts
  {
    if ts == [] then []
    else
      MenuNodes(ts[..|ts| - 1]) +
      var t := ts[|ts| - 1];
      if t.menu.kind == Button then [] else [ProjectNode(t.menu, MenuNodes(t.children))]
  }

  method ConvertToMenuTree(items: seq<Tree>) returns (result: seq<MenuNode>)
    ensures result == MenuNodes(items)
    decreases items
  {
    result := [];
    for k := 0 to |items|
      invariant result == MenuNodes(items[..k])
    {
      assert items[..k + 1][..k] == items[..k];
      if items[k].menu.kind == Button {
        continue;
      }
      var kids := ConvertToMenuTree(items[k].children);
      result := result + [ProjectNode(items[k].menu, kids)];
    }
    assert items[..|items|] == items;
  }

  // ----- What survives, defined on the user-info list

  /** Removes childless directories bottom-up. */
  function PruneEmptyDirs(ns: seq<MenuNode>): seq<MenuNode>
    decreases ns
  {
    if ns == [] then []
    else
      var n := ns[|ns| - 1];
      var kids := PruneEmptyDirs(n.children);
      PruneEmptyDirs(ns[..|ns| - 1])
      + if n.kind == Directory && kids == [] then [] else [n.(children := kids)]
  }

  /** The same row seen from both lists. */
  predicate SameRow(r: Route, n: MenuNode) {
    && r.id == n.id && r.parentId == n.parentId && r.meta.title == n.name && r.meta.icon == n.icon
    && r.meta.order == n.sort && r.meta.authority == n.perms
    && (r.meta.hideInMenu <==> n.visible == 0) && (r.meta.keepAlive <==> n.isCache == 1)
  }

  /** A surviving directory has children and redirects to its first one, nothing else redirects,
      and no button appears. */
  predicate Corresponds(r: Route, n: MenuNode) {
    && SameRow(r, n)
    && n.kind != Button
    && (n.kind == Directory ==> r.children != [] && r.redirect == r.children[0].path)
    && (n.kind != Directory ==> r.redirect == "")
  }

  /** Routes correspond to nodes one to one, in order, all the way down. */
  predicate Mirrors(rs: seq<Route>, ns: seq<MenuNode>)
    decreases ns
  {
    if ns == [] then rs == []
    else
      && rs != []
      && var r, n := rs[|rs| - 1], ns[|ns| - 1];
         && Corresponds(r, n)
         && Mirrors(r.children, n.children)
         && Mirrors(rs[..|rs| - 1], ns[..|ns| - 1])
  }

  lemma MirrorsAppend(rs: seq<Route>, ns: seq<MenuNode>, r: Route, n: MenuNode)
    requires Mirrors(rs, ns) && Corresponds(r, n) && Mirrors(r.children, n.children)
    ensures Mirrors(rs + [r], ns + [n])
  {
    assert (rs + [r])[..|rs|] == rs && (ns + [n])[..|ns|] == ns;
  }

  /** The route list is the user-info list of the same tree with childless directories removed. */
  lemma {:induction false} RoutesMirrorMenuNodes(flat: SysMenu -> Route, ts: seq<Tree>)
    requires KeepsIdentity(flat)
    ensures Mirrors(Routes(flat, ts), PruneEmptyDirs(MenuNodes(ts)))
    decreases ts
  {
    if ts != [] {
      var t, init := ts[|ts| - 1], ts[..|ts| - 1];
      RoutesMirrorMenuNodes(flat, init);
      if t.menu.kind == Button {
        assert Routes(flat, ts) == Routes(flat, init);
        assert MenuNodes(ts) == MenuNodes(init);
      } else {
        RoutesMirrorMenuNodes(flat, t.children);
        MenuNodesStep(ts);
        var kids, below := Routes(flat, t.children), PruneEmptyDirs(MenuNodes(t.children));
        if t.menu.kind == Directory && kids == [] {
          assert Routes(flat, ts) == Routes(flat, init);
        } else {
          assert HasIdentity(flat(t.menu), t.menu);
          var r := WithKids(flat(t.menu), t.menu.kind, kids);
          MirrorsAppend(Routes(flat, init), PruneEmptyDirs(MenuNodes(init)), r, ProjectNode(t.menu, below));
        }
      }
    }
  }

  lemma MenuNodesStep(ts: seq<Tree>)
    requires ts != [] && ts[|ts| - 1].menu.kind != Button
    ensures var t, init := ts[|ts| - 1], ts[..|ts| - 1];
            var kids := PruneEmptyDirs(MenuNodes(t.children));
            PruneEmptyDirs(MenuNodes(ts))
            == if t.menu.kind == Directory && kids == [] then PruneEmptyDirs(MenuNodes(init))
               else PruneEmptyDirs(MenuNodes(init)) + [ProjectNode(t.menu, kids)]
  {
    var t, init := ts[|ts| - 1], ts[..|ts| - 1];
    var before, n := MenuNodes(init), ProjectNode(t.menu, MenuNodes(t.children));
    assert MenuNodes(ts) == before + [n];
    assert (before + [n])[..|before|] == before;
  }

  /** The pages of a menu tree in preorder: neither button nor directory, and under no button. */
  function Pages(ts: seq<Tree>): seq<int>
    decreases ts
  {
    if ts == [] then []
    else
      var t := ts[|ts| - 1];
      Pages(ts[..|ts| - 1]) +
      if t.menu.kind == Button then []
      else (if t.menu.kind == Directory then [] else [t.menu.id]) + Pages(t.children)
  }

  function NodePages(ns: seq<MenuNode>): seq<int>
    decreases ns
  {
    if ns == [] then []
    else
      var n := ns[|ns| - 1];
      NodePages(ns[..|ns| - 1]) + (if n.kind == Directory then [] else [n.id]) + NodePages(n.children)
  }

  lemma NodePagesAppend(ns: seq<MenuNode>, n: MenuNode)
    ensures NodePages(ns + [n])
            == NodePages(ns) + (if n.kind == Directory then [] else [n.id]) + NodePages(n.children)
  {
    assert (ns + [n])[..|ns|] == ns;
  }

  lemma {:induction false} ProjectionKeepsPages(ts: seq<Tree>)
    ensures NodePages(MenuNodes(ts)) == Pages(ts)
    decreases ts
  {
    if ts != [] {
      var t, init := ts[|ts| - 1], ts[..|ts| - 1];
      ProjectionKeepsPages(init);
      ProjectionKeepsPages(t.children);
      if t.menu.kind == Button {
        assert MenuNodes(ts) == MenuNodes(init);
      } else {
        NodePagesAppend(MenuNodes(init), ProjectNode(t.menu, MenuNodes(t.children)));
        AssocIds(Pages(init), if t.menu.kind == Directory then [] else [t.menu.id], Pages(t.children));
      }
    }
  }

  lemma AssocIds(a: seq<int>, b: seq<int>, c: seq<int>)
    ensures (a + b) + c == a + (b + c)
    ensures a + [] == a
  {
  }

  /** Pruning loses no page and no order. */
  lemma {:induction false} PruningKeepsPages(ns: seq<MenuNode>)
    ensures NodePages(PruneEmptyDirs(ns)) == NodePages(ns)
    decreases ns
  {
    if ns != [] {
      var n, init := ns[|ns| - 1], ns[..|ns| - 1];
      PruningKeepsPages(init);
      PruningKeepsPages(n.children);
      var before, kids := PruneEmptyDirs(init), PruneEmptyDirs(n.children);
      if n.kind == Directory && kids == [] {
        assert PruneEmptyDirs(ns) == before;
        AssocIds(NodePages(before), [], []);
      } else {
        NodePagesAppend(before, n.(children := kids));
      }
    }
  }

  /** A directory is dropped exactly when there is no page anywhere below it. */
  lemma {:induction false} EmptyIffNoPages(ns: seq<MenuNode>)
    ensures PruneEmptyDirs(ns) == [] <==> NodePages(ns) == []
    decreases ns
  {
    if ns != [] {
      EmptyIffNoPages(ns[..|ns| - 1]);
      EmptyIffNoPages(ns[|ns| - 1].children);
    }
  }

  /** The pages of a route list, read off against the surviving nodes. */
  function MirroredPages(rs: seq<Route>, ns: seq<MenuNode>): seq<int>
    requires Mirrors(rs, ns)
    decreases ns
  {
    if ns == [] then []
    else
      var r, n := rs[|rs| - 1], ns[|ns| - 1];
      MirroredPages(rs[..|rs| - 1], ns[..|ns| - 1])
      + (if n.kind == Directory then [] else [r.id])
      + MirroredPages(r.children, n.children)
  }

  lemma {:induction false} MirroredPagesAgree(rs: seq<Route>, ns: seq<MenuNode>)
    requires Mirrors(rs, ns)
    ensures MirroredPages(rs, ns) == NodePages(ns)
    decreases ns
  {
    if ns != [] {
      MirroredPagesAgree(rs[..|rs| - 1], ns[..|ns| - 1]);
      MirroredPagesAgree(rs[|rs| - 1].children, ns[|ns| - 1].children);
    }
  }

  /** The non-directory routes, in preorder, are exactly the input pages, in preorder. */
  lemma RoutesShowAllPages(u: Runes, ts: seq<Tree>)
    ensures var rs, ns := Routes(Flat(u), ts), PruneEmptyDirs(MenuNodes(ts));
            Mirrors(rs, ns) && MirroredPages(rs, ns) == Pages(ts)
  {
    var ns := PruneEmptyDirs(MenuNodes(ts));
    RoutesMirrorMenuNodes(Flat(u), ts);
    MirroredPagesAgree(Routes(Flat(u), ts), ns);
    PruningKeepsPages(MenuNodes(ts));
    ProjectionKeepsPages(ts);
  }

  // ----- Names and components

  /** A link menu, or a directory that looks like one, is named by its slug, any other row by its path or
      else its name. A page that is no link shows its own component; links show the two built-in views,
      or their own component when embedded; and directories have none. */
  lemma RouteNamesAndComponents(u: Runes, m: SysMenu)
    ensures var r, link := FlatRoute(u, m), NormalizeMenuLinkTarget(u, m.path) != "";
            && r.name == Pascal(if link then Slug(u, m.id, m.path) else if m.path != "" then m.path else m.name, true)
            && r.component == match ChannelOf(u, m)
                              case NewWindow => "BasicLayout"
                              case Iframe => "IFrameView"
                              case EmbeddedSource => GenerateComponentPath(m.component)
                              case NoLink => if m.kind == Menu then GenerateComponentPath(m.component) else ""
  {
  }

  /** Nothing in front that a component path may carry. */
  predicate Bare(c: string) {
    Trimmed(c, Whitespace) && c != "" && c[0] != '#' && c[0] != '/' && !("views/" <= c) && !("views\\" <= c)
  }

  lemma PrefixGoes(p: string, c: string)
    ensures TrimPrefix(p + c, p) == c
    ensures p != "" && c != "" && c[0] != p[0] ==> TrimPrefix(c, p) == c
  {
  }

  lemma BareComponent(c: string)
    requires Bare(c)
    ensures NormalizeComponent(c) == ReplaceAll(TrimSuffix(c, ".vue"), "\\", "/")
  {
    TrimOfTrimmed(c, Whitespace);
  }

  lemma ViewedComponent(c: string)
    requires Bare(c)
    ensures NormalizeComponent("#/views/" + c) == ReplaceAll(TrimSuffix(c, ".vue"), "\\", "/")
  {
    var full := "#/views/" + c;
    assert full[|full| - 1] == c[|c| - 1];
    TrimOfTrimmed(full, Whitespace);
    PrefixGoes("#", "/views/" + c);
    assert full == "#" + ("/views/" + c);
    PrefixGoes("/", "views/" + c);
    assert "/views/" + c == "/" + ("views/" + c);
    PrefixGoes("views/", c);
  }

  /** The component that a route shows means the same view as the stored one, however the row spells it:
      bare, or with the `#` of a generated path. */
  lemma ComponentMeansTheSame(c: string)
    requires c == "" || c[0] == '#' || Bare(c)
    ensures NormalizeComponent(GenerateComponentPath(c)) == NormalizeComponent(c)
  {
    if Bare(c) {
      BareComponent(c);
      ViewedComponent(c);
    }
  }

  lemma {:induction false} NothingToReplace(s: string, c: char, d: string)
    requires c !in s
    ensures ReplaceAll(s, [c], d) == s
  {
    if s != "" {
      assert [c][0] == c != s[0];
      NothingToReplace(s[1..], c, d);
    }
  }

  const EXTENSION := ".vue"

  lemma PrefixOfExtended(p: string, c: string, ext: string)
    requires !(p <= c) && ext != "" && ext[0] !in p
    ensures !(p <= c + ext)
  {
    assert (c + ext)[|c|] == ext[0];
  }

  lemma ExtendedIsBare(c: string)
    requires Bare(c)
    ensures Bare(c + EXTENSION)
  {
    PrefixOfExtended("views/", c, EXTENSION);
    PrefixOfExtended("views\\", c, EXTENSION);
  }

  lemma SuffixGoes(c: string, ext: string)
    ensures TrimSuffix(c + ext, ext) == c
  {
    assert (c + ext)[|c|..] == ext && (c + ext)[..|c|] == c;
  }

  /** A bare path without extension and backslash is its own normal form, and so it is read from the
      generated path and from the path with the extension. */
  lemma ComponentSpellings(c: string)
    requires Bare(c) && '\\' !in c && TrimSuffix(c, EXTENSION) == c
    ensures NormalizeComponent(c) == c
    ensures NormalizeComponent("#/views/" + c) == c
    ensures NormalizeComponent(c + EXTENSION) == c
  {
    BareComponent(c);
    ViewedComponent(c);
    NothingToReplace(c, '\\', "/");
    ExtendedIsBare(c);
    BareComponent(c + EXTENSION);
    SuffixGoes(c, EXTENSION);
  }
}
