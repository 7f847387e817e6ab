/** Choosing the landing page after login from the user's menu tree. */
module HomePath {
  import opened GoStrings
  import opened MenuModel

  /** Joins a menu path to the path of its parent. */
  function JoinMenuPath(parentPath: string, currentPath: string): (r: string)
    ensures Absolute(parentPath) ==> Absolute(r)
  {
    var path := TrimSpace(currentPath);
    TrimRightSpec(parentPath, Only('/'));
    if path == "" then parentPath
    else if path[0] == '/' then path
    else if parentPath == "" then "/" + TrimLeft(path, Only('/'))
    else TrimRight(parentPath, Only('/')) + ("/" + TrimLeft(path, Only('/')))
  }

  /** The non-empty pieces of a path between slashes. */
  function Segments(path: string): seq<string> { Pieces(path, '/') }

  /** Joining appends the segments of a relative path to those of its parent, and an absolute path
      starts afresh; slashes at the seam neither get lost nor double. */
  lemma JoinAppendsSegments(parentPath: string, currentPath: string)
    ensures var path := TrimSpace(currentPath);
            Segments(JoinMenuPath(parentPath, currentPath))
            == if path != "" && path[0] == '/' then Segments(path) else Segments(parentPath) + Segments(path)
  {
    var path := TrimSpace(currentPath);
    TrimLeftKeepsPieces(path, '/');
    TrimRightKeepsPieces(parentPath, '/');
    PiecesAround(TrimRight(parentPath, Only('/')), TrimLeft(path, Only('/')), '/');
    PiecesAround("", TrimLeft(path, Only('/')), '/');
    NoPieces('/');
    assert "" + (['/'] + TrimLeft(path, Only('/'))) == "/" + TrimLeft(path, Only('/'));
  }

  /** At the seam of a relative path there is exactly one slash: what is left of the parent does not end
      in one. A blank path is the parent's, an absolute one stands for itself. */
  lemma JoinSeam(parentPath: string, currentPath: string) returns (base: string)
    ensures base <= parentPath && (base == "" || base[|base| - 1] != '/')
    ensures forall i :: |base| <= i < |parentPath| ==> parentPath[i] == '/'
    ensures var path, r := TrimSpace(currentPath), JoinMenuPath(parentPath, currentPath);
            && (path == "" ==> r == parentPath)
            && (path != "" && path[0] == '/' ==> r == path)
            && (path != "" && path[0] != '/' ==> r == base + ("/" + path))
  {
    base := TrimRight(parentPath, Only('/'));
    TrimRightSpec(parentPath, Only('/'));
    var path := TrimSpace(currentPath);
    if path != "" && path[0] != '/' {
      assert TrimLeft(path, Only('/')) == path;
      assert "" + ("/" + path) == "/" + path;
    }
  }

  /** Empty, or rooted at `/`. */
  predicate Absolute(path: string) { path == "" || path[0] == '/' }

  predicate IsExternalPath(path: string) { "http://" <= path || "https://" <= path }

  /** An entry that may be landed on; the first pass also wants it stable, that is, neither a hosted
      asset nor a dynamic plugin page. */
  predicate IsHomePathCandidate(m: SysMenu, currentPath: string, preferStable: bool) {
    && m.kind == Menu && m.isFrame == 0 && currentPath != "" && !IsExternalPath(currentPath)
    && !(preferStable && (HOSTED_PREFIX <= currentPath || m.component == DYNAMIC_PAGE))
  }

  /** The search as written: depth first, a node before its children, "" when nothing is found. */
  function FindFirstAccessiblePath(items: seq<Tree>, parentPath: string, preferStable: bool): string
    decreases items
  {
    if items == [] then ""
    else
      var item := items[0];
      var currentPath := JoinMenuPath(parentPath, item.menu.path);
      if IsHomePathCandidate(item.menu, currentPath, preferStable) then currentPath
      else
        var below := FindFirstAccessiblePath(item.children, currentPath, preferStable);
        if below != "" then below
        else FindFirstAccessiblePath(items[1..], parentPath, preferStable)
  }

  function ResolveHomePath(items: seq<Tree>): string {
    var stable := FindFirstAccessiblePath(items, "", true);
    if stable != "" then stable
    else
      var any := FindFirstAccessiblePath(items, "", false);
      if any != "" then any else "/profile"
  }

  // ----- Reference: the preorder listing of the tree

  datatype Entry = Entry(menu: SysMenu, path: string)

  function Listing(items: seq<Tree>, parentPath: string): seq<Entry>
    decreases items
  {
    if items == [] then []
    else
      var path := JoinMenuPath(parentPath, items[0].menu.path);
      [Entry(items[0].menu, path)] + Listing(items[0].children, path) + Listing(items[1..], parentPath)
  }

  predicate Fits(e: Entry, preferStable: bool) { IsHomePathCandidate(e.menu, e.path, preferStable) }

  /** The position of the first fitting entry, or the length of the list. */
  function FirstFit(es: seq<Entry>, preferStable: bool): (k: nat)
    ensures k <= |es|
    ensures k < |es| ==> Fits(es[k], preferStable)
    ensures forall j :: 0 <= j < k ==> !Fits(es[j], preferStable)
  {
    if es == [] || Fits(es[0], preferStable) then 0 else 1 + FirstFit(es[1..], preferStable)
  }

  function FitPath(es: seq<Entry>, preferStable: bool): string {
    var k := FirstFit(es, preferStable);
    if k < |es| then es[k].path else ""
  }

  lemma {:induction false} FitPathConcat(a: seq<Entry>, b: seq<Entry>, preferStable: bool)
    ensures FitPath(a + b, preferStable)
            == if FitPath(a, preferStable) != "" then FitPath(a, preferStable) else FitPath(b, preferStable)
  {
    if a == [] {
      assert a + b == b;
    } else {
      FitPathConcat(a[1..], b, preferStable);
      assert (a + b)[1..] == a[1..] + b;
      FitPathCons(a, preferStable);
      FitPathCons(a + b, preferStable);
    }
  }

  lemma FitPathCons(es: seq<Entry>, preferStable: bool)
    requires es != []
    ensures FitPath(es, preferStable)
            == if Fits(es[0], preferStable) then es[0].path else FitPath(es[1..], preferStable)
  {
    var k := FirstFit(es[1..], preferStable);
    if !Fits(es[0], preferStable) && k < |es[1..]| { assert es[1..][k] == es[1 + k]; }
  }

  /** The recursive search finds the first fitting entry of the listing. */
  lemma {:induction false} SearchIsFirstFit(items: seq<Tree>, parentPath: string, preferStable: bool)
    ensures FindFirstAccessiblePath(items, parentPath, preferStable)
            == FitPath(Listing(items, parentPath), preferStable)
    decreases items
  {
    if items != [] {
      var path := JoinMenuPath(parentPath, items[0].menu.path);
      var first := [Entry(items[0].menu, path)];
      var below, rest := Listing(items[0].children, path), Listing(items[1..], parentPath);
      SearchIsFirstFit(items[0].children, path, preferStable);
      SearchIsFirstFit(items[1..], parentPath, preferStable);
      FitPathConcat(first + below, rest, preferStable);
      FitPathConcat(first, below, preferStable);
      FitPathCons(first, preferStable);
      assert first[1..] == [];
    }
  }

  lemma {:induction false} ListingIsAbsolute(items: seq<Tree>, parentPath: string, e: Entry)
    requires Absolute(parentPath) && e in Listing(items, parentPath)
    ensures Absolute(e.path)
    decreases items
  {
    var path := JoinMenuPath(parentPath, items[0].menu.path);
    if e in Listing(items[0].children, path) {
      ListingIsAbsolute(items[0].children, path, e);
    } else if e in Listing(items[1..], parentPath) {
      ListingIsAbsolute(items[1..], parentPath, e);
    }
  }

  /** The landing page is the first stable entry of the whole tree; only if there is none, the first
      entry of any kind; only if there is none either, the profile page. It is always rooted. */
  lemma HomeIsFirstFit(items: seq<Tree>)
    ensures var es := Listing(items, "");
            var stable, any := FirstFit(es, true), FirstFit(es, false);
            ResolveHomePath(items)
            == if stable < |es| then es[stable].path
               else if any < |es| then es[any].path
               else "/profile"
    ensures ResolveHomePath(items) != "" && ResolveHomePath(items)[0] == '/'
  {
    var es := Listing(items, "");
    SearchIsFirstFit(items, "", true);
    SearchIsFirstFit(items, "", false);
    var stable, any := FirstFit(es, true), FirstFit(es, false);
    if stable < |es| { ListingIsAbsolute(items, "", es[stable]); }
    if any < |es| { ListingIsAbsolute(items, "", es[any]); }
  }

  /** A plugin page or hosted asset is chosen only when the tree holds no stable page at all. */
  lemma PluginPageOnlyAsFallback(items: seq<Tree>, e: Entry)
    requires e in Listing(items, "") && Fits(e, true)
    ensures exists s :: s in Listing(items, "") && Fits(s, true) && ResolveHomePath(items) == s.path
  {
    HomeIsFirstFit(items);
    var es := Listing(items, "");
    var k :| 0 <= k < |es| && es[k] == e;
    assert es[FirstFit(es, true)] in es;
  }

  // ----- The external-address test never fires

  /** Every path the search tests is empty or starts with a slash, so the test for external
      addresses rejects none of them. */
  lemma ExternalTestIsVacuous(items: seq<Tree>, e: Entry)
    requires e in Listing(items, "")
    ensures !IsExternalPath(e.path)
    ensures Fits(e, false) <==> e.menu.kind == Menu && e.menu.isFrame == 0 && e.path != ""
  {
    ListingIsAbsolute(items, "", e);
  }

  lemma ExternalStart(path: string)
    requires IsExternalPath(path)
    ensures path != "" && path[0] != '/'
  {
  }

  lemma SingleRootHome(m: SysMenu, path: string)
    requires path == JoinMenuPath("", m.path) && m.kind == Menu && m.isFrame == 0 && path != ""
    ensures ResolveHomePath([Node(m, [])]) == path
  {
    var items, e := [Node(m, [])], Entry(m, path);
    assert items[1..] == [];
    assert Listing(items, "") == [e];
    HomeIsFirstFit(items);
    ExternalTestIsVacuous(items, e);
  }

  /** Hence an external link embedded as an iframe can become the landing page, as a local route
      that spells the address. */
  lemma ExternalLinkBecomesHome(m: SysMenu)
    requires m.kind == Menu && m.isFrame == 0 && IsExternalPath(m.path) && Trimmed(m.path, Whitespace)
    ensures ResolveHomePath([Node(m, [])]) == "/" + m.path
  {
    ExternalStart(m.path);
    TrimOfTrimmed(m.path, Whitespace);
    assert TrimLeft(m.path, Only('/')) == m.path;
    SingleRootHome(m, JoinMenuPath("", m.path));
  }

  /** The row's own path is an external address, as the test was meant to find. */
  predicate ExternalRow(m: SysMenu) { IsExternalPath(TrimSpace(m.path)) }

  /** The entry the search lands on, or the length of the listing. */
  function HomeIndex(es: seq<Entry>): (k: nat)
    ensures k <= |es|
  {
    if FirstFit(es, true) < |es| then FirstFit(es, true) else FirstFit(es, false)
  }

  /** The position of the first fitting entry whose row is not external, or the length of the list. */
  function FirstLocalFit(es: seq<Entry>, preferStable: bool): (k: nat)
    ensures k <= |es|
    ensures k < |es| ==> Fits(es[k], preferStable) && !ExternalRow(es[k].menu)
    ensures forall j :: 0 <= j < k ==> !Fits(es[j], preferStable) || ExternalRow(es[j].menu)
  {
    if es == [] || (Fits(es[0], preferStable) && !ExternalRow(es[0].menu)) then 0
    else 1 + FirstLocalFit(es[1..], preferStable)
  }

  /** Where the search would land if it tested the row's own path. */
  function LocalHomeIndex(es: seq<Entry>): nat {
    if FirstLocalFit(es, true) < |es| then FirstLocalFit(es, true) else FirstLocalFit(es, false)
  }

  lemma LandingRowDecides(items: seq<Tree>)
    ensures var es := Listing(items, "");
            && ResolveHomePath(items) == (if HomeIndex(es) < |es| then es[HomeIndex(es)].path else "/profile")
            && (HomeIndex(es) == LocalHomeIndex(es)
                <==> HomeIndex(es) == |es| || !ExternalRow(es[HomeIndex(es)].menu))
  {
    HomeIsFirstFit(items);
    var es := Listing(items, "");
    LocalFitIff(es, true);
    LocalFitIff(es, false);
  }

  /** A page that is not framed and has a path. */
  predicate Page(e: Entry) { e.menu.kind == Menu && e.menu.isFrame == 0 && e.path != "" }

  predicate Stable(e: Entry) { Page(e) && !(HOSTED_PREFIX <= e.path) && e.menu.component != DYNAMIC_PAGE }

  predicate FirstStable(es: seq<Entry>, k: nat) {
    k < |es| && Stable(es[k]) && forall j :: 0 <= j < k ==> !Stable(es[j])
  }

  predicate NoStable(es: seq<Entry>) { forall j :: 0 <= j < |es| ==> !Stable(es[j]) }

  predicate FirstPage(es: seq<Entry>, k: nat) { k < |es| && Page(es[k]) && forall j :: 0 <= j < k ==> !Page(es[j]) }

  lemma FitsAreRows(items: seq<Tree>, k: nat)
    requires k < |Listing(items, "")|
    ensures var e := Listing(items, "")[k]; (Fits(e, false) <==> Page(e)) && (Fits(e, true) <==> Stable(e))
  {
    ExternalTestIsVacuous(items, Listing(items, "")[k]);
  }

  lemma HomeIndexIs(items: seq<Tree>, k: nat)
    ensures var es := Listing(items, "");
            k == HomeIndex(es) && k < |es| <==> FirstStable(es, k) || (NoStable(es) && FirstPage(es, k))
  {
    var es := Listing(items, "");
    forall j: nat | j < |es| ensures (Fits(es[j], false) <==> Page(es[j])) && (Fits(es[j], true) <==> Stable(es[j])) {
      FitsAreRows(items, j);
    }
    var s := FirstFit(es, true);
    if s < |es| { assert !NoStable(es); }
  }

  /** An external row is the first stable page of the listing, or its first page when none is stable. */
  predicate ExternalRowLeads(es: seq<Entry>) {
    exists k: nat :: k < |es| && ExternalRow(es[k].menu)
                     && (FirstStable(es, k) || (NoStable(es) && FirstPage(es, k)))
  }

  /** Over all trees: the landing page is another one than a working test would choose exactly when the
      first stable page, or the first page of all when none is stable, has an external address. */
  lemma ExternalTestMattersIff(items: seq<Tree>)
    ensures var es := Listing(items, "");
            && (HomeIndex(es) < |es| && ExternalRow(es[HomeIndex(es)].menu) <==> ExternalRowLeads(es))
            && (HomeIndex(es) != LocalHomeIndex(es) <==> ExternalRowLeads(es))
  {
    var es := Listing(items, "");
    LandingRowDecides(items);
    if k: nat :| k < |es| && ExternalRow(es[k].menu) && (FirstStable(es, k) || (NoStable(es) && FirstPage(es, k))) {
      HomeIndexIs(items, k);
    }
    HomeIndexIs(items, HomeIndex(es));
  }

  lemma LocalFitIff(es: seq<Entry>, preferStable: bool)
    ensures var k, l := FirstFit(es, preferStable), FirstLocalFit(es, preferStable);
            && k <= l
            && (k == l <==> k == |es| || !ExternalRow(es[k].menu))
  {
  }

  /** So a tree that shows no external address as an ordinary page never lands on one. */
  lemma LocalTreeLandsLocally(items: seq<Tree>)
    requires forall e :: e in Listing(items, "") && e.menu.kind == Menu && e.menu.isFrame == 0 ==>
               !ExternalRow(e.menu)
    ensures var es := Listing(items, "");
            && HomeIndex(es) == LocalHomeIndex(es)
            && (ResolveHomePath(items) != "/profile" ==>
                  exists e :: e in es && !ExternalRow(e.menu) && ResolveHomePath(items) == e.path)
  {
    var es := Listing(items, "");
    LandingRowDecides(items);
    var k := HomeIndex(es);
    if k < |es| { assert es[k] in es; }
  }
}
