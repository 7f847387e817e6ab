/** How the tree of GET /user/info relates to the routed tree of GET /menu/all. */
module MenuAgreement {
  import opened MenuModel
  import opened MenuForest
  import opened MenuSelection
  import opened MenuBuild

  /** Cuts every subtree whose root is not granted. */
  function Prune(ts: seq<Tree>, granted: set<int>): seq<Tree> {
    if ts == [] then []
    else
      (if ts[0].menu.id in granted then [Node(ts[0].menu, Prune(ts[0].children, granted))] else [])
      + Prune(ts[1..], granted)
  }

  function TreesWithoutKeys(ts: seq<Tree>): seq<Tree> {
    if ts == [] then []
    else [Node(WithoutKey(ts[0].menu), TreesWithoutKeys(ts[0].children))] + TreesWithoutKeys(ts[1..])
  }

  lemma {:induction false} ChildrenWithoutKeys(ms: seq<SysMenu>, pid: int)
    ensures Children(WithoutKeys(ms), pid) == WithoutKeys(Children(ms, pid))
  {
    if ms != [] {
      ChildrenWithoutKeys(ms[1..], pid);
      assert WithoutKeys(ms)[1..] == WithoutKeys(ms[1..]);
      assert Children(ms, pid)
          == if ms[0].parentId == pid then [ms[0]] + Children(ms[1..], pid) else Children(ms[1..], pid);
      assert Children(WithoutKeys(ms), pid)
          == if ms[0].parentId == pid then [WithoutKey(ms[0])] + Children(WithoutKeys(ms[1..]), pid)
             else Children(WithoutKeys(ms[1..]), pid);
    }
  }

  lemma {:induction false} HangsWithoutKeys(ts: seq<Tree>, ks: seq<SysMenu>, ms: seq<SysMenu>)
    requires Hangs(ts, ks, ms)
    ensures Hangs(TreesWithoutKeys(ts), WithoutKeys(ks), WithoutKeys(ms))
    decreases ts
  {
    if ts != [] {
      HangsWithoutKeys(ts[0].children, Children(ms, ks[0].id), ms);
      HangsWithoutKeys(ts[1..], ks[1..], ms);
      ChildrenWithoutKeys(ms, ks[0].id);
      var us := TreesWithoutKeys(ts);
      assert us[1..] == TreesWithoutKeys(ts[1..]);
      assert WithoutKeys(ks)[1..] == WithoutKeys(ks[1..]);
    }
  }

  /** Keeping fewer IDs keeps fewer children, in the same order. */
  lemma {:induction false} ChildrenOfKept(ms: seq<SysMenu>, few: set<int>, many: set<int>, pid: int)
    requires forall m :: m in ms && m.id in few ==> m.id in many
    ensures Children(Keep(ms, few), pid) == Keep(Children(Keep(ms, many), pid), few)
  {
    if ms != [] {
      ChildrenOfKept(ms[1..], few, many, pid);
      var m := ms[0];
      assert m in ms;
      var a, b := Keep(ms[1..], few), Keep(ms[1..], many);
      KeptChild(m, a, b, few, many, pid);
    }
  }

  lemma KeptChild(m: SysMenu, a: seq<SysMenu>, b: seq<SysMenu>, few: set<int>, many: set<int>, pid: int)
    requires m.id in few ==> m.id in many
    requires Children(a, pid) == Keep(Children(b, pid), few)
    ensures Children((if m.id in few then [m] else []) + a, pid)
            == Keep(Children((if m.id in many then [m] else []) + b, pid), few)
  {
    ChildrenSplit(if m.id in few then [m] else [], a, pid);
    ChildrenSplit(if m.id in many then [m] else [], b, pid);
    KeepSplit(Children(if m.id in many then [m] else [], pid), Children(b, pid), few);
    assert Children([m], pid) == if m.parentId == pid then [m] else [];
    assert Keep([m], few) == if m.id in few then [m] else [];
  }

  lemma {:induction false} PruneHangs(ts: seq<Tree>, ks: seq<SysMenu>, ms: seq<SysMenu>, few: set<int>, many: set<int>)
    requires Hangs(ts, ks, Keep(ms, many))
    requires forall m :: m in ms && m.id in few ==> m.id in many
    ensures Hangs(Prune(ts, few), Keep(ks, few), Keep(ms, few))
    decreases ts
  {
    if ts != [] {
      var k := ks[0];
      PruneHangs(ts[0].children, Children(Keep(ms, many), k.id), ms, few, many);
      PruneHangs(ts[1..], ks[1..], ms, few, many);
      ChildrenOfKept(ms, few, many, k.id);
      var below, rest := Prune(ts[0].children, few), Prune(ts[1..], few);
      if k.id in few {
        var us := Prune(ts, few);
        assert us == [Node(k, below)] + rest;
        assert us[1..] == rest;
        assert Keep(ks, few) == [k] + Keep(ks[1..], few);
      } else {
        assert Prune(ts, few) == rest;
        assert Keep(ks, few) == Keep(ks[1..], few);
      }
    }
  }

  /** For arbitrary grants: the user tree is the menu tree with every subtree below a menu that was
      not itself granted cut off (and without menu keys). */
  lemma UserTreeIsPrunedMenuTree(ms: seq<SysMenu>, granted: seq<int>)
    requires IsTable(ms)
    ensures UserForest(ms, granted)
            == TreesWithoutKeys(Prune(SelectedForest(ms, granted), IdSet(granted)))
  {
    var few, many := IdSet(granted), Selection(ById(ms), granted);
    SelectionIsLeastClosure(ById(ms), granted);
    forall m | m in ms && m.id in few ensures m.id in many {
      MemberIds(ms, m);
    }
    var big, small := Keep(ms, many), Keep(ms, few);
    KeepIsTable(ms, many);
    KeepIsTable(ms, few);
    WithoutKeysIsTable(small);
    var ts := SelectedForest(ms, granted);
    ForestCharacterised(big, ts);
    PruneHangs(ts, Children(big, 0), ms, few, many);
    ChildrenOfKept(ms, few, many, 0);
    HangsWithoutKeys(Prune(ts, few), Children(small, 0), small);
    ChildrenWithoutKeys(small, 0);
    ForestCharacterised(WithoutKeys(small), TreesWithoutKeys(Prune(ts, few)));
  }

  ghost predicate AllShownIn(ts: seq<Tree>, ids: set<int>) {
    forall id :: id in PreorderIds(ts) ==> id in ids
  }

  lemma {:induction false} PruneShows(ts: seq<Tree>, granted: set<int>)
    ensures AllShownIn(Prune(ts, granted), granted)
    decreases ts
  {
    if ts != [] {
      PruneShows(ts[0].children, granted);
      PruneShows(ts[1..], granted);
      var below, rest := Prune(ts[0].children, granted), Prune(ts[1..], granted);
      if ts[0].menu.id in granted {
        var us := Prune(ts, granted);
        assert us == [Node(ts[0].menu, below)] + rest;
        assert us[1..] == rest;
      } else {
        assert Prune(ts, granted) == rest;
      }
    }
  }

  lemma {:induction false} PruneIdentity(ts: seq<Tree>, granted: set<int>)
    requires AllShownIn(ts, granted)
    ensures Prune(ts, granted) == ts
    decreases ts
  {
    if ts != [] {
      assert PreorderIds(ts)[0] == ts[0].menu.id;
      PruneIdentity(ts[0].children, granted);
      PruneIdentity(ts[1..], granted);
      assert ts == [ts[0]] + ts[1..];
    }
  }

  lemma {:induction false} KeysDoNotShow(ts: seq<Tree>)
    ensures PreorderIds(TreesWithoutKeys(ts)) == PreorderIds(ts)
    decreases ts
  {
    if ts != [] {
      KeysDoNotShow(ts[0].children);
      KeysDoNotShow(ts[1..]);
      assert TreesWithoutKeys(ts)[1..] == TreesWithoutKeys(ts[1..]);
    }
  }

  /** The two endpoints agree exactly when the menu tree shows granted menus only, that is, when
      no ancestor had to be added for display. */
  lemma TreesAgreeIffGrantedShown(ms: seq<SysMenu>, granted: seq<int>)
    requires IsTable(ms)
    ensures UserForest(ms, granted) == TreesWithoutKeys(SelectedForest(ms, granted))
            <==> AllShownIn(SelectedForest(ms, granted), IdSet(granted))
  {
    var ts := SelectedForest(ms, granted);
    var pruned := Prune(ts, IdSet(granted));
    UserTreeIsPrunedMenuTree(ms, granted);
    if AllShownIn(ts, IdSet(granted)) {
      PruneIdentity(ts, IdSet(granted));
    }
    if TreesWithoutKeys(pruned) == TreesWithoutKeys(ts) {
      KeysDoNotShow(pruned);
      KeysDoNotShow(ts);
      PruneShows(ts, IdSet(granted));
    }
  }

  /** Every granted menu that can be displayed at all has its parent granted too. */
  ghost predicate ParentsGranted(ms: seq<SysMenu>, granted: seq<int>) {
    forall m :: m in ms && m.id in granted && m.parentId > 0 && Rooted(ById(ms), m.id) ==> m.parentId in granted
  }

  /** Climbing from a granted menu to a displayable one meets granted menus only. */
  lemma {:induction false} ClimbStaysGranted(ms: seq<SysMenu>, granted: seq<int>, g: int, id: int, k: nat)
    requires IsTable(ms) && ParentsGranted(ms, granted)
    requires g in granted && Climbs(ById(ms), g, id, k) && Rooted(ById(ms), id)
    ensures id in granted
    decreases k
  {
    if k > 0 {
      var m := ById(ms);
      ByIdEntry(ms, g);
      ClimbIsRooted(m, g, id, k);
      ClimbStaysGranted(ms, granted, m[g].parentId, id, k - 1);
    }
  }

  lemma {:induction false} ClimbIsRooted(m: map<int, SysMenu>, g: int, id: int, k: nat)
    requires Climbs(m, g, id, k) && Rooted(m, id)
    ensures Rooted(m, g)
    decreases k
  {
    if k > 0 {
      ClimbIsRooted(m, m[g].parentId, id, k - 1);
      var d: nat :| AtDepth(m, m[g].parentId, d);
      assert AtDepth(m, g, d + 1);
    }
  }

  /** A displayable granted menu makes its parent appear in the menu tree. */
  lemma ParentIsShown(ms: seq<SysMenu>, granted: seq<int>, m: SysMenu)
    requires IsTable(ms) && m in ms && m.id in granted && m.parentId > 0 && Rooted(ById(ms), m.id)
    ensures m.parentId in PreorderIds(SelectedForest(ms, granted))
  {
    var table := ById(ms);
    MemberIds(ms, m);
    ByIdMember(ms, m);
    assert Climbs(table, m.parentId, m.parentId, 0);
    assert Climbs(table, m.id, m.parentId, 1);
    var d: nat :| AtDepth(table, m.id, d);
    assert AtDepth(table, m.parentId, d - 1);
    SelectedForestShowsExactly(ms, granted, m.parentId);
  }

  /** The two endpoints agree exactly when every granted menu whose parent chain reaches a root has
      its parent granted too; what hangs from a cycle or a missing row does not matter. */
  lemma TreesAgreeIff(ms: seq<SysMenu>, granted: seq<int>)
    requires IsTable(ms)
    ensures UserForest(ms, granted) == TreesWithoutKeys(SelectedForest(ms, granted))
            <==> ParentsGranted(ms, granted)
  {
    var ts := SelectedForest(ms, granted);
    TreesAgreeIffGrantedShown(ms, granted);
    if ParentsGranted(ms, granted) {
      forall id | id in PreorderIds(ts) ensures id in IdSet(granted) {
        SelectedForestShowsExactly(ms, granted, id);
        var g, k: nat :| g in granted && g > 0 && Climbs(ById(ms), g, id, k);
        ClimbStaysGranted(ms, granted, g, id, k);
      }
    }
    if AllShownIn(ts, IdSet(granted)) {
      forall m | m in ms && m.id in granted && m.parentId > 0 && Rooted(ById(ms), m.id)
        ensures m.parentId in granted
      {
        ParentIsShown(ms, granted, m);
      }
    }
  }

  /** In particular they agree whenever every granted menu's listed parent is granted too. */
  lemma AncestorClosedGrantsAgree(ms: seq<SysMenu>, granted: seq<int>)
    requires IsTable(ms)
    requires forall m :: m in ms && m.id in granted && m.parentId > 0 ==> m.parentId in granted
    ensures UserForest(ms, granted) == TreesWithoutKeys(SelectedForest(ms, granted))
  {
    TreesAgreeIff(ms, granted);
  }

  /** A granted page under a directory that was not granted: routed, but missing from the user tree. */
  lemma PartialGrantDisagrees()
    ensures exists ms: seq<SysMenu>, granted: seq<int> ::
              IsTable(ms) && UserForest(ms, granted) == [] && |SelectedForest(ms, granted)| == 1
  {
    var dir := SysMenu(1, 0, "System", "", "system", "", "", "", Directory, 0, 1, 1, 0, 0, map[], "");
    var page := SysMenu(2, 1, "Users", "", "user", "", "", "", Menu, 0, 1, 1, 0, 0, map[], "");
    var ms, granted := [dir, page], [2];
    assert Ids(ms[1..]) == [2] + Ids(ms[1..][1..]);
    assert ms[1..][1..] == [];
    assert IsTable(ms);
    KeepIsTable(ms, IdSet(granted));
    var small := Keep(ms, IdSet(granted));
    assert Keep(ms[1..], IdSet(granted)) == [page];
    assert small == [page];
    var bare := WithoutKeys(small);
    assert small[1..] == [] && WithoutKeys(small[1..]) == [];
    assert bare == [WithoutKey(page)];
    assert Children(bare, 0) == [];
    WithoutKeysIsTable(small);
    ForestCharacterised(bare, []);
    assert UserForest(ms, granted) == [];

    var sel := Selection(ById(ms), granted);
    SelectionIsLeastClosure(ById(ms), granted);
    ByIdMember(ms, page);
    assert 2 in sel && 1 in sel;
    KeepIsTable(ms, sel);
    assert Keep(ms[1..], sel) == [page];
    var big := Keep(ms, sel);
    assert big == [dir, page];
    assert Children(big[1..], 0) == [];
    assert Children(big, 0) == [dir];
    ForestCharacterised(big, SelectedForest(ms, granted));
    var ts := SelectedForest(ms, granted);
    assert Hangs(ts, [dir], big);
    assert Hangs(ts[1..], [], big);
    assert |ts| == 1;
  }
}
