/** The two controllers' tree builders: flat rows become linked heap nodes. */
module MenuBuild {
  import opened GoStrings
  import opened MenuModel
  import opened MenuForest
  import opened MenuSelection

  ghost function Region(nodes: seq<MenuItem>): set<MenuItem> { set n | n in nodes }

  // ----- Linking

  /** The node index both builders fill; a later node with the same ID wins. */
  function NodeById(nodes: seq<MenuItem>): map<int, MenuItem> {
    if nodes == [] then map[]
    else NodeById(nodes[..|nodes| - 1])[nodes[|nodes| - 1].menu.id := nodes[|nodes| - 1]]
  }

  function WithParent(nodes: seq<MenuItem>, pid: int): seq<MenuItem> {
    if nodes == [] then []
    else WithParent(nodes[..|nodes| - 1], pid) +
         (if nodes[|nodes| - 1].menu.parentId == pid then [nodes[|nodes| - 1]] else [])
  }

  lemma {:induction false} NodeByIdEntry(nodes: seq<MenuItem>, id: int)
    ensures id in NodeById(nodes) ==> NodeById(nodes)[id] in nodes && NodeById(nodes)[id].menu.id == id
    ensures forall i :: 0 <= i < |nodes| && nodes[i].menu.id == id ==> id in NodeById(nodes)
  {
    if nodes != [] {
      var init := nodes[..|nodes| - 1];
      NodeByIdEntry(init, id);
      forall i | 0 <= i < |nodes| && nodes[i].menu.id == id ensures id in NodeById(nodes) {
        if i < |nodes| - 1 { assert init[i] == nodes[i]; }
      }
    }
  }

  /** What linking appends to the children of `n`: the nodes that name its ID as their parent,
      unless a later node took the ID over. ID 0 marks roots and never collects children. */
  function Appended(nodes: seq<MenuItem>, linked: seq<MenuItem>, n: MenuItem): seq<MenuItem> {
    if n.menu.id != 0 && n.menu.id in NodeById(nodes) && NodeById(nodes)[n.menu.id] == n
    then WithParent(linked, n.menu.id)
    else []
  }

  lemma AppendedStep(nodes: seq<MenuItem>, k: nat, n: MenuItem)
    requires k < |nodes|
    ensures var pid := nodes[k].menu.parentId;
            Appended(nodes, nodes[..k + 1], n)
            == if pid != 0 && pid in NodeById(nodes) && NodeById(nodes)[pid] == n
               then Appended(nodes, nodes[..k], n) + [nodes[k]]
               else Appended(nodes, nodes[..k], n)
  {
    assert nodes[..k + 1][..k] == nodes[..k];
    NodeByIdEntry(nodes, nodes[k].menu.parentId);
  }

  /** One linking step, on the child slices before the loop, before the step and after it. */
  lemma AppendedAfter(nodes: seq<MenuItem>, k: nat, n: MenuItem, first: seq<MenuItem>, before: seq<MenuItem>,
                      after: seq<MenuItem>)
    requires k < |nodes| && before == first + Appended(nodes, nodes[..k], n)
    requires var pid := nodes[k].menu.parentId;
             after == if pid != 0 && pid in NodeById(nodes) && NodeById(nodes)[pid] == n then before + [nodes[k]]
                      else before
    ensures after == first + Appended(nodes, nodes[..k + 1], n)
  {
    AppendedStep(nodes, k, n);
  }

  lemma RootsStep(nodes: seq<MenuItem>, k: nat)
    requires k < |nodes|
    ensures WithParent(nodes[..k + 1], 0)
            == if nodes[k].menu.parentId == 0 then WithParent(nodes[..k], 0) + [nodes[k]] else WithParent(nodes[..k], 0)
  {
    assert nodes[..k + 1][..k] == nodes[..k];
  }

  method IndexNodes(nodes: seq<MenuItem>) returns (nodeMap: map<int, MenuItem>)
    ensures nodeMap == NodeById(nodes)
  {
    nodeMap := map[];
    for k := 0 to |nodes|
      invariant nodeMap == NodeById(nodes[..k])
    {
      nodeMap := nodeMap[nodes[k].menu.id := nodes[k]];
      assert nodes[..k + 1][..k] == nodes[..k];
    }
    assert nodes[..|nodes|] == nodes;
  }

  /** The linking loop shared by both builders. It writes nothing but the child slices. */
  method LinkForest(nodes: seq<MenuItem>) returns (roots: seq<MenuItem>)
    modifies Region(nodes)
    ensures roots == WithParent(nodes, 0)
    ensures forall n :: n in nodes ==> n.children == old(n.children) + Appended(nodes, nodes, n)
  {
    var nodeMap := IndexNodes(nodes);
    roots := [];
    for k := 0 to |nodes|
      invariant roots == WithParent(nodes[..k], 0)
      invariant forall n :: n in nodes ==> n.children == old(n.children) + Appended(nodes, nodes[..k], n)
    {
      var m := nodes[k];
      RootsStep(nodes, k);
      label Before:
      if m.menu.parentId == 0 {
        roots := roots + [m];
      } else if m.menu.parentId in nodeMap {
        var parent := nodeMap[m.menu.parentId];
        NodeByIdEntry(nodes, m.menu.parentId);
        parent.children := parent.children + [m];
      }
      forall n | n in nodes ensures n.children == old(n.children) + Appended(nodes, nodes[..k + 1], n) {
        AppendedAfter(nodes, k, n, old(n.children), old@Before(n.children), n.children);
      }
    }
    assert nodes[..|nodes|] == nodes;
  }

  // ----- From the linked heap to the forest it represents

  lemma {:induction false} ChildrenSplit(a: seq<SysMenu>, b: seq<SysMenu>, pid: int)
    ensures Children(a + b, pid) == Children(a, pid) + Children(b, pid)
  {
    if a == [] {
      assert a + b == b;
    } else {
      assert (a + b)[0] == a[0] && (a + b)[1..] == a[1..] + b;
      ChildrenSplit(a[1..], b, pid);
      var head := if a[0].parentId == pid then [a[0]] else [];
      assert head + (Children(a[1..], pid) + Children(b, pid)) == (head + Children(a[1..], pid)) + Children(b, pid);
    }
  }

  lemma {:induction false} MenusSplit(a: seq<MenuItem>, b: seq<MenuItem>)
    ensures Menus(a + b) == Menus(a) + Menus(b)
  {
    if a == [] {
      assert a + b == b;
    } else {
      assert (a + b)[1..] == a[1..] + b;
      MenusSplit(a[1..], b);
    }
  }

  lemma {:induction false} WithParentMenus(nodes: seq<MenuItem>, pid: int)
    ensures Menus(WithParent(nodes, pid)) == Children(Menus(nodes), pid)
    ensures forall n :: n in WithParent(nodes, pid) ==> n in nodes
  {
    if nodes != [] {
      var init, last := nodes[..|nodes| - 1], nodes[|nodes| - 1];
      WithParentMenus(init, pid);
      assert nodes == init + [last];
      MenusSplit(init, [last]);
      ChildrenSplit(Menus(init), [last.menu], pid);
      assert Menus([last]) == [last.menu];
      MenusSplit(WithParent(init, pid), [last]);
      assert Children([last.menu], pid) == if last.menu.parentId == pid then [last.menu] else [];
      assert WithParent(nodes, pid)
          == if last.menu.parentId == pid then WithParent(init, pid) + [last] else WithParent(init, pid);
    }
  }

  lemma {:induction false} MenuOfNode(nodes: seq<MenuItem>, n: MenuItem)
    requires n in nodes
    ensures n.menu in Menus(nodes)
  {
    if n != nodes[0] { MenuOfNode(nodes[1..], n); }
  }

  /** In a table every node owns its ID. */
  lemma {:induction false} NodeOwnsId(nodes: seq<MenuItem>, n: MenuItem)
    requires IsTable(Menus(nodes)) && n in nodes
    ensures n.menu.id > 0 && n.menu.id in NodeById(nodes) && NodeById(nodes)[n.menu.id] == n
  {
    NodeByIdEntry(nodes, n.menu.id);
    MenuOfNode(nodes, n);
    MemberIds(Menus(nodes), n.menu);
    SameIdSameNode(nodes, n, NodeById(nodes)[n.menu.id]);
  }

  lemma {:induction false} SameIdSameNode(nodes: seq<MenuItem>, a: MenuItem, b: MenuItem)
    requires IsTable(Menus(nodes)) && a in nodes && b in nodes && a.menu.id == b.menu.id
    ensures a == b
  {
    if a == nodes[0] && b in nodes[1..] {
      MenuOfNode(nodes[1..], b);
      MemberIds(Menus(nodes[1..]), b.menu);
    } else if b == nodes[0] && a in nodes[1..] {
      MenuOfNode(nodes[1..], a);
      MemberIds(Menus(nodes[1..]), a.menu);
    } else if a != nodes[0] {
      SameIdSameNode(nodes[1..], a, b);
    }
  }

  lemma {:induction false} LinkedRepresents(nodes: seq<MenuItem>, ks: seq<MenuItem>, ts: seq<Tree>)
    requires forall n :: n in nodes ==> n.children == WithParent(nodes, n.menu.id)
    requires forall n :: n in ks ==> n in nodes
    requires Hangs(ts, Menus(ks), Menus(nodes))
    ensures Represents(ks, ts, Region(nodes))
    decreases ts
  {
    if ts != [] {
      var n := ks[0];
      assert n in ks;
      WithParentMenus(nodes, n.menu.id);
      LinkedRepresents(nodes, n.children, ts[0].children);
      LinkedRepresents(nodes, ks[1..], ts[1..]);
    }
  }

  lemma LinkedIsRepresented(nodes: seq<MenuItem>)
    requires IsTable(Menus(nodes))
    requires forall n :: n in nodes ==> n.children == Appended(nodes, nodes, n)
    ensures Represents(WithParent(nodes, 0), Forest(Menus(nodes)), Region(nodes))
  {
    forall n | n in nodes ensures n.children == WithParent(nodes, n.menu.id) {
      NodeOwnsId(nodes, n);
    }
    ForestCharacterised(Menus(nodes), Forest(Menus(nodes)));
    WithParentMenus(nodes, 0);
    LinkedRepresents(nodes, WithParent(nodes, 0), Forest(Menus(nodes)));
  }

  /** The heap nodes below `roots` in preorder. */
  ghost function HeapNodes(roots: seq<MenuItem>, ts: seq<Tree>, repr: set<MenuItem>): seq<MenuItem>
    requires Represents(roots, ts, repr)
    reads repr
    decreases ts
  {
    if ts == [] then []
    else [roots[0]] + HeapNodes(roots[0].children, ts[0].children, repr) + HeapNodes(roots[1..], ts[1..], repr)
  }

  /** No node is reached twice: the structure below `roots` is a forest on the heap too. */
  ghost predicate Unshared(roots: seq<MenuItem>, ts: seq<Tree>, repr: set<MenuItem>)
    requires Represents(roots, ts, repr)
    reads repr
  {
    var ns := HeapNodes(roots, ts, repr);
    forall i, j :: 0 <= i < j < |ns| ==> ns[i] != ns[j]
  }

  lemma {:induction false} HeapNodeIds(roots: seq<MenuItem>, ts: seq<Tree>, repr: set<MenuItem>)
    requires Represents(roots, ts, repr)
    ensures var ns := HeapNodes(roots, ts, repr);
            |ns| == |PreorderIds(ts)| && forall i :: 0 <= i < |ns| ==> ns[i].menu.id == PreorderIds(ts)[i]
    decreases ts
  {
    if ts != [] {
      HeapNodeIds(roots[0].children, ts[0].children, repr);
      HeapNodeIds(roots[1..], ts[1..], repr);
    }
  }

  lemma RepeatedCounts(ids: seq<int>, i: nat, j: nat)
    requires i < j < |ids| && ids[i] == ids[j]
    ensures multiset(ids)[ids[i]] >= 2
  {
    assert ids == ids[..i] + ([ids[i]] + (ids[i + 1..j] + ([ids[j]] + ids[j + 1..])));
  }

  lemma DistinctIdsUnshared(roots: seq<MenuItem>, ts: seq<Tree>, repr: set<MenuItem>)
    requires Represents(roots, ts, repr) && forall id :: multiset(PreorderIds(ts))[id] <= 1
    ensures Unshared(roots, ts, repr)
  {
    HeapNodeIds(roots, ts, repr);
    var ns, ids := HeapNodes(roots, ts, repr), PreorderIds(ts);
    forall i, j | 0 <= i < j < |ns| ensures ns[i] != ns[j] {
      if ids[i] == ids[j] { RepeatedCounts(ids, i, j); }
    }
  }

  /** Linking freshly cloned nodes of a table yields its forest on the heap, every node once. */
  lemma LinkedForest(nodes: seq<MenuItem>)
    requires IsTable(Menus(nodes))
    requires forall n :: n in nodes ==> n.children == Appended(nodes, nodes, n)
    ensures Represents(WithParent(nodes, 0), Forest(Menus(nodes)), Region(nodes))
    ensures Unshared(WithParent(nodes, 0), Forest(Menus(nodes)), Region(nodes))
  {
    LinkedIsRepresented(nodes);
    forall id ensures multiset(PreorderIds(Forest(Menus(nodes))))[id] <= 1 {
      ForestShowsRootedOnce(Menus(nodes), id);
    }
    DistinctIdsUnshared(WithParent(nodes, 0), Forest(Menus(nodes)), Region(nodes));
  }

  // ----- The menu controller

  lemma PresentStep(all: seq<Option<SysMenu>>, k: nat)
    requires k < |all|
    ensures all[k].None? ==> Present(all[..k + 1]) == Present(all[..k])
    ensures all[k].Some? ==> Present(all[..k + 1]) == Present(all[..k]) + [all[k].value]
  {
    assert all[..k + 1][..k] == all[..k];
  }

  lemma {:induction false} KeepSplit(a: seq<SysMenu>, b: seq<SysMenu>, ids: set<int>)
    ensures Keep(a + b, ids) == Keep(a, ids) + Keep(b, ids)
  {
    if a == [] {
      assert a + b == b;
    } else {
      assert (a + b)[0] == a[0] && (a + b)[1..] == a[1..] + b;
      KeepSplit(a[1..], b, ids);
      var head := if a[0].id in ids then [a[0]] else [];
      assert head + (Keep(a[1..], ids) + Keep(b, ids)) == (head + Keep(a[1..], ids)) + Keep(b, ids);
    }
  }

  lemma KeepStep(ms: seq<SysMenu>, m: SysMenu, ids: set<int>)
    ensures Keep(ms + [m], ids) == if m.id in ids then Keep(ms, ids) + [m] else Keep(ms, ids)
  {
    KeepSplit(ms, [m], ids);
    assert Keep([m], ids) == if m.id in ids then [m] else [];
  }

  lemma MenusStep(nodes: seq<MenuItem>, n: MenuItem)
    ensures Menus(nodes + [n]) == Menus(nodes) + [n.menu]
  {
    MenusSplit(nodes, [n]);
    assert Menus([n]) == [n.menu];
  }

  lemma ByIdAppend(ms: seq<SysMenu>, m: SysMenu)
    ensures ById(ms + [m]) == ById(ms)[m.id := m]
  {
    assert (ms + [m])[..|ms|] == ms;
  }

  method IndexMenus(allMenus: seq<Option<SysMenu>>) returns (entityMap: map<int, SysMenu>)
    ensures entityMap == ById(Present(allMenus))
  {
    entityMap := map[];
    for k := 0 to |allMenus|
      invariant entityMap == ById(Present(allMenus[..k]))
    {
      PresentStep(allMenus, k);
      if allMenus[k].Some? {
        ByIdAppend(Present(allMenus[..k]), allMenus[k].value);
        entityMap := entityMap[allMenus[k].value.id := allMenus[k].value];
      }
    }
    assert allMenus[..|allMenus|] == allMenus;
  }

  method CloneSelected(allMenus: seq<Option<SysMenu>>, selectedMap: set<int>) returns (items: seq<MenuItem>)
    ensures Menus(items) == Keep(Present(allMenus), selectedMap)
    ensures fresh(Region(items))
    ensures forall n :: n in items ==> n.children == []
  {
    items := [];
    for k := 0 to |allMenus|
      invariant Menus(items) == Keep(Present(allMenus[..k]), selectedMap)
      invariant forall n :: n in items ==> fresh(n) && n.children == []
    {
      PresentStep(allMenus, k);
      if allMenus[k].Some? {
        KeepStep(Present(allMenus[..k]), allMenus[k].value, selectedMap);
        if allMenus[k].value.id in selectedMap {
          var clone := new MenuItem(allMenus[k].value);
          MenusStep(items, clone);
          items := items + [clone];
        }
      }
    }
    assert allMenus[..|allMenus|] == allMenus;
  }

  /** Keeps every selected row and every ancestor it needs, then links. Nil rows are skipped. */
  method BuildFilteredTree(allMenus: seq<Option<SysMenu>>, selectedIDs: seq<int>)
    returns (roots: seq<MenuItem>, ghost nodes: seq<MenuItem>)
    ensures fresh(Region(nodes))
    ensures Menus(nodes) == Keep(Present(allMenus), Selection(ById(Present(allMenus)), selectedIDs))
    ensures roots == WithParent(nodes, 0)
    ensures forall n :: n in nodes ==> n.children == Appended(nodes, nodes, n)
    ensures IsTable(Present(allMenus)) ==>
              && Represents(roots, SelectedForest(Present(allMenus), selectedIDs), Region(nodes))
              && Unshared(roots, SelectedForest(Present(allMenus), selectedIDs), Region(nodes))
  {
    ghost var ms := Present(allMenus);
    if |allMenus| == 0 || |selectedIDs| == 0 {
      roots, nodes := [], [];
      EmptyCases(ms, selectedIDs);
      return;
    }
    var entityMap := IndexMenus(allMenus);
    var selectedMap := CloseSelection(entityMap, selectedIDs);
    var items := CloneSelected(allMenus, selectedMap);
    nodes := items;
    roots := LinkForest(items);
    if IsTable(ms) {
      KeepIsTable(ms, selectedMap);
      LinkedForest(nodes);
    }
  }

  lemma {:induction false} KeepNothing(ms: seq<SysMenu>, ids: set<int>)
    requires ms == [] || ids == {}
    ensures Keep(ms, ids) == []
  {
    if ms != [] { KeepNothing(ms[1..], ids); }
  }

  lemma EmptyCases(ms: seq<SysMenu>, granted: seq<int>)
    requires ms == [] || granted == []
    ensures Keep(ms, Selection(ById(ms), granted)) == []
    ensures IsTable(ms) ==> SelectedForest(ms, granted) == []
  {
    var sel := Selection(ById(ms), granted);
    if granted == [] {
      forall id | id in sel ensures false { SelectionMembers(ById(ms), granted, id); }
      assert sel == {};
    }
    KeepNothing(ms, sel);
  }

  // ----- The user controller

  /** GetInfo copies every field except the menu key. */
  function WithoutKey(m: SysMenu): SysMenu { m.(menuKey := "") }

  /** Of a row, the copy loses the menu key and nothing else. */
  lemma OnlyKeyIsLost(m: SysMenu)
    ensures var c := WithoutKey(m);
            && c.id == m.id && c.parentId == m.parentId && c.name == m.name && c.menuKey == "" && c.path == m.path
            && c.component == m.component && c.perms == m.perms && c.icon == m.icon && c.kind == m.kind
            && c.sort == m.sort && c.visible == m.visible && c.status == m.status && c.isFrame == m.isFrame
            && c.isCache == m.isCache && c.query == m.query && c.remark == m.remark
  {
  }

  function WithoutKeys(ms: seq<SysMenu>): seq<SysMenu> {
    if ms == [] then [] else [WithoutKey(ms[0])] + WithoutKeys(ms[1..])
  }

  lemma {:induction false} WithoutKeysSplit(a: seq<SysMenu>, b: seq<SysMenu>)
    ensures WithoutKeys(a + b) == WithoutKeys(a) + WithoutKeys(b)
  {
    if a == [] {
      assert a + b == b;
    } else {
      assert (a + b)[1..] == a[1..] + b;
      WithoutKeysSplit(a[1..], b);
    }
  }

  lemma {:induction false} WithoutKeysIsTable(ms: seq<SysMenu>)
    ensures Ids(WithoutKeys(ms)) == Ids(ms)
    ensures IsTable(WithoutKeys(ms)) == IsTable(ms)
  {
    if ms != [] {
      WithoutKeysIsTable(ms[1..]);
      assert WithoutKeys(ms)[1..] == WithoutKeys(ms[1..]);
    }
  }

  function IdSet(ids: seq<int>): set<int> { set g | g in ids }

  ghost function UserForest(ms: seq<SysMenu>, menuIds: seq<int>): seq<Tree>
    requires IsTable(ms)
  {
    KeepIsTable(ms, IdSet(menuIds));
    WithoutKeysIsTable(Keep(ms, IdSet(menuIds)));
    Forest(WithoutKeys(Keep(ms, IdSet(menuIds))))
  }

  method GrantedSet(menuIds: seq<int>) returns (menuMap: set<int>)
    ensures menuMap == IdSet(menuIds)
  {
    menuMap := {};
    for k := 0 to |menuIds|
      invariant menuMap == set i | 0 <= i < k :: menuIds[i]
    {
      menuMap := menuMap + {menuIds[k]};
    }
  }

  method CopyGranted(allMenus: seq<SysMenu>, menuIds: seq<int>) returns (filtered: seq<MenuItem>)
    ensures Menus(filtered) == WithoutKeys(Keep(allMenus, IdSet(menuIds)))
    ensures fresh(Region(filtered))
    ensures forall n :: n in filtered ==> n.children == []
  {
    var menuMap := GrantedSet(menuIds);
    filtered := [];
    for k := 0 to |allMenus|
      invariant Menus(filtered) == WithoutKeys(Keep(allMenus[..k], menuMap))
      invariant forall n :: n in filtered ==> fresh(n) && n.children == []
    {
      var m := allMenus[k];
      assert allMenus[..k + 1] == allMenus[..k] + [m];
      KeepStep(allMenus[..k], m, menuMap);
      if m.id in menuMap {
        WithoutKeysSplit(Keep(allMenus[..k], menuMap), [m]);
        assert WithoutKeys([m]) == [WithoutKey(m)];
        var copy := new MenuItem(WithoutKey(m));
        MenusStep(filtered, copy);
        filtered := filtered + [copy];
      }
    }
    assert allMenus[..|allMenus|] == allMenus;
  }

  /** The GetInfo filter keeps the granted rows only, without their ancestors, then links. */
  method BuildUserTree(allMenus: seq<SysMenu>, menuIds: seq<int>)
    returns (roots: seq<MenuItem>, ghost nodes: seq<MenuItem>)
    ensures fresh(Region(nodes))
    ensures Menus(nodes) == WithoutKeys(Keep(allMenus, IdSet(menuIds)))
    ensures roots == WithParent(nodes, 0)
    ensures forall n :: n in nodes ==> n.children == Appended(nodes, nodes, n)
    ensures IsTable(allMenus) ==>
              && Represents(roots, UserForest(allMenus, menuIds), Region(nodes))
              && Unshared(roots, UserForest(allMenus, menuIds), Region(nodes))
  {
    var filtered := CopyGranted(allMenus, menuIds);
    nodes := filtered;
    roots := LinkForest(filtered);
    if IsTable(allMenus) {
      KeepIsTable(allMenus, IdSet(menuIds));
      WithoutKeysIsTable(Keep(allMenus, IdSet(menuIds)));
      LinkedForest(nodes);
    }
  }
}
