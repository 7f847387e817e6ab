/** The forest a flat menu list describes, independently of how a controller links it. */
module MenuForest {
  import opened MenuModel

  function Ids(ms: seq<SysMenu>): (r: seq<int>) {
    if ms == [] then [] else [ms[0].id] + Ids(ms[1..])
  }

  /** Primary keys: positive and distinct. */
  predicate IsTable(ms: seq<SysMenu>) {
    ms == [] || (ms[0].id > 0 && ms[0].id !in Ids(ms[1..]) && IsTable(ms[1..]))
  }

  /** Lookup by ID; a later row with the same ID wins. */
  function ById(ms: seq<SysMenu>): map<int, SysMenu> {
    if ms == [] then map[]
    else ById(ms[..|ms| - 1])[ms[|ms| - 1].id := ms[|ms| - 1]]
  }

  lemma {:induction false} MemberIds(ms: seq<SysMenu>, m: SysMenu)
    requires m in ms
    ensures m.id in Ids(ms)
    ensures IsTable(ms) ==> m.id > 0
  {
    if m != ms[0] {
      assert m in ms[1..];
      MemberIds(ms[1..], m);
    }
  }

  lemma {:induction false} TableIsInjective(ms: seq<SysMenu>, a: SysMenu, b: SysMenu)
    requires IsTable(ms) && a in ms && b in ms && a.id == b.id
    ensures a == b
  {
    if a == ms[0] {
      if b in ms[1..] { MemberIds(ms[1..], b); }
    } else if b == ms[0] {
      assert a in ms[1..];
      MemberIds(ms[1..], a);
    } else {
      assert a in ms[1..] && b in ms[1..];
      TableIsInjective(ms[1..], a, b);
    }
  }

  lemma {:induction false} ByIdEntry(ms: seq<SysMenu>, id: int)
    requires id in ById(ms)
    ensures ById(ms)[id].id == id && ById(ms)[id] in ms
  {
    var init := ms[..|ms| - 1];
    if id != ms[|ms| - 1].id { ByIdEntry(init, id); }
  }

  lemma {:induction false} ByIdMember(ms: seq<SysMenu>, m: SysMenu)
    requires m in ms
    ensures m.id in ById(ms)
    ensures IsTable(ms) ==> ById(ms)[m.id] == m
  {
    var init := ms[..|ms| - 1];
    assert ms == init + [ms[|ms| - 1]];
    if m in init {
      ByIdMember(ms[..|ms| - 1], m);
    }
    assert m.id in ById(ms);
    if IsTable(ms) {
      ByIdEntry(ms, m.id);
      TableIsInjective(ms, m, ById(ms)[m.id]);
    }
  }

  lemma {:induction false} ByIdSize(ms: seq<SysMenu>)
    ensures |ById(ms)| <= |ms|
  {
    if ms != [] {
      ByIdSize(ms[..|ms| - 1]);
      var m := ById(ms[..|ms| - 1]);
      assert ById(ms).Keys == m.Keys + {ms[|ms| - 1].id};
    }
  }

  /** The rows whose parent is `pid`, in list order; the roots are the rows under 0. */
  function Children(ms: seq<SysMenu>, pid: int): seq<SysMenu> {
    if ms == [] then []
    else (if ms[0].parentId == pid then [ms[0]] else []) + Children(ms[1..], pid)
  }

  lemma {:induction false} ChildrenMembers(ms: seq<SysMenu>, pid: int, m: SysMenu)
    ensures m in Children(ms, pid) <==> m in ms && m.parentId == pid
  {
    if ms != [] {
      ChildrenMembers(ms[1..], pid, m);
      assert ms == [ms[0]] + ms[1..];
    }
  }

  /** The rows whose ID is in `ids`, in list order. */
  function Keep(ms: seq<SysMenu>, ids: set<int>): seq<SysMenu> {
    if ms == [] then []
    else (if ms[0].id in ids then [ms[0]] else []) + Keep(ms[1..], ids)
  }

  lemma {:induction false} KeepMembers(ms: seq<SysMenu>, ids: set<int>, m: SysMenu)
    ensures m in Keep(ms, ids) <==> m in ms && m.id in ids
  {
    if ms != [] {
      KeepMembers(ms[1..], ids, m);
      assert ms == [ms[0]] + ms[1..];
    }
  }

  lemma {:induction false} IdsMember(ms: seq<SysMenu>, id: int) returns (m: SysMenu)
    requires id in Ids(ms)
    ensures m in ms && m.id == id
  {
    if ms[0].id == id { m := ms[0]; } else { m := IdsMember(ms[1..], id); }
  }

  lemma {:induction false} KeepIsTable(ms: seq<SysMenu>, ids: set<int>)
    requires IsTable(ms)
    ensures IsTable(Keep(ms, ids))
  {
    if ms != [] {
      KeepIsTable(ms[1..], ids);
      var r := Keep(ms[1..], ids);
      if ms[0].id in Ids(r) {
        var m := IdsMember(r, ms[0].id);
        KeepMembers(ms[1..], ids, m);
        MemberIds(ms[1..], m);
        assert false;
      }
      assert Keep(ms, ids) == if ms[0].id in ids then [ms[0]] + r else r;
    }
  }

  // ----- Depth: how far a row is from a root

  /** The parent chain of `id` reaches a root row after exactly `d` steps. */
  predicate AtDepth(m: map<int, SysMenu>, id: int, d: nat)
    decreases d
  {
    && id in m
    && if d == 0 then m[id].parentId == 0
       else m[id].parentId != 0 && AtDepth(m, m[id].parentId, d - 1)
  }

  /** The parent chain is neither dangling nor cyclic. */
  ghost predicate Rooted(m: map<int, SysMenu>, id: int) { exists d: nat :: AtDepth(m, id, d) }

  lemma {:induction false} DepthIsUnique(m: map<int, SysMenu>, id: int, d: nat, e: nat)
    requires AtDepth(m, id, d) && AtDepth(m, id, e)
    ensures d == e
    decreases d
  {
    if d > 0 && e > 0 { DepthIsUnique(m, m[id].parentId, d - 1, e - 1); }
  }

  /** The IDs on the chain from `id` to its root are all different, so there are `d + 1` of them. */
  lemma {:induction false} ChainIds(m: map<int, SysMenu>, id: int, d: nat) returns (chain: set<int>)
    requires AtDepth(m, id, d)
    ensures chain <= m.Keys && |chain| == d + 1
    ensures forall x :: x in chain ==> WithinDepth(m, x, d)
    decreases d
  {
    assert WithinDepth(m, id, d);
    if d == 0 {
      chain := {id};
    } else {
      var up := ChainIds(m, m[id].parentId, d - 1);
      if id in up {
        assert WithinDepth(m, id, d - 1);
        var e: nat :| e <= d - 1 && AtDepth(m, id, e);
        DepthIsUnique(m, id, d, e);
        assert false;
      }
      chain := up + {id};
      forall x | x in up ensures WithinDepth(m, x, d) {
        var e: nat :| e <= d - 1 && AtDepth(m, x, e);
      }
    }
  }

  ghost predicate WithinDepth(m: map<int, SysMenu>, id: int, d: nat) {
    exists e: nat :: e <= d && AtDepth(m, id, e)
  }

  lemma DepthIsBounded(m: map<int, SysMenu>, id: int, d: nat)
    requires AtDepth(m, id, d)
    ensures d < |m|
  {
    var chain := ChainIds(m, id, d);
    assert m.Keys == chain + (m.Keys - chain);
  }

  // ----- The forest

  /** Local correctness all the way down: the trees carry the rows `ks`, and below every node
      come exactly the rows under its ID, in list order. */
  predicate Hangs(ts: seq<Tree>, ks: seq<SysMenu>, ms: seq<SysMenu>)
    decreases ts
  {
    if ts == [] then ks == []
    else
      && ks != []
      && ts[0].menu == ks[0]
      && Hangs(ts[0].children, Children(ms, ks[0].id), ms)
      && Hangs(ts[1..], ks[1..], ms)
  }

  predicate IsForest(ts: seq<Tree>, ms: seq<SysMenu>) { Hangs(ts, Children(ms, 0), ms) }

  lemma {:induction false} HangsUniquely(ts: seq<Tree>, us: seq<Tree>, ks: seq<SysMenu>, ms: seq<SysMenu>)
    requires Hangs(ts, ks, ms) && Hangs(us, ks, ms)
    ensures ts == us
    decreases ts
  {
    if ts != [] {
      HangsUniquely(ts[0].children, us[0].children, Children(ms, ks[0].id), ms);
      HangsUniquely(ts[1..], us[1..], ks[1..], ms);
      assert ts == [ts[0]] + ts[1..] && us == [us[0]] + us[1..];
    }
  }

  predicate Listed(ms: seq<SysMenu>, m: SysMenu) {
    m.id in ById(ms) && ById(ms)[m.id] == m
  }

  /** Every row of `ks` is a row of `ms` that sits `d` levels below the top. */
  predicate OnLevel(ms: seq<SysMenu>, ks: seq<SysMenu>, d: nat) {
    ks == [] || (Listed(ms, ks[0]) && AtDepth(ById(ms), ks[0].id, d) && OnLevel(ms, ks[1..], d))
  }

  lemma {:induction false} LevelFromMembers(ms: seq<SysMenu>, ks: seq<SysMenu>, d: nat)
    requires forall m :: m in ks ==> Listed(ms, m) && AtDepth(ById(ms), m.id, d)
    ensures OnLevel(ms, ks, d)
  {
    if ks != [] { LevelFromMembers(ms, ks[1..], d); }
  }

  lemma ChildrenLevel(ms: seq<SysMenu>, pid: int, d: nat)
    requires IsTable(ms) && AtDepth(ById(ms), pid, d)
    ensures OnLevel(ms, Children(ms, pid), d + 1)
    ensures d < |ms|
  {
    DepthIsBounded(ById(ms), pid, d);
    ByIdSize(ms);
    ByIdEntry(ms, pid);
    MemberIds(ms, ById(ms)[pid]);
    var kids := Children(ms, pid);
    forall m | m in kids ensures Listed(ms, m) && AtDepth(ById(ms), m.id, d + 1) {
      ChildrenMembers(ms, pid, m);
      ByIdMember(ms, m);
    }
    LevelFromMembers(ms, kids, d + 1);
  }

  lemma RootsLevel(ms: seq<SysMenu>)
    requires IsTable(ms)
    ensures OnLevel(ms, Children(ms, 0), 0)
  {
    var kids := Children(ms, 0);
    forall m | m in kids ensures Listed(ms, m) && AtDepth(ById(ms), m.id, 0) {
      ChildrenMembers(ms, 0, m);
      ByIdMember(ms, m);
    }
    LevelFromMembers(ms, kids, 0);
  }

  /** The trees rooted at `ks`, which sit `d` levels below the top. */
  ghost function TreesAt(ms: seq<SysMenu>, ks: seq<SysMenu>, d: nat): seq<Tree>
    requires IsTable(ms) && OnLevel(ms, ks, d)
    decreases if |ms| >= d then |ms| - d else 0, |ks|
  {
    if ks == [] then []
    else
      ChildrenLevel(ms, ks[0].id, d);
      [Node(ks[0], TreesAt(ms, Children(ms, ks[0].id), d + 1))] + TreesAt(ms, ks[1..], d)
  }

  /** The forest of a menu table. */
  ghost function Forest(ms: seq<SysMenu>): seq<Tree>
    requires IsTable(ms)
  {
    RootsLevel(ms);
    TreesAt(ms, Children(ms, 0), 0)
  }

  lemma {:induction false} TreesAtHang(ms: seq<SysMenu>, ks: seq<SysMenu>, d: nat)
    requires IsTable(ms) && OnLevel(ms, ks, d)
    ensures Hangs(TreesAt(ms, ks, d), ks, ms)
    decreases if |ms| >= d then |ms| - d else 0, |ks|
  {
    if ks != [] {
      ChildrenLevel(ms, ks[0].id, d);
      TreesAtHang(ms, Children(ms, ks[0].id), d + 1);
      TreesAtHang(ms, ks[1..], d);
    }
  }

  /** The forest exists for every table, cyclic and dangling parents included, and is the only
      finite forest in which each node carries exactly its own children in list order. */
  lemma ForestCharacterised(ms: seq<SysMenu>, ts: seq<Tree>)
    requires IsTable(ms)
    ensures ts == Forest(ms) <==> IsForest(ts, ms)
  {
    RootsLevel(ms);
    TreesAtHang(ms, Children(ms, 0), 0);
    if IsForest(ts, ms) {
      HangsUniquely(ts, Forest(ms), Children(ms, 0), ms);
    }
  }

  // ----- Every rooted row exactly once

  lemma {:induction false} ChildCount(ms: seq<SysMenu>, pid: int, m: SysMenu)
    requires IsTable(ms) && m in ms
    ensures multiset(Ids(Children(ms, pid)))[m.id] == if m.parentId == pid then 1 else 0
  {
    var rest := Children(ms[1..], pid);
    if m in ms[1..] {
      ChildCount(ms[1..], pid, m);
      MemberIds(ms[1..], m);
    } else if m.id in Ids(rest) {
      var x := IdsMember(rest, m.id);
      ChildrenMembers(ms[1..], pid, x);
      MemberIds(ms[1..], x);
      assert false;
    }
    assert Children(ms, pid) == if ms[0].parentId == pid then [ms[0]] + rest else rest;
  }

  /** The ancestor of `id` that sits at depth `d`. */
  function AncestorAt(m: map<int, SysMenu>, id: int, e: nat, d: nat): (r: int)
    requires AtDepth(m, id, e) && d <= e
    ensures AtDepth(m, r, d)
    decreases e
  {
    if d == e then id else AncestorAt(m, m[id].parentId, e - 1, d)
  }

  lemma {:induction false} AncestorStep(m: map<int, SysMenu>, id: int, e: nat, d: nat)
    requires AtDepth(m, id, e) && d < e
    ensures m[AncestorAt(m, id, e, d + 1)].parentId == AncestorAt(m, id, e, d)
    decreases e
  {
    if d + 1 < e { AncestorStep(m, m[id].parentId, e - 1, d); }
  }

  /** How often `id`, which sits at depth `e`, appears in trees at depth `d`: once for every root
      of those trees that is its ancestor at that depth. */
  lemma {:induction false} CountInTrees(ts: seq<Tree>, ms: seq<SysMenu>, ks: seq<SysMenu>, d: nat, id: int, e: nat)
    requires IsTable(ms) && OnLevel(ms, ks, d) && Hangs(ts, ks, ms)
    requires AtDepth(ById(ms), id, e)
    ensures multiset(PreorderIds(ts))[id]
            == if d <= e then multiset(Ids(ks))[AncestorAt(ById(ms), id, e, d)] else 0
    decreases ts
  {
    if ts != [] {
      var k := ks[0];
      ChildrenLevel(ms, k.id, d);
      CountInTrees(ts[0].children, ms, Children(ms, k.id), d + 1, id, e);
      CountInTrees(ts[1..], ms, ks[1..], d, id, e);
      PreorderStep(ts, id);
      CountBelow(ms, k, d, id, e);
      if d <= e { IdsStep(ks, AncestorAt(ById(ms), id, e, d)); }
    }
  }

  lemma CountBelow(ms: seq<SysMenu>, k: SysMenu, d: nat, id: int, e: nat)
    requires IsTable(ms) && AtDepth(ById(ms), k.id, d) && AtDepth(ById(ms), id, e)
    ensures k.id == id ==> d == e
    ensures d < e ==> multiset(Ids(Children(ms, k.id)))[AncestorAt(ById(ms), id, e, d + 1)]
                      == if k.id == AncestorAt(ById(ms), id, e, d) then 1 else 0
  {
    if k.id == id { DepthIsUnique(ById(ms), id, d, e); }
    if d < e {
      var c := AncestorAt(ById(ms), id, e, d + 1);
      AncestorStep(ById(ms), id, e, d);
      ByIdEntry(ms, c);
      ChildCount(ms, k.id, ById(ms)[c]);
    }
  }

  lemma PreorderStep(ts: seq<Tree>, id: int)
    requires ts != []
    ensures multiset(PreorderIds(ts))[id]
            == (if ts[0].menu.id == id then 1 else 0)
               + multiset(PreorderIds(ts[0].children))[id] + multiset(PreorderIds(ts[1..]))[id]
  {
  }

  lemma IdsStep(ks: seq<SysMenu>, id: int)
    requires ks != []
    ensures multiset(Ids(ks))[id] == (if ks[0].id == id then 1 else 0) + multiset(Ids(ks[1..]))[id]
  {
  }

  lemma {:induction false} ShownIsRooted(ts: seq<Tree>, ms: seq<SysMenu>, ks: seq<SysMenu>, d: nat, id: int)
    requires IsTable(ms) && OnLevel(ms, ks, d) && Hangs(ts, ks, ms)
    ensures multiset(PreorderIds(ts))[id] == 0 || Rooted(ById(ms), id)
    decreases ts
  {
    if ts != [] {
      ChildrenLevel(ms, ks[0].id, d);
      ShownIsRooted(ts[0].children, ms, Children(ms, ks[0].id), d + 1, id);
      ShownIsRooted(ts[1..], ms, ks[1..], d, id);
      PreorderStep(ts, id);
    }
  }

  /** Conservation: the forest shows every row whose chain reaches a root exactly once, and no
      row on a cyclic or dangling chain. */
  lemma ForestShowsRootedOnce(ms: seq<SysMenu>, id: int)
    requires IsTable(ms)
    ensures multiset(PreorderIds(Forest(ms)))[id] == if Rooted(ById(ms), id) then 1 else 0
  {
    RootsLevel(ms);
    var roots, ts := Children(ms, 0), Forest(ms);
    ForestCharacterised(ms, ts);
    if Rooted(ById(ms), id) {
      var e: nat :| AtDepth(ById(ms), id, e);
      CountInTrees(ts, ms, roots, 0, id, e);
      var top := AncestorAt(ById(ms), id, e, 0);
      ByIdEntry(ms, top);
      ChildCount(ms, 0, ById(ms)[top]);
    } else {
      ShownIsRooted(ts, ms, roots, 0, id);
    }
  }
}
