/** Which menus a role may see: the granted IDs, closed upward through the parent pointers. */
module MenuSelection {
  import opened GoStrings
  import opened MenuModel
  import opened MenuForest

  /** The rows of a list that may hold nil entries. */
  function Present(all: seq<Option<SysMenu>>): seq<SysMenu> {
    if all == [] then []
    else Present(all[..|all| - 1]) +
         match all[|all| - 1] { case None => [] case Some(m) => [m] }
  }

  /** `to` is reached from `id` by following `k` positive parent pointers. */
  predicate Climbs(m: map<int, SysMenu>, id: int, to: int, k: nat)
    decreases k
  {
    if k == 0 then id == to
    else id in m && m[id].parentId > 0 && Climbs(m, m[id].parentId, to, k - 1)
  }

  /** `id` is a positive granted ID or an ancestor of one. */
  ghost predicate Selected(m: map<int, SysMenu>, granted: seq<int>, id: int) {
    exists g, k: nat :: g in granted && g > 0 && Climbs(m, g, id, k)
  }

  /** With every listed ID, its positive parent. */
  ghost predicate Closed(m: map<int, SysMenu>, ids: set<int>) {
    forall id :: id in ids && id in m && m[id].parentId > 0 ==> m[id].parentId in ids
  }

  lemma {:induction false} ClosedHoldsClimbs(m: map<int, SysMenu>, ids: set<int>, id: int, to: int, k: nat)
    requires Closed(m, ids) && id in ids && Climbs(m, id, to, k)
    ensures to in ids
    decreases k
  {
    if k > 0 { ClosedHoldsClimbs(m, ids, m[id].parentId, to, k - 1); }
  }

  lemma {:induction false} ClimbOneMore(m: map<int, SysMenu>, id: int, to: int, k: nat)
    requires Climbs(m, id, to, k) && to in m && m[to].parentId > 0
    ensures Climbs(m, id, m[to].parentId, k + 1)
    decreases k
  {
    if k > 0 { ClimbOneMore(m, m[id].parentId, to, k - 1); }
  }

  lemma {:induction false} ClimbIsPositive(m: map<int, SysMenu>, id: int, to: int, k: nat)
    requires id > 0 && Climbs(m, id, to, k)
    ensures to > 0
    decreases k
  {
    if k > 0 { ClimbIsPositive(m, m[id].parentId, to, k - 1); }
  }

  lemma SelectedParent(m: map<int, SysMenu>, granted: seq<int>, id: int)
    requires Selected(m, granted, id) && id in m && m[id].parentId > 0
    ensures Selected(m, granted, m[id].parentId)
  {
    var g, k: nat :| g in granted && g > 0 && Climbs(m, g, id, k);
    ClimbOneMore(m, g, id, k);
  }

  /** Selected as a finite set. */
  ghost function Selection(m: map<int, SysMenu>, granted: seq<int>): set<int> {
    set id | id in (set g | g in granted) + (set x | x in m :: m[x].parentId) && Selected(m, granted, id)
  }

  lemma {:induction false} ClimbIsCandidate(m: map<int, SysMenu>, id: int, to: int, k: nat)
    requires Climbs(m, id, to, k)
    ensures id == to || to in (set x | x in m :: m[x].parentId)
    decreases k
  {
    if k > 0 { ClimbIsCandidate(m, m[id].parentId, to, k - 1); }
  }

  lemma SelectionMembers(m: map<int, SysMenu>, granted: seq<int>, id: int)
    ensures id in Selection(m, granted) <==> Selected(m, granted, id)
    ensures id in Selection(m, granted) ==> id > 0
  {
    if Selected(m, granted, id) {
      var g, k: nat :| g in granted && g > 0 && Climbs(m, g, id, k);
      ClimbIsCandidate(m, g, id, k);
      ClimbIsPositive(m, g, id, k);
    }
  }

  /** The selection is the least set that holds the positive granted IDs and is closed under
      positive parents, on cyclic and dangling parents too. */
  lemma SelectionIsLeastClosure(m: map<int, SysMenu>, granted: seq<int>)
    ensures Closed(m, Selection(m, granted))
    ensures forall g :: g in granted && g > 0 ==> g in Selection(m, granted)
    ensures forall ids: set<int> ::
              Closed(m, ids) && (forall g :: g in granted && g > 0 ==> g in ids) ==> Selection(m, granted) <= ids
  {
    var sel := Selection(m, granted);
    forall g | g in granted && g > 0 ensures g in sel {
      assert Climbs(m, g, g, 0);
      SelectionMembers(m, granted, g);
    }
    forall id | id in sel && id in m && m[id].parentId > 0 ensures m[id].parentId in sel {
      SelectedParent(m, granted, id);
      SelectionMembers(m, granted, m[id].parentId);
    }
    forall ids: set<int> | Closed(m, ids) && (forall g :: g in granted && g > 0 ==> g in ids)
      ensures sel <= ids
    {
      forall id | id in sel ensures id in ids {
        var g, k: nat :| g in granted && g > 0 && Climbs(m, g, id, k);
        ClosedHoldsClimbs(m, ids, g, id, k);
      }
    }
  }

  /** Order and duplicates in the granted IDs do not matter. */
  lemma SelectionIgnoresOrder(m: map<int, SysMenu>, a: seq<int>, b: seq<int>)
    requires forall g :: g > 0 ==> (g in a <==> g in b)
    ensures Selection(m, a) == Selection(m, b)
  {
    forall id ensures id in Selection(m, a) <==> id in Selection(m, b) {
      SelectionMembers(m, a, id);
      SelectionMembers(m, b, id);
      if Selected(m, a, id) {
        var g, k: nat :| g in a && g > 0 && Climbs(m, g, id, k);
        assert g in b;
      }
      if Selected(m, b, id) {
        var g, k: nat :| g in b && g > 0 && Climbs(m, g, id, k);
        assert g in a;
      }
    }
  }

  /** The selection loop: climb from each granted ID, stopping early at an ID already marked. */
  method CloseSelection(entityMap: map<int, SysMenu>, selectedIDs: seq<int>) returns (selectedMap: set<int>)
    ensures selectedMap == Selection(entityMap, selectedIDs)
  {
    selectedMap := {};
    for n := 0 to |selectedIDs|
      invariant Closed(entityMap, selectedMap)
      invariant forall id :: id in selectedMap ==> Selected(entityMap, selectedIDs, id)
      invariant forall i :: 0 <= i < n && selectedIDs[i] > 0 ==> selectedIDs[i] in selectedMap
    {
      var currentID := selectedIDs[n];
      ghost var before := selectedMap;
      assert Climbs(entityMap, currentID, currentID, 0);
      while currentID > 0
        invariant before <= selectedMap
        invariant currentID > 0 ==> Selected(entityMap, selectedIDs, currentID)
        invariant forall id :: id in selectedMap ==> Selected(entityMap, selectedIDs, id)
        invariant selectedIDs[n] > 0 ==> selectedIDs[n] in selectedMap || currentID == selectedIDs[n]
        invariant forall id :: id in selectedMap && id in entityMap && entityMap[id].parentId > 0 ==>
                    entityMap[id].parentId in selectedMap || entityMap[id].parentId == currentID
        decreases entityMap.Keys - selectedMap
      {
        if currentID in selectedMap {
          break;
        }
        selectedMap := selectedMap + {currentID};
        if currentID !in entityMap {
          break;
        }
        if entityMap[currentID].parentId > 0 {
          SelectedParent(entityMap, selectedIDs, currentID);
        }
        currentID := entityMap[currentID].parentId;
      }
    }
    SelectionIsLeastClosure(entityMap, selectedIDs);
    assert Selection(entityMap, selectedIDs) <= selectedMap;
    forall id | id in selectedMap ensures id in Selection(entityMap, selectedIDs) {
      SelectionMembers(entityMap, selectedIDs, id);
    }
  }

  // ----- The forest of the selected rows

  lemma KeepById(ms: seq<SysMenu>, ids: set<int>, id: int)
    requires IsTable(ms)
    ensures id in ById(Keep(ms, ids)) <==> id in ById(ms) && id in ids
    ensures id in ById(Keep(ms, ids)) ==> ById(Keep(ms, ids))[id] == ById(ms)[id]
  {
    var kept := Keep(ms, ids);
    KeepIsTable(ms, ids);
    if id in ById(kept) {
      ByIdEntry(kept, id);
      KeepMembers(ms, ids, ById(kept)[id]);
      ByIdMember(ms, ById(kept)[id]);
    }
    if id in ById(ms) && id in ids {
      ByIdEntry(ms, id);
      KeepMembers(ms, ids, ById(ms)[id]);
      ByIdMember(kept, ById(ms)[id]);
    }
  }

  lemma {:induction false} DepthInKept(ms: seq<SysMenu>, ids: set<int>, id: int, d: nat)
    requires IsTable(ms) && Closed(ById(ms), ids)
    ensures AtDepth(ById(Keep(ms, ids)), id, d) <==> id in ids && AtDepth(ById(ms), id, d)
    decreases d
  {
    KeepById(ms, ids, id);
    if d > 0 && id in ById(ms) {
      var p := ById(ms)[id].parentId;
      DepthInKept(ms, ids, p, d - 1);
      if AtDepth(ById(ms), p, d - 1) {
        ByIdEntry(ms, p);
        MemberIds(ms, ById(ms)[p]);
      }
    }
  }

  ghost function SelectedForest(ms: seq<SysMenu>, granted: seq<int>): seq<Tree>
    requires IsTable(ms)
  {
    KeepIsTable(ms, Selection(ById(ms), granted));
    Forest(Keep(ms, Selection(ById(ms), granted)))
  }

  /** The menu forest shows, exactly once each, precisely the menus of the upward closure whose
      parent chain reaches a root inside the whole list. */
  lemma SelectedForestShowsExactly(ms: seq<SysMenu>, granted: seq<int>, id: int)
    requires IsTable(ms)
    ensures multiset(PreorderIds(SelectedForest(ms, granted)))[id]
            == if Selected(ById(ms), granted, id) && Rooted(ById(ms), id) then 1 else 0
  {
    var sel := Selection(ById(ms), granted);
    var kept := Keep(ms, sel);
    KeepIsTable(ms, sel);
    SelectionIsLeastClosure(ById(ms), granted);
    SelectionMembers(ById(ms), granted, id);
    ForestShowsRootedOnce(kept, id);
    if Rooted(ById(kept), id) {
      var d: nat :| AtDepth(ById(kept), id, d);
      DepthInKept(ms, sel, id, d);
    }
    if id in sel && Rooted(ById(ms), id) {
      var d: nat :| AtDepth(ById(ms), id, d);
      DepthInKept(ms, sel, id, d);
    }
  }
}
