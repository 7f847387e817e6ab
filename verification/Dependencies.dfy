/** Whether a plugin's declared dependencies allow installing or enabling it. */
module Dependencies {
  import opened GoStrings

  /** One declared dependency, trimmed: a plugin ID and a version range, empty for any version. */
  datatype Dep = Dep(id: string, range: string)

  /** A plugin snapshot with its effective dependencies, in the order sort.Slice left them. */
  datatype Plugin = Plugin(version: string, installed: bool, enabled: bool, framework: string, deps: seq<Dep>)

  /** What a check is about: the known plugins, the version matcher, the framework version, and
      whether dependencies must be enabled too. */
  datatype Registry = Registry(
    plugins: map<string, Plugin>, matches: (string, string) -> bool, frameworkVersion: string, requireEnabled: bool)

  datatype Status = Satisfied | Missing | VersionUnsatisfied | NotEnabled

  datatype Blocker =
    | TargetMissing(id: string)
    | FrameworkUnsatisfied(id: string)
    | Cycle(cycle: seq<string>)
    | Edge(owner: string, dep: string, status: Status, chain: seq<string>)

  /** The state the recursive walk shares. `visited` lists the finished plugins, oldest first. */
  datatype State = State(visited: seq<string>, blockers: seq<Blocker>, cycle: seq<string>)

  // ----- The plugin map

  datatype Snapshot = Snapshot(id: string, plugin: Plugin)

  function NormalPlugin(p: Plugin): Plugin { p.(version := TrimSpace(p.version)) }

  /** Snapshots by trimmed ID: nil ones and blank IDs are skipped, later ones win. */
  function PluginMap(snapshots: seq<Option<Snapshot>>): map<string, Plugin> {
    if snapshots == [] then map[]
    else
      var init := PluginMap(snapshots[..|snapshots| - 1]);
      match snapshots[|snapshots| - 1]
      case None => init
      case Some(s) => if TrimSpace(s.id) == "" then init else init[TrimSpace(s.id) := NormalPlugin(s.plugin)]
  }

  method BuildPluginMap(snapshots: seq<Option<Snapshot>>) returns (result: map<string, Plugin>)
    ensures result == PluginMap(snapshots) && "" !in result
  {
    result := map[];
    for k := 0 to |snapshots|
      invariant result == PluginMap(snapshots[..k]) && "" !in result
    {
      assert snapshots[..k + 1][..k] == snapshots[..k];
      if snapshots[k].None? || TrimSpace(snapshots[k].value.id) == "" {
        continue;
      }
      result := result[TrimSpace(snapshots[k].value.id) := NormalPlugin(snapshots[k].value.plugin)];
    }
    assert snapshots[..|snapshots|] == snapshots;
  }

  /** The snapshot at this position is one of this plugin. */
  predicate NamedAt(snapshots: seq<Option<Snapshot>>, i: int, id: string) {
    0 <= i < |snapshots| && snapshots[i].Some? && TrimSpace(snapshots[i].value.id) == id && id != ""
  }

  predicate LastNamedAt(snapshots: seq<Option<Snapshot>>, i: int, id: string) {
    NamedAt(snapshots, i, id) && forall j :: i < j < |snapshots| ==> !NamedAt(snapshots, j, id)
  }

  /** A plugin is known exactly when some snapshot names it, blanks aside, and the last such snapshot is the
      one that counts, with its version trimmed and nothing else changed. */
  lemma {:induction false} PluginMapHoldsLast(snapshots: seq<Option<Snapshot>>, id: string)
    ensures var m := PluginMap(snapshots);
            && (id in m <==> exists i :: LastNamedAt(snapshots, i, id))
            && (forall i :: LastNamedAt(snapshots, i, id) ==>
                  id in m && var p := snapshots[i].value.plugin; m[id] == p.(version := TrimSpace(p.version)))
  {
    if snapshots != [] {
      var n := |snapshots| - 1;
      PluginMapHoldsLast(snapshots[..n], id);
      if NamedAt(snapshots, n, id) {
        assert LastNamedAt(snapshots, n, id);
      } else {
        forall i ensures LastNamedAt(snapshots, i, id) <==> LastNamedAt(snapshots[..n], i, id) {
          LastNamedBefore(snapshots, i, id);
        }
      }
    }
  }

  lemma LastNamedBefore(snapshots: seq<Option<Snapshot>>, i: int, id: string)
    requires snapshots != [] && !NamedAt(snapshots, |snapshots| - 1, id)
    ensures LastNamedAt(snapshots, i, id) <==> LastNamedAt(snapshots[..|snapshots| - 1], i, id)
  {
    var init := snapshots[..|snapshots| - 1];
    assert forall j :: 0 <= j < |init| ==> NamedAt(init, j, id) == NamedAt(snapshots, j, id);
  }

  // ----- The walk

  function Evaluate(g: Registry, d: Dep): Status {
    if d.id !in g.plugins then Missing
    else
      var p := g.plugins[d.id];
      if d.range != "" && !g.matches(p.version, d.range) then VersionUnsatisfied
      else if !p.installed then Missing
      else if g.requireEnabled && !p.enabled then NotEnabled
      else Satisfied
  }

  predicate Known(g: Registry, chain: seq<string>) { forall id :: id in chain ==> id in g.plugins }

  function Elements(chain: seq<string>): set<string> { set id | id in chain }

  /** The position of a member. */
  function IndexIn(chain: seq<string>, id: string): (k: nat)
    requires id in chain
    ensures k < |chain| && chain[k] == id
  {
    if chain[0] == id then 0 else 1 + IndexIn(chain[1..], id)
  }

  function ClosedBy(chain: seq<string>, id: string): seq<string>
    requires id in chain
  {
    chain[IndexIn(chain, id)..] + [id]
  }

  lemma Shrinks(g: Registry, chain: seq<string>, id: string)
    requires id in g.plugins && id !in chain
    ensures g.plugins.Keys - Elements(chain + [id]) < g.plugins.Keys - Elements(chain)
  {
    assert id in g.plugins.Keys - Elements(chain) && id !in g.plugins.Keys - Elements(chain + [id]);
  }

  /** Walks the dependencies of the last plugin of the chain, unless that was done before. */
  function Walk(g: Registry, chain: seq<string>, s: State): State
    requires chain != [] && Known(g, chain)
    decreases g.plugins.Keys - Elements(chain), 1, 0
  {
    var owner := chain[|chain| - 1];
    if owner in s.visited then s
    else
      var after := WalkDeps(g, chain, g.plugins[owner].deps, s);
      after.(visited := after.visited + [owner])
  }

  function WalkDeps(g: Registry, chain: seq<string>, deps: seq<Dep>, s: State): State
    requires chain != [] && Known(g, chain)
    decreases g.plugins.Keys - Elements(chain), 0, 1 + |deps|
  {
    if deps == [] then s else WalkDeps(g, chain, deps[1..], Follow(g, chain, deps[0], s))
  }

  /** One dependency of the last plugin of the chain. */
  function Follow(g: Registry, chain: seq<string>, d: Dep, s: State): State
    requires chain != [] && Known(g, chain)
    decreases g.plugins.Keys - Elements(chain), 0, 0
  {
    if d.id in chain then
      s.(cycle := ClosedBy(chain, d.id), blockers := s.blockers + [Cycle(ClosedBy(chain, d.id))])
    else
      var status := Evaluate(g, d);
      if status != Satisfied then
        s.(blockers := s.blockers + [Edge(chain[|chain| - 1], d.id, status, chain + [d.id])])
      else
        Shrinks(g, chain, d.id);
        Walk(g, chain + [d.id], s)
  }

  /** The traversal as an object: the maps and the result that all calls share. */
  class Walker {
    var visited: seq<string>
    var visiting: map<string, nat>
    var blockers: seq<Blocker>
    var cycle: seq<string>

    constructor (blockers: seq<Blocker>)
      ensures Current() == State([], blockers, []) && visiting == map[]
    {
      this.blockers := blockers;
      visited, visiting, cycle := [], map[], [];
    }

    function Current(): State
      reads this
    {
      State(visited, blockers, cycle)
    }

    /** The plugins being visited are those of the chain, each at its position. */
    predicate Tracks(chain: seq<string>)
      reads this
    {
      && visiting.Keys == Elements(chain)
      && forall i :: 0 <= i < |chain| ==> chain[i] in visiting && visiting[chain[i]] == i
    }

    /** Visits the last plugin of the chain; the call sites leave out plugins that are being visited. */
    method WalkDependencies(g: Registry, chain: seq<string>)
      requires chain != [] && Known(g, chain) && Tracks(chain[..|chain| - 1])
      requires chain[|chain| - 1] !in chain[..|chain| - 1]
      modifies this
      ensures Current() == Walk(g, chain, old(Current())) && visiting == old(visiting)
      decreases g.plugins.Keys - Elements(chain), 1
    {
      var ownerID := chain[|chain| - 1];
      if ownerID in visited {
        return;
      }
      visiting := visiting[ownerID := |chain| - 1];
      assert Tracks(chain);
      ghost var inner := visiting;
      var dependencies := g.plugins[ownerID].deps;
      for k := 0 to |dependencies|
        invariant visiting == inner
        invariant WalkDeps(g, chain, dependencies, old(Current())) == WalkDeps(g, chain, dependencies[k..], Current())
      {
        assert dependencies[k..][0] == dependencies[k] && dependencies[k..][1..] == dependencies[k + 1..];
        FollowDependency(g, chain, dependencies[k]);
      }
      visiting := visiting - {ownerID};
      visited := visited + [ownerID];
    }

    method FollowDependency(g: Registry, chain: seq<string>, d: Dep)
      requires chain != [] && Known(g, chain) && Tracks(chain)
      modifies this
      ensures Current() == Follow(g, chain, d, old(Current())) && visiting == old(visiting)
      decreases g.plugins.Keys - Elements(chain), 0
    {
      if d.id in visiting {
        PositionIn(chain, d.id);
        cycle := chain[visiting[d.id]..] + [d.id];
        blockers := blockers + [Cycle(cycle)];
        return;
      }
      var status := Evaluate(g, d);
      if status != Satisfied {
        blockers := blockers + [Edge(chain[|chain| - 1], d.id, status, chain + [d.id])];
        return;
      }
      Shrinks(g, chain, d.id);
      assert (chain + [d.id])[..|chain|] == chain;
      WalkDependencies(g, chain + [d.id]);
    }

    lemma PositionIn(chain: seq<string>, id: string)
      requires Tracks(chain) && id in chain
      ensures visiting[id] == IndexIn(chain, id)
    {
    }
  }

  // ----- The check

  predicate FrameworkOk(g: Registry, p: Plugin) {
    TrimSpace(p.framework) == "" || g.matches(TrimSpace(g.frameworkVersion), TrimSpace(p.framework))
  }

  /** The decision for one target. */
  function Check(g: Registry, targetID: string): State {
    var id := TrimSpace(targetID);
    if id !in g.plugins then State([], [TargetMissing(id)], [])
    else Walk(g, [id], Started(g, id))
  }

  function Started(g: Registry, id: string): State
    requires id in g.plugins
  {
    State([], if FrameworkOk(g, g.plugins[id]) then [] else [FrameworkUnsatisfied(id)], [])
  }

  method CheckInstall(g: Registry, targetID: string) returns (result: State)
    ensures result == Check(g, targetID)
  {
    var id := TrimSpace(targetID);
    if id !in g.plugins {
      return State([], [TargetMissing(id)], []);
    }
    var before := [];
    if !FrameworkOk(g, g.plugins[id]) {
      before := [FrameworkUnsatisfied(id)];
    }
    var walker := new Walker(before);
    walker.WalkDependencies(g, [id]);
    result := walker.Current();
  }

  // ----- Reference: the declared dependency graph

  predicate Declares(g: Registry, a: string, b: string) {
    a in g.plugins && exists i :: 0 <= i < |g.plugins[a].deps| && g.plugins[a].deps[i].id == b
  }

  /** The plugin at the other end is there in a version in range, installed, and enabled if asked for. */
  predicate Fulfilled(g: Registry, d: Dep) {
    && d.id in g.plugins
    && g.plugins[d.id].installed
    && (g.requireEnabled ==> g.plugins[d.id].enabled)
    && InRange(g, d)
  }

  predicate InRange(g: Registry, d: Dep)
    requires d.id in g.plugins
  {
    d.range == "" || g.matches(g.plugins[d.id].version, d.range)
  }

  /** What a status says about the plugin at the other end. */
  predicate Means(g: Registry, d: Dep, status: Status) {
    match status
    case Satisfied => Fulfilled(g, d)
    case Missing => d.id !in g.plugins || (InRange(g, d) && !g.plugins[d.id].installed)
    case VersionUnsatisfied => d.id in g.plugins && !InRange(g, d)
    case NotEnabled =>
      && d.id in g.plugins && InRange(g, d) && g.plugins[d.id].installed
      && g.requireEnabled && !g.plugins[d.id].enabled
  }

  /** Every dependency has exactly the status that holds of it. */
  lemma StatusIff(g: Registry, d: Dep, status: Status)
    ensures Evaluate(g, d) == status <==> Means(g, d, status)
  {
  }

  /** The framework range that a plugin declares, if any, admits the framework. */
  predicate RunsOn(g: Registry, id: string) {
    id in g.plugins
    && (TrimSpace(g.plugins[id].framework) == ""
        || g.matches(TrimSpace(g.frameworkVersion), TrimSpace(g.plugins[id].framework)))
  }

  /** A path of `n` declared dependencies. */
  ghost predicate Path(g: Registry, a: string, b: string, n: nat)
    decreases n
  {
    if n == 0 then a == b else exists c :: Declares(g, a, c) && Path(g, c, b, n - 1)
  }

  ghost predicate Reachable(g: Registry, a: string, b: string) { exists n: nat :: Path(g, a, b, n) }

  /** Every dependency declared by a reachable plugin is present, installed and in range. */
  ghost predicate AllSatisfied(g: Registry, target: string) {
    forall a, d :: Reachable(g, target, a) && a in g.plugins && d in g.plugins[a].deps ==> Fulfilled(g, d)
  }

  ghost predicate Acyclic(g: Registry, target: string) {
    forall a, n: nat :: Reachable(g, target, a) && n > 0 ==> !Path(g, a, a, n)
  }

  lemma FirstStep(g: Registry, a: string, b: string, n: nat) returns (c: string)
    requires n > 0 && Path(g, a, b, n)
    ensures Declares(g, a, c) && Path(g, c, b, n - 1)
  {
    c :| Declares(g, a, c) && Path(g, c, b, n - 1);
  }

  lemma {:induction false} PathConcat(g: Registry, a: string, b: string, c: string, m: nat, n: nat)
    requires Path(g, a, b, m) && Path(g, b, c, n)
    ensures Path(g, a, c, m + n)
    decreases m
  {
    if m > 0 {
      var x := FirstStep(g, a, b, m);
      PathConcat(g, x, b, c, m - 1, n);
    }
  }

  lemma OneStep(g: Registry, a: string, b: string)
    requires Declares(g, a, b)
    ensures Path(g, a, b, 1)
  {
    assert Path(g, b, b, 0);
  }

  // ----- The walk leaves nothing out

  /** Finished plugins depend, satisfied, on plugins finished before them. */
  predicate Topological(g: Registry, visited: seq<string>) {
    forall i :: 0 <= i < |visited| ==>
      && visited[i] in g.plugins
      && forall d :: d in g.plugins[visited[i]].deps ==> Fulfilled(g, d) && d.id in visited[..i]
  }

  predicate EdgeReported(g: Registry, blockers: seq<Blocker>, owner: string, d: Dep) {
    exists b :: b in blockers && b.Edge? && b.owner == owner && b.dep == d.id
                && b.status != Satisfied && Means(g, d, b.status)
  }

  predicate CycleReported(blockers: seq<Blocker>, owner: string, dep: string) {
    exists b :: b in blockers && b.Cycle? && Closing(b.cycle, owner, dep)
  }

  /** The last step of the cycle. */
  predicate Closing(cycle: seq<string>, owner: string, dep: string) {
    |cycle| >= 2 && cycle[|cycle| - 2] == owner && cycle[|cycle| - 1] == dep
  }

  /** What became of a dependency: fulfilled by a plugin finished before, reported as an edge, or reported
      as the end of a cycle among plugins seen. */
  predicate Settled(g: Registry, blockers: seq<Blocker>, seen: set<string>, before: seq<string>, owner: string,
                    d: Dep)
  {
    || (Fulfilled(g, d) && d.id in before)
    || EdgeReported(g, blockers, owner, d)
    || (CycleReported(blockers, owner, d.id) && d.id in seen)
  }

  predicate SettledAt(g: Registry, seen: set<string>, s: State, i: nat)
    requires i < |s.visited|
  {
    && s.visited[i] in g.plugins
    && forall d :: d in g.plugins[s.visited[i]].deps ==>
         Settled(g, s.blockers, seen, s.visited[..i], s.visited[i], d)
  }

  /** The plugins being visited and the finished ones. */
  function Seen(chain: seq<string>, s: State): set<string> { Elements(chain) + Elements(s.visited) }

  predicate Complete(g: Registry, chain: seq<string>, s: State) {
    forall i :: 0 <= i < |s.visited| ==> SettledAt(g, Seen(chain, s), s, i)
  }

  predicate Distinct(visited: seq<string>) { forall i, j :: 0 <= i < j < |visited| ==> visited[i] != visited[j] }

  /** No plugin is finished twice, and none while it is being visited. */
  predicate Apart(chain: seq<string>, visited: seq<string>) {
    && (forall id :: id in chain ==> id !in visited)
    && Distinct(visited)
  }

  predicate Extends(s: State, t: State) { s.visited <= t.visited && s.blockers <= t.blockers }

  lemma StaysSettled(g: Registry, seen: set<string>, s: State, more: set<string>, t: State, i: nat)
    requires i < |s.visited| && SettledAt(g, seen, s, i) && seen <= more && Extends(s, t)
    ensures SettledAt(g, more, t, i)
  {
    assert t.visited[..i] == s.visited[..i];
  }

  lemma StaysComplete(g: Registry, chain: seq<string>, s: State, chain': seq<string>, t: State)
    requires Complete(g, chain, s) && Seen(chain, s) <= Seen(chain', t)
    requires s.blockers <= t.blockers && s.visited == t.visited
    ensures Complete(g, chain', t)
  {
    forall i | 0 <= i < |t.visited| ensures SettledAt(g, Seen(chain', t), t, i) {
      StaysSettled(g, Seen(chain, s), s, Seen(chain', t), t, i);
    }
  }

  lemma {:induction false} WalkSettles(g: Registry, chain: seq<string>, s: State)
    requires chain != [] && Known(g, chain) && Complete(g, chain, s) && Apart(chain[..|chain| - 1], s.visited)
    requires chain[|chain| - 1] !in chain[..|chain| - 1]
    ensures var t := Walk(g, chain, s);
            && Extends(s, t) && Complete(g, chain, t) && Apart(chain[..|chain| - 1], t.visited)
            && chain[|chain| - 1] in t.visited
    decreases g.plugins.Keys - Elements(chain), 1, 0
  {
    var owner := chain[|chain| - 1];
    if owner !in s.visited {
      var deps := g.plugins[owner].deps;
      var after := WalkDeps(g, chain, deps, s);
      DepsSettle(g, chain, deps, s);
      OwnerFinishes(g, chain, after);
    }
  }

  lemma OwnerFinishes(g: Registry, chain: seq<string>, s: State)
    requires chain != [] && Known(g, chain) && Complete(g, chain, s) && Apart(chain, s.visited)
    requires chain[|chain| - 1] !in chain[..|chain| - 1]
    requires var owner := chain[|chain| - 1];
             forall d :: d in g.plugins[owner].deps ==> Settled(g, s.blockers, Seen(chain, s), s.visited, owner, d)
    ensures var t := s.(visited := s.visited + [chain[|chain| - 1]]);
            Complete(g, chain, t) && Apart(chain[..|chain| - 1], t.visited)
  {
    var owner := chain[|chain| - 1];
    var t := s.(visited := s.visited + [owner]);
    assert t.visited[..|s.visited|] == s.visited;
    forall i | 0 <= i < |t.visited| ensures SettledAt(g, Seen(chain, t), t, i) {
      if i < |s.visited| { StaysSettled(g, Seen(chain, s), s, Seen(chain, t), t, i); }
    }
    forall id | id in chain[..|chain| - 1] ensures id !in t.visited {
      assert id in chain;
    }
    assert owner in chain;
  }

  lemma {:induction false} DepsSettle(g: Registry, chain: seq<string>, deps: seq<Dep>, s: State)
    requires chain != [] && Known(g, chain) && Complete(g, chain, s) && Apart(chain, s.visited)
    ensures var t, owner := WalkDeps(g, chain, deps, s), chain[|chain| - 1];
            && Extends(s, t) && Complete(g, chain, t) && Apart(chain, t.visited)
            && forall d :: d in deps ==> Settled(g, t.blockers, Seen(chain, t), t.visited, owner, d)
    decreases g.plugins.Keys - Elements(chain), 0, 1 + |deps|
  {
    if deps != [] {
      var next := Follow(g, chain, deps[0], s);
      FollowSettles(g, chain, deps[0], s);
      DepsSettle(g, chain, deps[1..], next);
      assert deps == [deps[0]] + deps[1..];
    }
  }

  lemma {:induction false} FollowSettles(g: Registry, chain: seq<string>, d: Dep, s: State)
    requires chain != [] && Known(g, chain) && Complete(g, chain, s) && Apart(chain, s.visited)
    ensures var t, owner := Follow(g, chain, d, s), chain[|chain| - 1];
            && Extends(s, t) && Complete(g, chain, t) && Apart(chain, t.visited)
            && Settled(g, t.blockers, Seen(chain, t), t.visited, owner, d)
    decreases g.plugins.Keys - Elements(chain), 0, 0
  {
    var t := Follow(g, chain, d, s);
    if d.id in chain {
      ClosesAtLast(chain, d.id);
      assert Cycle(ClosedBy(chain, d.id)) in t.blockers;
      StaysComplete(g, chain, s, chain, t);
    } else if Evaluate(g, d) == Satisfied {
      var longer := chain + [d.id];
      Shrinks(g, chain, d.id);
      assert longer[..|chain|] == chain;
      StaysComplete(g, chain, s, longer, s);
      WalkSettles(g, longer, s);
      StaysComplete(g, longer, t, chain, t);
    } else {
      var b := Edge(chain[|chain| - 1], d.id, Evaluate(g, d), chain + [d.id]);
      StatusIff(g, d, b.status);
      assert b in t.blockers;
      StaysComplete(g, chain, s, chain, t);
    }
  }

  lemma ClosesAtLast(chain: seq<string>, id: string)
    requires id in chain
    ensures Closing(ClosedBy(chain, id), chain[|chain| - 1], id)
  {
  }

  lemma TopologicalDeps(g: Registry, visited: seq<string>, i: nat, b: string) returns (j: nat)
    requires Topological(g, visited) && i < |visited| && Declares(g, visited[i], b)
    ensures j < i && visited[j] == b
  {
    assert b in visited[..i];
    j :| 0 <= j < i && visited[..i][j] == b;
  }

  /** Paths lead to earlier finished plugins, strictly earlier unless they are empty. */
  lemma {:induction false} PathDescends(g: Registry, visited: seq<string>, i: nat, b: string, n: nat) returns (j: nat)
    requires Topological(g, visited) && i < |visited| && Path(g, visited[i], b, n)
    ensures j <= i && visited[j] == b && (n > 0 ==> j < i)
    decreases n
  {
    if n == 0 {
      j := i;
    } else {
      var c := FirstStep(g, visited[i], b, n);
      var k := TopologicalDeps(g, visited, i, c);
      j := PathDescends(g, visited, k, b, n - 1);
    }
  }

  lemma {:induction false} NoWayBack(g: Registry, visited: seq<string>, i: nat, n: nat)
    requires Topological(g, visited) && i < |visited| && n > 0 && Path(g, visited[i], visited[i], n)
    ensures false
    decreases i
  {
    var j := PathDescends(g, visited, i, visited[i], n);
    NoWayBack(g, visited, j, n);
  }

  lemma QuietIsTopological(g: Registry, chain: seq<string>, s: State)
    requires Complete(g, chain, s) && s.blockers == []
    ensures Topological(g, s.visited)
  {
    forall i | 0 <= i < |s.visited|
      ensures s.visited[i] in g.plugins
      ensures forall d :: d in g.plugins[s.visited[i]].deps ==> Fulfilled(g, d) && d.id in s.visited[..i]
    {
      assert SettledAt(g, Seen(chain, s), s, i);
    }
  }

  lemma FinishedIsSound(g: Registry, visited: seq<string>, target: string)
    requires Topological(g, visited) && target in visited
    ensures AllSatisfied(g, target) && Acyclic(g, target)
  {
    var i :| 0 <= i < |visited| && visited[i] == target;
    forall a, d | Reachable(g, target, a) && a in g.plugins && d in g.plugins[a].deps
      ensures Fulfilled(g, d)
    {
      var n: nat :| Path(g, target, a, n);
      var j := PathDescends(g, visited, i, a, n);
    }
    forall a, n: nat | Reachable(g, target, a) && n > 0 ensures !Path(g, a, a, n) {
      var m: nat :| Path(g, target, a, m);
      var j := PathDescends(g, visited, i, a, m);
      if Path(g, a, a, n) { NoWayBack(g, visited, j, n); }
    }
  }

  // ----- A sound graph means no blocker

  /** Each plugin of the chain declares the next one. */
  predicate Linked(g: Registry, chain: seq<string>) {
    |chain| <= 1 || (Declares(g, chain[|chain| - 2], chain[|chain| - 1]) && Linked(g, chain[..|chain| - 1]))
  }

  lemma {:induction false} LinkedPath(g: Registry, chain: seq<string>, i: nat)
    requires Linked(g, chain) && i < |chain|
    ensures Path(g, chain[i], chain[|chain| - 1], |chain| - 1 - i)
    decreases |chain|
  {
    if i < |chain| - 1 {
      var init := chain[..|chain| - 1];
      LinkedPath(g, init, i);
      OneStep(g, chain[|chain| - 2], chain[|chain| - 1]);
      PathConcat(g, chain[i], chain[|chain| - 2], chain[|chain| - 1], |chain| - 2 - i, 1);
    }
  }

  ghost predicate Sound(g: Registry, target: string) { AllSatisfied(g, target) && Acyclic(g, target) }

  lemma {:induction false} WalkStaysQuiet(g: Registry, chain: seq<string>, s: State)
    requires chain != [] && Known(g, chain) && Linked(g, chain) && Sound(g, chain[0])
    ensures Walk(g, chain, s).blockers == s.blockers
    decreases g.plugins.Keys - Elements(chain), 1, 0
  {
    var owner := chain[|chain| - 1];
    if owner !in s.visited {
      forall d | d in g.plugins[owner].deps ensures Declares(g, owner, d.id) {
        var i :| 0 <= i < |g.plugins[owner].deps| && g.plugins[owner].deps[i] == d;
      }
      DepsStayQuiet(g, chain, g.plugins[owner].deps, s);
    }
  }

  lemma {:induction false} DepsStayQuiet(g: Registry, chain: seq<string>, deps: seq<Dep>, s: State)
    requires chain != [] && Known(g, chain) && Linked(g, chain) && Sound(g, chain[0])
    requires var owner := chain[|chain| - 1];
             forall d :: d in deps ==> d in g.plugins[owner].deps && Declares(g, owner, d.id)
    ensures WalkDeps(g, chain, deps, s).blockers == s.blockers
    decreases g.plugins.Keys - Elements(chain), 0, 1 + |deps|
  {
    if deps != [] {
      assert deps[0] in deps;
      FollowStaysQuiet(g, chain, deps[0], s);
      DepsStayQuiet(g, chain, deps[1..], Follow(g, chain, deps[0], s));
    }
  }

  lemma {:induction false} FollowStaysQuiet(g: Registry, chain: seq<string>, d: Dep, s: State)
    requires chain != [] && Known(g, chain) && Linked(g, chain) && Sound(g, chain[0])
    requires var owner := chain[|chain| - 1]; d in g.plugins[owner].deps && Declares(g, owner, d.id)
    ensures Follow(g, chain, d, s).blockers == s.blockers
    decreases g.plugins.Keys - Elements(chain), 0, 0
  {
    var owner := chain[|chain| - 1];
    LinkedPath(g, chain, 0);
    assert Reachable(g, chain[0], owner);
    if d.id in chain {
      var i := IndexIn(chain, d.id);
      LinkedPath(g, chain, i);
      OneStep(g, owner, d.id);
      PathConcat(g, owner, d.id, owner, 1, |chain| - 1 - i);
      assert false;
    } else {
      assert Fulfilled(g, d);
      assert (chain + [d.id])[..|chain|] == chain;
      Shrinks(g, chain, d.id);
      WalkStaysQuiet(g, chain + [d.id], s);
    }
  }

  /** The check finds no blocker exactly when the target is known, its framework range holds, and over
      all plugins it reaches through declared dependencies every dependency is present, installed (or
      enabled, when that is asked for) and in range, and none leads back to itself. */
  lemma NoBlockerIff(g: Registry, targetID: string)
    ensures var id := TrimSpace(targetID);
            Check(g, targetID).blockers == []
            <==> RunsOn(g, id) && AllSatisfied(g, id) && Acyclic(g, id)
  {
    var id := TrimSpace(targetID);
    if id in g.plugins {
      var s := Started(g, id);
      WalkSettles(g, [id], s);
      if Check(g, targetID).blockers == [] {
        QuietIsTopological(g, [id], Check(g, targetID));
        FinishedIsSound(g, Check(g, targetID).visited, id);
      }
      if AllSatisfied(g, id) && Acyclic(g, id) { WalkStaysQuiet(g, [id], s); }
    }
  }

  // ----- Reported cycles

  /** The same plugins with their fulfilled dependencies only. */
  function Followed(g: Registry): Registry {
    g.(plugins := map id | id in g.plugins :: g.plugins[id].(deps := FulfilledDeps(g, g.plugins[id].deps)))
  }

  function FulfilledDeps(g: Registry, deps: seq<Dep>): (r: seq<Dep>)
    ensures forall d :: d in r <==> d in deps && Fulfilled(g, d)
  {
    if deps == [] then []
    else (if Fulfilled(g, deps[0]) then [deps[0]] else []) + FulfilledDeps(g, deps[1..])
  }

  /** Each plugin of the chain has the next one as a fulfilled dependency. */
  predicate Followable(g: Registry, chain: seq<string>) { Linked(Followed(g), chain) }

  /** A closed list of plugins, each declaring the next one, and fulfilled except perhaps where it closes. */
  predicate IsCycle(g: Registry, cycle: seq<string>) {
    var n := |cycle|;
    n >= 2 && cycle[0] == cycle[n - 1] && Followable(g, cycle[..n - 1]) && Declares(g, cycle[n - 2], cycle[n - 1])
  }

  lemma {:induction false} LinkedTail(g: Registry, chain: seq<string>, i: nat)
    requires Linked(g, chain) && i <= |chain|
    ensures Linked(g, chain[i..])
    decreases |chain|
  {
    if i < |chain| - 1 {
      var tail := chain[i..];
      LinkedTail(g, chain[..|chain| - 1], i);
      assert chain[..|chain| - 1][i..] == tail[..|tail| - 1];
      assert tail[|tail| - 2] == chain[|chain| - 2];
    }
  }

  lemma {:induction false} LinkedPrefix(g: Registry, chain: seq<string>, i: nat)
    requires Linked(g, chain) && i < |chain|
    ensures Reachable(g, chain[0], chain[i])
    decreases |chain|
  {
    if i < |chain| - 1 {
      LinkedPrefix(g, chain[..|chain| - 1], i);
    } else {
      LinkedPath(g, chain, 0);
    }
  }

  lemma ClosedIsCycle(g: Registry, chain: seq<string>, id: string)
    requires chain != [] && Followable(g, chain) && id in chain && Declares(g, chain[|chain| - 1], id)
    ensures IsCycle(g, ClosedBy(chain, id)) && Reachable(Followed(g), chain[0], ClosedBy(chain, id)[0])
  {
    LinkedPrefix(Followed(g), chain, IndexIn(chain, id));
    var tail := chain[IndexIn(chain, id)..];
    LinkedTail(Followed(g), chain, IndexIn(chain, id));
    assert (tail + [id])[..|tail|] == tail;
  }

  /** What a blocker says is the case; an edge blocker carries a chain of fulfilled dependencies that
      leads from the target to the plugin that declares the edge. */
  ghost predicate Real(g: Registry, target: string, b: Blocker) {
    match b
    case TargetMissing(id) => id == target && id !in g.plugins
    case FrameworkUnsatisfied(id) => id == target && id in g.plugins && !RunsOn(g, id)
    case Cycle(cycle) => IsCycle(g, cycle) && Reachable(Followed(g), target, cycle[0])
    case Edge(owner, dep, status, chain) =>
      && status != Satisfied
      && |chain| >= 2 && chain[0] == target && chain[|chain| - 2] == owner && chain[|chain| - 1] == dep
      && Followable(g, chain[..|chain| - 1])
      && owner in g.plugins && exists d :: d in g.plugins[owner].deps && d.id == dep && Means(g, d, status)
  }

  /** The cycle that was reported last. */
  function LastCycle(blockers: seq<Blocker>): seq<string> {
    if blockers == [] then []
    else if blockers[|blockers| - 1].Cycle? then blockers[|blockers| - 1].cycle
    else LastCycle(blockers[..|blockers| - 1])
  }

  ghost predicate AllReal(g: Registry, target: string, s: State) {
    && (forall b :: b in s.blockers ==> Real(g, target, b))
    && s.cycle == LastCycle(s.blockers)
    && forall a :: a in s.visited ==> Reachable(Followed(g), target, a)
  }

  lemma FollowableStep(g: Registry, chain: seq<string>, d: Dep)
    requires chain != [] && Followable(g, chain) && Fulfilled(g, d)
    requires var owner := chain[|chain| - 1]; owner in g.plugins && d in g.plugins[owner].deps
    ensures Followable(g, chain + [d.id])
  {
    var deps := FulfilledDeps(g, g.plugins[chain[|chain| - 1]].deps);
    var i :| 0 <= i < |deps| && deps[i] == d;
    assert (chain + [d.id])[..|chain|] == chain;
  }

  lemma ReportOne(g: Registry, target: string, s: State, b: Blocker)
    requires AllReal(g, target, s) && Real(g, target, b)
    ensures var t := s.(blockers := s.blockers + [b]);
            AllReal(g, target, if b.Cycle? then t.(cycle := b.cycle) else t)
  {
    assert (s.blockers + [b])[..|s.blockers|] == s.blockers;
  }

  lemma {:induction false} WalkReportsReal(g: Registry, chain: seq<string>, s: State)
    requires chain != [] && Known(g, chain) && Followable(g, chain) && AllReal(g, chain[0], s)
    ensures AllReal(g, chain[0], Walk(g, chain, s))
    decreases g.plugins.Keys - Elements(chain), 1, 0
  {
    var owner := chain[|chain| - 1];
    if owner !in s.visited {
      forall d | d in g.plugins[owner].deps ensures Declares(g, owner, d.id) {
        var i :| 0 <= i < |g.plugins[owner].deps| && g.plugins[owner].deps[i] == d;
      }
      DepsReportReal(g, chain, g.plugins[owner].deps, s);
      LinkedPath(Followed(g), chain, 0);
    }
  }

  lemma {:induction false} DepsReportReal(g: Registry, chain: seq<string>, deps: seq<Dep>, s: State)
    requires chain != [] && Known(g, chain) && Followable(g, chain) && AllReal(g, chain[0], s)
    requires var owner := chain[|chain| - 1];
             forall d :: d in deps ==> d in g.plugins[owner].deps && Declares(g, owner, d.id)
    ensures AllReal(g, chain[0], WalkDeps(g, chain, deps, s))
    decreases g.plugins.Keys - Elements(chain), 0, 1 + |deps|
  {
    if deps != [] {
      assert deps[0] in deps;
      FollowReportsReal(g, chain, deps[0], s);
      DepsReportReal(g, chain, deps[1..], Follow(g, chain, deps[0], s));
    }
  }

  lemma EdgeIsReal(g: Registry, chain: seq<string>, d: Dep)
    requires chain != [] && Known(g, chain) && Followable(g, chain) && Evaluate(g, d) != Satisfied
    requires var owner := chain[|chain| - 1]; d in g.plugins[owner].deps && Declares(g, owner, d.id)
    ensures Real(g, chain[0], Edge(chain[|chain| - 1], d.id, Evaluate(g, d), chain + [d.id]))
  {
    assert (chain + [d.id])[..|chain|] == chain;
    StatusIff(g, d, Evaluate(g, d));
  }

  lemma {:induction false} FollowReportsReal(g: Registry, chain: seq<string>, d: Dep, s: State)
    requires chain != [] && Known(g, chain) && Followable(g, chain) && AllReal(g, chain[0], s)
    requires var owner := chain[|chain| - 1]; d in g.plugins[owner].deps && Declares(g, owner, d.id)
    ensures AllReal(g, chain[0], Follow(g, chain, d, s))
    decreases g.plugins.Keys - Elements(chain), 0, 0
  {
    if d.id in chain {
      ClosedIsCycle(g, chain, d.id);
      ReportOne(g, chain[0], s, Cycle(ClosedBy(chain, d.id)));
    } else if Fulfilled(g, d) {
      Shrinks(g, chain, d.id);
      FollowableStep(g, chain, d);
      WalkReportsReal(g, chain + [d.id], s);
    } else {
      EdgeIsReal(g, chain, d);
      ReportOne(g, chain[0], s, Edge(chain[|chain| - 1], d.id, Evaluate(g, d), chain + [d.id]));
    }
  }

  /** Every blocker that the check reports is real, the cycle of the result is the last one of them, and
      no plugin is visited but through fulfilled dependencies. */
  lemma ReportsAreReal(g: Registry, targetID: string)
    ensures var id, result := TrimSpace(targetID), Check(g, targetID);
            && (forall b :: b in result.blockers ==> Real(g, id, b))
            && result.cycle == LastCycle(result.blockers)
            && (forall a :: a in result.visited ==> Reachable(Followed(g), id, a))
  {
    var id := TrimSpace(targetID);
    if id in g.plugins {
      WalkReportsReal(g, [id], Started(g, id));
    }
  }

  // ----- Nothing is missing from the report

  /** Every declared dependency of a visited plugin is fulfilled or reported, under the status that holds of
      it or as the end of a cycle. */
  predicate Accounted(g: Registry, s: State) {
    forall a, d :: a in s.visited && a in g.plugins && d in g.plugins[a].deps ==>
      Fulfilled(g, d) || EdgeReported(g, s.blockers, a, d) || CycleReported(s.blockers, a, d.id)
  }

  lemma CompleteIsAccounted(g: Registry, chain: seq<string>, s: State)
    requires Complete(g, chain, s)
    ensures Accounted(g, s)
  {
    forall a, d | a in s.visited && a in g.plugins && d in g.plugins[a].deps
      ensures Fulfilled(g, d) || EdgeReported(g, s.blockers, a, d) || CycleReported(s.blockers, a, d.id)
    {
      var i :| 0 <= i < |s.visited| && s.visited[i] == a;
      assert SettledAt(g, Seen(chain, s), s, i);
    }
  }

  lemma ReachedIsVisited(g: Registry, id: string, s: State)
    requires Complete(g, [id], s) && id in s.visited
    ensures forall a :: Reachable(Followed(g), id, a) ==> a in s.visited
  {
    var h := Followed(g);
    forall a, b | a in s.visited && Declares(h, a, b) ensures b in s.visited {
      NextIsVisited(g, id, s, a, b);
    }
    forall a | Reachable(h, id, a) ensures a in s.visited {
      var n: nat :| Path(h, id, a, n);
      PathStaysInside(h, s.visited, id, a, n);
    }
  }

  lemma WalkIsComplete(g: Registry, id: string)
    requires id in g.plugins
    ensures var t := Walk(g, [id], Started(g, id));
            && Complete(g, [id], t) && id in t.visited && Distinct(t.visited)
            && (!RunsOn(g, id) ==> FrameworkUnsatisfied(id) in t.blockers)
  {
    var s := Started(g, id);
    WalkSettles(g, [id], s);
    if !RunsOn(g, id) {
      assert s.blockers[0] == FrameworkUnsatisfied(id);
      assert Walk(g, [id], s).blockers[0] == s.blockers[0];
    }
  }

  lemma WalkFindsCycles(g: Registry, id: string)
    requires id in g.plugins
    ensures var t := Walk(g, [id], Started(g, id)); t.cycle == [] ==> Acyclic(Followed(g), id)
  {
    var t := Walk(g, [id], Started(g, id));
    WalkIsComplete(g, id);
    WalkReportsReal(g, [id], Started(g, id));
    if t.cycle == [] {
      NoCycleReported(g, id, t);
      FinishedIsSound(Followed(g), t.visited, id);
    }
  }

  /** Every plugin that the target reaches through fulfilled dependencies is visited once, with all its
      dependencies accounted for; an unfit framework is reported; and when no cycle is reported there is
      none along fulfilled dependencies. An unknown target is all that is reported of it. */
  lemma ReportIsComplete(g: Registry, targetID: string)
    ensures var id, result := TrimSpace(targetID), Check(g, targetID);
            if id !in g.plugins then result.blockers == [TargetMissing(id)] && result.visited == []
            else
              && (!RunsOn(g, id) ==> FrameworkUnsatisfied(id) in result.blockers)
              && (forall a :: Reachable(Followed(g), id, a) ==> a in result.visited)
              && Distinct(result.visited) && Accounted(g, result)
              && (result.cycle == [] ==> Acyclic(Followed(g), id))
  {
    var id, result := TrimSpace(targetID), Check(g, targetID);
    if id in g.plugins {
      WalkIsComplete(g, id);
      ReachedIsVisited(g, id, result);
      CompleteIsAccounted(g, [id], result);
      WalkFindsCycles(g, id);
    }
  }

  /** With every plugin, the ones it declares. */
  ghost predicate ClosedUnder(g: Registry, visited: seq<string>) {
    forall a, b :: a in visited && Declares(g, a, b) ==> b in visited
  }

  lemma {:induction false} PathStaysInside(g: Registry, visited: seq<string>, a: string, b: string, n: nat)
    requires ClosedUnder(g, visited) && a in visited && Path(g, a, b, n)
    ensures b in visited
    decreases n
  {
    if n > 0 {
      var c := FirstStep(g, a, b, n);
      PathStaysInside(g, visited, c, b, n - 1);
    }
  }

  lemma NextIsVisited(g: Registry, id: string, s: State, a: string, c: string)
    requires Complete(g, [id], s) && id in s.visited && a in s.visited && Declares(Followed(g), a, c)
    ensures c in s.visited
  {
    var i :| 0 <= i < |s.visited| && s.visited[i] == a;
    assert SettledAt(g, Seen([id], s), s, i);
    var deps := FulfilledDeps(g, g.plugins[a].deps);
    var k :| 0 <= k < |deps| && deps[k].id == c;
    assert deps[k] in deps;
    FulfilledIsSeen(g, s, Seen([id], s), i, deps[k]);
  }

  lemma FulfilledIsSeen(g: Registry, s: State, seen: set<string>, i: nat, d: Dep)
    requires i < |s.visited| && SettledAt(g, seen, s, i) && d in g.plugins[s.visited[i]].deps && Fulfilled(g, d)
    ensures d.id in s.visited || d.id in seen
  {
  }

  lemma {:induction false} NoneReported(blockers: seq<Blocker>, owner: string, dep: string)
    requires LastCycle(blockers) == [] && forall b :: b in blockers && b.Cycle? ==> b.cycle != []
    ensures !CycleReported(blockers, owner, dep)
  {
    if blockers != [] { NoneReported(blockers[..|blockers| - 1], owner, dep); }
  }

  lemma NoCycleReported(g: Registry, id: string, s: State)
    requires Complete(g, [id], s) && LastCycle(s.blockers) == []
    requires forall b :: b in s.blockers && b.Cycle? ==> b.cycle != []
    ensures Topological(Followed(g), s.visited)
  {
    forall i | 0 <= i < |s.visited|
      ensures s.visited[i] in Followed(g).plugins
      ensures forall d :: d in Followed(g).plugins[s.visited[i]].deps ==>
                Fulfilled(Followed(g), d) && d.id in s.visited[..i]
    {
      assert SettledAt(g, Seen([id], s), s, i);
      forall d | d in Followed(g).plugins[s.visited[i]].deps
        ensures Fulfilled(Followed(g), d) && d.id in s.visited[..i]
      {
        NoneReported(s.blockers, s.visited[i], d.id);
      }
    }
  }

  // ----- Nothing is reported twice

  /** The declared dependency a blocker is about: owner and dependency, if it is about one. */
  function EdgeOf(b: Blocker): Option<(string, string)> {
    match b
    case Edge(owner, dep, _, _) => Some((owner, dep))
    case Cycle(cycle) => if |cycle| >= 2 then Some((cycle[|cycle| - 2], cycle[|cycle| - 1])) else None
    case _ => None
  }

  predicate Reports(blockers: seq<Blocker>, owner: string, dep: string) {
    exists b :: b in blockers && EdgeOf(b) == Some((owner, dep))
  }

  predicate Once(blockers: seq<Blocker>) {
    forall i, j :: 0 <= i < j < |blockers| && EdgeOf(blockers[i]).Some? ==> EdgeOf(blockers[i]) != EdgeOf(blockers[j])
  }

  /** No plugin declares two dependencies on one plugin. */
  predicate DistinctDeps(deps: seq<Dep>) { forall i, j :: 0 <= i < j < |deps| ==> deps[i].id != deps[j].id }

  predicate EachDistinct(g: Registry) { forall id :: id in g.plugins ==> DistinctDeps(g.plugins[id].deps) }

  /** Only plugins seen have dependencies reported. */
  ghost predicate Owned(chain: seq<string>, s: State) {
    forall owner, dep :: Reports(s.blockers, owner, dep) ==> owner in chain || owner in s.visited
  }

  /** For these owners nothing new is reported. */
  ghost predicate Silent(owners: seq<string>, s: State, t: State) {
    forall owner, dep :: owner in owners && Reports(t.blockers, owner, dep) ==> Reports(s.blockers, owner, dep)
  }

  lemma ReportAppend(blockers: seq<Blocker>, b: Blocker)
    requires Once(blockers)
    requires EdgeOf(b).Some? ==> !Reports(blockers, EdgeOf(b).value.0, EdgeOf(b).value.1)
    ensures Once(blockers + [b])
    ensures forall owner, dep :: Reports(blockers + [b], owner, dep)
                                 <==> Reports(blockers, owner, dep) || EdgeOf(b) == Some((owner, dep))
  {
    var all := blockers + [b];
    forall i, j | 0 <= i < j < |all| && EdgeOf(all[i]).Some? ensures EdgeOf(all[i]) != EdgeOf(all[j]) {
      if j == |blockers| { assert all[i] in blockers; }
    }
    forall owner, dep ensures Reports(all, owner, dep)
                              <==> Reports(blockers, owner, dep) || EdgeOf(b) == Some((owner, dep)) {
      if Reports(blockers, owner, dep) {
        var x :| x in blockers && EdgeOf(x) == Some((owner, dep));
        assert x in all;
      }
      assert b in all;
    }
  }

  lemma {:induction false} WalkReportsOnce(g: Registry, chain: seq<string>, s: State)
    requires chain != [] && Known(g, chain) && EachDistinct(g) && Once(s.blockers)
    requires chain[|chain| - 1] !in chain[..|chain| - 1] && Owned(chain[..|chain| - 1], s)
    ensures var t, before := Walk(g, chain, s), chain[..|chain| - 1];
            Once(t.blockers) && Owned(before, t) && Silent(before, s, t)
    decreases g.plugins.Keys - Elements(chain), 1, 0
  {
    var owner, before := chain[|chain| - 1], chain[..|chain| - 1];
    if owner !in s.visited {
      var deps := g.plugins[owner].deps;
      DepsReportOnce(g, chain, deps, s);
      var after, t := WalkDeps(g, chain, deps, s), Walk(g, chain, s);
      assert chain == before + [owner];
    }
  }

  lemma {:induction false} DepsReportOnce(g: Registry, chain: seq<string>, deps: seq<Dep>, s: State)
    requires chain != [] && Known(g, chain) && EachDistinct(g) && Once(s.blockers) && Owned(chain, s)
    requires chain[|chain| - 1] !in chain[..|chain| - 1]
    requires DistinctDeps(deps) && forall d :: d in deps ==> !Reports(s.blockers, chain[|chain| - 1], d.id)
    ensures var t, before := WalkDeps(g, chain, deps, s), chain[..|chain| - 1];
            Once(t.blockers) && Owned(chain, t) && Silent(before, s, t)
    decreases g.plugins.Keys - Elements(chain), 0, 1 + |deps|
  {
    if deps != [] {
      var next := Follow(g, chain, deps[0], s);
      assert deps[0] in deps;
      FollowReportsOnce(g, chain, deps[0], s);
      forall d | d in deps[1..] ensures !Reports(next.blockers, chain[|chain| - 1], d.id) {
        var i :| 0 <= i < |deps[1..]| && deps[1..][i] == d;
        assert deps[i + 1] == d && d in deps;
      }
      DepsReportOnce(g, chain, deps[1..], next);
    }
  }

  lemma {:induction false} FollowReportsOnce(g: Registry, chain: seq<string>, d: Dep, s: State)
    requires chain != [] && Known(g, chain) && EachDistinct(g) && Once(s.blockers) && Owned(chain, s)
    requires chain[|chain| - 1] !in chain[..|chain| - 1]
    requires !Reports(s.blockers, chain[|chain| - 1], d.id)
    ensures var t, owner := Follow(g, chain, d, s), chain[|chain| - 1];
            && Once(t.blockers) && Owned(chain, t) && Silent(chain[..|chain| - 1], s, t)
            && forall dep :: Reports(t.blockers, owner, dep) && !Reports(s.blockers, owner, dep) ==> dep == d.id
    decreases g.plugins.Keys - Elements(chain), 0, 0
  {
    if d.id in chain {
      ClosesAtLast(chain, d.id);
      ReportAppend(s.blockers, Cycle(ClosedBy(chain, d.id)));
    } else if Evaluate(g, d) == Satisfied {
      Shrinks(g, chain, d.id);
      assert (chain + [d.id])[..|chain|] == chain;
      WalkReportsOnce(g, chain + [d.id], s);
    } else {
      ReportAppend(s.blockers, Edge(chain[|chain| - 1], d.id, Evaluate(g, d), chain + [d.id]));
    }
  }

  /** Where no plugin declares two dependencies on one plugin, no dependency is reported twice. */
  lemma NothingIsReportedTwice(g: Registry, targetID: string)
    requires EachDistinct(g)
    ensures Once(Check(g, targetID).blockers)
  {
    var id := TrimSpace(targetID);
    if id in g.plugins { WalkReportsOnce(g, [id], Started(g, id)); }
  }
}
