/** What upgrade runs leave behind: the end state of success and of failure, and what becomes of
    untracked plugin files. */
module UpgradeEffects {
  import opened GoStrings
  import opened GitModel
  import opened Upgrade

  // ----- What a successful run leaves behind

  /** Neither history contains the other and no merge is pending: the merge is a true one. */
  predicate Diverged(r: Repo, target: Commit) {
    r.mergeHead.None? && !IsAncestor(target, r.head) && !IsAncestor(r.head, target)
  }

  /** The plugin files the merge writes. */
  function Incoming(r: Repo, target: Commit, env: Env): Files {
    if env.merge.Breaks? then map[]
    else if Diverged(r, target) then Checkout(Stages(env.merge.merged.plugins))
    else if r.mergeHead.None? && FastForwards(r.head, target) then FilesIn(target.tree.plugins)
    else map[]
  }

  /** The tree of HEAD after a successful run. */
  function FinalTree(r: Repo, target: Commit, env: Env): Tree {
    if env.merge.Runs? && Diverged(r, target) then Tree(Checkout(env.merge.merged.host), r.head.tree.plugins)
    else if r.mergeHead.None? && FastForwards(r.head, target) then target.tree
    else r.head.tree
  }

  /** The plugin files on disk after a successful run: a fast-forward exchanges the tracked ones; a true
      merge leaves them as they were, except that untracked files it overwrote are gone and that, where
      no plugins path existed, its files stay. */
  function FinalPlugins(r: Repo, target: Commit, env: Env): Files {
    var disk, tracked, incoming := r.worktree.plugins, FilesIn(r.head.tree.plugins), Incoming(r, target, env);
    if Diverged(r, target) then
      if r.head.tree.plugins == NO_PLUGINS then disk + incoming else disk - (incoming.Keys - tracked.Keys)
    else if r.mergeHead.None? && FastForwards(r.head, target) then (disk - tracked.Keys) + incoming
    else disk
  }

  function FinalDisk(r: Repo, target: Commit, env: Env): Disk {
    Disk((r.worktree.host - r.head.tree.host.Keys) + FinalTree(r, target, env).host, FinalPlugins(r, target, env))
  }

  lemma RetrackSame(disk: Files, files: Files)
    requires Intact(files, disk)
    ensures Retrack(disk, Staged(files), files) == disk
    ensures (disk - files.Keys) + files == disk
  {
  }

  lemma RestoredFiles(disk: Files, tracked: Files, stages: map<string, Stage>)
    requires Intact(tracked, disk)
    ensures Retrack(Retrack(disk, Staged(tracked), Checkout(stages)), stages, tracked)
            == disk - (Checkout(stages).Keys - tracked.Keys)
  {
  }

  lemma CleanIsIntact(r: Repo, rules: Rules)
    requires IsClean(r, rules)
    ensures Intact(r.head.tree.host, r.worktree.host)
    ensures Intact(FilesIn(r.head.tree.plugins), r.worktree.plugins)
  {
  }

  /** The plugin files on disk once they are put back. */
  function KeptPlugins(r: Repo): Files {
    if r.head.tree.plugins == NO_PLUGINS then r.worktree.plugins
    else Retrack(r.worktree.plugins, Stages(r.index.plugins), FilesIn(r.head.tree.plugins))
  }

  lemma PreservedDisk(r: Repo, env: Env)
    requires PreservePlugins(r, r.head, env).ok
    ensures PreservePlugins(r, r.head, env).repo.worktree == Disk(r.worktree.host, KeptPlugins(r))
  {
  }

  lemma KeptIsFixed(r: Repo)
    ensures var w := r.head.tree.plugins;
            Retrack(KeptPlugins(r), Stages(EntriesOf(w)), FilesIn(w)) == KeptPlugins(r)
  {
    var w := r.head.tree.plugins;
    assert Stages(EntriesOf(w)).Keys == FilesIn(w).Keys;
    if w != NO_PLUGINS { RetrackSame(KeptPlugins(r), FilesIn(w)); }
  }

  /** However a pending merge ends well, by a commit or by being dropped, HEAD has the merged tree and
      the old plugins, the index agrees, and the plugin files were put back. */
  lemma FinishLeaves(r: Repo, env: Env)
    requires r.mergeHead.Some? && Intact(Checkout(r.index.host), r.worktree.host) && Finish(r, r.head, env).ok
    ensures var s := Finish(r, r.head, env).repo;
            && s.head.tree == MergedTree(r) && s.index == IndexOf(MergedTree(r)) && s.mergeHead.None?
            && s.worktree == Disk(r.worktree.host, KeptPlugins(r))
  {
    var s := PreservePlugins(r, r.head, env).repo;
    PreservedIndex(r, env);
    PreservedDisk(r, env);
    CommittedTree(r);
    if s.index == IndexOf(r.head.tree) {
      CheckoutOfStaged(r.head.tree.host);
      RetrackSame(r.worktree.host, r.head.tree.host);
      KeptIsFixed(r);
    }
  }

  lemma StalePhaseLeaves(r: Repo, target: Commit, env: Env)
    requires IsClean(r, env.rules) && r.mergeHead.Some? && MergeAndFinish(r, target, env).ok
    ensures var s := MergeAndFinish(r, target, env).repo;
            s.head.tree == r.head.tree && s.index == r.index && s.mergeHead.None? && s.worktree == r.worktree
  {
    CleanIsIntact(r, env.rules);
    CheckoutOfStaged(r.head.tree.host);
    FinishLeaves(r, env);
    RetrackSame(r.worktree.plugins, FilesIn(r.head.tree.plugins));
    assert Stages(EntriesOf(r.head.tree.plugins)).Keys == FilesIn(r.head.tree.plugins).Keys;
  }

  /** Right after a true merge. */
  function Pending(r: Repo, target: Commit, merged: Index): Repo {
    r.(index := merged, worktree := Switch(r, Checkout(merged.host), Checkout(Stages(merged.plugins))),
       mergeHead := Some(target))
  }

  lemma TrueMergeRuns(r: Repo, target: Commit, env: Env)
    requires Diverged(r, target) && MergeAndFinish(r, target, env).ok
    ensures env.merge.Runs?
    ensures MergeAndFinish(r, target, env) == Finish(Pending(r, target, env.merge.merged), r.head, env)
  {
  }

  lemma PendingIsIntact(r: Repo, target: Commit, merged: Index)
    ensures var m := Pending(r, target, merged); Intact(Checkout(m.index.host), m.worktree.host)
  {
  }

  lemma StagesOf(w: Workspace)
    ensures Stages(EntriesOf(w)) == Staged(FilesIn(w))
  {
    assert Staged(map[]) == map[];
  }

  lemma PendingKeeps(r: Repo, target: Commit, env: Env)
    requires IsClean(r, env.rules) && Diverged(r, target) && env.merge.Runs?
    ensures KeptPlugins(Pending(r, target, env.merge.merged)) == FinalPlugins(r, target, env)
  {
    CleanIsIntact(r, env.rules);
    StagesOf(r.head.tree.plugins);
    RestoredFiles(r.worktree.plugins, FilesIn(r.head.tree.plugins), Stages(env.merge.merged.plugins));
  }

  lemma TrueMergeLeaves(r: Repo, target: Commit, env: Env)
    requires IsClean(r, env.rules) && Diverged(r, target) && MergeAndFinish(r, target, env).ok
    ensures var s := MergeAndFinish(r, target, env).repo;
            && s.head.tree == FinalTree(r, target, env) && s.index == IndexOf(s.head.tree) && s.mergeHead.None?
            && s.worktree == FinalDisk(r, target, env)
  {
    TrueMergeRuns(r, target, env);
    var m := Pending(r, target, env.merge.merged);
    PendingIsIntact(r, target, env.merge.merged);
    FinishLeaves(m, env);
    PendingKeeps(r, target, env);
    assert MergedTree(m) == FinalTree(r, target, env);
    assert m.worktree.host == FinalDisk(r, target, env).host;
  }

  lemma ForwardDisk(r: Repo, target: Commit, env: Env)
    requires IsClean(r, env.rules) && Forwards(r, target, env)
    ensures FinalTree(r, target, env) == target.tree
    ensures Switch(r, target.tree.host, FilesIn(target.tree.plugins)) == FinalDisk(r, target, env)
  {
    StagesOf(r.head.tree.plugins);
    RetrackStaged(r.worktree.host, r.head.tree.host, target.tree.host);
    RetrackStaged(r.worktree.plugins, FilesIn(r.head.tree.plugins), FilesIn(target.tree.plugins));
  }

  lemma RetrackStaged(disk: Files, tracked: Files, files: Files)
    ensures Retrack(disk, Staged(tracked), files) == (disk - tracked.Keys) + files
  {
    assert Staged(tracked).Keys == tracked.Keys;
  }

  lemma ForwardLeaves(r: Repo, target: Commit, env: Env)
    requires IsClean(r, env.rules) && r.mergeHead.None? && FastForwards(r.head, target)
    requires MergeAndFinish(r, target, env).ok
    ensures var s := MergeAndFinish(r, target, env).repo;
            && s.head.tree == FinalTree(r, target, env) && s.index == IndexOf(s.head.tree) && s.mergeHead.None?
            && s.worktree == FinalDisk(r, target, env)
  {
    assert Forwards(r, target, env);
    MergeCases(r, target, env);
    ForwardDisk(r, target, env);
  }

  lemma MergePhaseLeaves(r: Repo, target: Commit, env: Env)
    requires IsClean(r, env.rules) && MergeAndFinish(r, target, env).ok
    ensures var s := MergeAndFinish(r, target, env).repo;
            && s.head.tree == FinalTree(r, target, env) && s.index == IndexOf(s.head.tree) && s.mergeHead.None?
            && s.worktree == FinalDisk(r, target, env)
  {
    if Diverged(r, target) {
      TrueMergeLeaves(r, target, env);
    } else if r.mergeHead.None? && FastForwards(r.head, target) {
      ForwardLeaves(r, target, env);
    } else {
      CleanIsIntact(r, env.rules);
      RetrackSame(r.worktree.host, r.head.tree.host);
      if r.mergeHead.Some? { StalePhaseLeaves(r, target, env); }
    }
  }

  lemma SuccessIsMergePhase(r: Repo, input: Input, env: Env)
    requires Upgraded(r, input, env).ok
    ensures var p := Prepare(r, input, env);
            && p.Ready? && Upgraded(r, input, env) == MergeAndFinish(p.repo, p.target, env)
            && p.repo == r.(remotes := p.repo.remotes, refs := p.repo.refs)
            && IsClean(r, env.rules) && IsClean(p.repo, env.rules) && !NestedIsDirty(r, env.rules)
            && (env.merge.Runs? || r.mergeHead.Some?)
  {
    PreparationIsLocal(r, input, env);
  }

  lemma FinalFrame(r: Repo, s: Repo, target: Commit, env: Env)
    requires s == r.(remotes := s.remotes, refs := s.refs)
    ensures FinalTree(s, target, env) == FinalTree(r, target, env)
    ensures FinalDisk(s, target, env) == FinalDisk(r, target, env)
  {
  }

  /** The whole state a successful run ends in: no merge pending, an index equal to HEAD, and the tree
      and the files given by FinalTree and FinalDisk. */
  lemma SuccessLeaves(r: Repo, input: Input, env: Env)
    requires Upgraded(r, input, env).ok
    ensures var s, p := Upgraded(r, input, env).repo, Prepare(r, input, env);
            && p.Ready? && IsClean(r, env.rules) && !NestedIsDirty(r, env.rules)
            && s.head.tree == FinalTree(r, p.target, env) && s.index == IndexOf(s.head.tree) && s.mergeHead.None?
            && s.worktree == FinalDisk(r, p.target, env) && s.nested == r.nested
            && (env.merge.Runs? || r.mergeHead.Some?)
  {
    SuccessIsMergePhase(r, input, env);
    var p := Prepare(r, input, env);
    MergePhaseLeaves(p.repo, p.target, env);
    MergePhaseUntouched(p.repo, p.target, env);
    FinalFrame(r, p.repo, p.target, env);
  }

  // ----- When the next run is admitted

  /** HEAD has another gitlink than the initialised submodule has checked out. */
  predicate GitlinkMoved(r: Repo, t: Tree) {
    t.plugins.Link? && r.nested.Some? && r.nested.value.commit != t.plugins.commit
  }

  /** The submodule itself shows changes. */
  predicate NestedDisturbed(r: Repo, t: Tree, files: Files, rules: Rules) {
    t.plugins.Link? && r.nested.Some? && NestedDirty(r.nested.value, files, rules)
  }

  /** Below an ordinary plugins path, or where there is none, something untracked is not ignored. */
  predicate PluginFilesShow(r: Repo, t: Tree, files: Files, rules: Rules) {
    && t.plugins.Folder?
    && if r.nested.Some? && t.plugins.files == map[] then !rules.plugins(t, "")
       else exists p :: p in files && p !in t.plugins.files && !rules.plugins(t, p)
  }

  /** A host file that was untracked and still is has lost its ignore rule. */
  predicate HostFilesShow(r: Repo, t: Tree, rules: Rules) {
    exists p :: p in r.worktree.host && p !in r.head.tree.host && p !in t.host && !rules.host(t, p)
  }

  lemma FinalIsIntact(r: Repo, target: Commit, env: Env)
    requires IsClean(r, env.rules)
    ensures var t, d := FinalTree(r, target, env), FinalDisk(r, target, env);
            Intact(t.host, d.host) && (env.merge.Runs? ==> Intact(FilesIn(t.plugins), d.plugins))
  {
    CleanIsIntact(r, env.rules);
  }

  lemma HostCleanIff(r: Repo, t: Tree, rules: Rules)
    ensures FilesClean(t.host, (r.worktree.host - r.head.tree.host.Keys) + t.host, p => rules.host(t, p))
            <==> !HostFilesShow(r, t, rules)
  {
  }

  lemma PluginsCleanIff(r: Repo, t: Tree, files: Files, rules: Rules)
    requires Intact(FilesIn(t.plugins), files)
    ensures PluginsClean(t, files, r.nested, rules)
            <==> !GitlinkMoved(r, t) && !NestedDisturbed(r, t, files, rules) && !PluginFilesShow(r, t, files, rules)
  {
  }

  /** After a successful run the worktree is clean, so that the next run is admitted, unless one of four
      things happened, each of which can be told from the repository before, the target and the merge. */
  lemma SuccessIsRepeatableIff(r: Repo, input: Input, env: Env)
    requires Upgraded(r, input, env).ok
    ensures var s, p := Upgraded(r, input, env).repo, Prepare(r, input, env);
            && p.Ready?
            && var t, files := FinalTree(r, p.target, env), FinalPlugins(r, p.target, env);
               IsClean(s, env.rules)
               <==> && !GitlinkMoved(r, t) && !NestedDisturbed(r, t, files, env.rules)
                    && !PluginFilesShow(r, t, files, env.rules) && !HostFilesShow(r, t, env.rules)
  {
    SuccessLeaves(r, input, env);
    var target := Prepare(r, input, env).target;
    var t, files := FinalTree(r, target, env), FinalPlugins(r, target, env);
    FinalIsIntact(r, target, env);
    HostCleanIff(r, t, env.rules);
    if env.merge.Runs? || r.mergeHead.Some? {
      CleanIsIntact(r, env.rules);
      PluginsCleanIff(r, t, files, env.rules);
    }
  }

  predicate ForwardsGitlink(r: Repo, target: Commit) {
    && r.mergeHead.None? && FastForwards(r.head, target)
    && r.nested.Some? && target.tree.plugins != r.head.tree.plugins
  }

  /** A true merge brings plugin files that are not ignored into a repository without a plugins path. */
  predicate LeavesPluginFiles(r: Repo, target: Commit, env: Env) {
    && Diverged(r, target) && env.merge.Runs? && r.head.tree.plugins == NO_PLUGINS
    && exists p :: p in Stages(env.merge.merged.plugins) && !env.rules.plugins(r.head.tree, p)
  }

  /** A fast-forward from a gitlink that is not initialised to ordinary files uncovers stray files. */
  predicate UncoversStrayFiles(r: Repo, target: Commit, env: Env) {
    && r.mergeHead.None? && FastForwards(r.head, target)
    && r.nested.None? && r.head.tree.plugins.Link? && target.tree.plugins.Folder?
    && exists p :: p in r.worktree.plugins && p !in target.tree.plugins.files
                   && !env.rules.plugins(r.head.tree, p)
  }

  /** The new HEAD has the ignore rules of the old one. */
  ghost predicate RulesStay(r: Repo, t: Tree, rules: Rules) {
    forall p :: rules.host(t, p) == rules.host(r.head.tree, p) && rules.plugins(t, p) == rules.plugins(r.head.tree, p)
  }

  /** If a nested repository is there, it is a submodule on both sides. */
  predicate SubmoduleStays(r: Repo, target: Commit, env: Env) {
    r.nested.Some? ==>
      && r.head.tree.plugins.Link?
      && (FastForwards(r.head, target) ==> target.tree.plugins.Link?)
      && (Diverged(r, target) && env.merge.Runs? ==> env.merge.merged.plugins.LinkEntry?)
  }

  lemma HostStaysQuiet(r: Repo, t: Tree, rules: Rules)
    requires IsClean(r, rules) && RulesStay(r, t, rules)
    ensures !HostFilesShow(r, t, rules)
  {
  }

  lemma SubmoduleShowsIff(r: Repo, target: Commit, env: Env)
    requires IsClean(r, env.rules) && !NestedIsDirty(r, env.rules) && r.nested.Some?
    requires SubmoduleStays(r, target, env)
    ensures var t, files := FinalTree(r, target, env), FinalPlugins(r, target, env);
            && !NestedDisturbed(r, t, files, env.rules) && !PluginFilesShow(r, t, files, env.rules)
            && (GitlinkMoved(r, t) <==> ForwardsGitlink(r, target))
  {
    var d := r.worktree.plugins;
    assert d - {} == d && (d - {}) + map[] == d;
    assert Checkout(map[]) == map[];
    assert FinalPlugins(r, target, env) == d;
  }

  lemma FilesShowIff(r: Repo, target: Commit, env: Env)
    requires IsClean(r, env.rules) && r.nested.None? && RulesStay(r, FinalTree(r, target, env), env.rules)
    requires env.merge.Runs? || r.mergeHead.Some?
    ensures PluginFilesShow(r, FinalTree(r, target, env), FinalPlugins(r, target, env), env.rules)
            <==> LeavesPluginFiles(r, target, env) || UncoversStrayFiles(r, target, env)
  {
    var t, files := FinalTree(r, target, env), FinalPlugins(r, target, env);
    if LeavesPluginFiles(r, target, env) {
      var p :| p in Stages(env.merge.merged.plugins) && !env.rules.plugins(r.head.tree, p);
      assert p in files && p !in t.plugins.files && !env.rules.plugins(t, p);
    }
    if UncoversStrayFiles(r, target, env) {
      var p :| p in r.worktree.plugins && p !in target.tree.plugins.files && !env.rules.plugins(r.head.tree, p);
      assert p in files && p !in t.plugins.files && !env.rules.plugins(t, p);
    }
  }

  lemma CausesUnderSameRules(r: Repo, target: Commit, env: Env)
    requires IsClean(r, env.rules) && !NestedIsDirty(r, env.rules) && (env.merge.Runs? || r.mergeHead.Some?)
    requires SubmoduleStays(r, target, env) && RulesStay(r, FinalTree(r, target, env), env.rules)
    ensures var t, files := FinalTree(r, target, env), FinalPlugins(r, target, env);
            && !GitlinkMoved(r, t) && !NestedDisturbed(r, t, files, env.rules)
            && !PluginFilesShow(r, t, files, env.rules) && !HostFilesShow(r, t, env.rules)
            <==> && !ForwardsGitlink(r, target) && !LeavesPluginFiles(r, target, env)
                 && !UncoversStrayFiles(r, target, env)
  {
    HostStaysQuiet(r, FinalTree(r, target, env), env.rules);
    if r.nested.Some? { SubmoduleShowsIff(r, target, env); } else { FilesShowIff(r, target, env); }
  }

  /** While ignore rules stay the same and a nested repository is a submodule on both sides: a
      successful run leaves a clean worktree unless it fast-forwards an initialised submodule to another
      commit, brings unignored plugin files where there was no plugins path, or uncovers stray files. */
  lemma RepeatableUnderSameRulesIff(r: Repo, input: Input, env: Env)
    requires Upgraded(r, input, env).ok
    requires var p := Prepare(r, input, env);
             p.Ready? ==> SubmoduleStays(r, p.target, env) && RulesStay(r, FinalTree(r, p.target, env), env.rules)
    ensures var target := Prepare(r, input, env).target;
            IsClean(Upgraded(r, input, env).repo, env.rules)
            <==> && !ForwardsGitlink(r, target) && !LeavesPluginFiles(r, target, env)
                 && !UncoversStrayFiles(r, target, env)
  {
    SuccessLeaves(r, input, env);
    SuccessIsRepeatableIff(r, input, env);
    CausesUnderSameRules(r, Prepare(r, input, env).target, env);
  }

  // ----- When success means that the target was merged

  /** Of a pending merge, a successful end is at the target exactly when its host files were new:
      otherwise the merge was dropped and HEAD stayed. */
  lemma FinishContainsIff(r: Repo, env: Env)
    requires r.mergeHead.Some? && Finish(r, r.head, env).ok
    ensures var head := Finish(r, r.head, env).repo.head;
            if r.index.host == Staged(r.head.tree.host) then head == r.head
            else IsAncestor(r.mergeHead.value, head)
  {
    PreservedIndex(r, env);
    if r.index.host != Staged(r.head.tree.host) {
      var head := Finish(r, r.head, env).repo.head;
      assert head.parents == [r.head, r.mergeHead.value];
      assert head.parents[1] == r.mergeHead.value && IsAncestor(r.mergeHead.value, head.parents[1]);
    }
  }

  /** What it takes for the merge to bring the target in: no merge was pending before, and HEAD can
      fast-forward or the merge leaves other host files than HEAD has. */
  predicate BringsTargetIn(r: Repo, target: Commit, a: MergeAnswer) {
    && r.mergeHead.None?
    && (IsAncestor(r.head, target) || (a.Runs? && a.merged.host != Staged(r.head.tree.host)))
  }

  lemma TrueMergeContainsIff(r: Repo, target: Commit, env: Env)
    requires Diverged(r, target) && MergeAndFinish(r, target, env).ok
    ensures IsAncestor(target, MergeAndFinish(r, target, env).repo.head) <==> BringsTargetIn(r, target, env.merge)
  {
    TrueMergeRuns(r, target, env);
    FinishContainsIff(Pending(r, target, env.merge.merged), env);
  }

  lemma MergePhaseContainsIff(r: Repo, target: Commit, env: Env)
    requires IsClean(r, env.rules) && MergeAndFinish(r, target, env).ok
    ensures IsAncestor(target, MergeAndFinish(r, target, env).repo.head)
            <==> IsAncestor(target, r.head) || BringsTargetIn(r, target, env.merge)
  {
    if r.mergeHead.Some? {
      FinishContainsIff(r, env);
    } else if Diverged(r, target) {
      TrueMergeContainsIff(r, target, env);
    } else if FastForwards(r.head, target) {
      assert Forwards(r, target, env);
      MergeCases(r, target, env);
    }
  }

  /** A successful run ends at a HEAD that contains its target exactly when HEAD contained it before,
      or no merge was pending and HEAD could fast-forward or the merge changed host files. So success
      without the target has two causes: a stale merge, and a target that changes plugins only. */
  lemma SuccessContainsTargetIff(r: Repo, input: Input, env: Env)
    requires Upgraded(r, input, env).ok
    ensures var p := Prepare(r, input, env);
            && p.Ready?
            && (IsAncestor(p.target, Upgraded(r, input, env).repo.head)
                <==> IsAncestor(p.target, r.head) || BringsTargetIn(r, p.target, env.merge))
  {
    SuccessIsMergePhase(r, input, env);
    var p := Prepare(r, input, env);
    MergePhaseContainsIff(p.repo, p.target, env);
  }

  lemma StaleMergeSucceeds(r: Repo, env: Env)
    requires r.mergeHead.Some? && IsClean(r, env.rules) && !NestedRefuses(r, env)
    requires env.restore.Done? && env.abort.Done? && env.diffOk
    ensures Finish(r, r.head, env).ok
  {
    PreservedIndex(r, env);
    TreeOfIndex(r.head.tree);
  }

  lemma StaleMergeKeepsHead(r: Repo, env: Env)
    requires r.mergeHead.Some? && IsClean(r, env.rules)
    ensures Finish(r, r.head, env).repo.head == r.head
  {
    if PreservePlugins(r, r.head, env).ok { PreservedIndex(r, env); }
  }

  /** In particular a merge left pending on a clean worktree passes the checks, and a run that
      succeeds has dropped it, merged nothing and left the worktree as it was; it does succeed if no
      command fails and nobody touches the nested repository. */
  lemma StaleMergeIsDropped(r: Repo, input: Input, env: Env)
    requires r.mergeHead.Some? && Prepare(r, input, env).Ready?
    ensures var out, target := Upgraded(r, input, env), Prepare(r, input, env).target;
            && out.repo.head == r.head
            && (out.ok ==> && out.repo.mergeHead.None? && IsClean(out.repo, env.rules)
                           && (IsAncestor(target, out.repo.head) <==> IsAncestor(target, r.head)))
            && (env.nestedLaterOk && !env.nestedTampered && env.restore.Done? && env.abort.Done? && env.diffOk ==>
                  out.ok)
  {
    PreparationIsLocal(r, input, env);
    var p := Prepare(r, input, env);
    StaleMergeKeepsHead(p.repo, env);
    if Upgraded(r, input, env).ok {
      StalePhaseLeaves(p.repo, p.target, env);
      MergePhaseUntouched(p.repo, p.target, env);
    }
    if env.nestedLaterOk && !env.nestedTampered && env.restore.Done? && env.abort.Done? && env.diffOk {
      StaleMergeSucceeds(p.repo, env);
    }
  }

  /** A target that differs in plugins only is never merged, however often the run succeeds. */
  lemma PluginOnlyTargetIsNotMerged(r: Repo, input: Input, env: Env)
    requires Upgraded(r, input, env).ok && env.merge.Runs? && env.merge.merged.host == Staged(r.head.tree.host)
    requires var p := Prepare(r, input, env);
             p.Ready? && !IsAncestor(p.target, r.head) && !IsAncestor(r.head, p.target)
    ensures Upgraded(r, input, env).repo.head == r.head
  {
    SuccessIsMergePhase(r, input, env);
    var p := Prepare(r, input, env);
    var m := Merge(p.repo, p.target, env.merge, env.rules);
    if m.repo.mergeHead.Some? { FinishContainsIff(m.repo, env); }
  }

  // ----- What a failed run leaves behind

  /** What a true merge and its abort cost: untracked files, all of them ignored, that it overwrote. */
  function RolledBack(r: Repo, merged: Index): Disk {
    Disk(r.worktree.host - (merged.host.Keys - r.head.tree.host.Keys),
         r.worktree.plugins - (Stages(merged.plugins).Keys - FilesIn(r.head.tree.plugins).Keys))
  }

  lemma AbortedFiles(disk: Files, tracked: Files, stages: map<string, Stage>)
    requires Intact(tracked, disk)
    ensures Retrack(Retrack(disk, Staged(tracked), Checkout(stages)), stages, tracked)
            == disk - (stages.Keys - tracked.Keys)
  {
    RestoredFiles(disk, tracked, stages);
    assert Checkout(stages).Keys == stages.Keys;
  }

  lemma AbortDisk(r: Repo, target: Commit, merged: Index, rules: Rules)
    requires IsClean(r, rules)
    ensures Switch(Pending(r, target, merged), r.head.tree.host, FilesIn(r.head.tree.plugins)) == RolledBack(r, merged)
  {
    CleanIsIntact(r, rules);
    StagesOf(r.head.tree.plugins);
    AbortedFiles(r.worktree.host, r.head.tree.host, merged.host);
    AbortedFiles(r.worktree.plugins, FilesIn(r.head.tree.plugins), Stages(merged.plugins));
  }

  lemma AbortRestores(r: Repo, target: Commit, merged: Index, rules: Rules)
    requires IsClean(r, rules)
    ensures AbortMerge(Pending(r, target, merged), Done).repo
            == r.(worktree := RolledBack(r, merged), mergeHead := None)
  {
    AbortDisk(r, target, merged, rules);
  }

  /** When the nested repository turns out dirty after a true merge, the run fails and, if git can abort
      the merge, the repository is what it was, except for ignored files the merge had overwritten. */
  lemma DirtyNestedRollsBack(r: Repo, target: Commit, env: Env)
    requires IsClean(r, env.rules) && Diverged(r, target) && env.merge.Runs? && env.abort.Done?
    requires !LosesUntracked(r, Checkout(env.merge.merged.host), Checkout(Stages(env.merge.merged.plugins)), env.rules)
    requires NestedRefuses(Pending(r, target, env.merge.merged), env)
    ensures MergeAndFinish(r, target, env)
            == Outcome(r.(worktree := RolledBack(r, env.merge.merged)), false)
  {
    AbortRestores(r, target, env.merge.merged, env.rules);
    assert r.mergeHead == None;
  }

  /** When putting the plugins back fails in whatever state, the same abort leaves HEAD and the index as
      they were, no merge pending, and every tracked file as HEAD has it. */
  lemma FailedPreserveRollsBack(r: Repo, target: Commit, env: Env)
    requires IsClean(r, env.rules) && Diverged(r, target) && env.merge.Runs? && env.abort.Done?
    requires var m := Merge(r, target, env.merge, env.rules).repo;
             m.mergeHead.Some? && !PreservePlugins(m, r.head, env).ok
    ensures var out := MergeAndFinish(r, target, env);
            && !out.ok && out.repo == r.(worktree := out.repo.worktree)
            && Intact(r.head.tree.host, out.repo.worktree.host)
            && Intact(FilesIn(r.head.tree.plugins), out.repo.worktree.plugins)
  {
    var m := Merge(r, target, env.merge, env.rules).repo;
    PreserveUntouched(m, r.head, env);
    var s := PreservePlugins(m, r.head, env).repo;
    assert s == m.(index := s.index, worktree := s.worktree);
    assert r.mergeHead == None;
  }

  // ----- Untracked plugin files

  /** None of the commands that follow a merge touches a plugin file that neither the index nor the
      restored tree tracks. */
  lemma CommandsKeepUntracked(r: Repo, w: Workspace, p: string)
    requires p in r.worktree.plugins && p !in Stages(r.index.plugins)
    ensures var kept := UntrackPlugins(r, Done).repo.worktree.plugins; p in kept && kept[p] == r.worktree.plugins[p]
    ensures p !in FilesIn(w) ==>
              var kept := RestorePlugins(r, w, Done).repo.worktree.plugins;
              p in kept && kept[p] == r.worktree.plugins[p]
    ensures p !in FilesIn(r.head.tree.plugins) ==>
              var kept := AbortMerge(r, Done).repo.worktree.plugins;
              p in kept && kept[p] == r.worktree.plugins[p]
  {
  }

  /** An untracked file below the plugins path survives a successful run exactly unless the merge brings
      a file of its name: after a true merge that file was taken away with the official plugins, and
      otherwise its content is the official one. */
  lemma UntrackedPluginFileKeptIff(r: Repo, input: Input, env: Env, p: string)
    requires Upgraded(r, input, env).ok
    requires p in r.worktree.plugins && p !in FilesIn(r.head.tree.plugins)
    ensures var target := Prepare(r, input, env).target;
            var files, incoming := Upgraded(r, input, env).repo.worktree.plugins, Incoming(r, target, env);
            (p in files && files[p] == r.worktree.plugins[p])
            <==> p !in incoming
                 || (incoming[p] == r.worktree.plugins[p]
                     && (r.head.tree.plugins == NO_PLUGINS || !Diverged(r, target)))
  {
    SuccessLeaves(r, input, env);
  }

  lemma OverwrittenFileIsGone(r: Repo, input: Input, env: Env, p: string)
    requires Upgraded(r, input, env).ok && env.merge.Runs? && r.head.tree.plugins != NO_PLUGINS
    requires Diverged(r, Prepare(r, input, env).target)
    requires p !in FilesIn(r.head.tree.plugins) && p in Checkout(Stages(env.merge.merged.plugins))
    ensures p !in Upgraded(r, input, env).repo.worktree.plugins
  {
    SuccessLeaves(r, input, env);
  }

  lemma KeptUnlessIgnored(r: Repo, host: Files, plugins: Files, rules: Rules, p: string)
    requires !LosesUntracked(r, host, plugins, rules)
    requires p in plugins && p !in Stages(r.index.plugins) && p in r.worktree.plugins
    ensures rules.plugins(r.head.tree, p)
  {
  }

  /** What is lost that way was ignored: git refuses to overwrite anything else. */
  lemma OnlyIgnoredFilesAreLost(r: Repo, input: Input, env: Env, p: string)
    requires Upgraded(r, input, env).ok
    requires p in r.worktree.plugins && p !in FilesIn(r.head.tree.plugins)
    ensures var target := Prepare(r, input, env).target;
            p in Incoming(r, target, env) ==> env.rules.plugins(r.head.tree, p)
  {
    SuccessIsMergePhase(r, input, env);
    StagesOf(r.head.tree.plugins);
    var q := Prepare(r, input, env);
    if p in Incoming(r, q.target, env) {
      var host := if Diverged(r, q.target) then Checkout(env.merge.merged.host) else q.target.tree.host;
      KeptUnlessIgnored(q.repo, host, Incoming(r, q.target, env), env.rules, p);
    }
  }
}
