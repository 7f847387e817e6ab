/** Concrete runs: the exceptions that the upgrade theorems name do occur, in runs that succeed. */
module UpgradeCases {
  import opened GoStrings
  import opened Decimal
  import opened StableTags
  import opened GitModel
  import opened Upgrade
  import opened UpgradeEffects

  // ----- A run for a branch that gets as far as the merge

  /** Everything a run for a branch needs before the merge. */
  predicate CanFetchBranch(r: Repo, env: Env, name: string) {
    && Admitted(r, Input("", "", name), env)
    && !IsBlank(env.url) && env.remoteOk && env.fetchOk && env.headOk
    && ResolveTarget(Input("", "", name), env) == Some(BranchTarget(name)) && name in env.branchCommits && name != ""
  }

  lemma BranchRunIsReady(r: Repo, env: Env, name: string)
    requires CanFetchBranch(r, env, name)
    ensures var p := Prepare(r, Input("", "", name), env);
            p.Ready? && (Shadow(r, BranchTarget(name)).None? ==> p.target == env.branchCommits[name])
  {
    var e, t := EnsureRemote(r, env), BranchTarget(name);
    var f := Fetch(e.repo, t, env);
    FetchIsLocal(e.repo, t, env);
    assert f.ok && t.name in Offered(t, env);
    ResolveFetched(e.repo, f.repo, t, env.branchCommits[name]);
    PreparationIsLocal(r, Input("", "", name), env);
  }

  const MAIN := "main"

  lemma MainIsABranch(env: Env)
    ensures ResolveTarget(Input("", "", MAIN), env) == Some(BranchTarget(MAIN))
  {
    TrimOfTrimmed(MAIN, Whitespace);
    assert '.' !in MAIN && '/' !in MAIN;
    SplitFirst(MAIN, "", '.');
    assert Core(MAIN) == MAIN;
    NoDots(MAIN);
    assert |MAIN| != |REMOTE|;
  }

  lemma {:induction false} NoDots(s: string)
    requires '.' !in s
    ensures !HasDotDot(s)
  {
    if s != "" { NoDots(s[1..]); }
  }

  // ----- The sample repository

  const NOTHING_IGNORED := Rules((t, p) => false, (t, p) => false, p => false)

  const PLUGIN_FILES_IGNORED := Rules((t, p) => false, (t, p) => true, p => false)

  function Root(t: Tree): Commit { Commit(t, []) }

  function Sample(head: Commit, files: Files, nested: Option<Nested>): Repo {
    Repo(MAIN, head, IndexOf(head.tree), Disk(head.tree.host, files), None, map[], map[], nested, [])
  }

  /** Every command works; `merge` is what the merge does. */
  function SampleEnv(rules: Rules, official: Commit, merge: MergeAnswer): Env {
    Env("u", [], map[], map[MAIN := official], rules, true, true, true, true, true, true,
        true, true, merge, false, true, Done, Done, Done, true, Done)
  }

  function Run(r: Repo, env: Env): Outcome { Upgraded(r, Input("", "", MAIN), env) }

  lemma SampleRun(r: Repo, env: Env, official: Commit)
    requires env == SampleEnv(env.rules, official, env.merge)
    requires r.branch == MAIN && IsClean(r, env.rules) && !NestedIsDirty(r, env.rules)
    ensures var p := Prepare(r, Input("", "", MAIN), env);
            && p.Ready? && Run(r, env) == MergeAndFinish(p.repo, p.target, env)
            && p.repo == r.(remotes := p.repo.remotes, refs := p.repo.refs)
            && (Shadow(r, BranchTarget(MAIN)).None? ==> p.target == official)
  {
    MainIsABranch(env);
    TrimOfTrimmed("", Whitespace);
    TrimOfTrimmed(MAIN, Whitespace);
    TrimOfTrimmed("u", Whitespace);
    BranchRunIsReady(r, env, MAIN);
    PreparationIsLocal(r, Input("", "", MAIN), env);
  }

  lemma NothingShadows(r: Repo)
    requires r.branch == MAIN && r.refs == map[]
    ensures Shadow(r, BranchTarget(MAIN)).None?
  {
    assert MergeRef(BranchTarget(MAIN)) != MAIN by { assert |REMOTE| > 0; }
    FirstCommitNone(r, Shadowing(BranchTarget(MAIN)));
  }

  // ----- Histories

  lemma {:induction false} AncestorIsSmaller(a: Commit, b: Commit)
    requires IsAncestor(a, b)
    ensures a == b || a < b
    decreases b
  {
    if a != b {
      var i :| 0 <= i < |b.parents| && IsAncestor(a, b.parents[i]);
      AncestorIsSmaller(a, b.parents[i]);
    }
  }

  /** A commit and its only parent. */
  lemma ChildForwards(parent: Commit, child: Commit)
    requires child.parents == [parent]
    ensures FastForwards(parent, child)
  {
    assert child.parents[0] == parent && IsAncestor(parent, child.parents[0]);
    if IsAncestor(child, parent) { AncestorIsSmaller(child, parent); }
  }

  /** Two different commits on the same parent. */
  lemma SiblingsDiverge(parent: Commit, a: Commit, b: Commit)
    requires a.parents == [parent] && b.parents == [parent] && a != b
    ensures !IsAncestor(a, b) && !IsAncestor(b, a)
  {
    ChildForwards(parent, a);
    ChildForwards(parent, b);
    assert forall i :: 0 <= i < |a.parents| ==> a.parents[i] == parent;
    assert forall i :: 0 <= i < |b.parents| ==> b.parents[i] == parent;
  }

  // ----- One run for each exception

  const OLD_LINK := Root(Tree(map[], Link("1")))
  const NEW_LINK := Commit(Tree(map[], Link("2")), [OLD_LINK])

  /** A fast-forward moves HEAD to other plugins. */
  lemma FastForwardReplacesPlugins()
    ensures var r := Sample(OLD_LINK, map[], None);
            var env := SampleEnv(NOTHING_IGNORED, NEW_LINK, Runs(IndexOf(NEW_LINK.tree)));
            var out := Run(r, env);
            out.ok && out.repo.head == NEW_LINK && out.repo.head.tree.plugins != r.head.tree.plugins
  {
    var r, env := Sample(OLD_LINK, map[], None), SampleEnv(NOTHING_IGNORED, NEW_LINK, Runs(IndexOf(NEW_LINK.tree)));
    SampleRun(r, env, NEW_LINK);
    NothingShadows(r);
    ChildForwards(OLD_LINK, NEW_LINK);
  }

  /** With the submodule initialised, the same run ends in a worktree the next run refuses. */
  lemma SubmoduleIsLeftBehind()
    ensures var r, env := Sample(OLD_LINK, map[], Some(Nested("1", map[], false))),
                          SampleEnv(NOTHING_IGNORED, NEW_LINK, Runs(IndexOf(NEW_LINK.tree)));
            var out := Run(r, env);
            out.ok && !IsClean(out.repo, env.rules)
  {
    var r, env := Sample(OLD_LINK, map[], Some(Nested("1", map[], false))),
                  SampleEnv(NOTHING_IGNORED, NEW_LINK, Runs(IndexOf(NEW_LINK.tree)));
    SampleRun(r, env, NEW_LINK);
    NothingShadows(r);
    ChildForwards(OLD_LINK, NEW_LINK);
  }

  /** A true merge without conflicts succeeds when every command works. */
  lemma TrueMergeSucceeds(r: Repo, env: Env, official: Commit, merged: Index)
    requires env == SampleEnv(env.rules, official, Runs(merged))
    requires r.branch == MAIN && r.refs == map[] && r.nested.None? && IsClean(r, env.rules)
    requires Diverged(r, official) && !HasUnmerged(merged)
    requires !LosesUntracked(r, Checkout(merged.host), Checkout(Stages(merged.plugins)), env.rules)
    ensures Run(r, env).ok && Prepare(r, Input("", "", MAIN), env).Ready?
    ensures Prepare(r, Input("", "", MAIN), env).target == official
  {
    SampleRun(r, env, official);
    NothingShadows(r);
    PendingFinishes(Prepare(r, Input("", "", MAIN), env).repo, env, official, merged);
  }

  lemma PendingFinishes(r: Repo, env: Env, official: Commit, merged: Index)
    requires env == SampleEnv(env.rules, official, Runs(merged)) && r.nested.None?
    requires Diverged(r, official) && !HasUnmerged(merged)
    requires !LosesUntracked(r, Checkout(merged.host), Checkout(Stages(merged.plugins)), env.rules)
    ensures MergeAndFinish(r, official, env).ok
  {
    var m := Pending(r, official, merged);
    assert MergeAndFinish(r, official, env) == Finish(m, r.head, env);
    PreservedIndex(m, env);
    StagesOf(r.head.tree.plugins);
    CheckoutOfStaged(FilesIn(r.head.tree.plugins));
  }

  const BARE := Root(Tree(map[], NO_PLUGINS))
  const MINE := Commit(Tree(map["mine" := "1"], NO_PLUGINS), [BARE])
  const WITH_FILES := Commit(Tree(map["new" := "1"], Folder(map["p" := "1"])), [BARE])
  const BOTH := map["mine" := "1", "new" := "1"]

  /** Official plugin files stay behind untracked where no plugins path existed. */
  lemma PluginFilesAreLeft()
    ensures var r := Sample(MINE, map[], None);
            var env := SampleEnv(NOTHING_IGNORED, WITH_FILES, Runs(IndexOf(Tree(BOTH, WITH_FILES.tree.plugins))));
            Run(r, env).ok && !IsClean(Run(r, env).repo, env.rules)
  {
    var r, merged := Sample(MINE, map[], None), IndexOf(Tree(BOTH, WITH_FILES.tree.plugins));
    var env := SampleEnv(NOTHING_IGNORED, WITH_FILES, Runs(merged));
    assert "p" in WITH_FILES.tree.plugins.files;
    SiblingsDiverge(BARE, MINE, WITH_FILES);
    TreeOfIndex(Tree(BOTH, WITH_FILES.tree.plugins));
    TrueMergeSucceeds(r, env, WITH_FILES, merged);
    RepeatableUnderSameRulesIff(r, Input("", "", MAIN), env);
    assert "p" in Stages(merged.plugins) && !env.rules.plugins(r.head.tree, "p");
  }

  const LINKED := Commit(Tree(map["mine" := "1"], Link("1")), [OLD_LINK])

  /** A target that changes plugins only is reported as merged and is not. */
  lemma PluginOnlyTargetIsDropped()
    ensures var r := Sample(LINKED, map[], None);
            var env := SampleEnv(NOTHING_IGNORED, NEW_LINK, Runs(IndexOf(Tree(LINKED.tree.host, Link("2")))));
            Run(r, env).ok && !IsAncestor(NEW_LINK, Run(r, env).repo.head)
  {
    var r, merged := Sample(LINKED, map[], None), IndexOf(Tree(LINKED.tree.host, Link("2")));
    var env := SampleEnv(NOTHING_IGNORED, NEW_LINK, Runs(merged));
    SiblingsDiverge(OLD_LINK, LINKED, NEW_LINK);
    TreeOfIndex(Tree(LINKED.tree.host, Link("2")));
    TrueMergeSucceeds(r, env, NEW_LINK, merged);
    PluginOnlyTargetIsNotMerged(r, Input("", "", MAIN), env);
  }

  /** So is any target while another merge is pending on a clean worktree. */
  lemma StaleMergeHidesTarget()
    ensures var r := Sample(OLD_LINK, map[], None).(mergeHead := Some(NEW_LINK));
            var env := SampleEnv(NOTHING_IGNORED, NEW_LINK, Runs(IndexOf(NEW_LINK.tree)));
            Run(r, env).ok && !IsAncestor(NEW_LINK, Run(r, env).repo.head)
  {
    var r := Sample(OLD_LINK, map[], None).(mergeHead := Some(NEW_LINK));
    var env := SampleEnv(NOTHING_IGNORED, NEW_LINK, Runs(IndexOf(NEW_LINK.tree)));
    SampleRun(r, env, NEW_LINK);
    NothingShadows(r);
    ChildForwards(OLD_LINK, NEW_LINK);
    StaleMergeIsDropped(r, Input("", "", MAIN), env);
  }

  const LOCAL := Commit(Tree(map["local" := "1"], Link("1")), [OLD_LINK])

  /** A repository with a local branch named like the remote one. */
  function Shadowed(): Repo {
    Sample(OLD_LINK, map[], None).(refs := map[Head(MergeRef(BranchTarget(MAIN))) := LOCAL])
  }

  lemma ShadowedRef()
    ensures var n := MergeRef(BranchTarget(MAIN));
            CommitAt(Shadowed(), Head(n)) == Some(LOCAL)
            && Top(n) !in Shadowed().refs && Refs(n) !in Shadowed().refs && Tag(n) !in Shadowed().refs
  {
    assert |MergeRef(BranchTarget(MAIN))| > |MAIN|;
  }

  lemma ShadowedTarget(env: Env)
    requires env == SampleEnv(NOTHING_IGNORED, NEW_LINK, env.merge)
    ensures var p := Prepare(Shadowed(), Input("", "", MAIN), env);
            && p.Ready? && p.target == LOCAL && p.repo == Shadowed().(remotes := p.repo.remotes, refs := p.repo.refs)
            && Run(Shadowed(), env) == MergeAndFinish(p.repo, LOCAL, env)
  {
    MainIsABranch(env);
    SampleRun(Shadowed(), env, NEW_LINK);
    ShadowedRef();
    LocalBranchShadows(Shadowed(), Input("", "", MAIN), env, MAIN);
  }

  lemma ForwardSucceeds(r: Repo, env: Env, target: Commit)
    requires Forwards(r, target, env)
    ensures MergeAndFinish(r, target, env).ok && MergeAndFinish(r, target, env).repo.head == target
  {
    MergeCases(r, target, env);
  }

  /** A local branch named like the remote branch is merged in place of the official one. */
  lemma LocalBranchIsMerged()
    ensures var env := SampleEnv(NOTHING_IGNORED, NEW_LINK, Runs(IndexOf(LOCAL.tree)));
            var out := Run(Shadowed(), env);
            out.ok && out.repo.head == LOCAL && !IsAncestor(NEW_LINK, LOCAL)
  {
    var env := SampleEnv(NOTHING_IGNORED, NEW_LINK, Runs(IndexOf(LOCAL.tree)));
    ShadowedTarget(env);
    ChildForwards(OLD_LINK, LOCAL);
    ForwardSucceeds(Prepare(Shadowed(), Input("", "", MAIN), env).repo, env, LOCAL);
    SiblingsDiverge(OLD_LINK, NEW_LINK, LOCAL);
  }

  const OWN_FILES := Commit(Tree(map["mine" := "1"], Folder(map["p" := "1"])), [BARE])
  const MORE_FILES := Commit(Tree(map["new" := "1"], Folder(map["p" := "1", "q" := "2"])), [BARE])

  /** A true merge that succeeds loses every untracked plugin file it overwrites. */
  lemma TrueMergeLosesFile(r: Repo, env: Env, official: Commit, merged: Index, p: string)
    requires env == SampleEnv(env.rules, official, Runs(merged))
    requires r.branch == MAIN && r.refs == map[] && r.nested.None? && IsClean(r, env.rules)
    requires Diverged(r, official) && !HasUnmerged(merged) && r.head.tree.plugins != NO_PLUGINS
    requires !LosesUntracked(r, Checkout(merged.host), Checkout(Stages(merged.plugins)), env.rules)
    requires p !in FilesIn(r.head.tree.plugins) && p in Checkout(Stages(merged.plugins))
    ensures Run(r, env).ok && p !in Run(r, env).repo.worktree.plugins
  {
    TrueMergeSucceeds(r, env, official, merged);
    OverwrittenFileIsGone(r, Input("", "", MAIN), env, p);
  }

  const WITH_LOCAL_FILE := Sample(OWN_FILES, map["p" := "1", "q" := "local"], None)
  const MERGED_FILES := IndexOf(Tree(BOTH, MORE_FILES.tree.plugins))

  lemma LocalFileIsIgnored()
    ensures IsClean(WITH_LOCAL_FILE, PLUGIN_FILES_IGNORED) && !HasUnmerged(MERGED_FILES)
  {
    TreeOfIndex(Tree(BOTH, MORE_FILES.tree.plugins));
  }

  lemma LocalFileIsOverwritten()
    ensures !LosesUntracked(WITH_LOCAL_FILE, Checkout(MERGED_FILES.host), Checkout(Stages(MERGED_FILES.plugins)),
                            PLUGIN_FILES_IGNORED)
  {
    assert WITH_LOCAL_FILE.worktree.host.Keys == {"mine"};
    assert WITH_LOCAL_FILE.index.host.Keys == {"mine"};
  }

  lemma LocalFileIsIncoming()
    ensures "q" in Checkout(Stages(MERGED_FILES.plugins)) && "q" !in FilesIn(OWN_FILES.tree.plugins)
    ensures Diverged(WITH_LOCAL_FILE, MORE_FILES) && OWN_FILES.tree.plugins != NO_PLUGINS
  {
    assert "q" in MORE_FILES.tree.plugins.files && "q" !in OWN_FILES.tree.plugins.files;
    assert "p" in OWN_FILES.tree.plugins.files;
    SiblingsDiverge(BARE, OWN_FILES, MORE_FILES);
  }

  /** An ignored local plugin file that the official repository tracks is gone after the run. */
  lemma IgnoredPluginFileIsLost()
    ensures var out := Run(WITH_LOCAL_FILE, SampleEnv(PLUGIN_FILES_IGNORED, MORE_FILES, Runs(MERGED_FILES)));
            out.ok && "q" in WITH_LOCAL_FILE.worktree.plugins && "q" !in out.repo.worktree.plugins
  {
    LocalFileIsIgnored();
    LocalFileIsOverwritten();
    LocalFileIsIncoming();
    var env := SampleEnv(PLUGIN_FILES_IGNORED, MORE_FILES, Runs(MERGED_FILES));
    TrueMergeLosesFile(WITH_LOCAL_FILE, env, MORE_FILES, MERGED_FILES, "q");
  }
}
