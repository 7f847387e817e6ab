/** The framework upgrade: merge an official ref into the current branch without touching plugins. */
module Upgrade {
  import opened GoStrings
  import opened StableTags
  import opened GitModel

  const REMOTE := "linapro"

  datatype Input = Input(remote: string, force: string, version: string)

  /** Everything the run cannot choose: what the official repository offers, the ignore rules, which
      probes report errors, how each mutating command ends, and whether somebody makes the nested
      repository dirty meanwhile. */
  datatype Env = Env(
    url: string, tags: seq<string>, tagCommits: map<string, Commit>, branchCommits: map<string, Commit>,
    rules: Rules, gitOk: bool, branchOk: bool, hostStatusOk: bool, nestedStatusOk: bool, remoteOk: bool, listOk: bool,
    fetchOk: bool, headOk: bool, merge: MergeAnswer, nestedTampered: bool, nestedLaterOk: bool,
    restore: Answer, untrack: Answer, abort: Answer, diffOk: bool, commit: Answer)

  datatype Target = TagTarget(name: string) | BranchTarget(name: string)

  datatype Outcome = Outcome(repo: Repo, ok: bool)

  // ----- Before the merge

  predicate IsBlank(s: string) { TrimSpace(s) == "" }

  /** The checks that precede any change. */
  predicate Admitted(r: Repo, input: Input, env: Env) {
    && IsBlank(input.remote) && IsBlank(input.force)
    && env.gitOk && env.branchOk && !IsBlank(r.branch)
    && env.hostStatusOk && IsClean(r, env.rules)
    && (r.nested.Some? ==> env.nestedStatusOk && !NestedIsDirty(r, env.rules))
  }

  predicate NestedIsDirty(r: Repo, rules: Rules) {
    r.nested.Some? && NestedDirty(r.nested.value, r.worktree.plugins, rules)
  }

  /** Creates or corrects the tool-managed remote; correcting is skipped when the URL is right. */
  function EnsureRemote(r: Repo, env: Env): Step {
    if IsBlank(env.url) then Step(r, false)
    else if REMOTE in r.remotes && r.remotes[REMOTE] == TrimSpace(env.url) then Step(r, true)
    else if !env.remoteOk then Step(r, false)
    else Step(r.(remotes := r.remotes[REMOTE := TrimSpace(env.url)]), true)
  }

  function ResolveTarget(input: Input, env: Env): Option<Target> {
    var v := TrimSpace(input.version);
    if v == "" then
      if !env.listOk then None
      else
        match SelectLatest(env.tags)
        case Err(_) => None
        case Ok(tag) => Some(TagTarget(tag))
    else if NormalizeStableVersion(v).Some? then Some(TagTarget(NormalizeStableVersion(v).value))
    else if '/' in v || HasDotDot(v) || v == REMOTE then None
    else Some(BranchTarget(v))
  }

  predicate HasDotDot(s: string) { |s| >= 2 && ((s[0] == '.' && s[1] == '.') || HasDotDot(s[1..])) }

  function MergeRef(t: Target): string {
    match t
    case TagTarget(name) => name
    case BranchTarget(name) => REMOTE + (['/'] + name)
  }

  /** The ref the refspec writes. */
  function FetchRef(t: Target): RefName {
    match t
    case TagTarget(name) => Tag(name)
    case BranchTarget(name) => Remote(REMOTE + (['/'] + name))
  }

  function Offered(t: Target, env: Env): map<string, Commit> {
    if t.TagTarget? then env.tagCommits else env.branchCommits
  }

  /** A local tag of this name points elsewhere: the tag refspec is not forced, so git refuses. */
  predicate Clobbers(r: Repo, t: Target, official: Commit) {
    t.TagTarget? && Tag(t.name) in r.refs && r.refs[Tag(t.name)] != official
  }

  /** Downloads exactly the selected tag or branch. */
  function Fetch(r: Repo, t: Target, env: Env): Step {
    if !env.fetchOk || t.name == "" || t.name !in Offered(t, env) then Step(r, false)
    else if Clobbers(r, t, Offered(t, env)[t.name]) then Step(r, false)
    else Step(r.(refs := r.refs[FetchRef(t) := Offered(t, env)[t.name]]), true)
  }

  // ----- After the merge

  /** The nested repository fails the second check. */
  predicate NestedRefuses(r: Repo, env: Env) {
    r.nested.Some? && (!env.nestedLaterOk || env.nestedTampered || NestedIsDirty(r, env.rules))
  }

  /** Puts the plugins workspace of the merge result back to that of `old_`. */
  function PreservePlugins(r: Repo, old_: Commit, env: Env): Step {
    if NestedRefuses(r, env) then Step(r, false)
    else if old_.tree.plugins != NO_PLUGINS then RestorePlugins(r, old_.tree.plugins, env.restore)
    else if r.index.plugins != FolderEntries(map[]) then UntrackPlugins(r, env.untrack)
    else Step(r, true)
  }

  /** The rest of the run once a merge is pending. */
  function Finish(r: Repo, old_: Commit, env: Env): Outcome
    requires r.mergeHead.Some?
  {
    var preserved := PreservePlugins(r, old_, env);
    var s := preserved.repo;
    if !preserved.ok then Outcome(AbortMerge(s, env.abort).repo, false)
    else if HasUnmerged(s.index) then Outcome(s, false)
    else if !env.diffOk then Outcome(s, false)
    else if s.index == IndexOf(s.head.tree) then
      var aborted := AbortMerge(s, env.abort);
      Outcome(aborted.repo, aborted.ok)
    else
      var committed := CommitMerge(s, env.commit);
      Outcome(committed.repo, committed.ok)
  }

  /** The merge step and everything behind it. */
  function MergeAndFinish(r: Repo, target: Commit, env: Env): Outcome {
    var m := Merge(r, target, env.merge, env.rules);
    if m.repo.mergeHead.None? then Outcome(m.repo, m.ok)
    else Finish(m.repo, r.head, env)
  }

  /** The repository right before the merge and the commit to merge, or where the run stopped. */
  datatype Prepared = Stopped(repo: Repo) | Ready(repo: Repo, target: Commit)

  function Prepare(r: Repo, input: Input, env: Env): Prepared {
    if !Admitted(r, input, env) then Stopped(r)
    else
      var remote := EnsureRemote(r, env);
      if !remote.ok then Stopped(remote.repo)
      else
        match ResolveTarget(input, env)
        case None => Stopped(remote.repo)
        case Some(t) =>
          var fetched := Fetch(remote.repo, t, env);
          if !fetched.ok || !env.headOk then Stopped(fetched.repo)
          else
            match Resolve(fetched.repo, MergeRef(t))
            case None => Stopped(fetched.repo)
            case Some(target) => Ready(fetched.repo, target)
  }

  function Upgraded(r: Repo, input: Input, env: Env): Outcome {
    match Prepare(r, input, env)
    case Stopped(s) => Outcome(s, false)
    case Ready(s, target) => MergeAndFinish(s, target, env)
  }

  // ----- The run as written

  method WorktreeSafe(g: Repository, env: Env) returns (ok: bool)
    ensures ok <==> var r := g.Snapshot();
                    && env.hostStatusOk && IsClean(r, env.rules)
                    && (r.nested.Some? ==> env.nestedStatusOk && !NestedIsDirty(r, env.rules))
  {
    if !env.hostStatusOk || !IsClean(g.Snapshot(), env.rules) {
      return false;
    }
    if g.nested.Some? {
      if !env.nestedStatusOk || NestedDirty(g.nested.value, g.worktree.plugins, env.rules) {
        return false;
      }
    }
    return true;
  }

  method EnsureOfficialRemote(g: Repository, env: Env) returns (ok: bool)
    modifies g`remotes
    ensures Step(g.Snapshot(), ok) == EnsureRemote(old(g.Snapshot()), env)
  {
    if IsBlank(env.url) {
      return false;
    }
    if REMOTE in g.remotes && g.remotes[REMOTE] == TrimSpace(env.url) {
      return true;
    }
    if !env.remoteOk {
      return false;
    }
    g.remotes := g.remotes[REMOTE := TrimSpace(env.url)];
    return true;
  }

  method FetchTarget(g: Repository, t: Target, env: Env) returns (ok: bool)
    modifies g`refs
    ensures Step(g.Snapshot(), ok) == Fetch(old(g.Snapshot()), t, env)
  {
    if !env.fetchOk || t.name == "" || t.name !in Offered(t, env) {
      return false;
    }
    var official := Offered(t, env)[t.name];
    if t.TagTarget? && Tag(t.name) in g.refs && g.refs[Tag(t.name)] != official {
      return false;
    }
    g.refs := g.refs[FetchRef(t) := official];
    return true;
  }

  method PreserveLocalPlugins(g: Repository, preMergeHEAD: Commit, env: Env) returns (ok: bool)
    modifies g`index, g`worktree
    ensures Step(g.Snapshot(), ok) == PreservePlugins(old(g.Snapshot()), preMergeHEAD, env)
  {
    if g.nested.Some? {
      var dirty := NestedDirty(g.nested.value, g.worktree.plugins, env.rules);
      if !env.nestedLaterOk || env.nestedTampered || dirty {
        return false;
      }
    }
    if preMergeHEAD.tree.plugins != NO_PLUGINS {
      ok := g.RunRestorePlugins(preMergeHEAD.tree.plugins, env.restore);
      return;
    }
    if g.index.plugins != FolderEntries(map[]) {
      ok := g.RunUntrackPlugins(env.untrack);
      return;
    }
    return true;
  }

  method RunMergePhase(g: Repository, target: Commit, env: Env) returns (ok: bool)
    modifies g
    ensures Outcome(g.Snapshot(), ok) == MergeAndFinish(old(g.Snapshot()), target, env)
  {
    var preMergeHEAD := g.head;
    var merged := g.RunMerge(target, env.merge, env.rules);
    if !merged && g.mergeHead.None? {
      return false;
    }
    if g.mergeHead.None? {
      return true;
    }
    var preserved := PreserveLocalPlugins(g, preMergeHEAD, env);
    if !preserved {
      var ignored := g.RunAbortMerge(env.abort);
      return false;
    }
    if HasUnmerged(g.index) {
      return false;
    }
    if !env.diffOk {
      return false;
    }
    if g.index == IndexOf(g.head.tree) {
      ok := g.RunAbortMerge(env.abort);
      return;
    }
    ok := g.RunCommitMerge(env.commit);
  }

  /** The steps up to the resolved merge ref. */
  method PrepareRun(g: Repository, input: Input, env: Env) returns (target: Option<Commit>)
    modifies g
    ensures Prepare(old(g.Snapshot()), input, env)
            == if target.Some? then Ready(g.Snapshot(), target.value) else Stopped(g.Snapshot())
  {
    if !IsBlank(input.remote) || !IsBlank(input.force) {
      return None;
    }
    if !env.gitOk || !env.branchOk || IsBlank(g.branch) {
      return None;
    }
    var safe := WorktreeSafe(g, env);
    if !safe {
      return None;
    }
    var remote := EnsureOfficialRemote(g, env);
    if !remote {
      return None;
    }
    var wanted := ResolveTarget(input, env);
    if wanted.None? {
      return None;
    }
    var fetched := FetchTarget(g, wanted.value, env);
    if !fetched || !env.headOk {
      return None;
    }
    target := Resolve(g.Snapshot(), MergeRef(wanted.value));
  }

  method RunFrameworkUpgrade(g: Repository, input: Input, env: Env) returns (ok: bool)
    modifies g
    ensures Outcome(g.Snapshot(), ok) == Upgraded(old(g.Snapshot()), input, env)
  {
    var target := PrepareRun(g, input, env);
    if target.None? {
      return false;
    }
    ok := RunMergePhase(g, target.value, env);
  }

  // ----- Nothing is touched unless everything is clean

  /** A dirty host or nested worktree, a detached HEAD, or a forced or redirected run: the run fails
      and the whole repository is unchanged, remotes included. */
  lemma RefusedRunChangesNothing(r: Repo, input: Input, env: Env)
    requires !IsClean(r, env.rules) || NestedIsDirty(r, env.rules) || IsBlank(r.branch)
             || !IsBlank(input.remote) || !IsBlank(input.force)
    ensures Upgraded(r, input, env) == Outcome(r, false)
  {
  }

  lemma RemoteIsLocal(r: Repo, env: Env)
    ensures var e := EnsureRemote(r, env);
            && e.repo == r.(remotes := e.repo.remotes)
            && e.repo.remotes - {REMOTE} == r.remotes - {REMOTE}
            && (e.ok ==> REMOTE in e.repo.remotes && e.repo.remotes[REMOTE] == TrimSpace(env.url))
  {
  }

  lemma FetchIsLocal(r: Repo, t: Target, env: Env)
    ensures var f := Fetch(r, t, env);
            && f.repo == r.(refs := f.repo.refs)
            && (f.ok ==> t.name in Offered(t, env) && f.repo.refs == r.refs[FetchRef(t) := Offered(t, env)[t.name]])
  {
  }

  /** The local refs that git looks up before the fetched one. */
  function Shadowing(t: Target): seq<RefName> {
    var n := MergeRef(t);
    if t.TagTarget? then [Top(n), Refs(n)] else [Top(n), Refs(n), Tag(n), Head(n)]
  }

  /** The commit a local ref gives the short name of the target, if one shadows the fetched ref. */
  function Shadow(r: Repo, t: Target): Option<Commit> { FirstCommit(r, Shadowing(t)) }

  lemma {:induction false} FirstCommitConcat(r: Repo, a: seq<RefName>, b: seq<RefName>)
    ensures FirstCommit(r, a + b) == if FirstCommit(r, a).Some? then FirstCommit(r, a) else FirstCommit(r, b)
  {
    if a == [] {
      assert a + b == b;
    } else {
      assert (a + b)[1..] == a[1..] + b;
      FirstCommitConcat(r, a[1..], b);
    }
  }

  lemma {:induction false} FirstCommitFrame(r: Repo, s: Repo, candidates: seq<RefName>)
    requires forall c :: c in candidates ==> CommitAt(r, c) == CommitAt(s, c)
    ensures FirstCommit(r, candidates) == FirstCommit(s, candidates)
  {
    if candidates != [] {
      assert candidates[0] in candidates;
      FirstCommitFrame(r, s, candidates[1..]);
    }
  }

  /** After the fetch, the short name means the shadowing ref if there is one, else the fetched one. */
  lemma ResolveFetched(r: Repo, s: Repo, t: Target, official: Commit)
    requires s == r.(remotes := s.remotes, refs := r.refs[FetchRef(t) := official])
    ensures Resolve(s, MergeRef(t)) == Some(if Shadow(r, t).Some? then Shadow(r, t).value else official)
  {
    var n := MergeRef(t);
    var later := if t.TagTarget? then [Head(n), Remote(n), Remote(n + "/HEAD")] else [Remote(n + "/HEAD")];
    var before := Shadowing(t);
    assert [Top(n), Refs(n), Tag(n), Head(n), Remote(n), Remote(n + "/HEAD")] == before + ([FetchRef(t)] + later);
    FirstCommitConcat(s, before, [FetchRef(t)] + later);
    FirstCommitFrame(r, s, before);
  }

  /** Until the merge, only the managed remote and the one fetched ref may change, and what gets
      merged is the shadowing local ref if there is one, else the official commit of that name. */
  lemma PreparationIsLocal(r: Repo, input: Input, env: Env)
    ensures var p := Prepare(r, input, env);
            && p.repo == r.(remotes := p.repo.remotes, refs := p.repo.refs)
            && p.repo.remotes - {REMOTE} == r.remotes - {REMOTE}
            && (p.Ready? ==>
                  && IsClean(r, env.rules) && IsClean(p.repo, env.rules)
                  && !NestedIsDirty(r, env.rules) && !NestedIsDirty(p.repo, env.rules)
                  && REMOTE in p.repo.remotes && p.repo.remotes[REMOTE] == TrimSpace(env.url)
                  && var t := ResolveTarget(input, env);
                     && t.Some? && t.value.name in Offered(t.value, env)
                     && var official := Offered(t.value, env)[t.value.name];
                        && p.target == (if Shadow(r, t.value).Some? then Shadow(r, t.value).value else official)
                        && p.repo.refs == r.refs[FetchRef(t.value) := official]
                        && !Clobbers(r, t.value, official))
  {
    if Admitted(r, input, env) {
      RemoteIsLocal(r, env);
      var e, t := EnsureRemote(r, env), ResolveTarget(input, env);
      if e.ok && t.Some? {
        FetchIsLocal(e.repo, t.value, env);
        var f := Fetch(e.repo, t.value, env);
        if f.ok {
          ResolveFetched(e.repo, f.repo, t.value, Offered(t.value, env)[t.value.name]);
          FirstCommitFrame(r, e.repo, Shadowing(t.value));
        }
      }
    }
  }

  /** The run merges the official commit exactly when no local ref takes precedence over the fetched
      one, or one does that is at the official commit anyway. A local branch or tag named like the
      remote branch is enough. */
  lemma MergesOfficialIff(r: Repo, input: Input, env: Env)
    requires Prepare(r, input, env).Ready?
    ensures var t := ResolveTarget(input, env);
            && t.Some? && t.value.name in Offered(t.value, env)
            && var official := Offered(t.value, env)[t.value.name];
               Prepare(r, input, env).target == official
               <==> forall c :: Shadow(r, t.value) == Some(c) ==> c == official
  {
    PreparationIsLocal(r, input, env);
  }

  lemma {:induction false} FirstCommitNone(r: Repo, candidates: seq<RefName>)
    ensures FirstCommit(r, candidates).None? <==> forall c :: c in candidates ==> CommitAt(r, c).None?
  {
    if candidates != [] {
      FirstCommitNone(r, candidates[1..]);
      assert candidates == [candidates[0]] + candidates[1..];
    }
  }

  lemma BranchShadowed(r: Repo, name: string)
    requires var n := MergeRef(BranchTarget(name));
             Top(n) !in r.refs && Refs(n) !in r.refs && Tag(n) !in r.refs && CommitAt(r, Head(n)).Some?
    ensures Shadow(r, BranchTarget(name)) == CommitAt(r, Head(MergeRef(BranchTarget(name))))
  {
    var n := MergeRef(BranchTarget(name));
    assert [Top(n), Refs(n), Tag(n), Head(n)] == [Top(n), Refs(n), Tag(n)] + [Head(n)];
    FirstCommitConcat(r, [Top(n), Refs(n), Tag(n)], [Head(n)]);
    FirstCommitNone(r, [Top(n), Refs(n), Tag(n)]);
  }

  /** A local branch named like the remote branch is what a run for that branch merges, wherever the
      official one is, unless a tag or a stray ref takes the name before it. */
  lemma LocalBranchShadows(r: Repo, input: Input, env: Env, name: string)
    requires Prepare(r, input, env).Ready? && ResolveTarget(input, env) == Some(BranchTarget(name))
    requires var n := MergeRef(BranchTarget(name));
             Top(n) !in r.refs && Refs(n) !in r.refs && Tag(n) !in r.refs && CommitAt(r, Head(n)).Some?
    ensures Some(Prepare(r, input, env).target) == CommitAt(r, Head(MergeRef(BranchTarget(name))))
  {
    PreparationIsLocal(r, input, env);
    BranchShadowed(r, name);
  }

  lemma TagUnshadowed(r: Repo, name: string)
    requires Top(name) !in r.refs && Refs(name) !in r.refs
    ensures Shadow(r, TagTarget(name)).None?
  {
    FirstCommitNone(r, [Top(name), Refs(name)]);
  }

  /** Without a version, what is merged is the greatest stable tag the official repository lists,
      unless a stray ref outside refs/tags/ takes its name. */
  lemma DefaultRunMergesLatest(r: Repo, input: Input, env: Env, c: Candidate)
    requires IsBlank(input.version) && Prepare(r, input, env).Ready?
    ensures var best := Best(env.tags);
            && best.Some? && Listed(env.tags, best.value)
            && (Listed(env.tags, c) ==> !Newer(c.version, best.value.version))
            && best.value.tag in env.tagCommits
            && (Top(best.value.tag) !in r.refs && Refs(best.value.tag) !in r.refs ==>
                  Prepare(r, input, env).target == env.tagCommits[best.value.tag])
  {
    PreparationIsLocal(r, input, env);
    BestIsGreatest(env.tags, c);
    var tag := Best(env.tags).value.tag;
    assert ResolveTarget(input, env) == Some(TagTarget(tag));
    if Top(tag) !in r.refs && Refs(tag) !in r.refs { TagUnshadowed(r, tag); }
  }

  predicate SameElsewhere(s: Repo, r: Repo) {
    s.branch == r.branch && s.nested == r.nested && s.stash == r.stash && s.remotes == r.remotes && s.refs == r.refs
  }

  lemma PreserveUntouched(r: Repo, old_: Commit, env: Env)
    ensures SameElsewhere(PreservePlugins(r, old_, env).repo, r)
    ensures PreservePlugins(r, old_, env).repo.mergeHead == r.mergeHead
  {
  }

  lemma EndingsUntouched(r: Repo, env: Env)
    ensures SameElsewhere(AbortMerge(r, env.abort).repo, r)
    ensures r.mergeHead.Some? ==> SameElsewhere(CommitMerge(r, env.commit).repo, r)
  {
  }

  lemma FinishUntouched(r: Repo, old_: Commit, env: Env)
    requires r.mergeHead.Some?
    ensures SameElsewhere(Finish(r, old_, env).repo, r)
  {
    PreserveUntouched(r, old_, env);
    EndingsUntouched(PreservePlugins(r, old_, env).repo, env);
  }

  lemma MergeUntouched(r: Repo, target: Commit, env: Env)
    ensures SameElsewhere(Merge(r, target, env.merge, env.rules).repo, r)
  {
  }

  lemma MergePhaseUntouched(r: Repo, target: Commit, env: Env)
    ensures SameElsewhere(MergeAndFinish(r, target, env).repo, r)
  {
    MergeUntouched(r, target, env);
    var m := Merge(r, target, env.merge, env.rules).repo;
    if m.mergeHead.Some? { FinishUntouched(m, r.head, env); }
  }

  /** What no run ever changes: the branch, a nested plugin repository, the stash, other remotes; and
      no ref but the selected one. */
  lemma UntouchedByAnyRun(r: Repo, input: Input, env: Env)
    ensures var s := Upgraded(r, input, env).repo;
            && s.branch == r.branch && s.nested == r.nested && s.stash == r.stash
            && s.remotes - {REMOTE} == r.remotes - {REMOTE}
            && s.refs == Prepare(r, input, env).repo.refs
  {
    PreparationIsLocal(r, input, env);
    var p := Prepare(r, input, env);
    if p.Ready? { MergePhaseUntouched(p.repo, p.target, env); }
  }

  // ----- HEAD and its plugins

  lemma CheckoutOfStaged(files: Files)
    ensures Checkout(Staged(files)) == files && Resolved(Staged(files))
  {
  }

  lemma ResolvedIsStaged(stages: map<string, Stage>)
    requires Resolved(stages)
    ensures Staged(Checkout(stages)) == stages
  {
  }

  lemma TreeOfIndex(t: Tree)
    ensures TreeOf(IndexOf(t)) == t && !HasUnmerged(IndexOf(t))
  {
    CheckoutOfStaged(t.host);
    CheckoutOfStaged(FilesIn(t.plugins));
  }

  /** The index that a pending merge would commit, once the plugins are back. */
  function CommittedIndex(r: Repo, env: Env): Index {
    PreservePlugins(r, r.head, env).repo.index
  }

  lemma PreservedIndex(r: Repo, env: Env)
    requires PreservePlugins(r, r.head, env).ok
    ensures CommittedIndex(r, env) == Index(r.index.host, EntriesOf(r.head.tree.plugins))
    ensures PreservePlugins(r, r.head, env).repo.head == r.head
    ensures PreservePlugins(r, r.head, env).repo.mergeHead == r.mergeHead
  {
    assert Staged(map[]) == map[];
  }

  /** The tree a pending merge is committed as. */
  function MergedTree(r: Repo): Tree { Tree(Checkout(r.index.host), r.head.tree.plugins) }

  lemma CommittedTree(r: Repo)
    ensures TreeOf(Index(r.index.host, EntriesOf(r.head.tree.plugins))) == MergedTree(r)
    ensures Resolved(r.index.host) ==> Index(r.index.host, EntriesOf(r.head.tree.plugins)) == IndexOf(MergedTree(r))
  {
    CheckoutOfStaged(FilesIn(r.head.tree.plugins));
    if Resolved(r.index.host) { ResolvedIsStaged(r.index.host); }
  }

  /** A pending merge moves HEAD in one way only: by committing, after the plugins were put back, an
      index without conflicts that differs from HEAD. */
  lemma FinishMovesHead(r: Repo, env: Env)
    requires r.mergeHead.Some?
    ensures var out := Finish(r, r.head, env);
            out.repo.head != r.head ==>
              && out.ok && Resolved(r.index.host) && r.index.host != Staged(r.head.tree.host)
              && out.repo.head == Commit(MergedTree(r), [r.head, r.mergeHead.value])
    ensures Finish(r, r.head, env).repo.head.tree.plugins == r.head.tree.plugins
  {
    if PreservePlugins(r, r.head, env).ok {
      PreservedIndex(r, env);
      CommittedTree(r);
    }
  }

  /** The merge is a fast-forward that git carries out. */
  predicate Forwards(r: Repo, target: Commit, env: Env) {
    && r.mergeHead.None? && env.merge.Runs? && FastForwards(r.head, target)
    && !LosesUntracked(r, target.tree.host, FilesIn(target.tree.plugins), env.rules)
  }

  lemma MergeCases(r: Repo, target: Commit, env: Env)
    ensures var m := Merge(r, target, env.merge, env.rules);
            && (m.repo.head != r.head ==> Forwards(r, target, env))
            && (Forwards(r, target, env) ==>
                  m == Step(r.(head := target, index := IndexOf(target.tree),
                               worktree := Switch(r, target.tree.host, FilesIn(target.tree.plugins))), true))
            && (m.repo.mergeHead.Some? ==> m.repo.head == r.head)
  {
  }

  predicate ForwardsPlugins(r: Repo, target: Commit, env: Env) {
    Forwards(r, target, env) && target.tree.plugins != r.head.tree.plugins
  }

  lemma MergePhasePreservesIff(r: Repo, target: Commit, env: Env)
    ensures MergeAndFinish(r, target, env).repo.head.tree.plugins == r.head.tree.plugins
            <==> !ForwardsPlugins(r, target, env)
  {
    var m := Merge(r, target, env.merge, env.rules);
    MergeCases(r, target, env);
    if m.repo.mergeHead.Some? { FinishMovesHead(m.repo, env); }
  }

  /** Over every run, with any command failing in any way: HEAD keeps its plugins at exit, unless the
      merge fast-forwards to a target with other plugins. That exception is exact. */
  lemma PluginsPreservedIff(r: Repo, input: Input, env: Env)
    ensures var p := Prepare(r, input, env);
            Upgraded(r, input, env).repo.head.tree.plugins == r.head.tree.plugins
            <==> !(p.Ready? && ForwardsPlugins(r, p.target, env))
  {
    PreparationIsLocal(r, input, env);
    var p := Prepare(r, input, env);
    if p.Ready? {
      MergePhasePreservesIff(p.repo, p.target, env);
      assert ForwardsPlugins(p.repo, p.target, env) == ForwardsPlugins(r, p.target, env);
    }
  }

  /** With diverged histories HEAD moves only by a merge commit of the target: its first parent is the
      old HEAD, its plugins are the old ones, its host files are the merged ones, and the index it
      records was free of conflicts and different from HEAD. */
  lemma DivergedRunOnlyCommits(r: Repo, input: Input, env: Env)
    requires r.mergeHead.None?
    requires var p := Prepare(r, input, env); p.Ready? ==> !IsAncestor(r.head, p.target)
    ensures var out, p := Upgraded(r, input, env), Prepare(r, input, env);
            && out.repo.head.tree.plugins == r.head.tree.plugins
            && (out.repo.head != r.head ==>
                  && out.ok && p.Ready? && env.merge.Runs?
                  && Resolved(env.merge.merged.host)
                  && out.repo.head
                     == Commit(Tree(Checkout(env.merge.merged.host), r.head.tree.plugins), [r.head, p.target])
                  && Checkout(env.merge.merged.host) != r.head.tree.host)
  {
    PluginsPreservedIff(r, input, env);
    PreparationIsLocal(r, input, env);
    var p := Prepare(r, input, env);
    if p.Ready? {
      var m := Merge(p.repo, p.target, env.merge, env.rules).repo;
      MergeCases(p.repo, p.target, env);
      if m.mergeHead.Some? {
        assert m.index == env.merge.merged;
        FinishMovesHead(m, env);
        if Resolved(env.merge.merged.host) { ResolvedIsStaged(env.merge.merged.host); }
      }
    }
  }

  /** Only success moves HEAD: however a run fails, HEAD is where it was. */
  lemma FailedRunKeepsHead(r: Repo, input: Input, env: Env)
    requires !Upgraded(r, input, env).ok
    ensures Upgraded(r, input, env).repo.head == r.head
  {
    PreparationIsLocal(r, input, env);
    var p := Prepare(r, input, env);
    if p.Ready? {
      var m := Merge(p.repo, p.target, env.merge, env.rules);
      MergeCases(p.repo, p.target, env);
      if m.repo.mergeHead.Some? { FinishMovesHead(m.repo, env); }
    }
  }
}
