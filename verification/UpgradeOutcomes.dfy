/** When an upgrade run gets as far as merging, what it merges, and when it succeeds. */
module UpgradeOutcomes {
  import opened GoStrings
  import opened Decimal
  import opened StableTags
  import opened GitModel
  import opened Upgrade
  import opened UpgradeEffects

  // ----- Which target is wanted

  /** The text names this stable version, with or without its leading v. */
  predicate Spells(s: string, v: Version) { s == TagOf(v) || s == TagOf(v)[1..] }

  ghost predicate SpellsSome(s: string) { exists v :: Spells(s, v) }

  predicate TwoDots(s: string) { exists i :: 0 <= i < |s| - 1 && s[i] == '.' && s[i + 1] == '.' }

  /** What the version parameter asks for: nothing asks for a listed version than which none is newer, a
      stable version for its tag, anything else for a branch, unless it cannot be the name of one. */
  ghost predicate Wanted(input: Input, env: Env, t: Target) {
    var name := TrimSpace(input.version);
    match t
    case TagTarget(tag) =>
      if name == "" then
        env.listOk && exists best :: Listed(env.tags, best) && tag == TagOf(best.version)
                                     && forall c :: Listed(env.tags, c) ==> !Newer(c.version, best.version)
      else exists v :: Spells(name, v) && tag == TagOf(v)
    case BranchTarget(branch) =>
      && branch == name && name != "" && !SpellsSome(name)
      && '/' !in name && !TwoDots(name) && name != REMOTE
  }

  lemma {:induction false} DotDotIff(s: string)
    ensures HasDotDot(s) <==> TwoDots(s)
  {
    if |s| >= 2 {
      DotDotIff(s[1..]);
      if i :| 0 <= i < |s| - 1 && s[i] == '.' && s[i + 1] == '.' {
        if i > 0 { assert s[1..][i - 1] == '.' && s[1..][i] == '.'; }
      }
      if i :| 0 <= i < |s[1..]| - 1 && s[1..][i] == '.' && s[1..][i + 1] == '.' {
        assert s[i + 1] == '.' && s[i + 2] == '.';
      }
    }
  }

  lemma StableIsSpelled(name: string) returns (v: Version)
    requires NormalizeStableVersion(name).Some?
    ensures NormalizeStableVersion(name) == Some(TagOf(v)) && Spells(TrimSpace(name), v)
  {
    var core := Core(TrimSpace(name));
    NormalizedCore(name);
    var parts := Split(core, '.');
    v := Version(Value(parts[0]), Value(parts[1]), Value(parts[2]));
    PartsOfVersion(core, v);
    VersionSpellings(name, v);
  }

  lemma SpelledIsStable(name: string, v: Version)
    requires Trimmed(name, Whitespace)
    ensures Spells(name, v) <==> NormalizeStableVersion(name) == Some(TagOf(v))
    ensures Spells(name, v) ==> name != ""
  {
    TrimOfTrimmed(name, Whitespace);
    VersionSpellings(name, v);
  }

  lemma DefaultIsWanted(input: Input, env: Env, t: Target)
    requires TrimSpace(input.version) == ""
    ensures ResolveTarget(input, env) == Some(t) <==> Wanted(input, env, t)
  {
    SelectsLatest(env.tags);
    if t.TagTarget? && Wanted(input, env, t) {
      var best :| Listed(env.tags, best) && t.name == TagOf(best.version)
                  && forall c :: Listed(env.tags, c) ==> !Newer(c.version, best.version);
      GreatestIsSelected(env.tags, best);
    }
    forall v ensures !Spells("", v) { SpelledIsStable("", v); }
  }

  /** Any listed version than which no listed one is newer is the selected one. */
  lemma GreatestIsSelected(tags: seq<string>, best: Candidate)
    requires Listed(tags, best) && forall c :: Listed(tags, c) ==> !Newer(c.version, best.version)
    ensures SelectLatest(tags) == Ok(TagOf(best.version))
  {
    BestIsGreatest(tags, best);
    var c := Best(tags).value;
    PrecedenceIsLexicographic(best.version, c.version);
    PrecedenceIsLexicographic(c.version, best.version);
    ListedIsCanonical(tags, c);
    assert best.version == c.version;
  }

  /** The run resolves its target to exactly what the version parameter asks for, and to nothing when
      that is no tag and cannot be a branch. */
  lemma TargetIff(input: Input, env: Env, t: Target)
    ensures ResolveTarget(input, env) == Some(t) <==> Wanted(input, env, t)
  {
    var name := TrimSpace(input.version);
    if name == "" {
      DefaultIsWanted(input, env, t);
    } else {
      TrimOfTrimmed(name, Whitespace);
      DotDotIff(name);
      if NormalizeStableVersion(name).Some? {
        var v := StableIsSpelled(name);
        assert SpellsSome(name);
        SpelledAlike(name, v, t);
      } else {
        forall v ensures !Spells(name, v) { SpelledIsStable(name, v); }
      }
    }
  }

  lemma SpelledAlike(name: string, v: Version, t: Target)
    requires Trimmed(name, Whitespace) && Spells(name, v)
    ensures t == TagTarget(TagOf(v)) <==> t.TagTarget? && exists w :: Spells(name, w) && t.name == TagOf(w)
  {
    SpelledIsStable(name, v);
    if t.TagTarget? && exists w :: Spells(name, w) && t.name == TagOf(w) {
      var w :| Spells(name, w) && t.name == TagOf(w);
      SpelledIsStable(name, w);
    }
  }

  // ----- What is merged

  /** An explicit stable version merges the official tag of that version, written with or without its v,
      unless a stray ref outside refs/tags/ takes the name; nothing but that tag is fetched. */
  lemma ExplicitVersionMergesTag(r: Repo, input: Input, env: Env, v: Version)
    requires Spells(TrimSpace(input.version), v) && Prepare(r, input, env).Ready?
    ensures var tag, p := TagOf(v), Prepare(r, input, env);
            && tag in env.tagCommits
            && p.repo.refs == r.refs[Tag(tag) := env.tagCommits[tag]]
            && (Top(tag) !in r.refs && Refs(tag) !in r.refs ==> p.target == env.tagCommits[tag])
  {
    var name := TrimSpace(input.version);
    SpelledIsStable(name, v);
    assert Spells(name, v) && TagTarget(TagOf(v)).name == TagOf(v);
    TargetIff(input, env, TagTarget(TagOf(v)));
    PreparationIsLocal(r, input, env);
    if Top(TagOf(v)) !in r.refs && Refs(TagOf(v)) !in r.refs { TagUnshadowed(r, TagOf(v)); }
  }

  /** Any other text merges the official branch of that name, unless a local ref takes the name that its
      tracking branch has; nothing but that branch is fetched. */
  lemma BranchNameMergesBranch(r: Repo, input: Input, env: Env, name: string)
    requires name == TrimSpace(input.version) && name != "" && !SpellsSome(name) && Prepare(r, input, env).Ready?
    ensures var n, p := REMOTE + (['/'] + name), Prepare(r, input, env);
            && name in env.branchCommits
            && p.repo.refs == r.refs[Remote(n) := env.branchCommits[name]]
            && ((forall c :: c in Shadowing(BranchTarget(name)) ==> CommitAt(r, c).None?) ==>
                  p.target == env.branchCommits[name])
            && Shadowing(BranchTarget(name)) == [Top(n), Refs(n), Tag(n), Head(n)]
  {
    PreparationIsLocal(r, input, env);
    var t := ResolveTarget(input, env).value;
    TargetIff(input, env, t);
    assert t == BranchTarget(name);
    FirstCommitNone(r, Shadowing(t));
  }

  /** A text that cannot name a branch of the official repository, because of a slash, two dots, or
      because it is the remote's own name, fails the run: at most the managed remote has changed. */
  lemma InvalidNameFails(r: Repo, input: Input, env: Env, name: string)
    requires name == TrimSpace(input.version) && ('/' in name || TwoDots(name) || name == REMOTE)
    ensures var out := Upgraded(r, input, env);
            && !out.ok && out.repo == r.(remotes := out.repo.remotes)
            && out.repo.remotes - {REMOTE} == r.remotes - {REMOTE}
  {
    NamesNoVersion(name);
    if ResolveTarget(input, env).Some? {
      TargetIff(input, env, ResolveTarget(input, env).value);
      assert false;
    }
    RemoteIsLocal(r, env);
  }

  lemma NamesNoVersion(name: string)
    requires '/' in name || TwoDots(name) || name == REMOTE
    ensures !SpellsSome(name) && name != ""
  {
    forall v ensures !Spells(name, v) { NotSpelled(name, v); }
  }

  lemma DotsSplit(s: string, i: nat)
    requires i < |s| - 1 && s[i] == '.' && s[i + 1] == '.'
    ensures "" in Split(s, '.')
  {
    var a, b := s[..i], s[i + 2..];
    assert s == a + (['.'] + (['.'] + b));
    SplitAround(a, ['.'] + b, '.');
    SplitAround("", b, '.');
    assert "" + (['.'] + b) == ['.'] + b;
    assert Split("", '.') == [""];
  }

  lemma NoTwoDots(s: string)
    requires "" !in Split(s, '.')
    ensures !TwoDots(s)
  {
    forall i | 0 <= i < |s| - 1 ensures s[i] != '.' || s[i + 1] != '.' {
      if s[i] == '.' && s[i + 1] == '.' { DotsSplit(s, i); }
    }
  }

  lemma NoTwoDotsBehind(c: char, s: string)
    requires c != '.' && !TwoDots(s)
    ensures !TwoDots([c] + s)
  {
    var t := [c] + s;
    forall i | 0 <= i < |t| - 1 ensures t[i] != '.' || t[i + 1] != '.' {
      if i > 0 { assert t[i] == s[i - 1] && t[i + 1] == s[i]; }
    }
  }

  lemma TagHasNoTwoDots(v: Version)
    ensures !TwoDots(TagOf(v)) && !TwoDots(TagOf(v)[1..])
  {
    var tag := TagOf(v);
    CanonicalSplit(v);
    assert tag == ['v'] + tag[1..];
    NoTwoDots(tag[1..]);
    NoTwoDotsBehind('v', tag[1..]);
  }

  lemma NotSpelled(name: string, v: Version)
    requires '/' in name || TwoDots(name) || name == REMOTE
    ensures !Spells(name, v)
  {
    CanonicalSplit(v);
    TagHasNoTwoDots(v);
    if Spells(name, v) && !TwoDots(name) {
      var c := if '/' in name then '/' else 'l';
      assert c in TagOf(v);
      StableCharacters(TagOf(v), c);
      assert false;
    }
  }

  // ----- When the merge is reached

  lemma RemoteOkIff(r: Repo, env: Env)
    ensures EnsureRemote(r, env).ok
            <==> TrimSpace(env.url) != ""
                 && (env.remoteOk || (REMOTE in r.remotes && r.remotes[REMOTE] == TrimSpace(env.url)))
  {
  }

  lemma FetchOkIff(r: Repo, t: Target, env: Env)
    requires t.name != ""
    ensures Fetch(r, t, env).ok
            <==> env.fetchOk
                 && match t
                    case TagTarget(tag) =>
                      tag in env.tagCommits && (Tag(tag) in r.refs ==> r.refs[Tag(tag)] == env.tagCommits[tag])
                    case BranchTarget(name) => name in env.branchCommits
  {
  }

  lemma FetchedResolves(r: Repo, t: Target, env: Env)
    requires t.name != ""
    ensures Fetch(r, t, env).ok ==> Resolve(Fetch(r, t, env).repo, MergeRef(t)).Some?
  {
    FetchIsLocal(r, t, env);
    if Fetch(r, t, env).ok { ResolveFetched(r, Fetch(r, t, env).repo, t, Offered(t, env)[t.name]); }
  }

  lemma FetchAfterRemote(r: Repo, t: Target, env: Env)
    requires t.name != ""
    ensures Fetch(EnsureRemote(r, env).repo, t, env).ok
            <==> env.fetchOk
                 && match t
                    case TagTarget(tag) =>
                      tag in env.tagCommits && (Tag(tag) in r.refs ==> r.refs[Tag(tag)] == env.tagCommits[tag])
                    case BranchTarget(name) => name in env.branchCommits
  {
    RemoteIsLocal(r, env);
    FetchOkIff(EnsureRemote(r, env).repo, t, env);
  }

  lemma TargetIsNamed(input: Input, env: Env, t: Target)
    requires ResolveTarget(input, env) == Some(t)
    ensures t.name != ""
  {
    TargetIff(input, env, t);
  }

  lemma StepsIff(r: Repo, input: Input, env: Env, t: Target)
    ensures Prepare(r, input, env).Ready? && ResolveTarget(input, env) == Some(t)
            <==> && Admitted(r, input, env) && EnsureRemote(r, env).ok && ResolveTarget(input, env) == Some(t)
                 && Fetch(EnsureRemote(r, env).repo, t, env).ok && env.headOk
  {
    if ResolveTarget(input, env) == Some(t) {
      TargetIsNamed(input, env, t);
      FetchedResolves(EnsureRemote(r, env).repo, t, env);
    }
  }

  /** A run gets as far as merging `t` exactly when it is neither redirected nor forced, every probe
      answers, a branch is checked out, host and nested worktree are clean, the managed remote can be set
      up, and the wanted tag or branch is offered, can be fetched and moves no local tag. */
  lemma ReadyIff(r: Repo, input: Input, env: Env, t: Target)
    ensures Prepare(r, input, env).Ready? && ResolveTarget(input, env) == Some(t)
            <==> && TrimSpace(input.remote) == "" && TrimSpace(input.force) == ""
                 && env.gitOk && env.branchOk && TrimSpace(r.branch) != ""
                 && env.hostStatusOk && IsClean(r, env.rules)
                 && (r.nested.Some? ==>
                       env.nestedStatusOk && !NestedDirty(r.nested.value, r.worktree.plugins, env.rules))
                 && TrimSpace(env.url) != ""
                 && (env.remoteOk || (REMOTE in r.remotes && r.remotes[REMOTE] == TrimSpace(env.url)))
                 && Wanted(input, env, t) && env.fetchOk && env.headOk
                 && match t
                    case TagTarget(tag) =>
                      tag in env.tagCommits && (Tag(tag) in r.refs ==> r.refs[Tag(tag)] == env.tagCommits[tag])
                    case BranchTarget(name) => name in env.branchCommits
  {
    TargetIff(input, env, t);
    RemoteOkIff(r, env);
    StepsIff(r, input, env, t);
    if Wanted(input, env, t) { FetchAfterRemote(r, t, env); }
  }

  // ----- How the run ends

  /** A pending merge is finished successfully exactly when the nested repository is still clean, the
      command that puts the plugins back works, no conflict outside them is left, the difference to HEAD
      can be told, and the commit, or without a difference the abort, works. */
  lemma FinishSucceedsIff(r: Repo, env: Env)
    requires r.mergeHead.Some?
    ensures Finish(r, r.head, env).ok
            <==> && (r.nested.Some? ==>
                       && env.nestedLaterOk && !env.nestedTampered
                       && !NestedDirty(r.nested.value, r.worktree.plugins, env.rules))
                 && (r.head.tree.plugins != NO_PLUGINS ==> env.restore.Done?)
                 && (r.head.tree.plugins == NO_PLUGINS && r.index.plugins != FolderEntries(map[]) ==>
                       env.untrack.Done?)
                 && Resolved(r.index.host) && env.diffOk
                 && if r.index.host == Staged(r.head.tree.host) then env.abort.Done? else env.commit.Done?
  {
    if PreservePlugins(r, r.head, env).ok {
      PreservedIndex(r, env);
      CheckoutOfStaged(FilesIn(r.head.tree.plugins));
    }
  }

  /** The merge phase succeeds exactly when nothing is to be merged, or HEAD fast-forwards over no
      untracked file, or a true merge overwrites none and is finished successfully. A merge that was
      pending before is finished in its place. */
  lemma MergePhaseSucceedsIff(r: Repo, target: Commit, env: Env)
    ensures MergeAndFinish(r, target, env).ok
            <==> if r.mergeHead.Some? then Finish(r, r.head, env).ok
                 else
                   && env.merge.Runs?
                   && if IsAncestor(target, r.head) then true
                      else if IsAncestor(r.head, target) then
                        !LosesUntracked(r, target.tree.host, FilesIn(target.tree.plugins), env.rules)
                      else
                        var merged := env.merge.merged;
                        && !LosesUntracked(r, Checkout(merged.host), Checkout(Stages(merged.plugins)), env.rules)
                        && Finish(Pending(r, target, merged), r.head, env).ok
  {
  }

  /** When the plugins are back and the run fails all the same, the merge stays pending for the user; and
      after a conflict, the index holds every conflict outside the plugins path, and the files as well. */
  lemma FailureStaysPending(r: Repo, env: Env)
    requires r.mergeHead.Some? && PreservePlugins(r, r.head, env).ok && !Finish(r, r.head, env).ok
    ensures var s := Finish(r, r.head, env).repo;
            && s.head == r.head && s.mergeHead == r.mergeHead
            && (!Resolved(r.index.host) || !env.diffOk ==>
                  && s.index == Index(r.index.host, EntriesOf(r.head.tree.plugins))
                  && s.worktree == Disk(r.worktree.host, KeptPlugins(r)))
  {
    PreservedIndex(r, env);
    PreservedDisk(r, env);
    CheckoutOfStaged(FilesIn(r.head.tree.plugins));
  }

  /** Over a whole run: a true merge that conflicts outside the plugins path, and whose plugins could be
      put back, is left to the user. The run fails, HEAD has not moved, the merge of the target is
      pending, and the conflicting entries and the files marked with them are those of the merge. */
  lemma ConflictIsLeftToUser(r: Repo, input: Input, env: Env)
    requires Prepare(r, input, env).Ready? && Diverged(r, Prepare(r, input, env).target)
    requires env.merge.Runs? && !Resolved(env.merge.merged.host)
    requires var merged := env.merge.merged;
             !LosesUntracked(r, Checkout(merged.host), Checkout(Stages(merged.plugins)), env.rules)
    requires var m := Pending(r, Prepare(r, input, env).target, env.merge.merged); !NestedRefuses(m, env)
    requires env.restore.Done? && env.untrack.Done?
    ensures var out, target := Upgraded(r, input, env), Prepare(r, input, env).target;
            && !out.ok && out.repo.head == r.head && out.repo.mergeHead == Some(target)
            && out.repo.index == Index(env.merge.merged.host, EntriesOf(r.head.tree.plugins))
            && Intact(Checkout(env.merge.merged.host), out.repo.worktree.host)
  {
    PreparationIsLocal(r, input, env);
    var p := Prepare(r, input, env);
    var m := Pending(p.repo, p.target, env.merge.merged);
    assert Merge(p.repo, p.target, env.merge, env.rules).repo == m;
    assert !NestedRefuses(m, env);
    FinishSucceedsIff(m, env);
    FailureStaysPending(m, env);
    PendingIsIntact(p.repo, p.target, env.merge.merged);
  }

  /** A merge that git refuses because it would overwrite an untracked file fails the run and leaves
      everything but the managed remote and the fetched ref as it was. */
  lemma RefusedMergeChangesNothing(r: Repo, input: Input, env: Env)
    requires Prepare(r, input, env).Ready? && r.mergeHead.None? && env.merge.Runs?
    requires var target := Prepare(r, input, env).target;
             && !IsAncestor(target, r.head)
             && if IsAncestor(r.head, target)
                then LosesUntracked(r, target.tree.host, FilesIn(target.tree.plugins), env.rules)
                else LosesUntracked(r, Checkout(env.merge.merged.host), Checkout(Stages(env.merge.merged.plugins)),
                                    env.rules)
    ensures var out := Upgraded(r, input, env);
            !out.ok && out.repo == r.(remotes := out.repo.remotes, refs := out.repo.refs)
  {
    PreparationIsLocal(r, input, env);
    var p := Prepare(r, input, env);
    assert MergeAndFinish(p.repo, p.target, env) == Outcome(p.repo, false);
  }
}
