/** An abstract git repository and the commands the upgrade runs on it. */
module GitModel {
  import opened GoStrings

  /** Path to blob. */
  type Files = map<string, string>

  /** The plugins path in a tree: ordinary files, or a gitlink. No files means that the path is absent. */
  datatype Workspace = Folder(files: Files) | Link(commit: string)

  const NO_PLUGINS := Folder(map[])

  /** Everything outside the plugins path, and the plugins path. */
  datatype Tree = Tree(host: Files, plugins: Workspace)

  datatype Commit = Commit(tree: Tree, parents: seq<Commit>)

  predicate IsAncestor(a: Commit, b: Commit)
    decreases b
  {
    a == b || exists i :: 0 <= i < |b.parents| && IsAncestor(a, b.parents[i])
  }

  /** A resolved entry, or an unmerged one with the marked file the merge left in the worktree. */
  datatype Stage = Merged(blob: string) | Unmerged(marked: string)

  /** The plugins path in the index. */
  datatype Entries = FolderEntries(stages: map<string, Stage>) | LinkEntry(commit: string, resolved: bool)

  datatype Index = Index(host: map<string, Stage>, plugins: Entries)

  function Staged(files: Files): map<string, Stage> { map p | p in files :: Merged(files[p]) }

  function EntriesOf(w: Workspace): Entries {
    match w
    case Folder(files) => FolderEntries(Staged(files))
    case Link(commit) => LinkEntry(commit, true)
  }

  function IndexOf(t: Tree): Index { Index(Staged(t.host), EntriesOf(t.plugins)) }

  function OnDisk(s: Stage): string { match s { case Merged(b) => b case Unmerged(m) => m } }

  function Checkout(stages: map<string, Stage>): Files { map p | p in stages :: OnDisk(stages[p]) }

  predicate Resolved(stages: map<string, Stage>) { forall p :: p in stages ==> stages[p].Merged? }

  predicate EntriesResolved(e: Entries) {
    match e
    case FolderEntries(stages) => Resolved(stages)
    case LinkEntry(_, resolved) => resolved
  }

  predicate HasUnmerged(i: Index) { !Resolved(i.host) || !EntriesResolved(i.plugins) }

  /** The plugin files an index or a tree puts on disk; a gitlink puts none. */
  function Stages(e: Entries): map<string, Stage> { if e.FolderEntries? then e.stages else map[] }

  function FilesIn(w: Workspace): Files { if w.Folder? then w.files else map[] }

  /** The tree `git commit` records. */
  function TreeOf(i: Index): Tree {
    Tree(Checkout(i.host),
         match i.plugins
         case FolderEntries(stages) => Folder(Checkout(stages))
         case LinkEntry(commit, _) => Link(commit))
  }

  // ----- The worktree

  /** The files on disk, tracked or not. */
  datatype Disk = Disk(host: Files, plugins: Files)

  /** A repository of its own at the plugins path, such as an initialised submodule: the commit it has
      checked out with its files, and whether it has staged changes. */
  datatype Nested = Nested(commit: string, files: Files, staged: bool)

  /** The ignore rules that a checked-out tree brings, and those of the nested repository. The path ""
      is the plugins path itself. */
  datatype Rules = Rules(host: (Tree, string) -> bool, plugins: (Tree, string) -> bool, nested: string -> bool)

  /** Every tracked file is there unchanged. */
  predicate Intact(tracked: Files, disk: Files) { forall p :: p in tracked ==> p in disk && disk[p] == tracked[p] }

  /** `git status` has nothing to say about these files. */
  predicate FilesClean(tracked: Files, disk: Files, ignored: string -> bool) {
    Intact(tracked, disk) && forall p :: p in disk ==> p in tracked || ignored(p)
  }

  /** `git status` in the nested repository prints something. */
  predicate NestedDirty(n: Nested, disk: Files, rules: Rules) {
    n.staged || !FilesClean(n.files, disk, rules.nested)
  }

  /** `git status` lists this path: a tracked file is missing or changed, or one that is neither tracked nor
      ignored is there. */
  predicate Lists(tracked: Files, disk: Files, ignored: string -> bool, p: string) {
    || (p in tracked && (p !in disk || disk[p] != tracked[p]))
    || (p in disk && p !in tracked && !ignored(p))
  }

  /** A nested repository is dirty exactly when something is staged or some path is listed. */
  lemma NestedDirtyIff(n: Nested, disk: Files, rules: Rules)
    ensures NestedDirty(n, disk, rules) <==> n.staged || exists p :: Lists(n.files, disk, rules.nested, p)
  {
    if !FilesClean(n.files, disk, rules.nested) {
      if !Intact(n.files, disk) {
        var p :| p in n.files && !(p in disk && disk[p] == n.files[p]);
        assert Lists(n.files, disk, rules.nested, p);
      } else {
        var p :| p in disk && p !in n.files && !rules.nested(p);
        assert Lists(n.files, disk, rules.nested, p);
      }
    }
  }

  /** A gitlink is compared with the commit that is checked out, if any; the files below it are not
      looked at. An untracked nested repository shows as one entry. */
  predicate PluginsClean(t: Tree, disk: Files, nested: Option<Nested>, rules: Rules) {
    match t.plugins
    case Link(commit) => nested.Some? ==> nested.value.commit == commit && !NestedDirty(nested.value, disk, rules)
    case Folder(files) =>
      if nested.Some? && files == map[] then rules.plugins(t, "")
      else FilesClean(files, disk, p => rules.plugins(t, p))
  }

  /** A full ref name: a stray file at the top of the git directory, or a name under refs/, refs/tags/,
      refs/heads/ or refs/remotes/. Pseudo-refs that git itself writes, such as FETCH_HEAD and ORIG_HEAD,
      are not counted among the refs. */
  datatype RefName = Top(name: string) | Refs(name: string) | Tag(name: string) | Head(name: string)
                   | Remote(name: string)

  /** `refs` holds every ref but the checked-out branch, which is at `head`. */
  datatype Repo = Repo(
    branch: string, head: Commit, index: Index, worktree: Disk, mergeHead: Option<Commit>,
    remotes: map<string, string>, refs: map<RefName, Commit>, nested: Option<Nested>, stash: seq<Tree>)

  function CommitAt(r: Repo, ref: RefName): Option<Commit> {
    if ref == Head(r.branch) then Some(r.head)
    else if ref in r.refs then Some(r.refs[ref])
    else None
  }

  function FirstCommit(r: Repo, candidates: seq<RefName>): Option<Commit> {
    if candidates == [] then None
    else if CommitAt(r, candidates[0]).Some? then CommitAt(r, candidates[0])
    else FirstCommit(r, candidates[1..])
  }

  /** What a short name means to git: the first existing ref in the lookup order of gitrevisions(7). */
  function Resolve(r: Repo, name: string): Option<Commit> {
    FirstCommit(r, [Top(name), Refs(name), Tag(name), Head(name), Remote(name), Remote(name + "/HEAD")])
  }

  /** `git status --porcelain` prints nothing. */
  predicate IsClean(r: Repo, rules: Rules) {
    && r.index == IndexOf(r.head.tree)
    && FilesClean(r.head.tree.host, r.worktree.host, p => rules.host(r.head.tree, p))
    && PluginsClean(r.head.tree, r.worktree.plugins, r.nested, rules)
  }

  /** How a mutating command ends. A failing one may leave index and worktree in any state. */
  datatype Answer = Done | Failed(index: Index, worktree: Disk)

  /** `merged` is the index a true merge produces, conflicts included. */
  datatype MergeAnswer = Runs(merged: Index) | Breaks(index: Index, worktree: Disk)

  datatype Step = Step(repo: Repo, ok: bool)

  function Broken(r: Repo, index: Index, worktree: Disk): Step {
    Step(r.(index := index, worktree := worktree), false)
  }

  /** Tracked files leave the disk, the given ones enter it, untracked ones stay. Entering and leaving
      gitlinks changes no file, and never the commit that is checked out below them. */
  function Retrack(disk: Files, tracked: map<string, Stage>, files: Files): Files {
    (disk - tracked.Keys) + files
  }

  function Switch(r: Repo, host: Files, plugins: Files): Disk {
    Disk(Retrack(r.worktree.host, r.index.host, host), Retrack(r.worktree.plugins, Stages(r.index.plugins), plugins))
  }

  /** A new file would overwrite an untracked one that is not ignored. */
  predicate Overwrites(disk: Files, tracked: map<string, Stage>, files: Files, ignored: string -> bool) {
    exists p :: p in files && p !in tracked && p in disk && !ignored(p)
  }

  /** git refuses a merge that would lose an untracked file; ignored files it overwrites. */
  predicate LosesUntracked(r: Repo, host: Files, plugins: Files, rules: Rules) {
    || Overwrites(r.worktree.host, r.index.host, host, p => rules.host(r.head.tree, p))
    || Overwrites(r.worktree.plugins, Stages(r.index.plugins), plugins, p => rules.plugins(r.head.tree, p))
  }

  predicate FastForwards(head: Commit, target: Commit) {
    !IsAncestor(target, head) && IsAncestor(head, target)
  }

  /** git merge --no-edit --no-commit: refuses while another merge is pending, does nothing when the
      target is already contained, fast-forwards when nothing local has diverged. */
  function Merge(r: Repo, target: Commit, a: MergeAnswer, rules: Rules): Step {
    if r.mergeHead.Some? then Step(r, false)
    else
      match a
      case Breaks(index, worktree) => Broken(r, index, worktree)
      case Runs(merged) =>
        if IsAncestor(target, r.head) then Step(r, true)
        else if IsAncestor(r.head, target) then
          var host, plugins := target.tree.host, FilesIn(target.tree.plugins);
          if LosesUntracked(r, host, plugins, rules) then Step(r, false)
          else Step(r.(head := target, index := IndexOf(target.tree), worktree := Switch(r, host, plugins)), true)
        else
          var host, plugins := Checkout(merged.host), Checkout(Stages(merged.plugins));
          if LosesUntracked(r, host, plugins, rules) then Step(r, false)
          else
            Step(r.(index := merged, worktree := Switch(r, host, plugins), mergeHead := Some(target)),
                 !HasUnmerged(merged))
  }

  /** git restore --source --staged --worktree -- plugins. */
  function RestorePlugins(r: Repo, w: Workspace, a: Answer): Step {
    match a
    case Failed(index, worktree) => Broken(r, index, worktree)
    case Done =>
      var files := Retrack(r.worktree.plugins, Stages(r.index.plugins), FilesIn(w));
      Step(r.(index := r.index.(plugins := EntriesOf(w)), worktree := r.worktree.(plugins := files)), true)
  }

  /** git rm -r --cached -f -- plugins: the index forgets them, the files stay. */
  function UntrackPlugins(r: Repo, a: Answer): Step {
    match a
    case Failed(index, worktree) => Broken(r, index, worktree)
    case Done => Step(r.(index := r.index.(plugins := FolderEntries(map[]))), true)
  }

  /** git merge --abort. */
  function AbortMerge(r: Repo, a: Answer): Step {
    match a
    case Failed(index, worktree) => Broken(r, index, worktree)
    case Done =>
      var t := r.head.tree;
      Step(r.(index := IndexOf(t), mergeHead := None, worktree := Switch(r, t.host, FilesIn(t.plugins))), true)
  }

  /** git commit --no-edit with a merge pending. */
  function CommitMerge(r: Repo, a: Answer): Step
    requires r.mergeHead.Some?
  {
    match a
    case Failed(index, worktree) => Broken(r, index, worktree)
    case Done => Step(r.(head := Commit(TreeOf(r.index), [r.head, r.mergeHead.value]), mergeHead := None), true)
  }

  /** The repository as the object the commands change in place. */
  class Repository {
    var branch: string
    var head: Commit
    var index: Index
    var worktree: Disk
    var mergeHead: Option<Commit>
    var remotes: map<string, string>
    var refs: map<RefName, Commit>
    var nested: Option<Nested>
    var stash: seq<Tree>

    constructor (r: Repo)
      ensures Snapshot() == r
    {
      branch, head, index, worktree, mergeHead := r.branch, r.head, r.index, r.worktree, r.mergeHead;
      remotes, refs, nested, stash := r.remotes, r.refs, r.nested, r.stash;
    }

    function Snapshot(): Repo
      reads this
    {
      Repo(branch, head, index, worktree, mergeHead, remotes, refs, nested, stash)
    }

    method Clobber(i: Index, w: Disk)
      modifies this`index, this`worktree
      ensures Snapshot() == old(Snapshot()).(index := i, worktree := w)
    {
      index, worktree := i, w;
    }

    /** Rewrites the tracked files in place. */
    method SwitchFiles(host: Files, plugins: Files)
      modifies this`worktree
      ensures Snapshot() == old(Snapshot()).(worktree := Switch(old(Snapshot()), host, plugins))
    {
      var hostFiles := Retrack(worktree.host, index.host, host);
      var pluginFiles := Retrack(worktree.plugins, Stages(index.plugins), plugins);
      worktree := Disk(hostFiles, pluginFiles);
    }

    method RunMerge(target: Commit, a: MergeAnswer, rules: Rules) returns (ok: bool)
      modifies this
      ensures Step(Snapshot(), ok) == Merge(old(Snapshot()), target, a, rules)
    {
      if mergeHead.Some? {
        return false;
      }
      match a {
        case Breaks(i, w) =>
          Clobber(i, w);
          return false;
        case Runs(merged) =>
          if IsAncestor(target, head) {
            return true;
          }
          if IsAncestor(head, target) {
            if LosesUntracked(Snapshot(), target.tree.host, FilesIn(target.tree.plugins), rules) {
              return false;
            }
            SwitchFiles(target.tree.host, FilesIn(target.tree.plugins));
            head := target;
            index := IndexOf(target.tree);
            return true;
          }
          var host, plugins := Checkout(merged.host), Checkout(Stages(merged.plugins));
          if LosesUntracked(Snapshot(), host, plugins, rules) {
            return false;
          }
          SwitchFiles(host, plugins);
          index := merged;
          mergeHead := Some(target);
          return !HasUnmerged(merged);
      }
    }

    method RunRestorePlugins(w: Workspace, a: Answer) returns (ok: bool)
      modifies this`index, this`worktree
      ensures Step(Snapshot(), ok) == RestorePlugins(old(Snapshot()), w, a)
    {
      match a {
        case Failed(i, d) =>
          Clobber(i, d);
          return false;
        case Done =>
          var files := Retrack(worktree.plugins, Stages(index.plugins), FilesIn(w));
          worktree := worktree.(plugins := files);
          index := index.(plugins := EntriesOf(w));
          return true;
      }
    }

    method RunUntrackPlugins(a: Answer) returns (ok: bool)
      modifies this`index, this`worktree
      ensures Step(Snapshot(), ok) == UntrackPlugins(old(Snapshot()), a)
    {
      match a {
        case Failed(i, w) =>
          Clobber(i, w);
          return false;
        case Done =>
          index := index.(plugins := FolderEntries(map[]));
          return true;
      }
    }

    method RunAbortMerge(a: Answer) returns (ok: bool)
      modifies this`index, this`worktree, this`mergeHead
      ensures Step(Snapshot(), ok) == AbortMerge(old(Snapshot()), a)
    {
      match a {
        case Failed(i, w) =>
          Clobber(i, w);
          return false;
        case Done =>
          SwitchFiles(head.tree.host, FilesIn(head.tree.plugins));
          index := IndexOf(head.tree);
          mergeHead := None;
          return true;
      }
    }

    method RunCommitMerge(a: Answer) returns (ok: bool)
      requires mergeHead.Some?
      modifies this`head, this`index, this`worktree, this`mergeHead
      ensures Step(Snapshot(), ok) == CommitMerge(old(Snapshot()), a)
    {
      match a {
        case Failed(i, w) =>
          Clobber(i, w);
          return false;
        case Done =>
          head := Commit(TreeOf(index), [head, mergeHead.value]);
          mergeHead := None;
          return true;
      }
    }
  }
}
