# LinaPro: verified model

A Dafny model of the algorithmic parts of LinaPro and proofs of what they guarantee.
`dafny verify dfyconfig.toml` checks the whole project.

| files | part of the system |
|---|---|
| `Strings.dfy`, `Decimal.dfy`, `Sorting.dfy` | the Go string, number and sorting functions everything else is built from |
| `MenuModel`, `MenuForest`, `MenuSelection`, `MenuBuild`, `MenuAgreement` | menu trees: closing a grant upward, linking heap nodes into a forest, and how the two endpoints relate |
| `MenuRoutes`, `MenuLinks`, `HomePath`, `RoutePaths` | turning the tree into routes, route slugs and names, the landing page, and the addresses both are reached at |
| `GitModel`, `Upgrade`, `UpgradeOutcomes`, `UpgradeEffects`, `UpgradeCases`, `StableTags` | the framework upgrade over an abstract git repository, what it merges and when it succeeds, what its runs leave behind, sample runs, and the choice of the latest stable tag |
| `Dependencies` | the plugin dependency check: a cycle-detecting walk over declared dependencies |
| `CatalogFlatten`, `CatalogLoader`, `CatalogBundles` | locale catalogs: flattening, merging, filtering, and the two plugin loaders |
| `ConfigOptions`, `ConfigValues` | option lists of system parameters and typed value validation |
| `Locales`, `Fingerprint`, `ETag` | canonical locale codes, content fingerprints, bundle revalidation |
| `Template`, `CommandLine` | message templates, the command-line splitter |

## How the code is modelled

- Code that changes things step by step is a method (a class where objects are updated in place),
  proved equal to a specification function; the properties are lemmas about that function.
- Go's map enumeration is a nondeterministic choice (`:|`); a claim about a map loop holds for every order.
- The upgrade runs in an `Env` that fixes what the run cannot choose: the official refs, which probes
  report errors, and how each mutating command ends. A failing command may leave index and worktree in
  any state. Every theorem quantifies over all environments. Probes whose errors the code swallows are
  faithful. The repository URL is part of the environment.
- `git merge --no-commit` still fast-forwards when local history has not diverged; the model includes it.
- The plugins path holds ordinary files or a gitlink. The files on disk are modelled with the untracked and
  ignored ones, and so is the commit an initialised submodule (or any nested repository) has checked out.
  Ignore rules belong to the checked-out tree and may change with it.
- Menu rows form a table (positive, distinct IDs, as the primary key of sys_menu guarantees) where a
  theorem speaks about a forest; linking itself is specified for any list.
- JSON is a datatype and its decoder a parameter; so are `strconv.ParseFloat` and Go's Unicode letter,
  digit and lower-case tables (assumed right on ASCII only). White space is the full White_Space set.
- An option's label is called `caption` (`label` is a Dafny keyword).
- Strings are valid Unicode; their order is by code point, which is Go's byte order on UTF-8.

## What the proofs found

Each point names the lemma with the exact condition and, where it is a failure, one with a concrete input.

- The upgrade promises that official plugin changes never enter the result. They do when the merge
  fast-forwards: `Upgrade.PluginsPreservedIff`, `UpgradeCases.FastForwardReplacesPlugins`.
- A successful upgrade can leave a worktree that the next run refuses as dirty. Above all a fast-forward to
  another gitlink does, because nothing moves an initialised submodule; official plugin files that arrive
  where no plugins path existed do too: `UpgradeEffects.SuccessIsRepeatableIff`,
  `UpgradeCases.SubmoduleIsLeftBehind`, `UpgradeCases.PluginFilesAreLeft`.
- A run can succeed without merging its target: a merge left pending on a clean worktree is dropped, and
  so is a merge that changes plugins only: `UpgradeEffects.SuccessContainsTargetIff`,
  `UpgradeCases.StaleMergeHidesTarget`, `UpgradeCases.PluginOnlyTargetIsDropped`.
- The upgrade promises not to delete untracked plugin files. It loses an ignored one when the official tree
  tracks a file of that name: `UpgradeEffects.UntrackedPluginFileKeptIff`,
  `UpgradeCases.IgnoredPluginFileIsLost`.
- `v=main` merges `linapro/main` by its short name, so a local branch or tag of that name is merged
  instead of the official branch: `Upgrade.MergesOfficialIff`,
  `UpgradeCases.LocalBranchIsMerged`.
- The external-address test of the landing-page search never fires, because joined paths are rooted
  first; an external iframe page can become the landing page, at an address that no route has:
  `HomePath.ExternalTestMattersIff`, `HomePath.ExternalLinkBecomesHome`,
  `RoutePaths.ExternalHomeIsNotRouted`.
- The user-info tree drops what the routed tree keeps: subtrees below an ungranted directory, and menu
  keys: `MenuAgreement.TreesAgreeIff`, `MenuAgreement.PartialGrantDisagrees`.
- Message formatting depends on map order for every template with nested groups such as `{a{b}}`, and for
  no other when parameters are brace-free: `Template.OrderIndependentIff`,
  `Template.NestedRaces`.
- The simple option format is not lossless for captions with `=` or `|`, line breaks, or a leading `[`:
  `ConfigOptions.OptionsRoundTripIff`, `ConfigOptions.OptionsAreLost`.
- The option parser accepts values that hold `;`, which no multi-select value can choose:
  `ConfigValues.ParsedOptionSelectableIff`, `ConfigValues.UnselectableOption`.
- A weakened validator in If-None-Match is not recognised: `ETag.ExactIsWeakIff`,
  `ETag.WeakenedValidatorMisses`.
- Three branches are dead: the fallback for an empty slug (`MenuLinks.SlugIsClean`), the upper-case `V` prefix
  of a version (`StableTags.StableShape`), and the cycle test on entry to the dependency walk, whose call sites
  leave out plugins that are being visited (`Dependencies.Walker.WalkDependencies`).

## Model

| member | source | states |
|---|---|---|
| `MenuSelection.CloseSelection` | apps/lina-core/internal/controller/menu/menu_v1_all.go:83-97 | the marking loop, early break included, ends on cyclic parents too and marks exactly the positive granted IDs and their ancestors |
| `MenuSelection.SelectionIsLeastClosure` | apps/lina-core/internal/controller/menu/menu_v1_all.go:83-97 | that set is the least one holding the positive granted IDs and closed under positive parents |
| `MenuSelection.SelectionIgnoresOrder` | apps/lina-core/internal/controller/menu/menu_v1_all.go:83-97 | order, duplicates and non-positive IDs in the grant do not change it |
| `MenuSelection.SelectedForestShowsExactly` | apps/lina-core/internal/controller/menu/menu_v1_all.go:70-126 | the menu tree shows each menu of the upward closure whose parent chain reaches a root in the full list exactly once, and nothing else |
| `MenuForest.ForestCharacterised` | apps/lina-core/internal/controller/menu/menu_v1_all.go:110-125 | for every table, with cycles and dangling parents, there is one and only one finite forest in which each node carries exactly its own rows in list order |
| `MenuForest.ForestShowsRootedOnce` | apps/lina-core/internal/controller/menu/menu_v1_all.go:110-125 | every row whose chain reaches a root appears exactly once in it; cyclic and dangling rows never |
| `MenuBuild.IndexMenus` | apps/lina-core/internal/controller/menu/menu_v1_all.go:75-81 | the entity index skips nil rows and lets the later row win |
| `MenuBuild.CloneSelected` | apps/lina-core/internal/controller/menu/menu_v1_all.go:99-108 | the selected rows, in list order, on fresh nodes without children |
| `MenuBuild.IndexNodes` | apps/lina-core/internal/controller/user/user_v1_get_info.go:122-126 | the node index, a later node with the same ID winning |
| `MenuBuild.LinkForest` | apps/lina-core/internal/controller/user/user_v1_get_info.go:128-139 | the exact new child slice of every node and the root list, for any input, repeated IDs included; nothing else is written |
| `MenuBuild.LinkedForest` | apps/lina-core/internal/controller/menu/menu_v1_all.go:110-125 | the heap after linking represents the forest of the rows, in order, and no node is reached twice |
| `MenuBuild.BuildFilteredTree` | apps/lina-core/internal/controller/menu/menu_v1_all.go:70-126 | the returned heap structure represents the forest of the selected rows, every node once; nil rows and empty inputs included |
| `MenuBuild.GrantedSet` | apps/lina-core/internal/controller/user/user_v1_get_info.go:74-77 | the granted IDs as a set |
| `MenuBuild.CopyGranted` | apps/lina-core/internal/controller/user/user_v1_get_info.go:78-102 | the granted rows only, in list order, on fresh nodes that lack the menu key |
| `MenuBuild.OnlyKeyIsLost` | apps/lina-core/internal/controller/user/user_v1_get_info.go:78-102 | of every row the copy loses the menu key and nothing else |
| `MenuBuild.BuildUserTree` | apps/lina-core/internal/controller/user/user_v1_get_info.go:73-140 | the returned heap structure represents the forest of the granted rows alone, every node once |
| `MenuAgreement.UserTreeIsPrunedMenuTree` | apps/lina-core/internal/controller/user/user_v1_get_info.go:73-104 | for arbitrary grants the user tree is the menu tree with every subtree below a menu that was not granted cut off |
| `MenuAgreement.TreesAgreeIff` | apps/lina-core/internal/controller/user/user_v1_get_info.go:73-104 | the two endpoints show the same tree exactly when every granted menu whose parent chain reaches a root has its parent granted |
| `MenuAgreement.TreesAgreeIffGrantedShown` | apps/lina-core/internal/controller/user/user_v1_get_info.go:73-104 | equivalently, when the menu tree shows granted menus only |
| `MenuAgreement.AncestorClosedGrantsAgree` | apps/lina-core/internal/controller/user/user_v1_get_info.go:73-104 | so they agree for every grant that holds the parents of its menus |
| `MenuAgreement.PartialGrantDisagrees` | apps/lina-core/internal/controller/user/user_v1_get_info.go:73-104 | a page granted without its directory is routed but absent from the user tree |
| `MenuRoutes.FillRoute` | apps/lina-core/internal/controller/menu/menu_v1_all.go:165-217 | the route of one row: iframe, new window, embedded mount or view component; what its fields hold is stated by the rows below |
| `MenuRoutes.FlatRoute` | apps/lina-core/internal/controller/menu/menu_v1_all.go:165-217 | keeps ID, parent, title, icon, order, authority, visibility, caching and title key of the row, each under its own field, and neither redirect nor children yet |
| `MenuRoutes.RoutePathRule` | apps/lina-core/internal/controller/menu/menu_v1_all.go:268-289 | root routes are absolute, and but for that one slash a row is routed at its own path, or a link at its slug |
| `RoutePaths.RouteKeepsSegments` | apps/lina-core/internal/controller/menu/menu_v1_all.go:268-289 | a row that is no link is routed at the segments of its own path |
| `RoutePaths.AddressesAreListedPaths` | apps/lina-core/internal/controller/menu/menu_v1_all.go:158-289 | along a tree of ordinary menus the addresses a router joins from the route list are, in order, the paths the landing-page search joins over the same tree without buttons and empty directories |
| `RoutePaths.LandingPageIsRouted` | apps/lina-core/internal/controller/user/user_v1_get_info.go:143-186 | so there the landing page, if it is not the profile page, is the address of a route |
| `RoutePaths.ExternalHomeIsNotRouted` | apps/lina-core/internal/controller/user/user_v1_get_info.go:188-203 | the landing page that an external link becomes is the address of no route |
| `MenuRoutes.RouteNamesAndComponents` | apps/lina-core/internal/controller/menu/menu_v1_all.go:193-265 | the name and the component of every row: a link is named by its slug and shown by a built-in view or, embedded, by its own component; a page is named by its path, else its name; a directory shows none |
| `MenuRoutes.ComponentMeansTheSame` | apps/lina-core/internal/controller/menu/menu_v1_all.go:292-301 | the component path a route gets normalizes like the stored one |
| `MenuRoutes.ComponentSpellings` | apps/lina-core/internal/controller/menu/menu_v1_all.go:410-418 | a bare component path is its own normal form, and so is read from the generated path and from the one with the extension |
| `MenuRoutes.EmbeddedKeepsQuery` | apps/lina-core/internal/controller/menu/menu_v1_all.go:375-398 | an embedded mount keeps the rest of the row's query, blank keys and values left out |
| `MenuRoutes.TargetReachesRouterOnce` | apps/lina-core/internal/controller/menu/menu_v1_all.go:193-213 | of every row, the route carries the link target in exactly one of embedded source, new-window link and iframe source, and a row that is no link in none; the query is untouched outside embedded mounts |
| `MenuRoutes.RouterReadsTarget` | apps/lina-core/internal/controller/menu/menu_v1_all.go:193-213 | the router reads the link target of every menu back from its route, and none from any other row, unless the row's own query names an embedded source |
| `MenuRoutes.ConvertToRouteItems` | apps/lina-core/internal/controller/menu/menu_v1_all.go:158-238 | the conversion of a whole tree: the route of each row as filled above, children and redirect attached in place; its addresses are those of RoutePaths.AddressesAreListedPaths |
| `MenuRoutes.ConvertToMenuTree` | apps/lina-core/internal/controller/user/user_v1_get_info.go:206-232 | the user-info list with every projected column, buttons and what is below them left out |
| `MenuRoutes.ColumnsAreKept` | apps/lina-core/internal/controller/user/user_v1_get_info.go:206-232 | each column of the user-info list is the column of that name in the row |
| `MenuRoutes.RoutesMirrorMenuNodes` | apps/lina-core/internal/controller/menu/menu_v1_all.go:219-236 | the route list is the user-info list with childless directories removed bottom-up, the columns both show agreeing; no button survives, every directory has children and redirects to its first one, nothing else redirects |
| `MenuRoutes.RoutesShowAllPages` | apps/lina-core/internal/controller/menu/menu_v1_all.go:158-238 | the non-directory routes in preorder are exactly the input pages in preorder |
| `MenuRoutes.EmptyIffNoPages` | apps/lina-core/internal/controller/menu/menu_v1_all.go:224-228 | directories vanish exactly when no page is left anywhere below them |
| `MenuRoutes.PruningKeepsPages` | apps/lina-core/internal/controller/menu/menu_v1_all.go:224-228 | hiding empty directories loses no page and no order |
| `MenuLinks.CollapseHyphen` | apps/lina-core/internal/controller/menu/menu_v1_all.go:460-479 | the loop yields the text with hyphen runs collapsed |
| `MenuLinks.Collapse` | apps/lina-core/internal/controller/menu/menu_v1_all.go:460-479 | no doubled hyphen is left and the outer characters stay |
| `MenuLinks.ToPascalCase` | apps/lina-core/internal/controller/menu/menu_v1_all.go:304-325 | the loop yields the PascalCase text |
| `MenuLinks.BuildMenuLinkRouteSlug` | apps/lina-core/internal/controller/menu/menu_v1_all.go:436-456 | the builder loop yields the slug |
| `MenuLinks.SlugSpellsWords` | apps/lina-core/internal/controller/menu/menu_v1_all.go:436-456 | a slug is link, the ID and the words of the path in lower case, joined by single hyphens |
| `MenuLinks.PascalSpellsWords` | apps/lina-core/internal/controller/menu/menu_v1_all.go:304-325 | a PascalCase name is the words of the text, its separators left out, each with an ASCII capital |
| `MenuLinks.LinkTargetCases` | apps/lina-core/internal/controller/menu/menu_v1_all.go:328-344 | an address with one of two schemes in any case is its own target, a hosted asset gets exactly one leading slash, and all else is no link |
| `MenuLinks.SlugIsClean` | apps/lina-core/internal/controller/menu/menu_v1_all.go:436-456 | no slug has a leading, trailing or doubled hyphen, and the fallback for an empty slug is never taken |
| `MenuLinks.SlugDecodes` | apps/lina-core/internal/controller/menu/menu_v1_all.go:436-456 | the menu ID can be read back from every slug, whatever the path |
| `MenuLinks.NegativeIdCollides` | apps/lina-core/internal/controller/menu/menu_v1_all.go:436-456 | a negative ID would share the slug of the positive one |
| `MenuLinks.LinkTail` | apps/lina-core/internal/controller/menu/menu_v1_all.go:328-344 | behind the ID, the slug of a link target starts with a hyphen and the h of its scheme or the x of x-assets |
| `MenuLinks.RouteNameDecodes` | apps/lina-core/internal/controller/menu/menu_v1_all.go:430-432 | the menu ID can be read back from the route name of every link menu |
| `MenuLinks.LinkNamesDistinct` | apps/lina-core/internal/controller/menu/menu_v1_all.go:430-456 | different link menus never share a slug or a route name |
| `HomePath.SearchIsFirstFit` | apps/lina-core/internal/controller/user/user_v1_get_info.go:157-171 | the recursive search finds the first fitting entry of the preorder listing of items and joined paths |
| `HomePath.HomeIsFirstFit` | apps/lina-core/internal/controller/user/user_v1_get_info.go:143-151 | the landing page is the first stable entry, else the first entry of any kind, else the profile page; it always starts with a slash |
| `HomePath.PluginPageOnlyAsFallback` | apps/lina-core/internal/controller/user/user_v1_get_info.go:153-156 | a hosted or dynamic page is chosen only when the whole tree holds no stable page |
| `HomePath.JoinMenuPath` | apps/lina-core/internal/controller/user/user_v1_get_info.go:174-186 | joined paths stay empty or rooted |
| `HomePath.JoinAppendsSegments` | apps/lina-core/internal/controller/user/user_v1_get_info.go:174-186 | joining appends the segments of a relative path to its parent's, and starts afresh for an absolute one; the seam neither loses nor doubles slashes |
| `HomePath.JoinSeam` | apps/lina-core/internal/controller/user/user_v1_get_info.go:174-186 | at the seam of a relative path there is exactly one slash; a blank path is the parent's, an absolute one stands for itself |
| `HomePath.ExternalTestIsVacuous` | apps/lina-core/internal/controller/user/user_v1_get_info.go:188-198 | the external-address test rejects no path the search ever tests |
| `HomePath.ExternalLinkBecomesHome` | apps/lina-core/internal/controller/user/user_v1_get_info.go:143-203 | so a lone external link shown as an iframe becomes the landing page |
| `HomePath.ExternalTestMattersIff` | apps/lina-core/internal/controller/user/user_v1_get_info.go:143-203 | over all trees the search lands elsewhere than a test of the row's own path would exactly when the first stable page of the listing, or its first page when none is stable, has an external address |
| `HomePath.LocalTreeLandsLocally` | apps/lina-core/internal/controller/user/user_v1_get_info.go:143-203 | a tree that shows no external address as an ordinary page never lands on one |
| `GitModel.Repository.RunMerge` | hack/tools/linactl/command_upgrade.go:115 | git merge without commit: refusal over a pending merge or an untracked file, nothing to do, fast-forward or a pending merge; a gitlink moves in the index and never in the submodule |
| `GitModel.Repository.RunRestorePlugins` | hack/tools/linactl/command_upgrade.go:177 | restoring the plugins path, files or gitlink, in index and worktree; untracked files and the submodule checkout stay |
| `GitModel.Repository.RunUntrackPlugins` | hack/tools/linactl/command_upgrade.go:185 | dropping the plugins path from the index only |
| `GitModel.Repository.RunAbortMerge` | hack/tools/linactl/command_upgrade.go:126-139 | aborting the pending merge: tracked files and index go back to HEAD, untracked files and the submodule checkout stay |
| `GitModel.Repository.RunCommitMerge` | hack/tools/linactl/command_upgrade.go:146 | committing the pending merge |
| `Upgrade.WorktreeSafe` | hack/tools/linactl/command_upgrade.go:281-304 | passes only a clean host and a clean nested repository, and fails when a status probe fails |
| `GitModel.NestedDirtyIff` | hack/tools/linactl/command_upgrade.go:295-304 | a nested repository is dirty exactly when something is staged, a tracked file is missing or changed, or a file is neither tracked nor ignored |
| `Upgrade.EnsureOfficialRemote` | hack/tools/linactl/command_upgrade.go:232-251 | creates or corrects the managed remote and no other |
| `Upgrade.FetchTarget` | hack/tools/linactl/command_upgrade.go:360-387 | updates exactly the selected ref (pseudo-refs such as FETCH_HEAD aside); refuses to move an existing local tag, while a remote branch is overwritten |
| `Upgrade.PreserveLocalPlugins` | hack/tools/linactl/command_upgrade.go:164-190 | puts the plugins path back, refusing over a dirty nested repository |
| `Upgrade.RunMergePhase` | hack/tools/linactl/command_upgrade.go:106-152 | the merge and everything behind it, step by step, equals its specification |
| `Upgrade.PrepareRun` | hack/tools/linactl/command_upgrade.go:65-104 | everything before the merge, step by step, equals its specification, whose outcome UpgradeOutcomes.ReadyIff states |
| `Upgrade.RunFrameworkUpgrade` | hack/tools/linactl/command_upgrade.go:65-152 | the whole run equals its specification, for every environment; what it merges and when it succeeds is stated by the rows of UpgradeOutcomes |
| `Upgrade.RefusedRunChangesNothing` | hack/tools/linactl/command_upgrade.go:65-83 | a dirty host or nested worktree, a detached HEAD, remote= or force=: failure with the whole repository unchanged, remotes included |
| `Upgrade.PreparationIsLocal` | hack/tools/linactl/command_upgrade.go:84-104 | before the merge only the managed remote and the one fetched ref can change (pseudo-refs aside), and what gets merged is the first local ref that takes the short name in git's lookup order, else the fetched one |
| `Upgrade.MergesOfficialIff` | hack/tools/linactl/command_upgrade.go:389-415 | the run merges the official commit exactly when no local ref shadows the fetched one or the shadowing ref is at the official commit |
| `Upgrade.LocalBranchShadows` | hack/tools/linactl/command_upgrade.go:389-415 | a local branch named like the remote branch is what gets merged |
| `Upgrade.DefaultRunMergesLatest` | hack/tools/linactl/command_upgrade.go:329-341 | without a version the merged commit is the one of a listed stable tag than which none listed is newer, unless a ref outside refs/tags takes its name |
| `UpgradeOutcomes.TargetIff` | hack/tools/linactl/command_upgrade.go:329-352 | the target is exactly what the version parameter asks for: nothing asks for a newest listed tag, a stable version for its tag, anything else for a branch unless it cannot name one |
| `UpgradeOutcomes.ExplicitVersionMergesTag` | hack/tools/linactl/command_upgrade.go:342-344 | an explicit stable version, with or without its v, fetches and merges the official tag of that version unless a ref outside refs/tags takes its name |
| `UpgradeOutcomes.BranchNameMergesBranch` | hack/tools/linactl/command_upgrade.go:345-351 | any other text fetches and merges the official branch of that name unless a local ref takes the short name |
| `UpgradeOutcomes.InvalidNameFails` | hack/tools/linactl/command_upgrade.go:345-350 | a text with a slash or two adjacent dots, or equal to the remote's name, fails the run; at most the managed remote has changed |
| `UpgradeOutcomes.ReadyIff` | hack/tools/linactl/command_upgrade.go:65-113 | the merge is reached exactly when the run is neither redirected nor forced, every probe answers, a branch is checked out, host and nested worktree are clean, the managed remote can be set up, and the wanted ref is offered, can be fetched and moves no local tag |
| `UpgradeOutcomes.MergePhaseSucceedsIff` | hack/tools/linactl/command_upgrade.go:115-123 | the merge phase succeeds exactly when nothing is to be merged, HEAD fast-forwards over no untracked file, or a true merge overwrites none and is finished successfully |
| `UpgradeOutcomes.FinishSucceedsIff` | hack/tools/linactl/command_upgrade.go:125-152 | a pending merge is finished successfully exactly when the nested repository is still clean, the plugins can be put back, no conflict outside them is left, the difference to HEAD can be told, and the commit, or without a difference the abort, works |
| `UpgradeOutcomes.FailureStaysPending` | hack/tools/linactl/command_upgrade.go:130-152 | when the plugins are back and the run fails all the same, HEAD has not moved and the merge is still pending; after a conflict index and files are those of the merge with the old plugins |
| `UpgradeOutcomes.ConflictIsLeftToUser` | hack/tools/linactl/command_upgrade.go:130-132 | over a whole run: a conflict outside the plugins path fails the run and leaves the merge of the target pending, with its conflicting entries and marked files |
| `UpgradeOutcomes.RefusedMergeChangesNothing` | hack/tools/linactl/command_upgrade.go:115-118 | a merge that git refuses over an untracked file fails the run and changes nothing but the managed remote and the fetched ref |
| `Upgrade.UntouchedByAnyRun` | hack/tools/linactl/command_upgrade.go:4-12 | no run changes other remotes or refs than the managed and the fetched one, pseudo-refs aside; the branch, the nested repository's own state and the stash stay because none of the commands the run uses can write them |
| `Upgrade.FinishMovesHead` | hack/tools/linactl/command_upgrade.go:125-152 | a pending merge moves HEAD only by committing, after the plugins were put back, an index without conflicts that differs from HEAD |
| `Upgrade.MergePhasePreservesIff` | hack/tools/linactl/command_upgrade.go:115-152 | the merge phase keeps HEAD's plugins except exactly when it fast-forwards to other ones |
| `Upgrade.PluginsPreservedIff` | hack/tools/linactl/command_upgrade.go:4-12 | over every run and every failure HEAD keeps its plugins at exit, except exactly when the merge fast-forwards to a target with other plugins |
| `Upgrade.DivergedRunOnlyCommits` | hack/tools/linactl/command_upgrade.go:115-152 | with diverged histories HEAD moves only to a merge commit of old HEAD and target with the old plugins and the merged host files, which differ from the old ones |
| `Upgrade.FailedRunKeepsHead` | hack/tools/linactl/command_upgrade.go:115-152 | however a run fails, HEAD is where it was |
| `UpgradeEffects.SuccessLeaves` | hack/tools/linactl/command_upgrade.go:115-152 | the whole end state of a successful run: no pending merge, an index equal to HEAD, and the exact tree and files on disk |
| `UpgradeEffects.SuccessIsRepeatableIff` | hack/tools/linactl/command_upgrade.go:138-152 | the worktree is clean after success exactly unless HEAD got another gitlink than an initialised submodule has checked out, the submodule shows changes, or an untracked file is left that the new HEAD does not ignore |
| `UpgradeEffects.RepeatableUnderSameRulesIff` | hack/tools/linactl/command_upgrade.go:115-190 | with unchanged ignore rules: clean exactly unless an initialised submodule is fast-forwarded to another commit, unignored plugin files arrive where there was no plugins path, or a fast-forward from an uninitialised gitlink uncovers stray files |
| `UpgradeEffects.SuccessContainsTargetIff` | hack/tools/linactl/command_upgrade.go:115-152 | a successful run ends at a HEAD containing its target exactly when HEAD contained it before, or no merge was pending and HEAD could fast-forward or the merge changed host files |
| `UpgradeEffects.StaleMergeIsDropped` | hack/tools/linactl/command_upgrade.go:115-143 | in particular, with a merge left pending on a clean worktree HEAD never moves, success means the pending merge was dropped and the worktree is as before, and the run succeeds if no command fails |
| `UpgradeEffects.PluginOnlyTargetIsNotMerged` | hack/tools/linactl/command_upgrade.go:134-143 | so a diverged target that differs in plugins only is never merged by a successful run |
| `UpgradeEffects.DirtyNestedRollsBack` | hack/tools/linactl/command_upgrade.go:125-128 | when the nested repository turned dirty after a true merge, the abort leaves the repository as it was, except for ignored files the merge had overwritten |
| `UpgradeEffects.FailedPreserveRollsBack` | hack/tools/linactl/command_upgrade.go:125-128 | when putting the plugins back fails in any state, the abort leaves HEAD, index and every tracked file as they were |
| `UpgradeEffects.CommandsKeepUntracked` | hack/tools/linactl/command_upgrade.go:158-163 | restore, untrack and abort keep every plugin file that is tracked neither by the index nor by the restored tree |
| `UpgradeEffects.UntrackedPluginFileKeptIff` | hack/tools/linactl/command_upgrade.go:158-163 | over a successful run an untracked plugin file survives exactly unless the merge brings a file of its name |
| `UpgradeEffects.OnlyIgnoredFilesAreLost` | hack/tools/linactl/command_upgrade.go:8-12 | what is lost that way was ignored |
| `UpgradeCases.FastForwardReplacesPlugins` | hack/tools/linactl/command_upgrade.go:115-123 | a run that succeeds and leaves HEAD with other plugins |
| `UpgradeCases.SubmoduleIsLeftBehind` | hack/tools/linactl/command_upgrade.go:115-123 | a run that succeeds and leaves an initialised submodule at the old commit, a dirty worktree |
| `UpgradeCases.PluginFilesAreLeft` | hack/tools/linactl/command_upgrade.go:182-188 | a run that succeeds and leaves official plugin files untracked |
| `UpgradeCases.PluginOnlyTargetIsDropped` | hack/tools/linactl/command_upgrade.go:134-143 | a run that succeeds without its target, which changed plugins only |
| `UpgradeCases.StaleMergeHidesTarget` | hack/tools/linactl/command_upgrade.go:115-143 | a run that succeeds without its target, over a stale merge |
| `UpgradeCases.LocalBranchIsMerged` | hack/tools/linactl/command_upgrade.go:389-415 | a run that succeeds with a local branch in place of the official one |
| `UpgradeCases.IgnoredPluginFileIsLost` | hack/tools/linactl/command_upgrade.go:158-181 | a run that succeeds and loses an ignored local plugin file |
| `StableTags.SelectLatestStableTag` | hack/tools/linactl/command_upgrade.go:465-490 | the selection loop yields the selection that SelectsLatest and BestIsGreatest characterise |
| `StableTags.BestIsGreatest` | hack/tools/linactl/command_upgrade.go:465-490 | the selected version is listed and no listed stable version is newer, by the first part in which they differ; none is selected only when none qualifies |
| `StableTags.PrecedenceIsLexicographic` | hack/tools/linactl/command_upgrade.go:517-525 | a version is greater exactly when its own part is the greater one at the first difference of major, minor and patch |
| `StableTags.SelectsLatest` | hack/tools/linactl/command_upgrade.go:465-490 | the selected tag is the canonical one of a listed version than which none listed is newer, and there is none exactly when no listed tag qualifies |
| `StableTags.StableShape` | hack/tools/linactl/command_upgrade.go:453-462 | a stable version starts with a digit behind an optional lower-case v, so the branch for an upper-case V is dead |
| `StableTags.CandidateIsCanonical` | hack/tools/linactl/command_upgrade.go:453-515 | a candidate is spelled canonically for its version, so equal versions mean equal tags |
| `StableTags.SelectionIgnoresOrder` | hack/tools/linactl/command_upgrade.go:465-490 | the result depends only on which candidates are listed, not on order, repetition or spelling |
| `StableTags.SuffixedTagsExcluded` | hack/tools/linactl/command_upgrade.go:42-45 | pre-release and build suffixes never take part |
| `StableTags.CanonicalTagQualifies` | hack/tools/linactl/command_upgrade.go:499-515 | every version whose parts fit an int takes part under its canonical tag |
| `StableTags.VersionSpellings` | hack/tools/linactl/command_upgrade.go:453-462 | a text normalizes to the tag of a version exactly when it is that tag, blanks aside, with or without its v |
| `StableTags.QualifiesIff` | hack/tools/linactl/command_upgrade.go:453-515 | a tag takes part as a version exactly when it spells the version and every part fits an int |
| `Template.Format` | apps/lina-core/pkg/bizerr/bizerr_format.go:23-30 | the range loop, keys in any order, equals replacement in that order; simultaneous substitution for brace-free parameters and a template without nested groups |
| `Template.TokenizeIsFaithful` | apps/lina-core/pkg/bizerr/bizerr_format.go:23-30 | reading a template into literals and groups loses nothing |
| `Template.FormatReliableIff` | apps/lina-core/pkg/bizerr/bizerr_format.go:23-30 | Format is order-independent simultaneous substitution for all brace-free parameters exactly when the template has no nested group |
| `Template.NestedBreaks` | apps/lina-core/pkg/bizerr/bizerr_format.go:23-30 | a nested template always has brace-free parameters and an order that misses simultaneous substitution |
| `Template.NestedRaces` | apps/lina-core/pkg/bizerr/bizerr_format.go:23-30 | and brace-free parameters with two orders that give different results |
| `Template.OrderIndependentIff` | apps/lina-core/pkg/bizerr/bizerr_format.go:23-30 | formatting is independent of map order for all brace-free parameters exactly when the template has no nested group |
| `Template.NoLeftoverNoRace` | apps/lina-core/pkg/bizerr/bizerr_format.go:23-30 | any values at all are safe while the simultaneous result shows no parameter placeholder |
| `ConfigOptions.RunNormalizeOptions` | apps/lina-core/pkg/configvaluetype/configvaluetype_options.go:98-115 | the normalizing loop, blank values rejected |
| `ConfigOptions.NormalizeIff` | apps/lina-core/pkg/configvaluetype/configvaluetype_options.go:98-115 | a list has a normal form exactly when no value is blank; it holds the same options in order, trimmed, blank labels filled from the values |
| `ConfigOptions.RunParseOptionsSimple` | apps/lina-core/pkg/configvaluetype/configvaluetype_options.go:51-69 | the line parser, blank lines skipped, missing values rejected |
| `ConfigOptions.SeparatedLine` | apps/lina-core/pkg/configvaluetype/configvaluetype_options.go:71-95 | a line is label, either separator and value, the label taken from the value when blank; without a value it is an error |
| `ConfigOptions.UnseparatedLine` | apps/lina-core/pkg/configvaluetype/configvaluetype_options.go:71-95 | a line without separator is its own label and value |
| `ConfigOptions.TextIsReadByLine` | apps/lina-core/pkg/configvaluetype/configvaluetype_options.go:30-69 | a text is accepted exactly when every line that is not blank is, one option per such line in order; a blank text gives none; a text that opens with a bracket goes through the JSON decoder |
| `ConfigOptions.RunFormatOptionsSimple` | apps/lina-core/pkg/configvaluetype/configvaluetype_options.go:136-154 | the printing loop, blank values skipped |
| `ConfigOptions.LineRoundTrip` | apps/lina-core/pkg/configvaluetype/configvaluetype_options.go:71-95 | one printed line parses back exactly when no separator stands before the intended one |
| `ConfigOptions.SimpleRoundTrip` | apps/lina-core/pkg/configvaluetype/configvaluetype_options.go:51-154 | a printed list parses back line by line exactly when every option is line-safe |
| `ConfigOptions.OptionsRoundTripIff` | apps/lina-core/pkg/configvaluetype/configvaluetype_options.go:24-154 | printing and parsing a normalized list returns it exactly when no option holds a line break, no written caption and no bare value a separator, and the first caption does not open with a bracket |
| `ConfigOptions.OptionsAreLost` | apps/lina-core/pkg/configvaluetype/configvaluetype_options.go:24-154 | a caption with a separator, one with a line break and one with a leading bracket that do not come back |
| `ConfigOptions.FormatOfAny` | apps/lina-core/pkg/configvaluetype/configvaluetype_options.go:136-154 | any list prints like the normal form of its options that have a value |
| `ConfigOptions.FormatOfNormalized` | apps/lina-core/pkg/configvaluetype/configvaluetype_options.go:97-154 | other lists print like their normal form |
| `ConfigValues.NormalizeMultiSelectValue` | apps/lina-core/pkg/configvaluetype/configvaluetype_options.go:228-246 | the deduplicating loop yields the normal form |
| `ConfigValues.NormalFormParts` | apps/lina-core/pkg/configvaluetype/configvaluetype_options.go:228-246 | the normal form splits into its parts: non-blank, trimmed, distinct |
| `ConfigValues.NormalFormIdempotent` | apps/lina-core/pkg/configvaluetype/configvaluetype_options.go:228-246 | normalizing twice changes nothing and keeps the parts |
| `ConfigValues.DedupOrder` | apps/lina-core/pkg/configvaluetype/configvaluetype_options.go:228-246 | the parts stand in the order of their first occurrences |
| `ConfigValues.OptionValueAllowed` | apps/lina-core/pkg/configvaluetype/configvaluetype_options.go:218-225 | membership among the option values |
| `ConfigValues.ValidateTypedValue` | apps/lina-core/pkg/configvaluetype/configvaluetype_options.go:171-215 | acceptance for every type name and value: unsupported names and option errors are rejected |
| `ConfigValues.OtherTypesAcceptIff` | apps/lina-core/pkg/configvaluetype/configvaluetype_options.go:185-213 | a Boolean is true or false, a number is not blank and parses without its blanks, a choice is the value of an option, and texts are free |
| `ConfigValues.ResolveCodeIff` | apps/lina-core/pkg/configvaluetype/configvaluetype_options.go:158-168 | a type name resolves to exactly the type it names, blanks aside; blank means text |
| `ConfigValues.MultiSelectAcceptsParts` | apps/lina-core/pkg/configvaluetype/configvaluetype_options.go:201-210 | a multi-select value is accepted exactly when its normal form is, and exactly when every non-blank trimmed part is an option value |
| `ConfigValues.OptionSelectableIff` | apps/lina-core/pkg/configvaluetype/configvaluetype_options.go:201-210 | some accepted multi-select value chooses a listed option exactly when the option value is non-blank, trimmed and free of the separator |
| `ConfigValues.ParsedOptionSelectableIff` | apps/lina-core/pkg/configvaluetype/configvaluetype_options.go:30-210 | of the options the parser accepts, exactly those with the separator in their value can never be chosen |
| `ConfigValues.UnselectableOption` | apps/lina-core/pkg/configvaluetype/configvaluetype_options.go:30-210 | the text a;b parses as one option that no multi-select value can choose |
| `Sorting.SortForgetsOrder` | apps/lina-core/pkg/i18nresource/i18nresource_catalog.go:94-101 | sorting with a strict total order forgets the enumeration order |
| `CatalogFlatten.KeyLessIsStrictTotalOrder` | apps/lina-core/pkg/i18nresource/i18nresource_catalog.go:94-101 | the comparator is a strict total order on raw keys |
| `CatalogFlatten.FlattenCatalogValue` | apps/lina-core/pkg/i18nresource/i18nresource_catalog.go:84-126 | for every map enumeration the traversal computes one function of the value |
| `CatalogFlatten.FlattenWritesLeaves` | apps/lina-core/pkg/i18nresource/i18nresource_catalog.go:84-126 | it writes the leaves in traversal order and fails exactly when a rejected leaf exists |
| `CatalogFlatten.WriteLooksUpLast` | apps/lina-core/pkg/i18nresource/i18nresource_catalog.go:112-123 | the last leaf of each path wins |
| `CatalogFlatten.DecidingKey` | apps/lina-core/pkg/i18nresource/i18nresource_catalog.go:94-111 | whatever keys of an object collide on a path, one outranks all others (longest trimmed key, then greatest raw key) and the value is the one below it |
| `CatalogFlatten.OutrankingKeyWins` | apps/lina-core/pkg/i18nresource/i18nresource_catalog.go:94-111 | conversely, a key that outranks every other key giving the path decides it |
| `CatalogFlatten.GreatestRawKeyWins` | apps/lina-core/pkg/i18nresource/i18nresource_catalog.go:94-111 | in any object, a key that carries a value itself beats every nested spelling of its path, and among keys equal after trimming the greatest raw key decides |
| `CatalogFlatten.FlattenIsNormal` | apps/lina-core/pkg/i18nresource/i18nresource_catalog.go:84-126 | every key produced is non-empty and already trimmed |
| `CatalogLoader.MergeCatalog` | apps/lina-core/pkg/i18nresource/i18nresource_catalog.go:129-137 | the merge loop, keys in any order, equals merging in that order |
| `CatalogLoader.NormalMerge` | apps/lina-core/pkg/i18nresource/i18nresource_catalog.go:129-137 | for trimmed keys every order gives the right-biased union |
| `CatalogLoader.MergeOrderIff` | apps/lina-core/pkg/i18nresource/i18nresource_catalog.go:129-137 | a merge is order-independent exactly when no two keys that trim to one key differ in value |
| `CatalogLoader.FilterCatalog` | apps/lina-core/pkg/i18nresource/i18nresource_catalog.go:56-81 | keeps every accepted trimmed key and nothing else; on trimmed keys exactly the restriction |
| `CatalogLoader.FilteredIff` | apps/lina-core/pkg/i18nresource/i18nresource_catalog.go:56-81 | an entry is kept exactly when the key filter and, for a named plugin under restricted scope, its namespace accept it, with its value |
| `CatalogLoader.SanitizedIsWord` | apps/lina-core/pkg/i18nresource/i18nresource_catalog.go:38-48 | sanitized parts are non-empty words over letters, digits and underscores without outer underscores |
| `CatalogLoader.SanitizeFixesWords` | apps/lina-core/pkg/i18nresource/i18nresource_catalog.go:38-48 | sanitizing is idempotent and fixes exactly the words |
| `CatalogLoader.SanitizeKeepsWords` | apps/lina-core/pkg/i18nresource/i18nresource_catalog.go:38-48 | sanitizing keeps the words of ASCII letters and digits, in order and apart; a part without any becomes empty |
| `CatalogLoader.KeyNamesPlugin` | apps/lina-core/pkg/i18nresource/i18nresource_catalog.go:61-64 | a key that starts with plugins, a word and a dot lies in the namespace of exactly the plugins whose sanitized ID is that word |
| `CatalogLoader.NamespacesOverlapIff` | apps/lina-core/pkg/i18nresource/i18nresource_catalog.go:61-64 | two plugin namespaces share a key exactly when the sanitized IDs are equal |
| `CatalogLoader.ValidNamespacesDisjoint` | apps/lina-core/internal/service/plugin/internal/plugintypes/plugintypes_version.go:22-72 | for the plugin IDs manifests admit, sanitizing loses nothing: namespaces share a key exactly when the IDs are equal |
| `CatalogLoader.RestrictedBundlesDisjoint` | apps/lina-core/pkg/i18nresource/i18nresource_catalog.go:61-73 | under restricted scope plugins with different sanitized IDs never contribute the same key |
| `CatalogLoader.RunParseCatalog` | apps/lina-core/pkg/i18nresource/i18nresource_catalog.go:21-35 | parsing of one content, empty and undecodable contents included |
| `CatalogLoader.ParseFailsIff` | apps/lina-core/pkg/i18nresource/i18nresource_catalog.go:21-35 | parsing fails exactly on a non-empty content that is no JSON object or has a leaf the strict mode rejects; otherwise it writes the leaves of the object |
| `CatalogLoader.LoadFilesystemBundle` | apps/lina-core/pkg/i18nresource/i18nresource_loader.go:125-144 | the file pipeline over given contents, unparsable files contributing nothing |
| `CatalogLoader.SourcePluginBundle` | apps/lina-core/pkg/i18nresource/i18nresource_loader.go:38-44 | the bundle of one source plugin |
| `CatalogLoader.LoadAssets` | apps/lina-core/pkg/i18nresource/i18nresource_loader.go:57-68 | the asset loop: other locales, blank and unparsable contents skipped |
| `CatalogLoader.DynamicPluginBundle` | apps/lina-core/pkg/i18nresource/i18nresource_loader.go:57-69 | the bundle of one dynamic plugin release |
| `CatalogLoader.PipelinesAgree` | apps/lina-core/pkg/i18nresource/i18nresource_loader.go:38-144 | the same contents in the same order give a source plugin and a dynamic plugin the same bundle |
| `CatalogBundles.LoadDynamicPluginBundles` | apps/lina-core/pkg/i18nresource/i18nresource_loader.go:48-75 | the loop over releases, blank IDs skipped, empty bundles not stored, later ones replacing earlier ones |
| `CatalogBundles.LoadSortedPluginBundles` | apps/lina-core/pkg/i18nresource/i18nresource_loader.go:38-45 | the loop over source plugins in whatever order sorting left them |
| `CatalogBundles.StoredIdsAreSolid` | apps/lina-core/pkg/i18nresource/i18nresource_loader.go:35-75 | nothing is stored under an ID that is blank or has blanks around it |
| `CatalogBundles.StoresEqualIff` | apps/lina-core/pkg/i18nresource/i18nresource_loader.go:35-75 | a later bundle of the same ID replaces an earlier one: two loads agree exactly when every ID has the same last non-empty bundle |
| `CatalogBundles.StoreHoldsMembers` | apps/lina-core/pkg/i18nresource/i18nresource_loader.go:41-43 | without conflicts exactly the non-empty bundles are stored |
| `CatalogBundles.StoreForgetsOrder` | apps/lina-core/pkg/i18nresource/i18nresource_loader.go:35-45 | and the order of the plugins does not matter |
| `CatalogBundles.LoadersAgree` | apps/lina-core/pkg/i18nresource/i18nresource_loader.go:20-75 | source plugins registered in any order and the same contents released dynamically give the same bundles when no two plugins sharing a trimmed ID bring different non-empty bundles |
| `CatalogBundles.LoadersAgreeInEveryOrderIff` | apps/lina-core/pkg/i18nresource/i18nresource_loader.go:20-75 | and only then do they agree in every order |
| `CatalogBundles.DistinctIsCompatible` | apps/lina-core/pkg/plugin/pluginhost/pluginhost_registry.go:33-38 | distinct trimmed IDs, as the registry and the ID pattern ensure, leave nothing to conflict |
| `CatalogBundles.LoadersAgreeIff` | apps/lina-core/pkg/i18nresource/i18nresource_loader.go:35-75 | in the raw-ID order the source loader sorts into, the loaders agree exactly when under every trimmed ID the plugin of greatest raw ID with a non-empty bundle brings what the last such release brings |
| `Dependencies.BuildPluginMap` | apps/lina-core/internal/service/plugin/internal/dependency/dependency_resolver.go:409-423 | snapshots by trimmed ID: nil and blank ones skipped, later ones winning |
| `Dependencies.PluginMapHoldsLast` | apps/lina-core/internal/service/plugin/internal/dependency/dependency_resolver.go:409-423 | a plugin is known exactly when a snapshot names it, and the last such snapshot counts, its version trimmed |
| `Dependencies.Walker.WalkDependencies` | apps/lina-core/internal/service/plugin/internal/dependency/dependency_resolver.go:266-333 | the recursive walk over shared maps, cycle test included, equals its specification and restores the set of plugins being visited |
| `Dependencies.CheckInstall` | apps/lina-core/internal/service/plugin/internal/dependency/dependency_resolver.go:15-58 | the whole check equals its specification; what it reports is stated by the rows below |
| `Dependencies.NoBlockerIff` | apps/lina-core/internal/service/plugin/internal/dependency/dependency_resolver.go:15-58 | no blocker is reported exactly when the target is known, the framework is in its range, and every dependency declared by anything it reaches is discovered, installed, enabled if that is asked for, and in range, and none leads back to itself |
| `Dependencies.ReportsAreReal` | apps/lina-core/internal/service/plugin/internal/dependency/dependency_resolver.go:266-407 | every blocker reported is real, its status meaning what it says, with a chain of fulfilled dependencies from the target; a reported cycle is a reachable cycle, the last one reported is the result's, and no plugin is visited otherwise |
| `Dependencies.StatusIff` | apps/lina-core/internal/service/plugin/internal/dependency/dependency_resolver.go:336-380 | a dependency gets exactly the status that holds of it: missing when unknown or in range and not installed, out of range, not enabled though that is asked for, or satisfied |
| `Dependencies.ReportIsComplete` | apps/lina-core/internal/service/plugin/internal/dependency/dependency_resolver.go:15-333 | every plugin reached through fulfilled dependencies is visited once, each of its dependencies is fulfilled or reported, an unfit framework is reported, and without a reported cycle there is none along fulfilled dependencies |
| `Dependencies.NothingIsReportedTwice` | apps/lina-core/internal/service/plugin/internal/dependency/dependency_resolver.go:266-407 | where no plugin declares two dependencies on one plugin, as manifests ensure, no dependency is reported twice |
| `CommandLine.SplitBuildCommandLine` | hack/tools/linactl/command_build.go:463-496 | the character loop equals its scanner, whose fields PiecesSplit and AcceptedIsPieces characterise |
| `CommandLine.FailsIffQuoteOpen` | hack/tools/linactl/command_build.go:489-491 | it fails exactly when a quote is left open |
| `CommandLine.NoFieldIsEmpty` | hack/tools/linactl/command_build.go:463-496 | no field is empty |
| `CommandLine.SplitConcat` | hack/tools/linactl/command_build.go:463-496 | two texts joined by a blank split into both splits when the first closes its quotes |
| `CommandLine.RenderedSplits` | hack/tools/linactl/command_build.go:463-496 | non-empty fields without single quotes survive single-quoted rendering |
| `CommandLine.PlainWordSplits` | hack/tools/linactl/command_build.go:480-487 | a word without blanks and quotes is one field, as it stands |
| `CommandLine.PiecesSplit` | hack/tools/linactl/command_build.go:463-496 | every line written in plain text, single quotes, double quotes and blanks splits into the texts of its pieces, glued where no blank separates them, empty fields left out |
| `CommandLine.AcceptedIsPieces` | hack/tools/linactl/command_build.go:463-496 | and every accepted line is written so |
| `CommandLine.FieldsComeBack` | hack/tools/linactl/command_build.go:463-496 | fields glued from plain, single-quoted and double-quoted pieces in any mixture come back as their texts |
| `ETag.TagShape` | apps/lina-core/internal/controller/i18n/i18n_v1_runtime_messages.go:81-87 | a fingerprint that is not blank has a validator: locale, version and fingerprint without its blanks, hyphens between and quotes around; a blank one has none |
| `ETag.ETagIdentifiesBundle` | apps/lina-core/internal/controller/i18n/i18n_v1_runtime_messages.go:81-87 | equal validators mean equal locale, version and fingerprint; only the fingerprint must be free of hyphens, as hexadecimal digests are |
| `ETag.MatchesIfNoneMatch` | apps/lina-core/internal/controller/i18n/i18n_v1_runtime_messages.go:92-110 | the early-exit loop equals list membership on the trimmed header |
| `ETag.MatchIsListMembership` | apps/lina-core/internal/controller/i18n/i18n_v1_runtime_messages.go:92-110 | the header matches exactly when one element, blanks aside, is the wildcard or the validator |
| `ETag.MatchesIffElement` | apps/lina-core/internal/controller/i18n/i18n_v1_runtime_messages.go:92-110 | stated without the loop: some comma-separated element is, blanks aside, the wildcard or the validator |
| `ETag.ListHeaderMatches` | apps/lina-core/internal/controller/i18n/i18n_v1_runtime_messages.go:92-110 | every list of comma-free elements is matched element by element |
| `ETag.EchoMatchesIff` | apps/lina-core/internal/controller/i18n/i18n_v1_runtime_messages.go:81-110 | for arbitrary texts, an echoed validator matches exactly when it holds no comma, or a bare * between its commas |
| `ETag.RevalidatesIffHeld` | apps/lina-core/internal/controller/i18n/i18n_v1_runtime_messages.go:81-110 | for canonical locales and hexadecimal fingerprints: a header that lists the validators a client holds, with any blanks, matches exactly when the current revision is one of them |
| `ETag.JoinedTagsEcho` | apps/lina-core/internal/controller/i18n/i18n_v1_runtime_messages.go:81-110 | validators joined by commas make such a header |
| `ETag.NotModifiedIff` | apps/lina-core/internal/controller/i18n/i18n_v1_runtime_messages.go:36-87 | short of a hash collision, one bundle's validator matches another's exactly when normalized locale, version and messages are the same |
| `ETag.ExactIsWeakIff` | apps/lina-core/internal/controller/i18n/i18n_v1_runtime_messages.go:92-110 | exact comparison and the weak one of RFC 9110 section 13.1.2 disagree exactly on headers that match nothing but weak forms of the validator |
| `ETag.WeakenedValidatorMisses` | apps/lina-core/internal/controller/i18n/i18n_v1_runtime_messages.go:92-110 | a weakened validator is such a header |
| `Locales.RunNormalizeLocale` | apps/lina-core/internal/service/i18n/i18n.go:151-179 | the loop that rewrites the segments in place, with its early exits |
| `Locales.NormalizedIsCanonical` | apps/lina-core/internal/service/i18n/i18n.go:151-203 | a normalized locale is empty or hyphenated words over ASCII letters and digits: the first without capitals, later ones titled at four characters, all capitals at two or three, without capitals otherwise |
| `Locales.NormalizeFixesIff` | apps/lina-core/internal/service/i18n/i18n.go:151-179 | normalizing is idempotent and changes nothing exactly on the canonical codes |
| `Locales.NormalizingKeepsLetters` | apps/lina-core/internal/service/i18n/i18n.go:151-203 | a text is no locale exactly when it is blank or some segment is blank or no word; otherwise only case, underscores and blanks around segments change |
| `Fingerprint.RuntimeBundleFingerprint` | apps/lina-core/internal/service/i18n/i18n_cache_fingerprint.go:22-48 | for every map enumeration the fingerprint is one function of the catalog |
| `Fingerprint.DigestedTextIsInjective` | apps/lina-core/internal/service/i18n/i18n_cache_fingerprint.go:30-48 | different catalogs are digested from different texts: the byte lengths keep adjacent keys and values apart |
| `Fingerprint.FingerprintIdentifies` | apps/lina-core/internal/service/i18n/i18n_cache_fingerprint.go:19-39 | short of a hash collision, equal fingerprints mean equal catalogs |
| `Fingerprint.HexIsInjective` | apps/lina-core/internal/service/i18n/i18n_cache_fingerprint.go:19-39 | the hexadecimal spelling tells different bytes apart |

## Left out

- Upgrade.Fetch: one flag covers a failing download; that a ref names a commit holds by the type of the model's refs, so annotated tag objects are not told apart from their commits.
- Upgrade.UntouchedByAnyRun: for branch, nested repository and stash it rests on the choice of commands, not on what they compute.
- GitModel.Resolve: the lookup order of gitrevisions(7) over refs; abbreviated object names and packed refs are not part of this model.
- Fingerprint.FingerprintIdentifies: SHA-256 is a parameter; that it does not collide on the two texts is assumed.
- ETag.NotModifiedIff: which supported locale a request resolves to, and the cache the version comes from, are not part of this model.
- GitModel.Merge: a conflicted path always has a marked file on disk; empty directories are not modelled; options that forbid fast-forwards or recurse into submodules are not set by the tool and not modelled.
- GitModel.Rules: ignore files that are themselves untracked count as part of the fixed rules of a tree.
- Upgrade.PreservePlugins: what somebody else does to the nested repository during a run is one flag of the environment and not part of the end state.
- MenuRoutes.ConvertToRouteItems: reads the tree as a value, since the conversion does not change it; aliasing between tree nodes is covered where the tree is built.
- RoutePaths.AddressesAreListedPaths: how a router joins paths is taken to be how the landing-page search joins them; the router itself is not part of this model, and link menus are routed at their slugs instead.
- MenuRoutes.FlatRoute: the JSON decoding of query_param is not part of this model; rows carry the decoded pairs.
- CatalogLoader.SourcePluginBundle: works on the contents of the plugin's files in path order; directory walking and reading are not part of this model.
- Template.Format: parameter values are their printed texts; fmt.Sprint is not part of this model.
- ConfigOptions.OptionsRoundTripIff: assumes of the JSON decoder only that a JSON text is longer than the same options in the line format.
- CatalogBundles.LoadSortedPluginBundles: the sort itself is covered by quantifying over the order of the plugins.
- Dependencies.Check: the list of edge checks, the display fields, the final sort of the report and the choice between a snapshot's own and its manifest's dependencies are not part of this model; semantic version ranges are a parameter, and dependencies come in whatever order sorting left them.
- The reverse dependency check, a filter over an index.
- The super-administrator tree of the menu service, which shows orphans as roots.
- MessageKey, EncodeOptions, and the JSON branch of the option parser beyond normalizing its result.
- expandBuildVariables: its eight-round cap and map order make it not confluent.
- The request handlers around the ETag functions, including the race between bundle and revision.
- Terminal output, error texts, logging, database access and generated code.
