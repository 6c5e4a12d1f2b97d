# Upward module search, modelled in Dafny

This project models `src/search-module.ts`, a small library that looks for
things by walking from a directory up through its ancestors:

- `shouldContinueSearch`: the stop predicate. It has three modes with a
  fixed precedence: a `rootPath` boundary, the package.json test, or always
  continue.
- `traverseAncestorDirectories`: a loop that starts at the resolved `cwd`
  and moves to `dirname` one step at a time. At each directory it tests one
  generated candidate path for existence and collects the hits. It stops on
  the stop predicate, at the filesystem root, or at an optional result cap.
- `searchForModule` and `searchForNodeModules`: walks in package.json mode,
  looking for `<d>/node_modules/<name>` and `<d>/node_modules`.
- `getProjectRootPath`: three lockfile walks, each capped at one hit, for
  `yarn.lock`, `package-lock.json` and `pnpm-lock.yaml`. It picks the found
  directory whose rendered path is longest. The earlier lockfile wins ties.
  If nothing is found it returns the caller's `cwd` unchanged.

How the model represents these:

- A path is the list of its segments (`Paths.Path = seq<string>`). The root
  "/" is the empty list. `dirname` drops the last segment, and the root is
  its own parent.
- The filesystem is the set `existing` of paths for which `fs.pathExists`
  answers true.
- `path.resolve` is a function parameter `resolve`.
- A path generator is a function value. The three used by the library are
  `Paths.JoinWith(segments)`.

The two loops are imperative methods:

- `AncestorWalk.TraverseAncestorDirectories` is the `while` loop. It is
  proved equal to `AncestorWalk.Results`, a function that takes one loop
  iteration per call (`VisitFrom`).
- `SearchModule.SelectLockDir` is the `for` loop of `getProjectRootPath`. It
  is proved equal to `SearchModule.Longest` over the directories the lockfile
  searches find.

The properties of the library are lemmas about these functions.

Files:

- `wrappers.dfy`: `Option`.
- `paths.dfy`: paths, `dirname`, `join`, the ancestor chain, rendered length.
- `walk.dfy`: the stop predicate and the walk.
- `search_module.dfy`: the three exported searches.
- `scenarios.dfy`: concrete walks over small directory trees.

Two behaviours of the code are worth stating outright:

- **package.json mode.** In package.json mode the walk continues *while* the
  current directory holds `package.json` (line 8). The first directory
  without one ends the walk, unprocessed. Without a `rootPath`,
  `searchForModule` and `searchForNodeModules` therefore find nothing from a
  directory that has no `package.json` of its own.
  - `AncestorWalk.PackageJsonMode` states the behaviour in general.
  - `Scenarios.NodeModulesNeedPackageJsonOnTheWay` and
    `Scenarios.ModuleSearchStartsOutsidePackage` show it on small trees: a
    start directory `/a/b/c` without `package.json` processes nothing, so
    both results are empty.
- **Iteration count.** The root itself is processed, so a walk processes at
  most depth + 1 directories (`AncestorWalk.VisitedAreNearestAncestors`).

## Model

| member | source | states |
|---|---|---|
| Paths.Dirname | src/search-module.ts:32 | definition of `path.dirname`: drop the last segment; the root is its own parent (stated by `Paths.DirnameIsParent`) |
| Paths.Join | src/search-module.ts:8 | definition of `path.join` of a directory and further segments: the segments appended (`Paths.DirnameOfJoin` recovers the directory) |
| Paths.JoinWith | src/search-module.ts:55 | definition of the path generators of lines 55, 66 and 79: a directory joined with fixed segments |
| Paths.Render | src/search-module.ts:82-83 | the string form of a directory: "/" for the root, "/a/b" otherwise; it always starts with "/" |
| Paths.Len | src/search-module.ts:83 | definition of `lockDir.length` as the length of the rendered path (its growth is stated by `Paths.LenOfChild` and `Paths.DeeperIsLonger`) |
| Paths.Ancestors | src/search-module.ts:32-36 | the chain a walk meets has one entry per segment plus the root, and starts at the start directory |
| Paths.AncestorsAt | src/search-module.ts:32-36 | the i-th directory of the chain is the start with its last i segments dropped |
| Paths.DirnameIsParent | src/search-module.ts:32-33 | `dirname(p) == p` exactly at the root; elsewhere `dirname` drops exactly the last segment |
| Paths.DirnameOfJoin | src/search-module.ts:79-82 | the directory of a found lockfile path is the directory the lockfile name was joined to |
| Paths.LenOfChild | src/search-module.ts:83 | one more segment adds a separator and the segment to the rendered length ("/" renders as length 1) |
| Paths.DeeperIsLonger | src/search-module.ts:83 | a strictly deeper directory with non-empty extra segments renders strictly longer |
| AncestorWalk.ShouldContinueSearch | src/search-module.ts:4-12 | definition of the stop predicate: a `rootPath` first, then the package.json test, then always continue; the precedence on whole walks is stated by `AncestorWalk.BoundaryStopsAtParentOfRoot` (whatever `stopAtPackageJSON` is), `AncestorWalk.PackageJsonMode` and `AncestorWalk.UnrestrictedReachesRoot` |
| AncestorWalk.RootPathTakesPrecedence | src/search-module.ts:5-6 | the first case of the predicate, unfolded: with a `rootPath`, it ignores `stopAtPackageJSON` and the filesystem, and continues exactly when the directory is not `dirname(rootPath)`; the walk-level statement is `AncestorWalk.BoundaryStopsAtParentOfRoot` |
| AncestorWalk.PackageJsonContinuesWhilePresent | src/search-module.ts:7-8 | the second case of the predicate, unfolded: with no `rootPath` and `stopAtPackageJSON`, it holds if and only if the directory contains `package.json`; the walk-level statement is `AncestorWalk.PackageJsonMode` |
| AncestorWalk.NoOptionAlwaysContinues | src/search-module.ts:9-11 | the last case of the predicate, unfolded: with neither option it always holds; the walk-level statement is `AncestorWalk.UnrestrictedReachesRoot` |
| AncestorWalk.Capped | src/search-module.ts:33 | definition of `maxItems && paths.length >= maxItems`: an absent or zero cap never stops the walk (consequences in `AncestorWalk.ResultCap` and `AncestorWalk.NegativeCapProcessesOneDirectory`) |
| AncestorWalk.Probe | src/search-module.ts:27-30 | definition of one probe: the generated path when it exists, nothing otherwise |
| AncestorWalk.Hits | src/search-module.ts:27-30 | no more results than processed directories |
| AncestorWalk.HitsExactlyExisting | src/search-module.ts:27-30 | every kept path exists and was generated from a processed directory; every existing generated path is kept |
| AncestorWalk.HitsInclude | src/search-module.ts:28-29 | an existing generated path of a processed directory is in the results |
| AncestorWalk.HitsAppend | src/search-module.ts:28-29 | results of directories processed earlier come before those of later ones |
| AncestorWalk.VisitFrom | src/search-module.ts:26-37 | reference definition, one loop iteration per call: a directory failing the stop predicate ends the walk unprocessed; the root or a reached cap ends it after processing; otherwise the walk moves to the parent (properties in the `VisitFrom…` lemmas below) |
| AncestorWalk.Visited | src/search-module.ts:24-37 | reference definition of the directories a walk from the resolved start processes, in order (properties in the `Visited…` lemmas below) |
| AncestorWalk.Results | src/search-module.ts:23-39 | reference definition of the returned list: the hits of the processed directories, in order; the loop is proved equal to it |
| AncestorWalk.TraverseAncestorDirectories | src/search-module.ts:16-40 | the loop returns exactly `Results` of its arguments: one probe per processed directory, in order |
| AncestorWalk.VisitFromShape | src/search-module.ts:26-37 | from any iteration on, the directories processed are a prefix of the remaining ancestor chain |
| AncestorWalk.VisitFromContinues | src/search-module.ts:26 | every directory processed from an iteration on passed the stop predicate |
| AncestorWalk.VisitFromStopReason | src/search-module.ts:26-35 | an iteration sequence that ends before the root ends on a failing stop predicate or a reached cap |
| AncestorWalk.VisitFromCapOnlyAtEnd | src/search-module.ts:33-34 | no proper prefix of the processed directories already reaches the cap |
| AncestorWalk.VisitFromCapBound | src/search-module.ts:33 | a positive cap not yet reached is never exceeded |
| AncestorWalk.VisitedAreNearestAncestors | src/search-module.ts:24-36 | the walk processes at most depth + 1 directories, a prefix of the ancestor chain, nearest first, each strictly shorter than the last (no revisits) |
| AncestorWalk.VisitedIsAncestorPrefix | src/search-module.ts:24-36 | the processed directories are a prefix of the ancestor chain |
| AncestorWalk.VisitedPassStopPredicate | src/search-module.ts:26 | no directory is processed that the stop predicate rejects |
| AncestorWalk.WalkEndsForAReason | src/search-module.ts:26-35 | a walk that ends before the root ends because the next ancestor fails the stop predicate, or because the cap was reached |
| AncestorWalk.CapReachedOnlyAtEnd | src/search-module.ts:33-34 | the walk stops right after the directory whose hit reaches the cap, not later and not earlier |
| AncestorWalk.ResultsSound | src/search-module.ts:24-30 | every result exists and is the generated path of an ancestor of the resolved start |
| AncestorWalk.ResultCap | src/search-module.ts:33 | a positive `maxItems` bounds the number of results |
| AncestorWalk.NegativeCapProcessesOneDirectory | src/search-module.ts:33 | a negative `maxItems` is truthy and always reached, so at most one directory is processed |
| AncestorWalk.UnrestrictedReachesRoot | src/search-module.ts:9-11 | with no stop option and no cap the walk processes the whole chain, the root included |
| AncestorWalk.BoundaryStopsAtParentOfRoot | src/search-module.ts:5-6 | with a `rootPath` whose parent is on the chain, the walk processes exactly the directories below `dirname(rootPath)` |
| AncestorWalk.BoundaryFrom | src/search-module.ts:5-6 | the same, from any iteration on |
| AncestorWalk.BoundaryProcessesRootPath | src/search-module.ts:6 | a `rootPath` other than "/" on the chain is itself processed, as the last directory |
| AncestorWalk.BoundaryAtFilesystemRoot | src/search-module.ts:6 | with `rootPath` "/", the root is never processed |
| AncestorWalk.BoundaryOffTheChain | src/search-module.ts:6 | a `rootPath` whose parent is not on the chain never stops the walk |
| AncestorWalk.PackageJsonMode | src/search-module.ts:7-8 | in package.json mode the walk processes exactly the longest run of ancestors from the start that each contain `package.json`; the first one without ends the walk unprocessed |
| SearchModule.ModuleQuery | src/search-module.ts:55-56 | definition of `searchForModule`'s walk: generator `<d>/node_modules/<moduleName>`, the caller's `rootPath`, no cap, package.json mode |
| SearchModule.NodeModulesQuery | src/search-module.ts:66-67 | definition of `searchForNodeModules`'s walk: generator `<d>/node_modules`, the caller's `rootPath`, no cap, package.json mode |
| SearchModule.LockfileQuery | src/search-module.ts:79-80 | definition of one lockfile walk: generator `<d>/<lockFilename>`, no `rootPath`, cap 1, package.json test off |
| SearchModule.SearchForModule | src/search-module.ts:50-57 | the module instances found all exist, are `<d>/node_modules/<moduleName>` for ancestors `d` of the resolved `cwd`, and come nearest first |
| SearchModule.SearchForNodeModules | src/search-module.ts:65-68 | the same for bare `node_modules` directories |
| SearchModule.JoinedResults | src/search-module.ts:55-56 | a walk whose generator joins a fixed suffix returns existing `<ancestor>/<suffix>` paths, nearest first |
| SearchModule.JoinedFromPrefix | src/search-module.ts:55 | paths joined from a prefix of the chain are joined from the chain |
| SearchModule.JoinHitsDescending | src/search-module.ts:27-30 | joining a suffix keeps the strictly decreasing depth of the processed directories |
| SearchModule.ModuleSearchFindsPackageRun | src/search-module.ts:56 | completeness in package.json mode: a module at an ancestor is found when it and everything below it on the way contain `package.json` |
| SearchModule.NodeModulesSearchFindsUpToRoot | src/search-module.ts:67 | completeness in boundary mode: a `node_modules` at any ancestor up to and including `rootPath` is found |
| SearchModule.NearestWith | src/search-module.ts:80-82 | reference definition of the directory one capped lockfile search finds: the first directory of the chain holding the file (stated by `SearchModule.NearestWithIsNearest` and `SearchModule.LockPathsGiveNearest`) |
| SearchModule.LockDirs | src/search-module.ts:78-82 | reference definition of the directories the lockfile searches find, one per name, in order |
| SearchModule.LenOf | src/search-module.ts:83 | definition of `projectRootPath.length`, with no directory yet standing for the initial `''` of length 0 |
| SearchModule.LongerOf | src/search-module.ts:83-85 | definition of one selection step: the candidate replaces the best only when strictly longer |
| SearchModule.Longest | src/search-module.ts:77-87 | reference definition of the selection over the found directories (stated by `SearchModule.LongestIsLongest`) |
| SearchModule.FoundLockDirs | src/search-module.ts:78-82 | the three lockfile searches from the resolved `cwd`, in the order `yarn.lock`, `package-lock.json`, `pnpm-lock.yaml` |
| SearchModule.ProjectRoot | src/search-module.ts:76-90 | reference definition of what `getProjectRootPath` returns: the selected directory, or `cwd` when none (line 89: an empty `projectRootPath` is falsy, so `cwd` comes back); stated by `SearchModule.ProjectRootFallback`, `SearchModule.ProjectRootHoldsLockfile` and `SearchModule.ProjectRootIsLongestLockDir` |
| SearchModule.NearestWithIsNearest | src/search-module.ts:80 | the nearest directory of the chain holding the file, or none exactly when no directory of the chain holds it |
| SearchModule.LongestIsLongest | src/search-module.ts:81-86 | nothing exactly when nothing was found; otherwise a found directory at least as long as every other, with all earlier candidates strictly shorter |
| SearchModule.GetProjectRootPath | src/search-module.ts:76-90 | returns `ProjectRoot`: the selected lockfile directory, or `cwd` itself |
| SearchModule.SelectLockDir | src/search-module.ts:77-87 | the selection loop returns `Longest` of the directories the lockfile searches find |
| SearchModule.LockPathsGiveNearest | src/search-module.ts:80-82 | one capped lockfile search yields a path exactly when some ancestor holds the lockfile, and its directory is the nearest such ancestor |
| SearchModule.LockDirsStep | src/search-module.ts:78 | unfolding step used by the loop invariant of `SearchModule.SelectLockDir`: one more lockfile name adds the directory its search finds |
| SearchModule.LongestStep | src/search-module.ts:83-85 | unfolding step used by the loop invariant of `SearchModule.SelectLockDir`: one more candidate is one step of the `>` selection |
| SearchModule.LockSearchFindsNearest | src/search-module.ts:80 | a search capped at one hit, with no stop option, returns exactly the lockfile of the nearest ancestor holding one, or nothing |
| SearchModule.LockSearchFrom | src/search-module.ts:80 | the same, from any iteration on |
| SearchModule.ProjectRootFallback | src/search-module.ts:89 | with no lockfile at any ancestor, the unresolved `cwd` is returned unchanged |
| SearchModule.ProjectRootHoldsLockfile | src/search-module.ts:81-89 | with some lockfile found, the result is an ancestor of the resolved `cwd` and the nearest holder of one of the three lockfiles |
| SearchModule.SelectedHoldsLockfile | src/search-module.ts:81-86 | the same for any list of lockfile names |
| SearchModule.NearestIsAncestor | src/search-module.ts:80-82 | a found lockfile directory is an ancestor of the start |
| SearchModule.ProjectRootIsNearestLockDir | src/search-module.ts:83 | when no segment is empty, every found lockfile directory is an ancestor of the result: longest is nearest to `cwd` |
| SearchModule.SelectedIsNearest | src/search-module.ts:83 | the same for any list of lockfile names |
| SearchModule.NoLongerAncestorIsDeeper | src/search-module.ts:83 | of two ancestors, the one that renders no shorter is at least as deep |
| SearchModule.ProjectRootIsLongestLockDir | src/search-module.ts:83-85 | the result renders at least as long as every found lockfile directory; all lockfiles tried before the one it came from gave strictly shorter directories |
| Scenarios.NodeModulesNeedPackageJsonOnTheWay | src/search-module.ts:65-67 | `/a/b/c` with only `/a/node_modules` and no package.json gives no result |
| Scenarios.ModuleSearchStartsOutsidePackage | src/search-module.ts:55-56 | package.json in `/a` and `/a/b` only: a search from `/a/b/c` processes no directory and returns nothing |
| Scenarios.NodeModulesWhilePackageJson | src/search-module.ts:65-67 | package.json down to `/a`: the `node_modules` of `/a/b` and `/a` are found, nearest first, and `/node_modules` is not |
| Scenarios.NodeModulesUpToRootPath | src/search-module.ts:65-67 | with `rootPath` `/a`, `/a/b/c/node_modules` and `/a/node_modules` are found and `/node_modules` is not |
| Scenarios.ScopedModuleFound | src/search-module.ts:55 | a scoped module name is two segments below `node_modules` |
| Scenarios.CapOfOneStopsAtFirstHit | src/search-module.ts:33 | a cap of one returns only the nearest hit |
| Scenarios.AppSourceChain | src/search-module.ts:32-36 | the ancestor chain of `/repo/packages/app/src` |
| Scenarios.MonorepoYarnLock | src/search-module.ts:80 | the nearest `yarn.lock` from `/repo/packages/app/src` is in `/repo` |
| Scenarios.MonorepoPackageLock | src/search-module.ts:80 | no `package-lock.json` is found |
| Scenarios.MonorepoPnpmLock | src/search-module.ts:80 | the nearest `pnpm-lock.yaml` is in `/repo/packages/app` |
| Scenarios.MonorepoLockDirs | src/search-module.ts:78-80 | the three searches find `/repo`, nothing and `/repo/packages/app` |
| Scenarios.MonorepoSelection | src/search-module.ts:81-86 | `/repo/packages/app` renders longer than `/repo` and replaces it |
| Scenarios.MonorepoInnerLockfileWins | src/search-module.ts:76-90 | the monorepo project root is `/repo/packages/app`, although `yarn.lock` is tried first |
| Scenarios.NoLockfileKeepsRelativeCwd | src/search-module.ts:89 | a relative `cwd` with no lockfile on its chain comes back as given, not resolved |

## Left out

- `fs.pathExists` is the set `existing`. A probe that fails with an I/O or permission error reads as absent, which is what the library does.
- `path.resolve` is the parameter `resolve`. The model does not check that it returns an absolute path.
- AncestorWalk.ShouldContinueSearch: a `rootPath` is taken as an absolute path, because a `Path` has no relative form. The code compares `rootPath` without resolving it. A relative `rootPath` such as `app` has `path.dirname` `.` (or another relative path), which no resolved directory equals, so in the code it never stops the walk, and the walk processes `/` as well. The model instead reads `app` as `/app` and stops before `/`. A relative `cwd` is modelled only through `resolve` and as the unchanged fallback of `getProjectRootPath`.
- `path.join` and `path.dirname` are list operations on segments. Windows drive letters, separator normalisation, `.` and `..` segments and trailing slashes are not modelled.
- A `rootPath` of `''` is falsy in the code, so it is modelled as an absent `rootPath`.
- `maxItems` is an optional integer. Fractional values and `NaN` are not modelled.
- The async/await machinery is left out. The awaits run one after another, so they are plain calls here, and concurrent calls share no state.
- String length (line 83) is `Paths.Len`, the length of the rendered POSIX path ("/" for the root, "/a/b" otherwise). It counts segment characters one for one and does not model UTF-16 code units.
- SearchModule.ProjectRootIsNearestLockDir: requires every segment of the resolved `cwd` to be non-empty. Without that, a shallower directory can render as long as a deeper one.
