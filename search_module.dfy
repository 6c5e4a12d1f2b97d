/**
 * The three exported searches of src/search-module.ts, each a configuration of
 * the upward walk: `searchForModule`, `searchForNodeModules` and
 * `getProjectRootPath`.
 */
module SearchModule {
  import opened Wrappers
  import opened Paths
  import opened AncestorWalk

  const NodeModules: string := "node_modules"

  /** The lockfiles `getProjectRootPath` looks for, in the order it tries them. */
  const LockFilenames: seq<string> := ["yarn.lock", "package-lock.json", "pnpm-lock.yaml"]

  /** `searchForModule`'s walk: `<dir>/node_modules/<moduleName>`, package.json mode, no cap. */
  function ModuleQuery(moduleName: seq<string>, rootPath: Option<Path>): Query
  {
    Query(JoinWith([NodeModules] + moduleName), rootPath, None, true)
  }

  /** `searchForNodeModules`'s walk: `<dir>/node_modules`, package.json mode, no cap. */
  function NodeModulesQuery(rootPath: Option<Path>): Query
  {
    Query(JoinWith([NodeModules]), rootPath, None, true)
  }

  /** One lockfile search of `getProjectRootPath`: `<dir>/<lockFilename>`, no stop option, cap 1. */
  function LockfileQuery(lockFilename: string): Query
  {
    Query(JoinWith([lockFilename]), None, Some(1), false)
  }

  // ---------------------------------------------------------------------------
  // searchForModule and searchForNodeModules

  /** `p` is `dirs[i] + suffix` for some directory of `dirs`. */
  predicate JoinedAt(p: Path, dirs: seq<Path>, suffix: seq<string>)
  {
    exists i :: 0 <= i < |dirs| && p == dirs[i] + suffix
  }

  /** Every path of `r` is `dirs[i] + suffix` for some directory of `dirs`. */
  predicate JoinedFrom(r: seq<Path>, dirs: seq<Path>, suffix: seq<string>)
  {
    forall k :: 0 <= k < |r| ==> JoinedAt(r[k], dirs, suffix)
  }

  /** Each path of the list is strictly shorter than the one before it: nearest first, no repeats. */
  predicate StrictlyShortening(s: seq<Path>)
  {
    forall i, j :: 0 <= i < j < |s| ==> |s[j]| < |s[i]|
  }

  /**
   * Every instance of the module found on the way up: each exists, is
   * `<d>/node_modules/<moduleName>` for an ancestor `d` of the resolved `cwd`,
   * and they come nearest first, without repeats.
   */
  method SearchForModule(cwd: Path, moduleName: seq<string>, rootPath: Option<Path>,
                         existing: set<Path>, resolve: Path -> Path)
    returns (r: seq<Path>)
    ensures r == Results(ModuleQuery(moduleName, rootPath), existing, resolve(cwd))
    ensures forall p :: p in r ==> p in existing
    ensures JoinedFrom(r, Ancestors(resolve(cwd)), [NodeModules] + moduleName)
    ensures StrictlyShortening(r)
  {
    var pathGenerator := JoinWith([NodeModules] + moduleName);
    r := TraverseAncestorDirectories(cwd, pathGenerator, rootPath, None, true, existing, resolve);
    JoinedResults([NodeModules] + moduleName, rootPath, None, true, existing, resolve(cwd));
  }

  /** Every `node_modules` directory found on the way up, with the same guarantees. */
  method SearchForNodeModules(cwd: Path, rootPath: Option<Path>, existing: set<Path>, resolve: Path -> Path)
    returns (r: seq<Path>)
    ensures r == Results(NodeModulesQuery(rootPath), existing, resolve(cwd))
    ensures forall p :: p in r ==> p in existing
    ensures JoinedFrom(r, Ancestors(resolve(cwd)), [NodeModules])
    ensures StrictlyShortening(r)
  {
    var pathGenerator := JoinWith([NodeModules]);
    r := TraverseAncestorDirectories(cwd, pathGenerator, rootPath, None, true, existing, resolve);
    JoinedResults([NodeModules], rootPath, None, true, existing, resolve(cwd));
  }

  /** The results of a walk whose generator joins a fixed suffix to the directory. */
  lemma JoinedResults(suffix: seq<string>, rootPath: Option<Path>, maxItems: Option<int>, stop: bool,
                      existing: set<Path>, start: Path)
    ensures forall p :: p in Results(Query(JoinWith(suffix), rootPath, maxItems, stop), existing, start) ==> p in existing
    ensures JoinedFrom(Results(Query(JoinWith(suffix), rootPath, maxItems, stop), existing, start), Ancestors(start), suffix)
    ensures StrictlyShortening(Results(Query(JoinWith(suffix), rootPath, maxItems, stop), existing, start))
  {
    var q := Query(JoinWith(suffix), rootPath, maxItems, stop);
    var v := Visited(q, existing, start);
    VisitedAreNearestAncestors(q, existing, start);
    HitsExactlyExisting(q.generate, existing, v);
    JoinHitsDescending(suffix, existing, v);
    JoinedFromPrefix(Hits(q.generate, existing, v), v, Ancestors(start), suffix);
  }

  /** Joined from a prefix of a chain is joined from the chain. */
  lemma JoinedFromPrefix(r: seq<Path>, dirs: seq<Path>, chain: seq<Path>, suffix: seq<string>)
    requires |dirs| <= |chain| && dirs == chain[..|dirs|]
    requires JoinedFrom(r, dirs, suffix)
    ensures JoinedFrom(r, chain, suffix)
  {
    forall k | 0 <= k < |r|
      ensures JoinedAt(r[k], chain, suffix)
    {
      var i :| 0 <= i < |dirs| && r[k] == dirs[i] + suffix;
      assert dirs[i] == chain[i];
      assert 0 <= i < |chain| && r[k] == chain[i] + suffix;
    }
  }

  /** Over directories of strictly decreasing depth, the joined hits are too. */
  lemma {:induction false} JoinHitsDescending(suffix: seq<string>, existing: set<Path>, dirs: seq<Path>)
    requires StrictlyShortening(dirs)
    ensures JoinedFrom(Hits(JoinWith(suffix), existing, dirs), dirs, suffix)
    ensures StrictlyShortening(Hits(JoinWith(suffix), existing, dirs))
  {
    if dirs != [] {
      var front := dirs[..|dirs| - 1];
      var last := dirs[|dirs| - 1];
      assert StrictlyShortening(front);
      JoinHitsDescending(suffix, existing, front);
      var h := Hits(JoinWith(suffix), existing, front);
      var r := Hits(JoinWith(suffix), existing, dirs);
      assert r == h + Probe(JoinWith(suffix), existing, last);
      assert JoinedFrom(h, front, suffix);
      forall k | 0 <= k < |h| ensures |h[k]| > |last| + |suffix| {
        var i :| 0 <= i < |front| && h[k] == front[i] + suffix;
        assert front[i] == dirs[i];
      }
      JoinedFromPrefix(h, front, dirs, suffix);
    }
  }

  /**
   * Completeness in package.json mode: a module instance at an ancestor is
   * found when that ancestor and every directory below it on the way hold a
   * package.json.
   */
  lemma ModuleSearchFindsPackageRun(moduleName: seq<string>, existing: set<Path>, start: Path, i: nat)
    requires i <= |start|
    requires forall j :: 0 <= j <= i ==> Ancestors(start)[j] + [PackageJson] in existing
    requires Ancestors(start)[i] + ([NodeModules] + moduleName) in existing
    ensures Ancestors(start)[i] + ([NodeModules] + moduleName) in Results(ModuleQuery(moduleName, None), existing, start)
  {
    var q := ModuleQuery(moduleName, None);
    var v := Visited(q, existing, start);
    PackageJsonMode(q, existing, start);
    assert |v| > i;
    assert v[i] == Ancestors(start)[i];
    HitsInclude(q.generate, existing, v, i);
  }

  /**
   * Completeness in boundary mode: with a `rootPath` on the chain other than
   * "/", a `node_modules` directory at any ancestor from the start up to and
   * including `rootPath` is found, whatever the package.json files say.
   */
  lemma NodeModulesSearchFindsUpToRoot(rootPath: Path, existing: set<Path>, start: Path, i: nat)
    requires rootPath != Root && rootPath <= start
    requires i <= |start| - |rootPath|
    requires Ancestors(start)[i] + [NodeModules] in existing
    ensures Ancestors(start)[i] + [NodeModules] in Results(NodeModulesQuery(Some(rootPath)), existing, start)
  {
    var q := NodeModulesQuery(Some(rootPath));
    var v := Visited(q, existing, start);
    DirnameIsParent(rootPath);
    assert |Dirname(rootPath)| == |rootPath| - 1;
    assert Dirname(rootPath) <= rootPath;
    BoundaryStopsAtParentOfRoot(q, existing, start);
    assert |v| == |start| - |rootPath| + 1;
    assert v[i] == Ancestors(start)[i];
    assert q.generate(v[i]) == Ancestors(start)[i] + [NodeModules];
    HitsInclude(q.generate, existing, v, i);
  }

  // ---------------------------------------------------------------------------
  // getProjectRootPath

  /** The first directory of `dirs` (nearest first) holding `name`, if any. */
  function NearestWith(name: string, dirs: seq<Path>, existing: set<Path>): Option<Path>
  {
    if dirs == [] then None
    else if Join(dirs[0], [name]) in existing then Some(dirs[0])
    else NearestWith(name, dirs[1..], existing)
  }

  /**
   * Nothing is found exactly when no directory holds the file; what is found
   * is a directory that holds it, with no directory before it holding it.
   */
  lemma {:induction false} NearestWithIsNearest(name: string, dirs: seq<Path>, existing: set<Path>)
    ensures NearestWith(name, dirs, existing).None? <==> forall i :: 0 <= i < |dirs| ==> Join(dirs[i], [name]) !in existing
    ensures NearestWith(name, dirs, existing).Some? ==>
      exists i :: (0 <= i < |dirs| && dirs[i] == NearestWith(name, dirs, existing).value && Join(dirs[i], [name]) in existing &&
                   forall j :: 0 <= j < i ==> Join(dirs[j], [name]) !in existing)
  {
    if dirs != [] && Join(dirs[0], [name]) !in existing {
      NearestWithIsNearest(name, dirs[1..], existing);
      assert forall i :: 0 < i < |dirs| ==> dirs[i] == dirs[1..][i - 1];
      if NearestWith(name, dirs, existing).Some? {
        var i :| 0 <= i < |dirs[1..]| && dirs[1..][i] == NearestWith(name, dirs, existing).value
          && Join(dirs[1..][i], [name]) in existing
          && forall j :: 0 <= j < i ==> Join(dirs[1..][j], [name]) !in existing;
        assert dirs[i + 1] == dirs[1..][i];
      }
    }
  }

  /** The directory each lockfile search finds, in the order of `names`. */
  function LockDirs(names: seq<string>, start: Path, existing: set<Path>): seq<Option<Path>>
  {
    seq(|names|, k requires 0 <= k < |names| => NearestWith(names[k], Ancestors(start), existing))
  }

  /** `lockDir.length > projectRootPath.length`, where the empty string stands for no directory yet. */
  function LenOf(best: Option<Path>): nat
  {
    if best.Some? then Len(best.value) else 0
  }

  /** One step of the selection loop: a candidate replaces the best only when strictly longer. */
  function LongerOf(best: Option<Path>, candidate: Option<Path>): Option<Path>
  {
    if candidate.Some? && Len(candidate.value) > LenOf(best) then candidate else best
  }

  /**
   * The selection over the lockfile directories found: nothing when none was
   * found; otherwise the first candidate of the greatest rendered length.
   */
  function Longest(candidates: seq<Option<Path>>): Option<Path>
  {
    if candidates == [] then None
    else LongerOf(Longest(candidates[..|candidates| - 1]), candidates[|candidates| - 1])
  }

  /**
   * The selection finds nothing exactly when there is no candidate; otherwise
   * it picks a candidate at least as long as every other, all earlier
   * candidates being strictly shorter.
   */
  lemma {:induction false} LongestIsLongest(candidates: seq<Option<Path>>)
    ensures Longest(candidates).None? <==> forall k :: 0 <= k < |candidates| ==> candidates[k].None?
    ensures forall k :: 0 <= k < |candidates| && candidates[k].Some? ==>
      Longest(candidates).Some? && Len(candidates[k].value) <= Len(Longest(candidates).value)
    ensures Longest(candidates).Some? ==>
      exists k :: (0 <= k < |candidates| && candidates[k] == Longest(candidates) &&
                   forall j :: 0 <= j < k && candidates[j].Some? ==> Len(candidates[j].value) < Len(Longest(candidates).value))
  {
    if candidates != [] {
      var front := candidates[..|candidates| - 1];
      LongestIsLongest(front);
      assert forall k :: 0 <= k < |front| ==> front[k] == candidates[k];
    }
  }

  /** The directory each of the three lockfile searches of `getProjectRootPath` finds. */
  function FoundLockDirs(cwd: Path, existing: set<Path>, resolve: Path -> Path): seq<Option<Path>>
  {
    LockDirs(LockFilenames, resolve(cwd), existing)
  }

  /** What `getProjectRootPath` returns: the selected lockfile directory, or `cwd` itself. */
  function ProjectRoot(cwd: Path, existing: set<Path>, resolve: Path -> Path): Path
  {
    var best := Longest(FoundLockDirs(cwd, existing, resolve));
    if best.Some? then best.value else cwd
  }

  /** `getProjectRootPath`, with the awaits as plain calls. */
  method GetProjectRootPath(cwd: Path, existing: set<Path>, resolve: Path -> Path) returns (root: Path)
    ensures root == ProjectRoot(cwd, existing, resolve)
  {
    var projectRootPath := SelectLockDir(cwd, LockFilenames, existing, resolve);
    root := if projectRootPath.Some? then projectRootPath.value else cwd;
  }

  /**
   * The selection loop of `getProjectRootPath` over the given lockfile names:
   * one capped search per name, keeping a found directory only when it renders
   * strictly longer than the best so far.
   */
  method SelectLockDir(cwd: Path, lockFilenames: seq<string>, existing: set<Path>, resolve: Path -> Path)
    returns (projectRootPath: Option<Path>)
    ensures projectRootPath == Longest(LockDirs(lockFilenames, resolve(cwd), existing))
  {
    projectRootPath := None;
    for i := 0 to |lockFilenames|
      invariant projectRootPath == Longest(LockDirs(lockFilenames[..i], resolve(cwd), existing))
    {
      var lockFilename := lockFilenames[i];
      var pathGenerator := JoinWith([lockFilename]);
      var lockPaths := TraverseAncestorDirectories(cwd, pathGenerator, None, Some(1), false, existing, resolve);
      ghost var found := NearestWith(lockFilename, Ancestors(resolve(cwd)), existing);
      ghost var best := projectRootPath;
      LockPathsGiveNearest(lockFilename, existing, resolve(cwd), lockPaths);
      LockDirsStep(lockFilenames, i, resolve(cwd), existing);
      LongestStep(LockDirs(lockFilenames[..i], resolve(cwd), existing), found);
      if |lockPaths| > 0 {
        var lockDir := Dirname(lockPaths[0]);
        if Len(lockDir) > LenOf(projectRootPath) {
          projectRootPath := Some(lockDir);
        }
      }
      assert projectRootPath == LongerOf(best, found);
    }
    assert lockFilenames[..|lockFilenames|] == lockFilenames;
  }

  /** What one lockfile search tells the selection loop: whether and where the nearest lockfile is. */
  lemma LockPathsGiveNearest(lockFilename: string, existing: set<Path>, start: Path, lockPaths: seq<Path>)
    requires lockPaths == Results(Query(JoinWith([lockFilename]), None, Some(1), false), existing, start)
    ensures |lockPaths| > 0 <==> NearestWith(lockFilename, Ancestors(start), existing).Some?
    ensures |lockPaths| > 0 ==> Dirname(lockPaths[0]) == NearestWith(lockFilename, Ancestors(start), existing).value
  {
    LockSearchFindsNearest(lockFilename, existing, start);
    var found := NearestWith(lockFilename, Ancestors(start), existing);
    if found.Some? {
      DirnameOfJoin(found.value, lockFilename);
    }
  }

  /** The lockfile directories of one more name are those before it and the one it finds. */
  lemma LockDirsStep(names: seq<string>, i: nat, start: Path, existing: set<Path>)
    requires i < |names|
    ensures LockDirs(names[..i + 1], start, existing)
         == LockDirs(names[..i], start, existing) + [NearestWith(names[i], Ancestors(start), existing)]
  {
    assert names[..i + 1][..i] == names[..i];
  }

  /** The selection over one more candidate is one more step of the selection loop. */
  lemma LongestStep(candidates: seq<Option<Path>>, candidate: Option<Path>)
    ensures Longest(candidates + [candidate]) == LongerOf(Longest(candidates), candidate)
  {
    assert (candidates + [candidate])[..|candidates|] == candidates;
  }

  /** A lockfile search, capped at one hit, returns the lockfile of the nearest ancestor holding one. */
  lemma LockSearchFindsNearest(lockFilename: string, existing: set<Path>, start: Path)
    ensures Results(LockfileQuery(lockFilename), existing, start)
      == match NearestWith(lockFilename, Ancestors(start), existing)
         case None => []
         case Some(d) => [Join(d, [lockFilename])]
  {
    LockSearchFrom(lockFilename, existing, [], start);
  }

  lemma {:induction false} LockSearchFrom(lockFilename: string, existing: set<Path>, done: seq<Path>, d: Path)
    requires Hits(JoinWith([lockFilename]), existing, done) == []
    ensures Hits(JoinWith([lockFilename]), existing, VisitFrom(LockfileQuery(lockFilename), existing, done, d))
      == match NearestWith(lockFilename, Ancestors(d), existing)
         case None => []
         case Some(x) => [Join(x, [lockFilename])]
    decreases |d|
  {
    var q := LockfileQuery(lockFilename);
    var next := done + [d];
    var file := Join(d, [lockFilename]);
    assert next[..|next| - 1] == done;
    assert q.generate(d) == file;
    assert Hits(q.generate, existing, next) == Probe(q.generate, existing, d);
    assert Ancestors(d)[0] == d;
    if file in existing {
      assert VisitFrom(q, existing, done, d) == next;
      assert NearestWith(lockFilename, Ancestors(d), existing) == Some(d);
    } else if d == Root {
      assert VisitFrom(q, existing, done, d) == next;
      assert Ancestors(d) == [d];
      assert NearestWith(lockFilename, Ancestors(d)[1..], existing) == None;
    } else {
      var parent := Dirname(d);
      assert VisitFrom(q, existing, done, d) == VisitFrom(q, existing, next, parent);
      LockSearchFrom(lockFilename, existing, next, parent);
      assert Ancestors(d) == [d] + Ancestors(parent);
      assert Ancestors(d)[1..] == Ancestors(parent);
      assert NearestWith(lockFilename, Ancestors(d), existing) == NearestWith(lockFilename, Ancestors(parent), existing);
    }
  }

  /** With no lockfile at any ancestor, the unresolved `cwd` comes back unchanged. */
  lemma ProjectRootFallback(cwd: Path, existing: set<Path>, resolve: Path -> Path)
    requires forall k, i :: 0 <= k < |LockFilenames| && 0 <= i <= |resolve(cwd)| ==>
      Join(Ancestors(resolve(cwd))[i], [LockFilenames[k]]) !in existing
    ensures ProjectRoot(cwd, existing, resolve) == cwd
  {
    var dirs := LockDirs(LockFilenames, resolve(cwd), existing);
    forall k | 0 <= k < |dirs|
      ensures dirs[k].None?
    {
      NearestWithIsNearest(LockFilenames[k], Ancestors(resolve(cwd)), existing);
    }
    LongestIsLongest(dirs);
  }

  /**
   * With some lockfile at some ancestor, the result is an ancestor of the
   * resolved `cwd` that holds one of the three lockfiles, and it is the nearest
   * holder of that lockfile.
   */
  lemma ProjectRootHoldsLockfile(cwd: Path, existing: set<Path>, resolve: Path -> Path, k0: nat, i0: nat)
    requires k0 < |LockFilenames| && i0 <= |resolve(cwd)|
    requires Join(Ancestors(resolve(cwd))[i0], [LockFilenames[k0]]) in existing
    ensures ProjectRoot(cwd, existing, resolve) <= resolve(cwd)
    ensures exists k :: (0 <= k < |LockFilenames| &&
                         NearestWith(LockFilenames[k], Ancestors(resolve(cwd)), existing) == Some(ProjectRoot(cwd, existing, resolve)))
  {
    SelectedHoldsLockfile(LockFilenames, resolve(cwd), existing, k0, i0);
  }

  /** `ProjectRootHoldsLockfile` for any list of lockfile names. */
  lemma SelectedHoldsLockfile(names: seq<string>, start: Path, existing: set<Path>, k0: nat, i0: nat)
    requires k0 < |names| && i0 <= |start|
    requires Join(Ancestors(start)[i0], [names[k0]]) in existing
    ensures Longest(LockDirs(names, start, existing)).Some?
    ensures Longest(LockDirs(names, start, existing)).value <= start
    ensures exists k :: (0 <= k < |names| &&
                         NearestWith(names[k], Ancestors(start), existing) == Longest(LockDirs(names, start, existing)))
  {
    var dirs := LockDirs(names, start, existing);
    NearestWithIsNearest(names[k0], Ancestors(start), existing);
    assert dirs[k0].Some?;
    LongestIsLongest(dirs);
    var k :| 0 <= k < |dirs| && dirs[k] == Longest(dirs);
    NearestIsAncestor(names[k], start, existing);
  }

  /** A found lockfile directory is an ancestor of the start: a prefix of its segments. */
  lemma NearestIsAncestor(name: string, start: Path, existing: set<Path>)
    ensures NearestWith(name, Ancestors(start), existing).Some? ==>
      NearestWith(name, Ancestors(start), existing).value <= start
  {
    var found := NearestWith(name, Ancestors(start), existing);
    NearestWithIsNearest(name, Ancestors(start), existing);
    if found.Some? {
      var i :| 0 <= i < |Ancestors(start)| && Ancestors(start)[i] == found.value;
      AncestorsAt(start);
      assert found.value == start[..|start| - i];
    }
  }

  /**
   * Longest is nearest: when no segment of the resolved `cwd` is empty, every
   * other lockfile directory found is an ancestor of the result, so the
   * selection picks the found directory nearest to `cwd`.
   */
  lemma ProjectRootIsNearestLockDir(cwd: Path, existing: set<Path>, resolve: Path -> Path, k: nat)
    requires forall j :: 0 <= j < |resolve(cwd)| ==> resolve(cwd)[j] != ""
    requires k < |LockFilenames|
    requires NearestWith(LockFilenames[k], Ancestors(resolve(cwd)), existing).Some?
    ensures NearestWith(LockFilenames[k], Ancestors(resolve(cwd)), existing).value <= ProjectRoot(cwd, existing, resolve)
  {
    SelectedIsNearest(LockFilenames, resolve(cwd), existing, k);
  }

  /** `ProjectRootIsNearestLockDir` for any list of lockfile names. */
  lemma SelectedIsNearest(names: seq<string>, start: Path, existing: set<Path>, k: nat)
    requires forall j :: 0 <= j < |start| ==> start[j] != ""
    requires k < |names|
    requires NearestWith(names[k], Ancestors(start), existing).Some?
    ensures Longest(LockDirs(names, start, existing)).Some?
    ensures NearestWith(names[k], Ancestors(start), existing).value <= Longest(LockDirs(names, start, existing)).value
  {
    var dirs := LockDirs(names, start, existing);
    assert dirs[k].Some?;
    var best := Longest(dirs);
    LongestIsLongest(dirs);
    assert Len(dirs[k].value) <= Len(best.value);
    var kb :| 0 <= kb < |dirs| && dirs[kb] == best;
    NearestIsAncestor(names[k], start, existing);
    NearestIsAncestor(names[kb], start, existing);
    NoLongerAncestorIsDeeper(dirs[k].value, best.value, start);
  }

  /**
   * Of two ancestors of `s` whose extra segments are non-empty, the one that
   * renders no shorter is the deeper one.
   */
  lemma NoLongerAncestorIsDeeper(c: Path, b: Path, s: Path)
    requires forall j :: 0 <= j < |s| ==> s[j] != ""
    requires c <= s && b <= s && Len(c) <= Len(b)
    ensures c <= b
  {
    if |b| < |c| {
      assert b == s[..|b|] == c[..|b|];
      DeeperIsLonger(b, c);
    } else {
      assert c == s[..|c|] == b[..|c|];
    }
  }

  /**
   * Lockfile selection: the result renders at least as long as every lockfile
   * directory found, and it comes from a lockfile whose directory renders
   * strictly longer than those of the lockfiles tried before it (on equal
   * lengths the earlier lockfile wins).
   */
  lemma ProjectRootIsLongestLockDir(cwd: Path, existing: set<Path>, resolve: Path -> Path)
    ensures forall k :: 0 <= k < |FoundLockDirs(cwd, existing, resolve)| && FoundLockDirs(cwd, existing, resolve)[k].Some? ==>
      Len(FoundLockDirs(cwd, existing, resolve)[k].value) <= Len(ProjectRoot(cwd, existing, resolve))
    ensures Longest(FoundLockDirs(cwd, existing, resolve)).Some? ==>
      exists kr :: (0 <= kr < |FoundLockDirs(cwd, existing, resolve)| &&
                    FoundLockDirs(cwd, existing, resolve)[kr] == Some(ProjectRoot(cwd, existing, resolve)) &&
                    forall j :: 0 <= j < kr && FoundLockDirs(cwd, existing, resolve)[j].Some? ==>
                      Len(FoundLockDirs(cwd, existing, resolve)[j].value) < Len(ProjectRoot(cwd, existing, resolve)))
  {
    LongestIsLongest(FoundLockDirs(cwd, existing, resolve));
  }
}
