/** Concrete walks over small directory trees. */
module Scenarios {
  import opened Wrappers
  import opened Paths
  import opened AncestorWalk
  import opened SearchModule

  /**
   * `/a/b/c` with only `/a/node_modules` and no package.json anywhere: the
   * package.json test of the stop predicate fails at `/a/b/c` itself, so the
   * walk processes nothing and the search comes back empty.
   */
  lemma NodeModulesNeedPackageJsonOnTheWay()
    ensures Results(NodeModulesQuery(None), {["a", "node_modules"]}, ["a", "b", "c"]) == []
  {
  }

  /**
   * package.json in `/a` and `/a/b` but not in `/a/b/c`, module `foo` under
   * `/a`: the walk from `/a/b/c` processes nothing, so `/a/node_modules/foo`
   * is not found.
   */
  lemma ModuleSearchStartsOutsidePackage()
    ensures Visited(ModuleQuery(["foo"], None),
                    {["a", "package.json"], ["a", "b", "package.json"], ["a", "node_modules", "foo"]},
                    ["a", "b", "c"])
         == []
    ensures Results(ModuleQuery(["foo"], None),
                    {["a", "package.json"], ["a", "b", "package.json"], ["a", "node_modules", "foo"]},
                    ["a", "b", "c"])
         == []
  {
  }

  /**
   * package.json in `/a/b/c`, `/a/b` and `/a` but not in `/`: the walk goes up
   * to `/a` and finds the `node_modules` directories on the way, nearest first.
   */
  lemma NodeModulesWhilePackageJson()
    ensures Results(NodeModulesQuery(None),
                    {["a", "b", "c", "package.json"], ["a", "b", "package.json"], ["a", "package.json"],
                     ["a", "b", "node_modules"], ["a", "node_modules"], ["node_modules"]},
                    ["a", "b", "c"])
         == [["a", "b", "node_modules"], ["a", "node_modules"]]
  {
    var e: set<Path> := {["a", "b", "c", "package.json"], ["a", "b", "package.json"], ["a", "package.json"],
                         ["a", "b", "node_modules"], ["a", "node_modules"], ["node_modules"]};
    assert ["package.json"] !in e && ["a", "b", "c", "node_modules"] !in e;
    WhilePackageJsonOn(e);
  }

  /** The walk of `NodeModulesWhilePackageJson`, for any filesystem that agrees on the files it probes. */
  lemma WhilePackageJsonOn(e: set<Path>)
    requires ["a", "b", "c", "package.json"] in e && ["a", "b", "package.json"] in e && ["a", "package.json"] in e
    requires ["package.json"] !in e
    requires ["a", "b", "c", "node_modules"] !in e && ["a", "b", "node_modules"] in e && ["a", "node_modules"] in e
    ensures Results(NodeModulesQuery(None), e, ["a", "b", "c"]) == [["a", "b", "node_modules"], ["a", "node_modules"]]
  {
    var q := NodeModulesQuery(None);
    var abc: Path, ab: Path, a: Path := ["a", "b", "c"], ["a", "b"], ["a"];
    assert Dirname(abc) == ab && Dirname(ab) == a && Dirname(a) == Root;
    assert Join(abc, [PackageJson]) == ["a", "b", "c", "package.json"];
    assert Join(ab, [PackageJson]) == ["a", "b", "package.json"];
    assert Join(a, [PackageJson]) == ["a", "package.json"];
    assert Join(Root, [PackageJson]) == ["package.json"];
    assert Join(abc, [NodeModules]) == ["a", "b", "c", "node_modules"];
    assert Join(ab, [NodeModules]) == ["a", "b", "node_modules"];
    assert Join(a, [NodeModules]) == ["a", "node_modules"];
    assert VisitFrom(q, e, [abc, ab, a], Root) == [abc, ab, a];
    assert VisitFrom(q, e, [abc, ab], a) == [abc, ab, a];
    assert VisitFrom(q, e, [abc], ab) == [abc, ab, a];
    assert Visited(q, e, abc) == [abc, ab, a];
    assert [abc, ab, a][..2] == [abc, ab] && [abc, ab][..1] == [abc];
    assert Hits(q.generate, e, [abc]) == [];
    assert Hits(q.generate, e, [abc, ab]) == [ab + [NodeModules]];
    assert Hits(q.generate, e, [abc, ab, a]) == [ab + [NodeModules], a + [NodeModules]];
  }

  /**
   * With `rootPath` `/a`, the package.json files do not matter: the walk
   * processes `/a/b/c`, `/a/b` and `/a`, and stops before `/`.
   */
  lemma NodeModulesUpToRootPath()
    ensures Results(NodeModulesQuery(Some(["a"])),
                    {["a", "b", "c", "node_modules"], ["a", "node_modules"], ["node_modules"]},
                    ["a", "b", "c"])
         == [["a", "b", "c", "node_modules"], ["a", "node_modules"]]
  {
    var e: set<Path> := {["a", "b", "c", "node_modules"], ["a", "node_modules"], ["node_modules"]};
    assert ["a", "b", "node_modules"] !in e;
    UpToRootPathOn(e);
  }

  /** The walk of `NodeModulesUpToRootPath`, for any filesystem that agrees on the files it probes. */
  lemma UpToRootPathOn(e: set<Path>)
    requires ["a", "b", "c", "node_modules"] in e && ["a", "b", "node_modules"] !in e && ["a", "node_modules"] in e
    ensures Results(NodeModulesQuery(Some(["a"])), e, ["a", "b", "c"]) == [["a", "b", "c", "node_modules"], ["a", "node_modules"]]
  {
    var q := NodeModulesQuery(Some(["a"]));
    var abc: Path, ab: Path, a: Path := ["a", "b", "c"], ["a", "b"], ["a"];
    assert Dirname(abc) == ab && Dirname(ab) == a && Dirname(a) == Root;
    assert Join(abc, [NodeModules]) == ["a", "b", "c", "node_modules"];
    assert Join(ab, [NodeModules]) == ["a", "b", "node_modules"];
    assert Join(a, [NodeModules]) == ["a", "node_modules"];
    assert VisitFrom(q, e, [abc, ab, a], Root) == [abc, ab, a];
    assert VisitFrom(q, e, [abc, ab], a) == [abc, ab, a];
    assert VisitFrom(q, e, [abc], ab) == [abc, ab, a];
    assert Visited(q, e, abc) == [abc, ab, a];
    assert [abc, ab, a][..2] == [abc, ab] && [abc, ab][..1] == [abc];
    assert Hits(q.generate, e, [abc]) == [abc + [NodeModules]];
    assert Hits(q.generate, e, [abc, ab]) == [abc + [NodeModules]];
    assert Hits(q.generate, e, [abc, ab, a]) == [abc + [NodeModules], a + [NodeModules]];
  }

  /** A scoped module name is two segments below `node_modules`. */
  lemma ScopedModuleFound()
    ensures Results(ModuleQuery(["@scope", "name"], None),
                    {["a", "package.json"], ["a", "node_modules", "@scope", "name"]},
                    ["a"])
         == [["a", "node_modules", "@scope", "name"]]
  {
    var q := ModuleQuery(["@scope", "name"], None);
    var e: set<Path> := {["a", "package.json"], ["a", "node_modules", "@scope", "name"]};
    assert Dirname(["a"]) == Root;
    assert Join(["a"], [PackageJson]) == ["a", "package.json"];
    assert Join(Root, [PackageJson]) == ["package.json"];
    assert Join(["a"], [NodeModules] + ["@scope", "name"]) == ["a", "node_modules", "@scope", "name"];
    assert VisitFrom(q, e, [["a"]], Root) == [["a"]];
    assert Visited(q, e, ["a"]) == [["a"]];
    assert Hits(q.generate, e, [["a"]]) == [["a", "node_modules", "@scope", "name"]];
  }

  /** A cap of one ends the walk at the first hit, although more ancestors hold the file. */
  lemma CapOfOneStopsAtFirstHit()
    ensures Results(Query(JoinWith(["f"]), None, Some(1), false),
                    {["a", "b", "f"], ["a", "f"], ["f"]},
                    ["a", "b", "c"])
         == [["a", "b", "f"]]
  {
    var q := Query(JoinWith(["f"]), None, Some(1), false);
    var e: set<Path> := {["a", "b", "f"], ["a", "f"], ["f"]};
    var abc: Path, ab: Path := ["a", "b", "c"], ["a", "b"];
    assert Dirname(abc) == ab;
    assert Join(abc, ["f"]) == ["a", "b", "c", "f"];
    assert Join(ab, ["f"]) == ["a", "b", "f"];
    assert Hits(q.generate, e, [abc]) == [];
    assert [abc, ab][..1] == [abc];
    assert Hits(q.generate, e, [abc, ab]) == [ab + ["f"]];
    assert VisitFrom(q, e, [abc], ab) == [abc, ab];
    assert Visited(q, e, abc) == [abc, ab];
  }

  /** A monorepo: `yarn.lock` at `/repo` and `pnpm-lock.yaml` at `/repo/packages/app`. */
  const MonorepoFiles: set<Path> := {["repo", "yarn.lock"], ["repo", "packages", "app", "pnpm-lock.yaml"]}

  const AppSource: Path := ["repo", "packages", "app", "src"]

  lemma AppSourceChain()
    ensures Ancestors(AppSource) == [AppSource, ["repo", "packages", "app"], ["repo", "packages"], ["repo"], Root]
  {
    assert Dirname(AppSource) == ["repo", "packages", "app"];
    assert Dirname(["repo", "packages", "app"]) == ["repo", "packages"];
    assert Dirname(["repo", "packages"]) == ["repo"];
    assert Dirname(["repo"]) == Root;
  }

  lemma MonorepoYarnLock()
    ensures NearestWith("yarn.lock", Ancestors(AppSource), MonorepoFiles) == Some(["repo"])
  {
    AppSourceChain();
    var chain := Ancestors(AppSource);
    assert Join(AppSource, ["yarn.lock"]) !in MonorepoFiles;
    assert Join(["repo", "packages", "app"], ["yarn.lock"]) == ["repo", "packages", "app", "yarn.lock"];
    assert Join(["repo", "packages"], ["yarn.lock"]) == ["repo", "packages", "yarn.lock"];
    assert Join(["repo"], ["yarn.lock"]) == ["repo", "yarn.lock"];
    assert NearestWith("yarn.lock", chain[3..], MonorepoFiles) == Some(["repo"]);
    assert chain[2..][1..] == chain[3..];
    assert NearestWith("yarn.lock", chain[2..], MonorepoFiles) == Some(["repo"]);
    assert chain[1..][1..] == chain[2..];
    assert NearestWith("yarn.lock", chain[1..], MonorepoFiles) == Some(["repo"]);
  }

  lemma MonorepoPackageLock()
    ensures NearestWith("package-lock.json", Ancestors(AppSource), MonorepoFiles) == None
  {
    AppSourceChain();
    var chain := Ancestors(AppSource);
    var name := "package-lock.json";
    assert Join(AppSource, [name]) == ["repo", "packages", "app", "src", name];
    assert Join(["repo", "packages", "app"], [name]) == ["repo", "packages", "app", name];
    assert Join(["repo", "packages"], [name]) == ["repo", "packages", name];
    assert Join(["repo"], [name]) == ["repo", name];
    assert Join(Root, [name]) == [name];
    assert NearestWith(name, chain[4..], MonorepoFiles) == None;
    assert chain[3..][1..] == chain[4..];
    assert NearestWith(name, chain[3..], MonorepoFiles) == None;
    assert chain[2..][1..] == chain[3..];
    assert NearestWith(name, chain[2..], MonorepoFiles) == None;
    assert chain[1..][1..] == chain[2..];
    assert NearestWith(name, chain[1..], MonorepoFiles) == None;
  }

  lemma MonorepoPnpmLock()
    ensures NearestWith("pnpm-lock.yaml", Ancestors(AppSource), MonorepoFiles) == Some(["repo", "packages", "app"])
  {
    AppSourceChain();
    var chain := Ancestors(AppSource);
    assert Join(AppSource, ["pnpm-lock.yaml"]) !in MonorepoFiles;
    assert Join(["repo", "packages", "app"], ["pnpm-lock.yaml"]) == ["repo", "packages", "app", "pnpm-lock.yaml"];
    assert NearestWith("pnpm-lock.yaml", chain[1..], MonorepoFiles) == Some(["repo", "packages", "app"]);
  }

  lemma MonorepoLockDirs(files: set<Path>)
    requires files == MonorepoFiles
    ensures LockDirs(LockFilenames, AppSource, files) == [Some(["repo"]), None, Some(["repo", "packages", "app"])]
  {
    var dirs := LockDirs(LockFilenames, AppSource, files);
    assert |dirs| == 3;
    assert LockFilenames[0] == "yarn.lock";
    assert dirs[0] == NearestWith("yarn.lock", Ancestors(AppSource), files);
    MonorepoYarnLock();
    assert dirs[0] == Some(["repo"]);
    assert LockFilenames[1] == "package-lock.json";
    assert dirs[1] == NearestWith("package-lock.json", Ancestors(AppSource), files);
    MonorepoPackageLock();
    assert dirs[1] == None;
    assert LockFilenames[2] == "pnpm-lock.yaml";
    assert dirs[2] == NearestWith("pnpm-lock.yaml", Ancestors(AppSource), files);
    MonorepoPnpmLock();
    assert dirs[2] == Some(["repo", "packages", "app"]);
  }

  /** `/repo/packages/app` renders longer than `/repo`, so it replaces it. */
  lemma MonorepoSelection()
    ensures Longest([Some(["repo"]), None, Some(["repo", "packages", "app"])]) == Some(["repo", "packages", "app"])
  {
    LenOfChild(Root, "repo");
    LenOfChild(["repo"], "packages");
    LenOfChild(["repo", "packages"], "app");
    assert ["repo"] + ["packages"] == ["repo", "packages"];
    assert ["repo", "packages"] + ["app"] == ["repo", "packages", "app"];
    LaterLongerWins(["repo"], ["repo", "packages", "app"]);
  }

  /** Of a found directory, a miss and a longer found directory, the longer one is selected. */
  lemma LaterLongerWins(outer: Path, inner: Path)
    requires 0 < Len(outer) < Len(inner)
    ensures Longest([Some(outer), None, Some(inner)]) == Some(inner)
  {
    LongestStep([], Some(outer));
    assert [] + [Some(outer)] == [Some(outer)];
    LongestStep([Some(outer)], None);
    assert [Some(outer)] + [None] == [Some(outer), None];
    LongestStep([Some(outer), None], Some(inner));
    assert [Some(outer), None] + [Some(inner)] == [Some(outer), None, Some(inner)];
  }

  /**
   * From `/repo/packages/app/src` the deeper lockfile directory wins, although
   * `yarn.lock` is tried first.
   */
  lemma MonorepoInnerLockfileWins()
    ensures ProjectRoot(AppSource, MonorepoFiles, d => d) == ["repo", "packages", "app"]
  {
    MonorepoLockDirs(MonorepoFiles);
    MonorepoSelection();
  }

  /**
   * No lockfile anywhere: the relative `cwd` comes back as given, not in the
   * resolved form the searches used.
   */
  lemma NoLockfileKeepsRelativeCwd()
    ensures ProjectRoot(["src"], {["home", "src", "package.json"]}, d => ["home"] + d) == ["src"]
  {
    var resolve: Path -> Path := d => ["home"] + d;
    var files: set<Path> := {["home", "src", "package.json"]};
    forall k, i | 0 <= k < |LockFilenames| && 0 <= i <= |resolve(["src"])|
      ensures Join(Ancestors(resolve(["src"]))[i], [LockFilenames[k]]) !in files
    {
      var f := Join(Ancestors(resolve(["src"]))[i], [LockFilenames[k]]);
      assert f[|f| - 1] == LockFilenames[k] != "package.json";
    }
    ProjectRootFallback(["src"], files, resolve);
  }
}
