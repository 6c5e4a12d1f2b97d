/**
 * The upward directory walk of src/search-module.ts: `shouldContinueSearch`
 * and `traverseAncestorDirectories`.
 *
 * The filesystem is the set `existing` of paths for which `fs.pathExists`
 * answers true (a probe that fails reads as absent), and `path.resolve` is the
 * function parameter `resolve`.
 */
module AncestorWalk {
  import opened Wrappers
  import opened Paths

  const PackageJson: string := "package.json"

  /**
   * The stop predicate. A `rootPath` (absent covers both `undefined` and '')
   * takes precedence over `stopAtPackageJson`; with neither the walk goes on.
   */
  function ShouldContinueSearch(traversedPath: Path, rootPath: Option<Path>, stopAtPackageJson: bool,
                                existing: set<Path>): bool
  {
    match rootPath
    case Some(root) => traversedPath != Dirname(root)
    case None => if stopAtPackageJson then Join(traversedPath, [PackageJson]) in existing else true
  }

  /** `maxItems && paths.length >= maxItems`: an absent or zero cap never stops the walk. */
  predicate Capped(maxItems: Option<int>, count: nat)
  {
    maxItems.Some? && maxItems.value != 0 && count >= maxItems.value
  }

  /** The arguments of one walk besides its start and the filesystem. */
  datatype Query = Query(generate: Path -> Path, rootPath: Option<Path>, maxItems: Option<int>,
                         stopAtPackageJson: bool)
  {
    predicate Continues(d: Path, existing: set<Path>)
    {
      ShouldContinueSearch(d, rootPath, stopAtPackageJson, existing)
    }
  }

  /** What processing directory `d` adds to the result list. */
  function Probe(generate: Path -> Path, existing: set<Path>, d: Path): seq<Path>
  {
    if generate(d) in existing then [generate(d)] else []
  }

  /** The generated paths of `dirs` that exist, in the order of `dirs`. */
  function Hits(generate: Path -> Path, existing: set<Path>, dirs: seq<Path>): (r: seq<Path>)
    ensures |r| <= |dirs|
  {
    if dirs == [] then [] else Hits(generate, existing, dirs[..|dirs| - 1]) + Probe(generate, existing, dirs[|dirs| - 1])
  }

  /**
   * Exactly the generated paths that exist are kept: each result exists and
   * comes from one of `dirs`, and each existing generated path is a result.
   */
  lemma {:induction false} HitsExactlyExisting(generate: Path -> Path, existing: set<Path>, dirs: seq<Path>)
    ensures forall p :: p in Hits(generate, existing, dirs) ==>
      (p in existing && exists i :: 0 <= i < |dirs| && p == generate(dirs[i]))
    ensures forall i :: 0 <= i < |dirs| && generate(dirs[i]) in existing ==> generate(dirs[i]) in Hits(generate, existing, dirs)
  {
    if dirs != [] {
      var front := dirs[..|dirs| - 1];
      HitsExactlyExisting(generate, existing, front);
      assert forall i :: 0 <= i < |front| ==> front[i] == dirs[i];
    }
  }

  /** The completeness half of `HitsExactlyExisting`, for one directory. */
  lemma HitsInclude(generate: Path -> Path, existing: set<Path>, dirs: seq<Path>, i: nat)
    requires i < |dirs| && generate(dirs[i]) in existing
    ensures generate(dirs[i]) in Hits(generate, existing, dirs)
  {
    HitsExactlyExisting(generate, existing, dirs);
  }

  /**
   * The directories the walk processes from `d` on, after it has processed
   * `done`: one loop iteration per call.
   */
  function VisitFrom(q: Query, existing: set<Path>, done: seq<Path>, d: Path): seq<Path>
    decreases |d|
  {
    if !q.Continues(d, existing) then done
    else if Dirname(d) == d || Capped(q.maxItems, |Hits(q.generate, existing, done + [d])|) then done + [d]
    else VisitFrom(q, existing, done + [d], Dirname(d))
  }

  /** The directories a walk from `start` processes, in order. */
  function Visited(q: Query, existing: set<Path>, start: Path): seq<Path>
  {
    VisitFrom(q, existing, [], start)
  }

  /** The list a walk from `start` returns. */
  function Results(q: Query, existing: set<Path>, start: Path): seq<Path>
  {
    Hits(q.generate, existing, Visited(q, existing, start))
  }

  /** `traverseAncestorDirectories`, with the awaits as plain calls. */
  method TraverseAncestorDirectories(cwd: Path, pathGenerator: Path -> Path, rootPath: Option<Path>,
                                     maxItems: Option<int>, stopAtPackageJson: bool,
                                     existing: set<Path>, resolve: Path -> Path)
    returns (paths: seq<Path>)
    ensures paths == Results(Query(pathGenerator, rootPath, maxItems, stopAtPackageJson), existing, resolve(cwd))
  {
    ghost var q := Query(pathGenerator, rootPath, maxItems, stopAtPackageJson);
    paths := [];
    var traversedPath := resolve(cwd);
    ghost var done: seq<Path> := [];
    while ShouldContinueSearch(traversedPath, rootPath, stopAtPackageJson, existing)
      invariant paths == Hits(pathGenerator, existing, done)
      invariant VisitFrom(q, existing, done, traversedPath) == Visited(q, existing, resolve(cwd))
      decreases |traversedPath|
    {
      var generatedPath := pathGenerator(traversedPath);
      if generatedPath in existing {
        paths := paths + [generatedPath];
      }
      assert (done + [traversedPath])[..|done|] == done;
      done := done + [traversedPath];

      var parentPath := Dirname(traversedPath);
      if parentPath == traversedPath || Capped(maxItems, |paths|) {
        break;
      }
      traversedPath := parentPath;
    }
  }

  // ---------------------------------------------------------------------------
  // The stop predicate

  /** With a `rootPath`, neither `stopAtPackageJson` nor the filesystem matters. */
  lemma RootPathTakesPrecedence(t: Path, root: Path, stop: bool, existing: set<Path>)
    ensures ShouldContinueSearch(t, Some(root), stop, existing) == ShouldContinueSearch(t, Some(root), false, {})
    ensures ShouldContinueSearch(t, Some(root), stop, existing) <==> t != Dirname(root)
  {
  }

  /** Without `rootPath`, `stopAtPackageJson` continues exactly while a package.json is present. */
  lemma PackageJsonContinuesWhilePresent(t: Path, existing: set<Path>)
    ensures ShouldContinueSearch(t, None, true, existing) <==> t + [PackageJson] in existing
  {
  }

  /** With neither option the predicate is always true. */
  lemma NoOptionAlwaysContinues(t: Path, existing: set<Path>)
    ensures ShouldContinueSearch(t, None, false, existing)
  {
  }

  // ---------------------------------------------------------------------------
  // The result list

  /** Results of nearer directories come before those of farther ones. */
  lemma {:induction false} HitsAppend(generate: Path -> Path, existing: set<Path>, a: seq<Path>, b: seq<Path>)
    ensures Hits(generate, existing, a + b) == Hits(generate, existing, a) + Hits(generate, existing, b)
    decreases |b|
  {
    if b == [] {
      assert a + b == a;
    } else {
      var front := b[..|b| - 1];
      assert (a + b)[..|a + b| - 1] == a + front;
      HitsAppend(generate, existing, a, front);
    }
  }

  // ---------------------------------------------------------------------------
  // One iteration at a time: facts about VisitFrom

  lemma {:induction false} VisitFromLength(q: Query, existing: set<Path>, done: seq<Path>, d: Path)
    ensures |done| <= |VisitFrom(q, existing, done, d)| <= |done| + |d| + 1
    decreases |d|
  {
    if q.Continues(d, existing) && Dirname(d) != d
       && !Capped(q.maxItems, |Hits(q.generate, existing, done + [d])|) {
      DirnameIsParent(d);
      VisitFromLength(q, existing, done + [d], Dirname(d));
    }
  }

  lemma {:induction false} VisitFromShape(q: Query, existing: set<Path>, done: seq<Path>, d: Path)
    ensures |done| <= |VisitFrom(q, existing, done, d)| <= |done| + |d| + 1
    ensures VisitFrom(q, existing, done, d) == done + Ancestors(d)[..|VisitFrom(q, existing, done, d)| - |done|]
    decreases |d|
  {
    VisitFromLength(q, existing, done, d);
    if !q.Continues(d, existing) {
      assert Ancestors(d)[..0] == [];
    } else if Dirname(d) == d || Capped(q.maxItems, |Hits(q.generate, existing, done + [d])|) {
      assert Ancestors(d)[..1] == [d];
    } else {
      DirnameIsParent(d);
      VisitFromShape(q, existing, done + [d], Dirname(d));
      AncestorsExtend(done, d, VisitFrom(q, existing, done + [d], Dirname(d)));
    }
  }

  /** A prefix of the parent's ancestor chain, after `d`, is a prefix of `d`'s chain. */
  lemma AncestorsExtend(done: seq<Path>, d: Path, r: seq<Path>)
    requires d != Root
    requires |done| + 1 <= |r| <= |done| + |d| + 1
    requires r == done + [d] + Ancestors(Dirname(d))[..|r| - |done| - 1]
    ensures r == done + Ancestors(d)[..|r| - |done|]
  {
    assert Ancestors(d) == [d] + Ancestors(Dirname(d));
    PrefixAfter(done, d, Ancestors(Dirname(d)), |r| - |done| - 1);
  }

  lemma PrefixAfter<T>(done: seq<T>, x: T, a: seq<T>, k: nat)
    requires k <= |a|
    ensures done + [x] + a[..k] == done + ([x] + a)[..k + 1]
  {
    assert ([x] + a)[..k + 1] == [x] + a[..k];
  }

  lemma {:induction false} VisitFromContinues(q: Query, existing: set<Path>, done: seq<Path>, d: Path)
    ensures |done| <= |VisitFrom(q, existing, done, d)| && VisitFrom(q, existing, done, d)[..|done|] == done &&
      forall i :: |done| <= i < |VisitFrom(q, existing, done, d)| ==> q.Continues(VisitFrom(q, existing, done, d)[i], existing)
    decreases |d|
  {
    if q.Continues(d, existing) && Dirname(d) != d
       && !Capped(q.maxItems, |Hits(q.generate, existing, done + [d])|) {
      DirnameIsParent(d);
      var next := done + [d];
      var r := VisitFrom(q, existing, next, Dirname(d));
      VisitFromContinues(q, existing, next, Dirname(d));
      assert VisitFrom(q, existing, done, d) == r;
      assert r[..|done|] == next[..|done|] == done;
      assert r[|done|] == d;
    }
  }

  lemma {:induction false} VisitFromStopReason(q: Query, existing: set<Path>, done: seq<Path>, d: Path)
    ensures 0 <= |VisitFrom(q, existing, done, d)| - |done| <= |d| + 1
    ensures |VisitFrom(q, existing, done, d)| - |done| <= |d| ==>
      (!q.Continues(Ancestors(d)[|VisitFrom(q, existing, done, d)| - |done|], existing)
       || (|VisitFrom(q, existing, done, d)| - |done| > 0 && Capped(q.maxItems, |Hits(q.generate, existing, VisitFrom(q, existing, done, d))|)))
    decreases |d|
  {
    VisitFromShape(q, existing, done, d);
    if q.Continues(d, existing) && Dirname(d) != d
       && !Capped(q.maxItems, |Hits(q.generate, existing, done + [d])|) {
      var parent := Dirname(d);
      VisitFromStopReason(q, existing, done + [d], parent);
      assert Ancestors(d) == [d] + Ancestors(parent);
    }
  }

  lemma {:induction false} VisitFromCapOnlyAtEnd(q: Query, existing: set<Path>, done: seq<Path>, d: Path, j: nat)
    requires |done| < j < |VisitFrom(q, existing, done, d)|
    ensures !Capped(q.maxItems, |Hits(q.generate, existing, VisitFrom(q, existing, done, d)[..j])|)
    decreases |d|
  {
    var r := VisitFrom(q, existing, done, d);
    var next := done + [d];
    assert q.Continues(d, existing) && Dirname(d) != d
       && !Capped(q.maxItems, |Hits(q.generate, existing, next)|);
    assert r == VisitFrom(q, existing, next, Dirname(d));
    VisitFromContinues(q, existing, next, Dirname(d));
    if j == |next| {
      assert r[..j] == next;
    } else {
      VisitFromCapOnlyAtEnd(q, existing, next, Dirname(d), j);
    }
  }

  lemma {:induction false} VisitFromCapBound(q: Query, existing: set<Path>, done: seq<Path>, d: Path, m: int)
    requires q.maxItems == Some(m) && |Hits(q.generate, existing, done)| < m
    ensures |Hits(q.generate, existing, VisitFrom(q, existing, done, d))| <= m
    decreases |d|
  {
    if q.Continues(d, existing) {
      var next := done + [d];
      assert next[..|next| - 1] == done;
      if Dirname(d) != d && !Capped(q.maxItems, |Hits(q.generate, existing, next)|) {
        VisitFromCapBound(q, existing, next, Dirname(d), m);
      }
    }
  }

  // ---------------------------------------------------------------------------
  // The whole walk

  /**
   * Termination, order and no revisits: the walk processes a prefix of the
   * ancestor chain of `start`, nearest first, at most |start| + 1 directories,
   * each strictly shorter than the one before.
   */
  lemma VisitedAreNearestAncestors(q: Query, existing: set<Path>, start: Path)
    ensures |Visited(q, existing, start)| <= |start| + 1 && Visited(q, existing, start) == Ancestors(start)[..|Visited(q, existing, start)|] &&
      (forall i :: 0 <= i < |Visited(q, existing, start)| ==> Visited(q, existing, start)[i] == start[..|start| - i]) &&
      (forall i, j :: 0 <= i < j < |Visited(q, existing, start)| ==> |Visited(q, existing, start)[j]| < |Visited(q, existing, start)[i]|)
  {
    VisitedIsAncestorPrefix(q, existing, start);
    AncestorsAt(start);
  }

  /** The same prefix fact alone, for the proofs below. */
  lemma VisitedIsAncestorPrefix(q: Query, existing: set<Path>, start: Path)
    ensures |Visited(q, existing, start)| <= |start| + 1 && Visited(q, existing, start) == Ancestors(start)[..|Visited(q, existing, start)|]
  {
    VisitFromShape(q, existing, [], start);
  }

  /** Nothing is processed that the stop predicate rejects. */
  lemma VisitedPassStopPredicate(q: Query, existing: set<Path>, start: Path)
    ensures forall i :: 0 <= i < |Visited(q, existing, start)| ==> q.Continues(Visited(q, existing, start)[i], existing)
  {
    VisitFromContinues(q, existing, [], start);
  }

  /**
   * A walk that ends before the root ends for one of two reasons: the next
   * ancestor fails the stop predicate, or the last processed directory brought
   * the result list to the cap.
   */
  lemma WalkEndsForAReason(q: Query, existing: set<Path>, start: Path)
    ensures |Visited(q, existing, start)| <= |start| ==>
        !q.Continues(Ancestors(start)[|Visited(q, existing, start)|], existing)
        || (|Visited(q, existing, start)| > 0 && Capped(q.maxItems, |Results(q, existing, start)|))
  {
    VisitFromStopReason(q, existing, [], start);
  }

  /** The cap is reached only by the last processed directory. */
  lemma CapReachedOnlyAtEnd(q: Query, existing: set<Path>, start: Path)
    ensures forall j :: 0 < j < |Visited(q, existing, start)| ==> !Capped(q.maxItems, |Hits(q.generate, existing, Visited(q, existing, start)[..j])|)
  {
    var v := Visited(q, existing, start);
    forall j | 0 < j < |v|
      ensures !Capped(q.maxItems, |Hits(q.generate, existing, v[..j])|)
    {
      VisitFromCapOnlyAtEnd(q, existing, [], start, j);
    }
  }

  /** Soundness: every result exists and is generated from an ancestor of `start`. */
  lemma ResultsSound(q: Query, existing: set<Path>, start: Path)
    ensures forall p :: p in Results(q, existing, start) ==>
        (p in existing && exists i :: 0 <= i < |start| + 1 && p == q.generate(Ancestors(start)[i]))
  {
    var v := Visited(q, existing, start);
    VisitedIsAncestorPrefix(q, existing, start);
    HitsExactlyExisting(q.generate, existing, v);
    forall p | p in Results(q, existing, start)
      ensures exists i :: 0 <= i < |start| + 1 && p == q.generate(Ancestors(start)[i])
    {
      var i :| 0 <= i < |v| && p == q.generate(v[i]);
      assert v[i] == Ancestors(start)[..|v|][i] == Ancestors(start)[i];
    }
  }

  /** A positive cap bounds the length of the result list. */
  lemma ResultCap(q: Query, existing: set<Path>, start: Path)
    requires q.maxItems.Some? && q.maxItems.value > 0
    ensures |Results(q, existing, start)| <= q.maxItems.value
  {
    VisitFromCapBound(q, existing, [], start, q.maxItems.value);
  }

  /** A negative cap is truthy and always reached: at most one directory is processed. */
  lemma NegativeCapProcessesOneDirectory(q: Query, existing: set<Path>, start: Path)
    requires q.maxItems.Some? && q.maxItems.value < 0
    ensures |Visited(q, existing, start)| <= 1
  {
  }

  /** With no option set, the walk processes the whole chain up to and including the root. */
  lemma UnrestrictedReachesRoot(q: Query, existing: set<Path>, start: Path)
    requires q.rootPath.None? && !q.stopAtPackageJson
    requires q.maxItems == None || q.maxItems == Some(0)
    ensures Visited(q, existing, start) == Ancestors(start)
  {
    VisitedIsAncestorPrefix(q, existing, start);
    WalkEndsForAReason(q, existing, start);
    AncestorsAt(start);
  }

  /**
   * Boundary mode: the walk stops, unprocessed, at `dirname(rootPath)`; every
   * directory below it (the `rootPath` directory itself among them) is processed.
   */
  lemma BoundaryStopsAtParentOfRoot(q: Query, existing: set<Path>, start: Path)
    requires q.rootPath.Some? && Dirname(q.rootPath.value) <= start
    requires q.maxItems == None || q.maxItems == Some(0)
    ensures Visited(q, existing, start) == Ancestors(start)[..|start| - |Dirname(q.rootPath.value)|]
  {
    BoundaryFrom(q, existing, [], start);
  }

  lemma {:induction false} BoundaryFrom(q: Query, existing: set<Path>, done: seq<Path>, d: Path)
    requires q.rootPath.Some? && Dirname(q.rootPath.value) <= d
    requires q.maxItems == None || q.maxItems == Some(0)
    ensures VisitFrom(q, existing, done, d) == done + Ancestors(d)[..|d| - |Dirname(q.rootPath.value)|]
    decreases |d|
  {
    var b := Dirname(q.rootPath.value);
    if d == b {
      assert Ancestors(d)[..0] == [];
    } else {
      var parent := Dirname(d);
      assert |b| < |d|;
      assert b <= parent by {
        assert parent == d[..|d| - 1];
      }
      assert q.Continues(d, existing) && Dirname(d) != d;
      assert !Capped(q.maxItems, |Hits(q.generate, existing, done + [d])|);
      assert VisitFrom(q, existing, done, d) == VisitFrom(q, existing, done + [d], parent);
      BoundaryFrom(q, existing, done + [d], parent);
      AncestorsExtend(done, d, VisitFrom(q, existing, done + [d], parent));
    }
  }

  /** When `rootPath` is itself an ancestor other than "/", it is the last directory processed. */
  lemma BoundaryProcessesRootPath(q: Query, existing: set<Path>, start: Path)
    requires q.rootPath.Some? && q.rootPath.value != Root && q.rootPath.value <= start
    requires q.maxItems == None || q.maxItems == Some(0)
    ensures |Visited(q, existing, start)| > 0 && Visited(q, existing, start)[|Visited(q, existing, start)| - 1] == q.rootPath.value
  {
    var root := q.rootPath.value;
    var k := |start| - |root| + 1;
    BoundaryStopsAtParentOfRoot(q, existing, start);
    AncestorsAt(start);
    assert Ancestors(start)[k - 1] == start[..|root|] == root;
  }

  /** With `rootPath` "/", the root is never processed, because it is its own parent. */
  lemma BoundaryAtFilesystemRoot(q: Query, existing: set<Path>, start: Path)
    requires q.rootPath == Some(Root)
    ensures Root !in Visited(q, existing, start)
  {
    VisitedPassStopPredicate(q, existing, start);
  }

  /** A boundary whose parent is not on the chain never stops the walk: it goes to the root. */
  lemma BoundaryOffTheChain(q: Query, existing: set<Path>, start: Path)
    requires q.rootPath.Some? && !(Dirname(q.rootPath.value) <= start)
    requires q.maxItems == None || q.maxItems == Some(0)
    ensures Visited(q, existing, start) == Ancestors(start)
  {
    VisitedIsAncestorPrefix(q, existing, start);
    WalkEndsForAReason(q, existing, start);
    AncestorsAt(start);
  }

  /**
   * package.json mode: the walk processes exactly the longest run of ancestors,
   * from `start` on, that each hold a package.json; the first one without
   * ends the walk unprocessed.
   */
  lemma PackageJsonMode(q: Query, existing: set<Path>, start: Path)
    requires q.rootPath.None? && q.stopAtPackageJson
    requires q.maxItems == None || q.maxItems == Some(0)
    ensures |Visited(q, existing, start)| <= |start| + 1 && Visited(q, existing, start) == Ancestors(start)[..|Visited(q, existing, start)|] &&
      (forall i :: 0 <= i < |Visited(q, existing, start)| ==> Visited(q, existing, start)[i] + [PackageJson] in existing) &&
      (|Visited(q, existing, start)| <= |start| ==> Ancestors(start)[|Visited(q, existing, start)|] + [PackageJson] !in existing)
  {
    VisitedAreNearestAncestors(q, existing, start);
    VisitedPassStopPredicate(q, existing, start);
    WalkEndsForAReason(q, existing, start);
  }
}
