/**
 * POSIX paths as the walk sees them: an absolute, resolved path is the list of
 * its segments, and the root directory "/" is the empty list.
 */
module Paths {

  type Path = seq<string>

  const Root: Path := []

  /** `path.dirname`: the parent directory; the root is its own parent. */
  function Dirname(p: Path): Path
  {
    if p == Root then Root else p[..|p| - 1]
  }

  /** `path.join` of a directory and further segments. */
  function Join(p: Path, segments: seq<string>): Path
  {
    p + segments
  }

  /** The path generator `d => path.join(d, ...segments)`. */
  function JoinWith(segments: seq<string>): Path -> Path
  {
    d => Join(d, segments)
  }

  /** The chain a walk up from `p` meets, nearest first: `p`, its parent, ..., the root. */
  function Ancestors(p: Path): (r: seq<Path>)
    ensures |r| == |p| + 1 && r[0] == p
    decreases |p|
  {
    if p == Root then [Root] else [p] + Ancestors(Dirname(p))
  }

  /** The i-th ancestor is `p` with its last i segments dropped. */
  lemma {:induction false} AncestorsAt(p: Path)
    ensures forall i :: 0 <= i < |Ancestors(p)| ==> Ancestors(p)[i] == p[..|p| - i]
    decreases |p|
  {
    if p != Root {
      var parent := Dirname(p);
      AncestorsAt(parent);
      assert Ancestors(p) == [p] + Ancestors(parent);
    }
  }

  /** The string form of a path: "/" for the root, "/a/b" otherwise. */
  function Render(p: Path): (s: string)
    ensures |s| >= 1 && s[0] == '/'
  {
    if p == Root then "/" else RenderSegments(p)
  }

  function RenderSegments(p: Path): (s: string)
    ensures p != [] ==> |s| >= 1 && s[0] == '/'
  {
    if p == [] then "" else RenderSegments(p[..|p| - 1]) + "/" + p[|p| - 1]
  }

  /** The JavaScript `length` of the rendered path. */
  function Len(p: Path): nat
  {
    |Render(p)|
  }

  /** The root, and only the root, is its own parent; any other path loses exactly its last segment. */
  lemma DirnameIsParent(p: Path)
    ensures Dirname(p) == p <==> p == Root
    ensures p != Root ==> Dirname(p) + [p[|p| - 1]] == p
  {
  }

  /** The parent of a joined file name is the directory it was joined to. */
  lemma DirnameOfJoin(d: Path, name: string)
    ensures Dirname(Join(d, [name])) == d
  {
    assert Join(d, [name])[..|d|] == d;
  }

  /** One more segment adds a separator and the segment to the rendered length. */
  lemma LenOfChild(p: Path, s: string)
    ensures Len(p + [s]) == (if p == Root then 0 else Len(p)) + 1 + |s|
  {
    assert (p + [s])[..|p|] == p;
    assert Render(p + [s]) == RenderSegments(p) + "/" + s;
  }

  /**
   * A strictly deeper directory, all of whose extra segments are non-empty,
   * renders strictly longer: "longest" and "deepest" agree along one chain.
   */
  lemma {:induction false} DeeperIsLonger(a: Path, b: Path)
    requires a < b
    requires forall i :: |a| <= i < |b| ==> b[i] != ""
    ensures Len(a) < Len(b)
  {
    var parent := b[..|b| - 1];
    assert b == parent + [b[|b| - 1]];
    LenOfChild(parent, b[|b| - 1]);
    if a != parent {
      assert a < parent;
      DeeperIsLonger(a, parent);
    }
  }
}
