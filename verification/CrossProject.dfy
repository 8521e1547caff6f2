/**
 Write roots and wait-only dependencies: internal/compile/crossproject.go.

 A canonical write root is an absolute, cleaned, symlink-free path; here it is the list of its
 components.
 */
module CrossProject {
  import opened Letters
  import opened SolutionGraph

  type Root = seq<string>
  type WriteRoots = map<Path, seq<Root>>

  // ----- paths

  function Fold(caseSensitive: bool, p: Root): Root {
    if caseSensitive then p else seq(|p|, i requires 0 <= i < |p| => Lower(p[i]))
  }

  /** The components of the relative path from `root` to `path`, as filepath.Rel computes it. */
  function Rel(root: Root, path: Root): Root {
    if root != [] && path != [] && root[0] == path[0] then Rel(root[1..], path[1..])
    else Ups(|root|) + path
  }

  function Ups(n: nat): Root {
    if n == 0 then [] else [".."] + Ups(n - 1)
  }

  predicate Canonical(p: Root) {
    forall i :: 0 <= i < |p| ==> p[i] != ".." && p[i] != "." && p[i] != ""
  }

  /** internal/compile/crossproject.go: writeRootContains. */
  predicate WriteRootContains(caseSensitive: bool, root: Root, path: Root) {
    var relative := Rel(Fold(caseSensitive, root), Fold(caseSensitive, path));
    !(relative != [] && relative[0] == "..")
  }

  predicate RootsMeet(caseSensitive: bool, l: Root, r: Root) {
    WriteRootContains(caseSensitive, l, r) || WriteRootContains(caseSensitive, r, l)
  }

  predicate WriteRootsOverlap(caseSensitive: bool, left: seq<Root>, right: seq<Root>) {
    exists i, j :: 0 <= i < |left| && 0 <= j < |right| && RootsMeet(caseSensitive, left[i], right[j])
  }

  predicate AllCanonical(roots: seq<Root>) {
    forall i :: 0 <= i < |roots| ==> Canonical(roots[i])
  }

  lemma LowerKeepsDots(s: string)
    ensures (Lower(s) == ".." <==> s == "..") && (Lower(s) == "." <==> s == ".") && (Lower(s) == "" <==> s == "")
  {
    var l := Lower(s);
    assert |l| == |s|;
    if |s| == 2 { assert l == [LowerChar(s[0]), LowerChar(s[1])] && s == [s[0], s[1]]; }
    if |s| == 1 { assert l == [LowerChar(s[0])] && s == [s[0]]; }
  }

  lemma FoldKeepsCanonical(caseSensitive: bool, p: Root)
    requires Canonical(p)
    ensures Canonical(Fold(caseSensitive, p))
  {
    forall i | 0 <= i < |p|
      ensures Fold(caseSensitive, p)[i] != ".." && Fold(caseSensitive, p)[i] != "." && Fold(caseSensitive, p)[i] != ""
    {
      LowerKeepsDots(p[i]);
    }
  }

  lemma {:induction false} RelClimbsUnlessPrefix(root: Root, path: Root)
    requires Canonical(path)
    ensures (Rel(root, path) != [] && Rel(root, path)[0] == "..") <==> !(root <= path)
  {
    if root != [] && path != [] && root[0] == path[0] {
      RelClimbsUnlessPrefix(root[1..], path[1..]);
      assert root <= path <==> root[1..] <= path[1..];
    } else if root == [] {
      assert Rel(root, path) == path;
    }
  }

  /** The path starts with the root's components; where names are not case sensitive, up to the case of letters. */
  ghost predicate LiesUnder(caseSensitive: bool, root: Root, path: Root) {
    if caseSensitive then root <= path
    else |root| <= |path| && forall i :: 0 <= i < |root| ==> SameButCase(root[i], path[i])
  }

  lemma FoldedPrefix(caseSensitive: bool, root: Root, path: Root)
    ensures Fold(caseSensitive, root) <= Fold(caseSensitive, path) <==> LiesUnder(caseSensitive, root, path)
  {
    if !caseSensitive && |root| <= |path| {
      var f, g := Fold(false, root), Fold(false, path);
      forall i | 0 <= i < |root| ensures f[i] == g[i] <==> SameButCase(root[i], path[i]) {
        LowerEqualExactly(root[i], path[i]);
      }
      assert f <= g <==> forall i :: 0 <= i < |root| ==> f[i] == g[i];
    }
  }

  /** The relative-path test is containment. */
  lemma ContainsIsPrefix(caseSensitive: bool, root: Root, path: Root)
    requires Canonical(path)
    ensures WriteRootContains(caseSensitive, root, path) <==> LiesUnder(caseSensitive, root, path)
  {
    FoldKeepsCanonical(caseSensitive, path);
    RelClimbsUnlessPrefix(Fold(caseSensitive, root), Fold(caseSensitive, path));
    FoldedPrefix(caseSensitive, root, path);
  }

  /** `file` lies under one of `roots`. */
  ghost predicate WritesTo(caseSensitive: bool, roots: seq<Root>, file: Root) {
    exists i :: 0 <= i < |roots| && LiesUnder(caseSensitive, roots[i], file)
  }

  lemma RootsMeetExactly(caseSensitive: bool, l: Root, r: Root)
    requires Canonical(l) && Canonical(r)
    ensures RootsMeet(caseSensitive, l, r) <==> LiesUnder(caseSensitive, l, r) || LiesUnder(caseSensitive, r, l)
  {
    ContainsIsPrefix(caseSensitive, l, r);
    ContainsIsPrefix(caseSensitive, r, l);
  }

  /** Of two roots above one file, one lies under the other. */
  lemma SharedFileMeets(caseSensitive: bool, l: Root, r: Root, file: Root)
    requires Canonical(l) && Canonical(r) && LiesUnder(caseSensitive, l, file) && LiesUnder(caseSensitive, r, file)
    ensures RootsMeet(caseSensitive, l, r)
  {
    RootsMeetExactly(caseSensitive, l, r);
    FoldedPrefix(caseSensitive, l, file);
    FoldedPrefix(caseSensitive, r, file);
    FoldedPrefix(caseSensitive, l, r);
    FoldedPrefix(caseSensitive, r, l);
  }

  /** Two projects' roots overlap exactly when some file lies under both. */
  lemma OverlapMeansSharedFile(caseSensitive: bool, left: seq<Root>, right: seq<Root>)
    requires AllCanonical(left) && AllCanonical(right)
    ensures WriteRootsOverlap(caseSensitive, left, right) <==>
            exists file :: WritesTo(caseSensitive, left, file) && WritesTo(caseSensitive, right, file)
  {
    if WriteRootsOverlap(caseSensitive, left, right) {
      var i, j :| 0 <= i < |left| && 0 <= j < |right| && RootsMeet(caseSensitive, left[i], right[j]);
      RootsMeetExactly(caseSensitive, left[i], right[j]);
      LiesUnderItself(caseSensitive, left[i]);
      LiesUnderItself(caseSensitive, right[j]);
      var file := if LiesUnder(caseSensitive, left[i], right[j]) then right[j] else left[i];
      assert WritesTo(caseSensitive, left, file) && WritesTo(caseSensitive, right, file);
    }
    if file :| WritesTo(caseSensitive, left, file) && WritesTo(caseSensitive, right, file) {
      var i :| 0 <= i < |left| && LiesUnder(caseSensitive, left[i], file);
      var j :| 0 <= j < |right| && LiesUnder(caseSensitive, right[j], file);
      SharedFileMeets(caseSensitive, left[i], right[j], file);
    }
  }

  lemma LiesUnderItself(caseSensitive: bool, root: Root)
    ensures LiesUnder(caseSensitive, root, root)
  {
  }

  lemma OverlapSymmetric(caseSensitive: bool, left: seq<Root>, right: seq<Root>)
    requires WriteRootsOverlap(caseSensitive, left, right)
    ensures WriteRootsOverlap(caseSensitive, right, left)
  {
    var i, j :| 0 <= i < |left| && 0 <= j < |right| && RootsMeet(caseSensitive, left[i], right[j]);
    assert RootsMeet(caseSensitive, right[j], left[i]);
  }

  // ----- wait-only dependencies

  function RootsOf(writeRoots: WriteRoots, p: Path): seq<Root> {
    if p in writeRoots then writeRoots[p] else []
  }

  function Get(dependencies: map<Path, seq<Path>>, p: Path): seq<Path> {
    if p in dependencies then dependencies[p] else []
  }

  /** The overlap test on two projects' config paths. */
  function OverlapOf(caseSensitive: bool, writeRoots: WriteRoots): (Path, Path) -> bool {
    (a, b) => WriteRootsOverlap(caseSensitive, RootsOf(writeRoots, a), RootsOf(writeRoots, b))
  }

  /** The projects before position `n` whose write roots overlap those of `later`, in order. */
  function EarlierOverlaps(projects: seq<Project>, overlap: (Path, Path) -> bool, later: nat, n: nat): seq<Path>
    requires n <= later < |projects|
  {
    if n == 0 then []
    else
      EarlierOverlaps(projects, overlap, later, n - 1) +
      (if overlap(projects[n - 1].configPath, projects[later].configPath) then [projects[n - 1].configPath] else [])
  }

  lemma {:induction false} EarlierOverlapsExactly(projects: seq<Project>, overlap: (Path, Path) -> bool,
                                                  later: nat, n: nat, p: Path)
    requires n <= later < |projects|
    ensures p in EarlierOverlaps(projects, overlap, later, n) <==>
            ProjectEarlier(projects, p, n) && overlap(p, projects[later].configPath)
  {
    if n > 0 {
      EarlierOverlapsExactly(projects, overlap, later, n - 1, p);
      if ProjectEarlier(projects, p, n) && projects[n - 1].configPath != p {
        var e :| 0 <= e < n && projects[e].configPath == p;
        assert e < n - 1;
        assert ProjectEarlier(projects, p, n - 1);
      }
      if projects[n - 1].configPath == p { assert ProjectEarlier(projects, p, n); }
      if ProjectEarlier(projects, p, n - 1) {
        var e :| 0 <= e < n - 1 && projects[e].configPath == p;
        assert ProjectEarlier(projects, p, n);
      }
    }
  }

  /** The inner loop of deriveWaitOnlyDependencies: the entry of one project. */
  method AddOverlapsOf(
    projects: seq<Project>, overlap: (Path, Path) -> bool, laterIndex: nat, given: map<Path, seq<Path>>)
    returns (dependencies: map<Path, seq<Path>>)
    requires laterIndex < |projects| && projects[laterIndex].configPath !in given
    ensures Get(dependencies, projects[laterIndex].configPath) ==
      EarlierOverlaps(projects, overlap, laterIndex, laterIndex)
    ensures forall p :: p != projects[laterIndex].configPath ==>
              Get(dependencies, p) == Get(given, p) && (p in dependencies <==> p in given)
  {
    dependencies := given;
    var later := projects[laterIndex].configPath;
    var earlierIndex := 0;
    while earlierIndex < laterIndex
      invariant 0 <= earlierIndex <= laterIndex
      invariant Get(dependencies, later) == EarlierOverlaps(projects, overlap, laterIndex, earlierIndex)
      invariant forall p :: p != later ==> Get(dependencies, p) == Get(given, p) && (p in dependencies <==> p in given)
    {
      var earlier := projects[earlierIndex].configPath;
      if overlap(earlier, later) {
        dependencies := dependencies[later := Get(dependencies, later) + [earlier]];
      }
      earlierIndex := earlierIndex + 1;
    }
  }

  ghost predicate RowDone(
    projects: seq<Project>, overlap: (Path, Path) -> bool, dependencies: map<Path, seq<Path>>, i: nat)
    requires i < |projects|
  {
    Get(dependencies, projects[i].configPath) == EarlierOverlaps(projects, overlap, i, i)
  }

  /** Every project waits for exactly the earlier projects it overlaps, in graph order. */
  ghost predicate WaitsForOverlaps(
    projects: seq<Project>, overlap: (Path, Path) -> bool, dependencies: map<Path, seq<Path>>) {
    forall i :: 0 <= i < |projects| ==> RowDone(projects, overlap, dependencies, i)
  }

  /** internal/compile/crossproject.go: deriveWaitOnlyDependencies, for the overlap test of the write roots. */
  method DeriveWaitOnlyDependencies(projects: seq<Project>, overlap: (Path, Path) -> bool)
    returns (dependencies: map<Path, seq<Path>>)
    requires DistinctProjects(projects)
    ensures WaitsForOverlaps(projects, overlap, dependencies)
  {
    dependencies := map[];
    var laterIndex := 1;
    while laterIndex < |projects|
      invariant 1 <= laterIndex
      invariant forall i :: 0 <= i < laterIndex && i < |projects| ==> RowDone(projects, overlap, dependencies, i)
      invariant forall i :: laterIndex <= i < |projects| ==> projects[i].configPath !in dependencies
    {
      var before := dependencies;
      dependencies := AddOverlapsOf(projects, overlap, laterIndex, dependencies);
      forall i | 0 <= i < laterIndex ensures RowDone(projects, overlap, dependencies, i) {
        assert RowDone(projects, overlap, before, i);
      }
      assert RowDone(projects, overlap, dependencies, laterIndex);
      laterIndex := laterIndex + 1;
    }
  }
}
