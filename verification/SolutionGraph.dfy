/**
 Reading a solution's project references: internal/compile/solution.go, BuildSolutionGraph,
 postOrderProjectPaths and solutionCycleError.

 The config files are a map from normalised path to decoded contents; a path outside the map is a
 config that cannot be read.
 */
module SolutionGraph {
  import opened Wrappers
  import opened Sequences
  import opened Graphs

  type Path = string

  datatype Config = Config(references: seq<Path>, coordinator: bool)
  datatype Project = Project(configPath: Path, references: seq<Path>, coordinator: bool)
  datatype Visit = Visiting | Visited
  datatype GraphError = Cycle(paths: seq<Path>) | Unreadable(path: Path)
  datatype Result<+T> = Success(value: T) | Failure(error: GraphError)

  type Configs = map<Path, Config>

  function References(configs: Configs): Graph<Path> {
    map p | p in configs :: configs[p].references
  }

  function ProjectAt(configs: Configs, p: Path): Project
    requires p in configs
  {
    Project(p, configs[p].references, configs[p].coordinator)
  }

  // ----- what an error must mean

  /** A closed walk, repeating its first node at the end. */
  ghost predicate IsCycle(g: Graph<Path>, c: seq<Path>) {
    |c| >= 2 && c[0] == c[|c| - 1] && IsWalk(g, c, c[0], c[0])
  }

  ghost predicate ErrorIsReal(configs: Configs, root: Path, e: GraphError) {
    var g := References(configs);
    match e
    case Cycle(c) => IsCycle(g, c) && Reaches(g, root, c[0])
    case Unreadable(p) => Reaches(g, root, p) && p !in configs
  }

  lemma CycleMeansOnCycle(g: Graph<Path>, c: seq<Path>)
    requires IsCycle(g, c)
    ensures OnCycle(g, c[0])
  {
    assert c[1] in Succ(g, c[0]);
    assert IsWalk(g, c[1..], c[1], c[0]);
  }

  /** internal/compile/solution.go: solutionCycleError. */
  method SolutionCycleError(g: Graph<Path>, stack: seq<Path>, repeated: Path) returns (cycle: seq<Path>)
    requires repeated in stack && Distinct(stack)
    requires forall i :: 0 <= i < |stack| - 1 ==> stack[i + 1] in Succ(g, stack[i])
    requires repeated in Succ(g, stack[|stack| - 1])
    ensures IsCycle(g, cycle) && cycle[0] == repeated
    ensures forall x :: x in cycle ==> x in stack
  {
    var start := 0;
    var index := 0;
    while index < |stack|
      invariant 0 <= index <= |stack| && start == 0
      invariant repeated !in stack[..index]
    {
      if stack[index] == repeated {
        start := index;
        break;
      }
      index := index + 1;
    }
    cycle := stack[start..] + [repeated];
    assert stack[start] == repeated;
    forall i | 0 <= i < |cycle| - 1 ensures cycle[i + 1] in Succ(g, cycle[i]) {
      assert cycle[i] == stack[start + i];
      if start + i + 1 < |stack| { assert cycle[i + 1] == stack[start + i + 1]; }
    }
  }

  // ----- the three-colour walk

  /** The grey paths are the stack, and the stack is a walk. */
  ghost predicate StackOk(g: Graph<Path>, visits: map<Path, Visit>, stack: seq<Path>) {
    && Distinct(stack)
    && (forall p :: p in stack <==> p in visits && visits[p] == Visiting)
    && (forall i :: 0 <= i < |stack| - 1 ==> stack[i + 1] in Succ(g, stack[i]))
  }

  /** The black paths, listed by the end of their visit, come after what they reference. */
  ghost predicate FinishedOk(g: Graph<Path>, visits: map<Path, Visit>, finished: seq<Path>) {
    && Distinct(finished)
    && (forall p :: p in finished <==> p in visits && visits[p] == Visited)
    && SuccessorsFirst(g, finished)
  }

  ghost predicate VisitedOk(configs: Configs, root: Path, projects: map<Path, Project>, visits: map<Path, Visit>) {
    forall p :: p in visits ==>
      && p in configs && Reaches(References(configs), root, p)
      && p in projects && projects[p] == ProjectAt(configs, p)
  }

  /** Colours are only added. */
  ghost predicate Extends(before: map<Path, Visit>, after: map<Path, Visit>) {
    forall p :: p in before ==> p in after && after[p] == before[p]
  }

  lemma NextReachable(configs: Configs, root: Path, projects: map<Path, Project>, visits: map<Path, Visit>,
                      stack: seq<Path>, next: Path)
    requires StackOk(References(configs), visits, stack) && VisitedOk(configs, root, projects, visits)
    requires if stack == [] then next == root else next in Succ(References(configs), stack[|stack| - 1])
    ensures Reaches(References(configs), root, next)
  {
    if stack == [] {
      ReachesSelf(References(configs), root);
    } else {
      assert stack[|stack| - 1] in stack;
      ReachesThenEdge(References(configs), root, stack[|stack| - 1], next);
    }
  }

  lemma EnterKeepsOk(g: Graph<Path>, visits: map<Path, Visit>, stack: seq<Path>, finished: seq<Path>, p: Path)
    requires StackOk(g, visits, stack) && FinishedOk(g, visits, finished)
    requires p !in visits && (stack != [] ==> p in Succ(g, stack[|stack| - 1]))
    ensures StackOk(g, visits[p := Visiting], stack + [p])
    ensures FinishedOk(g, visits[p := Visiting], finished)
  {
  }

  lemma LeaveKeepsOk(g: Graph<Path>, before: map<Path, Visit>, visits: map<Path, Visit>, outer: seq<Path>,
                     finished: seq<Path>, p: Path)
    requires p !in before && Extends(before[p := Visiting], visits)
    requires StackOk(g, visits, outer + [p]) && FinishedOk(g, visits, finished)
    requires forall r :: r in Succ(g, p) ==> r in visits && visits[r] == Visited
    ensures StackOk(g, visits[p := Visited], outer)
    ensures FinishedOk(g, visits[p := Visited], finished + [p])
    ensures Extends(before, visits[p := Visited]) && (outer + [p])[..|outer|] == outer
  {
    assert forall q :: q in before ==> q in before[p := Visiting] && before[p := Visiting][q] == before[q];
    var grey := outer + [p];
    assert p in grey;
    forall q | q in outer ensures q in grey && q != p {
      var i :| 0 <= i < |outer| && outer[i] == q;
      assert grey[i] == q && grey[|outer|] == p;
    }
    forall i | 0 <= i < |outer| - 1 ensures outer[i + 1] in Succ(g, outer[i]) {
      assert grey[i] == outer[i] && grey[i + 1] == outer[i + 1];
    }
    assert forall i, j :: 0 <= i < j < |outer| ==> grey[i] == outer[i] && grey[j] == outer[j];
    AppendKeepsOrder(g, finished, p);
  }

  class ReferenceWalk {
    const configs: Configs
    ghost const root: Path
    var projects: map<Path, Project>
    var visits: map<Path, Visit>
    var stack: seq<Path>
    ghost var finished: seq<Path>     // the visited paths, in the order their visit ended

    constructor (configs: Configs, root: Path)
      ensures Valid() && this.configs == configs && this.root == root
      ensures stack == [] && visits == map[] && finished == []
    {
      this.configs := configs;
      this.root := root;
      projects, visits, stack, finished := map[], map[], [], [];
    }

    ghost predicate Valid()
      reads this
    {
      && StackOk(References(configs), visits, stack)
      && FinishedOk(References(configs), visits, finished)
      && VisitedOk(configs, root, projects, visits)
    }

    method Visit(configPath: Path) returns (err: Option<GraphError>)
      requires Valid()
      requires if stack == [] then configPath == root else configPath in Succ(References(configs), stack[|stack| - 1])
      modifies this
      ensures err.Some? ==> ErrorIsReal(configs, root, err.value)
      ensures err.None? ==> Valid() && stack == old(stack) && Extends(old(visits), visits)
      ensures err.None? ==> configPath in visits && visits[configPath] == Visited
      decreases configs.Keys - visits.Keys, 1
    {
      NextReachable(configs, root, projects, visits, stack, configPath);
      if configPath in visits {
        if visits[configPath] == Visiting {
          var cycle := SolutionCycleError(References(configs), stack, configPath);
          return Some(Cycle(cycle));
        }
        return None;
      }
      err := VisitUnvisited(configPath);
    }

    /** Visit of a path seen for the first time. */
    method VisitUnvisited(configPath: Path) returns (err: Option<GraphError>)
      requires Valid() && configPath !in visits && Reaches(References(configs), root, configPath)
      requires stack != [] ==> configPath in Succ(References(configs), stack[|stack| - 1])
      modifies this
      ensures err.Some? ==> ErrorIsReal(configs, root, err.value)
      ensures err.None? ==> Valid() && stack == old(stack) && Extends(old(visits), visits)
      ensures err.None? ==> configPath in visits && visits[configPath] == Visited
      decreases configs.Keys - visits.Keys, 0
    {
      ghost var outer, before := stack, visits;
      var readable := Enter(configPath);
      if !readable { return Some(Unreadable(configPath)); }
      err := VisitReferences(configPath);
      if err.Some? { return; }
      Leave(configPath, before, outer);
    }

    /** Puts a path on the stack and its project in the map, if its config can be read. */
    method Enter(configPath: Path) returns (readable: bool)
      requires Valid() && configPath !in visits && Reaches(References(configs), root, configPath)
      requires stack != [] ==> configPath in Succ(References(configs), stack[|stack| - 1])
      modifies this
      ensures readable <==> configPath in configs
      ensures visits == old(visits)[configPath := Visiting] && stack == old(stack) + [configPath]
      ensures finished == old(finished)
      ensures readable ==> Valid()
    {
      EnterKeepsOk(References(configs), visits, stack, finished, configPath);
      visits := visits[configPath := Visiting];
      stack := stack + [configPath];
      readable := configPath in configs;
      if readable { projects := projects[configPath := ProjectAt(configs, configPath)]; }
    }

    /** Takes a path whose references are all visited off the stack. */
    method Leave(configPath: Path, ghost before: map<Path, Visit>, ghost outer: seq<Path>)
      requires Valid() && configPath !in before && StackOk(References(configs), before, outer)
      requires stack == outer + [configPath] && Extends(before[configPath := Visiting], visits) && configPath in configs
      requires forall r :: r in configs[configPath].references ==> r in visits && visits[r] == Visited
      modifies this
      ensures Valid() && stack == outer && Extends(before, visits) && configPath in visits
      ensures visits[configPath] == Visited
    {
      LeaveKeepsOk(References(configs), before, visits, outer, finished, configPath);
      visits := visits[configPath := Visited];
      stack := stack[..|stack| - 1];
      finished := finished + [configPath];
    }

    /** The loop of Visit over the references of the path on top of the stack. */
    method VisitReferences(configPath: Path) returns (err: Option<GraphError>)
      requires Valid() && configPath in configs
      requires stack != [] && stack[|stack| - 1] == configPath
      modifies this
      ensures err.Some? ==> ErrorIsReal(configs, root, err.value)
      ensures err.None? ==> Valid() && stack == old(stack) && Extends(old(visits), visits)
      ensures err.None? ==> forall r :: r in configs[configPath].references ==> r in visits && visits[r] == Visited
      decreases configs.Keys - visits.Keys, 2
    {
      var references := configs[configPath].references;
      var i := 0;
      while i < |references|
        invariant 0 <= i <= |references|
        invariant Valid() && stack == old(stack) && Extends(old(visits), visits)
        invariant forall j :: 0 <= j < i ==> references[j] in visits && visits[references[j]] == Visited
      {
        assert references[i] in Succ(References(configs), configPath);
        err := Visit(references[i]);
        if err.Some? { return; }
        i := i + 1;
      }
      err := None;
    }
  }

  // ----- the post-order listing

  ghost function Remaining(finished: seq<Path>, visited: set<Path>): set<Path> {
    set p | p in finished && p !in visited
  }

  /** The first `n` of the references are listed. */
  ghost predicate FirstListed(references: seq<Path>, n: nat, paths: seq<Path>)
    requires n <= |references|
  {
    forall j :: 0 <= j < n ==> references[j] in paths
  }

  lemma StillListed(references: seq<Path>, n: nat, before: seq<Path>, after: seq<Path>)
    requires n < |references| && FirstListed(references, n, before) && before <= after && references[n] in after
    ensures FirstListed(references, n + 1, after)
  {
  }

  lemma RemainingShrinks(finished: seq<Path>, before: set<Path>, visited: set<Path>, p: Path)
    requires p in finished && p !in before && before + {p} <= visited
    ensures Remaining(finished, visited) < Remaining(finished, before)
  {
    assert p in Remaining(finished, before) && p !in Remaining(finished, visited);
  }

  class PostOrderWalk {
    const projects: map<Path, Project>
    ghost const configs: Configs
    ghost const finished: seq<Path>     // a successors-first listing of what is reachable
    ghost const root: Path
    var paths: seq<Path>
    var visited: set<Path>

    constructor (projects: map<Path, Project>, ghost configs: Configs, ghost finished: seq<Path>, ghost root: Path)
      ensures this.projects == projects && this.configs == configs && this.finished == finished && this.root == root
      ensures paths == [] && visited == {}
    {
      this.projects := projects;
      this.configs := configs;
      this.finished := finished;
      this.root := root;
      paths, visited := [], {};
    }

    ghost predicate Context() {
      var g := References(configs);
      && Distinct(finished) && SuccessorsFirst(g, finished)
      && forall p :: p in finished ==> p in configs && p in projects && projects[p] == ProjectAt(configs, p)
    }

    ghost predicate Valid(trail: set<Path>)
      reads this
    {
      && Distinct(paths) && SuccessorsFirst(References(configs), paths)
      && (forall p :: p in visited <==> p in paths || p in trail)
      && (forall p :: p in paths ==> p !in trail && Reaches(References(configs), root, p))
    }

    method Visit(configPath: Path, ghost trail: set<Path>)
      requires Context() && Valid(trail) && configPath in finished
      requires Reaches(References(configs), root, configPath)
      requires forall t :: t in trail ==> t in finished && ReachesByEdge(References(configs), t, configPath)
      modifies this
      ensures Valid(trail) && configPath in paths
      ensures old(paths) <= paths
      decreases Remaining(finished, visited)
    {
      ghost var g := References(configs);
      if configPath in visited {
        if configPath in trail {
          var i :| 0 <= i < |finished| && finished[i] == configPath;
          ListedNotOnCycle(g, finished, i);
        }
        return;
      }
      ghost var before := visited;
      visited := visited + {configPath};
      assert configPath in finished && configPath !in before;
      ghost var inner := trail + {configPath};
      var references := projects[configPath].references;
      var i := 0;
      while i < |references|
        invariant 0 <= i <= |references|
        invariant Valid(inner) && old(paths) <= paths && before + {configPath} <= visited
        invariant FirstListed(references, i, paths)
      {
        ghost var r, listed := references[i], paths;
        assert r in Succ(g, configPath);
        SuccessorFinished(configPath, r);
        ReachesThenEdge(g, root, configPath, r);
        TrailLeadsOn(g, trail, configPath, r);
        RemainingShrinks(finished, before, visited, configPath);
        Visit(references[i], inner);
        StillListed(references, i, listed, paths);
        i := i + 1;
      }
      AppendKeepsOrder(g, paths, configPath);
      paths := paths + [configPath];
    }

    static lemma TrailLeadsOn(g: Graph<Path>, trail: set<Path>, p: Path, r: Path)
      requires r in Succ(g, p) && forall t :: t in trail ==> ReachesByEdge(g, t, p)
      ensures forall t :: t in trail + {p} ==> ReachesByEdge(g, t, r)
    {
      EdgeReaches(g, p, r);
      forall t | t in trail ensures ReachesByEdge(g, t, r) {
        var c :| c in Succ(g, t) && Reaches(g, c, p);
        ReachesTransitive(g, c, p, r);
      }
    }

    lemma SuccessorFinished(p: Path, r: Path)
      requires Context() && p in finished && r in Succ(References(configs), p)
      ensures r in finished
    {
      var i :| 0 <= i < |finished| && finished[i] == p;
      assert Earlier(finished, r, i);
    }
  }

  lemma AppendKeepsOrder(g: Graph<Path>, paths: seq<Path>, p: Path)
    requires SuccessorsFirst(g, paths) && forall r :: r in Succ(g, p) ==> r in paths
    ensures SuccessorsFirst(g, paths + [p])
  {
    var order := paths + [p];
    forall i, y | 0 <= i < |order| && y in Succ(g, order[i]) ensures Earlier(order, y, i) {
      if i < |paths| {
        assert Earlier(paths, y, i);
        var j :| 0 <= j < i && paths[j] == y;
        assert order[j] == y;
      } else {
        var j :| 0 <= j < |paths| && paths[j] == y;
        assert order[j] == y;
      }
    }
  }

  // ----- the graph

  /** `p` is listed before position `i`. */
  ghost predicate ProjectEarlier(projects: seq<Project>, p: Path, i: nat)
    requires i <= |projects|
  {
    exists j :: 0 <= j < i && projects[j].configPath == p
  }

  ghost predicate Listed(projects: seq<Project>, p: Path) {
    ProjectEarlier(projects, p, |projects|)
  }

  ghost predicate DistinctProjects(projects: seq<Project>) {
    forall i, j :: 0 <= i < j < |projects| ==> projects[i].configPath != projects[j].configPath
  }

  /**
   The graph lists exactly the reachable projects that are not coordinators, once each, and each after
   every project it references directly or through others.
   */
  ghost predicate IsSolutionGraph(configs: Configs, root: Path, projects: seq<Project>) {
    var g := References(configs);
    && DistinctProjects(projects)
    && (forall p :: Listed(projects, p) <==> p in configs && Reaches(g, root, p) && !configs[p].coordinator)
    && (forall i :: 0 <= i < |projects| ==>
          projects[i].configPath in configs && projects[i] == ProjectAt(configs, projects[i].configPath))
    && (forall i, y :: 0 <= i < |projects| && Listed(projects, y) && ReachesByEdge(g, projects[i].configPath, y) ==>
          ProjectEarlier(projects, y, i))
  }

  ghost predicate AllReadable(configs: Configs, root: Path) {
    forall p :: Reaches(References(configs), root, p) ==> p in configs
  }

  /**
   internal/compile/solution.go: BuildSolutionGraph.  A cycle is reported exactly when one is reachable,
   as long as every reachable config can be read.
   */
  method BuildSolutionGraph(configs: Configs, rootPath: Path) returns (r: Result<seq<Project>>)
    ensures r.Success? ==> IsSolutionGraph(configs, rootPath, r.value)
    ensures r.Failure? ==> ErrorIsReal(configs, rootPath, r.error)
    ensures r.Success? <==> AllReadable(configs, rootPath) && !CycleReachableFrom(References(configs), rootPath)
    ensures AllReadable(configs, rootPath) ==>
      (r.Failure? && r.error.Cycle? <==> CycleReachableFrom(References(configs), rootPath))
  {
    ghost var g := References(configs);
    var walk := new ReferenceWalk(configs, rootPath);
    var err := walk.Visit(rootPath);
    if err.Some? {
      if err.value.Cycle? { CycleMeansOnCycle(g, err.value.paths); }
      return Failure(err.value);
    }
    var post := new PostOrderWalk(walk.projects, configs, walk.finished, rootPath);
    ReachesSelf(g, rootPath);
    post.Visit(rootPath, {});
    var paths, visited := post.paths, walk.projects;
    NoCycleAmongListed(configs, rootPath, walk.finished);
    NoCycleAmongListed(configs, rootPath, paths);
    assert forall p :: p in paths ==> p in walk.finished;
    var projects := KeepProjects(configs, visited, paths);
    KeptIsSolutionGraph(configs, rootPath, paths);
    r := Success(projects);
  }

  /** Drops the coordinators, keeping the order. */
  method KeepProjects(
    ghost configs: Configs, visited: map<Path, Project>, paths: seq<Path>) returns (projects: seq<Project>)
    requires forall p :: p in paths ==> p in configs && p in visited && visited[p] == ProjectAt(configs, p)
    ensures projects == Kept(configs, paths)
  {
    projects := [];
    var i := 0;
    while i < |paths|
      invariant 0 <= i <= |paths|
      invariant projects == Kept(configs, paths[..i])
    {
      var project := visited[paths[i]];
      assert paths[..i + 1] == paths[..i] + [paths[i]];
      KeptAppend(configs, paths[..i], paths[i]);
      if !project.coordinator {
        projects := projects + [project];
      }
      i := i + 1;
    }
    assert paths[..|paths|] == paths;
  }

  lemma NoCycleAmongListed(configs: Configs, root: Path, paths: seq<Path>)
    requires Distinct(paths) && SuccessorsFirst(References(configs), paths) && root in paths
    ensures forall p :: Reaches(References(configs), root, p) ==> p in paths
    ensures !CycleReachableFrom(References(configs), root)
  {
    var g := References(configs);
    var s := set p | p in paths;
    forall x, y | x in s && y in Succ(g, x) ensures y in s {
      var i :| 0 <= i < |paths| && paths[i] == x;
      assert Earlier(paths, y, i);
    }
    forall p | Reaches(g, root, p) ensures p in paths && !OnCycle(g, p) {
      ClosedHoldsReachable(g, s, root, p);
      var i :| 0 <= i < |paths| && paths[i] == p;
      ListedNotOnCycle(g, paths, i);
    }
  }

  /** The projects of `paths` that are not coordinators, in order. */
  function Kept(configs: Configs, paths: seq<Path>): seq<Project>
    requires forall p :: p in paths ==> p in configs
  {
    if paths == [] then [] else KeptOne(configs, paths[0]) + Kept(configs, paths[1..])
  }

  function KeptOne(configs: Configs, p: Path): seq<Project>
    requires p in configs
  {
    if configs[p].coordinator then [] else [ProjectAt(configs, p)]
  }

  lemma {:induction false} KeptAppend(configs: Configs, paths: seq<Path>, p: Path)
    requires (forall q :: q in paths ==> q in configs) && p in configs
    ensures Kept(configs, paths + [p]) == Kept(configs, paths) + KeptOne(configs, p)
  {
    if paths != [] {
      var first, rest := paths[0], paths[1..];
      assert (paths + [p])[1..] == rest + [p] && (paths + [p])[0] == first;
      KeptAppend(configs, rest, p);
      assert KeptOne(configs, first) + (Kept(configs, rest) + KeptOne(configs, p)) ==
             KeptOne(configs, first) + Kept(configs, rest) + KeptOne(configs, p);
    } else {
      assert (paths + [p])[1..] == [];
    }
  }

  /** Every kept project comes from a position of `paths`, in the same relative order. */
  lemma {:induction false} KeptFrom(configs: Configs, paths: seq<Path>, i: nat) returns (k: nat)
    requires forall p :: p in paths ==> p in configs
    requires i < |Kept(configs, paths)|
    ensures k < |paths| && Kept(configs, paths)[i] == ProjectAt(configs, paths[k]) && !configs[paths[k]].coordinator
    ensures i == |Kept(configs, paths[..k])|
  {
    var first := if configs[paths[0]].coordinator then 0 else 1;
    if i < first {
      k := 0;
    } else {
      var j := KeptFrom(configs, paths[1..], i - first);
      k := j + 1;
      assert paths[..k][1..] == paths[1..][..j];
    }
  }

  lemma {:induction false} KeptAt(configs: Configs, paths: seq<Path>, k: nat)
    requires forall p :: p in paths ==> p in configs
    requires k < |paths| && !configs[paths[k]].coordinator
    ensures |Kept(configs, paths[..k])| < |Kept(configs, paths)|
    ensures Kept(configs, paths)[|Kept(configs, paths[..k])|] == ProjectAt(configs, paths[k])
  {
    if k > 0 {
      KeptAt(configs, paths[1..], k - 1);
      assert paths[..k][1..] == paths[1..][..k - 1];
    }
  }

  lemma {:induction false} KeptMonotone(configs: Configs, paths: seq<Path>, j: nat, k: nat)
    requires forall p :: p in paths ==> p in configs
    requires j < k <= |paths| && !configs[paths[j]].coordinator
    ensures |Kept(configs, paths[..j])| < |Kept(configs, paths[..k])|
  {
    KeptAt(configs, paths[..k], j);
    assert paths[..k][..j] == paths[..j];
  }

  lemma KeptIsSolutionGraph(configs: Configs, root: Path, paths: seq<Path>)
    requires Distinct(paths) && SuccessorsFirst(References(configs), paths)
    requires forall p :: p in paths <==> Reaches(References(configs), root, p)
    requires forall p :: p in paths ==> p in configs
    ensures IsSolutionGraph(configs, root, Kept(configs, paths))
  {
    var g := References(configs);
    var kept := Kept(configs, paths);
    forall i | 0 <= i < |kept|
      ensures kept[i].configPath in configs && kept[i] == ProjectAt(configs, kept[i].configPath)
    {
      var k := KeptFrom(configs, paths, i);
    }
    forall i, j | 0 <= i < j < |kept| ensures kept[i].configPath != kept[j].configPath {
      var a := KeptFrom(configs, paths, i);
      var b := KeptFrom(configs, paths, j);
    }
    forall p ensures Listed(kept, p) <==> p in configs && Reaches(g, root, p) && !configs[p].coordinator {
      if Listed(kept, p) {
        var i :| 0 <= i < |kept| && kept[i].configPath == p;
        var k := KeptFrom(configs, paths, i);
      }
      if p in paths && !configs[p].coordinator {
        var k :| 0 <= k < |paths| && paths[k] == p;
        KeptAt(configs, paths, k);
      }
    }
    forall i, y | 0 <= i < |kept| && Listed(kept, y) && ReachesByEdge(g, kept[i].configPath, y)
      ensures ProjectEarlier(kept, y, i)
    {
      var k := KeptFrom(configs, paths, i);
      ReachableListedEarlier(g, paths, k, y);
      var j :| 0 <= j < k && paths[j] == y;
      KeptAt(configs, paths, j);
      KeptMonotone(configs, paths, j, k);
    }
  }
}
