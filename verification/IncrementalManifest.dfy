/**
 The incremental manifest and the choice of files to recompile:
 internal/compile/incremental_manifest.go.

 The program analysis is a function of the project's salt (its options) and texts; hashing is a function
 on texts.  Go's iteration over a map is an arbitrary choice of the next key.
 */
module IncrementalManifest {
  import opened Wrappers
  import opened Graphs

  type Path = string
  type Output = string

  /** A project as one build sees it. */
  datatype World = World(salt: string, texts: map<Path, string>)

  datatype FileState = FileState(hash: string, refs: seq<Path>)
  datatype Manifest = Manifest(salt: string, files: map<Path, FileState>, outputs: map<Output, string>)

  type Refs = (World, Path) -> seq<Path>
  type Hash = string -> string

  /** The manifest entries a full analysis of `w` produces. */
  function FilesOf(refs: Refs, hash: Hash, w: World): map<Path, FileState> {
    map p | p in w.texts :: FileState(hash(w.texts[p]), refs(w, p))
  }

  ghost predicate Injective(hash: Hash) {
    forall a, b :: hash(a) == hash(b) ==> a == b
  }

  // ----- buildIncrementalManifest

  predicate SameHashes(hash: Hash, w: World, files: map<Path, FileState>) {
    |files| == |w.texts| && forall p :: p in w.texts ==> p in files && files[p].hash == hash(w.texts[p])
  }

  /** The Files field of internal/compile/incremental_manifest.go: buildIncrementalManifest. */
  function CurrentFiles(refs: Refs, hash: Hash, w: World, previous: Option<Manifest>): map<Path, FileState> {
    if previous.Some? && previous.value.salt == w.salt && SameHashes(hash, w, previous.value.files)
    then previous.value.files
    else FilesOf(refs, hash, w)
  }

  lemma KeysOfSameSize<T, U, V>(a: map<T, U>, b: map<T, V>)
    requires |a| == |b| && forall x :: x in a ==> x in b
    ensures a.Keys == b.Keys
  {
    var rest := b.Keys - a.Keys;
    assert a.Keys + rest == b.Keys && a.Keys !! rest;
    assert |a.Keys + rest| == |a.Keys| + |rest|;
  }

  /** Reusing the previous reference graph gives what a fresh analysis would give. */
  lemma ReuseIsFresh(refs: Refs, hash: Hash, w: World, built: World, previous: Manifest)
    requires Injective(hash) && previous.salt == built.salt && previous.files == FilesOf(refs, hash, built)
    ensures CurrentFiles(refs, hash, w, Some(previous)) == FilesOf(refs, hash, w)
  {
    if previous.salt == w.salt && SameHashes(hash, w, previous.files) {
      KeysOfSameSize(w.texts, previous.files);
      assert w.texts.Keys == built.texts.Keys;
      assert forall p :: p in w.texts ==> w.texts[p] == built.texts[p];
      assert w == built;
    }
  }

  // ----- selectIncrementalSourceFiles

  ghost predicate Changed(current: map<Path, FileState>, previous: map<Path, FileState>, p: Path) {
    || (p in current && (p !in previous || previous[p].hash != current[p].hash))
    || (p in previous && p !in current)
  }

  function RefsIn(files: map<Path, FileState>, p: Path): seq<Path> {
    if p in files then files[p].refs else []
  }

  /** The references of both manifests together. */
  function UnionGraph(current: map<Path, FileState>, previous: map<Path, FileState>): Graph<Path> {
    map p | p in current.Keys + previous.Keys :: RefsIn(current, p) + RefsIn(previous, p)
  }

  ghost predicate ReachesChanged(current: map<Path, FileState>, previous: map<Path, FileState>, p: Path) {
    exists c :: Changed(current, previous, c) && Reaches(UnionGraph(current, previous), p, c)
  }

  /** What selectIncrementalSourceFiles is for: whether `p` must be recompiled. */
  ghost predicate MustRecompile(current: Manifest, previous: Option<Manifest>, p: Path) {
    previous.None? || previous.value.salt != current.salt || ReachesChanged(current.files, previous.value.files, p)
  }

  ghost function Filter(sources: seq<Path>, keep: iset<Path>): seq<Path> {
    if sources == [] then [] else (if sources[0] in keep then [sources[0]] else []) + Filter(sources[1..], keep)
  }

  lemma {:induction false} FilterAppend(sources: seq<Path>, p: Path, keep: iset<Path>)
    ensures Filter(sources + [p], keep) == Filter(sources, keep) + (if p in keep then [p] else [])
  {
    if sources == [] {
      assert ([] + [p])[1..] == [];
    } else {
      assert (sources + [p])[1..] == sources[1..] + [p];
      FilterAppend(sources[1..], p, keep);
    }
  }

  lemma {:induction false} FilterExactly(sources: seq<Path>, keep: iset<Path>, p: Path)
    ensures p in Filter(sources, keep) <==> p in sources && p in keep
  {
    if sources != [] { FilterExactly(sources[1..], keep, p); }
  }

  function Get(reverse: map<Path, seq<Path>>, p: Path): seq<Path> {
    if p in reverse then reverse[p] else []
  }

  method AddImporter(
    given: map<Path, seq<Path>>, importer: Path, refs: seq<Path>) returns (reverse: map<Path, seq<Path>>)
    ensures forall d, q :: q in Get(reverse, d) <==> q in Get(given, d) || (q == importer && d in refs)
  {
    reverse := given;
    var k := 0;
    while k < |refs|
      invariant 0 <= k <= |refs|
      invariant forall d, q :: q in Get(reverse, d) <==> q in Get(given, d) || (q == importer && d in refs[..k])
    {
      assert refs[..k + 1] == refs[..k] + [refs[k]];
      reverse := reverse[refs[k] := Get(reverse, refs[k]) + [importer]];
      k := k + 1;
    }
    assert refs[..|refs|] == refs;
  }

  /** `reverse` adds, for every file of `added`, that file as an importer of what it references. */
  ghost predicate AddsReverse(
    given: map<Path, seq<Path>>, reverse: map<Path, seq<Path>>, files: map<Path, FileState>, added: set<Path>) {
    forall d, q :: q in Get(reverse, d) <==> q in Get(given, d) || (q in added && d in RefsIn(files, q))
  }

  /** internal/compile/incremental_manifest.go: accumulateReverseDeps. */
  method AccumulateReverseDeps(given: map<Path, seq<Path>>, files: map<Path, FileState>)
    returns (reverse: map<Path, seq<Path>>)
    ensures AddsReverse(given, reverse, files, files.Keys)
  {
    reverse := given;
    var todo, added := files.Keys, {};
    while todo != {}
      invariant todo + added == files.Keys && todo !! added
      invariant AddsReverse(given, reverse, files, added)
      decreases todo
    {
      var importer :| importer in todo;
      reverse := AddImporter(reverse, importer, files[importer].refs);
      todo, added := todo - {importer}, added + {importer};
    }
    assert added == files.Keys;
  }

  method ChangedPaths(current: map<Path, FileState>, previous: map<Path, FileState>) returns (changed: set<Path>)
    ensures forall p :: p in changed <==> Changed(current, previous, p)
  {
    changed := {};
    var todo := current.Keys;
    while todo != {}
      invariant todo <= current.Keys
      invariant forall p :: p in changed <==> p in current && p !in todo && Changed(current, previous, p)
      decreases todo
    {
      var p :| p in todo;
      if p !in previous || previous[p].hash != current[p].hash {
        changed := changed + {p};
      }
      todo := todo - {p};
    }
    todo := previous.Keys;
    while todo != {}
      invariant todo <= previous.Keys
      invariant forall p :: p in changed <==> (p in current || p !in todo) && Changed(current, previous, p)
      decreases todo
    {
      var p :| p in todo;
      if p !in current {
        changed := changed + {p};
      }
      todo := todo - {p};
    }
  }

  /** `p` still waits in the queue, or all its importers have been selected. */
  ghost predicate Settled(g: Graph<Path>, selected: set<Path>, queue: seq<Path>, p: Path) {
    p in queue || forall q :: p in Succ(g, q) ==> q in selected
  }

  ghost predicate WorklistOk(current: map<Path, FileState>, previous: map<Path, FileState>, changed: set<Path>,
                             selected: set<Path>, queue: seq<Path>) {
    && (forall p :: p in selected || p in queue ==> ReachesChanged(current, previous, p))
    && (forall p :: p in changed && p in current ==> p in selected)
    && (forall p :: p in changed || p in selected ==> Settled(UnionGraph(current, previous), selected, queue, p))
  }

  lemma WorklistStep(current: map<Path, FileState>, previous: map<Path, FileState>, changed: set<Path>,
                     selected: set<Path>, queue: seq<Path>, importers: seq<Path>, selected': set<Path>,
                     queue': seq<Path>)
    requires queue != [] && WorklistOk(current, previous, changed, selected, queue)
    requires forall q :: q in importers <==> queue[0] in Succ(UnionGraph(current, previous), q)
    requires selected' == selected + (set q | q in importers)
    requires forall p :: p in queue' <==> p in queue[1..] || (p in importers && p !in selected)
    ensures WorklistOk(current, previous, changed, selected', queue')
  {
    var g := UnionGraph(current, previous);
    assert forall p :: p in queue ==> p == queue[0] || p in queue[1..];
    forall q | q in importers ensures ReachesChanged(current, previous, q) {
      assert queue[0] in queue;
      var c :| Changed(current, previous, c) && Reaches(g, queue[0], c);
      EdgeThenReaches(g, q, queue[0], c);
    }
    forall p | p in changed || p in selected' ensures Settled(g, selected', queue', p) {
      if p in changed || p in selected { assert Settled(g, selected, queue, p); }
    }
  }

  /** The worklist: `changed` closed over importers.  A deleted path may be queued twice. */
  method SpreadToImporters(current: map<Path, FileState>, previous: map<Path, FileState>, changed: set<Path>,
                           reverse: map<Path, seq<Path>>) returns (selected: set<Path>)
    requires forall p :: p in changed <==> Changed(current, previous, p)
    requires IsReverse(UnionGraph(current, previous), reverse)
    ensures forall p :: p in current ==> (p in selected <==> ReachesChanged(current, previous, p))
  {
    ghost var all := current.Keys + previous.Keys;
    selected := set p | p in changed && p in current;
    var queue := SeqOf(changed);
    WorklistStart(current, previous, changed, selected, queue);
    while |queue| > 0
      invariant selected <= all && WorklistOk(current, previous, changed, selected, queue)
      decreases all - selected, |queue|
    {
      var path := queue[0];
      ghost var selected', queue' := selected, queue;
      ImportersKnown(current, previous, reverse, path);
      selected, queue := VisitImporters(all, Get(reverse, path), selected, queue[1..]);
      WorklistStep(current, previous, changed, selected', queue', Get(reverse, path), selected, queue);
      FewerLeft(all, selected', selected);
    }
    SelectedHoldsReachers(current, previous, changed, selected, queue);
  }

  lemma FewerLeft(all: set<Path>, before: set<Path>, after: set<Path>)
    requires before <= after <= all
    ensures before == after || all - after < all - before
  {
    if before != after {
      var q :| q in after && q !in before;
      assert q in all - before && q !in all - after;
    }
  }

  lemma WorklistStart(current: map<Path, FileState>, previous: map<Path, FileState>, changed: set<Path>,
                      selected: set<Path>, queue: seq<Path>)
    requires forall p :: p in changed <==> Changed(current, previous, p)
    requires forall p :: p in selected <==> p in changed && p in current
    requires forall p :: p in queue <==> p in changed
    ensures WorklistOk(current, previous, changed, selected, queue)
  {
    forall p | p in changed
      ensures ReachesChanged(current, previous, p)
    {
      ReachesSelf(UnionGraph(current, previous), p);
    }
  }

  lemma ImportersKnown(
    current: map<Path, FileState>, previous: map<Path, FileState>, reverse: map<Path, seq<Path>>, path: Path)
    requires IsReverse(UnionGraph(current, previous), reverse)
    ensures forall q :: q in Get(reverse, path) <==> path in Succ(UnionGraph(current, previous), q)
    ensures forall q :: q in Get(reverse, path) ==> q in current.Keys + previous.Keys
  {
  }

  ghost predicate IsReverse(g: Graph<Path>, reverse: map<Path, seq<Path>>) {
    forall d, q :: q in Get(reverse, d) <==> d in Succ(g, q)
  }

  method ImportersIn(
    current: map<Path, FileState>, previous: map<Path, FileState>) returns (reverse: map<Path, seq<Path>>)
    ensures IsReverse(UnionGraph(current, previous), reverse)
  {
    reverse := AccumulateReverseDeps(map[], current);
    reverse := AccumulateReverseDeps(reverse, previous);
    forall d, q ensures q in Get(reverse, d) <==> d in Succ(UnionGraph(current, previous), q) {
      UnionEdges(current, previous, d, q);
    }
  }

  lemma UnionEdges(current: map<Path, FileState>, previous: map<Path, FileState>, d: Path, q: Path)
    ensures d in Succ(UnionGraph(current, previous), q) <==> d in RefsIn(current, q) || d in RefsIn(previous, q)
  {
  }

  /** One pass of the worklist over the importers of a path. */
  method VisitImporters(ghost all: set<Path>, importers: seq<Path>, selected0: set<Path>, queue0: seq<Path>)
    returns (selected: set<Path>, queue: seq<Path>)
    requires selected0 <= all && forall q :: q in importers ==> q in all
    ensures selected == selected0 + (set q | q in importers) && selected <= all
    ensures forall p :: p in queue <==> p in queue0 || (p in importers && p !in selected0)
    ensures selected == selected0 ==> queue == queue0
  {
    selected, queue := selected0, queue0;
    var k := 0;
    while k < |importers|
      invariant 0 <= k <= |importers|
      invariant selected == selected0 + (set q | q in importers[..k]) && selected <= all
      invariant forall p :: p in queue <==> p in queue0 || (p in importers[..k] && p !in selected0)
      invariant selected == selected0 ==> queue == queue0
    {
      var importer := importers[k];
      assert importers[..k + 1] == importers[..k] + [importer];
      if importer !in selected {
        selected := selected + {importer};
        queue := queue + [importer];
      }
      k := k + 1;
    }
    assert importers[..|importers|] == importers;
  }

  method SeqOf(s: set<Path>) returns (queue: seq<Path>)
    ensures forall p :: p in queue <==> p in s
  {
    queue := [];
    var todo := s;
    while todo != {}
      invariant todo <= s
      invariant forall p :: p in queue <==> p in s && p !in todo
      decreases todo
    {
      var p :| p in todo;
      queue := queue + [p];
      todo := todo - {p};
    }
  }

  lemma SelectedHoldsReachers(current: map<Path, FileState>, previous: map<Path, FileState>, changed: set<Path>,
                              selected: set<Path>, queue: seq<Path>)
    requires forall p :: p in changed <==> Changed(current, previous, p)
    requires WorklistOk(current, previous, changed, selected, queue) && queue == []
    ensures forall p :: p in current ==> (p in selected <==> ReachesChanged(current, previous, p))
  {
    var g := UnionGraph(current, previous);
    forall p, q | p in changed + selected && p in Succ(g, q) ensures q in changed + selected {
      assert Settled(g, selected, queue, p);
    }
    forall p | p in current && ReachesChanged(current, previous, p) ensures p in selected {
      var c :| Changed(current, previous, c) && Reaches(g, p, c);
      BackwardsHoldsReachers(g, changed + selected, p, c);
    }
  }

  /** internal/compile/incremental_manifest.go: selectIncrementalSourceFiles. */
  method SelectIncrementalSourceFiles(sources: seq<Path>, current: Manifest, previous: Option<Manifest>)
    returns (result: seq<Path>)
    requires forall p :: p in sources ==> p in current.files
    ensures result == Filter(sources, iset p | MustRecompile(current, previous, p))
  {
    ghost var keep := iset p | MustRecompile(current, previous, p);
    if previous.None? || previous.value.salt != current.salt {
      FilterAll(sources, keep);
      return sources;
    }
    var files := previous.value.files;
    var changed := ChangedPaths(current.files, files);
    if changed == {} {
      FilterNone(sources, keep);
      return [];
    }
    var reverse := ImportersIn(current.files, files);
    var selected := SpreadToImporters(current.files, files, changed, reverse);
    result := [];
    var k := 0;
    while k < |sources|
      invariant 0 <= k <= |sources|
      invariant result == Filter(sources[..k], keep)
    {
      assert sources[..k + 1] == sources[..k] + [sources[k]];
      FilterAppend(sources[..k], sources[k], keep);
      if sources[k] in selected {
        result := result + [sources[k]];
      }
      k := k + 1;
    }
    assert sources[..|sources|] == sources;
  }

  lemma {:induction false} FilterAll(sources: seq<Path>, keep: iset<Path>)
    requires forall p :: p in sources ==> p in keep
    ensures Filter(sources, keep) == sources
  {
    if sources != [] { FilterAll(sources[1..], keep); }
  }

  lemma {:induction false} FilterNone(sources: seq<Path>, keep: iset<Path>)
    requires forall p :: p in sources ==> p !in keep
    ensures Filter(sources, keep) == []
  {
    if sources != [] { FilterNone(sources[1..], keep); }
  }
}
