/**
 The incremental build as the source runs it: the output writer object of
 internal/compile/outputwriter.go and the selection, recovery, write and prune phases of
 BuildProjectWithOptions in internal/compile/output.go.
 */
module IncrementalProject {
  import opened Wrappers
  import opened Sequences
  import opened IncrementalManifest
  import B = IncrementalBuild
  import R = IncrementalRuns

  type Toolchain = B.Toolchain

  class OutputWriter {
    var disk: map<Output, string>
    var previous: map<Output, string>
    var current: map<Output, string>
    var hashSkips: nat

    constructor (disk: map<Output, string>, previous: map<Output, string>, current: map<Output, string>)
      ensures State() == B.Writer(disk, previous, current) && hashSkips == 0
    {
      this.disk, this.previous, this.current, hashSkips := disk, previous, current, 0;
    }

    function State(): B.Writer
      reads this
    {
      B.Writer(disk, previous, current)
    }

    /** internal/compile/outputwriter.go: write. */
    method Write(hash: Hash, key: Output, text: string, writeOnlyChanged: bool) returns (wrote: bool)
      modifies this
      ensures State() == B.Write(hash, old(State()), key, text, writeOnlyChanged)
      ensures wrote == B.Writes(hash, old(State()), key, text, writeOnlyChanged)
      ensures hashSkips == old(hashSkips) + if B.HashSkips(hash, old(State()), key, text) then 1 else 0
    {
      var h := hash(text);
      if key in previous && previous[key] == h {
        if key in disk {
          current := current[key := h];
          hashSkips := hashSkips + 1;
          return false;
        }
      }
      if writeOnlyChanged {
        if key in disk && disk[key] == text {
          current := current[key := h];
          return false;
        }
      }
      disk := disk[key := text];
      current := current[key := h];
      wrote := true;
    }

    /** One job of the write loop: a source's output and, when there is one, its source map. */
    method WriteSource(t: Toolchain, w: World, f: Path, writeOnlyChanged: bool) returns (wrote: bool)
      modifies this
      ensures State() == B.WriteSource(t, w, f, old(State()), writeOnlyChanged)
    {
      var e := t.compile(w, f);
      wrote := Write(t.hash, t.out(f), e.text, writeOnlyChanged);
      if e.sourceMap.Some? {
        var _ := Write(t.hash, t.out(f) + B.MAP_SUFFIX, e.sourceMap.value, writeOnlyChanged);
      }
    }
  }

  lemma {:induction false} WriteAllAppend(t: Toolchain, w: World, order: seq<Path>, f: Path, wr: B.Writer, woc: bool)
    ensures B.WriteAll(t, w, order + [f], wr, woc) == B.WriteSource(t, w, f, B.WriteAll(t, w, order, wr, woc), woc)
  {
    if order == [] {
      assert ([] + [f])[1..] == [];
    } else {
      assert (order + [f])[1..] == order[1..] + [f];
      WriteAllAppend(t, w, order[1..], f, B.WriteSource(t, w, order[0], wr, woc), woc);
    }
  }

  /** The key of an output path: absolute, cleaned, and in lower case where the file system folds case. */
  type KeyOf = Output -> Output

  ghost predicate NoTwoAlike(key: KeyOf, paths: seq<Output>) {
    forall i, j :: 0 <= i < j < |paths| ==> key(paths[i]) != key(paths[j])
  }

  /** internal/compile/output.go: rejectDuplicateOutputPaths. */
  method RejectDuplicateOutputPaths(key: KeyOf, paths: seq<Output>) returns (ok: bool)
    ensures ok <==> NoTwoAlike(key, paths)
  {
    var seen: map<Output, Output> := map[];
    var k := 0;
    while k < |paths|
      invariant 0 <= k <= |paths| && NoTwoAlike(key, paths[..k])
      invariant forall o :: o in seen <==> exists j :: 0 <= j < k && key(paths[j]) == o
    {
      var o := key(paths[k]);
      if o in seen {
        var j :| 0 <= j < k && key(paths[j]) == o;
        return false;
      }
      seen := seen[o := paths[k]];
      assert key(paths[k]) == o;
      k := k + 1;
    }
    assert paths[..k] == paths;
    ok := true;
  }

  function OutputPaths(t: Toolchain, sources: seq<Path>): seq<Output> {
    seq(|sources|, i requires 0 <= i < |sources| => t.out(sources[i]))
  }

  lemma UnlikeMeansDistinct(t: Toolchain, w: World, sources: seq<Path>, key: KeyOf)
    requires NoTwoAlike(key, OutputPaths(t, sources)) && forall f :: f in sources <==> f in w.texts
    ensures B.DistinctOutputs(t, w)
  {
    var outs := OutputPaths(t, sources);
    forall f, g | f in w.texts && g in w.texts && t.out(f) == t.out(g) ensures f == g {
      var i :| 0 <= i < |sources| && sources[i] == f;
      var j :| 0 <= j < |sources| && sources[j] == g;
      assert key(outs[i]) == key(outs[j]);
    }
  }

  /** internal/compile/incremental_manifest.go: pruneMissingOutputs. */
  method PruneMissingOutputs(
    disk: map<Output, string>, given: map<Output, string>) returns (outputs: map<Output, string>)
    ensures outputs == B.Prune(given, disk)
  {
    outputs := given;
    var todo := given.Keys;
    while todo != {}
      invariant todo <= given.Keys && outputs.Keys <= given.Keys
      invariant forall p :: p in outputs ==> outputs[p] == given[p]
      invariant forall p :: p in given ==> (p in outputs <==> p in todo || p in disk)
      decreases todo
    {
      var p :| p in todo;
      if p !in disk {
        outputs := outputs - {p};
      }
      todo := todo - {p};
    }
  }

  /** The inputs that may have produced a recorded output which is gone. */
  method MissingInputs(
    t: Toolchain, outputs: map<Output, string>, disk: map<Output, string>) returns (inputs: set<Path>)
    ensures forall f :: f in inputs <==> exists p :: p in outputs && p !in disk && f in t.inputs(B.TrimMap(p))
  {
    inputs := {};
    var todo, probed := outputs.Keys, {};
    while todo != {}
      invariant todo + probed == outputs.Keys && todo !! probed
      invariant forall f :: f in inputs <==> exists p :: p in probed && p !in disk && f in t.inputs(B.TrimMap(p))
      decreases todo
    {
      var p :| p in todo;
      ghost var before := inputs;
      if p !in disk {
        inputs := inputs + (set f | f in t.inputs(B.TrimMap(p)));
      }
      ghost var was := probed;
      todo, probed := todo - {p}, probed + {p};
      forall f ensures f in inputs <==> exists q :: q in probed && q !in disk && f in t.inputs(B.TrimMap(q)) {
        if f in before { var q :| q in was && q !in disk && f in t.inputs(B.TrimMap(q)); assert q in probed; }
        if q :| q in probed && q !in disk && f in t.inputs(B.TrimMap(q)) { assert q == p || q in was; }
      }
    }
    assert probed == outputs.Keys;
    forall f ensures f in inputs <==> exists p :: p in outputs && p !in disk && f in t.inputs(B.TrimMap(p)) {
      if f in inputs { var p :| p in probed && p !in disk && f in t.inputs(B.TrimMap(p)); assert p in outputs; }
      if p :| p in outputs && p !in disk && f in t.inputs(B.TrimMap(p)) { assert p in probed; }
    }
  }

  ghost function Chosen(t: Toolchain, w: World, store: B.Store, opts: B.Options): iset<Path> {
    iset f | B.Selected(t, w, store, opts, f)
  }

  /** Source selection with missing-output recovery. */
  method SelectFiles(
    t: Toolchain, w: World, sources: seq<Path>, store: B.Store, opts: B.Options) returns (selected: seq<Path>)
    requires B.Sound(t) && B.ManifestOk(t, store.manifest) && forall f :: f in sources <==> f in w.texts
    ensures selected == Filter(sources, Chosen(t, w, store, opts))
  {
    var current := B.CurrentManifest(t, w, store);
    var outputs := B.PreviousOutputs(w, store.manifest);
    ghost var keep := Chosen(t, w, store, opts);
    CurrentHasSources(t, w, store);
    var changed := SelectIncrementalSourceFiles(sources, current, store.manifest);
    if opts.forceFull {
      FilterAll(sources, keep);
      return sources;
    }
    ghost var must := iset p | MustRecompile(current, store.manifest, p);
    if |outputs| == 0 {
      assert outputs == map[];
      FilterSame(sources, must, keep);
      return changed;
    }
    var missing := MissingInputs(t, outputs, store.disk);
    ChosenExactly(t, w, sources, store, opts, changed, missing);
    selected := KeepInOrder(sources, changed, missing, keep);
  }

  /** Without a full build, what is chosen is what must be compiled again and what lacks an output. */
  lemma ChosenExactly(
    t: Toolchain, w: World, sources: seq<Path>, store: B.Store, opts: B.Options, changed: seq<Path>,
    missing: set<Path>)
    requires !opts.forceFull && forall f :: f in missing <==> B.OutputMissing(t, w, store, f)
    requires
      changed == Filter(sources, iset p | MustRecompile(B.CurrentManifest(t, w, store), store.manifest, p))
    ensures forall f :: f in sources ==> (f in Chosen(t, w, store, opts) <==> f in changed || f in missing)
  {
    var must := iset p | MustRecompile(B.CurrentManifest(t, w, store), store.manifest, p);
    forall f | f in sources ensures f in Chosen(t, w, store, opts) <==> f in changed || f in missing {
      FilterExactly(sources, must, f);
    }
  }

  /** The sources that are in one of the two selections, in source order. */
  method KeepInOrder(sources: seq<Path>, changed: seq<Path>, missing: set<Path>, ghost keep: iset<Path>)
    returns (selected: seq<Path>)
    requires forall f :: f in sources ==> (f in keep <==> f in changed || f in missing)
    ensures selected == Filter(sources, keep)
  {
    selected := [];
    var k := 0;
    while k < |sources|
      invariant 0 <= k <= |sources|
      invariant selected == Filter(sources[..k], keep)
    {
      assert sources[..k + 1] == sources[..k] + [sources[k]];
      FilterAppend(sources[..k], sources[k], keep);
      if sources[k] in changed || sources[k] in missing {
        selected := selected + [sources[k]];
      }
      k := k + 1;
    }
    assert sources[..|sources|] == sources;
  }

  lemma CurrentHasSources(t: Toolchain, w: World, store: B.Store)
    requires B.Sound(t) && B.ManifestOk(t, store.manifest)
    ensures forall p :: p in w.texts ==> p in B.CurrentManifest(t, w, store).files
  {
    if store.manifest.Some? {
      var built :| B.Describes(t, built, store.manifest.value);
      ReuseIsFresh(t.refs, t.hash, w, built, store.manifest.value);
    }
  }

  lemma {:induction false} FilterSame(sources: seq<Path>, a: iset<Path>, b: iset<Path>)
    requires forall p :: p in sources ==> (p in a <==> p in b)
    ensures Filter(sources, a) == Filter(sources, b)
  {
    if sources != [] { FilterSame(sources[1..], a, b); }
  }

  lemma {:induction false} FilterDistinct(sources: seq<Path>, keep: iset<Path>)
    requires Distinct(sources)
    ensures Distinct(Filter(sources, keep))
  {
    if sources != [] {
      FilterDistinct(sources[1..], keep);
      FilterExactly(sources[1..], keep, sources[0]);
    }
  }

  lemma SelectionSchedules(t: Toolchain, w: World, sources: seq<Path>, store: B.Store, opts: B.Options)
    requires Distinct(sources) && forall f :: f in sources <==> f in w.texts
    ensures B.Schedules(t, w, store, opts, Filter(sources, Chosen(t, w, store, opts)))
  {
    var keep := Chosen(t, w, store, opts);
    FilterDistinct(sources, keep);
    forall f ensures f in Filter(sources, keep) <==> f in w.texts && B.Selected(t, w, store, opts, f) {
      FilterExactly(sources, keep, f);
    }
  }

  class Project {
    const t: Toolchain
    var disk: map<Output, string>
    var manifest: Option<Manifest>

    constructor (t: Toolchain, disk: map<Output, string>)
      ensures this.t == t && Store() == B.Store(disk, None)
    {
      this.t, this.disk, manifest := t, disk, None;
    }

    function Store(): B.Store
      reads this
    {
      B.Store(disk, manifest)
    }

    /** The write loop; the workers take the selected sources in any order. */
    method WriteSelected(w: World, selected: seq<Path>, writer: OutputWriter, woc: bool) returns (order: seq<Path>)
      requires Distinct(selected)
      modifies writer
      ensures Distinct(order) && forall f :: f in order <==> f in selected
      ensures writer.State() == B.WriteAll(t, w, order, old(writer.State()), woc)
    {
      var todo := set f | f in selected;
      order := [];
      while todo != {}
        invariant todo <= (set f | f in selected)
        invariant Distinct(order) && forall f :: f in order <==> f in selected && f !in todo
        invariant writer.State() == B.WriteAll(t, w, order, old(writer.State()), woc)
        decreases todo
      {
        var f :| f in todo;
        WriteAllAppend(t, w, order, f, old(writer.State()), woc);
        var _ := writer.WriteSource(t, w, f, woc);
        order := order + [f];
        todo := todo - {f};
      }
    }

    /**
     The build: on output paths with the same key nothing happens; otherwise the selected sources are compiled and
     written, and the manifest is pruned and persisted.
     */
    method Build(w: World, sources: seq<Path>, opts: B.Options, key: KeyOf) returns (ok: bool)
      requires B.Sound(t) && R.StoreOk(t, Store())
      requires Distinct(sources) && forall f :: f in sources <==> f in w.texts
      modifies this
      ensures R.StoreOk(t, Store())
      ensures ok <==> NoTwoAlike(key, OutputPaths(t, sources))
      ensures !ok ==> Store() == old(Store())
      ensures ok ==>
        && Store() == B.Built(
             t, w, Filter(sources, Chosen(t, w, old(Store()), opts)), old(Store()), opts.writeOnlyChanged)
        && B.OutputsCorrect(t, w, disk)
    {
      ok := RejectDuplicateOutputPaths(key, OutputPaths(t, sources));
      if !ok { return; }
      UnlikeMeansDistinct(t, w, sources, key);
      ghost var before := Store();
      var outputs := B.PreviousOutputs(w, manifest);
      var selected := SelectFiles(t, w, sources, Store(), opts);
      SelectionSchedules(t, w, sources, before, opts);
      var files := CurrentFiles(t.refs, t.hash, w, manifest);
      var writer := new OutputWriter(disk, outputs, outputs);
      var order := WriteSelected(w, selected, writer, opts.writeOnlyChanged);
      var pruned := PruneMissingOutputs(writer.disk, writer.current);
      disk := writer.disk;
      manifest := Some(Manifest(w.salt, files, pruned));
      assert Store() == B.Built(t, w, order, before, opts.writeOnlyChanged);
      BuildFacts(t, w, before, opts, order, selected);
    }
  }

  lemma BuildFacts(t: Toolchain, w: World, before: B.Store, opts: B.Options, order: seq<Path>, selected: seq<Path>)
    requires B.Sound(t) && R.StoreOk(t, before) && B.DistinctOutputs(t, w)
    requires B.Schedules(t, w, before, opts, selected) && Distinct(order) && forall f :: f in order <==> f in selected
    ensures B.Built(t, w, order, before, opts.writeOnlyChanged) ==
      B.Built(t, w, selected, before, opts.writeOnlyChanged)
    ensures R.StoreOk(t, B.Built(t, w, order, before, opts.writeOnlyChanged))
    ensures B.OutputsCorrect(t, w, B.Built(t, w, order, before, opts.writeOnlyChanged).disk)
  {
    R.WriteOrderIrrelevant(t, w, before, opts, order, selected);
    R.EventKeepsOk(t, before, R.BuildEvent(w, opts, order));
    B.MatchesMeansUndisguised(t, w, before);
    B.CorrectExactlyWhenUndisguised(t, w, before, opts, order);
  }
}
