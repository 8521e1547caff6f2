/**
 Incremental builds on values: the source selection, write loop and manifest update of
 internal/compile/output.go, BuildProjectWithOptions, and internal/compile/outputwriter.go.

 The compiler, the path translator and the hash are the functions of a `Toolchain`.
 */
module IncrementalBuild {
  import opened Wrappers
  import opened Sequences
  import opened Graphs
  import opened IncrementalManifest

  datatype Emitted = Emitted(text: string, sourceMap: Option<string>)

  datatype Toolchain = Toolchain(
    refs: Refs,                        // referencedProjectFiles
    compile: (World, Path) -> Emitted, // the compiled text and source map of one source
    hash: Hash,                        // SHA-256, in hex
    out: Path -> Output,               // PathTranslator.GetOutputPath
    inputs: Output -> seq<Path>)       // PathTranslator.GetInputPaths

  /** The output tree of a project and its persisted manifest. */
  datatype Store = Store(disk: map<Output, string>, manifest: Option<Manifest>)

  datatype Options = Options(writeOnlyChanged: bool, forceFull: bool)

  // ----- outputs

  const MAP_SUFFIX: string := ".map"

  predicate HasMapSuffix(p: Output) {
    |p| >= |MAP_SUFFIX| && p[|p| - |MAP_SUFFIX|..] == MAP_SUFFIX
  }

  function TrimMap(p: Output): Output {
    if HasMapSuffix(p) then p[..|p| - |MAP_SUFFIX|] else p
  }

  lemma TrimMapInverts(p: Output)
    ensures TrimMap(p + MAP_SUFFIX) == p && HasMapSuffix(p + MAP_SUFFIX)
  {
    assert (p + MAP_SUFFIX)[|p|..] == MAP_SUFFIX;
    assert (p + MAP_SUFFIX)[..|p|] == p;
  }

  /** What a build of `w` writes for source `f`. */
  function OutputsOf(t: Toolchain, w: World, f: Path): map<Output, string> {
    var e := t.compile(w, f);
    var main := map[t.out(f) := e.text];
    if e.sourceMap.Some? then main[t.out(f) + MAP_SUFFIX := e.sourceMap.value] else main
  }

  predicate DistinctOutputs(t: Toolchain, w: World) {
    forall f, g :: f in w.texts && g in w.texts && t.out(f) == t.out(g) ==> f == g
  }

  // ----- what is assumed of the toolchain

  function RefGraph(t: Toolchain, w: World): Graph<Path> {
    map p | p in w.texts :: t.refs(w, p)
  }

  ghost predicate InClosure(t: Toolchain, w: World, f: Path, g: Path) {
    Reaches(RefGraph(t, w), f, g)
  }

  /** The files `f` refers to, in either world, are in both and have the same text. */
  ghost predicate AgreeOnClosure(t: Toolchain, v: World, w: World, f: Path) {
    forall g :: InClosure(t, v, f, g) || InClosure(t, w, f, g) ==>
      g in v.texts && g in w.texts && v.texts[g] == w.texts[g]
  }

  /** The output of a source depends on the options and on the texts in its reference closure only. */
  ghost predicate CompileIsLocal(t: Toolchain) {
    forall v: World, w: World, f: Path :: v.salt == w.salt && AgreeOnClosure(t, v, w, f) ==>
      t.compile(v, f) == t.compile(w, f)
  }

  ghost predicate Sound(t: Toolchain) {
    && Injective(t.hash)
    && CompileIsLocal(t)
    && (forall w: World, p, r :: p in w.texts && r in t.refs(w, p) ==> r in w.texts)
    && (forall f :: !HasMapSuffix(t.out(f)) && f in t.inputs(t.out(f)))
  }

  // ----- the output writer

  datatype Writer = Writer(disk: map<Output, string>, previous: map<Output, string>, current: map<Output, string>)

  /** The recorded hash is the wanted one and the file is there, so nothing is written. */
  predicate HashSkips(hash: Hash, wr: Writer, key: Output, text: string) {
    key in wr.previous && wr.previous[key] == hash(text) && key in wr.disk
  }

  /** Whether internal/compile/outputwriter.go: write writes the file. */
  predicate Writes(hash: Hash, wr: Writer, key: Output, text: string, writeOnlyChanged: bool) {
    !HashSkips(hash, wr, key, text) && !(writeOnlyChanged && key in wr.disk && wr.disk[key] == text)
  }

  function Write(hash: Hash, wr: Writer, key: Output, text: string, writeOnlyChanged: bool): Writer {
    Writer(if Writes(hash, wr, key, text, writeOnlyChanged) then wr.disk[key := text] else wr.disk,
           wr.previous, wr.current[key := hash(text)])
  }

  function WriteSource(t: Toolchain, w: World, f: Path, wr: Writer, woc: bool): Writer {
    var e := t.compile(w, f);
    var first := Write(t.hash, wr, t.out(f), e.text, woc);
    if e.sourceMap.Some? then Write(t.hash, first, t.out(f) + MAP_SUFFIX, e.sourceMap.value, woc) else first
  }

  function WriteAll(t: Toolchain, w: World, order: seq<Path>, wr: Writer, woc: bool): Writer {
    if order == [] then wr else WriteAll(t, w, order[1..], WriteSource(t, w, order[0], wr, woc), woc)
  }

  lemma OutputKeys(t: Toolchain, w: World, f: Path)
    requires Sound(t)
    ensures t.out(f) != t.out(f) + MAP_SUFFIX
    ensures forall p :: p in OutputsOf(t, w, f) ==> TrimMap(p) == t.out(f)
  {
    TrimMapInverts(t.out(f));
  }

  lemma OutputsDisjoint(t: Toolchain, w: World, f: Path, g: Path)
    requires Sound(t) && DistinctOutputs(t, w) && f in w.texts && g in w.texts && f != g
    ensures forall p :: p in OutputsOf(t, w, f) ==> p !in OutputsOf(t, w, g)
  {
    OutputKeys(t, w, f);
    OutputKeys(t, w, g);
  }

  /** What writing one key leaves there. */
  function LeftAt(hash: Hash, wr: Writer, key: Output, text: string): string {
    if HashSkips(hash, wr, key, text) then wr.disk[key] else text
  }

  ghost predicate SameAt(a: Writer, b: Writer, p: Output) {
    && (p in a.disk <==> p in b.disk) && (p in a.disk ==> a.disk[p] == b.disk[p])
    && (p in a.current <==> p in b.current) && (p in a.current ==> a.current[p] == b.current[p])
  }

  ghost predicate WrittenAt(hash: Hash, before: Writer, after: Writer, p: Output, text: string) {
    && p in after.disk && after.disk[p] == LeftAt(hash, before, p, text)
    && p in after.current && after.current[p] == hash(text)
  }

  lemma WriteEffect(hash: Hash, wr: Writer, key: Output, text: string, woc: bool, p: Output)
    ensures Write(hash, wr, key, text, woc).previous == wr.previous
    ensures if p == key then WrittenAt(hash, wr, Write(hash, wr, key, text, woc), p, text)
            else SameAt(wr, Write(hash, wr, key, text, woc), p)
  {
  }

  lemma SourceEffect(t: Toolchain, w: World, f: Path, wr: Writer, woc: bool, p: Output)
    requires Sound(t)
    ensures WriteSource(t, w, f, wr, woc).previous == wr.previous
    ensures if p in OutputsOf(t, w, f)
            then WrittenAt(t.hash, wr, WriteSource(t, w, f, wr, woc), p, OutputsOf(t, w, f)[p])
            else SameAt(wr, WriteSource(t, w, f, wr, woc), p)
  {
    OutputKeys(t, w, f);
    var e := t.compile(w, f);
    var first := Write(t.hash, wr, t.out(f), e.text, woc);
    WriteEffect(t.hash, wr, t.out(f), e.text, woc, p);
    if e.sourceMap.Some? {
      WriteEffect(t.hash, first, t.out(f) + MAP_SUFFIX, e.sourceMap.value, woc, p);
    }
  }

  /** A key none of the sources write is left alone. */
  lemma {:induction false} WritesFrame(t: Toolchain, w: World, order: seq<Path>, wr: Writer, woc: bool, p: Output)
    requires Sound(t) && forall f :: f in order ==> p !in OutputsOf(t, w, f)
    ensures WriteAll(t, w, order, wr, woc).previous == wr.previous
    ensures SameAt(wr, WriteAll(t, w, order, wr, woc), p)
  {
    if order != [] {
      SourceEffect(t, w, order[0], wr, woc, p);
      WritesFrame(t, w, order[1..], WriteSource(t, w, order[0], wr, woc), woc, p);
    }
  }

  lemma {:induction false} WritesEffect(
    t: Toolchain, w: World, order: seq<Path>, wr: Writer, woc: bool, f: Path, p: Output)
    requires Sound(t) && DistinctOutputs(t, w) && Distinct(order) && forall g :: g in order ==> g in w.texts
    requires f in order && p in OutputsOf(t, w, f)
    ensures WrittenAt(t.hash, wr, WriteAll(t, w, order, wr, woc), p, OutputsOf(t, w, f)[p])
  {
    var next := WriteSource(t, w, order[0], wr, woc);
    SourceEffect(t, w, order[0], wr, woc, p);
    if order[0] == f {
      forall g | g in order[1..] ensures p !in OutputsOf(t, w, g) { OutputsDisjoint(t, w, f, g); }
      WritesFrame(t, w, order[1..], next, woc, p);
    } else {
      OutputsDisjoint(t, w, f, order[0]);
      WritesEffect(t, w, order[1..], next, woc, f, p);
    }
  }

  // ----- a build

  function PreviousOutputs(w: World, manifest: Option<Manifest>): map<Output, string> {
    if manifest.Some? && manifest.value.salt == w.salt then manifest.value.outputs else map[]
  }

  function CurrentManifest(t: Toolchain, w: World, store: Store): Manifest {
    Manifest(w.salt, CurrentFiles(t.refs, t.hash, w, store.manifest), PreviousOutputs(w, store.manifest))
  }

  /** Some recorded output that may come from `f` is missing. */
  ghost predicate OutputMissing(t: Toolchain, w: World, store: Store, f: Path) {
    exists p :: p in PreviousOutputs(w, store.manifest) && p !in store.disk && f in t.inputs(TrimMap(p))
  }

  ghost predicate Selected(t: Toolchain, w: World, store: Store, opts: Options, f: Path) {
    opts.forceFull || MustRecompile(CurrentManifest(t, w, store), store.manifest, f) || OutputMissing(t, w, store, f)
  }

  function Prune(outputs: map<Output, string>, disk: map<Output, string>): map<Output, string> {
    map p | p in outputs && p in disk :: outputs[p]
  }

  /** The store after the sources of `order` have been compiled and written, in that order. */
  function Built(t: Toolchain, w: World, order: seq<Path>, store: Store, woc: bool): Store {
    var outputs := PreviousOutputs(w, store.manifest);
    var wr := WriteAll(t, w, order, Writer(store.disk, outputs, outputs), woc);
    Store(wr.disk, Some(Manifest(w.salt, CurrentFiles(t.refs, t.hash, w, store.manifest), Prune(wr.current, wr.disk))))
  }

  /** `order` lists exactly the selected sources; the write workers may take them in any order. */
  ghost predicate Schedules(t: Toolchain, w: World, store: Store, opts: Options, order: seq<Path>) {
    Distinct(order) && forall f :: f in order <==> f in w.texts && Selected(t, w, store, opts, f)
  }

  /** What the build is for: every source's output is on disk. */
  ghost predicate OutputsCorrect(t: Toolchain, w: World, disk: map<Output, string>) {
    forall f, p :: f in w.texts && p in OutputsOf(t, w, f) ==> CorrectAt(t, w, disk, f, p)
  }

  ghost predicate CorrectAt(t: Toolchain, w: World, disk: map<Output, string>, f: Path, p: Output)
    requires p in OutputsOf(t, w, f)
  {
    p in disk && disk[p] == OutputsOf(t, w, f)[p]
  }

  // ----- the invariant of the store

  ghost predicate RecordedFor(t: Toolchain, built: World, m: Manifest, f: Path) {
    forall p :: p in OutputsOf(t, built, f) ==> p in m.outputs && m.outputs[p] == t.hash(OutputsOf(t, built, f)[p])
  }

  /** The manifest describes a build of `built`. */
  ghost predicate Describes(t: Toolchain, built: World, m: Manifest) {
    && m.salt == built.salt && m.files == FilesOf(t.refs, t.hash, built)
    && forall f :: f in built.texts ==> RecordedFor(t, built, m, f)
  }

  ghost predicate ManifestOk(t: Toolchain, manifest: Option<Manifest>) {
    manifest.None? || exists built :: Describes(t, built, manifest.value)
  }

  /** Every recorded output that is still there has the recorded content. */
  ghost predicate DiskMatches(t: Toolchain, store: Store) {
    store.manifest.Some? ==>
      forall p :: p in store.manifest.value.outputs && p in store.disk ==>
        t.hash(store.disk[p]) == store.manifest.value.outputs[p]
  }

  /**
   No output whose recorded hash is the one this build wants has been changed on disk.  A caller can
   check it before building.
   */
  ghost predicate NoDisguisedChange(t: Toolchain, w: World, store: Store) {
    forall f, p :: f in w.texts && p in OutputsOf(t, w, f) ==> !Disguised(t, w, store, f, p)
  }

  ghost predicate Disguised(t: Toolchain, w: World, store: Store, f: Path, p: Output)
    requires p in OutputsOf(t, w, f)
  {
    var outputs, text := PreviousOutputs(w, store.manifest), OutputsOf(t, w, f)[p];
    p in outputs && outputs[p] == t.hash(text) && p in store.disk && store.disk[p] != text
  }

  // ----- a source that is not selected has the outputs it had

  lemma {:induction false} ClosureInUnion(t: Toolchain, v: World, w: World, f: Path, g: Path)
    requires InClosure(t, v, f, g) || InClosure(t, w, f, g)
    ensures Reaches(UnionGraph(FilesOf(t.refs, t.hash, w), FilesOf(t.refs, t.hash, v)), f, g)
  {
    var union := UnionGraph(FilesOf(t.refs, t.hash, w), FilesOf(t.refs, t.hash, v));
    if InClosure(t, v, f, g) {
      var p :| IsWalk(RefGraph(t, v), p, f, g);
      forall i | 0 <= i < |p| - 1
        ensures p[i + 1] in Succ(union, p[i])
      {
        assert p[i + 1] in Succ(RefGraph(t, v), p[i]);
      }
      assert IsWalk(union, p, f, g);
    } else {
      var p :| IsWalk(RefGraph(t, w), p, f, g);
      forall i | 0 <= i < |p| - 1
        ensures p[i + 1] in Succ(union, p[i])
      {
        assert p[i + 1] in Succ(RefGraph(t, w), p[i]);
      }
      assert IsWalk(union, p, f, g);
    }
  }

  /** The closure of a source stays among the sources. */
  lemma ClosureIsSource(t: Toolchain, w: World, f: Path, g: Path)
    requires Sound(t) && InClosure(t, w, f, g) && f in w.texts
    ensures g in w.texts
  {
    ClosedHoldsReachable(RefGraph(t, w), w.texts.Keys, f, g);
  }

  lemma UnchangedClosureAgrees(t: Toolchain, v: World, w: World, f: Path)
    requires Sound(t) && f in w.texts
    requires !ReachesChanged(FilesOf(t.refs, t.hash, w), FilesOf(t.refs, t.hash, v), f)
    ensures f in v.texts && AgreeOnClosure(t, v, w, f)
  {
    var current, previous := FilesOf(t.refs, t.hash, w), FilesOf(t.refs, t.hash, v);
    ReachesSelf(UnionGraph(current, previous), f);
    assert !Changed(current, previous, f);
    forall g | InClosure(t, v, f, g) || InClosure(t, w, f, g)
      ensures g in v.texts && g in w.texts && v.texts[g] == w.texts[g]
    {
      ClosureInUnion(t, v, w, f, g);
      assert !Changed(current, previous, g);
      if InClosure(t, v, f, g) { ClosureIsSource(t, v, f, g); } else { ClosureIsSource(t, w, f, g); }
      assert t.hash(v.texts[g]) == t.hash(w.texts[g]);
    }
  }

  /** A source left out of the selection has exactly the outputs the manifest records, and they are there. */
  lemma UnselectedIsRecorded(t: Toolchain, w: World, store: Store, opts: Options, built: World, f: Path)
    requires Sound(t) && f in w.texts && !Selected(t, w, store, opts, f)
    requires store.manifest.Some? && Describes(t, built, store.manifest.value)
    ensures
      var outputs := PreviousOutputs(w, store.manifest);
      forall p :: p in OutputsOf(t, w, f) ==>
        p in outputs && outputs[p] == t.hash(OutputsOf(t, w, f)[p]) && p in store.disk
  {
    ReuseIsFresh(t.refs, t.hash, w, built, store.manifest.value);
    UnchangedClosureAgrees(t, built, w, f);
    assert t.compile(w, f) == t.compile(built, f);
    assert OutputsOf(t, w, f) == OutputsOf(t, built, f);
    assert RecordedFor(t, built, store.manifest.value, f);
    OutputKeys(t, w, f);
    forall p | p in OutputsOf(t, w, f) ensures p in store.disk { RecordedIsPresent(t, w, store, f, p); }
  }

  lemma RecordedIsPresent(t: Toolchain, w: World, store: Store, f: Path, p: Output)
    requires p in PreviousOutputs(w, store.manifest) && f in t.inputs(TrimMap(p)) && !OutputMissing(t, w, store, f)
    ensures p in store.disk
  {
  }

  // ----- one build

  /** Where the build leaves output `p` of source `f`. */
  lemma BuildLeaves(t: Toolchain, w: World, store: Store, opts: Options, order: seq<Path>, f: Path, p: Output)
    requires Sound(t) && DistinctOutputs(t, w) && ManifestOk(t, store.manifest)
    requires Schedules(t, w, store, opts, order) && f in w.texts && p in OutputsOf(t, w, f)
    ensures
      var after := Built(t, w, order, store, opts.writeOnlyChanged);
      var text := OutputsOf(t, w, f)[p];
      && p in after.disk && after.disk[p] == (if Disguised(t, w, store, f, p) then store.disk[p] else text)
      && p in after.manifest.value.outputs && after.manifest.value.outputs[p] == t.hash(text)
  {
    var outputs := PreviousOutputs(w, store.manifest);
    var wr := Writer(store.disk, outputs, outputs);
    if f in order {
      WritesEffect(t, w, order, wr, opts.writeOnlyChanged, f, p);
    } else {
      var built :| Describes(t, built, store.manifest.value);
      UnselectedIsRecorded(t, w, store, opts, built, f);
      forall g | g in order ensures p !in OutputsOf(t, w, g) { OutputsDisjoint(t, w, f, g); }
      WritesFrame(t, w, order, wr, opts.writeOnlyChanged, p);
    }
  }

  /**
   A successful build leaves every source's output on disk exactly when no output was changed behind
   an unchanged record.
   */
  lemma CorrectExactlyWhenUndisguised(t: Toolchain, w: World, store: Store, opts: Options, order: seq<Path>)
    requires Sound(t) && DistinctOutputs(t, w) && ManifestOk(t, store.manifest) && Schedules(t, w, store, opts, order)
    ensures OutputsCorrect(t, w, Built(t, w, order, store, opts.writeOnlyChanged).disk) <==>
      NoDisguisedChange(t, w, store)
  {
    var after := Built(t, w, order, store, opts.writeOnlyChanged);
    forall f, p | f in w.texts && p in OutputsOf(t, w, f)
      ensures CorrectAt(t, w, after.disk, f, p) <==> !Disguised(t, w, store, f, p)
    {
      BuildLeaves(t, w, store, opts, order, f, p);
    }
  }

  /** The manifest a build leaves describes what it built. */
  lemma BuildDescribes(t: Toolchain, w: World, store: Store, opts: Options, order: seq<Path>)
    requires Sound(t) && DistinctOutputs(t, w) && ManifestOk(t, store.manifest) && Schedules(t, w, store, opts, order)
    ensures Describes(t, w, Built(t, w, order, store, opts.writeOnlyChanged).manifest.value)
  {
    var m := Built(t, w, order, store, opts.writeOnlyChanged).manifest.value;
    if store.manifest.Some? {
      var built :| Describes(t, built, store.manifest.value);
      ReuseIsFresh(t.refs, t.hash, w, built, store.manifest.value);
    }
    forall f | f in w.texts ensures RecordedFor(t, w, m, f) {
      forall p | p in OutputsOf(t, w, f) ensures p in m.outputs && m.outputs[p] == t.hash(OutputsOf(t, w, f)[p]) {
        BuildLeaves(t, w, store, opts, order, f, p);
      }
    }
  }

  lemma MatchesMeansUndisguised(t: Toolchain, w: World, store: Store)
    requires Sound(t) && DiskMatches(t, store)
    ensures NoDisguisedChange(t, w, store)
  {
  }

  lemma BuildKeepsMatching(t: Toolchain, w: World, store: Store, opts: Options, order: seq<Path>)
    requires Sound(t) && DistinctOutputs(t, w) && ManifestOk(t, store.manifest) && Schedules(t, w, store, opts, order)
    requires DiskMatches(t, store)
    ensures DiskMatches(t, Built(t, w, order, store, opts.writeOnlyChanged))
  {
    var after := Built(t, w, order, store, opts.writeOnlyChanged);
    var outputs := PreviousOutputs(w, store.manifest);
    forall p | p in after.manifest.value.outputs && p in after.disk
      ensures t.hash(after.disk[p]) == after.manifest.value.outputs[p]
    {
      if f :| f in order && p in OutputsOf(t, w, f) {
        BuildLeaves(t, w, store, opts, order, f, p);
      } else {
        WritesFrame(t, w, order, Writer(store.disk, outputs, outputs), opts.writeOnlyChanged, p);
      }
    }
  }
}
