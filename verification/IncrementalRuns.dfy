/**
 Whole histories of incremental builds: every build agrees with a build from scratch, and what goes wrong
 when a build's outputs are written but its manifest is not persisted.
 */
module IncrementalRuns {
  import opened Wrappers
  import opened Graphs
  import opened IncrementalManifest
  import opened IncrementalBuild

  /** Between builds the sources change freely; outputs are only ever deleted from outside. */
  datatype Event =
    | OutputsDeleted(paths: set<Output>)
    | BuildEvent(world: World, opts: Options, order: seq<Path>)

  function ApplyEvent(t: Toolchain, store: Store, e: Event): Store {
    match e
    case OutputsDeleted(paths) => store.(disk := store.disk - paths)
    case BuildEvent(w, opts, order) => Built(t, w, order, store, opts.writeOnlyChanged)
  }

  ghost predicate Legal(t: Toolchain, store: Store, e: Event) {
    e.BuildEvent? ==> DistinctOutputs(t, e.world) && Schedules(t, e.world, store, e.opts, e.order)
  }

  /** A history: it starts without a manifest, on any output tree. */
  ghost predicate IsRun(t: Toolchain, stores: seq<Store>, events: seq<Event>) {
    && |stores| == |events| + 1 && stores[0].manifest.None?
    && forall k :: 0 <= k < |events| ==>
      Legal(t, stores[k], events[k]) && stores[k + 1] == ApplyEvent(t, stores[k], events[k])
  }

  ghost predicate StoreOk(t: Toolchain, store: Store) {
    ManifestOk(t, store.manifest) && DiskMatches(t, store)
  }

  lemma EventKeepsOk(t: Toolchain, store: Store, e: Event)
    requires Sound(t) && StoreOk(t, store) && Legal(t, store, e)
    ensures StoreOk(t, ApplyEvent(t, store, e))
  {
    if e.BuildEvent? {
      BuildDescribes(t, e.world, store, e.opts, e.order);
      BuildKeepsMatching(t, e.world, store, e.opts, e.order);
    }
  }

  lemma {:induction false} RunStaysOk(t: Toolchain, stores: seq<Store>, events: seq<Event>, k: nat)
    requires Sound(t) && IsRun(t, stores, events) && k <= |events|
    ensures StoreOk(t, stores[k])
  {
    if k > 0 {
      RunStaysOk(t, stores, events, k - 1);
      EventKeepsOk(t, stores[k - 1], events[k - 1]);
    }
  }

  // ----- the reference: a build from nothing

  ghost predicate IsOutput(t: Toolchain, w: World, p: Output) {
    exists f :: f in w.texts && p in OutputsOf(t, w, f)
  }

  /** The empty output tree without a manifest. */
  const EMPTY: Store := Store(map[], None)

  lemma ScratchWritesExactly(t: Toolchain, w: World, opts: Options, order: seq<Path>, p: Output)
    requires Sound(t) && DistinctOutputs(t, w) && Schedules(t, w, EMPTY, opts, order)
    ensures p in Built(t, w, order, EMPTY, opts.writeOnlyChanged).disk <==> IsOutput(t, w, p)
    ensures forall f :: f in w.texts && p in OutputsOf(t, w, f) ==>
              CorrectAt(t, w, Built(t, w, order, EMPTY, opts.writeOnlyChanged).disk, f, p)
  {
    forall f | f in w.texts && p in OutputsOf(t, w, f)
      ensures CorrectAt(t, w, Built(t, w, order, EMPTY, opts.writeOnlyChanged).disk, f, p)
    {
      BuildLeaves(t, w, EMPTY, opts, order, f, p);
    }
    if !IsOutput(t, w, p) {
      WritesFrame(t, w, order, Writer(map[], map[], map[]), opts.writeOnlyChanged, p);
    }
  }

  /**
   Over every history of builds, source edits and output deletions: after each build, every file a build
   from scratch of the same sources would write is on disk with the same contents.
   */
  lemma EveryBuildAgreesWithScratch(t: Toolchain, stores: seq<Store>, events: seq<Event>, k: nat,
                                    opts: Options, order: seq<Path>)
    requires Sound(t) && IsRun(t, stores, events) && k < |events| && events[k].BuildEvent?
    requires Schedules(t, events[k].world, EMPTY, opts, order)
    ensures
      var scratch := Built(t, events[k].world, order, EMPTY, opts.writeOnlyChanged).disk;
      forall p :: p in scratch ==> p in stores[k + 1].disk && stores[k + 1].disk[p] == scratch[p]
  {
    var e := events[k];
    var w := e.world;
    var scratch := Built(t, w, order, EMPTY, opts.writeOnlyChanged).disk;
    RunStaysOk(t, stores, events, k);
    MatchesMeansUndisguised(t, w, stores[k]);
    CorrectExactlyWhenUndisguised(t, w, stores[k], e.opts, e.order);
    forall p | p in scratch ensures p in stores[k + 1].disk && stores[k + 1].disk[p] == scratch[p] {
      ScratchWritesExactly(t, w, opts, order, p);
      var f :| f in w.texts && p in OutputsOf(t, w, f);
      assert CorrectAt(t, w, stores[k + 1].disk, f, p);
    }
  }

  /** The order in which the write workers take the selected sources does not matter. */
  lemma WriteOrderIrrelevant(t: Toolchain, w: World, store: Store, opts: Options, a: seq<Path>, b: seq<Path>)
    requires Sound(t) && DistinctOutputs(t, w) && Schedules(t, w, store, opts, a) && Schedules(t, w, store, opts, b)
    ensures Built(t, w, a, store, opts.writeOnlyChanged) == Built(t, w, b, store, opts.writeOnlyChanged)
  {
    var outputs := PreviousOutputs(w, store.manifest);
    var wr := Writer(store.disk, outputs, outputs);
    var x := WriteAll(t, w, a, wr, opts.writeOnlyChanged);
    var y := WriteAll(t, w, b, wr, opts.writeOnlyChanged);
    forall p: Output ensures SameAt(x, y, p) {
      if f :| f in a && p in OutputsOf(t, w, f) {
        WritesEffect(t, w, a, wr, opts.writeOnlyChanged, f, p);
        WritesEffect(t, w, b, wr, opts.writeOnlyChanged, f, p);
      } else {
        WritesFrame(t, w, a, wr, opts.writeOnlyChanged, p);
        WritesFrame(t, w, b, wr, opts.writeOnlyChanged, p);
      }
    }
    SameEverywhere(x, y);
  }

  lemma SameEverywhere(x: Writer, y: Writer)
    requires forall p: Output :: SameAt(x, y, p)
    ensures x.disk == y.disk && x.current == y.current
  {
    assert forall p: Output :: p in x.disk || p in y.disk || p in x.current || p in y.current ==> SameAt(x, y, p);
    assert x.disk.Keys == y.disk.Keys by {
      forall p: Output ensures p in x.disk <==> p in y.disk { assert SameAt(x, y, p); }
    }
    assert x.current.Keys == y.current.Keys by {
      forall p: Output ensures p in x.current <==> p in y.current { assert SameAt(x, y, p); }
    }
  }

  // ----- a build whose manifest was not persisted

  /** The outputs of a build were written, but the manifest was kept back, as in a solution build that fails
      elsewhere. */
  function Unpersisted(t: Toolchain, w: World, order: seq<Path>, store: Store, woc: bool): Store {
    Store(Built(t, w, order, store, woc).disk, store.manifest)
  }

  /**
   If a build of `v` is written without its manifest on top of a persisted build of `w`, then going back to
   `w` leaves every output on which the two differ as `v` wrote it, whatever the build options.
   */
  lemma UnpersistedBuildIsNotUndone(t: Toolchain, w: World, v: World, store: Store, opts1: Options, order1: seq<Path>,
      opts2: Options, order2: seq<Path>, opts3: Options, order3: seq<Path>, f: Path, p: Output)
    requires Sound(t) && StoreOk(t, store) && DistinctOutputs(t, w) && DistinctOutputs(t, v)
    requires Schedules(t, w, store, opts1, order1)
    requires Schedules(t, v, Built(t, w, order1, store, opts1.writeOnlyChanged), opts2, order2)
    requires
      var persisted := Built(t, w, order1, store, opts1.writeOnlyChanged);
      var kept := Unpersisted(t, v, order2, persisted, opts2.writeOnlyChanged);
      Schedules(t, w, kept, opts3, order3)
    requires f in w.texts && f in v.texts && p in OutputsOf(t, w, f) && p in OutputsOf(t, v, f)
    requires OutputsOf(t, w, f)[p] != OutputsOf(t, v, f)[p]
    ensures
      var persisted := Built(t, w, order1, store, opts1.writeOnlyChanged);
      var kept := Unpersisted(t, v, order2, persisted, opts2.writeOnlyChanged);
      var final := Built(t, w, order3, kept, opts3.writeOnlyChanged).disk;
      p in final && final[p] == OutputsOf(t, v, f)[p] && !OutputsCorrect(t, w, final)
  {
    var persisted := Built(t, w, order1, store, opts1.writeOnlyChanged);
    var kept := Unpersisted(t, v, order2, persisted, opts2.writeOnlyChanged);
    BuildDescribes(t, w, store, opts1, order1);
    BuildKeepsMatching(t, w, store, opts1, order1);
    BuildLeaves(t, w, store, opts1, order1, f, p);
    MatchesMeansUndisguised(t, v, persisted);
    BuildLeaves(t, v, persisted, opts2, order2, f, p);
    assert Disguised(t, w, kept, f, p);
    BuildLeaves(t, w, kept, opts3, order3, f, p);
    assert !CorrectAt(t, w, Built(t, w, order3, kept, opts3.writeOnlyChanged).disk, f, p);
  }

  // ----- an instance

  /** A toolchain that copies each source to its output. */
  function Copying(): Toolchain {
    Toolchain(
      (w: World, p: Path) => [],
      (w: World, f: Path) => Emitted(if f in w.texts then w.texts[f] else "", None),
      (text: string) => text,
      (f: Path) => f + "l",
      (p: Output) => if p == "" then [] else [p[..|p| - 1]])
  }

  lemma CopyingIsSound()
    ensures Sound(Copying())
  {
    var t := Copying();
    forall v: World, w: World, f: Path | v.salt == w.salt && AgreeOnClosure(t, v, w, f)
      ensures t.compile(v, f) == t.compile(w, f)
    {
      ReachesSelf(RefGraph(t, v), f);
      assert InClosure(t, v, f, f);
    }
    forall f ensures !HasMapSuffix(t.out(f)) && f in t.inputs(t.out(f)) {
      assert (f + "l")[|f|] == 'l' && MAP_SUFFIX[3] == 'p';
      assert (f + "l")[..|f|] == f;
    }
  }

  /** Some order schedules a project of one source. */
  lemma OneSource(t: Toolchain, w: World, store: Store, opts: Options, f: Path) returns (order: seq<Path>)
    requires w.texts.Keys == {f}
    ensures Schedules(t, w, store, opts, order)
  {
    order := if Selected(t, w, store, opts, f) then [f] else [];
  }

  /** A project of one source, built as `w` with its manifest, as `v` without, and as `w` again. */
  lemma OneSourceNotUndone(t: Toolchain, w: World, v: World, opts: Options, f: Path, p: Output)
    returns (order1: seq<Path>, order2: seq<Path>, order3: seq<Path>)
    requires Sound(t) && w.texts.Keys == {f} && v.texts.Keys == {f}
    requires p in OutputsOf(t, w, f) && p in OutputsOf(t, v, f) && OutputsOf(t, w, f)[p] != OutputsOf(t, v, f)[p]
    ensures
      var persisted := Built(t, w, order1, EMPTY, opts.writeOnlyChanged);
      var kept := Unpersisted(t, v, order2, persisted, opts.writeOnlyChanged);
      var final := Built(t, w, order3, kept, opts.writeOnlyChanged);
      && Schedules(t, w, EMPTY, opts, order1) && Schedules(t, v, persisted, opts, order2)
      && Schedules(t, w, kept, opts, order3) && p in final.disk && final.disk[p] == OutputsOf(t, v, f)[p]
  {
    order1 := OneSource(t, w, EMPTY, opts, f);
    var persisted := Built(t, w, order1, EMPTY, opts.writeOnlyChanged);
    order2 := OneSource(t, v, persisted, opts, f);
    var kept := Unpersisted(t, v, order2, persisted, opts.writeOnlyChanged);
    order3 := OneSource(t, w, kept, opts, f);
    UnpersistedBuildIsNotUndone(t, w, v, EMPTY, opts, order1, opts, order2, opts, order3, f, p);
  }

  lemma CopiedOutputs(w: World, f: Path)
    requires f in w.texts
    ensures OutputsOf(Copying(), w, f) == map[f + "l" := w.texts[f]]
  {
  }

  /** The source "a" with the text "1", then "2" without a manifest, then "1" again: its output stays "2". */
  lemma UnpersistedExample(t: Toolchain, w: World, v: World, opts: Options)
    returns (order1: seq<Path>, order2: seq<Path>, order3: seq<Path>)
    requires t == Copying() && w == World("", map["a" := "1"]) && v == World("", map["a" := "2"])
    ensures
      var persisted := Built(t, w, order1, EMPTY, opts.writeOnlyChanged);
      var kept := Unpersisted(t, v, order2, persisted, opts.writeOnlyChanged);
      var final := Built(t, w, order3, kept, opts.writeOnlyChanged);
      && Schedules(t, w, EMPTY, opts, order1) && Schedules(t, v, persisted, opts, order2)
      && Schedules(t, w, kept, opts, order3) && "al" in final.disk && final.disk["al"] == "2"
  {
    CopyingIsSound();
    CopiedOutputs(w, "a");
    CopiedOutputs(v, "a");
    assert "a" + "l" == "al";
    order1, order2, order3 := OneSourceNotUndone(t, w, v, opts, "a", "al");
  }
}
