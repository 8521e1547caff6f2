/**
 The stamp and overlay protocol between rotor and its long-lived transformer worker:
 internal/compile/sidecar.go, changedFilesFor, revertDroppedOverlays and runTransformerSidecar.

 The worker is the map of texts it answers from: it applies the changes of a request, then reads from disk
 each readable project file it does not hold yet, and never reads a held file again.
 */
module Sidecar {

  type Path = string

  datatype Stamp = Stamp(modTime: int, size: int)
  datatype File = File(text: string, stamp: Stamp, readable: bool)
  datatype Change = Change(fileName: Path, text: string)
  datatype Session = Session(stamps: map<Path, Stamp>, overlaid: set<Path>)

  type Disk = map<Path, File>
  type Texts = map<Path, string>

  predicate Readable(disk: Disk, p: Path) {
    p in disk && disk[p].readable
  }

  // ----- revertDroppedOverlays

  /** The files whose overlay this round trip no longer carries. */
  function Dropped(s: Session, overlays: Texts): set<Path> {
    s.overlaid - overlays.Keys
  }

  /** Those of `dropped` whose file can be read. */
  function ReadableOf(dropped: set<Path>, disk: Disk): set<Path> {
    set p | p in dropped && Readable(disk, p)
  }

  function StampAt(disk: Disk, on: set<Path>, p: Path): Stamp {
    if p in on && p in disk then disk[p].stamp else Stamp(0, 0)
  }

  function TextAt(disk: Disk, on: set<Path>, p: Path): string {
    if p in on && p in disk then disk[p].text else ""
  }

  /** `stamps` with the files of `dropped` stamped again, or forgotten when they cannot be read. */
  function Restamped(stamps: map<Path, Stamp>, dropped: set<Path>, disk: Disk): map<Path, Stamp> {
    var back := ReadableOf(dropped, disk);
    (stamps - dropped) + (map p | p in back :: StampAt(disk, back, p))
  }

  function DiskTexts(dropped: set<Path>, disk: Disk): Texts {
    var back := ReadableOf(dropped, disk);
    map p | p in back :: TextAt(disk, back, p)
  }

  // ----- the stat-diff of the listed files

  /** The stamps and shipped texts so far; `failed` once a file could not be read. */
  datatype Scan = Scan(stamps: map<Path, Stamp>, shipped: Texts, failed: bool)

  predicate MustShip(scan: Scan, first: bool, p: Path, file: File) {
    !first && (p !in scan.stamps || scan.stamps[p] != file.stamp)
  }

  function ScanFile(scan: Scan, first: bool, overlays: Texts, disk: Disk, p: Path): Scan {
    if p in overlays || p !in disk then scan
    else if !MustShip(scan, first, p, disk[p]) then scan.(stamps := scan.stamps[p := disk[p].stamp])
    else if !disk[p].readable then scan.(failed := true)
    else Scan(scan.stamps[p := disk[p].stamp], scan.shipped[p := disk[p].text], false)
  }

  function ScanFiles(start: Scan, first: bool, overlays: Texts, disk: Disk, fileNames: seq<Path>, n: nat): Scan
    requires n <= |fileNames|
  {
    if n == 0 then start
    else
      var scan := ScanFiles(start, first, overlays, disk, fileNames, n - 1);
      if scan.failed then scan else ScanFile(scan, first, overlays, disk, fileNames[n - 1])
  }

  /** The stamps and texts a scan starts from, after dropped overlays have been reverted. */
  function Start(s: Session, overlays: Texts, disk: Disk): Scan {
    Scan(Restamped(s.stamps, Dropped(s, overlays), disk), DiskTexts(Dropped(s, overlays), disk) + overlays, false)
  }

  /** internal/compile/sidecar.go: changedFilesFor. */
  function Collect(s: Session, fileNames: seq<Path>, overlays: Texts, disk: Disk): Scan {
    ScanFiles(Start(s, overlays, disk), |s.stamps| == 0, overlays, disk, fileNames, |fileNames|)
  }

  function AfterCollect(s: Session, fileNames: seq<Path>, overlays: Texts, disk: Disk): Session {
    Session(Collect(s, fileNames, overlays, disk).stamps, overlays.Keys)
  }

  // ----- the worker

  /** The worker takes the shipped texts, then loads what it does not hold. */
  function Answer(texts: Texts, shipped: Texts, fileNames: seq<Path>, disk: Disk): Texts {
    var loaded := set p | p in fileNames && Readable(disk, p);
    (map p | p in loaded :: TextAt(disk, loaded, p)) + texts + shipped
  }

  /** What the caller sees at `p`. */
  function Seen(overlays: Texts, disk: Disk, p: Path): string
    requires p in overlays || p in disk
  {
    if p in overlays then overlays[p] else disk[p].text
  }

  ghost predicate CoherentAt(texts: Texts, overlays: Texts, disk: Disk, p: Path) {
    (p in overlays || p in disk) && p in texts && texts[p] == Seen(overlays, disk, p)
  }

  ghost predicate Coherent(texts: Texts, overlays: Texts, disk: Disk, fileNames: seq<Path>) {
    forall p :: p in fileNames ==> CoherentAt(texts, overlays, disk, p)
  }

  // ----- what is assumed: a stamp tells the text

  type Content = (Path, Stamp) -> string

  ghost predicate StampsTell(content: Content, disk: Disk) {
    forall p :: p in disk ==> disk[p].text == content(p, disk[p].stamp)
  }

  // ----- the invariant

  /**
   Every held text is accounted for: it is an overlay still to be reverted or replaced, or it is the text its
   recorded stamp tells.
   */
  ghost predicate Synced(content: Content, s: Session, texts: Texts) {
    forall p :: p in texts && p !in s.overlaid ==> p in s.stamps && texts[p] == content(p, s.stamps[p])
  }

  // ----- how far a scan gets

  /** A session that knows some file would ship `p` if it is listed. */
  predicate Stale(s: Session, overlays: Texts, disk: Disk, p: Path) {
    && p !in overlays && p in disk && |s.stamps| != 0
    && if p in s.overlaid then !disk[p].readable else p !in s.stamps || s.stamps[p] != disk[p].stamp
  }

  /** Listing `p` makes the scan fail. */
  predicate Blocks(s: Session, overlays: Texts, disk: Disk, p: Path) {
    Stale(s, overlays, disk, p) && !disk[p].readable
  }

  /** The first listed file that cannot be shipped, or the number of files. */
  function BlockedAt(s: Session, fileNames: seq<Path>, overlays: Texts, disk: Disk): (k: nat)
    ensures k <= |fileNames|
  {
    if fileNames == [] || Blocks(s, overlays, disk, fileNames[0]) then 0
    else 1 + BlockedAt(s, fileNames[1..], overlays, disk)
  }

  lemma {:induction false} BlockedAtIsFirst(s: Session, fileNames: seq<Path>, overlays: Texts, disk: Disk)
    ensures var k := BlockedAt(s, fileNames, overlays, disk);
      && (forall i :: 0 <= i < k ==> !Blocks(s, overlays, disk, fileNames[i]))
      && (k < |fileNames| ==> Blocks(s, overlays, disk, fileNames[k]))
  {
    if fileNames != [] && !Blocks(s, overlays, disk, fileNames[0]) {
      BlockedAtIsFirst(s, fileNames[1..], overlays, disk);
      forall i | 0 < i < BlockedAt(s, fileNames, overlays, disk) ensures !Blocks(s, overlays, disk, fileNames[i]) {
        assert fileNames[i] == fileNames[1..][i - 1];
      }
    }
  }

  predicate Blocked(s: Session, fileNames: seq<Path>, overlays: Texts, disk: Disk) {
    BlockedAt(s, fileNames, overlays, disk) < |fileNames|
  }

  predicate SameAt<V(==)>(a: map<Path, V>, b: map<Path, V>, p: Path) {
    (p in a <==> p in b) && (p in a ==> a[p] == b[p])
  }

  /** What the scan of the first `n` files has done at `p`. */
  lemma {:induction false} ScanAt(
    start: Scan, first: bool, overlays: Texts, disk: Disk, fileNames: seq<Path>, n: nat, p: Path)
    requires n <= |fileNames| && !start.failed
    requires !ScanFiles(start, first, overlays, disk, fileNames, n).failed
    ensures
      var scan := ScanFiles(start, first, overlays, disk, fileNames, n);
      if p in fileNames[..n] && p !in overlays && p in disk then
        && p in scan.stamps && scan.stamps[p] == disk[p].stamp
        && if MustShip(start, first, p, disk[p]) then p in scan.shipped && scan.shipped[p] == disk[p].text
           else SameAt(scan.shipped, start.shipped, p)
      else
        SameAt(scan.stamps, start.stamps, p) && SameAt(scan.shipped, start.shipped, p)
  {
    if n > 0 {
      ScanAt(start, first, overlays, disk, fileNames, n - 1, p);
      assert fileNames[..n] == fileNames[..n - 1] + [fileNames[n - 1]];
    }
  }

  lemma StartAt(s: Session, overlays: Texts, disk: Disk, p: Path)
    requires p !in overlays
    ensures
      var start := Start(s, overlays, disk);
      if p in s.overlaid && Readable(disk, p) then
        p in start.stamps && start.stamps[p] == disk[p].stamp && p in start.shipped && start.shipped[p] == disk[p].text
      else if p in s.overlaid then p !in start.stamps && p !in start.shipped
      else SameAt(start.stamps, s.stamps, p) && p !in start.shipped
  {
  }

  lemma StaleMustShip(s: Session, overlays: Texts, disk: Disk, p: Path)
    requires p !in overlays && p in disk
    ensures MustShip(Start(s, overlays, disk), |s.stamps| == 0, p, disk[p]) <==> Stale(s, overlays, disk, p)
  {
    StartAt(s, overlays, disk, p);
  }

  /** The next file makes the scan fail exactly when it blocks it. */
  lemma ScanNext(s: Session, fileNames: seq<Path>, overlays: Texts, disk: Disk, n: nat)
    requires n < |fileNames| && fileNames[n] !in fileNames[..n]
    requires !ScanFiles(Start(s, overlays, disk), |s.stamps| == 0, overlays, disk, fileNames, n).failed
    ensures
      ScanFiles(Start(s, overlays, disk), |s.stamps| == 0, overlays, disk, fileNames, n + 1).failed <==>
      Blocks(s, overlays, disk, fileNames[n])
  {
    var start, first, p := Start(s, overlays, disk), |s.stamps| == 0, fileNames[n];
    ScanAt(start, first, overlays, disk, fileNames, n, p);
    if p !in overlays && p in disk { StaleMustShip(s, overlays, disk, p); }
  }

  /** A file that was scanned before does not make the scan fail. */
  lemma ScanAgain(s: Session, fileNames: seq<Path>, overlays: Texts, disk: Disk, n: nat)
    requires n < |fileNames| && fileNames[n] in fileNames[..n]
    requires !ScanFiles(Start(s, overlays, disk), |s.stamps| == 0, overlays, disk, fileNames, n).failed
    ensures !ScanFiles(Start(s, overlays, disk), |s.stamps| == 0, overlays, disk, fileNames, n + 1).failed
  {
    ScanAt(Start(s, overlays, disk), |s.stamps| == 0, overlays, disk, fileNames, n, fileNames[n]);
  }

  lemma ScanOneMore(s: Session, fileNames: seq<Path>, overlays: Texts, disk: Disk, n: nat)
    requires n < |fileNames| && !Blocks(s, overlays, disk, fileNames[n])
    requires !ScanFiles(Start(s, overlays, disk), |s.stamps| == 0, overlays, disk, fileNames, n).failed
    ensures !ScanFiles(Start(s, overlays, disk), |s.stamps| == 0, overlays, disk, fileNames, n + 1).failed
  {
    if fileNames[n] in fileNames[..n] {
      ScanAgain(s, fileNames, overlays, disk, n);
    } else {
      ScanNext(s, fileNames, overlays, disk, n);
    }
  }

  ghost predicate NoneBlocks(s: Session, fileNames: seq<Path>, overlays: Texts, disk: Disk) {
    forall i :: 0 <= i < |fileNames| ==> !Blocks(s, overlays, disk, fileNames[i])
  }

  lemma {:induction false} ScanUntil(s: Session, fileNames: seq<Path>, overlays: Texts, disk: Disk, n: nat)
    requires n <= |fileNames| && NoneBlocks(s, fileNames[..n], overlays, disk)
    ensures !ScanFiles(Start(s, overlays, disk), |s.stamps| == 0, overlays, disk, fileNames, n).failed
  {
    if n > 0 {
      assert NoneBlocks(s, fileNames[..n - 1], overlays, disk);
      ScanUntil(s, fileNames, overlays, disk, n - 1);
      assert !Blocks(s, overlays, disk, fileNames[n - 1]) by { assert fileNames[..n][n - 1] == fileNames[n - 1]; }
      ScanOneMore(s, fileNames, overlays, disk, n - 1);
    }
  }

  lemma {:induction false} ScanFailedStays(
    start: Scan, first: bool, overlays: Texts, disk: Disk, fileNames: seq<Path>, k: nat, n: nat)
    requires k <= n <= |fileNames| && ScanFiles(start, first, overlays, disk, fileNames, k).failed
    ensures
      ScanFiles(start, first, overlays, disk, fileNames, n) == ScanFiles(start, first, overlays, disk, fileNames, k)
  {
    if k < n { ScanFailedStays(start, first, overlays, disk, fileNames, k, n - 1); }
  }

  lemma ScanFailsInPlace(start: Scan, first: bool, overlays: Texts, disk: Disk, fileNames: seq<Path>, k: nat)
    requires k < |fileNames| && !ScanFiles(start, first, overlays, disk, fileNames, k).failed
    requires ScanFiles(start, first, overlays, disk, fileNames, k + 1).failed
    ensures
      ScanFiles(start, first, overlays, disk, fileNames, k + 1) ==
      ScanFiles(start, first, overlays, disk, fileNames, k).(failed := true)
  {
  }

  /** A scan is what it was before the first file it cannot ship, and fails there. */
  lemma ScanStops(s: Session, fileNames: seq<Path>, overlays: Texts, disk: Disk)
    ensures
      var k := BlockedAt(s, fileNames, overlays, disk);
      var before := ScanFiles(Start(s, overlays, disk), |s.stamps| == 0, overlays, disk, fileNames, k);
      && !before.failed
      && Collect(s, fileNames, overlays, disk) == before.(failed := Blocked(s, fileNames, overlays, disk))
  {
    var k, start, first := BlockedAt(s, fileNames, overlays, disk), Start(s, overlays, disk), |s.stamps| == 0;
    BlockedAtIsFirst(s, fileNames, overlays, disk);
    assert NoneBlocks(s, fileNames[..k], overlays, disk);
    ScanUntil(s, fileNames, overlays, disk, k);
    if k < |fileNames| {
      assert fileNames[k] !in fileNames[..k];
      ScanNext(s, fileNames, overlays, disk, k);
      ScanFailsInPlace(start, first, overlays, disk, fileNames, k);
      ScanFailedStays(start, first, overlays, disk, fileNames, k + 1, |fileNames|);
    }
  }

  /** A round trip cannot be sent exactly when some listed file must be shipped and cannot be read. */
  lemma FailsExactly(s: Session, fileNames: seq<Path>, overlays: Texts, disk: Disk)
    ensures Collect(s, fileNames, overlays, disk).failed <==> Blocked(s, fileNames, overlays, disk)
    ensures Blocked(s, fileNames, overlays, disk) <==> exists p :: p in fileNames && Blocks(s, overlays, disk, p)
  {
    ScanStops(s, fileNames, overlays, disk);
    BlockedAtIsFirst(s, fileNames, overlays, disk);
  }

  /** What the scan, finished or not, leaves at a file without overlay. */
  lemma CollectAt(s: Session, fileNames: seq<Path>, overlays: Texts, disk: Disk, p: Path)
    requires p !in overlays
    ensures
      var scan, listed := Collect(s, fileNames, overlays, disk), fileNames[..BlockedAt(s, fileNames, overlays, disk)];
      && (if (p in listed && p in disk) || (p in s.overlaid && Readable(disk, p)) then
            p in scan.stamps && scan.stamps[p] == disk[p].stamp
          else if p in s.overlaid then p !in scan.stamps
          else SameAt(scan.stamps, s.stamps, p))
      && (p in scan.shipped <==>
            (p in s.overlaid && Readable(disk, p)) || (p in listed && Stale(s, overlays, disk, p)))
      && (p in scan.shipped ==> p in disk && scan.shipped[p] == disk[p].text)
  {
    var k, start, first := BlockedAt(s, fileNames, overlays, disk), Start(s, overlays, disk), |s.stamps| == 0;
    ScanStops(s, fileNames, overlays, disk);
    StartAt(s, overlays, disk, p);
    ScanAt(start, first, overlays, disk, fileNames, k, p);
    if p in disk { StaleMustShip(s, overlays, disk, p); }
  }

  lemma OverlaysShipped(s: Session, fileNames: seq<Path>, overlays: Texts, disk: Disk, p: Path)
    requires p in overlays
    ensures var scan := Collect(s, fileNames, overlays, disk); p in scan.shipped && scan.shipped[p] == overlays[p]
  {
    ScanStops(s, fileNames, overlays, disk);
    ScanAt(
      Start(s, overlays, disk), |s.stamps| == 0, overlays, disk, fileNames, BlockedAt(s, fileNames, overlays, disk), p);
  }

  // ----- a round trip that is answered

  lemma AnswerAt(texts: Texts, shipped: Texts, fileNames: seq<Path>, disk: Disk, p: Path)
    ensures
      var after := Answer(texts, shipped, fileNames, disk);
      if p in shipped then p in after && after[p] == shipped[p]
      else if p in texts then p in after && after[p] == texts[p]
      else if p in fileNames && Readable(disk, p) then p in after && after[p] == disk[p].text
      else p !in after
  {
  }

  /** What the worker holds after a round trip. */
  function Held(s: Session, texts: Texts, fileNames: seq<Path>, overlays: Texts, disk: Disk): Texts {
    Answer(texts, Collect(s, fileNames, overlays, disk).shipped, fileNames, disk)
  }

  /** A held file whose overlay goes away can be read, or is listed on disk with the text that is held. */
  ghost predicate NoneForgotten(s: Session, texts: Texts, fileNames: seq<Path>, overlays: Texts, disk: Disk) {
    forall p :: p !in overlays ==> KeptAt(s, texts, fileNames, disk, p)
  }

  /** The file has an overlay, or is on disk and can be read or is held already. */
  ghost predicate PresentAt(texts: Texts, overlays: Texts, disk: Disk, p: Path) {
    p in overlays || (p in disk && (disk[p].readable || p in texts))
  }

  ghost predicate AllPresent(texts: Texts, fileNames: seq<Path>, overlays: Texts, disk: Disk) {
    forall p :: p in fileNames ==> PresentAt(texts, overlays, disk, p)
  }

  ghost predicate InStepAt(content: Content, s: Session, texts: Texts, p: Path) {
    p in texts && p !in s.overlaid ==> p in s.stamps && texts[p] == content(p, s.stamps[p])
  }

  ghost predicate KeptAt(s: Session, texts: Texts, fileNames: seq<Path>, disk: Disk, p: Path) {
    p in s.overlaid && p in texts ==> Readable(disk, p) || (p in fileNames && p in disk && texts[p] == disk[p].text)
  }

  /** What a round trip makes the worker hold at a file without overlay that has to be shipped, or was overlaid. */
  lemma ShippedTripAt(
    content: Content, s: Session, texts: Texts, fileNames: seq<Path>, overlays: Texts, disk: Disk, p: Path)
    requires StampsTell(content, disk) && p !in overlays && !Blocked(s, fileNames, overlays, disk)
    requires p in Collect(s, fileNames, overlays, disk).shipped
    ensures
      var after := Held(s, texts, fileNames, overlays, disk);
      && Readable(disk, p) && p in after && after[p] == disk[p].text
      && InStepAt(content, AfterCollect(s, fileNames, overlays, disk), after, p)
  {
    CollectAt(s, fileNames, overlays, disk, p);
    BlockedAtIsFirst(s, fileNames, overlays, disk);
    if p in fileNames { assert !Blocks(s, overlays, disk, p); }
    AnswerAt(texts, Collect(s, fileNames, overlays, disk).shipped, fileNames, disk, p);
    assert disk[p].text == content(p, disk[p].stamp);
  }

  /** The stamp of a file that is not shipped. */
  lemma UnshippedStamp(
    content: Content, s: Session, texts: Texts, fileNames: seq<Path>, overlays: Texts, disk: Disk, p: Path)
    requires InStepAt(content, s, texts, p) && StampsTell(content, disk) && p !in overlays
    requires !Blocked(s, fileNames, overlays, disk) && p !in Collect(s, fileNames, overlays, disk).shipped
    ensures
      var stamps := Collect(s, fileNames, overlays, disk).stamps;
      && (p in fileNames && p in disk ==> p in stamps && disk[p].text == content(p, stamps[p]))
      && (p in s.overlaid ==> !Readable(disk, p) && (p !in fileNames || p !in disk ==> p !in stamps))
      && (p in texts && p !in s.overlaid ==> p in stamps && texts[p] == content(p, stamps[p]))
  {
    CollectAt(s, fileNames, overlays, disk, p);
    assert fileNames[..|fileNames|] == fileNames;
    if p in disk { assert disk[p].text == content(p, disk[p].stamp); }
    if |s.stamps| == 0 { assert s.stamps == map[]; }
  }

  lemma UnshippedTripAt(
    content: Content, s: Session, texts: Texts, fileNames: seq<Path>, overlays: Texts, disk: Disk, p: Path)
    requires InStepAt(content, s, texts, p) && StampsTell(content, disk) && p !in overlays
    requires !Blocked(s, fileNames, overlays, disk) && p !in Collect(s, fileNames, overlays, disk).shipped
    ensures
      var after := Held(s, texts, fileNames, overlays, disk);
      && (InStepAt(content, AfterCollect(s, fileNames, overlays, disk), after, p) <==>
          KeptAt(s, texts, fileNames, disk, p))
      && (p in fileNames && p in disk ==> (p in after <==> disk[p].readable || p in texts))
  {
    UnshippedStamp(content, s, texts, fileNames, overlays, disk, p);
    AnswerAt(texts, Collect(s, fileNames, overlays, disk).shipped, fileNames, disk, p);
  }

  /** What a round trip makes the worker hold at a file without overlay. */
  lemma TripAt(
    content: Content, s: Session, texts: Texts, fileNames: seq<Path>, overlays: Texts, disk: Disk, p: Path)
    requires InStepAt(content, s, texts, p) && StampsTell(content, disk) && p !in overlays
    requires !Blocked(s, fileNames, overlays, disk)
    ensures
      var after := Held(s, texts, fileNames, overlays, disk);
      && (InStepAt(content, AfterCollect(s, fileNames, overlays, disk), after, p) <==>
          KeptAt(s, texts, fileNames, disk, p))
      && (p in fileNames && p in disk ==> (p in after <==> disk[p].readable || p in texts))
  {
    if p in Collect(s, fileNames, overlays, disk).shipped {
      ShippedTripAt(content, s, texts, fileNames, overlays, disk, p);
    } else {
      UnshippedTripAt(content, s, texts, fileNames, overlays, disk, p);
    }
  }

  /** An answered round trip keeps the session and the worker in step exactly when no held overlay is forgotten. */
  lemma AnswerKeepsStepExactly(
    content: Content, s: Session, texts: Texts, fileNames: seq<Path>, overlays: Texts, disk: Disk)
    requires Synced(content, s, texts) && StampsTell(content, disk) && !Blocked(s, fileNames, overlays, disk)
    ensures
      Synced(content, AfterCollect(s, fileNames, overlays, disk), Held(s, texts, fileNames, overlays, disk)) <==>
      NoneForgotten(s, texts, fileNames, overlays, disk)
  {
    var next, after := AfterCollect(s, fileNames, overlays, disk), Held(s, texts, fileNames, overlays, disk);
    forall p | p !in overlays
      ensures InStepAt(content, next, after, p) <==> KeptAt(s, texts, fileNames, disk, p)
    {
      assert InStepAt(content, s, texts, p);
      TripAt(content, s, texts, fileNames, overlays, disk, p);
    }
    SyncedEverywhere(content, next, after);
  }

  lemma SyncedEverywhere(content: Content, s: Session, texts: Texts)
    ensures Synced(content, s, texts) <==> forall p :: p !in s.overlaid ==> InStepAt(content, s, texts, p)
  {
    if forall p :: p !in s.overlaid ==> InStepAt(content, s, texts, p) {
      forall p | p in texts && p !in s.overlaid ensures p in s.stamps && texts[p] == content(p, s.stamps[p]) {
        assert InStepAt(content, s, texts, p);
      }
    }
  }

  /**
   An answered round trip that forgets no overlay leaves the worker holding, for each listed file, the caller's
   overlay if there is one and otherwise the text on disk, exactly when each listed file is there to be had.
   */
  lemma RoundTripCoherent(
    content: Content, s: Session, texts: Texts, fileNames: seq<Path>, overlays: Texts, disk: Disk)
    requires Synced(content, s, texts) && StampsTell(content, disk) && !Blocked(s, fileNames, overlays, disk)
    requires NoneForgotten(s, texts, fileNames, overlays, disk)
    ensures
      Coherent(Held(s, texts, fileNames, overlays, disk), overlays, disk, fileNames) <==>
      AllPresent(texts, fileNames, overlays, disk)
  {
    var after := Held(s, texts, fileNames, overlays, disk);
    forall p | p in fileNames
      ensures CoherentAt(after, overlays, disk, p) <==> PresentAt(texts, overlays, disk, p)
    {
      SeenAt(content, s, texts, fileNames, overlays, disk, p);
    }
  }

  lemma SeenAt(
    content: Content, s: Session, texts: Texts, fileNames: seq<Path>, overlays: Texts, disk: Disk, p: Path)
    requires Synced(content, s, texts) && StampsTell(content, disk) && !Blocked(s, fileNames, overlays, disk)
    requires NoneForgotten(s, texts, fileNames, overlays, disk) && p in fileNames
    ensures
      var after := Held(s, texts, fileNames, overlays, disk);
      CoherentAt(after, overlays, disk, p) <==> PresentAt(texts, overlays, disk, p)
  {
    var shipped := Collect(s, fileNames, overlays, disk).shipped;
    AnswerAt(texts, shipped, fileNames, disk, p);
    if p in overlays {
      OverlaysShipped(s, fileNames, overlays, disk, p);
    } else if p in disk {
      assert InStepAt(content, s, texts, p);
      if p in shipped {
        ShippedTripAt(content, s, texts, fileNames, overlays, disk, p);
      } else {
        UnshippedStamp(content, s, texts, fileNames, overlays, disk, p);
        assert KeptAt(s, texts, fileNames, disk, p);
      }
    }
  }

  // ----- a round trip that cannot be sent

  /**
   Every held file without overlay holds its disk text already if its overlay goes away, or if it is listed
   before the file that cannot be read and would be shipped.
   */
  ghost predicate NothingLost(s: Session, texts: Texts, fileNames: seq<Path>, overlays: Texts, disk: Disk) {
    forall p :: p in texts && p !in overlays ==> NotLostAt(s, texts, fileNames, overlays, disk, p)
  }

  ghost predicate NotLostAt(s: Session, texts: Texts, fileNames: seq<Path>, overlays: Texts, disk: Disk, p: Path)
    requires p in texts
  {
    && (p in s.overlaid ==> Readable(disk, p) && texts[p] == disk[p].text)
    && (p in fileNames[..BlockedAt(s, fileNames, overlays, disk)] && Stale(s, overlays, disk, p) ==>
          texts[p] == disk[p].text)
  }

  lemma FailedReadAt(
    content: Content, s: Session, texts: Texts, fileNames: seq<Path>, overlays: Texts, disk: Disk, p: Path)
    requires InStepAt(content, s, texts, p) && StampsTell(content, disk) && p in texts && p !in overlays
    requires Blocked(s, fileNames, overlays, disk)
    ensures
      InStepAt(content, AfterCollect(s, fileNames, overlays, disk), texts, p) <==>
      NotLostAt(s, texts, fileNames, overlays, disk, p)
  {
    var k := BlockedAt(s, fileNames, overlays, disk);
    CollectAt(s, fileNames, overlays, disk, p);
    BlockedAtIsFirst(s, fileNames, overlays, disk);
    if p in fileNames[..k] { assert !Blocks(s, overlays, disk, p); }
    assert |s.stamps| != 0 by { assert Blocks(s, overlays, disk, fileNames[k]); }
    if p in disk { assert disk[p].text == content(p, disk[p].stamp); }
  }

  /**
   When a listed file must be shipped and cannot be read, the round trip is given up but the stamps it had recorded
   stay.  The session is still in step exactly when the worker already held what came before the failure.
   */
  lemma FailedReadKeepsStepExactly(
    content: Content, s: Session, texts: Texts, fileNames: seq<Path>, overlays: Texts, disk: Disk)
    requires Synced(content, s, texts) && StampsTell(content, disk) && Blocked(s, fileNames, overlays, disk)
    ensures
      Synced(content, AfterCollect(s, fileNames, overlays, disk), texts) <==>
      NothingLost(s, texts, fileNames, overlays, disk)
  {
    var next := AfterCollect(s, fileNames, overlays, disk);
    forall p | p in texts && p !in overlays
      ensures InStepAt(content, next, texts, p) <==> NotLostAt(s, texts, fileNames, overlays, disk, p)
    {
      assert InStepAt(content, s, texts, p);
      FailedReadAt(content, s, texts, fileNames, overlays, disk, p);
    }
    SyncedEverywhere(content, next, texts);
  }

  // ----- whole sessions

  /** One round trip, on whatever the disk and the overlays are by then. */
  datatype Trip = Trip(fileNames: seq<Path>, overlays: Texts, disk: Disk)

  /** The session and what its worker holds. */
  datatype Both = Both(session: Session, texts: Texts)

  predicate Sent(s: Session, t: Trip) {
    !Blocked(s, t.fileNames, t.overlays, t.disk)
  }

  /** A round trip that cannot be sent does not reach the worker. */
  function AfterTrip(b: Both, t: Trip): Both {
    Both(
      AfterCollect(b.session, t.fileNames, t.overlays, t.disk),
      if Sent(b.session, t) then Held(b.session, b.texts, t.fileNames, t.overlays, t.disk) else b.texts)
  }

  /** The states of a session through its round trips. */
  ghost predicate IsSession(trips: seq<Trip>, states: seq<Both>) {
    && |states| == |trips| + 1 && states[0] == Both(Session(map[], {}), map[])
    && forall k :: 0 <= k < |trips| ==> states[k + 1] == AfterTrip(states[k], trips[k])
  }

  /** A round trip forgets no overlay if it is sent, and loses nothing if it is not. */
  ghost predicate Harmless(b: Both, t: Trip) {
    if Sent(b.session, t) then NoneForgotten(b.session, b.texts, t.fileNames, t.overlays, t.disk)
    else NothingLost(b.session, b.texts, t.fileNames, t.overlays, t.disk)
  }

  ghost predicate InStep(content: Content, b: Both) {
    Synced(content, b.session, b.texts)
  }

  /** In step, a round trip leaves the session in step exactly when it is harmless. */
  lemma StepKeptExactly(content: Content, b: Both, t: Trip)
    requires StampsTell(content, t.disk) && InStep(content, b)
    ensures InStep(content, AfterTrip(b, t)) <==> Harmless(b, t)
  {
    if Sent(b.session, t) {
      AnswerKeepsStepExactly(content, b.session, b.texts, t.fileNames, t.overlays, t.disk);
    } else {
      FailedReadKeepsStepExactly(content, b.session, b.texts, t.fileNames, t.overlays, t.disk);
    }
  }

  ghost predicate AllTell(content: Content, trips: seq<Trip>) {
    forall k :: 0 <= k < |trips| ==> StampsTell(content, trips[k].disk)
  }

  ghost predicate AlwaysInStep(content: Content, states: seq<Both>) {
    forall k :: 0 <= k < |states| ==> InStep(content, states[k])
  }

  ghost predicate AllHarmless(trips: seq<Trip>, states: seq<Both>)
    requires |states| == |trips| + 1
  {
    forall k :: 0 <= k < |trips| ==> Harmless(states[k], trips[k])
  }

  lemma {:induction false} HarmlessKeepsStep(content: Content, trips: seq<Trip>, states: seq<Both>, n: nat)
    requires IsSession(trips, states) && AllTell(content, trips) && AllHarmless(trips, states) && n < |states|
    ensures InStep(content, states[n])
  {
    if n > 0 {
      HarmlessKeepsStep(content, trips, states, n - 1);
      assert states[n - 1 + 1] == AfterTrip(states[n - 1], trips[n - 1]);
      assert Harmless(states[n - 1], trips[n - 1]);
      StepKeptExactly(content, states[n - 1], trips[n - 1]);
    }
  }

  /** A session stays in step through all its round trips exactly when each of them is harmless. */
  lemma AlwaysInStepExactly(content: Content, trips: seq<Trip>, states: seq<Both>)
    requires IsSession(trips, states) && AllTell(content, trips)
    ensures AlwaysInStep(content, states) <==> AllHarmless(trips, states)
  {
    if AllHarmless(trips, states) {
      forall k | 0 <= k < |states| ensures InStep(content, states[k]) { HarmlessKeepsStep(content, trips, states, k); }
    } else {
      var k :| 0 <= k < |trips| && !Harmless(states[k], trips[k]);
      assert states[k + 1] == AfterTrip(states[k], trips[k]);
      if InStep(content, states[k]) { StepKeptExactly(content, states[k], trips[k]); }
    }
  }

  ghost predicate CoherentAfter(b: Both, t: Trip) {
    Coherent(b.texts, t.overlays, t.disk, t.fileNames)
  }

  /**
   In a session of harmless round trips, through any sequence of disk edits, of overlays added, changed or dropped
   and of requests given up, the worker sees the project as the caller does after every round trip that is sent,
   exactly when each of its listed files is there to be had.
   */
  lemma EveryTripCoherent(content: Content, trips: seq<Trip>, states: seq<Both>, k: nat)
    requires IsSession(trips, states) && AllTell(content, trips) && AllHarmless(trips, states)
    requires k < |trips| && Sent(states[k].session, trips[k])
    ensures
      CoherentAfter(states[k + 1], trips[k]) <==>
      AllPresent(states[k].texts, trips[k].fileNames, trips[k].overlays, trips[k].disk)
  {
    HarmlessKeepsStep(content, trips, states, k);
    var b, t := states[k], trips[k];
    assert states[k + 1] == AfterTrip(b, t) && Harmless(b, t);
    RoundTripCoherent(content, b.session, b.texts, t.fileNames, t.overlays, t.disk);
  }

  /** A change lost that way is not shipped again until the file is edited once more. */
  lemma LostChangeStaysLost(s: Session, texts: Texts, fileNames: seq<Path>, overlays: Texts, disk: Disk, p: Path)
    requires p in texts && p !in s.overlaid && p !in overlays && p in fileNames && p in disk
    requires p in s.stamps && s.stamps[p] == disk[p].stamp && texts[p] != disk[p].text
    ensures !Coherent(Held(s, texts, fileNames, overlays, disk), overlays, disk, fileNames)
  {
    CollectAt(s, fileNames, overlays, disk, p);
    AnswerAt(texts, Collect(s, fileNames, overlays, disk).shipped, fileNames, disk, p);
  }

  lemma LostBetween(s: Session, texts: Texts, a: Path, b: Path, edited: File, bad: Disk, good: Disk)
    requires bad == map[a := edited, b := edited.(readable := false)] && good == map[a := edited, b := edited]
    requires a != b && s.overlaid == {} && a in s.stamps && b in s.stamps && a in texts
    requires edited.readable && s.stamps[a] != edited.stamp && s.stamps[b] != edited.stamp && texts[a] != edited.text
    ensures
      var next := AfterCollect(s, [a, b], map[], bad);
      && BlockedAt(s, [a, b], map[], bad) == 1 && !Blocked(next, [a, b], map[], good)
      && !Coherent(Held(next, texts, [a, b], map[], good), map[], good, [a, b])
  {
    var next := AfterCollect(s, [a, b], map[], bad);
    BlocksAtSecond(s, a, b, bad);
    assert a in [a, b] by { assert [a, b][0] == a; }
    LostChangeStaysLost(next, texts, [a, b], map[], good, a);
    ReadableSent(next, [a, b], map[], good);
  }

  /**
   Two files the session knows are both edited and the second cannot be read: the round trip fails, and once
   the second can be read again the next one succeeds without the first one's edit reaching the worker, although
   session and worker were in step and every stamp tells its text.
   */
  lemma LostChangeExample(content: Content, a: Path, b: Path, was: Stamp, edited: File)
    returns (s: Session, texts: Texts, bad: Disk, good: Disk)
    requires a != b && edited.readable && was != edited.stamp
    requires edited.text == content(a, edited.stamp) == content(b, edited.stamp) && edited.text != content(a, was)
    ensures Synced(content, s, texts) && StampsTell(content, bad) && StampsTell(content, good)
    ensures BlockedAt(s, [a, b], map[], bad) == 1
    ensures
      var next := AfterCollect(s, [a, b], map[], bad);
      && !Blocked(next, [a, b], map[], good)
      && !Coherent(Held(next, texts, [a, b], map[], good), map[], good, [a, b])
  {
    s, texts := Session(map[a := was, b := was], {}), map[a := content(a, was), b := content(b, was)];
    bad, good := map[a := edited, b := edited.(readable := false)], map[a := edited, b := edited];
    InStepAtBoth(content, s, texts, a, b);
    TellsBoth(content, bad, a, b);
    TellsBoth(content, good, a, b);
    LostBetween(s, texts, a, b, edited, bad, good);
  }

  lemma InStepAtBoth(content: Content, s: Session, texts: Texts, a: Path, b: Path)
    requires texts.Keys == {a, b} && a in s.stamps && b in s.stamps
    requires texts[a] == content(a, s.stamps[a]) && texts[b] == content(b, s.stamps[b])
    ensures Synced(content, s, texts)
  {
  }

  lemma TellsBoth(content: Content, disk: Disk, a: Path, b: Path)
    requires disk.Keys == {a, b}
    requires disk[a].text == content(a, disk[a].stamp) && disk[b].text == content(b, disk[b].stamp)
    ensures StampsTell(content, disk)
  {
  }

  lemma ReadableSent(s: Session, fileNames: seq<Path>, overlays: Texts, disk: Disk)
    requires forall p :: p in fileNames ==> Readable(disk, p)
    ensures !Blocked(s, fileNames, overlays, disk)
  {
    FailsExactly(s, fileNames, overlays, disk);
  }

  lemma BlocksAtSecond(s: Session, a: Path, b: Path, disk: Disk)
    requires a != b && s.overlaid == {} && a in s.stamps && b in s.stamps
    requires Readable(disk, a) && b in disk && !disk[b].readable
    requires s.stamps[a] != disk[a].stamp && s.stamps[b] != disk[b].stamp
    ensures BlockedAt(s, [a, b], map[], disk) == 1
    ensures
      var next := AfterCollect(s, [a, b], map[], disk);
      a in next.stamps && next.stamps[a] == disk[a].stamp && a !in next.overlaid
  {
    assert [a, b][1..] == [b] && BlockedAt(s, [b], map[], disk) == 0 by {
      assert Blocks(s, map[], disk, b);
    }
    assert !Blocks(s, map[], disk, a);
    assert [a, b][..1] == [a];
    CollectAt(s, [a, b], map[], disk, a);
  }

  /** The documented limit of the protocol: an overlaid file that was deleted keeps its overlay in the worker. */
  lemma DeletedOverlayStays(s: Session, texts: Texts, fileNames: seq<Path>, overlays: Texts, disk: Disk, p: Path)
    requires p in s.overlaid && p !in overlays && p !in disk && p in texts
    ensures
      var after := Held(s, texts, fileNames, overlays, disk);
      p in after && after[p] == texts[p] && p !in AfterCollect(s, fileNames, overlays, disk).stamps
  {
    CollectAt(s, fileNames, overlays, disk, p);
    AnswerAt(texts, Collect(s, fileNames, overlays, disk).shipped, fileNames, disk, p);
  }
}
