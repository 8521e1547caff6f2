/**
 The sidecar session object and the retry loop of internal/compile/sidecar.go.  The worker process belongs to
 its session, so what it holds is a field of the session.
 */
module SidecarObject {
  import opened Sidecar

  /** How a request that was sent ends. */
  datatype Attempt = Answered | Broken | TimedOut

  /** How a call for the transformer ends: with an answer, or without a worker, with a listed file that cannot be
      read, or with a request that got no answer. */
  datatype Outcome = Done | NoWorker | CannotSend | NoAnswer

  /** The texts a list of changes leaves, later entries winning. */
  function ShippedBy(changes: seq<Change>): Texts {
    if changes == [] then map[]
    else ShippedBy(changes[..|changes| - 1])[changes[|changes| - 1].fileName := changes[|changes| - 1].text]
  }

  lemma ShippedAppend(changes: seq<Change>, c: Change)
    ensures ShippedBy(changes + [c]) == ShippedBy(changes)[c.fileName := c.text]
  {
    assert (changes + [c])[..|changes|] == changes;
  }

  lemma NothingRestamped(stamps: map<Path, Stamp>, disk: Disk)
    ensures Restamped(stamps, {}, disk) == stamps && DiskTexts({}, disk) == map[]
  {
    assert ReadableOf({}, disk) == {};
  }

  lemma SameMap<V>(a: map<Path, V>, b: map<Path, V>)
    requires forall q :: q in a <==> q in b
    requires forall q :: q in a && q in b ==> a[q] == b[q]
    ensures a == b
  {
  }

  lemma RestampedAt(stamps: map<Path, Stamp>, dropped: set<Path>, disk: Disk, q: Path)
    ensures q in Restamped(stamps, dropped, disk) <==> if q in dropped then Readable(disk, q) else q in stamps
    ensures q in Restamped(stamps, dropped, disk) ==>
              Restamped(stamps, dropped, disk)[q] == if q in dropped then disk[q].stamp else stamps[q]
  {
  }

  lemma RestampOne(stamps: map<Path, Stamp>, dropped: set<Path>, disk: Disk, p: Path)
    requires p !in dropped
    ensures Restamped(stamps, dropped + {p}, disk) ==
            if Readable(disk, p) then Restamped(stamps, dropped, disk)[p := disk[p].stamp]
            else Restamped(stamps, dropped, disk) - {p}
  {
    var now, before := Restamped(stamps, dropped + {p}, disk), Restamped(stamps, dropped, disk);
    var next := if Readable(disk, p) then before[p := disk[p].stamp] else before - {p};
    forall q ensures (q in now <==> q in next) && (q in now && q in next ==> now[q] == next[q]) {
      RestampedAt(stamps, dropped + {p}, disk, q);
      RestampedAt(stamps, dropped, disk, q);
    }
    SameMap(now, next);
  }

  lemma DiskTextsAt(dropped: set<Path>, disk: Disk, q: Path)
    ensures q in DiskTexts(dropped, disk) <==> q in dropped && Readable(disk, q)
    ensures q in DiskTexts(dropped, disk) ==> DiskTexts(dropped, disk)[q] == disk[q].text
  {
  }

  lemma DiskTextsOne(dropped: set<Path>, disk: Disk, p: Path)
    requires p !in dropped
    ensures DiskTexts(dropped + {p}, disk) ==
            if Readable(disk, p) then DiskTexts(dropped, disk)[p := disk[p].text] else DiskTexts(dropped, disk)
  {
    var now, before := DiskTexts(dropped + {p}, disk), DiskTexts(dropped, disk);
    var next := if Readable(disk, p) then before[p := disk[p].text] else before;
    forall q ensures (q in now <==> q in next) && (q in now && q in next ==> now[q] == next[q]) {
      DiskTextsAt(dropped + {p}, disk, q);
      DiskTextsAt(dropped, disk, q);
    }
    SameMap(now, next);
  }

  lemma TripCollects(b: Both, t: Trip)
    ensures
      var scan := Collect(b.session, t.fileNames, t.overlays, t.disk);
      && Sent(b.session, t) == !scan.failed
      && AfterTrip(b, t) == Both(
           AfterCollect(b.session, t.fileNames, t.overlays, t.disk),
           if scan.failed then b.texts else Answer(b.texts, scan.shipped, t.fileNames, t.disk))
  {
    FailsExactly(b.session, t.fileNames, t.overlays, t.disk);
  }

  class SidecarSession {
    var stamps: map<Path, Stamp>
    var overlaid: set<Path>
    var dead: bool
    var texts: Texts        // what the worker process holds

    constructor ()
      ensures State() == Session(map[], {}) && texts == map[] && !dead
    {
      stamps, overlaid, dead, texts := map[], {}, false, map[];
    }

    function State(): Session
      reads this
    {
      Session(stamps, overlaid)
    }

    /** internal/compile/sidecar.go: revertDroppedOverlays. */
    method RevertDroppedOverlays(overlays: Texts, disk: Disk) returns (changed: seq<Change>)
      modifies this`stamps, this`overlaid
      ensures stamps == Restamped(old(stamps), Dropped(old(State()), overlays), disk)
      ensures overlaid <= overlays.Keys
      ensures ShippedBy(changed) == DiskTexts(Dropped(old(State()), overlays), disk)
    {
      ghost var before, dropped := State(), {};
      changed := [];
      var todo := overlaid;
      NothingRestamped(stamps, disk);
      while todo != {}
        invariant todo <= before.overlaid && dropped == Dropped(before, overlays) - todo
        invariant overlaid == before.overlaid - dropped
        invariant stamps == Restamped(before.stamps, dropped, disk)
        invariant ShippedBy(changed) == DiskTexts(dropped, disk)
        decreases todo
      {
        var path :| path in todo;
        todo := todo - {path};
        if path in overlays { continue; }
        RestampOne(before.stamps, dropped, disk, path);
        DiskTextsOne(dropped, disk, path);
        dropped := dropped + {path};
        overlaid := overlaid - {path};
        if path !in disk || !disk[path].readable {
          stamps := stamps - {path};
          continue;
        }
        ShippedAppend(changed, Change(path, disk[path].text));
        changed := changed + [Change(path, disk[path].text)];
        stamps := stamps[path := disk[path].stamp];
      }
      assert dropped == Dropped(before, overlays);
    }

    /** The overlays of this round trip, in any order, after the reverted files. */
    method ShipOverlays(overlays: Texts, given: seq<Change>) returns (changed: seq<Change>)
      requires overlaid <= overlays.Keys
      modifies this`overlaid
      ensures overlaid == overlays.Keys
      ensures ShippedBy(changed) == ShippedBy(given) + overlays
    {
      changed := given;
      var todo := overlays.Keys;
      while todo != {}
        invariant todo <= overlays.Keys && overlays.Keys - todo <= overlaid <= overlays.Keys
        invariant ShippedBy(changed) == ShippedBy(given) + (overlays - todo)
        decreases todo
      {
        var path :| path in todo;
        ShippedAppend(changed, Change(path, overlays[path]));
        assert overlays - (todo - {path}) == (overlays - todo)[path := overlays[path]];
        changed := changed + [Change(path, overlays[path])];
        overlaid := overlaid + {path};
        todo := todo - {path};
      }
      assert overlays - {} == overlays;
    }

    /** internal/compile/sidecar.go: changedFilesFor. */
    method ChangedFilesFor(fileNames: seq<Path>, overlays: Texts, disk: Disk) returns (ok: bool, changed: seq<Change>)
      modifies this`stamps, this`overlaid
      ensures State() == AfterCollect(old(State()), fileNames, overlays, disk)
      ensures ok <==> !Collect(old(State()), fileNames, overlays, disk).failed
      ensures ok ==> ShippedBy(changed) == Collect(old(State()), fileNames, overlays, disk).shipped
    {
      ghost var start := Start(State(), overlays, disk);
      var first := |stamps| == 0;
      changed := RevertDroppedOverlays(overlays, disk);
      changed := ShipOverlays(overlays, changed);
      ok, changed := ScanListed(start, first, fileNames, overlays, disk, changed);
    }

    /** The stat-diff loop of changedFilesFor. */
    method ScanListed(
      ghost start: Scan, first: bool, fileNames: seq<Path>, overlays: Texts, disk: Disk, given: seq<Change>)
      returns (ok: bool, changed: seq<Change>)
      requires Scan(stamps, ShippedBy(given), false) == start
      modifies this`stamps
      ensures
        var scan := ScanFiles(start, first, overlays, disk, fileNames, |fileNames|);
        stamps == scan.stamps && (ok <==> !scan.failed) && (ok ==> ShippedBy(changed) == scan.shipped)
    {
      changed := given;
      var i := 0;
      while i < |fileNames|
        invariant 0 <= i <= |fileNames|
        invariant Scan(stamps, ShippedBy(changed), false) == ScanFiles(start, first, overlays, disk, fileNames, i)
      {
        var path := fileNames[i];
        if path !in overlays && path in disk {
          var file := disk[path];
          if !first && (path !in stamps || stamps[path] != file.stamp) {
            if !file.readable {
              ScanFailedStays(start, first, overlays, disk, fileNames, i + 1, |fileNames|);
              return false, [];
            }
            ShippedAppend(changed, Change(path, file.text));
            changed := changed + [Change(path, file.text)];
          }
          stamps := stamps[path := file.stamp];
        }
        i := i + 1;
      }
      ok := true;
    }

    /** The session and what its worker holds. */
    function Now(): Both
      reads this
    {
      Both(State(), texts)
    }

    /** One request: a file that cannot be read leaves the session in use, a request without an answer kills it. */
    method RoundTrip(fileNames: seq<Path>, overlays: Texts, disk: Disk, attempt: Attempt) returns (r: Outcome)
      modifies this
      ensures
        r ==
        if !Sent(old(State()), Trip(fileNames, overlays, disk)) then CannotSend
        else if attempt == Answered then Done
        else NoAnswer
      ensures dead == (old(dead) || r == NoAnswer)
      ensures r != NoAnswer ==> Now() == AfterTrip(old(Now()), Trip(fileNames, overlays, disk))
    {
      TripCollects(Now(), Trip(fileNames, overlays, disk));
      var collected, changes := ChangedFilesFor(fileNames, overlays, disk);
      if !collected { return CannotSend; }
      if attempt != Answered {
        dead := true;
        return NoAnswer;
      }
      Handle(changes, fileNames, disk);
      r := Done;
    }

    /** The worker applies a request and loads the listed files it does not hold. */
    method Handle(changes: seq<Change>, fileNames: seq<Path>, disk: Disk)
      modifies this`texts
      ensures texts == Answer(old(texts), ShippedBy(changes), fileNames, disk)
    {
      var loaded := set p | p in fileNames && Readable(disk, p);
      texts := (map p | p in loaded :: TextAt(disk, loaded, p)) + texts + ShippedBy(changes);
    }
  }

  const NEW := Both(Session(map[], {}), map[])

  /** A new session can always send, and forgets nothing. */
  lemma NewIsHarmless(content: Content, t: Trip)
    ensures InStep(content, NEW) && Sent(NEW.session, t) && Harmless(NEW, t)
  {
    FailsExactly(NEW.session, t.fileNames, t.overlays, t.disk);
  }

  /** What a round trip leaves: a session in step exactly when it is harmless, and then coherent texts exactly when
      the files are there. */
  lemma TripLeaves(content: Content, b: Both, t: Trip)
    requires StampsTell(content, t.disk) && InStep(content, b)
    ensures InStep(content, AfterTrip(b, t)) <==> Harmless(b, t)
    ensures
      Sent(b.session, t) && Harmless(b, t) ==>
        (CoherentAfter(AfterTrip(b, t), t) <==> AllPresent(b.texts, t.fileNames, t.overlays, t.disk))
  {
    StepKeptExactly(content, b, t);
    if Sent(b.session, t) && Harmless(b, t) {
      RoundTripCoherent(content, b.session, b.texts, t.fileNames, t.overlays, t.disk);
    }
  }

  class SidecarTable {
    var session: SidecarSession?     // the entry of the session table for this project

    constructor ()
      ensures session == null
    {
      session := null;
    }

    predicate Live()
      reads this, session
    {
      session != null && !session.dead
    }

    /** The session the next request goes to, a new one if there is none in use. */
    function Current(): Both
      reads this, session
    {
      if Live() then session.Now() else NEW
    }

    /** One pass of the loop of runTransformerSidecar. */
    method TryOnce(t: Trip, spawns: bool, attempt: Attempt) returns (r: Outcome)
      modifies this, session
      ensures r ==
        if !old(Live()) && !spawns then NoWorker
        else if Sent(old(Current()).session, t) then (if attempt == Answered then Done else NoAnswer)
        else CannotSend
      ensures Live() <==> r == Done || r == CannotSend
      ensures Live() ==> Current() == AfterTrip(old(Current()), t)
      ensures session != old(session) ==> session == null || fresh(session)
    {
      if session == null || session.dead {
        if !spawns { return NoWorker; }
        session := new SidecarSession();
      }
      r := session.RoundTrip(t.fileNames, t.overlays, t.disk, attempt);
      if r == NoAnswer { session := null; }
    }

    /**
     internal/compile/sidecar.go: runTransformerSidecar.  A broken worker is replaced once; a worker that timed out
     is not retried, nor is a request that cannot be sent.  A session in step stays in step exactly when the request
     is harmless to it or it was replaced, and then an answer is on the caller's texts exactly when the listed files
     are there to be had.
     */
    method RunTransformerSidecar(ghost content: Content, t: Trip, spawns: seq<bool>, attempts: seq<Attempt>)
      returns (r: Outcome)
      requires |spawns| == 2 && |attempts| == 2 && StampsTell(content, t.disk)
      requires InStep(content, Current())
      modifies this, session
      ensures r ==
        if !old(Live()) && !spawns[0] then NoWorker
        else if !Sent(old(Current()).session, t) then CannotSend
        else if attempts[0] != Broken then (if attempts[0] == Answered then Done else NoAnswer)
        else if !spawns[1] then NoWorker
        else (if attempts[1] == Answered then Done else NoAnswer)
      ensures InStep(content, Current()) <==>
        r == NoWorker || r == NoAnswer || (r == Done && attempts[0] == Broken) || old(Harmless(Current(), t))
      ensures Live() <==> r == Done || r == CannotSend
      ensures r == Done && InStep(content, Current()) ==>
        var from := if attempts[0] == Answered then old(Current()) else NEW;
        CoherentAfter(Current(), t) <==> AllPresent(from.texts, t.fileNames, t.overlays, t.disk)
    {
      NewIsHarmless(content, t);
      TripLeaves(content, Current(), t);
      TripLeaves(content, NEW, t);
      r := TryOnce(t, spawns[0], attempts[0]);
      if r != NoAnswer || attempts[0] == TimedOut { return; }
      r := TryOnce(t, spawns[1], attempts[1]);
    }
  }
}
