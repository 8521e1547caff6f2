/**
 Rewriting a source map through a trace: internal/compile/source_trace.go.
 */
module SourceTrace {
  import opened Wrappers
  import opened SourceMaps
  import V = Vlq

  /** A mapping of the transformer's trace. */
  datatype TraceMapping = TraceMapping(at: Position, source: Position)

  predicate Before(a: Position, b: Position) {
    a.line < b.line || (a.line == b.line && a.column < b.column)
  }

  predicate AtOrBefore(a: Position, b: Position) {
    a == b || Before(a, b)
  }

  ghost predicate SortedTrace(trace: seq<TraceMapping>) {
    forall i, j :: 0 <= i < j < |trace| ==> AtOrBefore(trace[i].at, trace[j].at)
  }

  /** Go's sort.Search for the first mapping after the position. */
  function Search(trace: seq<TraceMapping>, pos: Position, lo: nat, hi: nat): (i: nat)
    requires lo <= hi <= |trace|
    ensures lo <= i <= hi
    decreases hi - lo
  {
    if lo == hi then lo
    else
      var mid := lo + (hi - lo) / 2;
      if Before(pos, trace[mid].at) then Search(trace, pos, lo, mid) else Search(trace, pos, mid + 1, hi)
  }

  function OriginalPosition(trace: seq<TraceMapping>, pos: Position): Option<Position> {
    var i := Search(trace, pos, 0, |trace|);
    if i == 0 then None else Some(trace[i - 1].source)
  }

  /** The reference: the source of a mapping at or before the position that no such mapping comes after. */
  ghost predicate IsOriginal(trace: seq<TraceMapping>, pos: Position, r: Option<Position>) {
    match r
    case None => forall i :: 0 <= i < |trace| ==> !AtOrBefore(trace[i].at, pos)
    case Some(p) => exists i :: IsGreatest(trace, pos, i) && trace[i].source == p
  }

  /** True of every trace: the source of a mapping that is not after the position and is the last or followed by one
      that is. */
  ghost predicate IsTurn(trace: seq<TraceMapping>, pos: Position, r: Option<Position>) {
    match r
    case None => trace == [] || Before(pos, trace[0].at)
    case Some(p) =>
      exists i :: 0 <= i < |trace| && trace[i].source == p && !Before(pos, trace[i].at)
                  && (i + 1 < |trace| ==> Before(pos, trace[i + 1].at))
  }

  ghost predicate IsGreatest(trace: seq<TraceMapping>, pos: Position, i: int) {
    && 0 <= i < |trace| && AtOrBefore(trace[i].at, pos)
    && forall j :: 0 <= j < |trace| && AtOrBefore(trace[j].at, pos) ==> AtOrBefore(trace[j].at, trace[i].at)
  }

  ghost predicate AllUpTo(trace: seq<TraceMapping>, pos: Position, n: nat) {
    n <= |trace| && forall j :: 0 <= j < n ==> AtOrBefore(trace[j].at, pos)
  }

  ghost predicate NoneFrom(trace: seq<TraceMapping>, pos: Position, n: nat) {
    forall j :: n <= j < |trace| ==> Before(pos, trace[j].at)
  }

  lemma SplitsAt(trace: seq<TraceMapping>, pos: Position, mid: nat)
    requires SortedTrace(trace) && mid < |trace|
    ensures if Before(pos, trace[mid].at) then NoneFrom(trace, pos, mid) else AllUpTo(trace, pos, mid + 1)
  {
  }

  lemma {:induction false} SearchSplits(trace: seq<TraceMapping>, pos: Position, lo: nat, hi: nat)
    requires SortedTrace(trace) && lo <= hi <= |trace| && AllUpTo(trace, pos, lo) && NoneFrom(trace, pos, hi)
    ensures AllUpTo(trace, pos, Search(trace, pos, lo, hi)) && NoneFrom(trace, pos, Search(trace, pos, lo, hi))
    decreases hi - lo
  {
    if lo < hi {
      var mid := lo + (hi - lo) / 2;
      SplitsAt(trace, pos, mid);
      if Before(pos, trace[mid].at) {
        SearchSplits(trace, pos, lo, mid);
      } else {
        SearchSplits(trace, pos, mid + 1, hi);
      }
    }
  }

  /** The mapping in front of `i` is not after the position. */
  ghost predicate ReachedAt(trace: seq<TraceMapping>, pos: Position, i: nat) {
    0 < i <= |trace| ==> !Before(pos, trace[i - 1].at)
  }

  /** The mapping at `i` is after the position. */
  ghost predicate PassedAt(trace: seq<TraceMapping>, pos: Position, i: nat) {
    i < |trace| ==> Before(pos, trace[i].at)
  }

  lemma {:induction false} SearchTurns(trace: seq<TraceMapping>, pos: Position, lo: nat, hi: nat)
    requires lo <= hi <= |trace| && ReachedAt(trace, pos, lo) && PassedAt(trace, pos, hi)
    ensures
      var i := Search(trace, pos, lo, hi);
      ReachedAt(trace, pos, i) && PassedAt(trace, pos, i)
    decreases hi - lo
  {
    if lo < hi {
      var mid := lo + (hi - lo) / 2;
      if Before(pos, trace[mid].at) { SearchTurns(trace, pos, lo, mid); } else { SearchTurns(trace, pos, mid + 1, hi); }
    }
  }

  /** The search finds a mapping where the trace turns from before to after the position, and on a sorted trace the
      greatest mapping at or before it. */
  lemma OriginalIsGreatest(trace: seq<TraceMapping>, pos: Position)
    ensures IsTurn(trace, pos, OriginalPosition(trace, pos))
    ensures SortedTrace(trace) ==> IsOriginal(trace, pos, OriginalPosition(trace, pos))
  {
    var i := Search(trace, pos, 0, |trace|);
    SearchTurns(trace, pos, 0, |trace|);
    if i > 0 { assert trace[i - 1].source == OriginalPosition(trace, pos).value; }
    if SortedTrace(trace) {
      SearchSplits(trace, pos, 0, |trace|);
      if i > 0 { assert IsGreatest(trace, pos, i - 1); }
    }
  }

  // ----- the order of decoded mappings

  ghost predicate LinesFrom(line: nat, ds: seq<Decoded>) {
    && (forall i :: 0 <= i < |ds| ==> line <= ds[i].at.line)
    && (forall i, j :: 0 <= i < j < |ds| ==> ds[i].at.line <= ds[j].at.line)
  }

  lemma ReadOneLine(r: Reader, s: string)
    ensures
      var seg := ReadOne(r, s);
      seg.GoodSegment? ==> seg.d.at.line == r.line && seg.next.line == r.line
  {
  }

  /** Decoded mappings come in the order of their lines. */
  lemma {:induction false} ReadInLineOrder(r: Reader, s: string)
    ensures Read(r, s).Some? ==> LinesFrom(r.line, Read(r, s).value)
    decreases |s|
  {
    if s == "" {
    } else if s[0] == ';' {
      ReadInLineOrder(r.(line := r.line + 1, column := 0), s[1..]);
    } else if s[0] == ',' {
      ReadInLineOrder(r, s[1..]);
    } else {
      ReadOneLine(r, s);
      var seg := ReadOne(r, s);
      if seg.GoodSegment? {
        ReadInLineOrder(seg.next, seg.rest);
        var more := Read(seg.next, seg.rest);
        if more.Some? { LinesPrepended(r.line, seg.d, more.value); }
      }
    }
  }

  lemma LinesPrepended(line: nat, d: Decoded, ds: seq<Decoded>)
    requires LinesFrom(line, ds) && d.at.line == line
    ensures LinesFrom(line, [d] + ds)
  {
    var all := [d] + ds;
    assert forall i :: 0 < i < |all| ==> all[i] == ds[i - 1];
  }

  // ----- the trace of a text

  /** The mappings of a trace text that have a source. */
  function TraceOf(ds: seq<Decoded>): seq<TraceMapping> {
    if ds == [] then []
    else
      var d := ds[|ds| - 1];
      TraceOf(ds[..|ds| - 1]) + if d.source.None? then [] else [TraceMapping(d.at, d.source.value.1)]
  }

  /** No column delta within a line is negative. */
  ghost predicate ColumnsForward(ds: seq<Decoded>) {
    forall i :: 0 < i < |ds| ==> ds[i - 1].at.line == ds[i].at.line ==> ds[i - 1].at.column <= ds[i].at.column
  }

  lemma {:induction false} DecodedSorted(ds: seq<Decoded>, i: nat, j: nat)
    requires LinesFrom(0, ds) && ColumnsForward(ds) && i <= j < |ds|
    ensures AtOrBefore(ds[i].at, ds[j].at)
    decreases j
  {
    if i < j {
      DecodedSorted(ds, i, j - 1);
      assert ds[j - 1].at.line <= ds[j].at.line;
      assert ds[j - 1].at.line == ds[j].at.line ==> ds[j - 1].at.column <= ds[j].at.column;
    }
  }

  ghost predicate AllDecodedSorted(ds: seq<Decoded>) {
    forall i, j :: 0 <= i <= j < |ds| ==> AtOrBefore(ds[i].at, ds[j].at)
  }

  lemma {:induction false} TraceIsSorted(ds: seq<Decoded>)
    requires AllDecodedSorted(ds)
    ensures SortedTrace(TraceOf(ds))
    ensures forall k :: 0 <= k < |TraceOf(ds)| ==> AtOrBefore(TraceOf(ds)[k].at, ds[|ds| - 1].at)
  {
    if ds != [] {
      var init, d := ds[..|ds| - 1], ds[|ds| - 1];
      TraceIsSorted(init);
      if init != [] { assert AtOrBefore(ds[|ds| - 2].at, d.at); }
    }
  }

  /** The trace of a text whose columns do not go backwards within a line is sorted. */
  lemma ForwardTraceSorted(raw: string)
    requires Decode(raw).Some? && ColumnsForward(Decode(raw).value)
    ensures SortedTrace(TraceOf(Decode(raw).value))
  {
    var ds := Decode(raw).value;
    ReadInLineOrder(FRESH, raw);
    forall i, j | 0 <= i <= j < |ds| ensures AtOrBefore(ds[i].at, ds[j].at) { DecodedSorted(ds, i, j); }
    TraceIsSorted(ds);
  }

  // ----- the rewrite

  /** A decoded mapping with its source taken through the trace; sources before the trace are dropped. */
  function Composed(d: Decoded, trace: seq<TraceMapping>): Mapping {
    Mapping(d.at, if d.source.None? then None else OriginalPosition(trace, d.source.value.1))
  }

  function ComposedAll(ds: seq<Decoded>, trace: seq<TraceMapping>): seq<Mapping> {
    seq(|ds|, i requires 0 <= i < |ds| => Composed(ds[i], trace))
  }

  /** `out` has the generated position of `d` and the source that the trace gives for the source of `d`. */
  ghost predicate IsComposed(out: Decoded, d: Decoded, trace: seq<TraceMapping>, forward: bool) {
    && out.at == d.at && out.name.None?
    && if d.source.None? then out.source.None?
       else exists p: Option<Position> ::
         && out.source == (if p.None? then None else Some((0, p.value)))
         && IsTurn(trace, d.source.value.1, p)
         && (forward ==> IsOriginal(trace, d.source.value.1, p))
  }

  /**
   The rewritten map reads as the original one composed with the trace text: mapping by mapping the same generated
   position, and, if no column of the trace goes backwards within a line, the source of the greatest trace mapping at
   or before the original source.
   */
  lemma RewriteIsComposition(raw: string, traceRaw: string)
    requires Decode(raw).Some? && Decode(traceRaw).Some?
    ensures
      var ds, ts := Decode(raw).value, Decode(traceRaw).value;
      var out := Decode(Encode(ComposedAll(ds, TraceOf(ts))));
      && out.Some? && |out.value| == |ds|
      && forall i :: 0 <= i < |ds| ==> IsComposed(out.value[i], ds[i], TraceOf(ts), ColumnsForward(ts))
  {
    var ds, ts := Decode(raw).value, Decode(traceRaw).value;
    var trace := TraceOf(ts);
    var ms := ComposedAll(ds, trace);
    ReadInLineOrder(FRESH, raw);
    RoundTripExactly(ms);
    if ColumnsForward(ts) { ForwardTraceSorted(traceRaw); }
    forall i | 0 <= i < |ds| ensures IsComposed(ReportedAll(ms)[i], ds[i], trace, ColumnsForward(ts)) {
      if ds[i].source.Some? {
        var p := OriginalPosition(trace, ds[i].source.value.1);
        OriginalIsGreatest(trace, ds[i].source.value.1);
        assert ReportedAll(ms)[i].source == if p.None? then None else Some((0, p.value));
      }
    }
  }

  /** Reading keeps the order of lines only: a text can list columns backwards, and then the search misses. */
  lemma UnsortedTraceExample()
    ensures
      var a, b := Mapping(Position(0, 2), Some(Position(5, 0))), Mapping(Position(0, 1), Some(Position(7, 0)));
      var trace := [TraceMapping(a.at, a.source.value), TraceMapping(b.at, b.source.value)];
      && Decode(Encode([a, b])) == Some([Reported(a), Reported(b)])
      && !SortedTrace(trace) && !IsOriginal(trace, Position(0, 2), OriginalPosition(trace, Position(0, 2)))
  {
    var a, b := Mapping(Position(0, 2), Some(Position(5, 0))), Mapping(Position(0, 1), Some(Position(7, 0)));
    var pos := Position(0, 2);
    RoundTripExactly([a, b]);
    assert ReportedAll([a, b]) == [Reported(a), Reported(b)];
    var trace := [TraceMapping(a.at, a.source.value), TraceMapping(b.at, b.source.value)];
    assert !AtOrBefore(trace[0].at, trace[1].at);
    assert Search(trace, pos, 2, 2) == 2;
    assert Search(trace, pos, 0, 2) == 2;
    assert !IsGreatest(trace, pos, 1) by { assert AtOrBefore(trace[0].at, pos); }
  }

  // ----- as it runs

  /** One semicolon for every line up to the next mapping's. */
  method AdvanceLine(out0: string, w0: Writer, line: nat) returns (out: string, w: Writer)
    ensures w == OnLine(w0, line) && out == out0 + Semicolons(w.line - w0.line)
  {
    out, w := out0, w0;
    while w.line < line
      invariant w0.line <= w.line && OnLine(w, line) == OnLine(w0, line)
      invariant out + Semicolons(OnLine(w, line).line - w.line) == out0 + Semicolons(OnLine(w0, line).line - w0.line)
    {
      out := out + ";";
      w := w.(line := w.line + 1, column := 0, first := true);
    }
  }

  method WriteSource(out0: string, w: Writer, source: Position) returns (out: string)
    ensures out == out0 + SourceText(w, source)
  {
    out := V.AppendVLQ(out0, 0);
    out := V.AppendVLQ(out, source.line - w.sourceLine);
    out := V.AppendVLQ(out, source.column - w.sourceColumn);
  }

  method WriteSegment(out0: string, w: Writer, m: Mapping) returns (out: string)
    ensures out == out0 + Segment(w, m)
  {
    out := if w.first then out0 else out0 + ",";
    ghost var start := out;
    out := V.AppendVLQ(out, m.at.column - w.column);
    if m.source.Some? { out := WriteSource(out, w, m.source.value); }
    assert out == start + Body(w, m);
  }

  lemma TextStep(out: string, w: Writer, ms: seq<Mapping>, i: nat)
    requires i < |ms|
    ensures
      var on := OnLine(w, ms[i].at.line);
      out + Text(w, ms[i..]) ==
      out + Semicolons(on.line - w.line) + Segment(on, ms[i]) + Text(Wrote(on, ms[i]), ms[i + 1..])
  {
    var on := OnLine(w, ms[i].at.line);
    assert ms[i..][0] == ms[i] && ms[i..][1..] == ms[i + 1..];
    Regrouped(out, Semicolons(on.line - w.line), Segment(on, ms[i]), Text(Wrote(on, ms[i]), ms[i + 1..]));
  }

  lemma Regrouped(a: string, b: string, c: string, d: string)
    ensures a + (b + c + d) == a + b + c + d
  {
  }

  /** Writes the mappings with running deltas. */
  method EncodeEmittedMappings(ms: seq<Mapping>) returns (out: string)
    ensures out == Encode(ms)
  {
    out := "";
    var w, i := START, 0;
    while i < |ms|
      invariant 0 <= i <= |ms| && out + Text(w, ms[i..]) == Encode(ms)
    {
      TextStep(out, w, ms, i);
      out, w := AdvanceLine(out, w, ms[i].at.line);
      out := WriteSegment(out, w, ms[i]);
      w := Wrote(w, ms[i]);
      i := i + 1;
    }
  }

  predicate Fits(m: TraceMapping) {
    && m.at.line <= 0x7FFF_FFFF && m.at.column <= 0x7FFF_FFFF
    && m.source.line <= 0x7FFF_FFFF && m.source.column <= 0x7FFF_FFFF
  }

  /** Every coordinate is below 2^31. */
  ghost predicate In32Bits(m: TraceMapping) {
    && m.at.line < 0x8000_0000 && m.at.column < 0x8000_0000
    && m.source.line < 0x8000_0000 && m.source.column < 0x8000_0000
  }

  lemma FitsExactly(m: TraceMapping)
    ensures Fits(m) <==> In32Bits(m)
  {
  }

  ghost predicate AllFit(trace: seq<TraceMapping>) {
    forall i :: 0 <= i < |trace| ==> In32Bits(trace[i])
  }

  lemma {:induction false} TraceGrows(ds: seq<Decoded>, n: nat)
    requires n <= |ds|
    ensures TraceOf(ds[..n]) <= TraceOf(ds)
    decreases |ds|
  {
    if n < |ds| {
      TraceGrows(ds[..|ds| - 1], n);
      assert ds[..|ds| - 1][..n] == ds[..n];
    } else {
      assert ds[..n] == ds;
    }
  }

  /** The trace of a text; a malformed text and a coordinate beyond 32 bits are errors. */
  method NewSourceTraceMap(raw: string) returns (r: Option<seq<TraceMapping>>)
    ensures r.Some? <==> Decode(raw).Some? && AllFit(TraceOf(Decode(raw).value))
    ensures r.Some? ==> r.value == TraceOf(Decode(raw).value)
    ensures r.Some? && ColumnsForward(Decode(raw).value) ==> SortedTrace(r.value)
  {
    var decoded := Decode(raw);
    if decoded.None? { return None; }
    var ds, trace, i := decoded.value, [], 0;
    while i < |ds|
      invariant 0 <= i <= |ds| && trace == TraceOf(ds[..i]) && AllFit(trace)
    {
      assert ds[..i + 1][..i] == ds[..i];
      if ds[i].source.Some? {
        var m := TraceMapping(ds[i].at, ds[i].source.value.1);
        TraceGrows(ds, i + 1);
        FitsExactly(m);
        if !Fits(m) {
          assert TraceOf(ds[..i + 1])[|trace|] == m;
          return None;
        }
        trace := trace + [m];
      }
      i := i + 1;
    }
    assert ds[..i] == ds;
    if ColumnsForward(ds) { ForwardTraceSorted(raw); }
    r := Some(trace);
  }

  /** The mappings field of the rewritten map; a malformed one is an error. */
  method RewriteMappings(raw: string, trace: seq<TraceMapping>) returns (out: Option<string>)
    ensures out.Some? <==> Decode(raw).Some?
    ensures out.Some? ==> out.value == Encode(ComposedAll(Decode(raw).value, trace))
  {
    var decoded := Decode(raw);
    if decoded.None? { return None; }
    var ds, ms, i := decoded.value, [], 0;
    while i < |ds|
      invariant 0 <= i <= |ds| && ms == ComposedAll(ds[..i], trace)
    {
      ms := ms + [Composed(ds[i], trace)];
      i := i + 1;
    }
    assert ds[..i] == ds;
    var text := EncodeEmittedMappings(ms);
    out := Some(text);
  }
}
