/**
 Taking a diagnostic from the reprinted text back to the original file: internal/compile/source_trace.go,
 diagnosticTraces.remap, with lineColIn of internal/compile/compile.go.
 */
module DiagnosticRemap {
  import opened Wrappers
  import opened Utf8
  import opened TextPositions
  import opened SourceMaps
  import opened SourceTrace

  /** The fields of a diagnostic that move; `line` and `col` start at 1. */
  datatype Info = Info(offset: int, len: int, line: int, col: int)

  /** The trace of a file, with the file's original text. */
  datatype Trace = Trace(text: seq<Byte>, mappings: seq<TraceMapping>)

  function LineCol(before: seq<Byte>): (int, int) {
    (1 + Newlines(before), 1 + |before| - LineStart(before))
  }

  function Moved(info: Info, text: seq<Byte>, offset: nat): Info
    requires offset <= |text|
  {
    var (line, col) := LineCol(text[..offset]);
    Info(offset, if info.len > |text| - offset then |text| - offset else info.len, line, col)
  }

  /** Where the diagnostic goes, if anywhere. */
  function Target(offset: int, generated: seq<Byte>, trace: Trace): Option<nat> {
    var at := Utf16Position(generated, offset);
    if at.None? then None
    else
      var original := OriginalPosition(trace.mappings, Position(at.value.0, at.value.1));
      if original.None? then None else ByteOffsetOf(trace.text, original.value.line, original.value.column)
  }

  lemma TargetInText(offset: int, generated: seq<Byte>, trace: Trace)
    ensures var o := Target(offset, generated, trace); o.Some? ==> o.value <= |trace.text|
  {
  }

  // ----- as it runs

  method LineColIn(source: seq<Byte>, offset: int) returns (line: int, col: int)
    ensures (line, col) == if 0 <= offset <= |source| then LineCol(source[..offset]) else (0, 0)
  {
    if offset < 0 || offset > |source| { return 0, 0; }
    line, col := 1, 1;
    var i := 0;
    while i < offset
      invariant 0 <= i <= offset && (line, col) == LineCol(source[..i])
    {
      assert source[..i + 1][..i] == source[..i];
      if source[i] == NEWLINE {
        line, col := line + 1, 1;
      } else {
        col := col + 1;
      }
      i := i + 1;
    }
  }

  /** A diagnostic without a trace, or with no place to go, stays as it is. */
  method Remap(info: Info, generated: seq<Byte>, trace: Option<Trace>) returns (r: Info)
    ensures
      var o := if trace.None? then None else Target(info.offset, generated, trace.value);
      o.None? ==> r == info
    ensures
      trace.Some? && Target(info.offset, generated, trace.value).Some? ==>
        && Target(info.offset, generated, trace.value).value <= |trace.value.text|
        && r == Moved(info, trace.value.text, Target(info.offset, generated, trace.value).value)
  {
    if trace.None? { return info; }
    var text := trace.value.text;
    TargetInText(info.offset, generated, trace.value);
    var at := ToUtf16Position(generated, info.offset);
    if at.None? { return info; }
    var original := OriginalPosition(trace.value.mappings, Position(at.value.0, at.value.1));
    if original.None? { return info; }
    var offset := ToByteOffset(text, original.value.line, original.value.column);
    if offset.None? { return info; }
    var line, col := LineColIn(text, offset.value);
    r := Info(offset.value, info.len, line, col);
    if r.len > |text| - offset.value { r := r.(len := |text| - offset.value); }
  }

  // ----- what it means on valid texts

  /** Boundary `b` of the original text as a diagnostic shows it; the column counts bytes. */
  ghost predicate ShownAt(r: Info, info: Info, rs: seq<Rune>, codes: seq<seq<Byte>>, b: nat)
    requires b <= |rs| == |codes|
  {
    && r.offset == Offset(codes, b) && r.line == 1 + Line(rs, b)
    && r.col == 1 + Offset(codes, b) - Offset(codes, Start(rs, b))
    && r.len <= info.len && r.len <= |Flat(codes)| - r.offset
    && (r.len == info.len || r.len == |Flat(codes)| - r.offset)
  }

  lemma MovedIsShown(info: Info, rs: seq<Rune>, codes: seq<seq<Byte>>, b: nat)
    requires Codes(rs, codes) && b <= |rs|
    ensures Offset(codes, b) <= |Flat(codes)| && ShownAt(Moved(info, Flat(codes), Offset(codes, b)), info, rs, codes, b)
  {
    SplitFlat(codes, b);
    LineOfOffset(rs, codes, b);
    StartIs(rs, Start(rs, b), b);
    StartEncoded(rs, codes, Start(rs, b), b);
  }

  /** The position names no boundary: the line is missing or too short. */
  ghost predicate NotThere(rs: seq<Rune>, p: Position) {
    forall b :: !Located(rs, p.line, p.column, b)
  }

  lemma PlaceExactly(rs: seq<Rune>, codes: seq<seq<Byte>>, p: Position)
    requires Codes(rs, codes)
    ensures
      var o := ByteOffsetOf(Flat(codes), p.line, p.column);
      if o.None? then NotThere(rs, p)
      else exists b :: Located(rs, p.line, p.column, b) && o.value == Offset(codes, b)
  {
    var o := ByteOffsetOf(Flat(codes), p.line, p.column);
    if o.Some? {
      OffsetExactly(rs, codes, p.line, p.column, o.value);
    } else {
      forall b ensures !Located(rs, p.line, p.column, b) {
        if Located(rs, p.line, p.column, b) { LocatedIsFound(rs, codes, p.line, p.column, b); }
      }
    }
  }

  /** The diagnostic `r` is `info` moved to the boundary that `p` names, or `info` if `p` names none. */
  ghost predicate LandsAt(r: Info, info: Info, rs: seq<Rune>, codes: seq<seq<Byte>>, p: Position)
    requires |rs| == |codes|
  {
    if NotThere(rs, p) then r == info
    else exists b :: Located(rs, p.line, p.column, b) && ShownAt(r, info, rs, codes, b)
  }

  /**
   A diagnostic at a rune boundary of the reprinted text lands on the boundary of the original text that its greatest
   trace mapping names, with that boundary's line and column and a span that fits the text; it is left alone when no
   mapping comes at or before it or the mapping names no boundary.
   */
  lemma RemapLands(
    info: Info, rs: seq<Rune>, codes: seq<seq<Byte>>, k: nat, trs: seq<Rune>, tcodes: seq<seq<Byte>>,
    mappings: seq<TraceMapping>)
    requires Codes(rs, codes) && k <= |rs| && info.offset == Offset(codes, k)
    requires Codes(trs, tcodes) && SortedTrace(mappings)
    ensures
      var at, text := Position(Line(rs, k), Column(rs, k)), Flat(tcodes);
      var o := Target(info.offset, Flat(codes), Trace(text, mappings));
      && (o.Some? ==> o.value <= |text|)
      && var r := if o.None? then info else Moved(info, text, o.value);
         if forall i :: 0 <= i < |mappings| ==> !AtOrBefore(mappings[i].at, at) then r == info
         else exists i :: IsGreatest(mappings, at, i) && LandsAt(r, info, trs, tcodes, mappings[i].source)
  {
    var at, text := Position(Line(rs, k), Column(rs, k)), Flat(tcodes);
    PositionAtBoundary(rs, codes, k);
    TargetInText(info.offset, Flat(codes), Trace(text, mappings));
    OriginalIsGreatest(mappings, at);
    var original := OriginalPosition(mappings, at);
    if original.Some? {
      var i :| IsGreatest(mappings, at, i) && mappings[i].source == original.value;
      Landed(info, trs, tcodes, original.value);
    }
  }

  lemma Landed(info: Info, rs: seq<Rune>, codes: seq<seq<Byte>>, p: Position)
    requires Codes(rs, codes)
    ensures
      var o := ByteOffsetOf(Flat(codes), p.line, p.column);
      && (o.Some? ==> o.value <= |Flat(codes)|)
      && LandsAt(if o.None? then info else Moved(info, Flat(codes), o.value), info, rs, codes, p)
  {
    PlaceExactly(rs, codes, p);
    var o := ByteOffsetOf(Flat(codes), p.line, p.column);
    if o.Some? {
      var b :| Located(rs, p.line, p.column, b) && o.value == Offset(codes, b);
      MovedIsShown(info, rs, codes, b);
    }
  }
}
