/**
 Mapping lists and their text (ECMA-426, section 9.2): internal/compile/source_trace.go and the decoder of
 tsgo/sourcemap/decoder.go it reads maps with.
 */
module SourceMaps {
  import opened Wrappers
  import V = Vlq

  datatype Position = Position(line: nat, column: nat)

  /** A generated position and where it comes from, if anywhere. */
  datatype Mapping = Mapping(at: Position, source: Option<Position>)

  // ----- writing

  /** The running values of the encoder. */
  datatype Writer = Writer(line: nat, column: nat, sourceLine: nat, sourceColumn: nat, first: bool)

  const START := Writer(0, 0, 0, 0, true)

  function Semicolons(n: nat): string {
    if n == 0 then "" else ";" + Semicolons(n - 1)
  }

  /** The writer on the line of the next mapping; a line that was passed is not gone back to. */
  function OnLine(w: Writer, line: nat): Writer {
    if w.line < line then w.(line := line, column := 0, first := true) else w
  }

  function SourceText(w: Writer, source: Position): string {
    V.Encode(0) + V.Encode(source.line - w.sourceLine) + V.Encode(source.column - w.sourceColumn)
  }

  function Body(w: Writer, m: Mapping): string {
    V.Encode(m.at.column - w.column) + (if m.source.None? then "" else SourceText(w, m.source.value))
  }

  function Segment(w: Writer, m: Mapping): string {
    if w.first then Body(w, m) else "," + Body(w, m)
  }

  function Wrote(w: Writer, m: Mapping): Writer {
    var next := w.(column := m.at.column, first := false);
    if m.source.None? then next
    else next.(sourceLine := m.source.value.line, sourceColumn := m.source.value.column)
  }

  /** The text of the mappings, written from the state `w`. */
  function Text(w: Writer, ms: seq<Mapping>): string
    decreases |ms|
  {
    if ms == [] then ""
    else
      var on := OnLine(w, ms[0].at.line);
      Semicolons(on.line - w.line) + Segment(on, ms[0]) + Text(Wrote(on, ms[0]), ms[1..])
  }

  // ----- reading

  /** A decoded segment; the source index and the name index are those of the map format. */
  datatype Decoded = Decoded(at: Position, source: Option<(nat, Position)>, name: Option<nat>)

  datatype Reader = Reader(line: nat, column: nat, index: nat, sourceLine: nat, sourceColumn: nat, name: nat)

  datatype ReadSegment = BadSegment | GoodSegment(d: Decoded, next: Reader, rest: string)

  predicate AtEnd(s: string) {
    s == "" || s[0] == ',' || s[0] == ';'
  }

  /** A field: the next number added to its running value, which must not become negative. */
  datatype Field = BadField | Field(value: nat, rest: string)

  function ReadField(was: nat, s: string): (f: Field)
    ensures f.Field? ==> |f.rest| < |s|
  {
    var n := V.Decode(s);
    if n.NoNumber? || was + n.value < 0 then BadField else Field(was + n.value, n.rest)
  }

  function ReadName(r: Reader, index: nat, source: Position, s: string): (seg: ReadSegment)
    ensures seg.GoodSegment? ==> |seg.rest| <= |s|
  {
    var next := r.(index := index, sourceLine := source.line, sourceColumn := source.column);
    var at := Position(r.line, r.column);
    if AtEnd(s) then GoodSegment(Decoded(at, Some((index, source)), None), next, s)
    else
      var name := ReadField(r.name, s);
      if name.BadField? || !AtEnd(name.rest) then BadSegment
      else GoodSegment(Decoded(at, Some((index, source)), Some(name.value)), next.(name := name.value), name.rest)
  }

  function ReadSourceColumn(r: Reader, index: nat, line: nat, s: string): (seg: ReadSegment)
    ensures seg.GoodSegment? ==> |seg.rest| <= |s|
  {
    var column := ReadField(r.sourceColumn, s);
    if column.BadField? then BadSegment else ReadName(r, index, Position(line, column.value), column.rest)
  }

  function ReadSourceLine(r: Reader, index: nat, s: string): (seg: ReadSegment)
    ensures seg.GoodSegment? ==> |seg.rest| <= |s|
  {
    var line := ReadField(r.sourceLine, s);
    if line.BadField? || AtEnd(line.rest) then BadSegment else ReadSourceColumn(r, index, line.value, line.rest)
  }

  function ReadSource(r: Reader, s: string): (seg: ReadSegment)
    ensures seg.GoodSegment? ==> |seg.rest| <= |s|
  {
    var index := ReadField(r.index, s);
    if index.BadField? || AtEnd(index.rest) then BadSegment else ReadSourceLine(r, index.value, index.rest)
  }

  function ReadOne(r: Reader, s: string): (seg: ReadSegment)
    ensures seg.GoodSegment? ==> |seg.rest| < |s|
  {
    var column := ReadField(r.column, s);
    if column.BadField? then BadSegment
    else
      var next := r.(column := column.value);
      if AtEnd(column.rest) then
        GoodSegment(Decoded(Position(r.line, column.value), None, None), next, column.rest)
      else ReadSource(next, column.rest)
  }

  /** All mappings of a text, or none if it is malformed anywhere. */
  function Read(r: Reader, s: string): Option<seq<Decoded>>
    decreases |s|
  {
    if s == "" then Some([])
    else if s[0] == ';' then Read(r.(line := r.line + 1, column := 0), s[1..])
    else if s[0] == ',' then Read(r, s[1..])
    else
      var seg := ReadOne(r, s);
      if seg.BadSegment? then None
      else
        var more := Read(seg.next, seg.rest);
        if more.None? then None else Some([seg.d] + more.value)
  }

  const FRESH := Reader(0, 0, 0, 0, 0, 0)

  function Decode(s: string): Option<seq<Decoded>> {
    Read(FRESH, s)
  }

  function Encode(ms: seq<Mapping>): string {
    Text(START, ms)
  }

  // ----- reading what was written

  /** A mapping as the decoder reports it: the only source has index 0. */
  function Reported(m: Mapping): Decoded {
    Decoded(m.at, if m.source.None? then None else Some((0, m.source.value)), None)
  }

  function ReportedAll(ms: seq<Mapping>): seq<Decoded> {
    seq(|ms|, i requires 0 <= i < |ms| => Reported(ms[i]))
  }

  /** The mappings with every line raised to the highest line before it. */
  function Raised(line: nat, ms: seq<Mapping>): seq<Mapping>
    decreases |ms|
  {
    if ms == [] then []
    else
      var to := if line < ms[0].at.line then ms[0].at.line else line;
      [ms[0].(at := Position(to, ms[0].at.column))] + Raised(to, ms[1..])
  }

  ghost predicate NonDecreasing(line: nat, ms: seq<Mapping>) {
    && (forall i :: 0 <= i < |ms| ==> line <= ms[i].at.line)
    && (forall i, j :: 0 <= i < j < |ms| ==> ms[i].at.line <= ms[j].at.line)
  }

  function ReaderOf(w: Writer): Reader {
    Reader(w.line, w.column, 0, w.sourceLine, w.sourceColumn, 0)
  }

  /** A continued text starts with a separator. */
  lemma ContinuesApart(w: Writer, ms: seq<Mapping>)
    requires !w.first
    ensures AtEnd(Text(w, ms))
  {
    if ms != [] {
      var on := OnLine(w, ms[0].at.line);
      if on.line > w.line { assert Semicolons(on.line - w.line)[0] == ';'; }
    }
  }

  lemma {:induction false} SemicolonsRead(r: Reader, n: nat, s: string)
    ensures Read(r, Semicolons(n) + s) == Read(if n == 0 then r else r.(line := r.line + n, column := 0), s)
    decreases n
  {
    if n == 0 {
      assert Semicolons(0) + s == s;
    } else {
      var all := Semicolons(n) + s;
      assert all[0] == ';' && all[1..] == Semicolons(n - 1) + s;
      SemicolonsRead(r.(line := r.line + 1, column := 0), n - 1, s);
    }
  }

  lemma FieldRead(was: nat, to: nat, s: string)
    ensures ReadField(was, V.Encode(to - was) + s) == Field(to, s)
    ensures !AtEnd(V.Encode(to - was) + s)
  {
    V.RoundTrip(to - was, s);
  }

  ghost function SourceSegment(w: Writer, index: nat, source: Position, s: string): ReadSegment {
    GoodSegment(Decoded(Position(w.line, w.column), Some((index, source)), None),
                ReaderOf(w.(sourceLine := source.line, sourceColumn := source.column)).(index := index), s)
  }

  lemma SourceColumnRead(w: Writer, source: Position, s: string)
    requires AtEnd(s)
    ensures
      var text := V.Encode(source.column - w.sourceColumn) + s;
      !AtEnd(text) && ReadSourceColumn(ReaderOf(w), 0, source.line, text) == SourceSegment(w, 0, source, s)
  {
    FieldRead(w.sourceColumn, source.column, s);
  }

  lemma SourceLineRead(w: Writer, source: Position, after: string, s: string)
    requires !AtEnd(after) && ReadSourceColumn(ReaderOf(w), 0, source.line, after) == SourceSegment(w, 0, source, s)
    ensures
      var text := V.Encode(source.line - w.sourceLine) + after;
      !AtEnd(text) && ReadSourceLine(ReaderOf(w), 0, text) == SourceSegment(w, 0, source, s)
  {
    FieldRead(w.sourceLine, source.line, after);
  }

  lemma SourceIndexRead(w: Writer, source: Position, after: string, s: string)
    requires !AtEnd(after) && ReadSourceLine(ReaderOf(w), 0, after) == SourceSegment(w, 0, source, s)
    ensures
      var text := V.Encode(0) + after;
      !AtEnd(text) && ReadSource(ReaderOf(w), text) == SourceSegment(w, 0, source, s)
  {
    FieldRead(0, 0, after);
  }

  lemma SourceRead(w: Writer, source: Position, s: string)
    requires AtEnd(s)
    ensures !AtEnd(SourceText(w, source) + s)
    ensures
      ReadSource(ReaderOf(w), SourceText(w, source) + s) ==
      GoodSegment(Decoded(Position(w.line, w.column), Some((0, source)), None),
                  ReaderOf(w.(sourceLine := source.line, sourceColumn := source.column)), s)
  {
    var a, b, c := V.Encode(0), V.Encode(source.line - w.sourceLine), V.Encode(source.column - w.sourceColumn);
    SourceColumnRead(w, source, s);
    SourceLineRead(w, source, c + s, s);
    SourceIndexRead(w, source, b + (c + s), s);
    SameSource(w, source, a, b, c, s);
  }

  lemma SameSource(w: Writer, source: Position, a: string, b: string, c: string, s: string)
    requires SourceText(w, source) == a + b + c
    ensures SourceText(w, source) + s == a + (b + (c + s))
  {
    FourTexts(a, b, c, s);
  }

  lemma FourTexts(a: string, b: string, c: string, d: string)
    ensures a + b + c + d == a + (b + (c + d))
  {
  }

  /** A column field, and then what its rest reads as. */
  lemma ColumnRead(r: Reader, to: nat, text: string, rest: string)
    requires ReadField(r.column, text) == Field(to, rest)
    ensures
      ReadOne(r, text) ==
      if AtEnd(rest) then GoodSegment(Decoded(Position(r.line, to), None, None), r.(column := to), rest)
      else ReadSource(r.(column := to), rest)
  {
  }

  function RaisedOne(line: nat, m: Mapping): Mapping {
    m.(at := Position(line, m.at.column))
  }

  lemma PlainBodyRead(w: Writer, m: Mapping, s: string)
    requires AtEnd(s) && m.source.None?
    ensures ReadOne(ReaderOf(w), Body(w, m) + s) ==
      GoodSegment(Reported(RaisedOne(w.line, m)), ReaderOf(Wrote(w, m)), s)
    ensures !AtEnd(Body(w, m) + s)
  {
    var column := V.Encode(m.at.column - w.column);
    assert Body(w, m) + s == column + s;
    FieldRead(w.column, m.at.column, s);
    ColumnRead(ReaderOf(w), m.at.column, column + s, s);
  }

  lemma SourceBodyRead(w: Writer, m: Mapping, s: string)
    requires AtEnd(s) && m.source.Some?
    ensures ReadOne(ReaderOf(w), Body(w, m) + s) ==
      GoodSegment(Reported(RaisedOne(w.line, m)), ReaderOf(Wrote(w, m)), s)
    ensures !AtEnd(Body(w, m) + s)
  {
    var column, on := V.Encode(m.at.column - w.column), w.(column := m.at.column);
    var source := SourceText(w, m.source.value) + s;
    assert Body(w, m) + s == column + source;
    FieldRead(w.column, m.at.column, source);
    ColumnRead(ReaderOf(w), m.at.column, column + source, source);
    assert SourceText(on, m.source.value) == SourceText(w, m.source.value);
    SourceRead(on, m.source.value, s);
  }

  lemma BodyRead(w: Writer, m: Mapping, s: string)
    requires AtEnd(s)
    ensures ReadOne(ReaderOf(w), Body(w, m) + s) ==
      GoodSegment(Reported(RaisedOne(w.line, m)), ReaderOf(Wrote(w, m)), s)
    ensures !AtEnd(Body(w, m) + s)
  {
    if m.source.None? { PlainBodyRead(w, m, s); } else { SourceBodyRead(w, m, s); }
  }

  /** A segment followed by a separator is read by itself. */
  lemma ReadThen(r: Reader, body: string, s: string, d: Decoded, next: Reader)
    requires !AtEnd(body + s) && ReadOne(r, body + s) == GoodSegment(d, next, s)
    ensures
      var more := Read(next, s);
      var all := if more.None? then None else Some([d] + more.value);
      Read(r, body + s) == all && Read(r, "," + body + s) == all
  {
    assert ("," + body + s)[1..] == body + s;
  }

  lemma MappingRead(w: Writer, m: Mapping, s: string)
    requires AtEnd(s)
    ensures
      var more := Read(ReaderOf(Wrote(w, m)), s);
      Read(ReaderOf(w), Segment(w, m) + s) ==
      if more.None? then None else Some([Reported(RaisedOne(w.line, m))] + more.value)
  {
    BodyRead(w, m, s);
    ReadThen(ReaderOf(w), Body(w, m), s, Reported(RaisedOne(w.line, m)), ReaderOf(Wrote(w, m)));
  }

  lemma ReportedHead(m: Mapping, ms: seq<Mapping>)
    ensures ReportedAll([m] + ms) == [Reported(m)] + ReportedAll(ms)
  {
  }

  lemma AfterSemicolons(r: Reader, on: Reader, n: nat, segment: string, rest: string)
    requires on == if n == 0 then r else r.(line := r.line + n, column := 0)
    ensures Read(r, Semicolons(n) + segment + rest) == Read(on, segment + rest)
  {
    SemicolonsRead(r, n, segment + rest);
    assert Semicolons(n) + segment + rest == Semicolons(n) + (segment + rest);
  }

  lemma OneMoreRead(w: Writer, on: Writer, m: Mapping, rest: string, ms: seq<Mapping>)
    requires on == OnLine(w, m.at.line) && AtEnd(rest) && Read(ReaderOf(Wrote(on, m)), rest) == Some(ReportedAll(ms))
    ensures
      Read(ReaderOf(w), Semicolons(on.line - w.line) + Segment(on, m) + rest) ==
      Some(ReportedAll([RaisedOne(on.line, m)] + ms))
  {
    AfterSemicolons(ReaderOf(w), ReaderOf(on), on.line - w.line, Segment(on, m), rest);
    MappingRead(on, m, rest);
    ReportedHead(RaisedOne(on.line, m), ms);
  }

  /** Reading what was written gives the mappings back, each line raised to the highest before it. */
  lemma {:induction false} TextRead(w: Writer, ms: seq<Mapping>)
    ensures Read(ReaderOf(w), Text(w, ms)) == Some(ReportedAll(Raised(w.line, ms)))
    decreases |ms|
  {
    if ms == [] {
      assert ReportedAll([]) == [];
    } else {
      var on := OnLine(w, ms[0].at.line);
      var next := Wrote(on, ms[0]);
      ContinuesApart(next, ms[1..]);
      TextRead(next, ms[1..]);
      OneMoreRead(w, on, ms[0], Text(next, ms[1..]), Raised(on.line, ms[1..]));
    }
  }

  lemma {:induction false} RaisedSameExactly(line: nat, ms: seq<Mapping>)
    ensures Raised(line, ms) == ms <==> NonDecreasing(line, ms)
    decreases |ms|
  {
    if ms != [] {
      var to := if line < ms[0].at.line then ms[0].at.line else line;
      RaisedSameExactly(to, ms[1..]);
      var rest := ms[1..];
      assert ms == [ms[0]] + rest;
      if NonDecreasing(line, ms) {
        assert forall i :: 0 <= i < |rest| ==> rest[i] == ms[i + 1];
        assert NonDecreasing(to, rest);
      }
      if Raised(line, ms) == ms {
        assert Raised(line, ms)[0].at.line == to && Raised(line, ms)[1..] == Raised(to, rest);
      }
    }
  }

  lemma ReportedInjective(a: seq<Mapping>, b: seq<Mapping>)
    requires ReportedAll(a) == ReportedAll(b)
    ensures a == b
  {
    assert |ReportedAll(a)| == |ReportedAll(b)|;
    forall i | 0 <= i < |a| ensures a[i] == b[i] { assert ReportedAll(a)[i] == ReportedAll(b)[i]; }
  }

  /** A written list reads back as itself exactly when its generated lines never decrease. */
  lemma RoundTripExactly(ms: seq<Mapping>)
    ensures Decode(Encode(ms)).Some?
    ensures Decode(Encode(ms)) == Some(ReportedAll(ms)) <==> NonDecreasing(0, ms)
  {
    TextRead(START, ms);
    RaisedSameExactly(0, ms);
    if Decode(Encode(ms)) == Some(ReportedAll(ms)) { ReportedInjective(Raised(0, ms), ms); }
  }
}
