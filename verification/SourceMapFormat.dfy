/**
 The text of a mapping list (ECMA-426, section 9.2), said without the writer and the reader: which numbers and
 separators it consists of, and what they stand for.
 */
module SourceMapFormat {
  import opened Wrappers
  import opened Sequences
  import opened SourceMaps
  import V = Vlq

  // ----- written texts

  /** The line the text is on after the first `i` mappings: the highest so far. */
  ghost function Reached(ms: seq<Mapping>, i: nat): nat
    requires i <= |ms|
  {
    if i == 0 then 0
    else if Reached(ms, i - 1) < ms[i - 1].at.line then ms[i - 1].at.line
    else Reached(ms, i - 1)
  }

  /** The source position written last before mapping `i`. */
  ghost function LastSource(ms: seq<Mapping>, i: nat): Position
    requires i <= |ms|
  {
    if i == 0 then Position(0, 0)
    else if ms[i - 1].source.Some? then ms[i - 1].source.value
    else LastSource(ms, i - 1)
  }

  ghost predicate StartsLine(ms: seq<Mapping>, i: nat)
    requires i < |ms|
  {
    i == 0 || Reached(ms, i) < ms[i].at.line
  }

  /** The column that mapping `i` is written relative to. */
  ghost function ColumnBefore(ms: seq<Mapping>, i: nat): nat
    requires i < |ms|
  {
    if StartsLine(ms, i) then 0 else ms[i - 1].at.column
  }

  /** A semicolon for every new line, or a comma after another mapping of the line. */
  ghost function LeadOf(ms: seq<Mapping>, i: nat): string
    requires i < |ms|
  {
    Semicolons(Reached(ms, i + 1) - Reached(ms, i)) + if StartsLine(ms, i) then "" else ","
  }

  /** The column, and with a source the index 0 and the source position, relative to what was written last. */
  ghost function NumbersOf(ms: seq<Mapping>, i: nat): string
    requires i < |ms|
  {
    var from := LastSource(ms, i);
    V.Encode(ms[i].at.column - ColumnBefore(ms, i)) +
    match ms[i].source
    case None => ""
    case Some(source) => V.Encode(0) + V.Encode(source.line - from.line) + V.Encode(source.column - from.column)
  }

  ghost function SegmentsOf(ms: seq<Mapping>): nat -> string {
    (i: nat) => if i < |ms| then LeadOf(ms, i) + NumbersOf(ms, i) else ""
  }

  /** The state of the writer before mapping `i`. */
  ghost function WriterAt(ms: seq<Mapping>, i: nat): Writer
    requires i <= |ms|
  {
    var from := LastSource(ms, i);
    Writer(Reached(ms, i), if i == 0 then 0 else ms[i - 1].at.column, from.line, from.column, i == 0)
  }

  /** The state of the writer when it writes mapping `i`. */
  ghost function WriterOn(ms: seq<Mapping>, i: nat): Writer
    requires i < |ms|
  {
    var from := LastSource(ms, i);
    Writer(Reached(ms, i + 1), ColumnBefore(ms, i), from.line, from.column, StartsLine(ms, i))
  }

  lemma WriterGoesOn(ms: seq<Mapping>, i: nat)
    requires i < |ms|
    ensures OnLine(WriterAt(ms, i), ms[i].at.line) == WriterOn(ms, i)
    ensures Wrote(WriterOn(ms, i), ms[i]) == WriterAt(ms, i + 1)
    ensures Reached(ms, i) <= Reached(ms, i + 1)
  {
  }

  lemma BodyIsNumbers(ms: seq<Mapping>, i: nat)
    requires i < |ms|
    ensures Body(WriterOn(ms, i), ms[i]) == NumbersOf(ms, i)
  {
  }

  lemma Glued(semis: string, first: bool, body: string)
    ensures semis + (if first then body else "," + body) == semis + (if first then "" else ",") + body
  {
  }

  lemma TextGoesOn(ms: seq<Mapping>, i: nat)
    requires i < |ms|
    ensures
      Text(WriterAt(ms, i), ms[i..]) == LeadOf(ms, i) + NumbersOf(ms, i) + Text(WriterAt(ms, i + 1), ms[i + 1..])
  {
    WriterGoesOn(ms, i);
    BodyIsNumbers(ms, i);
    var on := WriterOn(ms, i);
    Glued(Semicolons(on.line - Reached(ms, i)), on.first, Body(on, ms[i]));
    assert ms[i..][0] == ms[i] && ms[i..][1..] == ms[i + 1..];
  }

  lemma {:induction false} TextWritten(ms: seq<Mapping>, i: nat) returns (done: string)
    requires i <= |ms|
    ensures Encode(ms) == done + Text(WriterAt(ms, i), ms[i..]) && InPieces(done, i, SegmentsOf(ms))
  {
    if i == 0 {
      done := "";
      NoPieces(SegmentsOf(ms));
      assert ms[0..] == ms;
    } else {
      var before := TextWritten(ms, i - 1);
      TextGoesOn(ms, i - 1);
      OnePieceMore(before, i - 1, SegmentsOf(ms));
      done := Regrouped(before, SegmentsOf(ms)(i - 1), Text(WriterAt(ms, i), ms[i..]));
    }
  }

  lemma Regrouped(a: string, b: string, c: string) returns (ab: string)
    ensures ab == a + b && ab + c == a + (b + c)
  {
    ab := a + b;
  }

  /** A written text consists of the segments of its mappings, in order. */
  lemma TextFormat(ms: seq<Mapping>)
    ensures InPieces(Encode(ms), |ms|, SegmentsOf(ms))
  {
    var done := TextWritten(ms, |ms|);
    assert Encode(ms) == done;
  }

  // ----- texts that are read

  /** A separator, or the numbers of a segment. */
  datatype Token = Semicolon | Comma | Group(numbers: seq<int>)

  type Form = (string, int) -> bool

  ghost const NUMBER: Form := (s, v) => V.Decode(s) == V.Number(v, "")

  /** The text is a number in base64 digits. */
  ghost predicate IsNumber(s: string, v: int) {
    V.Decode(s) == V.Number(v, "")
  }

  /** The text is the numbers, one after the other, each in a form that `num` allows. */
  ghost predicate Numbers(num: Form, vs: seq<int>, s: string)
    decreases |vs|
  {
    if vs == [] then s == ""
    else exists k: nat :: k <= |s| && num(s[..k], vs[0]) && Numbers(num, vs[1..], s[k..])
  }

  ghost predicate IsToken(t: Token, s: string) {
    match t
    case Semicolon => s == ";"
    case Comma => s == ","
    case Group(numbers) => numbers != [] && Numbers(NUMBER, numbers, s)
  }

  ghost predicate Consists(tokens: seq<Token>, s: string)
    decreases |tokens|
  {
    if tokens == [] then s == ""
    else exists k: nat :: k <= |s| && IsToken(tokens[0], s[..k]) && Consists(tokens[1..], s[k..])
  }

  /** The running values after the numbers of a segment: column, source index, source line, source column and name. */
  ghost predicate Adds(r: Reader, vs: seq<int>, next: Reader) {
    && |vs| in {1, 4, 5} && next.line == r.line && next.column == r.column + vs[0]
    && (if |vs| >= 4
        then
          next.index == r.index + vs[1] && next.sourceLine == r.sourceLine + vs[2]
          && next.sourceColumn == r.sourceColumn + vs[3]
        else next.index == r.index && next.sourceLine == r.sourceLine && next.sourceColumn == r.sourceColumn)
    && next.name == if |vs| == 5 then r.name + vs[4] else r.name
  }

  /** What a segment with so many numbers says of the running values. */
  ghost predicate Says(next: Reader, size: nat, d: Decoded) {
    && d.at == Position(next.line, next.column)
    && d.source == (if size >= 4 then Some((next.index, Position(next.sourceLine, next.sourceColumn))) else None)
    && d.name == if size == 5 then Some(next.name) else None
  }

  /**
   What the tokens stand for: a semicolon starts the next line at column 0, a segment adds its numbers to the running
   values, none of which may become negative, and a separator or the end of the text follows it.
   */
  ghost predicate Means(r: Reader, tokens: seq<Token>, ds: seq<Decoded>)
    decreases |tokens|
  {
    if tokens == [] then ds == []
    else match tokens[0]
      case Semicolon => Means(r.(line := r.line + 1, column := 0), tokens[1..], ds)
      case Comma => Means(r, tokens[1..], ds)
      case Group(vs) =>
        && ds != [] && (|tokens| == 1 || !tokens[1].Group?)
        && exists next :: Adds(r, vs, next) && Says(next, |vs|, ds[0]) && Means(next, tokens[1..], ds[1..])
  }

  lemma NumberThen(s: string, k: nat, v: int)
    requires k <= |s| && IsNumber(s[..k], v)
    ensures 0 < k && V.Decode(s) == V.Number(v, s[k..]) && !AtEnd(s)
  {
    V.ReadExactly(s[..k]);
    var digits, j :| 0 <= j <= k && V.Spells(digits, s[..k][..j]) && V.Continued(digits);
    assert s[..k][..j] == s[..j] && s[..k][j..] == s[j..k];
    V.ReadExactly(s);
    V.DigitRoundTrip(digits[0]);
  }

  /** The numbers take the text up to a separator or the end. */
  ghost predicate TakeUp(vs: seq<int>, s: string, rest: string) {
    AtEnd(rest) && Stretch(NUMBER, vs, s, rest)
  }

  ghost predicate Stretch(num: Form, vs: seq<int>, s: string, rest: string) {
    exists k: nat :: k <= |s| && Numbers(num, vs, s[..k]) && rest == s[k..]
  }

  lemma NoneStretch(num: Form, s: string, rest: string)
    requires Stretch(num, [], s, rest)
    ensures s == rest
  {
    var k: nat :| k <= |s| && Numbers(num, [], s[..k]) && rest == s[k..];
    assert k == 0 && s[0..] == s;
  }

  lemma NoneTaken(s: string, rest: string)
    requires TakeUp([], s, rest)
    ensures s == rest && AtEnd(s)
  {
    NoneStretch(NUMBER, s, rest);
  }

  lemma CutTwice(s: string, k: nat, j: nat)
    requires k + j <= |s|
    ensures s[..k + j][..k] == s[..k] && s[..k + j][k..] == s[k..][..j] && s[k + j..] == s[k..][j..]
  {
  }

  lemma HeadOfStretch(num: Form, vs: seq<int>, s: string, rest: string) returns (j: nat)
    requires vs != [] && Stretch(num, vs, s, rest)
    ensures j <= |s| && num(s[..j], vs[0]) && Stretch(num, vs[1..], s[j..], rest)
  {
    var k: nat :| k <= |s| && Numbers(num, vs, s[..k]) && rest == s[k..];
    var head := s[..k];
    j :| j <= |head| && num(head[..j], vs[0]) && Numbers(num, vs[1..], head[j..]);
    CutTwice(s, j, k - j);
    var after := s[j..];
    assert Numbers(num, vs[1..], after[..k - j]);
  }

  /** The first number, and the others take up what follows it. */
  lemma HeadTaken(vs: seq<int>, s: string, rest: string) returns (j: nat)
    requires vs != [] && TakeUp(vs, s, rest)
    ensures j <= |s| && IsNumber(s[..j], vs[0]) && TakeUp(vs[1..], s[j..], rest)
  {
    j := HeadOfStretch(NUMBER, vs, s, rest);
    assert NUMBER(s[..j], vs[0]);
  }

  lemma StartsWithNumber(vs: seq<int>, s: string, rest: string)
    requires vs != [] && TakeUp(vs, s, rest)
    ensures !AtEnd(s)
  {
    var j := HeadTaken(vs, s, rest);
    NumberThen(s, j, vs[0]);
  }

  lemma FieldAt(was: nat, s: string, j: nat, v: int)
    requires j <= |s| && IsNumber(s[..j], v) && was + v >= 0
    ensures ReadField(was, s) == Field(was + v, s[j..]) && !AtEnd(s)
  {
    NumberThen(s, j, v);
  }

  /** The first number is read, and the others take up what follows it. */
  lemma FieldTaken(was: nat, vs: seq<int>, s: string, rest: string) returns (after: string)
    requires vs != [] && TakeUp(vs, s, rest) && was + vs[0] >= 0
    ensures ReadField(was, s) == Field(was + vs[0], after) && TakeUp(vs[1..], after, rest)
    ensures !AtEnd(s) && (AtEnd(after) <==> |vs| == 1)
    ensures |vs| == 1 ==> after == rest
  {
    var j := HeadTaken(vs, s, rest);
    FieldAt(was, s, j, vs[0]);
    after := s[j..];
    if |vs| == 1 {
      assert vs[1..] == [];
      NoneTaken(after, rest);
    } else {
      StartsWithNumber(vs[1..], after, rest);
    }
  }

  /** A segment with a source, and with a name if there is a number for it. */
  ghost function WithSource(r: Reader, index: nat, source: Position, names: seq<int>, rest: string): ReadSegment
    requires |names| <= 1 && (names != [] ==> r.name + names[0] >= 0)
  {
    var at, next := Position(r.line, r.column),
                    r.(index := index, sourceLine := source.line, sourceColumn := source.column);
    if names == [] then GoodSegment(Decoded(at, Some((index, source)), None), next, rest)
    else
      var name: nat := r.name + names[0];
      GoodSegment(Decoded(at, Some((index, source)), Some(name)), next.(name := name), rest)
  }

  lemma NoName(r: Reader, index: nat, source: Position, s: string, rest: string)
    requires TakeUp([], s, rest)
    ensures ReadName(r, index, source, s) == WithSource(r, index, source, [], rest)
  {
    NoneTaken(s, rest);
  }

  lemma OneName(r: Reader, index: nat, source: Position, v: int, s: string, rest: string)
    requires TakeUp([v], s, rest) && r.name + v >= 0
    ensures ReadName(r, index, source, s) == WithSource(r, index, source, [v], rest)
  {
    var after := FieldTaken(r.name, [v], s, rest);
  }

  lemma NameTaken(r: Reader, index: nat, source: Position, vs: seq<int>, s: string, rest: string)
    requires |vs| <= 1 && TakeUp(vs, s, rest) && (vs != [] ==> r.name + vs[0] >= 0)
    ensures ReadName(r, index, source, s) == WithSource(r, index, source, vs, rest)
  {
    if vs == [] {
      NoName(r, index, source, s, rest);
    } else {
      assert vs == [vs[0]];
      OneName(r, index, source, vs[0], s, rest);
    }
  }

  lemma FieldsTaken(was: nat, v: int, vs: seq<int>, s: string, rest: string) returns (after: string)
    requires TakeUp([v] + vs, s, rest) && was + v >= 0
    ensures ReadField(was, s) == Field(was + v, after) && TakeUp(vs, after, rest) && (AtEnd(after) <==> vs == [])
  {
    after := FieldTaken(was, [v] + vs, s, rest);
    assert ([v] + vs)[1..] == vs;
  }

  lemma SourceColumnTaken(r: Reader, index: nat, line: nat, v: int, names: seq<int>, s: string, rest: string)
    requires |names| <= 1 && TakeUp([v] + names, s, rest) && r.sourceColumn + v >= 0
    requires names != [] ==> r.name + names[0] >= 0
    ensures
      ReadSourceColumn(r, index, line, s) == WithSource(r, index, Position(line, r.sourceColumn + v), names, rest)
  {
    var after := FieldsTaken(r.sourceColumn, v, names, s, rest);
    var column: nat := r.sourceColumn + v;
    NameTaken(r, index, Position(line, column), names, after, rest);
  }

  lemma SourceLineTaken(r: Reader, index: nat, u: int, v: int, names: seq<int>, s: string, rest: string)
    requires |names| <= 1 && TakeUp([u] + ([v] + names), s, rest)
    requires r.sourceLine + u >= 0 && r.sourceColumn + v >= 0 && (names != [] ==> r.name + names[0] >= 0)
    ensures
      ReadSourceLine(r, index, s) ==
      WithSource(r, index, Position(r.sourceLine + u, r.sourceColumn + v), names, rest)
  {
    var after := FieldsTaken(r.sourceLine, u, [v] + names, s, rest);
    var line: nat := r.sourceLine + u;
    SourceColumnTaken(r, index, line, v, names, after, rest);
  }

  lemma SourceTaken(r: Reader, w: int, u: int, v: int, names: seq<int>, s: string, rest: string)
    requires |names| <= 1 && TakeUp([w] + ([u] + ([v] + names)), s, rest) && r.index + w >= 0
    requires r.sourceLine + u >= 0 && r.sourceColumn + v >= 0 && (names != [] ==> r.name + names[0] >= 0)
    ensures
      ReadSource(r, s) ==
      WithSource(r, r.index + w, Position(r.sourceLine + u, r.sourceColumn + v), names, rest)
  {
    var after := FieldsTaken(r.index, w, [u] + ([v] + names), s, rest);
    var index: nat := r.index + w;
    SourceLineTaken(r, index, u, v, names, after, rest);
  }

  lemma PlainAdds(r: Reader, c: int, on: Reader)
    requires on.column == r.column + c && on == r.(column := on.column)
    ensures Adds(r, [c], on) && Says(on, 1, Decoded(Position(r.line, on.column), None, None))
  {
  }

  lemma SourceAdds(
    r: Reader, c: int, on: Reader, w: int, u: int, v: int, names: seq<int>, seg: ReadSegment, rest: string)
    requires on.column == r.column + c && on == r.(column := on.column)
    requires on.index + w >= 0 && on.sourceLine + u >= 0 && on.sourceColumn + v >= 0
    requires |names| <= 1 && (names != [] ==> on.name + names[0] >= 0)
    requires seg == WithSource(on, on.index + w, Position(on.sourceLine + u, on.sourceColumn + v), names, rest)
    ensures
      seg.GoodSegment? && Adds(r, [c, w, u, v] + names, seg.next) && Says(seg.next, 4 + |names|, seg.d)
  {
  }

  lemma PlainTaken(r: Reader, c: int, s: string, rest: string) returns (seg: ReadSegment)
    requires r.column + c >= 0 && TakeUp([c], s, rest)
    ensures seg == ReadOne(r, s) && seg.GoodSegment? && seg.rest == rest
    ensures Adds(r, [c], seg.next) && Says(seg.next, 1, seg.d)
  {
    var after := FieldTaken(r.column, [c], s, rest);
    var to: nat := r.column + c;
    ColumnRead(r, to, s, after);
    PlainAdds(r, c, r.(column := to));
    seg := GoodSegment(Decoded(Position(r.line, to), None, None), r.(column := to), rest);
  }

  lemma SourceGroupTaken(
    r: Reader, c: int, on: Reader, w: int, u: int, v: int, names: seq<int>, s: string, rest: string)
    returns (seg: ReadSegment)
    requires on.column == r.column + c && on == r.(column := on.column)
    requires |names| <= 1 && TakeUp([c] + ([w] + ([u] + ([v] + names))), s, rest) && on.index + w >= 0
    requires on.sourceLine + u >= 0 && on.sourceColumn + v >= 0 && (names != [] ==> on.name + names[0] >= 0)
    ensures seg == ReadOne(r, s) && seg.GoodSegment? && seg.rest == rest
    ensures Adds(r, [c, w, u, v] + names, seg.next) && Says(seg.next, 4 + |names|, seg.d)
  {
    var after := FieldsTaken(r.column, c, [w] + ([u] + ([v] + names)), s, rest);
    ColumnRead(r, on.column, s, after);
    SourceTaken(on, w, u, v, names, after, rest);
    seg := ReadSource(on, after);
    SourceAdds(r, c, on, w, u, v, names, seg, rest);
  }

  lemma AddsOneWay(r: Reader, vs: seq<int>, a: Reader, b: Reader)
    requires Adds(r, vs, a) && Adds(r, vs, b)
    ensures a == b
  {
  }

  /** A segment is read as its numbers add to the running values. */
  lemma GroupTaken(r: Reader, vs: seq<int>, next: Reader, s: string, rest: string)
    requires Adds(r, vs, next) && TakeUp(vs, s, rest)
    ensures ReadOne(r, s).GoodSegment? && ReadOne(r, s).next == next && ReadOne(r, s).rest == rest
    ensures Says(next, |vs|, ReadOne(r, s).d)
  {
    if |vs| == 1 {
      assert vs == [vs[0]];
      var seg := PlainTaken(r, vs[0], s, rest);
      AddsOneWay(r, vs, seg.next, next);
    } else {
      GroupTakenBySource(r, vs, next, s, rest);
    }
  }

  lemma GroupTakenBySource(r: Reader, vs: seq<int>, next: Reader, s: string, rest: string)
    requires Adds(r, vs, next) && TakeUp(vs, s, rest) && |vs| >= 4
    ensures ReadOne(r, s).GoodSegment? && ReadOne(r, s).next == next && ReadOne(r, s).rest == rest
    ensures Says(next, |vs|, ReadOne(r, s).d)
  {
    var c, w, u, v, names := vs[0], vs[1], vs[2], vs[3], vs[4..];
    var to: nat := r.column + c;
    var all := Listed(c, w, u, v, names);
    assert vs == all;
    var seg := SourceGroupTaken(r, c, r.(column := to), w, u, v, names, s, rest);
    AddsOneWay(r, vs, seg.next, next);
  }

  /** Where the tokens begin, a text that goes on with another token than a segment is at an end. */
  lemma SeparatorNext(tokens: seq<Token>, s: string)
    requires Consists(tokens, s) && (tokens == [] || !tokens[0].Group?)
    ensures AtEnd(s)
  {
    if tokens != [] {
      var k: nat :| k <= |s| && IsToken(tokens[0], s[..k]) && Consists(tokens[1..], s[k..]);
      assert s[..k][0] == s[0];
    }
  }

  /** A text is read as its tokens mean. */
  lemma {:induction false} TokensRead(r: Reader, tokens: seq<Token>, ds: seq<Decoded>, s: string)
    requires Consists(tokens, s) && Means(r, tokens, ds)
    ensures Read(r, s) == Some(ds)
    decreases |tokens|
  {
    if tokens != [] {
      var k: nat :| k <= |s| && IsToken(tokens[0], s[..k]) && Consists(tokens[1..], s[k..]);
      var rest := s[k..];
      match tokens[0]
      case Semicolon =>
        TokensRead(r.(line := r.line + 1, column := 0), tokens[1..], ds, rest);
        SemicolonRead(r, ds, s, k);
      case Comma =>
        TokensRead(r, tokens[1..], ds, rest);
        CommaRead(r, ds, s, k);
      case Group(vs) =>
        var next :| Adds(r, vs, next) && Says(next, |vs|, ds[0]) && Means(next, tokens[1..], ds[1..]);
        SeparatorNext(tokens[1..], rest);
        TokensRead(next, tokens[1..], ds[1..], rest);
        GroupRead(r, vs, next, ds, s, rest);
    }
  }

  lemma SemicolonRead(r: Reader, ds: seq<Decoded>, s: string, k: nat)
    requires k <= |s| && s[..k] == ";" && Read(r.(line := r.line + 1, column := 0), s[k..]) == Some(ds)
    ensures Read(r, s) == Some(ds)
  {
    SeparatorRead(s, k, ';');
  }

  lemma CommaRead(r: Reader, ds: seq<Decoded>, s: string, k: nat)
    requires k <= |s| && s[..k] == "," && Read(r, s[k..]) == Some(ds)
    ensures Read(r, s) == Some(ds)
  {
    SeparatorRead(s, k, ',');
  }

  lemma GroupRead(r: Reader, vs: seq<int>, next: Reader, ds: seq<Decoded>, s: string, rest: string)
    requires vs != [] && TakeUp(vs, s, rest) && ds != [] && Adds(r, vs, next) && Says(next, |vs|, ds[0])
    requires Read(next, rest) == Some(ds[1..])
    ensures Read(r, s) == Some(ds)
  {
    GroupTaken(r, vs, next, s, rest);
    StartsWithNumber(vs, s, rest);
    SameSaid(next, |vs|, ReadOne(r, s).d, ds[0]);
    assert ds == [ds[0]] + ds[1..];
  }

  lemma SeparatorRead(s: string, k: nat, c: char)
    requires k <= |s| && s[..k] == [c]
    ensures s != "" && s[0] == c && s[1..] == s[k..]
  {
    assert |s[..k]| == 1;
    assert s[..k][0] == s[0];
  }

  lemma SameSaid(next: Reader, size: nat, d: Decoded, e: Decoded)
    requires Says(next, size, d) && Says(next, size, e)
    ensures d == e
  {
  }

  lemma FieldFound(was: nat, s: string) returns (v: int, k: nat)
    requires ReadField(was, s).Field?
    ensures was + v >= 0 && k <= |s| && IsNumber(s[..k], v) && ReadField(was, s) == Field(was + v, s[k..])
  {
    V.ReadExactly(s);
    var digits, j :| 0 <= j <= |s| && V.Spells(digits, s[..j]) && V.Continued(digits);
    k, v := j, V.Decode(s).value;
    V.ReadExactly(s[..k]);
    assert s[..k][..k] == s[..k] && s[..k][k..] == "";
  }

  lemma LongerStretch(num: Form, v: int, k: nat, vs: seq<int>, s: string, rest: string)
    requires k <= |s| && num(s[..k], v) && Stretch(num, vs, s[k..], rest)
    ensures Stretch(num, [v] + vs, s, rest)
  {
    var after := s[k..];
    var j: nat :| j <= |after| && Numbers(num, vs, after[..j]) && rest == after[j..];
    CutTwice(s, k, j);
    NumbersMore(num, v, k, vs, s[..k + j]);
  }

  lemma NumbersMore(num: Form, v: int, k: nat, vs: seq<int>, s: string)
    requires k <= |s| && num(s[..k], v) && Numbers(num, vs, s[k..])
    ensures Numbers(num, [v] + vs, s)
  {
    assert ([v] + vs)[1..] == vs;
  }

  lemma TakeUpMore(v: int, k: nat, vs: seq<int>, s: string, rest: string)
    requires k <= |s| && IsNumber(s[..k], v) && TakeUp(vs, s[k..], rest)
    ensures TakeUp([v] + vs, s, rest)
  {
    LongerStretch(NUMBER, v, k, vs, s, rest);
  }

  lemma TakeNone(s: string)
    requires AtEnd(s)
    ensures TakeUp([], s, s)
  {
    assert s[..0] == "" && s[0..] == s;
    assert Numbers(NUMBER, [], s[..0]);
  }

  lemma NameFound(r: Reader, index: nat, source: Position, s: string, seg: ReadSegment) returns (names: seq<int>)
    requires seg == ReadName(r, index, source, s) && seg.GoodSegment?
    ensures |names| <= 1 && TakeUp(names, s, seg.rest) && (names != [] ==> r.name + names[0] >= 0)
    ensures seg == WithSource(r, index, source, names, seg.rest)
  {
    if AtEnd(s) {
      TakeNone(s);
      names := [];
    } else {
      var v, k := FieldFound(r.name, s);
      TakeNone(s[k..]);
      TakeUpMore(v, k, [], s, s[k..]);
      names := [v] + [];
    }
  }

  lemma SourceColumnFound(r: Reader, index: nat, line: nat, s: string, seg: ReadSegment)
    returns (v: int, names: seq<int>)
    requires seg == ReadSourceColumn(r, index, line, s) && seg.GoodSegment?
    ensures r.sourceColumn + v >= 0 && |names| <= 1 && (names != [] ==> r.name + names[0] >= 0)
    ensures TakeUp([v] + names, s, seg.rest)
    ensures seg == WithSource(r, index, Position(line, r.sourceColumn + v), names, seg.rest)
  {
    var k: nat;
    v, k := FieldFound(r.sourceColumn, s);
    names := NameFound(r, index, Position(line, r.sourceColumn + v), s[k..], seg);
    TakeUpMore(v, k, names, s, seg.rest);
  }

  lemma SourceLineFound(r: Reader, index: nat, s: string, seg: ReadSegment)
    returns (u: int, v: int, names: seq<int>)
    requires seg == ReadSourceLine(r, index, s) && seg.GoodSegment?
    ensures r.sourceLine + u >= 0 && r.sourceColumn + v >= 0
    ensures |names| <= 1 && (names != [] ==> r.name + names[0] >= 0)
    ensures TakeUp([u] + ([v] + names), s, seg.rest)
    ensures seg == WithSource(r, index, Position(r.sourceLine + u, r.sourceColumn + v), names, seg.rest)
  {
    var k: nat;
    u, k := FieldFound(r.sourceLine, s);
    var line: nat := r.sourceLine + u;
    v, names := SourceColumnFound(r, index, line, s[k..], seg);
    TakeUpMore(u, k, [v] + names, s, seg.rest);
  }

  lemma SourceFound(r: Reader, s: string, seg: ReadSegment) returns (w: int, u: int, v: int, names: seq<int>)
    requires seg == ReadSource(r, s) && seg.GoodSegment?
    ensures r.index + w >= 0 && r.sourceLine + u >= 0 && r.sourceColumn + v >= 0
    ensures |names| <= 1 && (names != [] ==> r.name + names[0] >= 0)
    ensures TakeUp([w] + ([u] + ([v] + names)), s, seg.rest)
    ensures seg == WithSource(r, r.index + w, Position(r.sourceLine + u, r.sourceColumn + v), names, seg.rest)
  {
    var k: nat;
    w, k := FieldFound(r.index, s);
    var index: nat := r.index + w;
    u, v, names := SourceLineFound(r, index, s[k..], seg);
    TakeUpMore(w, k, [u] + ([v] + names), s, seg.rest);
  }

  lemma GroupFound(r: Reader, s: string, seg: ReadSegment) returns (vs: seq<int>)
    requires seg == ReadOne(r, s) && seg.GoodSegment?
    ensures vs != [] && TakeUp(vs, s, seg.rest) && Adds(r, vs, seg.next) && Says(seg.next, |vs|, seg.d)
  {
    var c, k := FieldFound(r.column, s);
    var to: nat, after := r.column + c, s[k..];
    var on := r.(column := to);
    ColumnRead(r, to, s, after);
    if AtEnd(after) {
      TakeNone(after);
      TakeUpMore(c, k, [], s, after);
      PlainAdds(r, c, on);
      vs := [c];
      assert vs == [c] + [];
    } else {
      vs := SourceGroupFound(r, c, on, k, s, seg);
    }
  }

  lemma SourceGroupFound(r: Reader, c: int, on: Reader, k: nat, s: string, seg: ReadSegment)
    returns (vs: seq<int>)
    requires on.column == r.column + c && on == r.(column := on.column) && k <= |s| && IsNumber(s[..k], c)
    requires seg == ReadSource(on, s[k..]) && seg.GoodSegment?
    ensures vs != [] && TakeUp(vs, s, seg.rest) && Adds(r, vs, seg.next) && Says(seg.next, |vs|, seg.d)
  {
    var w, u, v, names := SourceFound(on, s[k..], seg);
    TakeUpMore(c, k, [w] + ([u] + ([v] + names)), s, seg.rest);
    SourceAdds(r, c, on, w, u, v, names, seg, seg.rest);
    vs := Listed(c, w, u, v, names);
  }

  lemma Listed(c: int, w: int, u: int, v: int, names: seq<int>) returns (vs: seq<int>)
    ensures vs == [c, w, u, v] + names == [c] + ([w] + ([u] + ([v] + names)))
  {
    vs := [c, w, u, v] + names;
  }

  lemma ConsistsMore(t: Token, k: nat, tokens: seq<Token>, s: string)
    requires k <= |s| && IsToken(t, s[..k]) && Consists(tokens, s[k..])
    ensures Consists([t] + tokens, s)
  {
    assert ([t] + tokens)[1..] == tokens;
  }

  /** A text that is read consists of tokens that mean what was read. */
  lemma {:induction false} TokensFound(r: Reader, s: string, ds: seq<Decoded>) returns (tokens: seq<Token>)
    requires Read(r, s) == Some(ds)
    ensures Consists(tokens, s) && Means(r, tokens, ds)
    decreases |s|
  {
    if s == "" {
      tokens := [];
    } else if s[0] == ';' {
      var rest := TokensFound(r.(line := r.line + 1, column := 0), s[1..], ds);
      tokens := [Semicolon] + rest;
      ConsistsMore(Semicolon, 1, rest, s);
      assert tokens[1..] == rest;
    } else if s[0] == ',' {
      var rest := TokensFound(r, s[1..], ds);
      tokens := [Comma] + rest;
      ConsistsMore(Comma, 1, rest, s);
      assert tokens[1..] == rest;
    } else {
      var seg := ReadOne(r, s);
      var vs := GroupFound(r, s, seg);
      var rest := TokensFound(seg.next, seg.rest, ds[1..]);
      tokens := GroupMeant(r, vs, seg, rest, ds, s);
    }
  }

  lemma GroupMeant(r: Reader, vs: seq<int>, seg: ReadSegment, rest: seq<Token>, ds: seq<Decoded>, s: string)
    returns (tokens: seq<Token>)
    requires seg.GoodSegment? && ds != [] && ds[0] == seg.d
    requires vs != [] && TakeUp(vs, s, seg.rest) && Adds(r, vs, seg.next) && Says(seg.next, |vs|, seg.d)
    requires Consists(rest, seg.rest) && Means(seg.next, rest, ds[1..])
    ensures Consists(tokens, s) && Means(r, tokens, ds)
  {
    tokens := [Group(vs)] + rest;
    var k: nat :| k <= |s| && Numbers(NUMBER, vs, s[..k]) && seg.rest == s[k..];
    ConsistsMore(Group(vs), k, rest, s);
    assert tokens[1..] == rest;
    EndMeansSeparator(rest, seg.rest);
  }

  lemma EndMeansSeparator(tokens: seq<Token>, s: string)
    requires Consists(tokens, s) && AtEnd(s)
    ensures tokens == [] || !tokens[0].Group?
  {
    if tokens != [] && tokens[0].Group? {
      var k: nat :| k <= |s| && IsToken(tokens[0], s[..k]) && Consists(tokens[1..], s[k..]);
      GroupStarts(tokens[0].numbers, s, k);
    }
  }

  lemma GroupStarts(vs: seq<int>, s: string, k: nat)
    requires vs != [] && k <= |s| && Numbers(NUMBER, vs, s[..k])
    ensures !AtEnd(s)
  {
    assert Stretch(NUMBER, vs, s, s[k..]);
    var j := HeadOfStretch(NUMBER, vs, s, s[k..]);
    assert NUMBER(s[..j], vs[0]);
    NumberThen(s, j, vs[0]);
  }

  /** The text consists of tokens that mean this list. */
  ghost predicate TextMeans(s: string, ds: seq<Decoded>) {
    exists tokens :: Consists(tokens, s) && Means(Reader(0, 0, 0, 0, 0, 0), tokens, ds)
  }

  lemma MeantIsRead(s: string, ds: seq<Decoded>)
    requires TextMeans(s, ds)
    ensures Decode(s) == Some(ds)
  {
    var tokens :| Consists(tokens, s) && Means(Reader(0, 0, 0, 0, 0, 0), tokens, ds);
    TokensRead(FRESH, tokens, ds, s);
  }

  lemma ReadIsMeant(s: string, ds: seq<Decoded>)
    requires Decode(s) == Some(ds)
    ensures TextMeans(s, ds)
  {
    var tokens := TokensFound(FRESH, s, ds);
  }

  /** A text is read as a list of segments exactly when it consists of tokens that mean this list. */
  lemma ReadExactly(s: string, ds: seq<Decoded>)
    ensures Decode(s) == Some(ds) <==> TextMeans(s, ds)
  {
    if Decode(s) == Some(ds) {
      ReadIsMeant(s, ds);
    } else if TextMeans(s, ds) {
      MeantIsRead(s, ds);
    }
  }
}
