/**
 Byte offsets and source-map positions: internal/compile/source_trace.go, utf16Position and byteOffsetOf.

 A position is a line and a column in UTF-16 code units; a rune above 0xFFFF is a surrogate pair (section 2.1 of
 RFC 2781) and counts as two.
 */
module TextPositions {
  import opened Wrappers
  import opened Utf8

  const NEWLINE := 10

  function UnitsOf(r: Rune): nat {
    if r > 0xFFFF then 2 else 1
  }

  // ----- the two conversions, on bytes

  /** UTF-16 units of a text, decoded rune by rune. */
  function Units(s: seq<Byte>): nat {
    if s == [] then 0
    else
      var d := DecodeRune(s);
      UnitsOf(d.0) + Units(s[d.1..])
  }

  /** Where the last line of a text starts. */
  function LineStart(s: seq<Byte>): (i: nat)
    ensures i <= |s|
  {
    if s == [] || s[|s| - 1] == NEWLINE then |s| else LineStart(s[..|s| - 1])
  }

  function Utf16Position(text: seq<Byte>, offset: int): Option<(nat, nat)> {
    if offset < 0 || offset > |text| then None
    else
      var before := text[..offset];
      Some((Newlines(before), Units(before[LineStart(before)..])))
  }

  function Plus(o: nat, r: Option<nat>): Option<nat> {
    if r.None? then None else Some(o + r.value)
  }

  function IndexOfNewline(s: seq<Byte>): (i: nat)
    ensures i <= |s|
  {
    if s == [] || s[0] == NEWLINE then 0 else 1 + IndexOfNewline(s[1..])
  }

  /** The start of line `line`, if the text has that many lines. */
  function SkipLines(s: seq<Byte>, line: nat): (r: Option<nat>)
    ensures r.Some? ==> r.value <= |s|
    decreases line
  {
    if line == 0 then Some(0)
    else
      var i := IndexOfNewline(s);
      if i == |s| then None
      else Plus(i + 1, SkipLines(s[i + 1..], line - 1))
  }

  /** The first rune boundary of a line at which `column` units have gone by. */
  function Scan(s: seq<Byte>, units: nat, column: nat): (r: Option<nat>)
    ensures r.Some? ==> r.value <= |s|
    decreases |s|
  {
    if units >= column then Some(0)
    else if s == [] then None
    else
      var d := DecodeRune(s);
      if d.0 == NEWLINE then None else Plus(d.1, Scan(s[d.1..], units + UnitsOf(d.0), column))
  }

  function ByteOffsetOf(text: seq<Byte>, line: int, column: int): Option<nat> {
    if line < 0 || column < 0 then None
    else
      var start := SkipLines(text, line);
      if start.None? then None else Plus(start.value, Scan(text[start.value..], 0, column))
  }

  // ----- positions in a valid text, given by its runes

  function RuneUnits(rs: seq<Rune>): nat {
    if rs == [] then 0 else UnitsOf(rs[0]) + RuneUnits(rs[1..])
  }

  /** The UTF-16 code units of a rune (section 2.1 of RFC 2781): itself, or a high and a low surrogate. */
  ghost function Utf16(r: Rune): seq<int> {
    if r < 0x10000 then [r] else [0xD800 + (r - 0x10000) / 0x400, 0xDC00 + (r - 0x10000) % 0x400]
  }

  ghost function Utf16Text(rs: seq<Rune>): seq<int> {
    if rs == [] then [] else Utf16(rs[0]) + Utf16Text(rs[1..])
  }

  lemma {:induction false} UnitsAreUtf16(rs: seq<Rune>)
    ensures RuneUnits(rs) == |Utf16Text(rs)|
  {
    if rs != [] { UnitsAreUtf16(rs[1..]); }
  }

  /** The byte offset of boundary `k`. */
  ghost function Offset(codes: seq<seq<Byte>>, k: nat): nat
    requires k <= |codes|
  {
    |Flat(codes[..k])|
  }

  ghost function Line(rs: seq<Rune>, k: nat): nat
    requires k <= |rs|
  {
    Newlines(rs[..k])
  }

  /** The first boundary of the line of boundary `k`. */
  ghost function Start(rs: seq<Rune>, k: nat): (s: nat)
    requires k <= |rs|
    ensures s <= k
  {
    if k == 0 || rs[k - 1] == NEWLINE then k else Start(rs, k - 1)
  }

  ghost function Column(rs: seq<Rune>, k: nat): nat
    requires k <= |rs|
  {
    RuneUnits(rs[Start(rs, k)..k])
  }

  /** `s` starts the line that goes on up to `k`. */
  ghost predicate OneLine(rs: seq<int>, s: nat, k: nat) {
    s <= k <= |rs| && (s > 0 ==> rs[s - 1] == NEWLINE) && forall i :: s <= i < k ==> rs[i] != NEWLINE
  }

  lemma {:induction false} StartIs(rs: seq<Rune>, s: nat, k: nat)
    requires k <= |rs|
    ensures OneLine(rs, s, k) <==> s == Start(rs, k)
  {
    if k > 0 && rs[k - 1] != NEWLINE { StartIs(rs, s, k - 1); }
  }

  lemma {:induction false} LineStartIs(b: seq<Byte>, i: nat)
    requires OneLine(b, i, |b|)
    ensures LineStart(b) == i
  {
    if b != [] && b[|b| - 1] != NEWLINE { LineStartIs(b[..|b| - 1], i); }
  }

  lemma {:induction false} IndexIsFirst(s: seq<Byte>)
    ensures
      var i := IndexOfNewline(s);
      (i < |s| ==> s[i] == NEWLINE) && forall j :: 0 <= j < i ==> s[j] != NEWLINE
  {
    if s != [] && s[0] != NEWLINE {
      IndexIsFirst(s[1..]);
      var i := IndexOfNewline(s[1..]);
      forall j | 0 <= j < i + 1 ensures s[j] != NEWLINE { if j > 0 { assert s[1..][j - 1] == s[j]; } }
    }
  }

  /** Without a newline in between, the count of newlines stays. */
  lemma CountStays(s: seq<int>, i: nat, k: nat)
    requires i <= k <= |s| && forall j :: i <= j < k ==> s[j] != NEWLINE
    ensures Newlines(s[..k]) == Newlines(s[..i])
  {
    assert s[..k] == s[..i] + s[i..k];
    NewlinesConcat(s[..i], s[i..k]);
    NoNewlines(s[i..k]);
  }

  // ----- bytes follow runes

  lemma {:induction false} UnitsEncoded(rs: seq<Rune>, codes: seq<seq<Byte>>)
    requires Codes(rs, codes)
    ensures Units(Flat(codes)) == RuneUnits(rs)
  {
    if rs != [] {
      CodesHead(rs, codes);
      CodeDecodes(rs[0], codes[0], Flat(codes[1..]));
      UnitsEncoded(rs[1..], codes[1..]);
      assert Flat(codes)[|codes[0]|..] == Flat(codes[1..]);
    }
  }

  lemma SplitFlat(codes: seq<seq<Byte>>, k: nat)
    requires k <= |codes|
    ensures Offset(codes, k) <= |Flat(codes)|
    ensures Flat(codes)[..Offset(codes, k)] == Flat(codes[..k]) && Flat(codes)[Offset(codes, k)..] == Flat(codes[k..])
  {
    assert codes == codes[..k] + codes[k..];
    FlatConcat(codes[..k], codes[k..]);
  }

  /** A line of runes starts where its bytes start. */
  lemma StartEncoded(rs: seq<Rune>, codes: seq<seq<Byte>>, s: nat, k: nat)
    requires Codes(rs, codes) && OneLine(rs, s, k)
    ensures LineStart(Flat(codes[..k])) == Offset(codes, s) <= Offset(codes, k)
    ensures Flat(codes[..k])[Offset(codes, s)..] == Flat(codes[s..k])
  {
    var a, b := Flat(codes[..s]), Flat(codes[s..k]);
    assert Flat(codes[..k]) == a + b by {
      assert codes[..k] == codes[..s] + codes[s..k];
      FlatConcat(codes[..s], codes[s..k]);
    }
    assert Newlines(b) == 0 by {
      CodesSlice(rs, codes, s, k);
      NewlineBytes(rs[s..k], codes[s..k]);
      NoNewlines(rs[s..k]);
    }
    if s > 0 { LastByteNewline(rs, codes, s); }
    GluedLine(a, b);
  }

  lemma GluedLine(a: seq<Byte>, b: seq<Byte>)
    requires Newlines(b) == 0 && (a != [] ==> a[|a| - 1] == NEWLINE)
    ensures LineStart(a + b) == |a| && (a + b)[|a|..] == b
  {
    NoNewlines(b);
    LineStartIs(a + b, |a|);
  }

  lemma LastByteNewline(rs: seq<Rune>, codes: seq<seq<Byte>>, s: nat)
    requires Codes(rs, codes) && 0 < s <= |rs| && rs[s - 1] == NEWLINE
    ensures Offset(codes, s) > 0 && Flat(codes[..s])[Offset(codes, s) - 1] == NEWLINE
  {
    assert IsCode(rs[s - 1], codes[s - 1]);
    CodeNewline(rs[s - 1], codes[s - 1]);
    assert codes[..s] == codes[..s - 1] + [codes[s - 1]];
    FlatConcat(codes[..s - 1], [codes[s - 1]]);
    FlatOne(codes[s - 1]);
  }

  /** At a rune boundary of a valid text, the position is the line and column of the boundary. */
  lemma PositionAtBoundary(rs: seq<Rune>, codes: seq<seq<Byte>>, k: nat)
    requires Codes(rs, codes) && k <= |rs|
    ensures Utf16Position(Flat(codes), Offset(codes, k)) == Some((Line(rs, k), Column(rs, k)))
    ensures Column(rs, k) == |Utf16Text(rs[Start(rs, k)..k])|
  {
    UnitsAreUtf16(rs[Start(rs, k)..k]);
    var s := Start(rs, k);
    StartIs(rs, s, k);
    SplitFlat(codes, k);
    StartEncoded(rs, codes, s, k);
    CodesSlice(rs, codes, 0, k);
    assert rs[0..k] == rs[..k] && codes[0..k] == codes[..k];
    NewlineBytes(rs[..k], codes[..k]);
    CodesSlice(rs, codes, s, k);
    UnitsEncoded(rs[s..k], codes[s..k]);
  }

  // ----- skipping to a line

  ghost predicate StartsLine(s: seq<Byte>, line: nat, o: nat) {
    o <= |s| && Newlines(s[..o]) == line && (o > 0 ==> s[o - 1] == NEWLINE)
  }

  lemma CountAfter(s: seq<Byte>, i: nat, o: nat)
    requires i == IndexOfNewline(s) && i < o <= |s|
    ensures Newlines(s[..o]) == 1 + Newlines(s[i + 1..][..o - i - 1])
  {
    NoNewlineBefore(s, i);
    IndexIsFirst(s);
    var first, rest := s[..i + 1], s[i + 1..][..o - i - 1];
    assert s[..o] == first + rest;
    NewlinesConcat(first, rest);
    assert Newlines(first) == 1 by { assert first[..i] == s[..i]; }
  }

  lemma NoNewlineBefore(s: seq<Byte>, o: nat)
    requires o <= IndexOfNewline(s)
    ensures Newlines(s[..o]) == 0
  {
    IndexIsFirst(s);
    CountStays(s, 0, o);
    assert s[..0] == [];
  }

  lemma StartsLineZero(s: seq<Byte>, o: nat)
    ensures StartsLine(s, 0, o) <==> o == 0
  {
    if o <= |s| { NoNewlines(s[..o]); }
  }

  /** Past the first newline, lines are those of the rest. */
  lemma StartsLineAfter(s: seq<Byte>, i: nat, line: nat, o: nat)
    requires line > 0 && i == IndexOfNewline(s) && i < o <= |s|
    ensures StartsLine(s, line, o) <==> StartsLine(s[i + 1..], line - 1, o - i - 1)
  {
    CountAfter(s, i, o);
    IndexIsFirst(s);
    assert o > i + 1 ==> s[i + 1..][o - i - 2] == s[o - 1];
  }

  lemma SkipOn(s: seq<Byte>, i: nat, line: nat)
    requires line > 0 && i == IndexOfNewline(s)
    ensures SkipLines(s, line) == if i == |s| then None else Plus(i + 1, SkipLines(s[i + 1..], line - 1))
  {
  }

  lemma SkipInside(s: seq<Byte>, i: nat, line: nat, o: nat)
    requires line > 0 && i == IndexOfNewline(s) && i < o <= |s|
    requires SkipLines(s[i + 1..], line - 1) == Some(o - i - 1) <==> StartsLine(s[i + 1..], line - 1, o - i - 1)
    ensures SkipLines(s, line) == Some(o) <==> StartsLine(s, line, o)
  {
    StartsLineAfter(s, i, line, o);
    var rest := SkipLines(s[i + 1..], line - 1);
    assert SkipLines(s, line) == Plus(i + 1, rest) by { SkipOn(s, i, line); }
  }

  lemma SkipOutside(s: seq<Byte>, i: nat, line: nat, o: nat)
    requires line > 0 && i == IndexOfNewline(s) && !(i < o <= |s|)
    ensures SkipLines(s, line) != Some(o) && !StartsLine(s, line, o)
  {
    SkipOn(s, i, line);
    if o <= i { NoNewlineBefore(s, o); }
  }

  lemma {:induction false} SkipLinesExactly(s: seq<Byte>, line: nat, o: nat)
    ensures SkipLines(s, line) == Some(o) <==> StartsLine(s, line, o)
    decreases line
  {
    if line == 0 {
      StartsLineZero(s, o);
    } else {
      var i := IndexOfNewline(s);
      if i < o <= |s| {
        SkipLinesExactly(s[i + 1..], line - 1, o - i - 1);
        SkipInside(s, i, line, o);
      } else {
        SkipOutside(s, i, line, o);
      }
    }
  }

  // ----- scanning a line

  /** Scanning on runes instead of bytes. */
  function Reach(rs: seq<Rune>, units: nat, column: nat): (r: Option<nat>)
    ensures r.Some? ==> r.value <= |rs|
    decreases |rs|
  {
    if units >= column then Some(0)
    else if rs == [] || rs[0] == NEWLINE then None
    else Plus(1, Reach(rs[1..], units + UnitsOf(rs[0]), column))
  }

  lemma ScanNext(c: seq<Byte>, rest: seq<Byte>, r: Rune, units: nat, column: nat)
    requires 1 <= |c| && DecodeRune(c + rest) == (r, |c|) && units < column
    ensures
      Scan(c + rest, units, column) == if r == NEWLINE then None else Plus(|c|, Scan(rest, units + UnitsOf(r), column))
  {
    assert (c + rest)[|c|..] == rest;
  }

  lemma ScanHead(rs: seq<Rune>, codes: seq<seq<Byte>>, units: nat, column: nat)
    requires Codes(rs, codes) && rs != [] && units < column
    ensures Codes(rs[1..], codes[1..])
    ensures
      Scan(Flat(codes), units, column) ==
      if rs[0] == NEWLINE then None else Plus(|codes[0]|, Scan(Flat(codes[1..]), units + UnitsOf(rs[0]), column))
  {
    CodesHead(rs, codes);
    CodeDecodes(rs[0], codes[0], Flat(codes[1..]));
    ScanNext(codes[0], Flat(codes[1..]), rs[0], units, column);
  }

  ghost function OffsetOf(codes: seq<seq<Byte>>, r: Option<nat>): Option<nat>
    requires r.Some? ==> r.value <= |codes|
  {
    if r.None? then None else Some(Offset(codes, r.value))
  }

  lemma OffsetOfNext(codes: seq<seq<Byte>>, r: Option<nat>)
    requires codes != [] && (r.Some? ==> r.value < |codes|)
    ensures Plus(|codes[0]|, OffsetOf(codes[1..], r)) == OffsetOf(codes, Plus(1, r))
  {
    if r.Some? { OffsetNext(codes, r.value); }
  }

  /** Scanning the bytes finds the boundary that counting the runes reaches. */
  lemma {:induction false} ScanEncoded(rs: seq<Rune>, codes: seq<seq<Byte>>, units: nat, column: nat)
    requires Codes(rs, codes)
    ensures Scan(Flat(codes), units, column) == OffsetOf(codes, Reach(rs, units, column))
    decreases |rs|
  {
    if units >= column {
      assert codes[..0] == [];
    } else if rs != [] {
      ScanHead(rs, codes, units, column);
      if rs[0] != NEWLINE {
        ScanEncoded(rs[1..], codes[1..], units + UnitsOf(rs[0]), column);
        OffsetOfNext(codes, Reach(rs[1..], units + UnitsOf(rs[0]), column));
      }
    }
  }

  lemma OffsetNext(codes: seq<seq<Byte>>, j: nat)
    requires j < |codes|
    ensures Offset(codes, 1 + j) == |codes[0]| + Offset(codes[1..], j)
  {
    assert codes[..1 + j][1..] == codes[1..][..j];
  }

  /** Boundary `j` of a line is the first at which the column is reached. */
  ghost predicate FirstAt(rs: seq<Rune>, units: nat, column: nat, j: nat) {
    && j <= |rs| && NEWLINE !in rs[..j] && units + RuneUnits(rs[..j]) >= column
    && (j > 0 ==> units + RuneUnits(rs[..j - 1]) < column)
  }

  lemma {:induction false} ReachExactly(rs: seq<Rune>, units: nat, column: nat, j: nat)
    ensures Reach(rs, units, column) == Some(j) <==> FirstAt(rs, units, column, j)
    decreases |rs|
  {
    if units >= column {
      if 0 < j <= |rs| { assert units + RuneUnits(rs[..j - 1]) >= column; }
    } else if 0 < j <= |rs| {
      ReachExactly(rs[1..], units + UnitsOf(rs[0]), column, j - 1);
      assert rs[..j][1..] == rs[1..][..j - 1] && rs[..j] == [rs[0]] + rs[1..][..j - 1];
      if j > 1 { assert rs[..j - 1][1..] == rs[1..][..j - 2]; }
    } else if rs != [] && rs[0] != NEWLINE {
      assert j == 0 ==> !FirstAt(rs, units, column, j);
    }
  }

  // ----- the inverse

  /** Boundary `k` is on the line, and the first of it at which the column is reached. */
  ghost predicate Located(rs: seq<Rune>, line: nat, column: nat, k: nat) {
    && k <= |rs| && Line(rs, k) == line && Column(rs, k) >= column
    && (k > Start(rs, k) ==> Column(rs, k - 1) < column)
  }

  /** Being located is being the first boundary of the line's runes to reach the column. */
  lemma LocatedInLine(rs: seq<Rune>, line: nat, column: nat, s: nat, k: nat)
    requires OneLine(rs, s, k) && Line(rs, s) == line
    ensures Located(rs, line, column, k) <==> FirstAt(rs[s..], 0, column, k - s)
  {
    StartIs(rs, s, k);
    CountStays(rs, s, k);
    assert rs[s..][..k - s] == rs[s..k];
    assert NEWLINE !in rs[s..k];
    if k > s {
      StartIs(rs, s, k - 1);
      assert rs[s..][..k - s - 1] == rs[s..k - 1];
    }
  }

  lemma OffsetSum(codes: seq<seq<Byte>>, s: nat, j: nat)
    requires s <= |codes| && j <= |codes| - s
    ensures Offset(codes, s) + Offset(codes[s..], j) == Offset(codes, s + j)
  {
    assert codes[..s + j] == codes[..s] + codes[s..][..j];
    FlatConcat(codes[..s], codes[s..][..j]);
  }

  lemma {:induction false} NewlineBoundary(rs: seq<Rune>, codes: seq<seq<Byte>>, o: nat)
    requires Codes(rs, codes) && 0 < o <= |Flat(codes)| && Flat(codes)[o - 1] == NEWLINE
    ensures exists s :: 0 < s <= |rs| && Offset(codes, s) == o && rs[s - 1] == NEWLINE
    decreases |rs|
  {
    CodesHead(rs, codes);
    var w := |codes[0]|;
    if o <= w {
      CodeNewline(rs[0], codes[0]);
      assert Flat(codes)[o - 1] == codes[0][o - 1];
      OffsetNext(codes, 0);
      assert codes[1..][..0] == [];
      assert Offset(codes, 1) == o && rs[0] == NEWLINE;
    } else {
      assert Flat(codes)[o - 1] == Flat(codes[1..])[o - w - 1];
      NewlineBoundary(rs[1..], codes[1..], o - w);
      var s :| 0 < s <= |rs[1..]| && Offset(codes[1..], s) == o - w && rs[1..][s - 1] == NEWLINE;
      OffsetNext(codes, s);
      assert Offset(codes, s + 1) == o && rs[s] == NEWLINE;
    }
  }

  /** A line of the bytes starts at a boundary of the runes. */
  lemma LineBoundary(rs: seq<Rune>, codes: seq<seq<Byte>>, line: nat, o: nat) returns (s: nat)
    requires Codes(rs, codes) && StartsLine(Flat(codes), line, o)
    ensures s <= |rs| && Offset(codes, s) == o && Line(rs, s) == line && (s > 0 ==> rs[s - 1] == NEWLINE)
  {
    if o == 0 {
      s := 0;
      assert codes[..0] == [];
    } else {
      NewlineBoundary(rs, codes, o);
      s :| 0 < s <= |rs| && Offset(codes, s) == o && rs[s - 1] == NEWLINE;
    }
    SplitFlat(codes, s);
    LineOfOffset(rs, codes, s);
  }

  lemma LineOfOffset(rs: seq<Rune>, codes: seq<seq<Byte>>, s: nat)
    requires Codes(rs, codes) && s <= |rs|
    ensures Newlines(Flat(codes[..s])) == Line(rs, s)
  {
    CodesSlice(rs, codes, 0, s);
    assert rs[0..s] == rs[..s] && codes[0..s] == codes[..s];
    NewlineBytes(rs[..s], codes[..s]);
  }

  /** A boundary that starts a line starts it in the bytes. */
  lemma BoundaryStartsLine(rs: seq<Rune>, codes: seq<seq<Byte>>, s: nat)
    requires Codes(rs, codes) && s <= |rs| && (s > 0 ==> rs[s - 1] == NEWLINE)
    ensures StartsLine(Flat(codes), Line(rs, s), Offset(codes, s))
  {
    SplitFlat(codes, s);
    LineOfOffset(rs, codes, s);
    if s > 0 {
      LastByteNewline(rs, codes, s);
      assert Flat(codes)[..Offset(codes, s)][Offset(codes, s) - 1] == NEWLINE;
    }
  }

  /** The offset on a line whose runes, and those after them, are `tail`. */
  lemma OffsetInLine(
    text: seq<Byte>, line: nat, column: nat, start: nat, tail: seq<Rune>, codes: seq<seq<Byte>>)
    requires StartsLine(text, line, start) && Codes(tail, codes) && text[start..] == Flat(codes)
    ensures ByteOffsetOf(text, line, column) == Plus(start, OffsetOf(codes, Reach(tail, 0, column)))
  {
    SkipLinesExactly(text, line, start);
    ScanEncoded(tail, codes, 0, column);
  }

  lemma OffsetOfSum(codes: seq<seq<Byte>>, s: nat, r: Option<nat>)
    requires s <= |codes| && (r.Some? ==> r.value <= |codes| - s)
    ensures Plus(Offset(codes, s), OffsetOf(codes[s..], r)) == OffsetOf(codes, Plus(s, r))
  {
    if r.Some? { OffsetSum(codes, s, r.value); }
  }

  lemma TailAt(rs: seq<Rune>, codes: seq<seq<Byte>>, s: nat)
    requires Codes(rs, codes) && s <= |rs|
    ensures Codes(rs[s..], codes[s..]) && Offset(codes, s) <= |Flat(codes)|
    ensures Flat(codes)[Offset(codes, s)..] == Flat(codes[s..])
  {
    CodesFrom(rs, codes, s);
    SplitFlat(codes, s);
  }

  /** The offset on a line is that of the first boundary to reach the column. */
  lemma OffsetFromBoundary(rs: seq<Rune>, codes: seq<seq<Byte>>, s: nat, column: nat)
    requires Codes(rs, codes) && s <= |rs| && (s > 0 ==> rs[s - 1] == NEWLINE)
    ensures ByteOffsetOf(Flat(codes), Line(rs, s), column) == OffsetOf(codes, Plus(s, Reach(rs[s..], 0, column)))
  {
    var text, start, line := Flat(codes), Offset(codes, s), Line(rs, s);
    BoundaryStartsLine(rs, codes, s);
    TailAt(rs, codes, s);
    OffsetInLine(text, line, column, start, rs[s..], codes[s..]);
    OffsetOfSum(codes, s, Reach(rs[s..], 0, column));
  }

  lemma LocatedIsFound(rs: seq<Rune>, codes: seq<seq<Byte>>, line: nat, column: nat, k: nat)
    requires Codes(rs, codes) && Located(rs, line, column, k)
    ensures ByteOffsetOf(Flat(codes), line, column) == Some(Offset(codes, k))
  {
    var s := LocatedReached(rs, line, column, k);
    OffsetFromBoundary(rs, codes, s, column);
  }

  lemma LocatedReached(rs: seq<Rune>, line: nat, column: nat, k: nat) returns (s: nat)
    requires Located(rs, line, column, k)
    ensures s <= k && (s > 0 ==> rs[s - 1] == NEWLINE) && Line(rs, s) == line
    ensures Reach(rs[s..], 0, column) == Some(k - s)
  {
    s := Start(rs, k);
    StartIs(rs, s, k);
    CountStays(rs, s, k);
    LocatedInLine(rs, line, column, s, k);
    ReachExactly(rs[s..], 0, column, k - s);
  }

  lemma FoundStart(rs: seq<Rune>, codes: seq<seq<Byte>>, line: nat, column: nat) returns (s: nat)
    requires Codes(rs, codes) && ByteOffsetOf(Flat(codes), line, column).Some?
    ensures s <= |rs| && Line(rs, s) == line && (s > 0 ==> rs[s - 1] == NEWLINE)
  {
    var start := SkipLines(Flat(codes), line).value;
    SkipLinesExactly(Flat(codes), line, start);
    s := LineBoundary(rs, codes, line, start);
  }

  lemma FoundIsLocated(rs: seq<Rune>, codes: seq<seq<Byte>>, line: nat, column: nat, o: nat) returns (k: nat)
    requires Codes(rs, codes) && ByteOffsetOf(Flat(codes), line, column) == Some(o)
    ensures Located(rs, line, column, k) && o == Offset(codes, k)
  {
    var s := FoundStart(rs, codes, line, column);
    OffsetFromBoundary(rs, codes, s, column);
    var j := Reach(rs[s..], 0, column).value;
    ReachExactly(rs[s..], 0, column, j);
    k := s + j;
    forall i | s <= i < k ensures rs[i] != NEWLINE { assert rs[i] == rs[s..][..j][i - s]; }
    LocatedInLine(rs, line, column, s, k);
  }

  /** On a valid text a position has an offset exactly when the line has a boundary that reaches its column; it is
      the first. */
  lemma OffsetExactly(rs: seq<Rune>, codes: seq<seq<Byte>>, line: nat, column: nat, o: nat)
    requires Codes(rs, codes)
    ensures
      ByteOffsetOf(Flat(codes), line, column) == Some(o) <==>
      exists k :: Located(rs, line, column, k) && o == Offset(codes, k)
  {
    if ByteOffsetOf(Flat(codes), line, column) == Some(o) {
      var k := FoundIsLocated(rs, codes, line, column, o);
    }
    forall k | Located(rs, line, column, k) ensures ByteOffsetOf(Flat(codes), line, column) == Some(Offset(codes, k)) {
      LocatedIsFound(rs, codes, line, column, k);
    }
  }

  lemma ColumnNext(rs: seq<Rune>, k: nat)
    requires k < |rs| && rs[k] != NEWLINE
    ensures Start(rs, k + 1) == Start(rs, k) && Line(rs, k + 1) == Line(rs, k)
    ensures Column(rs, k + 1) == Column(rs, k) + UnitsOf(rs[k])
  {
    var s := Start(rs, k);
    CountStays(rs, k, k + 1);
    assert rs[s..k + 1] == rs[s..k] + [rs[k]];
    UnitsEnd(rs[s..k], rs[k]);
  }

  lemma {:induction false} UnitsEnd(rs: seq<Rune>, r: Rune)
    ensures RuneUnits(rs + [r]) == RuneUnits(rs) + UnitsOf(r)
  {
    if rs == [] {
      assert (rs + [r])[1..] == [];
    } else {
      assert (rs + [r])[1..] == rs[1..] + [r];
      UnitsEnd(rs[1..], r);
    }
  }

  lemma LocatedHere(rs: seq<Rune>, k: nat)
    requires k <= |rs|
    ensures Located(rs, Line(rs, k), Column(rs, k), k)
  {
    StartIs(rs, Start(rs, k), k);
    if k > Start(rs, k) { ColumnNext(rs, k - 1); }
  }

  /** Going to the position of a boundary and back returns to the boundary, at newlines and the end of the text too. */
  lemma BoundaryRoundTrip(rs: seq<Rune>, codes: seq<seq<Byte>>, k: nat)
    requires Codes(rs, codes) && k <= |rs|
    ensures
      var p := Utf16Position(Flat(codes), Offset(codes, k));
      p.Some? && ByteOffsetOf(Flat(codes), p.value.0, p.value.1) == Some(Offset(codes, k))
  {
    PositionAtBoundary(rs, codes, k);
    LocatedHere(rs, k);
    LocatedIsFound(rs, codes, Line(rs, k), Column(rs, k), k);
  }

  /** A column inside a surrogate pair rounds up to the boundary after it. */
  lemma InsidePairRoundsUp(rs: seq<Rune>, codes: seq<seq<Byte>>, k: nat)
    requires Codes(rs, codes) && k < |rs| && rs[k] > 0xFFFF
    ensures ByteOffsetOf(Flat(codes), Line(rs, k), Column(rs, k) + 1) == Some(Offset(codes, k + 1))
  {
    ColumnNext(rs, k);
    LocatedIsFound(rs, codes, Line(rs, k), Column(rs, k) + 1, k + 1);
  }

  // ----- as they run

  method CountUnits(s: seq<Byte>) returns (column: nat)
    ensures column == Units(s)
  {
    column := 0;
    var i := 0;
    while i < |s|
      invariant 0 <= i <= |s| && column + Units(s[i..]) == Units(s)
    {
      var d := DecodeRune(s[i..]);
      column := column + 1;
      if d.0 > 0xFFFF { column := column + 1; }
      assert s[i..][d.1..] == s[i + d.1..];
      i := i + d.1;
    }
  }

  method ToUtf16Position(text: seq<Byte>, offset: int) returns (p: Option<(nat, nat)>)
    ensures p == Utf16Position(text, offset)
  {
    if offset < 0 || offset > |text| { return None; }
    var line, lineStart, i := 0, 0, 0;
    while i < offset
      invariant 0 <= lineStart <= i <= offset
      invariant line == Newlines(text[..i]) && lineStart == LineStart(text[..i])
    {
      assert text[..i + 1] == text[..i] + [text[i]];
      if text[i] == NEWLINE {
        line := line + 1;
        lineStart := i + 1;
      }
      assert text[..i + 1][..i] == text[..i];
      i := i + 1;
    }
    var column := CountUnits(text[lineStart..offset]);
    assert text[..offset][lineStart..] == text[lineStart..offset];
    p := Some((line, column));
  }

  /** One line further on the way to `goal`. */
  lemma SkippedOne(goal: Option<nat>, text: seq<Byte>, offset: nat, left: nat, next: nat)
    requires offset <= |text| && left > 0 && goal == Plus(offset, SkipLines(text[offset..], left))
    requires next == IndexOfNewline(text[offset..])
    ensures next == |text| - offset ==> goal.None?
    ensures
      next < |text| - offset ==>
        goal == Plus(offset + next + 1, SkipLines(text[offset + next + 1..], left - 1))
  {
    SkipOn(text[offset..], next, left);
    if next < |text| - offset { assert text[offset..][next + 1..] == text[offset + next + 1..]; }
  }

  /** Past the next newline, if there is one. */
  method NextLine(text: seq<Byte>, offset: nat, ghost goal: Option<nat>, ghost left: nat) returns (after: Option<nat>)
    requires offset <= |text| && left > 0 && goal == Plus(offset, SkipLines(text[offset..], left))
    ensures after.None? ==> goal.None?
    ensures after.Some? ==> after.value <= |text| && goal == Plus(after.value, SkipLines(text[after.value..], left - 1))
  {
    var next := IndexOfNewline(text[offset..]);
    SkippedOne(goal, text, offset, left, next);
    after := if next == |text| - offset then None else Some(offset + next + 1);
  }

  method FindLine(text: seq<Byte>, line: nat) returns (r: Option<nat>)
    ensures r == SkipLines(text, line)
  {
    var offset: nat, left := 0, line;
    ghost var goal := SkipLines(text, line);
    assert text[0..] == text;
    while left > 0
      invariant offset <= |text| && 0 <= left && goal == Plus(offset, SkipLines(text[offset..], left))
    {
      var after := NextLine(text, offset, goal, left);
      if after.None? { return None; }
      offset, left := after.value, left - 1;
    }
    r := Some(offset);
  }

  /** One rune further on the way to `goal`. */
  lemma ScannedOne(goal: Option<nat>, s: seq<Byte>, i: nat, units: nat, column: nat, rune: nat, next: nat)
    requires i < |s| && units < column && goal == Plus(i, Scan(s[i..], units, column))
    requires DecodeRune(s[i..]) == (rune, next - i)
    ensures i < next <= |s|
    ensures if rune == NEWLINE then goal.None? else goal == Plus(next, Scan(s[next..], units + UnitsOf(rune), column))
  {
    assert s[i..][next - i..] == s[next..];
  }

  lemma ScanStops(goal: Option<nat>, s: seq<Byte>, i: nat, units: nat, column: nat)
    requires i <= |s| && goal == Plus(i, Scan(s[i..], units, column))
    ensures units >= column ==> goal == Some(i)
    ensures units < column && i == |s| ==> goal.None?
  {
  }

  /** One turn of the scan: an answer, or how far the next rune leads. */
  method ScanRune(s: seq<Byte>, i: nat, units: nat, column: nat, ghost goal: Option<nat>)
    returns (answer: Option<Option<nat>>, moreUnits: nat, next: nat)
    requires i < |s| && goal == Plus(i, Scan(s[i..], units, column))
    ensures answer.Some? ==> answer.value == goal
    ensures answer.None? ==> i < next <= |s| && goal == Plus(next, Scan(s[next..], moreUnits, column))
  {
    ScanStops(goal, s, i, units, column);
    if units >= column { return Some(Some(i)), units, i; }
    var d := DecodeRune(s[i..]);
    ScannedOne(goal, s, i, units, column, d.0, i + d.1);
    if d.0 == NEWLINE { return Some(None), units, i; }
    answer, moreUnits, next := None, units + UnitsOf(d.0), i + d.1;
  }

  method ScanLine(s: seq<Byte>, column: nat) returns (r: Option<nat>)
    ensures r == Scan(s, 0, column)
  {
    var units: nat, i: nat := 0, 0;
    ghost var goal := Scan(s, 0, column);
    assert s[0..] == s;
    while i < |s|
      invariant i <= |s| && goal == Plus(i, Scan(s[i..], units, column))
    {
      var answer;
      answer, units, i := ScanRune(s, i, units, column, goal);
      if answer.Some? { return answer.value; }
    }
    ScanStops(goal, s, i, units, column);
    r := if units >= column then Some(|s|) else None;
  }

  method ToByteOffset(text: seq<Byte>, line: int, column: int) returns (r: Option<nat>)
    ensures r == ByteOffsetOf(text, line, column)
  {
    if line < 0 || column < 0 { return None; }
    var start := FindLine(text, line);
    if start.None? { return None; }
    var i := ScanLine(text[start.value..], column);
    r := Plus(start.value, i);
  }
}
