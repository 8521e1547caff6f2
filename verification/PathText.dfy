/**
 Slash-separated path texts: their parts, the place they name, and Go's path.Clean.
 */
module PathText {

  type Part = string

  function ForwardSlashes(s: string): string {
    seq(|s|, i requires 0 <= i < |s| => if s[i] == '\\' then '/' else s[i])
  }

  function Split(s: string): (parts: seq<Part>)
    ensures parts != []
  {
    if s == "" then [""]
    else
      var rest := Split(s[1..]);
      if s[0] == '/' then [""] + rest else [[s[0]] + rest[0]] + rest[1..]
  }

  function Join(parts: seq<Part>): string
    requires parts != []
  {
    if |parts| == 1 then parts[0] else parts[0] + "/" + Join(parts[1..])
  }

  ghost predicate NoSlash(parts: seq<Part>) {
    forall i :: 0 <= i < |parts| ==> '/' !in parts[i]
  }

  lemma {:induction false} SplitNoSlash(s: string)
    ensures NoSlash(Split(s))
  {
    if s != "" { SplitNoSlash(s[1..]); }
  }

  /** `a` and `b` side by side: the last part of the one and the first of the other run together. */
  function Glue(a: seq<Part>, b: seq<Part>): seq<Part>
    requires a != [] && b != []
  {
    a[..|a| - 1] + [a[|a| - 1] + b[0]] + b[1..]
  }

  lemma GlueNothing(y: seq<Part>)
    requires y != []
    ensures Glue([""], y) == y
  {
    assert "" + y[0] == y[0];
  }

  lemma GlueLater(x: seq<Part>, y: seq<Part>)
    requires x != [] && y != []
    ensures [""] + Glue(x, y) == Glue([""] + x, y)
  {
  }

  lemma SplitFirst(c: char, s: string)
    ensures Split([c] + s) == if c == '/' then [""] + Split(s) else [[c] + Split(s)[0]] + Split(s)[1..]
  {
    assert ([c] + s)[1..] == s;
  }

  lemma {:induction false} SplitConcat(a: string, b: string)
    ensures Split(a + b) == Glue(Split(a), Split(b))
  {
    if a == "" {
      assert a + b == b;
      GlueNothing(Split(b));
    } else {
      assert a + b == [a[0]] + (a[1..] + b) && a == [a[0]] + a[1..];
      SplitConcat(a[1..], b);
      SplitFirst(a[0], a[1..] + b);
      SplitFirst(a[0], a[1..]);
      var x, y := Split(a[1..]), Split(b);
      if a[0] == '/' { GlueLater(x, y); } else { GlueHead([a[0]], x, y); }
    }
  }

  lemma GlueHead(c: string, x: seq<Part>, y: seq<Part>)
    requires x != [] && y != []
    ensures [c + Glue(x, y)[0]] + Glue(x, y)[1..] == Glue([c + x[0]] + x[1..], y)
  {
    if |x| == 1 {
      assert Glue(x, y)[0] == x[0] + y[0];
      assert c + (x[0] + y[0]) == (c + x[0]) + y[0];
    }
  }

  lemma SplitAtSlash(a: string, b: string)
    ensures Split(a + "/" + b) == Split(a) + Split(b)
  {
    SplitConcat(a, "/" + b);
    assert ("/" + b)[1..] == b;
    assert Split("/" + b) == [""] + Split(b);
    var x := Split(a);
    assert x[|x| - 1] + "" == x[|x| - 1];
    assert a + "/" + b == a + ("/" + b);
  }

  lemma {:induction false} SplitPlain(s: string)
    requires '/' !in s
    ensures Split(s) == [s]
  {
    if s != "" {
      SplitPlain(s[1..]);
      assert [s[0]] + s[1..] == s;
    }
  }

  lemma {:induction false} SplitJoin(parts: seq<Part>)
    requires parts != [] && NoSlash(parts)
    ensures Split(Join(parts)) == parts
  {
    SplitPlain(parts[0]);
    if |parts| > 1 {
      SplitJoin(parts[1..]);
      SplitAtSlash(parts[0], Join(parts[1..]));
      assert parts == [parts[0]] + parts[1..];
    }
  }

  // ----- the place a text names

  /** Parts that leave the place as it is. */
  predicate Idle(p: Part) {
    p == "" || p == "."
  }

  function Enter(at: seq<Part>, p: Part): seq<Part> {
    if Idle(p) then at
    else if p == ".." then (if at == [] then [] else at[..|at| - 1])
    else at + [p]
  }

  /** Walking the parts from a place, ".." going up; the root is its own parent. */
  function Walk(at: seq<Part>, parts: seq<Part>): seq<Part>
    decreases |parts|
  {
    if parts == [] then at else Walk(Enter(at, parts[0]), parts[1..])
  }

  lemma {:induction false} WalkConcat(at: seq<Part>, a: seq<Part>, b: seq<Part>)
    ensures Walk(at, a + b) == Walk(Walk(at, a), b)
    decreases |a|
  {
    if a == [] {
      assert a + b == b;
    } else {
      assert (a + b)[0] == a[0] && (a + b)[1..] == a[1..] + b;
      WalkConcat(Enter(at, a[0]), a[1..], b);
    }
  }

  lemma WalkLast(at: seq<Part>, a: seq<Part>)
    requires a != []
    ensures Walk(at, a) == Enter(Walk(at, a[..|a| - 1]), a[|a| - 1])
  {
    var last := [a[|a| - 1]];
    assert a == a[..|a| - 1] + last;
    WalkConcat(at, a[..|a| - 1], last);
    var here := Walk(at, a[..|a| - 1]);
    assert last[1..] == [];
    assert Walk(here, last) == Walk(Enter(here, last[0]), last[1..]);
  }

  /** A walk shorter than the way to the root keeps its start. */
  lemma {:induction false} WalkKeepsStart(at: seq<Part>, parts: seq<Part>)
    requires |parts| < |at|
    ensures Walk(at, parts) != [] && Walk(at, parts)[0] == at[0]
    decreases |parts|
  {
    if parts != [] { WalkKeepsStart(Enter(at, parts[0]), parts[1..]); }
  }

  // ----- path.Clean

  /** The accumulated result of cleaning, with one more part; above the start, a rooted text stops and a relative
      one climbs. */
  function CleanEnter(rooted: bool, acc: seq<Part>, p: Part): seq<Part> {
    if Idle(p) then acc
    else if p != ".." then acc + [p]
    else if acc != [] && acc[|acc| - 1] != ".." then acc[..|acc| - 1]
    else if rooted then acc
    else acc + [".."]
  }

  function CleanParts(rooted: bool, acc: seq<Part>, parts: seq<Part>): seq<Part>
    decreases |parts|
  {
    if parts == [] then acc else CleanParts(rooted, CleanEnter(rooted, acc, parts[0]), parts[1..])
  }

  predicate Rooted(s: string) {
    s != "" && s[0] == '/'
  }

  /** Go's path.Clean. */
  function Clean(s: string): string {
    var parts := CleanParts(Rooted(s), [], Split(s));
    if Rooted(s) then "/" + (if parts == [] then "" else Join(parts))
    else if parts == [] then "."
    else Join(parts)
  }

  /** The parts of a result of cleaning: none is idle, and a rooted one has no "..". */
  ghost predicate Tidy(rooted: bool, acc: seq<Part>) {
    forall i :: 0 <= i < |acc| ==> !Idle(acc[i]) && '/' !in acc[i] && (rooted ==> acc[i] != "..")
  }

  lemma {:induction false} CleanTidy(rooted: bool, acc: seq<Part>, parts: seq<Part>)
    requires Tidy(rooted, acc) && NoSlash(parts)
    ensures Tidy(rooted, CleanParts(rooted, acc, parts))
    decreases |parts|
  {
    if parts != [] { CleanTidy(rooted, CleanEnter(rooted, acc, parts[0]), parts[1..]); }
  }

  /** One cleaned part leads where the part itself leads. */
  lemma CleanEnterWalks(rooted: bool, at: seq<Part>, acc: seq<Part>, p: Part)
    requires Tidy(rooted, acc) && (rooted ==> at == [])
    ensures Walk(at, CleanEnter(rooted, acc, p)) == Enter(Walk(at, acc), p)
  {
    var next := CleanEnter(rooted, acc, p);
    if Idle(p) {
    } else if p == ".." && acc != [] && acc[|acc| - 1] != ".." {
      WalkLast(at, acc);
    } else if p == ".." && rooted {
    } else {
      WalkLast(at, next);
      assert next[..|next| - 1] == acc;
    }
  }

  /** Cleaning does not change the place a text names. */
  lemma {:induction false} CleanWalks(rooted: bool, at: seq<Part>, acc: seq<Part>, parts: seq<Part>)
    requires Tidy(rooted, acc) && NoSlash(parts) && (rooted ==> at == [])
    ensures Walk(at, CleanParts(rooted, acc, parts)) == Walk(Walk(at, acc), parts)
    decreases |parts|
  {
    if parts != [] {
      CleanEnterWalks(rooted, at, acc, parts[0]);
      CleanWalks(rooted, at, CleanEnter(rooted, acc, parts[0]), parts[1..]);
    }
  }

  lemma {:induction false} CleanConcat(rooted: bool, acc: seq<Part>, a: seq<Part>, b: seq<Part>)
    ensures CleanParts(rooted, acc, a + b) == CleanParts(rooted, CleanParts(rooted, acc, a), b)
    decreases |a|
  {
    if a == [] {
      assert a + b == b;
    } else {
      assert (a + b)[0] == a[0] && (a + b)[1..] == a[1..] + b;
      CleanConcat(rooted, CleanEnter(rooted, acc, a[0]), a[1..], b);
    }
  }

  function Busy(parts: seq<Part>): seq<Part> {
    if parts == [] then [] else (if Idle(parts[0]) then [] else [parts[0]]) + Busy(parts[1..])
  }

  /** The parts of a cleaned text, as far as walking is concerned. */
  lemma SplitClean(s: string, at: seq<Part>)
    requires Rooted(s) ==> at == []
    ensures Walk(at, Split(Clean(s))) == Walk(at, Split(s))
    ensures Rooted(Clean(s)) <==> Rooted(s)
  {
    var parts := CleanParts(Rooted(s), [], Split(s));
    SplitNoSlash(s);
    CleanTidy(Rooted(s), [], Split(s));
    CleanWalks(Rooted(s), at, [], Split(s));
    if parts == [] {
      assert Split("/") == ["", ""] by { SplitAtSlash("", ""); SplitPlain(""); }
      SplitPlain(".");
    } else {
      SplitJoin(parts);
      if Rooted(s) {
        assert Clean(s)[1..] == Join(parts);
        assert Split(Clean(s)) == [""] + parts;
      } else {
        JoinStart(parts);
      }
    }
  }

  lemma JoinStart(parts: seq<Part>)
    requires parts != [] && parts[0] != "" && '/' !in parts[0]
    ensures Join(parts) != "" && Join(parts)[0] == parts[0][0] && !Rooted(Join(parts))
  {
    assert parts[0][0] in parts[0];
  }
}
