/**
 Path texts with one star: when two of them lead to the same place whatever the star stands for.
 */
module PathPatterns {
  import opened PathText
  import opened Climbing
  import opened BaseUrl

  // ----- the star of a text

  function StarAt(p: string): (i: nat)
    ensures i <= |p|
  {
    if p == "" || p[0] == '*' then 0 else 1 + StarAt(p[1..])
  }

  lemma {:induction false} StarAtStar(p: string)
    ensures StarAt(p) < |p| <==> '*' in p
    ensures StarAt(p) < |p| ==> p[StarAt(p)] == '*'
  {
    if p != "" && p[0] != '*' { StarAtStar(p[1..]); }
  }

  /** What comes before the star, and what after. */
  function Left(p: string): string {
    p[..StarAt(p)]
  }

  function Right(p: string): string {
    if StarAt(p) < |p| then p[StarAt(p) + 1..] else ""
  }

  lemma LeftNext(c: char, p: string)
    requires c != '*'
    ensures Left([c] + p) == [c] + Left(p) && Right([c] + p) == Right(p)
  {
    assert ([c] + p)[1..] == p;
  }

  lemma {:induction false} SubstAtStar(p: string, m: string)
    requires '*' in p
    ensures StarAt(p) < |p| && Subst(p, m) == Left(p) + m + Right(p)
  {
    if p[0] != '*' {
      SubstAtStar(p[1..], m);
      assert p == [p[0]] + p[1..];
      LeftNext(p[0], p[1..]);
      OneMore(p[0], Left(p[1..]), m, Right(p[1..]));
    } else {
      assert Left(p) + m + Right(p) == m + p[1..];
    }
  }

  lemma OneMore(c: char, a: string, b: string, d: string)
    ensures [c] + (a + b + d) == [c] + a + b + d
  {
  }

  lemma {:induction false} SubstNothing(s: string, m: string)
    requires '*' !in s
    ensures Subst(s, m) == s
  {
    if s != "" { SubstNothing(s[1..], m); }
  }

  lemma HalvesHaveNoSlash(p: Part)
    requires '/' !in p
    ensures '/' !in Left(p) && '/' !in Right(p)
  {
  }

  // ----- the form of a text

  /** The components of a text: without a star, or with what is around it. */
  datatype Form =
    | Fixed(parts: seq<Part>)
    | Open(front: seq<Part>, left: string, right: string, tail: seq<Part>)

  function FormOf(d: seq<Part>): Form {
    var i := StarPart(d);
    if i == |d| then Fixed(d) else Open(d[..i], Left(d[i]), Right(d[i]), d[i + 1..])
  }

  ghost predicate Proper(f: Form) {
    match f
    case Fixed(parts) => NoSlash(parts)
    case Open(front, left, right, tail) => NoSlash(front) && '/' !in left && '/' !in right && NoSlash(tail)
  }

  lemma FormIsProper(d: seq<Part>)
    requires NoSlash(d)
    ensures Proper(FormOf(d))
  {
    var i := StarPart(d);
    if i < |d| { HalvesHaveNoSlash(d[i]); }
  }

  /** Where a text leads from `at` when its star stands for `m`. */
  function Lead(at: seq<Part>, f: Form, m: string): seq<Part> {
    match f
    case Fixed(parts) => Walk(at, parts)
    case Open(front, left, right, tail) => Walk(Walk(Walk(at, front), Split(left + m + right)), tail)
  }

  lemma LeadIs(at: seq<Part>, d: seq<Part>, m: string)
    ensures Walk(at, SubstParts(d, m)) == Lead(at, FormOf(d), m)
  {
    var i := StarPart(d);
    StarPartIsFirst(d);
    if i == |d| {
      assert d[..|d|] == d;
      SubstStarless(d, m);
    } else {
      assert d == d[..i] + ([d[i]] + d[i + 1..]);
      SubstPartsAfter(d[..i], [d[i]] + d[i + 1..], m);
      SubstFirst(d[i], d[i + 1..], m);
      SubstAtStar(d[i], m);
      var mid := Split(Left(d[i]) + m + Right(d[i]));
      WalkConcat(at, d[..i], mid + d[i + 1..]);
      WalkConcat(Walk(at, d[..i]), mid, d[i + 1..]);
    }
  }

  // ----- the condition

  /** Never idle and never "..", whatever is put before it. */
  predicate Solid(y: string) {
    y != "" && y != "." && y != ".."
  }

  /** The two go on alike from the star: the text right behind the star does not matter if it is always left again. */
  predicate SameAfter(f: Form, g: Form)
    requires f.Open? && g.Open?
  {
    && f.left == g.left && Cleaned(f.tail) == Cleaned(g.tail)
    && (f.right == g.right || (Climbs(f.tail) > 0 && Solid(f.right) && Solid(g.right)))
  }

  /** From `at` the two lead to the same star and go on alike, or both have no star and lead to one place. */
  predicate SameFrom(at: seq<Part>, f: Form, g: Form) {
    || (f.Fixed? && g.Fixed? && Walk(at, f.parts) == Walk(at, g.parts))
    || (f.Open? && g.Open? && Walk(at, f.front) == Walk(at, g.front) && SameAfter(f, g))
  }

  ghost predicate Agree(at: seq<Part>, f: Form, g: Form, m: string) {
    Lead(at, f, m) == Lead(at, g, m)
  }

  // ----- it is enough

  lemma SolidIsPlain(u: string, y: string)
    requires Solid(y)
    ensures Plain(u + y)
  {
    var p := u + y;
    if |p| <= 2 {
      if |y| == 1 { assert p[|p| - 1] == y[0]; }
      if |y| == 2 { assert u == "" && p == y; }
    }
  }

  /** The last part of a text is its end and what is put behind it. */
  lemma SplitThenMore(s: string, y: string)
    requires '/' !in y
    ensures
      var parts := Split(s);
      Split(s + y) == parts[..|parts| - 1] + [parts[|parts| - 1] + y]
  {
    SplitConcat(s, y);
    SplitPlain(y);
  }

  lemma WalkOneMore(at: seq<Part>, parts: seq<Part>, p: Part)
    ensures Walk(at, parts + [p]) == Enter(Walk(at, parts), p)
  {
    WalkConcat(at, parts, [p]);
    assert [p][1..] == [];
  }

  lemma LeftAgain(at: seq<Part>, p: Part, q: Part, tail: seq<Part>)
    requires Plain(p) && Plain(q) && NoSlash(tail) && Climbs(tail) > 0
    ensures Walk(Enter(at, p), tail) == Walk(Enter(at, q), tail)
  {
    WalkShape(at + [p], tail);
    WalkShape(at + [q], tail);
    var n := Climbs(tail);
    if |at| + 1 > n { assert (at + [p])[..|at| + 1 - n] == (at + [q])[..|at| + 1 - n]; }
  }

  lemma SolidEnds(at: seq<Part>, s: string, y: string, z: string, tail: seq<Part>)
    requires '/' !in y && '/' !in z && Solid(y) && Solid(z) && NoSlash(tail) && Climbs(tail) > 0
    ensures Walk(Walk(at, Split(s + y)), tail) == Walk(Walk(at, Split(s + z)), tail)
  {
    var parts := Split(s);
    var init, u := parts[..|parts| - 1], parts[|parts| - 1];
    SplitThenMore(s, y);
    SplitThenMore(s, z);
    WalkOneMore(at, init, u + y);
    WalkOneMore(at, init, u + z);
    SolidIsPlain(u, y);
    SolidIsPlain(u, z);
    LeftAgain(Walk(at, init), u + y, u + z, tail);
  }

  lemma CleanedWalksAlike(at: seq<Part>, a: seq<Part>, b: seq<Part>)
    requires NoSlash(a) && NoSlash(b) && Cleaned(a) == Cleaned(b)
    ensures Walk(at, a) == Walk(at, b)
  {
    WalkShape(at, a);
    WalkShape(at, b);
  }

  lemma SameFromAgrees(at: seq<Part>, f: Form, g: Form, m: string)
    requires Proper(f) && Proper(g) && SameFrom(at, f, g)
    ensures Agree(at, f, g, m)
  {
    if f.Open? {
      var here := Walk(at, f.front);
      if f.right != g.right { SolidEnds(here, f.left + m, f.right, g.right, f.tail); }
      CleanedWalksAlike(Walk(here, Split(f.left + m + g.right)), f.tail, g.tail);
    }
  }

  // ----- marks: a match that shows where it is

  /** `k` underscores. */
  function Run(k: nat): (run: string)
    ensures |run| == k && forall i :: 0 <= i < k ==> run[i] == '_'
  {
    if k == 0 then "" else "_" + Run(k - 1)
  }

  /** `n` parts of `k` underscores. */
  function Marks(k: nat, n: nat): string {
    if n <= 1 then Run(k) else Run(k) + "/" + Marks(k, n - 1)
  }

  /** The parts of such a match between two texts. */
  function MarkedParts(x: string, y: string, k: nat, n: nat): seq<Part> {
    seq(n, i => (if i == 0 then x else "") + Run(k) + (if i == n - 1 then y else ""))
  }

  lemma {:induction false} MarksSplit(x: string, y: string, k: nat, n: nat)
    requires '/' !in x && '/' !in y && n > 0
    ensures Split(x + Marks(k, n) + y) == MarkedParts(x, y, k, n)
    decreases n
  {
    var run := Run(k);
    if n == 1 {
      SplitPlain(x + run + y);
    } else {
      assert x + Marks(k, n) + y == (x + run) + "/" + ("" + Marks(k, n - 1) + y);
      SplitAtSlash(x + run, "" + Marks(k, n - 1) + y);
      SplitPlain(x + run);
      MarksSplit("", y, k, n - 1);
      MarkedNext(x, y, k, n);
    }
  }

  lemma MarkedNext(x: string, y: string, k: nat, n: nat)
    requires n > 1
    ensures [x + Run(k)] + MarkedParts("", y, k, n - 1) == MarkedParts(x, y, k, n)
  {
    assert x + Run(k) + "" == x + Run(k);
    assert "" + Run(k) == Run(k);
  }

  predicate Long(p: Part, k: nat) {
    |p| >= k
  }

  lemma MarkedArePlain(x: string, y: string, k: nat, n: nat)
    requires k > 2
    ensures AllPlain(MarkedParts(x, y, k, n)) && forall i :: 0 <= i < n ==> Long(MarkedParts(x, y, k, n)[i], k)
  {
  }

  /** Parts that lead to a star, marks for the star, and what is left of them and follows after the rest. */
  ghost predicate ShowsMarks(r: seq<Part>, a: seq<Part>, x: string, y: string, tail: seq<Part>, k: nat, n: nat) {
    n > Climbs(tail) && r == a + MarkedParts(x, y, k, n)[..n - Climbs(tail)] + Descent(tail)
  }

  /** Where a text leads with its star replaced by more marks than it climbs after it. */
  lemma MarkedLead(at: seq<Part>, f: Form, k: nat, n: nat)
    requires f.Open? && Proper(f) && k > 2 && n > Climbs(f.tail)
    ensures ShowsMarks(Lead(at, f, Marks(k, n)), Walk(at, f.front), f.left, f.right, f.tail, k, n)
  {
    var here, marks, c := Walk(at, f.front), MarkedParts(f.left, f.right, k, n), Climbs(f.tail);
    MarksSplit(f.left, f.right, k, n);
    MarkedArePlain(f.left, f.right, k, n);
    WalkPlain(here, marks);
    WalkShape(here + marks, f.tail);
    AboveMarks(here, marks, c);
  }

  lemma AboveMarks(here: seq<Part>, marks: seq<Part>, c: nat)
    requires c < |marks|
    ensures Above(here + marks, c) == here + marks[..|marks| - c]
  {
  }

  ghost predicate AllShort(parts: seq<Part>, k: nat) {
    forall i :: 0 <= i < |parts| ==> |parts[i]| < k
  }

  function Bound(parts: seq<Part>): (k: nat)
    ensures AllShort(parts, k)
  {
    if parts == [] then 3
    else
      var k := Bound(parts[1..]);
      var m := if |parts[0]| < k then k else |parts[0]| + 1;
      assert forall i :: 1 <= i < |parts| ==> parts[i] == parts[1..][i - 1];
      m
  }

  lemma LeadsDiffer(a: seq<Part>, c: seq<Part>, b: seq<Part>, e: seq<Part>, k: nat)
    requires AllShort(b, k) && c != [] && Long(c[0], k) && |a| < |b|
    ensures a + c != b + e
  {
    assert (a + c)[|a|] == c[0] && (b + e)[|a|] == b[|a|];
  }

  lemma SameLead(a: seq<Part>, c: seq<Part>, b: seq<Part>, e: seq<Part>, k: nat)
    requires AllShort(a, k) && AllShort(b, k) && c != [] && e != [] && Long(c[0], k) && Long(e[0], k)
    requires a + c == b + e
    ensures a == b && c == e
  {
    if |a| < |b| { LeadsDiffer(a, c, b, e, k); }
    if |b| < |a| { LeadsDiffer(b, e, a, c, k); }
    CutAlike(a, c, b, e);
  }

  lemma CutAlike(a: seq<Part>, c: seq<Part>, b: seq<Part>, e: seq<Part>)
    requires |a| == |b| && a + c == b + e
    ensures a == b && c == e
  {
    var r := a + c;
    assert a == r[..|a|] && b == r[..|b|] && c == r[|a|..] && e == r[|b|..];
  }

  lemma RunsDiffer(u: seq<Part>, c: seq<Part>, v: seq<Part>, e: seq<Part>, k: nat)
    requires AllShort(c, k) && |u| < |v| && forall i :: 0 <= i < |v| ==> Long(v[i], k)
    ensures u + c != v + e
  {
    if c != [] { assert (u + c)[|u|] == c[0] && (v + e)[|u|] == v[|u|]; }
  }

  lemma SameRun(u: seq<Part>, c: seq<Part>, v: seq<Part>, e: seq<Part>, k: nat)
    requires AllShort(c, k) && AllShort(e, k) && u + c == v + e
    requires (forall i :: 0 <= i < |u| ==> Long(u[i], k)) && (forall i :: 0 <= i < |v| ==> Long(v[i], k))
    ensures u == v && c == e
  {
    if |u| < |v| { RunsDiffer(u, c, v, e, k); }
    if |v| < |u| { RunsDiffer(v, e, u, c, k); }
    CutAlike(u, c, v, e);
  }

  /** Short parts, then long ones, then short ones: the three stretches can be told apart. */
  lemma SameStretches(
    a: seq<Part>, u: seq<Part>, c: seq<Part>, b: seq<Part>, v: seq<Part>, e: seq<Part>, k: nat)
    requires AllShort(a, k) && AllShort(b, k) && AllShort(c, k) && AllShort(e, k) && u != [] && v != []
    requires (forall i :: 0 <= i < |u| ==> Long(u[i], k)) && (forall i :: 0 <= i < |v| ==> Long(v[i], k))
    requires a + u + c == b + v + e
    ensures a == b && u == v && c == e
  {
    assert a + u + c == a + (u + c) && b + v + e == b + (v + e);
    SameLead(a, u + c, b, v + e, k);
    SameRun(u, c, v, e, k);
  }

  // ----- it is needed

  lemma BoundTakes(a: seq<Part>, b: seq<Part>, c: seq<Part>, d: seq<Part>)
    ensures
      var k := Bound(a + b + c + d);
      k > 2 && AllShort(a, k) && AllShort(b, k) && AllShort(c, k) && AllShort(d, k)
  {
    var all := a + b + c + d;
    var k := Bound(all);
    BoundIsBig(all);
    assert forall i :: 0 <= i < |a| ==> a[i] == all[i];
    assert forall i :: 0 <= i < |b| ==> b[i] == all[|a| + i];
    assert forall i :: 0 <= i < |c| ==> c[i] == all[|a| + |b| + i];
    assert forall i :: 0 <= i < |d| ==> d[i] == all[|a| + |b| + |c| + i];
  }

  lemma {:induction false} BoundIsBig(parts: seq<Part>)
    ensures Bound(parts) > 2
  {
    if parts != [] { BoundIsBig(parts[1..]); }
  }

  lemma FirstMark(x: string, y: string, k: nat, n: nat)
    requires n > 1
    ensures MarkedParts(x, y, k, n)[0] == x + Run(k) && MarkedParts(x, y, k, n)[n - 1] == Run(k) + y
  {
    assert x + Run(k) + "" == x + Run(k) && "" + Run(k) + y == Run(k) + y;
  }

  lemma SameBeforeRun(x: string, z: string, k: nat)
    requires x + Run(k) == z + Run(k)
    ensures x == z
  {
    assert x == (x + Run(k))[..|x|] && z == (z + Run(k))[..|z|];
  }

  lemma CleanedFromShape(a: seq<Part>, b: seq<Part>)
    requires NoSlash(a) && NoSlash(b) && Climbs(a) == Climbs(b) && Descent(a) == Descent(b)
    ensures Cleaned(a) == Cleaned(b)
  {
    CleanedShape(a);
    CleanedShape(b);
  }

  /** The same stretches, read off the marks. */
  lemma StretchesTell(
    r: seq<Part>, a: seq<Part>, x: string, y: string, s: seq<Part>,
    b: seq<Part>, w: string, z: string, t: seq<Part>, k: nat, n: nat)
    requires NoSlash(s) && NoSlash(t) && k > 2 && n > 1
    requires AllShort(a, k) && AllShort(b, k) && AllShort(Descent(s), k) && AllShort(Descent(t), k)
    requires ShowsMarks(r, a, x, y, s, k, n) && ShowsMarks(r, b, w, z, t, k, n)
    ensures a == b && x == w && Cleaned(s) == Cleaned(t) && (Climbs(s) == 0 ==> y == z)
  {
    var u, v := MarkedParts(x, y, k, n)[..n - Climbs(s)], MarkedParts(w, z, k, n)[..n - Climbs(t)];
    MarkedArePlain(x, y, k, n);
    MarkedArePlain(w, z, k, n);
    SameStretches(a, u, Descent(s), b, v, Descent(t), k);
    assert |u| == n - Climbs(s) && |v| == n - Climbs(t);
    CleanedFromShape(s, t);
    MarksShow(x, y, w, z, k, n, n - Climbs(s));
  }

  lemma MarksShow(x: string, y: string, w: string, z: string, k: nat, n: nat, m: nat)
    requires 1 < n && 0 < m <= n && MarkedParts(x, y, k, n)[..m] == MarkedParts(w, z, k, n)[..m]
    ensures x == w && (m == n ==> y == z)
  {
    var u, v := MarkedParts(x, y, k, n), MarkedParts(w, z, k, n);
    FirstMark(x, y, k, n);
    FirstMark(w, z, k, n);
    assert u[..m][0] == u[0] && v[..m][0] == v[0];
    SameBeforeRun(x, w, k);
    if m == n {
      assert u[..m][n - 1] == u[n - 1] && v[..m][n - 1] == v[n - 1];
      SameAfterRun(y, z, k);
    }
  }

  /** If the two agree on enough marks, they lead to the same star, and the same texts and parts follow. */
  lemma MarksTell(at: seq<Part>, f: Form, g: Form, k: nat, n: nat)
    requires f.Open? && g.Open? && Proper(f) && Proper(g) && k > 2
    requires AllShort(Walk(at, f.front), k) && AllShort(Walk(at, g.front), k)
    requires AllShort(Descent(f.tail), k) && AllShort(Descent(g.tail), k)
    requires n > Climbs(f.tail) + 1 && n > Climbs(g.tail) + 1 && Agree(at, f, g, Marks(k, n))
    ensures Walk(at, f.front) == Walk(at, g.front) && f.left == g.left && Cleaned(f.tail) == Cleaned(g.tail)
    ensures Climbs(f.tail) == 0 ==> f.right == g.right
  {
    MarkedLead(at, f, k, n);
    MarkedLead(at, g, k, n);
    var r, a, b := Lead(at, f, Marks(k, n)), Walk(at, f.front), Walk(at, g.front);
    StretchesTell(r, a, f.left, f.right, f.tail, b, g.left, g.right, g.tail, k, n);
  }

  lemma SameAfterRun(y: string, z: string, k: nat)
    requires Run(k) + y == Run(k) + z
    ensures y == z
  {
    assert y == (Run(k) + y)[k..] && z == (Run(k) + z)[k..];
  }

  /** How many parts further down a part leads. */
  function Gain(p: Part): int {
    if Idle(p) then 0 else if p == ".." then -1 else 1
  }

  /** An end for a match after which the two texts lead differently deep. */
  function Telling(y: string, z: string): string {
    if Gain(y) != Gain(z) then "" else "."
  }

  lemma TellingTells(y: string, z: string)
    requires y != z && !(Solid(y) && Solid(z))
    ensures Gain(Telling(y, z) + y) != Gain(Telling(y, z) + z)
  {
    assert "" + y == y && "" + z == z;
    assert "." + "" == "." && "." + "." == "..";
  }

  lemma EndedParts(x: string, y: string, k: nat, n: nat, end: string)
    requires '/' !in x && '/' !in y && '/' !in end && n > 0
    ensures Split(x + (Marks(k, n) + "/" + end) + y) == MarkedParts(x, "", k, n) + [end + y]
  {
    assert x + (Marks(k, n) + "/" + end) + y == (x + Marks(k, n) + "") + "/" + (end + y);
    SplitAtSlash(x + Marks(k, n) + "", end + y);
    MarksSplit(x, "", k, n);
    SplitPlain(end + y);
  }

  lemma EnterDepth(at: seq<Part>, p: Part)
    requires at != []
    ensures |Enter(at, p)| == |at| + Gain(p)
  {
  }

  /** How deep a text leads when its star is replaced by marks and an end. */
  lemma EndedDepth(at: seq<Part>, f: Form, k: nat, n: nat, end: string)
    requires f.Open? && Proper(f) && k > 2 && '/' !in end && n > Climbs(f.tail) + 1
    ensures
      |Lead(at, f, Marks(k, n) + "/" + end)| ==
      |Walk(at, f.front)| + n + Gain(end + f.right) - Climbs(f.tail) + |Descent(f.tail)|
  {
    EndedParts(f.left, f.right, k, n, end);
    MarkedArePlain(f.left, "", k, n);
    DepthAfterMarks(Walk(at, f.front), MarkedParts(f.left, "", k, n), end + f.right, f.tail);
  }

  lemma DepthAfterMarks(here: seq<Part>, marks: seq<Part>, p: Part, tail: seq<Part>)
    requires AllPlain(marks) && NoSlash(tail) && |marks| > Climbs(tail) + 1
    ensures
      |Walk(Walk(here, marks + [p]), tail)| == |here| + |marks| + Gain(p) - Climbs(tail) + |Descent(tail)|
  {
    WalkPlain(here, marks);
    WalkOneMore(here, marks, p);
    EnterDepth(here + marks, p);
    WalkShape(Enter(here + marks, p), tail);
  }

  /** The witness starts with an underscore and has no backslash. */
  predicate Harmless(m: string) {
    m != "" && m[0] == '_' && '\\' !in m
  }

  lemma {:induction false} MarksHarmless(k: nat, n: nat)
    requires k > 0
    ensures Harmless(Marks(k, n))
    decreases n
  {
    if n > 1 {
      MarksHarmless(k, n - 1);
      assert Marks(k, n)[0] == Run(k)[0];
    } else {
      assert Run(k)[0] == '_';
    }
  }

  lemma OneStarTells(at: seq<Part>, f: Form, g: Form) returns (m: string)
    requires f.Fixed? && g.Open? && Proper(g)
    ensures Harmless(m) && Lead(at, f, m) != Lead(at, g, m)
  {
    var n := Climbs(g.tail) + |Walk(at, f.parts)| + 1;
    m := Marks(3, n);
    MarksHarmless(3, n);
    MarkedLead(at, g, 3, n);
  }

  lemma EndsTell(at: seq<Part>, f: Form, g: Form, k: nat, n: nat) returns (m: string)
    requires f.Open? && g.Open? && Proper(f) && Proper(g) && k > 2
    requires n > Climbs(f.tail) + 1 && n > Climbs(g.tail) + 1
    requires Walk(at, f.front) == Walk(at, g.front) && Cleaned(f.tail) == Cleaned(g.tail)
    requires f.right != g.right && !(Solid(f.right) && Solid(g.right))
    ensures Harmless(m) && !Agree(at, f, g, m)
  {
    var end := Telling(f.right, g.right);
    m := Marks(k, n) + "/" + end;
    MarksHarmless(k, n);
    TellingTells(f.right, g.right);
    EndedDepth(at, f, k, n, end);
    EndedDepth(at, g, k, n, end);
  }

  lemma TwoStarsTell(at: seq<Part>, f: Form, g: Form) returns (m: string)
    requires f.Open? && g.Open? && Proper(f) && Proper(g) && !SameFrom(at, f, g)
    ensures Harmless(m) && !Agree(at, f, g, m)
  {
    var a, b, c, d := Walk(at, f.front), Walk(at, g.front), Descent(f.tail), Descent(g.tail);
    var k, n := Bound(a + b + c + d), Climbs(f.tail) + Climbs(g.tail) + 2;
    BoundTakes(a, b, c, d);
    m := Marks(k, n);
    MarksHarmless(k, n);
    if Agree(at, f, g, m) {
      MarksTell(at, f, g, k, n);
      m := EndsTell(at, f, g, k, n);
    }
  }

  /** Where the condition fails, a match shows it that starts with an underscore and has no backslash. */
  lemma DifferenceShows(at: seq<Part>, f: Form, g: Form) returns (m: string)
    requires Proper(f) && Proper(g) && !SameFrom(at, f, g)
    ensures Harmless(m) && !Agree(at, f, g, m)
  {
    match (f, g)
    case (Fixed(_), Fixed(_)) =>
      m := "_";
    case (Fixed(_), Open(_, _, _, _)) =>
      m := OneStarTells(at, f, g);
    case (Open(_, _, _, _), Fixed(_)) =>
      m := OneStarTells(at, g, f);
    case (Open(_, _, _, _), Open(_, _, _, _)) =>
      m := TwoStarsTell(at, f, g);
  }

  /** Two texts with a star lead from `at` to the same place, whatever the star stands for, exactly when they lead to
      the same star and go on alike after it. */
  lemma SameFromExactly(at: seq<Part>, f: Form, g: Form)
    requires Proper(f) && Proper(g)
    ensures (forall m :: Agree(at, f, g, m)) <==> SameFrom(at, f, g)
  {
    if SameFrom(at, f, g) {
      forall m ensures Agree(at, f, g, m) { SameFromAgrees(at, f, g, m); }
    } else {
      var m := DifferenceShows(at, f, g);
    }
  }

  // ----- from everywhere

  ghost predicate WalkAlike(at: seq<Part>, a: seq<Part>, b: seq<Part>) {
    Walk(at, a) == Walk(at, b)
  }

  /** From every directory two texts lead to the same place exactly when they are the same once cleaned. */
  lemma WalksAgreeExactly(a: seq<Part>, b: seq<Part>)
    requires NoSlash(a) && NoSlash(b)
    ensures (forall at :: WalkAlike(at, a, b)) <==> Cleaned(a) == Cleaned(b)
  {
    if Cleaned(a) == Cleaned(b) {
      forall at ensures WalkAlike(at, a, b) { CleanedWalksAlike(at, a, b); }
    } else {
      var size := Climbs(a) + Climbs(b) + 1;
      var x, y := seq(size, i => "a"), seq(size, i => "b");
      if WalkAlike(x, a, b) && WalkAlike(y, a, b) { DeepTell(a, b, x, y, size); }
    }
  }

  lemma DeepTell(a: seq<Part>, b: seq<Part>, x: seq<Part>, y: seq<Part>, size: nat)
    requires NoSlash(a) && NoSlash(b) && size == Climbs(a) + Climbs(b) + 1
    requires x == seq(size, i => "a") && y == seq(size, i => "b")
    requires Walk(x, a) == Walk(x, b) && Walk(y, a) == Walk(y, b)
    ensures Cleaned(a) == Cleaned(b)
  {
    WalkShape(x, a);
    WalkShape(x, b);
    WalkShape(y, a);
    WalkShape(y, b);
    var m, n := size - Climbs(a), size - Climbs(b);
    assert Above(x, Climbs(a)) == x[..m] && Above(x, Climbs(b)) == x[..n];
    assert Above(y, Climbs(a)) == y[..m] && Above(y, Climbs(b)) == y[..n];
    SameDepth(x[..m], y[..m], Descent(a), x[..n], y[..n], Descent(b));
    CleanedFromShape(a, b);
  }

  lemma DepthsDiffer(x: seq<Part>, y: seq<Part>, c: seq<Part>, v: seq<Part>, w: seq<Part>, e: seq<Part>)
    requires |x| == |y| < |v| == |w| && forall i :: 0 <= i < |v| ==> v[i] != w[i]
    ensures x + c != v + e || y + c != w + e
  {
    if c != [] {
      assert (x + c)[|x|] == c[0] && (y + c)[|x|] == c[0];
      assert (v + e)[|x|] == v[|x|] && (w + e)[|x|] == w[|x|];
    }
  }

  lemma SameDepth(x: seq<Part>, y: seq<Part>, c: seq<Part>, v: seq<Part>, w: seq<Part>, e: seq<Part>)
    requires |x| == |y| && |v| == |w| && x + c == v + e && y + c == w + e
    requires (forall i :: 0 <= i < |x| ==> x[i] != y[i]) && (forall i :: 0 <= i < |v| ==> v[i] != w[i])
    ensures |x| == |v| && c == e
  {
    if |x| < |v| { DepthsDiffer(x, y, c, v, w, e); }
    if |v| < |x| { DepthsDiffer(v, w, e, x, y, c); }
    CutAlike(x, c, v, e);
  }

  /** The same, from every directory. */
  predicate SameEverywhere(f: Form, g: Form) {
    || (f.Fixed? && g.Fixed? && Cleaned(f.parts) == Cleaned(g.parts))
    || (f.Open? && g.Open? && Cleaned(f.front) == Cleaned(g.front) && SameAfter(f, g))
  }

  lemma SameEverywhereExactly(f: Form, g: Form)
    requires Proper(f) && Proper(g)
    ensures (forall at :: SameFrom(at, f, g)) <==> SameEverywhere(f, g)
  {
    if f.Fixed? && g.Fixed? {
      WalksAgreeExactly(f.parts, g.parts);
      forall at ensures SameFrom(at, f, g) <==> WalkAlike(at, f.parts, g.parts) { }
    } else if f.Open? && g.Open? {
      WalksAgreeExactly(f.front, g.front);
      forall at ensures SameFrom(at, f, g) <==> WalkAlike(at, f.front, g.front) && SameAfter(f, g) { }
      assert SameFrom([], f, g) ==> SameAfter(f, g);
    } else {
      assert !SameFrom([], f, g);
    }
  }
}
