/**
 Glob matching of one path segment: internal/assets/glob.go, matchSegment.
 */
module Glob {

  /** The meaning of '*' (any run of characters) and '?' (any one character). */
  predicate Matches(pat: string, s: string)
    decreases |pat| + |s|
  {
    if pat == "" then s == ""
    else if pat[0] == '*' then Matches(pat[1..], s) || (s != "" && Matches(pat, s[1..]))
    else s != "" && (pat[0] == '?' || pat[0] == s[0]) && Matches(pat[1..], s[1..])
  }

  /** The cursors of the matching loop; `star` is -1 until a star was passed. */
  datatype Cursor = Cursor(pi: nat, si: nat, star: int, mark: nat)

  const START := Cursor(0, 0, -1, 0)

  predicate Placed(pat: string, s: string, c: Cursor) {
    c.pi <= |pat| && c.si <= |s| && -1 <= c.star < c.pi && c.mark <= c.si
  }

  predicate Takes(pat: string, s: string, c: Cursor)
    requires Placed(pat, s, c) && c.si < |s|
  {
    c.pi < |pat| && (pat[c.pi] == '?' || pat[c.pi] == s[c.si])
  }

  predicate AtStar(pat: string, s: string, c: Cursor)
    requires Placed(pat, s, c)
  {
    c.pi < |pat| && pat[c.pi] == '*'
  }

  /** The stars left at the end of the pattern are passed over. */
  predicate OnlyStars(pat: string, pi: nat)
    requires pi <= |pat|
    decreases |pat| - pi
  {
    pi == |pat| || (pat[pi] == '*' && OnlyStars(pat, pi + 1))
  }

  /** The result of the loop from given cursors. */
  predicate Loop(pat: string, s: string, c: Cursor)
    requires Placed(pat, s, c)
    decreases |pat| - c.star, |s| - c.mark, |pat| - c.pi + |s| - c.si
  {
    if c.si == |s| then OnlyStars(pat, c.pi)
    else if Takes(pat, s, c) then Loop(pat, s, c.(pi := c.pi + 1, si := c.si + 1))
    else if AtStar(pat, s, c) then Loop(pat, s, Cursor(c.pi + 1, c.si, c.pi, c.si))
    else if c.star >= 0 then Loop(pat, s, Cursor(c.star + 1, c.mark + 1, c.star, c.mark + 1))
    else false
  }

  predicate MatchSegment(pat: string, s: string) {
    Loop(pat, s, START)
  }

  // ----- facts about the meaning

  /** A star takes any run of characters. */
  lemma {:induction false} StarTakesRun(pat: string, s: string)
    requires pat != "" && pat[0] == '*'
    ensures Matches(pat, s) <==> exists m :: 0 <= m <= |s| && Matches(pat[1..], s[m..])
    decreases |s|
  {
    assert s[0..] == s;
    if s != "" {
      StarTakesRun(pat, s[1..]);
      forall m | 0 <= m <= |s[1..]| ensures s[1..][m..] == s[m + 1..] { }
      if Matches(pat, s[1..]) {
        var m :| 0 <= m <= |s[1..]| && Matches(pat[1..], s[1..][m..]);
        assert Matches(pat[1..], s[m + 1..]);
      }
      if exists m :: 0 < m <= |s| && Matches(pat[1..], s[m..]) {
        var m :| 0 < m <= |s| && Matches(pat[1..], s[m..]);
        assert s[1..][m - 1..] == s[m..];
      }
    }
  }

  /** Without a star, the first `n` characters of the pattern take the first `n` of the text. */
  lemma {:induction false} PlainPart(pat: string, s: string, n: nat)
    requires n <= |pat| && '*' !in pat[..n] && Matches(pat, s)
    ensures n <= |s| && Matches(pat[n..], s[n..])
    decreases n
  {
    if n > 0 {
      assert pat[0] == pat[..n][0];
      assert pat[1..][..n - 1] == pat[..n][1..];
      PlainPart(pat[1..], s[1..], n - 1);
      assert pat[1..][n - 1..] == pat[n..] && s[1..][n - 1..] == s[n..];
    }
  }

  lemma {:induction false} OnlyStarsMatchNothing(pat: string, pi: nat)
    requires pi <= |pat|
    ensures OnlyStars(pat, pi) <==> Matches(pat[pi..], "")
    decreases |pat| - pi
  {
    if pi < |pat| { OnlyStarsMatchNothing(pat, pi + 1); }
  }

  // ----- the loop computes the meaning

  /** The text from `si` on matches, or the last star can take more. */
  ghost predicate CanMatch(pat: string, s: string, c: Cursor)
    requires Placed(pat, s, c)
  {
    Matches(pat[c.pi..], s[c.si..]) || (c.star >= 0 && Later(pat, s, c.star, c.mark))
  }

  ghost predicate Later(pat: string, s: string, star: int, mark: nat)
    requires 0 <= star < |pat|
  {
    exists m :: mark < m <= |s| && Matches(pat[star + 1..], s[m..])
  }

  /** Since the last star, plain characters of the pattern have taken as many of the text. */
  ghost predicate InStep(pat: string, s: string, c: Cursor) {
    && Placed(pat, s, c)
    && (c.star >= 0 ==> pat[c.star] == '*' && '*' !in pat[c.star + 1..c.pi] && c.pi - c.star - 1 == c.si - c.mark)
  }

  /** What an earlier star could still take, the star at the cursor can take too. */
  lemma EarlierStarSubsumed(pat: string, s: string, c: Cursor)
    requires InStep(pat, s, c) && AtStar(pat, s, c) && c.star >= 0 && Later(pat, s, c.star, c.mark)
    ensures Matches(pat[c.pi..], s[c.si..])
  {
    var m :| c.mark < m <= |s| && Matches(pat[c.star + 1..], s[m..]);
    var n := c.pi - c.star - 1;
    assert pat[c.star + 1..][..n] == pat[c.star + 1..c.pi] && pat[c.star + 1..][n..] == pat[c.pi..];
    PlainPart(pat[c.star + 1..], s[m..], n);
    assert s[m..][n..] == s[m + n..];
    StarTakesRun(pat[c.pi..], s[m + n..]);
    var k :| 0 <= k <= |s[m + n..]| && Matches(pat[c.pi..][1..], s[m + n..][k..]);
    assert s[m + n..][k..] == s[c.si..][m + n - c.si + k..];
    StarTakesRun(pat[c.pi..], s[c.si..]);
  }

  lemma StarStep(pat: string, s: string, c: Cursor)
    requires InStep(pat, s, c) && AtStar(pat, s, c)
    ensures InStep(pat, s, Cursor(c.pi + 1, c.si, c.pi, c.si))
    ensures CanMatch(pat, s, c) <==> CanMatch(pat, s, Cursor(c.pi + 1, c.si, c.pi, c.si))
  {
    if c.star >= 0 && Later(pat, s, c.star, c.mark) { EarlierStarSubsumed(pat, s, c); }
    var p, t := pat[c.pi..], s[c.si..];
    StarTakesRun(p, t);
    assert p[1..] == pat[c.pi + 1..];
    if Matches(p, t) {
      var k :| 0 <= k <= |t| && Matches(p[1..], t[k..]);
      assert t[k..] == s[c.si + k..];
    }
    if Later(pat, s, c.pi, c.si) {
      var m :| c.si < m <= |s| && Matches(pat[c.pi + 1..], s[m..]);
      assert s[m..] == t[m - c.si..];
    }
    assert t[0..] == t;
  }

  lemma BackStep(pat: string, s: string, c: Cursor)
    requires InStep(pat, s, c) && c.si < |s| && !Takes(pat, s, c) && !AtStar(pat, s, c) && c.star >= 0
    ensures InStep(pat, s, Cursor(c.star + 1, c.mark + 1, c.star, c.mark + 1))
    ensures CanMatch(pat, s, c) <==> CanMatch(pat, s, Cursor(c.star + 1, c.mark + 1, c.star, c.mark + 1))
  {
    assert !Matches(pat[c.pi..], s[c.si..]);
    if Later(pat, s, c.star, c.mark) {
      var m :| c.mark < m <= |s| && Matches(pat[c.star + 1..], s[m..]);
      assert m == c.mark + 1 || c.mark + 1 < m;
    }
  }

  lemma NoStep(pat: string, s: string, c: Cursor)
    requires InStep(pat, s, c) && c.si < |s| && !Takes(pat, s, c) && !AtStar(pat, s, c) && c.star < 0
    ensures !CanMatch(pat, s, c)
  {
  }

  lemma EndStep(pat: string, s: string, c: Cursor)
    requires InStep(pat, s, c) && c.si == |s|
    ensures CanMatch(pat, s, c) <==> OnlyStars(pat, c.pi)
  {
    OnlyStarsMatchNothing(pat, c.pi);
    if c.star >= 0 && Later(pat, s, c.star, c.mark) {
      var m :| c.mark < m <= |s| && Matches(pat[c.star + 1..], s[m..]);
      var n := c.pi - c.star - 1;
      assert pat[c.star + 1..][..n] == pat[c.star + 1..c.pi];
      PlainPart(pat[c.star + 1..], s[m..], n);
    }
  }

  lemma TakeStep(pat: string, s: string, c: Cursor)
    requires InStep(pat, s, c) && c.si < |s| && Takes(pat, s, c) && '*' !in s
    ensures InStep(pat, s, c.(pi := c.pi + 1, si := c.si + 1))
    ensures CanMatch(pat, s, c) <==> CanMatch(pat, s, c.(pi := c.pi + 1, si := c.si + 1))
  {
    assert pat[c.pi] != '*' by { assert s[c.si] in s; }
    assert pat[c.pi..][1..] == pat[c.pi + 1..] && s[c.si..][1..] == s[c.si + 1..];
    if c.star >= 0 { assert pat[c.star + 1..c.pi + 1] == pat[c.star + 1..c.pi] + [pat[c.pi]]; }
  }

  lemma {:induction false} LoopComputes(pat: string, s: string, c: Cursor)
    requires InStep(pat, s, c) && '*' !in s
    ensures Loop(pat, s, c) <==> CanMatch(pat, s, c)
    decreases |pat| - c.star, |s| - c.mark, |pat| - c.pi + |s| - c.si
  {
    if c.si == |s| {
      EndStep(pat, s, c);
    } else if Takes(pat, s, c) {
      TakeStep(pat, s, c);
      LoopComputes(pat, s, c.(pi := c.pi + 1, si := c.si + 1));
    } else if AtStar(pat, s, c) {
      StarStep(pat, s, c);
      LoopComputes(pat, s, Cursor(c.pi + 1, c.si, c.pi, c.si));
    } else if c.star >= 0 {
      BackStep(pat, s, c);
      LoopComputes(pat, s, Cursor(c.star + 1, c.mark + 1, c.star, c.mark + 1));
    } else {
      NoStep(pat, s, c);
    }
  }

  // ----- names with a literal star

  function Questions(n: nat): string {
    if n == 0 then "" else "?" + Questions(n - 1)
  }

  /** What precedes the star, the star, and one '?' for every character from the star on. */
  function Tricky(s: string, i: nat): string
    requires i < |s|
  {
    s[..i] + "*" + Questions(|s| - i)
  }

  lemma {:induction false} QuestionsMatch(s: string)
    ensures Matches(Questions(|s|), s) && |Questions(|s|)| == |s|
    ensures forall k :: 0 <= k < |s| ==> Questions(|s|)[k] == '?'
  {
    if s != "" {
      QuestionsMatch(s[1..]);
      assert Questions(|s|)[1..] == Questions(|s| - 1);
    }
  }

  lemma {:induction false} PlainMatches(a: string, pat: string, s: string)
    requires '*' !in a && Matches(pat, s)
    ensures Matches(a + pat, a + s)
  {
    if a == "" {
      assert a + pat == pat && a + s == s;
    } else {
      PlainMatches(a[1..], pat, s);
      assert (a + pat)[1..] == a[1..] + pat && (a + s)[1..] == a[1..] + s;
    }
  }

  lemma PlainThenStar(a: string, pat: string, t: string)
    requires '*' !in a && Matches(pat, t)
    ensures Matches(a + "*" + pat, a + t)
  {
    StarTakesNothing(pat, t);
    var starred := "*" + pat;
    PlainMatches(a, starred, t);
    assert a + starred == a + "*" + pat;
  }

  lemma TrickyMatches(s: string, i: nat)
    requires i < |s| && '*' !in s[..i]
    ensures Matches(Tricky(s, i), s)
  {
    var a, t := s[..i], s[i..];
    assert s == a + t;
    QuestionsMatch(t);
    PlainThenStar(a, Questions(|t|), t);
  }

  lemma StarTakesNothing(pat: string, s: string)
    requires Matches(pat, s)
    ensures Matches("*" + pat, s)
  {
    assert ("*" + pat)[1..] == pat;
  }

  /** The loop takes the star of the pattern for the star of the name and then runs out of characters. */
  lemma {:induction false} TrickyLoop(s: string, i: nat, k: nat)
    requires i < |s| && s[i] == '*' && k <= |s|
    ensures |Tricky(s, i)| == |s| + 1 && !Loop(Tricky(s, i), s, Cursor(k, k, -1, 0))
    decreases |s| - k
  {
    var pat := Tricky(s, i);
    QuestionsMatch(s[i..]);
    if k < |s| {
      assert pat[k] == '?' || pat[k] == s[k];
      TrickyLoop(s, i, k + 1);
    } else {
      assert pat[k] == '?';
    }
  }

  lemma FirstStar(s: string) returns (i: nat)
    requires '*' in s
    ensures i < |s| && s[i] == '*' && '*' !in s[..i]
  {
    i := 0;
    while s[i] != '*'
      invariant i < |s| && '*' !in s[..i]
      decreases |s| - i
    {
      assert s[..i + 1] == s[..i] + [s[i]];
      i := i + 1;
    }
  }

  ghost predicate Agrees(pat: string, s: string) {
    MatchSegment(pat, s) <==> Matches(pat, s)
  }

  /** The loop agrees with the meaning for every pattern exactly on the names without a literal star. */
  lemma AgreesExactly(s: string)
    ensures (forall pat :: Agrees(pat, s)) <==> '*' !in s
  {
    if '*' in s {
      var i := FirstStar(s);
      TrickyMatches(s, i);
      TrickyLoop(s, i, 0);
      assert !Agrees(Tricky(s, i), s);
    } else {
      forall pat ensures Agrees(pat, s) {
        LoopComputes(pat, s, START);
        assert pat[0..] == pat && s[0..] == s;
      }
    }
  }

  // ----- as it runs

  method RunMatchSegment(pat: string, s: string) returns (r: bool)
    ensures r == MatchSegment(pat, s)
    ensures '*' !in s ==> r == Matches(pat, s)
  {
    AgreesExactly(s);
    assert '*' !in s ==> Agrees(pat, s);
    var pi: nat, si: nat := 0, 0;
    var star: int, mark: nat := -1, 0;
    while si < |s|
      invariant Placed(pat, s, Cursor(pi, si, star, mark))
      invariant Loop(pat, s, Cursor(pi, si, star, mark)) == MatchSegment(pat, s)
      decreases |pat| - star, |s| - mark, |pat| - pi + |s| - si
    {
      if pi < |pat| && (pat[pi] == '?' || pat[pi] == s[si]) {
        pi, si := pi + 1, si + 1;
      } else if pi < |pat| && pat[pi] == '*' {
        star, mark := pi, si;
        pi := pi + 1;
      } else if star >= 0 {
        pi := star + 1;
        mark := mark + 1;
        si := mark;
      } else {
        return false;
      }
    }
    while pi < |pat| && pat[pi] == '*'
      invariant pi <= |pat| && OnlyStars(pat, pi) == MatchSegment(pat, s)
    {
      pi := pi + 1;
    }
    r := pi == |pat|;
  }
}
