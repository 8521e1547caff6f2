/**
 Glob matching of whole paths: internal/assets/glob.go, matchSegments, splitClean and staticPrefix.
 */
module GlobPaths {
  import opened Letters
  import opened PathText
  import opened Glob

  /** Segment patterns against segments; "**" takes any number of segments. */
  predicate MatchAll(seg: (string, string) -> bool, pat: seq<string>, name: seq<string>)
    decreases |pat|
  {
    if pat == [] then name == []
    else if pat[0] == "**" then exists i :: 0 <= i <= |name| && MatchAll(seg, pat[1..], name[i..])
    else name != [] && seg(pat[0], name[0]) && MatchAll(seg, pat[1..], name[1..])
  }

  /** Where the pattern's segments begin in the name: "**" spans any stretch, every other segment one it matches. */
  ghost predicate Cut(seg: (string, string) -> bool, pat: seq<string>, name: seq<string>, cuts: seq<nat>) {
    && |cuts| == |pat| + 1 && cuts[0] == 0 && cuts[|pat|] == |name|
    && forall j :: 0 <= j < |pat| ==> Spans(seg, pat[j], name, cuts[j], cuts[j + 1])
  }

  ghost predicate Spans(seg: (string, string) -> bool, p: string, name: seq<string>, from: nat, to: nat) {
    from <= to <= |name| && (p != "**" ==> to == from + 1 && seg(p, name[from]))
  }

  function Shifted(cuts: seq<nat>, n: nat): seq<nat> {
    seq(|cuts|, i requires 0 <= i < |cuts| => cuts[i] + n)
  }

  lemma CutPrepended(seg: (string, string) -> bool, pat: seq<string>, name: seq<string>, i: nat, cuts: seq<nat>)
    requires pat != [] && i <= |name| && Spans(seg, pat[0], name, 0, i) && Cut(seg, pat[1..], name[i..], cuts)
    ensures Cut(seg, pat, name, [0] + Shifted(cuts, i))
  {
    var all := [0] + Shifted(cuts, i);
    forall j | 0 <= j < |pat| ensures Spans(seg, pat[j], name, all[j], all[j + 1]) {
      if j > 0 {
        assert Spans(seg, pat[1..][j - 1], name[i..], cuts[j - 1], cuts[j]);
      }
    }
  }

  lemma CutDropped(seg: (string, string) -> bool, pat: seq<string>, name: seq<string>, cuts: seq<nat>)
    requires pat != [] && Cut(seg, pat, name, cuts)
    ensures cuts[1] <= |name| && Spans(seg, pat[0], name, 0, cuts[1])
    ensures exists rest :: Cut(seg, pat[1..], name[cuts[1]..], rest)
  {
    var i := cuts[1];
    assert Spans(seg, pat[0], name, cuts[0], cuts[1]);
    CutsGrow(seg, pat, name, cuts, 1);
    var rest := seq(|pat|, j requires 0 <= j < |pat| => (cuts[j + 1] - i) as nat);
    forall j | 0 <= j < |pat| - 1 ensures Spans(seg, pat[1..][j], name[i..], rest[j], rest[j + 1]) {
      assert Spans(seg, pat[j + 1], name, cuts[j + 1], cuts[j + 2]);
    }
    assert Cut(seg, pat[1..], name[i..], rest);
  }

  lemma {:induction false} CutsGrow(
    seg: (string, string) -> bool, pat: seq<string>, name: seq<string>, cuts: seq<nat>, i: nat)
    requires Cut(seg, pat, name, cuts) && i < |cuts|
    ensures forall j :: i <= j < |cuts| ==> cuts[i] <= cuts[j]
    decreases |cuts| - i
  {
    if i + 1 < |cuts| {
      assert Spans(seg, pat[i], name, cuts[i], cuts[i + 1]);
      CutsGrow(seg, pat, name, cuts, i + 1);
    }
  }

  /** A path matches exactly when the name can be cut up among the segments of the pattern. */
  lemma {:induction false} MatchesExactlyWhenCut(seg: (string, string) -> bool, pat: seq<string>, name: seq<string>)
    ensures MatchAll(seg, pat, name) <==> exists cuts :: Cut(seg, pat, name, cuts)
    decreases |pat|
  {
    if pat == [] {
      if name == [] { assert Cut(seg, pat, name, [0]); }
    } else {
      if MatchAll(seg, pat, name) {
        var i := if pat[0] == "**" then Taken(seg, pat, name) else 1;
        MatchesExactlyWhenCut(seg, pat[1..], name[i..]);
        var cuts :| Cut(seg, pat[1..], name[i..], cuts);
        CutPrepended(seg, pat, name, i, cuts);
      }
      forall cuts | Cut(seg, pat, name, cuts) ensures MatchAll(seg, pat, name) {
        CutDropped(seg, pat, name, cuts);
        MatchesExactlyWhenCut(seg, pat[1..], name[cuts[1]..]);
      }
    }
  }

  ghost function Taken(seg: (string, string) -> bool, pat: seq<string>, name: seq<string>): (i: nat)
    requires pat != [] && pat[0] == "**" && MatchAll(seg, pat, name)
    ensures i <= |name| && MatchAll(seg, pat[1..], name[i..])
  {
    var i: nat :| i <= |name| && MatchAll(seg, pat[1..], name[i..]);
    i
  }

  // ----- literal stars in names

  lemma {:induction false} SameSegmentsSameMatch(
    a: (string, string) -> bool, b: (string, string) -> bool, pat: seq<string>, name: seq<string>)
    requires forall p, i :: 0 <= i < |name| ==> a(p, name[i]) == b(p, name[i])
    ensures MatchAll(a, pat, name) <==> MatchAll(b, pat, name)
    decreases |pat|
  {
    if pat == [] {
    } else if pat[0] == "**" {
      forall i | 0 <= i <= |name| ensures MatchAll(a, pat[1..], name[i..]) <==> MatchAll(b, pat[1..], name[i..]) {
        SameSegmentsSameMatch(a, b, pat[1..], name[i..]);
      }
    } else if name != [] {
      SameSegmentsSameMatch(a, b, pat[1..], name[1..]);
    }
  }

  const LOOP: (string, string) -> bool := (p, s) => MatchSegment(p, s)
  const MEANING: (string, string) -> bool := (p, s) => Matches(p, s)

  /** On names without literal stars, paths match as '*', '?' and "**" mean. */
  lemma PathsMatchAsMeant(pat: seq<string>, name: seq<string>)
    requires forall i :: 0 <= i < |name| ==> '*' !in name[i]
    ensures MatchAll(LOOP, pat, name) <==> MatchAll(MEANING, pat, name)
  {
    forall p, i | 0 <= i < |name| ensures LOOP(p, name[i]) == MEANING(p, name[i]) {
      AgreesExactly(name[i]);
      assert Agrees(p, name[i]);
    }
    SameSegmentsSameMatch(LOOP, MEANING, pat, name);
  }

  // ----- the static prefix

  predicate HasWild(s: string) {
    '*' in s || '?' in s
  }

  function Static(segs: seq<string>): seq<string> {
    if segs == [] || HasWild(segs[0]) then [] else [segs[0]] + Static(segs[1..])
  }

  /** The leading segments without a star or a question mark, up to the first that has one. */
  ghost predicate IsStatic(keep: seq<string>, segs: seq<string>) {
    && keep <= segs && (forall i :: 0 <= i < |keep| ==> '*' !in keep[i] && '?' !in keep[i])
    && (|keep| < |segs| ==> '*' in segs[|keep|] || '?' in segs[|keep|])
  }

  lemma {:induction false} StaticIsLongest(segs: seq<string>)
    ensures IsStatic(Static(segs), segs)
  {
    if segs != [] && !HasWild(segs[0]) {
      var rest := Static(segs[1..]);
      StaticIsLongest(segs[1..]);
      assert segs == [segs[0]] + segs[1..];
      assert forall i :: 0 < i < |Static(segs)| ==> Static(segs)[i] == rest[i - 1];
    }
  }

  /** A segment pattern without wildcards matches itself only, whatever is in the name. */
  lemma {:induction false} PlainLoop(pat: string, s: string, k: nat)
    requires !HasWild(pat) && k <= |pat| && k <= |s| && pat[..k] == s[..k]
    ensures Loop(pat, s, Cursor(k, k, -1, 0)) <==> pat == s
    decreases |s| - k
  {
    if k == |s| {
      if k < |pat| { assert pat[k] in pat; }
    } else if k < |pat| {
      assert pat[k] in pat;
      if pat[k] == s[k] {
        assert pat[..k + 1] == pat[..k] + [pat[k]] && s[..k + 1] == s[..k] + [s[k]];
        PlainLoop(pat, s, k + 1);
      }
    }
  }

  lemma {:induction false} StaticMatched(pat: seq<string>, name: seq<string>)
    requires MatchAll(LOOP, pat, name)
    ensures Static(pat) <= name
    decreases |pat|
  {
    if pat != [] && !HasWild(pat[0]) {
      assert "**"[0] == '*';
      PlainLoop(pat[0], name[0], 0);
      StaticMatched(pat[1..], name[1..]);
      assert name == [name[0]] + name[1..];
    }
  }

  // ----- case

  function LowerAll(parts: seq<string>): seq<string> {
    seq(|parts|, i requires 0 <= i < |parts| => Lower(parts[i]))
  }

  lemma LowerAllHead(h: string, tail: seq<string>)
    ensures LowerAll([h] + tail) == [Lower(h)] + LowerAll(tail)
  {
  }

  lemma LowerHead(c: char, s: string)
    ensures Lower([c] + s) == [LowerChar(c)] + Lower(s)
  {
  }

  lemma {:induction false} LowerSplit(s: string)
    ensures Split(Lower(s)) == LowerAll(Split(s))
  {
    if s != "" {
      var h, tail := Split(s[1..])[0], Split(s[1..])[1..];
      LowerSplit(s[1..]);
      LowerHead(s[0], s[1..]);
      assert s == [s[0]] + s[1..] && Lower(s)[1..] == Lower(s[1..]);
      LowerAllHead(h, tail);
      assert Split(s[1..]) == [h] + tail;
      if s[0] == '/' {
        LowerAllHead("", [h] + tail);
        assert Lower("") == "";
      } else {
        LowerHead(s[0], h);
        LowerAllHead([s[0]] + h, tail);
      }
    }
  }

  lemma LowerIdle(p: string)
    ensures Idle(Lower(p)) <==> Idle(p)
  {
    if |p| == 1 { assert Lower(p)[0] == LowerChar(p[0]); }
    if p == "." { assert Lower(p) == "."; }
    if Lower(p) == "." { assert p[0] == '.'; }
  }

  lemma {:induction false} LowerBusy(parts: seq<string>)
    ensures Busy(LowerAll(parts)) == LowerAll(Busy(parts))
  {
    if parts != [] {
      LowerIdle(parts[0]);
      LowerBusy(parts[1..]);
      assert LowerAll(parts)[1..] == LowerAll(parts[1..]);
      if !Idle(parts[0]) {
        assert LowerAll([parts[0]] + Busy(parts[1..])) == [Lower(parts[0])] + LowerAll(Busy(parts[1..]));
      }
    }
  }

  lemma LowerWild(s: string)
    ensures HasWild(Lower(s)) <==> HasWild(s)
  {
    forall i | 0 <= i < |s| ensures Lower(s)[i] == LowerChar(s[i]) { }
    if '*' in s { var i :| 0 <= i < |s| && s[i] == '*'; assert Lower(s)[i] == '*'; }
    if '?' in s { var i :| 0 <= i < |s| && s[i] == '?'; assert Lower(s)[i] == '?'; }
  }

  lemma {:induction false} LowerStatic(segs: seq<string>)
    ensures Static(LowerAll(segs)) == LowerAll(Static(segs))
  {
    if segs != [] {
      LowerWild(segs[0]);
      LowerStatic(segs[1..]);
      assert LowerAll(segs)[1..] == LowerAll(segs[1..]);
      if !HasWild(segs[0]) {
        assert LowerAll([segs[0]] + Static(segs[1..])) == [Lower(segs[0])] + LowerAll(Static(segs[1..]));
      }
    }
  }

  // ----- whole texts

  /** The segments of a path text, without empty ones and ".". */
  function SplitClean(s: string): seq<string> {
    Busy(Split(s))
  }

  predicate Match(pattern: string, name: string) {
    MatchAll(LOOP, SplitClean(Lower(ForwardSlashes(pattern))), SplitClean(Lower(ForwardSlashes(name))))
  }

  /** Every matching path begins with the static prefix of the pattern, up to case. */
  lemma MatchBeginsWithStatic(pattern: string, name: string)
    requires Match(pattern, name)
    ensures LowerAll(Static(SplitClean(ForwardSlashes(pattern)))) <= LowerAll(SplitClean(ForwardSlashes(name)))
  {
    var p, n := ForwardSlashes(pattern), ForwardSlashes(name);
    LowerSplit(p);
    LowerSplit(n);
    LowerBusy(Split(p));
    LowerBusy(Split(n));
    LowerStatic(SplitClean(p));
    StaticMatched(LowerAll(SplitClean(p)), LowerAll(SplitClean(n)));
  }

  // ----- what a match means

  ghost predicate IsSeparator(c: char) {
    c == '/' || c == '\\'
  }

  /** The same text up to the case of letters and the kind of separators. */
  ghost predicate SamePathText(a: string, b: string) {
    |a| == |b| &&
    forall i :: 0 <= i < |a| ==> SameLetter(a[i], b[i]) || (IsSeparator(a[i]) && IsSeparator(b[i]))
  }

  lemma SameTextFolded(a: string, b: string)
    requires SamePathText(a, b)
    ensures Lower(ForwardSlashes(a)) == Lower(ForwardSlashes(b))
  {
    var f, g := ForwardSlashes(a), ForwardSlashes(b);
    forall i | 0 <= i < |f| ensures SameLetter(f[i], g[i]) {
      assert SameLetter(a[i], b[i]) || (IsSeparator(a[i]) && IsSeparator(b[i]));
    }
    LowerEqualExactly(f, g);
  }

  /** Neither the case of letters nor the kind of separators matters, in the pattern or in the name. */
  lemma MatchIgnoresCase(pattern: string, other: string, name: string, otherName: string)
    requires SamePathText(pattern, other) && SamePathText(name, otherName)
    ensures Match(pattern, name) <==> Match(other, otherName)
  {
    SameTextFolded(pattern, other);
    SameTextFolded(name, otherName);
  }

  /** The meaning of '*' and '?' with letters compared up to case. */
  predicate MatchesFolded(pat: string, s: string)
    decreases |pat| + |s|
  {
    if pat == "" then s == ""
    else if pat[0] == '*' then MatchesFolded(pat[1..], s) || (s != "" && MatchesFolded(pat, s[1..]))
    else s != "" && (pat[0] == '?' || SameLetter(pat[0], s[0])) && MatchesFolded(pat[1..], s[1..])
  }

  lemma {:induction false} FoldedMeaning(pat: string, s: string)
    ensures Matches(Lower(pat), Lower(s)) <==> MatchesFolded(pat, s)
    decreases |pat| + |s|
  {
    if pat != "" {
      assert Lower(pat)[1..] == Lower(pat[1..]);
      if s != "" { assert Lower(s)[1..] == Lower(s[1..]); }
      if pat[0] == '*' {
        FoldedMeaning(pat[1..], s);
        if s != "" { FoldedMeaning(pat, s[1..]); }
      } else if s != "" {
        FoldedMeaning(pat[1..], s[1..]);
      }
    }
  }

  const FOLDED: (string, string) -> bool := (p, s) => MatchesFolded(p, s)

  lemma {:induction false} FoldedPaths(pat: seq<string>, name: seq<string>)
    ensures MatchAll(MEANING, LowerAll(pat), LowerAll(name)) <==> MatchAll(FOLDED, pat, name)
    decreases |pat|
  {
    if pat != [] {
      assert LowerAll(pat)[1..] == LowerAll(pat[1..]);
      LowerStars(pat[0]);
      if pat[0] == "**" {
        forall i | 0 <= i <= |name|
          ensures MatchAll(MEANING, LowerAll(pat[1..]), LowerAll(name)[i..]) <==> MatchAll(FOLDED, pat[1..], name[i..])
        {
          assert LowerAll(name)[i..] == LowerAll(name[i..]);
          FoldedPaths(pat[1..], name[i..]);
        }
      } else if name != [] {
        assert LowerAll(name)[1..] == LowerAll(name[1..]);
        FoldedMeaning(pat[0], name[0]);
        FoldedPaths(pat[1..], name[1..]);
      }
    }
  }

  lemma LowerStars(s: string)
    ensures Lower(s) == "**" <==> s == "**"
  {
    assert |Lower(s)| == |s|;
    if |s| == 2 { assert Lower(s) == [LowerChar(s[0]), LowerChar(s[1])] && s == [s[0], s[1]]; }
  }

  lemma NoStars(s: string)
    requires '*' !in s
    ensures forall i :: 0 <= i < |SplitClean(Lower(ForwardSlashes(s)))| ==>
      '*' !in SplitClean(Lower(ForwardSlashes(s)))[i]
  {
    var l := Lower(ForwardSlashes(s));
    forall i | 0 <= i < |l| ensures l[i] != '*' { assert s[i] in s; }
    SplitHas(l, '*');
    BusyHas(Split(l), '*');
  }

  lemma {:induction false} SplitHas(s: string, c: char)
    requires c !in s
    ensures forall i :: 0 <= i < |Split(s)| ==> c !in Split(s)[i]
  {
    if s != "" { SplitHas(s[1..], c); }
  }

  lemma {:induction false} BusyHas(parts: seq<string>, c: char)
    requires forall i :: 0 <= i < |parts| ==> c !in parts[i]
    ensures forall i :: 0 <= i < |Busy(parts)| ==> c !in Busy(parts)[i]
  {
    if parts != [] { BusyHas(parts[1..], c); }
  }

  /**
   A name without a literal star matches exactly when its segments can be cut up among those of the pattern, "**"
   taking any stretch and every other segment one that it matches with letters compared up to case.
   */
  lemma MatchMeans(pattern: string, name: string)
    requires '*' !in name
    ensures
      Match(pattern, name) <==>
      exists cuts :: Cut(FOLDED, SplitClean(ForwardSlashes(pattern)), SplitClean(ForwardSlashes(name)), cuts)
  {
    var p, n := ForwardSlashes(pattern), ForwardSlashes(name);
    FoldedSegments(p);
    FoldedSegments(n);
    NoStars(name);
    PathsMatchAsMeant(LowerAll(SplitClean(p)), LowerAll(SplitClean(n)));
    FoldedPaths(SplitClean(p), SplitClean(n));
    MatchesExactlyWhenCut(FOLDED, SplitClean(p), SplitClean(n));
  }

  lemma FoldedSegments(s: string)
    ensures SplitClean(Lower(s)) == LowerAll(SplitClean(s))
  {
    LowerSplit(s);
    LowerBusy(Split(s));
  }

  // ----- as they run

  method MatchSegments(pat0: seq<string>, name0: seq<string>) returns (r: bool)
    ensures r == MatchAll(LOOP, pat0, name0)
    decreases |pat0|
  {
    var pat, name := pat0, name0;
    while |pat| > 0
      invariant |pat| <= |pat0| && MatchAll(LOOP, pat, name) == MatchAll(LOOP, pat0, name0)
    {
      if pat[0] == "**" {
        var i := 0;
        while i <= |name|
          invariant 0 <= i <= |name| + 1 && forall j :: 0 <= j < i ==> !MatchAll(LOOP, pat[1..], name[j..])
        {
          var matched := MatchSegments(pat[1..], name[i..]);
          if matched { return true; }
          i := i + 1;
        }
        return false;
      }
      if |name| == 0 { return false; }
      var matched := RunMatchSegment(pat[0], name[0]);
      if !matched { return false; }
      pat, name := pat[1..], name[1..];
    }
    r := |name| == 0;
  }

  method KeepStatic(segs: seq<string>) returns (keep: seq<string>)
    ensures keep == Static(segs) && keep <= segs
  {
    keep := [];
    var i := 0;
    while i < |segs| && !HasWild(segs[i])
      invariant 0 <= i <= |segs| && keep == segs[..i] && Static(segs) == keep + Static(segs[i..])
    {
      assert segs[i..][1..] == segs[i + 1..];
      keep := keep + [segs[i]];
      i := i + 1;
    }
  }

  /** The text of the leading segments without wildcards; it splits into just these segments. */
  method StaticPrefix(pattern: string) returns (prefix: string)
    ensures SplitClean(prefix) == Static(SplitClean(pattern)) && IsStatic(SplitClean(prefix), SplitClean(pattern))
  {
    StaticIsLongest(SplitClean(pattern));
    var keep := KeepStatic(SplitClean(pattern));
    assert Tidy(false, keep) by {
      SplitNoSlash(pattern);
      BusyTidy(Split(pattern));
    }
    JoinedBack(keep);
    prefix := if keep == [] then "" else Join(keep);
  }

  lemma JoinedBack(keep: seq<string>)
    requires Tidy(false, keep)
    ensures SplitClean(if keep == [] then "" else Join(keep)) == keep
  {
    if keep == [] {
      SplitPlain("");
    } else {
      SplitJoin(keep);
      BusyOfTidy(keep);
    }
  }

  lemma {:induction false} BusyTidy(parts: seq<string>)
    requires NoSlash(parts)
    ensures Tidy(false, Busy(parts))
  {
    if parts != [] { BusyTidy(parts[1..]); }
  }

  lemma {:induction false} BusyOfTidy(parts: seq<string>)
    requires Tidy(false, parts)
    ensures Busy(parts) == parts
  {
    if parts != [] { BusyOfTidy(parts[1..]); }
  }
}
