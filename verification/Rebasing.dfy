/**
 One substitution of the `paths` rewrite: when the rebased text means, from the config directory, what the original
 means from the base directory.
 */
module Rebasing {
  import opened PathText
  import opened Climbing
  import opened BaseUrl
  import opened PathPatterns

  // ----- components

  lemma ForwardConcat(a: string, b: string)
    ensures ForwardSlashes(a + b) == ForwardSlashes(a) + ForwardSlashes(b)
  {
  }

  lemma ForwardHead(c: char, s: string)
    ensures ForwardSlashes([c] + s) == [if c == '\\' then '/' else c] + ForwardSlashes(s)
  {
  }

  lemma {:induction false} ForwardSubst(s: string, m: string)
    ensures ForwardSlashes(Subst(s, m)) == Subst(ForwardSlashes(s), ForwardSlashes(m))
  {
    if s != "" {
      assert s == [s[0]] + s[1..];
      ForwardHead(s[0], s[1..]);
      var u := ForwardSlashes(s[1..]);
      assert ForwardSlashes(s)[1..] == u;
      if s[0] == '*' {
        ForwardConcat(m, s[1..]);
      } else {
        ForwardHead(s[0], Subst(s[1..], m));
        ForwardSubst(s[1..], m);
      }
    }
  }

  lemma {:induction false} SubstAfter(a: string, s: string, m: string)
    requires '*' !in a
    ensures Subst(a + s, m) == a + Subst(s, m)
  {
    if a == "" {
      assert a + s == s && a + Subst(s, m) == Subst(s, m);
    } else {
      assert (a + s)[0] == a[0] && (a + s)[1..] == a[1..] + s;
      SubstAfter(a[1..], s, m);
      assert [a[0]] + (a[1..] + Subst(s, m)) == a + Subst(s, m);
    }
  }

  /** Where a text leads once its star is replaced. */
  lemma SubstLead(at: seq<Part>, t: string, m: string)
    ensures Walk(at, Components(Subst(t, m))) == Lead(at, FormOf(Components(t)), ForwardSlashes(m))
  {
    ForwardSubst(t, m);
    SplitSubst(ForwardSlashes(t), ForwardSlashes(m));
    LeadIs(at, Components(t), ForwardSlashes(m));
  }

  predicate EndsInSlash(prefix: string) {
    prefix != "" && prefix[|prefix| - 1] == '/'
  }

  function PrefixParts(prefix: string): seq<Part>
    requires EndsInSlash(prefix)
  {
    Split(prefix[..|prefix| - 1])
  }

  /** The components of `prefix + s` for a prefix that ends in a slash. */
  lemma PrefixedComponents(prefix: string, s: string)
    requires EndsInSlash(prefix) && '\\' !in prefix
    ensures Components(prefix + s) == PrefixParts(prefix) + Components(s)
    ensures Split(prefix + s) == PrefixParts(prefix) + Split(s)
    ensures forall at :: Walk(at, Split(prefix)) == Walk(at, PrefixParts(prefix))
  {
    var p := prefix[..|prefix| - 1];
    assert prefix == p + "/" + "" && prefix + s == p + "/" + s;
    ForwardConcat(prefix, s);
    PlainComponents(prefix);
    assert prefix + ForwardSlashes(s) == p + "/" + ForwardSlashes(s);
    SplitAtSlash(p, ForwardSlashes(s));
    SplitAtSlash(p, s);
    SplitAtSlash(p, "");
    forall at ensures Walk(at, Split(prefix)) == Walk(at, Split(p)) { IdleEnd(at, Split(p), ""); }
  }

  /** Where the original leads from the base directory. */
  lemma PrefixedLead(prefix: string, s: string, at: seq<Part>, m: string)
    requires EndsInSlash(prefix) && '\\' !in prefix && '*' !in prefix
    ensures
      Walk(Walk(at, Split(prefix)), Components(Subst(s, m))) ==
      Lead(at, FormOf(Components(prefix + s)), ForwardSlashes(m))
  {
    SubstLead(at, prefix + s, m);
    SubstAfter(prefix, s, m);
    PrefixedComponents(prefix, Subst(s, m));
    WalkConcat(at, PrefixParts(prefix), Components(Subst(s, m)));
  }

  lemma ComponentsProper(s: string)
    ensures Proper(FormOf(Components(s)))
  {
    SplitNoSlash(ForwardSlashes(s));
    FormIsProper(Components(s));
  }

  // ----- places

  /** Cleaning turns the rebased text neither absolute nor relative. */
  predicate Anchored(prefix: string, s: string) {
    IsAbsolute(Clean(prefix + TrimDot(s))) <==> IsAbsolute(prefix)
  }

  lemma AbsoluteSubst(s: string, m: string)
    requires IsAbsolute(s)
    ensures IsAbsolute(Subst(s, m))
  {
    if s[0] != '/' && s[0] != '\\' {
      assert Subst(s, m) == [s[0]] + Subst(s[1..], m);
      assert Subst(s[1..], m) == [s[1]] + Subst(s[1..][1..], m);
    }
  }

  lemma RebaseAbsolute(prefix: string, s: string, m: string)
    requires !IsAbsolute(s) && Anchored(prefix, s)
    ensures IsAbsolute(Subst(Rebase(prefix, s), m)) <==> IsAbsolute(prefix)
  {
    var r := Rebase(prefix, s);
    if IsAbsolute(prefix) {
      AbsoluteSubst(r, m);
    } else {
      assert r[0] == '.';
      assert Subst(r, m)[0] == '.';
    }
  }

  ghost function Base(dir: seq<Part>, baseUrl: string): seq<Part> {
    Place(dir, ForwardSlashes(baseUrl))
  }

  lemma PrefixStarless(baseUrl: string)
    requires '*' !in baseUrl
    ensures '*' !in Prefix(baseUrl)
  {
    var u := ForwardSlashes(baseUrl);
    assert '*' !in u;
    assert '*' !in TrimDot(u);
    assert '*' !in BaseText(baseUrl);
  }

  /** The rebased text names, from the config directory, what the original names from the base directory. */
  ghost predicate SamePlace(dir: seq<Part>, baseUrl: string, s: string, m: string) {
    Place(dir, Subst(Rebase(Prefix(baseUrl), s), m)) == Place(Base(dir, baseUrl), Subst(s, m))
  }

  /** The rebased text and the original one behind the prefix have the same form, up to cleaning. */
  predicate MeansSame(prefix: string, s: string) {
    var f, g := FormOf(Components(Rebase(prefix, s))), FormOf(Components(prefix + s));
    if IsAbsolute(prefix) then SameFrom([], f, g) else SameEverywhere(f, g)
  }

  /** Where a substitution starts from. */
  function From(dir: seq<Part>, prefix: string): seq<Part> {
    if IsAbsolute(prefix) then [] else dir
  }

  lemma BaseIs(dir: seq<Part>, baseUrl: string)
    requires BaseKept(baseUrl)
    ensures Base(dir, baseUrl) == Walk(From(dir, Prefix(baseUrl)), Split(Prefix(baseUrl)))
  {
    PrefixNamesBaseExactly(baseUrl);
    assert NamesBase(baseUrl, dir);
    PrefixComponents(baseUrl);
    PlainComponents(Prefix(baseUrl));
  }

  /** Both places of a substitution, as the forms give them. */
  lemma BothLeads(dir: seq<Part>, baseUrl: string, s: string, m: string)
    requires BaseKept(baseUrl) && '*' !in baseUrl && !IsAbsolute(s) && Anchored(Prefix(baseUrl), s)
    ensures
      var prefix, at := Prefix(baseUrl), From(dir, Prefix(baseUrl));
      && Place(dir, Subst(Rebase(prefix, s), m)) == Lead(at, FormOf(Components(Rebase(prefix, s))), ForwardSlashes(m))
      && Walk(Base(dir, baseUrl), Components(Subst(s, m))) ==
        Lead(at, FormOf(Components(prefix + s)), ForwardSlashes(m))
  {
    var prefix, at := Prefix(baseUrl), From(dir, Prefix(baseUrl));
    BaseIs(dir, baseUrl);
    PrefixWalks(dir, baseUrl);
    PrefixStarless(baseUrl);
    PrefixComponents(baseUrl);
    RebaseAbsolute(prefix, s, m);
    SubstLead(at, Rebase(prefix, s), m);
    PrefixedLead(prefix, s, at, m);
  }

  lemma MeaningKept(dir: seq<Part>, prefix: string, s: string, m: string)
    requires MeansSame(prefix, s)
    ensures Agree(From(dir, prefix), FormOf(Components(Rebase(prefix, s))), FormOf(Components(prefix + s)), m)
  {
    var f, g := FormOf(Components(Rebase(prefix, s))), FormOf(Components(prefix + s));
    ComponentsProper(Rebase(prefix, s));
    ComponentsProper(prefix + s);
    if !IsAbsolute(prefix) { SameEverywhereExactly(f, g); }
    SameFromAgrees(From(dir, prefix), f, g, m);
  }

  /** The place of a rebased text, also where the match makes the original one absolute. */
  lemma RebasedPlace(dir: seq<Part>, baseUrl: string, s: string, m: string)
    requires BaseKept(baseUrl) && '*' !in baseUrl && !IsAbsolute(s)
    requires Anchored(Prefix(baseUrl), s) && MeansSame(Prefix(baseUrl), s)
    ensures Place(dir, Subst(Rebase(Prefix(baseUrl), s), m)) == Walk(Base(dir, baseUrl), Components(Subst(s, m)))
  {
    BothLeads(dir, baseUrl, s, m);
    MeaningKept(dir, Prefix(baseUrl), s, ForwardSlashes(m));
  }

  /** The fallback for names no pattern matches, which is not cleaned. */
  lemma WildPlace(dir: seq<Part>, baseUrl: string, name: string)
    requires BaseKept(baseUrl) && '*' !in baseUrl && !IsAbsolute(name)
    ensures Place(dir, Subst(Prefix(baseUrl) + "*", name)) == Place(Base(dir, baseUrl), name)
  {
    var prefix := Prefix(baseUrl);
    PrefixStarless(baseUrl);
    PrefixComponents(baseUrl);
    SubstAfter(prefix, "*", name);
    assert Subst("*", name) == name by { assert name + "*"[1..] == name; }
    BaseIs(dir, baseUrl);
    PrefixWalks(dir, baseUrl);
    PrefixedComponents(prefix, name);
    WalkConcat(From(dir, prefix), PrefixParts(prefix), Components(name));
    assert IsAbsolute(prefix + name) <==> IsAbsolute(prefix);
  }

  // ----- texts that cleaning turns absolute or relative

  lemma HarmlessRelative(s: string, m: string)
    requires !IsAbsolute(s) && Harmless(m)
    ensures !IsAbsolute(Subst(s, m)) && ForwardSlashes(m) == m
  {
    if '*' in s {
      SubstAtStar(s, m);
    } else {
      SubstNothing(s, m);
    }
  }

  /** A walk that is not long enough to leave the start of a deep directory tells it from another one. */
  lemma DeepDiffer(parts: seq<Part>, size: nat)
    requires |parts| < size
    ensures Walk(seq(size, i => "a"), parts) != Walk(seq(size, i => "b"), parts)
  {
    WalkKeepsStart(seq(size, i => "a"), parts);
    WalkKeepsStart(seq(size, i => "b"), parts);
  }

  lemma AdriftAbsolute(prefix: string, s: string, m: string)
    requires !IsAbsolute(s) && !Anchored(prefix, s)
    ensures IsAbsolute(Subst(Rebase(prefix, s), m)) <==> !IsAbsolute(prefix)
  {
    var r := Rebase(prefix, s);
    if IsAbsolute(prefix) {
      assert r[0] == '.';
      assert Subst(r, m)[0] == '.';
    } else {
      AbsoluteSubst(r, m);
    }
  }

  lemma AdriftText(baseUrl: string, s: string) returns (dir: seq<Part>)
    requires BaseKept(baseUrl) && !IsAbsolute(s) && !Anchored(Prefix(baseUrl), s)
    ensures !IsAbsolute(Subst(s, "_")) && !SamePlace(dir, baseUrl, s, "_")
  {
    var m, r, base := "_", Rebase(Prefix(baseUrl), s), Components(ForwardSlashes(baseUrl));
    var was, now := Components(Subst(s, m)), Components(Subst(r, m));
    HarmlessRelative(s, m);
    PrefixWalks([], baseUrl);
    var size := |base| + |was| + |now| + 1;
    var a, b := seq(size, i => "a"), seq(size, i => "b");
    DeepDiffer(base + was, size);
    DeepDiffer(now, size);
    WalkConcat(a, base, was);
    WalkConcat(b, base, was);
    AdriftAbsolute(Prefix(baseUrl), s, m);
    dir := if SamePlace(a, baseUrl, s, m) then b else a;
  }

  // ----- exactly when a rebased text means the same

  ghost predicate SamePlaces(baseUrl: string, s: string) {
    forall dir, m :: !IsAbsolute(Subst(s, m)) ==> SamePlace(dir, baseUrl, s, m)
  }

  lemma MeaningLost(baseUrl: string, s: string) returns (dir: seq<Part>, m: string)
    requires BaseKept(baseUrl) && '*' !in baseUrl && !IsAbsolute(s)
    requires Anchored(Prefix(baseUrl), s) && !MeansSame(Prefix(baseUrl), s)
    ensures !IsAbsolute(Subst(s, m)) && !SamePlace(dir, baseUrl, s, m)
  {
    var prefix := Prefix(baseUrl);
    var f, g := FormOf(Components(Rebase(prefix, s))), FormOf(Components(prefix + s));
    ComponentsProper(Rebase(prefix, s));
    ComponentsProper(prefix + s);
    dir := [];
    if !IsAbsolute(prefix) {
      SameEverywhereExactly(f, g);
      dir :| !SameFrom(dir, f, g);
    }
    m := DifferenceShows(dir, f, g);
    HarmlessRelative(s, m);
    BothLeads(dir, baseUrl, s, m);
  }

  /** A relative text keeps its place, for every directory and every match that leaves it relative, exactly when
      cleaning turns it neither absolute nor relative and keeps its form: what its star is reached by and followed
      by. */
  lemma RebaseExactly(baseUrl: string, s: string)
    requires BaseKept(baseUrl) && '*' !in baseUrl && !IsAbsolute(s)
    ensures SamePlaces(baseUrl, s) <==> Anchored(Prefix(baseUrl), s) && MeansSame(Prefix(baseUrl), s)
  {
    if !Anchored(Prefix(baseUrl), s) {
      var dir := AdriftText(baseUrl, s);
    } else if !MeansSame(Prefix(baseUrl), s) {
      var dir, m := MeaningLost(baseUrl, s);
    } else {
      forall dir, m | !IsAbsolute(Subst(s, m)) ensures SamePlace(dir, baseUrl, s, m) {
        RebasedPlace(dir, baseUrl, s, m);
      }
    }
  }

  // ----- matches that make a relative text absolute

  /** The match leaves the text relative, or the text climbs from an absolute base directory up to the root. */
  predicate MatchKept(baseUrl: string, s: string, m: string) {
    || IsAbsolute(s)
    || !IsAbsolute(Subst(s, m))
    || (IsAbsolute(Prefix(baseUrl)) && |Walk([], Split(Prefix(baseUrl)))| <= Climbs(Components(Subst(s, m))))
  }

  lemma FromRootExactly(at: seq<Part>, parts: seq<Part>)
    requires NoSlash(parts)
    ensures Walk(at, parts) == Walk([], parts) <==> |at| <= Climbs(parts)
  {
    WalkShape(at, parts);
    WalkShape([], parts);
    assert |Walk(at, parts)| == |Above(at, Climbs(parts))| + |Descent(parts)|;
  }

  lemma SamePlaceExactly(dir: seq<Part>, baseUrl: string, s: string, m: string)
    requires BaseKept(baseUrl) && '*' !in baseUrl && !IsAbsolute(s) && IsAbsolute(Subst(s, m))
    requires Anchored(Prefix(baseUrl), s) && MeansSame(Prefix(baseUrl), s)
    ensures SamePlace(dir, baseUrl, s, m) <==> |Base(dir, baseUrl)| <= Climbs(Components(Subst(s, m)))
  {
    RebasedPlace(dir, baseUrl, s, m);
    SplitNoSlash(ForwardSlashes(Subst(s, m)));
    FromRootExactly(Base(dir, baseUrl), Components(Subst(s, m)));
  }

  /** Some directory puts a relative base deep down. */
  lemma DeepBase(baseUrl: string, depth: nat) returns (dir: seq<Part>)
    requires BaseKept(baseUrl) && !IsAbsolute(Prefix(baseUrl))
    ensures |Base(dir, baseUrl)| > depth
  {
    var base := Split(Prefix(baseUrl));
    dir := seq(Climbs(base) + depth + 1, i => "a");
    BaseIs(dir, baseUrl);
    SplitNoSlash(Prefix(baseUrl));
    WalkShape(dir, base);
  }

  /** A match keeps its place in every directory exactly when it leaves the text relative, or the text climbs from an
      absolute base directory up to the root. */
  lemma MatchKeptExactly(baseUrl: string, s: string, m: string)
    requires BaseKept(baseUrl) && '*' !in baseUrl && !IsAbsolute(s)
    requires Anchored(Prefix(baseUrl), s) && MeansSame(Prefix(baseUrl), s)
    ensures (forall dir :: SamePlace(dir, baseUrl, s, m)) <==> MatchKept(baseUrl, s, m)
  {
    if !IsAbsolute(Subst(s, m)) {
      forall dir ensures SamePlace(dir, baseUrl, s, m) { RebasedPlace(dir, baseUrl, s, m); }
    } else if IsAbsolute(Prefix(baseUrl)) {
      forall dir ensures SamePlace(dir, baseUrl, s, m) <==> MatchKept(baseUrl, s, m) {
        SamePlaceExactly(dir, baseUrl, s, m);
        BaseIs(dir, baseUrl);
      }
      assert SamePlace([], baseUrl, s, m) <==> MatchKept(baseUrl, s, m);
    } else {
      var dir := DeepBase(baseUrl, Climbs(Components(Subst(s, m))));
      SamePlaceExactly(dir, baseUrl, s, m);
    }
  }
}
