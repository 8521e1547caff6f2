/**
 What the rewritten `paths` resolve to, compared with what baseUrl and the original `paths` resolved to.
 */
module PathsRewrite {
  import opened Wrappers
  import opened Sequences
  import opened SortedStrings
  import opened PathText
  import opened BaseUrl
  import opened PathPatterns
  import opened Rebasing

  // ----- patterns: tsgo/core/pattern.go and tsgo/module/resolver.go

  type Paths = map<string, seq<string>>

  /** A pattern with exactly one star. */
  predicate Wild(p: string) {
    StarAt(p) < |p| && '*' !in p[StarAt(p) + 1..]
  }

  predicate Matches(p: string, name: string)
    requires Wild(p)
  {
    var i := StarAt(p);
    |name| >= |p| - 1 && p[..i] <= name && name[|name| - (|p| - i - 1)..] == p[i + 1..]
  }

  predicate WildMatch(p: string, name: string) {
    Wild(p) && Matches(p, name)
  }

  /** What the star of a matching pattern stands for; empty for a pattern without one. */
  function MatchedText(p: string, name: string): string
    requires WildMatch(p, name) || '*' !in p
  {
    if '*' in p then name[StarAt(p)..|name| - |p| + StarAt(p) + 1] else ""
  }

  /** The wildcard with the longest text before its star; of equals, the first in the list. */
  function BestWild(order: seq<string>, name: string): (best: Option<string>)
    ensures best.Some? ==> best.value in order && WildMatch(best.value, name)
  {
    if order == [] then None
    else
      var p, best := order[|order| - 1], BestWild(order[..|order| - 1], name);
      if WildMatch(p, name) && (best.None? || StarAt(p) > StarAt(best.value)) then Some(p) else best
  }

  function Best(order: seq<string>, name: string): (best: Option<string>)
    ensures best.Some? ==> best.value in order && (WildMatch(best.value, name) || (best.value == name && '*' !in name))
  {
    if name in order && '*' !in name then Some(name) else BestWild(order, name)
  }

  /** The reference: an exact key, or else a matching wildcard that no other matching one beats. */
  ghost predicate IsBest(keys: set<string>, name: string, p: string) {
    && p in keys
    && if name in keys && '*' !in name then p == name
       else WildMatch(p, name) && forall q :: q in keys && WildMatch(q, name) ==> StarAt(q) <= StarAt(p)
  }

  /** The keys in some order, each once. */
  ghost predicate Lists(order: seq<string>, keys: set<string>) {
    Distinct(order) && forall k :: k in order <==> k in keys
  }

  lemma {:induction false} BestWildIsLongest(order: seq<string>, name: string, q: string)
    requires q in order && WildMatch(q, name)
    ensures BestWild(order, name).Some? && StarAt(q) <= StarAt(BestWild(order, name).value)
  {
    var init := order[..|order| - 1];
    assert order == init + [order[|order| - 1]];
    if q in init { BestWildIsLongest(init, name, q); }
  }

  lemma BestIsBest(order: seq<string>, keys: set<string>, name: string)
    requires Lists(order, keys)
    ensures Best(order, name).Some? ==> IsBest(keys, name, Best(order, name).value)
    ensures Best(order, name).None? ==> forall p :: !IsBest(keys, name, p)
  {
    forall q | q in keys && WildMatch(q, name)
      ensures BestWild(order, name).Some? && StarAt(q) <= StarAt(BestWild(order, name).value)
    {
      BestWildIsLongest(order, name, q);
    }
  }

  /** No two patterns are equally good for the name. */
  ghost predicate NoTie(keys: set<string>, name: string) {
    forall p, q :: IsBest(keys, name, p) && IsBest(keys, name, q) ==> p == q
  }

  ghost predicate SameInAnyOrder(keys: set<string>, name: string) {
    forall a, b :: Lists(a, keys) && Lists(b, keys) ==> Best(a, name) == Best(b, name)
  }

  /** The pattern picked does not depend on the order of the keys exactly when there is no tie. */
  lemma OrderIrrelevantExactly(keys: set<string>, name: string)
    ensures SameInAnyOrder(keys, name) <==> NoTie(keys, name)
  {
    forall a, b | Lists(a, keys) && Lists(b, keys) && NoTie(keys, name) ensures Best(a, name) == Best(b, name) {
      BestIsBest(a, keys, name);
      BestIsBest(b, keys, name);
    }
    if SameInAnyOrder(keys, name) {
      forall p, q | IsBest(keys, name, p) && IsBest(keys, name, q) ensures p == q {
        FirstWins(p, ListOf(keys - {p}), keys, name);
        FirstWins(q, ListOf(keys - {q}), keys, name);
      }
    }
  }

  ghost function ListOf(keys: set<string>): (order: seq<string>)
    ensures Lists(order, keys)
  {
    if keys == {} then [] else
      var k :| k in keys;
      [k] + ListOf(keys - {k})
  }

  lemma FirstWins(p: string, rest: seq<string>, keys: set<string>, name: string)
    requires Lists(rest, keys - {p}) && IsBest(keys, name, p)
    ensures Lists([p] + rest, keys) && Best([p] + rest, name) == Some(p)
  {
    assert ([p] + rest)[0] == p;
    if !(name in keys && '*' !in name) { FirstWildWins(p, rest, name); }
  }

  lemma {:induction false} FirstWildWins(p: string, rest: seq<string>, name: string)
    requires WildMatch(p, name) && forall q :: q in rest && WildMatch(q, name) ==> StarAt(q) <= StarAt(p)
    ensures BestWild([p] + rest, name) == Some(p)
  {
    if rest == [] {
      assert ([p] + rest)[..0] == [];
    } else {
      var init := rest[..|rest| - 1];
      assert ([p] + rest)[..|rest|] == [p] + init;
      FirstWildWins(p, init, name);
    }
  }

  /** Distinct texts before the star rule out every tie. */
  lemma DistinctPrefixesNoTie(keys: set<string>, name: string)
    requires forall p, q :: p in keys && q in keys && Wild(p) && Wild(q) && p[..StarAt(p)] == q[..StarAt(q)] ==> p == q
    ensures NoTie(keys, name)
  {
  }

  lemma ThreePieces(name: string, i: nat, j: nat)
    requires i <= j <= |name|
    ensures name == name[..i] + name[i..j] + name[j..]
  {
  }

  /** A pattern with the matched text in place of its star is the name. */
  lemma MatchedTextFits(p: string, name: string)
    requires WildMatch(p, name) || (p == name && '*' !in name)
    ensures Subst(p, MatchedText(p, name)) == name
  {
    StarAtStar(p);
    if '*' in p {
      var i := StarAt(p);
      var j := |name| - (|p| - i - 1);
      SubstAtStar(p, name[i..j]);
      ThreePieces(name, i, j);
      assert name[..i] == Left(p) && name[j..] == Right(p);
    } else {
      SubstNothing(p, "");
    }
  }

  // ----- patterns in sorted order

  /** The picked wildcard comes before every other one that is as good. */
  lemma {:induction false} BestWildIsFirst(order: seq<string>, name: string) returns (i: nat)
    requires BestWild(order, name).Some?
    ensures i < |order| && order[i] == BestWild(order, name).value
    ensures forall j :: 0 <= j < i && WildMatch(order[j], name) ==> StarAt(order[j]) < StarAt(order[i])
  {
    var init := order[..|order| - 1];
    if BestWild(init, name) == BestWild(order, name) {
      i := BestWildIsFirst(init, name);
      assert forall j :: 0 <= j < |init| ==> init[j] == order[j];
    } else {
      i := |order| - 1;
      forall j | 0 <= j < i && WildMatch(order[j], name) ensures StarAt(order[j]) < StarAt(order[i]) {
        assert init[j] == order[j] && init[j] in init;
        BestWildIsLongest(init, name, order[j]);
      }
    }
  }

  /** The least pattern of those that no other beats. */
  ghost predicate IsPick(keys: set<string>, name: string, p: string) {
    IsBest(keys, name, p) && forall r :: IsBest(keys, name, r) && r != p ==> LexLess(p, r)
  }

  /** From sorted keys, as the rewritten file has them, the least of the best patterns is picked. */
  lemma SortedPick(sorted: seq<string>, keys: set<string>, name: string)
    requires SortsSet(sorted, keys)
    ensures Best(sorted, name).Some? ==> IsPick(keys, name, Best(sorted, name).value)
    ensures Best(sorted, name).None? ==> forall p :: !IsBest(keys, name, p)
  {
    SortedDistinct(sorted);
    BestIsBest(sorted, keys, name);
    if Best(sorted, name).Some? && !(name in keys && '*' !in name) {
      var p := Best(sorted, name).value;
      var i := BestWildIsFirst(sorted, name);
      forall r | IsBest(keys, name, r) && r != p ensures LexLess(p, r) {
        var j :| 0 <= j < |sorted| && sorted[j] == r;
        assert StarAt(r) == StarAt(p);
        assert i < j;
      }
    }
  }

  // ----- the candidates before and after

  ghost function PlacesOf(dir: seq<Part>, subs: seq<string>, m: string): seq<seq<Part>> {
    seq(|subs|, i requires 0 <= i < |subs| => Place(dir, Subst(subs[i], m)))
  }

  /** The places tried with baseUrl: those of the best pattern under the base directory, then the name itself. */
  ghost function Before(dir: seq<Part>, baseUrl: string, paths: Paths, order: seq<string>, name: string): seq<seq<Part>>
    requires Lists(order, paths.Keys)
  {
    var base, best := Base(dir, baseUrl), Best(order, name);
    (if best.None? then [] else PlacesOf(base, paths[best.value], MatchedText(best.value, name))) + [Place(base, name)]
  }

  /** The places tried without baseUrl: those of the best pattern under the config directory. */
  ghost function After(dir: seq<Part>, paths: Paths, order: seq<string>, name: string): seq<seq<Part>>
    requires Lists(order, paths.Keys)
  {
    var best := Best(order, name);
    if best.None? then [] else PlacesOf(dir, paths[best.value], MatchedText(best.value, name))
  }

  function Rebased(prefix: string, subs: seq<string>): seq<string> {
    seq(|subs|, i requires 0 <= i < |subs| => Rebase(prefix, subs[i]))
  }

  function RewrittenSubs(prefix: string, paths: Paths, p: string): seq<string> {
    Rebased(prefix, if p in paths then paths[p] else []) + [if p == "*" then prefix + "*" else Rebase(prefix, p)]
  }

  function Rewritten(prefix: string, paths: Paths): Paths {
    map p | p in paths.Keys + {"*"} :: RewrittenSubs(prefix, paths, p)
  }

  /** A text whose rebased form means the same: absolute, or relative, keeping its form and turned neither absolute nor
      relative by cleaning. */
  predicate Portable(prefix: string, s: string) {
    IsAbsolute(s) || (Anchored(prefix, s) && MeansSame(prefix, s))
  }

  /** The pattern itself is rebased for the fallback; "*" is not. */
  predicate FallbackPortable(prefix: string, p: string) {
    p == "*" || Portable(prefix, p)
  }

  /** No substitution loses its place to the text the star stands for. */
  ghost predicate MatchesKept(baseUrl: string, paths: Paths, p: string, name: string)
    requires p in paths && (WildMatch(p, name) || '*' !in p)
  {
    forall i :: 0 <= i < |paths[p]| ==> MatchKept(baseUrl, paths[p][i], MatchedText(p, name))
  }

  lemma StarIsWild(name: string)
    ensures WildMatch("*", name) && StarAt("*") == 0 && MatchedText("*", name) == name
  {
    assert "*"[0] == '*' && '*' in "*";
    assert name[0..] == name;
  }

  lemma SubKeptExactly(baseUrl: string, s: string, m: string)
    requires BaseKept(baseUrl) && '*' !in baseUrl && Portable(Prefix(baseUrl), s)
    ensures (forall dir :: SamePlace(dir, baseUrl, s, m)) <==> MatchKept(baseUrl, s, m)
  {
    if IsAbsolute(s) {
      AbsoluteSubst(s, m);
      forall dir ensures SamePlace(dir, baseUrl, s, m) { }
    } else {
      MatchKeptExactly(baseUrl, s, m);
    }
  }

  ghost predicate SubsSame(dir: seq<Part>, baseUrl: string, subs: seq<string>, m: string) {
    PlacesOf(dir, Rebased(Prefix(baseUrl), subs), m) == PlacesOf(Base(dir, baseUrl), subs, m)
  }

  lemma SubsSameExactly(dir: seq<Part>, baseUrl: string, subs: seq<string>, m: string)
    ensures SubsSame(dir, baseUrl, subs, m) <==> forall i :: 0 <= i < |subs| ==> SamePlace(dir, baseUrl, subs[i], m)
  {
    var now, was := PlacesOf(dir, Rebased(Prefix(baseUrl), subs), m), PlacesOf(Base(dir, baseUrl), subs, m);
    assert forall i :: 0 <= i < |subs| ==> (now[i] == was[i] <==> SamePlace(dir, baseUrl, subs[i], m));
    if forall i :: 0 <= i < |subs| ==> SamePlace(dir, baseUrl, subs[i], m) { assert now == was; }
  }

  lemma UserSubsKeptExactly(baseUrl: string, subs: seq<string>, m: string)
    requires BaseKept(baseUrl) && '*' !in baseUrl
    requires forall i :: 0 <= i < |subs| ==> Portable(Prefix(baseUrl), subs[i])
    ensures
      (forall dir :: SubsSame(dir, baseUrl, subs, m)) <==>
      forall i :: 0 <= i < |subs| ==> MatchKept(baseUrl, subs[i], m)
  {
    forall dir { SubsSameExactly(dir, baseUrl, subs, m); }
    forall i | 0 <= i < |subs|
      ensures (forall dir :: SamePlace(dir, baseUrl, subs[i], m)) <==> MatchKept(baseUrl, subs[i], m)
    {
      SubKeptExactly(baseUrl, subs[i], m);
    }
    if forall dir :: SubsSame(dir, baseUrl, subs, m) {
      forall i | 0 <= i < |subs| ensures MatchKept(baseUrl, subs[i], m) {
        forall dir ensures SamePlace(dir, baseUrl, subs[i], m) { assert SubsSame(dir, baseUrl, subs, m); }
      }
    }
  }

  lemma FallbackKept(dir: seq<Part>, baseUrl: string, p: string, name: string)
    requires BaseKept(baseUrl) && '*' !in baseUrl && FallbackPortable(Prefix(baseUrl), p) && !IsAbsolute(name)
    requires WildMatch(p, name) || (p == name && '*' !in name)
    ensures
      var last := if p == "*" then Prefix(baseUrl) + "*" else Rebase(Prefix(baseUrl), p);
      Place(dir, Subst(last, MatchedText(p, name))) == Place(Base(dir, baseUrl), name)
  {
    MatchedTextFits(p, name);
    if p == "*" {
      StarIsWild(name);
      WildPlace(dir, baseUrl, name);
    } else {
      RelativePattern(p, name);
      RebasedPlace(dir, baseUrl, p, MatchedText(p, name));
    }
  }

  /** A pattern that matches a relative name is relative. */
  lemma RelativePattern(p: string, name: string)
    requires WildMatch(p, name) || '*' !in p
    requires Subst(p, MatchedText(p, name)) == name && !IsAbsolute(name)
    ensures !IsAbsolute(p)
  {
    if IsAbsolute(p) { AbsoluteSubst(p, MatchedText(p, name)); }
  }

  lemma PlacesOfMore(dir: seq<Part>, subs: seq<string>, last: string, m: string)
    ensures PlacesOf(dir, subs + [last], m) == PlacesOf(dir, subs, m) + [Place(dir, Subst(last, m))]
  {
  }

  // ----- exactly when lookups are preserved

  /** The rewritten configuration tries the same places in the same order. */
  ghost predicate SameLookup(
    dir: seq<Part>, baseUrl: string, paths: Paths, order: seq<string>, newOrder: seq<string>, name: string)
    requires Lists(order, paths.Keys) && Lists(newOrder, paths.Keys + {"*"})
  {
    After(dir, Rewritten(Prefix(baseUrl), paths), newOrder, name) == Before(dir, baseUrl, paths, order, name)
  }

  /** The substitutions a pattern has before the rewrite. */
  function SubsOf(paths: Paths, p: string): seq<string> {
    if p in paths then paths[p] else []
  }

  /** The rebased substitutions of `p` lead where those of `q` led under the base directory. */
  ghost predicate SubsAgree(dir: seq<Part>, baseUrl: string, paths: Paths, p: string, q: string, name: string)
    requires (WildMatch(p, name) || '*' !in p) && (WildMatch(q, name) || '*' !in q)
  {
    PlacesOf(dir, Rebased(Prefix(baseUrl), SubsOf(paths, p)), MatchedText(p, name)) ==
    PlacesOf(Base(dir, baseUrl), SubsOf(paths, q), MatchedText(q, name))
  }

  /** After the rewrite a pattern's rebased substitutions are tried, and then the name under the base directory. */
  lemma SubsThenName(dir: seq<Part>, baseUrl: string, paths: Paths, p: string, name: string)
    requires BaseKept(baseUrl) && '*' !in baseUrl && FallbackPortable(Prefix(baseUrl), p) && !IsAbsolute(name)
    requires WildMatch(p, name) || (p == name && '*' !in name)
    ensures
      var prefix, m := Prefix(baseUrl), MatchedText(p, name);
      PlacesOf(dir, RewrittenSubs(prefix, paths, p), m) ==
      PlacesOf(dir, Rebased(prefix, SubsOf(paths, p)), m) + [Place(Base(dir, baseUrl), name)]
  {
    var prefix, m := Prefix(baseUrl), MatchedText(p, name);
    FallbackKept(dir, baseUrl, p, name);
    PlacesOfMore(dir, Rebased(prefix, SubsOf(paths, p)), if p == "*" then prefix + "*" else Rebase(prefix, p), m);
  }

  lemma SameButLast<T>(a: seq<T>, b: seq<T>, x: T)
    ensures a + [x] == b + [x] <==> a == b
  {
    if a + [x] == b + [x] {
      assert a == (a + [x])[..|a|] && b == (b + [x])[..|b|];
    }
  }

  /** Some pattern is always picked after the rewrite; if none was before, it is the added "*". */
  lemma SomethingPicked(keys: set<string>, order: seq<string>, newOrder: seq<string>, name: string)
    requires Lists(order, keys) && Lists(newOrder, keys + {"*"})
    ensures Best(newOrder, name).Some?
    ensures Best(order, name).None? ==> Best(newOrder, name) == Some("*") && "*" !in keys
  {
    StarIsWild(name);
    BestWildIsLongest(newOrder, name, "*");
    if Best(order, name).None? {
      var p := Best(newOrder, name).value;
      if WildMatch(p, name) && p in order { BestWildIsLongest(order, name, p); }
      if "*" in order { BestWildIsLongest(order, name, "*"); }
      assert name == "*" ==> name[0] == '*';
    }
  }

  lemma SameLookupExactly(
    dir: seq<Part>, baseUrl: string, paths: Paths, order: seq<string>, newOrder: seq<string>, name: string,
    p: string, q: string)
    requires BaseKept(baseUrl) && '*' !in baseUrl && !IsAbsolute(name) && FallbackPortable(Prefix(baseUrl), p)
    requires Lists(order, paths.Keys) && Lists(newOrder, paths.Keys + {"*"})
    requires Best(order, name) == Some(q) && Best(newOrder, name) == Some(p)
    ensures SameLookup(dir, baseUrl, paths, order, newOrder, name) <==> SubsAgree(dir, baseUrl, paths, p, q, name)
  {
    var prefix, base := Prefix(baseUrl), Base(dir, baseUrl);
    SubsThenName(dir, baseUrl, paths, p, name);
    assert Rewritten(prefix, paths)[p] == RewrittenSubs(prefix, paths, p);
    SameButLast(
      PlacesOf(dir, Rebased(prefix, SubsOf(paths, p)), MatchedText(p, name)),
      PlacesOf(base, paths[q], MatchedText(q, name)), Place(base, name));
  }

  lemma NoPatternBefore(
    dir: seq<Part>, baseUrl: string, paths: Paths, order: seq<string>, newOrder: seq<string>, name: string)
    requires BaseKept(baseUrl) && '*' !in baseUrl && !IsAbsolute(name) && "*" !in paths
    requires Lists(order, paths.Keys) && Lists(newOrder, paths.Keys + {"*"})
    requires Best(order, name).None? && Best(newOrder, name) == Some("*")
    ensures SameLookup(dir, baseUrl, paths, order, newOrder, name)
  {
    StarIsWild(name);
    SubsThenName(dir, baseUrl, paths, "*", name);
    assert Rewritten(Prefix(baseUrl), paths)["*"] == RewrittenSubs(Prefix(baseUrl), paths, "*");
    assert PlacesOf(dir, Rebased(Prefix(baseUrl), []), MatchedText("*", name)) == [];
  }

  /**
   For a module name that is neither relative nor absolute, the rewritten configuration tries the same places in the
   same order exactly when no pattern was picked before, or the substitutions of the pattern picked now lead, rebased,
   where those of the pattern picked before led; in any order of the keys, with or without ties.
   */
  lemma RewritePreservesLookup(
    dir: seq<Part>, baseUrl: string, paths: Paths, order: seq<string>, newOrder: seq<string>, name: string)
    requires BaseKept(baseUrl) && '*' !in baseUrl && !IsAbsolute(name)
    requires Lists(order, paths.Keys) && Lists(newOrder, paths.Keys + {"*"})
    requires Best(newOrder, name).Some? ==> FallbackPortable(Prefix(baseUrl), Best(newOrder, name).value)
    ensures Best(newOrder, name).Some?
    ensures
      SameLookup(dir, baseUrl, paths, order, newOrder, name) <==>
      (Best(order, name).Some? ==>
        SubsAgree(dir, baseUrl, paths, Best(newOrder, name).value, Best(order, name).value, name))
  {
    SomethingPicked(paths.Keys, order, newOrder, name);
    if Best(order, name).Some? {
      SameLookupExactly(
        dir, baseUrl, paths, order, newOrder, name, Best(newOrder, name).value, Best(order, name).value);
    } else {
      NoPatternBefore(dir, baseUrl, paths, order, newOrder, name);
    }
  }

  // ----- the order of the written file: its keys are sorted

  /** What decides a lookup, with `p` picked now and `q` before: the same pattern keeps the places of its matches, the
      added "*" takes the place of a pattern without substitutions, and another pattern leads to the same places. */
  ghost predicate LookupKept(baseUrl: string, paths: Paths, p: string, q: string, name: string)
    requires q in paths && (WildMatch(p, name) || '*' !in p) && (WildMatch(q, name) || '*' !in q)
  {
    if p == q then MatchesKept(baseUrl, paths, q, name)
    else if p !in paths then paths[q] == []
    else forall dir :: SubsAgree(dir, baseUrl, paths, p, q, name)
  }

  lemma LookupKeptExactly(baseUrl: string, paths: Paths, p: string, q: string, name: string)
    requires BaseKept(baseUrl) && '*' !in baseUrl && q in paths
    requires (WildMatch(p, name) || '*' !in p) && (WildMatch(q, name) || '*' !in q)
    requires p == q ==> forall i :: 0 <= i < |paths[q]| ==> Portable(Prefix(baseUrl), paths[q][i])
    ensures (forall dir :: SubsAgree(dir, baseUrl, paths, p, q, name)) <==> LookupKept(baseUrl, paths, p, q, name)
  {
    if p == q {
      var m := MatchedText(q, name);
      UserSubsKeptExactly(baseUrl, paths[q], m);
      forall dir ensures SubsAgree(dir, baseUrl, paths, p, q, name) <==> SubsSame(dir, baseUrl, paths[q], m) { }
    } else if p !in paths {
      forall dir ensures SubsAgree(dir, baseUrl, paths, p, q, name) <==> paths[q] == [] {
        assert |PlacesOf(dir, Rebased(Prefix(baseUrl), []), MatchedText(p, name))| == 0;
        assert |PlacesOf(Base(dir, baseUrl), paths[q], MatchedText(q, name))| == |paths[q]|;
      }
      assert SubsAgree([], baseUrl, paths, p, q, name) <==> paths[q] == [];
    }
  }

  /**
   With the keys sorted, as the rewritten file has them, the least of the best patterns is picked, and a lookup is
   preserved in every directory exactly when no pattern was picked before or `LookupKept` holds of the two.
   */
  lemma LookupPreservedExactly(baseUrl: string, paths: Paths, order: seq<string>, sorted: seq<string>, name: string)
    requires BaseKept(baseUrl) && '*' !in baseUrl && !IsAbsolute(name)
    requires Lists(order, paths.Keys) && SortsSet(sorted, paths.Keys + {"*"}) && Lists(sorted, paths.Keys + {"*"})
    requires Best(sorted, name).Some? ==> FallbackPortable(Prefix(baseUrl), Best(sorted, name).value)
    requires Best(order, name).Some? && Best(sorted, name) == Best(order, name) ==>
      forall s :: s in paths[Best(order, name).value] ==> Portable(Prefix(baseUrl), s)
    ensures Best(sorted, name).Some? && IsPick(paths.Keys + {"*"}, name, Best(sorted, name).value)
    ensures
      (forall dir :: SameLookup(dir, baseUrl, paths, order, sorted, name)) <==>
      (Best(order, name).Some? ==>
        LookupKept(baseUrl, paths, Best(sorted, name).value, Best(order, name).value, name))
  {
    SomethingPicked(paths.Keys, order, sorted, name);
    SortedPick(sorted, paths.Keys + {"*"}, name);
    var p := Best(sorted, name).value;
    if Best(order, name).Some? {
      var q := Best(order, name).value;
      if p == q { forall i | 0 <= i < |paths[q]| ensures Portable(Prefix(baseUrl), paths[q][i]) { } }
      LookupKeptExactly(baseUrl, paths, p, q, name);
      forall dir ensures
        SameLookup(dir, baseUrl, paths, order, sorted, name) <==> SubsAgree(dir, baseUrl, paths, p, q, name)
      {
        SameLookupExactly(dir, baseUrl, paths, order, sorted, name, p, q);
      }
    } else {
      forall dir ensures SameLookup(dir, baseUrl, paths, order, sorted, name) {
        NoPatternBefore(dir, baseUrl, paths, order, sorted, name);
      }
    }
  }

  lemma StarIsLeast(q: string)
    requires q != "" && q[0] == '*' && q != "*"
    ensures LexLess("*", q)
  {
    assert q == ['*'] + q[1..] && "*"[1..] == "";
  }

  /** A pattern that starts with its star loses to the added "*": only the name under the base directory is tried. */
  lemma StarSuffixLost(
    dir: seq<Part>, baseUrl: string, paths: Paths, order: seq<string>, sorted: seq<string>, name: string, q: string)
    requires Lists(order, paths.Keys) && SortsSet(sorted, paths.Keys + {"*"}) && Lists(sorted, paths.Keys + {"*"})
    requires '*' !in baseUrl && BaseKept(baseUrl) && !IsAbsolute(name)
    requires Best(order, name) == Some(q) && "*" !in paths && q != "" && q[0] == '*'
    ensures Best(sorted, name) == Some("*")
    ensures After(dir, Rewritten(Prefix(baseUrl), paths), sorted, name) == [Place(Base(dir, baseUrl), name)]
    ensures |Before(dir, baseUrl, paths, order, name)| == |paths[q]| + 1
  {
    BestIsBest(order, paths.Keys, name);
    StarIsWild(name);
    assert IsBest(paths.Keys, name, q) && StarAt(q) == 0;
    assert name == "*" ==> name[0] == '*';
    assert IsBest(paths.Keys + {"*"}, name, "*");
    SomethingPicked(paths.Keys, order, sorted, name);
    SortedPick(sorted, paths.Keys + {"*"}, name);
    var p := Best(sorted, name).value;
    if p != "*" {
      StarAtStar(p);
      StarIsLeast(p);
      LexTransitive("*", p, "*");
      LexIrreflexive("*");
    }
    SubsThenName(dir, baseUrl, paths, "*", name);
    assert Rewritten(Prefix(baseUrl), paths)["*"] == RewrittenSubs(Prefix(baseUrl), paths, "*");
    assert PlacesOf(dir, Rebased(Prefix(baseUrl), []), MatchedText("*", name)) == [];
  }

  // ----- the rewrite as it runs

  /** Rebases the substitutions of one pattern. */
  method RebaseAll(prefix: string, subs: seq<string>) returns (out: seq<string>)
    ensures out == Rebased(prefix, subs)
  {
    out := [];
    var i := 0;
    while i < |subs|
      invariant 0 <= i <= |subs| && out == Rebased(prefix, subs[..i])
    {
      out := out + [Rebase(prefix, subs[i])];
      i := i + 1;
    }
    assert subs[..i] == subs;
  }

  /** `paths` with the patterns outside `todo` rewritten, the wildcard not added yet. */
  ghost predicate PartlyRewritten(prefix: string, given: Paths, paths: Paths, todo: set<string>) {
    && paths.Keys == given.Keys && todo <= paths.Keys
    && (forall p :: p in todo ==> paths[p] == given[p])
    && (forall p :: p in paths.Keys - todo && p != "*" ==> paths[p] == RewrittenSubs(prefix, given, p))
    && ("*" in paths.Keys - todo ==> paths["*"] == Rebased(prefix, given["*"]))
  }

  method RewritePatterns(prefix: string, given: Paths) returns (paths: Paths)
    ensures PartlyRewritten(prefix, given, paths, {})
  {
    paths := given;
    var todo := paths.Keys;
    while todo != {}
      invariant PartlyRewritten(prefix, given, paths, todo)
      decreases |todo|
    {
      var pattern :| pattern in todo;
      var out := RebaseAll(prefix, paths[pattern]);
      if pattern != "*" { out := out + [Rebase(prefix, pattern)]; }
      paths := paths[pattern := out];
      todo := todo - {pattern};
    }
  }

  lemma AllRewritten(prefix: string, given: Paths, paths: Paths)
    requires PartlyRewritten(prefix, given, paths, {})
    ensures
      paths["*" := (if "*" in paths then paths["*"] else []) + [prefix + "*"]] == Rewritten(prefix, given)
  {
    assert Rebased(prefix, []) == [];
  }

  /** A text that starts with a slash, a backslash or a drive letter and a colon. */
  ghost predicate StartsAtRoot(s: string) {
    || (|s| >= 1 && (s[0] == '/' || s[0] == '\\'))
    || (|s| >= 2 && ('A' <= s[0] <= 'Z' || 'a' <= s[0] <= 'z') && s[1] == ':')
  }

  /** A substitution like "C:/x" or "/x" comes out unchanged, in its place. */
  lemma AbsoluteStays(baseUrl: string, paths: Paths, p: string, i: nat)
    requires p in paths && i < |paths[p]| && StartsAtRoot(paths[p][i])
    ensures
      var after := Rewritten(Prefix(baseUrl), paths);
      p in after && i < |after[p]| && after[p][i] == paths[p][i]
  {
  }

  /** Rewrites the patterns in some order and adds the wildcard; without `paths` it becomes the only entry. */
  method InjectBaseURLPaths(given: Option<Paths>, baseUrl: string) returns (paths: Paths)
    ensures paths == Rewritten(Prefix(baseUrl), if given.Some? then given.value else map[])
  {
    var prefix := Prefix(baseUrl);
    var wild := prefix + "*";
    assert [] + [wild] == [wild];
    if given.None? {
      AllRewritten(prefix, map[], map[]);
      return map["*" := [wild]];
    }
    paths := RewritePatterns(prefix, given.value);
    AllRewritten(prefix, given.value, paths);
    if "*" in paths {
      paths := paths["*" := paths["*"] + [wild]];
    } else {
      paths := paths["*" := [wild]];
    }
  }
}
