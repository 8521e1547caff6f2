/**
 One input for each way in which the `paths` rewrite is not equivalent, all with baseUrl "s".
 */
module RewriteExamples {
  import opened Wrappers
  import opened PathText
  import opened Climbing
  import opened BaseUrl
  import opened PathPatterns
  import opened Rebasing
  import opened Tangles
  import opened PathsRewrite

  lemma PrefixOfS()
    ensures Prefix("s") == "./s/" && BaseKept("s") && ForwardSlashes("s") == "s"
  {
    assert ForwardSlashes("s") == "s";
    assert "./" + "s" + "/" == "./s/";
  }

  lemma BeforeOfS()
    ensures EndsInSlash("./s/") && PrefixParts("./s/") == [".", "s"]
  {
    assert "./s/"[..3] == "./s" && "./s/"[3] == '/';
    assert "." + "/" + "s" == "./s";
    SplitAtSlash(".", "s");
    SplitPlain(".");
    SplitPlain("s");
  }

  lemma BaseOfS(dir: seq<Part>)
    ensures Base(dir, "s") == dir + ["s"]
  {
    PrefixOfS();
    SplitPlain("s");
    WalkPlain(dir, ["s"]);
  }

  lemma CleanDotS()
    ensures CleanParts(false, [], [".", "s"]) == ["s"]
  {
    assert ["."] + ["s"] == [".", "s"] && [] + ["."] == ["."];
    CleanLast(false, [], ["."], "s");
    CleanLast(false, [], [], ".");
    assert CleanParts(false, [], []) == [];
  }

  /** Under "s", a relative text that cleans to plain parts keeps "s" in front of them. */
  lemma CleanUnderS(parts: seq<Part>, down: seq<Part>)
    requires NoSlash(parts) && Cleaned(parts) == down && AllPlain(down) && NoSlash(down)
    ensures CleanParts(false, [], [".", "s"] + parts) == ["s"] + down
  {
    CleanConcat(false, [], [".", "s"], parts);
    CleanDotS();
    assert CleanParts(false, ["s"], []) == ["s"];
    CleanTwiceFrom(false, ["s"], [], parts);
    CleanPlain(false, ["s"], down);
  }

  lemma JoinUnderS(down: seq<Part>)
    ensures !IsAbsolute(Join(["s"] + down)) && Join(["s"] + down) != ""
  {
    assert (["s"] + down)[1..] == down;
    if down != [] { assert ("s" + "/" + Join(down))[0] == 's' && ("s" + "/" + Join(down))[1] == '/'; }
  }

  lemma CleanTextUnderS(s: string, parts: seq<Part>, down: seq<Part>)
    requires TrimDot(s) == s && Split(s) == parts && NoSlash(parts) && Cleaned(parts) == down
    requires AllPlain(down) && NoSlash(down)
    ensures Clean("./s/" + s) == Join(["s"] + down) && Anchored("./s/", s)
    ensures CleanParts(false, [], PrefixParts("./s/") + Split(s)) == ["s"] + down
  {
    BeforeOfS();
    PrefixedComponents("./s/", s);
    CleanUnderS(parts, down);
    JoinUnderS(down);
    assert ("./s/" + s)[0] == '.';
  }

  lemma ComponentsUnderS(s: string, parts: seq<Part>, down: seq<Part>) returns (lead: seq<Part>)
    requires !IsAbsolute(s) && TrimDot(s) == s && Split(s) == parts && NoSlash(parts) && Cleaned(parts) == down
    requires AllPlain(down) && NoSlash(down) && NoBackslash(down)
    ensures AllIdle(lead) && Components(Rebase("./s/", s)) == lead + (["s"] + down) && !IsAbsolute(Rebase("./s/", s))
  {
    BeforeOfS();
    CleanTextUnderS(s, parts, down);
    JoinUnderS(down);
    lead := RebaseSplit("./s/", s);
    ComponentsSpread(Rebase("./s/", s));
    SpreadConcat(lead, ["s"] + down);
    IdleIsPlain(lead);
    SpreadPlain(["s"] + down);
  }

  /** Where a rebased text without a star leads, by its cleaned parts. */
  lemma RebasedUnderS(dir: seq<Part>, s: string, parts: seq<Part>, down: seq<Part>)
    requires !IsAbsolute(s) && TrimDot(s) == s && Split(s) == parts && NoSlash(parts) && Cleaned(parts) == down
    requires AllPlain(down) && NoSlash(down) && NoBackslash(down)
    ensures Anchored("./s/", s)
    ensures Place(dir, Rebase("./s/", s)) == dir + ["s"] + down
  {
    AnchoredUnderS(s, parts, down);
    var lead := ComponentsUnderS(s, parts, down);
    PlaceBehindIdle(dir, Rebase("./s/", s), lead, ["s"] + down);
    assert dir + (["s"] + down) == dir + ["s"] + down;
  }

  lemma AnchoredUnderS(s: string, parts: seq<Part>, down: seq<Part>)
    requires TrimDot(s) == s && Split(s) == parts && NoSlash(parts) && Cleaned(parts) == down
    requires AllPlain(down) && NoSlash(down)
    ensures Anchored("./s/", s)
  {
    CleanTextUnderS(s, parts, down);
  }

  lemma PlaceBehindIdle(dir: seq<Part>, r: string, lead: seq<Part>, parts: seq<Part>)
    requires !IsAbsolute(r) && Components(r) == lead + parts && AllIdle(lead) && AllPlain(parts)
    ensures Place(dir, r) == dir + parts
  {
    WalkIdle(dir, lead, parts);
    WalkPlain(dir, parts);
  }

  // ----- a backslash before ".."

  lemma SplitTwo(a: string, b: string)
    requires '/' !in a && '/' !in b
    ensures Split(a + "/" + b) == [a, b]
  {
    SplitPlain(a);
    SplitPlain(b);
    SplitAtSlash(a, b);
  }

  lemma SplitThree(a: string, b: string, c: string)
    requires '/' !in a && '/' !in b && '/' !in c
    ensures Split(a + "/" + (b + "/" + c)) == [a, b, c]
  {
    SplitTwo(b, c);
    SplitPlain(a);
    SplitAtSlash(a, b + "/" + c);
  }

  const AB: string := "a\\b"
  const ABC: string := "a\\b/../c"

  lemma SplitABC()
    ensures Split(ABC) == [AB, "..", "c"]
  {
    SplitThree(AB, "..", "c");
    assert AB + "/" + (".." + "/" + "c") == ABC;
  }

  lemma FactsABC()
    ensures TrimDot(ABC) == ABC && Plain(AB) && '/' !in AB && '*' !in AB
  {
    assert ABC[0] == 'a';
  }

  lemma ComponentsABC()
    ensures Components(ABC) == ["a", "b", "..", "c"]
  {
    assert ForwardSlashes(ABC) == "a" + "/" + ("b" + "/" + (".." + "/" + "c"));
    SplitThree("b", "..", "c");
    SplitPlain("a");
    SplitAtSlash("a", "b" + "/" + (".." + "/" + "c"));
  }

  lemma CleanedPair(x: Part)
    requires Plain(x)
    ensures Cleaned([x, "..", "c"]) == ["c"]
  {
    var all := [x, "..", "c"];
    assert all == [x] + ["..", "c"] && [x] + [".."] == [x, ".."] && [x, ".."] + ["c"] == all;
    CleanPlain(false, [], [x]);
    CleanLast(false, [], [x], "..");
    CleanLast(false, [], [x, ".."], "c");
  }

  lemma WalkABC(at: seq<Part>)
    ensures Walk(at, ["a", "b", "..", "c"]) == at + ["a", "c"]
  {
    assert ["a", "b"] + ["..", "c"] == ["a", "b", "..", "c"];
    WalkConcat(at, ["a", "b"], ["..", "c"]);
    WalkPlain(at, ["a", "b"]);
    assert [".."] + ["c"] == ["..", "c"];
    WalkOneMore(at + ["a", "b"], [".."], "c");
    WalkOneMore(at + ["a", "b"], [], "..");
    assert [] + [".."] == [".."];
    assert (at + ["a", "b"])[..|at| + 1] == at + ["a"];
  }

  lemma PlaceABC(dir: seq<Part>)
    ensures !IsAbsolute(ABC) && Place(Base(dir, "s"), ABC) == dir + ["s"] + ["a", "c"]
  {
    BaseOfS(dir);
    ComponentsABC();
    WalkABC(dir + ["s"]);
  }

  lemma FixedStays(s: string, parts: seq<Part>)
    requires Split(s) == parts && Starless(parts)
    ensures StarStays(Split(s))
  {
    StarPartAfter(parts, []);
    assert parts + [] == parts;
  }

  lemma RebasedABC(dir: seq<Part>, s: string, x: Part)
    requires !IsAbsolute(s) && TrimDot(s) == s && Split(s) == [x, "..", "c"] && Plain(x) && '/' !in x && '*' !in x
    ensures StarStays(Split(s)) && Anchored(Prefix("s"), s) && Place(dir, Rebase(Prefix("s"), s)) == dir + ["s"] + ["c"]
  {
    PrefixOfS();
    CleanedPair(x);
    RebasedUnderS(dir, s, [x, "..", "c"], ["c"]);
    FixedStays(s, [x, "..", "c"]);
  }

  /** The substitution `a\b/../c`: s/a/c was tried, now s/c is. */
  lemma BackslashExample(dir: seq<Part>)
    ensures !IsAbsolute(ABC) && StarStays(Split(ABC)) && Anchored(Prefix("s"), ABC)
    ensures Place(Base(dir, "s"), ABC) == dir + ["s"] + ["a", "c"]
    ensures Place(dir, Rebase(Prefix("s"), ABC)) == dir + ["s"] + ["c"]
  {
    PlaceABC(dir);
    SplitABC();
    FactsABC();
    RebasedABC(dir, ABC, AB);
  }

  // ----- climbing above the star

  lemma SplitClimb()
    ensures Split("*/../b") == ["*", "..", "b"]
  {
    SplitThree("*", "..", "b");
    assert "*" + "/" + (".." + "/" + "b") == "*/../b";
  }

  lemma CleanedUpB()
    ensures Cleaned(["..", "b"]) == ["..", "b"]
  {
    assert [".."] + ["b"] == ["..", "b"] && [] + [".."] == [".."];
    CleanLast(false, [], [".."], "b");
    CleanLast(false, [], [], "..");
  }

  lemma ClimbsAbove(s: string)
    requires Split(s) == ["*", "..", "b"]
    ensures !StarStays(Split(s))
  {
    assert "*"[0] == '*';
    assert ["*", "..", "b"][1..] == ["..", "b"];
    CleanedUpB();
  }

  // The substitution "*/../b" climbs above its star, so some match is looked up in another place.
  lemma ClimbExample()
    ensures !IsAbsolute("*/../b") && !StarStays(Split("*/../b")) && !SamePlaces("s", "*/../b")
  {
    SplitClimb();
    ClimbsAbove("*/../b");
    PrefixOfS();
    SlashesExactly("s", "*/../b");
  }

  // ----- a match that makes a relative text absolute

  lemma PortableUnderS(p: Part)
    requires Plain(p) && '/' !in p && '\\' !in p && '*' in p && !IsAbsolute(p)
    ensures Portable(Prefix("s"), p)
  {
    PrefixOfS();
    SplitPlain(p);
    assert "./"[1] == '/';
    CleanPlain(false, [], [p]);
    RebasedUnderS([], p, [p], [p]);
    assert StarPart([p]) == 0 && [p][1..] == [];
    SlashesExactly("s", p);
  }

  lemma PickedExample()
    ensures Best(["a*"], "a/x") == Some("a*") && MatchedText("a*", "a/x") == "/x"
  {
    OneStarText("a*", "a/x", "a", "", "/x");
    PickOfOne("a*", "a/x");
  }

  lemma OneStarText(p: string, name: string, x: string, y: string, m: string)
    requires p == x + "*" + y && name == x + m + y && '*' !in x && '*' !in y && m != "*"
    ensures WildMatch(p, name) && StarAt(p) == |x| && MatchedText(p, name) == m && p != name
  {
    OneStar(x, y, m);
    PiecesOf(x, "*", y);
    if |m| == 1 { PiecesOf(x, m, y); }
  }

  /** A pattern matches its name with the star replaced. */
  lemma OneStar(x: string, y: string, m: string)
    requires '*' !in x && '*' !in y
    ensures WildMatch(x + "*" + y, x + m + y) && StarAt(x + "*" + y) == |x| && MatchedText(x + "*" + y, x + m + y) == m
  {
    StarBehind(x, y);
    PiecesOf(x, "*", y);
    PiecesOf(x, m, y);
    assert (x + "*" + y)[|x|] == '*';
  }

  lemma PiecesOf(x: string, m: string, y: string)
    ensures
      var s := x + m + y;
      s[..|x|] == x && s[|x|..|x| + |m|] == m && s[|x| + |m|..] == y
  {
  }

  lemma {:induction false} StarBehind(x: string, y: string)
    requires '*' !in x
    ensures StarAt(x + "*" + y) == |x|
  {
    if x == "" {
      assert (x + "*" + y)[0] == '*';
    } else {
      assert (x + "*" + y)[0] == x[0] && (x + "*" + y)[1..] == x[1..] + "*" + y;
      StarBehind(x[1..], y);
    }
  }

  lemma SlashX(dir: seq<Part>)
    ensures Walk(dir, Components("/x")) == dir + ["x"]
  {
    PlainComponents("/x");
    SplitAtSlash("", "x");
    assert "" + "/" + "x" == "/x";
    SplitPlain("");
    SplitPlain("x");
    IdleEnd(dir, ["x"], "");
    WalkPlain(dir, ["x"]);
    assert [""] + ["x"] == ["", "x"];
  }

  lemma AbsoluteMatch(dir: seq<Part>, p: string, m: string)
    requires Portable(Prefix("s"), p) && !IsAbsolute(p) && Subst(p, m) == m && IsAbsolute(m)
    requires forall at :: Walk(at, Components(m)) == at + ["x"]
    ensures Place(Base(dir, "s"), Subst(p, m)) == ["x"]
    ensures Place(dir, Subst(Rebase(Prefix("s"), p), m)) == dir + ["s"] + ["x"]
  {
    PrefixOfS();
    BaseOfS(dir);
    RebasedPlace(dir, "s", p, m);
  }

  /** The pattern "a*" for "*" and the name "a/x": the root was tried, now the base directory is. */
  lemma AbsoluteMatchExample(dir: seq<Part>)
    ensures Best(["a*"], "a/x") == Some("a*") && MatchedText("a*", "a/x") == "/x"
    ensures Portable(Prefix("s"), "a*") && Portable(Prefix("s"), "*")
    ensures Place(Base(dir, "s"), Subst("*", "/x")) == ["x"]
    ensures Place(dir, Subst(Rebase(Prefix("s"), "*"), "/x")) == dir + ["s"] + ["x"]
  {
    PickedExample();
    PortableStars();
    forall at ensures Walk(at, Components("/x")) == at + ["x"] { SlashX(at); }
    StarAlone("/x");
    AbsoluteMatch(dir, "*", "/x");
  }

  lemma PortableStars()
    ensures Portable(Prefix("s"), "a*") && Portable(Prefix("s"), "*") && !IsAbsolute("*")
  {
    assert "*"[0] == '*';
    PortableUnderS("*");
    PortableAStar("a*");
  }

  lemma PortableAStar(p: Part)
    requires |p| == 2 && p[0] == 'a' && p[1] == '*'
    ensures Portable(Prefix("s"), p)
  {
    PortableUnderS(p);
  }

  lemma StarAlone(m: string)
    ensures Subst("*", m) == m
  {
    assert m + "*"[1..] == m;
  }

  // ----- a tie that is decided again

  /** A substitution of one plain part, before and after. */
  lemma OnePart(dir: seq<Part>, x: Part, m: string)
    requires Plain(x) && '/' !in x && '\\' !in x && '*' !in x && !IsAbsolute(x)
    ensures Place(Base(dir, "s"), Subst(x, m)) == dir + ["s"] + [x]
    ensures Place(dir, Subst(Rebase(Prefix("s"), x), m)) == dir + ["s"] + [x]
  {
    PrefixOfS();
    BaseOfS(dir);
    SubstNothing(x, m);
    SplitPlain(x);
    PlainComponents(x);
    WalkPlain(dir + ["s"], [x]);
    CleanPlain(false, [], [x]);
    assert "./"[1] == '/';
    RebasedUnderS(dir, x, [x], [x]);
    assert StarPart([x]) == 1 && StarStays(Split(x));
    SlashesExactly("s", x);
    RebasedPlace(dir, "s", x, m);
  }

  lemma TiePicks()
    ensures Best(["a*c", "a*"], "abc") == Some("a*c") && Best(["*", "a*", "a*c"], "abc") == Some("a*")
  {
    OneStar("a", "c", "b");
    OneStar("a", "", "bc");
    StarIsWild("abc");
    assert "a" + "*" + "c" == "a*c" && "a" + "b" + "c" == "abc";
    assert "a" + "*" + "" == "a*" && "a" + "bc" + "" == "abc";
    assert WildMatch("a*c", "abc") && WildMatch("a*", "abc") && StarAt("a*c") == 1 == StarAt("a*");
    assert "abc" != "a*c" && "abc" != "a*" && "abc" != "*" by { assert "abc"[1] == 'b' && "a*c"[1] == '*'; }
    PickOfTwo("a*c", "a*", "abc");
    PickOfThree("*", "a*", "a*c", "abc");
  }

  lemma BestWildMore(order: seq<string>, p: string, name: string)
    ensures
      var best := BestWild(order, name);
      BestWild(order + [p], name) ==
      if WildMatch(p, name) && (best.None? || StarAt(p) > StarAt(best.value)) then Some(p) else best
  {
    assert (order + [p])[..|order|] == order && (order + [p])[|order|] == p;
  }

  lemma PickOfOne(p: string, name: string)
    requires WildMatch(p, name) && name != p
    ensures Best([p], name) == Some(p) && BestWild([p], name) == Some(p)
  {
    BestWildMore([], p, name);
    assert [] + [p] == [p];
  }

  lemma PickOfTwo(p: string, q: string, name: string)
    requires WildMatch(p, name) && WildMatch(q, name) && name != p && name != q
    ensures
      var best := if StarAt(q) <= StarAt(p) then p else q;
      Best([p, q], name) == Some(best) && BestWild([p, q], name) == Some(best)
  {
    PickOfOne(p, name);
    BestWildMore([p], q, name);
    assert [p] + [q] == [p, q];
  }

  lemma PickOfThree(o: string, p: string, q: string, name: string)
    requires WildMatch(o, name) && WildMatch(p, name) && WildMatch(q, name) && name != o && name != p && name != q
    requires StarAt(o) < StarAt(p) && StarAt(q) <= StarAt(p)
    ensures Best([o, p, q], name) == Some(p)
  {
    PickOfTwo(o, p, name);
    BestWildMore([o, p], q, name);
    assert [o, p] + [q] == [o, p, q];
  }

  /** The patterns "a*c" for "x" and "a*" for "y", in this order, and the name "abc": s/x was tried first, and with the
      keys sorted s/y is. */
  lemma TieExample(dir: seq<Part>)
    ensures
      var paths: Paths := map["a*c" := ["x"], "a*" := ["y"]];
      && Best(["a*c", "a*"], "abc") == Some("a*c") && Best(["*", "a*", "a*c"], "abc") == Some("a*")
      && PlacesOf(Base(dir, "s"), paths["a*c"], "b") == [dir + ["s"] + ["x"]]
      && PlacesOf(dir, Rebased(Prefix("s"), paths["a*"]), "bc") == [dir + ["s"] + ["y"]]
  {
    TiePicks();
    assert !IsAbsolute("x") && !IsAbsolute("y");
    OnePart(dir, "x", "b");
    OnePart(dir, "y", "bc");
  }

  // ----- a pattern that starts with its star

  /** The pattern "*c" for "x" and the name "bc": s/x was tried first, and now "*" is picked. */
  lemma StarSuffixExample(dir: seq<Part>)
    ensures Best(["*c"], "bc") == Some("*c") && Best(["*", "*c"], "bc") == Some("*")
    ensures PlacesOf(Base(dir, "s"), ["x"], "b") == [dir + ["s"] + ["x"]]
  {
    OneStar("", "c", "b");
    StarIsWild("bc");
    assert "" + "*" + "c" == "*c" && "" + "b" + "c" == "bc";
    assert "bc" != "*c" && "bc" != "*" by { assert "bc"[0] == 'b' && "*c"[0] == '*'; }
    PickOfTwo("*", "*c", "bc");
    PickOfOne("*c", "bc");
    OnePart(dir, "x", "b");
  }
}
