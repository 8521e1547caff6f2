/**
 The rewrite of tsconfig `baseUrl` into `paths`: internal/compile/sanitize.go, injectBaseURLPaths.

 Before the rewrite a module name is looked up under the best matching pattern's substitutions, taken relative
 to baseUrl, and then under baseUrl itself; afterwards only the best pattern's substitutions are tried, taken
 relative to the directory of the config file. A place is the list of parts of a normalised path.
 */
module BaseUrl {
  import opened PathText
  import opened Climbing

  // ----- texts

  predicate IsLetter(c: char) {
    'a' <= c <= 'z' || 'A' <= c <= 'Z'
  }

  /** internal/compile/sanitize.go: isAbsolutePathText. */
  predicate IsAbsolute(s: string) {
    (s != "" && (s[0] == '/' || s[0] == '\\')) || (|s| >= 2 && s[1] == ':' && IsLetter(s[0]))
  }

  /** The components of a path text as the resolver sees them, with backslashes as separators. */
  function Components(s: string): seq<Part> {
    Split(ForwardSlashes(s))
  }

  /** The place a path text names when it is used in directory `dir`. */
  function Place(dir: seq<Part>, s: string): seq<Part> {
    Walk(if IsAbsolute(s) then [] else dir, Components(s))
  }

  function TrimDot(s: string): string {
    if "./" <= s then s[2..] else s
  }

  function TrimSlash(s: string): string {
    if s != "" && s[|s| - 1] == '/' then s[..|s| - 1] else s
  }

  function BaseText(baseUrl: string): string {
    TrimSlash(TrimDot(ForwardSlashes(baseUrl)))
  }

  /** The text put in front of every rebased substitution. */
  function Prefix(baseUrl: string): string {
    var b := BaseText(baseUrl);
    if IsAbsolute(b) then b + "/" else if b != "" && b != "." then "./" + b + "/" else "./"
  }

  /** The first '*' of `s` replaced by `m`. */
  function Subst(s: string, m: string): string {
    if s == "" then "" else if s[0] == '*' then m + s[1..] else [s[0]] + Subst(s[1..], m)
  }

  /** A baseUrl-relative text moved to the config directory. */
  function Rebase(prefix: string, s: string): string {
    if IsAbsolute(s) then s
    else
      var cleaned := Clean(prefix + TrimDot(s));
      if !IsAbsolute(cleaned) && !("./" <= cleaned) && !("../" <= cleaned) then "./" + cleaned else cleaned
  }

  // ----- the base directory

  lemma IdleEnd(at: seq<Part>, parts: seq<Part>, p: Part)
    requires Idle(p)
    ensures Walk(at, parts + [p]) == Walk(at, parts) == Walk(at, [p] + parts)
  {
    WalkLast(at, parts + [p]);
    assert (parts + [p])[..|parts|] == parts;
    assert ([p] + parts)[1..] == parts;
  }

  lemma TrimDotWalks(at: seq<Part>, s: string)
    ensures Walk(at, Split(TrimDot(s))) == Walk(at, Split(s))
  {
    if "./" <= s {
      SplitAtSlash(".", s[2..]);
      SplitPlain(".");
      assert s == "." + "/" + s[2..];
      IdleEnd(at, Split(s[2..]), ".");
    }
  }

  lemma TrimSlashWalks(at: seq<Part>, s: string)
    ensures Walk(at, Split(TrimSlash(s))) == Walk(at, Split(s))
  {
    if s != "" && s[|s| - 1] == '/' {
      SplitAtSlash(s[..|s| - 1], "");
      assert s == s[..|s| - 1] + "/" + "";
      IdleEnd(at, Split(s[..|s| - 1]), "");
    }
  }

  lemma PlainComponents(s: string)
    requires '\\' !in s
    ensures ForwardSlashes(s) == s && Components(s) == Split(s)
  {
  }

  lemma PrefixComponents(baseUrl: string)
    ensures '\\' !in Prefix(baseUrl) && '\\' !in ForwardSlashes(baseUrl)
  {
    var u := ForwardSlashes(baseUrl);
    assert '\\' !in TrimDot(u);
    assert '\\' !in BaseText(baseUrl);
  }

  lemma PrefixWalks(at: seq<Part>, baseUrl: string)
    ensures Walk(at, Split(Prefix(baseUrl))) == Walk(at, Split(ForwardSlashes(baseUrl)))
    ensures IsAbsolute(Prefix(baseUrl)) <==> IsAbsolute(BaseText(baseUrl))
    ensures Prefix(baseUrl) != "" && Prefix(baseUrl)[|Prefix(baseUrl)| - 1] == '/'
  {
    var u, b := ForwardSlashes(baseUrl), BaseText(baseUrl);
    TrimDotWalks(at, u);
    TrimSlashWalks(at, TrimDot(u));
    TrimSlashWalks(at, b + "/");
    assert TrimSlash(b + "/") == b;
    if !IsAbsolute(b) {
      TrimDotWalks(at, "./" + b + "/");
      assert ("./" + b + "/")[2..] == b + "/";
      if b == "" || b == "." {
        SplitPlain("");
        SplitPlain(".");
        TrimDotWalks(at, "./");
      }
    }
  }

  /** The trimmed text is absolute exactly when baseUrl is: not so for "/" and for texts like ".//x". */
  predicate BaseKept(baseUrl: string) {
    IsAbsolute(BaseText(baseUrl)) <==> IsAbsolute(ForwardSlashes(baseUrl))
  }

  ghost predicate NamesBase(baseUrl: string, dir: seq<Part>) {
    Place(dir, Prefix(baseUrl)) == Place(dir, ForwardSlashes(baseUrl))
  }

  /** The prefix names the base directory, wherever the config file is, exactly when trimming keeps baseUrl
      absolute or relative. */
  lemma PrefixNamesBaseExactly(baseUrl: string)
    ensures (forall dir :: NamesBase(baseUrl, dir)) <==> BaseKept(baseUrl)
  {
    PrefixComponents(baseUrl);
    PlainComponents(Prefix(baseUrl));
    PlainComponents(ForwardSlashes(baseUrl));
    forall dir ensures BaseKept(baseUrl) ==> NamesBase(baseUrl, dir) {
      PrefixWalks(dir, baseUrl);
      PrefixWalks([], baseUrl);
    }
    if !BaseKept(baseUrl) {
      var parts := Split(ForwardSlashes(baseUrl));
      var deep, other := seq(|parts| + 1, i => "a"), seq(|parts| + 1, i => "b");
      WalkKeepsStart(deep, parts);
      WalkKeepsStart(other, parts);
      PrefixWalks(deep, baseUrl);
      PrefixWalks(other, baseUrl);
      PrefixWalks([], baseUrl);
      assert !NamesBase(baseUrl, deep) || !NamesBase(baseUrl, other);
    }
  }

  /** The root as baseUrl is read as the config directory. */
  lemma RootBaseExample()
    ensures Prefix("/") == "./" && !BaseKept("/")
  {
    assert ForwardSlashes("/") == "/";
  }

  // ----- substitution, on parts

  function SubstParts(parts: seq<Part>, m: string): seq<Part> {
    if parts == [] then []
    else if '*' in parts[0] then Split(Subst(parts[0], m)) + parts[1..]
    else [parts[0]] + SubstParts(parts[1..], m)
  }

  lemma SplitHead(c: char, s: string)
    requires c != '/'
    ensures Split([c] + s) == [[c] + Split(s)[0]] + Split(s)[1..]
  {
    assert ([c] + s)[1..] == s;
  }

  lemma SubstHead(c: char, s: string, m: string)
    requires c != '*'
    ensures Subst([c] + s, m) == [c] + Subst(s, m)
  {
    assert ([c] + s)[1..] == s;
  }

  lemma HeadOfMore(c: char, parts: seq<Part>, tail: seq<Part>)
    requires parts != []
    ensures [[c] + (parts + tail)[0]] + (parts + tail)[1..] == [[c] + parts[0]] + parts[1..] + tail
  {
  }

  lemma SubstFirst(h: Part, tail: seq<Part>, m: string)
    ensures SubstParts([h] + tail, m) == if '*' in h then Split(Subst(h, m)) + tail else [h] + SubstParts(tail, m)
  {
    assert ([h] + tail)[1..] == tail;
  }

  /** A character in front of a text goes to its first part, before and after the substitution. */
  lemma SplitSubstHead(c: char, h: Part, tail: seq<Part>, rest: string, m: string)
    requires c != '*' && c != '/' && Split(rest) == SubstParts([h] + tail, m)
    ensures Split([c] + rest) == SubstParts([[c] + h] + tail, m)
  {
    SubstFirst(h, tail, m);
    SubstFirst([c] + h, tail, m);
    SplitHead(c, rest);
    if '*' in h {
      assert '*' in [c] + h;
      SubstHead(c, h, m);
      SplitHead(c, Subst(h, m));
      HeadOfMore(c, Split(Subst(h, m)), tail);
    } else {
      assert '*' !in [c] + h;
      HeadOfMore(c, [h], SubstParts(tail, m));
    }
  }

  lemma {:induction false} SplitSubst(s: string, m: string)
    ensures Split(Subst(s, m)) == SubstParts(Split(s), m)
  {
    if s != "" {
      var c, h, tail := s[0], Split(s[1..])[0], Split(s[1..])[1..];
      SplitSubst(s[1..], m);
      if c == '*' {
        SplitHeadStar(s, m);
      } else if c == '/' {
        assert ([""] + Split(s[1..]))[1..] == Split(s[1..]);
        assert ("/" + Subst(s[1..], m))[1..] == Subst(s[1..], m);
      } else {
        assert Split(s[1..]) == [h] + tail;
        SplitSubstHead(c, h, tail, Subst(s[1..], m), m);
      }
    }
  }

  lemma GlueOne(x: seq<Part>, h: Part, tail: seq<Part>)
    requires x != []
    ensures Glue(x, [h]) + tail == Glue(x, [h] + tail)
  {
    assert ([h] + tail)[1..] == tail;
  }

  lemma StarHead(h: string, m: string)
    ensures Subst(['*'] + h, m) == m + h && '*' in ['*'] + h
  {
    assert (['*'] + h)[1..] == h;
    assert (['*'] + h)[0] == '*';
  }

  lemma SplitHeadStar(s: string, m: string)
    requires s != "" && s[0] == '*'
    ensures Split(Subst(s, m)) == SubstParts(Split(s), m)
  {
    var h, tail := Split(s[1..])[0], Split(s[1..])[1..];
    SplitNoSlash(s[1..]);
    StarParts(h, tail, m);
    SplitConcat(m, s[1..]);
    assert Split(s[1..]) == [h] + tail;
    assert Split(s) == [['*'] + h] + tail;
  }

  lemma StarParts(h: Part, tail: seq<Part>, m: string)
    requires '/' !in h
    ensures SubstParts([['*'] + h] + tail, m) == Glue(Split(m), [h] + tail)
  {
    StarHead(h, m);
    SplitConcat(m, h);
    SplitPlain(h);
    GlueOne(Split(m), h, tail);
    assert ([['*'] + h] + tail)[1..] == tail;
  }

  predicate Starless(parts: seq<Part>) {
    forall i :: 0 <= i < |parts| ==> '*' !in parts[i]
  }

  lemma {:induction false} SubstPartsAfter(a: seq<Part>, b: seq<Part>, m: string)
    requires Starless(a)
    ensures SubstParts(a + b, m) == a + SubstParts(b, m)
  {
    if a == [] {
      assert a + b == b;
    } else {
      assert (a + b)[0] == a[0] && (a + b)[1..] == a[1..] + b;
      SubstPartsAfter(a[1..], b, m);
    }
  }

  lemma SubstStarless(a: seq<Part>, m: string)
    requires Starless(a)
    ensures SubstParts(a, m) == a
  {
    SubstPartsAfter(a, [], m);
    assert a + [] == a;
  }

  lemma {:induction false} CleanStarless(rooted: bool, acc: seq<Part>, parts: seq<Part>)
    requires Starless(acc) && Starless(parts)
    ensures Starless(CleanParts(rooted, acc, parts))
    decreases |parts|
  {
    if parts != [] { CleanStarless(rooted, CleanEnter(rooted, acc, parts[0]), parts[1..]); }
  }

  /** The first part with a star, or the number of parts. */
  function StarPart(parts: seq<Part>): (i: nat)
    ensures i <= |parts|
  {
    if parts == [] || '*' in parts[0] then 0 else 1 + StarPart(parts[1..])
  }

  lemma {:induction false} StarPartIsFirst(parts: seq<Part>)
    ensures Starless(parts[..StarPart(parts)]) && (StarPart(parts) < |parts| ==> '*' in parts[StarPart(parts)])
  {
    if parts != [] && '*' !in parts[0] {
      StarPartIsFirst(parts[1..]);
      var i := StarPart(parts[1..]);
      forall k | 0 < k < 1 + i ensures '*' !in parts[k] { assert parts[k] == parts[1..][..i][k - 1]; }
    }
  }

  /** The parts after the one with the star never climb above it. */
  predicate StarStays(parts: seq<Part>) {
    var i := StarPart(parts);
    i < |parts| ==> Climbs(parts[i + 1..]) == 0
  }

  lemma CleanUpFromStar(rooted: bool, acc: seq<Part>, star: Part, n: nat)
    requires '*' in star && n > 0
    ensures CleanParts(rooted, acc + [star], Ups(n)) == CleanParts(rooted, acc, Ups(n - 1))
  {
    assert Ups(n)[0] == ".." && Ups(n)[1..] == Ups(n - 1);
    assert CleanEnter(rooted, acc + [star], "..") == acc;
  }

  /** Cleaning keeps the part with the star, or takes it away when the rest climbs above it. */
  lemma StarInside(rooted: bool, front: seq<Part>, star: Part, tail: seq<Part>)
    requires '*' in star && NoSlash(tail)
    ensures
      var cleaned, n := CleanParts(rooted, [], front), Climbs(tail);
      CleanParts(rooted, [], front + [star] + tail) ==
      (if n == 0 then cleaned + [star] else CleanParts(rooted, cleaned, Ups(n - 1))) + Descent(tail)
  {
    var cleaned := CleanParts(rooted, [], front);
    CleanConcat(rooted, [], front + [star], tail);
    CleanLast(rooted, [], front, star);
    CleanShape(rooted, cleaned + [star], tail);
    if Climbs(tail) > 0 { CleanUpFromStar(rooted, cleaned, star, Climbs(tail)); }
  }
}
