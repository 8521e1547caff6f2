/**
 Readable conditions for one substitution of the `paths` rewrite: texts without backslashes, and texts in which no ".."
 takes away more than one component.
 */
module Tangles {
  import opened PathText
  import opened Climbing
  import opened BaseUrl
  import opened PathPatterns
  import opened Rebasing

  // ----- parts and their components

  /** The components of all the parts. */
  function Spread(parts: seq<Part>): seq<Part> {
    if parts == [] then [] else Components(parts[0]) + Spread(parts[1..])
  }

  lemma {:induction false} SpreadConcat(a: seq<Part>, b: seq<Part>)
    ensures Spread(a + b) == Spread(a) + Spread(b)
  {
    if a == [] {
      assert a + b == b;
    } else {
      assert (a + b)[0] == a[0] && (a + b)[1..] == a[1..] + b;
      SpreadConcat(a[1..], b);
      assert Components(a[0]) + (Spread(a[1..]) + Spread(b)) == Spread(a) + Spread(b);
    }
  }

  lemma SpreadOne(p: Part)
    ensures Spread([p]) == Components(p)
  {
    assert [p][1..] == [] && Components(p) + [] == Components(p);
  }

  lemma SpreadHead(c: char, h: Part, t: seq<Part>)
    requires c != '/'
    ensures
      var rest := Spread([h] + t);
      Spread([[c] + h] + t) == if c == '\\' then [""] + rest else [[c] + rest[0]] + rest[1..]
  {
    ForwardHead(c, h);
    assert ([h] + t)[1..] == t && ([[c] + h] + t)[1..] == t;
    var d := ForwardSlashes(h);
    if c == '\\' {
      assert (['/'] + d)[1..] == d;
      assert [""] + (Split(d) + Spread(t)) == [""] + Split(d) + Spread(t);
    } else {
      SplitHead(c, d);
      HeadOfMore(c, Split(d), Spread(t));
    }
  }

  /** The components of a text are those of its parts. */
  lemma {:induction false} ComponentsSpread(s: string)
    ensures Components(s) == Spread(Split(s))
  {
    if s == "" {
      SpreadOne("");
      assert ForwardSlashes("") == "";
    } else {
      var c, r := s[0], s[1..];
      assert s == [c] + r;
      ComponentsSpread(r);
      ForwardHead(c, r);
      var u := ForwardSlashes(r);
      if c == '/' {
        assert (['/'] + u)[1..] == u && ([""] + Split(r))[1..] == Split(r);
        assert ForwardSlashes("") == "";
        SpreadConcat([""], Split(r));
        SpreadOne("");
      } else {
        var h, t := Split(r)[0], Split(r)[1..];
        assert Split(r) == [h] + t;
        SpreadHead(c, h, t);
        if c == '\\' { assert (['/'] + u)[1..] == u; } else { SplitHead(c, u); }
      }
    }
  }

  predicate NoBackslash(parts: seq<Part>) {
    forall i :: 0 <= i < |parts| ==> '\\' !in parts[i]
  }

  lemma {:induction false} SpreadPlain(parts: seq<Part>)
    requires NoBackslash(parts) && NoSlash(parts)
    ensures Spread(parts) == parts
  {
    if parts != [] {
      PlainComponents(parts[0]);
      SplitPlain(parts[0]);
      SpreadPlain(parts[1..]);
    }
  }

  lemma {:induction false} StarlessSplit(s: string)
    requires '*' !in s
    ensures Starless(Split(s))
  {
    if s != "" { StarlessSplit(s[1..]); }
  }

  lemma {:induction false} SpreadStarless(parts: seq<Part>)
    requires Starless(parts)
    ensures Starless(Spread(parts))
  {
    if parts != [] {
      assert '*' !in ForwardSlashes(parts[0]);
      StarlessSplit(ForwardSlashes(parts[0]));
      SpreadStarless(parts[1..]);
    }
  }

  // ----- the parts of a rebased text

  predicate AllIdle(parts: seq<Part>) {
    forall i :: 0 <= i < |parts| ==> Idle(parts[i])
  }

  /** A cleaned text splits into the cleaned parts, behind idle ones. */
  lemma CleanSplit(full: string) returns (lead: seq<Part>)
    ensures AllIdle(lead) && Split(Clean(full)) == lead + CleanParts(Rooted(full), [], Split(full))
  {
    SplitNoSlash(full);
    CleanTidy(Rooted(full), [], Split(full));
    assert "/" + "" == "/";
    lead := CleanedSplit(Rooted(full), CleanParts(Rooted(full), [], Split(full)), Clean(full));
  }

  lemma CleanedSplit(rooted: bool, parts: seq<Part>, text: string) returns (lead: seq<Part>)
    requires NoSlash(parts)
    requires parts == [] ==> text == if rooted then "/" else "."
    requires parts != [] ==> text == if rooted then "/" + Join(parts) else Join(parts)
    ensures AllIdle(lead) && Split(text) == lead + parts
  {
    if parts == [] {
      SplitPlain(".");
      RootSplit();
      lead := if rooted then ["", ""] else ["."];
    } else {
      SplitJoin(parts);
      RootedSplit(Join(parts));
      lead := if rooted then [""] else [];
    }
  }

  lemma RootSplit()
    ensures Split("/") == ["", ""]
  {
    SplitPlain("");
    SplitAtSlash("", "");
    assert "" + "/" + "" == "/";
  }

  lemma RootedSplit(s: string)
    ensures Split("/" + s) == [""] + Split(s)
  {
    SplitPlain("");
    SplitAtSlash("", s);
    assert "" + "/" + s == "/" + s;
  }

  lemma DottedSplit(s: string)
    ensures Split("./" + s) == ["."] + Split(s)
  {
    SplitAtSlash(".", s);
    SplitPlain(".");
    assert "./" + s == "." + "/" + s;
  }

  lemma DottedLead(text: string, lead: seq<Part>, parts: seq<Part>)
    requires Split(text) == lead + parts && AllIdle(lead)
    ensures Split("./" + text) == (["."] + lead) + parts && AllIdle(["."] + lead)
  {
    DottedSplit(text);
    assert ["."] + (lead + parts) == ["."] + lead + parts;
  }

  lemma RebaseSplit(prefix: string, s: string) returns (lead: seq<Part>)
    requires EndsInSlash(prefix) && '\\' !in prefix && !IsAbsolute(s)
    ensures AllIdle(lead)
    ensures Split(Rebase(prefix, s)) == lead + CleanParts(Rooted(prefix), [], PrefixParts(prefix) + Split(TrimDot(s)))
  {
    var full := prefix + TrimDot(s);
    lead := CleanSplit(full);
    PrefixedComponents(prefix, TrimDot(s));
    if Rebase(prefix, s) != Clean(full) {
      DottedLead(Clean(full), lead, CleanParts(Rooted(full), [], Split(full)));
      lead := ["."] + lead;
    }
  }

  lemma TrimSplit(s: string) returns (lead: seq<Part>)
    ensures AllIdle(lead) && Split(s) == lead + Split(TrimDot(s))
  {
    lead := [];
    if "./" <= s {
      assert s == "./" + s[2..];
      DottedSplit(s[2..]);
      lead := ["."];
    }
  }

  lemma IdleIsPlain(lead: seq<Part>)
    requires AllIdle(lead)
    ensures NoBackslash(lead) && NoSlash(lead) && Starless(lead) && Spread(lead) == lead
  {
    SpreadPlain(lead);
  }

  lemma {:induction false} WalkIdle(at: seq<Part>, lead: seq<Part>, parts: seq<Part>)
    requires AllIdle(lead)
    ensures Walk(at, lead + parts) == Walk(at, parts)
  {
    if lead == [] {
      assert lead + parts == parts;
    } else {
      assert (lead + parts)[0] == lead[0] && (lead + parts)[1..] == lead[1..] + parts;
      WalkIdle(at, lead[1..], parts);
    }
  }

  lemma IdleLead(at: seq<Part>, lead: seq<Part>, d: seq<Part>, m: string)
    requires AllIdle(lead)
    ensures Walk(at, SubstParts(lead + d, m)) == Walk(at, SubstParts(d, m))
  {
    IdleIsPlain(lead);
    SubstPartsAfter(lead, d, m);
    WalkIdle(at, lead, SubstParts(d, m));
  }

  // ----- cleaning without tangles

  /** Once backslashes separate, the part is one component. */
  predicate Single(q: Part) {
    var c := Cleaned(Components(q));
    |c| == 1 && c[0] != ".."
  }

  /** Every ".." that takes a part away while cleaning takes one component away. */
  predicate Untangled(rooted: bool, acc: seq<Part>, parts: seq<Part>)
    decreases |parts|
  {
    parts != [] ==>
      && (parts[0] == ".." && acc != [] && acc[|acc| - 1] != ".." ==> Single(acc[|acc| - 1]))
      && Untangled(rooted, CleanEnter(rooted, acc, parts[0]), parts[1..])
  }

  lemma SingleThenUp(at: seq<Part>, q: Part)
    requires Single(q)
    ensures Enter(Walk(at, Components(q)), "..") == at
  {
    SplitNoSlash(ForwardSlashes(q));
    WalkShape(at, Components(q));
    var c := Cleaned(Components(q));
    assert Leading(c) == 0 && c[0..] == c;
    assert (at + c)[..|at|] == at;
  }

  lemma SpreadIdle(p: Part)
    requires Idle(p) || p == ".."
    ensures Components(p) == [p]
  {
    PlainComponents(p);
    SplitPlain(p);
  }

  lemma SpreadLast(acc: seq<Part>, p: Part)
    ensures Spread(acc + [p]) == Spread(acc) + Components(p)
  {
    SpreadConcat(acc, [p]);
    SpreadOne(p);
  }

  lemma EnterUntangled(rooted: bool, at: seq<Part>, acc: seq<Part>, p: Part)
    requires Tidy(rooted, acc) && (rooted ==> at == [])
    requires p == ".." && acc != [] && acc[|acc| - 1] != ".." ==> Single(acc[|acc| - 1])
    ensures Walk(at, Spread(CleanEnter(rooted, acc, p))) == Walk(Walk(at, Spread(acc)), Components(p))
  {
    var here := Walk(at, Spread(acc));
    if Idle(p) {
      SpreadIdle(p);
      IdleEnd(here, [], p);
      assert [] + [p] == [p];
    } else if p == ".." && acc != [] && acc[|acc| - 1] != ".." {
      var init, q := acc[..|acc| - 1], acc[|acc| - 1];
      assert acc == init + [q];
      SpreadLast(init, q);
      WalkConcat(at, Spread(init), Components(q));
      SingleThenUp(Walk(at, Spread(init)), q);
      SpreadIdle(p);
      WalkOneMore(here, [], p);
      assert [] + [p] == [p];
    } else if p == ".." && rooted && acc == [] {
      SpreadIdle(p);
      assert [p][1..] == [];
    } else {
      SpreadLast(acc, p);
      WalkConcat(at, Spread(acc), Components(p));
    }
  }

  /** Cleaning a text without tangles keeps where its components lead. */
  lemma {:induction false} UntangledWalks(rooted: bool, at: seq<Part>, acc: seq<Part>, parts: seq<Part>)
    requires Tidy(rooted, acc) && NoSlash(parts) && (rooted ==> at == []) && Untangled(rooted, acc, parts)
    ensures Walk(at, Spread(CleanParts(rooted, acc, parts))) == Walk(Walk(at, Spread(acc)), Spread(parts))
    decreases |parts|
  {
    if parts != [] {
      EnterUntangled(rooted, at, acc, parts[0]);
      UntangledWalks(rooted, at, CleanEnter(rooted, acc, parts[0]), parts[1..]);
      WalkConcat(Walk(at, Spread(acc)), Components(parts[0]), Spread(parts[1..]));
    }
  }

  /** No tangle before the star, and none after it. */
  predicate NoTangle(rooted: bool, before: seq<Part>, parts: seq<Part>) {
    var i := StarPart(parts);
    Untangled(rooted, [], before + parts[..i]) && (i < |parts| ==> Untangled(false, [], parts[i + 1..]))
  }

  lemma {:induction false} SubstInside(a: seq<Part>, b: seq<Part>, m: string)
    requires !Starless(a)
    ensures SubstParts(a + b, m) == SubstParts(a, m) + b
  {
    assert (a + b)[0] == a[0] && (a + b)[1..] == a[1..] + b;
    if '*' in a[0] {
      assert Split(Subst(a[0], m)) + (a[1..] + b) == Split(Subst(a[0], m)) + a[1..] + b;
    } else {
      SubstInside(a[1..], b, m);
      assert [a[0]] + (SubstParts(a[1..], m) + b) == [a[0]] + SubstParts(a[1..], m) + b;
    }
  }

  lemma StarInComponents(star: Part)
    requires '*' in star
    ensures !Starless(Components(star))
  {
    var u := ForwardSlashes(star);
    var i :| 0 <= i < |star| && star[i] == '*';
    assert u[i] == '*';
    StarSurvives(u);
  }

  lemma {:induction false} StarSurvives(s: string)
    requires '*' in s
    ensures !Starless(Split(s))
  {
    var rest := Split(s[1..]);
    if s[0] == '*' {
      assert Split(s)[0][0] == '*';
    } else {
      StarSurvives(s[1..]);
      var i :| 0 <= i < |rest| && '*' in rest[i];
      if s[0] == '/' {
        assert Split(s)[i + 1] == rest[i];
      } else if i == 0 {
        assert Split(s)[0] == [s[0]] + rest[0];
      } else {
        assert Split(s)[i] == rest[i];
      }
    }
  }

  lemma TailUntangled(at: seq<Part>, tail: seq<Part>)
    requires NoSlash(tail) && Climbs(tail) == 0 && Untangled(false, [], tail)
    ensures Walk(at, Spread(Descent(tail))) == Walk(at, Spread(tail))
  {
    UntangledWalks(false, at, [], tail);
    assert Cleaned(tail)[0..] == Cleaned(tail);
    assert Walk(at, Spread([])) == at;
  }

  /** The star part and what follows it, once the parts before it are cleaned. */
  lemma StarThenTail(at: seq<Part>, kept: seq<Part>, star: Part, tail: seq<Part>, m: string)
    requires Starless(kept) && '*' in star
    ensures
      Walk(at, SubstParts(Spread(kept + [star] + tail), m)) ==
      Walk(Walk(Walk(at, Spread(kept)), SubstParts(Components(star), m)), Spread(tail))
  {
    SpreadConcat(kept + [star], tail);
    SpreadLast(kept, star);
    SpreadStarless(kept);
    StarInComponents(star);
    var mid := Components(star);
    assert Spread(kept) + mid + Spread(tail) == Spread(kept) + (mid + Spread(tail));
    SubstPartsAfter(Spread(kept), mid + Spread(tail), m);
    SubstInside(mid, Spread(tail), m);
    WalkConcat(at, Spread(kept), SubstParts(mid, m) + Spread(tail));
    WalkConcat(Walk(at, Spread(kept)), SubstParts(mid, m), Spread(tail));
  }

  lemma UntangledStar(
    rooted: bool, at: seq<Part>, before: seq<Part>, front: seq<Part>, star: Part, tail: seq<Part>, m: string)
    requires Starless(before + front) && NoSlash(before + front) && (rooted ==> at == []) && '*' in star
    requires NoSlash(tail) && Climbs(tail) == 0
    requires Untangled(rooted, [], before + front) && Untangled(false, [], tail)
    ensures
      Walk(at, SubstParts(Spread(CleanParts(rooted, [], before + front + [star] + tail)), m)) ==
      Walk(at, SubstParts(Spread(before + front + [star] + tail), m))
  {
    var kept := CleanParts(rooted, [], before + front);
    StarInside(rooted, before + front, star, tail);
    CleanStarless(rooted, [], before + front);
    StarThenTail(at, kept, star, Descent(tail), m);
    StarThenTail(at, before + front, star, tail, m);
    UntangledWalks(rooted, at, [], before + front);
    assert Walk(at, Spread([])) == at;
    TailUntangled(Walk(Walk(at, Spread(kept)), SubstParts(Components(star), m)), tail);
  }

  /** Cleaning and then substituting leads where substituting alone leads. */
  lemma UntangledThenSubst(rooted: bool, at: seq<Part>, before: seq<Part>, parts: seq<Part>, m: string)
    requires Starless(before) && NoSlash(before) && NoSlash(parts) && (rooted ==> at == [])
    requires StarStays(parts) && NoTangle(rooted, before, parts)
    ensures
      Walk(at, SubstParts(Spread(CleanParts(rooted, [], before + parts)), m)) ==
      Walk(at, SubstParts(Spread(before + parts), m))
  {
    var i := StarPart(parts);
    StarPartIsFirst(parts);
    if i == |parts| {
      assert parts[..i] == parts;
      UntangledWalks(rooted, at, [], before + parts);
      assert Walk(at, Spread([])) == at;
      CleanStarless(rooted, [], before + parts);
      SpreadStarless(CleanParts(rooted, [], before + parts));
      SpreadStarless(before + parts);
      SubstStarless(Spread(CleanParts(rooted, [], before + parts)), m);
      SubstStarless(Spread(before + parts), m);
    } else {
      assert before + parts == before + parts[..i] + [parts[i]] + parts[i + 1..];
      UntangledStar(rooted, at, before, parts[..i], parts[i], parts[i + 1..], m);
    }
  }

  // ----- rebased texts

  /** No tangle in what the prefix and the text are cleaned to. */
  predicate TangleFree(prefix: string, s: string)
    requires EndsInSlash(prefix)
  {
    NoTangle(Rooted(prefix), PrefixParts(prefix), Split(TrimDot(s)))
  }

  lemma BeforeIsPlain(prefix: string)
    requires EndsInSlash(prefix) && '\\' !in prefix && '*' !in prefix
    ensures Starless(PrefixParts(prefix)) && NoSlash(PrefixParts(prefix)) && NoBackslash(PrefixParts(prefix))
    ensures Spread(PrefixParts(prefix)) == PrefixParts(prefix)
  {
    var p := prefix[..|prefix| - 1];
    StarlessSplit(p);
    SplitNoSlash(p);
    SplitNoBackslash(p);
    SpreadPlain(PrefixParts(prefix));
  }

  lemma {:induction false} SplitNoBackslash(s: string)
    requires '\\' !in s
    ensures NoBackslash(Split(s))
  {
    if s != "" { SplitNoBackslash(s[1..]); }
  }

  /** Where the rebased text leads, and where the original one does, on cleaned and on given parts. */
  lemma RebasedParts(prefix: string, s: string, at: seq<Part>, m: string)
    requires EndsInSlash(prefix) && '\\' !in prefix && '*' !in prefix && !IsAbsolute(s)
    ensures
      var before, parts := PrefixParts(prefix), Split(TrimDot(s));
      && Lead(at, FormOf(Components(Rebase(prefix, s))), m) ==
         Walk(at, SubstParts(Spread(CleanParts(Rooted(prefix), [], before + parts)), m))
      && Lead(at, FormOf(Components(prefix + s)), m) == Walk(at, SubstParts(Spread(before + parts), m))
  {
    var r, before, parts := Rebase(prefix, s), PrefixParts(prefix), Split(TrimDot(s));
    var cleaned := CleanParts(Rooted(prefix), [], before + parts);
    LeadIs(at, Components(r), m);
    LeadIs(at, Components(prefix + s), m);
    var lead := RebaseSplit(prefix, s);
    ComponentsSpread(r);
    SpreadConcat(lead, cleaned);
    IdleIsPlain(lead);
    IdleLead(at, lead, Spread(cleaned), m);
    PrefixedParts(prefix, s, at, m);
  }

  lemma PrefixedParts(prefix: string, s: string, at: seq<Part>, m: string)
    requires EndsInSlash(prefix) && '\\' !in prefix && '*' !in prefix
    ensures
      Walk(at, SubstParts(Components(prefix + s), m)) ==
      Walk(at, SubstParts(Spread(PrefixParts(prefix) + Split(TrimDot(s))), m))
  {
    var before, parts := PrefixParts(prefix), Split(TrimDot(s));
    BeforeIsPlain(prefix);
    PrefixedComponents(prefix, s);
    ComponentsSpread(s);
    var lead := TrimSplit(s);
    SpreadConcat(lead, parts);
    SpreadConcat(before, parts);
    IdleIsPlain(lead);
    SubstPartsAfter(before, lead + Spread(parts), m);
    SubstPartsAfter(before, Spread(parts), m);
    WalkConcat(at, before, SubstParts(lead + Spread(parts), m));
    WalkConcat(at, before, SubstParts(Spread(parts), m));
    IdleLead(Walk(at, before), lead, Spread(parts), m);
  }

  lemma {:induction false} StarPartAfter(a: seq<Part>, d: seq<Part>)
    requires Starless(a)
    ensures StarPart(a + d) == |a| + StarPart(d)
  {
    if a == [] {
      assert a + d == d;
    } else {
      assert (a + d)[0] == a[0] && (a + d)[1..] == a[1..] + d;
      StarPartAfter(a[1..], d);
    }
  }

  lemma StarStaysTrimmed(s: string)
    ensures StarStays(Split(s)) <==> StarStays(Split(TrimDot(s)))
  {
    var lead := TrimSplit(s);
    var d := Split(TrimDot(s));
    IdleIsPlain(lead);
    StarPartAfter(lead, d);
    if StarPart(d) < |d| { assert (lead + d)[|lead| + StarPart(d) + 1..] == d[StarPart(d) + 1..]; }
  }

  lemma UntangledAgrees(prefix: string, s: string, at: seq<Part>, m: string)
    requires EndsInSlash(prefix) && '\\' !in prefix && '*' !in prefix && !IsAbsolute(s) && (Rooted(prefix) ==> at == [])
    requires StarStays(Split(s)) && TangleFree(prefix, s)
    ensures Agree(at, FormOf(Components(Rebase(prefix, s))), FormOf(Components(prefix + s)), m)
  {
    RebasedParts(prefix, s, at, m);
    BeforeIsPlain(prefix);
    SplitNoSlash(TrimDot(s));
    StarStaysTrimmed(s);
    UntangledThenSubst(Rooted(prefix), at, PrefixParts(prefix), Split(TrimDot(s)), m);
  }

  /** A text whose parts after the star do not climb above it, and in which no ".." takes away more than one component,
      keeps its form. */
  lemma UntangledMeansSame(prefix: string, s: string)
    requires EndsInSlash(prefix) && '\\' !in prefix && '*' !in prefix && !IsAbsolute(s)
    requires StarStays(Split(s)) && TangleFree(prefix, s)
    ensures MeansSame(prefix, s)
  {
    var f, g := FormOf(Components(Rebase(prefix, s))), FormOf(Components(prefix + s));
    ComponentsProper(Rebase(prefix, s));
    ComponentsProper(prefix + s);
    forall at | Rooted(prefix) ==> at == [] ensures SameFrom(at, f, g) {
      forall m ensures Agree(at, f, g, m) { UntangledAgrees(prefix, s, at, m); }
      SameFromExactly(at, f, g);
    }
    SameEverywhereExactly(f, g);
  }

  // ----- texts without backslashes

  lemma PlainIsSingle(q: Part)
    requires Plain(q) && '/' !in q && '\\' !in q
    ensures Single(q)
  {
    PlainComponents(q);
    SplitPlain(q);
    CleanPlain(false, [], [q]);
  }

  lemma {:induction false} PlainUntangled(rooted: bool, acc: seq<Part>, parts: seq<Part>)
    requires Tidy(rooted, acc) && NoSlash(parts) && NoBackslash(acc) && NoBackslash(parts)
    ensures Untangled(rooted, acc, parts)
    decreases |parts|
  {
    if parts != [] {
      if parts[0] == ".." && acc != [] && acc[|acc| - 1] != ".." { PlainIsSingle(acc[|acc| - 1]); }
      PlainUntangled(rooted, CleanEnter(rooted, acc, parts[0]), parts[1..]);
    }
  }

  lemma PlainTangleFree(prefix: string, s: string)
    requires EndsInSlash(prefix) && '\\' !in prefix && '*' !in prefix && '\\' !in s
    ensures TangleFree(prefix, s)
  {
    var parts := Split(TrimDot(s));
    BeforeIsPlain(prefix);
    SplitNoSlash(TrimDot(s));
    assert '\\' !in TrimDot(s);
    SplitNoBackslash(TrimDot(s));
    var i := StarPart(parts);
    PlainUntangled(Rooted(prefix), [], PrefixParts(prefix) + parts[..i]);
    if i < |parts| { PlainUntangled(false, [], parts[i + 1..]); }
  }

  /** What follows the star, if there is one. */
  function AfterStar(d: seq<Part>): seq<Part> {
    if StarPart(d) < |d| then d[StarPart(d) + 1..] else []
  }

  lemma AfterStarLater(a: seq<Part>, d: seq<Part>)
    requires Starless(a)
    ensures AfterStar(a + d) == AfterStar(d)
  {
    StarPartAfter(a, d);
    if StarPart(d) < |d| { assert (a + d)[|a| + StarPart(d) + 1..] == d[StarPart(d) + 1..]; }
  }

  lemma PlainNeverClimbs(parts: seq<Part>)
    requires AllPlain(parts)
    ensures Climbs(parts) == 0
  {
    CleanPlain(false, [], parts);
    assert [] + parts == parts;
  }

  lemma KeptIsStarless(rooted: bool, front: seq<Part>, n: nat)
    requires Starless(front)
    ensures Starless(CleanParts(rooted, CleanParts(rooted, [], front), Ups(n)))
  {
    CleanStarless(rooted, [], front);
    UpsStarless(n);
    CleanStarless(rooted, CleanParts(rooted, [], front), Ups(n));
  }

  lemma DescentNeverClimbs(tail: seq<Part>)
    requires NoSlash(tail)
    ensures Climbs(AfterStar(Descent(tail))) == 0
  {
    CleanedShape(tail);
    PlainNeverClimbs(AfterStar(Descent(tail)));
  }

  /** Cleaning a text that climbs above its star leaves nothing that climbs after a star. */
  lemma CleanedNeverClimbs(rooted: bool, before: seq<Part>, parts: seq<Part>)
    requires Starless(before) && NoSlash(parts) && !StarStays(parts)
    ensures Climbs(AfterStar(CleanParts(rooted, [], before + parts))) == 0
  {
    var i := StarPart(parts);
    StarPartIsFirst(parts);
    var front, tail := before + parts[..i], parts[i + 1..];
    assert before + parts == front + [parts[i]] + tail;
    StarInside(rooted, front, parts[i], tail);
    KeptIsStarless(rooted, front, Climbs(tail) - 1);
    AfterStarLater(CleanParts(rooted, CleanParts(rooted, [], front), Ups(Climbs(tail) - 1)), Descent(tail));
    DescentNeverClimbs(tail);
  }

  lemma UpsStarless(n: nat)
    ensures Starless(Ups(n))
  {
    if n > 0 { UpsStarless(n - 1); }
  }

  lemma {:induction false} CleanNoBackslash(rooted: bool, acc: seq<Part>, parts: seq<Part>)
    requires NoBackslash(acc) && NoBackslash(parts)
    ensures NoBackslash(CleanParts(rooted, acc, parts))
    decreases |parts|
  {
    if parts != [] { CleanNoBackslash(rooted, CleanEnter(rooted, acc, parts[0]), parts[1..]); }
  }

  lemma PlainRebase(prefix: string, s: string)
    requires EndsInSlash(prefix) && '\\' !in prefix && '*' !in prefix && '\\' !in s && !IsAbsolute(s)
    ensures
      AfterStar(Components(Rebase(prefix, s))) ==
      AfterStar(CleanParts(Rooted(prefix), [], PrefixParts(prefix) + Split(TrimDot(s))))
    ensures AfterStar(Components(prefix + s)) == AfterStar(Split(s))
    ensures StarPart(Components(prefix + s)) < |Components(prefix + s)| <==> StarPart(Split(s)) < |Split(s)|
  {
    var before, parts := PrefixParts(prefix), Split(TrimDot(s));
    var cleaned := CleanParts(Rooted(prefix), [], before + parts);
    BeforeIsPlain(prefix);
    assert '\\' !in TrimDot(s);
    SplitNoBackslash(TrimDot(s));
    SplitNoSlash(TrimDot(s));
    CleanNoBackslash(Rooted(prefix), [], before + parts);
    CleanTidy(Rooted(prefix), [], before + parts);
    SpreadPlain(cleaned);
    var lead := RebaseSplit(prefix, s);
    IdleIsPlain(lead);
    ComponentsSpread(Rebase(prefix, s));
    SpreadConcat(lead, cleaned);
    AfterStarLater(lead, cleaned);
    PrefixedComponents(prefix, s);
    PlainComponents(s);
    AfterStarLater(before, Split(s));
    StarPartAfter(before, Split(s));
  }

  lemma FormsDiffer(at: seq<Part>, d: seq<Part>, e: seq<Part>)
    requires Climbs(AfterStar(d)) == 0 && StarPart(e) < |e| && Climbs(AfterStar(e)) > 0
    ensures !SameFrom(at, FormOf(d), FormOf(e)) && !SameEverywhere(FormOf(d), FormOf(e))
  {
  }

  lemma ClimbingLosesMeaning(prefix: string, s: string)
    requires EndsInSlash(prefix) && '\\' !in prefix && '*' !in prefix && '\\' !in s && !IsAbsolute(s)
    requires !StarStays(Split(s))
    ensures !MeansSame(prefix, s)
  {
    PlainRebase(prefix, s);
    BeforeIsPlain(prefix);
    SplitNoSlash(TrimDot(s));
    StarStaysTrimmed(s);
    CleanedNeverClimbs(Rooted(prefix), PrefixParts(prefix), Split(TrimDot(s)));
    FormsDiffer([], Components(Rebase(prefix, s)), Components(prefix + s));
  }

  /** A relative text without a backslash keeps its place, for every directory and every match that leaves it
      relative, exactly when the parts after its star do not climb above it and cleaning turns it neither absolute
      nor relative. */
  lemma SlashesExactly(baseUrl: string, s: string)
    requires BaseKept(baseUrl) && '*' !in baseUrl && !IsAbsolute(s) && '\\' !in s
    ensures SamePlaces(baseUrl, s) <==> StarStays(Split(s)) && Anchored(Prefix(baseUrl), s)
    ensures StarStays(Split(s)) <==> MeansSame(Prefix(baseUrl), s)
  {
    var prefix := Prefix(baseUrl);
    PrefixWalks([], baseUrl);
    PrefixStarless(baseUrl);
    PrefixComponents(baseUrl);
    RebaseExactly(baseUrl, s);
    if StarStays(Split(s)) {
      PlainTangleFree(prefix, s);
      UntangledMeansSame(prefix, s);
    } else {
      ClimbingLosesMeaning(prefix, s);
    }
  }
}
