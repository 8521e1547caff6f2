/**
 How far a path text climbs: cleaned, it goes up some times and then down.
 */
module Climbing {
  import opened PathText

  predicate Plain(p: Part) {
    !Idle(p) && p != ".."
  }

  predicate AllPlain(parts: seq<Part>) {
    forall i :: 0 <= i < |parts| ==> Plain(parts[i])
  }

  lemma {:induction false} WalkPlain(at: seq<Part>, parts: seq<Part>)
    requires AllPlain(parts)
    ensures Walk(at, parts) == at + parts
    decreases |parts|
  {
    if parts != [] {
      WalkPlain(at + [parts[0]], parts[1..]);
      assert at + [parts[0]] + parts[1..] == at + parts;
    }
  }

  lemma {:induction false} CleanPlain(rooted: bool, acc: seq<Part>, parts: seq<Part>)
    requires AllPlain(parts)
    ensures CleanParts(rooted, acc, parts) == acc + parts
    decreases |parts|
  {
    if parts != [] {
      CleanPlain(rooted, acc + [parts[0]], parts[1..]);
      assert acc + [parts[0]] + parts[1..] == acc + parts;
    }
  }

  function Ups(n: nat): (ups: seq<Part>)
    ensures |ups| == n
  {
    if n == 0 then [] else [".."] + Ups(n - 1)
  }

  /** How many times "..", then other parts only. */
  function Leading(c: seq<Part>): (n: nat)
    ensures n <= |c|
  {
    if c != [] && c[0] == ".." then 1 + Leading(c[1..]) else 0
  }

  lemma {:induction false} LeadingUps(c: seq<Part>)
    ensures c == Ups(Leading(c)) + c[Leading(c)..]
    ensures Leading(c) < |c| ==> c[Leading(c)] != ".."
  {
    if c != [] && c[0] == ".." {
      LeadingUps(c[1..]);
      var n := Leading(c[1..]);
      assert c == [".."] + c[1..] && c[1 + n..] == c[1..][n..];
      assert [".."] + (Ups(n) + c[1..][n..]) == [".."] + Ups(n) + c[1..][n..];
    }
  }

  ghost predicate UpsInFront(c: seq<Part>) {
    forall i, j :: 0 <= i < j < |c| && c[j] == ".." ==> c[i] == ".."
  }

  lemma {:induction false} CleanUpsInFront(c: seq<Part>, parts: seq<Part>)
    requires UpsInFront(c)
    ensures UpsInFront(CleanParts(false, c, parts))
    decreases |parts|
  {
    if parts != [] {
      var next := CleanEnter(false, c, parts[0]);
      assert UpsInFront(next);
      CleanUpsInFront(next, parts[1..]);
    }
  }

  /** The parts as they are after cleaning. */
  function Cleaned(parts: seq<Part>): seq<Part> {
    CleanParts(false, [], parts)
  }

  /** How far above its start the text goes. */
  function Climbs(parts: seq<Part>): nat {
    Leading(Cleaned(parts))
  }

  /** The parts it then goes down. */
  function Descent(parts: seq<Part>): seq<Part> {
    Cleaned(parts)[Climbs(parts)..]
  }

  lemma CleanedShape(parts: seq<Part>)
    requires NoSlash(parts)
    ensures Cleaned(parts) == Ups(Climbs(parts)) + Descent(parts) && AllPlain(Descent(parts))
    ensures NoSlash(Descent(parts))
  {
    var c, n := Cleaned(parts), Climbs(parts);
    CleanTidy(false, [], parts);
    CleanUpsInFront([], parts);
    LeadingUps(c);
    assert forall i :: n < i < |c| ==> c[i] != "..";
  }

  /** The directory `n` above, or the root. */
  function Above(at: seq<Part>, n: nat): (up: seq<Part>)
    ensures |up| == if |at| > n then |at| - n else 0
  {
    if |at| > n then at[..|at| - n] else []
  }

  lemma {:induction false} WalkUps(at: seq<Part>, n: nat)
    ensures Walk(at, Ups(n)) == Above(at, n)
    decreases n
  {
    if n > 0 {
      var up := Enter(at, "..");
      assert Ups(n)[0] == ".." && Ups(n)[1..] == Ups(n - 1);
      WalkUps(up, n - 1);
      if |at| > n { assert up[..|up| - (n - 1)] == at[..|at| - n]; }
    }
  }

  lemma WalkUpDown(at: seq<Part>, n: nat, down: seq<Part>)
    requires AllPlain(down)
    ensures Walk(at, Ups(n) + down) == Above(at, n) + down
  {
    WalkConcat(at, Ups(n), down);
    WalkUps(at, n);
    WalkPlain(Walk(at, Ups(n)), down);
  }

  /** A walk goes up as far as the text climbs, or to the root, and then down. */
  lemma WalkShape(at: seq<Part>, parts: seq<Part>)
    requires NoSlash(parts)
    ensures Walk(at, parts) == Above(at, Climbs(parts)) + Descent(parts)
  {
    assert Walk(at, parts) == Walk(at, Cleaned(parts)) by {
      CleanWalks(false, at, [], parts);
    }
    CleanedShape(parts);
    WalkUpDown(at, Climbs(parts), Descent(parts));
  }

  // ----- cleaning twice

  lemma CleanLast(rooted: bool, acc: seq<Part>, c: seq<Part>, p: Part)
    ensures CleanParts(rooted, acc, c + [p]) == CleanEnter(rooted, CleanParts(rooted, acc, c), p)
  {
    CleanConcat(rooted, acc, c, [p]);
    var here := CleanParts(rooted, acc, c);
    assert [p][1..] == [];
    assert CleanParts(rooted, here, [p]) == CleanParts(rooted, CleanEnter(rooted, here, p), [p][1..]);
  }

  lemma CleanEnterTwice(rooted: bool, acc: seq<Part>, c: seq<Part>, p: Part)
    requires Tidy(false, c)
    ensures CleanEnter(rooted, CleanParts(rooted, acc, c), p) == CleanParts(rooted, acc, CleanEnter(false, c, p))
  {
    if !Idle(p) {
      if p == ".." && c != [] && c[|c| - 1] != ".." {
        var init, last := c[..|c| - 1], c[|c| - 1];
        assert c == init + [last];
        CleanLast(rooted, acc, init, last);
        assert (CleanParts(rooted, acc, init) + [last])[..|CleanParts(rooted, acc, init)|] ==
          CleanParts(rooted, acc, init);
      } else {
        CleanLast(rooted, acc, c, p);
      }
    }
  }

  lemma {:induction false} CleanTwiceFrom(rooted: bool, acc: seq<Part>, c: seq<Part>, parts: seq<Part>)
    requires Tidy(false, c) && NoSlash(parts)
    ensures CleanParts(rooted, CleanParts(rooted, acc, c), parts) ==
      CleanParts(rooted, acc, CleanParts(false, c, parts))
    decreases |parts|
  {
    if parts != [] {
      CleanEnterTwice(rooted, acc, c, parts[0]);
      CleanTwiceFrom(rooted, acc, CleanEnter(false, c, parts[0]), parts[1..]);
    }
  }

  /** Parts have the effect of their climbs and their descent. */
  lemma CleanShape(rooted: bool, acc: seq<Part>, parts: seq<Part>)
    requires NoSlash(parts)
    ensures CleanParts(rooted, acc, parts) == CleanParts(rooted, acc, Ups(Climbs(parts))) + Descent(parts)
  {
    CleanTwiceFrom(rooted, acc, [], parts);
    CleanedShape(parts);
    CleanConcat(rooted, acc, Ups(Climbs(parts)), Descent(parts));
    CleanPlain(rooted, CleanParts(rooted, acc, Ups(Climbs(parts))), Descent(parts));
  }
}
