/** Directed graphs given by adjacency lists; a missing node has no edges, as in a Go map of slices. */
module Graphs {

  type Graph<T> = map<T, seq<T>>

  function Succ<T>(g: Graph<T>, x: T): seq<T> {
    if x in g then g[x] else []
  }

  /** `p` is a non-empty walk from `a` to `b`, listing every node it passes. */
  ghost predicate IsWalk<T>(g: Graph<T>, p: seq<T>, a: T, b: T) {
    && |p| > 0 && p[0] == a && p[|p| - 1] == b
    && forall i :: 0 <= i < |p| - 1 ==> p[i + 1] in Succ(g, p[i])
  }

  /** Reflexive and transitive. */
  ghost predicate Reaches<T(!new)>(g: Graph<T>, a: T, b: T) {
    exists p :: IsWalk(g, p, a, b)
  }

  /** In one or more steps. */
  ghost predicate ReachesByEdge<T(!new)>(g: Graph<T>, a: T, b: T) {
    exists c :: c in Succ(g, a) && Reaches(g, c, b)
  }

  ghost predicate OnCycle<T(!new)>(g: Graph<T>, x: T) {
    ReachesByEdge(g, x, x)
  }

  ghost predicate CycleReachableFrom<T(!new)>(g: Graph<T>, root: T) {
    exists x :: Reaches(g, root, x) && OnCycle(g, x)
  }

  ghost predicate Closed<T>(g: Graph<T>, s: set<T>) {
    forall x, y :: x in s && y in Succ(g, x) ==> y in s
  }

  lemma ReachesSelf<T(!new)>(g: Graph<T>, a: T)
    ensures Reaches(g, a, a)
  {
    assert IsWalk(g, [a], a, a);
  }

  lemma ReachesTransitive<T(!new)>(g: Graph<T>, a: T, b: T, c: T)
    requires Reaches(g, a, b) && Reaches(g, b, c)
    ensures Reaches(g, a, c)
  {
    var p :| IsWalk(g, p, a, b);
    var q :| IsWalk(g, q, b, c);
    var r := p + q[1..];
    assert forall i :: 0 <= i < |p| ==> r[i] == p[i];
    assert forall i :: |p| <= i < |r| ==> r[i] == q[i - |p| + 1];
    assert IsWalk(g, r, a, c);
  }

  lemma EdgeReaches<T(!new)>(g: Graph<T>, a: T, b: T)
    requires b in Succ(g, a)
    ensures Reaches(g, a, b) && ReachesByEdge(g, a, b)
  {
    assert IsWalk(g, [a, b], a, b);
    ReachesSelf(g, b);
  }

  lemma EdgeThenReaches<T(!new)>(g: Graph<T>, a: T, b: T, c: T)
    requires b in Succ(g, a) && Reaches(g, b, c)
    ensures Reaches(g, a, c)
  {
    EdgeReaches(g, a, b);
    ReachesTransitive(g, a, b, c);
  }

  lemma ReachesThenEdge<T(!new)>(g: Graph<T>, a: T, b: T, c: T)
    requires Reaches(g, a, b) && c in Succ(g, b)
    ensures Reaches(g, a, c)
  {
    EdgeReaches(g, b, c);
    ReachesTransitive(g, a, b, c);
  }

  /** A closed set holds everything its members reach. */
  lemma {:induction false} ClosedHoldsReachable<T(!new)>(g: Graph<T>, s: set<T>, a: T, b: T)
    requires Closed(g, s) && a in s && Reaches(g, a, b)
    ensures b in s
  {
    var p :| IsWalk(g, p, a, b);
    ClosedHoldsWalk(g, s, p, a, b);
  }

  lemma {:induction false} ClosedHoldsWalk<T(!new)>(g: Graph<T>, s: set<T>, p: seq<T>, a: T, b: T)
    requires Closed(g, s) && a in s && IsWalk(g, p, a, b)
    ensures b in s
    decreases |p|
  {
    if |p| > 1 {
      assert p[1] in Succ(g, p[0]);
      ClosedHoldsWalk(g, s, p[1..], p[1], b);
    }
  }

  // ----- listings that put every node after its successors

  ghost predicate Earlier<T>(order: seq<T>, y: T, i: nat)
    requires i <= |order|
  {
    exists j :: 0 <= j < i && order[j] == y
  }

  /** Every successor of a listed node is listed before it. */
  ghost predicate SuccessorsFirst<T>(g: Graph<T>, order: seq<T>) {
    forall i, y :: 0 <= i < |order| && y in Succ(g, order[i]) ==> Earlier(order, y, i)
  }

  lemma {:induction false} ReachableListedEarlier<T(!new)>(g: Graph<T>, order: seq<T>, i: nat, y: T)
    requires SuccessorsFirst(g, order) && i < |order| && ReachesByEdge(g, order[i], y)
    ensures Earlier(order, y, i)
  {
    var c :| c in Succ(g, order[i]) && Reaches(g, c, y);
    var p :| IsWalk(g, p, c, y);
    WalkListedEarlier(g, order, i, p, c, y);
  }

  lemma {:induction false} WalkListedEarlier<T(!new)>(g: Graph<T>, order: seq<T>, i: nat, p: seq<T>, c: T, y: T)
    requires SuccessorsFirst(g, order) && i < |order| && c in Succ(g, order[i]) && IsWalk(g, p, c, y)
    ensures Earlier(order, y, i)
    decreases |p|
  {
    assert Earlier(order, c, i);
    if |p| > 1 {
      var j :| 0 <= j < i && order[j] == c;
      assert p[1] in Succ(g, p[0]);
      WalkListedEarlier(g, order, j, p[1..], p[1], y);
      var k :| 0 <= k < j && order[k] == y;
    }
  }

  /** A listing with successors first and no repetition contains no node of a cycle. */
  lemma ListedNotOnCycle<T(!new)>(g: Graph<T>, order: seq<T>, i: nat)
    requires SuccessorsFirst(g, order) && i < |order|
    requires forall j, k :: 0 <= j < k < |order| ==> order[j] != order[k]
    ensures !OnCycle(g, order[i])
  {
    if OnCycle(g, order[i]) {
      ReachableListedEarlier(g, order, i, order[i]);
    }
  }

  // ----- closing backwards

  /** Everything with an edge into `s` is in `s`. */
  ghost predicate ClosedBackwards<T(!new)>(g: Graph<T>, s: set<T>) {
    forall x, y :: x in s && x in Succ(g, y) ==> y in s
  }

  lemma {:induction false} BackwardsHoldsReachers<T(!new)>(g: Graph<T>, s: set<T>, a: T, b: T)
    requires ClosedBackwards(g, s) && b in s && Reaches(g, a, b)
    ensures a in s
  {
    var p :| IsWalk(g, p, a, b);
    BackwardsHoldsWalk(g, s, p, a, b);
  }

  lemma {:induction false} BackwardsHoldsWalk<T(!new)>(g: Graph<T>, s: set<T>, p: seq<T>, a: T, b: T)
    requires ClosedBackwards(g, s) && b in s && IsWalk(g, p, a, b)
    ensures a in s
    decreases |p|
  {
    if |p| > 1 {
      BackwardsHoldsWalk(g, s, p[1..], p[1], b);
      assert p[1] in Succ(g, p[0]);
    }
  }
}
