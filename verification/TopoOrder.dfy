/**
 The levelled topological sort of internal/deploy/graph.go.
 */
module TopoOrder {
  import opened Sequences
  import opened Graphs
  import opened SortedStrings

  type Key = string

  /** A resource as the sort sees it: its "<kind>/<name>" key and the keys it depends on. */
  datatype Resource = Resource(kind: string, key: Key, deps: seq<Key>, inputs: string)

  datatype Sorting =
    | Ordered(resources: seq<Resource>)
    | Duplicate(key: Key)
    | Missing(key: Key, dep: Key)
    | Cyclic(stuck: seq<Key>)

  ghost predicate DistinctKeys(resources: seq<Resource>) {
    forall i, j :: 0 <= i < j < |resources| ==> resources[i].key != resources[j].key
  }

  ghost predicate IsKey(resources: seq<Resource>, k: Key) {
    exists i :: 0 <= i < |resources| && resources[i].key == k
  }

  ghost predicate DepsPresent(resources: seq<Resource>) {
    forall i, d :: 0 <= i < |resources| && d in resources[i].deps ==> IsKey(resources, d)
  }

  // ----- the graph, as the maps of the source hold it

  function DepGraph(byKey: map<Key, Resource>): Graph<Key> {
    map k | k in byKey :: byKey[k].deps
  }

  ghost predicate DepsClosed(g: Graph<Key>) {
    forall k, d :: k in g && d in g[k] ==> d in g
  }

  // ----- the reference order

  /** The keys whose dependencies are all done and that are not done themselves. */
  function Ready(g: Graph<Key>, done: set<Key>): set<Key> {
    set k | k in g && k !in done && forall d :: d in g[k] ==> d in done
  }

  function SetSeq(s: set<Key>): seq<Key>
    ensures Distinct(SetSeq(s)) && forall k :: k in SetSeq(s) <==> k in s
  {
    if s == {} then []
    else
      var k := Least(s);
      [k] + SetSeq(s - {k})
  }

  /** The least key, which is unique. */
  function Least(s: set<Key>): (k: Key)
    requires s != {}
    ensures IsLeast(s, k)
  {
    HasLeast(s);
    LeastUnique(s);
    var k :| k in s && IsLeast(s, k);
    k
  }

  lemma {:induction false} HasLeast(s: set<Key>)
    requires s != {}
    ensures exists k :: k in s && IsLeast(s, k)
  {
    var y :| y in s;
    var rest := s - {y};
    if rest == {} {
      assert s == rest + {y};
      assert IsLeast(s, y);
    } else {
      HasLeast(rest);
      var k :| k in rest && IsLeast(rest, k);
      LexTotal(k, y);
      var least := if LexLess(k, y) then k else y;
      forall x | x in s && x != least ensures LexLess(least, x) {
        if least == y && x != k { LexTransitive(y, k, x); }
      }
      assert IsLeast(s, least);
    }
  }

  lemma LeastUnique(s: set<Key>)
    ensures forall a, b :: IsLeast(s, a) && IsLeast(s, b) ==> a == b
  {
    forall a, b | IsLeast(s, a) && IsLeast(s, b) ensures a == b {
      if a != b {
        LexTransitive(a, b, a);
        LexIrreflexive(a);
      }
    }
  }

  predicate IsLeast(s: set<Key>, k: Key) {
    k in s && forall x :: x in s && x != k ==> LexLess(k, x)
  }

  lemma {:induction false} SetSeqSorted(s: set<Key>)
    ensures SortsSet(SetSeq(s), s)
  {
    if s != {} { SetSeqSorted(s - {Least(s)}); }
  }

  /** Level after level, each in key order. */
  function LevelOrder(g: Graph<Key>, done: set<Key>): seq<Key>
    decreases g.Keys - done
  {
    var ready := Ready(g, done);
    if ready == {} then []
    else
      assert g.Keys - (done + ready) < g.Keys - done by {
        var k :| k in ready;
        assert k in g.Keys - done && k !in g.Keys - (done + ready);
      }
      SetSeq(ready) + LevelOrder(g, done + ready)
  }

  /** What is done once no key is ready. */
  function AllDone(g: Graph<Key>, done: set<Key>): set<Key>
    decreases g.Keys - done
  {
    var ready := Ready(g, done);
    if ready == {} then done
    else
      assert g.Keys - (done + ready) < g.Keys - done by {
        var k :| k in ready;
        assert k in g.Keys - done && k !in g.Keys - (done + ready);
      }
      AllDone(g, done + ready)
  }

  // ----- what the reference order is

  /** Everything a done key depends on is done. */
  ghost predicate DoneClosed(g: Graph<Key>, done: set<Key>) {
    done <= g.Keys && forall k, d :: k in done && d in g[k] ==> d in done
  }

  ghost predicate OrderedAfter(g: Graph<Key>, done: set<Key>, order: seq<Key>) {
    forall i, d :: 0 <= i < |order| && d in Succ(g, order[i]) ==> d in done || Earlier(order, d, i)
  }

  lemma ReadyFacts(g: Graph<Key>, done: set<Key>)
    requires DoneClosed(g, done)
    ensures DoneClosed(g, done + Ready(g, done))
  {
  }

  lemma {:induction false} DoneGrows(g: Graph<Key>, done: set<Key>)
    requires DoneClosed(g, done)
    ensures done <= AllDone(g, done) && DoneClosed(g, AllDone(g, done)) && Ready(g, AllDone(g, done)) == {}
    decreases g.Keys - done
  {
    var ready := Ready(g, done);
    if ready != {} {
      ReadyFacts(g, done);
      StillSmaller(g, done);
      DoneGrows(g, done + ready);
    }
  }

  lemma StillSmaller(g: Graph<Key>, done: set<Key>)
    requires Ready(g, done) != {}
    ensures g.Keys - (done + Ready(g, done)) < g.Keys - done
  {
    var k :| k in Ready(g, done);
    assert k in g.Keys - done && k !in g.Keys - (done + Ready(g, done));
  }

  lemma {:induction false} OrderLists(g: Graph<Key>, done: set<Key>, k: Key)
    requires DoneClosed(g, done)
    ensures k in LevelOrder(g, done) <==> k in AllDone(g, done) && k !in done
    decreases g.Keys - done
  {
    var ready := Ready(g, done);
    if ready != {} {
      ReadyFacts(g, done);
      StillSmaller(g, done);
      OrderLists(g, done + ready, k);
      DoneGrows(g, done + ready);
    }
  }

  lemma {:induction false} OrderDistinct(g: Graph<Key>, done: set<Key>)
    requires DoneClosed(g, done)
    ensures Distinct(LevelOrder(g, done))
    decreases g.Keys - done
  {
    var ready := Ready(g, done);
    if ready != {} {
      ReadyFacts(g, done);
      StillSmaller(g, done);
      OrderDistinct(g, done + ready);
      var first, rest := SetSeq(ready), LevelOrder(g, done + ready);
      forall i, j | 0 <= i < |first| && 0 <= j < |rest| ensures first[i] != rest[j] {
        assert first[i] in first;
        OrderLists(g, done + ready, rest[j]);
      }
    }
  }

  lemma {:induction false} OrderAfterDeps(g: Graph<Key>, done: set<Key>)
    requires DoneClosed(g, done)
    ensures OrderedAfter(g, done, LevelOrder(g, done))
    decreases g.Keys - done
  {
    var ready := Ready(g, done);
    if ready != {} {
      ReadyFacts(g, done);
      StillSmaller(g, done);
      OrderAfterDeps(g, done + ready);
      var first, rest := SetSeq(ready), LevelOrder(g, done + ready);
      var order := first + rest;
      forall i, d | 0 <= i < |order| && d in Succ(g, order[i]) ensures d in done || Earlier(order, d, i) {
        if i < |first| {
          assert first[i] in ready;
        } else {
          assert order[i] == rest[i - |first|];
          LaterLevel(g, done, ready, first, rest, i - |first|, d);
        }
      }
    }
  }

  lemma LaterLevel(g: Graph<Key>, done: set<Key>, ready: set<Key>, first: seq<Key>, rest: seq<Key>, i: nat, d: Key)
    requires OrderedAfter(g, done + ready, rest) && i < |rest| && d in Succ(g, rest[i])
    requires forall k :: k in first <==> k in ready
    ensures d in done || Earlier(first + rest, d, |first| + i)
  {
    var order := first + rest;
    if d in ready {
      var j :| 0 <= j < |first| && first[j] == d;
      assert order[j] == d;
    } else if d !in done {
      assert Earlier(rest, d, i);
      var j :| 0 <= j < i && rest[j] == d;
      assert order[|first| + j] == d;
    }
  }

  /** `y` has a successor inside `s`. */
  ghost predicate GoesOn(g: Graph<Key>, s: set<Key>, y: Key) {
    exists z :: z in Succ(g, y) && z in s
  }

  ghost predicate AllGoOn(g: Graph<Key>, s: set<Key>) {
    forall y {:trigger GoesOn(g, s, y)} :: y in s ==> GoesOn(g, s, y)
  }

  ghost function ReachedFrom(g: Graph<Key>, s: set<Key>, x: Key): set<Key> {
    set y | y in s && ReachesByEdge(g, x, y)
  }

  lemma ReachedGoesOn(g: Graph<Key>, s: set<Key>, x: Key, y: Key)
    requires y in ReachedFrom(g, s, x) && GoesOn(g, s, y)
    ensures GoesOn(g, ReachedFrom(g, s, x), y)
  {
    var z :| z in Succ(g, y) && z in s;
    var w :| w in Succ(g, x) && Reaches(g, w, y);
    ReachesThenEdge(g, w, y, z);
    assert z in ReachedFrom(g, s, x);
  }

  lemma ReachedAllGoOn(g: Graph<Key>, s: set<Key>, x: Key)
    requires AllGoOn(g, s)
    ensures AllGoOn(g, ReachedFrom(g, s, x))
  {
    forall y | y in ReachedFrom(g, s, x) ensures GoesOn(g, ReachedFrom(g, s, x), y) {
      assert GoesOn(g, s, y);
      ReachedGoesOn(g, s, x, y);
    }
  }

  /** A set in which every node has a successor leads to a cycle from each of its members. */
  lemma {:induction false} AlwaysOnwardsMeansCycle(g: Graph<Key>, s: set<Key>, x: Key) returns (c: Key)
    requires x in s && AllGoOn(g, s)
    ensures Reaches(g, x, c) && OnCycle(g, c)
    decreases s
  {
    if OnCycle(g, x) {
      ReachesSelf(g, x);
      c := x;
    } else {
      var later := ReachedFrom(g, s, x);
      assert GoesOn(g, s, x);
      var next :| next in Succ(g, x) && next in s;
      EdgeReaches(g, x, next);
      ReachedAllGoOn(g, s, x);
      c := AlwaysOnwardsMeansCycle(g, later, next);
      EdgeThenReaches(g, x, next, c);
    }
  }

  /** The keys never reached by the sort are exactly those that depend, in the end, on a cycle. */
  lemma StuckExactly(g: Graph<Key>, k: Key)
    requires DepsClosed(g) && k in g
    ensures k !in AllDone(g, {}) <==> CycleReachableFrom(g, k)
  {
    var all := AllDone(g, {});
    DoneGrows(g, {});
    if k !in all {
      var left := g.Keys - all;
      forall y | y in left ensures GoesOn(g, left, y) { StuckHasStuckDep(g, all, y); }
      assert AllGoOn(g, left);
      var c := AlwaysOnwardsMeansCycle(g, left, k);
    } else if CycleReachableFrom(g, k) {
      var c :| Reaches(g, k, c) && OnCycle(g, c);
      ClosedHoldsReachable(g, all, k, c);
      OrderLists(g, {}, c);
      OrderAfterDeps(g, {});
      OrderDistinct(g, {});
      var order := LevelOrder(g, {});
      var i :| 0 <= i < |order| && order[i] == c;
      OrderIsSuccessorsFirst(g);
      ListedNotOnCycle(g, order, i);
    }
  }

  lemma StuckHasStuckDep(g: Graph<Key>, all: set<Key>, y: Key)
    requires DepsClosed(g) && y in g && y !in all && Ready(g, all) == {}
    ensures GoesOn(g, g.Keys - all, y)
  {
    assert y !in Ready(g, all);
    var z :| z in g[y] && z !in all;
    assert z in Succ(g, y) && z in g.Keys - all;
  }

  lemma OrderIsSuccessorsFirst(g: Graph<Key>)
    ensures SuccessorsFirst(g, LevelOrder(g, {})) && Distinct(LevelOrder(g, {}))
  {
    OrderAfterDeps(g, {});
    OrderDistinct(g, {});
    forall i, y | 0 <= i < |LevelOrder(g, {})| && y in Succ(g, LevelOrder(g, {})[i])
      ensures Earlier(LevelOrder(g, {}), y, i)
    {
      assert y in {} || Earlier(LevelOrder(g, {}), y, i);
    }
  }

  ghost predicate Acyclic(g: Graph<Key>) {
    forall k :: k in g ==> !CycleReachableFrom(g, k)
  }

  /** Every key is reached exactly when the graph has no cycle. */
  lemma AllDoneExactlyWhenAcyclic(g: Graph<Key>)
    requires DepsClosed(g)
    ensures AllDone(g, {}) == g.Keys <==> Acyclic(g)
  {
    DoneGrows(g, {});
    forall k | k in g ensures k in AllDone(g, {}) <==> !CycleReachableFrom(g, k) { StuckExactly(g, k); }
  }
}
