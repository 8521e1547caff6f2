/**
 topoSort of internal/deploy/graph.go: the counting version, proved to produce the level order.
 */
module TopoSorting {
  import opened Wrappers
  import opened Sequences
  import opened Graphs
  import opened SortedStrings
  import opened TopoOrder


  function ByKey(resources: seq<Resource>): map<Key, Resource> {
    if resources == [] then map[]
    else ByKey(resources[..|resources| - 1])[resources[|resources| - 1].key := resources[|resources| - 1]]
  }

  /** The dependency graph of a list of resources. */
  function GraphOf(resources: seq<Resource>): Graph<Key> {
    DepGraph(ByKey(resources))
  }

  lemma IsKeyLast(resources: seq<Resource>, k: Key)
    requires resources != []
    ensures
      var n := |resources| - 1;
      IsKey(resources, k) <==> IsKey(resources[..n], k) || k == resources[n].key
  {
    var n := |resources| - 1;
    if IsKey(resources, k) {
      var i :| 0 <= i < |resources| && resources[i].key == k;
      if i < n { assert resources[..n][i] == resources[i]; }
    }
    if IsKey(resources[..n], k) {
      var i :| 0 <= i < |resources[..n]| && resources[..n][i].key == k;
      assert resources[i] == resources[..n][i];
    }
  }

  lemma {:induction false} ByKeyKeys(resources: seq<Resource>, k: Key)
    ensures k in ByKey(resources) <==> IsKey(resources, k)
  {
    if resources != [] {
      ByKeyKeys(resources[..|resources| - 1], k);
      IsKeyLast(resources, k);
    }
  }

  lemma {:induction false} ByKeyAt(resources: seq<Resource>, i: nat)
    requires DistinctKeys(resources) && i < |resources|
    ensures resources[i].key in ByKey(resources) && ByKey(resources)[resources[i].key] == resources[i]
  {
    var n := |resources| - 1;
    if i < n {
      assert forall m :: 0 <= m < n ==> resources[..n][m] == resources[m];
      ByKeyAt(resources[..n], i);
    }
  }

  lemma GraphAt(resources: seq<Resource>, i: nat)
    requires DistinctKeys(resources) && i < |resources|
    ensures resources[i].key in GraphOf(resources) && GraphOf(resources)[resources[i].key] == resources[i].deps
  {
    ByKeyAt(resources, i);
  }

  lemma GraphKeys(resources: seq<Resource>)
    ensures forall k :: k in GraphOf(resources) <==> IsKey(resources, k)
  {
    forall k ensures k in GraphOf(resources) <==> IsKey(resources, k) { ByKeyKeys(resources, k); }
  }

  lemma GraphDeps(resources: seq<Resource>)
    requires DistinctKeys(resources)
    ensures DepsPresent(resources) <==> DepsClosed(GraphOf(resources))
  {
    var g := GraphOf(resources);
    GraphKeys(resources);
    if DepsPresent(resources) {
      forall k, d | k in g && d in g[k] ensures d in g {
        var i :| 0 <= i < |resources| && resources[i].key == k;
        GraphAt(resources, i);
      }
    }
    if DepsClosed(g) {
      forall i, d | 0 <= i < |resources| && d in resources[i].deps ensures IsKey(resources, d) {
        GraphAt(resources, i);
        assert d in g;
      }
    }
  }

  // ----- first loop: duplicate keys

  ghost predicate SharedKey(resources: seq<Resource>, k: Key) {
    exists i, j :: 0 <= i < j < |resources| && resources[i].key == k && resources[j].key == k
  }

  method IndexByKey(resources: seq<Resource>) returns (byKey: map<Key, Resource>, dup: Option<Key>)
    ensures dup.Some? ==> SharedKey(resources, dup.value)
    ensures dup.None? ==> DistinctKeys(resources) && byKey == ByKey(resources)
  {
    byKey := map[];
    var i := 0;
    while i < |resources|
      invariant 0 <= i <= |resources|
      invariant DistinctKeys(resources[..i]) && byKey == ByKey(resources[..i])
    {
      var key := resources[i].key;
      ByKeyKeys(resources[..i], key);
      if key in byKey {
        var j :| 0 <= j < |resources[..i]| && resources[..i][j].key == key;
        assert resources[j] == resources[..i][j];
        return byKey, Some(key);
      }
      forall m | 0 <= m < i ensures resources[m].key != key {
        assert resources[..i][m] == resources[m];
      }
      assert resources[..i + 1][..i] == resources[..i];
      byKey := byKey[key := resources[i]];
      i := i + 1;
    }
    assert resources[..|resources|] == resources;
    dup := None;
  }

  // ----- second loop: indegrees and dependents

  function Get(dependents: map<Key, seq<Key>>, x: Key): seq<Key> {
    if x in dependents then dependents[x] else []
  }

  /** For every counted key, each of its dependencies lists it as often as it names that dependency. */
  ghost predicate Tallied(g: Graph<Key>, counted: set<Key>, dependents: map<Key, seq<Key>>) {
    forall x, k :: multiset(Get(dependents, x))[k] == if k in counted then multiset(Succ(g, k))[x] else 0
  }

  ghost predicate Counted(g: Graph<Key>, counted: set<Key>, indegree: map<Key, int>) {
    indegree.Keys == counted && forall k :: k in counted ==> indegree[k] == |Succ(g, k)|
  }

  /** `key` was added to the dependents of each of `deps`. */
  ghost predicate Added(before: map<Key, seq<Key>>, after: map<Key, seq<Key>>, key: Key, deps: seq<Key>) {
    forall x, k ::
      multiset(Get(after, x))[k] == multiset(Get(before, x))[k] + (if k == key then multiset(deps)[x] else 0)
  }

  lemma AddedOne(before: map<Key, seq<Key>>, after: map<Key, seq<Key>>, key: Key, deps: seq<Key>, dep: Key)
    requires Added(before, after, key, deps)
    ensures Added(before, after[dep := Get(after, dep) + [key]], key, deps + [dep])
  {
  }

  method CountOne(byKey: map<Key, Resource>, key: Key, deps: seq<Key>, given: map<Key, seq<Key>>)
    returns (degree: int, dependents: map<Key, seq<Key>>, missing: Option<Key>)
    ensures missing.Some? ==> missing.value in deps && missing.value !in byKey
    ensures missing.None? ==>
      && degree == |deps| && (forall d :: d in deps ==> d in byKey)
      && Added(given, dependents, key, deps)
  {
    degree, dependents := 0, given;
    var j := 0;
    while j < |deps|
      invariant 0 <= j <= |deps| && degree == j
      invariant forall d :: d in deps[..j] ==> d in byKey
      invariant Added(given, dependents, key, deps[..j])
    {
      var depKey := deps[j];
      if depKey !in byKey { return degree, dependents, Some(depKey); }
      AddedOne(given, dependents, key, deps[..j], depKey);
      assert deps[..j + 1] == deps[..j] + [depKey];
      degree := degree + 1;
      dependents := dependents[depKey := Get(dependents, depKey) + [key]];
      j := j + 1;
    }
    assert deps[..|deps|] == deps;
    missing := None;
  }

  ghost predicate IsMissing(resources: seq<Resource>, key: Key, dep: Key) {
    (exists i :: 0 <= i < |resources| && resources[i].key == key && dep in resources[i].deps)
    && !IsKey(resources, dep)
  }

  function FirstKeys(resources: seq<Resource>, n: nat): set<Key>
    requires n <= |resources|
  {
    set i | 0 <= i < n :: resources[i].key
  }

  ghost predicate DepsKnown(resources: seq<Resource>, n: nat, byKey: map<Key, Resource>)
    requires n <= |resources|
  {
    forall m, d :: 0 <= m < n && d in resources[m].deps ==> d in byKey
  }

  lemma CountedOne(g: Graph<Key>, counted: set<Key>, indegree: map<Key, int>, key: Key, degree: int)
    requires Counted(g, counted, indegree) && degree == |Succ(g, key)|
    ensures Counted(g, counted + {key}, indegree[key := degree])
  {
  }

  method CountDependencies(resources: seq<Resource>, byKey: map<Key, Resource>)
    returns (indegree: map<Key, int>, dependents: map<Key, seq<Key>>, missing: Option<(Key, Key)>)
    requires DistinctKeys(resources) && byKey == ByKey(resources)
    ensures missing.Some? ==> IsMissing(resources, missing.value.0, missing.value.1)
    ensures missing.None? ==>
      && DepsClosed(GraphOf(resources)) && Counted(GraphOf(resources), GraphOf(resources).Keys, indegree)
      && Tallied(GraphOf(resources), GraphOf(resources).Keys, dependents)
  {
    ghost var g := GraphOf(resources);
    indegree, dependents := map[], map[];
    var i := 0;
    while i < |resources|
      invariant 0 <= i <= |resources|
      invariant Counted(g, FirstKeys(resources, i), indegree)
      invariant Tallied(g, FirstKeys(resources, i), dependents)
      invariant DepsKnown(resources, i, byKey)
    {
      var key, deps := resources[i].key, resources[i].deps;
      GraphAt(resources, i);
      NextKey(resources, i);
      ghost var before := dependents;
      var degree, next, absent := CountOne(byKey, key, deps, dependents);
      if absent.Some? {
        ByKeyKeys(resources, absent.value);
        return indegree, dependents, Some((key, absent.value));
      }
      CountedOne(g, FirstKeys(resources, i), indegree, key, degree);
      indegree, dependents := indegree[key := degree], next;
      TallyOne(g, FirstKeys(resources, i), key, before, dependents);
      i := i + 1;
    }
    AllCounted(resources);
    missing := None;
  }

  lemma AllCounted(resources: seq<Resource>)
    requires DistinctKeys(resources)
    requires DepsKnown(resources, |resources|, ByKey(resources))
    ensures DepsClosed(GraphOf(resources)) && FirstKeys(resources, |resources|) == GraphOf(resources).Keys
  {
    GraphKeys(resources);
    GraphDeps(resources);
  }

  lemma NextKey(resources: seq<Resource>, i: nat)
    requires DistinctKeys(resources) && i < |resources|
    ensures resources[i].key !in FirstKeys(resources, i)
    ensures FirstKeys(resources, i + 1) == FirstKeys(resources, i) + {resources[i].key}
  {
    forall k ensures k in FirstKeys(resources, i + 1) <==> k in FirstKeys(resources, i) + {resources[i].key} {
      if k in FirstKeys(resources, i + 1) {
        var m :| 0 <= m < i + 1 && resources[m].key == k;
      }
    }
  }

  lemma TallyOne(g: Graph<Key>, counted: set<Key>, key: Key, before: map<Key, seq<Key>>, after: map<Key, seq<Key>>)
    requires Tallied(g, counted, before) && key !in counted
    requires Added(before, after, key, Succ(g, key))
    ensures Tallied(g, counted + {key}, after)
  {
  }

  // ----- the levels

  /** How many of the listed dependencies are not done. */
  function Outside(deps: seq<Key>, done: set<Key>): nat {
    if deps == [] then 0 else (if deps[0] in done then 0 else 1) + Outside(deps[1..], done)
  }

  lemma {:induction false} OutsideZero(deps: seq<Key>, done: set<Key>)
    ensures Outside(deps, done) == 0 <==> forall d :: d in deps ==> d in done
  {
    if deps != [] {
      OutsideZero(deps[1..], done);
      assert deps[0] in deps;
    }
  }

  lemma {:induction false} OutsideNone(deps: seq<Key>)
    ensures Outside(deps, {}) == |deps|
  {
    if deps != [] { OutsideNone(deps[1..]); }
  }

  lemma {:induction false} OutsideAdd(deps: seq<Key>, done: set<Key>, x: Key)
    requires x !in done
    ensures Outside(deps, done) == Outside(deps, done + {x}) + multiset(deps)[x]
  {
    if deps != [] {
      assert deps == [deps[0]] + deps[1..];
      OutsideAdd(deps[1..], done, x);
    }
  }

  ghost predicate Degrees(g: Graph<Key>, done: set<Key>, indegree: map<Key, int>) {
    indegree.Keys == g.Keys && forall k :: k in g ==> indegree[k] == Outside(g[k], done)
  }

  /** The dependents of one finished key lose one degree per mention; those that reach zero become ready. */
  method Release(importers: seq<Key>, indegree0: map<Key, int>, ready0: seq<Key>)
    returns (indegree: map<Key, int>, ready: seq<Key>)
    requires Distinct(ready0) && forall k :: k in ready0 ==> k in indegree0 && indegree0[k] == 0
    requires forall k :: k in importers ==> k in indegree0 && indegree0[k] >= multiset(importers)[k]
    ensures indegree.Keys == indegree0.Keys
    ensures forall k :: k in indegree ==> indegree[k] == indegree0[k] - multiset(importers)[k]
    ensures Distinct(ready) && forall k :: k in ready <==> k in ready0 || (k in importers && indegree[k] == 0)
  {
    indegree, ready := indegree0, ready0;
    var j := 0;
    while j < |importers|
      invariant 0 <= j <= |importers|
      invariant indegree.Keys == indegree0.Keys
      invariant forall k :: k in indegree ==> indegree[k] == indegree0[k] - multiset(importers[..j])[k]
      invariant Distinct(ready) && forall k :: k in ready <==> k in ready0 || (k in importers[..j] && indegree[k] == 0)
    {
      var dep := importers[j];
      assert importers[..j + 1] == importers[..j] + [dep];
      MentionsLeft(importers, j);
      assert dep in importers;
      indegree := indegree[dep := indegree[dep] - 1];
      if indegree[dep] == 0 {
        ready := ready + [dep];
      }
      j := j + 1;
    }
    assert importers[..|importers|] == importers;
  }

  /** The element at position `j` is mentioned more often in the whole list than before it. */
  lemma MentionsLeft(s: seq<Key>, j: nat)
    requires j < |s|
    ensures multiset(s[..j])[s[j]] < multiset(s)[s[j]]
  {
    assert s == s[..j] + s[j..];
    assert s[j] in s[j..];
  }

  /** The keys outside `done` and `level` whose dependencies are all among the processed ones. */
  ghost predicate NextReady(g: Graph<Key>, done: set<Key>, level: seq<Key>, processed: set<Key>, ready: seq<Key>) {
    Distinct(ready) &&
    forall k :: k in ready <==> k in g && k !in done && k !in level && forall d :: d in g[k] ==> d in processed
  }

  function Prefix(done: set<Key>, level: seq<Key>, i: nat): set<Key>
    requires i <= |level|
  {
    done + (set k | k in level[..i])
  }

  ghost predicate IsLevel(g: Graph<Key>, done: set<Key>, level: seq<Key>) {
    Distinct(level) && forall k :: k in level <==> k in Ready(g, done)
  }

  /** Before the key at position `i` is released, what its dependents still wait for covers their mentions of it. */
  lemma ReleaseOk(g: Graph<Key>, dependents: map<Key, seq<Key>>, done: set<Key>, level: seq<Key>, i: nat,
                  indegree: map<Key, int>, ready: seq<Key>)
    requires Tallied(g, g.Keys, dependents) && IsLevel(g, done, level) && i < |level| && DoneClosed(g, done)
    requires Degrees(g, Prefix(done, level, i), indegree) && NextReady(g, done, level, Prefix(done, level, i), ready)
    ensures Prefix(done, level, i + 1) == Prefix(done, level, i) + {level[i]} && level[i] !in Prefix(done, level, i)
    ensures forall k :: k in ready ==> k in indegree && indegree[k] == 0
    ensures forall k :: k in Get(dependents, level[i]) ==>
      k in indegree && indegree[k] >= multiset(Get(dependents, level[i]))[k]
  {
    var x, before := level[i], Prefix(done, level, i);
    assert level[..i + 1] == level[..i] + [x];
    assert x in level;
    assert x !in level[..i];
    forall k | k in ready ensures k in indegree && indegree[k] == 0 { OutsideZero(g[k], before); }
    forall k | k in Get(dependents, x) ensures k in indegree && indegree[k] >= multiset(Get(dependents, x))[k] {
      assert multiset(Get(dependents, x))[k] == if k in g.Keys then multiset(Succ(g, k))[x] else 0;
      OutsideAdd(g[k], before, x);
    }
  }

  lemma ReleasedDegrees(g: Graph<Key>, dependents: map<Key, seq<Key>>, before: set<Key>, x: Key,
                        indegree0: map<Key, int>, indegree: map<Key, int>)
    requires Tallied(g, g.Keys, dependents) && x !in before && Degrees(g, before, indegree0)
    requires indegree.Keys == indegree0.Keys
    requires forall k :: k in indegree ==> indegree[k] == indegree0[k] - multiset(Get(dependents, x))[k]
    ensures Degrees(g, before + {x}, indegree)
  {
    forall k | k in g ensures indegree[k] == Outside(g[k], before + {x}) {
      assert multiset(Get(dependents, x))[k] == multiset(Succ(g, k))[x];
      OutsideAdd(g[k], before, x);
    }
  }

  lemma ReleasedReady(
    g: Graph<Key>, dependents: map<Key, seq<Key>>, done: set<Key>, level: seq<Key>, before: set<Key>, x: Key,
    indegree: map<Key, int>, ready0: seq<Key>, ready: seq<Key>)
    requires Tallied(g, g.Keys, dependents) && IsLevel(g, done, level) && x in level && x !in before && done <= before
    requires DoneClosed(g, done)
    requires Degrees(g, before + {x}, indegree) && NextReady(g, done, level, before, ready0)
    requires Distinct(ready)
    requires forall k :: k in Get(dependents, x) ==> k in indegree
    requires forall k :: k in ready <==> k in ready0 || (k in Get(dependents, x) && indegree[k] == 0)
    ensures NextReady(g, done, level, before + {x}, ready)
  {
    forall k ensures k in ready <==>
        k in g && k !in done && k !in level && forall d :: d in g[k] ==> d in before + {x}
    {
      assert multiset(Get(dependents, x))[k] == if k in g.Keys then multiset(Succ(g, k))[x] else 0;
      if k in g {
        OutsideZero(g[k], before + {x});
        assert k in Get(dependents, x) <==> x in g[k];
        assert x in g[k] ==> k !in Ready(g, done) && k !in done;
      }
    }
  }

  method ProcessLevel(ghost g: Graph<Key>, dependents: map<Key, seq<Key>>, ghost done: set<Key>, level: seq<Key>,
                      indegree0: map<Key, int>) returns (indegree: map<Key, int>, ready: seq<Key>)
    requires Tallied(g, g.Keys, dependents) && IsLevel(g, done, level) && DoneClosed(g, done)
    requires Degrees(g, done, indegree0)
    ensures Degrees(g, done + Ready(g, done), indegree) && IsLevel(g, done + Ready(g, done), ready)
  {
    indegree, ready := indegree0, [];
    LevelStart(g, done, level);
    var i := 0;
    while i < |level|
      invariant 0 <= i <= |level|
      invariant Degrees(g, Prefix(done, level, i), indegree)
      invariant NextReady(g, done, level, Prefix(done, level, i), ready)
    {
      indegree, ready := ReleaseAt(g, dependents, done, level, i, indegree, ready);
      i := i + 1;
    }
    LevelEnd(g, done, level, ready);
  }

  method ReleaseAt(ghost g: Graph<Key>, dependents: map<Key, seq<Key>>, ghost done: set<Key>, level: seq<Key>, i: nat,
                   indegree0: map<Key, int>, ready0: seq<Key>) returns (indegree: map<Key, int>, ready: seq<Key>)
    requires Tallied(g, g.Keys, dependents) && IsLevel(g, done, level) && DoneClosed(g, done) && i < |level|
    requires Degrees(g, Prefix(done, level, i), indegree0) && NextReady(g, done, level, Prefix(done, level, i), ready0)
    ensures Degrees(g, Prefix(done, level, i + 1), indegree)
    ensures NextReady(g, done, level, Prefix(done, level, i + 1), ready)
  {
    ReleaseOk(g, dependents, done, level, i, indegree0, ready0);
    indegree, ready := Release(Get(dependents, level[i]), indegree0, ready0);
    ReleasedDegrees(g, dependents, Prefix(done, level, i), level[i], indegree0, indegree);
    ReleasedReady(g, dependents, done, level, Prefix(done, level, i), level[i], indegree, ready0, ready);
  }

  lemma LevelStart(g: Graph<Key>, done: set<Key>, level: seq<Key>)
    requires IsLevel(g, done, level)
    ensures Prefix(done, level, 0) == done && NextReady(g, done, level, done, [])
  {
  }

  lemma LevelEnd(g: Graph<Key>, done: set<Key>, level: seq<Key>, ready: seq<Key>)
    requires IsLevel(g, done, level) && NextReady(g, done, level, Prefix(done, level, |level|), ready)
    ensures Prefix(done, level, |level|) == done + Ready(g, done) && IsLevel(g, done + Ready(g, done), ready)
  {
    assert level[..|level|] == level;
    assert Prefix(done, level, |level|) == done + Ready(g, done);
  }

  // ----- collecting keys from the indegree map, in any order

  method KeysWith(indegree: map<Key, int>, zero: bool) returns (keys: seq<Key>)
    ensures Distinct(keys)
    ensures forall k :: k in keys <==> k in indegree && (if zero then indegree[k] == 0 else indegree[k] > 0)
  {
    keys := [];
    var todo := indegree.Keys;
    while todo != {}
      invariant todo <= indegree.Keys
      invariant Distinct(keys) && forall k :: k in keys <==>
        k in indegree && k !in todo && (if zero then indegree[k] == 0 else indegree[k] > 0)
      decreases todo
    {
      var k :| k in todo;
      if (zero && indegree[k] == 0) || (!zero && indegree[k] > 0) {
        keys := keys + [k];
      }
      todo := todo - {k};
    }
  }

  // ----- the whole sort

  function Listing(byKey: map<Key, Resource>, keys: seq<Key>): seq<Resource>
    requires forall k :: k in keys ==> k in byKey
  {
    seq(|keys|, i requires 0 <= i < |keys| => byKey[keys[i]])
  }

  lemma SortedLevel(g: Graph<Key>, done: set<Key>, ready: seq<Key>)
    requires IsLevel(g, done, ready)
    ensures Sort(ready) == SetSeq(Ready(g, done)) && IsLevel(g, done, Sort(ready))
  {
    SortSorts(ready);
    SetSeqSorted(Ready(g, done));
    assert (set k | k in ready) == Ready(g, done);
    SortedUnique(Sort(ready), SetSeq(Ready(g, done)), Ready(g, done));
  }

  method RunLevels(ghost g: Graph<Key>, dependents: map<Key, seq<Key>>, indegree0: map<Key, int>)
    returns (keys: seq<Key>, indegree: map<Key, int>)
    requires DepsClosed(g) && Tallied(g, g.Keys, dependents) && Counted(g, g.Keys, indegree0)
    ensures keys == LevelOrder(g, {}) && Degrees(g, AllDone(g, {}), indegree)
  {
    InitialDegrees(g, indegree0);
    indegree := indegree0;
    var ready := KeysWith(indegree, true);
    InitialReady(g, indegree, ready);
    keys := [];
    ghost var done: set<Key> := {};
    NothingListed(g);
    while |ready| > 0
      invariant DoneClosed(g, done) && Degrees(g, done, indegree) && IsLevel(g, done, ready)
      invariant Split(g, keys, done)
      decreases g.Keys - done
    {
      SortedLevel(g, done, ready);
      NextLevel(g, done, ready, keys);
      var level := Sort(ready);
      indegree, ready := ProcessLevel(g, dependents, done, level, indegree);
      keys := keys + level;
      done := done + Ready(g, done);
    }
    AllListed(g, keys, done, ready);
  }

  /** `keys` is what the level order lists before it continues from `done`. */
  ghost predicate Split(g: Graph<Key>, keys: seq<Key>, done: set<Key>) {
    LevelOrder(g, {}) == keys + LevelOrder(g, done) && AllDone(g, {}) == AllDone(g, done)
  }

  lemma NextLevel(g: Graph<Key>, done: set<Key>, ready: seq<Key>, keys: seq<Key>)
    requires DoneClosed(g, done) && IsLevel(g, done, ready) && ready != [] && Split(g, keys, done)
    ensures DoneClosed(g, done + Ready(g, done)) && g.Keys - (done + Ready(g, done)) < g.Keys - done
    ensures Split(g, keys + SetSeq(Ready(g, done)), done + Ready(g, done))
  {
    assert ready[0] in Ready(g, done);
    StillSmaller(g, done);
    ReadyFacts(g, done);
    var level, rest := SetSeq(Ready(g, done)), LevelOrder(g, done + Ready(g, done));
    assert keys + (level + rest) == (keys + level) + rest;
  }

  lemma NothingListed(g: Graph<Key>)
    ensures Split(g, [], {})
  {
    assert [] + LevelOrder(g, {}) == LevelOrder(g, {});
  }

  lemma AllListed(g: Graph<Key>, keys: seq<Key>, done: set<Key>, ready: seq<Key>)
    requires Split(g, keys, done) && IsLevel(g, done, ready) && ready == []
    ensures keys == LevelOrder(g, {}) && done == AllDone(g, {})
  {
    NothingReady(g, done, ready);
    assert keys + [] == keys;
  }

  lemma NothingReady(g: Graph<Key>, done: set<Key>, ready: seq<Key>)
    requires IsLevel(g, done, ready) && ready == []
    ensures LevelOrder(g, done) == [] && AllDone(g, done) == done
  {
    assert Ready(g, done) == {} by { if k :| k in Ready(g, done) { NotInEmpty(k, ready); } }
  }

  lemma NotInEmpty(k: Key, s: seq<Key>)
    requires s == []
    ensures k !in s
  {
  }

  lemma InitialDegrees(g: Graph<Key>, indegree: map<Key, int>)
    requires Counted(g, g.Keys, indegree)
    ensures Degrees(g, {}, indegree)
  {
    forall k | k in g ensures indegree[k] == Outside(g[k], {}) { OutsideNone(g[k]); }
  }

  lemma InitialReady(g: Graph<Key>, indegree: map<Key, int>, ready: seq<Key>)
    requires Degrees(g, {}, indegree) && Distinct(ready)
    requires forall k :: k in ready <==> k in indegree && indegree[k] == 0
    ensures IsLevel(g, {}, ready)
  {
    forall k ensures k in ready <==> k in Ready(g, {}) {
      if k in g { OutsideZero(g[k], {}); }
    }
  }

  /** A topological listing: a permutation of the input with every dependency before its dependents. */
  ghost predicate DependenciesFirst(resources: seq<Resource>) {
    forall i, d :: 0 <= i < |resources| && d in resources[i].deps ==> exists j :: 0 <= j < i && resources[j].key == d
  }

  /** internal/deploy/graph.go: topoSort. */
  method TopoSort(resources: seq<Resource>) returns (r: Sorting)
    ensures r.Ordered? <==> DistinctKeys(resources) && DepsPresent(resources) && Acyclic(GraphOf(resources))
    ensures r.Ordered? ==>
      && multiset(r.resources) == multiset(resources) && DependenciesFirst(r.resources)
      && (forall k :: k in LevelOrder(GraphOf(resources), {}) ==> k in ByKey(resources))
      && r.resources == Listing(ByKey(resources), LevelOrder(GraphOf(resources), {}))
    ensures r.Duplicate? ==> SharedKey(resources, r.key)
    ensures r.Missing? ==> DistinctKeys(resources) && IsMissing(resources, r.key, r.dep)
    ensures r.Cyclic? ==>
      && DistinctKeys(resources) && DepsPresent(resources) && r.stuck != [] && Sorted(r.stuck)
      && forall k :: k in r.stuck <==> k in GraphOf(resources) && CycleReachableFrom(GraphOf(resources), k)
  {
    ghost var g := GraphOf(resources);
    var byKey, dup := IndexByKey(resources);
    if dup.Some? { return Duplicate(dup.value); }
    GraphDeps(resources);
    GraphKeys(resources);
    var indegree, dependents, missing := CountDependencies(resources, byKey);
    if missing.Some? { return Missing(missing.value.0, missing.value.1); }
    var keys;
    keys, indegree := RunLevels(g, dependents, indegree);
    OrderedKeys(g);
    AllDoneExactlyWhenAcyclic(g);
    CompleteExactly(resources);
    if |keys| != |resources| {
      var stuck := KeysWith(indegree, false);
      StuckKeys(resources, indegree, stuck);
      return Cyclic(Sort(stuck));
    }
    ListingOk(resources);
    r := Ordered(Listing(byKey, keys));
  }

  lemma OrderedKeys(g: Graph<Key>)
    ensures forall k :: k in LevelOrder(g, {}) ==> k in g
  {
    forall k | k in LevelOrder(g, {}) ensures k in g { OrderLists(g, {}, k); DoneGrows(g, {}); }
  }

  lemma {:induction false} DistinctSize(s: seq<Key>)
    requires Distinct(s)
    ensures |s| == |set k | k in s|
  {
    if s != [] {
      DistinctSize(s[1..]);
      assert s[0] !in s[1..];
      assert (set k | k in s) == (set k | k in s[1..]) + {s[0]};
    }
  }

  lemma SizeOfSubset(a: set<Key>, b: set<Key>)
    requires a <= b
    ensures |a| <= |b| && (|a| == |b| ==> a == b)
  {
    var rest := b - a;
    assert b == a + rest;
    assert |b| == |a| + |rest|;
  }

  function KeySeq(resources: seq<Resource>): seq<Key> {
    seq(|resources|, i requires 0 <= i < |resources| => resources[i].key)
  }

  /** The sort lists as many keys as there are resources exactly when it reaches all of them. */
  lemma CompleteExactly(resources: seq<Resource>)
    requires DistinctKeys(resources)
    ensures |LevelOrder(GraphOf(resources), {})| == |resources| <==>
      AllDone(GraphOf(resources), {}) == GraphOf(resources).Keys
  {
    var g := GraphOf(resources);
    var order, all := LevelOrder(g, {}), AllDone(g, {});
    OrderDistinct(g, {});
    DistinctSize(order);
    DoneGrows(g, {});
    forall k ensures k in order <==> k in all { OrderLists(g, {}, k); }
    assert (set k | k in order) == all;
    var keys := KeySeq(resources);
    assert Distinct(keys);
    DistinctSize(keys);
    GraphKeys(resources);
    forall k ensures k in keys <==> k in g {
      if IsKey(resources, k) { var i :| 0 <= i < |resources| && resources[i].key == k; assert keys[i] == k; }
    }
    assert (set k | k in keys) == g.Keys;
    SizeOfSubset(all, g.Keys);
  }

  lemma StuckKeys(resources: seq<Resource>, indegree: map<Key, int>, stuck: seq<Key>)
    requires DistinctKeys(resources) && DepsClosed(GraphOf(resources))
    requires Degrees(GraphOf(resources), AllDone(GraphOf(resources), {}), indegree)
    requires AllDone(GraphOf(resources), {}) != GraphOf(resources).Keys
    requires Distinct(stuck) && forall k :: k in stuck <==> k in indegree && indegree[k] > 0
    ensures Sort(stuck) != [] && Sorted(Sort(stuck))
    ensures forall k :: k in Sort(stuck) <==> k in GraphOf(resources) && CycleReachableFrom(GraphOf(resources), k)
  {
    var g := GraphOf(resources);
    var all := AllDone(g, {});
    DoneGrows(g, {});
    SortSorts(stuck);
    forall k ensures k in Sort(stuck) <==> k in g && CycleReachableFrom(g, k) {
      if k in g {
        StuckExactly(g, k);
        OutsideZero(g[k], all);
        assert k !in Ready(g, all);
      }
    }
    var left :| left in g.Keys && left !in all;
    StuckExactly(g, left);
    assert left in Sort(stuck);
  }

  lemma ListingOk(resources: seq<Resource>)
    requires DistinctKeys(resources) && AllDone(GraphOf(resources), {}) == GraphOf(resources).Keys
    requires forall k :: k in LevelOrder(GraphOf(resources), {}) ==> k in ByKey(resources)
    ensures
      var listed := Listing(ByKey(resources), LevelOrder(GraphOf(resources), {}));
      multiset(listed) == multiset(resources) && DependenciesFirst(listed)
  {
    var g := GraphOf(resources);
    var order, byKey := LevelOrder(g, {}), ByKey(resources);
    var listed := Listing(byKey, order);
    OrderIsSuccessorsFirst(g);
    forall i | 0 <= i < |listed|
      ensures listed[i].key == order[i] && listed[i] in resources
    {
      ListedAt(resources, order[i]);
    }
    assert Distinct(listed);
    assert Distinct(resources);
    forall r ensures r in listed <==> r in resources {
      if r in resources {
        var i :| 0 <= i < |resources| && resources[i] == r;
        ByKeyAt(resources, i);
        OrderLists(g, {}, r.key);
        assert r.key in order;
        var j :| 0 <= j < |order| && order[j] == r.key;
        assert listed[j] == r;
      }
    }
    DistinctSameElements(listed, resources);
    forall i, d | 0 <= i < |listed| && d in listed[i].deps ensures exists j :: 0 <= j < i && listed[j].key == d {
      assert Succ(g, order[i]) == listed[i].deps;
      assert Earlier(order, d, i);
      var j :| 0 <= j < i && order[j] == d;
    }
  }

  lemma ListedAt(resources: seq<Resource>, k: Key)
    requires DistinctKeys(resources) && k in ByKey(resources)
    ensures ByKey(resources)[k].key == k && ByKey(resources)[k] in resources
  {
    ByKeyKeys(resources, k);
    var i :| 0 <= i < |resources| && resources[i].key == k;
    ByKeyAt(resources, i);
  }

  // ----- the order does not depend on how the input was listed

  lemma SameByKey(a: seq<Resource>, b: seq<Resource>)
    requires DistinctKeys(a) && multiset(a) == multiset(b)
    ensures DistinctKeys(b) && ByKey(a) == ByKey(b)
  {
    forall r ensures r in a <==> r in b { assert r in multiset(a) <==> r in multiset(b); }
    PermutedKeysDistinct(a, b);
    forall k
      ensures (k in ByKey(a) <==> k in ByKey(b)) && (k in ByKey(a) && k in ByKey(b) ==> ByKey(a)[k] == ByKey(b)[k])
    {
      ByKeyKeys(a, k);
      ByKeyKeys(b, k);
      if k in ByKey(a) {
        ListedAt(a, k);
        var j :| 0 <= j < |b| && b[j] == ByKey(a)[k];
        ByKeyAt(b, j);
      }
      if k in ByKey(b) {
        ListedAt(b, k);
        var j :| 0 <= j < |a| && a[j] == ByKey(b)[k];
        ByKeyAt(a, j);
      }
    }
  }

  lemma PermutedKeysDistinct(a: seq<Resource>, b: seq<Resource>)
    requires DistinctKeys(a) && multiset(a) == multiset(b)
    ensures DistinctKeys(b)
  {
    assert Distinct(a);
    forall i, j | 0 <= i < j < |b| ensures b[i].key != b[j].key {
      DistinctCounts(a, b[i]);
      if b[i] == b[j] {
        TwiceCounts(b, i, j);
      } else {
        assert b[i] in multiset(a) && b[j] in multiset(a);
        var m :| 0 <= m < |a| && a[m] == b[i];
        var n :| 0 <= n < |a| && a[n] == b[j];
      }
    }
  }

  lemma TwiceCounts(s: seq<Resource>, i: nat, j: nat)
    requires i < j < |s| && s[i] == s[j]
    ensures multiset(s)[s[i]] >= 2
  {
    assert s == s[..i] + [s[i]] + s[i + 1..j] + [s[j]] + s[j + 1..];
  }

  /** Listing the same resources differently changes neither the order nor whether there is one. */
  lemma OrderIndependentOfInput(a: seq<Resource>, b: seq<Resource>)
    requires DistinctKeys(a) && multiset(a) == multiset(b)
    ensures DistinctKeys(b) && GraphOf(a) == GraphOf(b) && (DepsPresent(a) <==> DepsPresent(b))
    ensures LevelOrder(GraphOf(a), {}) == LevelOrder(GraphOf(b), {}) && ByKey(a) == ByKey(b)
  {
    SameByKey(a, b);
    GraphDeps(a);
    GraphDeps(b);
  }
}
