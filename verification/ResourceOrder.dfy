/**
 The order of resources within a dependency level: internal/deploy/graph.go sorts key texts, and its comment promises
 the order of kinds and names.
 */
module ResourceOrder {
  import opened SortedStrings
  import opened Graphs
  import opened TopoOrder
  import opened TopoSorting
  import opened Deploy

  // ----- key texts and references

  /** By kind, then by name. */
  predicate RefLess(a: Ref, b: Ref) {
    LexLess(a.kind, b.kind) || (a.kind == b.kind && LexLess(a.name, b.name))
  }

  /** Key texts of the two kinds come in the order of their references, whatever the names. */
  ghost predicate OrdersAgree(k: string, l: string) {
    forall m, n :: LexLess(KeyOf(Ref(k, m)), KeyOf(Ref(l, n))) <==> RefLess(Ref(k, m), Ref(l, n))
  }

  /** `l` goes on after `k` with a character that does not sort after the slash. */
  predicate GoesOnLow(k: string, l: string) {
    |k| < |l| && l[..|k|] == k && l[|k|] <= '/'
  }

  lemma LexHead(a: string, b: string)
    requires a != "" && b != ""
    ensures LexLess(a, b) <==> a[0] < b[0] || (a[0] == b[0] && LexLess(a[1..], b[1..]))
  {
  }

  lemma KeyHead(k: string, m: string)
    requires k != ""
    ensures KeyOf(Ref(k, m)) != "" && KeyOf(Ref(k, m))[0] == k[0] && KeyOf(Ref(k, m))[1..] == KeyOf(Ref(k[1..], m))
  {
    assert (k + "/" + m)[1..] == k[1..] + "/" + m;
  }

  lemma KeyOfNothing(m: string)
    ensures KeyOf(Ref("", m)) != "" && KeyOf(Ref("", m))[0] == '/' && KeyOf(Ref("", m))[1..] == m
  {
  }

  lemma {:induction false} KeysInOrder(k: string, l: string, m: string, n: string)
    requires !GoesOnLow(k, l) && !GoesOnLow(l, k)
    ensures LexLess(KeyOf(Ref(k, m)), KeyOf(Ref(l, n))) <==> RefLess(Ref(k, m), Ref(l, n))
    decreases |k|
  {
    LexHead(KeyOf(Ref(k, m)), KeyOf(Ref(l, n)));
    if k == "" { KeyOfNothing(m); } else { KeyHead(k, m); }
    if l == "" { KeyOfNothing(n); } else { KeyHead(l, n); }
    if k != "" && l != "" && k[0] == l[0] {
      assert k == [k[0]] + k[1..] && l == [l[0]] + l[1..];
      RestApart(k, l);
      RestApart(l, k);
      KeysInOrder(k[1..], l[1..], m, n);
    }
  }

  lemma RestApart(k: string, l: string)
    requires k != "" && l != "" && k[0] == l[0]
    ensures GoesOnLow(k, l) <==> GoesOnLow(k[1..], l[1..])
  {
    if |k| < |l| { assert l[..|k|] == [l[0]] + l[1..][..|k| - 1] && k == [k[0]] + k[1..]; }
  }

  lemma {:induction false} LexSameStart(a: string, x: string, y: string)
    ensures LexLess(a + x, a + y) <==> LexLess(x, y)
  {
    if a == "" {
      assert a + x == x && a + y == y;
    } else {
      LexSameStart(a[1..], x, y);
      assert (a + x)[1..] == a[1..] + x && (a + y)[1..] == a[1..] + y;
    }
  }

  /** A kind that goes on low has a key that does not come after one of the shorter kind. */
  lemma LowKey(k: string, l: string)
    requires GoesOnLow(k, l)
    ensures LexLess(k, l) && !LexLess(KeyOf(Ref(k, l[|k| + 1..] + "/")), KeyOf(Ref(l, "")))
  {
    var rest := l[|k| + 1..];
    assert l == k + ([l[|k|]] + rest) && k == k + "";
    LexSameStart(k, "", [l[|k|]] + rest);
    assert KeyOf(Ref(k, rest + "/")) == k + ("/" + rest + "/");
    assert KeyOf(Ref(l, "")) == k + ([l[|k|]] + rest + "/");
    LexSameStart(k, "/" + rest + "/", [l[|k|]] + rest + "/");
    assert ("/" + rest + "/")[1..] == rest + "/" && ([l[|k|]] + rest + "/")[1..] == rest + "/";
    LexIrreflexive(rest + "/");
  }

  /** Sorting key texts is sorting by kind and name, for two kinds and all names, exactly when neither kind goes on from
      the other with a character that does not sort after the slash. */
  lemma OrdersAgreeExactly(k: string, l: string)
    ensures OrdersAgree(k, l) && OrdersAgree(l, k) <==> !GoesOnLow(k, l) && !GoesOnLow(l, k)
  {
    if !GoesOnLow(k, l) && !GoesOnLow(l, k) {
      forall m, n ensures LexLess(KeyOf(Ref(k, m)), KeyOf(Ref(l, n))) <==> RefLess(Ref(k, m), Ref(l, n)) {
        KeysInOrder(k, l, m, n);
      }
      forall m, n ensures LexLess(KeyOf(Ref(l, m)), KeyOf(Ref(k, n))) <==> RefLess(Ref(l, m), Ref(k, n)) {
        KeysInOrder(l, k, m, n);
      }
    } else if GoesOnLow(k, l) {
      LowKey(k, l);
      assert RefLess(Ref(k, l[|k| + 1..] + "/"), Ref(l, ""));
    } else {
      LowKey(l, k);
      assert RefLess(Ref(l, k[|l| + 1..] + "/"), Ref(k, ""));
    }
  }

  /** Kinds "a" and "a-b": by kind "a" comes first, by key text "a-b/x" does. */
  lemma DashedKindExample()
    ensures RefLess(Ref("a", "x"), Ref("a-b", "x")) && LexLess(KeyOf(Ref("a-b", "x")), KeyOf(Ref("a", "x")))
  {
    LexSameStart("a", "", "-b");
    LexSameStart("a", "-b/x", "/x");
    assert "a" + "" == "a" && "a" + "-b" == "a-b";
    assert KeyOf(Ref("a-b", "x")) == "a" + "-b/x" && KeyOf(Ref("a", "x")) == "a" + "/x";
  }

  // ----- the kinds of the source

  /** internal/deploy/deploy.go: the resource kinds. */
  const KINDS: set<string> := {
    "place_file", "place_config", "experience", "badge", "asset", "game_pass", "experience_icon",
    "experience_thumbnails", "developer_product", "social_link"
  }

  /** Every character sorts after the slash. */
  predicate High(k: string) {
    forall i :: 0 <= i < |k| ==> '/' < k[i]
  }

  lemma KindsAreHigh(k: string)
    requires k in KINDS
    ensures High(k)
  {
  }

  lemma HighKindsAgree(k: string, l: string)
    requires High(k) && High(l)
    ensures OrdersAgree(k, l)
  {
    OrdersAgreeExactly(k, l);
  }

  // ----- levels

  /** What is done before level `n`. */
  function DoneBefore(g: Graph<Key>, n: nat): set<Key> {
    if n == 0 then {} else DoneBefore(g, n - 1) + Ready(g, DoneBefore(g, n - 1))
  }

  predicate InLevel(g: Graph<Key>, n: nat, k: Key) {
    k in Ready(g, DoneBefore(g, n))
  }

  /** The order from level `n` on: that level, and then the order from the next one on. */
  lemma LevelSplit(g: Graph<Key>, n: nat, done: set<Key>, order: seq<Key>)
    returns (first: seq<Key>, next: set<Key>, rest: seq<Key>)
    requires FromLevel(g, n, done, order) && order != []
    ensures order == first + rest && first != [] && FromLevel(g, n + 1, next, rest)
    ensures IsLevelAt(g, n, first)
  {
    var ready := Ready(g, done);
    first, next, rest := SetSeq(ready), done + ready, LevelOrder(g, done + ready);
    SetSeqSorted(ready);
  }

  /** Sorted levels, one after the other. */
  ghost function Joined(levels: seq<seq<Key>>): seq<Key> {
    if levels == [] then [] else levels[0] + Joined(levels[1..])
  }

  ghost predicate IsLevelAt(g: Graph<Key>, n: nat, level: seq<Key>) {
    Sorted(level) && forall k :: k in level ==> InLevel(g, n, k)
  }

  ghost predicate AreLevels(g: Graph<Key>, n: nat, levels: seq<seq<Key>>) {
    forall i :: 0 <= i < |levels| ==> IsLevelAt(g, n + i, levels[i])
  }

  ghost predicate FromLevel(g: Graph<Key>, n: nat, done: set<Key>, order: seq<Key>) {
    done == DoneBefore(g, n) && order == LevelOrder(g, done)
  }

  lemma {:induction false} LevelsFrom(g: Graph<Key>, n: nat, done: set<Key>, order: seq<Key>)
    returns (levels: seq<seq<Key>>)
    requires FromLevel(g, n, done, order)
    ensures Joined(levels) == order && AreLevels(g, n, levels)
    decreases |order|
  {
    if order == [] {
      levels := [];
    } else {
      var first, next, rest := LevelSplit(g, n, done, order);
      var more := LevelsFrom(g, n + 1, next, rest);
      levels := Prepended(g, n, first, more);
    }
  }

  lemma Prepended(g: Graph<Key>, n: nat, first: seq<Key>, more: seq<seq<Key>>) returns (levels: seq<seq<Key>>)
    requires IsLevelAt(g, n, first) && AreLevels(g, n + 1, more)
    ensures Joined(levels) == first + Joined(more) && AreLevels(g, n, levels)
  {
    levels := [first] + more;
    assert levels[1..] == more;
    forall i | 0 < i < |levels| ensures IsLevelAt(g, n + i, levels[i]) {
      assert IsLevelAt(g, n + 1 + (i - 1), more[i - 1]);
    }
  }

  lemma {:induction false} JoinedAt(levels: seq<seq<Key>>, i: nat) returns (a: nat, x: nat)
    requires i < |Joined(levels)|
    ensures a < |levels| && x < |levels[a]| && Joined(levels)[i] == levels[a][x]
  {
    if i < |levels[0]| {
      a, x := 0, i;
    } else {
      a, x := JoinedAt(levels[1..], i - |levels[0]|);
      a := a + 1;
    }
  }

  /** Of two keys, the one before the other is in an earlier level, or before it in the same one. */
  lemma {:induction false} JoinedPositions(levels: seq<seq<Key>>, i: nat, j: nat)
    returns (a: nat, x: nat, b: nat, y: nat)
    requires i < j < |Joined(levels)|
    ensures a <= b < |levels| && x < |levels[a]| && y < |levels[b]| && (a == b ==> x < y)
    ensures Joined(levels)[i] == levels[a][x] && Joined(levels)[j] == levels[b][y]
  {
    var n := |levels[0]|;
    if i >= n {
      a, x, b, y := JoinedPositions(levels[1..], i - n, j - n);
      a, b := a + 1, b + 1;
    } else if j < n {
      a, x, b, y := 0, i, 0, j;
    } else {
      b, y := JoinedAt(levels[1..], j - n);
      a, x, b := 0, i, b + 1;
    }
  }

  ghost predicate LevelsOrdered(g: Graph<Key>, a: Key, b: Key, n: nat, m: nat) {
    InLevel(g, n, a) && InLevel(g, m, b) && (n < m || (n == m && LexLess(a, b)))
  }

  lemma LevelPositions(g: Graph<Key>, order: seq<Key>, i: nat, j: nat) returns (a: nat, b: nat)
    requires order == LevelOrder(g, {}) && i < j < |order|
    ensures LevelsOrdered(g, order[i], order[j], a, b)
  {
    var levels := LevelsFrom(g, 0, {}, order);
    var x, y;
    a, x, b, y := JoinedPositions(levels, i, j);
    assert IsLevelAt(g, 0 + a, levels[a]) && IsLevelAt(g, 0 + b, levels[b]);
    assert levels[a][x] in levels[a] && levels[b][y] in levels[b];
  }

  /** The reference of a resource whose key is its kind, a slash and its name. */
  predicate Keyed(r: Resource) {
    |r.kind| < |r.key| && r.key[..|r.kind|] == r.kind && r.key[|r.kind|] == '/'
  }

  function RefOf(r: Resource): (ref: Ref)
    requires Keyed(r)
    ensures KeyOf(ref) == r.key
  {
    var name := r.key[|r.kind| + 1..];
    assert r.key == r.kind + "/" + name;
    Ref(r.kind, name)
  }

  /** For resources of the source's kinds, the order of keys is that of kinds and names. */
  lemma KeysOrderRefs(r: Resource, s: Resource)
    requires Keyed(r) && Keyed(s) && r.kind in KINDS && s.kind in KINDS && LexLess(r.key, s.key)
    ensures RefLess(RefOf(r), RefOf(s))
  {
    KindsAreHigh(r.kind);
    KindsAreHigh(s.kind);
    HighKindsAgree(r.kind, s.kind);
    var a, b := RefOf(r), RefOf(s);
    assert a == Ref(r.kind, a.name) && b == Ref(s.kind, b.name);
  }

  /**
   In the listing of a successful sort of resources of the source's kinds, a resource before another is on an earlier
   dependency level, or on the same one and before it by kind and name.
   */
  lemma LevelsByKindAndName(resources: seq<Resource>, ordered: seq<Resource>, i: nat, j: nat) returns (a: nat, b: nat)
    requires DistinctKeys(resources) && forall r :: r in resources ==> Keyed(r) && r.kind in KINDS
    requires forall k :: k in LevelOrder(GraphOf(resources), {}) ==> k in ByKey(resources)
    requires ordered == Listing(ByKey(resources), LevelOrder(GraphOf(resources), {})) && i < j < |ordered|
    ensures ordered[i] in resources && ordered[j] in resources
    ensures InLevel(GraphOf(resources), a, ordered[i].key) && InLevel(GraphOf(resources), b, ordered[j].key)
    ensures a < b || (a == b && RefLess(RefOf(ordered[i]), RefOf(ordered[j])))
  {
    var g := GraphOf(resources);
    var order := LevelOrder(g, {});
    assert order[i] in order && order[j] in order;
    ListedAt(resources, order[i]);
    ListedAt(resources, order[j]);
    a, b := LevelPositions(g, order, i, j);
    if a == b { KeysOrderRefs(ordered[i], ordered[j]); }
  }
}
