/** Go's sort.Strings: the lexicographic order and the unique sorted listing of a set of strings. */
module SortedStrings {
  import opened Sequences

  predicate LexLess(a: string, b: string) {
    b != [] && (a == [] || a[0] < b[0] || (a[0] == b[0] && LexLess(a[1..], b[1..])))
  }

  lemma {:induction false} LexIrreflexive(a: string)
    ensures !LexLess(a, a)
  {
    if a != [] { LexIrreflexive(a[1..]); }
  }

  lemma {:induction false} LexTotal(a: string, b: string)
    requires a != b
    ensures LexLess(a, b) || LexLess(b, a)
  {
    if a != [] && b != [] && a[0] == b[0] {
      assert a == [a[0]] + a[1..] && b == [b[0]] + b[1..];
      LexTotal(a[1..], b[1..]);
    }
  }

  lemma {:induction false} LexTransitive(a: string, b: string, c: string)
    requires LexLess(a, b) && LexLess(b, c)
    ensures LexLess(a, c)
  {
    if a != [] && a[0] == b[0] == c[0] { LexTransitive(a[1..], b[1..], c[1..]); }
  }

  /** Strictly increasing. */
  ghost predicate Sorted(s: seq<string>) {
    forall i, j :: 0 <= i < j < |s| ==> LexLess(s[i], s[j])
  }

  ghost predicate SortsSet(s: seq<string>, keys: set<string>) {
    Sorted(s) && forall k :: k in s <==> k in keys
  }

  lemma SortedDistinct(s: seq<string>)
    requires Sorted(s)
    ensures Distinct(s)
  {
    forall i, j | 0 <= i < j < |s| ensures s[i] != s[j] { LexIrreflexive(s[i]); }
  }

  lemma HeadIn(s: seq<string>)
    requires s != []
    ensures s[0] in s
  {
  }

  /** A set of strings has one sorted listing. */
  lemma {:induction false} SortedUnique(a: seq<string>, b: seq<string>, keys: set<string>)
    requires SortsSet(a, keys) && SortsSet(b, keys)
    ensures a == b
    decreases |a|
  {
    if a == [] || b == [] {
      if a != [] { HeadIn(a); }
      if b != [] { HeadIn(b); }
    } else {
      HeadsAgree(a, b, keys);
      SortedDistinct(a);
      SortedDistinct(b);
      assert forall k :: k in a[1..] <==> k in keys - {a[0]};
      assert forall k :: k in b[1..] <==> k in keys - {a[0]};
      SortedUnique(a[1..], b[1..], keys - {a[0]});
      assert a == [a[0]] + a[1..] && b == [b[0]] + b[1..];
    }
  }

  lemma HeadsAgree(a: seq<string>, b: seq<string>, keys: set<string>)
    requires SortsSet(a, keys) && SortsSet(b, keys) && a != [] && b != []
    ensures a[0] == b[0]
  {
    assert a[0] in b && b[0] in a;
    var i :| 0 <= i < |b| && b[i] == a[0];
    var j :| 0 <= j < |a| && a[j] == b[0];
    if i > 0 && j > 0 {
      LexTransitive(a[0], b[0], a[0]);
      LexIrreflexive(a[0]);
    }
  }

  /** Insertion into a sorted listing; go's sort of distinct strings has this one result. */
  function Insert(s: seq<string>, k: string): seq<string> {
    if s == [] then [k]
    else if LexLess(k, s[0]) then [k] + s
    else [s[0]] + Insert(s[1..], k)
  }

  function Sort(s: seq<string>): seq<string> {
    if s == [] then [] else Insert(Sort(s[1..]), s[0])
  }

  lemma {:induction false} InsertMembers(s: seq<string>, k: string, x: string)
    ensures x in Insert(s, k) <==> x in s || x == k
  {
    if s != [] && !LexLess(k, s[0]) {
      InsertMembers(s[1..], k, x);
      assert s == [s[0]] + s[1..];
    }
  }

  lemma {:induction false} InsertSorted(s: seq<string>, k: string)
    requires Sorted(s) && k !in s
    ensures Sorted(Insert(s, k))
  {
    if s != [] {
      if LexLess(k, s[0]) {
        forall j | 0 < j < |s| ensures LexLess(k, s[j]) { LexTransitive(k, s[0], s[j]); }
      } else {
        assert s[0] in s;
        LexTotal(k, s[0]);
        InsertSorted(s[1..], k);
        var rest := Insert(s[1..], k);
        forall j | 0 <= j < |rest| ensures LexLess(s[0], rest[j]) {
          InsertMembers(s[1..], k, rest[j]);
          if rest[j] != k { var m :| 0 <= m < |s[1..]| && s[1..][m] == rest[j]; assert s[m + 1] == rest[j]; }
        }
      }
    }
  }

  lemma {:induction false} SortSorts(s: seq<string>)
    requires Distinct(s)
    ensures SortsSet(Sort(s), set k | k in s)
  {
    if s != [] {
      SortSorts(s[1..]);
      var rest := Sort(s[1..]);
      assert s[0] !in s[1..];
      InsertSorted(rest, s[0]);
      forall k ensures k in Insert(rest, s[0]) <==> k in s { InsertMembers(rest, s[0], k); }
    }
  }
}
