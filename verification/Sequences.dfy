/** Small facts about sequences that several components share. */
module Sequences {

  /** Total of a sequence of numbers. */
  function Sum(s: seq<nat>): nat {
    if s == [] then 0 else s[0] + Sum(s[1..])
  }

  lemma {:induction false} SumUpdate(s: seq<nat>, i: nat, v: nat)
    requires i < |s|
    ensures Sum(s[i := v]) + s[i] == Sum(s) + v
  {
    if i == 0 {
      assert s[0 := v][1..] == s[1..];
    } else {
      assert s[i := v][1..] == s[1..][i - 1 := v];
      SumUpdate(s[1..], i - 1, v);
    }
  }

  lemma {:induction false} SumAllZero(s: seq<nat>)
    requires forall i :: 0 <= i < |s| ==> s[i] == 0
    ensures Sum(s) == 0
  {
    if s != [] { SumAllZero(s[1..]); }
  }

  lemma {:induction false} SumConst(s: seq<nat>, c: nat)
    requires forall i :: 0 <= i < |s| ==> s[i] == c
    ensures Sum(s) == c * |s|
  {
    if s != [] { SumConst(s[1..], c); }
  }

  lemma {:induction false} SumMonotone(a: seq<nat>, b: seq<nat>)
    requires |a| == |b| && forall i :: 0 <= i < |a| ==> a[i] <= b[i]
    ensures Sum(a) <= Sum(b)
  {
    if a != [] { SumMonotone(a[1..], b[1..]); }
  }

  ghost predicate Distinct<T>(s: seq<T>) {
    forall i, j :: 0 <= i < j < |s| ==> s[i] != s[j]
  }

  lemma {:induction false} DistinctCounts<T>(s: seq<T>, x: T)
    requires Distinct(s)
    ensures multiset(s)[x] == if x in s then 1 else 0
  {
    if s != [] {
      assert s == [s[0]] + s[1..];
      DistinctCounts(s[1..], x);
      assert s[0] !in s[1..];
    }
  }

  /** Two duplicate-free lists of the same elements are permutations of each other. */
  lemma DistinctSameElements<T>(s: seq<T>, t: seq<T>)
    requires Distinct(s) && Distinct(t)
    requires forall x :: x in s <==> x in t
    ensures multiset(s) == multiset(t)
  {
    forall x: T ensures multiset(s)[x] == multiset(t)[x] {
      DistinctCounts(s, x);
      DistinctCounts(t, x);
    }
  }

  // ----- pieces

  /** Where `n` pieces end in `whole`. */
  ghost predicate IsCut<T>(whole: seq<T>, ends: seq<nat>, n: nat) {
    && |ends| == n + 1 && ends[0] == 0 && ends[n] == |whole|
    && forall i, j :: 0 <= i <= j <= n ==> ends[i] <= ends[j]
  }

  ghost predicate PieceAt<T>(whole: seq<T>, ends: seq<nat>, n: nat, i: nat, piece: seq<T>) {
    IsCut(whole, ends, n) && i < n && whole[ends[i]..ends[i + 1]] == piece
  }

  /** `whole` can be cut into `n` pieces, in order. */
  ghost predicate InPieces<T>(whole: seq<T>, n: nat, pieces: nat -> seq<T>) {
    exists ends: seq<nat> :: IsCut(whole, ends, n) && forall i: nat :: i < n ==> PieceAt(whole, ends, n, i, pieces(i))
  }

  lemma NoPieces<T>(pieces: nat -> seq<T>)
    ensures InPieces([], 0, pieces)
  {
    assert IsCut<T>([], [0], 0);
  }

  lemma OnePieceMore<T>(whole: seq<T>, n: nat, pieces: nat -> seq<T>)
    requires InPieces(whole, n, pieces)
    ensures InPieces(whole + pieces(n), n + 1, pieces)
  {
    var ends :| IsCut(whole, ends, n) && forall i: nat :: i < n ==> PieceAt(whole, ends, n, i, pieces(i));
    var end: nat := |whole| + |pieces(n)|;
    var longer, more := whole + pieces(n), ends + [end];
    assert IsCut(longer, more, n + 1);
    forall i: nat | i < n + 1 ensures PieceAt(longer, more, n + 1, i, pieces(i)) {
      if i < n {
        assert PieceAt(whole, ends, n, i, pieces(i));
        assert longer[ends[i]..ends[i + 1]] == whole[ends[i]..ends[i + 1]];
      } else {
        assert longer[|whole|..] == pieces(n);
      }
    }
  }
}
