/** Sorting by a number, elements with the same number keeping their order. */
module StableSort {
  import opened Wrappers

  predicate Ascending<T>(rank: T -> nat, s: seq<T>) {
    forall i, j | 0 <= i < j < |s| :: rank(s[i]) <= rank(s[j])
  }

  predicate UpTo<T>(rank: T -> nat, s: seq<T>, n: nat) {
    forall i | 0 <= i < |s| :: rank(s[i]) <= n
  }

  /** The element that comes first among those with rank n. */
  function FirstWith<T>(rank: T -> nat, s: seq<T>, n: nat): Option<T> {
    if s == [] then None
    else if rank(s[0]) == n then Some(s[0])
    else FirstWith(rank, s[1..], n)
  }

  function Insert<T>(rank: T -> nat, sorted: seq<T>, x: T): seq<T> {
    if sorted == [] then [x]
    else if rank(sorted[|sorted| - 1]) <= rank(x) then sorted + [x]
    else Insert(rank, sorted[..|sorted| - 1], x) + [sorted[|sorted| - 1]]
  }

  function SortBy<T>(rank: T -> nat, s: seq<T>): seq<T> {
    if s == [] then [] else Insert(rank, SortBy(rank, s[..|s| - 1]), s[|s| - 1])
  }

  lemma {:induction false} InsertPermutes<T>(rank: T -> nat, sorted: seq<T>, x: T)
    ensures multiset(Insert(rank, sorted, x)) == multiset(sorted) + multiset{x}
  {
    if sorted != [] && rank(sorted[|sorted| - 1]) > rank(x) {
      InsertPermutes(rank, sorted[..|sorted| - 1], x);
      assert sorted == sorted[..|sorted| - 1] + [sorted[|sorted| - 1]];
    }
  }

  lemma {:induction false} InsertSorts<T>(rank: T -> nat, sorted: seq<T>, x: T, n: nat)
    requires Ascending(rank, sorted) && UpTo(rank, sorted, n) && rank(x) <= n
    ensures Ascending(rank, Insert(rank, sorted, x)) && UpTo(rank, Insert(rank, sorted, x), n)
  {
    if sorted != [] && rank(sorted[|sorted| - 1]) > rank(x) {
      InsertSorts(rank, sorted[..|sorted| - 1], x, rank(sorted[|sorted| - 1]));
    }
  }

  function Highest<T>(rank: T -> nat, s: seq<T>): (n: nat)
    ensures UpTo(rank, s, n)
  {
    if s == [] then 0
    else
      var n, last := Highest(rank, s[..|s| - 1]), rank(s[|s| - 1]);
      if n < last then last else n
  }

  /** The elements of a sequence with rank n, in order. */
  function WithRank<T>(rank: T -> nat, s: seq<T>, n: nat): seq<T> {
    if s == [] then []
    else WithRank(rank, s[..|s| - 1], n) + if rank(s[|s| - 1]) == n then [s[|s| - 1]] else []
  }

  lemma WithRankSnoc<T>(rank: T -> nat, s: seq<T>, x: T, n: nat)
    ensures WithRank(rank, s + [x], n) == WithRank(rank, s, n) + if rank(x) == n then [x] else []
  {
    assert (s + [x])[..|s|] == s;
  }

  /** Elements of different rank can change places. */
  lemma WithRankSwap<T>(rank: T -> nat, s: seq<T>, x: T, y: T, n: nat)
    requires rank(x) != rank(y)
    ensures WithRank(rank, s + [x] + [y], n) == WithRank(rank, s + [y] + [x], n)
  {
    WithRankSnoc(rank, s + [x], y, n);
    WithRankSnoc(rank, s, x, n);
    WithRankSnoc(rank, s + [y], x, n);
    WithRankSnoc(rank, s, y, n);
  }

  lemma {:induction false} WithRankOfInsert<T>(rank: T -> nat, sorted: seq<T>, x: T, n: nat)
    ensures WithRank(rank, Insert(rank, sorted, x), n) == WithRank(rank, sorted + [x], n)
  {
    if sorted != [] && rank(sorted[|sorted| - 1]) > rank(x) {
      var front, last := sorted[..|sorted| - 1], sorted[|sorted| - 1];
      WithRankOfInsert(rank, front, x, n);
      assert sorted == front + [last];
      WithRankSwap(rank, front, x, last, n);
      WithRankSnoc(rank, Insert(rank, front, x), last, n);
      WithRankSnoc(rank, front + [x], last, n);
    } else if sorted == [] {
      assert [] + [x] == [x];
    }
  }

  /** The first element with a rank is the first of all those with it. */
  lemma {:induction false} FirstOfRank<T>(rank: T -> nat, s: seq<T>, n: nat)
    ensures FirstWith(rank, s, n) == if WithRank(rank, s, n) == [] then None else Some(WithRank(rank, s, n)[0])
  {
    if s != [] {
      var front, last := s[..|s| - 1], s[|s| - 1];
      FirstOfRank(rank, front, n);
      assert s == front + [last];
      FirstOfSnoc(rank, front, last, n);
    }
  }

  lemma {:induction false} FirstOfSnoc<T>(rank: T -> nat, s: seq<T>, x: T, n: nat)
    ensures FirstWith(rank, s + [x], n)
            == if FirstWith(rank, s, n).Some? then FirstWith(rank, s, n) else if rank(x) == n then Some(x) else None
  {
    if s == [] {
      assert s + [x] == [x] && [x][1..] == [];
    } else {
      assert (s + [x])[1..] == s[1..] + [x];
      FirstOfSnoc(rank, s[1..], x, n);
    }
  }

  /** The result is sorted, a permutation, and keeps elements with the same number in their order. */
  lemma {:induction false} SortBySorts<T>(rank: T -> nat, s: seq<T>, n: nat)
    ensures Ascending(rank, SortBy(rank, s))
    ensures multiset(SortBy(rank, s)) == multiset(s)
    ensures WithRank(rank, SortBy(rank, s), n) == WithRank(rank, s, n)
    ensures FirstWith(rank, SortBy(rank, s), n) == FirstWith(rank, s, n)
  {
    if s != [] {
      var front, last := s[..|s| - 1], s[|s| - 1];
      SortBySorts(rank, front, n);
      InsertPermutes(rank, SortBy(rank, front), last);
      InsertSorts(rank, SortBy(rank, front), last, Highest(rank, SortBy(rank, front) + [last]));
      WithRankOfInsert(rank, SortBy(rank, front), last, n);
      assert s == front + [last];
      WithRankSnoc(rank, SortBy(rank, front), last, n);
    }
    FirstOfRank(rank, SortBy(rank, s), n);
    FirstOfRank(rank, s, n);
  }

  /** The first element with a rank has it and stands before all others that do; there is none only if no element has it. */
  lemma {:induction false} FirstWithIs<T>(rank: T -> nat, s: seq<T>, n: nat)
    ensures FirstWith(rank, s, n).Some? ==>
              exists k | 0 <= k < |s| :: s[k] == FirstWith(rank, s, n).value && rank(s[k]) == n && forall j | 0 <= j < k :: rank(s[j]) != n
    ensures FirstWith(rank, s, n).None? <==> forall i | 0 <= i < |s| :: rank(s[i]) != n
  {
    if s != [] && rank(s[0]) != n {
      FirstWithIs(rank, s[1..], n);
      assert forall i | 0 < i < |s| :: s[i] == s[1..][i - 1];
      if FirstWith(rank, s, n).Some? {
        var k :| 0 <= k < |s| - 1 && s[1..][k] == FirstWith(rank, s, n).value && rank(s[1..][k]) == n
                 && forall j | 0 <= j < k :: rank(s[1..][j]) != n;
        assert s[k + 1] == s[1..][k];
      }
    }
  }
}
