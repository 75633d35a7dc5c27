/**
 * Stable sorting by an integer rank: the behaviour of PHP 8's `usort` with a
 * comparator that returns `rank(a) - rank(b)`.
 */
module StableSort {

  /** Inserts `x` after every element whose rank does not exceed its own. */
  function Insert<T>(s: seq<T>, x: T, rank: T -> int): seq<T>
  {
    if s == [] || rank(s[|s| - 1]) <= rank(x) then s + [x]
    else Insert(s[..|s| - 1], x, rank) + [s[|s| - 1]]
  }

  /** Insertion sort, taking the elements in input order. */
  function SortBy<T>(s: seq<T>, rank: T -> int): seq<T>
  {
    if s == [] then [] else Insert(SortBy(s[..|s| - 1], rank), s[|s| - 1], rank)
  }

  ghost predicate SortedBy<T>(s: seq<T>, rank: T -> int)
  {
    forall i, j :: 0 <= i < j < |s| ==> rank(s[i]) <= rank(s[j])
  }

  /** The elements of rank `k`, in their order in `s`. */
  function WithRank<T>(s: seq<T>, rank: T -> int, k: int): seq<T>
  {
    if s == [] then []
    else WithRank(s[..|s| - 1], rank, k) + (if rank(s[|s| - 1]) == k then [s[|s| - 1]] else [])
  }

  lemma {:induction false} InsertPermutation<T>(s: seq<T>, x: T, rank: T -> int)
    ensures multiset(Insert(s, x, rank)) == multiset(s) + multiset{x}
  {
    if !(s == [] || rank(s[|s| - 1]) <= rank(x)) {
      var p, l := s[..|s| - 1], s[|s| - 1];
      assert s == p + [l];
      InsertPermutation(p, x, rank);
    }
  }

  lemma {:induction false} InsertSorted<T>(s: seq<T>, x: T, rank: T -> int)
    requires SortedBy(s, rank)
    ensures SortedBy(Insert(s, x, rank), rank)
  {
    var r := Insert(s, x, rank);
    if !(s == [] || rank(s[|s| - 1]) <= rank(x)) {
      var p, l := s[..|s| - 1], s[|s| - 1];
      assert s == p + [l];
      assert SortedBy(p, rank);
      InsertSorted(p, x, rank);
      InsertPermutation(p, x, rank);
      var q := Insert(p, x, rank);
      assert r == q + [l];
      forall y | y in q ensures rank(y) <= rank(l) {
        assert y in multiset(q);
        if y != x {
          assert y in multiset(p);
          var i :| 0 <= i < |p| && p[i] == y;
          assert s[i] == y;
        }
      }
      forall i, j | 0 <= i < j < |r| ensures rank(r[i]) <= rank(r[j]) {
        if j == |r| - 1 {
          assert r[i] == q[i] && q[i] in q;
        } else {
          assert r[i] == q[i] && r[j] == q[j];
        }
      }
    }
  }

  lemma {:induction false} InsertStable<T>(s: seq<T>, x: T, rank: T -> int, k: int)
    requires SortedBy(s, rank)
    ensures WithRank(Insert(s, x, rank), rank, k) == WithRank(s, rank, k) + (if rank(x) == k then [x] else [])
  {
    var r := Insert(s, x, rank);
    if s == [] || rank(s[|s| - 1]) <= rank(x) {
      assert r[..|r| - 1] == s;
    } else {
      var p, l := s[..|s| - 1], s[|s| - 1];
      assert s == p + [l];
      assert SortedBy(p, rank);
      InsertStable(p, x, rank, k);
      var q := Insert(p, x, rank);
      assert r == q + [l];
      assert r[..|r| - 1] == q;
      assert WithRank(r, rank, k) == WithRank(q, rank, k) + (if rank(l) == k then [l] else []);
    }
  }

  /**
   * The sort returns a permutation of its input, ordered by rank, and
   * elements of equal rank keep their input order (stability).
   */
  lemma {:induction false} SortByCorrect<T>(s: seq<T>, rank: T -> int)
    ensures multiset(SortBy(s, rank)) == multiset(s)
    ensures SortedBy(SortBy(s, rank), rank)
    ensures forall k :: WithRank(SortBy(s, rank), rank, k) == WithRank(s, rank, k)
  {
    if s != [] {
      var p, x := s[..|s| - 1], s[|s| - 1];
      assert s == p + [x];
      SortByCorrect(p, rank);
      InsertPermutation(SortBy(p, rank), x, rank);
      InsertSorted(SortBy(p, rank), x, rank);
      forall k ensures WithRank(SortBy(s, rank), rank, k) == WithRank(s, rank, k) {
        InsertStable(SortBy(p, rank), x, rank, k);
      }
    }
  }
}
