/** Sequence helpers shared by the store model: filtering (a `.filter()` or
    `.exclude()` on a query set), counting, and a comparison sort that stands
    for the database's `ORDER BY`. */
module Collections {

  /** The elements of `s` that satisfy `p`, in their original order. */
  function Filter<T(!new)>(s: seq<T>, p: T -> bool): (r: seq<T>)
    ensures |r| <= |s|
    ensures forall x :: x in r <==> x in s && p(x)
    ensures forall x :: multiset(r)[x] == if p(x) then multiset(s)[x] else 0
    decreases |s|
  {
    if s == [] then []
    else
      var init := s[..|s| - 1];
      assert s == init + [s[|s| - 1]];
      Filter(init, p) + if p(s[|s| - 1]) then [s[|s| - 1]] else []
  }

  /** Extending the filtered sequence by one element, as a loop does. */
  lemma FilterSnoc<T(!new)>(s: seq<T>, x: T, p: T -> bool)
    ensures Filter(s + [x], p) == Filter(s, p) + if p(x) then [x] else []
  {
    assert (s + [x])[..|s + [x]| - 1] == s;
  }

  /** A count by `p` is bounded by the counts by `q` and `r` when every
      element satisfying `p` satisfies one of them. */
  lemma {:induction false} FilterSubadditive<T(!new)>(s: seq<T>, p: T -> bool, q: T -> bool, r: T -> bool)
    requires forall x :: p(x) ==> q(x) || r(x)
    ensures |Filter(s, p)| <= |Filter(s, q)| + |Filter(s, r)|
    decreases |s|
  {
    if s != [] {
      FilterSubadditive(s[..|s| - 1], p, q, r);
    }
  }

  /** `le` is a total preorder: every two elements compare, transitively. */
  ghost predicate TotalPreorder<T(!new)>(le: (T, T) -> bool) {
    && (forall a, b :: le(a, b) || le(b, a))
    && (forall a, b, c :: le(a, b) && le(b, c) ==> le(a, c))
  }

  /** Every element of `s` is `le` every element after it. */
  ghost predicate SortedBy<T>(s: seq<T>, le: (T, T) -> bool) {
    forall i, j :: 0 <= i < j < |s| ==> le(s[i], s[j])
  }

  /** Inserts `x` into the sorted sequence `s` before the first element it
      is `le` to. */
  function Insert<T(!new)>(x: T, s: seq<T>, le: (T, T) -> bool): (r: seq<T>)
    requires TotalPreorder(le)
    requires SortedBy(s, le)
    ensures SortedBy(r, le)
    ensures multiset(r) == multiset(s) + multiset{x}
    decreases |s|
  {
    if s == [] then [x]
    else if le(x, s[0]) then [x] + s
    else
      var rest := Insert(x, s[1..], le);
      assert s == [s[0]] + s[1..];
      assert forall y :: y in rest ==> le(s[0], y) by {
        forall y | y in rest ensures le(s[0], y) {
          assert y in multiset(rest);
          if y != x {
            assert y in multiset(s[1..]);
            assert y in s[1..];
          }
        }
      }
      [s[0]] + rest
  }

  /** A permutation of `s` sorted by `le` (insertion sort). */
  function Sort<T(!new)>(s: seq<T>, le: (T, T) -> bool): (r: seq<T>)
    requires TotalPreorder(le)
    ensures SortedBy(r, le)
    ensures multiset(r) == multiset(s)
    decreases |s|
  {
    if s == [] then []
    else
      assert s == [s[0]] + s[1..];
      Insert(s[0], Sort(s[1..], le), le)
  }

  /** A subset is no larger than its superset. */
  lemma {:induction false} SubsetSize<T>(a: set<T>, b: set<T>)
    requires a <= b
    ensures |a| <= |b|
    decreases a
  {
    if a != {} {
      var x :| x in a;
      SubsetSize(a - {x}, b - {x});
    }
  }

  /** A subset as large as its superset is the superset. */
  lemma SubsetOfSameSize<T>(a: set<T>, b: set<T>)
    requires a <= b && |a| == |b|
    ensures a == b
  {
    if a != b {
      assert !(forall x :: x in a <==> x in b);
      var x :| x in b && x !in a;
      SubsetSize(a, b - {x});
    }
  }

  /** Sorting keeps exactly the elements it is given. */
  lemma SortKeepsMembers<T(!new)>(s: seq<T>, le: (T, T) -> bool)
    requires TotalPreorder(le)
    ensures forall x :: x in Sort(s, le) <==> x in s
  {
    var r := Sort(s, le);
    forall x ensures x in r <==> x in s {
      assert x in r <==> x in multiset(r);
      assert x in s <==> x in multiset(s);
    }
  }

  /** What a filter keeps of a sorted sequence is still sorted. */
  lemma {:induction false} FilterKeepsSorted<T(!new)>(s: seq<T>, p: T -> bool, le: (T, T) -> bool)
    requires SortedBy(s, le)
    ensures SortedBy(Filter(s, p), le)
    decreases |s|
  {
    if s != [] {
      var init := s[..|s| - 1];
      var x := s[|s| - 1];
      assert SortedBy(init, le);
      FilterKeepsSorted(init, p, le);
      var f := Filter(init, p);
      forall y | y in f ensures le(y, x) {
        assert y in init;
        var k :| 0 <= k < |init| && init[k] == y;
        assert s[k] == y;
      }
      if p(x) {
        var r := f + [x];
        assert Filter(s, p) == r;
        forall i, j | 0 <= i < j < |r| ensures le(r[i], r[j]) {
          if j == |f| {
            assert r[i] in f;
          } else {
            assert r[i] == f[i] && r[j] == f[j];
          }
        }
      } else {
        assert Filter(s, p) == f;
      }
    }
  }

  /** A sequence whose elements all differ holds each of them once. */
  ghost predicate NoDuplicates<T>(s: seq<T>) {
    forall i, j :: 0 <= i < j < |s| ==> s[i] != s[j]
  }

  /** The number of distinct elements of `s` is at most its length, with
      equality exactly when no element repeats. */
  lemma {:induction false} DistinctCount<T>(s: seq<T>)
    ensures |set x | x in s| <= |s|
    ensures |set x | x in s| == |s| <==> NoDuplicates(s)
    decreases |s|
  {
    if s != [] {
      var init := s[..|s| - 1];
      var x := s[|s| - 1];
      DistinctCount(init);
      assert s == init + [x];
      var si := set y | y in init;
      assert (set y | y in s) == si + {x};
      if x in init {
        assert (set y | y in s) == si;
        var k :| 0 <= k < |init| && init[k] == x;
        assert s[k] == s[|s| - 1];
        assert !NoDuplicates(s);
      } else {
        assert |set y | y in s| == |si| + 1;
        if NoDuplicates(init) {
          assert NoDuplicates(s);
        } else {
          assert !NoDuplicates(s) by {
            var i, j :| 0 <= i < j < |init| && init[i] == init[j];
            assert s[i] == s[j];
          }
        }
      }
    }
  }

  /** In a sequence whose keys strictly increase no element occurs twice. */
  lemma {:induction false} AscendingKeysOnce<T>(s: seq<T>, key: T -> int, x: T)
    requires forall i, j :: 0 <= i < j < |s| ==> key(s[i]) < key(s[j])
    ensures multiset(s)[x] <= 1
    decreases |s|
  {
    if s != [] {
      var init := s[..|s| - 1];
      assert s == init + [s[|s| - 1]];
      AscendingKeysOnce(init, key, x);
      if s[|s| - 1] == x {
        assert forall k :: 0 <= k < |init| ==> key(init[k]) < key(x);
      }
    }
  }
}
