/** Sequence helpers standing in for the query builder: `where` is Filter,
    `count()` is Count, `orderBy` is SortBy, and `distinct()` over an ordered
    date column is DistinctAscending / DistinctDescending. */
module Seqs {

  /** The elements of `s` satisfying `p`, in their original order. */
  function Filter<T(==)>(s: seq<T>, p: T -> bool): (r: seq<T>)
    ensures |r| <= |s|
    ensures forall i :: 0 <= i < |r| ==> p(r[i])
  {
    if |s| == 0 then []
    else
      assert s == [s[0]] + s[1..];
      if p(s[0]) then [s[0]] + Filter(s[1..], p) else Filter(s[1..], p)
  }

  /** An element survives filtering exactly when it occurs and satisfies `p`. */
  lemma {:induction false} FilterMembership<T>(s: seq<T>, p: T -> bool, x: T)
    ensures x in Filter(s, p) <==> x in s && p(x)
    decreases |s|
  {
    if |s| > 0 {
      FilterMembership(s[1..], p, x);
      assert s == [s[0]] + s[1..];
    }
  }

  /** Filtering only drops elements: each survivor keeps at most its count. */
  lemma {:induction false} FilterSubMultiset<T>(s: seq<T>, p: T -> bool)
    ensures multiset(Filter(s, p)) <= multiset(s)
    decreases |s|
  {
    if |s| > 0 {
      FilterSubMultiset(s[1..], p);
      assert s == [s[0]] + s[1..];
    }
  }

  lemma FilterMembers<T>(s: seq<T>, p: T -> bool)
    ensures forall x :: x in Filter(s, p) <==> x in s && p(x)
  {
    forall x ensures x in Filter(s, p) <==> x in s && p(x) {
      FilterMembership(s, p, x);
    }
  }

  lemma {:induction false} FilterAppend<T>(a: seq<T>, b: seq<T>, p: T -> bool)
    ensures Filter(a + b, p) == Filter(a, p) + Filter(b, p)
    decreases |a|
  {
    if |a| > 0 {
      assert (a + b)[1..] == a[1..] + b;
      FilterAppend(a[1..], b, p);
    } else {
      assert a + b == b;
    }
  }

  /** Filtering by a predicate every element meets keeps the sequence whole. */
  lemma {:induction false} FilterAll<T>(s: seq<T>, p: T -> bool)
    requires forall i :: 0 <= i < |s| ==> p(s[i])
    ensures Filter(s, p) == s
    decreases |s|
  {
    if |s| > 0 {
      FilterAll(s[1..], p);
    }
  }

  /** Filtering by a predicate no element meets leaves nothing. */
  lemma {:induction false} FilterNone<T>(s: seq<T>, p: T -> bool)
    requires forall i :: 0 <= i < |s| ==> !p(s[i])
    ensures Filter(s, p) == []
    decreases |s|
  {
    if |s| > 0 {
      FilterNone(s[1..], p);
    }
  }

  /** Two predicates that agree on every element filter alike. */
  lemma {:induction false} FilterCongruent<T>(s: seq<T>, p: T -> bool, q: T -> bool)
    requires forall i :: 0 <= i < |s| ==> p(s[i]) == q(s[i])
    ensures Filter(s, p) == Filter(s, q)
    decreases |s|
  {
    if |s| > 0 {
      FilterCongruent(s[1..], p, q);
    }
  }

  /** Filtering by `q` after `p` is filtering by both. */
  lemma {:induction false} FilterFilter<T>(s: seq<T>, p: T -> bool, q: T -> bool)
    ensures Filter(Filter(s, p), q) == Filter(s, x => p(x) && q(x))
    decreases |s|
  {
    if |s| > 0 {
      FilterFilter(s[1..], p, q);
    }
  }

  /** The number of elements of `s` satisfying `p` (SQL `count()` under a `where`). */
  function Count<T(==)>(s: seq<T>, p: T -> bool): (n: nat)
    ensures n <= |s|
  {
    |Filter(s, p)|
  }

  /** Counting a narrower predicate never gives more. */
  lemma {:induction false} CountMonotone<T>(s: seq<T>, p: T -> bool, q: T -> bool)
    requires forall i :: 0 <= i < |s| ==> (q(s[i]) ==> p(s[i]))
    ensures Count(s, q) <= Count(s, p)
    decreases |s|
  {
    if |s| > 0 {
      CountMonotone(s[1..], p, q);
    }
  }

  /** Counting splits over two disjoint predicates that together make up `p`. */
  lemma {:induction false} CountSplit<T>(s: seq<T>, p: T -> bool, q: T -> bool, r: T -> bool)
    requires forall i :: 0 <= i < |s| ==> (p(s[i]) <==> q(s[i]) || r(s[i]))
    requires forall i :: 0 <= i < |s| ==> !(q(s[i]) && r(s[i]))
    ensures Count(s, q) + Count(s, r) == Count(s, p)
    decreases |s|
  {
    if |s| > 0 {
      CountSplit(s[1..], p, q, r);
    }
  }

  /** `f` applied to every element, in order. */
  function Map<T, U>(s: seq<T>, f: T -> U): (r: seq<U>)
    ensures |r| == |s|
    ensures forall i :: 0 <= i < |s| ==> r[i] == f(s[i])
  {
    seq(|s|, i requires 0 <= i < |s| => f(s[i]))
  }

  /** No value occurs twice. */
  predicate Distinct<T(==)>(s: seq<T>)
  {
    forall i, j :: 0 <= i < j < |s| ==> s[i] != s[j]
  }

  /** No two elements share a key. */
  predicate DistinctBy<T, K(==)>(s: seq<T>, key: T -> K)
  {
    forall i, j :: 0 <= i < j < |s| ==> key(s[i]) != key(s[j])
  }

  /** Filtering keeps keys distinct. */
  lemma {:induction false} FilterDistinctBy<T, K>(s: seq<T>, p: T -> bool, key: T -> K)
    requires DistinctBy(s, key)
    ensures DistinctBy(Filter(s, p), key)
    decreases |s|
  {
    if |s| > 0 {
      FilterDistinctBy(s[1..], p, key);
      var tail := Filter(s[1..], p);
      forall j | 0 <= j < |tail| ensures key(s[0]) != key(tail[j]) {
        FilterMembership(s[1..], p, tail[j]);
        var k :| 0 <= k < |s[1..]| && s[1..][k] == tail[j];
        assert key(s[0]) != key(s[k + 1]);
      }
    }
  }

  ghost predicate TotalPreorder<T(!new)>(leq: (T, T) -> bool)
  {
    && (forall a, b :: leq(a, b) || leq(b, a))
    && (forall a, b, c :: leq(a, b) && leq(b, c) ==> leq(a, c))
  }

  ghost predicate SortedBy<T>(s: seq<T>, leq: (T, T) -> bool)
  {
    forall i, j :: 0 <= i < j < |s| ==> leq(s[i], s[j])
  }

  function Insert<T(!new)>(x: T, s: seq<T>, leq: (T, T) -> bool): (r: seq<T>)
    requires TotalPreorder(leq)
    requires SortedBy(s, leq)
    ensures SortedBy(r, leq)
    ensures multiset(r) == multiset(s) + multiset{x}
    decreases |s|
  {
    if |s| == 0 then [x]
    else if leq(x, s[0]) then
      InsertFront(x, s, leq);
      [x] + s
    else
      var tail := Insert(x, s[1..], leq);
      assert s == [s[0]] + s[1..];
      InsertBehind(x, s, tail, leq);
      [s[0]] + tail
  }

  lemma InsertFront<T(!new)>(x: T, s: seq<T>, leq: (T, T) -> bool)
    requires TotalPreorder(leq)
    requires SortedBy(s, leq)
    requires |s| > 0 && leq(x, s[0])
    ensures SortedBy([x] + s, leq)
  {
    var r := [x] + s;
    forall i, j | 0 <= i < j < |r| ensures leq(r[i], r[j]) {
      if i == 0 && j > 1 {
        assert leq(s[0], s[j - 1]);
      }
    }
  }

  lemma InsertBehind<T(!new)>(x: T, s: seq<T>, tail: seq<T>, leq: (T, T) -> bool)
    requires TotalPreorder(leq)
    requires SortedBy(s, leq)
    requires |s| > 0 && !leq(x, s[0])
    requires SortedBy(tail, leq)
    requires multiset(tail) == multiset(s[1..]) + multiset{x}
    ensures SortedBy([s[0]] + tail, leq)
  {
    var r := [s[0]] + tail;
    forall i, j | 0 <= i < j < |r| ensures leq(r[i], r[j]) {
      if i == 0 {
        var y := tail[j - 1];
        assert y in multiset(tail);
        if y != x {
          assert y in multiset(s[1..]);
          var k :| 0 <= k < |s[1..]| && s[1..][k] == y;
          assert leq(s[0], s[k + 1]);
        }
      }
    }
  }

  /** `orderBy`: a permutation of `s` ordered by `leq` (an insertion sort). */
  function SortBy<T(!new)>(s: seq<T>, leq: (T, T) -> bool): (r: seq<T>)
    requires TotalPreorder(leq)
    ensures SortedBy(r, leq)
    ensures multiset(r) == multiset(s)
    decreases |s|
  {
    if |s| == 0 then []
    else
      assert s == [s[0]] + s[1..];
      Insert(s[0], SortBy(s[1..], leq), leq)
  }

  predicate StrictlyAscending(s: seq<int>)
  {
    forall i, j :: 0 <= i < j < |s| ==> s[i] < s[j]
  }

  predicate StrictlyDescending(s: seq<int>)
  {
    forall i, j :: 0 <= i < j < |s| ==> s[i] > s[j]
  }

  function Ascending(): (int, int) -> bool
  {
    (a: int, b: int) => a <= b
  }

  lemma AscendingIsTotalPreorder()
    ensures TotalPreorder(Ascending())
  {
  }

  /** Drops the repeats from an ascending sequence. */
  function Dedup(s: seq<int>): (r: seq<int>)
    requires SortedBy(s, Ascending())
    ensures StrictlyAscending(r)
    ensures forall x :: x in r <==> x in s
    ensures |s| > 0 ==> |r| > 0 && r[0] == s[0]
    decreases |s|
  {
    if |s| <= 1 then s
    else if s[0] == s[1] then Dedup(s[1..])
    else
      var tail := Dedup(s[1..]);
      assert forall x :: x in tail ==> s[1] <= x by {
        forall x | x in tail ensures s[1] <= x {
          var k :| 1 <= k < |s| && s[k] == x;
        }
      }
      [s[0]] + tail
  }

  /** `distinct()->orderBy(date, 'asc')`: each value once, increasing. */
  function DistinctAscending(xs: seq<int>): (r: seq<int>)
    ensures StrictlyAscending(r)
    ensures Distinct(r)
    ensures forall x :: x in r <==> x in xs
  {
    AscendingIsTotalPreorder();
    var sorted := SortBy(xs, Ascending());
    assert forall x :: x in sorted <==> x in multiset(xs);
    Dedup(sorted)
  }

  function Reverse<T>(s: seq<T>): (r: seq<T>)
    ensures |r| == |s|
    ensures forall i :: 0 <= i < |s| ==> r[i] == s[|s| - 1 - i]
  {
    seq(|s|, i requires 0 <= i < |s| => s[|s| - 1 - i])
  }

  /** `distinct()->orderBy(date, 'desc')`: each value once, decreasing. */
  function DistinctDescending(xs: seq<int>): (r: seq<int>)
    ensures StrictlyDescending(r)
    ensures Distinct(r)
    ensures forall x :: x in r <==> x in xs
  {
    var asc := DistinctAscending(xs);
    ReverseAscending(asc);
    Reverse(asc)
  }

  /** Reversing an increasing sequence gives a decreasing one with the
      same elements. */
  lemma ReverseAscending(asc: seq<int>)
    requires StrictlyAscending(asc)
    ensures StrictlyDescending(Reverse(asc))
    ensures Distinct(Reverse(asc))
    ensures forall x :: x in Reverse(asc) <==> x in asc
  {
    var r := Reverse(asc);
    forall x ensures x in r <==> x in asc {
      if x in asc {
        var k :| 0 <= k < |asc| && asc[k] == x;
        assert r[|asc| - 1 - k] == x;
      }
    }
  }
}
