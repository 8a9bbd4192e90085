/**
 * `sorted(counter.items(), key=lambda x: x[1], reverse=True)` as the
 * distribution export uses it (analysis/distribution.routes.py, line 22):
 * a stable sort of (route, count) pairs by descending count. Python keeps
 * equal keys in their original order under `reverse=True` as well, which is
 * what an insertion sort that places each later item after the items with an
 * equal or larger count does.
 */
module StableSort {

  datatype CountedRoute = CountedRoute(route: string, count: nat)

  /** Counts never increase from one item to the next. */
  predicate NonIncreasing(s: seq<CountedRoute>) {
    forall i, j :: 0 <= i < j < |s| ==> s[i].count >= s[j].count
  }

  /** Ordered by descending count, and by increasing `rank` of the route among equal counts. */
  predicate OrderedBy(s: seq<CountedRoute>, rank: string -> int) {
    forall i, j :: 0 <= i < j < |s| ==>
      s[i].count > s[j].count || (s[i].count == s[j].count && rank(s[i].route) < rank(s[j].route))
  }

  /** Puts `x` after every item whose count is at least its own. */
  function InsertDescending(s: seq<CountedRoute>, x: CountedRoute): (r: seq<CountedRoute>)
    ensures multiset(r) == multiset(s) + multiset{x}
    ensures |r| == |s| + 1
    decreases |s|
  {
    if |s| == 0 then [x]
    else if s[0].count >= x.count then
      assert s == [s[0]] + s[1..];
      [s[0]] + InsertDescending(s[1..], x)
    else [x] + s
  }

  /** The stable descending sort, inserting the items in their input order. */
  function SortByCountDescending(items: seq<CountedRoute>): (r: seq<CountedRoute>)
    ensures multiset(r) == multiset(items)
    ensures |r| == |items|
    decreases |items|
  {
    if |items| == 0 then []
    else
      var n := |items| - 1;
      assert items == items[..n] + [items[n]];
      InsertDescending(SortByCountDescending(items[..n]), items[n])
  }

  /** Every item of an insertion is the inserted item (index -1) or the old item at the index returned. */
  lemma {:induction false} InsertedFrom(s: seq<CountedRoute>, x: CountedRoute, l: nat) returns (i: int)
    requires l < |InsertDescending(s, x)|
    ensures -1 <= i < |s|
    ensures i == -1 ==> InsertDescending(s, x)[l] == x
    ensures i >= 0 ==> InsertDescending(s, x)[l] == s[i]
    decreases |s|
  {
    if |s| == 0 {
      i := -1;
    } else if s[0].count >= x.count {
      if l == 0 {
        i := 0;
      } else {
        var j := InsertedFrom(s[1..], x, l - 1);
        i := if j == -1 then -1 else j + 1;
      }
    } else {
      i := l - 1;
    }
  }

  lemma {:induction false} InsertKeepsNonIncreasing(s: seq<CountedRoute>, x: CountedRoute)
    requires NonIncreasing(s)
    ensures NonIncreasing(InsertDescending(s, x))
    decreases |s|
  {
    if |s| > 0 && s[0].count >= x.count {
      var tail := s[1..];
      assert NonIncreasing(tail);
      InsertKeepsNonIncreasing(tail, x);
      var t := InsertDescending(tail, x);
      var r := InsertDescending(s, x);
      assert r == [s[0]] + t;
      forall i, j | 0 <= i < j < |r| ensures r[i].count >= r[j].count {
        assert r[j] == t[j - 1];
        if i == 0 {
          assert r[0] == s[0];
          var k := InsertedFrom(tail, x, j - 1);
          if k >= 0 {
            assert r[j] == s[k + 1];
          }
        } else {
          assert r[i] == t[i - 1];
          assert NonIncreasing(t);
        }
      }
    } else if |s| > 0 {
      var r := InsertDescending(s, x);
      assert r == [x] + s;
      forall i, j | 0 <= i < j < |r| ensures r[i].count >= r[j].count {
        assert r[j] == s[j - 1];
        if i > 0 {
          assert r[i] == s[i - 1];
        }
      }
    }
  }

  /** The sorted items are in non-increasing count order. */
  lemma {:induction false} SortIsNonIncreasing(items: seq<CountedRoute>)
    ensures NonIncreasing(SortByCountDescending(items))
    decreases |items|
  {
    if |items| > 0 {
      var n := |items| - 1;
      SortIsNonIncreasing(items[..n]);
      InsertKeepsNonIncreasing(SortByCountDescending(items[..n]), items[n]);
      assert SortByCountDescending(items) == InsertDescending(SortByCountDescending(items[..n]), items[n]);
    }
  }

  lemma {:induction false} InsertKeepsOrdered(s: seq<CountedRoute>, x: CountedRoute, rank: string -> int)
    requires OrderedBy(s, rank)
    requires forall k :: 0 <= k < |s| ==> rank(s[k].route) < rank(x.route)
    ensures OrderedBy(InsertDescending(s, x), rank)
    decreases |s|
  {
    if |s| > 0 && s[0].count >= x.count {
      var tail := s[1..];
      assert OrderedBy(tail, rank);
      InsertKeepsOrdered(tail, x, rank);
      var t := InsertDescending(tail, x);
      var r := InsertDescending(s, x);
      assert r == [s[0]] + t;
      forall i, j | 0 <= i < j < |r|
        ensures r[i].count > r[j].count || (r[i].count == r[j].count && rank(r[i].route) < rank(r[j].route))
      {
        assert r[j] == t[j - 1];
        if i == 0 {
          assert r[0] == s[0];
          var k := InsertedFrom(tail, x, j - 1);
          if k >= 0 {
            assert r[j] == s[k + 1];
          } else {
            assert r[j] == x && rank(s[0].route) < rank(x.route);
          }
        } else {
          assert r[i] == t[i - 1];
          assert OrderedBy(t, rank);
        }
      }
    } else if |s| > 0 {
      var r := InsertDescending(s, x);
      assert r == [x] + s;
      forall i, j | 0 <= i < j < |r|
        ensures r[i].count > r[j].count || (r[i].count == r[j].count && rank(r[i].route) < rank(r[j].route))
      {
        assert r[j] == s[j - 1];
        if i == 0 {
          assert s[0].count >= s[j - 1].count;
        } else {
          assert r[i] == s[i - 1];
        }
      }
    }
  }

  /**
   * Stability: when the input is in increasing `rank` (its own order), equal
   * counts stay in input order, and the result is sorted by descending count
   * and then by that order.
   */
  lemma {:induction false} SortIsStable(items: seq<CountedRoute>, rank: string -> int)
    requires forall i, j :: 0 <= i < j < |items| ==> rank(items[i].route) < rank(items[j].route)
    ensures OrderedBy(SortByCountDescending(items), rank)
    decreases |items|
  {
    if |items| > 0 {
      var n := |items| - 1;
      var front := items[..n];
      SortIsStable(front, rank);
      var s := SortByCountDescending(front);
      forall k | 0 <= k < |s| ensures rank(s[k].route) < rank(items[n].route) {
        var j := SortedFrom(front, k);
        assert front[j] == items[j];
      }
      InsertKeepsOrdered(s, items[n], rank);
    }
  }

  /** Every sorted item is the input item at the index returned. */
  lemma {:induction false} SortedFrom(items: seq<CountedRoute>, l: nat) returns (i: nat)
    requires l < |SortByCountDescending(items)|
    ensures i < |items| && SortByCountDescending(items)[l] == items[i]
    decreases |items|
  {
    var n := |items| - 1;
    var k := InsertedFrom(SortByCountDescending(items[..n]), items[n], l);
    if k == -1 {
      i := n;
    } else {
      i := SortedFrom(items[..n], k);
      assert items[..n][i] == items[i];
    }
  }

  function SumCounts(s: seq<CountedRoute>): nat
    decreases |s|
  {
    if |s| == 0 then 0 else s[0].count + SumCounts(s[1..])
  }

  lemma {:induction false} SumCountsInsert(s: seq<CountedRoute>, x: CountedRoute)
    ensures SumCounts(InsertDescending(s, x)) == SumCounts(s) + x.count
    decreases |s|
  {
    if |s| > 0 && s[0].count >= x.count {
      SumCountsInsert(s[1..], x);
      assert ([s[0]] + InsertDescending(s[1..], x))[1..] == InsertDescending(s[1..], x);
    } else if |s| > 0 {
      assert ([x] + s)[1..] == s;
    }
  }

  lemma {:induction false} SumCountsSnoc(s: seq<CountedRoute>, x: CountedRoute)
    ensures SumCounts(s + [x]) == SumCounts(s) + x.count
    decreases |s|
  {
    if |s| == 0 {
      assert [x][1..] == [];
    } else {
      assert (s + [x])[1..] == s[1..] + [x];
      SumCountsSnoc(s[1..], x);
    }
  }

  /** Sorting keeps the total of the counts. */
  lemma {:induction false} SortKeepsSum(items: seq<CountedRoute>)
    ensures SumCounts(SortByCountDescending(items)) == SumCounts(items)
    decreases |items|
  {
    if |items| > 0 {
      var n := |items| - 1;
      SortKeepsSum(items[..n]);
      SumCountsInsert(SortByCountDescending(items[..n]), items[n]);
      SumCountsSnoc(items[..n], items[n]);
      assert items[..n] + [items[n]] == items;
    }
  }
}
