/**
 Order-preserving filtering of sequences, the one list operation the cache
 model is built from: removing an entry, expiring a key and the periodic
 sweep are all filters of the recency order.
 */
module Filters {

  /** The elements of `s` that satisfy `keep`, in the order they have in `s`. */
  function Filter<T(!new)>(s: seq<T>, keep: T -> bool): (r: seq<T>)
    ensures |r| <= |s|
    ensures forall x :: x in r <==> x in s && keep(x)
  {
    if s == [] then []
    else if keep(s[0]) then [s[0]] + Filter(s[1..], keep)
    else Filter(s[1..], keep)
  }

  /** The conjunction of two predicates, as one named predicate. */
  function Both<T(!new)>(p: T -> bool, q: T -> bool): T -> bool
  {
    x => p(x) && q(x)
  }

  /** `a` occurs in `s` strictly before `b`. */
  ghost predicate InOrder<T(!new)>(s: seq<T>, a: T, b: T)
  {
    exists p, q :: 0 <= p < q < |s| && s[p] == a && s[q] == b
  }

  /** Filtering keeps the relative order of what survives. */
  lemma {:induction false} FilterKeepsOrder<T(!new)>(s: seq<T>, keep: T -> bool, i: int, j: int)
    requires 0 <= i < j < |Filter(s, keep)|
    ensures InOrder(s, Filter(s, keep)[i], Filter(s, keep)[j])
  {
    var r := Filter(s, keep);
    var t := Filter(s[1..], keep);
    if keep(s[0]) {
      assert r == [s[0]] + t;
      if i == 0 {
        assert r[j] == t[j - 1];
        assert r[j] in s[1..];
        var q :| 0 <= q < |s[1..]| && s[1..][q] == r[j];
        assert s[0] == r[i] && s[q + 1] == r[j];
      } else {
        FilterKeepsOrder(s[1..], keep, i - 1, j - 1);
        var p, q :| 0 <= p < q < |s[1..]| && s[1..][p] == t[i - 1] && s[1..][q] == t[j - 1];
        assert s[p + 1] == r[i] && s[q + 1] == r[j];
      }
    } else {
      assert r == t;
      FilterKeepsOrder(s[1..], keep, i, j);
      var p, q :| 0 <= p < q < |s[1..]| && s[1..][p] == t[i] && s[1..][q] == t[j];
      assert s[p + 1] == r[i] && s[q + 1] == r[j];
    }
  }

  /** A filter that every element passes changes nothing. */
  lemma {:induction false} FilterKeepsAll<T(!new)>(s: seq<T>, keep: T -> bool)
    requires forall x :: x in s ==> keep(x)
    ensures Filter(s, keep) == s
  {
    if s != [] {
      FilterKeepsAll(s[1..], keep);
    }
  }

  /** A filter that only the element at position `i` fails removes exactly that position. */
  lemma {:induction false} FilterDropsOne<T(!new)>(s: seq<T>, keep: T -> bool, i: int)
    requires 0 <= i < |s|
    requires !keep(s[i])
    requires forall j :: 0 <= j < |s| && j != i ==> keep(s[j])
    ensures Filter(s, keep) == s[..i] + s[i + 1..]
  {
    var t := s[1..];
    if i == 0 {
      assert forall x :: x in t ==> keep(x) by {
        forall x | x in t
          ensures keep(x)
        {
          var j :| 0 <= j < |t| && t[j] == x;
          assert s[j + 1] == x;
        }
      }
      FilterKeepsAll(t, keep);
      assert Filter(s, keep) == Filter(t, keep);
    } else {
      assert forall j :: 0 <= j < |t| && j != i - 1 ==> keep(t[j]) by {
        forall j | 0 <= j < |t| && j != i - 1
          ensures keep(t[j])
        {
          assert t[j] == s[j + 1];
        }
      }
      FilterDropsOne(t, keep, i - 1);
      assert keep(s[0]);
      assert Filter(s, keep) == [s[0]] + Filter(t, keep);
      CutAfterHead(s, i);
    }
  }

  /** Cutting position `i > 0` out of `s` keeps the head and cuts position `i - 1` out of the tail. */
  lemma CutAfterHead<T>(s: seq<T>, i: int)
    requires 0 < i < |s|
    ensures s[..i] + s[i + 1..] == [s[0]] + (s[1..][..i - 1] + s[1..][i..])
  {
    assert s[..i] == [s[0]] + s[1..][..i - 1];
    assert s[i + 1..] == s[1..][i..];
  }

  /** Two predicates that agree on every element of `s` filter it alike. */
  lemma {:induction false} FilterCongruent<T(!new)>(s: seq<T>, p: T -> bool, q: T -> bool)
    requires forall x :: x in s ==> p(x) == q(x)
    ensures Filter(s, p) == Filter(s, q)
  {
    if s != [] {
      FilterCongruent(s[1..], p, q);
    }
  }

  /** Filtering twice is filtering once by both predicates. */
  lemma {:induction false} FilterTwice<T(!new)>(s: seq<T>, p: T -> bool, q: T -> bool)
    ensures Filter(Filter(s, p), q) == Filter(s, Both(p, q))
  {
    if s != [] {
      FilterTwice(s[1..], p, q);
    }
  }

  /** Moving the element at position `i` to the front keeps the length and the elements. */
  lemma MoveToFrontKeepsElements<T>(s: seq<T>, i: int)
    requires 0 <= i < |s|
    ensures |[s[i]] + s[..i] + s[i + 1..]| == |s|
    ensures forall x :: x in [s[i]] + s[..i] + s[i + 1..] <==> x in s
  {
    assert s == s[..i] + [s[i]] + s[i + 1..];
  }
}
