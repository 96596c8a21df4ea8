/** Stable sorting of report rows by an ordering relation, as the `ORDER BY`
    clauses of the reports do it. Rows that the relation ranks alike keep the
    order in which they were grouped. */
module Sorting {

  /** Any two rows can be ranked. */
  ghost predicate Total<T(!new)>(leq: (T, T) -> bool) {
    forall a, b :: leq(a, b) || leq(b, a)
  }

  ghost predicate Transitive<T(!new)>(leq: (T, T) -> bool) {
    forall a, b, c :: leq(a, b) && leq(b, c) ==> leq(a, c)
  }

  /** Every row is ranked no later than every row after it. */
  ghost predicate SortedBy<T>(s: seq<T>, leq: (T, T) -> bool) {
    forall i, j :: 0 <= i < j < |s| ==> leq(s[i], s[j])
  }

  /** Places `x` in front of the first row it may precede. */
  function InsertBy<T>(x: T, s: seq<T>, leq: (T, T) -> bool): seq<T> {
    if s == [] then [x]
    else if leq(x, s[0]) then [x] + s
    else [s[0]] + InsertBy(x, s[1..], leq)
  }

  function SortBy<T>(s: seq<T>, leq: (T, T) -> bool): seq<T> {
    if s == [] then [] else InsertBy(s[0], SortBy(s[1..], leq), leq)
  }

  lemma {:induction false} InsertByPermutes<T>(x: T, s: seq<T>, leq: (T, T) -> bool)
    ensures multiset(InsertBy(x, s, leq)) == multiset(s) + multiset{x}
  {
    if s != [] && !leq(x, s[0]) {
      InsertByPermutes(x, s[1..], leq);
      assert s == [s[0]] + s[1..];
    }
  }

  /** Sorting reorders the rows: nothing is lost, added or duplicated. */
  lemma {:induction false} SortByPermutes<T>(s: seq<T>, leq: (T, T) -> bool)
    ensures multiset(SortBy(s, leq)) == multiset(s)
    ensures |SortBy(s, leq)| == |s|
  {
    if s != [] {
      SortByPermutes(s[1..], leq);
      InsertByPermutes(s[0], SortBy(s[1..], leq), leq);
      assert s == [s[0]] + s[1..];
    }
    assert |multiset(SortBy(s, leq))| == |multiset(s)|;
  }

  /** A row ranked no later than `x` and than every row of `s` is ranked no
      later than every row of `InsertBy(x, s, leq)`. */
  lemma LowerBoundInsert<T>(y: T, x: T, s: seq<T>, leq: (T, T) -> bool)
    requires leq(y, x) && forall k :: 0 <= k < |s| ==> leq(y, s[k])
    ensures forall j :: 0 <= j < |InsertBy(x, s, leq)| ==> leq(y, InsertBy(x, s, leq)[j])
  {
    var tail := InsertBy(x, s, leq);
    InsertByPermutes(x, s, leq);
    forall j | 0 <= j < |tail| ensures leq(y, tail[j]) {
      assert tail[j] in multiset(tail);
      if tail[j] != x {
        assert tail[j] in multiset(s);
        assert tail[j] in s;
      }
    }
  }

  lemma {:induction false} InsertBySorted<T(!new)>(x: T, s: seq<T>, leq: (T, T) -> bool)
    requires Total(leq) && Transitive(leq) && SortedBy(s, leq)
    ensures SortedBy(InsertBy(x, s, leq), leq)
  {
    if s == [] {
    } else if leq(x, s[0]) {
      var r := [x] + s;
      forall i, j | 0 <= i < j < |r| ensures leq(r[i], r[j]) {
        if i == 0 && j > 1 {
          assert leq(s[0], s[j - 1]);
        }
      }
    } else {
      var t := s[1..];
      InsertBySorted(x, t, leq);
      assert leq(s[0], x);
      assert forall k :: 0 <= k < |t| ==> leq(s[0], t[k]) by {
        forall k | 0 <= k < |t| ensures leq(s[0], t[k]) { assert t[k] == s[k + 1]; }
      }
      LowerBoundInsert(s[0], x, t, leq);
      var tail := InsertBy(x, t, leq);
      var r := [s[0]] + tail;
      forall i, j | 0 <= i < j < |r| ensures leq(r[i], r[j]) {
        if i == 0 {
          assert r[j] == tail[j - 1];
        } else {
          assert r[i] == tail[i - 1] && r[j] == tail[j - 1];
        }
      }
    }
  }

  /** Sorting by a total preorder yields rows in that order. */
  lemma {:induction false} SortBySorted<T(!new)>(s: seq<T>, leq: (T, T) -> bool)
    requires Total(leq) && Transitive(leq)
    ensures SortedBy(SortBy(s, leq), leq)
  {
    if s != [] {
      SortBySorted(s[1..], leq);
      InsertBySorted(s[0], SortBy(s[1..], leq), leq);
    }
  }

  /** `LIMIT n`: the first n rows, or all of them when there are fewer. */
  function Take<T>(s: seq<T>, n: nat): (r: seq<T>)
    ensures |r| == if |s| < n then |s| else n
    ensures r <= s
    ensures multiset(r) <= multiset(s)
  {
    if |s| <= n then s
    else
      assert s == s[..n] + s[n..];
      s[..n]
  }

  /** The rows kept by `LIMIT n` rank no later than every row it drops. */
  lemma TakeRanksFirst<T>(s: seq<T>, n: nat, leq: (T, T) -> bool)
    requires SortedBy(s, leq)
    ensures forall x, y :: x in s && x !in Take(s, n) && y in Take(s, n) ==> leq(y, x)
  {
    var r := Take(s, n);
    forall x, y | x in s && x !in r && y in r ensures leq(y, x) {
      var j :| 0 <= j < |s| && s[j] == x;
      var i :| 0 <= i < |r| && r[i] == y;
      assert s[i] == y;
      assert j >= |r|;
    }
  }
}
