/**
 * The query building blocks the views use on a table held as a sequence of
 * rows: the SQL `filter`, `count` and `order_by(... desc)`.
 */
module Seqs {
  /** `q.filter(keep)`: the elements that pass, in their original order. */
  function Filter<T(!new)>(s: seq<T>, keep: T -> bool): (r: seq<T>)
    ensures |r| <= |s|
    ensures forall x :: x in r <==> x in s && keep(x)
    ensures forall x :: multiset(r)[x] == if keep(x) then multiset(s)[x] else 0
  {
    if s == [] then []
    else
      var rest := Filter(s[1..], keep);
      assert s == [s[0]] + s[1..];
      if keep(s[0]) then [s[0]] + rest else rest
  }

  /** A filter that every element passes keeps the whole sequence. */
  lemma {:induction false} FilterKeepsAll<T(!new)>(s: seq<T>, keep: T -> bool)
    requires forall k :: 0 <= k < |s| ==> keep(s[k])
    ensures Filter(s, keep) == s
  {
    if s != [] {
      assert forall k :: 0 <= k < |s| - 1 ==> s[1..][k] == s[k + 1];
      FilterKeepsAll(s[1..], keep);
      assert s == [s[0]] + s[1..];
    }
  }

  /** `q.filter(keep).count()`: how many elements pass, never more than there are. */
  function Count<T>(s: seq<T>, keep: T -> bool): (n: nat)
    ensures n <= |s|
  {
    if s == [] then 0 else (if keep(s[0]) then 1 else 0) + Count(s[1..], keep)
  }

  /** The count is zero exactly when no element passes. */
  lemma {:induction false} CountZero<T>(s: seq<T>, keep: T -> bool)
    ensures Count(s, keep) == 0 <==> forall k :: 0 <= k < |s| ==> !keep(s[k])
  {
    if s != [] {
      CountZero(s[1..], keep);
      assert forall k :: 0 <= k < |s| - 1 ==> s[1..][k] == s[k + 1];
    }
  }

  /** Counting is the length of the filtered sequence. */
  lemma {:induction false} CountIsFilterLength<T(!new)>(s: seq<T>, keep: T -> bool)
    ensures Count(s, keep) == |Filter(s, keep)|
  {
    if s != [] { CountIsFilterLength(s[1..], keep); }
  }

  /** A narrower filter counts no more. */
  lemma {:induction false} CountMonotonic<T>(s: seq<T>, narrow: T -> bool, wide: T -> bool)
    requires forall x :: narrow(x) ==> wide(x)
    ensures Count(s, narrow) <= Count(s, wide)
  {
    if s != [] { CountMonotonic(s[1..], narrow, wide); }
  }

  /** Ordered by `key`, largest first (`order_by(key.desc())`). */
  ghost predicate SortedDescBy<T>(s: seq<T>, key: T -> int) {
    forall i, j :: 0 <= i < j < |s| ==> key(s[i]) >= key(s[j])
  }

  /** A key no smaller than all of a descending sequence can go in front of it. */
  lemma SortedDescCons<T>(y: T, s: seq<T>, key: T -> int)
    requires SortedDescBy(s, key)
    requires forall k :: 0 <= k < |s| ==> key(s[k]) <= key(y)
    ensures SortedDescBy([y] + s, key)
  {
    var r := [y] + s;
    forall i, j | 0 <= i < j < |r| ensures key(r[i]) >= key(r[j]) {
      assert r[j] == s[j - 1];
      if i > 0 { assert r[i] == s[i - 1]; }
    }
  }

  /** Places `x` into the descending sequence `s`, ahead of the elements with an equal key. */
  function InsertDescBy<T(!new)>(x: T, s: seq<T>, key: T -> int): (r: seq<T>)
    requires SortedDescBy(s, key)
    ensures SortedDescBy(r, key)
    ensures multiset(r) == multiset(s) + multiset{x}
  {
    if s == [] then [x]
    else if key(x) >= key(s[0]) then
      SortedDescCons(x, s, key);
      [x] + s
    else
      var rest := InsertDescBy(x, s[1..], key);
      assert s == [s[0]] + s[1..];
      assert forall k :: 0 <= k < |rest| ==> key(rest[k]) <= key(s[0]) by {
        forall k | 0 <= k < |rest| ensures key(rest[k]) <= key(s[0]) {
          assert rest[k] in multiset(rest);
          assert rest[k] == x || rest[k] in s[1..];
        }
      }
      SortedDescCons(s[0], rest, key);
      [s[0]] + rest
  }

  /**
   * The ordering step of a query: a permutation of `s` that is descending by
   * `key`. SQL leaves the relative order of equal keys open; this one keeps
   * them in input order.
   */
  function SortDescBy<T(!new)>(s: seq<T>, key: T -> int): (r: seq<T>)
    ensures SortedDescBy(r, key)
    ensures multiset(r) == multiset(s)
  {
    if s == [] then []
    else
      assert s == [s[0]] + s[1..];
      InsertDescBy(s[0], SortDescBy(s[1..], key), key)
  }
}
