/**
 Generic sequence helpers. Every table of the club is a sequence of rows, and
 the handlers only ever append a row, keep the rows a mask selects, drop one
 row by position, or read one column out of a table. This module gives those
 four shapes once, together with the facts the rest of the model needs about
 them, and the notion of a column holding no value twice.
 */
module Seqs {

  datatype Option<T> = None | Some(value: T)

  /** No value occurs at two different positions of `s`. */
  predicate Distinct<T(==)>(s: seq<T>) {
    forall i, j | 0 <= i < |s| && 0 <= j < |s| && i != j :: s[i] != s[j]
  }

  /** `m` lists increasing positions of `s` whose rows, read in that order, are `r`. */
  ghost predicate PicksInOrder<T>(m: seq<nat>, r: seq<T>, s: seq<T>) {
    && |m| == |r|
    && (forall k | 0 <= k < |m| :: m[k] < |s| && r[k] == s[m[k]])
    && (forall k, l | 0 <= k < l < |m| :: m[k] < m[l])
  }

  /** `r` is `s` with some rows left out and the others kept in their original order. */
  ghost predicate Subsequence<T>(r: seq<T>, s: seq<T>) {
    exists m :: PicksInOrder(m, r, s)
  }

  /** Keeping rows in order rules out reordering them: two rows swapped are a
      subsequence of the table only when they are the same row. */
  lemma SwappedIsNotSubsequence<T>(a: T, b: T)
    ensures Subsequence([b, a], [a, b]) ==> a == b
  {
    forall m | PicksInOrder(m, [b, a], [a, b])
      ensures a == b
    {
      assert m[0] < m[1];
    }
  }

  /** The rows of `s` that `keep` selects, in their original order
      (a boolean-mask selection of a table). */
  function Filter<T(!new)>(s: seq<T>, keep: T -> bool): (r: seq<T>)
    ensures |r| <= |s|
    ensures forall x {:trigger x in r} :: x in r <==> x in s && keep(x)
    ensures forall x {:trigger multiset(r)[x]} :: multiset(r)[x] == if keep(x) then multiset(s)[x] else 0
  {
    if |s| == 0 then []
    else
      assert s == [s[0]] + s[1..];
      (if keep(s[0]) then [s[0]] else []) + Filter(s[1..], keep)
  }

  lemma {:induction false} FilterConcat<T(!new)>(a: seq<T>, b: seq<T>, keep: T -> bool)
    ensures Filter(a + b, keep) == Filter(a, keep) + Filter(b, keep)
  {
    if |a| > 0 {
      var head := if keep(a[0]) then [a[0]] else [];
      assert (a + b)[0] == a[0];
      assert (a + b)[1..] == a[1..] + b;
      assert Filter(a + b, keep) == head + Filter(a[1..] + b, keep);
      FilterConcat(a[1..], b, keep);
      assert Filter(a, keep) == head + Filter(a[1..], keep);
    } else {
      assert a + b == b;
    }
  }

  /** A selection keeps the rows it selects in the order the table had them. */
  lemma {:induction false} FilterSubsequence<T(!new)>(s: seq<T>, keep: T -> bool)
    ensures Subsequence(Filter(s, keep), s)
  {
    if |s| == 0 {
      assert PicksInOrder([], Filter(s, keep), s);
    } else {
      var t := Filter(s[1..], keep);
      FilterSubsequence(s[1..], keep);
      var m :| PicksInOrder(m, t, s[1..]);
      PicksBehindHead(m, t, s);
      if keep(s[0]) {
        assert Filter(s, keep) == [s[0]] + t;
        PicksWithHead(m, t, s);
      } else {
        assert Filter(s, keep) == t;
      }
    }
  }

  /** Positions `m` into the rest of `s`, moved one row down. */
  function ShiftPicks(m: seq<nat>): (r: seq<nat>)
    ensures |r| == |m| && forall k | 0 <= k < |m| :: r[k] == m[k] + 1
  {
    seq(|m|, k requires 0 <= k < |m| => m[k] + 1)
  }

  lemma PicksBehindHead<T>(m: seq<nat>, t: seq<T>, s: seq<T>)
    requires |s| > 0 && PicksInOrder(m, t, s[1..])
    ensures PicksInOrder(ShiftPicks(m), t, s)
  {
    forall k | 0 <= k < |m|
      ensures t[k] == s[ShiftPicks(m)[k]]
    {
      assert s[1..][m[k]] == s[m[k] + 1];
    }
  }

  lemma PicksWithHead<T>(m: seq<nat>, t: seq<T>, s: seq<T>)
    requires |s| > 0 && PicksInOrder(ShiftPicks(m), t, s)
    ensures PicksInOrder([0] + ShiftPicks(m), [s[0]] + t, s)
  {
    var n := [0] + ShiftPicks(m);
    forall k | 0 < k < |n|
      ensures ([s[0]] + t)[k] == s[n[k]]
    {
      assert ([s[0]] + t)[k] == t[k - 1];
    }
  }

  /** A selection that every row passes keeps the table as it is. */
  lemma {:induction false} FilterKeepsAll<T(!new)>(s: seq<T>, keep: T -> bool)
    requires forall x | x in s :: keep(x)
    ensures Filter(s, keep) == s
  {
    if |s| > 0 {
      FilterKeepsAll(s[1..], keep);
    }
  }

  /** A selection that no row passes yields the empty table. */
  lemma {:induction false} FilterKeepsNone<T(!new)>(s: seq<T>, keep: T -> bool)
    requires forall x | x in s :: !keep(x)
    ensures Filter(s, keep) == []
  {
    if |s| > 0 {
      FilterKeepsNone(s[1..], keep);
    }
  }

  /** One column of a table: `f` applied to every row, in order. */
  function Map<T, U>(s: seq<T>, f: T -> U): (r: seq<U>)
    ensures |r| == |s|
    ensures forall i :: 0 <= i < |s| ==> r[i] == f(s[i])
  {
    seq(|s|, i requires 0 <= i < |s| => f(s[i]))
  }

  /** The table `s` without its row at position `i` (a drop followed by an index reset). */
  function RemoveAt<T>(s: seq<T>, i: nat): (r: seq<T>)
    requires i < |s|
    ensures |r| == |s| - 1
    ensures multiset(r) + multiset{s[i]} == multiset(s)
    ensures forall k :: 0 <= k < i ==> r[k] == s[k]
    ensures forall k :: i <= k < |r| ==> r[k] == s[k + 1]
  {
    assert s == s[..i] + [s[i]] + s[i + 1..];
    s[..i] + s[i + 1..]
  }

  /** Reading a column commutes with dropping a row. */
  lemma MapRemoveAt<T, U>(s: seq<T>, i: nat, f: T -> U)
    requires i < |s|
    ensures Map(RemoveAt(s, i), f) == RemoveAt(Map(s, f), i)
  {
    assert |Map(RemoveAt(s, i), f)| == |RemoveAt(Map(s, f), i)|;
  }

  lemma MapConcat<T, U>(a: seq<T>, b: seq<T>, f: T -> U)
    ensures Map(a + b, f) == Map(a, f) + Map(b, f)
  {
    assert |Map(a + b, f)| == |Map(a, f) + Map(b, f)|;
    forall k | 0 <= k < |a + b|
      ensures Map(a + b, f)[k] == (Map(a, f) + Map(b, f))[k]
    {
      if k < |a| {
        assert (a + b)[k] == a[k];
      } else {
        assert (a + b)[k] == b[k - |a|];
      }
    }
  }

  /** Reading a column after a selection never shows a value more often than
      reading it from the whole table. */
  lemma {:induction false} MapFilterSubMultiset<T(!new), U>(s: seq<T>, keep: T -> bool, f: T -> U)
    ensures multiset(Map(Filter(s, keep), f)) <= multiset(Map(s, f))
  {
    if |s| > 0 {
      var head := if keep(s[0]) then [s[0]] else [];
      assert Filter(s, keep) == head + Filter(s[1..], keep);
      MapConcat(head, Filter(s[1..], keep), f);
      assert s == [s[0]] + s[1..];
      MapConcat([s[0]], s[1..], f);
      MapFilterSubMultiset(s[1..], keep, f);
    }
  }

  /** Appending a value not yet present keeps a sequence free of repeats. */
  lemma DistinctAppend<T>(s: seq<T>, x: T)
    requires Distinct(s) && x !in s
    ensures Distinct(s + [x])
  {
    var t := s + [x];
    forall i, j | 0 <= i < |t| && 0 <= j < |t| && i != j
      ensures t[i] != t[j]
    {
      if i < |s| && j < |s| {
        assert t[i] == s[i] && t[j] == s[j];
      } else if i < |s| {
        assert t[i] == s[i] && t[j] == x;
      } else {
        assert t[j] == s[j] && t[i] == x;
      }
    }
  }

  /** Counting a value in a sequence, one last element at a time. */
  lemma CountLast<T>(s: seq<T>, x: T)
    requires |s| > 0
    ensures multiset(s)[x] == multiset(s[..|s| - 1])[x] + (if s[|s| - 1] == x then 1 else 0)
  {
    assert s == s[..|s| - 1] + [s[|s| - 1]];
  }

  /** A value that occurs at two positions is counted at least twice. */
  lemma CountsOfRepeat<T>(s: seq<T>, i: nat, j: nat)
    requires i < j < |s| && s[i] == s[j]
    ensures multiset(s)[s[i]] >= 2
  {
    assert s == s[..i] + [s[i]] + s[i + 1..j] + [s[j]] + s[j + 1..];
  }

  /** Distinctness is the same as every value being counted at most once. */
  lemma {:induction false} DistinctIffSingleCounts<T>(s: seq<T>)
    ensures Distinct(s) <==> forall x :: multiset(s)[x] <= 1
  {
    if |s| == 0 {
      return;
    }
    var t := s[..|s| - 1];
    var y := s[|s| - 1];
    assert s == t + [y];
    if Distinct(s) {
      assert Distinct(t) by {
        forall i, j | 0 <= i < |t| && 0 <= j < |t| && i != j
          ensures t[i] != t[j]
        {
          assert t[i] == s[i] && t[j] == s[j];
        }
      }
      DistinctIffSingleCounts(t);
      assert y !in t;
      forall x
        ensures multiset(s)[x] <= 1
      {
        assert multiset(s)[x] == multiset(t)[x] + (if x == y then 1 else 0);
      }
    }
    if forall x :: multiset(s)[x] <= 1 {
      forall i, j | 0 <= i < |s| && 0 <= j < |s| && i != j
        ensures s[i] != s[j]
      {
        if s[i] == s[j] {
          if i < j {
            CountsOfRepeat(s, i, j);
          } else {
            CountsOfRepeat(s, j, i);
          }
        }
      }
    }
  }

  /** Removing rows (or reordering them) cannot create a repeat. */
  lemma DistinctSubMultiset<T>(s: seq<T>, t: seq<T>)
    requires Distinct(s) && multiset(t) <= multiset(s)
    ensures Distinct(t)
  {
    DistinctIffSingleCounts(s);
    DistinctIffSingleCounts(t);
    forall x
      ensures multiset(t)[x] <= 1
    {
      assert multiset(t)[x] <= multiset(s)[x];
    }
  }

  /** A sequence without repeats has as many different values as positions. */
  lemma {:induction false} DistinctCardinality<T>(s: seq<T>)
    requires Distinct(s)
    ensures |set x | x in s| == |s|
  {
    if |s| > 0 {
      var t := s[1..];
      assert Distinct(t) by {
        forall i, j | 0 <= i < |t| && 0 <= j < |t| && i != j
          ensures t[i] != t[j]
        {
          assert t[i] == s[i + 1] && t[j] == s[j + 1];
        }
      }
      DistinctCardinality(t);
      assert s[0] !in t;
      assert (set x | x in s) == (set x | x in t) + {s[0]} by {
        assert s == [s[0]] + t;
      }
    }
  }
}
