/**
 * The two shapes the read-side queries are built from: a filter over the
 * documents in storage order, and the ascending `startTime` sort that
 * `.sort({ startTime: 1 })` asks the database for.
 */
module Listing {
  import opened Models

  /** No element occurs twice. */
  predicate Distinct<T(==)>(xs: seq<T>) {
    forall i, j :: 0 <= i < j < |xs| ==> xs[i] != xs[j]
  }

  /** The elements of `xs` that satisfy `keep`, in their original order. */
  function Filter<T(==)>(xs: seq<T>, keep: T -> bool): (r: seq<T>)
    ensures forall i :: 0 <= i < |r| ==> r[i] in xs && keep(r[i])
    ensures forall i :: 0 <= i < |xs| && keep(xs[i]) ==> xs[i] in r
    ensures Distinct(xs) ==> Distinct(r)
  {
    if xs == [] then []
    else if keep(xs[0]) then [xs[0]] + Filter(xs[1..], keep)
    else Filter(xs[1..], keep)
  }

  /** Membership in a filtered sequence. */
  lemma FilterMembers<T>(xs: seq<T>, keep: T -> bool)
    ensures forall x :: x in Filter(xs, keep) <==> x in xs && keep(x)
  {
    var r := Filter(xs, keep);
    forall x ensures x in r <==> x in xs && keep(x) {
      if x in r {
        var i :| 0 <= i < |r| && r[i] == x;
      }
      if x in xs && keep(x) {
        var i :| 0 <= i < |xs| && xs[i] == x;
      }
    }
  }

  /** Ascending by start time; ties in any order. */
  predicate SortedByStart(s: seq<EventDoc>) {
    forall i, j :: 0 <= i < j < |s| ==> s[i].1.startTime <= s[j].1.startTime
  }

  /** Puts `x` into `s` in front of the first slot that does not start earlier. */
  function Insert(x: EventDoc, s: seq<EventDoc>): (r: seq<EventDoc>)
    ensures multiset(r) == multiset(s) + multiset{x}
  {
    if s == [] || x.1.startTime <= s[0].1.startTime then
      [x] + s
    else
      assert s == [s[0]] + s[1..];
      [s[0]] + Insert(x, s[1..])
  }

  /** Inserting into a sorted sequence keeps it sorted. */
  lemma {:induction false} InsertSorted(x: EventDoc, s: seq<EventDoc>)
    requires SortedByStart(s)
    ensures SortedByStart(Insert(x, s))
  {
    if s == [] || x.1.startTime <= s[0].1.startTime {
      PrependSorted(x, s);
    } else {
      var rest := Insert(x, s[1..]);
      InsertSorted(x, s[1..]);
      forall y | y in rest ensures s[0].1.startTime <= y.1.startTime {
        assert y in multiset(rest);
        if y != x {
          var k :| 0 <= k < |s[1..]| && s[1..][k] == y;
          assert s[k + 1] == y;
        }
      }
      PrependSorted(s[0], rest);
    }
  }

  /** Prepending an element no later than every element keeps the order. */
  lemma PrependSorted(y: EventDoc, s: seq<EventDoc>)
    requires SortedByStart(s)
    requires forall z :: z in s ==> y.1.startTime <= z.1.startTime
    ensures SortedByStart([y] + s)
  {
    var r := [y] + s;
    forall i, j | 0 <= i < j < |r| ensures r[i].1.startTime <= r[j].1.startTime {
      assert r[j] == s[j - 1];
      if i > 0 {
        assert r[i] == s[i - 1];
      }
    }
  }

  /** Prepending an element that does not occur keeps the elements distinct. */
  lemma PrependDistinct<T>(y: T, s: seq<T>)
    requires Distinct(s) && y !in s
    ensures Distinct([y] + s)
  {
    var r := [y] + s;
    forall i, j | 0 <= i < j < |r| ensures r[i] != r[j] {
      assert r[j] == s[j - 1];
      if i > 0 {
        assert r[i] == s[i - 1];
      }
    }
  }

  /** Appending an element that does not occur keeps the elements distinct. */
  lemma AppendDistinct<T>(s: seq<T>, y: T)
    requires Distinct(s) && y !in s
    ensures Distinct(s + [y])
  {
  }

  /** Inserting a new element into a sequence without repeats adds none. */
  lemma {:induction false} InsertDistinct(x: EventDoc, s: seq<EventDoc>)
    requires Distinct(s) && x !in s
    ensures Distinct(Insert(x, s))
  {
    if s == [] || x.1.startTime <= s[0].1.startTime {
      PrependDistinct(x, s);
    } else {
      assert s == [s[0]] + s[1..];
      var rest := Insert(x, s[1..]);
      InsertDistinct(x, s[1..]);
      assert s[0] !in multiset(rest);
      PrependDistinct(s[0], rest);
    }
  }

  /** Insertion sort by start time: a sorted permutation of its input. */
  function SortByStart(s: seq<EventDoc>): (r: seq<EventDoc>)
    ensures SortedByStart(r)
    ensures multiset(r) == multiset(s)
    ensures Distinct(s) ==> Distinct(r)
  {
    if s == [] then []
    else
      var tail := SortByStart(s[1..]);
      assert s == [s[0]] + s[1..];
      InsertSorted(s[0], tail);
      assert Distinct(s) ==> Distinct(Insert(s[0], tail)) by {
        if Distinct(s) {
          assert s[0] !in multiset(s[1..]);
          InsertDistinct(s[0], tail);
        }
      }
      Insert(s[0], tail)
  }

  /** Sorting keeps exactly the same elements. */
  lemma {:induction false} SortKeepsElements(s: seq<EventDoc>)
    ensures forall x :: x in SortByStart(s) <==> x in s
  {
    var r := SortByStart(s);
    forall x ensures x in r <==> x in s {
      calc {
        x in r;
        x in multiset(r);
        x in multiset(s);
        x in s;
      }
    }
  }
}
