/** Order-preserving operations on sequences shared by several components. */
module Collections {

  predicate NoDuplicates<T(==)>(xs: seq<T>) {
    forall i, j :: 0 <= i < j < |xs| ==> xs[i] != xs[j]
  }

  /** `Array.from(new Set(xs))`: each value once, where it first occurs. */
  function Dedupe<T(==,!new)>(xs: seq<T>): (r: seq<T>)
    ensures forall x :: x in r <==> x in xs
    ensures NoDuplicates(r)
    ensures |r| <= |xs|
    decreases |xs|
  {
    if |xs| == 0 then []
    else
      var d := Dedupe(xs[..|xs| - 1]);
      var x := xs[|xs| - 1];
      assert forall y :: y in xs <==> y in xs[..|xs| - 1] || y == x;
      if x in d then d else d + [x]
  }

  /** Where a value first occurs. */
  function IndexOf<T(==)>(xs: seq<T>, x: T): (k: nat)
    requires x in xs
    ensures k < |xs| && xs[k] == x && forall j :: 0 <= j < k ==> xs[j] != x
  {
    if xs[0] == x then 0 else 1 + IndexOf(xs[1..], x)
  }

  lemma IndexOfInPrefix<T>(xs: seq<T>, n: nat, x: T)
    requires n <= |xs| && x in xs[..n]
    ensures x in xs && IndexOf(xs, x) == IndexOf(xs[..n], x)
  {
    var k := IndexOf(xs[..n], x);
    assert xs[k] == x;
    assert forall j :: 0 <= j < k ==> xs[j] == xs[..n][j];
  }

  /** The de-duplicated list keeps the order in which values first occur. */
  lemma {:induction false} DedupeKeepsFirstOccurrenceOrder<T(!new)>(xs: seq<T>, i: nat, j: nat)
    requires i < j < |Dedupe(xs)|
    ensures IndexOf(xs, Dedupe(xs)[i]) < IndexOf(xs, Dedupe(xs)[j])
    decreases |xs|
  {
    var n := |xs| - 1;
    var front := xs[..n];
    var d := Dedupe(front);
    var x := xs[n];
    assert d[i] in front;
    IndexOfInPrefix(xs, n, d[i]);
    if j < |d| {
      assert Dedupe(xs)[j] == d[j];
      IndexOfInPrefix(xs, n, d[j]);
      DedupeKeepsFirstOccurrenceOrder(front, i, j);
    } else {
      assert x !in front && Dedupe(xs)[j] == x;
      assert IndexOf(xs, x) == n;
    }
  }

  /** A list without repeats is its own de-duplication. */
  lemma {:induction false} DedupeOfDistinct<T(!new)>(xs: seq<T>)
    requires NoDuplicates(xs)
    ensures Dedupe(xs) == xs
    decreases |xs|
  {
    if |xs| > 0 {
      var n := |xs| - 1;
      assert NoDuplicates(xs[..n]);
      DedupeOfDistinct(xs[..n]);
      assert xs[n] !in xs[..n];
      assert xs[..n] + [xs[n]] == xs;
    }
  }

  /** The values of a sequence, as a set. */
  function Elements<T(!new)>(xs: seq<T>): (r: set<T>)
    ensures forall x :: x in r <==> x in xs
  {
    set x | x in xs
  }

  /** A sequence without repeats has as many elements as distinct values. */
  lemma {:induction false} DistinctCount<T(!new)>(xs: seq<T>)
    requires NoDuplicates(xs)
    ensures |Elements(xs)| == |xs|
    decreases |xs|
  {
    if |xs| > 0 {
      var n := |xs| - 1;
      assert NoDuplicates(xs[..n]);
      DistinctCount(xs[..n]);
      assert xs[n] !in xs[..n];
      assert Elements(xs) == Elements(xs[..n]) + {xs[n]};
    }
  }

  /** De-duplication keeps one entry per distinct value. */
  lemma DedupeCount<T(!new)>(xs: seq<T>)
    ensures |Dedupe(xs)| == |Elements(xs)|
  {
    DistinctCount(Dedupe(xs));
    assert Elements(Dedupe(xs)) == Elements(xs);
  }

  /** Collecting over a non-empty list: what the first element gives, then what the
      rest gives, is what the whole list gives. */
  lemma ConsMembers<T, U>(xs: seq<T>, head: seq<U>, rest: seq<U>, rel: (T, U) -> bool)
    requires |xs| > 0
    requires forall b :: b in head <==> rel(xs[0], b)
    requires forall b :: b in rest <==> exists x :: x in xs[1..] && rel(x, b)
    ensures forall b :: b in head + rest <==> exists x :: x in xs && rel(x, b)
  {
    forall b
      ensures b in head + rest <==> exists x :: x in xs && rel(x, b)
    {
      if b in rest {
        var x :| x in xs[1..] && rel(x, b);
        assert x in xs;
      } else if b in head {
        assert xs[0] in xs;
      }
      if exists x :: x in xs && rel(x, b) {
        var x :| x in xs && rel(x, b);
        var k :| 0 <= k < |xs| && xs[k] == x;
        if k > 0 {
          assert xs[1..][k - 1] == x;
        }
      }
    }
  }

  /** The positions, in increasing order, of the elements that `keep` holds of. */
  function IndicesWhere<T>(xs: seq<T>, keep: T -> bool): (idx: seq<nat>)
    ensures forall k :: 0 <= k < |idx| ==> idx[k] < |xs| && keep(xs[idx[k]])
    ensures forall k, m :: 0 <= k < m < |idx| ==> idx[k] < idx[m]
    ensures forall i :: 0 <= i < |xs| && keep(xs[i]) ==> i in idx
  {
    if |xs| == 0 then []
    else
      var n := |xs| - 1;
      var front := IndicesWhere(xs[..n], keep);
      assert forall i :: 0 <= i < n ==> xs[..n][i] == xs[i];
      front + (if keep(xs[n]) then [n] else [])
  }

  /** `[f(x) for x in xs if keep(x)]`: entry k comes from the k-th kept element, so every
      kept element has an entry of its own, in order. */
  function FilterMap<T, U>(xs: seq<T>, keep: T -> bool, f: T -> U): (r: seq<U>)
    ensures |r| <= |xs|
    ensures |r| == |IndicesWhere(xs, keep)|
    ensures forall k :: 0 <= k < |r| ==> r[k] == f(xs[IndicesWhere(xs, keep)[k]])
  {
    if |xs| == 0 then []
    else
      var n := |xs| - 1;
      var front := FilterMap(xs[..n], keep, f);
      assert IndicesWhere(xs, keep)[..|front|] == IndicesWhere(xs[..n], keep);
      assert forall k :: 0 <= k < |front| ==> IndicesWhere(xs, keep)[k] == IndicesWhere(xs[..n], keep)[k];
      front + (if keep(xs[n]) then [f(xs[n])] else [])
  }

  /** An entry of the filtered list is the image of a kept element, and every kept
      element's image is an entry. */
  lemma FilterMapMembers<T, U(!new)>(xs: seq<T>, keep: T -> bool, f: T -> U)
    ensures forall b :: b in FilterMap(xs, keep, f) <==> exists x :: x in xs && keep(x) && b == f(x)
  {
    forall b ensures b in FilterMap(xs, keep, f) <==> exists x :: x in xs && keep(x) && b == f(x) {
      FilterMapMember(xs, keep, f, b);
    }
  }

  lemma FilterMapMember<T, U>(xs: seq<T>, keep: T -> bool, f: T -> U, b: U)
    ensures b in FilterMap(xs, keep, f) <==> exists x :: x in xs && keep(x) && b == f(x)
  {
    var r := FilterMap(xs, keep, f);
    var idx := IndicesWhere(xs, keep);
    if b in r {
      var k := IndexOf(r, b);
      assert xs[idx[k]] in xs;
    }
    if exists x :: x in xs && keep(x) && b == f(x) {
      var x :| x in xs && keep(x) && b == f(x);
      var i := IndexOf(xs, x);
      var k := IndexOf(idx, i);
      assert r[k] == b;
    }
  }

  /** Filtering two lists one after the other is filtering their concatenation. */
  lemma {:induction false} FilterMapAppend<T, U>(a: seq<T>, b: seq<T>, keep: T -> bool, f: T -> U)
    ensures FilterMap(a + b, keep, f) == FilterMap(a, keep, f) + FilterMap(b, keep, f)
  {
    if |b| == 0 {
      assert a + b == a;
    } else {
      var n := |b| - 1;
      assert (a + b)[..|a + b| - 1] == a + b[..n];
      assert (a + b)[|a + b| - 1] == b[n];
      FilterMapAppend(a, b[..n], keep, f);
    }
  }
}
