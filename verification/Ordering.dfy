/** Byte-wise order of strings, and stable sorting by a string key. */
module Ordering {
  import opened Common

  /** The order of Rust strings: byte by byte, a prefix first. */
  predicate Less(a: Bytes, b: Bytes) {
    if b == [] then false
    else if a == [] then true
    else a[0] < b[0] || (a[0] == b[0] && Less(a[1..], b[1..]))
  }

  lemma {:induction false} LessTransitive(a: Bytes, b: Bytes, c: Bytes)
    requires Less(a, b) && Less(b, c)
    ensures Less(a, c)
  {
    if a != [] && a[0] == b[0] && b[0] == c[0] {
      LessTransitive(a[1..], b[1..], c[1..]);
    }
  }

  lemma {:induction false} LessTotal(a: Bytes, b: Bytes)
    ensures Less(a, b) || a == b || Less(b, a)
    ensures !(Less(a, b) && Less(b, a)) && !Less(a, a)
  {
    if a != [] && b != [] {
      LessTotal(a[1..], b[1..]);
      assert a == [a[0]] + a[1..] && b == [b[0]] + b[1..];
    }
    if a == [] {
    } else {
      LessTotal(a[1..], a[1..]);
    }
  }

  lemma NotLessTransitive(a: Bytes, b: Bytes, c: Bytes)
    requires !Less(b, a) && !Less(c, b)
    ensures !Less(c, a)
  {
    LessTotal(a, b);
    LessTotal(b, c);
    if Less(c, a) {
      if Less(a, b) {
        LessTransitive(c, a, b);
      }
    }
  }

  ghost predicate SortedBy<T>(key: T -> Bytes, xs: seq<T>) {
    forall i, j :: 0 <= i < j < |xs| ==> !Less(key(xs[j]), key(xs[i]))
  }

  function InsertBy<T>(key: T -> Bytes, xs: seq<T>, x: T): (r: seq<T>)
    ensures multiset(r) == multiset(xs) + multiset{x}
  {
    if xs == [] then [x]
    else
      var n := |xs| - 1;
      assert xs == xs[..n] + [xs[n]];
      if Less(key(x), key(xs[n])) then InsertBy(key, xs[..n], x) + [xs[n]] else xs + [x]
  }

  /** `sort_by` on a string key: stable, so equal keys stay in their order. */
  function SortBy<T>(key: T -> Bytes, xs: seq<T>): (r: seq<T>)
    ensures multiset(r) == multiset(xs)
  {
    if xs == [] then []
    else
      assert xs == xs[..|xs| - 1] + [xs[|xs| - 1]];
      InsertBy(key, SortBy(key, xs[..|xs| - 1]), xs[|xs| - 1])
  }

  lemma Members<T>(a: seq<T>, b: seq<T>)
    requires multiset(a) == multiset(b)
    ensures forall x :: x in a <==> x in b
  {
    forall x ensures x in a <==> x in b {
      assert x in a <==> x in multiset(a);
      assert x in b <==> x in multiset(b);
    }
  }

  lemma {:induction false} InsertBySorted<T>(key: T -> Bytes, xs: seq<T>, x: T)
    requires SortedBy(key, xs)
    ensures SortedBy(key, InsertBy(key, xs, x))
  {
    if xs == [] {
    } else {
      var n := |xs| - 1;
      var last := key(xs[n]);
      if Less(key(x), last) {
        InsertBySorted(key, xs[..n], x);
        var front := InsertBy(key, xs[..n], x);
        forall i | 0 <= i < |front| ensures !Less(last, key(front[i])) {
          assert front[i] in multiset(front);
          assert front[i] == x || front[i] in xs[..n];
          LessTotal(key(x), last);
        }
      } else {
        forall i | 0 <= i < |xs| ensures !Less(key(x), key(xs[i])) {
          LessTotal(last, last);
          NotLessTransitive(key(xs[i]), last, key(x));
        }
      }
    }
  }

  lemma {:induction false} SortBySorted<T>(key: T -> Bytes, xs: seq<T>)
    ensures SortedBy(key, SortBy(key, xs))
  {
    if xs == [] {
    } else {
      SortBySorted(key, xs[..|xs| - 1]);
      InsertBySorted(key, SortBy(key, xs[..|xs| - 1]), xs[|xs| - 1]);
    }
  }

  ghost predicate DistinctKeys<T>(key: T -> Bytes, xs: seq<T>) {
    forall i, j :: 0 <= i < j < |xs| ==> key(xs[i]) != key(xs[j])
  }

  lemma TailMembers<T>(key: T -> Bytes, a: seq<T>, b: seq<T>)
    requires a != [] && b != [] && a[0] == b[0] && DistinctKeys(key, a) && DistinctKeys(key, b)
    requires forall x :: x in a <==> x in b
    ensures forall x :: x in a[1..] <==> x in b[1..]
  {
    assert forall k :: 0 < k < |a| ==> a[k] != a[0];
    assert forall k :: 0 < k < |b| ==> b[k] != b[0];
    forall x ensures x in a[1..] <==> x in b[1..] {
      assert x in a <==> x == a[0] || x in a[1..];
      assert x in b <==> x == b[0] || x in b[1..];
    }
  }

  /** Things with distinct keys have one sorted order. */
  lemma {:induction false} OneSortedOrder<T>(key: T -> Bytes, a: seq<T>, b: seq<T>)
    requires SortedBy(key, a) && SortedBy(key, b) && DistinctKeys(key, a) && DistinctKeys(key, b)
    requires forall x :: x in a <==> x in b
    ensures a == b
  {
    assert forall i :: 0 <= i < |a| ==> a[i] in b;
    assert forall i :: 0 <= i < |b| ==> b[i] in a;
    if a == [] {
    } else {
      var i :| 0 <= i < |b| && b[i] == a[0];
      var j :| 0 <= j < |a| && a[j] == b[0];
      LessTotal(key(a[0]), key(b[0]));
      assert a[0] == b[0];
      TailMembers(key, a, b);
      OneSortedOrder(key, a[1..], b[1..]);
    }
  }

  lemma InsertByKeys<T>(key: T -> Bytes, xs: seq<T>, x: T, k: Bytes)
    requires key(x) != k && forall y :: y in xs ==> key(y) != k
    ensures forall y :: y in InsertBy(key, xs, x) ==> key(y) != k
  {
    var r := InsertBy(key, xs, x);
    forall y | y in r ensures key(y) != k {
      assert y in multiset(r);
      assert y == x || y in xs;
    }
  }

  lemma {:induction false} InsertByDistinct<T>(key: T -> Bytes, xs: seq<T>, x: T)
    requires DistinctKeys(key, xs) && forall y :: y in xs ==> key(y) != key(x)
    ensures DistinctKeys(key, InsertBy(key, xs, x))
  {
    hide Less;
    if xs != [] && Less(key(x), key(xs[|xs| - 1])) {
      var front, last := xs[..|xs| - 1], xs[|xs| - 1];
      forall y | y in front ensures y in xs && key(y) != key(last) {
        var i :| 0 <= i < |front| && front[i] == y;
        assert xs[i] == y;
      }
      assert last in xs;
      InsertByDistinct(key, front, x);
      InsertByKeys(key, front, x, key(last));
      var r := InsertBy(key, front, x);
      assert forall i :: 0 <= i < |r| ==> r[i] in r;
    }
  }

  lemma {:induction false} SortByDistinct<T>(key: T -> Bytes, xs: seq<T>)
    requires DistinctKeys(key, xs)
    ensures DistinctKeys(key, SortBy(key, xs))
  {
    hide Less, InsertBy;
    if xs == [] {
    } else {
      var front, last := xs[..|xs| - 1], xs[|xs| - 1];
      var sorted := SortBy(key, front);
      SortByDistinct(key, front);
      forall y | y in sorted ensures key(y) != key(last) {
        assert y in multiset(sorted);
        assert y in multiset(front);
        var i :| 0 <= i < |front| && front[i] == y;
        assert xs[i] == y;
      }
      InsertByDistinct(key, sorted, last);
    }
  }
}
