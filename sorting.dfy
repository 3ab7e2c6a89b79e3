/**
  Sorting a table by a key order, as `DataFrame.sort_values` does.
  The order is given as a total preorder `leq`; ties keep their input order
  (an insertion sort), which is one of the orders pandas may produce.
 */
module Sorting {

  /** `leq` is total and transitive: a total preorder. */
  ghost predicate TotalPreorder<T(!new)>(leq: (T, T) -> bool)
  {
    (forall a, b :: leq(a, b) || leq(b, a)) &&
    (forall a, b, c :: leq(a, b) && leq(b, c) ==> leq(a, c))
  }

  /** Every earlier element is `leq` every later one. */
  ghost predicate Sorted<T>(s: seq<T>, leq: (T, T) -> bool)
  {
    forall i, j :: 0 <= i < j < |s| ==> leq(s[i], s[j])
  }

  /** Two elements of `s` that are `leq` each other are the same element (no ties). */
  ghost predicate NoTies<T>(s: seq<T>, leq: (T, T) -> bool)
  {
    forall p, q :: p in s && q in s && leq(p, q) && leq(q, p) ==> p == q
  }

  function Insert<T>(x: T, s: seq<T>, leq: (T, T) -> bool): (r: seq<T>)
    ensures multiset(r) == multiset(s) + multiset{x}
  {
    if s == [] then [x]
    else if leq(x, s[0]) then [x] + s
    else
      assert s == [s[0]] + s[1..];
      [s[0]] + Insert(x, s[1..], leq)
  }

  /** The rows of `s` reordered by `leq`. */
  function SortBy<T>(s: seq<T>, leq: (T, T) -> bool): (r: seq<T>)
    ensures multiset(r) == multiset(s)
  {
    if s == [] then []
    else
      assert s == [s[0]] + s[1..];
      Insert(s[0], SortBy(s[1..], leq), leq)
  }

  lemma {:induction false} InsertSorted<T(!new)>(x: T, s: seq<T>, leq: (T, T) -> bool)
    requires TotalPreorder(leq)
    requires Sorted(s, leq)
    ensures Sorted(Insert(x, s, leq), leq)
  {
    if s == [] {
    } else if leq(x, s[0]) {
      var r := [x] + s;
      forall i, j | 0 <= i < j < |r| ensures leq(r[i], r[j]) {
        if i == 0 && j > 1 {
          assert leq(s[0], s[j - 1]);
        }
      }
    } else {
      assert leq(s[0], x);
      var tail := Insert(x, s[1..], leq);
      SortedTail(s, leq);
      InsertSorted(x, s[1..], leq);
      var r := [s[0]] + tail;
      forall j | 0 <= j < |tail| ensures leq(s[0], tail[j]) {
        assert tail[j] in multiset(tail);
        assert tail[j] == x || tail[j] in multiset(s[1..]);
        if tail[j] != x {
          var k :| 0 <= k < |s[1..]| && s[1..][k] == tail[j];
          assert leq(s[0], s[k + 1]);
        }
      }
      forall i, j | 0 <= i < j < |r| ensures leq(r[i], r[j]) {
        if i == 0 {
          assert r[j] == tail[j - 1];
        } else {
          assert r[i] == tail[i - 1] && r[j] == tail[j - 1];
        }
      }
    }
  }

  /** Under a total preorder the result is sorted. */
  lemma {:induction false} SortBySorted<T(!new)>(s: seq<T>, leq: (T, T) -> bool)
    requires TotalPreorder(leq)
    ensures Sorted(SortBy(s, leq), leq)
  {
    if s != [] {
      SortBySorted(s[1..], leq);
      InsertSorted(s[0], SortBy(s[1..], leq), leq);
    }
  }

  lemma SortedTail<T>(s: seq<T>, leq: (T, T) -> bool)
    requires s != [] && Sorted(s, leq)
    ensures Sorted(s[1..], leq)
  {
    forall a, b | 0 <= a < b < |s[1..]| ensures leq(s[1..][a], s[1..][b]) {
      assert s[1..][a] == s[a + 1] && s[1..][b] == s[b + 1];
    }
  }

  lemma TailMultiset<T>(x: seq<T>, y: seq<T>)
    requires x != [] && y != [] && x[0] == y[0]
    requires multiset(x) == multiset(y)
    ensures multiset(x[1..]) == multiset(y[1..])
  {
    assert x == [x[0]] + x[1..] && y == [y[0]] + y[1..];
    assert multiset(x) == multiset{x[0]} + multiset(x[1..]);
    assert multiset(y) == multiset{y[0]} + multiset(y[1..]);
    assert multiset(x[1..]) == multiset(x) - multiset{x[0]};
    assert multiset(y[1..]) == multiset(y) - multiset{y[0]};
  }

  /** The first rows of two sorted arrangements of the same rows agree when no two rows tie. */
  lemma SortedHeads<T>(x: seq<T>, y: seq<T>, leq: (T, T) -> bool)
    requires x != [] && Sorted(x, leq) && Sorted(y, leq)
    requires multiset(x) == multiset(y)
    requires NoTies(x, leq)
    ensures y != [] && x[0] == y[0]
  {
    assert |y| == |multiset(y)| == |multiset(x)| == |x|;
    assert x[0] in multiset(y) && y[0] in multiset(x);
    var i :| 0 <= i < |y| && y[i] == x[0];
    var j :| 0 <= j < |x| && x[j] == y[0];
    if i > 0 && j > 0 {
      assert leq(y[0], y[i]) && leq(x[0], x[j]);
      assert y[0] in x;
    }
  }

  /**
    Two sorted arrangements of the same rows are equal when no two rows tie:
    the sorted order is then determined by the rows alone.
   */
  lemma {:induction false} SortedUnique<T>(x: seq<T>, y: seq<T>, leq: (T, T) -> bool)
    requires Sorted(x, leq) && Sorted(y, leq)
    requires multiset(x) == multiset(y)
    requires NoTies(x, leq)
    ensures x == y
  {
    if x == [] {
      assert |y| == |multiset(y)| == 0;
    } else {
      SortedHeads(x, y, leq);
      TailMultiset(x, y);
      SortedTail(x, leq);
      SortedTail(y, leq);
      assert NoTies(x[1..], leq) by {
        forall p, q | p in x[1..] && q in x[1..] && leq(p, q) && leq(q, p) ensures p == q {
          assert p in x && q in x;
        }
      }
      SortedUnique(x[1..], y[1..], leq);
      assert x == [x[0]] + x[1..] && y == [y[0]] + y[1..];
    }
  }

  /** No two positions of `s` carry the same key. */
  ghost predicate UniqueKeys<T, K>(s: seq<T>, key: T -> K)
  {
    forall i, j :: 0 <= i < j < |s| ==> key(s[i]) != key(s[j])
  }

  /** An element at two positions occurs at least twice. */
  lemma RepeatedCount<T>(s: seq<T>, i: nat, j: nat)
    requires i < j < |s| && s[i] == s[j]
    ensures multiset(s)[s[i]] >= 2
  {
    assert s == s[..j] + [s[j]] + s[j + 1..];
    assert s[..j][i] == s[i];
    assert multiset(s[..j])[s[i]] >= 1;
  }

  /** An element that occurs at least twice is at two positions. */
  lemma CountRepeated<T>(s: seq<T>, x: T) returns (i: nat, j: nat)
    requires multiset(s)[x] >= 2
    ensures i < j < |s| && s[i] == x && s[j] == x
  {
    assert x in multiset(s);
    var k :| 0 <= k < |s| && s[k] == x;
    var rest := s[..k] + s[k + 1..];
    assert s == s[..k] + [s[k]] + s[k + 1..];
    assert multiset(rest)[x] >= 1;
    assert x in rest;
    var m :| 0 <= m < |rest| && rest[m] == x;
    if m < k {
      assert rest[m] == s[m];
      i, j := m, k;
    } else {
      assert rest[m] == s[m + 1];
      i, j := k, m + 1;
    }
  }

  /** Unique keys are a property of the rows, not of their order. */
  lemma UniqueKeysPermutation<T, K>(a: seq<T>, b: seq<T>, key: T -> K)
    requires multiset(a) == multiset(b)
    requires UniqueKeys(a, key)
    ensures UniqueKeys(b, key)
  {
    forall i, j | 0 <= i < j < |b| ensures key(b[i]) != key(b[j]) {
      if b[i] == b[j] {
        RepeatedCount(b, i, j);
        var p, q := CountRepeated(a, b[i]);
        assert false;
      } else {
        assert b[i] in multiset(a) && b[j] in multiset(a);
        var p :| 0 <= p < |a| && a[p] == b[i];
        var q :| 0 <= q < |a| && a[q] == b[j];
        if p < q {
          assert key(a[p]) != key(a[q]);
        } else {
          assert key(a[q]) != key(a[p]);
        }
      }
    }
  }

}
