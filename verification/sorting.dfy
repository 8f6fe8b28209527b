/** A stable insertion sort on sequences, ordered ascending by an integer key.
    It stands for PHP's `usort` with an id comparator and for an SQL
    `ORDER BY` over the rows a query returned. */
module Sorting {

  predicate SortedBy<T>(s: seq<T>, key: T -> int) {
    forall i, j :: 0 <= i < j < |s| ==> key(s[i]) <= key(s[j])
  }

  /** No two elements share a key. */
  predicate DistinctKeys<T>(s: seq<T>, key: T -> int) {
    forall i, j :: 0 <= i < j < |s| ==> key(s[i]) != key(s[j])
  }

  /** Inserts x in front of the first element whose key is not smaller than
      its own, so x precedes every element it ties with. */
  function Insert<T>(x: T, s: seq<T>, key: T -> int): (r: seq<T>)
    requires SortedBy(s, key)
    ensures SortedBy(r, key)
    ensures multiset(r) == multiset(s) + multiset{x}
  {
    if |s| == 0 || key(x) <= key(s[0]) then [x] + s
    else
      var tail := Insert(x, s[1..], key);
      InsertBehindHead(x, s, tail, key);
      [s[0]] + tail
  }

  /** Putting the head of s back in front of x inserted into the rest of s
      gives a sorted sequence holding s and x. */
  lemma InsertBehindHead<T>(x: T, s: seq<T>, tail: seq<T>, key: T -> int)
    requires SortedBy(s, key) && |s| > 0 && key(s[0]) < key(x)
    requires SortedBy(tail, key)
    requires multiset(tail) == multiset(s[1..]) + multiset{x}
    ensures SortedBy([s[0]] + tail, key)
    ensures multiset([s[0]] + tail) == multiset(s) + multiset{x}
  {
    assert s == [s[0]] + s[1..];
    BoundPassesToPermutation(tail, x, s[1..], key, key(s[0]));
  }

  /** A lower bound on the keys of x and of s holds for any sequence with
      the elements of s and x. */
  lemma BoundPassesToPermutation<T>(t: seq<T>, x: T, s: seq<T>, key: T -> int, bound: int)
    requires multiset(t) == multiset(s) + multiset{x}
    requires bound <= key(x)
    requires forall m :: 0 <= m < |s| ==> bound <= key(s[m])
    ensures forall k :: 0 <= k < |t| ==> bound <= key(t[k])
  {
    forall k | 0 <= k < |t|
      ensures bound <= key(t[k])
    {
      assert t[k] in multiset(t);
      if t[k] != x {
        assert t[k] in multiset(s);
        var m :| 0 <= m < |s| && s[m] == t[k];
      }
    }
  }

  /** Sorts s ascending by key; elements of equal key keep their order. */
  function InsertionSort<T>(s: seq<T>, key: T -> int): (r: seq<T>)
    ensures SortedBy(r, key)
    ensures multiset(r) == multiset(s)
  {
    if |s| == 0 then []
    else
      assert s == [s[0]] + s[1..];
      Insert(s[0], InsertionSort(s[1..], key), key)
  }

  /** Every element of r is x or an element of s, and conversely. */
  lemma InsertMembers<T>(x: T, s: seq<T>, key: T -> int)
    requires SortedBy(s, key)
    ensures var r := Insert(x, s, key);
      && |r| == |s| + 1
      && (forall i :: 0 <= i < |r| ==> r[i] == x || exists m :: 0 <= m < |s| && s[m] == r[i])
  {
    var r := Insert(x, s, key);
    assert |multiset(r)| == |multiset(s)| + 1;
    forall i | 0 <= i < |r|
      ensures r[i] == x || exists m :: 0 <= m < |s| && s[m] == r[i]
    {
      assert r[i] in multiset(r);
      if r[i] != x {
        assert r[i] in multiset(s);
      }
    }
  }

  /** Inserting an element whose key is new keeps the keys distinct. */
  lemma {:induction false} InsertKeepsKeysDistinct<T>(x: T, s: seq<T>, key: T -> int)
    requires SortedBy(s, key)
    requires DistinctKeys(s, key)
    requires forall m :: 0 <= m < |s| ==> key(s[m]) != key(x)
    ensures DistinctKeys(Insert(x, s, key), key)
  {
    if |s| > 0 && key(x) > key(s[0]) {
      InsertKeepsKeysDistinct(x, s[1..], key);
      var tail := Insert(x, s[1..], key);
      InsertMembers(x, s[1..], key);
      assert Insert(x, s, key) == [s[0]] + tail;
      forall k | 0 <= k < |tail|
        ensures key(tail[k]) != key(s[0])
      {
        if tail[k] != x {
          var m :| 0 <= m < |s[1..]| && s[1..][m] == tail[k];
          assert s[m + 1] == tail[k];
        }
      }
    }
  }

  /** Sorting keeps the length and keeps distinct keys distinct. */
  lemma {:induction false} SortKeepsKeysDistinct<T>(s: seq<T>, key: T -> int)
    ensures |InsertionSort(s, key)| == |s|
    ensures DistinctKeys(s, key) ==> DistinctKeys(InsertionSort(s, key), key)
  {
    if |s| > 0 {
      var tail := InsertionSort(s[1..], key);
      SortKeepsKeysDistinct(s[1..], key);
      InsertMembers(s[0], tail, key);
      if DistinctKeys(s, key) {
        forall m | 0 <= m < |tail|
          ensures key(tail[m]) != key(s[0])
        {
          assert tail[m] in multiset(s[1..]);
          var n :| 0 <= n < |s[1..]| && s[1..][n] == tail[m];
          assert s[n + 1] == tail[m];
        }
        InsertKeepsKeysDistinct(s[0], tail, key);
      }
    }
  }

  /** The head of a sorted sequence is its first element of least key. */
  lemma HeadOfInsertionSort<T>(s: seq<T>, key: T -> int)
    requires |s| > 0
    ensures var r := InsertionSort(s, key);
      var h := InsertionSort(s[1..], key);
      r[0] == if |h| == 0 || key(s[0]) <= key(h[0]) then s[0] else h[0]
  {
  }

  /** Two sequences sorted by a key that no two elements share, holding the
      same elements, are equal: the order of the input does not matter. */
  lemma {:induction false} StrictlySortedUnique<T>(a: seq<T>, b: seq<T>, key: T -> int)
    requires forall i, j :: 0 <= i < j < |a| ==> key(a[i]) < key(a[j])
    requires forall i, j :: 0 <= i < j < |b| ==> key(b[i]) < key(b[j])
    requires forall y :: y in a <==> y in b
    requires |a| == |b|
    ensures a == b
  {
    if |a| > 0 {
      SameHead(a, b, key);
      forall y
        ensures y in a[1..] <==> y in b[1..]
      {
        if y in a[1..] {
          LaterInBoth(a, b, key, y);
        }
        if y in b[1..] {
          LaterInBoth(b, a, key, y);
        }
      }
      StrictlySortedUnique(a[1..], b[1..], key);
      assert a == [a[0]] + a[1..];
      assert b == [b[0]] + b[1..];
    }
  }

  /** Two strictly sorted non-empty sequences with the same elements start
      with the same element: the one of least key. */
  lemma SameHead<T>(a: seq<T>, b: seq<T>, key: T -> int)
    requires forall i, j :: 0 <= i < j < |a| ==> key(a[i]) < key(a[j])
    requires forall i, j :: 0 <= i < j < |b| ==> key(b[i]) < key(b[j])
    requires forall y :: y in a <==> y in b
    requires |a| > 0 && |b| > 0
    ensures a[0] == b[0]
  {
    assert a[0] in a;
    var j :| 0 <= j < |b| && b[j] == a[0];
    assert b[0] in b;
    var i :| 0 <= i < |a| && a[i] == b[0];
    assert key(a[0]) <= key(a[i]) == key(b[0]) <= key(b[j]);
  }

  /** Of two strictly sorted sequences with the same elements and the same
      head, an element after the head of one comes after the head of the
      other. */
  lemma LaterInBoth<T>(a: seq<T>, b: seq<T>, key: T -> int, y: T)
    requires forall i, j :: 0 <= i < j < |a| ==> key(a[i]) < key(a[j])
    requires forall y :: y in a <==> y in b
    requires |a| > 0 && |b| > 0 && a[0] == b[0]
    requires y in a[1..]
    ensures y in b[1..]
  {
    var m :| 0 <= m < |a[1..]| && a[1..][m] == y;
    assert key(a[0]) < key(a[m + 1]);
    assert y in b;
    var n :| 0 <= n < |b| && b[n] == y;
    assert b[1..][n - 1] == y;
  }
}
