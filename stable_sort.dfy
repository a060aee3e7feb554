/** `Array.prototype.sort` with a comparator of the form
    `(a, b) => key(a) - key(b)`, which ECMAScript 2019 and later require to be
    stable. Both comparators in the core have this form: the ranking uses
    key(w) = -w.probability and the anagram ordering uses key(g) = the index
    of g's representative. Modelled by a stable insertion sort. */
module StableSort {
  import opened Seqs

  predicate SortedBy<T>(s: seq<T>, key: T -> real) {
    forall i, j :: 0 <= i < j < |s| ==> key(s[i]) <= key(s[j])
  }

  /** The elements whose key is `v`. */
  function HasKey<T>(key: T -> real, v: real): T -> bool {
    x => key(x) == v
  }

  /** Inserts `x` in front of the first element whose key is not smaller, so
      that `x` stays ahead of the elements it ties with. */
  function InsertBy<T>(x: T, s: seq<T>, key: T -> real): (r: seq<T>)
    requires SortedBy(s, key)
    ensures SortedBy(r, key)
    ensures multiset(r) == multiset(s) + multiset{x}
  {
    if s == [] || key(x) <= key(s[0]) then
      InsertInFront(x, s, key);
      [x] + s
    else
      var rest := InsertBy(x, s[1..], key);
      InsertAfterHead(x, s, rest, key);
      [s[0]] + rest
  }

  lemma InsertInFront<T>(x: T, s: seq<T>, key: T -> real)
    requires SortedBy(s, key)
    requires s == [] || key(x) <= key(s[0])
    ensures SortedBy([x] + s, key)
  {
  }

  lemma InsertAfterHead<T>(x: T, s: seq<T>, rest: seq<T>, key: T -> real)
    requires SortedBy(s, key) && s != [] && key(s[0]) < key(x)
    requires SortedBy(rest, key)
    requires multiset(rest) == multiset(s[1..]) + multiset{x}
    ensures SortedBy([s[0]] + rest, key)
    ensures multiset([s[0]] + rest) == multiset(s) + multiset{x}
  {
    assert s == [s[0]] + s[1..];
    forall k | 0 <= k < |rest|
      ensures key(s[0]) <= key(rest[k])
    {
      assert rest[k] in multiset(rest);
      if rest[k] != x {
        assert rest[k] in s[1..];
      }
    }
  }

  /** The sorted permutation of `s`. */
  function SortBy<T>(s: seq<T>, key: T -> real): (r: seq<T>)
    ensures SortedBy(r, key)
    ensures multiset(r) == multiset(s)
  {
    if s == [] then []
    else
      assert s == [s[0]] + s[1..];
      InsertBy(s[0], SortBy(s[1..], key), key)
  }

  lemma {:induction false} InsertByStable<T>(x: T, s: seq<T>, key: T -> real, v: real)
    requires SortedBy(s, key)
    ensures Filter(InsertBy(x, s, key), HasKey(key, v))
         == (if key(x) == v then [x] else []) + Filter(s, HasKey(key, v))
    decreases |s|
  {
    var p := HasKey(key, v);
    if s == [] || key(x) <= key(s[0]) {
      FilterCons(x, s, p);
    } else {
      var rest := InsertBy(x, s[1..], key);
      var here := if p(s[0]) then [s[0]] else [];
      var mine := if key(x) == v then [x] else [];
      assert !(key(x) == v && key(s[0]) == v);
      calc {
        Filter(InsertBy(x, s, key), p);
        Filter([s[0]] + rest, p);
        { FilterCons(s[0], rest, p); }
        here + Filter(rest, p);
        { InsertByStable(x, s[1..], key, v); }
        here + (mine + Filter(s[1..], p));
        mine + (here + Filter(s[1..], p));
        { FilterCons(s[0], s[1..], p); }
        mine + Filter([s[0]] + s[1..], p);
        { assert s == [s[0]] + s[1..]; }
        mine + Filter(s, p);
      }
    }
  }

  /** Stability: the elements that tie on any key value come out in the order
      they went in. */
  lemma {:induction false} SortByStable<T>(s: seq<T>, key: T -> real, v: real)
    ensures Filter(SortBy(s, key), HasKey(key, v)) == Filter(s, HasKey(key, v))
  {
    if s != [] {
      SortByStable(s[1..], key, v);
      InsertByStable(s[0], SortBy(s[1..], key), key, v);
      FilterCons(s[0], s[1..], HasKey(key, v));
      assert s == [s[0]] + s[1..];
    }
  }

  /** Sorting a sequence that is already in key order changes nothing. */
  lemma {:induction false} SortBySortedIsIdentity<T>(s: seq<T>, key: T -> real)
    requires SortedBy(s, key)
    ensures SortBy(s, key) == s
  {
    if s != [] {
      assert SortedBy(s[1..], key);
      SortBySortedIsIdentity(s[1..], key);
      assert s == [s[0]] + s[1..];
    }
  }

  /** Two key-sorted arrangements of the same elements are equal when no two
      elements of one of them share a key: such an arrangement is unique. */
  lemma {:induction false} SortedByUnique<T>(a: seq<T>, b: seq<T>, key: T -> real)
    requires SortedBy(a, key) && SortedBy(b, key)
    requires multiset(a) == multiset(b)
    requires DistinctKeys(a, key)
    ensures a == b
    decreases |a|
  {
    if a == [] {
      assert |b| == |multiset(b)| == 0;
    } else {
      SortedByTails(a, b, key);
      SortedByUnique(a[1..], b[1..], key);
      assert a == [a[0]] + a[1..];
      assert b == [b[0]] + b[1..];
    }
  }

  /** No two elements share a key. */
  predicate DistinctKeys<T>(s: seq<T>, key: T -> real) {
    forall i, j :: 0 <= i < j < |s| ==> key(s[i]) != key(s[j])
  }

  /** Both arrangements have the same first element, and what follows it
      meets the conditions again. */
  lemma SortedByTails<T>(a: seq<T>, b: seq<T>, key: T -> real)
    requires SortedBy(a, key) && SortedBy(b, key)
    requires multiset(a) == multiset(b)
    requires DistinctKeys(a, key)
    requires a != []
    ensures b != [] && b[0] == a[0]
    ensures SortedBy(a[1..], key) && SortedBy(b[1..], key)
    ensures multiset(a[1..]) == multiset(b[1..])
    ensures DistinctKeys(a[1..], key)
  {
    SortedByHead(a, b, key);
    SortedDropFirst(a, key);
    SortedDropFirst(b, key);
    DistinctKeysDropFirst(a, key);
    MultisetDropFirst(a);
    MultisetDropFirst(b);
  }

  lemma SortedDropFirst<T>(s: seq<T>, key: T -> real)
    requires s != [] && SortedBy(s, key)
    ensures SortedBy(s[1..], key)
  {
  }

  lemma DistinctKeysDropFirst<T>(s: seq<T>, key: T -> real)
    requires s != [] && DistinctKeys(s, key)
    ensures DistinctKeys(s[1..], key)
  {
  }

  /** Both arrangements start with the element of least key. */
  lemma SortedByHead<T>(a: seq<T>, b: seq<T>, key: T -> real)
    requires SortedBy(a, key) && SortedBy(b, key)
    requires multiset(a) == multiset(b)
    requires DistinctKeys(a, key)
    requires a != []
    ensures b != [] && b[0] == a[0]
  {
    assert a[0] in multiset(b);
    var n :| 0 <= n < |b| && b[n] == a[0];
    assert b[0] in multiset(a);
    var m :| 0 <= m < |a| && a[m] == b[0];
    assert key(b[0]) <= key(b[n]);
    assert key(a[0]) <= key(a[m]);
  }
}
