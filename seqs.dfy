/** Generic sequence operations shared by the modules: JavaScript's `filter`,
    `indexOf`, first-occurrence de-duplication and run-length expansion.
    Every recursive definition peels off the LAST element, so that a loop
    that pushes onto an array keeps `acc == F(s[..i])` as its invariant. */
module Seqs {

  /** `a` can be obtained from `b` by deleting elements. */
  ghost predicate IsSubsequence<T>(a: seq<T>, b: seq<T>)
    decreases |b|
  {
    a == [] ||
    (b != [] &&
     ((a[|a| - 1] == b[|b| - 1] && IsSubsequence(a[..|a| - 1], b[..|b| - 1])) ||
      IsSubsequence(a, b[..|b| - 1])))
  }

  /** The elements of `s` satisfying `p`, in their original order
      (`Array.prototype.filter`). */
  function Filter<T>(s: seq<T>, p: T -> bool): (r: seq<T>)
    ensures |r| <= |s|
    ensures forall i :: 0 <= i < |r| ==> p(r[i])
  {
    if s == [] then []
    else Filter(s[..|s| - 1], p) + (if p(s[|s| - 1]) then [s[|s| - 1]] else [])
  }

  lemma {:induction false} FilterStep<T>(s: seq<T>, i: nat, p: T -> bool)
    requires i < |s|
    ensures Filter(s[..i + 1], p) == Filter(s[..i], p) + (if p(s[i]) then [s[i]] else [])
  {
    assert s[..i + 1][..i] == s[..i];
  }

  /** Filtering distributes over concatenation. */
  lemma {:induction false} FilterConcat<T>(a: seq<T>, b: seq<T>, p: T -> bool)
    ensures Filter(a + b, p) == Filter(a, p) + Filter(b, p)
    decreases |b|
  {
    if b != [] {
      var b' := b[..|b| - 1];
      assert (a + b)[..|a + b| - 1] == a + b';
      FilterConcat(a, b', p);
    } else {
      assert a + b == a;
    }
  }

  lemma {:induction false} FilterCons<T>(x: T, s: seq<T>, p: T -> bool)
    ensures Filter([x] + s, p) == (if p(x) then [x] else []) + Filter(s, p)
  {
    FilterConcat([x], s, p);
    assert [x][..0] == [];
    assert Filter([x], p) == Filter([], p) + (if p(x) then [x] else []);
  }

  /** A value occurs in the filtered sequence exactly as often as in the
      input when it satisfies the predicate, and never otherwise. */
  lemma {:induction false} FilterCount<T>(s: seq<T>, p: T -> bool, x: T)
    ensures multiset(Filter(s, p))[x] == if p(x) then multiset(s)[x] else 0
  {
    if s != [] {
      var s' := s[..|s| - 1];
      assert s == s' + [s[|s| - 1]];
      FilterCount(s', p, x);
    }
  }

  /** The filtered sequence keeps the input's order. */
  lemma {:induction false} FilterIsSubsequence<T>(s: seq<T>, p: T -> bool)
    ensures IsSubsequence(Filter(s, p), s)
  {
    if s != [] {
      var s' := s[..|s| - 1];
      FilterIsSubsequence(s', p);
      var r := Filter(s, p);
      if p(s[|s| - 1]) {
        assert r[..|r| - 1] == Filter(s', p);
      } else {
        assert r == Filter(s', p);
        if r != [] {
          assert IsSubsequence(r, s[..|s| - 1]);
        }
      }
    }
  }

  ghost predicate NoDuplicates<T>(s: seq<T>) {
    forall i, j :: 0 <= i < j < |s| ==> s[i] != s[j]
  }

  /** The distinct elements of `s` in the order of their first occurrence,
      which is the key order of a JavaScript object filled from `s`. Its
      properties are stated by `DistinctSpec`, to be brought in where they
      are needed. */
  function Distinct<T(==)>(s: seq<T>): seq<T> {
    if s == [] then []
    else
      var p := s[..|s| - 1];
      Distinct(p) + (if s[|s| - 1] in p then [] else [s[|s| - 1]])
  }

  /** The first-occurrence list holds exactly the elements of `s`, each
      once. */
  lemma {:induction false} DistinctSpec<T>(s: seq<T>)
    ensures forall i :: 0 <= i < |Distinct(s)| ==> Distinct(s)[i] in s
    ensures forall i :: 0 <= i < |s| ==> s[i] in Distinct(s)
    ensures NoDuplicates(Distinct(s))
  {
    if s != [] {
      var p := s[..|s| - 1];
      var last := s[|s| - 1];
      DistinctSpec(p);
      var r := Distinct(s);
      assert forall i :: 0 <= i < |p| ==> p[i] == s[i];
      forall i | 0 <= i < |r| ensures r[i] in s {
        if i < |Distinct(p)| {
          assert r[i] == Distinct(p)[i];
          assert r[i] in p;
        } else {
          assert r[i] == last;
        }
      }
      forall i | 0 <= i < |s| ensures s[i] in r {
        if i < |p| {
          assert s[i] == p[i];
          assert s[i] in Distinct(p);
        } else if last in p {
          var j :| 0 <= j < |p| && p[j] == last;
          assert p[j] in Distinct(p);
        }
      }
    }
  }

  lemma DistinctStep<T>(s: seq<T>, i: nat)
    requires i < |s|
    ensures Distinct(s[..i + 1]) == Distinct(s[..i]) + (if s[i] in s[..i] then [] else [s[i]])
  {
    assert s[..i + 1][..i] == s[..i];
  }

  lemma DistinctSnoc<T>(s: seq<T>, x: T)
    ensures x in s ==> Distinct(s + [x]) == Distinct(s)
    ensures x !in s ==> Distinct(s + [x]) == Distinct(s) + [x]
  {
    assert (s + [x])[..|s|] == s;
    assert Distinct(s) + [] == Distinct(s);
  }

  lemma DistinctAvoids<T>(s: seq<T>, x: T)
    requires x !in s
    ensures forall i :: 0 <= i < |Distinct(s)| ==> Distinct(s)[i] != x
  {
    DistinctSpec(s);
  }

  /** The index of the first occurrence of `x` in `s`, or -1
      (`Array.prototype.indexOf`). */
  function IndexOf<T(==)>(s: seq<T>, x: T): (r: int)
    ensures -1 <= r < |s|
    ensures r == -1 <==> x !in s
    ensures r >= 0 ==> s[r] == x && x !in s[..r]
  {
    if s == [] then -1
    else
      var p := s[..|s| - 1];
      var k := IndexOf(p, x);
      if k >= 0 then k
      else if s[|s| - 1] == x then |s| - 1
      else -1
  }

  /** The values of a sequence of (value, count) entries. */
  function Firsts<T>(d: seq<(T, nat)>): seq<T> {
    seq(|d|, i requires 0 <= i < |d| => d[i].0)
  }

  /** Removing the element at `k` removes one copy of it from the multiset. */
  lemma RemoveAtMultiset<T>(s: seq<T>, k: nat)
    requires k < |s|
    ensures multiset(s[..k] + s[k + 1..]) == multiset(s) - multiset{s[k]}
  {
    assert s == s[..k] + [s[k]] + s[k + 1..];
  }

  lemma MultisetDropFirst<T>(s: seq<T>)
    requires s != []
    ensures multiset(s[1..]) == multiset(s) - multiset{s[0]}
  {
    assert s == [s[0]] + s[1..];
  }

  lemma ConcatAssoc<T>(a: seq<T>, b: seq<T>, c: seq<T>)
    ensures a + (b + c) == (a + b) + c
  {
  }

  /** `n` copies of `x`. */
  function Repeat<T>(x: T, n: nat): seq<T> {
    if n == 0 then [] else Repeat(x, n - 1) + [x]
  }

  lemma RepeatSnoc<T>(x: T, n: nat)
    ensures Repeat(x, n + 1) == Repeat(x, n) + [x]
  {
  }

  /** Each (value, count) entry expanded into `count` copies of `value`, in
      entry order: the decoding of a run-length encoding. */
  function Expand<T>(d: seq<(T, nat)>): seq<T> {
    if d == [] then [] else Expand(d[..|d| - 1]) + Repeat(d[|d| - 1].0, d[|d| - 1].1)
  }

  lemma ExpandStep<T>(d: seq<(T, nat)>, i: nat)
    requires i < |d|
    ensures Expand(d[..i + 1]) == Expand(d[..i]) + Repeat(d[i].0, d[i].1)
  {
    assert d[..i + 1][..i] == d[..i];
  }

  lemma {:induction false} ExpandSnoc<T>(q: seq<(T, nat)>, e: (T, nat))
    ensures Expand(q + [e]) == Expand(q) + Repeat(e.0, e.1)
  {
    assert (q + [e])[..|q|] == q;
  }

  /** Lengthening the last run by one appends one more copy of its value. */
  lemma ExpandLongerRun<T>(r: seq<(T, nat)>, x: T)
    requires r != [] && r[|r| - 1].0 == x
    ensures Expand(r[..|r| - 1] + [(x, r[|r| - 1].1 + 1)]) == Expand(r) + [x]
  {
    ExpandLast(r);
    ExpandBumpLast(r, x);
  }

  lemma ExpandBumpLast<T>(r: seq<(T, nat)>, x: T)
    requires r != []
    ensures Expand(r[..|r| - 1] + [(x, r[|r| - 1].1 + 1)]) == (Expand(r[..|r| - 1]) + Repeat(x, r[|r| - 1].1)) + [x]
  {
    ExpandBump(r[..|r| - 1], x, r[|r| - 1].1);
  }

  lemma ExpandLast<T>(r: seq<(T, nat)>)
    requires r != []
    ensures Expand(r) == Expand(r[..|r| - 1]) + Repeat(r[|r| - 1].0, r[|r| - 1].1)
  {
  }

  lemma ExpandBump<T>(q: seq<(T, nat)>, x: T, n: nat)
    ensures Expand(q + [(x, n + 1)]) == (Expand(q) + Repeat(x, n)) + [x]
  {
    ExpandSnoc(q, (x, n + 1));
    RepeatSnoc(x, n);
    ConcatAssoc(Expand(q), Repeat(x, n), [x]);
  }

  lemma {:induction false} RepeatCount<T>(x: T, n: nat, y: T)
    ensures |Repeat(x, n)| == n
    ensures multiset(Repeat(x, n))[y] == if x == y then n else 0
  {
    if n > 0 {
      RepeatCount(x, n - 1, y);
    }
  }

  /** A sequence without duplicates all of whose elements occur in `b` is no
      longer than `b`. */
  lemma {:induction false} Pigeonhole<T>(a: seq<T>, b: seq<T>)
    requires NoDuplicates(a)
    requires forall i :: 0 <= i < |a| ==> a[i] in b
    ensures |a| <= |b|
  {
    ElementsCard(a);
    ElementsCard(b);
    assert Elements(a) <= Elements(b);
    SubsetCard(Elements(a), Elements(b));
  }

  ghost function Elements<T>(s: seq<T>): set<T> {
    set i | 0 <= i < |s| :: s[i]
  }

  lemma InElements<T>(s: seq<T>)
    ensures forall i :: 0 <= i < |s| ==> s[i] in Elements(s)
  {
  }

  lemma ElementsMember<T>(s: seq<T>, x: T)
    requires x in Elements(s)
    ensures x in s
  {
  }

  lemma {:induction false} ElementsCard<T>(s: seq<T>)
    ensures |Elements(s)| <= |s|
    ensures NoDuplicates(s) ==> |Elements(s)| == |s|
  {
    if s != [] {
      var p := s[..|s| - 1];
      ElementsCard(p);
      assert Elements(s) == Elements(p) + {s[|s| - 1]};
      if NoDuplicates(s) {
        assert NoDuplicates(p);
        assert s[|s| - 1] !in Elements(p);
      }
    }
  }

  lemma {:induction false} SubsetCard<T>(a: set<T>, b: set<T>)
    requires a <= b
    ensures |a| <= |b|
    decreases |b|
  {
    if a != {} {
      var x :| x in a;
      SubsetCard(a - {x}, b - {x});
    }
  }

  /** The first-occurrence list holds each element of `s` once, so its
      length is the number of different elements. */
  lemma DistinctCard<T>(s: seq<T>)
    ensures Elements(Distinct(s)) == Elements(s)
    ensures |Distinct(s)| == |Elements(s)|
  {
    DistinctSpec(s);
    ElementsCard(Distinct(s));
  }
}
