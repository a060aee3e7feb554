/** Characters and strings as the scripts use them: ASCII upper-casing, the
    vowel test `'AEIOU'.includes(letter)`, the `/^[A-Za-z]+$/` letter class,
    and the default `Array.prototype.sort` on single characters. */
module Chars {

  /** `toUpperCase` on one character, for the ASCII range. */
  function UpperChar(c: char): char {
    if 'a' <= c <= 'z' then (c as int - 32) as char else c
  }

  /** `String.prototype.toUpperCase`, character by character. */
  function Upper(s: string): string {
    seq(|s|, i requires 0 <= i < |s| => UpperChar(s[i]))
  }

  /** Upper-casing an upper-cased string changes nothing. */
  lemma UpperIdempotent(s: string)
    ensures Upper(Upper(s)) == Upper(s)
  {
  }

  lemma UpperConcat(a: string, b: string)
    ensures Upper(a + b) == Upper(a) + Upper(b)
  {
  }

  predicate IsVowel(c: char) {
    c in "AEIOU"
  }

  predicate IsAsciiLetter(c: char) {
    'A' <= c <= 'Z' || 'a' <= c <= 'z'
  }

  predicate Sorted(s: string) {
    forall i, j :: 0 <= i < j < |s| ==> s[i] <= s[j]
  }

  /** Inserts `c` into a sorted string in front of the first character not
      smaller than it. */
  function InsertChar(c: char, s: string): (r: string)
    requires Sorted(s)
    ensures Sorted(r)
    ensures multiset(r) == multiset(s) + multiset{c}
  {
    if s == [] || c <= s[0] then
      InsertInFront(c, s);
      [c] + s
    else
      var rest := InsertChar(c, s[1..]);
      InsertAfterHead(c, s, rest);
      [s[0]] + rest
  }

  lemma InsertInFront(c: char, s: string)
    requires Sorted(s)
    requires s == [] || c <= s[0]
    ensures Sorted([c] + s)
  {
  }

  lemma InsertAfterHead(c: char, s: string, rest: string)
    requires Sorted(s) && s != [] && s[0] < c
    requires Sorted(rest)
    requires multiset(rest) == multiset(s[1..]) + multiset{c}
    ensures Sorted([s[0]] + rest)
    ensures multiset([s[0]] + rest) == multiset(s) + multiset{c}
  {
    assert s == [s[0]] + s[1..];
    forall k | 0 <= k < |rest|
      ensures s[0] <= rest[k]
    {
      assert rest[k] in multiset(rest);
      if rest[k] != c {
        assert rest[k] in s[1..];
      }
    }
  }

  /** The characters of `s` in ascending order, which is what the default
      comparator of `Array.prototype.sort` gives for one-character strings. */
  function SortChars(s: string): (r: string)
    ensures Sorted(r)
    ensures multiset(r) == multiset(s)
  {
    if s == [] then []
    else
      assert s == [s[0]] + s[1..];
      InsertChar(s[0], SortChars(s[1..]))
  }

  /** Two sorted strings with the same characters are equal: a sorted
      arrangement of a multiset is unique. */
  lemma {:induction false} SortedUnique(a: string, b: string)
    requires Sorted(a) && Sorted(b)
    requires multiset(a) == multiset(b)
    ensures a == b
    decreases |a|
  {
    if a != [] {
      assert |b| == |multiset(b)| == |a|;
      assert b[0] in multiset(a);
      assert a[0] in multiset(b);
      assert a[0] <= b[0];
      assert b[0] <= a[0];
      assert a == [a[0]] + a[1..];
      assert b == [b[0]] + b[1..];
      assert multiset(a) == multiset{a[0]} + multiset(a[1..]);
      assert multiset(b) == multiset{b[0]} + multiset(b[1..]);
      assert a[0] == b[0];
      assert multiset(a[1..]) == multiset(a) - multiset{a[0]};
      assert multiset(b[1..]) == multiset(b) - multiset{b[0]};
      SortedUnique(a[1..], b[1..]);
    } else {
      assert |b| == |multiset(b)| == 0;
    }
  }

  /** Sorting an already sorted string returns it unchanged. */
  lemma SortSortedIsIdentity(s: string)
    requires Sorted(s)
    ensures SortChars(s) == s
  {
    SortedUnique(SortChars(s), s);
  }
}
