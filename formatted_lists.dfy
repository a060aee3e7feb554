/** create-formatted-lists.js: keep the top fifth of a ranked word list and
    lay it out ten words to a line, words on a line separated by one space. */
module FormattedLists {
  import opened Seqs

  /** `Math.ceil(n * 0.2)` for a word count `n`, in integer arithmetic. */
  function TopCount(n: nat): (r: nat)
    ensures 5 * r >= n
    ensures r == 0 || 5 * (r - 1) < n
  {
    (n + 4) / 5
  }

  /** `TopCount(n)` is the least whole number not below n * 0.2. */
  lemma TopCountIsCeiling(n: nat)
    ensures TopCount(n) as real >= n as real * 0.2
    ensures TopCount(n) == 0 || (TopCount(n) - 1) as real < n as real * 0.2
  {
    var t := TopCount(n);
    assert 5 * t <= n + 4 < 5 * t + 5;
  }

  /** `n` is a multiple of ten. Spelled out by recursion rather than with
      `%`, which the counting proofs below handle far better;
      `MultipleOfTenIsMod` connects the two. */
  function MultipleOfTen(n: nat): bool {
    if n < 10 then n == 0 else MultipleOfTen(n - 10)
  }

  lemma {:induction false} MultipleOfTenIsMod(n: nat)
    ensures MultipleOfTen(n) <==> n % 10 == 0
  {
    if n >= 10 {
      MultipleOfTenIsMod(n - 10);
    }
  }

  /** What follows word `i` of `k`: a newline after every tenth word, a
      space after any other word, and nothing after the last one. */
  function Separator(i: nat, k: nat): string {
    if MultipleOfTen(i + 1) && i < k - 1 then "\n"
    else if i < k - 1 then " "
    else ""
  }

  /** The source's test: a newline when `(i + 1) % 10 == 0` and word `i` is
      not the last, a space when it is not the last, nothing after the last. */
  lemma SeparatorRule(i: nat, k: nat)
    ensures Separator(i, k) == if (i + 1) % 10 == 0 && i < k - 1 then "\n" else if i < k - 1 then " " else ""
  {
    MultipleOfTenIsMod(i + 1);
  }

  /** The formatted text after the first `i` iterations of the loop. */
  function Layout(words: seq<string>, i: nat): string
    requires i <= |words|
  {
    if i == 0 then "" else Layout(words, i - 1) + words[i - 1] + Separator(i - 1, |words|)
  }

  /** The loop of lines 31-40. */
  method FormatWords(topWords: seq<string>) returns (formattedContent: string)
    ensures formattedContent == Layout(topWords, |topWords|)
  {
    formattedContent := "";
    for i := 0 to |topWords|
      invariant formattedContent == Layout(topWords, i)
    {
      formattedContent := formattedContent + topWords[i];
      MultipleOfTenIsMod(i + 1);
      if (i + 1) % 10 == 0 && i < |topWords| - 1 {
        formattedContent := formattedContent + "\n";
      } else if i < |topWords| - 1 {
        formattedContent := formattedContent + " ";
      }
    }
  }

  /** Lines 26-40: the first `ceil(n / 5)` words, laid out. */
  method CreateFormattedList(words: seq<string>) returns (topWords: seq<string>, formattedContent: string)
    ensures topWords == words[..TopCount(|words|)]
    ensures formattedContent == Layout(topWords, |topWords|)
  {
    var top20Percent := (|words| + 4) / 5;
    topWords := words[..top20Percent];
    formattedContent := FormatWords(topWords);
  }

  /** The text ends with the last word: no separator follows it. */
  lemma NoTrailingSeparator(words: seq<string>)
    requires words != []
    ensures Layout(words, |words|) == Layout(words, |words| - 1) + words[|words| - 1]
  {
    assert Separator(|words| - 1, |words|) == "";
  }

  predicate IsSeparator(c: char) {
    c == ' ' || c == '\n'
  }

  function NotSeparator(): char -> bool {
    c => !IsSeparator(c)
  }

  /** A word with no separator character inside: no space, no newline. */
  predicate BlankFree(w: string) {
    ' ' !in w && '\n' !in w
  }

  /** The words one after the other, with nothing between them. */
  function Concat(words: seq<string>): string {
    if words == [] then "" else Concat(words[..|words| - 1]) + words[|words| - 1]
  }

  lemma {:induction false} FilterKeepsAll(s: string)
    requires BlankFree(s)
    ensures Filter(s, NotSeparator()) == s
  {
    if s != [] {
      var p := s[..|s| - 1];
      assert BlankFree(p);
      FilterKeepsAll(p);
    }
  }

  lemma SeparatorIsBlank(i: nat, k: nat)
    ensures Filter(Separator(i, k), NotSeparator()) == ""
  {
    var sep := Separator(i, k);
    if sep != "" {
      assert sep[..0] == "";
    }
  }

  /** Deleting the separators gives back the words run together. */
  lemma {:induction false} StripSeparators(words: seq<string>, i: nat)
    requires i <= |words|
    requires forall j :: 0 <= j < |words| ==> BlankFree(words[j])
    ensures Filter(Layout(words, i), NotSeparator()) == Concat(words[..i])
  {
    if i > 0 {
      StripSeparators(words, i - 1);
      StripStep(words, i);
      ConcatStep(words, i);
    }
  }

  lemma StripStep(words: seq<string>, i: nat)
    requires 0 < i <= |words|
    requires BlankFree(words[i - 1])
    ensures Filter(Layout(words, i), NotSeparator())
         == Filter(Layout(words, i - 1), NotSeparator()) + words[i - 1]
  {
    FilterConcat(Layout(words, i - 1) + words[i - 1], Separator(i - 1, |words|), NotSeparator());
    FilterConcat(Layout(words, i - 1), words[i - 1], NotSeparator());
    FilterKeepsAll(words[i - 1]);
    SeparatorIsBlank(i - 1, |words|);
  }

  lemma ConcatStep(words: seq<string>, i: nat)
    requires 0 < i <= |words|
    ensures Concat(words[..i]) == Concat(words[..i - 1]) + words[i - 1]
  {
    assert words[..i][..i - 1] == words[..i - 1];
  }

  /** The number of separators among the first `i` of `k` words. */
  function Gaps(i: nat, k: nat): nat {
    if i < k then i else if i == 0 then 0 else i - 1
  }

  /** The number of multiples of ten in 1..m: how many of the first `m`
      separators are newlines. */
  function Newlines(m: nat): nat {
    if m == 0 then 0 else Newlines(m - 1) + (if MultipleOfTen(m) then 1 else 0)
  }

  lemma {:induction false} NewlinesIsQuotient(m: nat)
    ensures Newlines(m) == m / 10
  {
    if m > 0 {
      NewlinesIsQuotient(m - 1);
      DivStep(m - 1);
      MultipleOfTenIsMod(m);
    }
  }

  /** After the first `i` words, every tenth separator so far is a newline. */
  lemma {:induction false} NewlinesSoFar(words: seq<string>, i: nat)
    requires i <= |words|
    requires forall j :: 0 <= j < |words| ==> '\n' !in words[j]
    ensures multiset(Layout(words, i))['\n'] == Newlines(Gaps(i, |words|))
  {
    if i > 0 {
      NewlinesSoFar(words, i - 1);
      NewlineStep(words, i);
    }
  }

  /** After the first `i` words, the separators so far that are not newlines
      are spaces. */
  lemma {:induction false} SpacesSoFar(words: seq<string>, i: nat)
    requires i <= |words|
    requires forall j :: 0 <= j < |words| ==> ' ' !in words[j]
    ensures multiset(Layout(words, i))[' '] == Gaps(i, |words|) - Newlines(Gaps(i, |words|))
  {
    if i > 0 {
      SpacesSoFar(words, i - 1);
      SpaceStep(words, i);
    }
  }

  lemma NewlineStep(words: seq<string>, i: nat)
    requires 0 < i <= |words|
    requires '\n' !in words[i - 1]
    ensures multiset(Layout(words, i))['\n'] - Newlines(Gaps(i, |words|))
         == multiset(Layout(words, i - 1))['\n'] - Newlines(Gaps(i - 1, |words|))
  {
    NewlineCharStep(words, i);
    GapsStep(i, |words|);
  }

  lemma SpaceStep(words: seq<string>, i: nat)
    requires 0 < i <= |words|
    requires ' ' !in words[i - 1]
    ensures multiset(Layout(words, i))[' '] - (Gaps(i, |words|) - Newlines(Gaps(i, |words|)))
         == multiset(Layout(words, i - 1))[' '] - (Gaps(i - 1, |words|) - Newlines(Gaps(i - 1, |words|)))
  {
    SpaceCharStep(words, i);
    GapsStep(i, |words|);
  }

  lemma GapsStep(i: nat, k: nat)
    requires 0 < i <= k
    ensures Gaps(i, k) == Gaps(i - 1, k) + (if i < k then 1 else 0)
    ensures Newlines(Gaps(i, k)) == Newlines(Gaps(i - 1, k)) + (if MultipleOfTen(i) && i < k then 1 else 0)
  {
  }

  /** One more word adds the newline of its separator, if any, as it holds
      no newline itself. */
  lemma NewlineCharStep(words: seq<string>, i: nat)
    requires 0 < i <= |words|
    requires '\n' !in words[i - 1]
    ensures multiset(Layout(words, i))['\n'] == multiset(Layout(words, i - 1))['\n']
      + (if MultipleOfTen(i) && i < |words| then 1 else 0)
  {
    var w := words[i - 1];
    assert multiset(w)['\n'] == 0;
  }

  /** One more word adds the space of its separator, if any, as it holds no
      space itself. */
  lemma SpaceCharStep(words: seq<string>, i: nat)
    requires 0 < i <= |words|
    requires ' ' !in words[i - 1]
    ensures multiset(Layout(words, i))[' '] == multiset(Layout(words, i - 1))[' ']
      + (if !(MultipleOfTen(i)) && i < |words| then 1 else 0)
  {
    var w := words[i - 1];
    assert multiset(w)[' '] == 0;
  }

  lemma DivStep(m: nat)
    ensures (m + 1) / 10 == m / 10 + (if (m + 1) % 10 == 0 then 1 else 0)
  {
  }

  /** The layout of `k > 0` words has `(k - 1) / 10` newlines ... */
  lemma NewlineCount(words: seq<string>)
    requires words != []
    requires forall j :: 0 <= j < |words| ==> '\n' !in words[j]
    ensures multiset(Layout(words, |words|))['\n'] == (|words| - 1) / 10
  {
    NewlinesSoFar(words, |words|);
    AllGaps(|words|);
  }

  /** ... and spaces for the rest of its `k - 1` separators. */
  lemma SpaceCount(words: seq<string>)
    requires words != []
    requires forall j :: 0 <= j < |words| ==> ' ' !in words[j]
    ensures multiset(Layout(words, |words|))[' '] == (|words| - 1) - (|words| - 1) / 10
  {
    SpacesSoFar(words, |words|);
    AllGaps(|words|);
  }

  /** `k > 0` words have `k - 1` separators between them, of which
      `(k - 1) / 10` are newlines. */
  lemma AllGaps(k: nat)
    requires k > 0
    ensures Gaps(k, k) == k - 1
    ensures Newlines(Gaps(k, k)) == (k - 1) / 10
  {
    NewlinesIsQuotient(k - 1);
  }
}
