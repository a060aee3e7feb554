/** Word filtering, scoring and ranking of word-ranker.js. A word's score is
    a product of letter probabilities, modelled over `real`. */
module WordRanker {
  import opened Wrappers
  import opened Seqs
  import opened Chars
  import opened StableSort
  import opened CountdownSimulator

  /** A letter-probability table as `analyzeManagedStackFrequencies` returns
      it; `None` stands for NaN. */
  type Probabilities = map<char, Option<real>>

  /** `probs[letter] || 0`: a missing letter, NaN and 0 all give 0. */
  function Lookup(probs: Probabilities, c: char): real {
    if c in probs && probs[c].Some? then probs[c].value else 0.0
  }

  /** A looked-up probability is 0 exactly when the letter is missing, its
      value is NaN or it is 0; otherwise it is the stored number. */
  lemma LookupOrZero(probs: Probabilities, c: char)
    ensures Lookup(probs, c) == 0.0 <==> c !in probs || probs[c] == None || probs[c] == Some(0.0)
    ensures Lookup(probs, c) != 0.0 ==> probs[c] == Some(Lookup(probs, c))
  {
  }

  /** The probability a letter is scored with: a vowel is looked up in the
      vowel table, every other character in the consonant table. */
  function LetterProb(c: char, vowelProbs: Probabilities, consonantProbs: Probabilities): real {
    if IsVowel(c) then Lookup(vowelProbs, c) else Lookup(consonantProbs, c)
  }

  /** A non-zero letter probability is the number stored for the letter in
      the table of its kind: the vowel table for A, E, I, O and U, the
      consonant table for every other character. */
  lemma LetterProbSource(c: char, vowelProbs: Probabilities, consonantProbs: Probabilities)
    ensures LetterProb(c, vowelProbs, consonantProbs) != 0.0 && c in "AEIOU" ==>
      c in vowelProbs && vowelProbs[c] == Some(LetterProb(c, vowelProbs, consonantProbs))
    ensures LetterProb(c, vowelProbs, consonantProbs) != 0.0 && c !in "AEIOU" ==>
      c in consonantProbs && consonantProbs[c] == Some(LetterProb(c, vowelProbs, consonantProbs))
  {
  }

  /** `Math.pow(x, n)` for a natural exponent. */
  function Pow(x: real, n: nat): real {
    if n == 0 then 1.0 else Pow(x, n - 1) * x
  }

  lemma {:induction false} PowPositive(x: real, n: nat)
    requires x > 0.0
    ensures Pow(x, n) > 0.0
  {
    if n > 0 {
      PowPositive(x, n - 1);
    }
  }

  /** The factor of a letter that occurs `count` times: its probability for
      a single occurrence, times the penalty `0.05^(count-1)` otherwise. */
  function Factor(p: real, count: nat): real {
    if count <= 1 then p else p * Pow(0.05, count - 1)
  }

  /** The two branches agree, and every further occurrence of a letter
      multiplies its factor by 0.05. */
  lemma FactorPenalty(p: real, count: nat)
    requires count >= 1
    ensures Factor(p, count) == p * Pow(0.05, count - 1)
    ensures Factor(p, count + 1) == Factor(p, count) * 0.05
  {
  }

  /** The factor of letter `c` in the upper-cased word `upper`. */
  function LetterFactor(upper: string, vowelProbs: Probabilities, consonantProbs: Probabilities, c: char): real {
    Factor(LetterProb(c, vowelProbs, consonantProbs), multiset(upper)[c])
  }

  /** Multiplication, as a function of its own: the proofs replace a factor
      by an equal one through it without asking the solver for non-linear
      reasoning. */
  function Times(a: real, b: real): real {
    a * b
  }

  /** Scaling either factor by the duplicate penalty scales the product. */
  lemma TimesPenalty(a: real, b: real)
    ensures Times(a * 0.05, b) == Times(a, b) * 0.05
    ensures Times(a, b * 0.05) == Times(a, b) * 0.05
  {
  }

  /** The product of the factors of `letters` in the word `upper`. */
  function Product(letters: seq<char>, upper: string, vowelProbs: Probabilities, consonantProbs: Probabilities): real {
    if letters == [] then 1.0
    else
      Times(Product(letters[..|letters| - 1], upper, vowelProbs, consonantProbs),
            LetterFactor(upper, vowelProbs, consonantProbs, letters[|letters| - 1]))
  }

  /** The score of a word: the product, over its distinct upper-cased
      letters, of each letter's factor. */
  function WordScore(word: string, vowelProbs: Probabilities, consonantProbs: Probabilities): real {
    Product(Distinct(Upper(word)), Upper(word), vowelProbs, consonantProbs)
  }

  lemma ProductStep(letters: seq<char>, upper: string, vowelProbs: Probabilities, consonantProbs: Probabilities, k: nat)
    requires k < |letters|
    ensures Product(letters[..k + 1], upper, vowelProbs, consonantProbs)
         == Times(Product(letters[..k], upper, vowelProbs, consonantProbs), LetterFactor(upper, vowelProbs, consonantProbs, letters[k]))
  {
    assert letters[..k + 1][..k] == letters[..k];
  }

  /** Multiplying the product of the first `k` letters by the factor of
      letter `k` gives the product of the first `k + 1`. */
  lemma ProductNext(letters: seq<char>, upper: string, vowelProbs: Probabilities, consonantProbs: Probabilities,
                    k: nat, before: real, after: real)
    requires k < |letters|
    requires before == Product(letters[..k], upper, vowelProbs, consonantProbs)
    requires after == Times(before, LetterFactor(upper, vowelProbs, consonantProbs, letters[k]))
    ensures after == Product(letters[..k + 1], upper, vowelProbs, consonantProbs)
  {
    ProductStep(letters, upper, vowelProbs, consonantProbs, k);
  }

  lemma ProductSnoc(letters: seq<char>, c: char, upper: string, vowelProbs: Probabilities, consonantProbs: Probabilities)
    ensures Product(letters + [c], upper, vowelProbs, consonantProbs)
         == Times(Product(letters, upper, vowelProbs, consonantProbs), LetterFactor(upper, vowelProbs, consonantProbs, c))
  {
    assert (letters + [c])[..|letters|] == letters;
  }

  /** Two factors applied in either order give the same product. */
  lemma TimesSwap(a: real, f: real, g: real)
    ensures Times(Times(a, f), g) == Times(Times(a, g), f)
  {
  }

  /** The product is the factor of any one letter times the product of the
      others. */
  lemma {:induction false} ProductRemove(letters: seq<char>, upper: string, vowelProbs: Probabilities, consonantProbs: Probabilities, k: nat)
    requires k < |letters|
    ensures Product(letters, upper, vowelProbs, consonantProbs)
         == Times(Product(letters[..k] + letters[k + 1..], upper, vowelProbs, consonantProbs),
                  LetterFactor(upper, vowelProbs, consonantProbs, letters[k]))
  {
    var n := |letters| - 1;
    var front := letters[..n];
    if k == n {
      assert letters[..k] + letters[k + 1..] == front;
    } else {
      ProductRemove(front, upper, vowelProbs, consonantProbs, k);
      var rest := front[..k] + front[k + 1..];
      assert letters[..k] + letters[k + 1..] == rest + [letters[n]];
      ProductSnoc(rest, letters[n], upper, vowelProbs, consonantProbs);
      TimesSwap(Product(rest, upper, vowelProbs, consonantProbs),
                LetterFactor(upper, vowelProbs, consonantProbs, letters[k]),
                LetterFactor(upper, vowelProbs, consonantProbs, letters[n]));
    }
  }

  /** The product does not depend on the order of the letters, so the order
      in which `Object.entries` lists the letter counts does not change the
      score. */
  lemma {:induction false} ProductPermutation(a: seq<char>, b: seq<char>, upper: string, vowelProbs: Probabilities, consonantProbs: Probabilities)
    requires multiset(a) == multiset(b)
    ensures Product(a, upper, vowelProbs, consonantProbs) == Product(b, upper, vowelProbs, consonantProbs)
    decreases |a|
  {
    if a == [] {
      assert |b| == |multiset(b)| == 0;
    } else {
      var n := |a| - 1;
      assert a[n] in multiset(b);
      var k :| 0 <= k < |b| && b[k] == a[n];
      RemoveAtMultiset(a, n);
      RemoveAtMultiset(b, k);
      assert a[..n] + a[n + 1..] == a[..n];
      ProductPermutation(a[..n], b[..k] + b[k + 1..], upper, vowelProbs, consonantProbs);
      ProductRemove(b, upper, vowelProbs, consonantProbs, k);
    }
  }

  /** One zero factor makes the product zero. */
  lemma {:induction false} ProductZero(letters: seq<char>, upper: string, vowelProbs: Probabilities, consonantProbs: Probabilities, k: nat)
    requires k < |letters| && LetterFactor(upper, vowelProbs, consonantProbs, letters[k]) == 0.0
    ensures Product(letters, upper, vowelProbs, consonantProbs) == 0.0
  {
    if k < |letters| - 1 {
      ProductZero(letters[..|letters| - 1], upper, vowelProbs, consonantProbs, k);
    }
  }

  /** Without a zero factor the product is not zero. */
  lemma {:induction false} ProductNonZero(letters: seq<char>, upper: string, vowelProbs: Probabilities, consonantProbs: Probabilities)
    requires forall i :: 0 <= i < |letters| ==> LetterFactor(upper, vowelProbs, consonantProbs, letters[i]) != 0.0
    ensures Product(letters, upper, vowelProbs, consonantProbs) != 0.0
  {
    if letters != [] {
      ProductNonZero(letters[..|letters| - 1], upper, vowelProbs, consonantProbs);
    }
  }

  /** Two words in which the letters occur equally often give the letters
      the same product. */
  lemma {:induction false} ProductAgree(letters: seq<char>, u: string, v: string, vowelProbs: Probabilities, consonantProbs: Probabilities)
    requires forall i :: 0 <= i < |letters| ==> multiset(u)[letters[i]] == multiset(v)[letters[i]]
    ensures Product(letters, u, vowelProbs, consonantProbs) == Product(letters, v, vowelProbs, consonantProbs)
  {
    if letters != [] {
      ProductAgree(letters[..|letters| - 1], u, v, vowelProbs, consonantProbs);
    }
  }

  /** One more occurrence of a letter the word already has multiplies the
      product by 0.05. */
  lemma {:induction false} ProductPenalty(letters: seq<char>, u: string, v: string, vowelProbs: Probabilities, consonantProbs: Probabilities, x: char)
    requires NoDuplicates(letters) && x in letters
    requires multiset(u)[x] >= 1 && multiset(v)[x] == multiset(u)[x] + 1
    requires forall i :: 0 <= i < |letters| && letters[i] != x ==> multiset(u)[letters[i]] == multiset(v)[letters[i]]
    ensures Product(letters, v, vowelProbs, consonantProbs) == Product(letters, u, vowelProbs, consonantProbs) * 0.05
  {
    var p := letters[..|letters| - 1];
    var last := letters[|letters| - 1];
    assert forall i :: 0 <= i < |p| ==> p[i] == letters[i];
    if last == x {
      assert x !in p;
      ProductAgree(p, u, v, vowelProbs, consonantProbs);
      FactorPenalty(LetterProb(x, vowelProbs, consonantProbs), multiset(u)[x]);
      TimesPenalty(Product(p, u, vowelProbs, consonantProbs), LetterFactor(u, vowelProbs, consonantProbs, x));
    } else {
      ProductPenalty(p, u, v, vowelProbs, consonantProbs, x);
      assert multiset(v)[last] == multiset(u)[last];
      TimesPenalty(Product(p, u, vowelProbs, consonantProbs), LetterFactor(u, vowelProbs, consonantProbs, last));
    }
  }

  /** `letterCounts[letter] = (letterCounts[letter] || 0) + 1` over the
      word: the occurrences of each letter, and the key order of the
      object, which is the order of first occurrence. */
  method CountLetters(upper: string) returns (counts: map<char, nat>, order: seq<char>)
    ensures order == Distinct(upper)
    ensures forall c :: c in counts <==> c in upper
    ensures forall c :: c in counts ==> counts[c] == multiset(upper)[c]
  {
    counts := map[];
    order := [];
    for i := 0 to |upper|
      invariant order == Distinct(upper[..i])
      invariant forall c :: c in counts <==> c in upper[..i]
      invariant forall c :: c in counts ==> counts[c] == multiset(upper[..i])[c]
    {
      var letter := upper[i];
      DistinctStep(upper, i);
      CountsStep(upper, i, counts);
      if letter !in counts {
        order := order + [letter];
      }
      var previous := if letter in counts then counts[letter] else 0;
      counts := counts[letter := previous + 1];
    }
    assert upper[..|upper|] == upper;
  }

  /** Counting one more letter keeps the counts those of the prefix read. */
  lemma CountsStep(upper: string, i: nat, counts: map<char, nat>)
    requires i < |upper|
    requires forall c :: c in counts <==> c in upper[..i]
    requires forall c :: c in counts ==> counts[c] == multiset(upper[..i])[c]
    ensures upper[i] in counts <==> upper[i] in upper[..i]
    ensures var counts' := counts[upper[i] := if upper[i] in counts then counts[upper[i]] + 1 else 1];
      (forall c :: c in counts' <==> c in upper[..i + 1]) &&
      (forall c :: c in counts' ==> counts'[c] == multiset(upper[..i + 1])[c])
  {
    assert upper[..i + 1] == upper[..i] + [upper[i]];
  }

  /** `calculateWordProbability`: count the letters, then multiply the
      factors in key order, stopping at the first letter whose probability
      is 0. */
  method CalculateWordProbability(word: string, vowelProbs: Probabilities, consonantProbs: Probabilities)
    returns (probability: real)
    ensures probability == WordScore(word, vowelProbs, consonantProbs)
  {
    var upperWord := Upper(word);
    var counts, order := CountLetters(upperWord);
    DistinctSpec(upperWord);
    probability := MultiplyFactors(upperWord, counts, order, vowelProbs, consonantProbs);
  }

  /** The second loop of `calculateWordProbability`, over the entries of the
      letter counts. */
  method MultiplyFactors(upperWord: string, counts: map<char, nat>, order: seq<char>,
                         vowelProbs: Probabilities, consonantProbs: Probabilities)
    returns (probability: real)
    requires forall k :: 0 <= k < |order| ==> order[k] in counts && counts[order[k]] == multiset(upperWord)[order[k]]
    requires forall k :: 0 <= k < |order| ==> order[k] in upperWord
    ensures probability == Product(order, upperWord, vowelProbs, consonantProbs)
  {
    probability := 1.0;
    var k := 0;
    while k < |order|
      invariant 0 <= k <= |order|
      invariant probability == Product(order[..k], upperWord, vowelProbs, consonantProbs)
    {
      var letter := order[k];
      var count := counts[letter];
      var letterProb := LetterProb(letter, vowelProbs, consonantProbs);
      if letterProb == 0.0 {
        probability := 0.0;
        ProductZero(order, upperWord, vowelProbs, consonantProbs, k);
        break;
      }
      assert count >= 1 by {
        assert letter in multiset(upperWord);
      }
      ghost var before := probability;
      probability := ApplyFactor(probability, letterProb, count);
      ProductNext(order, upperWord, vowelProbs, consonantProbs, k, before, probability);
      k := k + 1;
    }
    assert order[..|order|] == order;
  }

  /** The update of the running product for one letter: times its
      probability when it occurs once, times its probability and the
      duplicate penalty otherwise. */
  method ApplyFactor(probability: real, letterProb: real, count: nat) returns (next: real)
    requires count >= 1
    ensures next == Times(probability, Factor(letterProb, count))
  {
    if count == 1 {
      next := probability * letterProb;
    } else {
      var duplicatePenalty := Pow(0.05, count - 1);
      next := probability * (letterProb * duplicatePenalty);
    }
  }

  /** Scoring is case-insensitive. */
  lemma WordScoreCaseInsensitive(word: string, vowelProbs: Probabilities, consonantProbs: Probabilities)
    ensures WordScore(Upper(word), vowelProbs, consonantProbs) == WordScore(word, vowelProbs, consonantProbs)
  {
    UpperIdempotent(word);
  }

  /** A word scores 0 exactly when one of its letters has probability 0 in
      the table it is looked up in (including letters the table lacks). */
  lemma WordScoreZero(word: string, vowelProbs: Probabilities, consonantProbs: Probabilities)
    ensures WordScore(word, vowelProbs, consonantProbs) == 0.0 <==>
      exists i :: 0 <= i < |word| && LetterProb(UpperChar(word[i]), vowelProbs, consonantProbs) == 0.0
  {
    if i :| 0 <= i < |word| && LetterProb(UpperChar(word[i]), vowelProbs, consonantProbs) == 0.0 {
      ZeroLetterZeroScore(word, vowelProbs, consonantProbs, i);
    } else {
      PositiveLettersNonZeroScore(word, vowelProbs, consonantProbs);
    }
  }

  lemma ZeroLetterZeroScore(word: string, vowelProbs: Probabilities, consonantProbs: Probabilities, i: nat)
    requires i < |word| && LetterProb(UpperChar(word[i]), vowelProbs, consonantProbs) == 0.0
    ensures WordScore(word, vowelProbs, consonantProbs) == 0.0
  {
    var upper := Upper(word);
    var letters := Distinct(upper);
    DistinctSpec(upper);
    assert upper[i] in letters;
    var k :| 0 <= k < |letters| && letters[k] == upper[i];
    ProductZero(letters, upper, vowelProbs, consonantProbs, k);
  }

  lemma PositiveLettersNonZeroScore(word: string, vowelProbs: Probabilities, consonantProbs: Probabilities)
    requires forall i :: 0 <= i < |word| ==> LetterProb(UpperChar(word[i]), vowelProbs, consonantProbs) != 0.0
    ensures WordScore(word, vowelProbs, consonantProbs) != 0.0
  {
    var upper := Upper(word);
    var letters := Distinct(upper);
    DistinctSpec(upper);
    forall k | 0 <= k < |letters| ensures LetterFactor(upper, vowelProbs, consonantProbs, letters[k]) != 0.0 {
      var c := letters[k];
      var i :| 0 <= i < |upper| && upper[i] == c;
      assert c in multiset(upper);
      PowPositive(0.05, multiset(upper)[c] - 1);
      FactorPenalty(LetterProb(c, vowelProbs, consonantProbs), multiset(upper)[c]);
    }
    ProductNonZero(letters, upper, vowelProbs, consonantProbs);
  }

  /** Appending a letter the word does not have multiplies its score by the
      letter's probability; appending one it has multiplies it by 0.05. */
  lemma WordScoreAppend(word: string, c: char, vowelProbs: Probabilities, consonantProbs: Probabilities)
    ensures UpperChar(c) !in Upper(word) ==>
      WordScore(word + [c], vowelProbs, consonantProbs)
      == Times(WordScore(word, vowelProbs, consonantProbs), LetterProb(UpperChar(c), vowelProbs, consonantProbs))
    ensures UpperChar(c) in Upper(word) ==>
      WordScore(word + [c], vowelProbs, consonantProbs) == WordScore(word, vowelProbs, consonantProbs) * 0.05
  {
    var u := Upper(word);
    var x := UpperChar(c);
    UpperConcat(word, [c]);
    assert Upper(word + [c]) == u + [x];
    DistinctSnoc(u, x);
    if x !in u {
      DistinctAvoids(u, x);
      ProductAppendNew(Distinct(u), u, x, vowelProbs, consonantProbs);
    } else {
      ProductAppendRepeat(u, x, vowelProbs, consonantProbs);
    }
  }

  lemma ProductAppendNew(letters: seq<char>, u: string, x: char, vowelProbs: Probabilities, consonantProbs: Probabilities)
    requires forall i :: 0 <= i < |letters| ==> letters[i] != x
    requires x !in u
    ensures Product(letters + [x], u + [x], vowelProbs, consonantProbs)
         == Times(Product(letters, u, vowelProbs, consonantProbs), LetterProb(x, vowelProbs, consonantProbs))
  {
    var v := u + [x];
    assert forall y :: multiset(v)[y] == multiset(u)[y] + (if y == x then 1 else 0);
    ProductSnoc(letters, x, v, vowelProbs, consonantProbs);
    ProductAgree(letters, u, v, vowelProbs, consonantProbs);
    assert multiset(v)[x] == 1;
  }

  lemma ProductAppendRepeat(u: string, x: char, vowelProbs: Probabilities, consonantProbs: Probabilities)
    requires x in u
    ensures Product(Distinct(u), u + [x], vowelProbs, consonantProbs)
         == Product(Distinct(u), u, vowelProbs, consonantProbs) * 0.05
  {
    var v := u + [x];
    assert forall y :: multiset(v)[y] == multiset(u)[y] + (if y == x then 1 else 0);
    assert x in multiset(u);
    DistinctSpec(u);
    ProductPenalty(Distinct(u), u, v, vowelProbs, consonantProbs, x);
  }

  /** The empty word scores 1, and a one-letter word scores its letter's
      probability. */
  lemma WordScoreSingle(c: char, vowelProbs: Probabilities, consonantProbs: Probabilities)
    ensures WordScore([], vowelProbs, consonantProbs) == 1.0
    ensures WordScore([c], vowelProbs, consonantProbs) == LetterProb(UpperChar(c), vowelProbs, consonantProbs)
  {
    assert Upper([]) == [];
    WordScoreAppend([], c, vowelProbs, consonantProbs);
    assert [] + [c] == [c];
  }

  /** `T` scores exactly the consonant probability of T. */
  lemma ScoreOfT(vowelProbs: Probabilities, consonantProbs: Probabilities)
    requires 'T' in consonantProbs && consonantProbs['T'].Some?
    ensures WordScore("T", vowelProbs, consonantProbs) == consonantProbs['T'].value
  {
    WordScoreSingle('T', vowelProbs, consonantProbs);
  }

  /** `AA` with A at 0.1 scores 0.1 * 0.05. */
  lemma ScoreOfAA(vowelProbs: Probabilities, consonantProbs: Probabilities)
    requires 'A' in vowelProbs && vowelProbs['A'] == Some(0.1)
    ensures WordScore("AA", vowelProbs, consonantProbs) == 0.005
  {
    WordScoreSingle('A', vowelProbs, consonantProbs);
    assert Upper("A") == "A";
    WordScoreAppend("A", 'A', vowelProbs, consonantProbs);
    assert "A" + ['A'] == "AA";
  }

  /** `COUNTDOWN_DISTRIBUTION.vowels[letter] || 0` or the consonant
      counterpart: how often the tiles hold a letter. */
  function MaxAvailable(c: char): nat {
    if IsVowel(c) then CountIn(VowelDistribution, c) else CountIn(ConsonantDistribution, c)
  }

  /** The tiles hold a character exactly when it is an upper-case ASCII
      letter: the five vowels and the twenty-one consonants cover the
      alphabet, and the `|| 0` fallback applies to every other character. */
  lemma MaxAvailablePositive(c: char)
    ensures MaxAvailable(c) > 0 <==> 'A' <= c <= 'Z'
  {
    if IsVowel(c) {
      VowelLetters();
    } else {
      ConsonantLetters();
    }
  }

  lemma VowelLetters()
    ensures forall c :: CountIn(VowelDistribution, c) > 0 <==> c in "AEIOU"
  {
    CategoryFacts(Vowels);
    assert Firsts(VowelDistribution) == "AEIOU";
  }

  lemma ConsonantLetters()
    ensures forall c :: CountIn(ConsonantDistribution, c) > 0 <==> c in "BCDFGHJKLMNPQRSTVWXYZ"
  {
    CategoryFacts(Consonants);
    assert Firsts(ConsonantDistribution) == "BCDFGHJKLMNPQRSTVWXYZ";
  }

  /** `/^[A-Za-z]+$/.test(word)`. A word that matches is upper-cased to
      letters A to Z only. */
  predicate MatchesLetters(word: string)
    ensures MatchesLetters(word) ==> forall i :: 0 <= i < |word| ==> 'A' <= Upper(word)[i] <= 'Z'
  {
    |word| > 0 && forall i :: 0 <= i < |word| ==> IsAsciiLetter(word[i])
  }

  /** Every letter of a word that passes the pattern check has tiles, so
      only the counts can reject it afterwards. */
  lemma MatchingWordHasTiles(word: string)
    requires MatchesLetters(word)
    ensures forall i :: 0 <= i < |word| ==> MaxAvailable(Upper(word)[i]) > 0
  {
    forall i | 0 <= i < |word|
      ensures MaxAvailable(Upper(word)[i]) > 0
    {
      MaxAvailablePositive(Upper(word)[i]);
    }
  }

  /** No letter of the upper-cased word occurs more often than the tiles
      hold it. */
  predicate WithinDistribution(upper: string) {
    forall i :: 0 <= i < |upper| ==> multiset(upper)[upper[i]] <= MaxAvailable(upper[i])
  }

  /** The condition `filterCountdownWords` keeps a word on. */
  predicate IsCountdownWord(word: string) {
    |word| <= 9 && MatchesLetters(word) && WithinDistribution(Upper(word))
  }

  /** A word is kept exactly when it has one to nine ASCII letters and needs
      no letter, case-insensitively, more often than the tiles hold it. */
  lemma IsCountdownWordMeaning(word: string)
    ensures IsCountdownWord(word) <==>
      1 <= |word| <= 9 &&
      (forall i :: 0 <= i < |word| ==> IsAsciiLetter(word[i])) &&
      (forall c :: multiset(Upper(word))[c] <= MaxAvailable(c))
  {
    var u := Upper(word);
    if WithinDistribution(u) {
      forall c ensures multiset(u)[c] <= MaxAvailable(c) {
        if c in multiset(u) {
          var i :| 0 <= i < |u| && u[i] == c;
        }
      }
    }
  }

  /** The callback of `filterCountdownWords`: the length check, the pattern
      check, then the letter counts against the table in key order, with an
      early `false` on the first failure. */
  method CheckCountdownWord(word: string) returns (keep: bool)
    ensures keep == IsCountdownWord(word)
  {
    if |word| > 9 {
      return false;
    }
    if !MatchesLetters(word) {
      return false;
    }
    keep := CheckLetterCounts(Upper(word));
  }

  /** The count check of the callback: count the letters of the upper-cased
      word, then compare each count with the table, in key order. */
  method CheckLetterCounts(upperWord: string) returns (keep: bool)
    ensures keep == WithinDistribution(upperWord)
  {
    var letterCounts, order := CountLetters(upperWord);
    DistinctSpec(upperWord);
    for k := 0 to |order|
      invariant forall j :: 0 <= j < k ==> multiset(upperWord)[order[j]] <= MaxAvailable(order[j])
    {
      var letter := order[k];
      var maxAvailable := MaxAvailable(letter);
      if letterCounts[letter] > maxAvailable {
        WithinDistributionByLetters(upperWord);
        return false;
      }
    }
    WithinDistributionByLetters(upperWord);
    return true;
  }

  /** Checking each distinct letter once is checking every position. */
  lemma WithinDistributionByLetters(upper: string)
    ensures WithinDistribution(upper) <==>
      forall j :: 0 <= j < |Distinct(upper)| ==> multiset(upper)[Distinct(upper)[j]] <= MaxAvailable(Distinct(upper)[j])
  {
    var order := Distinct(upper);
    DistinctSpec(upper);
    if forall j :: 0 <= j < |order| ==> multiset(upper)[order[j]] <= MaxAvailable(order[j]) {
      forall i | 0 <= i < |upper| ensures multiset(upper)[upper[i]] <= MaxAvailable(upper[i]) {
        assert upper[i] in order;
      }
    } else {
      var j :| 0 <= j < |order| && multiset(upper)[order[j]] > MaxAvailable(order[j]);
      assert order[j] in upper;
    }
  }

  /** `filterCountdownWords`: the kept words, in input order and with their
      input multiplicities. */
  function FilterCountdownWords(wordList: seq<string>): (r: seq<string>)
    ensures forall i :: 0 <= i < |r| ==> IsCountdownWord(r[i])
    ensures forall w :: multiset(r)[w] == if IsCountdownWord(w) then multiset(wordList)[w] else 0
    ensures IsSubsequence(r, wordList)
  {
    FilterIsSubsequence(wordList, IsCountdownWord);
    assert forall w :: multiset(Filter(wordList, IsCountdownWord))[w]
                       == if IsCountdownWord(w) then multiset(wordList)[w] else 0 by {
      forall w {
        FilterCount(wordList, IsCountdownWord, w);
      }
    }
    Filter(wordList, IsCountdownWord)
  }

  /** Nine Zs need the single Z tile nine times; a twenty-letter word is too
      long. */
  lemma RejectedTestWords()
    ensures !IsCountdownWord("ZZZZZZZZZ")
    ensures !IsCountdownWord("SUPERCALIFRAGILISTIC")
  {
    var z := "ZZZZZZZZZ";
    assert Upper(z) == z;
    assert multiset(z)['Z'] == 9;
    assert ConsonantDistribution[|ConsonantDistribution| - 1].0 == 'Z';
    assert MaxAvailable('Z') == 1;
  }

  /** The record `rankWordsByProbability` builds for one word. */
  datatype ScoredWord = ScoredWord(
    word: string,
    originalWord: string,
    probability: real,
    uniqueVowels: nat,
    uniqueConsonants: nat,
    totalUnique: nat,
    length: nat)

  ghost function VowelsOf(upper: string): set<char> {
    set i | 0 <= i < |upper| && IsVowel(upper[i]) :: upper[i]
  }

  ghost function ConsonantsOf(upper: string): set<char> {
    set i | 0 <= i < |upper| && !IsVowel(upper[i]) :: upper[i]
  }

  lemma LetterSetsStep(upper: string, i: nat)
    requires i < |upper|
    ensures VowelsOf(upper[..i + 1]) == VowelsOf(upper[..i]) + (if IsVowel(upper[i]) then {upper[i]} else {})
    ensures ConsonantsOf(upper[..i + 1]) == ConsonantsOf(upper[..i]) + (if IsVowel(upper[i]) then {} else {upper[i]})
  {
    var p := upper[..i + 1];
    assert forall j :: 0 <= j < i ==> p[j] == upper[..i][j];
    assert p[i] == upper[i];
  }

  /** The record of a word: its upper-cased form, the word itself, its
      score, the sizes of its sets of vowels and of other characters, their
      sum, and its length. */
  ghost function Record(word: string, vowelProbs: Probabilities, consonantProbs: Probabilities): ScoredWord {
    var upper := Upper(word);
    ScoredWord(upper, word, WordScore(word, vowelProbs, consonantProbs),
               |VowelsOf(upper)|, |ConsonantsOf(upper)|, |VowelsOf(upper)| + |ConsonantsOf(upper)|, |word|)
  }

  /** The `map` callback of `rankWordsByProbability`: score the word and
      fill the two letter sets. */
  method ScoreWord(word: string, vowelProbs: Probabilities, consonantProbs: Probabilities)
    returns (scored: ScoredWord)
    ensures scored == Record(word, vowelProbs, consonantProbs)
  {
    var upperWord := Upper(word);
    var probability := CalculateWordProbability(word, vowelProbs, consonantProbs);
    var vowels: set<char> := {};
    var consonants: set<char> := {};
    for i := 0 to |upperWord|
      invariant vowels == VowelsOf(upperWord[..i])
      invariant consonants == ConsonantsOf(upperWord[..i])
    {
      var letter := upperWord[i];
      LetterSetsStep(upperWord, i);
      if IsVowel(letter) {
        vowels := vowels + {letter};
      } else {
        consonants := consonants + {letter};
      }
    }
    assert upperWord[..|upperWord|] == upperWord;
    scored := ScoredWord(upperWord, word, probability, |vowels|, |consonants|, |vowels| + |consonants|, |word|);
  }

  /** The vowel and consonant sets split the word's distinct characters, so
      `totalUnique` is their number; there are at most five distinct
      vowels. */
  lemma RecordCounts(word: string, vowelProbs: Probabilities, consonantProbs: Probabilities)
    ensures Record(word, vowelProbs, consonantProbs).totalUnique == |Distinct(Upper(word))|
    ensures Record(word, vowelProbs, consonantProbs).uniqueVowels <= 5
    ensures |Record(word, vowelProbs, consonantProbs).word| == Record(word, vowelProbs, consonantProbs).length
  {
    var u := Upper(word);
    assert VowelsOf(u) + ConsonantsOf(u) == Elements(u);
    assert VowelsOf(u) * ConsonantsOf(u) == {};
    DistinctCard(u);
    ElementsCard("AEIOU");
    assert VowelsOf(u) <= Elements("AEIOU") by {
      forall c | c in VowelsOf(u) ensures c in Elements("AEIOU") {
        assert c in "AEIOU";
      }
    }
    SubsetCard(VowelsOf(u), Elements("AEIOU"));
  }

  /** The records of the input words, in input order. */
  ghost function Records(wordList: seq<string>, vowelProbs: Probabilities, consonantProbs: Probabilities): (r: seq<ScoredWord>)
    ensures |r| == |wordList|
  {
    if wordList == [] then []
    else Records(wordList[..|wordList| - 1], vowelProbs, consonantProbs)
         + [Record(wordList[|wordList| - 1], vowelProbs, consonantProbs)]
  }

  lemma RecordsStep(wordList: seq<string>, vowelProbs: Probabilities, consonantProbs: Probabilities, i: nat)
    requires i < |wordList|
    ensures Records(wordList[..i + 1], vowelProbs, consonantProbs)
         == Records(wordList[..i], vowelProbs, consonantProbs) + [Record(wordList[i], vowelProbs, consonantProbs)]
  {
    assert wordList[..i + 1][..i] == wordList[..i];
  }

  /** The comparator `(a, b) => b.probability - a.probability` sorts by
      ascending negated probability. */
  function RankKey(s: ScoredWord): real {
    -s.probability
  }

  /** The comparator puts `a` before `b` (a negative value) exactly when `a`
      has the smaller key, and reports a tie exactly when the keys agree. */
  lemma RankKeyComparator(a: ScoredWord, b: ScoredWord)
    ensures b.probability - a.probability < 0.0 <==> RankKey(a) < RankKey(b)
    ensures b.probability - a.probability == 0.0 <==> RankKey(a) == RankKey(b)
  {
  }

  /** `rankWordsByProbability`: one record per input word, in non-increasing
      order of probability, records of equal probability in input order. */
  method RankWordsByProbability(wordList: seq<string>, vowelProbs: Probabilities, consonantProbs: Probabilities)
    returns (ranked: seq<ScoredWord>)
    ensures |ranked| == |wordList|
    ensures multiset(ranked) == multiset(Records(wordList, vowelProbs, consonantProbs))
    ensures forall i, j :: 0 <= i < j < |ranked| ==> ranked[i].probability >= ranked[j].probability
    ensures forall v :: Filter(ranked, HasKey(RankKey, v))
                     == Filter(Records(wordList, vowelProbs, consonantProbs), HasKey(RankKey, v))
  {
    var wordScores := [];
    for i := 0 to |wordList|
      invariant wordScores == Records(wordList[..i], vowelProbs, consonantProbs)
    {
      var scored := ScoreWord(wordList[i], vowelProbs, consonantProbs);
      RecordsStep(wordList, vowelProbs, consonantProbs, i);
      wordScores := wordScores + [scored];
    }
    assert wordList[..|wordList|] == wordList;
    ranked := SortBy(wordScores, RankKey);
    SortedRecords(wordScores, ranked);
  }

  /** The sort by `RankKey` keeps every record, orders them by
      non-increasing probability and keeps ties in input order. */
  lemma SortedRecords(records: seq<ScoredWord>, ranked: seq<ScoredWord>)
    requires ranked == SortBy(records, RankKey)
    ensures |ranked| == |records|
    ensures multiset(ranked) == multiset(records)
    ensures forall i, j :: 0 <= i < j < |ranked| ==> ranked[i].probability >= ranked[j].probability
    ensures forall v :: Filter(ranked, HasKey(RankKey, v)) == Filter(records, HasKey(RankKey, v))
  {
    assert |ranked| == |multiset(ranked)| == |records|;
    forall v ensures Filter(ranked, HasKey(RankKey, v)) == Filter(records, HasKey(RankKey, v)) {
      SortByStable(records, RankKey, v);
    }
  }
}
