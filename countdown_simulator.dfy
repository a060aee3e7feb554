/** The managed letter stack of countdown-simulator.js: the letter table, the
    stack built from it, the Fisher-Yates shuffle, the single-pass extraction
    of consecutive duplicates, prefix draws, a letter round, and the Monte
    Carlo tally of letters seen in the first N positions. */
module CountdownSimulator {
  import opened Wrappers
  import opened Seqs
  import opened Chars

  datatype Category = Vowels | Consonants

  /** A letter table: (letter, count) entries in declaration order. */
  type Distribution = seq<(char, nat)>

  const VowelDistribution: Distribution :=
    [('A', 15), ('E', 21), ('I', 13), ('O', 13), ('U', 5)]

  const ConsonantDistribution: Distribution :=
    [('B', 2), ('C', 3), ('D', 6), ('F', 2), ('G', 3), ('H', 2), ('J', 1), ('K', 1), ('L', 5), ('M', 4),
     ('N', 8), ('P', 4), ('Q', 1), ('R', 9), ('S', 9), ('T', 9), ('V', 1), ('W', 1), ('X', 1), ('Y', 1), ('Z', 1)]

  function DistributionOf(category: Category): Distribution {
    match category
    case Vowels => VowelDistribution
    case Consonants => ConsonantDistribution
  }

  /** `distribution[letter] || 0`: the configured count of a letter, 0 for a
      letter the table does not have. */
  function CountIn(d: Distribution, c: char): nat {
    if d == [] then 0
    else if d[|d| - 1].0 == c then d[|d| - 1].1
    else CountIn(d[..|d| - 1], c)
  }

  /** The sum of the counts: the number of tiles in the pool. */
  function PoolSize(d: Distribution): nat {
    if d == [] then 0 else PoolSize(d[..|d| - 1]) + d[|d| - 1].1
  }

  /** Letters strictly ascending and every count positive, checked entry by
      entry so that the two literal tables can be checked step by step. */
  predicate WellFormed(d: Distribution) {
    d == [] ||
    (WellFormed(d[..|d| - 1]) && d[|d| - 1].1 > 0 &&
     (|d| == 1 || d[|d| - 2].0 < d[|d| - 1].0))
  }

  lemma {:induction false} PoolSizeStep(d: Distribution, k: nat)
    requires k < |d|
    ensures PoolSize(d[..k + 1]) == PoolSize(d[..k]) + d[k].1
  {
    assert d[..k + 1][..k] == d[..k];
  }

  lemma {:induction false} WellFormedStep(d: Distribution, k: nat)
    requires k < |d|
    ensures WellFormed(d[..k + 1]) == (WellFormed(d[..k]) && d[k].1 > 0 && (k == 0 || d[k - 1].0 < d[k].0))
  {
    assert d[..k + 1][..k] == d[..k];
  }

  lemma WellFormedSnoc(d: Distribution, e: (char, nat))
    ensures WellFormed(d + [e]) == (WellFormed(d) && e.1 > 0 && (d == [] || d[|d| - 1].0 < e.0))
  {
    assert (d + [e])[..|d|] == d;
  }

  /** Two well-formed tables, the letters of the first all before those of
      the second, make a well-formed table. */
  lemma {:induction false} WellFormedConcat(a: Distribution, b: Distribution)
    requires WellFormed(a) && WellFormed(b)
    requires a != [] && b != [] && a[|a| - 1].0 < b[0].0
    ensures WellFormed(a + b)
    decreases |b|
  {
    var q := b[..|b| - 1];
    WellFormedSnoc(a + q, b[|b| - 1]);
    assert a + b == (a + q) + [b[|b| - 1]];
    if q != [] {
      WellFormedConcat(a, q);
      assert (a + q)[|a + q| - 1] == q[|q| - 1];
    }
  }

  /** A well-formed table names each letter once and gives it a positive count. */
  lemma {:induction false} WellFormedLetters(d: Distribution)
    requires WellFormed(d)
    ensures NoDuplicates(Firsts(d))
    ensures forall i :: 0 <= i < |d| ==> d[i].1 > 0
    ensures forall i, j :: 0 <= i < j < |d| ==> d[i].0 < d[j].0
  {
    if d != [] {
      var p := d[..|d| - 1];
      WellFormedLetters(p);
      assert forall i :: 0 <= i < |p| ==> p[i] == d[i];
    }
  }

  /** The letter table of countdown-simulator.js:6-18 names each letter once
      with a positive count; it has 67 vowel tiles and 74 consonant tiles. */
  lemma DistributionFacts()
    ensures WellFormed(VowelDistribution) && WellFormed(ConsonantDistribution)
    ensures PoolSize(VowelDistribution) == 67
    ensures PoolSize(ConsonantDistribution) == 74
  {
    VowelsWellFormed();
    ConsonantsWellFormed();
    VowelPoolSize();
    ConsonantPoolSize();
  }

  lemma VowelsWellFormed()
    ensures WellFormed(VowelDistribution)
  {
    assert VowelDistribution[..0] == [];
    WellFormedStep(VowelDistribution, 0); assert WellFormed(VowelDistribution[..1]);
    WellFormedStep(VowelDistribution, 1); assert WellFormed(VowelDistribution[..2]);
    WellFormedStep(VowelDistribution, 2); assert WellFormed(VowelDistribution[..3]);
    WellFormedStep(VowelDistribution, 3); assert WellFormed(VowelDistribution[..4]);
    WellFormedStep(VowelDistribution, 4); assert WellFormed(VowelDistribution[..5]);
    assert VowelDistribution[..5] == VowelDistribution;
  }

  lemma ConsonantsWellFormed()
    ensures WellFormed(ConsonantDistribution)
  {
    var head: Distribution := [('B', 2), ('C', 3), ('D', 6), ('F', 2), ('G', 3), ('H', 2), ('J', 1), ('K', 1), ('L', 5), ('M', 4)];
    var tail: Distribution := [('N', 8), ('P', 4), ('Q', 1), ('R', 9), ('S', 9), ('T', 9), ('V', 1), ('W', 1), ('X', 1), ('Y', 1), ('Z', 1)];
    ConsonantHeadWellFormed(head);
    ConsonantTailWellFormed(tail);
    WellFormedConcat(head, tail);
    assert head + tail == ConsonantDistribution;
  }

  lemma ConsonantHeadWellFormed(head: Distribution)
    requires head == [('B', 2), ('C', 3), ('D', 6), ('F', 2), ('G', 3), ('H', 2), ('J', 1), ('K', 1), ('L', 5), ('M', 4)]
    ensures WellFormed(head)
  {
    var d0: Distribution := [];
    var d1 := d0 + [('B', 2)]; WellFormedSnoc(d0, ('B', 2));
    var d2 := d1 + [('C', 3)]; WellFormedSnoc(d1, ('C', 3));
    var d3 := d2 + [('D', 6)]; WellFormedSnoc(d2, ('D', 6));
    var d4 := d3 + [('F', 2)]; WellFormedSnoc(d3, ('F', 2));
    var d5 := d4 + [('G', 3)]; WellFormedSnoc(d4, ('G', 3));
    var d6 := d5 + [('H', 2)]; WellFormedSnoc(d5, ('H', 2));
    var d7 := d6 + [('J', 1)]; WellFormedSnoc(d6, ('J', 1));
    var d8 := d7 + [('K', 1)]; WellFormedSnoc(d7, ('K', 1));
    var d9 := d8 + [('L', 5)]; WellFormedSnoc(d8, ('L', 5));
    var d10 := d9 + [('M', 4)]; WellFormedSnoc(d9, ('M', 4));
    assert d10 == head;
  }

  lemma ConsonantTailWellFormed(tail: Distribution)
    requires tail == [('N', 8), ('P', 4), ('Q', 1), ('R', 9), ('S', 9), ('T', 9), ('V', 1), ('W', 1), ('X', 1), ('Y', 1), ('Z', 1)]
    ensures WellFormed(tail)
  {
    var d0: Distribution := [];
    var d1 := d0 + [('N', 8)]; WellFormedSnoc(d0, ('N', 8));
    var d2 := d1 + [('P', 4)]; WellFormedSnoc(d1, ('P', 4));
    var d3 := d2 + [('Q', 1)]; WellFormedSnoc(d2, ('Q', 1));
    var d4 := d3 + [('R', 9)]; WellFormedSnoc(d3, ('R', 9));
    var d5 := d4 + [('S', 9)]; WellFormedSnoc(d4, ('S', 9));
    var d6 := d5 + [('T', 9)]; WellFormedSnoc(d5, ('T', 9));
    var d7 := d6 + [('V', 1)]; WellFormedSnoc(d6, ('V', 1));
    var d8 := d7 + [('W', 1)]; WellFormedSnoc(d7, ('W', 1));
    var d9 := d8 + [('X', 1)]; WellFormedSnoc(d8, ('X', 1));
    var d10 := d9 + [('Y', 1)]; WellFormedSnoc(d9, ('Y', 1));
    var d11 := d10 + [('Z', 1)]; WellFormedSnoc(d10, ('Z', 1));
    assert d11 == tail;
  }

  lemma VowelPoolSize()
    ensures PoolSize(VowelDistribution) == 67
  {
    assert VowelDistribution[..0] == [];
    PoolSizeStep(VowelDistribution, 0); assert PoolSize(VowelDistribution[..1]) == 15;
    PoolSizeStep(VowelDistribution, 1); assert PoolSize(VowelDistribution[..2]) == 36;
    PoolSizeStep(VowelDistribution, 2); assert PoolSize(VowelDistribution[..3]) == 49;
    PoolSizeStep(VowelDistribution, 3); assert PoolSize(VowelDistribution[..4]) == 62;
    PoolSizeStep(VowelDistribution, 4); assert PoolSize(VowelDistribution[..5]) == 67;
    assert PoolSize(VowelDistribution[..5]) == PoolSize(VowelDistribution);
  }

  lemma ConsonantPoolSize()
    ensures PoolSize(ConsonantDistribution) == 74
  {
    assert ConsonantDistribution[..0] == [];
    PoolSizeStep(ConsonantDistribution, 0); assert PoolSize(ConsonantDistribution[..1]) == 2;
    PoolSizeStep(ConsonantDistribution, 1); assert PoolSize(ConsonantDistribution[..2]) == 5;
    PoolSizeStep(ConsonantDistribution, 2); assert PoolSize(ConsonantDistribution[..3]) == 11;
    PoolSizeStep(ConsonantDistribution, 3); assert PoolSize(ConsonantDistribution[..4]) == 13;
    PoolSizeStep(ConsonantDistribution, 4); assert PoolSize(ConsonantDistribution[..5]) == 16;
    PoolSizeStep(ConsonantDistribution, 5); assert PoolSize(ConsonantDistribution[..6]) == 18;
    PoolSizeStep(ConsonantDistribution, 6); assert PoolSize(ConsonantDistribution[..7]) == 19;
    PoolSizeStep(ConsonantDistribution, 7); assert PoolSize(ConsonantDistribution[..8]) == 20;
    PoolSizeStep(ConsonantDistribution, 8); assert PoolSize(ConsonantDistribution[..9]) == 25;
    PoolSizeStep(ConsonantDistribution, 9); assert PoolSize(ConsonantDistribution[..10]) == 29;
    PoolSizeStep(ConsonantDistribution, 10); assert PoolSize(ConsonantDistribution[..11]) == 37;
    PoolSizeStep(ConsonantDistribution, 11); assert PoolSize(ConsonantDistribution[..12]) == 41;
    PoolSizeStep(ConsonantDistribution, 12); assert PoolSize(ConsonantDistribution[..13]) == 42;
    PoolSizeStep(ConsonantDistribution, 13); assert PoolSize(ConsonantDistribution[..14]) == 51;
    PoolSizeStep(ConsonantDistribution, 14); assert PoolSize(ConsonantDistribution[..15]) == 60;
    PoolSizeStep(ConsonantDistribution, 15); assert PoolSize(ConsonantDistribution[..16]) == 69;
    PoolSizeStep(ConsonantDistribution, 16); assert PoolSize(ConsonantDistribution[..17]) == 70;
    PoolSizeStep(ConsonantDistribution, 17); assert PoolSize(ConsonantDistribution[..18]) == 71;
    PoolSizeStep(ConsonantDistribution, 18); assert PoolSize(ConsonantDistribution[..19]) == 72;
    PoolSizeStep(ConsonantDistribution, 19); assert PoolSize(ConsonantDistribution[..20]) == 73;
    PoolSizeStep(ConsonantDistribution, 20); assert PoolSize(ConsonantDistribution[..21]) == 74;
    assert PoolSize(ConsonantDistribution[..21]) == PoolSize(ConsonantDistribution);
  }


  lemma {:induction false} CountInAbsent(d: Distribution, c: char)
    requires c !in Firsts(d)
    ensures CountIn(d, c) == 0
  {
    if d != [] {
      assert Firsts(d[..|d| - 1]) == Firsts(d)[..|d| - 1];
      assert Firsts(d)[|d| - 1] == d[|d| - 1].0;
      CountInAbsent(d[..|d| - 1], c);
    }
  }

  /** The expanded table holds each letter exactly its configured number of
      times, and as many tiles as the pool size. */
  lemma {:induction false} ExpandCounts(d: Distribution, c: char)
    requires NoDuplicates(Firsts(d))
    ensures multiset(Expand(d))[c] == CountIn(d, c)
    ensures |Expand(d)| == PoolSize(d)
  {
    if d != [] {
      var p := d[..|d| - 1];
      var (x, n) := d[|d| - 1];
      assert Firsts(p) == Firsts(d)[..|d| - 1];
      ExpandCounts(p, c);
      RepeatCount(x, n, c);
      if x == c {
        assert Firsts(d)[|d| - 1] == c;
        assert forall i :: 0 <= i < |p| ==> Firsts(p)[i] == Firsts(d)[i] != c;
        CountInAbsent(p, c);
      }
    }
  }

  /** `createLetterStack`: every letter of the table pushed its configured
      number of times, in table order. */
  method CreateLetterStack(category: Category) returns (stack: seq<char>)
    ensures stack == Expand(DistributionOf(category))
    ensures |stack| == PoolSize(DistributionOf(category))
    ensures forall c :: multiset(stack)[c] == CountIn(DistributionOf(category), c)
  {
    var distribution := DistributionOf(category);
    stack := [];
    for e := 0 to |distribution|
      invariant stack == Expand(distribution[..e])
    {
      var (letter, count) := distribution[e];
      ExpandStep(distribution, e);
      for i := 0 to count
        invariant stack == Expand(distribution[..e]) + Repeat(letter, i)
      {
        stack := stack + [letter];
      }
    }
    assert distribution[..|distribution|] == distribution;
    CategoryFacts(category);
    ExpandAllCounts(distribution);
  }

  lemma ExpandAllCounts(d: Distribution)
    requires NoDuplicates(Firsts(d))
    ensures |Expand(d)| == PoolSize(d)
    ensures forall c :: multiset(Expand(d))[c] == CountIn(d, c)
  {
    forall c ensures multiset(Expand(d))[c] == CountIn(d, c) {
      ExpandCounts(d, c);
    }
    ExpandCounts(d, 'A');
  }

  /** `shuffleArray`: Fisher-Yates on a copy of the input, swapping position
      i with a position j in [0, i] for i from the last index down to 1. The
      random choice of j is left open, so what is proved holds for every
      sequence of choices. The input is a value and cannot change. */
  method ShuffleArray<T>(input: seq<T>) returns (shuffled: seq<T>)
    ensures |shuffled| == |input|
    ensures multiset(shuffled) == multiset(input)
  {
    var a := new T[|input|](k requires 0 <= k < |input| => input[k]);
    assert a[..] == input;
    var i := a.Length - 1;
    while i > 0
      invariant -1 <= i < a.Length
      invariant multiset(a[..]) == multiset(input)
    {
      assert 0 <= i <= i;
      var j :| 0 <= j <= i;
      ghost var before := a[..];
      a[i], a[j] := a[j], a[i];
      assert a[..] == before[i := before[j]][j := before[i]];
      SwapKeepsMultiset(before, i, j);
      i := i - 1;
    }
    shuffled := a[..];
  }

  /** Exchanging two elements of a sequence keeps its multiset. */
  lemma SwapKeepsMultiset<T>(s: seq<T>, i: nat, j: nat)
    requires i < |s| && j < |s|
    ensures multiset(s[i := s[j]][j := s[i]]) == multiset(s)
  {
  }

  /** The elements kept in place by the extraction: the first element and
      every element that differs from the element before it in the INPUT. */
  function Retained<T(==)>(s: seq<T>): (r: seq<T>)
    ensures |r| <= |s|
  {
    if s == [] then []
    else
      Retained(s[..|s| - 1]) + (if |s| == 1 || s[|s| - 1] != s[|s| - 2] then [s[|s| - 1]] else [])
  }

  /** The elements moved to the tail: those equal to the element before them
      in the input. */
  function Relocated<T(==)>(s: seq<T>): (r: seq<T>)
    ensures |r| <= |s|
  {
    if s == [] then []
    else
      Relocated(s[..|s| - 1]) + (if |s| == 1 || s[|s| - 1] != s[|s| - 2] then [] else [s[|s| - 1]])
  }

  /** The managed stack: the retained elements followed by the relocated
      ones, each group in input order. */
  function Managed<T(==)>(s: seq<T>): seq<T> {
    Retained(s) + Relocated(s)
  }

  lemma {:induction false} ExtractStep<T>(s: seq<T>, i: nat)
    requires i < |s|
    ensures Retained(s[..i + 1]) == Retained(s[..i]) + (if i == 0 || s[i] != s[i - 1] then [s[i]] else [])
    ensures Relocated(s[..i + 1]) == Relocated(s[..i]) + (if i == 0 || s[i] != s[i - 1] then [] else [s[i]])
  {
    assert s[..i + 1][..i] == s[..i];
  }

  lemma ExtractSnoc<T>(s: seq<T>, x: T)
    ensures Retained(s + [x]) == Retained(s) + (if s == [] || x != s[|s| - 1] then [x] else [])
    ensures Relocated(s + [x]) == Relocated(s) + (if s == [] || x != s[|s| - 1] then [] else [x])
  {
    var t := s + [x];
    assert t[..|t| - 1] == s;
    assert t[|t| - 1] == x;
    if s != [] {
      assert t[|t| - 2] == s[|s| - 1];
    }
  }

  /** `extractConsecutiveDuplicates`: one left-to-right pass that pushes each
      element onto `result` or `duplicates`, then appends `duplicates`. */
  method ExtractConsecutiveDuplicates<T(==)>(stack: seq<T>) returns (result: seq<T>)
    ensures result == Managed(stack)
    ensures |result| == |stack|
    ensures multiset(result) == multiset(stack)
  {
    result := [];
    var duplicates := [];
    for i := 0 to |stack|
      invariant result == Retained(stack[..i])
      invariant duplicates == Relocated(stack[..i])
    {
      ExtractStep(stack, i);
      if i == 0 || stack[i] != stack[i - 1] {
        result := result + [stack[i]];
      } else {
        duplicates := duplicates + [stack[i]];
      }
    }
    assert stack[..|stack|] == stack;
    result := result + duplicates;
    ManagedIsPermutation(stack);
  }

  /** Nothing is dropped: the managed stack is a permutation of the input. */
  lemma {:induction false} ManagedIsPermutation<T>(s: seq<T>)
    ensures |Managed(s)| == |s|
    ensures multiset(Managed(s)) == multiset(s)
  {
    if s != [] {
      var p := s[..|s| - 1];
      ManagedIsPermutation(p);
      assert s == p + [s[|s| - 1]];
    }
  }

  ghost predicate NoAdjacentEqual<T>(s: seq<T>) {
    forall i :: 0 < i < |s| ==> s[i] != s[i - 1]
  }

  /** The retained prefix starts and ends with the input's first and last
      elements, holds every letter of the input, and has no two adjacent
      equal elements. */
  lemma RetainedShape<T>(s: seq<T>)
    ensures s == [] <==> Retained(s) == []
    ensures s != [] ==> Retained(s)[0] == s[0] && Retained(s)[|Retained(s)| - 1] == s[|s| - 1]
    ensures forall i :: 0 <= i < |s| ==> s[i] in Retained(s)
    ensures NoAdjacentEqual(Retained(s))
  {
    RetainedEnds(s);
    RetainedHoldsAll(s);
    RetainedNoAdjacentEqual(s);
  }

  lemma {:induction false} RetainedEnds<T>(s: seq<T>)
    ensures s == [] <==> Retained(s) == []
    ensures s != [] ==> Retained(s)[0] == s[0] && Retained(s)[|Retained(s)| - 1] == s[|s| - 1]
  {
    if s != [] {
      var p := s[..|s| - 1];
      RetainedEnds(p);
      if p != [] {
        assert p[0] == s[0] && p[|p| - 1] == s[|s| - 2];
      }
    }
  }

  lemma {:induction false} RetainedHoldsAll<T>(s: seq<T>)
    ensures forall i :: 0 <= i < |s| ==> s[i] in Retained(s)
  {
    if s != [] {
      var p := s[..|s| - 1];
      RetainedHoldsAll(p);
      assert forall i :: 0 <= i < |p| ==> s[i] == p[i];
      assert Retained(s)[..|Retained(p)|] == Retained(p);
      forall i | 0 <= i < |s| ensures s[i] in Retained(s) {
        if i < |p| {
          assert p[i] in Retained(p);
        } else if |s| > 1 && s[|s| - 1] == s[|s| - 2] {
          assert p[|p| - 1] in Retained(p);
        }
      }
    }
  }

  lemma {:induction false} RetainedNoAdjacentEqual<T>(s: seq<T>)
    ensures NoAdjacentEqual(Retained(s))
  {
    if s != [] {
      var p := s[..|s| - 1];
      RetainedNoAdjacentEqual(p);
      RetainedEnds(p);
      if p != [] {
        assert p[|p| - 1] == s[|s| - 2];
      }
    }
  }

  /** The run-length encoding of `s`: one (letter, length) entry per maximal
      run of equal adjacent elements. */
  function RunLengths<T(==)>(s: seq<T>): (r: seq<(T, nat)>)
    ensures s == [] <==> r == []
    ensures s != [] ==> r[|r| - 1].0 == s[|s| - 1]
  {
    if s == [] then []
    else
      var p := s[..|s| - 1];
      AddToRuns(RunLengths(p), s[|s| - 1], p != [] && p[|p| - 1] == s[|s| - 1])
  }

  /** Records one more element `x`: it lengthens the last run when it equals
      the previous element, and opens a run of length 1 otherwise. */
  function AddToRuns<T>(r: seq<(T, nat)>, x: T, sameAsPrevious: bool): (r': seq<(T, nat)>)
    ensures r' != [] && r'[|r'| - 1].0 == x
  {
    if sameAsPrevious && r != [] then r[..|r| - 1] + [(x, r[|r| - 1].1 + 1)]
    else r + [(x, 1)]
  }

  lemma RunLengthsSnoc<T>(p: seq<T>, x: T)
    ensures RunLengths(p + [x]) == AddToRuns(RunLengths(p), x, p != [] && p[|p| - 1] == x)
  {
    assert (p + [x])[..|p|] == p;
  }

  /** The encoding decodes to the input. */
  lemma {:induction false} RunLengthsDecode<T>(s: seq<T>)
    ensures Expand(RunLengths(s)) == s
  {
    if s != [] {
      var p := s[..|s| - 1];
      RunLengthsDecode(p);
      assert s == p + [s[|s| - 1]];
      RunLengthsSnoc(p, s[|s| - 1]);
      DecodeAddToRuns(RunLengths(p), s[|s| - 1], p != [] && p[|p| - 1] == s[|s| - 1]);
    }
  }

  /** Recording one more element decodes to one more element. */
  lemma DecodeAddToRuns<T>(r: seq<(T, nat)>, x: T, sameAsPrevious: bool)
    requires sameAsPrevious && r != [] ==> r[|r| - 1].0 == x
    ensures Expand(AddToRuns(r, x, sameAsPrevious)) == Expand(r) + [x]
  {
    if sameAsPrevious && r != [] {
      ExpandLongerRun(r, x);
    } else {
      ExpandSnoc(r, (x, 1));
      assert Repeat(x, 1) == [x];
    }
  }

  /** Every run has a positive length and adjacent runs hold different
      letters: the encoding splits `s` into its maximal runs. */
  lemma {:induction false} RunLengthsAreMaximal<T>(s: seq<T>)
    ensures forall i :: 0 <= i < |RunLengths(s)| ==> RunLengths(s)[i].1 > 0
    ensures NoAdjacentEqual(Firsts(RunLengths(s)))
  {
    if s != [] {
      var p := s[..|s| - 1];
      var x := s[|s| - 1];
      var r := RunLengths(p);
      RunLengthsAreMaximal(p);
      if p != [] && p[|p| - 1] == x {
        assert Firsts(RunLengths(s)) == Firsts(r);
      } else {
        assert Firsts(RunLengths(s)) == Firsts(r) + [x];
      }
    }
  }

  /** The retained prefix is the sequence of run letters, so its length is
      the number of maximal runs in the input. */
  lemma {:induction false} RetainedIsRunLetters<T>(s: seq<T>)
    ensures Retained(s) == Firsts(RunLengths(s))
    ensures |Retained(s)| == |RunLengths(s)|
  {
    if s != [] {
      var p := s[..|s| - 1];
      var x := s[|s| - 1];
      assert s == p + [x];
      ExtractSnoc(p, x);
      RunLengthsSnoc(p, x);
      RetainedIsRunLetters(p);
      FirstsAddToRuns(RunLengths(p), x, p != [] && p[|p| - 1] == x);
    }
  }

  /** The letters of the runs after recording one more element. */
  lemma FirstsAddToRuns<T>(r: seq<(T, nat)>, x: T, sameAsPrevious: bool)
    ensures Firsts(AddToRuns(r, x, sameAsPrevious))
         == if sameAsPrevious && r != [] then Firsts(r)[..|r| - 1] + [x] else Firsts(r) + [x]
  {
  }

  /** A stack with no two adjacent equal letters comes out unchanged. */
  lemma {:induction false} ManagedFixedPoint<T>(s: seq<T>)
    requires NoAdjacentEqual(s)
    ensures Retained(s) == s && Relocated(s) == []
    ensures Managed(s) == s
  {
    if s != [] {
      var p := s[..|s| - 1];
      assert NoAdjacentEqual(p) by {
        forall i | 0 < i < |p| ensures p[i] != p[i - 1] {
          assert p[i] == s[i] && p[i - 1] == s[i - 1];
        }
      }
      ManagedFixedPoint(p);
      assert s == p + [s[|s| - 1]];
    }
  }

  /** The worked example of countdown-simulator.js:206-210. */
  lemma ManagedExample()
    ensures Managed(['A', 'A', 'B', 'C', 'A', 'D', 'E', 'E']) == ['A', 'B', 'C', 'A', 'D', 'E', 'A', 'E']
  {
    var s1: seq<char> := ['A'];
    var s2 := s1 + ['A'];
    var s3 := s2 + ['B'];
    var s4 := s3 + ['C'];
    var s5 := s4 + ['A'];
    var s6 := s5 + ['D'];
    var s7 := s6 + ['E'];
    var s8 := s7 + ['E'];
    assert s1[..0] == [];
    ExtractStep(s1, 0);
    ExtractSnoc(s1, 'A');
    ExtractSnoc(s2, 'B');
    ExtractSnoc(s3, 'C');
    ExtractSnoc(s4, 'A');
    ExtractSnoc(s5, 'D');
    ExtractSnoc(s6, 'E');
    ExtractSnoc(s7, 'E');
    assert Retained(s8) == ['A', 'B', 'C', 'A', 'D', 'E'];
    assert Relocated(s8) == ['A', 'E'];
    assert s8 == ['A', 'A', 'B', 'C', 'A', 'D', 'E', 'E'];
  }

  /** A letter has a positive count exactly when the table names it. */
  lemma {:induction false} CountInPositive(d: Distribution, c: char)
    requires forall i :: 0 <= i < |d| ==> d[i].1 > 0
    ensures CountIn(d, c) > 0 <==> c in Firsts(d)
  {
    if d != [] {
      var p := d[..|d| - 1];
      assert Firsts(p) == Firsts(d)[..|d| - 1];
      assert Firsts(d) == Firsts(p) + [d[|d| - 1].0];
      assert forall i :: 0 <= i < |p| ==> p[i] == d[i];
      CountInPositive(p, c);
    }
  }

  /** The count of a letter the table names is the count it gives it. */
  lemma {:induction false} CountInAt(d: Distribution, i: nat)
    requires NoDuplicates(Firsts(d))
    requires i < |d|
    ensures CountIn(d, d[i].0) == d[i].1
  {
    if i < |d| - 1 {
      var p := d[..|d| - 1];
      assert Firsts(p) == Firsts(d)[..|d| - 1];
      assert Firsts(d)[i] != Firsts(d)[|d| - 1];
      CountInAt(p, i);
    }
  }

  /** What the stack operations need of either table. */
  lemma CategoryFacts(category: Category)
    ensures NoDuplicates(Firsts(DistributionOf(category)))
    ensures forall c :: CountIn(DistributionOf(category), c) > 0 <==> c in Firsts(DistributionOf(category))
    ensures PoolSize(DistributionOf(category)) == if category == Vowels then 67 else 74
  {
    var d := DistributionOf(category);
    DistributionFacts();
    WellFormedLetters(d);
    forall c ensures CountIn(d, c) > 0 <==> c in Firsts(d) {
      CountInPositive(d, c);
    }
  }

  /** The first `k` elements of the managed stack have no two adjacent equal
      letters whenever the input holds at least `k` different letters: the
      retained prefix is at least that long. */
  lemma {:induction false} ManagedPrefixHasNoAdjacentEqual<T>(s: seq<T>, letters: seq<T>, k: int)
    requires NoDuplicates(letters)
    requires forall i :: 0 <= i < |letters| ==> letters[i] in s
    requires 0 <= k <= |letters|
    ensures k <= |Retained(s)|
    ensures NoAdjacentEqual(Managed(s)[..k])
  {
    RetainedShape(s);
    Pigeonhole(letters, Retained(s));
    assert Managed(s)[..k] == Retained(s)[..k];
  }

  /** `slice(0, end)` on a sequence of `length` elements: a negative end
      counts back from the length, and the end is clamped to [0, length]. */
  function SliceEnd(length: nat, end: int): (r: nat)
    ensures r <= length
    ensures 0 <= end <= length ==> r == end
  {
    if end > length then length
    else if end >= 0 then end
    else if length + end >= 0 then length + end
    else 0
  }

  /** The two errors a letter round can throw. */
  datatype RoundError =
    | CannotDraw(count: int, size: nat)
    | LetterTotalNotNine

  /** `drawFromStack`: fails when more letters are asked for than the stack
      holds, and otherwise returns a prefix of the stack. */
  function DrawFromStack<T>(stack: seq<T>, count: int): (r: Result<seq<T>, RoundError>)
    ensures r.Err? <==> count > |stack|
    ensures r.Err? ==> r.error == CannotDraw(count, |stack|)
    ensures 0 <= count <= |stack| ==> r == Ok(stack[..count])
    ensures r.Ok? ==> r.value == stack[..SliceEnd(|stack|, count)]
    ensures r.Ok? ==> r.value <= stack && multiset(r.value) <= multiset(stack)
  {
    if count > |stack| then Err(CannotDraw(count, |stack|))
    else
      var end := SliceEnd(|stack|, count);
      assert stack == stack[..end] + stack[end..];
      Ok(stack[..end])
  }

  datatype RoundMethod = Simulation | Probabilistic(note: string)

  datatype Round = Round(vowels: seq<char>, consonants: seq<char>, allLetters: seq<char>, approach: RoundMethod)

  /** Build, shuffle and manage the stack of a category: the steps both a
      draw and the frequency analysis begin with. The shuffled stack holds
      every letter of the table. */
  method BuildManagedStack(category: Category) returns (shuffled: seq<char>, managed: seq<char>)
    ensures multiset(shuffled) == multiset(Expand(DistributionOf(category)))
    ensures managed == Managed(shuffled)
    ensures |managed| == PoolSize(DistributionOf(category))
    ensures forall c :: multiset(managed)[c] == CountIn(DistributionOf(category), c)
    ensures forall i :: 0 <= i < |Firsts(DistributionOf(category))| ==> Firsts(DistributionOf(category))[i] in shuffled
  {
    var d := DistributionOf(category);
    var stack := CreateLetterStack(category);
    shuffled := ShuffleArray(stack);
    managed := ExtractConsecutiveDuplicates(shuffled);
    CategoryFacts(category);
    TableLettersPresent(d, shuffled);
  }

  /** A stack holding every letter its table's count times holds every
      letter the table names. */
  lemma TableLettersPresent(d: Distribution, stack: seq<char>)
    requires forall c :: multiset(stack)[c] == CountIn(d, c)
    requires forall c :: CountIn(d, c) > 0 <==> c in Firsts(d)
    ensures forall i :: 0 <= i < |Firsts(d)| ==> Firsts(d)[i] in stack
  {
    forall i | 0 <= i < |Firsts(d)| ensures Firsts(d)[i] in stack {
      assert multiset(stack)[Firsts(d)[i]] > 0;
    }
  }

  /** The first `count` tiles of the managed form of `order`, clamped as
      `slice(0, count)` clamps them. */
  function Window(order: seq<char>, count: int): seq<char> {
    Managed(order)[..SliceEnd(|Managed(order)|, count)]
  }

  /** `draw` is what drawing `count` letters yields from the managed form of
      `order`, a permutation of table `d`'s stack. */
  ghost predicate DrawnFromShuffle(draw: seq<char>, order: seq<char>, d: Distribution, count: int) {
    && multiset(order) == multiset(Expand(d))
    && draw == Window(order, count)
  }

  /** One draw from a category: build, shuffle, extract duplicates, draw.
      `shuffled` is the order the shuffle chose: a permutation of the
      category's stack whose managed form the draw is a prefix of. */
  method DrawManaged(category: Category, count: int)
    returns (r: Result<seq<char>, RoundError>, ghost shuffled: seq<char>)
    ensures multiset(shuffled) == multiset(Expand(DistributionOf(category)))
    ensures r.Ok? ==> DrawnFromShuffle(r.value, shuffled, DistributionOf(category), count)
    ensures r.Err? <==> count > PoolSize(DistributionOf(category))
    ensures r.Err? ==> r.error == CannotDraw(count, PoolSize(DistributionOf(category)))
    ensures r.Ok? ==> |r.value| == SliceEnd(PoolSize(DistributionOf(category)), count)
    ensures r.Ok? ==> forall c :: multiset(r.value)[c] <= CountIn(DistributionOf(category), c)
    ensures r.Ok? && 0 <= count <= |DistributionOf(category)| ==> NoAdjacentEqual(r.value)
  {
    var d := DistributionOf(category);
    var managed;
    shuffled, managed := BuildManagedStack(category);
    r := DrawFromStack(managed, count);
    if r.Ok? && 0 <= count <= |d| {
      CategoryFacts(category);
      ManagedPrefixHasNoAdjacentEqual(shuffled, Firsts(d), count);
    }
  }

  /** `simulateLetterRound`: the letter total must be nine; with simulation
      on, the vowels and the consonants are drawn from their managed stacks
      and `allLetters` is both draws in ascending order; with simulation off
      the round is the empty placeholder. `vowelOrder` and `consonantOrder`
      are the orders the two shuffles chose. */
  method SimulateLetterRound(vowelCount: int, consonantCount: int, useSimulation: bool := false)
    returns (r: Result<Round, RoundError>, ghost vowelOrder: seq<char>, ghost consonantOrder: seq<char>)
    ensures vowelCount + consonantCount != 9 ==> r == Err(LetterTotalNotNine)
    ensures vowelCount + consonantCount == 9 && !useSimulation ==>
      r == Ok(Round([], [], [], Probabilistic("Probabilistic calculation not yet implemented")))
    ensures vowelCount + consonantCount == 9 && useSimulation ==>
      && (vowelCount > 67 ==> r == Err(CannotDraw(vowelCount, 67)))
      && (vowelCount <= 67 && consonantCount > 74 ==> r == Err(CannotDraw(consonantCount, 74)))
      && (vowelCount <= 67 && consonantCount <= 74 ==> r.Ok?)
    ensures r.Ok? && useSimulation ==>
      && r.value.approach == Simulation
      && |r.value.vowels| == SliceEnd(67, vowelCount)
      && |r.value.consonants| == SliceEnd(74, consonantCount)
      && (forall c :: multiset(r.value.vowels)[c] <= CountIn(VowelDistribution, c))
      && (forall c :: multiset(r.value.consonants)[c] <= CountIn(ConsonantDistribution, c))
      && Sorted(r.value.allLetters)
      && multiset(r.value.allLetters) == multiset(r.value.vowels + r.value.consonants)
      && (0 <= vowelCount <= 5 ==> NoAdjacentEqual(r.value.vowels))
      && (0 <= consonantCount <= 21 ==> NoAdjacentEqual(r.value.consonants))
    ensures r.Ok? && useSimulation ==>
      && DrawnFromShuffle(r.value.vowels, vowelOrder, VowelDistribution, vowelCount)
      && DrawnFromShuffle(r.value.consonants, consonantOrder, ConsonantDistribution, consonantCount)
  {
    vowelOrder, consonantOrder := [], [];
    if vowelCount + consonantCount != 9 {
      r := Err(LetterTotalNotNine);
      return;
    }
    if !useSimulation {
      r := Ok(Round([], [], [], Probabilistic("Probabilistic calculation not yet implemented")));
      return;
    }
    DistributionFacts();
    var vowels;
    vowels, vowelOrder := DrawManaged(Vowels, vowelCount);
    if vowels.Err? {
      r := Err(vowels.error);
      return;
    }
    var consonants;
    consonants, consonantOrder := DrawManaged(Consonants, consonantCount);
    if consonants.Err? {
      r := Err(consonants.error);
      return;
    }
    var all := vowels.value + consonants.value;
    r := Ok(Round(vowels.value, consonants.value, SortChars(all), Simulation));
  }

  lemma ManagedOfRuns()
    ensures Managed(['A', 'A', 'A', 'B', 'B', 'B']) == ['A', 'B', 'A', 'A', 'B', 'B']
  {
    var s1: seq<char> := ['A'];
    var s2 := s1 + ['A'];
    var s3 := s2 + ['A'];
    var s4 := s3 + ['B'];
    var s5 := s4 + ['B'];
    var s6 := s5 + ['B'];
    assert s1[..0] == [];
    ExtractStep(s1, 0);
    ExtractSnoc(s1, 'A');
    ExtractSnoc(s2, 'A');
    ExtractSnoc(s3, 'B');
    ExtractSnoc(s4, 'B');
    ExtractSnoc(s5, 'B');
    assert Retained(s6) == ['A', 'B'];
    assert Relocated(s6) == ['A', 'A', 'B', 'B'];
    assert s6 == ['A', 'A', 'A', 'B', 'B', 'B'];
  }

  lemma ManagedOfManagedRuns()
    ensures Managed(['A', 'B', 'A', 'A', 'B', 'B']) == ['A', 'B', 'A', 'B', 'A', 'B']
  {
    var t1: seq<char> := ['A'];
    var t2 := t1 + ['B'];
    var t3 := t2 + ['A'];
    var t4 := t3 + ['A'];
    var t5 := t4 + ['B'];
    var t6 := t5 + ['B'];
    assert t1[..0] == [];
    ExtractStep(t1, 0);
    ExtractSnoc(t1, 'B');
    ExtractSnoc(t2, 'A');
    ExtractSnoc(t3, 'A');
    ExtractSnoc(t4, 'B');
    ExtractSnoc(t5, 'B');
    assert Retained(t6) == ['A', 'B', 'A', 'B'];
    assert Relocated(t6) == ['A', 'B'];
    assert t6 == ['A', 'B', 'A', 'A', 'B', 'B'];
  }

  /** The extraction is one pass, not repeated until stable: its output can
      still hold adjacent equal letters, which a second pass would move. */
  lemma ManagedIsSinglePass()
    ensures var s := ['A', 'A', 'A', 'B', 'B', 'B'];
      Managed(Managed(s)) != Managed(s) && !NoAdjacentEqual(Managed(s))
  {
    ManagedOfRuns();
    ManagedOfManagedRuns();
    var m := ['A', 'B', 'A', 'A', 'B', 'B'];
    assert m[3] == m[2];
    assert Managed(m)[3] != m[3];
  }

  /** The result of `analyzeManagedStackFrequencies`. A probability is
      `None` where the JavaScript division is 0/0 (NaN), which happens
      exactly when `iterations * topN` is 0. */
  datatype FrequencyAnalysis = FrequencyAnalysis(
    letterCounts: map<char, nat>,
    probabilities: map<char, Option<real>>,
    iterations: int,
    topN: int)

  /** The sum of the counters of `letters`; a letter without a counter
      adds nothing. */
  function SumCounts(m: map<char, nat>, letters: seq<char>): nat {
    if letters == [] then 0
    else
      var last := letters[|letters| - 1];
      SumCounts(m, letters[..|letters| - 1]) + (if last in m then m[last] else 0)
  }

  /** Incrementing one counter adds one to the sum when that letter is
      summed, and nothing otherwise. */
  lemma {:induction false} SumCountsIncrement(m: map<char, nat>, letters: seq<char>, c: char)
    requires NoDuplicates(letters)
    requires c in m
    ensures SumCounts(m[c := m[c] + 1], letters) == SumCounts(m, letters) + (if c in letters then 1 else 0)
  {
    if letters != [] {
      var p := letters[..|letters| - 1];
      assert NoDuplicates(p);
      SumCountsIncrement(m, p, c);
      assert letters == p + [letters[|letters| - 1]];
    }
  }

  lemma {:induction false} SumCountsZero(m: map<char, nat>, letters: seq<char>)
    requires forall i :: 0 <= i < |letters| ==> letters[i] in m && m[letters[i]] == 0
    ensures SumCounts(m, letters) == 0
  {
    if letters != [] {
      SumCountsZero(m, letters[..|letters| - 1]);
    }
  }

  /** A single counter is at most the sum. */
  lemma {:induction false} CountAtMostSum(m: map<char, nat>, letters: seq<char>, k: nat)
    requires forall i :: 0 <= i < |letters| ==> letters[i] in m
    requires k < |letters|
    ensures m[letters[k]] <= SumCounts(m, letters)
  {
    if k < |letters| - 1 {
      CountAtMostSum(m, letters[..|letters| - 1], k);
    }
  }

  /** The sum of the defined probabilities of `letters`. */
  function SumProbabilities(p: map<char, Option<real>>, letters: seq<char>): real {
    if letters == [] then 0.0
    else
      var last := letters[|letters| - 1];
      SumProbabilities(p, letters[..|letters| - 1]) + (if last in p && p[last].Some? then p[last].value else 0.0)
  }

  /** Dividing every counter by `n` divides their sum by `n`. */
  lemma {:induction false} SumProbabilitiesOfCounts(p: map<char, Option<real>>, m: map<char, nat>, letters: seq<char>, n: real)
    requires n != 0.0
    requires forall i :: 0 <= i < |letters| ==> letters[i] in m
    requires forall c :: c in m ==> c in p && p[c] == Some(m[c] as real / n)
    ensures SumProbabilities(p, letters) == SumCounts(m, letters) as real / n
  {
    if letters != [] {
      var q := letters[..|letters| - 1];
      SumProbabilitiesOfCounts(p, m, q, n);
      AddRatios(SumCounts(m, q) as real, m[letters[|letters| - 1]] as real, n);
    }
  }

  lemma AddRatios(a: real, b: real, n: real)
    requires n != 0.0
    ensures a / n + b / n == (a + b) / n
  {
  }

  /** The counter initialisation: one zero counter per letter. */
  method NewCounters(letters: seq<char>) returns (counts: map<char, nat>)
    ensures counts.Keys == Elements(letters)
    ensures forall c :: c in counts ==> counts[c] == 0
    ensures SumCounts(counts, letters) == 0
  {
    counts := map[];
    for e := 0 to |letters|
      invariant counts.Keys == Elements(letters[..e])
      invariant forall c :: c in counts ==> counts[c] == 0
    {
      assert letters[..e + 1] == letters[..e] + [letters[e]];
      counts := counts[letters[e] := 0];
    }
    assert letters[..|letters|] == letters;
    SumCountsZero(counts, letters);
  }

  /** `for (const letter of topLetters) letterCounts[letter]++`: every
      counter grows by the letter's number of occurrences in `top`, and the
      sum by the length of `top`. */
  method CountTopLetters(counts: map<char, nat>, letters: seq<char>, top: seq<char>)
    returns (counted: map<char, nat>)
    requires NoDuplicates(letters)
    requires counts.Keys == Elements(letters)
    requires forall j :: 0 <= j < |top| ==> top[j] in counts
    ensures counted.Keys == counts.Keys
    ensures forall c :: c in counted ==> counted[c] == counts[c] + multiset(top)[c]
    ensures SumCounts(counted, letters) == SumCounts(counts, letters) + |top|
  {
    counted := counts;
    for j := 0 to |top|
      invariant Tallied(counts, counted, letters, top[..j])
    {
      var letter := top[j];
      var next := counted[letter := counted[letter] + 1];
      TallyStep(counts, counted, next, letters, top, j);
      counted := next;
    }
    assert top[..|top|] == top;
  }

  /** The loop invariant of `CountTopLetters` after counting `done`. */
  ghost predicate Tallied(counts: map<char, nat>, counted: map<char, nat>, letters: seq<char>, done: seq<char>) {
    counted.Keys == counts.Keys &&
    SumCounts(counted, letters) == SumCounts(counts, letters) + |done| &&
    forall c :: c in counted ==> counted[c] == counts[c] + multiset(done)[c]
  }

  /** Counting `top[j]` keeps every counter equal to its start value plus
      the occurrences of its letter in the part of `top` counted so far, and
      adds one to the sum. */
  lemma TallyStep(counts: map<char, nat>, counted: map<char, nat>, next: map<char, nat>,
                  letters: seq<char>, top: seq<char>, j: nat)
    requires NoDuplicates(letters)
    requires counts.Keys == Elements(letters)
    requires j < |top| && top[j] in counts
    requires Tallied(counts, counted, letters, top[..j])
    requires next == counted[top[j] := counted[top[j]] + 1]
    ensures Tallied(counts, next, letters, top[..j + 1])
  {
    ElementsMember(letters, top[j]);
    SumCountsIncrement(counted, letters, top[j]);
    TallyCounters(counts, counted, next, top, j);
  }

  lemma TallyCounters(counts: map<char, nat>, counted: map<char, nat>, next: map<char, nat>, top: seq<char>, j: nat)
    requires j < |top| && top[j] in counted
    requires next == counted[top[j] := counted[top[j]] + 1]
    requires forall c :: c in counted ==> c in counts && counted[c] == counts[c] + multiset(top[..j])[c]
    ensures forall c :: c in next ==> next[c] == counts[c] + multiset(top[..j + 1])[c]
  {
    assert top[..j + 1] == top[..j] + [top[j]];
  }

  /** `probabilities[letter] = count / (iterations * topN)` for every counter. */
  method DivideCounts(counts: map<char, nat>, letters: seq<char>, divisor: int)
    returns (probabilities: map<char, Option<real>>)
    requires counts.Keys == Elements(letters)
    ensures probabilities.Keys == counts.Keys
    ensures forall c :: c in probabilities ==>
      probabilities[c] == if divisor == 0 then None else Some(counts[c] as real / divisor as real)
  {
    probabilities := map[];
    for e := 0 to |letters|
      invariant probabilities.Keys == Elements(letters[..e])
      invariant forall c :: c in probabilities ==>
        probabilities[c] == if divisor == 0 then None else Some(counts[c] as real / divisor as real)
    {
      assert letters[..e + 1] == letters[..e] + [letters[e]];
      var letter := letters[e];
      probabilities := probabilities[letter :=
        if divisor == 0 then None else Some(counts[letter] as real / divisor as real)];
    }
    assert letters[..|letters|] == letters;
  }

  /** With a positive divisor no smaller than the counters' sum, every
      probability lies in [0, 1]. */
  lemma ProbabilitiesInUnit(counts: map<char, nat>, probabilities: map<char, Option<real>>, letters: seq<char>, divisor: int)
    requires 0 < divisor
    requires counts.Keys == Elements(letters) && probabilities.Keys == counts.Keys
    requires forall c :: c in probabilities ==> probabilities[c] == Some(counts[c] as real / divisor as real)
    requires SumCounts(counts, letters) <= divisor
    ensures forall c :: c in probabilities ==> 0.0 <= probabilities[c].value <= 1.0
  {
    forall c | c in probabilities
      ensures 0.0 <= probabilities[c].value <= 1.0
    {
      var k :| 0 <= k < |letters| && letters[k] == c;
      CountAtMostSum(counts, letters, k);
      RatioInUnit(counts[c] as real, divisor as real);
    }
  }

  /** When the divisor is the counters' sum, the probabilities add up to 1. */
  lemma ProbabilitiesSumToOne(counts: map<char, nat>, probabilities: map<char, Option<real>>, letters: seq<char>, divisor: int)
    requires 0 < divisor
    requires counts.Keys == Elements(letters) && probabilities.Keys == counts.Keys
    requires forall c :: c in probabilities ==> probabilities[c] == Some(counts[c] as real / divisor as real)
    requires SumCounts(counts, letters) == divisor
    ensures SumProbabilities(probabilities, letters) == 1.0
  {
    InElements(letters);
    SumProbabilitiesOfCounts(probabilities, counts, letters, divisor as real);
    RatioOfItself(divisor as real);
  }

  lemma MultiplyMonotonic(a: int, b: int, c: int)
    requires a >= 0 && b <= c
    ensures a * b <= a * c
  {
    assert a * c - a * b == a * (c - b);
  }

  lemma RatioOfItself(n: real)
    requires n != 0.0
    ensures n / n == 1.0
  {
  }

  lemma RatioInUnit(a: real, n: real)
    requires 0.0 <= a <= n && n > 0.0
    ensures 0.0 <= a / n <= 1.0
  {
    assert a / n * n == a;
  }

  /** One iteration of the tally: build, shuffle and extract a stack, then
      count the letters among its first `topN`. `order` is the order the
      shuffle chose: every counter grows by exactly the occurrences of its
      letter in the window of `order`'s managed form, so the counters' sum
      grows by the window size and no counter by more than the letter's
      count. */
  method TallyOneStack(category: Category, counts: map<char, nat>, topN: int)
    returns (counted: map<char, nat>, ghost order: seq<char>)
    requires counts.Keys == Elements(Firsts(DistributionOf(category)))
    ensures multiset(order) == multiset(Expand(DistributionOf(category)))
    ensures counted.Keys == counts.Keys
    ensures forall c :: c in counted ==> counted[c] == counts[c] + multiset(Window(order, topN))[c]
    ensures SumCounts(counted, Firsts(DistributionOf(category)))
         == SumCounts(counts, Firsts(DistributionOf(category))) + SliceEnd(PoolSize(DistributionOf(category)), topN)
    ensures forall c :: c in counted ==> counts[c] <= counted[c] <= counts[c] + CountIn(DistributionOf(category), c)
  {
    var d := DistributionOf(category);
    CategoryFacts(category);
    var managed;
    order, managed := BuildManagedStack(category);
    var top := managed[..SliceEnd(|managed|, topN)];
    assert top == Window(order, topN);
    WindowLetters(d, counts, managed, top);
    counted := CountTopLetters(counts, Firsts(d), top);
  }

  /** A window on top of the managed stack: each of its letters has a
      counter, and none occurs in it more often than the table holds it. */
  lemma WindowLetters(d: Distribution, counts: map<char, nat>, managed: seq<char>, top: seq<char>)
    requires counts.Keys == Elements(Firsts(d))
    requires forall c :: CountIn(d, c) > 0 <==> c in Firsts(d)
    requires forall c :: multiset(managed)[c] == CountIn(d, c)
    requires top <= managed
    ensures forall j :: 0 <= j < |top| ==> top[j] in counts
    ensures forall c :: multiset(top)[c] <= CountIn(d, c)
  {
    assert managed == top + managed[|top|..];
    forall j | 0 <= j < |top| ensures top[j] in counts {
      assert multiset(managed)[top[j]] > 0;
    }
  }

  /** How often `c` occurs, summed over the windows of the managed forms of
      `orders`: what the tally counts for `c`, one iteration per order. */
  ghost function WindowTally(orders: seq<seq<char>>, topN: int, c: char): nat {
    if orders == [] then 0
    else WindowTally(orders[..|orders| - 1], topN, c) + multiset(Window(orders[|orders| - 1], topN))[c]
  }

  /** The simulation loop: `iterations` tallies (none when `iterations` is
      not positive) into counters that start at zero. `orders` are the
      orders the shuffles chose, one per iteration, each a permutation of
      the stack; every counter is its letter's occurrences summed over their
      windows. */
  method TallyIterations(category: Category, topN: int, iterations: int)
    returns (counts: map<char, nat>, ghost orders: seq<seq<char>>)
    ensures |orders| == if iterations > 0 then iterations else 0
    ensures forall k :: 0 <= k < |orders| ==> multiset(orders[k]) == multiset(Expand(DistributionOf(category)))
    ensures counts.Keys == Elements(Firsts(DistributionOf(category)))
    ensures forall c :: c in counts ==> counts[c] == WindowTally(orders, topN, c)
    ensures SumCounts(counts, Firsts(DistributionOf(category)))
         == (if iterations > 0 then iterations else 0) * SliceEnd(PoolSize(DistributionOf(category)), topN)
    ensures forall c :: c in counts ==>
      counts[c] <= (if iterations > 0 then iterations else 0) * CountIn(DistributionOf(category), c)
  {
    var d := DistributionOf(category);
    var letters := Firsts(d);
    counts := NewCounters(letters);
    orders := [];
    var i := 0;
    while i < iterations
      invariant 0 <= i && (i <= iterations || i == 0)
      invariant |orders| == i
      invariant TalliedOrders(d, letters, counts, orders, topN)
    {
      var next, order := TallyOneStack(category, counts, topN);
      TallyOrderStep(d, letters, counts, orders, topN, next, order);
      counts := next;
      orders := orders + [order];
      i := i + 1;
    }
  }

  /** The loop invariant of `TallyIterations` after the tallies of `orders`. */
  ghost predicate TalliedOrders(d: Distribution, letters: seq<char>, counts: map<char, nat>,
                                orders: seq<seq<char>>, topN: int) {
    && counts.Keys == Elements(letters)
    && (forall k :: 0 <= k < |orders| ==> multiset(orders[k]) == multiset(Expand(d)))
    && (forall c :: c in counts ==> counts[c] == WindowTally(orders, topN, c))
    && SumCounts(counts, letters) == |orders| * SliceEnd(PoolSize(d), topN)
    && (forall c :: c in counts ==> counts[c] <= |orders| * CountIn(d, c))
  }

  /** One more tally, of the window of `order`, keeps the invariant. */
  lemma TallyOrderStep(d: Distribution, letters: seq<char>, counts: map<char, nat>, orders: seq<seq<char>>,
                       topN: int, next: map<char, nat>, order: seq<char>)
    requires TalliedOrders(d, letters, counts, orders, topN)
    requires multiset(order) == multiset(Expand(d))
    requires next.Keys == counts.Keys
    requires forall c :: c in next ==> next[c] == counts[c] + multiset(Window(order, topN))[c]
    requires SumCounts(next, letters) == SumCounts(counts, letters) + SliceEnd(PoolSize(d), topN)
    requires forall c :: c in next ==> next[c] <= counts[c] + CountIn(d, c)
    ensures TalliedOrders(d, letters, next, orders + [order], topN)
  {
    WindowTallySnoc(counts, orders, topN, next, order);
    var n, w := |orders|, SliceEnd(PoolSize(d), topN);
    MultiplySucc(n, w);
    forall c | c in next ensures next[c] <= (n + 1) * CountIn(d, c) {
      MultiplySucc(n, CountIn(d, c));
    }
  }

  lemma WindowTallySnoc(counts: map<char, nat>, orders: seq<seq<char>>, topN: int,
                        next: map<char, nat>, order: seq<char>)
    requires next.Keys == counts.Keys
    requires forall c :: c in counts ==> counts[c] == WindowTally(orders, topN, c)
    requires forall c :: c in next ==> next[c] == counts[c] + multiset(Window(order, topN))[c]
    ensures forall c :: c in next ==> next[c] == WindowTally(orders + [order], topN, c)
  {
    var more := orders + [order];
    assert more[..|more| - 1] == orders;
  }

  lemma MultiplySucc(n: int, w: int)
    ensures (n + 1) * w == n * w + w
  {
  }

  /** `analyzeManagedStackFrequencies`: `iterations` times, build, shuffle
      and extract a stack and count the letters among its first `topN`; then
      divide every count by `iterations * topN`. `orders` are the orders the
      shuffles chose, one permutation of the stack per iteration. Every
      letter of the table has a counter, which is the letter's occurrences
      summed over the windows of those orders' managed forms; each iteration
      adds exactly the window size
      `min(topN, pool)` to the counters' sum, and with at least one
      iteration and a positive `topN` the probabilities lie in [0, 1]; with a
      window inside the pool they add up to 1. */
  method AnalyzeManagedStackFrequencies(category: Category, topN: int := 9, iterations: int := 10000)
    returns (analysis: FrequencyAnalysis, ghost orders: seq<seq<char>>)
    ensures analysis.iterations == iterations && analysis.topN == topN
    ensures |orders| == if iterations > 0 then iterations else 0
    ensures forall k :: 0 <= k < |orders| ==> multiset(orders[k]) == multiset(Expand(DistributionOf(category)))
    ensures analysis.letterCounts.Keys == Elements(Firsts(DistributionOf(category)))
    ensures forall c :: c in analysis.letterCounts ==> analysis.letterCounts[c] == WindowTally(orders, topN, c)
    ensures SumCounts(analysis.letterCounts, Firsts(DistributionOf(category)))
         == (if iterations > 0 then iterations else 0) * SliceEnd(PoolSize(DistributionOf(category)), topN)
    ensures forall c :: c in analysis.letterCounts ==>
      analysis.letterCounts[c] <= (if iterations > 0 then iterations else 0) * CountIn(DistributionOf(category), c)
    ensures analysis.probabilities.Keys == analysis.letterCounts.Keys
    ensures forall c :: c in analysis.probabilities ==>
      analysis.probabilities[c] ==
        if iterations * topN == 0 then None
        else Some(analysis.letterCounts[c] as real / (iterations * topN) as real)
    ensures iterations >= 1 && topN >= 1 ==>
      forall c :: c in analysis.probabilities ==>
        analysis.probabilities[c].Some? && 0.0 <= analysis.probabilities[c].value <= 1.0
    ensures iterations >= 1 && 1 <= topN <= PoolSize(DistributionOf(category)) ==>
      SumProbabilities(analysis.probabilities, Firsts(DistributionOf(category))) == 1.0
  {
    var letters := Firsts(DistributionOf(category));
    var counts;
    counts, orders := TallyIterations(category, topN, iterations);
    var probabilities := DivideCounts(counts, letters, iterations * topN);
    analysis := FrequencyAnalysis(counts, probabilities, iterations, topN);
    ProbabilityFacts(analysis, letters, PoolSize(DistributionOf(category)));
  }

  /** Every probability lies in [0, 1], and they add up to 1 when the
      window `topN` fits in the stack. */
  lemma ProbabilityFacts(analysis: FrequencyAnalysis, letters: seq<char>, poolSize: nat)
    requires analysis.letterCounts.Keys == Elements(letters)
    requires analysis.probabilities.Keys == analysis.letterCounts.Keys
    requires SumCounts(analysis.letterCounts, letters)
          == (if analysis.iterations > 0 then analysis.iterations else 0) * SliceEnd(poolSize, analysis.topN)
    requires forall c :: c in analysis.probabilities ==>
      analysis.probabilities[c] ==
        if analysis.iterations * analysis.topN == 0 then None
        else Some(analysis.letterCounts[c] as real / (analysis.iterations * analysis.topN) as real)
    ensures analysis.iterations >= 1 && analysis.topN >= 1 ==>
      forall c :: c in analysis.probabilities ==>
        analysis.probabilities[c].Some? && 0.0 <= analysis.probabilities[c].value <= 1.0
    ensures analysis.iterations >= 1 && 1 <= analysis.topN <= poolSize ==>
      SumProbabilities(analysis.probabilities, letters) == 1.0
  {
    var iterations, topN := analysis.iterations, analysis.topN;
    if iterations >= 1 && topN >= 1 {
      var counts, probabilities := analysis.letterCounts, analysis.probabilities;
      MultiplyMonotonic(iterations, SliceEnd(poolSize, topN), topN);
      ProbabilitiesInUnit(counts, probabilities, letters, iterations * topN);
      if topN <= poolSize {
        ProbabilitiesSumToOne(counts, probabilities, letters, iterations * topN);
      }
    }
  }
}
