# Countdown letter pool and word scoring, modelled in Dafny

This project models the core of a study tool for the letters round of the
television game Countdown. The tool lays out the tiles of the round as two
stacks, one for vowels and one for consonants. It shuffles each stack and
moves every tile that equals the tile before it to the bottom. From the
tiles that come out on top, it estimates how likely each letter is to be
drawn. It filters an English word list against the fixed letter table,
keeping the words the tiles can spell, and ranks those words by the
estimates. It also buckets the words by length, groups anagrams and lays
the top words out for printing.

The modules follow the source files:

- `CountdownSimulator` (`countdown-simulator.js`)
  - the letter table;
  - the stack built from the table;
  - the Fisher-Yates shuffle;
  - the single pass that moves consecutive duplicates to the tail;
  - prefix draws;
  - a letter round;
  - the Monte Carlo tally behind the letter probabilities.
- `WordRanker` (`word-ranker.js`)
  - the product-of-letters score with its duplicate penalty;
  - the word filter;
  - the ranking by score.
- `WordLists` (`generate-word-lists.js`): bucketing by word length.
- `Anagrams` (`group-anagrams.js`)
  - the letter signature;
  - grouping by signature;
  - ordering the groups by their first word;
  - the output lines.
- `FormattedLists` (`create-formatted-lists.js`): the top fifth of a list, ten words to a line.
- Shared modules:
  - `Chars`: ASCII upper-casing and character sorting.
  - `StableSort`: a stable sort by a real key, the way `Array.prototype.sort` behaves.
  - `Seqs`: filtering, distinct elements and run expansion.
  - `Wrappers`: `Option` and `Result`.

Imperative parts of the source are methods with loop invariants. Most methods
are proved against a specification function, and the source's promises are
proved as lemmas about that function. The shuffle is the exception: its
random choices have no such function, so it is proved to return a permutation
of its input. The methods that shuffle return the order the shuffle chose as
a ghost result, and their draws and counts are stated as functions of that
order. Methods cover:

- the loops that push onto arrays;
- the in-place swaps of the shuffle, which operate on an `array`;
- the counters that are incremented;
- the strings that are appended to.

The pure parts are functions:

- the slice in `drawFromStack`;
- the signature chain;
- the filter, map and sort pipelines.

The letter table in `countdown-simulator.js:6-18` sums to 67 vowels and 74
consonants (`DistributionFacts`).

## Model

| member | source | states |
|---|---|---|
| CountdownSimulator.DistributionFacts | countdown-simulator.js:6-18 | both tables list their letters in strictly ascending order with positive counts; the vowel pool holds 67 tiles and the consonant pool 74 |
| CountdownSimulator.CategoryFacts | countdown-simulator.js:6-18 | a category's letters are distinct, a character has a positive count exactly when the table lists it, and the pool sizes are 67 and 74 |
| CountdownSimulator.CreateLetterStack | countdown-simulator.js:23-34 | the stack is each table letter repeated its count, in table order; its length is the pool size, and every character occurs exactly its configured count of times (0 if the table lacks it) |
| CountdownSimulator.ExpandCounts | countdown-simulator.js:27-31 | expanding a table with distinct letters puts each character in the stack exactly as often as its count says, and the stack length is the sum of the counts |
| CountdownSimulator.ShuffleArray | countdown-simulator.js:39-46 | whatever index the random choice picks at each step, the result is a permutation of the input: same length and same multiset |
| CountdownSimulator.SwapKeepsMultiset | countdown-simulator.js:43 | exchanging two positions keeps the multiset of the stack |
| CountdownSimulator.Retained | countdown-simulator.js:57-63 | the elements the pass pushes onto `result`, never more than the input holds; `ExtractStep` and `RetainedShape` state which ones they are |
| CountdownSimulator.Relocated | countdown-simulator.js:57-66 | the elements the pass pushes onto `duplicates`, never more than the input holds; `ExtractStep` states which ones they are |
| CountdownSimulator.ExtractConsecutiveDuplicates | countdown-simulator.js:52-69 | the result is the retained elements followed by the relocated ones, each in input order, with the input's length and multiset |
| CountdownSimulator.ExtractStep | countdown-simulator.js:57-63 | element i is retained exactly when i is 0 or it differs from the element before it in the input, and relocated otherwise |
| CountdownSimulator.ManagedIsPermutation | countdown-simulator.js:52-69 | the managed stack (`Managed`: the retained elements followed by the relocated ones, lines 57-66) has the input's length and multiset; no tile is dropped or added |
| CountdownSimulator.RetainedShape | countdown-simulator.js:57-63 | the retained prefix is empty only for an empty input, starts and ends with the input's first and last elements, holds every letter of the input, and has no two equal neighbours |
| CountdownSimulator.RunLengthsDecode | countdown-simulator.js:57-63 | the run-length decomposition of a stack expands back to the stack |
| CountdownSimulator.RunLengthsAreMaximal | countdown-simulator.js:57-63 | every run has positive length and neighbouring runs hold different letters, so the runs are the maximal ones |
| CountdownSimulator.RetainedIsRunLetters | countdown-simulator.js:57-63 | the retained prefix is the sequence of run letters, so its length is the number of maximal runs of the input |
| CountdownSimulator.ManagedFixedPoint | countdown-simulator.js:58-66 | an input with no two equal neighbours is returned unchanged |
| CountdownSimulator.ManagedExample | countdown-simulator.js:206-210 | A A B C A D E E becomes A B C A D E A E |
| CountdownSimulator.ManagedOfRuns | countdown-simulator.js:57-66 | A A A B B B becomes A B A A B B: the relocated tail is not itself managed |
| CountdownSimulator.ManagedOfManagedRuns | countdown-simulator.js:57-66 | managing A B A A B B again gives A B A B A B |
| CountdownSimulator.ManagedIsSinglePass | countdown-simulator.js:57-66 | the pass is not idempotent: a managed stack can still hold equal neighbours, and managing it again changes it |
| CountdownSimulator.ManagedPrefixHasNoAdjacentEqual | countdown-simulator.js:57-66 | if the input holds k distinct letters, the first k tiles of the managed stack have no two equal neighbours |
| CountdownSimulator.SliceEnd | countdown-simulator.js:79 | the end of `slice(0, end)` never exceeds the length and equals `end` when `end` is within [0, length] |
| CountdownSimulator.DrawFromStack | countdown-simulator.js:74-80 | the draw fails with the count and the stack size exactly when the count exceeds the stack size; otherwise it is the stack up to `slice`'s end for `count`, which for 0 <= count <= size is the first `count` tiles, and any result is a prefix and a sub-multiset of the stack |
| CountdownSimulator.BuildManagedStack | countdown-simulator.js:92-101 | the shuffled stack is a permutation of the category's full stack, the managed stack is the duplicate pass applied to it and holds each letter its configured count of times, and the shuffled stack holds every letter of the table |
| CountdownSimulator.DrawManaged | countdown-simulator.js:92-105 | the draw is the `slice` prefix of the managed form of some permutation of the category's stack (the order the shuffle chose, returned as a ghost result); it fails exactly when the count exceeds the pool, never holds a letter more often than the table does, and a draw of at most as many tiles as there are distinct letters has no equal neighbours |
| CountdownSimulator.SimulateLetterRound | countdown-simulator.js:85-124 | a total other than nine is an error; with simulation off the round is the empty probabilistic placeholder; with it on, an over-long draw is an error naming its count and pool size, and otherwise each draw is the `slice` prefix of the managed form of a permutation of its category's stack (both orders are ghost results), the draws have the requested lengths, respect the table, and `allLetters` is their union in ascending order |
| CountdownSimulator.NewCounters | countdown-simulator.js:133-136 | every letter of the table gets a counter of 0, seen or not, and the counters sum to 0 |
| CountdownSimulator.CountTopLetters | countdown-simulator.js:145-147 | each counter grows by the occurrences of its letter in the top slice, no counter is added, and the sum grows by the slice length |
| CountdownSimulator.TallyOneStack | countdown-simulator.js:140-147 | for the order the shuffle chose, a permutation of the full stack, each counter grows by exactly its letter's occurrences in the first topN tiles of that order's managed stack; so the sum grows by min(topN, pool) (with `slice`'s handling of a negative end) and no counter by more than its letter's configured count |
| CountdownSimulator.TallyIterations | countdown-simulator.js:139-148 | one shuffle order per iteration (none when iterations is not positive), each a permutation of the stack; each counter equals its letter's occurrences summed over the windows of those orders' managed stacks; the counters sum to iterations times the window size, and no counter exceeds iterations times its letter's count |
| CountdownSimulator.DivideCounts | countdown-simulator.js:151-154 | each probability is the letter's count divided by the divisor; a zero divisor yields no number, as 0/0 does in the source |
| CountdownSimulator.ProbabilitiesInUnit | countdown-simulator.js:152-154 | when the counters sum to at most the divisor, every probability lies in [0, 1] |
| CountdownSimulator.ProbabilitiesSumToOne | countdown-simulator.js:152-154 | when the counters sum to the divisor, the probabilities sum to 1 |
| CountdownSimulator.SumProbabilitiesOfCounts | countdown-simulator.js:152-154 | dividing every counter by n divides their sum by n |
| CountdownSimulator.ProbabilityFacts | countdown-simulator.js:152-154 | with at least one iteration and a positive window every probability is a number in [0, 1], and with the window inside the pool they sum to 1 |
| CountdownSimulator.AnalyzeManagedStackFrequencies | countdown-simulator.js:129-162 | a counter for exactly the table's letters, each equal to its letter's occurrences summed over the top-N windows of the iterations' managed stacks, one shuffle permutation per iteration; counts summing to iterations * min(topN, pool); probabilities count / (iterations * topN), in [0, 1] and summing to 1 when the window fits |
| WordRanker.LookupOrZero | word-ranker.js:30-32 | `probs[letter]`, or 0 when that is falsy, is 0 exactly when the letter is missing, its value is NaN or it is 0, and is the stored number otherwise |
| WordRanker.LetterProbSource | word-ranker.js:29-33 | a non-zero letter probability is the entry for that letter in the vowel table for A, E, I, O, U and in the consonant table for any other character |
| WordRanker.CountLetters | word-ranker.js:17-20 | the letter order is the word's distinct letters by first occurrence, and the map holds exactly the word's letters with their multiplicities |
| WordRanker.CalculateWordProbability | word-ranker.js:13-52 | the loop, with its early exit on a zero probability, returns the product over the distinct upper-cased letters of each letter's factor |
| WordRanker.ProductPermutation | word-ranker.js:25-49 | the product of the factors is the same in every order of the letters, so the order `Object.entries` lists the counts in does not change the score |
| WordRanker.ProductRemove | word-ranker.js:41-47 | the product is any one letter's factor times the product of the other letters' factors |
| WordRanker.MultiplyFactors | word-ranker.js:25-49 | multiplying the factors in first-occurrence order, stopping at a zero, gives the full product |
| WordRanker.FactorPenalty | word-ranker.js:40-48 | the single-occurrence and repeated branches agree on p * 0.05^(c-1), and each further occurrence multiplies the factor by 0.05 |
| WordRanker.WordScoreCaseInsensitive | word-ranker.js:14 | a word scores the same as its upper-cased form |
| WordRanker.WordScoreZero | word-ranker.js:29-38 | the score is 0 exactly when some letter of the word has probability 0 or is missing from its table, a non-vowel symbol being looked up among the consonants |
| WordRanker.ZeroLetterZeroScore | word-ranker.js:35-38 | one letter of probability 0 makes the whole score 0 |
| WordRanker.PositiveLettersNonZeroScore | word-ranker.js:35-48 | if no letter has probability 0, the score is not 0 |
| WordRanker.WordScoreAppend | word-ranker.js:23-49 | appending a new letter multiplies the score by its probability; appending a letter the word already has multiplies it by 0.05 |
| WordRanker.WordScoreSingle | word-ranker.js:23-42 | the empty word scores 1, and a one-letter word scores its letter's probability |
| WordRanker.ScoreOfT | word-ranker.js:41-42 | the word T scores exactly the consonant probability of T |
| WordRanker.ScoreOfAA | test-duplicates.js:45-53 | with P(A) = 0.1 the word AA scores 0.1 * 0.05 = 0.005 |
| WordRanker.MaxAvailablePositive | word-ranker.js:77-82 | the tiles hold a character exactly when it is an upper-case letter A to Z; every other character falls back to a count of 0 |
| WordRanker.VowelLetters | countdown-simulator.js:7-13 | the vowel table gives a positive count to exactly A, E, I, O and U |
| WordRanker.ConsonantLetters | countdown-simulator.js:14-17 | the consonant table gives a positive count to exactly the twenty-one other letters |
| WordRanker.MatchesLetters | word-ranker.js:65 | a word that passes `/^[A-Za-z]+$/` upper-cases to letters A to Z only |
| WordRanker.MatchingWordHasTiles | word-ranker.js:65-82 | every letter of a word that passes the pattern check has tiles, so only the counts can reject it afterwards |
| WordRanker.IsCountdownWordMeaning | word-ranker.js:59-87 | a word is kept exactly when it has one to nine characters, all ASCII letters, and needs no letter, case-insensitively, more often than the table holds it |
| WordRanker.CheckCountdownWord | word-ranker.js:60-86 | the filter callback, with its early returns, answers exactly the keep condition |
| WordRanker.CheckLetterCounts | word-ranker.js:67-86 | the count check answers exactly whether every letter of the word is within its table count |
| WordRanker.WithinDistributionByLetters | word-ranker.js:76-84 | checking each distinct letter once is equivalent to checking every position of the word |
| WordRanker.FilterCountdownWords | word-ranker.js:59-88 | the result is a subsequence of the input holding only kept words, and each kept word as often as the input holds it |
| WordRanker.RejectedTestWords | word-ranker.js:177 | ZZZZZZZZZ (Z has one tile) and SUPERCALIFRAGILISTIC (too long) are rejected |
| WordRanker.ScoreWord | word-ranker.js:94-119 | the record holds the upper-cased word, the original word, its score, its distinct vowel and other-character counts, their sum and the word length |
| WordRanker.RecordCounts | word-ranker.js:99-117 | `totalUnique` is the number of distinct upper-cased characters, at most five of them vowels, and `length` is the length of the upper-cased word |
| WordRanker.RankKeyComparator | word-ranker.js:122 | the comparator `b.probability - a.probability` is negative exactly when `a` has the smaller sort key (the larger probability) and zero exactly when the keys tie |
| WordRanker.SortedRecords | word-ranker.js:122 | sorting the records by `RankKey` keeps every record, orders them by non-increasing probability and keeps records of equal probability in input order |
| WordRanker.RankWordsByProbability | word-ranker.js:93-123 | the result is a permutation of the records of the input words, non-increasing in probability, with records of equal probability in input order |
| WordLists.GroupWordsByLength | generate-word-lists.js:29-42 | the keys are exactly 1..9, and bucket k holds the words of length k in input order |
| WordLists.BucketMembership | generate-word-lists.js:35-39 | a word is in bucket k exactly when it is an input word of length k |
| WordLists.BucketKeepsOrder | generate-word-lists.js:35-38 | each bucket is a subsequence of the input |
| WordLists.BucketsPartition | generate-word-lists.js:35-39 | the bucket sizes add up to the number of input words whose length is 1 to 9 |
| Anagrams.Signature | group-anagrams.js:9-11 | the signature is sorted, has the word's length, and is a permutation of the upper-cased word |
| Anagrams.SignatureIdempotent | group-anagrams.js:10 | the signature of a signature is itself |
| Anagrams.SignatureIffAnagram | group-anagrams.js:10 | two words have equal signatures exactly when their upper-cased letters form the same multiset |
| Anagrams.GroupBySignature | group-anagrams.js:30-38 | there is a group for exactly the signatures that occur, each holding the words with that signature in input order, and keys are created in order of first occurrence |
| Anagrams.EntriesOfGroups | group-anagrams.js:41-46 | listing the groups in key order gives one entry per signature with its members |
| Anagrams.RepresentativeIndexMeaning | group-anagrams.js:47-51 | a group's comparator key is `indexOf` of its first word: -1 exactly for an empty group or a first word not in the list, otherwise the first position holding that word |
| Anagrams.FirstMember | group-anagrams.js:45 | a group's representative is the first input word with that signature |
| Anagrams.RepresentativePosition | group-anagrams.js:45-51 | the index of the representative in the input is the first position of its signature |
| Anagrams.EntryKey | group-anagrams.js:47-51 | the sort key of a group is the first position of its signature |
| Anagrams.EntriesAreSorted | group-anagrams.js:47-52 | the groups in creation order are already sorted by representative index, so the stable sort leaves them in that order |
| Anagrams.EntriesOrderIrrelevant | group-anagrams.js:41-52 | whatever order `Object.entries` lists the groups in, sorting by representative index gives the groups in first-occurrence order, because no two groups share a key |
| Anagrams.BuildOutput | group-anagrams.js:55-63 | the output is each group's line followed by a newline, and the total is the sum of the group sizes |
| Anagrams.GroupsPartitionWords | group-anagrams.js:58-63 | the group sizes add up to the number of input words |
| Anagrams.LineHasNoNewline | group-anagrams.js:60 | the line of a group whose signature and words hold no newline holds no newline |
| Anagrams.LineEnd | group-anagrams.js:60 | the line of a group of blank-free words ends with a character that is not whitespace |
| Anagrams.LinesStart | group-anagrams.js:58-61 | an output with at least one group starts with `[` |
| Anagrams.LinesCount | group-anagrams.js:58-63 | when no group's signature or words hold a newline, the output holds exactly one newline per group |
| Anagrams.EntriesNewlineFree | group-anagrams.js:30-46 | input words without newlines give groups whose signatures and words have none |
| Anagrams.TrimEnd | group-anagrams.js:66 | the end-trimmed text is a prefix of the input that is empty or ends in a non-whitespace character, and everything cut off is whitespace |
| Anagrams.TrimStart | group-anagrams.js:66 | the start-trimmed text is a suffix of the input that is empty or starts with a non-whitespace character, and everything cut off is whitespace |
| Anagrams.Trim | group-anagrams.js:66 | the trimmed text is no longer than the input and neither starts nor ends with whitespace |
| Anagrams.TrimLines | group-anagrams.js:61-66 | trimming the output removes exactly its final newline |
| Anagrams.GroupWordsByAnagrams | group-anagrams.js:29-66 | the groups are in first-occurrence order, the output is their lines, the total equals the number of input words, for words without newlines the output has one newline per group, and for a non-empty list of plain words the written text is the output without its last newline |
| Chars.UpperIdempotent | word-ranker.js:14 | upper-casing twice is upper-casing once |
| Chars.SortChars | group-anagrams.js:10 | the sorted characters are in ascending order and a permutation of the input |
| Chars.SortedUnique | group-anagrams.js:10 | two sorted strings with the same multiset of characters are equal |
| Chars.SortSortedIsIdentity | group-anagrams.js:10 | sorting an already sorted string changes nothing |
| StableSort.SortBy | word-ranker.js:122 | the result is sorted by key and a permutation of the input |
| StableSort.SortByStable | word-ranker.js:122 | for every key value, the elements with that key keep their input order |
| StableSort.SortedByUnique | group-anagrams.js:47-52 | two key-sorted arrangements of the same elements are equal when no two elements share a key |
| StableSort.SortBySortedIsIdentity | group-anagrams.js:47-52 | sorting a sequence already sorted by key leaves it unchanged |
| FormattedLists.TopCount | create-formatted-lists.js:26 | the count kept is the least whole number whose fivefold reaches the list length, the ceiling of n / 5 |
| FormattedLists.TopCountIsCeiling | create-formatted-lists.js:26 | (n + 4) / 5 is the least whole number not below n * 0.2 |
| FormattedLists.CreateFormattedList | create-formatted-lists.js:26-40 | the kept words are the first ceil(n / 5) words, and the text is their layout |
| FormattedLists.FormatWords | create-formatted-lists.js:30-40 | the loop's text is the layout: each word followed by its separator |
| FormattedLists.SeparatorRule | create-formatted-lists.js:35-38 | after word i of k comes a newline when (i + 1) % 10 == 0 and i is not the last, a space after any other word but the last, and nothing after the last |
| FormattedLists.MultipleOfTenIsMod | create-formatted-lists.js:35 | the newline test is (i + 1) % 10 == 0 |
| FormattedLists.NoTrailingSeparator | create-formatted-lists.js:34-39 | nothing follows the last word |
| FormattedLists.StripSeparators | create-formatted-lists.js:31-40 | for words without blanks, deleting the spaces and newlines gives the words concatenated |
| FormattedLists.NewlineCount | create-formatted-lists.js:35-36 | the layout of k words without newlines (as `split('\n')` gives them) holds (k - 1) / 10 newlines |
| FormattedLists.SpaceCount | create-formatted-lists.js:37-38 | for k words without spaces, every other gap holds one space: (k - 1) - (k - 1) / 10 of them |
| FormattedLists.NewlinesIsQuotient | create-formatted-lists.js:35 | among the gaps after words 1..m, those after a multiple of ten number m / 10 |

## Left out

- Console output, command-line entry points and file reading and writing are not modelled:
  - the `main` functions;
  - `ensureWordListsDirectory`, `saveWordList` and `saveDetailedWordList`;
  - the `fs` calls in `group-anagrams.js` and `create-formatted-lists.js`.

  Word lists are parameters. The text written to a file is a result.
- The word corpus package is not modelled: input words are an arbitrary sequence of strings.
- `test-duplicates.js` prints only; it serves as the source of the `AA` example.
- ShuffleArray: `Math.random` is an arbitrary choice of index in [0, i]. The model proves a permutation for every choice, but not that the shuffle is uniform.
- The Monte Carlo convergence of the letter probabilities is statistical and not modelled.
- Floating point is modelled over exact `real` arithmetic. This covers the products, `Math.pow` and the division by `iterations * topN`. IEEE rounding and underflow are not modelled.
- TopCountIsCeiling: `Math.ceil(words.length * 0.2)` is the exact ceiling of n / 5. A product `n * 0.2` that IEEE rounds just above a whole number is not modelled.
- A probability that is NaN in the source is `None`:
  - in the frequency analysis, this is 0 / 0 when `iterations * topN` is 0;
  - in the letter lookup, `None` counts as 0, as `NaN || 0` does.
- `createLetterStack` with an unknown category throws only through a `TypeError`. The model's `Category` admits the two real categories only.
- The unused `totalLetters` sum in `analyzeManagedStackFrequencies` is not modelled.
- `Object.entries` order is modelled as insertion order. JavaScript lists integer-like keys first, so a word holding digits has its digit counts listed first in `calculateWordProbability`. In `group-anagrams.js` a signature group is listed first only when its signature is an array index: digits only, no leading `0` unless the signature is `0` itself, and below 2^32 − 1. Signatures are sorted, so a digit-only signature that holds a `0` and more than one character starts with `0` and is not an array index (the word `10` has signature `01`). Neither order changes a result: `ProductPermutation` shows the score is the same in every letter order, and `EntriesOrderIrrelevant` shows the sort by representative index yields the same groups from every listing. The count check in `filterCountdownWords` rejects on any failing letter, so its order does not matter either. The table keys are letters and are not integer-like.
- Strings are sequences of Unicode scalar values, while JavaScript strings are UTF-16 code units. A character outside the Basic Multilingual Plane counts as two code units in `length` and is split into two halves by `split('')`. The four lines below name the members this affects.
- WordLists.GroupWordsByLength: the bucket of a word is its number of scalar values, not `word.length` (generate-word-lists.js:36-37).
- WordRanker.IsCountdownWord: the `length > 9` test counts scalar values (word-ranker.js:62). A word that passes the letter pattern is ASCII, so the filter's result is unaffected.
- WordRanker.ScoreWord: `length` is the number of scalar values (word-ranker.js:117).
- Anagrams.Signature: characters are sorted as whole scalar values, not as code-unit halves (group-anagrams.js:10).
- Default arguments are Dafny default parameter values: `useSimulation` defaults to false in `SimulateLetterRound`, and `topN` and `iterations` default to 9 and 10000 in `AnalyzeManagedStackFrequencies`.
- `toUpperCase` is modelled on ASCII letters only. Non-ASCII case mapping is not modelled (for example `ß` becomes `SS`).
- `trim` strips ASCII whitespace only.
- The regular expression `/^[A-Za-z]+$/` is a predicate over characters.
- SumCounts and SumProbabilities count a letter missing from the map as 0. Every use passes maps that hold all the summed letters.
- Anagrams.GroupWordsByAnagrams: the input is the already split word list. `content.trim().split('\n')` on the file text is not modelled.
