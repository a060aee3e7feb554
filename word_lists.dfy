/** `groupWordsByLength` of generate-word-lists.js: the word list split into
    nine buckets by word length. The JavaScript object with keys 1..9 is a
    map from int to a sequence of words. */
module WordLists {
  import opened Seqs

  const MinLength := 1
  const MaxLength := 9

  function OfLength(k: int): string -> bool {
    w => |w| == k
  }

  predicate InRange(w: string) {
    MinLength <= |w| <= MaxLength
  }

  /** Bucket `k`: the words of length `k`, in input order. */
  function Bucket(words: seq<string>, k: int): seq<string> {
    Filter(words, OfLength(k))
  }

  /** Nine empty buckets are created first, then every word of length 1..9
      is pushed onto the bucket of its length; other words are skipped. */
  method GroupWordsByLength(wordList: seq<string>) returns (grouped: map<int, seq<string>>)
    ensures forall k :: k in grouped <==> MinLength <= k <= MaxLength
    ensures forall k :: MinLength <= k <= MaxLength ==> grouped[k] == Bucket(wordList, k)
  {
    grouped := map[];
    for i := MinLength to MaxLength + 1
      invariant forall k :: k in grouped <==> MinLength <= k < i
      invariant forall k :: k in grouped ==> grouped[k] == []
    {
      grouped := grouped[i := []];
    }
    for n := 0 to |wordList|
      invariant forall k :: k in grouped <==> MinLength <= k <= MaxLength
      invariant forall k :: MinLength <= k <= MaxLength ==> grouped[k] == Bucket(wordList[..n], k)
    {
      var word := wordList[n];
      forall k | MinLength <= k <= MaxLength
        ensures Bucket(wordList[..n + 1], k) == Bucket(wordList[..n], k) + (if |word| == k then [word] else [])
      {
        FilterStep(wordList, n, OfLength(k));
      }
      if MinLength <= |word| <= MaxLength {
        grouped := grouped[|word| := grouped[|word|] + [word]];
      }
    }
    assert wordList[..|wordList|] == wordList;
  }

  /** A word is in bucket `k` exactly when it is an input word of length
      `k`; so a word whose length is outside 1..9 is in no bucket. */
  lemma {:induction false} BucketMembership(words: seq<string>, k: int, w: string)
    ensures w in Bucket(words, k) <==> w in words && |w| == k
  {
    FilterCount(words, OfLength(k), w);
    assert w in Bucket(words, k) <==> multiset(Bucket(words, k))[w] > 0;
    assert w in words <==> multiset(words)[w] > 0;
  }

  /** Each bucket lists its words in input order. */
  lemma BucketKeepsOrder(words: seq<string>, k: int)
    ensures IsSubsequence(Bucket(words, k), words)
  {
    FilterIsSubsequence(words, OfLength(k));
  }

  /** The sizes of buckets 1..n. */
  function BucketSizes(words: seq<string>, n: int): nat
    decreases n
  {
    if n < MinLength then 0 else BucketSizes(words, n - 1) + |Bucket(words, n)|
  }

  lemma {:induction false} BucketSizesSnoc(words: seq<string>, w: string, n: int)
    ensures BucketSizes(words + [w], n) == BucketSizes(words, n) + (if MinLength <= |w| <= n then 1 else 0)
    decreases n
  {
    if n >= MinLength {
      BucketSizesSnoc(words, w, n - 1);
      FilterConcat(words, [w], OfLength(n));
      assert [w][..0] == [];
      assert Filter([w], OfLength(n)) == if |w| == n then [w] else [];
    }
  }

  /** Together the nine buckets hold every word of length 1..9 once. */
  lemma {:induction false} BucketsPartition(words: seq<string>)
    ensures BucketSizes(words, MaxLength) == |Filter(words, InRange)|
  {
    if words != [] {
      var p := words[..|words| - 1];
      var w := words[|words| - 1];
      BucketsPartition(p);
      assert words == p + [w];
      BucketSizesSnoc(p, w, MaxLength);
    } else {
      BucketsEmpty(words, MaxLength);
    }
  }

  lemma {:induction false} BucketsEmpty(words: seq<string>, n: int)
    requires words == []
    ensures BucketSizes(words, n) == 0
    decreases n
  {
    if n >= MinLength {
      BucketsEmpty(words, n - 1);
    }
  }
}
