/** group-anagrams.js: the letter signature of a word, the grouping of a
    word list by signature, the ordering of the groups by the position of
    their first word, and the `[SIGNATURE] word word ...` output lines. */
module Anagrams {
  import opened Seqs
  import opened Chars
  import opened StableSort

  /** `getLetterSignature`: the upper-cased word with its letters sorted. */
  function Signature(word: string): (sig: string)
    ensures Sorted(sig)
    ensures multiset(sig) == multiset(Upper(word))
    ensures |sig| == |word|
  {
    var sig := SortChars(Upper(word));
    assert |sig| == |multiset(sig)| == |multiset(Upper(word))| == |Upper(word)|;
    sig
  }

  lemma UpperCharIsNotLower(c: char)
    ensures !('a' <= UpperChar(c) <= 'z')
  {
  }

  /** A signature is its own signature. */
  lemma SignatureIdempotent(word: string)
    ensures Signature(Signature(word)) == Signature(word)
  {
    var sig := Signature(word);
    var u := Upper(word);
    forall i | 0 <= i < |sig|
      ensures UpperChar(sig[i]) == sig[i]
    {
      assert sig[i] in multiset(u);
      var j :| 0 <= j < |u| && u[j] == sig[i];
      UpperCharIsNotLower(word[j]);
    }
    assert Upper(sig) == sig;
    SortSortedIsIdentity(sig);
  }

  /** Two words share a signature exactly when they are anagrams of each
      other, ignoring case. */
  lemma SignatureIffAnagram(a: string, b: string)
    ensures Signature(a) == Signature(b) <==> multiset(Upper(a)) == multiset(Upper(b))
  {
    if multiset(Upper(a)) == multiset(Upper(b)) {
      SortedUnique(Signature(a), Signature(b));
    }
  }

  function Signatures(words: seq<string>): seq<string> {
    seq(|words|, i requires 0 <= i < |words| => Signature(words[i]))
  }

  lemma SignaturesSnoc(words: seq<string>, w: string)
    ensures Signatures(words + [w]) == Signatures(words) + [Signature(w)]
  {
  }

  function HasSignature(sig: string): string -> bool {
    w => Signature(w) == sig
  }

  /** The words with signature `sig`, in input order: the group that the
      `forEach` loop builds for `sig`. */
  function Members(words: seq<string>, sig: string): seq<string> {
    Filter(words, HasSignature(sig))
  }

  /** A signature no word has gets no members. */
  lemma {:induction false} MembersAbsent(words: seq<string>, sig: string)
    requires sig !in Signatures(words)
    ensures Members(words, sig) == []
  {
    if words != [] {
      var p := words[..|words| - 1];
      assert Signatures(p) == Signatures(words)[..|words| - 1];
      MembersAbsent(p, sig);
      assert Signatures(words)[|words| - 1] != sig;
    }
  }

  lemma MembersSnoc(words: seq<string>, w: string, sig: string)
    ensures Members(words + [w], sig) == Members(words, sig) + (if Signature(w) == sig then [w] else [])
  {
    assert (words + [w])[..|words|] == words;
  }

  /** The grouping loop: the object keyed by signature, with its keys in the
      order they were first created. */
  method GroupBySignature(words: seq<string>) returns (groups: map<string, seq<string>>, order: seq<string>)
    ensures order == Distinct(Signatures(words))
    ensures forall sig :: sig in groups <==> sig in Signatures(words)
    ensures forall sig :: sig in groups ==> groups[sig] == Members(words, sig)
  {
    groups := map[];
    order := [];
    for n := 0 to |words|
      invariant order == Distinct(Signatures(words[..n]))
      invariant forall sig :: sig in groups <==> sig in Signatures(words[..n])
      invariant forall sig :: sig in groups ==> groups[sig] == Members(words[..n], sig)
    {
      var word := words[n];
      var signature := Signature(word);
      OrderStep(words, n, groups, order);
      var created := groups;
      if signature !in groups {
        groups := groups[signature := []];
        order := order + [signature];
      }
      var next := groups[signature := groups[signature] + [word]];
      GroupsStep(words, n, created, groups, next);
      groups := next;
    }
    assert words[..|words|] == words;
  }

  /** A new signature is appended to the key order; a known one leaves it. */
  lemma OrderStep(words: seq<string>, n: nat, groups: map<string, seq<string>>, order: seq<string>)
    requires n < |words|
    requires order == Distinct(Signatures(words[..n]))
    requires forall sig :: sig in groups <==> sig in Signatures(words[..n])
    ensures Signature(words[n]) in groups ==> order == Distinct(Signatures(words[..n + 1]))
    ensures Signature(words[n]) !in groups ==> order + [Signature(words[n])] == Distinct(Signatures(words[..n + 1]))
  {
    assert words[..n + 1] == words[..n] + [words[n]];
    SignaturesSnoc(words[..n], words[n]);
    DistinctSnoc(Signatures(words[..n]), Signature(words[n]));
  }

  /** Creating the word's group when it is missing and pushing the word onto
      it keeps every group equal to its members so far. */
  lemma GroupsStep(words: seq<string>, n: nat, groups: map<string, seq<string>>,
                   created: map<string, seq<string>>, next: map<string, seq<string>>)
    requires n < |words|
    requires forall sig :: sig in groups <==> sig in Signatures(words[..n])
    requires forall sig :: sig in groups ==> groups[sig] == Members(words[..n], sig)
    requires created == if Signature(words[n]) in groups then groups else groups[Signature(words[n]) := []]
    requires next == created[Signature(words[n]) := created[Signature(words[n])] + [words[n]]]
    ensures forall sig :: sig in next <==> sig in Signatures(words[..n + 1])
    ensures forall sig :: sig in next ==> next[sig] == Members(words[..n + 1], sig)
  {
    assert words[..n + 1] == words[..n] + [words[n]];
    GroupsSnoc(words[..n], words[n], groups, created, next);
  }

  lemma GroupsSnoc(done: seq<string>, word: string, groups: map<string, seq<string>>,
                   created: map<string, seq<string>>, next: map<string, seq<string>>)
    requires forall sig :: sig in groups <==> sig in Signatures(done)
    requires forall sig :: sig in groups ==> groups[sig] == Members(done, sig)
    requires created == if Signature(word) in groups then groups else groups[Signature(word) := []]
    requires next == created[Signature(word) := created[Signature(word)] + [word]]
    ensures forall sig :: sig in next <==> sig in Signatures(done + [word])
    ensures forall sig :: sig in next ==> next[sig] == Members(done + [word], sig)
  {
    var x := Signature(word);
    SignaturesSnoc(done, word);
    forall sig | sig in next
      ensures next[sig] == Members(done + [word], sig)
    {
      MembersSnoc(done, word, sig);
      if sig == x && x !in groups {
        MembersAbsent(done, x);
      }
    }
  }

  /** An anagram group: its signature and its words in input order. */
  datatype Group = Group(signature: string, words: seq<string>)

  /** The group objects built from `Object.entries`, one per signature. */
  function Entries(words: seq<string>, sigs: seq<string>): seq<Group> {
    seq(|sigs|, i requires 0 <= i < |sigs| => Group(sigs[i], Members(words, sigs[i])))
  }

  /** `Object.entries(anagramGroups).map(...)`: one group per key, in key
      order. */
  function EntriesOf(groups: map<string, seq<string>>, order: seq<string>): seq<Group>
    requires forall i :: 0 <= i < |order| ==> order[i] in groups
  {
    seq(|order|, i requires 0 <= i < |order| => Group(order[i], groups[order[i]]))
  }

  lemma EntriesOfGroups(words: seq<string>, groups: map<string, seq<string>>, order: seq<string>)
    requires forall i :: 0 <= i < |order| ==> order[i] in groups
    requires forall sig :: sig in groups ==> groups[sig] == Members(words, sig)
    ensures EntriesOf(groups, order) == Entries(words, order)
  {
  }

  /** The comparator of the group sort, `words.indexOf(a.representative) -
      words.indexOf(b.representative)`, with the representative the group's
      first word; `indexOf(undefined)` of an empty group would be -1. */
  function RepresentativeIndex(words: seq<string>): Group -> real {
    (g: Group) => (if g.words == [] then -1 else IndexOf(words, g.words[0])) as real
  }

  /** A group's key is -1 when it is empty or its first word is not in the
      list, and otherwise the position where its first word first occurs. */
  lemma RepresentativeIndexMeaning(words: seq<string>, g: Group)
    ensures RepresentativeIndex(words)(g) == -1 as real <==> g.words == [] || g.words[0] !in words
    ensures g.words != [] && g.words[0] in words ==>
      && 0 <= IndexOf(words, g.words[0]) < |words|
      && RepresentativeIndex(words)(g) == IndexOf(words, g.words[0]) as real
      && words[IndexOf(words, g.words[0])] == g.words[0]
      && g.words[0] !in words[..IndexOf(words, g.words[0])]
  {
  }

  /** The first member of a signature's group is the word at the first
      position with that signature. */
  lemma {:induction false} FirstMember(words: seq<string>, sig: string)
    requires sig in Signatures(words)
    ensures Members(words, sig) != []
    ensures Members(words, sig)[0] == words[IndexOf(Signatures(words), sig)]
  {
    var p := words[..|words| - 1];
    var w := words[|words| - 1];
    assert words == p + [w];
    SignaturesSnoc(p, w);
    MembersSnoc(p, w, sig);
    if sig in Signatures(p) {
      FirstMember(p, sig);
      IndexOfSnoc(Signatures(p), Signature(w), sig);
    } else {
      MembersAbsent(p, sig);
      IndexOfSnoc(Signatures(p), Signature(w), sig);
    }
  }

  lemma IndexOfSnoc<T>(s: seq<T>, x: T, y: T)
    ensures IndexOf(s + [x], y) == if y in s then IndexOf(s, y) else if x == y then |s| else -1
  {
    assert (s + [x])[..|s|] == s;
  }

  /** The representative's first position in the list is the first position
      of its signature: no earlier word can equal it. */
  lemma RepresentativePosition(words: seq<string>, sig: string)
    requires sig in Signatures(words)
    ensures Members(words, sig) != []
    ensures IndexOf(words, Members(words, sig)[0]) == IndexOf(Signatures(words), sig)
  {
    FirstMember(words, sig);
    var k := IndexOf(Signatures(words), sig);
    var m := IndexOf(words, words[k]);
    assert words[k] in words;
    assert Signatures(words)[m] == sig;
  }

  /** The first-occurrence order lists values by increasing first position. */
  lemma {:induction false} DistinctFirstPositions<T>(s: seq<T>)
    ensures forall i, j :: 0 <= i < j < |Distinct(s)| ==> IndexOf(s, Distinct(s)[i]) < IndexOf(s, Distinct(s)[j])
  {
    if s != [] {
      var p := s[..|s| - 1];
      var x := s[|s| - 1];
      assert s == p + [x];
      DistinctFirstPositions(p);
      DistinctSpec(p);
      DistinctSnoc(p, x);
      var d := Distinct(p);
      forall i | 0 <= i < |d|
        ensures IndexOf(s, d[i]) == IndexOf(p, d[i])
      {
        IndexOfSnoc(p, x, d[i]);
      }
      if x !in p {
        IndexOfSnoc(p, x, x);
      }
    }
  }

  /** The groups in first-occurrence order are already in comparator order,
      so the sort leaves them as they are. */
  lemma EntriesAreSorted(words: seq<string>)
    ensures SortedBy(Entries(words, Distinct(Signatures(words))), RepresentativeIndex(words))
  {
    var d := Distinct(Signatures(words));
    var entries := Entries(words, d);
    DistinctFirstPositions(Signatures(words));
    forall i, j | 0 <= i < j < |entries|
      ensures RepresentativeIndex(words)(entries[i]) <= RepresentativeIndex(words)(entries[j])
    {
      EntryKey(words, i);
      EntryKey(words, j);
    }
  }

  /** The groups come out the same whatever order `Object.entries` lists
      them in (JavaScript lists integer-like keys, such as the signature of
      a word of digits, first): the sort by representative index fixes the
      order, because no two groups share a representative index. */
  lemma EntriesOrderIrrelevant(words: seq<string>, listed: seq<Group>)
    requires multiset(listed) == multiset(Entries(words, Distinct(Signatures(words))))
    ensures SortBy(listed, RepresentativeIndex(words)) == Entries(words, Distinct(Signatures(words)))
  {
    var entries := Entries(words, Distinct(Signatures(words)));
    var key := RepresentativeIndex(words);
    EntriesAreSorted(words);
    DistinctFirstPositions(Signatures(words));
    forall i, j | 0 <= i < j < |entries|
      ensures key(entries[i]) != key(entries[j])
    {
      EntryKey(words, i);
      EntryKey(words, j);
    }
    SortedByUnique(entries, SortBy(listed, key), key);
  }

  /** A group's sort key is the first position of its signature. */
  lemma EntryKey(words: seq<string>, i: nat)
    requires i < |Distinct(Signatures(words))|
    ensures RepresentativeIndex(words)(Entries(words, Distinct(Signatures(words)))[i])
         == IndexOf(Signatures(words), Distinct(Signatures(words))[i]) as real
  {
    var sig := Distinct(Signatures(words))[i];
    DistinctSpec(Signatures(words));
    RepresentativePosition(words, sig);
  }

  /** Line 60: `[` signature `] ` followed by the words joined by spaces. */
  function Line(g: Group): string {
    "[" + g.signature + "] " + Join(g.words, " ")
  }

  /** `Array.prototype.join`. */
  function Join(parts: seq<string>, sep: string): string {
    if parts == [] then ""
    else if |parts| == 1 then parts[0]
    else Join(parts[..|parts| - 1], sep) + sep + parts[|parts| - 1]
  }

  /** The output text before trimming: each group's line followed by a
      newline. */
  function Lines(groups: seq<Group>): string {
    if groups == [] then "" else Lines(groups[..|groups| - 1]) + Line(groups[|groups| - 1]) + "\n"
  }

  function WordCount(groups: seq<Group>): nat {
    if groups == [] then 0 else WordCount(groups[..|groups| - 1]) + |groups[|groups| - 1].words|
  }

  /** The output loop: accumulates the lines and the number of words. */
  method BuildOutput(sortedGroups: seq<Group>) returns (output: string, totalWords: nat)
    ensures output == Lines(sortedGroups)
    ensures totalWords == WordCount(sortedGroups)
  {
    output := "";
    totalWords := 0;
    for i := 0 to |sortedGroups|
      invariant output == Lines(sortedGroups[..i])
      invariant totalWords == WordCount(sortedGroups[..i])
    {
      var group := sortedGroups[i];
      assert sortedGroups[..i + 1][..i] == sortedGroups[..i];
      var line := "[" + group.signature + "] " + Join(group.words, " ");
      output := output + line + "\n";
      totalWords := totalWords + |group.words|;
    }
    assert sortedGroups[..|sortedGroups|] == sortedGroups;
  }

  /** The number of words in the groups of the signatures `sigs`. */
  function MemberCount(words: seq<string>, sigs: seq<string>): nat {
    if sigs == [] then 0 else MemberCount(words, sigs[..|sigs| - 1]) + |Members(words, sigs[|sigs| - 1])|
  }

  lemma {:induction false} WordCountEntries(words: seq<string>, sigs: seq<string>)
    ensures WordCount(Entries(words, sigs)) == MemberCount(words, sigs)
  {
    if sigs != [] {
      var p := sigs[..|sigs| - 1];
      WordCountEntries(words, p);
      assert Entries(words, sigs)[..|sigs| - 1] == Entries(words, p);
    }
  }

  /** One more word adds one to the count of any signature list that holds
      its signature once, and nothing to one that lacks it. */
  lemma {:induction false} MemberCountSnoc(words: seq<string>, w: string, sigs: seq<string>)
    requires NoDuplicates(sigs)
    ensures MemberCount(words + [w], sigs) == MemberCount(words, sigs) + (if Signature(w) in sigs then 1 else 0)
  {
    if sigs != [] {
      var p := sigs[..|sigs| - 1];
      var s := sigs[|sigs| - 1];
      assert sigs == p + [s];
      assert NoDuplicates(p);
      MemberCountSnoc(words, w, p);
      MembersSnoc(words, w, s);
      assert s !in p;
    }
  }

  /** Every word is in exactly one group, so the groups hold all the words. */
  lemma {:induction false} GroupsPartitionWords(words: seq<string>)
    ensures MemberCount(words, Distinct(Signatures(words))) == |words|
  {
    if words != [] {
      var p := words[..|words| - 1];
      var w := words[|words| - 1];
      var x := Signature(w);
      assert words == p + [w];
      GroupsPartitionWords(p);
      SignaturesSnoc(p, w);
      DistinctSnoc(Signatures(p), x);
      var d := Distinct(Signatures(p));
      DistinctSpec(Signatures(p));
      MemberCountSnoc(p, w, d);
      if x !in Signatures(p) {
        assert (d + [x])[..|d|] == d;
        MembersAbsent(p, x);
        MembersSnoc(p, w, x);
      }
    }
  }

  /** The characters `String.prototype.trim` removes, restricted to ASCII. */
  predicate IsWhitespace(c: char) {
    c == ' ' || c == '\t' || c == '\n' || c == '\r' || c == '\U{0B}' || c == '\U{0C}'
  }

  /** The longest prefix that does not end in whitespace: what follows it
      is all whitespace. */
  function TrimEnd(s: string): (r: string)
    ensures |r| <= |s| && r == s[..|r|]
    ensures r == [] || !IsWhitespace(r[|r| - 1])
    ensures forall i :: |r| <= i < |s| ==> IsWhitespace(s[i])
  {
    if s != [] && IsWhitespace(s[|s| - 1]) then TrimEnd(s[..|s| - 1]) else s
  }

  /** The longest suffix that does not start with whitespace: what comes
      before it is all whitespace. */
  function TrimStart(s: string): (r: string)
    ensures |r| <= |s| && r == s[|s| - |r|..]
    ensures r == [] || !IsWhitespace(r[0])
    ensures forall i :: 0 <= i < |s| - |r| ==> IsWhitespace(s[i])
  {
    if s != [] && IsWhitespace(s[0]) then TrimStart(s[1..]) else s
  }

  /** `String.prototype.trim`, applied to the output before it is written:
      a piece of the text that neither starts nor ends with whitespace. */
  function Trim(s: string): (r: string)
    ensures |r| <= |s|
    ensures r == [] || (!IsWhitespace(r[0]) && !IsWhitespace(r[|r| - 1]))
  {
    TrimStart(TrimEnd(s))
  }

  /** A word as the word lists hold it: non-empty, without blanks. */
  predicate PlainWord(w: string) {
    w != [] && forall i :: 0 <= i < |w| ==> !IsWhitespace(w[i])
  }

  lemma {:induction false} JoinNoNewline(parts: seq<string>, sep: string)
    requires forall i :: 0 <= i < |parts| ==> '\n' !in parts[i]
    requires '\n' !in sep
    ensures '\n' !in Join(parts, sep)
  {
    if |parts| > 1 {
      JoinNoNewline(parts[..|parts| - 1], sep);
    }
  }

  /** The joined text ends where the last part ends. */
  lemma JoinEnd(parts: seq<string>, sep: string)
    requires parts != [] && parts[|parts| - 1] != []
    ensures Join(parts, sep) != []
    ensures Join(parts, sep)[|Join(parts, sep)| - 1] == parts[|parts| - 1][|parts[|parts| - 1]| - 1]
  {
  }

  lemma SignatureNoNewline(w: string)
    requires '\n' !in w
    ensures '\n' !in Signature(w)
  {
    assert '\n' !in multiset(Upper(w));
  }

  /** A group whose signature and words hold no line break. */
  predicate NewlineFree(g: Group) {
    && '\n' !in g.signature
    && forall i :: 0 <= i < |g.words| ==> '\n' !in g.words[i]
  }

  predicate WellFormedGroup(g: Group) {
    && g.words != []
    && '\n' !in g.signature
    && forall i :: 0 <= i < |g.words| ==> PlainWord(g.words[i])
  }

  /** One output line per group: each line holds no newline of its own. */
  lemma {:induction false} LinesCount(groups: seq<Group>)
    requires forall i :: 0 <= i < |groups| ==> NewlineFree(groups[i])
    ensures multiset(Lines(groups))['\n'] == |groups|
  {
    if groups != [] {
      LinesCount(groups[..|groups| - 1]);
      LineHasNoNewline(groups[|groups| - 1]);
    }
  }

  lemma LineHasNoNewline(g: Group)
    requires NewlineFree(g)
    ensures multiset(Line(g))['\n'] == 0
  {
    JoinNoNewline(g.words, " ");
    assert '\n' !in Line(g);
  }

  lemma LinesStart(groups: seq<Group>)
    requires groups != []
    ensures Lines(groups) != [] && Lines(groups)[0] == '['
    decreases |groups|
  {
    if |groups| > 1 {
      LinesStart(groups[..|groups| - 1]);
    }
  }

  /** Trimming the output drops exactly its final newline. */
  lemma TrimLines(groups: seq<Group>)
    requires groups != []
    requires forall i :: 0 <= i < |groups| ==> WellFormedGroup(groups[i])
    ensures Trim(Lines(groups)) + "\n" == Lines(groups)
  {
    var g := groups[|groups| - 1];
    var body := Lines(groups[..|groups| - 1]) + Line(g);
    assert Lines(groups) == body + "\n";
    LineEnd(g);
    assert body[|body| - 1] == Line(g)[|Line(g)| - 1];
    TrimEndNewline(body);
    LinesStart(groups);
    assert body[0] == Lines(groups)[0];
    TrimStartBracket(body);
  }

  lemma TrimEndNewline(body: string)
    requires body != [] && !IsWhitespace(body[|body| - 1])
    ensures TrimEnd(body + "\n") == body
  {
    assert (body + "\n")[..|body|] == body;
  }

  lemma TrimStartBracket(s: string)
    requires s != [] && s[0] == '['
    ensures TrimStart(s) == s
  {
  }

  /** A line ends with the last letter of its last word. */
  lemma LineEnd(g: Group)
    requires WellFormedGroup(g)
    ensures Line(g) != [] && !IsWhitespace(Line(g)[|Line(g)| - 1])
  {
    var last := g.words[|g.words| - 1];
    assert PlainWord(last);
    JoinEnd(g.words, " ");
  }

  lemma EntriesWellFormed(words: seq<string>)
    requires forall i :: 0 <= i < |words| ==> PlainWord(words[i])
    ensures forall i :: 0 <= i < |Entries(words, Distinct(Signatures(words)))| ==>
      WellFormedGroup(Entries(words, Distinct(Signatures(words)))[i])
  {
    var d := Distinct(Signatures(words));
    DistinctSpec(Signatures(words));
    forall i | 0 <= i < |d|
      ensures WellFormedGroup(Entries(words, d)[i])
    {
      var sig := d[i];
      var k :| 0 <= k < |words| && Signatures(words)[k] == sig;
      assert '\n' !in words[k] by {
        assert PlainWord(words[k]);
      }
      SignatureNoNewline(words[k]);
      FirstMember(words, sig);
      forall j | 0 <= j < |Members(words, sig)|
        ensures PlainWord(Members(words, sig)[j])
      {
        MemberIsInput(words, sig, Members(words, sig)[j]);
      }
    }
  }

  /** Words without line breaks give groups without line breaks. */
  lemma EntriesNewlineFree(words: seq<string>)
    requires forall i :: 0 <= i < |words| ==> '\n' !in words[i]
    ensures forall i :: 0 <= i < |Entries(words, Distinct(Signatures(words)))| ==>
      NewlineFree(Entries(words, Distinct(Signatures(words)))[i])
  {
    var d := Distinct(Signatures(words));
    DistinctSpec(Signatures(words));
    forall i | 0 <= i < |d|
      ensures NewlineFree(Entries(words, d)[i])
    {
      var sig := d[i];
      var k :| 0 <= k < |words| && Signatures(words)[k] == sig;
      SignatureNoNewline(words[k]);
      forall j | 0 <= j < |Members(words, sig)|
        ensures '\n' !in Members(words, sig)[j]
      {
        MemberIsInput(words, sig, Members(words, sig)[j]);
      }
    }
  }

  lemma MemberIsInput(words: seq<string>, sig: string, w: string)
    requires w in Members(words, sig)
    ensures w in words
  {
    FilterCount(words, HasSignature(sig), w);
  }

  /** Lines 30-63 of group-anagrams.js: group, order the groups, and build
      the output. The groups come out one per signature, in order of first
      occurrence, each holding its words in input order; together they hold
      every word. */
  method GroupWordsByAnagrams(words: seq<string>)
    returns (sortedGroups: seq<Group>, output: string, totalWords: nat, content: string)
    ensures sortedGroups == Entries(words, Distinct(Signatures(words)))
    ensures output == Lines(sortedGroups)
    ensures totalWords == |words|
    ensures content == Trim(output)
    ensures (forall i :: 0 <= i < |words| ==> '\n' !in words[i]) ==>
      multiset(output)['\n'] == |sortedGroups|
    ensures words != [] && (forall i :: 0 <= i < |words| ==> PlainWord(words[i])) ==>
      content + "\n" == output
  {
    var groups, order := GroupBySignature(words);
    DistinctSpec(Signatures(words));
    var entries := EntriesOf(groups, order);
    EntriesOfGroups(words, groups, order);
    EntriesAreSorted(words);
    SortBySortedIsIdentity(entries, RepresentativeIndex(words));
    sortedGroups := SortBy(entries, RepresentativeIndex(words));
    output, totalWords := BuildOutput(sortedGroups);
    WordCountEntries(words, Distinct(Signatures(words)));
    GroupsPartitionWords(words);
    content := Trim(output);
    if forall i :: 0 <= i < |words| ==> '\n' !in words[i] {
      EntriesNewlineFree(words);
      LinesCount(sortedGroups);
    }
    if words != [] && forall i :: 0 <= i < |words| ==> PlainWord(words[i]) {
      EntriesWellFormed(words);
      assert Signatures(words)[0] in Distinct(Signatures(words));
      TrimLines(sortedGroups);
    }
  }
}
