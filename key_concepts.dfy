/**
 * `extract_key_concepts`: picks up to `numConcepts` phrases from the documents'
 * text. Bigrams of adjacent qualifying tokens that mention the topic come
 * first; single qualifying words fill up only when there are too few of them.
 * Everything is de-duplicated in first-occurrence order; the frequencies that
 * the source counts are never used for ordering.
 */
module KeyConcepts {
  import opened Text
  import opened Seqs

  const StopWords: set<string> := {"this", "that", "with", "from", "which", "about", "editors",
    "published", "university", "handbook", "borko", "furht", "armando", "escalante"}

  /** A token usable in a concept: longer than 3 characters and alphabetic. */
  predicate Qualifies(w: string) {
    |w| > 3 && IsAlpha(w)
  }

  /** The tokens of the documents: their texts joined by spaces, lower-cased, split into `\w` runs. */
  function Tokens(texts: seq<string>): seq<string> {
    WordTokens(Lower(JoinWithSpace(texts)))
  }

  /** `c` is the bigram formed at position `j` of `words`, both tokens qualifying. */
  predicate BigramAt(words: seq<string>, j: int, c: string) {
    0 <= j < |words| - 1 && Qualifies(words[j]) && Qualifies(words[j + 1])
    && c == words[j] + " " + words[j + 1]
  }

  /** The bigrams of `words` formed at positions `i` and later, in text order. */
  function BigramsFrom(words: seq<string>, i: nat): (r: seq<string>)
    requires i <= |words|
    decreases |words| - i
  {
    if i + 1 >= |words| then []
    else
      (if Qualifies(words[i]) && Qualifies(words[i + 1]) then [words[i] + " " + words[i + 1]] else [])
      + BigramsFrom(words, i + 1)
  }

  /** `bigrams` in the source: one entry per qualifying adjacent pair, repeats included. */
  function Bigrams(words: seq<string>): seq<string> {
    BigramsFrom(words, 0)
  }

  /** `c` is a bigram formed somewhere in `words`. */
  ghost predicate IsBigramOf(words: seq<string>, c: string) {
    exists j :: BigramAt(words, j, c)
  }

  /** Exactly the bigrams formed at positions `i` and later are listed. */
  lemma {:induction false} BigramsFromMembers(words: seq<string>, i: nat)
    requires i <= |words|
    ensures forall k :: 0 <= k < |BigramsFrom(words, i)| ==> IsBigramOf(words, BigramsFrom(words, i)[k])
    ensures forall j, c :: i <= j && BigramAt(words, j, c) ==> c in BigramsFrom(words, i)
    decreases |words| - i
  {
    if i + 1 < |words| {
      BigramsFromMembers(words, i + 1);
      var head := if Qualifies(words[i]) && Qualifies(words[i + 1]) then [words[i] + " " + words[i + 1]] else [];
      var rest := BigramsFrom(words, i + 1);
      assert BigramsFrom(words, i) == head + rest;
      if head != [] {
        assert BigramAt(words, i, head[0]);
      }
    }
  }

  /** `single_words` in the source: the qualifying tokens, repeats included. */
  function Singles(words: seq<string>): seq<string> {
    Filter(words, Qualifies)
  }

  /** `any(sw in c.split() for sw in stop_words)`: some whitespace token of `c` is a stopword. */
  predicate HasStopToken(c: string) {
    exists sw :: sw in StopWords && sw in SplitWhitespace(c)
  }

  /** `any(sw in w for sw in stop_words)`: some stopword is a substring of `w`. */
  predicate HasStopSubstring(w: string) {
    exists sw :: sw in StopWords && Contains(w, sw)
  }

  /** The condition the source puts on a topic concept. */
  predicate IsTopicPhrase(topicLower: string, c: string) {
    Contains(c, topicLower) && !HasStopToken(c)
  }

  /** The condition the source puts on an additional single word. */
  predicate IsFillerWord(w: string) {
    w !in StopWords && !HasStopSubstring(w)
  }

  /** `topic_concepts`: the distinct topic bigrams, by first occurrence. */
  function TopicBigrams(words: seq<string>, topicLower: string): seq<string> {
    Filter(Distinct(Bigrams(words)), c => IsTopicPhrase(topicLower, c))
  }

  /** `additional_concepts`: the distinct filler words, by first occurrence. */
  function FillerWords(words: seq<string>): seq<string> {
    Filter(Distinct(Singles(words)), IsFillerWord)
  }

  /** `topic_concepts` after the fallback: extended by the filler words when there are too few. */
  function Candidates(words: seq<string>, topicLower: string, numConcepts: nat): seq<string> {
    var topicConcepts := TopicBigrams(words, topicLower);
    if |topicConcepts| < numConcepts then topicConcepts + FillerWords(words) else topicConcepts
  }

  /** `extract_key_concepts(content, topic, num_concepts)`; `texts` are the content dictionary's values in order. */
  function ExtractKeyConcepts(texts: seq<string>, topic: string, numConcepts: nat): seq<string> {
    Take(Distinct(Candidates(Tokens(texts), Lower(topic), numConcepts)), numConcepts)
  }

  // ---------------------------------------------------------------------------
  // What a returned concept can be
  // ---------------------------------------------------------------------------

  /** A concept of the first kind: a bigram of two adjacent qualifying tokens, mentioning the topic, no stopword token. */
  ghost predicate IsConceptBigram(words: seq<string>, topicLower: string, c: string) {
    IsBigramOf(words, c) && IsTopicPhrase(topicLower, c)
  }

  /** A concept of the second kind: a qualifying token with no stopword inside it. */
  ghost predicate IsConceptWord(words: seq<string>, c: string) {
    c in words && Qualifies(c) && IsFillerWord(c)
  }

  lemma BigramHasSpace(words: seq<string>, j: int, c: string)
    requires BigramAt(words, j, c)
    ensures ' ' in c
  {
    assert c[|words[j]|] == ' ';
  }

  lemma WordHasNoSpace(w: string)
    requires Qualifies(w)
    ensures ' ' !in w
  {
  }

  /** The topic bigrams have no repeats and follow first occurrence in the list of bigrams. */
  lemma TopicBigramsOrdered(words: seq<string>, tl: string)
    ensures NoDup(TopicBigrams(words, tl))
    ensures FirstOccurrenceOrder(TopicBigrams(words, tl), Bigrams(words))
  {
    var bs := Bigrams(words);
    DistinctOrder(bs);
    FilterKeepsOrder(Distinct(bs), bs, c => IsTopicPhrase(tl, c));
  }

  /** The filler words have no repeats and follow first occurrence in the list of qualifying tokens. */
  lemma FillerWordsOrdered(words: seq<string>)
    ensures NoDup(FillerWords(words))
    ensures FirstOccurrenceOrder(FillerWords(words), Singles(words))
  {
    var ss := Singles(words);
    DistinctOrder(ss);
    FilterKeepsOrder(Distinct(ss), ss, IsFillerWord);
  }

  lemma FillerPairOrder(words: seq<string>, a: nat, b: nat)
    requires a < b < |FillerWords(words)|
    ensures var fw, ss := FillerWords(words), Singles(words);
      fw[a] in ss && fw[b] in ss && IndexOf(ss, fw[a]) < IndexOf(ss, fw[b])
  {
    FillerWordsOrdered(words);
    OrderedPair(FillerWords(words), Singles(words), a, b);
  }

  /** The topic bigrams are exactly the concept bigrams of the text. */
  lemma TopicBigramsMembers(words: seq<string>, tl: string)
    ensures forall c :: c in TopicBigrams(words, tl) <==> IsConceptBigram(words, tl, c)
  {
    var bs := Bigrams(words);
    var d := Distinct(bs);
    var tc := TopicBigrams(words, tl);
    BigramsFromMembers(words, 0);
    forall c ensures c in tc <==> IsConceptBigram(words, tl, c) {
      if c in tc {
        var k :| 0 <= k < |tc| && tc[k] == c;
        var e :| 0 <= e < |d| && d[e] == c;
        var m :| 0 <= m < |bs| && bs[m] == c;
      }
      if IsConceptBigram(words, tl, c) {
        var j :| BigramAt(words, j, c);
        var m :| 0 <= m < |bs| && bs[m] == c;
        var e :| 0 <= e < |d| && d[e] == c;
      }
    }
  }

  /** The filler words are exactly the concept words of the text. */
  lemma FillerWordsMembers(words: seq<string>)
    ensures forall c :: c in FillerWords(words) <==> IsConceptWord(words, c)
  {
  }

  /** A space tells the two kinds apart: every topic bigram has one, no filler word has. */
  lemma KindsBySpace(words: seq<string>, tl: string)
    ensures forall i :: 0 <= i < |TopicBigrams(words, tl)| ==> ' ' in TopicBigrams(words, tl)[i]
    ensures forall i :: 0 <= i < |FillerWords(words)| ==> ' ' !in FillerWords(words)[i]
  {
    var tc := TopicBigrams(words, tl);
    TopicBigramsMembers(words, tl);
    forall i | 0 <= i < |tc| ensures ' ' in tc[i] {
      assert IsConceptBigram(words, tl, tc[i]);
      var j :| BigramAt(words, j, tc[i]);
      BigramHasSpace(words, j, tc[i]);
    }
    var fw := FillerWords(words);
    forall i | 0 <= i < |fw| ensures ' ' !in fw[i] {
      assert fw[i] in Singles(words);
      WordHasNoSpace(fw[i]);
    }
  }

  /** Every concept bigram holds a space and no concept word does. */
  lemma ConceptSpaces(words: seq<string>, tl: string)
    ensures forall c :: IsConceptBigram(words, tl, c) ==> ' ' in c
    ensures forall c :: IsConceptWord(words, c) ==> ' ' !in c
  {
    forall c | IsConceptBigram(words, tl, c) ensures ' ' in c {
      var j :| BigramAt(words, j, c);
      BigramHasSpace(words, j, c);
    }
    forall c | IsConceptWord(words, c) ensures ' ' !in c {
      WordHasNoSpace(c);
    }
  }

  /**
   * A position in the candidate list decides the kind: the topic bigrams
   * first, the filler words after them (only when there are too few bigrams),
   * and a space tells them apart.
   */
  lemma CandidatesLayout(words: seq<string>, tl: string, n: nat)
    ensures var cand, tc, fw := Candidates(words, tl, n), TopicBigrams(words, tl), FillerWords(words);
      && |tc| <= |cand|
      && (forall i :: 0 <= i < |tc| ==> cand[i] == tc[i])
      && (forall i :: |tc| <= i < |cand| ==> |tc| < n && cand[i] == fw[i - |tc|])
      && (forall i :: 0 <= i < |cand| ==> (i < |tc| <==> ' ' in cand[i]))
  {
    var cand, tc, fw := Candidates(words, tl, n), TopicBigrams(words, tl), FillerWords(words);
    KindsBySpace(words, tl);
    SpaceLayout(tc, fw, cand, |tc| < n);
  }

  /** The layout of `tc + fw` (or of `tc` alone) when only the elements of `tc` hold a space. */
  lemma SpaceLayout(tc: seq<string>, fw: seq<string>, cand: seq<string>, extended: bool)
    requires cand == if extended then tc + fw else tc
    requires forall i :: 0 <= i < |tc| ==> ' ' in tc[i]
    requires forall i :: 0 <= i < |fw| ==> ' ' !in fw[i]
    ensures |tc| <= |cand|
    ensures forall i :: 0 <= i < |tc| ==> cand[i] == tc[i]
    ensures forall i :: |tc| <= i < |cand| ==> extended && cand[i] == fw[i - |tc|]
    ensures forall i :: 0 <= i < |cand| ==> (i < |tc| <==> ' ' in cand[i])
  {
  }

  /** The candidate list holds no duplicates, so the final `dict.fromkeys` changes nothing. */
  lemma CandidatesDistinct(words: seq<string>, tl: string, n: nat)
    ensures Distinct(Candidates(words, tl, n)) == Candidates(words, tl, n)
  {
    var cand, tc, fw := Candidates(words, tl, n), TopicBigrams(words, tl), FillerWords(words);
    TopicBigramsOrdered(words, tl);
    FillerWordsOrdered(words);
    KindsBySpace(words, tl);
    if |tc| < n {
      NoDupConcat(tc, fw);
    }
    DistinctOfNoDup(cand);
  }

  /** The result is a prefix of the candidate list, at most `numConcepts` long. */
  lemma ExtractIsPrefix(texts: seq<string>, topic: string, numConcepts: nat)
    ensures var cand, r := Candidates(Tokens(texts), Lower(topic), numConcepts), ExtractKeyConcepts(texts, topic, numConcepts);
      |r| <= numConcepts && |r| <= |cand| && (forall i :: 0 <= i < |r| ==> r[i] == cand[i])
      && (|r| < numConcepts ==> r == cand)
  {
    CandidatesDistinct(Tokens(texts), Lower(topic), numConcepts);
  }

  /**
   * At most `numConcepts` concepts, no duplicates, each a topic bigram or a
   * filler word, and every bigram before every single word.
   */
  lemma ExtractKeyConceptsKinds(texts: seq<string>, topic: string, numConcepts: nat)
    ensures var words, tl, r := Tokens(texts), Lower(topic), ExtractKeyConcepts(texts, topic, numConcepts);
      && |r| <= numConcepts
      && NoDup(r)
      && (forall c :: c in r ==> IsConceptBigram(words, tl, c) || IsConceptWord(words, c))
      && (forall i, j :: 0 <= i < j < |r| && IsConceptBigram(words, tl, r[j]) ==> IsConceptBigram(words, tl, r[i]))
  {
    var words, tl := Tokens(texts), Lower(topic);
    var tc, fw := TopicBigrams(words, tl), FillerWords(words);
    var cand := Candidates(words, tl, numConcepts);
    var r := ExtractKeyConcepts(texts, topic, numConcepts);
    TopicBigramsMembers(words, tl);
    FillerWordsMembers(words);
    ConceptSpaces(words, tl);
    CandidatesLayout(words, tl, numConcepts);
    ExtractIsPrefix(texts, topic, numConcepts);
    forall c | c in r ensures IsConceptBigram(words, tl, c) || IsConceptWord(words, c) {
      var i :| 0 <= i < |r| && r[i] == c;
      if i < |tc| {
        assert c in tc;
      } else {
        assert c in fw;
      }
    }
    forall i, j | 0 <= i < j < |r| && IsConceptBigram(words, tl, r[j]) ensures IsConceptBigram(words, tl, r[i]) {
      assert r[j] in tc;
      assert ' ' in cand[j];
      assert cand[i] in tc;
    }
  }

  /** Within each kind, concepts come in the order of their first occurrence in the text. */
  lemma ExtractKeyConceptsOrder(texts: seq<string>, topic: string, numConcepts: nat)
    ensures var words, tl, r := Tokens(texts), Lower(topic), ExtractKeyConcepts(texts, topic, numConcepts);
      && (forall i, j :: 0 <= i < j < |r| && IsConceptBigram(words, tl, r[i]) && IsConceptBigram(words, tl, r[j]) ==>
            r[i] in Bigrams(words) && r[j] in Bigrams(words) && IndexOf(Bigrams(words), r[i]) < IndexOf(Bigrams(words), r[j]))
      && (forall i, j :: 0 <= i < j < |r| && IsConceptWord(words, r[i]) && IsConceptWord(words, r[j]) ==>
            r[i] in Singles(words) && r[j] in Singles(words) && IndexOf(Singles(words), r[i]) < IndexOf(Singles(words), r[j]))
  {
    ExtractIsPrefix(texts, topic, numConcepts);
    PrefixOrder(Tokens(texts), Lower(topic), numConcepts, ExtractKeyConcepts(texts, topic, numConcepts));
  }

  /** Any prefix of the candidate list keeps each kind in first-occurrence order. */
  lemma PrefixOrder(words: seq<string>, tl: string, n: nat, r: seq<string>)
    requires |r| <= |Candidates(words, tl, n)|
    requires forall i :: 0 <= i < |r| ==> r[i] == Candidates(words, tl, n)[i]
    ensures forall i, j :: 0 <= i < j < |r| && IsConceptBigram(words, tl, r[i]) && IsConceptBigram(words, tl, r[j]) ==>
              r[i] in Bigrams(words) && r[j] in Bigrams(words) && IndexOf(Bigrams(words), r[i]) < IndexOf(Bigrams(words), r[j])
    ensures forall i, j :: 0 <= i < j < |r| && IsConceptWord(words, r[i]) && IsConceptWord(words, r[j]) ==>
              r[i] in Singles(words) && r[j] in Singles(words) && IndexOf(Singles(words), r[i]) < IndexOf(Singles(words), r[j])
  {
    forall i, j | 0 <= i < j < |r| && IsConceptBigram(words, tl, r[i]) && IsConceptBigram(words, tl, r[j])
      ensures r[i] in Bigrams(words) && r[j] in Bigrams(words) && IndexOf(Bigrams(words), r[i]) < IndexOf(Bigrams(words), r[j])
    {
      BigramPairOrder(words, tl, n, r, i, j);
    }
    forall i, j | 0 <= i < j < |r| && IsConceptWord(words, r[i]) && IsConceptWord(words, r[j])
      ensures r[i] in Singles(words) && r[j] in Singles(words) && IndexOf(Singles(words), r[i]) < IndexOf(Singles(words), r[j])
    {
      WordHasNoSpace(r[i]);
      WordPairOrder(words, tl, n, r, i, j);
    }
  }

  lemma BigramPairOrder(words: seq<string>, tl: string, n: nat, r: seq<string>, i: nat, j: nat)
    requires i < j < |r| <= |Candidates(words, tl, n)|
    requires r[i] == Candidates(words, tl, n)[i] && r[j] == Candidates(words, tl, n)[j]
    requires IsConceptBigram(words, tl, r[j])
    ensures r[i] in Bigrams(words) && r[j] in Bigrams(words) && IndexOf(Bigrams(words), r[i]) < IndexOf(Bigrams(words), r[j])
  {
    var tc := TopicBigrams(words, tl);
    TopicBigramsOrdered(words, tl);
    CandidatesLayout(words, tl, n);
    var k :| BigramAt(words, k, r[j]);
    BigramHasSpace(words, k, r[j]);
    assert j < |tc|;
    assert r[i] == tc[i] && r[j] == tc[j];
  }

  lemma WordPairOrder(words: seq<string>, tl: string, n: nat, r: seq<string>, i: nat, j: nat)
    requires i < j < |r| <= |Candidates(words, tl, n)|
    requires r[i] == Candidates(words, tl, n)[i] && r[j] == Candidates(words, tl, n)[j]
    requires ' ' !in r[i]
    ensures r[i] in Singles(words) && r[j] in Singles(words) && IndexOf(Singles(words), r[i]) < IndexOf(Singles(words), r[j])
  {
    var cand, tc, fw := Candidates(words, tl, n), TopicBigrams(words, tl), FillerWords(words);
    CandidatesLayout(words, tl, n);
    assert ' ' !in cand[i];
    assert |tc| <= i by {
      assert i < |tc| <==> ' ' in cand[i];
    }
    assert cand[i] == fw[i - |tc|] && cand[j] == fw[j - |tc|];
    FillerPairOrder(words, i - |tc|, j - |tc|);
  }

  /**
   * Nothing eligible is dropped unless the result is full, and with at least
   * `numConcepts` topic bigrams the result is exactly the first
   * `numConcepts` of them, with no single word.
   */
  lemma ExtractKeyConceptsSaturation(texts: seq<string>, topic: string, numConcepts: nat)
    ensures var words, tl, r := Tokens(texts), Lower(topic), ExtractKeyConcepts(texts, topic, numConcepts);
      && (forall c :: (IsConceptBigram(words, tl, c) || IsConceptWord(words, c)) && c !in r ==> |r| == numConcepts)
      && (|TopicBigrams(words, tl)| >= numConcepts ==> r == TopicBigrams(words, tl)[..numConcepts])
  {
    ExtractIsPrefix(texts, topic, numConcepts);
    PrefixSaturation(Tokens(texts), Lower(topic), numConcepts, ExtractKeyConcepts(texts, topic, numConcepts));
    PrefixOfTopicBigrams(Tokens(texts), Lower(topic), numConcepts, ExtractKeyConcepts(texts, topic, numConcepts));
  }

  /** The prefix the extraction keeps leaves out an eligible phrase only when it is full. */
  lemma PrefixSaturation(words: seq<string>, tl: string, n: nat, r: seq<string>)
    requires |r| <= n && |r| <= |Candidates(words, tl, n)|
    requires forall i :: 0 <= i < |r| ==> r[i] == Candidates(words, tl, n)[i]
    requires |r| < n ==> r == Candidates(words, tl, n)
    ensures forall c :: (IsConceptBigram(words, tl, c) || IsConceptWord(words, c)) && c !in r ==> |r| == n
  {
    var tc, fw := TopicBigrams(words, tl), FillerWords(words);
    var cand := Candidates(words, tl, n);
    TopicBigramsMembers(words, tl);
    FillerWordsMembers(words);
    CandidatesLayout(words, tl, n);
    forall c | (IsConceptBigram(words, tl, c) || IsConceptWord(words, c)) && c !in r ensures |r| == n {
      if IsConceptBigram(words, tl, c) {
        var k :| 0 <= k < |tc| && tc[k] == c;
        assert cand[k] == c;
      } else if |tc| < n {
        var k :| 0 <= k < |fw| && fw[k] == c;
        assert cand[|tc| + k] == c;
      }
    }
  }

  /** With at least `n` topic bigrams the kept prefix is the first `n` of them. */
  lemma PrefixOfTopicBigrams(words: seq<string>, tl: string, n: nat, r: seq<string>)
    requires |r| <= n && |r| <= |Candidates(words, tl, n)|
    requires forall i :: 0 <= i < |r| ==> r[i] == Candidates(words, tl, n)[i]
    requires |r| < n ==> r == Candidates(words, tl, n)
    ensures |TopicBigrams(words, tl)| >= n ==> r == TopicBigrams(words, tl)[..n]
  {
    var tc := TopicBigrams(words, tl);
    if |tc| >= n {
      assert Candidates(words, tl, n) == tc;
      assert |r| == n;
      assert forall i :: 0 <= i < n ==> r[i] == tc[..n][i];
    }
  }

  /** Without a qualifying token there is no bigram. */
  lemma {:induction false} BigramsNone(words: seq<string>, i: nat)
    requires i <= |words|
    requires forall k :: 0 <= k < |words| ==> !Qualifies(words[k])
    ensures BigramsFrom(words, i) == []
    decreases |words| - i
  {
    if i + 1 < |words| {
      BigramsNone(words, i + 1);
    }
  }

  /** No documents, or documents without a qualifying token, give no concepts (and no error). */
  lemma NoQualifyingTokens(texts: seq<string>, topic: string, numConcepts: nat)
    requires texts == [] || forall i :: 0 <= i < |Tokens(texts)| ==> !Qualifies(Tokens(texts)[i])
    ensures ExtractKeyConcepts(texts, topic, numConcepts) == []
  {
    var words := Tokens(texts);
    var tl := Lower(topic);
    if texts == [] {
      assert JoinWithSpace(texts) == "";
      assert words == [];
    }
    BigramsNone(words, 0);
    FilterNone(words, Qualifies);
    assert TopicBigrams(words, tl) == [];
    assert FillerWords(words) == [];
  }
}
