/** dialogue.py, topic filter: `similarity`, `context` and
    `significant_words`. */
module DialogueTopic {
  import opened Seqs
  import opened DialogueText

  /** The distinct words of a sentence; `similarity` only looks at these. */
  function Vocabulary(sentence: seq<Token>): set<Token>
  {
    set w | w in sentence
  }

  /** The words of length at least `minSize` (the `summary` sets). */
  function Summary(words: set<Token>, minSize: int): set<Token>
  {
    set w | w in words && |w| >= minSize
  }

  /** The long words two word sets have in common. */
  function SharedLongWords(words1: set<Token>, words2: set<Token>, minSize: int): set<Token>
  {
    set w | w in words1 && w in words2 && |w| >= minSize
  }

  /** `similarity`: 1 when the long words of the two sets overlap in at
      least `minMatches` words, otherwise 0. */
  function Similarity(words1: set<Token>, words2: set<Token>, minMatches: int, minSize: int): (r: int)
    ensures r == 0 || r == 1
    ensures r == 1 <==> |SharedLongWords(words1, words2, minSize)| >= minMatches
  {
    assert Summary(words1, minSize) * Summary(words2, minSize) == SharedLongWords(words1, words2, minSize);
    if |Summary(words1, minSize) * Summary(words2, minSize)| >= minMatches then 1 else 0
  }

  lemma SimilaritySymmetric(words1: set<Token>, words2: set<Token>, minMatches: int, minSize: int)
    ensures Similarity(words1, words2, minMatches, minSize) == Similarity(words2, words1, minMatches, minSize)
  {
    assert SharedLongWords(words1, words2, minSize) == SharedLongWords(words2, words1, minSize);
  }

  lemma SimilarityWithoutThreshold(words1: set<Token>, words2: set<Token>, minMatches: int, minSize: int)
    requires minMatches <= 0
    ensures Similarity(words1, words2, minMatches, minSize) == 1
  {
  }

  /** Asking for more matches never makes two word sets more similar. */
  lemma SimilarityAntitone(words1: set<Token>, words2: set<Token>, low: int, high: int, minSize: int)
    requires low <= high
    ensures Similarity(words1, words2, high, minSize) <= Similarity(words1, words2, low, minSize)
  {
  }

  /** The test `context` applies to each sentence. */
  predicate Relevant(sentence: Clause, topic: set<Token>, minMatches: int, minSize: int)
  {
    Similarity(Vocabulary(sentence), topic, minMatches, minSize) > 0
  }

  /** `context`: the sentences relevant to the topic, in corpus order. */
  function Context(sentences: seq<Clause>, topic: set<Token>, minMatches: int, minSize: int): (r: seq<Clause>)
    ensures IsSubsequence(r, sentences)
    ensures forall i :: 0 <= i < |r| ==> Relevant(r[i], topic, minMatches, minSize)
    ensures forall s :: multiset(r)[s] == if Relevant(s, topic, minMatches, minSize) then multiset(sentences)[s] else 0
  {
    if sentences == [] then []
    else
      var rest := Context(sentences[1..], topic, minMatches, minSize);
      assert sentences == [sentences[0]] + sentences[1..];
      if Relevant(sentences[0], topic, minMatches, minSize) then
        assert ([sentences[0]] + rest)[1..] == rest;
        [sentences[0]] + rest
      else
        rest
  }

  /** A sentence on the topic survives the filter, so the filter comes back
      empty only when no sentence is on the topic. */
  lemma ContextKeepsRelevant(sentences: seq<Clause>, topic: set<Token>, minMatches: int, minSize: int, i: int)
    requires 0 <= i < |sentences| && Relevant(sentences[i], topic, minMatches, minSize)
    ensures sentences[i] in Context(sentences, topic, minMatches, minSize)
  {
    assert sentences[i] in multiset(sentences);
  }

  /** Raising `minMatches` keeps a subsequence of what passed before. */
  lemma {:induction false} ContextAntitone(sentences: seq<Clause>, topic: set<Token>, low: int, high: int, minSize: int)
    requires low <= high
    ensures IsSubsequence(Context(sentences, topic, high, minSize), Context(sentences, topic, low, minSize))
  {
    if sentences != [] {
      var s := sentences[0];
      ContextAntitone(sentences[1..], topic, low, high, minSize);
      SimilarityAntitone(Vocabulary(s), topic, low, high, minSize);
    }
  }

  /** With no threshold every sentence passes. */
  lemma {:induction false} ContextWithoutThreshold(sentences: seq<Clause>, topic: set<Token>, minMatches: int, minSize: int)
    requires minMatches <= 0
    ensures Context(sentences, topic, minMatches, minSize) == sentences
  {
    if sentences != [] {
      ContextWithoutThreshold(sentences[1..], topic, minMatches, minSize);
      assert sentences == [sentences[0]] + sentences[1..];
    }
  }

  /** `significant_words`: the words longer than five characters. */
  function SignificantWords(sentence: seq<Token>): (r: set<Token>)
    ensures forall w :: w in r <==> w in sentence && |w| > 5
    ensures r == Summary(Vocabulary(sentence), 6)
  {
    set w | w in sentence && |w| > 5
  }

  /** A topic taken from `significant_words` passes untouched through the
      length filter of `similarity` whenever `minSize` is at most 6. */
  lemma SignificantWordsSurviveSummary(sentence: seq<Token>, minSize: int)
    requires minSize <= 6
    ensures Summary(SignificantWords(sentence), minSize) == SignificantWords(sentence)
  {
  }

  /** With a topic taken from `significant_words(s)` and `minSize` at most 6,
      a sentence is relevant exactly when it shares at least `minMatches`
      distinct words longer than five characters with `s`. */
  lemma SignificantTopicRelevant(sentence: Clause, source: seq<Token>, minMatches: int, minSize: int)
    requires minSize <= 6
    ensures Relevant(sentence, SignificantWords(source), minMatches, minSize)
        <==> |SharedLongWords(Vocabulary(sentence), Vocabulary(source), 6)| >= minMatches
  {
    var topic := SignificantWords(source);
    assert SharedLongWords(Vocabulary(sentence), topic, minSize)
        == SharedLongWords(Vocabulary(sentence), Vocabulary(source), 6);
  }
}
