/** dialogue.py, `Speaker.speak`: pick the clauses on the topic (or all of
    them), build a bank from them and start a sentence. */
module DialogueSpeaker {
  import opened Results
  import opened Seqs
  import opened Sliding
  import opened DialogueText
  import opened DialogueTopic
  import opened DialogueBank
  import opened DialogueGenerate

  /** A speaker: its corpus of assembled clauses and its parameters. */
  datatype Speaker = Speaker(name: string, sentences: seq<Clause>, n: int, minWords: int, minSize: int, minMatches: int)

  /** `speak` on an empty corpus calls itself without end. */
  datatype SpeakError = EndlessRecursion

  /** `if topic:` — a topic counts only when given and non-empty. */
  predicate HasTopic(topic: Option<set<Token>>)
  {
    topic.Some? && topic.value != {}
  }

  /** The clause selection of `speak`: the clauses on the topic when there is
      a topic and some clause is on it; otherwise, through the recursive call
      `self.speak(None)`, the whole corpus with no topic reported. Returns the
      topic reported back and the clauses selected. */
  function SelectClauses(sp: Speaker, topic: Option<set<Token>>): (r: Result<(Option<set<Token>>, seq<Clause>), SpeakError>)
    ensures r.Err? <==> sp.sentences == []
    ensures r.Ok? ==> r.value.1 != [] && IsSubsequence(r.value.1, sp.sentences)
    ensures HasTopic(topic) && Context(sp.sentences, topic.value, sp.minMatches, sp.minSize) != []
            ==> r == Ok((topic, Context(sp.sentences, topic.value, sp.minMatches, sp.minSize)))
    ensures HasTopic(topic) && Context(sp.sentences, topic.value, sp.minMatches, sp.minSize) == [] && sp.sentences != []
            ==> r == Ok((None, sp.sentences))
    ensures !HasTopic(topic) && sp.sentences != [] ==> r == Ok((topic, sp.sentences))
  {
    var chosen := if HasTopic(topic) then Context(sp.sentences, topic.value, sp.minMatches, sp.minSize) else sp.sentences;
    SubsequenceReflexive(sp.sentences);
    if chosen != [] then
      Ok((topic, chosen))
    else if sp.sentences == [] then
      Err(EndlessRecursion)
    else
      Ok((None, sp.sentences))
  }

  /** `speak(topic)` with the generator run for up to `fuel` iterations:
      the topic reported, the number of clauses selected, and the walk. With
      a topic some clause is on, the count is the number of such clauses and
      the topic is reported back; otherwise the whole corpus is counted and,
      if a topic was given, none is reported. The walk is `generate_sentence`
      over the bank of exactly the selected clauses. */
  ghost function Speak(sp: Speaker, topic: Option<set<Token>>, rng: nat -> nat, fuel: nat): (r: Result<(Option<set<Token>>, nat, Walker), SpeakError>)
    requires sp.n >= 1
    ensures r.Err? <==> sp.sentences == []
    ensures r.Ok? ==> 1 <= r.value.1 <= |sp.sentences|
    ensures HasTopic(topic) && Context(sp.sentences, topic.value, sp.minMatches, sp.minSize) != []
            ==> r.Ok? && r.value.0 == topic && r.value.1 == |Context(sp.sentences, topic.value, sp.minMatches, sp.minSize)|
    ensures !(HasTopic(topic) && Context(sp.sentences, topic.value, sp.minMatches, sp.minSize) != []) && sp.sentences != []
            ==> r.Ok? && r.value.1 == |sp.sentences| && r.value.0 == (if HasTopic(topic) then None else topic)
    ensures r.Ok? ==>
              && SelectClauses(sp, topic).Ok?
              && r.value.1 == |SelectClauses(sp, topic).value.1|
              && r.value.2 == GenerateSentence(NGram(SelectClauses(sp, topic).value.1, sp.n), sp.minWords, rng, fuel)
  {
    match SelectClauses(sp, topic)
    case Err(e) => Err(e)
    case Ok((reported, clauses)) =>
      SubsequenceShorter(clauses, sp.sentences);
      Ok((reported, |clauses|, GenerateSentence(NGram(clauses, sp.n), sp.minWords, rng, fuel)))
  }

  /** A corpus of assembled clauses of at least n >= 2 tokens each never
      makes `speak` raise, whatever the topic and the random draws. */
  lemma SpeakNeverCrashes(sp: Speaker, topic: Option<set<Token>>, rng: nat -> nat, fuel: nat)
    requires sp.n >= 2 && sp.sentences != []
    requires forall i :: 0 <= i < |sp.sentences| ==> IsAssembled(sp.sentences[i]) && |sp.sentences[i]| >= sp.n
    ensures Speak(sp, topic, rng, fuel).Ok?
    ensures !Speak(sp, topic, rng, fuel).value.2.status.Crashed?
  {
    var clauses := SelectClauses(sp, topic).value.1;
    SelectedBankSeeds(sp, topic);
    GenerateSentenceNeverCrashes(NGram(clauses, sp.n), sp.n - 1, sp.minWords, rng, fuel);
  }

  /** The bank built from the selected clauses has a key starting with the delimiter. */
  lemma SelectedBankSeeds(sp: Speaker, topic: Option<set<Token>>)
    requires sp.n >= 2 && sp.sentences != []
    requires forall i :: 0 <= i < |sp.sentences| ==> IsAssembled(sp.sentences[i]) && |sp.sentences[i]| >= sp.n
    ensures SelectClauses(sp, topic).Ok?
    ensures Candidates(NGram(SelectClauses(sp, topic).value.1, sp.n), Delimiter) != {}
  {
    var clauses := SelectClauses(sp, topic).value.1;
    SubsequenceMembers(clauses, sp.sentences);
    assert clauses[0] in sp.sentences;
    var i :| 0 <= i < |sp.sentences| && sp.sentences[i] == clauses[0];
    FirstClauseSeeds(clauses, sp.n);
  }

  /** A first clause that is assembled and has n >= 2 tokens gives the bank a seed. */
  lemma FirstClauseSeeds(clauses: seq<Clause>, n: int)
    requires n >= 2 && clauses != [] && IsAssembled(clauses[0]) && |clauses[0]| >= n
    ensures Candidates(NGram(clauses, n), Delimiter) != {}
  {
    DelimiterKeyExists(clauses, n, 0);
    KeyIsCandidate(NGram(clauses, n), clauses[0][..n - 1]);
  }

  lemma KeyIsCandidate(bank: Bank, key: Prefix)
    requires key in bank && |key| > 0 && key[0] == Delimiter
    ensures key in Candidates(bank, Delimiter)
  {
  }
}
