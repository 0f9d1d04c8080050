# Chatbot n-gram text engine, modelled in Dafny

The repository holds two small text generators that share one idea: split a
corpus into tokens, record for every run of n-1 tokens which token followed it,
and generate text by repeatedly drawing a recorded successor of the last n-1
tokens produced.

* `dialogue.py` works clause by clause. `sanitize` cleans each word,
  `tokenize` turns each sentence into a clause that starts with the delimiter
  `"."`, `similarity` and `context` keep the clauses that share enough long
  words with a topic, and `n_gram` builds a bank that maps each prefix to the
  list of its successors. A window never spans two clauses. `seed` picks a
  prefix that starts with the delimiter. `generate_sentence` walks the bank
  until a delimiter is drawn after more than `min_words` iterations, and
  `normalize_sentence` renders the tokens as a sentence. `Speaker.speak` ties
  these together.
* `simple_markov.py` works on one flat token stream. `sanitize` rewrites a
  few abbreviations and keeps only letters and isolated dots. `n_gram`
  builds a bank of counters with one window that runs across sentence ends.
  `generate` is an endless generator that reseeds whenever the current prefix
  is unknown, and `normalize` renders the tokens as text.

The model is functional. Tokens are `string`s and banks are maps: to a
`seq` of successors for `dialogue.py` and to a `multiset` of successors for
`simple_markov.py`. Both builders are written as one generic deque loop,
`Sliding.Feed`, which is proved equal to folding over a reference list of
windows, `Sliding.Windows`.

`generate_sentence` indexes a `defaultdict`, so looking up an unknown prefix
inserts it with an empty list. A walker therefore carries the bank it reads
from, and a later reseed can pick the inserted key.

`random.choice(xs)` is modelled as `xs[rng(d) % |xs|]`. Here `rng: nat -> nat`
is the random source and `d` counts the draws made so far. The iteration order
of a `dict`'s keys and of `Counter.elements()` is modelled as a fixed
enumeration of the set or multiset. That enumeration is a ghost choice, so
the generation functions are ghost.

An exception the source would raise is returned as an error value
(`Results.Fault`):
* `EmptyPrefixIndexed`: `prefix[0]` is read on the empty key.
* `EmptyChoice`: `random.choice` is given an empty list.
* `EmptySentenceIndexed`: `normalize_sentence` reads `words[0]` of an empty
  token list.

When `speak` runs on an empty corpus, it calls itself forever; this is the
error value `EndlessRecursion`.

Modules: `Results`, `Text` (case mapping, the regular-expression rewrites as
character filters), `Seqs`, `Sliding`, then `DialogueText`, `DialogueTopic`,
`DialogueBank`, `DialogueGenerate`, `DialogueSpeaker` for `dialogue.py` and
`MarkovText`, `MarkovBank`, `MarkovGenerate`, `MarkovRender` for
`simple_markov.py`.

## Model

| member | source | states |
|---|---|---|
| DialogueText.Sanitize | dialogue.py:18-22 | The cleaned word is exactly the characters of the lower-cased word that lie in the class `[.,a-z0-9'-]`, in order. So it holds no space and nothing outside that class. |
| DialogueText.SanitizeIdempotent | dialogue.py:18-22 | Cleaning a cleaned word changes nothing. |
| DialogueText.AssembleClause | dialogue.py:28-30 | A clause is the delimiter followed by the cleaned words, one per word. |
| DialogueText.Tokenize | dialogue.py:24-33 | There is one clause per sentence, in order, and each clause starts with the delimiter. |
| DialogueText.CapitalFlagMeaning | dialogue.py:125-137 | The loop's capital flag is up at token j exactly when some `"."` at index 1 or later precedes j with only `","` tokens in between. |
| DialogueText.RenderToken | dialogue.py:126-141 | One pass of the loop produces the text that the declarative `Piece` gives for token j, and hands on the capital flag that `CapitalFlag` gives for token j+1. |
| DialogueText.NormalizeSentence | dialogue.py:122-144 | An empty token list fails with `EmptySentenceIndexed`, and only an empty list does. Otherwise the loop computes the declarative rendering `Rendered`, and the result begins with the capitalised first token and ends with `'.'`. |
| DialogueText.RenderedKeepsTokens | dialogue.py:122-144 | Ignoring case and spaces, the sentence is the tokens run together followed by one `"."`. |
| DialogueText.RenderedSpaces | dialogue.py:126-142 | For space-free tokens, the sentence has one space per token after the first that is neither `","` nor `"."`. Commas and dots get no space. |
| DialogueTopic.Similarity | dialogue.py:61-67 | The result is 0 or 1. It is 1 exactly when the two word sets share at least `min_matches` words of length at least `min_size`. |
| DialogueTopic.SimilaritySymmetric | dialogue.py:61-67 | Similarity does not depend on the order of its two arguments. |
| DialogueTopic.SimilarityAntitone | dialogue.py:64-67 | Raising `min_matches` never turns a 0 into a 1. |
| DialogueTopic.SimilarityWithoutThreshold | dialogue.py:64-67 | With `min_matches <= 0`, every pair of sentences is similar. |
| DialogueTopic.Context | dialogue.py:69-73 | The result is an ordered subsequence of the clauses. Every clause in it is similar to the topic. Each relevant clause is kept as often as it occurs. |
| DialogueTopic.ContextKeepsRelevant | dialogue.py:69-73 | No clause similar to the topic is dropped. |
| DialogueTopic.ContextAntitone | dialogue.py:69-73 | A higher `min_matches` selects a subsequence of what a lower one selects. |
| DialogueTopic.ContextWithoutThreshold | dialogue.py:69-73 | With `min_matches <= 0`, every clause is kept. |
| DialogueTopic.SignificantWords | dialogue.py:146-147 | A word is significant exactly when it occurs in the sentence and has more than 5 characters. |
| DialogueTopic.SignificantTopicRelevant | dialogue.py:146-147 | With `min_size <= 6`, a clause is on a topic taken from a sentence's significant words exactly when the two share at least `min_matches` words of more than 5 characters. |
| DialogueTopic.SignificantWordsSurviveSummary | dialogue.py:146-147 | When significant words are fed back as a topic with `min_size <= 6`, the size filter drops none of them. |
| DialogueBank.NGram | dialogue.py:75-84 | Every key has n-1 tokens and a non-empty list. A prefix's list holds exactly the successors of that prefix's occurrences within single clauses, in corpus order. |
| DialogueBank.NGramTotal | dialogue.py:78-83 | The bank holds Σ max(0, len(clause) - (n-1)) entries in total. A clause shorter than n adds none. |
| DialogueBank.WindowRecorded | dialogue.py:80-83 | With n = k + 1, the token at every position i >= k of a clause is recorded as a successor of the k tokens before it. |
| DialogueBank.DelimiterKeyExists | dialogue.py:75-84 | For n >= 2, a clause of at least n tokens makes its first n-1 tokens a key, and that key starts with the delimiter. |
| DialogueGenerate.Seed | dialogue.py:86-95 | The chosen key is a key of the bank and starts with `delim` when one is given. Testing the empty key fails with `EmptyPrefixIndexed`, and this is the only way to get that error. Having no candidate fails with `EmptyChoice`, and this is the only way to get that error. |
| DialogueGenerate.SeedReachesEveryCandidate | dialogue.py:88-92 | Every candidate key is chosen by some draw. |
| DialogueGenerate.LookupInserts | dialogue.py:104 | Looking up a prefix adds it as a key. Every list already recorded is unchanged, and the prefix's list is its successors, or empty when it was unknown. |
| DialogueGenerate.Step | dialogue.py:102-119 | One iteration counts once and takes one of three paths. It may yield a recorded successor that is not `"."` and slide it into the prefix. It may stop, which needs `ctr > min_words` and an empty list or a drawn `"."`. Or it may reseed or raise. The output only grows and the prefix keeps its width. |
| DialogueGenerate.StepFollowsDraw | dialogue.py:102-119 | The path follows the drawn token. A token other than `"."` is yielded next. A `"."` with `ctr > min_words` stops. A `"."` otherwise reseeds from the bank after the lookup: it raises exactly when that seed fails, and else slides the seed into the prefix. |
| DialogueGenerate.ReseedStartsSentence | dialogue.py:109-116 | After a reseed, the prefix is a key of the bank and starts with the delimiter. |
| DialogueGenerate.MissingPrefixBecomesCandidate | dialogue.py:104 | An unknown prefix that starts with `"."` becomes, after its lookup, a key with an empty list that later seeds can choose. |
| DialogueGenerate.WalkKeepsRecorded | dialogue.py:102-119 | A walk never changes a recorded list. Every key it adds has an empty list. |
| DialogueGenerate.Walk | dialogue.py:102-119 | The output only grows, and a prefix of n-1 tokens stays n-1 tokens long throughout. A walk that was running stops only after more than `min_words` iterations. |
| DialogueGenerate.GenerateSentence | dialogue.py:97-119 | The output begins with the seed without its delimiter. A failing first seed yields nothing and fails. A finished sentence ran more than `min_words` iterations. |
| DialogueGenerate.WalkYields | dialogue.py:102-119 | Every iteration except a stopping one yields at least one token. |
| DialogueGenerate.FinishedSentenceLength | dialogue.py:97-119 | A finished sentence has at least n-2+`min_words` tokens. |
| DialogueGenerate.WalkNeverCrashes | dialogue.py:102-119 | Suppose the bank's keys all have n-1 >= 1 tokens, the prefix too, and some key starts with `"."`. Then the walk never raises. |
| DialogueGenerate.GenerateSentenceNeverCrashes | dialogue.py:97-119 | Under the same conditions, `generate_sentence` never raises. |
| Sliding.FeedSequence | dialogue.py:78-83 | The deque loop over one sequence records exactly the windows of `Windows`, in order. The same loop is simple_markov.py:32-37. |
| DialogueSpeaker.SelectClauses | dialogue.py:157-164 | The result fails exactly when the corpus is empty. Otherwise it is a non-empty subsequence of the corpus. With a topic, the clauses on it are used. When none is on the topic, the whole corpus is used and no topic is reported. |
| DialogueSpeaker.Speak | dialogue.py:157-166 | `speak` fails exactly on an empty corpus. Otherwise the reported count is the number of clauses `SelectClauses` picks, between 1 and the corpus size. With a topic that some clause is on, that topic and the number of such clauses are reported. Otherwise the whole corpus is counted and no topic is reported. The sentence is the walk `GenerateSentence` over the n-gram bank `NGram` built from exactly those clauses. |
| DialogueSpeaker.SpeakNeverCrashes | dialogue.py:157-166 | A corpus of assembled clauses, each with at least n >= 2 tokens, never makes `speak` raise. |
| MarkovText.Sanitize | simple_markov.py:11-18 | Every token is `"."` or a non-empty run of letters a-z. Run together, the tokens are exactly the letters and dots of the rewritten, lower-cased line, in order. The tokens are those of the reference tokenizer `Lex` on the rewritten line. |
| MarkovText.LexSeparates | simple_markov.py:15-18 | A character outside `[.a-z]` splits the tokens: the tokens of `x + [c] + y` are those of `x` followed by those of `y`. |
| MarkovText.LexDot | simple_markov.py:16-18 | A dot is one `"."` token between the tokens before it and the tokens after it. |
| MarkovText.LexWord | simple_markov.py:15-18 | A non-empty run of letters is one token. |
| MarkovText.ReplaceAll | simple_markov.py:13-14 | A line without the pattern is unchanged, and so is any line when the replacement equals the pattern. |
| MarkovText.ReplaceAllLeftmost | simple_markov.py:13-14 | If the pattern first occurs in the line right after `x`, so the line is `x + pat + y`, the result is `x`, then the replacement, then the rewrite of `y`. The leftmost match is replaced and the search resumes after it. |
| MarkovText.PadDots | simple_markov.py:16 | Padding adds only spaces: with spaces removed, the line is unchanged. |
| MarkovText.SplitSpaces | simple_markov.py:18 | Splitting gives at least one piece and no piece holds a space. |
| MarkovText.SplitJoin | simple_markov.py:18 | Joining the pieces with single spaces gives back the line. |
| MarkovText.JoinSplit | simple_markov.py:18 | Splitting space-free pieces joined by spaces gives back the pieces. |
| MarkovText.NonEmpty | simple_markov.py:18 | The kept pieces are exactly the non-empty ones. |
| MarkovText.NonEmptyKeepsOrder | simple_markov.py:18 | The kept pieces are a subsequence of the pieces, and each non-empty piece is kept as often as it occurs. |
| MarkovText.SplitPieces | simple_markov.py:18 | Splitting on spaces gives space-free pieces over the input's characters. When dots are isolated, each piece is a lone dot or holds no dot. |
| MarkovText.PadDotsShape | simple_markov.py:16 | After padding, every dot stands between spaces, and neither end of the line is a dot. |
| MarkovText.PadDotsAlphabet | simple_markov.py:15-16 | Padding a line of letters, dots and spaces leaves only letters, dots and spaces. |
| MarkovText.SqueezeKeepsIsolation | simple_markov.py:17 | Squeezing runs of spaces keeps every dot isolated. |
| MarkovText.DelimiterCount | simple_markov.py:13-18 | There are as many `"."` tokens as there are dots left after lower-casing and the abbreviation rewrites. |
| MarkovText.ReplaceAllDots | simple_markov.py:13-14 | A rewrite rule whose replacement has no more dots than its pattern never adds dots. |
| MarkovText.DelimitersBoundedByDots | simple_markov.py:8-18 | A line never yields more `"."` tokens than it has dots. |
| MarkovText.AbbreviationIsNotDelimiter | simple_markov.py:8-14 | The line `"etc."` holds a dot but yields no `"."` token. |
| MarkovBank.NGram | simple_markov.py:31-38 | Every key has n-1 tokens and a non-empty counter. A prefix's counter is the multiset of the tokens that follow that prefix anywhere in the stream. |
| MarkovBank.Count | simple_markov.py:31-38 | `bank[p][w]` is the number of positions where the window (p, w) occurs. |
| MarkovBank.Observed | simple_markov.py:31-38 | `bank[p][w] > 0` exactly when w follows p at some position i >= n-1. Windows are not reset at `"."`. |
| MarkovBank.NGramTotal | simple_markov.py:35-37 | The counts add up to max(0, len(words) - (n-1)). |
| MarkovGenerate.Seed | simple_markov.py:40-44 | The chosen key is a bank key that starts with `"."`. The empty key fails with `EmptyPrefixIndexed`, and this is the only way to get that error. Having no candidate fails with `EmptyChoice`, and this is the only way to get that error. |
| MarkovGenerate.SeedReachesEveryCandidate | simple_markov.py:41 | Every candidate key is chosen by some draw. |
| MarkovGenerate.Pass | simple_markov.py:47-57 | A pass that does not raise yields at least one token. With a known prefix, it yields a token of positive count under it and pushes that token. With an unknown prefix, it yields a whole seed and installs it as a deque of the seed's width. A known prefix raises exactly when its counter is empty. An unknown prefix raises exactly when `seed` does. |
| MarkovGenerate.Run | simple_markov.py:46-57 | Passes only extend the output. When no exception occurs, they reach the requested number of tokens. |
| MarkovGenerate.Take | simple_markov.py:83 | `islice(generate(bank), count)` gives exactly `count` tokens, or the exception the generator raised. |
| MarkovGenerate.FirstPassSeeds | simple_markov.py:46-57 | For n >= 2, the empty prefix is no key. So the first pass seeds, its output starts with `"."`, and the prefix becomes a full deque of width n-1. |
| MarkovGenerate.SteadyPass | simple_markov.py:47-57 | After that, every pass keeps the deque full and never raises. A known prefix slides by exactly one emitted token. An unknown prefix is reseeded. |
| MarkovGenerate.SteadyRun | simple_markov.py:46-57 | Any number of such passes keeps the deque full and raises nothing. |
| MarkovGenerate.TakeNeverFails | simple_markov.py:46-57 | Take a bank with keys of n-1 >= 1 tokens, non-empty counters and a key starting with `"."`. Then `count` tokens are always produced, and the first is `"."`. |
| MarkovGenerate.UnigramRaises | simple_markov.py:46-57 | With n = 1, any request for two or more tokens fails with `EmptyPrefixIndexed`. |
| MarkovGenerate.DelimiterGivesCandidate | simple_markov.py:40-44 | Suppose n >= 2 and a `"."` in the stream is followed by at least n-2 more tokens and one successor. Then it starts a seed candidate, and the bank meets the conditions of `TakeNeverFails`. |
| MarkovRender.NormalizeEmpty | simple_markov.py:60-73 | An empty stream renders as the empty string. |
| MarkovRender.Normalize | simple_markov.py:60-73 | Ignoring case, spaces and dots, the text is the tokens run together. For well-formed tokens, every `"."` token becomes one dot, with one exception: a leading `"."` is dropped unless the last token is `"."` too. Ignoring only case and spaces, the text is the tokens run together, dots in place, with that same exception. There is one space per token, except for a token right after a `"."` (with position 0 following the last token) and a dropped leading `"."`. |
| MarkovRender.NormalizeWordAt | simple_markov.py:62-71 | A word token `words[i]` appears at an offset k whose text before it holds exactly the letters of `words[..i]`. Its first letter is upper-cased exactly when the token before it is `"."` (for i = 0, the last token) or it is a proper noun. Its other letters follow unchanged. When the token before it is not `"."`, a space precedes it. |
| MarkovRender.WrapAroundRewritesStart | simple_markov.py:64 | As written, `[".", "a"]` renders as `"A"` but `[".", "a", "."]` renders as `".A. "`. The shorter text is not a prefix of the longer one. |
| MarkovRender.StreamingExtends | simple_markov.py:60-73 | Once position 0 has no predecessor, rendering a longer stream only appends to the text. |
| MarkovRender.StreamingAgrees | simple_markov.py:64 | If the stream does not end with `"."`, the corrected rendering equals the source's. |
| MarkovRender.NormalizeStreaming | simple_markov.py:60-73 | In the corrected rendering, the letters are the tokens run together, and every `"."` token becomes one dot except a leading one. Ignoring case and spaces, the text is the tokens run together, dots in place, minus a leading `"."`. There is one space per token, except for a token right after a `"."` and a leading `"."`. |
| MarkovRender.StreamingWordAt | simple_markov.py:62-71 | The same placement in the corrected rendering. The first letter is upper-cased exactly when an earlier token `words[i-1]` is `"."` or the word is a proper noun. |

## Left out

- File and console I/O (`get_text`, `get_words`, reading the corpus in `Speaker.__init__`, `test4`, both `__main__` loops, `print`, `input`) is not modelled. The corpus and the parameters are inputs.
- NLTK's sentence splitter and `TreebankWordTokenizer` are foreign code. `DialogueText.Tokenize` takes the sentences, already split into words, as its input.
- `slow_similarity` is left out. It relies on WordNet, floating-point averaging and `print`.
- `flatten` is left out. It is an unused helper.
- `lower()` and `capitalize()` are modelled on ASCII only.
- Probabilities are not modelled. A choice is an index drawn from `rng`. Only membership and multiplicity are stated: a successor with count c appears c times in the list drawn from.
- Dictionary and `Counter` iteration order is a fixed but unspecified enumeration.
- DialogueGenerate.Walk: runs at most `fuel` iterations, because the source loop has no bound of its own. A walk that runs out of fuel is still `Running`.
- DialogueSpeaker.Speak: `generate_sentence` is a lazy generator, and the model runs it for at most `fuel` iterations.
- DialogueSpeaker.SelectClauses: the endless recursion on an empty corpus is returned as `EndlessRecursion` rather than excluded by a precondition.
- DialogueGenerate.Seed, MarkovGenerate.Seed: an empty candidate list gives the error `EmptyChoice` instead of a precondition. The lemmas `GenerateSentenceNeverCrashes` and `TakeNeverFails` name the conditions that rule it out.
- DialogueBank.NGram, MarkovBank.NGram: require n >= 1. For smaller n, `islice` and `deque(maxlen=...)` raise `ValueError`, and this is not modelled.
- MarkovText.ReplaceAll: handles only the literal patterns of `weird_words`. After escaping, each is a plain string. General regular expressions are not modelled.
- MarkovRender.Piece: the in-place capitalisation of proper nouns is not stored back into the list. A capitalised proper noun is never `"."`, so the later `words[i - 1] == '.'` tests give the same answer.
- DialogueSpeaker.SpeakNeverCrashes: asks that every clause have at least n tokens. One such clause among those selected would be enough.

## Findings

| source | as written | input that shows it | evidently intended | confidence | as-written member | corrected member |
|---|---|---|---|---|---|---|
| simple_markov.py:64 | At i = 0, `words[i - 1]` reads `words[-1]`, the last token. So the rendering of the first token depends on how the stream ends. | `[".", "a"]` renders as `"A"`, while `[".", "a", "."]` renders as `".A. "`: a stray leading dot appears and the text is rewritten instead of extended | Position 0 has no predecessor. A leading `"."` then renders as nothing, and each further token only appends to the text | medium; not executed | MarkovRender.WrapAroundRewritesStart | MarkovRender.StreamingExtends |
