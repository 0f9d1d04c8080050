/** dialogue.py, text side: `sanitize`, the clause assembly of `tokenize`,
    and the renderer `normalize_sentence`. */
module DialogueText {
  import opened Text
  import opened Results
  import opened Seqs

  type Token = string

  /** One sentence of the corpus as the clause-based engine stores it. */
  type Clause = seq<Token>

  /** The sentence delimiter every assembled clause starts with. */
  const Delimiter: Token := "."

  /** The words `normalize_sentence` always capitalises. */
  const ProperNouns: set<Token> := {"i"}

  /** The character class `[.,a-z0-9\-']` that `sanitize` keeps. */
  predicate IsTokenChar(c: char)
  {
    c == '.' || c == ',' || IsLowerLetter(c) || IsDigit(c) || c == '-' || c == '\''
  }

  /** `sanitize`: lower-case, turn every run of characters outside the class
      into a space, then delete every space. The net effect is a filter. */
  function Sanitize(word: string): (r: Token)
    ensures r == Filter(IsTokenChar, Lower(word))
    ensures AllSatisfy(r, IsTokenChar)
    ensures ' ' !in r
  {
    CollapseRunsThenRemoveSpaces(IsTokenChar, Lower(word), false);
    FilterSatisfies(IsTokenChar, Lower(word));
    RemoveSpaces(CollapseRuns(IsTokenChar, Lower(word), false))
  }

  lemma LowerIdentity(s: string)
    requires AllSatisfy(s, IsTokenChar)
    ensures Lower(s) == s
  {
    assert forall i :: 0 <= i < |s| ==> LowerChar(s[i]) == s[i];
  }

  /** Sanitising twice is sanitising once. */
  lemma SanitizeIdempotent(word: string)
    ensures Sanitize(Sanitize(word)) == Sanitize(word)
  {
    var r := Sanitize(word);
    LowerIdentity(r);
    FilterIdentity(IsTokenChar, r);
  }

  /** One iteration of the sentence loop of `tokenize`: the delimiter, then
      every word of the sentence sanitised. The word splitting itself is an
      outside tokenizer, so the words arrive as input. */
  function AssembleClause(words: seq<string>): (c: Clause)
    ensures |c| == |words| + 1 && c[0] == Delimiter
    ensures forall i :: 0 <= i < |words| ==> c[i + 1] == Sanitize(words[i])
    ensures forall i :: 0 <= i < |c| ==> AllSatisfy(c[i], IsTokenChar)
  {
    [Delimiter] + seq(|words|, i requires 0 <= i < |words| => Sanitize(words[i]))
  }

  /** Every clause the engine builds from text starts with the delimiter. */
  predicate IsAssembled(c: Clause)
  {
    |c| > 0 && c[0] == Delimiter
  }

  /** The loop of `tokenize` over sentences, with its `if result:` guard. */
  function Tokenize(sentences: seq<seq<string>>): (cs: seq<Clause>)
    ensures |cs| == |sentences|
    ensures forall i :: 0 <= i < |cs| ==> cs[i] == AssembleClause(sentences[i])
    ensures forall i :: 0 <= i < |cs| ==> IsAssembled(cs[i])
  {
    if sentences == [] then []
    else
      var result := AssembleClause(sentences[0]);
      (if result != [] then [result] else []) + Tokenize(sentences[1..])
  }

  /** The `capital` flag of `normalize_sentence` when it reaches index
      j >= 1: raised by a ".", kept across commas, dropped by anything else. */
  function CapitalFlag(words: seq<Token>, j: int): bool
    requires 1 <= j <= |words|
    decreases j
  {
    j > 1 && (words[j - 1] == Delimiter || (words[j - 1] == "," && CapitalFlag(words, j - 1)))
  }

  /** Some "." at an index m >= 1 precedes index j with only commas in between. */
  predicate CapitalAt(words: seq<Token>, j: int)
    requires 1 <= j <= |words|
  {
    exists m :: 1 <= m < j && words[m] == Delimiter && forall l :: m < l < j ==> words[l] == ","
  }

  /** How the token at index j >= 1 is rendered. */
  function Piece(words: seq<Token>, j: int): string
    requires 1 <= j < |words|
  {
    if words[j] == "," then ","
    else if words[j] == Delimiter then "."
    else if CapitalFlag(words, j) || words[j] in ProperNouns then " " + Capitalize(words[j])
    else " " + words[j]
  }

  /** The rendering of the tokens at indices 1 .. j-1. */
  function Pieces(words: seq<Token>, j: int): string
    requires 1 <= j <= |words|
    decreases j
  {
    if j == 1 then "" else Pieces(words, j - 1) + Piece(words, j - 1)
  }

  /** The declarative rendering: the first token capitalised, every later
      token rendered on its own, and a closing ".". */
  function Rendered(words: seq<Token>): string
    requires |words| > 0
  {
    Capitalize(words[0]) + Pieces(words, |words|) + "."
  }

  /** The flag is up exactly when a "." precedes with only commas since. */
  lemma {:induction false} CapitalFlagMeaning(words: seq<Token>, j: int)
    requires 1 <= j <= |words|
    ensures CapitalFlag(words, j) <==> CapitalAt(words, j)
    decreases j
  {
    if j > 1 {
      CapitalFlagMeaning(words, j - 1);
      if words[j - 1] == "," {
        if CapitalAt(words, j) {
          var m :| 1 <= m < j && words[m] == Delimiter && forall l :: m < l < j ==> words[l] == ",";
          assert forall l :: m < l < j - 1 ==> words[l] == ",";
        }
        if CapitalAt(words, j - 1) {
          var m :| 1 <= m < j - 1 && words[m] == Delimiter && forall l :: m < l < j - 1 ==> words[l] == ",";
          assert forall l :: m < l < j ==> words[l] == ",";
        }
      } else if words[j - 1] != Delimiter {
        assert !CapitalAt(words, j);
      }
    }
  }

  lemma PiecesStep(words: seq<Token>, j: int)
    requires 1 <= j < |words|
    ensures Capitalize(words[0]) + Pieces(words, j + 1) == Capitalize(words[0]) + Pieces(words, j) + Piece(words, j)
  {
    ConcatAssoc(Capitalize(words[0]), Pieces(words, j), Piece(words, j));
  }

  lemma RenderedShape(words: seq<Token>)
    requires |words| > 0
    ensures Rendered(words)[..|Capitalize(words[0])|] == Capitalize(words[0])
    ensures Rendered(words)[|Rendered(words)| - 1] == '.'
  {
    ConcatAssoc(Capitalize(words[0]), Pieces(words, |words|), ".");
  }

  /** One pass of the loop of `normalize_sentence`: the text for the token
      at index j and the capital flag for the next one. */
  method RenderToken(words: seq<Token>, j: int, capital: bool) returns (piece: string, capital': bool)
    requires 1 <= j < |words| && capital == CapitalFlag(words, j)
    ensures piece == Piece(words, j)
    ensures capital' == CapitalFlag(words, j + 1)
  {
    var word := words[j];
    capital' := capital;
    if word == "," {
      piece := ",";
    } else if word == Delimiter {
      piece := ".";
      capital' := true;
    } else if capital {
      capital' := false;
      piece := " " + Capitalize(word);
    } else if word in ProperNouns {
      piece := " " + Capitalize(word);
    } else {
      piece := " " + word;
    }
  }

  /** `normalize_sentence`: the first token capitalised, commas and "."
      attached without a space, every other token after one space and
      capitalised when it follows a "." or is a proper noun, then a final ".".
      An empty input raises at `words[0]`. */
  method NormalizeSentence(words: seq<Token>) returns (r: Result<string, Fault>)
    ensures r.Err? <==> words == []
    ensures r.Err? ==> r.error == EmptySentenceIndexed
    ensures r.Ok? ==> r.value == Rendered(words)
    ensures r.Ok? ==> r.value[..|Capitalize(words[0])|] == Capitalize(words[0])
    ensures r.Ok? ==> r.value[|r.value| - 1] == '.'
  {
    if words == [] {
      return Err(EmptySentenceIndexed);
    }
    var sentence := Capitalize(words[0]);
    var capital := false;
    var j := 1;
    while j < |words|
      invariant 1 <= j <= |words|
      invariant sentence == Capitalize(words[0]) + Pieces(words, j)
      invariant capital == CapitalFlag(words, j)
    {
      var piece;
      piece, capital := RenderToken(words, j, capital);
      PiecesStep(words, j);
      sentence := sentence + piece;
      j := j + 1;
    }
    RenderedShape(words);
    sentence := sentence + ".";
    r := Ok(sentence);
  }

  lemma KeyPiece(words: seq<Token>, j: int)
    requires 1 <= j < |words|
    ensures Key(Piece(words, j)) == Key(words[j])
  {
    var w := words[j];
    if w != "," && w != Delimiter {
      KeyAppend(" ", Capitalize(w));
      KeyAppend(" ", w);
      KeyCapitalize(w);
    }
  }

  lemma {:induction false} KeyPieces(words: seq<Token>, j: int)
    requires 1 <= j <= |words|
    ensures Key(Pieces(words, j)) == Key(Flatten(words[1..j]))
    decreases j
  {
    if j > 1 {
      KeyPieces(words, j - 1);
      KeyAppend(Pieces(words, j - 1), Piece(words, j - 1));
      KeyPiece(words, j - 1);
      assert words[1..j] == words[1..j - 1] + [words[j - 1]];
      FlattenAppend(words[1..j - 1], [words[j - 1]]);
      assert Flatten([words[j - 1]]) == words[j - 1];
      KeyAppend(Flatten(words[1..j - 1]), words[j - 1]);
    }
  }

  /** Rendering loses no token and adds only spaces, case changes and the
      closing ".": up to case and spaces, the text is the tokens joined,
      followed by ".". */
  lemma RenderedKeepsTokens(words: seq<Token>)
    requires |words| > 0
    ensures Key(Rendered(words)) == Key(Flatten(words)) + "."
  {
    var body := Pieces(words, |words|);
    KeyPieces(words, |words|);
    assert words[1..|words|] == words[1..];
    KeyRendered(words);
    assert Flatten(words) == words[0] + Flatten(words[1..]);
    KeyAppend(words[0], Flatten(words[1..]));
  }

  lemma KeyRendered(words: seq<Token>)
    requires |words| > 0
    ensures Key(Rendered(words)) == Key(words[0]) + Key(Pieces(words, |words|)) + "."
  {
    var head := Capitalize(words[0]);
    var body := Pieces(words, |words|);
    KeyAppend(head + body, ".");
    assert Key(".") == ".";
    KeyAppend(head, body);
    KeyCapitalize(words[0]);
  }

  /** Number of tokens that are neither "," nor ".". */
  function PlainCount(words: seq<Token>): nat
  {
    if words == [] then 0
    else (if words[0] != "," && words[0] != Delimiter then 1 else 0) + PlainCount(words[1..])
  }

  lemma SpacesInPiece(words: seq<Token>, j: int)
    requires 1 <= j < |words| && ' ' !in words[j]
    ensures Occurrences(' ', Piece(words, j)) == PlainCount([words[j]])
  {
    var w := words[j];
    NoSpaceCapitalize(w);
    if w != "," && w != Delimiter {
      OccurrencesAppend(' ', " ", Capitalize(w));
      OccurrencesAppend(' ', " ", w);
      AbsentOccurrences(' ', Capitalize(w));
      AbsentOccurrences(' ', w);
    }
  }

  lemma {:induction false} SpacesInPieces(words: seq<Token>, j: int)
    requires 1 <= j <= |words|
    requires forall i :: 0 <= i < |words| ==> ' ' !in words[i]
    ensures Occurrences(' ', Pieces(words, j)) == PlainCount(words[1..j])
    decreases j
  {
    if j > 1 {
      SpacesInPieces(words, j - 1);
      OccurrencesAppend(' ', Pieces(words, j - 1), Piece(words, j - 1));
      SpacesInPiece(words, j - 1);
      var w := words[j - 1];
      PlainCountAppend(words[1..j - 1], [w]);
      assert words[1..j] == words[1..j - 1] + [w];
    }
  }

  lemma {:induction false} PlainCountAppend(a: seq<Token>, b: seq<Token>)
    ensures PlainCount(a + b) == PlainCount(a) + PlainCount(b)
  {
    if a == [] {
      assert a + b == b;
    } else {
      assert (a + b)[1..] == a[1..] + b;
      PlainCountAppend(a[1..], b);
    }
  }

  /** For space-free tokens, the rendering holds exactly one space per token
      after the first that is not punctuation: none before "," or ".". */
  lemma RenderedSpaces(words: seq<Token>)
    requires |words| > 0
    requires forall i :: 0 <= i < |words| ==> ' ' !in words[i]
    ensures Occurrences(' ', Rendered(words)) == PlainCount(words[1..])
  {
    SpacesInPieces(words, |words|);
    assert words[1..|words|] == words[1..];
    OccurrencesAppend(' ', Capitalize(words[0]) + Pieces(words, |words|), ".");
    OccurrencesAppend(' ', Capitalize(words[0]), Pieces(words, |words|));
    NoSpaceCapitalize(words[0]);
    AbsentOccurrences(' ', Capitalize(words[0]));
  }
}
