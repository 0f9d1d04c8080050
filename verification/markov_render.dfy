/** simple_markov.py, `normalize`: a token stream rendered as text. Each
    token contributes one piece, chosen by the token before it; at position
    0 the source reads `words[-1]`, the LAST token, as the one before. */
module MarkovRender {
  import opened Text
  import opened Seqs
  import opened MarkovText

  /** `proper_nouns`. */
  const ProperNouns: set<string> := {"aristotle", "plato", "i", "m", "c", "greek", "bourgeois", "bourgoisie"}

  /** The token taken to precede position i. With `wrap`, position 0 looks at
      the last token, as Python's `words[-1]` does; without it, position 0
      has no predecessor. */
  function Before(words: seq<string>, i: int, wrap: bool): string
    requires 0 <= i < |words|
  {
    if i > 0 then words[i - 1] else if wrap then words[|words| - 1] else ""
  }

  /** The text appended for `words[i]`. After a delimiter the token is
      capitalised with no space; a delimiter elsewhere adds ". " (nothing at
      position 0); any other token gets one leading space and is capitalised
      when it is a proper noun. The source capitalises the proper noun in
      place, but a capitalised proper noun is never the delimiter, so later
      tests of `words[i - 1]` see no difference. */
  function Piece(words: seq<string>, i: int, wrap: bool): string
    requires 0 <= i < |words|
  {
    if Before(words, i, wrap) == Delimiter then Capitalize(words[i])
    else if words[i] == Delimiter then (if i != 0 then ". " else "")
    else " " + (if words[i] in ProperNouns then Capitalize(words[i]) else words[i])
  }

  /** The pieces of the first j tokens. */
  function Pieces(words: seq<string>, j: int, wrap: bool): string
    requires 0 <= j <= |words|
  {
    if j == 0 then "" else Pieces(words, j - 1, wrap) + Piece(words, j - 1, wrap)
  }

  /** `normalize(words)`, as written: position 0 wraps around to the last
      token. Rendering loses no letter and invents none: ignoring case,
      spaces and dots, the text is the tokens run together. Over well-formed
      tokens, ignoring case and spaces, the text is the tokens run together
      with the dots in place, except a leading delimiter, which is dropped
      unless the last token is a delimiter too; and every token gets one
      space except those after a delimiter and a dropped leading one. */
  function Normalize(words: seq<string>): (text: string)
    ensures Letters(text) == Letters(Flatten(words))
    ensures (forall i :: 0 <= i < |words| ==> IsToken(words[i])) ==>
      Occurrences('.', text) ==
        multiset(words)[Delimiter] - (if words != [] && words[0] == Delimiter && words[|words| - 1] != Delimiter then 1 else 0)
    ensures (forall i :: 0 <= i < |words| ==> IsToken(words[i])) ==>
      Key(text) == Flatten(if words != [] && words[0] == Delimiter && words[|words| - 1] != Delimiter then words[1..] else words)
    ensures (forall i :: 0 <= i < |words| ==> IsToken(words[i])) ==>
      Occurrences(' ', text) + multiset(words)[Delimiter]
        + (if words != [] && words[0] == Delimiter && words[|words| - 1] != Delimiter then 1 else 0) == |words|
  {
    RenderFacts(words, true);
    RenderShape(words, true);
    Pieces(words, |words|, true)
  }

  /** `normalize` with the wrap-around removed: position 0 has no
      predecessor. The letters are kept as before, and each delimiter token
      becomes one dot, in place, except a leading one. Every token gets one
      space except those after a delimiter and a leading delimiter. */
  function NormalizeStreaming(words: seq<string>): (text: string)
    ensures Letters(text) == Letters(Flatten(words))
    ensures (forall i :: 0 <= i < |words| ==> IsToken(words[i])) ==>
      Occurrences('.', text) == multiset(words)[Delimiter] - (if words != [] && words[0] == Delimiter then 1 else 0)
    ensures (forall i :: 0 <= i < |words| ==> IsToken(words[i])) ==>
      Key(text) == Flatten(if words != [] && words[0] == Delimiter then words[1..] else words)
    ensures (forall i :: 0 <= i < |words| ==> IsToken(words[i])) ==>
      Occurrences(' ', text) + multiset(words)[Delimiter] + (if words != [] && words[0] == Delimiter then 1 else 0)
        == |words| + (if words != [] && words[|words| - 1] == Delimiter then 1 else 0)
  {
    RenderFacts(words, false);
    RenderShape(words, false);
    Pieces(words, |words|, false)
  }

  /** The letters and dots of a whole rendering, with or without the wrap-around. */
  lemma RenderFacts(words: seq<string>, wrap: bool)
    ensures Letters(Pieces(words, |words|, wrap)) == Letters(Flatten(words))
    ensures (forall i :: 0 <= i < |words| ==> IsToken(words[i])) ==>
      Occurrences('.', Pieces(words, |words|, wrap))
        + (if words != [] && words[0] == Delimiter && Before(words, 0, wrap) != Delimiter then 1 else 0)
      == multiset(words)[Delimiter]
  {
    assert words[..|words|] == words;
    LettersPieces(words, |words|, wrap);
    if forall i :: 0 <= i < |words| ==> IsToken(words[i]) {
      DotsInPieces(words, |words|, wrap);
    }
  }

  // ---- The letters survive ----

  predicate IsWordChar(c: char) { c != ' ' && c != '.' }

  /** The letters of a text, case ignored: spaces and dots dropped, lower-cased. */
  function Letters(s: string): string
  {
    Lower(Filter(IsWordChar, s))
  }

  lemma LettersAppend(a: string, b: string)
    ensures Letters(a + b) == Letters(a) + Letters(b)
  {
    FilterAppend(IsWordChar, a, b);
    LowerAppend(Filter(IsWordChar, a), Filter(IsWordChar, b));
  }

  /** Case mapping and dropping spaces and dots commute. */
  lemma {:induction false} LowerFilterWordChars(s: string)
    ensures Lower(Filter(IsWordChar, s)) == Filter(IsWordChar, Lower(s))
  {
    if s != [] {
      LowerFilterWordChars(s[1..]);
      assert Lower(s)[1..] == Lower(s[1..]);
      LowerAppend(if IsWordChar(s[0]) then [s[0]] else [], Filter(IsWordChar, s[1..]));
    }
  }

  lemma LettersCapitalize(w: string)
    ensures Letters(Capitalize(w)) == Letters(w)
  {
    LowerFilterWordChars(Capitalize(w));
    CapitalizeLower(w);
    LowerFilterWordChars(w);
  }

  lemma LettersPiece(words: seq<string>, i: int, wrap: bool)
    requires 0 <= i < |words|
    ensures Letters(Piece(words, i, wrap)) == Letters(words[i])
  {
    var w := words[i];
    if Before(words, i, wrap) == Delimiter {
      LettersCapitalize(w);
    } else if w == Delimiter {
      assert Letters(". ") == "" by {
        LettersAppend(".", " ");
      }
    } else {
      var x := if w in ProperNouns then Capitalize(w) else w;
      LettersAppend(" ", x);
      LettersCapitalize(w);
    }
  }

  lemma {:induction false} LettersPieces(words: seq<string>, j: int, wrap: bool)
    requires 0 <= j <= |words|
    ensures Letters(Pieces(words, j, wrap)) == Letters(Flatten(words[..j]))
  {
    if j > 0 {
      LettersPieces(words, j - 1, wrap);
      LettersAppend(Pieces(words, j - 1, wrap), Piece(words, j - 1, wrap));
      LettersPiece(words, j - 1, wrap);
      FlattenTake(words, j);
      LettersAppend(Flatten(words[..j - 1]), words[j - 1]);
    }
  }

  // ---- Where the dots go ----

  lemma CapitalizeNoDot(w: string)
    requires '.' !in w
    ensures '.' !in Capitalize(w)
  {
    if w != "" {
      assert w[0] in w;
      forall i | 0 <= i < |w[1..]|
        ensures Lower(w[1..])[i] != '.'
      {
        assert w[1..][i] in w;
      }
    }
  }

  /** A piece holds a dot exactly when its token is the delimiter, except for
      a delimiter at position 0 that no delimiter precedes. */
  lemma DotsInPiece(words: seq<string>, i: int, wrap: bool)
    requires 0 <= i < |words| && IsToken(words[i])
    ensures Occurrences('.', Piece(words, i, wrap)) ==
      if words[i] == Delimiter && (i != 0 || Before(words, i, wrap) == Delimiter) then 1 else 0
  {
    var w := words[i];
    if w != Delimiter {
      assert '.' !in w;
      CapitalizeNoDot(w);
      AbsentOccurrences('.', Capitalize(w));
      AbsentOccurrences('.', w);
      AbsentOccurrences('.', " " + w);
      AbsentOccurrences('.', " " + Capitalize(w));
    } else if Before(words, i, wrap) == Delimiter {
      assert Capitalize(w) == ".";
      assert Occurrences('.', ".") == 1;
    } else if i != 0 {
      assert Occurrences('.', ". ") == 1 by {
        assert ". "[1..] == " ";
      }
    }
  }

  lemma {:induction false} DotsInPieces(words: seq<string>, j: int, wrap: bool)
    requires 0 <= j <= |words|
    requires forall i :: 0 <= i < |words| ==> IsToken(words[i])
    ensures Occurrences('.', Pieces(words, j, wrap)) + (if j > 0 && words[0] == Delimiter && Before(words, 0, wrap) != Delimiter then 1 else 0)
         == multiset(words[..j])[Delimiter]
  {
    if j > 0 {
      DotsInPieces(words, j - 1, wrap);
      OccurrencesAppend('.', Pieces(words, j - 1, wrap), Piece(words, j - 1, wrap));
      DotsInPiece(words, j - 1, wrap);
      TakeCount(words, j, Delimiter);
    }
  }

  // ---- Case and spaces ----

  /** A leading delimiter that no delimiter precedes renders as nothing. */
  predicate DropsLead(words: seq<string>, wrap: bool)
  {
    words != [] && words[0] == Delimiter && Before(words, 0, wrap) != Delimiter
  }

  /** A well-formed token is lower-case and holds no space. */
  lemma KeyToken(w: string)
    requires IsToken(w)
    ensures Key(w) == w && ' ' !in w
  {
    FilterIdentity(NotSpace, w);
    assert Lower(w) == w;
  }

  lemma KeyOfPiece(words: seq<string>, i: int, wrap: bool)
    requires 0 <= i < |words| && IsToken(words[i])
    ensures Key(Piece(words, i, wrap)) == if i == 0 && DropsLead(words, wrap) then "" else words[i]
  {
    var w := words[i];
    KeyToken(w);
    KeyCapitalize(w);
    if Before(words, i, wrap) != Delimiter && w == Delimiter && i != 0 {
      KeyAppend(".", " ");
    } else if Before(words, i, wrap) != Delimiter && w != Delimiter {
      KeyAppend(" ", Capitalize(w));
      KeyAppend(" ", w);
    }
  }

  lemma {:induction false} KeyOfPieces(words: seq<string>, j: int, wrap: bool)
    requires 1 <= j <= |words|
    requires forall i :: 0 <= i < |words| ==> IsToken(words[i])
    ensures Key(Pieces(words, j, wrap)) == Key(Piece(words, 0, wrap)) + Flatten(words[1..j])
  {
    if j == 1 {
      assert Pieces(words, 1, wrap) == Piece(words, 0, wrap);
      assert words[1..1] == [];
    } else {
      assert IsToken(words[j - 1]);
      var prev := Pieces(words, j - 1, wrap);
      var last := Piece(words, j - 1, wrap);
      assert Pieces(words, j, wrap) == prev + last;
      KeyOfPieces(words, j - 1, wrap);
      KeyAppend(prev, last);
      KeyOfPiece(words, j - 1, wrap);
      FlattenSlice(words, j);
      ConcatAssoc(Key(Piece(words, 0, wrap)), Flatten(words[1..j - 1]), words[j - 1]);
    }
  }

  lemma FlattenSlice(words: seq<string>, j: int)
    requires 2 <= j <= |words|
    ensures Flatten(words[1..j]) == Flatten(words[1..j - 1]) + words[j - 1]
  {
    assert words[1..j] == words[1..j - 1] + [words[j - 1]];
    FlattenAppend(words[1..j - 1], [words[j - 1]]);
    assert Flatten([words[j - 1]]) == words[j - 1];
  }

  /** A piece has a space unless its token follows a delimiter or is a
      delimiter at position 0. */
  lemma SpacesOfPiece(words: seq<string>, i: int, wrap: bool)
    requires 0 <= i < |words| && IsToken(words[i])
    ensures Occurrences(' ', Piece(words, i, wrap)) ==
      if Before(words, i, wrap) == Delimiter || (i == 0 && words[i] == Delimiter) then 0 else 1
  {
    var w := words[i];
    KeyToken(w);
    NoSpaceCapitalize(w);
    AbsentOccurrences(' ', w);
    AbsentOccurrences(' ', Capitalize(w));
    if Before(words, i, wrap) != Delimiter && w == Delimiter && i != 0 {
      assert ". "[1..] == " ";
      assert Occurrences(' ', ". ") == 1;
    } else if Before(words, i, wrap) != Delimiter && w != Delimiter {
      OccurrencesAppend(' ', " ", Capitalize(w));
      OccurrencesAppend(' ', " ", w);
    }
  }

  lemma {:induction false} SpacesOfPieces(words: seq<string>, j: int, wrap: bool)
    requires 1 <= j <= |words|
    requires forall i :: 0 <= i < |words| ==> IsToken(words[i])
    ensures Occurrences(' ', Pieces(words, j, wrap)) + multiset(words[..j - 1])[Delimiter]
         == (j - 1) + Occurrences(' ', Piece(words, 0, wrap))
  {
    if j == 1 {
      assert Pieces(words, 1, wrap) == Piece(words, 0, wrap);
    } else {
      assert IsToken(words[j - 1]);
      var prev := Pieces(words, j - 1, wrap);
      var last := Piece(words, j - 1, wrap);
      assert Pieces(words, j, wrap) == prev + last;
      SpacesOfPieces(words, j - 1, wrap);
      OccurrencesAppend(' ', prev, last);
      SpacesOfPiece(words, j - 1, wrap);
      TakeCount(words, j - 1, Delimiter);
    }
  }

  /** The case-free, space-free text and the number of spaces of a whole
      rendering, with or without the wrap-around. */
  lemma RenderShape(words: seq<string>, wrap: bool)
    ensures (forall i :: 0 <= i < |words| ==> IsToken(words[i])) ==>
      Key(Pieces(words, |words|, wrap)) == Flatten(if DropsLead(words, wrap) then words[1..] else words)
    ensures (forall i :: 0 <= i < |words| ==> IsToken(words[i])) ==>
      Occurrences(' ', Pieces(words, |words|, wrap)) + multiset(words)[Delimiter] + (if DropsLead(words, wrap) then 1 else 0)
        == |words| + (if !wrap && words != [] && words[|words| - 1] == Delimiter then 1 else 0)
  {
    if words != [] && forall i :: 0 <= i < |words| ==> IsToken(words[i]) {
      var n := |words|;
      KeyOfPieces(words, n, wrap);
      KeyOfPiece(words, 0, wrap);
      assert words[1..n] == words[1..];
      assert Flatten(words) == words[0] + Flatten(words[1..]);
      SpacesOfPieces(words, n, wrap);
      SpacesOfPiece(words, 0, wrap);
      TakeCount(words, n, Delimiter);
      assert words[..n] == words;
    }
  }

  /** Rendering only appends: the pieces of fewer tokens start the text. */
  lemma {:induction false} PiecesPrefix(words: seq<string>, j: int, m: int, wrap: bool)
    requires 0 <= j <= m <= |words|
    ensures Pieces(words, j, wrap) <= Pieces(words, m, wrap)
    decreases m
  {
    if j < m {
      PiecesPrefix(words, j, m - 1, wrap);
      PrefixTransitive(Pieces(words, j, wrap), Pieces(words, m - 1, wrap), Pieces(words, m, wrap));
    }
  }

  /** What goes before the word of token i: nothing after a delimiter, one
      space otherwise. */
  function Gap(words: seq<string>, i: int, wrap: bool): string
    requires 0 <= i < |words|
  {
    if Before(words, i, wrap) == Delimiter then "" else " "
  }

  /** The word of token i as its piece shows it: first letter upper-cased
      after a delimiter or for a proper noun, otherwise unchanged. */
  function ShownWord(words: seq<string>, i: int, wrap: bool): string
    requires 0 <= i < |words| && words[i] != ""
  {
    var w := words[i];
    if Before(words, i, wrap) == Delimiter || w in ProperNouns then [UpperChar(w[0])] + w[1..] else w
  }

  /** Where a word token lands in any text that the pieces up to it start:
      at offset k, right after the letters of the tokens before it, as shown
      by its piece, and after a space when no delimiter precedes it. */
  lemma WordInText(words: seq<string>, i: int, wrap: bool, text: string) returns (k: int)
    requires 0 <= i < |words| && IsToken(words[i]) && words[i] != Delimiter
    requires Pieces(words, i + 1, wrap) <= text
    ensures 0 <= k && k + |words[i]| <= |text|
    ensures Letters(text[..k]) == Letters(Flatten(words[..i]))
    ensures text[k..k + |words[i]|] == ShownWord(words, i, wrap)
    ensures Before(words, i, wrap) != Delimiter ==> k > 0 && text[k - 1] == ' '
  {
    k := WordOffset(words, i, wrap, text);
    if Gap(words, i, wrap) == " " {
      assert text[k - 1] == text[..k][k - 1];
    }
    LettersBeforeWord(words, i, wrap);
  }

  /** A shown word is the word with its first letter upper-cased when a
      delimiter precedes it or it is a proper noun. */
  lemma ShownWordShape(words: seq<string>, i: int, wrap: bool, text: string, k: int)
    requires 0 <= i < |words| && IsToken(words[i]) && words[i] != Delimiter
    requires 0 <= k && k + |words[i]| <= |text| && text[k..k + |words[i]|] == ShownWord(words, i, wrap)
    ensures |words[i]| > 0
    ensures text[k] ==
      if Before(words, i, wrap) == Delimiter || words[i] in ProperNouns then UpperChar(words[i][0]) else words[i][0]
    ensures text[k + 1..k + |words[i]|] == words[i][1..]
  {
    var w := words[i];
    assert text[k] == text[k..k + |w|][0];
    assert text[k + 1..k + |w|] == text[k..k + |w|][1..];
  }

  lemma LettersBeforeWord(words: seq<string>, i: int, wrap: bool)
    requires 0 <= i < |words|
    ensures Letters(Pieces(words, i, wrap) + Gap(words, i, wrap)) == Letters(Flatten(words[..i]))
  {
    var gap := Gap(words, i, wrap);
    LettersPieces(words, i, wrap);
    LettersAppend(Pieces(words, i, wrap), gap);
    assert Letters(gap) == "" by {
      assert " "[1..] == [];
      assert Filter(IsWordChar, " ") == [];
    }
  }

  /** The offset of a word token in any text that the pieces up to it
      start: the pieces before it and its gap come first, then the word as
      shown. */
  lemma WordOffset(words: seq<string>, i: int, wrap: bool, text: string) returns (k: int)
    requires 0 <= i < |words| && IsToken(words[i]) && words[i] != Delimiter
    requires Pieces(words, i + 1, wrap) <= text
    ensures 0 <= k && k + |words[i]| <= |text|
    ensures text[..k] == Pieces(words, i, wrap) + Gap(words, i, wrap)
    ensures text[k..k + |words[i]|] == ShownWord(words, i, wrap)
  {
    PieceOfWord(words, i, wrap);
    k := SliceOfPrefix(text, Pieces(words, i, wrap), Gap(words, i, wrap), ShownWord(words, i, wrap), |words[i]|);
  }

  lemma SliceOfPrefix(text: string, a: string, b: string, c: string, n: int) returns (k: int)
    requires a + (b + c) <= text && n == |c|
    ensures k == |a| + |b| && 0 <= k && k + n <= |text|
    ensures text[..k] == a + b
    ensures text[k..k + n] == c
  {
    k := |a| + |b|;
    assert text[..|a| + |b|] == (a + (b + c))[..|a| + |b|];
    assert text[|a| + |b|..|a| + |b| + |c|] == (a + (b + c))[|a| + |b|..];
  }

  /** The piece of a word token is its gap and the word as shown. */
  lemma PieceOfWord(words: seq<string>, i: int, wrap: bool)
    requires 0 <= i < |words| && IsToken(words[i]) && words[i] != Delimiter
    ensures |ShownWord(words, i, wrap)| == |words[i]|
    ensures Piece(words, i, wrap) == Gap(words, i, wrap) + ShownWord(words, i, wrap)
    ensures Pieces(words, i + 1, wrap) == Pieces(words, i, wrap) + (Gap(words, i, wrap) + ShownWord(words, i, wrap))
  {
    var w := words[i];
    assert w[1..] == Lower(w[1..]);
    assert Capitalize(w) == [UpperChar(w[0])] + w[1..];
  }

  /** As written, a word token lands at an offset k right after the letters
      of the tokens before it. Its first letter is upper-cased when the token
      before it (for position 0, the last token) is a delimiter or when it is
      a proper noun; the rest of it is unchanged; and when no delimiter
      precedes it, a space stands before it. */
  lemma NormalizeWordAt(words: seq<string>, i: int) returns (k: int)
    requires 0 <= i < |words| && IsToken(words[i]) && words[i] != Delimiter
    ensures |words[i]| > 0 && 0 <= k && k + |words[i]| <= |Normalize(words)|
    ensures Letters(Normalize(words)[..k]) == Letters(Flatten(words[..i]))
    ensures Normalize(words)[k] ==
      if (if i > 0 then words[i - 1] else words[|words| - 1]) == Delimiter || words[i] in ProperNouns
      then UpperChar(words[i][0]) else words[i][0]
    ensures Normalize(words)[k + 1..k + |words[i]|] == words[i][1..]
    ensures (if i > 0 then words[i - 1] else words[|words| - 1]) != Delimiter ==> k > 0 && Normalize(words)[k - 1] == ' '
  {
    assert Before(words, i, true) == if i > 0 then words[i - 1] else words[|words| - 1];
    PiecesPrefix(words, i + 1, |words|, true);
    k := WordInText(words, i, true, Normalize(words));
    ShownWordShape(words, i, true, Normalize(words), k);
  }

  /** The same in the corrected rendering, where position 0 has no predecessor. */
  lemma StreamingWordAt(words: seq<string>, i: int) returns (k: int)
    requires 0 <= i < |words| && IsToken(words[i]) && words[i] != Delimiter
    ensures |words[i]| > 0 && 0 <= k && k + |words[i]| <= |NormalizeStreaming(words)|
    ensures Letters(NormalizeStreaming(words)[..k]) == Letters(Flatten(words[..i]))
    ensures NormalizeStreaming(words)[k] ==
      if (i > 0 && words[i - 1] == Delimiter) || words[i] in ProperNouns then UpperChar(words[i][0]) else words[i][0]
    ensures NormalizeStreaming(words)[k + 1..k + |words[i]|] == words[i][1..]
    ensures !(i > 0 && words[i - 1] == Delimiter) ==> k > 0 && NormalizeStreaming(words)[k - 1] == ' '
  {
    PiecesPrefix(words, i + 1, |words|, false);
    k := WordInText(words, i, false, NormalizeStreaming(words));
    ShownWordShape(words, i, false, NormalizeStreaming(words), k);
  }

  lemma NormalizeEmpty()
    ensures Normalize([]) == ""
    ensures NormalizeStreaming([]) == ""
  {
  }

  // ---- The wrap-around at position 0 ----

  /** As written, the text for a stream is not a prefix of the text for a
      longer stream: appending a final delimiter changes how position 0 renders. */
  lemma WrapAroundRewritesStart()
    ensures Normalize([".", "a"]) == "A"
    ensures Normalize([".", "a", "."]) == ".A. "
    ensures !(Normalize([".", "a"]) <= Normalize([".", "a", "."]))
  {
    assert Capitalize("a") == "A";
    assert Capitalize(".") == ".";
    var short: seq<string> := [".", "a"];
    var long: seq<string> := [".", "a", "."];
    assert Piece(short, 0, true) == "";
    assert Piece(short, 1, true) == "A";
    assert Piece(long, 0, true) == ".";
    assert Piece(long, 1, true) == "A";
    assert Piece(long, 2, true) == ". ";
    assert Pieces(long, 3, true) == ".A. " by {
      assert Pieces(long, 1, true) == ".";
      assert Pieces(long, 2, true) == ".A";
    }
    assert Pieces(short, 2, true) == "A" by {
      assert Pieces(short, 1, true) == "";
    }
    assert Normalize(long)[0] != Normalize(short)[0];
  }

  /** Without the wrap-around, the pieces of a stream do not depend on what follows it. */
  lemma {:induction false} StreamingPiecesStable(words: seq<string>, x: string, j: int)
    requires 0 <= j <= |words|
    ensures Pieces(words + [x], j, false) == Pieces(words, j, false)
  {
    if j > 0 {
      StreamingPiecesStable(words, x, j - 1);
      assert Piece(words + [x], j - 1, false) == Piece(words, j - 1, false);
    }
  }

  /** Corrected: rendering can be streamed, each token only adding to the text. */
  lemma StreamingExtends(words: seq<string>, x: string)
    ensures NormalizeStreaming(words) <= NormalizeStreaming(words + [x])
  {
    StreamingPiecesStable(words, x, |words|);
  }

  lemma {:induction false} PiecesAgree(words: seq<string>, j: int)
    requires 0 <= j <= |words|
    requires words != [] ==> words[|words| - 1] != Delimiter
    ensures Pieces(words, j, true) == Pieces(words, j, false)
  {
    if j > 0 {
      PiecesAgree(words, j - 1);
      assert Piece(words, j - 1, true) == Piece(words, j - 1, false);
    }
  }

  /** The two agree exactly when the wrap-around cannot matter: the stream
      does not end with a delimiter. */
  lemma StreamingAgrees(words: seq<string>)
    requires words != [] ==> words[|words| - 1] != Delimiter
    ensures Normalize(words) == NormalizeStreaming(words)
  {
    PiecesAgree(words, |words|);
  }
}
