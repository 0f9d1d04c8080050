/** simple_markov.py, `sanitize`: one line of text turned into a stream of
    tokens, each either the delimiter "." or a run of lower-case letters. */
module MarkovText {
  import opened Text
  import opened Seqs

  /** The end-of-sentence token. */
  const Delimiter := "."

  /** `weird_words`: abbreviations whose dots are not sentence ends, each
      rewritten (or deleted) before the dots are isolated. */
  const WeirdWords: seq<(string, string)> :=
    [("i. e. ", "ie "), ("e. g. ", "eg "), ("etc.", "etc"), ("l. c. ", ""), (" p. ", ""), (" ch. ", "")]

  /** The class `[.a-z]` that survives the character filter. */
  predicate IsMarkovChar(c: char) { c == '.' || IsLowerLetter(c) }

  predicate IsMarkovOrSpace(c: char) { IsMarkovChar(c) || c == ' ' }

  /** `pat` occurs in `s` starting at index `i`. */
  predicate OccursAt(s: string, pat: string, i: int)
  {
    0 <= i && i + |pat| <= |s| && s[i..i + |pat|] == pat
  }

  /** `re.sub(pat, rep, s)` for a literal, non-empty pattern: occurrences are
      found left to right and never overlap. A line in which the pattern does
      not occur is left as it is, and so is every line when the replacement
      is the pattern itself. */
  function ReplaceAll(s: string, pat: string, rep: string): (r: string)
    requires pat != ""
    ensures (forall i :: !OccursAt(s, pat, i)) ==> r == s
    ensures rep == pat ==> r == s
    decreases |s|
  {
    if |s| < |pat| then s
    else if s[..|pat|] == pat then
      assert OccursAt(s, pat, 0);
      assert s == pat + s[|pat|..];
      rep + ReplaceAll(s[|pat|..], pat, rep)
    else
      OccursInTail(s, pat);
      [s[0]] + ReplaceAll(s[1..], pat, rep)
  }

  lemma OccursInTail(s: string, pat: string)
    requires s != []
    ensures (forall i :: !OccursAt(s, pat, i)) ==> forall i :: !OccursAt(s[1..], pat, i)
  {
    forall i | OccursAt(s[1..], pat, i)
      ensures OccursAt(s, pat, i + 1)
    {
      assert s[1..][i..i + |pat|] == s[i + 1..i + 1 + |pat|];
    }
  }

  /** The leftmost occurrence is replaced and the search resumes after it:
      if `pat` first occurs in `s` right after `x`, the result is `x`, the
      replacement, then the rewritten rest. */
  lemma {:induction false} ReplaceAllLeftmost(s: string, pat: string, rep: string, x: string, y: string)
    requires pat != "" && s == x + pat + y
    requires forall i :: 0 <= i < |x| ==> !OccursAt(s, pat, i)
    ensures ReplaceAll(s, pat, rep) == x + rep + ReplaceAll(y, pat, rep)
    decreases |x|
  {
    if x == [] {
      assert s[..|pat|] == pat && s[|pat|..] == y;
    } else {
      ReplaceAllSkip(s, pat, rep);
      TailOfJoin(s, x, pat, y);
      NoMatchInTail(s, pat, |x|);
      ReplaceAllLeftmost(s[1..], pat, rep, x[1..], y);
      ConsSplit(x, s[0], rep, ReplaceAll(y, pat, rep));
    }
  }

  /** Where the pattern does not start the line, its first character is kept. */
  lemma ReplaceAllSkip(s: string, pat: string, rep: string)
    requires pat != "" && s != [] && !OccursAt(s, pat, 0)
    ensures ReplaceAll(s, pat, rep) == [s[0]] + ReplaceAll(s[1..], pat, rep)
  {
  }

  lemma TailOfJoin(s: string, x: string, a: string, b: string)
    requires s == x + a + b && x != []
    ensures s[0] == x[0] && s[1..] == x[1..] + a + b
  {
  }

  lemma ConsSplit(x: string, c: char, a: string, b: string)
    requires x != [] && x[0] == c
    ensures [c] + (x[1..] + a + b) == x + a + b
  {
    assert [c] + x[1..] == x;
  }

  /** No match among the first m positions of `s` means none among the first
      m - 1 positions of its tail. */
  lemma NoMatchInTail(s: string, pat: string, m: int)
    requires s != []
    requires forall i :: 0 <= i < m ==> !OccursAt(s, pat, i)
    ensures forall i :: 0 <= i < m - 1 ==> !OccursAt(s[1..], pat, i)
  {
    forall i | 0 <= i < m - 1
      ensures !OccursAt(s[1..], pat, i)
    {
      assert !OccursAt(s, pat, i + 1);
      if i + |pat| <= |s[1..]| {
        assert s[1..][i..i + |pat|] == s[i + 1..i + 1 + |pat|];
      }
    }
  }

  predicate PatternsNonEmpty(rules: seq<(string, string)>)
  {
    forall i :: 0 <= i < |rules| ==> rules[i].0 != ""
  }

  /** `for pre, post in rules: line = re.sub(pre, post, line)`. */
  function Rewrite(s: string, rules: seq<(string, string)>): string
    requires PatternsNonEmpty(rules)
    decreases rules
  {
    if rules == [] then s else Rewrite(ReplaceAll(s, rules[0].0, rules[0].1), rules[1..])
  }

  /** `re.sub(r"\.", " . ", s)`. Padding adds nothing but spaces. */
  function PadDots(s: string): (r: string)
    ensures RemoveSpaces(r) == RemoveSpaces(s)
  {
    if s == [] then []
    else
      var head := if s[0] == '.' then " . " else [s[0]];
      var rest := PadDots(s[1..]);
      assert RemoveSpaces(" . ") == "." by {
        assert " . "[1..] == ". " && ". "[1..] == " " && " "[1..] == "";
      }
      FilterAppend(NotSpace, head, rest);
      head + rest
  }

  /** Dots isolated on both sides of a join stay isolated when neither side
      has a dot where they meet. */
  lemma IsolatedAppend(a: string, b: string)
    requires DotsIsolated(a) && DotsIsolated(b)
    requires a != [] ==> a[0] != '.' && a[|a| - 1] != '.'
    requires b != [] ==> b[0] != '.' && b[|b| - 1] != '.'
    ensures DotsIsolated(a + b)
    ensures a + b != [] ==> (a + b)[0] != '.' && (a + b)[|a + b| - 1] != '.'
  {
    forall i | 0 <= i < |a + b| && (a + b)[i] == '.'
      ensures (i == 0 || (a + b)[i - 1] == ' ') && (i == |a + b| - 1 || (a + b)[i + 1] == ' ')
    {
      if i < |a| {
        assert a[i] == '.';
      } else {
        assert b[i - |a|] == '.';
      }
    }
  }

  /** The pieces joined back with single spaces, as `" ".join(parts)`. */
  function JoinSpaces(parts: seq<string>): string
    requires |parts| >= 1
  {
    if |parts| == 1 then parts[0] else parts[0] + " " + JoinSpaces(parts[1..])
  }

  /** `s.split(" ")`: the pieces between single spaces, empty pieces
      included; no piece holds a space. */
  function SplitSpaces(s: string): (parts: seq<string>)
    ensures |parts| >= 1
    ensures forall j :: 0 <= j < |parts| ==> ' ' !in parts[j]
  {
    if s == [] then [""]
    else
      var rest := SplitSpaces(s[1..]);
      if s[0] == ' ' then
        assert ([""] + rest)[1..] == rest;
        [""] + rest
      else
        var parts := [[s[0]] + rest[0]] + rest[1..];
        assert forall j :: 1 <= j < |parts| ==> parts[j] == rest[j];
        parts
  }

  /** Joining the pieces of a split with single spaces gives the text back. */
  lemma {:induction false} SplitJoin(s: string)
    ensures JoinSpaces(SplitSpaces(s)) == s
  {
    if s != [] {
      SplitJoin(s[1..]);
      var rest := SplitSpaces(s[1..]);
      if s[0] == ' ' {
        assert ([""] + rest)[1..] == rest;
      } else {
        JoinCons(s[0], rest);
      }
    }
  }

  /** Splitting space-free pieces joined with single spaces gives the pieces back. */
  lemma {:induction false} JoinSplit(parts: seq<string>)
    requires |parts| >= 1
    requires forall j :: 0 <= j < |parts| ==> ' ' !in parts[j]
    ensures SplitSpaces(JoinSpaces(parts)) == parts
  {
    SplitSpaceFree(parts[0]);
    if |parts| > 1 {
      JoinSplit(parts[1..]);
      SplitAppend(parts[0], JoinSpaces(parts[1..]));
      assert parts == [parts[0]] + parts[1..];
    }
  }

  /** A character put in front of the first piece is put in front of the join. */
  lemma JoinCons(c: char, rest: seq<string>)
    requires |rest| >= 1
    ensures JoinSpaces([[c] + rest[0]] + rest[1..]) == [c] + JoinSpaces(rest)
  {
    var parts := [[c] + rest[0]] + rest[1..];
    if |rest| > 1 {
      var tail := JoinSpaces(rest[1..]);
      assert parts[0] == [c] + rest[0] && parts[1..] == rest[1..];
      assert JoinSpaces(parts) == [c] + rest[0] + " " + tail;
      assert JoinSpaces(rest) == rest[0] + " " + tail;
      ConsAssoc(c, rest[0], " ", tail);
    } else {
      assert parts == [[c] + rest[0]];
    }
  }

  lemma ConsAssoc(c: char, a: string, b: string, d: string)
    ensures [c] + a + b + d == [c] + (a + b + d)
  {
  }

  /** `filter(bool, parts)`: the non-empty pieces. */
  function NonEmpty(parts: seq<string>): (r: seq<string>)
    ensures forall i :: 0 <= i < |r| ==> r[i] != ""
    ensures forall x :: x in r <==> x in parts && x != ""
  {
    if parts == [] then [] else (if parts[0] != "" then [parts[0]] else []) + NonEmpty(parts[1..])
  }

  /** The filter keeps the order of the pieces and each non-empty piece as
      often as it occurs. */
  lemma {:induction false} NonEmptyKeepsOrder(parts: seq<string>)
    ensures IsSubsequence(NonEmpty(parts), parts)
    ensures forall x :: multiset(NonEmpty(parts))[x] == if x != "" then multiset(parts)[x] else 0
  {
    if parts != [] {
      NonEmptyKeepsOrder(parts[1..]);
      var rest := NonEmpty(parts[1..]);
      assert parts == [parts[0]] + parts[1..];
      if parts[0] != "" {
        assert ([parts[0]] + rest)[1..] == rest;
      } else {
        assert NonEmpty(parts) == rest;
      }
    }
  }

  /** Every dot of `s` stands alone between spaces (or an end of `s`). */
  predicate DotsIsolated(s: string)
  {
    forall i :: 0 <= i < |s| && s[i] == '.' ==>
      (i == 0 || s[i - 1] == ' ') && (i == |s| - 1 || s[i + 1] == ' ')
  }

  /** A well-formed token: the delimiter, or a non-empty run of lower-case letters. */
  predicate IsToken(t: string)
  {
    t == Delimiter || (t != "" && AllSatisfy(t, IsLowerLetter))
  }

  /** The text whose characters the tokens are drawn from: the line lower-cased
      with the abbreviations rewritten. */
  function Rewritten(line: string): string
  {
    Rewrite(Lower(line), WeirdWords)
  }

  /** `sanitize(line)`. Every token is the delimiter or a run of letters, and
      the tokens, concatenated, are exactly the letters and dots of the
      rewritten line, in order: nothing is invented and nothing of the class
      `[.a-z]` is lost. */
  function Sanitize(line: string): (tokens: seq<string>)
    ensures forall i :: 0 <= i < |tokens| ==> IsToken(tokens[i])
    ensures Flatten(tokens) == Filter(IsMarkovChar, Rewritten(line))
    ensures tokens == Lex(Rewritten(line))
  {
    var rewritten := Rewritten(line);
    var stripped := CollapseRuns(IsMarkovChar, rewritten, false);
    var padded := PadDots(stripped);
    var single := CollapseRuns(NotSpace, padded, false);
    var parts := SplitSpaces(single);
    SanitizeShape(rewritten);
    SanitizeContent(rewritten);
    SanitizeLexes(rewritten);
    NonEmpty(parts)
  }

  // ---- Shape of the tokens ----

  /** Collapsing runs leaves only class characters and spaces. */
  lemma {:induction false} CollapseRunsOutput(keep: char -> bool, s: string, inRun: bool)
    ensures forall i :: 0 <= i < |CollapseRuns(keep, s, inRun)| ==>
      keep(CollapseRuns(keep, s, inRun)[i]) || CollapseRuns(keep, s, inRun)[i] == ' '
  {
    if s != [] {
      CollapseRunsOutput(keep, s[1..], !keep(s[0]));
    }
  }

  /** After padding, every dot stands between spaces, and the text neither
      starts nor ends with a dot. */
  lemma {:induction false} PadDotsShape(s: string)
    ensures DotsIsolated(PadDots(s))
    ensures PadDots(s) != [] ==> PadDots(s)[0] != '.' && PadDots(s)[|PadDots(s)| - 1] != '.'
  {
    if s != [] {
      PadDotsShape(s[1..]);
      var head := if s[0] == '.' then " . " else [s[0]];
      var rest := PadDots(s[1..]);
      assert PadDots(s) == head + rest;
      assert DotsIsolated(head) by {
        if s[0] == '.' {
          assert " . "[0] == ' ' && " . "[1] == '.' && " . "[2] == ' ';
        }
      }
      IsolatedAppend(head, rest);
    }
  }

  /** Padding adds only spaces, so it keeps the text within `[.a-z ]`. */
  lemma {:induction false} PadDotsAlphabet(s: string)
    requires AllSatisfy(s, IsMarkovOrSpace)
    ensures AllSatisfy(PadDots(s), IsMarkovOrSpace)
  {
    if s != [] {
      assert AllSatisfy(s[1..], IsMarkovOrSpace) by {
        forall i | 0 <= i < |s[1..]|
          ensures IsMarkovOrSpace(s[1..][i])
        {
          assert s[1..][i] == s[i + 1];
        }
      }
      PadDotsAlphabet(s[1..]);
      var head := if s[0] == '.' then " . " else [s[0]];
      var rest := PadDots(s[1..]);
      assert PadDots(s) == head + rest;
      forall i | 0 <= i < |head + rest|
        ensures IsMarkovOrSpace((head + rest)[i])
      {
        if i >= |head| {
          assert (head + rest)[i] == rest[i - |head|];
        }
      }
    }
  }

  /** Squeezing runs of spaces keeps dots isolated. */
  lemma {:induction false} SqueezeKeepsIsolation(v: string, inRun: bool)
    requires DotsIsolated(v)
    ensures DotsIsolated(CollapseRuns(NotSpace, v, inRun))
  {
    if v != [] {
      var out := CollapseRuns(NotSpace, v, inRun);
      if v[0] != ' ' {
        var rest := CollapseRuns(NotSpace, v[1..], false);
        SqueezeKeepsIsolation(v[1..], false);
        assert out == [v[0]] + rest;
        if rest != [] {
          assert v[1..] != [];
          assert rest[0] == (if v[1] != ' ' then v[1] else ' ');
        }
        forall i | 0 <= i < |out| && out[i] == '.'
          ensures (i == 0 || out[i - 1] == ' ') && (i == |out| - 1 || out[i + 1] == ' ')
        {
          if i > 0 {
            assert rest[i - 1] == '.';
          }
        }
      } else {
        var rest := CollapseRuns(NotSpace, v[1..], true);
        SqueezeKeepsIsolation(v[1..], true);
        assert out == (if inRun then [] else " ") + rest;
      }
    }
  }

  /** The pieces of a split hold no space, use only characters of the input,
      and, when dots are isolated, each piece is a lone dot or dot-free. */
  lemma {:induction false} SplitPieces(v: string, ok: char -> bool)
    ensures AllSatisfy(v, ok) ==> forall j :: 0 <= j < |SplitSpaces(v)| ==> AllSatisfy(SplitSpaces(v)[j], ok)
    ensures SplitSpaces(v)[0] <= v
    ensures |SplitSpaces(v)[0]| < |v| ==> v[|SplitSpaces(v)[0]|] == ' '
    ensures DotsIsolated(v) ==> forall j :: 0 <= j < |SplitSpaces(v)| ==>
      SplitSpaces(v)[j] == "." || '.' !in SplitSpaces(v)[j]
  {
    if v != [] {
      var rest := SplitSpaces(v[1..]);
      SplitPieces(v[1..], ok);
      if DotsIsolated(v) {
        assert DotsIsolated(v[1..]) by {
          forall i | 0 <= i < |v[1..]| && v[1..][i] == '.'
            ensures (i == 0 || v[1..][i - 1] == ' ') && (i == |v[1..]| - 1 || v[1..][i + 1] == ' ')
          {
            assert v[i + 1] == '.';
          }
        }
        if v[0] == '.' {
          if |v| > 1 {
            assert v[1..][0] == ' ';
          }
        } else if v[0] != ' ' && rest[0] == "." {
          assert v[1] == '.';
        }
      }
    }
  }

  lemma TokenShape(t: string)
    requires t != "" && ' ' !in t && AllSatisfy(t, IsMarkovOrSpace)
    requires t == "." || '.' !in t
    ensures IsToken(t)
  {
    if t != "." {
      forall i | 0 <= i < |t|
        ensures IsLowerLetter(t[i])
      {
        assert t[i] in t;
      }
    }
  }

  lemma SanitizeShape(rewritten: string)
    ensures forall x :: x in NonEmpty(SplitSpaces(CollapseRuns(NotSpace, PadDots(CollapseRuns(IsMarkovChar, rewritten, false)), false))) ==> IsToken(x)
  {
    var stripped := CollapseRuns(IsMarkovChar, rewritten, false);
    CollapseRunsOutput(IsMarkovChar, rewritten, false);
    assert AllSatisfy(stripped, IsMarkovOrSpace);
    var padded := PadDots(stripped);
    PadDotsShape(stripped);
    PadDotsAlphabet(stripped);
    var single := CollapseRuns(NotSpace, padded, false);
    CollapseRunsAlphabet(NotSpace, padded, false, IsMarkovOrSpace);
    SqueezeKeepsIsolation(padded, false);
    var parts := SplitSpaces(single);
    SplitPieces(single, IsMarkovOrSpace);
    forall x | x in NonEmpty(parts)
      ensures IsToken(x)
    {
      var j :| 0 <= j < |parts| && parts[j] == x;
      TokenShape(x);
    }
  }

  // ---- Content of the tokens ----

  lemma {:induction false} FlattenNonEmpty(parts: seq<string>)
    ensures Flatten(NonEmpty(parts)) == Flatten(parts)
  {
    if parts != [] {
      FlattenNonEmpty(parts[1..]);
      FlattenAppend(if parts[0] != "" then [parts[0]] else [], NonEmpty(parts[1..]));
      FlattenAppend([parts[0]], parts[1..]);
      assert parts == [parts[0]] + parts[1..];
    }
  }

  lemma {:induction false} FlattenSplit(v: string)
    ensures Flatten(SplitSpaces(v)) == RemoveSpaces(v)
  {
    if v != [] {
      var rest := SplitSpaces(v[1..]);
      FlattenSplit(v[1..]);
      assert rest == [rest[0]] + rest[1..];
      FlattenAppend([rest[0]], rest[1..]);
      if v[0] == ' ' {
        FlattenAppend([""], rest);
      } else {
        FlattenAppend([[v[0]] + rest[0]], rest[1..]);
      }
    }
  }

  lemma SanitizeContent(rewritten: string)
    ensures Flatten(NonEmpty(SplitSpaces(CollapseRuns(NotSpace, PadDots(CollapseRuns(IsMarkovChar, rewritten, false)), false))))
         == Filter(IsMarkovChar, rewritten)
  {
    var stripped := CollapseRuns(IsMarkovChar, rewritten, false);
    var padded := PadDots(stripped);
    var single := CollapseRuns(NotSpace, padded, false);
    FlattenNonEmpty(SplitSpaces(single));
    FlattenSplit(single);
    CollapseRunsThenRemoveSpaces(NotSpace, padded, false);
    CollapseRunsThenRemoveSpaces(IsMarkovChar, rewritten, false);
  }

  // ---- Where the tokens split ----

  /** `filter(bool, v.split(" "))`: the words between spaces. */
  function Words(v: string): seq<string>
  {
    NonEmpty(SplitSpaces(v))
  }

  /** Every character outside `keep` replaced by one space. */
  function Blank(keep: char -> bool, s: string): string
  {
    if s == [] then [] else [if keep(s[0]) then s[0] else ' '] + Blank(keep, s[1..])
  }

  /** The length of the run of lower-case letters that starts `s`. */
  function LetterRun(s: string): (n: nat)
    ensures n <= |s|
    ensures forall i :: 0 <= i < n ==> IsLowerLetter(s[i])
    ensures n < |s| ==> !IsLowerLetter(s[n])
    ensures s != [] && IsLowerLetter(s[0]) ==> n > 0
  {
    if s == [] || !IsLowerLetter(s[0]) then 0 else 1 + LetterRun(s[1..])
  }

  /** The reference tokenizer: the maximal runs of lower-case letters and the
      single dots, in order of appearance; any other character only
      separates tokens. */
  function Lex(s: string): seq<string>
    decreases |s|
  {
    if s == [] then []
    else if s[0] == '.' then [Delimiter] + Lex(s[1..])
    else if IsLowerLetter(s[0]) then [s[..LetterRun(s)]] + Lex(s[LetterRun(s)..])
    else Lex(s[1..])
  }

  lemma {:induction false} SplitAppend(x: string, y: string)
    ensures SplitSpaces(x + " " + y) == SplitSpaces(x) + SplitSpaces(y)
  {
    var z := x + " " + y;
    if x == [] {
      assert z[0] == ' ' && z[1..] == y;
      assert SplitSpaces(z) == [""] + SplitSpaces(y);
      assert SplitSpaces(x) == [""];
    } else {
      assert z[0] == x[0] && z[1..] == x[1..] + " " + y;
      SplitAppend(x[1..], y);
      var rest, tail := SplitSpaces(x[1..]), SplitSpaces(y);
      var both := SplitSpaces(z[1..]);
      assert both == rest + tail;
      if x[0] == ' ' {
        assert SplitSpaces(z) == [""] + both;
        assert SplitSpaces(x) == [""] + rest;
        ConcatAssoc([""], rest, tail);
      } else {
        assert SplitSpaces(z) == [[x[0]] + both[0]] + both[1..];
        assert SplitSpaces(x) == [[x[0]] + rest[0]] + rest[1..];
        assert both[0] == rest[0] && both[1..] == rest[1..] + tail;
        ConcatAssoc([[x[0]] + rest[0]], rest[1..], tail);
      }
    }
  }

  lemma {:induction false} NonEmptyAppend(a: seq<string>, b: seq<string>)
    ensures NonEmpty(a + b) == NonEmpty(a) + NonEmpty(b)
  {
    if a == [] {
      assert a + b == b;
    } else {
      NonEmptyAppend(a[1..], b);
      assert (a + b)[0] == a[0] && (a + b)[1..] == a[1..] + b;
      if a[0] != "" {
        ConcatAssoc([a[0]], NonEmpty(a[1..]), NonEmpty(b));
      }
    }
  }

  /** A space splits the words: those before it, then those after it. */
  lemma WordsSplit(x: string, y: string)
    ensures Words(x + " " + y) == Words(x) + Words(y)
  {
    SplitAppend(x, y);
    NonEmptyAppend(SplitSpaces(x), SplitSpaces(y));
  }

  lemma {:induction false} SplitSpaceFree(a: string)
    requires ' ' !in a
    ensures SplitSpaces(a) == [a]
  {
    if a != [] {
      assert ' ' !in a[1..] by {
        forall i | 0 <= i < |a[1..]|
          ensures a[1..][i] != ' '
        {
          assert a[1..][i] == a[i + 1];
        }
      }
      SplitSpaceFree(a[1..]);
      assert a[0] != ' ' by {
        assert a[0] in a;
      }
      assert SplitSpaces(a) == [[a[0]] + a[1..]] + [a[1..]][1..];
      assert [a[0]] + a[1..] == a;
    }
  }

  lemma {:induction false} BlankAppend(keep: char -> bool, a: string, b: string)
    ensures Blank(keep, a + b) == Blank(keep, a) + Blank(keep, b)
  {
    if a == [] {
      assert a + b == b;
    } else {
      BlankAppend(keep, a[1..], b);
      assert (a + b)[0] == a[0] && (a + b)[1..] == a[1..] + b;
      ConcatAssoc([if keep(a[0]) then a[0] else ' '], Blank(keep, a[1..]), Blank(keep, b));
    }
  }

  lemma {:induction false} BlankKeeps(keep: char -> bool, s: string)
    requires AllSatisfy(s, keep)
    ensures Blank(keep, s) == s
  {
    if s != [] {
      assert AllSatisfy(s[1..], keep) by {
        forall i | 0 <= i < |s[1..]|
          ensures keep(s[1..][i])
        {
          assert s[1..][i] == s[i + 1];
        }
      }
      BlankKeeps(keep, s[1..]);
    }
  }

  lemma {:induction false} BlankSpaces(v: string)
    ensures Blank(NotSpace, v) == v
  {
    if v != [] {
      BlankSpaces(v[1..]);
    }
  }

  lemma {:induction false} PadDotsAppend(a: string, b: string)
    ensures PadDots(a + b) == PadDots(a) + PadDots(b)
  {
    if a == [] {
      assert a + b == b;
    } else {
      var head := if a[0] == '.' then " . " else [a[0]];
      assert (a + b)[0] == a[0] && (a + b)[1..] == a[1..] + b;
      assert PadDots(a + b) == head + PadDots(a[1..] + b);
      PadDotsAppend(a[1..], b);
      ConcatAssoc(head, PadDots(a[1..]), PadDots(b));
    }
  }

  lemma {:induction false} PadDotsLetters(s: string)
    requires AllSatisfy(s, IsLowerLetter)
    ensures PadDots(s) == s
  {
    if s != [] {
      assert AllSatisfy(s[1..], IsLowerLetter) by {
        forall i | 0 <= i < |s[1..]|
          ensures IsLowerLetter(s[1..][i])
        {
          assert s[1..][i] == s[i + 1];
        }
      }
      PadDotsLetters(s[1..]);
    }
  }

  lemma PadDotsSpace(x: string, y: string)
    ensures PadDots(x + " " + y) == PadDots(x) + " " + PadDots(y)
  {
    assert PadDots(" ") == " " by {
      assert " "[0] == ' ' && " "[1..] == [];
    }
    PadDotsAppend(x, " ");
    PadDotsAppend(x + " ", y);
  }

  /** The words of a text after an optional padding of its dots. */
  function Spread(v: string, pad: bool): seq<string>
  {
    Words(if pad then PadDots(v) else v)
  }

  lemma SpreadSplit(x: string, y: string, pad: bool)
    ensures Spread(x + " " + y, pad) == Spread(x, pad) + Spread(y, pad)
  {
    if pad {
      PadDotsSpace(x, y);
      WordsSplit(PadDots(x), PadDots(y));
    } else {
      WordsSplit(x, y);
    }
  }

  lemma SpreadAfterSpace(pending: string, x: string, pad: bool)
    ensures Spread(pending + (" " + x), pad) == Spread(pending, pad) + Spread(x, pad)
  {
    ConcatAssoc(pending, " ", x);
    SpreadSplit(pending, x, pad);
  }

  lemma SpreadEmpty(pad: bool)
    ensures Spread([], pad) == []
  {
    assert PadDots([]) == [];
    WordsEmpty();
  }

  /** Squeezing each run of characters outside `keep` to one space words the
      text as replacing each such character by a space does. `pending` is the
      text already produced; inside a run it is empty. */
  lemma {:induction false} CollapseRunsSpread(keep: char -> bool, pending: string, v: string, inRun: bool, pad: bool)
    requires !keep(' ')
    requires inRun ==> pending == []
    ensures Spread(pending + CollapseRuns(keep, v, inRun), pad) == Spread(pending + Blank(keep, v), pad)
    decreases |v|
  {
    if v == [] {
    } else if keep(v[0]) {
      CollapseRunsSpread(keep, pending + [v[0]], v[1..], false, pad);
      ConcatAssoc(pending, [v[0]], CollapseRuns(keep, v[1..], false));
      ConcatAssoc(pending, [v[0]], Blank(keep, v[1..]));
    } else {
      var c, b := CollapseRuns(keep, v[1..], true), Blank(keep, v[1..]);
      CollapseRunsSpread(keep, [], v[1..], true, pad);
      assert [] + c == c && [] + b == b;
      assert Blank(keep, v) == " " + b;
      SpreadAfterSpace(pending, b, pad);
      if inRun {
        assert CollapseRuns(keep, v, inRun) == c;
        SpreadEmpty(pad);
      } else {
        assert CollapseRuns(keep, v, inRun) == " " + c;
        SpreadAfterSpace(pending, c, pad);
      }
    }
  }

  /** The padded, blanked form of `s`. */
  function Padded(s: string): string
  {
    PadDots(Blank(IsMarkovChar, s))
  }

  /** How the padded form begins: a dot becomes " . ", any other character
      outside `[.a-z]` a space, and a run of letters stays as it is. */
  lemma PaddedCons(s: string)
    requires s != []
    ensures s[0] == '.' ==> Padded(s) == " . " + Padded(s[1..])
    ensures !IsMarkovChar(s[0]) ==> Padded(s) == " " + Padded(s[1..])
    ensures IsLowerLetter(s[0]) ==> Padded(s) == s[..LetterRun(s)] + Padded(s[LetterRun(s)..])
  {
    if IsLowerLetter(s[0]) {
      PaddedWord(s);
    } else {
      PaddedOther(s);
    }
  }

  lemma PaddedWord(s: string)
    requires s != [] && IsLowerLetter(s[0])
    ensures Padded(s) == s[..LetterRun(s)] + Padded(s[LetterRun(s)..])
  {
    var n := LetterRun(s);
    var word, tail := s[..n], s[n..];
    assert s == word + tail;
    BlankAppend(IsMarkovChar, word, tail);
    assert AllSatisfy(word, IsMarkovChar) by {
      forall i | 0 <= i < |word|
        ensures IsMarkovChar(word[i])
      {
        assert IsLowerLetter(s[i]);
      }
    }
    BlankKeeps(IsMarkovChar, word);
    PadDotsAppend(word, Blank(IsMarkovChar, tail));
    assert AllSatisfy(word, IsLowerLetter) by {
      forall i | 0 <= i < |word|
        ensures IsLowerLetter(word[i])
      {
        assert IsLowerLetter(s[i]);
      }
    }
    PadDotsLetters(word);
  }

  lemma PaddedOther(s: string)
    requires s != [] && !IsLowerLetter(s[0])
    ensures s[0] == '.' ==> Padded(s) == " . " + Padded(s[1..])
    ensures s[0] != '.' ==> Padded(s) == " " + Padded(s[1..])
  {
    var c: char := if s[0] == '.' then '.' else ' ';
    var rest := Blank(IsMarkovChar, s[1..]);
    assert Blank(IsMarkovChar, s) == [c] + rest;
    PadDotsAppend([c], rest);
    assert [c][0] == c && [c][1..] == [];
    assert PadDots([c]) == (if c == '.' then " . " else [c]) + PadDots([]);
  }

  lemma WordsEmpty()
    ensures Words([]) == []
  {
    assert SplitSpaces([]) == [""];
  }

  lemma WordsLeadingSpace(t: string)
    ensures Words(" " + t) == Words(t)
  {
    WordsSplit([], t);
    assert [] + " " + t == " " + t;
    WordsEmpty();
  }

  lemma WordsWordThen(w: string, t: string)
    requires w != [] && ' ' !in w
    ensures Words(w + " " + t) == [w] + Words(t)
  {
    WordsSplit(w, t);
    SplitSpaceFree(w);
    NonEmptySingle(w);
  }

  lemma NonEmptySingle(w: string)
    requires w != []
    ensures NonEmpty([w]) == [w]
  {
    assert [w][0] == w && [w][1..] == [];
    assert NonEmpty([w]) == [w] + NonEmpty([]);
  }

  lemma WordsWord(w: string)
    requires w != [] && ' ' !in w
    ensures Words(w) == [w]
  {
    SplitSpaceFree(w);
    NonEmptySingle(w);
  }

  /** The padded text of a line starting with a separator or a dot starts
      with a space. */
  lemma PaddedStartsWithSpace(t: string)
    requires t != [] && !IsLowerLetter(t[0])
    ensures Padded(t) == " " + Padded(t)[1..]
  {
    PaddedCons(t);
  }

  lemma LetterRunNoSpace(s: string)
    ensures ' ' !in s[..LetterRun(s)]
  {
    var n := LetterRun(s);
    forall i | 0 <= i < n
      ensures s[..n][i] != ' '
    {
      assert IsLowerLetter(s[i]);
    }
  }

  /** The padded, blanked text words exactly as the reference tokenizer reads
      the original. */
  lemma {:induction false} WordsLex(s: string)
    ensures Words(Padded(s)) == Lex(s)
    decreases |s|
  {
    if s == [] {
      WordsEmpty();
    } else if s[0] == '.' {
      WordsLex(s[1..]);
      WordsLexDot(s);
    } else if IsLowerLetter(s[0]) {
      WordsLex(s[LetterRun(s)..]);
      WordsLexWord(s);
    } else {
      WordsLex(s[1..]);
      PaddedOther(s);
      WordsLeadingSpace(Padded(s[1..]));
    }
  }

  lemma WordsLexDot(s: string)
    requires s != [] && s[0] == '.'
    ensures Words(Padded(s)) == [Delimiter] + Words(Padded(s[1..]))
  {
    var t := Padded(s[1..]);
    PaddedOther(s);
    assert " . " + t == " " + ("." + " " + t);
    WordsLeadingSpace("." + " " + t);
    WordsWordThen(".", t);
  }

  lemma WordsLexWord(s: string)
    requires s != [] && IsLowerLetter(s[0])
    ensures Words(Padded(s)) == [s[..LetterRun(s)]] + Words(Padded(s[LetterRun(s)..]))
  {
    var n := LetterRun(s);
    var word, tail := s[..n], s[n..];
    PaddedWord(s);
    LetterRunNoSpace(s);
    if tail == [] {
      assert Padded(tail) == [];
      assert Padded(s) == word;
      WordsWord(word);
      WordsEmpty();
    } else {
      PaddedStartsWithSpace(tail);
      var rest := Padded(tail)[1..];
      ConcatAssoc(word, " ", rest);
      WordsWordThen(word, rest);
      WordsLeadingSpace(rest);
    }
  }

  /** Squeezing runs of spaces does not change the words. */
  lemma SqueezeKeepsWords(v: string)
    ensures Words(CollapseRuns(NotSpace, v, false)) == Words(v)
  {
    CollapseRunsSpread(NotSpace, [], v, false, false);
    BlankSpaces(v);
    assert [] + CollapseRuns(NotSpace, v, false) == CollapseRuns(NotSpace, v, false);
    assert [] + v == v;
  }

  /** Squeezing each run outside `[.a-z]` to one space words the padded text
      as blanking each such character does. */
  lemma StripKeepsWords(s: string)
    ensures Words(PadDots(CollapseRuns(IsMarkovChar, s, false))) == Words(Padded(s))
  {
    CollapseRunsSpread(IsMarkovChar, [], s, false, true);
    assert [] + CollapseRuns(IsMarkovChar, s, false) == CollapseRuns(IsMarkovChar, s, false);
    assert [] + Blank(IsMarkovChar, s) == Blank(IsMarkovChar, s);
  }

  /** The cleanup of `sanitize` after the rewrites tokenizes as the reference does. */
  lemma SanitizeLexes(rewritten: string)
    ensures NonEmpty(SplitSpaces(CollapseRuns(NotSpace, PadDots(CollapseRuns(IsMarkovChar, rewritten, false)), false)))
         == Lex(rewritten)
  {
    SqueezeKeepsWords(PadDots(CollapseRuns(IsMarkovChar, rewritten, false)));
    StripKeepsWords(rewritten);
    WordsLex(rewritten);
  }

  lemma PaddedAppend(a: string, b: string)
    ensures Padded(a + b) == Padded(a) + Padded(b)
  {
    BlankAppend(IsMarkovChar, a, b);
    PadDotsAppend(Blank(IsMarkovChar, a), Blank(IsMarkovChar, b));
  }

  lemma PaddedAround(x: string, c: char, y: string)
    ensures !IsMarkovChar(c) ==> Padded(x + [c] + y) == Padded(x) + " " + Padded(y)
    ensures c == '.' ==> Padded(x + [c] + y) == Padded(x) + " . " + Padded(y)
  {
    PaddedAppend(x + [c], y);
    PaddedAppend(x, [c]);
    assert [c][0] == c && [c][1..] == [];
    assert Padded([]) == [];
    if !IsLowerLetter(c) {
      PaddedOther([c]);
    }
  }

  /** Any character outside `[.a-z]` splits the tokens: those of the text
      before it, then those of the text after it. */
  lemma LexSeparates(x: string, c: char, y: string)
    requires !IsMarkovChar(c)
    ensures Lex(x + [c] + y) == Lex(x) + Lex(y)
  {
    PaddedAround(x, c, y);
    WordsSplit(Padded(x), Padded(y));
    WordsLex(x + [c] + y);
    WordsLex(x);
    WordsLex(y);
  }

  /** A dot is a token of its own, whatever surrounds it. */
  lemma LexDot(x: string, y: string)
    ensures Lex(x + "." + y) == Lex(x) + [Delimiter] + Lex(y)
  {
    assert x + "." + y == x + ['.'] + y;
    PaddedAround(x, '.', y);
    WordsAroundDot(Padded(x), Padded(y));
    WordsLex(x + "." + y);
    WordsLex(x);
    WordsLex(y);
  }

  lemma WordsAroundDot(px: string, py: string)
    ensures Words(px + " . " + py) == Words(px) + [Delimiter] + Words(py)
  {
    var rest := "." + " " + py;
    assert " . " + py == " " + rest;
    ConcatAssoc(px, " . ", py);
    ConcatAssoc(px, " ", rest);
    WordsSplit(px, rest);
    WordsWordThen(".", py);
  }

  /** A non-empty run of letters is one token. */
  lemma LexWord(w: string)
    requires w != [] && AllSatisfy(w, IsLowerLetter)
    ensures Lex(w) == [w]
  {
    assert AllSatisfy(w, IsMarkovChar) by {
      forall i | 0 <= i < |w|
        ensures IsMarkovChar(w[i])
      {
        assert IsLowerLetter(w[i]);
      }
    }
    BlankKeeps(IsMarkovChar, w);
    PadDotsLetters(w);
    assert ' ' !in w by {
      forall i | 0 <= i < |w|
        ensures w[i] != ' '
      {
        assert IsLowerLetter(w[i]);
      }
    }
    WordsWord(w);
    WordsLex(w);
  }

  // ---- Delimiters ----

  /** Over well-formed tokens, the dots of the concatenation are the delimiter tokens. */
  lemma {:induction false} DotsAreDelimiters(ts: seq<string>)
    requires forall i :: 0 <= i < |ts| ==> IsToken(ts[i])
    ensures Occurrences('.', Flatten(ts)) == multiset(ts)[Delimiter]
  {
    if ts != [] {
      DotsAreDelimiters(ts[1..]);
      assert ts == [ts[0]] + ts[1..];
      OccurrencesAppend('.', ts[0], Flatten(ts[1..]));
      if ts[0] != Delimiter {
        assert '.' !in ts[0];
        AbsentOccurrences('.', ts[0]);
      }
    }
  }

  /** `sanitize` yields one delimiter per dot left in the rewritten line: a
      dot is a sentence end exactly when no abbreviation rule consumed it. */
  lemma DelimiterCount(line: string)
    ensures multiset(Sanitize(line))[Delimiter] == Occurrences('.', Rewritten(line))
  {
    DotsAreDelimiters(Sanitize(line));
    FilterKeepsOccurrences(IsMarkovChar, '.', Rewritten(line));
  }

  /** A rule whose replacement has no more dots than its pattern never adds dots. */
  lemma {:induction false} ReplaceAllDots(s: string, pat: string, rep: string)
    requires pat != ""
    requires Occurrences('.', rep) <= Occurrences('.', pat)
    ensures Occurrences('.', ReplaceAll(s, pat, rep)) <= Occurrences('.', s)
    decreases |s|
  {
    if |s| >= |pat| {
      if s[..|pat|] == pat {
        ReplaceAllDots(s[|pat|..], pat, rep);
        OccurrencesAppend('.', rep, ReplaceAll(s[|pat|..], pat, rep));
        assert s == pat + s[|pat|..];
        OccurrencesAppend('.', pat, s[|pat|..]);
      } else {
        ReplaceAllDots(s[1..], pat, rep);
        OccurrencesAppend('.', [s[0]], ReplaceAll(s[1..], pat, rep));
      }
    }
  }

  predicate NeverAddsDots(rules: seq<(string, string)>)
  {
    forall i :: 0 <= i < |rules| ==> Occurrences('.', rules[i].1) <= Occurrences('.', rules[i].0)
  }

  lemma {:induction false} RewriteDots(s: string, rules: seq<(string, string)>)
    requires PatternsNonEmpty(rules) && NeverAddsDots(rules)
    ensures Occurrences('.', Rewrite(s, rules)) <= Occurrences('.', s)
    decreases rules
  {
    if rules != [] {
      ReplaceAllDots(s, rules[0].0, rules[0].1);
      RewriteDots(ReplaceAll(s, rules[0].0, rules[0].1), rules[1..]);
    }
  }

  lemma {:induction false} LowerKeepsDots(s: string)
    ensures Occurrences('.', Lower(s)) == Occurrences('.', s)
  {
    if s != [] {
      LowerKeepsDots(s[1..]);
      assert Lower(s)[1..] == Lower(s[1..]);
    }
  }

  /** No replacement of `weird_words` holds a dot. */
  lemma WeirdWordsRemoveDots()
    ensures NeverAddsDots(WeirdWords)
  {
    forall i | 0 <= i < |WeirdWords|
      ensures Occurrences('.', WeirdWords[i].1) <= Occurrences('.', WeirdWords[i].0)
    {
      var rep := WeirdWords[i].1;
      assert rep == "ie " || rep == "eg " || rep == "etc" || rep == "";
      AbsentOccurrences('.', rep);
    }
  }

  lemma RewrittenDots(s: string)
    ensures Occurrences('.', Rewrite(s, WeirdWords)) <= Occurrences('.', s)
  {
    WeirdWordsRemoveDots();
    RewriteDots(s, WeirdWords);
  }

  /** Every abbreviation rule removes dots, so a line never yields more
      delimiters than it has dots. */
  lemma DelimitersBoundedByDots(line: string)
    ensures multiset(Sanitize(line))[Delimiter] <= Occurrences('.', line)
  {
    DelimiterCount(line);
    RewrittenDots(Lower(line));
    LowerKeepsDots(line);
  }

  /** The dot of "etc." is not a sentence end. */
  lemma AbbreviationIsNotDelimiter()
    ensures Occurrences('.', "etc.") == 1
    ensures multiset(Sanitize("etc."))[Delimiter] == 0
  {
    assert Occurrences('.', "etc.") == 1 by {
      assert "etc."[1..] == "tc." && "tc."[1..] == "c." && "c."[1..] == "." && "."[1..] == [];
    }
    EtcRewritten();
    DelimiterCount("etc.");
    assert Occurrences('.', "etc") == 0 by {
      assert "etc"[1..] == "tc" && "tc"[1..] == "c" && "c"[1..] == [];
    }
  }

  /** The abbreviation rule for "etc." consumes its dot. */
  lemma EtcRewritten()
    ensures Rewritten("etc.") == "etc"
  {
    var s := "etc.";
    assert Lower(s) == s by {
      assert forall i :: 0 <= i < |s| ==> LowerChar(s[i]) == s[i];
    }
    var rules := WeirdWords;
    assert ReplaceAll(s, rules[0].0, rules[0].1) == s;
    assert ReplaceAll(s, rules[1].0, rules[1].1) == s;
    assert s[..|rules[2].0|] == rules[2].0;
    assert s[|rules[2].0|..] == [];
    assert ReplaceAll(s, rules[2].0, rules[2].1) == "etc" + ReplaceAll([], rules[2].0, rules[2].1);
    var t := "etc";
    assert ReplaceAll(s, rules[2].0, rules[2].1) == t;
    assert ReplaceAll(t, rules[3].0, rules[3].1) == t;
    assert ReplaceAll(t, rules[4].0, rules[4].1) == t;
    assert ReplaceAll(t, rules[5].0, rules[5].1) == t;
    assert Rewrite(t, rules[6..]) == t;
    assert rules[5..][1..] == rules[6..];
    assert Rewrite(t, rules[5..]) == t;
    assert rules[4..][1..] == rules[5..];
    assert Rewrite(t, rules[4..]) == t;
    assert rules[3..][1..] == rules[4..];
    assert Rewrite(t, rules[3..]) == t;
    assert rules[2..][0] == rules[2] && rules[2..][1..] == rules[3..];
    assert Rewrite(s, rules[2..]) == t;
    assert rules[1..][1..] == rules[2..];
    assert Rewrite(s, rules[1..]) == t;
  }
}
