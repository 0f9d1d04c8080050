/** Characters and strings: ASCII case mapping, `str.capitalize`, and the
    character filters that the regular-expression rewrites of both scripts
    amount to. */
module Text {
  import opened Seqs

  predicate IsUpper(c: char) { 'A' <= c <= 'Z' }

  predicate IsLowerLetter(c: char) { 'a' <= c <= 'z' }

  predicate IsDigit(c: char) { '0' <= c <= '9' }

  predicate NotSpace(c: char) { c != ' ' }

  /** `str.lower()` on one character, restricted to ASCII. */
  function LowerChar(c: char): char
  {
    if IsUpper(c) then (c as int + 32) as char else c
  }

  /** `str.upper()` on one character, restricted to ASCII. */
  function UpperChar(c: char): char
  {
    if IsLowerLetter(c) then (c as int - 32) as char else c
  }

  function Lower(s: string): string
  {
    seq(|s|, i requires 0 <= i < |s| => LowerChar(s[i]))
  }

  /** `str.capitalize()`: the first character upper-cased, the rest lower-cased. */
  function Capitalize(w: string): string
  {
    if w == "" then "" else [UpperChar(w[0])] + Lower(w[1..])
  }

  /** The characters of `s` that satisfy `keep`, in order. */
  function Filter(keep: char -> bool, s: string): string
  {
    if s == [] then [] else (if keep(s[0]) then [s[0]] else []) + Filter(keep, s[1..])
  }

  /** `re.sub(" +", "", s)`: every space deleted. */
  function RemoveSpaces(s: string): string
  {
    Filter(NotSpace, s)
  }

  /** Number of occurrences of `c` in `s`. */
  function Occurrences(c: char, s: string): nat
  {
    if s == [] then 0 else (if s[0] == c then 1 else 0) + Occurrences(c, s[1..])
  }

  /** `re.sub("[^<class>]+", " ", s)` where `keep` is the class: every maximal
      run of characters outside the class becomes one space. `inRun` says that
      the character before `s` was already outside the class. */
  function CollapseRuns(keep: char -> bool, s: string, inRun: bool): string
  {
    if s == [] then []
    else if keep(s[0]) then [s[0]] + CollapseRuns(keep, s[1..], false)
    else (if inRun then [] else " ") + CollapseRuns(keep, s[1..], true)
  }

  predicate AllSatisfy(s: string, ok: char -> bool)
  {
    forall i :: 0 <= i < |s| ==> ok(s[i])
  }

  lemma LowerAppend(a: string, b: string)
    ensures Lower(a + b) == Lower(a) + Lower(b)
  {
  }

  lemma {:induction false} FilterAppend(keep: char -> bool, a: string, b: string)
    ensures Filter(keep, a + b) == Filter(keep, a) + Filter(keep, b)
  {
    if a == [] {
      assert a + b == b;
    } else {
      var head := if keep(a[0]) then [a[0]] else [];
      assert (a + b)[0] == a[0];
      assert (a + b)[1..] == a[1..] + b;
      assert Filter(keep, a + b) == head + Filter(keep, a[1..] + b);
      FilterAppend(keep, a[1..], b);
      ConcatAssoc(head, Filter(keep, a[1..]), Filter(keep, b));
    }
  }

  lemma {:induction false} OccurrencesAppend(c: char, a: string, b: string)
    ensures Occurrences(c, a + b) == Occurrences(c, a) + Occurrences(c, b)
  {
    if a == [] {
      assert a + b == b;
    } else {
      assert (a + b)[1..] == a[1..] + b;
      OccurrencesAppend(c, a[1..], b);
    }
  }

  /** Filtering never drops a character that is kept. */
  lemma {:induction false} FilterKeepsOccurrences(keep: char -> bool, c: char, s: string)
    requires keep(c)
    ensures Occurrences(c, Filter(keep, s)) == Occurrences(c, s)
  {
    if s != [] {
      FilterKeepsOccurrences(keep, c, s[1..]);
      OccurrencesAppend(c, if keep(s[0]) then [s[0]] else [], Filter(keep, s[1..]));
    }
  }

  /** The result of a filter is over the kept alphabet. */
  lemma {:induction false} FilterSatisfies(keep: char -> bool, s: string)
    ensures AllSatisfy(Filter(keep, s), keep)
  {
    if s != [] {
      FilterSatisfies(keep, s[1..]);
    }
  }

  /** A string already over the kept alphabet is its own filter. */
  lemma {:induction false} FilterIdentity(keep: char -> bool, s: string)
    requires AllSatisfy(s, keep)
    ensures Filter(keep, s) == s
  {
    if s != [] {
      FilterIdentity(keep, s[1..]);
    }
  }

  /** A character that does not occur is counted zero times. */
  lemma {:induction false} AbsentOccurrences(c: char, s: string)
    requires c !in s
    ensures Occurrences(c, s) == 0
  {
    if s != [] {
      assert s[0] in s;
      AbsentOccurrences(c, s[1..]);
    }
  }

  /** Case mapping and deleting spaces commute. */
  lemma {:induction false} LowerRemoveSpaces(s: string)
    ensures Lower(RemoveSpaces(s)) == RemoveSpaces(Lower(s))
  {
    if s != [] {
      LowerRemoveSpaces(s[1..]);
      assert Lower(s)[1..] == Lower(s[1..]);
      LowerAppend(if s[0] != ' ' then [s[0]] else [], RemoveSpaces(s[1..]));
    }
  }

  /** Capitalising changes only case. */
  lemma CapitalizeLower(w: string)
    ensures Lower(Capitalize(w)) == Lower(w)
  {
    if w != "" {
      LowerAppend([UpperChar(w[0])], Lower(w[1..]));
      assert w == [w[0]] + w[1..];
      LowerAppend([w[0]], w[1..]);
      assert forall i :: 0 <= i < |w| - 1 ==> LowerChar(LowerChar(w[1..][i])) == LowerChar(w[1..][i]);
    }
  }

  /** Replacing each run of characters outside the class by a space and then
      deleting every space leaves exactly the characters of the class, provided
      the space itself is outside the class. */
  lemma {:induction false} CollapseRunsThenRemoveSpaces(keep: char -> bool, s: string, inRun: bool)
    requires !keep(' ')
    ensures RemoveSpaces(CollapseRuns(keep, s, inRun)) == Filter(keep, s)
  {
    if s != [] {
      var rest := CollapseRuns(keep, s[1..], !keep(s[0]));
      CollapseRunsThenRemoveSpaces(keep, s[1..], !keep(s[0]));
      if keep(s[0]) {
        FilterAppend(NotSpace, [s[0]], rest);
      } else {
        FilterAppend(NotSpace, if inRun then [] else " ", rest);
      }
    }
  }

  /** Collapsing runs only ever introduces spaces. */
  lemma {:induction false} CollapseRunsAlphabet(keep: char -> bool, s: string, inRun: bool, ok: char -> bool)
    requires AllSatisfy(s, ok) && ok(' ')
    ensures AllSatisfy(CollapseRuns(keep, s, inRun), ok)
  {
    if s != [] {
      CollapseRunsAlphabet(keep, s[1..], keep(s[0]) == false, ok);
    }
  }

  /** The letters of a rendering, ignoring case and spaces. */
  function Key(s: string): string
  {
    Lower(RemoveSpaces(s))
  }

  lemma KeyAppend(a: string, b: string)
    ensures Key(a + b) == Key(a) + Key(b)
  {
    FilterAppend(NotSpace, a, b);
    LowerAppend(RemoveSpaces(a), RemoveSpaces(b));
  }

  lemma KeyCapitalize(w: string)
    ensures Key(Capitalize(w)) == Key(w)
  {
    LowerRemoveSpaces(Capitalize(w));
    CapitalizeLower(w);
    LowerRemoveSpaces(w);
  }

  lemma NoSpaceCapitalize(w: string)
    requires ' ' !in w
    ensures ' ' !in Capitalize(w)
  {
    if w != "" {
      assert forall i :: 0 <= i < |w| - 1 ==> w[1..][i] != ' ';
    }
  }
}
