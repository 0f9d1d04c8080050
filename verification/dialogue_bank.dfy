/** dialogue.py, `n_gram`: a bank built clause by clause, the window
    restarting at every clause. */
module DialogueBank {
  import opened Seqs
  import opened Sliding
  import opened DialogueText

  /** `defaultdict(list)`: each prefix maps to the successors recorded after
      it, in recording order. */
  type Bank = map<Prefix, seq<Token>>

  /** `bank[p]`, reading a missing prefix as the empty list. */
  function Successors(bank: Bank, p: Prefix): seq<Token>
  {
    if p in bank then bank[p] else []
  }

  /** `bank[tuple(prefix)].append(word)`. */
  function Record(bank: Bank, p: Prefix, w: Token): Bank
  {
    bank[p := Successors(bank, p) + [w]]
  }

  /** The windows of every clause, clause after clause; no window spans two clauses. */
  function AllWindows(clauses: seq<Clause>, k: nat): seq<Window>
  {
    if clauses == [] then [] else Windows(clauses[0], k) + AllWindows(clauses[1..], k)
  }

  /** Every key holds k tokens and at least one successor. */
  predicate WellFormed(bank: Bank, k: nat)
  {
    forall p :: p in bank ==> |p| == k && bank[p] != []
  }

  /** The loop over clauses, from a given bank. */
  function NGramFrom(bank: Bank, clauses: seq<Clause>, k: nat): Bank
    decreases clauses
  {
    if clauses == [] then bank
    else NGramFrom(FeedSequence(bank, Record, clauses[0], k), clauses[1..], k)
  }

  /** `n_gram(clauses, n)`. Every key has n-1 tokens and a non-empty list,
      and the list of a prefix is exactly the successors of its occurrences
      inside the clauses, in corpus order. `n` below 1 makes the source's
      `islice` and `deque` raise. */
  function NGram(clauses: seq<Clause>, n: int): (bank: Bank)
    requires n >= 1
    ensures WellFormed(bank, n - 1)
    ensures forall p :: Successors(bank, p) == SuccessorsIn(AllWindows(clauses, n - 1), p)
  {
    NGramFromCharacterised(map[], clauses, n - 1);
    NGramFrom(map[], clauses, n - 1)
  }

  lemma {:induction false} FoldRecord(bank: Bank, ws: seq<Window>, p: Prefix)
    ensures Successors(FoldWindows(bank, Record, ws), p) == Successors(bank, p) + SuccessorsIn(ws, p)
    decreases ws
  {
    if ws != [] {
      var bank' := Record(bank, ws[0].0, ws[0].1);
      FoldRecord(bank', ws[1..], p);
      var head: seq<Token> := if ws[0].0 == p then [ws[0].1] else [];
      assert Successors(bank', p) == Successors(bank, p) + head;
      assert SuccessorsIn(ws, p) == head + SuccessorsIn(ws[1..], p);
      ConcatAssoc(Successors(bank, p), head, SuccessorsIn(ws[1..], p));
    }
  }

  lemma {:induction false} AllWindowsWidth(clauses: seq<Clause>, k: nat)
    ensures forall i :: 0 <= i < |AllWindows(clauses, k)| ==> |AllWindows(clauses, k)[i].0| == k
  {
    if clauses != [] {
      AllWindowsWidth(clauses[1..], k);
      WindowsWidth(clauses[0], k);
    }
  }

  lemma {:induction false} NGramFromWindows(bank: Bank, clauses: seq<Clause>, k: nat)
    ensures NGramFrom(bank, clauses, k) == FoldWindows(bank, Record, AllWindows(clauses, k))
    decreases clauses
  {
    if clauses != [] {
      NGramFromWindows(FeedSequence(bank, Record, clauses[0], k), clauses[1..], k);
      FoldWindowsAppend(bank, Record, Windows(clauses[0], k), AllWindows(clauses[1..], k));
    }
  }

  /** Proof of the contract of `NGram`. */
  lemma NGramFromCharacterised(bank: Bank, clauses: seq<Clause>, k: nat)
    requires WellFormed(bank, k)
    ensures WellFormed(NGramFrom(bank, clauses, k), k)
    ensures forall p :: Successors(NGramFrom(bank, clauses, k), p) == Successors(bank, p) + SuccessorsIn(AllWindows(clauses, k), p)
  {
    NGramFromWindows(bank, clauses, k);
    AllWindowsWidth(clauses, k);
    forall b: Bank, p: Prefix, w: Token | WellFormed(b, k) && |p| == k
      ensures WellFormed(Record(b, p, w), k)
    {
    }
    FoldPreserves(bank, Record, AllWindows(clauses, k), k, b => WellFormed(b, k));
    forall p
      ensures Successors(NGramFrom(bank, clauses, k), p) == Successors(bank, p) + SuccessorsIn(AllWindows(clauses, k), p)
    {
      FoldRecord(bank, AllWindows(clauses, k), p);
    }
  }

  // ---- Total number of recorded successors ----

  /** The number of entries over all lists of the bank. */
  ghost function Total(bank: Bank): nat
  {
    TotalSize(bank, (v: seq<Token>) => |v|)
  }

  /** Σ max(0, |c| - k) over the clauses. */
  function Entries(clauses: seq<Clause>, k: nat): nat
  {
    if clauses == [] then 0
    else (if |clauses[0]| > k then |clauses[0]| - k else 0) + Entries(clauses[1..], k)
  }

  lemma TotalRecord(bank: Bank, p: Prefix, w: Token)
    ensures Total(Record(bank, p, w)) == Total(bank) + 1
  {
    TotalSizeUpdate(bank, (v: seq<Token>) => |v|, p, Successors(bank, p) + [w]);
  }

  lemma {:induction false} AllWindowsCount(clauses: seq<Clause>, k: nat)
    ensures |AllWindows(clauses, k)| == Entries(clauses, k)
  {
    if clauses != [] {
      AllWindowsCount(clauses[1..], k);
      WindowsWidth(clauses[0], k);
    }
  }

  lemma NGramFromTotal(clauses: seq<Clause>, k: nat)
    ensures Total(NGramFrom(map[], clauses, k)) == Entries(clauses, k)
  {
    var empty: Bank := map[];
    TotalSizeEmpty(empty, (v: seq<Token>) => |v|);
    NGramFromWindows(empty, clauses, k);
    forall b: Bank, p: Prefix, w: Token
      ensures Total(Record(b, p, w)) == Total(b) + 1
    {
      TotalRecord(b, p, w);
    }
    FoldGrows(empty, Record, AllWindows(clauses, k), b => Total(b));
    AllWindowsCount(clauses, k);
  }

  /** Each window adds one entry: the bank holds Σ max(0, |c| - (n-1))
      entries, so a clause shorter than n adds nothing. */
  lemma NGramTotal(clauses: seq<Clause>, n: int)
    requires n >= 1
    ensures Total(NGram(clauses, n)) == Entries(clauses, n - 1)
  {
    NGramFromTotal(clauses, n - 1);
  }

  /** Every window of every clause is recorded: with n = k + 1, the token
      at position i >= k of a clause is a successor of the k tokens before it. */
  lemma WindowRecorded(clauses: seq<Clause>, k: nat, j: int, i: int)
    requires 0 <= j < |clauses| && k <= i < |clauses[j]|
    ensures clauses[j][i] in Successors(NGram(clauses, k + 1), clauses[j][i - k..i])
  {
    RecordedIn(NGram(clauses, k + 1), clauses, k, j, i);
  }

  lemma RecordedIn(bank: Bank, clauses: seq<Clause>, k: nat, j: int, i: int)
    requires forall q :: Successors(bank, q) == SuccessorsIn(AllWindows(clauses, k), q)
    requires 0 <= j < |clauses| && k <= i < |clauses[j]|
    ensures clauses[j][i] in Successors(bank, clauses[j][i - k..i])
  {
    WindowInAll(clauses, k, j, i);
  }

  lemma {:induction false} WindowInAll(clauses: seq<Clause>, k: nat, j: int, i: int)
    requires 0 <= j < |clauses| && k <= i < |clauses[j]|
    ensures clauses[j][i] in SuccessorsIn(AllWindows(clauses, k), clauses[j][i - k..i])
  {
    var p := clauses[j][i - k..i];
    if j == 0 {
      var ws := Windows(clauses[0], k);
      assert ws[i - k] == (p, clauses[0][i]);
      assert ws == ws[..i - k] + [ws[i - k]] + ws[i - k + 1..];
      SuccessorsInAppend(ws[..i - k] + [ws[i - k]], ws[i - k + 1..], p);
      SuccessorsInAppend(ws[..i - k], [ws[i - k]], p);
      SuccessorsInAppend(ws, AllWindows(clauses[1..], k), p);
    } else {
      WindowInAll(clauses[1..], k, j - 1, i);
      SuccessorsInAppend(Windows(clauses[0], k), AllWindows(clauses[1..], k), p);
    }
  }

  /** Assembled clauses start with the delimiter, so as soon as one of them
      has n >= 2 tokens the bank has a key starting with the delimiter. */
  lemma DelimiterKeyExists(clauses: seq<Clause>, n: int, j: int)
    requires n >= 2 && 0 <= j < |clauses| && |clauses[j]| >= n && IsAssembled(clauses[j])
    ensures clauses[j][..n - 1] in NGram(clauses, n)
    ensures clauses[j][..n - 1][0] == Delimiter
  {
    WindowRecorded(clauses, n - 1, j, n - 1);
    assert clauses[j][n - 1 - (n - 1)..n - 1] == clauses[j][..n - 1];
  }
}
