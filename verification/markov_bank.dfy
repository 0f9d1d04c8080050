/** simple_markov.py, `n_gram`: a frequency bank built over the whole token
    stream by one sliding window that runs straight across delimiters. */
module MarkovBank {
  import opened Seqs
  import opened Sliding

  /** `defaultdict(Counter)`: each prefix maps to the multiset of the tokens
      observed after it. */
  type Bank = map<Prefix, multiset<string>>

  /** `bank[p]`, reading a missing prefix as the empty counter. */
  function Weights(bank: Bank, p: Prefix): multiset<string>
  {
    if p in bank then bank[p] else multiset{}
  }

  /** `bank[tuple(prefix)].update([word])`. */
  function Record(bank: Bank, p: Prefix, w: string): Bank
  {
    bank[p := Weights(bank, p) + multiset{w}]
  }

  /** Every key holds k tokens and a counter with at least one count. */
  predicate WellFormed(bank: Bank, k: nat)
  {
    forall p :: p in bank ==> |p| == k && bank[p] != multiset{}
  }

  /** `n_gram(words, n)`. Every key has n-1 tokens and a non-empty counter,
      and the counter of a prefix holds each successor as often as the
      window (prefix, successor) occurs in the stream. `n` below 1 makes the
      source's `islice` and `deque` raise. */
  function NGram(words: seq<string>, n: int): (bank: Bank)
    requires n >= 1
    ensures WellFormed(bank, n - 1)
    ensures forall p :: Weights(bank, p) == multiset(SuccessorsIn(Windows(words, n - 1), p))
  {
    NGramCharacterised(words, n - 1);
    FeedSequence(map[], Record, words, n - 1)
  }

  lemma {:induction false} FoldRecord(bank: Bank, ws: seq<Window>, p: Prefix)
    ensures Weights(FoldWindows(bank, Record, ws), p) == Weights(bank, p) + multiset(SuccessorsIn(ws, p))
    decreases ws
  {
    if ws != [] {
      var bank' := Record(bank, ws[0].0, ws[0].1);
      FoldRecord(bank', ws[1..], p);
      var head: seq<string> := if ws[0].0 == p then [ws[0].1] else [];
      assert Weights(bank', p) == Weights(bank, p) + multiset(head);
      assert SuccessorsIn(ws, p) == head + SuccessorsIn(ws[1..], p);
    }
  }

  lemma NGramCharacterised(words: seq<string>, k: nat)
    ensures WellFormed(FeedSequence(map[], Record, words, k), k)
    ensures forall p :: Weights(FeedSequence(map[], Record, words, k), p) == multiset(SuccessorsIn(Windows(words, k), p))
  {
    var empty: Bank := map[];
    WindowsWidth(words, k);
    forall b: Bank, p: Prefix, w: string | WellFormed(b, k) && |p| == k
      ensures WellFormed(Record(b, p, w), k)
    {
    }
    FoldPreserves(empty, Record, Windows(words, k), k, b => WellFormed(b, k));
    forall p
      ensures Weights(FeedSequence(empty, Record, words, k), p) == multiset(SuccessorsIn(Windows(words, k), p))
    {
      FoldRecord(empty, Windows(words, k), p);
    }
  }

  /** The count of w after p is the number of windows (p, w) in the stream. */
  lemma Count(words: seq<string>, n: int, p: Prefix, w: string)
    requires n >= 1
    ensures Weights(NGram(words, n), p)[w] == multiset(Windows(words, n - 1))[(p, w)]
  {
    SuccessorsInCount(Windows(words, n - 1), p, w);
  }

  /** A successor has a positive count exactly when it follows the prefix
      somewhere in the stream, delimiters included: the window is never reset. */
  lemma Observed(words: seq<string>, n: int, p: Prefix, w: string)
    requires n >= 1
    ensures Weights(NGram(words, n), p)[w] > 0 <==>
      exists i :: n - 1 <= i < |words| && words[i - (n - 1)..i] == p && words[i] == w
  {
    var c := multiset(Windows(words, n - 1))[(p, w)];
    Count(words, n, p, w);
    assert Weights(NGram(words, n), p)[w] == c;
    assert c > 0 <==> (p, w) in Windows(words, n - 1);
    WindowOccurs(words, n, p, w);
  }

  lemma WindowOccurs(words: seq<string>, n: int, p: Prefix, w: string)
    requires n >= 1
    ensures (p, w) in Windows(words, n - 1) <==>
      exists i :: n - 1 <= i < |words| && words[i - (n - 1)..i] == p && words[i] == w
  {
    if (p, w) in Windows(words, n - 1) {
      WindowToIndex(words, n - 1, p, w);
    }
    if exists i :: n - 1 <= i < |words| && words[i - (n - 1)..i] == p && words[i] == w {
      IndexToWindow(words, n - 1, p, w);
    }
  }

  lemma WindowToIndex(words: seq<string>, k: nat, p: Prefix, w: string)
    requires (p, w) in Windows(words, k)
    ensures exists i :: k <= i < |words| && words[i - k..i] == p && words[i] == w
  {
    var j :| 0 <= j < |Windows(words, k)| && Windows(words, k)[j] == (p, w);
    WindowAt(words, k, j);
    var i := j + k;
    assert words[i - k..i] == p && words[i] == w;
  }

  lemma IndexToWindow(words: seq<string>, k: nat, p: Prefix, w: string)
    requires exists i :: k <= i < |words| && words[i - k..i] == p && words[i] == w
    ensures (p, w) in Windows(words, k)
  {
    var i :| k <= i < |words| && words[i - k..i] == p && words[i] == w;
    WindowAt(words, k, i - k);
    assert Windows(words, k)[i - k] == (p, w);
  }

  lemma WindowAt(words: seq<string>, k: nat, j: nat)
    requires j + k < |words|
    ensures |Windows(words, k)| == |words| - k
    ensures Windows(words, k)[j] == (words[j..j + k], words[j + k])
  {
  }

  // ---- Total number of counts ----

  /** The sum of all counts of the bank. */
  ghost function Total(bank: Bank): nat
  {
    TotalSize(bank, (v: multiset<string>) => |v|)
  }

  lemma TotalRecord(bank: Bank, p: Prefix, w: string)
    ensures Total(Record(bank, p, w)) == Total(bank) + 1
  {
    TotalSizeUpdate(bank, (v: multiset<string>) => |v|, p, Weights(bank, p) + multiset{w});
  }

  lemma FeedTotal(words: seq<string>, k: nat)
    ensures Total(FeedSequence(map[], Record, words, k)) == if |words| > k then |words| - k else 0
  {
    var empty: Bank := map[];
    TotalSizeEmpty(empty, (v: multiset<string>) => |v|);
    forall b: Bank, p: Prefix, w: string
      ensures Total(Record(b, p, w)) == Total(b) + 1
    {
      TotalRecord(b, p, w);
    }
    FoldGrows(empty, Record, Windows(words, k), b => Total(b));
    WindowsWidth(words, k);
  }

  /** Every token after the first n-1 adds exactly one count. */
  lemma NGramTotal(words: seq<string>, n: int)
    requires n >= 1
    ensures Total(NGram(words, n)) == if |words| > n - 1 then |words| - (n - 1) else 0
  {
    FeedTotal(words, n - 1);
  }
}
