/** The sliding window both bank builders run: a `deque(maxlen=k)` seeded
    with the first k tokens, into which every later token is appended after
    being recorded as the successor of the window's contents. */
module Sliding {

  type Prefix = seq<string>

  /** A prefix together with the token observed right after it. */
  type Window = (Prefix, string)

  /** What a `deque(maxlen=k)` keeps of the items `q` pushed into it: the last k. */
  function Last<T>(k: nat, q: seq<T>): seq<T>
  {
    if |q| > k then q[|q| - k..] else q
  }

  /** `prefix.append(w)` on a `deque(maxlen=k)` holding `p`. */
  function Slide(p: Prefix, w: string, k: nat): Prefix
  {
    Last(k, p + [w])
  }

  /** `for w in s: prefix.append(w)`. */
  function SlideAll(p: Prefix, s: seq<string>, k: nat): Prefix
    decreases s
  {
    if s == [] then p else SlideAll(Slide(p, s[0], k), s[1..], k)
  }

  /** The reference for the builders: every position i >= k of `c`, paired
      with the k tokens before it. */
  function Windows(c: seq<string>, k: nat): (ws: seq<Window>)
  {
    if |c| <= k then [] else seq(|c| - k, j requires 0 <= j < |c| - k => (c[j..j + k], c[j + k]))
  }

  /** The successors recorded for `p` in a list of windows, in order. */
  function SuccessorsIn(ws: seq<Window>, p: Prefix): seq<string>
  {
    if ws == [] then [] else (if ws[0].0 == p then [ws[0].1] else []) + SuccessorsIn(ws[1..], p)
  }

  /** The loop `for word in words: record(prefix, word); prefix.append(word)`,
      generic in what recording does to the bank. */
  function Feed<B>(bank: B, record: (B, Prefix, string) -> B, prefix: Prefix, rest: seq<string>, k: nat): B
    decreases rest
  {
    if rest == [] then bank
    else Feed(record(bank, prefix, rest[0]), record, Slide(prefix, rest[0], k), rest[1..], k)
  }

  /** One clause or stream: `prefix = deque(islice(words, k), maxlen=k)`
      followed by `Feed` over the remaining words. The deque loop records
      exactly the clause's windows, in order: a clause of at most k tokens
      records nothing. */
  function FeedSequence<B>(bank: B, record: (B, Prefix, string) -> B, c: seq<string>, k: nat): (r: B)
    ensures r == FoldWindows(bank, record, Windows(c, k))
  {
    var start := if |c| < k then |c| else k;
    if |c| <= k then
      assert c[start..] == [];
      Feed(bank, record, c[..start], c[start..], k)
    else
      assert c[..k] == c[0..k];
      FeedFromPosition(bank, record, c, k, k);
      Feed(bank, record, c[..start], c[start..], k)
  }

  /** Recording a list of windows one after the other. */
  function FoldWindows<B>(bank: B, record: (B, Prefix, string) -> B, ws: seq<Window>): B
  {
    if ws == [] then bank else FoldWindows(record(bank, ws[0].0, ws[0].1), record, ws[1..])
  }

  lemma LastShort<T>(k: nat, q: seq<T>)
    requires |q| <= k
    ensures Last(k, q) == q
  {
  }

  lemma LastTwice<T>(k: nat, q: seq<T>, r: seq<T>)
    ensures Last(k, Last(k, q) + r) == Last(k, q + r)
  {
    if |q| > k {
      var q' := q[|q| - k..];
      assert q' + r == (q + r)[|q| - k..];
    }
  }

  /** Pushing a whole sequence through a bounded deque keeps its last k items. */
  lemma {:induction false} SlideAllKeepsLast(p: Prefix, s: seq<string>, k: nat)
    requires |p| <= k
    ensures SlideAll(p, s, k) == Last(k, p + s)
    decreases s
  {
    if s == [] {
      assert p + s == p;
    } else {
      var p' := Slide(p, s[0], k);
      SlideAllKeepsLast(p', s[1..], k);
      LastTwice(k, p + [s[0]], s[1..]);
      assert p + [s[0]] + s[1..] == p + s;
    }
  }

  /** Pushing exactly k items through a deque of width k replaces its contents. */
  lemma SlideAllReplaces(p: Prefix, s: seq<string>, k: nat)
    requires |p| <= k && |s| == k
    ensures SlideAll(p, s, k) == s
  {
    SlideAllKeepsLast(p, s, k);
    assert (p + s)[|p + s| - k..] == s;
  }

  /** A full deque slides by one: drop the oldest, append the newest. */
  lemma SlideFull(p: Prefix, w: string, k: nat)
    requires |p| == k
    ensures k > 0 ==> Slide(p, w, k) == p[1..] + [w]
    ensures |Slide(p, w, k)| == k
  {
  }

  lemma SlideWindow(c: seq<string>, k: nat, j: nat)
    requires k <= j < |c|
    ensures Slide(c[j - k..j], c[j], k) == c[j + 1 - k..j + 1]
  {
    assert c[j - k..j] + [c[j]] == c[j - k..j + 1];
  }

  lemma {:induction false} FoldWindowsAppend<B>(bank: B, record: (B, Prefix, string) -> B, a: seq<Window>, b: seq<Window>)
    ensures FoldWindows(bank, record, a + b) == FoldWindows(FoldWindows(bank, record, a), record, b)
  {
    if a == [] {
      assert a + b == b;
    } else {
      assert (a + b)[1..] == a[1..] + b;
      FoldWindowsAppend(record(bank, a[0].0, a[0].1), record, a[1..], b);
    }
  }

  /** A property of banks that recording any k-token prefix keeps still
      holds after recording a list of windows of width k. */
  lemma {:induction false} FoldPreserves<B>(bank: B, record: (B, Prefix, string) -> B, ws: seq<Window>, k: nat, inv: B -> bool)
    requires inv(bank)
    requires forall b, p, w :: inv(b) && |p| == k ==> inv(record(b, p, w))
    requires forall i :: 0 <= i < |ws| ==> |ws[i].0| == k
    ensures inv(FoldWindows(bank, record, ws))
    decreases ws
  {
    if ws != [] {
      FoldPreserves(record(bank, ws[0].0, ws[0].1), record, ws[1..], k, inv);
    }
  }

  /** When each recording adds one to a measure of the bank, recording a
      list of windows adds its length. */
  lemma {:induction false} FoldGrows<B>(bank: B, record: (B, Prefix, string) -> B, ws: seq<Window>, size: B -> nat)
    requires forall b, p, w :: size(record(b, p, w)) == size(b) + 1
    ensures size(FoldWindows(bank, record, ws)) == size(bank) + |ws|
    decreases ws
  {
    if ws != [] {
      FoldGrows(record(bank, ws[0].0, ws[0].1), record, ws[1..], size);
    }
  }

  /** From position j on, the deque loop records exactly the windows at positions j, j+1, ... */
  lemma {:induction false} FeedFromPosition<B>(bank: B, record: (B, Prefix, string) -> B, c: seq<string>, k: nat, j: nat)
    requires k <= j <= |c|
    ensures Feed(bank, record, c[j - k..j], c[j..], k) == FoldWindows(bank, record, Windows(c, k)[j - k..])
    decreases |c| - j
  {
    if j == |c| {
      assert Windows(c, k)[j - k..] == [];
    } else {
      var bank' := record(bank, c[j - k..j], c[j]);
      FeedStep(bank, record, c, k, j);
      FoldStep(bank, record, c, k, j);
      FeedFromPosition(bank', record, c, k, j + 1);
    }
  }

  /** One turn of the deque loop at position j: record the window there, then slide. */
  lemma FeedStep<B>(bank: B, record: (B, Prefix, string) -> B, c: seq<string>, k: nat, j: nat)
    requires k <= j < |c|
    ensures Feed(bank, record, c[j - k..j], c[j..], k) == Feed(record(bank, c[j - k..j], c[j]), record, c[j + 1 - k..j + 1], c[j + 1..], k)
  {
    SlideWindow(c, k, j);
    assert c[j..][0] == c[j];
    assert c[j..][1..] == c[j + 1..];
  }

  lemma FoldStep<B>(bank: B, record: (B, Prefix, string) -> B, c: seq<string>, k: nat, j: nat)
    requires k <= j < |c|
    ensures FoldWindows(bank, record, Windows(c, k)[j - k..]) == FoldWindows(record(bank, c[j - k..j], c[j]), record, Windows(c, k)[j + 1 - k..])
  {
    var ws := Windows(c, k);
    assert ws[j - k..][0] == (c[j - k..j], c[j]);
    assert ws[j - k..][1..] == ws[j + 1 - k..];
  }

  lemma {:induction false} SuccessorsInAppend(a: seq<Window>, b: seq<Window>, p: Prefix)
    ensures SuccessorsIn(a + b, p) == SuccessorsIn(a, p) + SuccessorsIn(b, p)
  {
    if a == [] {
      assert a + b == b;
    } else {
      var head: seq<string> := if a[0].0 == p then [a[0].1] else [];
      assert (a + b)[0] == a[0];
      assert (a + b)[1..] == a[1..] + b;
      assert SuccessorsIn(a + b, p) == head + SuccessorsIn(a[1..] + b, p);
      SuccessorsInAppend(a[1..], b, p);
      assert SuccessorsIn(a, p) == head + SuccessorsIn(a[1..], p);
    }
  }

  /** The successors listed for `p` count, with multiplicity, the windows (p, w). */
  lemma {:induction false} SuccessorsInCount(ws: seq<Window>, p: Prefix, w: string)
    ensures multiset(SuccessorsIn(ws, p))[w] == multiset(ws)[(p, w)]
  {
    if ws != [] {
      SuccessorsInCount(ws[1..], p, w);
      assert ws == [ws[0]] + ws[1..];
    }
  }

  /** Every window of a sequence has a prefix of exactly k tokens. */
  lemma WindowsWidth(c: seq<string>, k: nat)
    ensures forall i :: 0 <= i < |Windows(c, k)| ==> |Windows(c, k)[i].0| == k
    ensures |Windows(c, k)| == if |c| > k then |c| - k else 0
  {
  }

  /** A prefix with a successor among windows of width k has k tokens. */
  lemma {:induction false} SuccessorsInWidth(ws: seq<Window>, p: Prefix, k: nat)
    requires forall i :: 0 <= i < |ws| ==> |ws[i].0| == k
    requires SuccessorsIn(ws, p) != []
    ensures |p| == k
  {
    if ws[0].0 != p {
      SuccessorsInWidth(ws[1..], p, k);
    }
  }
}
