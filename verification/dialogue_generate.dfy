/** dialogue.py, generation: `seed` and the walk of `generate_sentence`.
    `random.choice(xs)` is `xs[rng(d) % |xs|]` for the d-th draw of the
    random source `rng`; the order of the candidate keys is a fixed
    enumeration of the key set. */
module DialogueGenerate {
  import opened Results
  import opened Seqs
  import opened Sliding
  import opened DialogueText
  import opened DialogueBank

  /** The keys `seed` chooses among: with a non-empty delimiter, the keys
      starting with it; otherwise every key. */
  function Candidates(bank: Bank, delim: string): set<Prefix>
  {
    if delim != "" then set p | p in bank && |p| > 0 && p[0] == delim else bank.Keys
  }

  /** `seed(bank, delim)`. Testing `prefix[0]` on the empty key raises, and so
      does `random.choice` on an empty candidate list. */
  ghost function Seed(bank: Bank, delim: string, draw: nat): (r: Result<Prefix, Fault>)
    ensures r.Ok? ==> r.value in Candidates(bank, delim)
    ensures r.Ok? ==> r.value in bank
    ensures r.Ok? && delim != "" ==> |r.value| > 0 && r.value[0] == delim
    ensures r == Err(EmptyPrefixIndexed) <==> delim != "" && [] in bank
    ensures r == Err(EmptyChoice) <==> !(delim != "" && [] in bank) && Candidates(bank, delim) == {}
  {
    if delim != "" && [] in bank then Err(EmptyPrefixIndexed)
    else
      var candidates := Enumerate(Candidates(bank, delim));
      if candidates == [] then Err(EmptyChoice) else Ok(candidates[draw % |candidates|])
  }

  /** Every candidate is the outcome of some draw. */
  lemma SeedReachesEveryCandidate(bank: Bank, delim: string, q: Prefix)
    requires q in Candidates(bank, delim)
    requires !(delim != "" && [] in bank)
    ensures exists draw: nat :: Seed(bank, delim, draw) == Ok(q)
  {
    var candidates := Enumerate(Candidates(bank, delim));
    assert q in candidates;
    var i :| 0 <= i < |candidates| && candidates[i] == q;
    var draw: nat := i;
    SeedDraw(bank, delim, draw);
    ModSmall(draw, |candidates|);
    assert Seed(bank, delim, draw) == Ok(q);
  }

  lemma SeedDraw(bank: Bank, delim: string, draw: nat)
    requires !(delim != "" && [] in bank) && Candidates(bank, delim) != {}
    ensures Enumerate(Candidates(bank, delim)) != []
    ensures Seed(bank, delim, draw) == Ok(Enumerate(Candidates(bank, delim))[draw % |Enumerate(Candidates(bank, delim))|])
  {
  }

  datatype Status = Running | Finished | Crashed(fault: Fault)

  /** The state of `generate_sentence` between loop iterations: the bank as
      the loop's lookups have left it, the deque `prefix` of width `width`,
      the iteration counter `ctr`, the number of random draws so far, and the
      tokens yielded so far. */
  datatype Walker = Walker(bank: Bank, prefix: Prefix, width: nat, ctr: int, draws: nat, out: seq<Token>, status: Status)

  /** The bank after `bank[tuple(prefix)]` on a `defaultdict(list)`. */
  function Lookup(bank: Bank, p: Prefix): Bank
  {
    if p in bank then bank else bank[p := []]
  }

  /** The lookup reads the recorded list or the empty list, and inserts a
      missing prefix with that empty list; nothing already recorded changes. */
  lemma LookupInserts(bank: Bank, p: Prefix)
    ensures Lookup(bank, p).Keys == bank.Keys + {p}
    ensures forall q :: q in bank ==> Lookup(bank, p)[q] == bank[q]
    ensures Lookup(bank, p)[p] == Successors(bank, p)
  {
  }

  /** Every key of the bank has `k` tokens. */
  predicate KeysOfWidth(bank: Bank, k: nat)
  {
    forall p :: p in bank ==> |p| == k
  }

  /** The walk may end or reseed here: the list is empty or missing, or it
      holds the delimiter that was drawn. */
  predicate SentenceMayEnd(bank: Bank, p: Prefix)
  {
    Successors(bank, p) == [] || Delimiter in Successors(bank, p)
  }

  /** The normal path: one recorded successor of the prefix, never the
      delimiter, is yielded and pushed into the deque. */
  predicate EmitsSuccessor(w: Walker, w': Walker)
  {
    && w'.status == Running
    && |w'.out| == |w.out| + 1
    && w'.out[|w.out|] in Successors(w.bank, w.prefix)
    && w'.out[|w.out|] != Delimiter
    && w'.prefix == Slide(w.prefix, w'.out[|w.out|], w.width)
  }

  /** The walk stops: more than `minWords` iterations have run, nothing more is yielded. */
  predicate Stops(minWords: int, w: Walker, w': Walker)
  {
    && w'.status == Finished
    && w'.ctr > minWords
    && SentenceMayEnd(w.bank, w.prefix)
    && w'.out == w.out
  }

  /** A premature end: a fresh seed is drawn and, unless drawing it fails,
      the whole new prefix (delimiter included) is yielded. */
  predicate ReseedsOrCrashes(minWords: int, w: Walker, w': Walker)
  {
    && w'.ctr <= minWords
    && SentenceMayEnd(w.bank, w.prefix)
    && (w'.status == Running ==> w'.out == w.out + w'.prefix)
    && (w'.status.Crashed? ==> w'.out == w.out)
    && !w'.status.Finished?
  }

  /** The draw count once the next token is known: `random.choice` runs
      only on a non-empty list. */
  function DrawsAfterNext(w: Walker): nat
  {
    if Successors(w.bank, w.prefix) == [] then w.draws else w.draws + 1
  }

  /** The token the iteration draws: `random.choice(possible_words)`, or the
      delimiter when the list is empty. */
  function NextToken(rng: nat -> nat, w: Walker): Token
  {
    var possible := Successors(w.bank, w.prefix);
    if possible == [] then Delimiter else possible[rng(w.draws) % |possible|]
  }

  /** One iteration of the `while True` loop: it yields a recorded
      successor, stops, or reseeds (or raises); `StepFollowsDraw` says which
      path the drawn token selects. */
  ghost function Step(minWords: int, rng: nat -> nat, w: Walker): (w': Walker)
    requires w.status == Running
    ensures w'.ctr == w.ctr + 1 && w'.width == w.width
    ensures w.out <= w'.out
    ensures |w.prefix| == w.width ==> |w'.prefix| == w.width
    ensures EmitsSuccessor(w, w') || Stops(minWords, w, w') || ReseedsOrCrashes(minWords, w, w')
  {
    var bank := Lookup(w.bank, w.prefix);
    var ctr := w.ctr + 1;
    var draws := DrawsAfterNext(w);
    var next := NextToken(rng, w);
    if next == Delimiter then
      if ctr > minWords then
        w.(bank := bank, ctr := ctr, draws := draws, status := Finished)
      else
        match Seed(bank, Delimiter, rng(draws))
        case Err(f) => w.(bank := bank, ctr := ctr, draws := draws + 1, status := Crashed(f))
        case Ok(s) =>
          var p := SlideAll(w.prefix, s, w.width);
          SlideAllWidth(w.prefix, s, w.width);
          w.(bank := bank, prefix := p, ctr := ctr, draws := draws + 1, out := w.out + p)
    else
      var p := Slide(w.prefix, next, w.width);
      w.(bank := bank, prefix := p, ctr := ctr, draws := draws, out := w.out + [next])
  }

  /** The bank after an iteration is the bank after its lookup. */
  lemma StepLooksUp(minWords: int, rng: nat -> nat, w: Walker)
    requires w.status == Running
    ensures Step(minWords, rng, w).bank == Lookup(w.bank, w.prefix)
  {
  }

  /** The path of an iteration is the one its drawn token selects. The
      lookup inserts a missing prefix into the bank. Any token other than
      the delimiter is yielded; the delimiter breaks the loop once the
      counter exceeds `minWords` and otherwise reseeds, from the bank as the
      lookup left it and with the draw that follows, raising exactly when
      that seed cannot be drawn. */
  lemma StepFollowsDraw(minWords: int, rng: nat -> nat, w: Walker)
    requires w.status == Running
    ensures Step(minWords, rng, w).bank == Lookup(w.bank, w.prefix)
    ensures var w' := Step(minWords, rng, w);
            NextToken(rng, w) != Delimiter ==>
              EmitsSuccessor(w, w') && w'.out[|w.out|] == NextToken(rng, w)
    ensures var w' := Step(minWords, rng, w);
            NextToken(rng, w) == Delimiter && w'.ctr > minWords ==> Stops(minWords, w, w')
    ensures var w' := Step(minWords, rng, w);
            NextToken(rng, w) == Delimiter && w'.ctr <= minWords ==>
              var seed := Seed(w'.bank, Delimiter, rng(DrawsAfterNext(w)));
              && ReseedsOrCrashes(minWords, w, w')
              && (w'.status.Crashed? <==> seed.Err?)
              && (seed.Ok? ==> w'.prefix == SlideAll(w.prefix, seed.value, w.width))
  {
  }

  lemma SlideAllWidth(p: Prefix, s: seq<string>, k: nat)
    ensures |p| == k ==> |SlideAll(p, s, k)| == k
  {
    if |p| == k {
      SlideAllKeepsLast(p, s, k);
    }
  }

  /** When every key has the deque's width, a reseed puts a sentence start
      into the deque. */
  lemma ReseedStartsSentence(minWords: int, rng: nat -> nat, w: Walker)
    requires w.status == Running && KeysOfWidth(w.bank, w.width) && |w.prefix| == w.width
    requires Step(minWords, rng, w).status == Running
    requires !EmitsSuccessor(w, Step(minWords, rng, w))
    ensures Step(minWords, rng, w).prefix in Step(minWords, rng, w).bank
    ensures Step(minWords, rng, w).prefix[0] == Delimiter
  {
    StepFollowsDraw(minWords, rng, w);
    if NextToken(rng, w) == Delimiter {
      var s := Seed(Lookup(w.bank, w.prefix), Delimiter, rng(DrawsAfterNext(w))).value;
      SlideAllReplaces(w.prefix, s, w.width);
    }
  }

  /** A prefix the walk reaches without the bank having recorded it becomes
      a key with an empty list; when it starts with the delimiter, every
      later reseed may choose it. */
  lemma MissingPrefixBecomesCandidate(minWords: int, rng: nat -> nat, w: Walker)
    requires w.status == Running && w.prefix !in w.bank
    requires |w.prefix| > 0 && w.prefix[0] == Delimiter
    ensures w.prefix in Candidates(Step(minWords, rng, w).bank, Delimiter)
    ensures Step(minWords, rng, w).bank[w.prefix] == []
  {
    StepFollowsDraw(minWords, rng, w);
  }

  /** Up to `fuel` further iterations, stopping early when the loop breaks
      or raises. */
  ghost function Walk(minWords: int, rng: nat -> nat, w: Walker, fuel: nat): (r: Walker)
    ensures w.out <= r.out
    ensures r.width == w.width
    ensures |w.prefix| == w.width ==> |r.prefix| == w.width
    ensures r.status == Finished ==> r.ctr > minWords || r == w
    decreases fuel
  {
    if fuel == 0 || w.status != Running then w
    else
      var w' := Step(minWords, rng, w);
      var r := Walk(minWords, rng, w', fuel - 1);
      PrefixTransitive(w.out, w'.out, r.out);
      r
  }

  /** `bank'` keeps everything `bank` recorded and adds keys with empty lists only. */
  predicate KeepsRecorded(bank: Bank, bank': Bank)
  {
    && (forall p :: p in bank ==> p in bank' && bank'[p] == bank[p])
    && (forall p :: p in bank' && p !in bank ==> bank'[p] == [])
  }

  lemma KeepsRecordedTransitive(b0: Bank, b1: Bank, b2: Bank)
    requires KeepsRecorded(b0, b1) && KeepsRecorded(b1, b2)
    ensures KeepsRecorded(b0, b2)
  {
  }

  lemma StepKeepsRecorded(minWords: int, rng: nat -> nat, w: Walker)
    requires w.status == Running
    ensures KeepsRecorded(w.bank, Step(minWords, rng, w).bank)
  {
    StepLooksUp(minWords, rng, w);
    LookupInserts(w.bank, w.prefix);
  }

  /** Over a walk the bank only gains keys, each with an empty list: what
      `n_gram` recorded is never changed. */
  lemma {:induction false} WalkKeepsRecorded(minWords: int, rng: nat -> nat, w: Walker, fuel: nat)
    ensures KeepsRecorded(w.bank, Walk(minWords, rng, w, fuel).bank)
    decreases fuel
  {
    if fuel > 0 && w.status == Running {
      var w' := Step(minWords, rng, w);
      StepKeepsRecorded(minWords, rng, w);
      WalkKeepsRecorded(minWords, rng, w', fuel - 1);
      KeepsRecordedTransitive(w.bank, w'.bank, Walk(minWords, rng, w', fuel - 1).bank);
    }
  }

  /** `generate_sentence(bank, min_words)` for at most `fuel` loop iterations:
      the first seed (without its delimiter), then the walk. */
  ghost function GenerateSentence(bank: Bank, minWords: int, rng: nat -> nat, fuel: nat): (r: Walker)
    ensures Seed(bank, Delimiter, rng(0)).Err? ==> r.out == [] && r.status.Crashed?
    ensures Seed(bank, Delimiter, rng(0)).Ok? ==>
              var s := Seed(bank, Delimiter, rng(0)).value;
              r.width == |s| && |r.out| >= |s| - 1 && r.out[..|s| - 1] == s[1..]
    ensures r.status == Finished ==> r.ctr > minWords
  {
    match Seed(bank, Delimiter, rng(0))
    case Err(f) => Walker(bank, [], 0, 0, 1, [], Crashed(f))
    case Ok(s) => Walk(minWords, rng, Walker(bank, s, |s|, 0, 1, s[1..], Running), fuel)
  }

  /** With a deque of width at least 1 every iteration that does not stop
      yields at least one token. */
  lemma {:induction false} WalkYields(minWords: int, rng: nat -> nat, w: Walker, fuel: nat)
    requires |w.prefix| == w.width >= 1
    ensures var r := Walk(minWords, rng, w, fuel);
            |r.out| - |w.out| >= r.ctr - w.ctr - (if r.status == Running then 0 else 1)
    decreases fuel
  {
    if fuel > 0 && w.status == Running {
      var w' := Step(minWords, rng, w);
      StepYields(minWords, rng, w);
      WalkYields(minWords, rng, w', fuel - 1);
    }
  }

  /** An iteration that keeps running yields at least one token. */
  lemma StepYields(minWords: int, rng: nat -> nat, w: Walker)
    requires w.status == Running && |w.prefix| == w.width >= 1
    ensures var w' := Step(minWords, rng, w);
            |w'.prefix| == w.width && w'.ctr == w.ctr + 1 && w'.width == w.width
    ensures var w' := Step(minWords, rng, w);
            |w'.out| >= |w.out| + (if w'.status == Running then 1 else 0)
  {
  }

  /** A finished sentence has at least `minWords` tokens beyond the first
      seed's own n-2: the counter counts iterations, and each iteration
      before the last yields a token or a whole seed. */
  lemma FinishedSentenceLength(bank: Bank, minWords: int, rng: nat -> nat, fuel: nat)
    requires GenerateSentence(bank, minWords, rng, fuel).status == Finished
    ensures var s := Seed(bank, Delimiter, rng(0)).value;
            |GenerateSentence(bank, minWords, rng, fuel).out| >= |s| - 1 + minWords
  {
    var s := Seed(bank, Delimiter, rng(0)).value;
    WalkYields(minWords, rng, Walker(bank, s, |s|, 0, 1, s[1..], Running), fuel);
  }

  /** The lookup keeps every key at the deque's width and every seed
      candidate in place. */
  lemma StepKeepsSeeds(minWords: int, rng: nat -> nat, w: Walker)
    requires w.status == Running && |w.prefix| == w.width
    requires KeysOfWidth(w.bank, w.width) && Candidates(w.bank, Delimiter) != {}
    ensures KeysOfWidth(Step(minWords, rng, w).bank, w.width)
    ensures Candidates(Step(minWords, rng, w).bank, Delimiter) != {}
  {
    StepLooksUp(minWords, rng, w);
    var c :| c in Candidates(w.bank, Delimiter);
    assert c in Candidates(Step(minWords, rng, w).bank, Delimiter);
  }

  /** A bank whose keys have n-1 >= 1 tokens and where some key starts a
      sentence never makes generation raise. */
  lemma {:induction false} WalkNeverCrashes(minWords: int, rng: nat -> nat, w: Walker, fuel: nat)
    requires w.width >= 1 && |w.prefix| == w.width && KeysOfWidth(w.bank, w.width)
    requires Candidates(w.bank, Delimiter) != {}
    requires !w.status.Crashed?
    ensures !Walk(minWords, rng, w, fuel).status.Crashed?
    decreases fuel
  {
    if fuel > 0 && w.status == Running {
      var w' := Step(minWords, rng, w);
      StepKeepsSeeds(minWords, rng, w);
      assert [] !in w'.bank;
      WalkNeverCrashes(minWords, rng, w', fuel - 1);
    }
  }

  lemma GenerateSentenceNeverCrashes(bank: Bank, k: nat, minWords: int, rng: nat -> nat, fuel: nat)
    requires k >= 1 && KeysOfWidth(bank, k)
    requires Candidates(bank, Delimiter) != {}
    ensures !GenerateSentence(bank, minWords, rng, fuel).status.Crashed?
  {
    assert [] !in bank;
    var s := Seed(bank, Delimiter, rng(0)).value;
    WalkNeverCrashes(minWords, rng, Walker(bank, s, |s|, 0, 1, s[1..], Running), fuel);
  }
}
