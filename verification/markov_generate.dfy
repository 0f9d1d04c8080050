/** simple_markov.py, `seed` and `generate`, and the caller's
    `islice(generate(bank), count)`. `random.choice(xs)` is
    `xs[rng(d) % |xs|]` for the d-th draw of the random source `rng`; the
    order of the keys and of `Counter.elements()` is a fixed enumeration. */
module MarkovGenerate {
  import opened Results
  import opened Seqs
  import opened Sliding
  import opened MarkovText
  import opened MarkovBank

  /** The keys `seed` chooses among: those whose first token is the delimiter. */
  function Candidates(bank: Bank): set<Prefix>
  {
    set p | p in bank && |p| > 0 && p[0] == Delimiter
  }

  /** `seed(bank)`. Testing `prefix[0]` on the empty key raises, and so does
      `random.choice` on an empty candidate list. */
  ghost function Seed(bank: Bank, draw: nat): (r: Result<Prefix, Fault>)
    ensures r.Ok? ==> r.value in Candidates(bank)
    ensures r == Err(EmptyPrefixIndexed) <==> [] in bank
    ensures r == Err(EmptyChoice) <==> [] !in bank && Candidates(bank) == {}
  {
    if [] in bank then Err(EmptyPrefixIndexed)
    else
      var candidates := Enumerate(Candidates(bank));
      if candidates == [] then Err(EmptyChoice) else Ok(candidates[draw % |candidates|])
  }

  /** Every candidate is the outcome of some draw. */
  lemma SeedReachesEveryCandidate(bank: Bank, q: Prefix)
    requires q in Candidates(bank) && [] !in bank
    ensures exists draw: nat :: Seed(bank, draw) == Ok(q)
  {
    var candidates := Enumerate(Candidates(bank));
    assert q in candidates;
    var i :| 0 <= i < |candidates| && candidates[i] == q;
    var draw: nat := i;
    SeedDraw(bank, draw);
    ModSmall(draw, |candidates|);
    assert Seed(bank, draw) == Ok(q);
  }

  lemma SeedDraw(bank: Bank, draw: nat)
    requires [] !in bank && Candidates(bank) != {}
    ensures Enumerate(Candidates(bank)) != []
    ensures Seed(bank, draw) == Ok(Enumerate(Candidates(bank))[draw % |Enumerate(Candidates(bank))|])
  {
  }

  /** The state of `generate` between passes of its loop. `prefix` starts as
      a plain list (`maxlen == None`) and becomes a `deque(maxlen=k)` at the
      first seed; `draws` counts the random draws, `out` the tokens yielded,
      and `fault` records an exception that ended the generator. */
  datatype Cursor = Cursor(prefix: Prefix, maxlen: Option<nat>, draws: nat, out: seq<string>, fault: Option<Fault>)

  /** `generate` before its first pass. */
  const Start := Cursor([], None, 0, [], None)

  /** `prefix.append(w)`: a list grows, a bounded deque slides. */
  function Push(c: Cursor, w: string): Prefix
  {
    match c.maxlen
    case None => c.prefix + [w]
    case Some(k) => Slide(c.prefix, w, k)
  }

  /** A known prefix: one token of positive count under it is yielded and pushed. */
  predicate Emits(bank: Bank, c: Cursor, c': Cursor)
  {
    && c'.fault == None
    && |c'.out| == |c.out| + 1
    && c'.out[..|c.out|] == c.out
    && Weights(bank, c.prefix)[c'.out[|c.out|]] > 0
    && c'.prefix == Push(c, c'.out[|c.out|])
    && c'.maxlen == c.maxlen
  }

  /** An unknown prefix: a key starting with the delimiter replaces it, in a
      deque as wide as the key, and all of its tokens are yielded. */
  predicate Reseeds(bank: Bank, c: Cursor, c': Cursor)
  {
    && c'.fault == None
    && c'.prefix in Candidates(bank)
    && c'.out == c.out + c'.prefix
    && c'.maxlen == Some(|c'.prefix|)
  }

  /** One pass of the `while True` loop of `generate`. */
  ghost function Pass(bank: Bank, rng: nat -> nat, c: Cursor): (c': Cursor)
    requires c.fault == None
    ensures c'.draws == c.draws + 1
    ensures c'.fault == None ==> |c'.out| > |c.out|
    ensures c'.fault != None ==> c'.out == c.out
    ensures c.prefix in bank ==> (c'.fault == None <==> bank[c.prefix] != multiset{})
    ensures c.prefix in bank && c'.fault == None ==> Emits(bank, c, c')
    ensures c.prefix !in bank ==> (c'.fault == None <==> Seed(bank, rng(c.draws)).Ok?)
    ensures c.prefix !in bank && c'.fault == None ==> Reseeds(bank, c, c')
  {
    if c.prefix in bank then
      var words := EnumerateBag(bank[c.prefix]);
      if words == [] then c.(draws := c.draws + 1, fault := Some(EmptyChoice))
      else
        var w := words[rng(c.draws) % |words|];
        assert w in multiset(words);
        var out := c.out + [w];
        assert out[..|c.out|] == c.out;
        c.(prefix := Push(c, w), draws := c.draws + 1, out := out)
    else
      match Seed(bank, rng(c.draws))
      case Err(f) => c.(draws := c.draws + 1, fault := Some(f))
      case Ok(s) => Cursor(s, Some(|s|), c.draws + 1, c.out + s, None)
  }

  /** Passes until `count` tokens are out or an exception ends the generator. */
  ghost function Run(bank: Bank, rng: nat -> nat, c: Cursor, count: nat): (r: Cursor)
    ensures c.out <= r.out
    ensures r.fault == None ==> count <= |r.out|
    ensures c.fault != None ==> r == c
    decreases if count > |c.out| then count - |c.out| else 0, if c.fault == None then 1 else 0
  {
    if c.fault != None || count <= |c.out| then c
    else
      var c' := Pass(bank, rng, c);
      assert c.out <= c'.out by {
        if c'.fault == None && c.prefix in bank {
          assert c'.out[..|c.out|] == c.out;
        }
      }
      var r := Run(bank, rng, c', count);
      PrefixTransitive(c.out, c'.out, r.out);
      r
  }

  /** `islice(generate(bank), count)` consumed in full: exactly `count` tokens,
      or the exception the generator raised on the way. */
  ghost function Take(bank: Bank, rng: nat -> nat, count: nat): (r: Result<seq<string>, Fault>)
    ensures r.Ok? ==> |r.value| == count
    ensures r.Ok? ==> r.value <= Run(bank, rng, Start, count).out
    ensures r.Err? <==> Run(bank, rng, Start, count).fault.Some?
  {
    var c := Run(bank, rng, Start, count);
    if c.fault.Some? then Err(c.fault.value) else Ok(c.out[..count])
  }

  // ---- Banks built with n >= 2 ----

  /** The bank of a stream with n >= 2 that has a key starting with the delimiter. */
  predicate Seedable(bank: Bank, k: nat)
  {
    k >= 1 && WellFormed(bank, k) && Candidates(bank) != {}
  }

  /** After the first pass: a full deque of width k and no exception. */
  predicate Steady(c: Cursor, k: nat)
  {
    c.fault == None && c.maxlen == Some(k) && |c.prefix| == k
  }

  /** The empty prefix is never a key, so the first pass seeds. */
  lemma FirstPassSeeds(bank: Bank, rng: nat -> nat, k: nat)
    requires Seedable(bank, k)
    ensures Reseeds(bank, Start, Pass(bank, rng, Start))
    ensures Steady(Pass(bank, rng, Start), k)
    ensures Pass(bank, rng, Start).out[0] == Delimiter
  {
    assert [] !in bank;
    var s := Pass(bank, rng, Start).prefix;
    assert s in bank;
  }

  /** Every later pass keeps the deque full and never raises: a known prefix
      has a non-empty counter, and an unknown one is reseeded. */
  lemma SteadyPass(bank: Bank, rng: nat -> nat, c: Cursor, k: nat)
    requires Seedable(bank, k) && Steady(c, k)
    ensures Steady(Pass(bank, rng, c), k)
    ensures c.prefix in bank ==> Emits(bank, c, Pass(bank, rng, c))
    ensures c.prefix in bank ==> Pass(bank, rng, c).prefix == c.prefix[1..] + [Pass(bank, rng, c).out[|c.out|]]
    ensures c.prefix !in bank ==> Reseeds(bank, c, Pass(bank, rng, c))
  {
    var c' := Pass(bank, rng, c);
    if c.prefix in bank {
      SlideFull(c.prefix, c'.out[|c.out|], k);
    } else {
      assert [] !in bank;
      assert c'.prefix in bank;
    }
  }

  lemma {:induction false} SteadyRun(bank: Bank, rng: nat -> nat, c: Cursor, k: nat, count: nat)
    requires Seedable(bank, k) && Steady(c, k)
    ensures Steady(Run(bank, rng, c, count), k)
    decreases if count > |c.out| then count - |c.out| else 0
  {
    if count > |c.out| {
      SteadyPass(bank, rng, c, k);
      SteadyRun(bank, rng, Pass(bank, rng, c), k, count);
    }
  }

  /** The walk never stops by itself: with n >= 2 and a key starting with the
      delimiter, `islice(generate(bank), count)` yields exactly `count`
      tokens, and the first is the delimiter that opens the seed. */
  lemma TakeNeverFails(bank: Bank, rng: nat -> nat, k: nat, count: nat)
    requires Seedable(bank, k)
    ensures Take(bank, rng, count).Ok?
    ensures |Take(bank, rng, count).value| == count
    ensures count > 0 ==> Take(bank, rng, count).value[0] == Delimiter
  {
    if count > 0 {
      var c1 := Pass(bank, rng, Start);
      FirstPassSeeds(bank, rng, k);
      SteadyRun(bank, rng, c1, k, count);
      assert Run(bank, rng, Start, count) == Run(bank, rng, c1, count);
      assert c1.out <= Run(bank, rng, c1, count).out;
    } else {
      assert Run(bank, rng, Start, count) == Start;
    }
  }

  /** With n = 1 the only key is the empty one: the first pass draws a token
      from it, the list prefix then holds that token and is no key, and the
      reseed raises on `prefix[0]` of the empty key. */
  lemma UnigramRaises(bank: Bank, rng: nat -> nat, count: nat)
    requires WellFormed(bank, 0) && bank != map[]
    requires count >= 2
    ensures Take(bank, rng, count) == Err(EmptyPrefixIndexed)
  {
    var p :| p in bank;
    assert p == [];
    var c1 := Pass(bank, rng, Start);
    assert |c1.prefix| == 1 && c1.prefix !in bank;
    var c2 := Pass(bank, rng, c1);
    assert c2.fault == Some(EmptyPrefixIndexed);
    assert Run(bank, rng, c1, count) == Run(bank, rng, c2, count);
    assert Run(bank, rng, Start, count) == Run(bank, rng, c1, count);
  }

  /** A stream with a delimiter followed by at least n-1 more tokens gives
      `seed` a candidate: the window that starts at the delimiter. */
  lemma DelimiterGivesCandidate(words: seq<string>, n: int, i: int)
    requires n >= 2 && 0 <= i && i + n - 1 < |words| && words[i] == Delimiter
    ensures words[i..i + n - 1] in Candidates(NGram(words, n))
    ensures Seedable(NGram(words, n), n - 1)
  {
    var p := words[i..i + n - 1];
    var j := i + n - 1;
    assert words[j - (n - 1)..j] == p;
    Observed(words, n, p, words[j]);
    assert p in NGram(words, n);
  }
}
