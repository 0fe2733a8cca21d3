/** The search loops of the RSA key generator, as runs that the random generator and the tests determine. */
module PrimeLoop {
  import opened Bytes
  import opened Wheel
  import opened PrimeSearch
  import opened PrimeRun

  datatype Verdict = Composite | ProbablyPrime | Failed

  datatype Run = Run(seed: seq<byte>, candidates: seq<Candidate>)

  /** The candidates of several runs, one after the other. */
  ghost function Flat(runs: seq<Run>): seq<Candidate> {
    if runs == [] then [] else Flat(runs[..|runs| - 1]) + runs[|runs| - 1].candidates
  }

  ghost predicate AllRuns(runs: seq<Run>, n: nat) {
    forall r :: 0 <= r < |runs| ==> |runs[r].seed| == n && IsRun(runs[r].seed, runs[r].candidates)
  }

  /** All candidates but the last have been tested, in order, and were composite. */
  ghost predicate Searched(runs: seq<Run>, test: (nat, nat) -> Verdict) {
    var cs := Flat(runs);
    forall k :: 0 <= k < |cs| - 1 ==> test(k, cs[k].value) == Composite
  }

  /** Each run starts from what the generator delivered in the attempt before it; the first, before any attempt. */
  ghost predicate Drawn(runs: seq<Run>, draws: seq<Option<seq<byte>>>) {
    forall r :: 0 <= r < |runs| ==> DrawnAt(runs[..r], runs[r].seed, draws)
  }

  ghost predicate DrawnAt(before: seq<Run>, seed: seq<byte>, draws: seq<Option<seq<byte>>>) {
    |Flat(before)| < |draws| && draws[|Flat(before)|] == Some(seed)
  }

  /** Does the step from this candidate lose the top bits? */
  ghost predicate Loses(c: Candidate, n: nat)
    requires n > 0
  {
    c.idx < |Gaps()| && !TopBits((c.value + Gaps()[c.idx]) % Pow256(n), n)
  }

  /** The octets and the wheel position are those of the last candidate. */
  ghost predicate AtLast(runs: seq<Run>, c: Candidate) {
    runs != [] && var cs := runs[|runs| - 1].candidates; cs != [] && cs[|cs| - 1] == c
  }

  /** A run ends, and another starts, only at a candidate whose step loses the top bits. */
  ghost predicate Maximal(runs: seq<Run>, n: nat)
    requires n > 0
  {
    forall r :: 0 <= r < |runs| - 1 ==> EndsLosing(runs[r], n)
  }

  ghost predicate EndsLosing(run: Run, n: nat)
    requires n > 0
  {
    run.candidates != [] && Loses(run.candidates[|run.candidates| - 1], n)
  }

  /** A search under way. */
  ghost predicate Track(runs: seq<Run>, draws: seq<Option<seq<byte>>>, test: (nat, nat) -> Verdict, n: nat) {
    n > 0 && AllRuns(runs, n) && Searched(runs, test) && Drawn(runs, draws) && Maximal(runs, n)
  }

  /** The loop tests at least once. */
  function Limit(maxAttempts: nat): nat {
    if maxAttempts == 0 then 1 else maxAttempts
  }

  /** Has the search found a prime: is the last candidate one that was tested and passed? */
  ghost predicate Found(runs: seq<Run>, test: (nat, nat) -> Verdict, maxAttempts: nat) {
    var cs := Flat(runs);
    cs != [] && |cs| <= Limit(maxAttempts) && test(|cs| - 1, cs[|cs| - 1].value) == ProbablyPrime
  }

  /**
   * Is the search over? Its generator failed at once; or its attempts are used up; or its last candidate was not
   * found composite; or it was, its step loses the top bits, and the generator failed.
   */
  ghost predicate Over(runs: seq<Run>, draws: seq<Option<seq<byte>>>, test: (nat, nat) -> Verdict, maxAttempts: nat,
                       n: nat)
    requires n > 0 && Limit(maxAttempts) < |draws|
  {
    var cs := Flat(runs);
    if runs == [] || cs == [] then runs == [] && draws[0].None?
    else
      || |cs| == Limit(maxAttempts) + 1
      || (|cs| <= Limit(maxAttempts)
          && (test(|cs| - 1, cs[|cs| - 1].value) != Composite || (Loses(cs[|cs| - 1], n) && draws[|cs|].None?)))
  }

  /** Did the generator fail, so that the number is wiped? A search ends on a composite number for no other reason. */
  ghost predicate Wiped(runs: seq<Run>, test: (nat, nat) -> Verdict, maxAttempts: nat) {
    var cs := Flat(runs);
    cs == [] || (|cs| <= Limit(maxAttempts) && test(|cs| - 1, cs[|cs| - 1].value) == Composite)
  }

  ghost predicate IsSearch(runs: seq<Run>, draws: seq<Option<seq<byte>>>, test: (nat, nat) -> Verdict,
                           maxAttempts: nat, n: nat) {
    && n > 0 && Limit(maxAttempts) < |draws|
    && Track(runs, draws, test, n) && Over(runs, draws, test, maxAttempts, n)
  }

  // ----- Building a search -----

  /** The last run with one more candidate. */
  ghost function Extend(runs: seq<Run>, c: Candidate): seq<Run>
    requires runs != []
  {
    var last := runs[|runs| - 1];
    runs[..|runs| - 1] + [Run(last.seed, last.candidates + [c])]
  }

  lemma ExtendIs(runs: seq<Run>, n: nat, c: Candidate, d: Candidate)
    requires runs != [] && AllRuns(runs, n) && n > 0
    requires runs[|runs| - 1].candidates != []
    requires runs[|runs| - 1].candidates[|runs[|runs| - 1].candidates| - 1] == c && Steps(c, d, n)
    ensures AllRuns(Extend(runs, d), n) && Flat(Extend(runs, d)) == Flat(runs) + [d]
  {
    hide Steps, Aligned, Seeded;
    var r, last := Extend(runs, d), runs[|runs| - 1];
    assert r[..|r| - 1] == runs[..|runs| - 1];
    assert IsRun(last.seed, last.candidates);
    assert IsRun(last.seed, last.candidates + [d]);
  }

  lemma StartIs(runs: seq<Run>, n: nat, seed: seq<byte>, c: Candidate)
    requires AllRuns(runs, n) && |seed| == n > 0
    requires Aligned(BeValue(Seeded(seed)), c.value, n, c.idx, c.rem)
    ensures AllRuns(runs + [Run(seed, [c])], n)
    ensures Flat(runs + [Run(seed, [c])]) == Flat(runs) + [c]
  {
    hide Steps, Aligned, Seeded, BeValue;
    assert (runs + [Run(seed, [c])])[..|runs|] == runs;
    assert IsRun(seed, [c]);
  }

  lemma {:induction false} LastOfFlat(runs: seq<Run>, c: Candidate)
    requires AtLast(runs, c)
    ensures Flat(runs) != [] && Flat(runs)[|Flat(runs)| - 1] == c
  {
  }

  lemma LastIsRun(runs: seq<Run>, n: nat)
    requires AllRuns(runs, n) && runs != []
    ensures var last := runs[|runs| - 1];
      last.candidates != [] && |last.seed| == n && IsRun(last.seed, last.candidates)
  {
  }

  lemma SearchedMore(runs: seq<Run>, more: seq<Run>, c: Candidate, d: Candidate, test: (nat, nat) -> Verdict)
    requires Searched(runs, test) && AtLast(runs, c) && Flat(more) == Flat(runs) + [d]
    requires test(|Flat(runs)| - 1, c.value) == Composite
    ensures Searched(more, test) && |Flat(more)| == |Flat(runs)| + 1
  {
    LastOfFlat(runs, c);
    hide Flat;
  }

  lemma EmptyFlat()
    ensures Flat([]) == []
  {
  }

  lemma TrackNothing(draws: seq<Option<seq<byte>>>, test: (nat, nat) -> Verdict, n: nat)
    requires n > 0
    ensures Track([], draws, test, n)
  {
  }

  lemma TrackFirst(draws: seq<Option<seq<byte>>>, test: (nat, nat) -> Verdict, n: nat, c: Candidate)
    requires n > 0 && draws != [] && draws[0].Some? && |draws[0].value| == n
    requires Aligned(BeValue(Seeded(draws[0].value)), c.value, n, c.idx, c.rem)
    ensures var runs := [Run(draws[0].value, [c])];
      Track(runs, draws, test, n) && AtLast(runs, c) && Flat(runs) == [c]
  {
    hide Aligned, Seeded, BeValue, Steps, Loses;
    var runs := [Run(draws[0].value, [c])];
    assert runs[..0] == [] && Flat(runs) == [] + [c];
    StartIs([], n, draws[0].value, c);
    assert [] + runs == runs;
  }

  lemma TrackSame(runs: seq<Run>, draws: seq<Option<seq<byte>>>, test: (nat, nat) -> Verdict, n: nat,
                  c: Candidate, d: Candidate)
    requires n > 0 && Track(runs, draws, test, n) && AtLast(runs, c) && Steps(c, d, n)
    requires Flat(runs) != [] && test(|Flat(runs)| - 1, c.value) == Composite
    ensures var next := Extend(runs, d);
      Track(next, draws, test, n) && AtLast(next, d) && |Flat(next)| == |Flat(runs)| + 1
  {
    hide EndsLosing, DrawnAt, Searched, AllRuns, Steps;
    var next := Extend(runs, d);
    ExtendIs(runs, n, c, d);
    SearchedMore(runs, next, c, d, test);
    forall r | 0 <= r < |next| ensures DrawnAt(next[..r], next[r].seed, draws) {
      assert next[..r] == runs[..r] && next[r].seed == runs[r].seed;
      assert DrawnAt(runs[..r], runs[r].seed, draws);
    }
  }

  lemma DrawnMore(runs: seq<Run>, draws: seq<Option<seq<byte>>>, seed: seq<byte>, d: Candidate)
    requires Drawn(runs, draws) && DrawnAt(runs, seed, draws)
    ensures Drawn(runs + [Run(seed, [d])], draws)
  {
    hide DrawnAt;
    var next := runs + [Run(seed, [d])];
    forall r | 0 <= r < |next| ensures DrawnAt(next[..r], next[r].seed, draws) {
      assert next[..r] == runs[..r] && runs[..|runs|] == runs;
      assert r < |runs| ==> DrawnAt(runs[..r], runs[r].seed, draws);
    }
  }

  lemma MaximalMore(runs: seq<Run>, next: seq<Run>, n: nat, c: Candidate)
    requires n > 0 && Maximal(runs, n) && AtLast(runs, c) && Loses(c, n)
    requires |next| == |runs| + 1 && next[..|runs|] == runs
    ensures Maximal(next, n)
  {
    hide Loses;
    assert EndsLosing(runs[|runs| - 1], n);
    forall r | 0 <= r < |next| - 1 ensures EndsLosing(next[r], n) {
      assert next[r] == next[..|runs|][r];
    }
  }

  lemma TrackNew(runs: seq<Run>, draws: seq<Option<seq<byte>>>, test: (nat, nat) -> Verdict, n: nat,
                 c: Candidate, d: Candidate)
    requires n > 0 && Track(runs, draws, test, n) && AtLast(runs, c) && Loses(c, n)
    requires Flat(runs) != [] && test(|Flat(runs)| - 1, c.value) == Composite
    requires |Flat(runs)| < |draws| && draws[|Flat(runs)|].Some?
    requires var seed := draws[|Flat(runs)|].value;
      |seed| == n && Aligned(BeValue(Seeded(seed)), d.value, n, d.idx, d.rem)
    ensures var next := runs + [Run(draws[|Flat(runs)|].value, [d])];
      Track(next, draws, test, n) && AtLast(next, d) && |Flat(next)| == |Flat(runs)| + 1
  {
    hide Loses, Searched, AllRuns, Aligned, Seeded, BeValue, Flat, Drawn, Maximal;
    var seed := draws[|Flat(runs)|].value;
    var next := runs + [Run(seed, [d])];
    StartIs(runs, n, seed, d);
    SearchedMore(runs, next, c, d, test);
    DrawnMore(runs, draws, seed, d);
    MaximalMore(runs, next, n, c);
  }

  /** What a successful advance does to the runs. */
  lemma TrackNext(runs: seq<Run>, draws: seq<Option<seq<byte>>>, test: (nat, nat) -> Verdict, n: nat,
                  c: Candidate, d: Candidate)
    returns (next: seq<Run>)
    requires n > 0 && Track(runs, draws, test, n) && runs != [] && AtLast(runs, c) && c.idx < |Gaps()|
    requires 0 < |Flat(runs)| < |draws| && test(|Flat(runs)| - 1, c.value) == Composite
    requires var draw := draws[|Flat(runs)|];
      var keeps := TopBits((c.value + Gaps()[c.idx]) % Pow256(n), n);
      && (draw.Some? ==> |draw.value| == n)
      && if keeps then Moves(c.value, d.value, n, c.idx, c.rem, d.idx, d.rem)
         else draw.Some? && Aligned(BeValue(Seeded(draw.value)), d.value, n, d.idx, d.rem)
    ensures Track(next, draws, test, n) && next != [] && AtLast(next, d) && |Flat(next)| == |Flat(runs)| + 1
  {
    hide BeValue, Pow256, Aligned, Seeded, TopBits, Residues, Gaps, Flat, Track, AtLast;
    if TopBits((c.value + Gaps()[c.idx]) % Pow256(n), n) {
      assert Steps(c, d, n);
      next := Extend(runs, d);
      TrackSame(runs, draws, test, n, c, d);
    } else {
      next := runs + [Run(draws[|Flat(runs)|].value, [d])];
      TrackNew(runs, draws, test, n, c, d);
    }
  }

  // ----- What a search promises -----

  /** The number that a search ends with. */
  ghost function Result(runs: seq<Run>): nat {
    if runs != [] && runs[|runs| - 1].candidates != []
    then runs[|runs| - 1].candidates[|runs[|runs| - 1].candidates| - 1].value
    else 0
  }

  ghost predicate KeptLast(runs: seq<Run>) {
    runs != [] && Kept(runs[|runs| - 1].seed)
  }

  lemma FlatLast(runs: seq<Run>, i: nat) returns (k: nat)
    requires runs != [] && i < |runs[|runs| - 1].candidates|
    ensures k < |Flat(runs)| && Flat(runs)[k] == runs[|runs| - 1].candidates[i]
    ensures i < |runs[|runs| - 1].candidates| - 1 ==> k < |Flat(runs)| - 1
  {
    k := |Flat(runs[..|runs| - 1])| + i;
  }

  /**
   * A prime found in a kept run is the first number from the run's seed on that was not found composite, among
   * those that the wheel does not skip.
   */
  lemma NothingOverlooked(runs: seq<Run>, n: nat, test: (nat, nat) -> Verdict, m: nat)
    requires AllRuns(runs, n) && Searched(runs, test) && KeptLast(runs) && Coprime(m)
    requires BeValue(Seeded(runs[|runs| - 1].seed)) <= m < Result(runs)
    ensures exists k :: 0 <= k < |Flat(runs)| - 1 && Flat(runs)[k].value == m && test(k, m) == Composite
  {
    hide BeValue, Coprime, HasCoprime, Kept, Seeded, IsRun, Flat, AllRuns;
    LastIsRun(runs, n);
    var last := runs[|runs| - 1];
    RunMissesNone(last.seed, last.candidates, |last.candidates| - 1, m);
    var i :| 0 <= i < |last.candidates| && last.candidates[i].value == m;
    var k := FlatLast(runs, i);
    assert test(k, m) == Composite;
  }

  /** The number that a search ends with has its top bits exactly when the seed of its last run keeps. */
  lemma ResultTop(runs: seq<Run>, n: nat)
    requires n > 0 && AllRuns(runs, n) && runs != []
    ensures TopBits(Result(runs), n) <==> KeptLast(runs)
  {
    hide TopBits, Kept, IsRun, Pow256;
    LastIsRun(runs, n);
    var last := runs[|runs| - 1];
    ValueInRange(last.seed, last.candidates, |last.candidates| - 1);
    if !Kept(last.seed) {
      LostRunEnds(last.seed, last.candidates);
    }
  }

  /** The product of the numbers that two searches end with has full length exactly when both last seeds keep. */
  lemma ResultModulus(runs: seq<Run>, runs': seq<Run>, n: nat)
    requires n > 0 && AllRuns(runs, n) && AllRuns(runs', n) && runs != [] && runs' != []
    ensures var product, size := Result(runs) * Result(runs'), Pow256(2 * n);
      product < size && (size <= 2 * product <==> KeptLast(runs) && KeptLast(runs'))
  {
    hide Kept, IsRun, Pow256;
    LastIsRun(runs, n);
    LastIsRun(runs', n);
    var r, r' := runs[|runs| - 1], runs'[|runs'| - 1];
    ModulusHasFullLength(r.seed, r.candidates, |r.candidates| - 1, r'.seed, r'.candidates, |r'.candidates| - 1);
  }

  // ----- A search is determined by the generator and the tests -----

  /** The search before its last candidate. */
  ghost function Pop(runs: seq<Run>): seq<Run>
    requires runs != [] && runs[|runs| - 1].candidates != []
  {
    var last := runs[|runs| - 1];
    var k := |last.candidates| - 1;
    if k == 0 then runs[..|runs| - 1] else runs[..|runs| - 1] + [Run(last.seed, last.candidates[..k])]
  }

  lemma RunPrefix(seed: seq<byte>, cs: seq<Candidate>, k: nat)
    requires IsRun(seed, cs) && 0 < k <= |cs|
    ensures IsRun(seed, cs[..k])
  {
    hide Steps, Aligned, Seeded, BeValue;
  }

  lemma PopParts(runs: seq<Run>)
    requires runs != [] && runs[|runs| - 1].candidates != []
    ensures var pop := Pop(runs);
      && |runs| - 1 <= |pop| <= |runs|
      && (forall r :: 0 <= r < |runs| - 1 ==> pop[r] == runs[r])
      && (forall r :: 0 <= r < |pop| ==> pop[..r] == runs[..r] && pop[r].seed == runs[r].seed)
  {
  }

  lemma PopFlat(runs: seq<Run>)
    requires runs != [] && runs[|runs| - 1].candidates != []
    ensures Flat(runs) != [] && Flat(Pop(runs)) == Flat(runs)[..|Flat(runs)| - 1]
  {
    var last, init, pop := runs[|runs| - 1], runs[..|runs| - 1], Pop(runs);
    var k := |last.candidates| - 1;
    assert Flat(runs) == Flat(init) + last.candidates;
    assert Flat(runs)[..|Flat(runs)| - 1] == Flat(init) + last.candidates[..k];
    if k == 0 {
      assert Flat(init) + last.candidates[..k] == Flat(init);
    } else {
      assert pop[..|pop| - 1] == init;
    }
  }

  lemma PopIs(runs: seq<Run>, draws: seq<Option<seq<byte>>>, test: (nat, nat) -> Verdict, n: nat)
    requires Track(runs, draws, test, n) && runs != []
    ensures runs[|runs| - 1].candidates != [] && Flat(runs) != []
    ensures Flat(Pop(runs)) == Flat(runs)[..|Flat(runs)| - 1]
    ensures Track(Pop(runs), draws, test, n)
  {
    hide EndsLosing, DrawnAt, IsRun, Flat;
    LastIsRun(runs, n);
    var last, pop := runs[|runs| - 1], Pop(runs);
    PopFlat(runs);
    PopParts(runs);
    if |pop| == |runs| {
      RunPrefix(last.seed, last.candidates, |last.candidates| - 1);
    }
    forall r | 0 <= r < |pop| ensures DrawnAt(pop[..r], pop[r].seed, draws) {
      assert DrawnAt(runs[..r], runs[r].seed, draws);
    }
  }

  /** The last candidate came about by a step that keeps the top bits, */
  ghost predicate ByStep(runs: seq<Run>, pop: seq<Run>, d: Candidate, n: nat)
    requires n > 0
  {
    pop != [] && runs == Extend(pop, d) && exists c :: AtLast(pop, c) && Steps(c, d, n)
  }

  /** or from the generator, at first or after a step that does not. */
  ghost predicate ByDraw(runs: seq<Run>, pop: seq<Run>, d: Candidate, draws: seq<Option<seq<byte>>>, n: nat)
    requires n > 0
  {
    && |Flat(pop)| < |draws| && draws[|Flat(pop)|].Some?
    && var seed := draws[|Flat(pop)|].value;
    && |seed| == n && runs == pop + [Run(seed, [d])]
    && Aligned(BeValue(Seeded(seed)), d.value, n, d.idx, d.rem)
    && (pop == [] || exists c :: AtLast(pop, c) && Loses(c, n))
  }

  lemma PushedByStep(runs: seq<Run>, n: nat)
    requires n > 0 && runs != [] && |runs[|runs| - 1].candidates| > 1
    requires var last := runs[|runs| - 1]; |last.seed| == n && IsRun(last.seed, last.candidates)
    ensures var cs := runs[|runs| - 1].candidates; ByStep(runs, Pop(runs), cs[|cs| - 1], n)
  {
    hide Steps, Aligned, Seeded, BeValue;
    var last, pop, init := runs[|runs| - 1], Pop(runs), runs[..|runs| - 1];
    var cs := last.candidates;
    var c, d, shorter := cs[|cs| - 2], cs[|cs| - 1], cs[..|cs| - 1];
    assert shorter + [d] == cs && pop[..|pop| - 1] == init && pop[|pop| - 1] == Run(last.seed, shorter);
    assert init + [last] == runs;
    assert Steps(cs[|cs| - 2], cs[|cs| - 2 + 1], n);
    assert AtLast(pop, c);
  }

  lemma PushedByDraw(runs: seq<Run>, n: nat)
    requires n > 0 && runs != [] && |runs[|runs| - 1].candidates| == 1 && Maximal(runs, n)
    ensures var cs, pop := runs[|runs| - 1].candidates, Pop(runs);
      && runs == pop + [Run(runs[|runs| - 1].seed, [cs[0]])]
      && (pop == [] || exists c :: AtLast(pop, c) && Loses(c, n))
  {
    hide Loses;
    var pop, last := Pop(runs), runs[|runs| - 1];
    assert last.candidates == [last.candidates[0]] && runs == runs[..|runs| - 1] + [last];
    if pop != [] {
      var e := runs[|runs| - 2];
      assert EndsLosing(e, n);
      assert AtLast(pop, e.candidates[|e.candidates| - 1]);
    }
  }

  lemma Pushed(runs: seq<Run>, draws: seq<Option<seq<byte>>>, test: (nat, nat) -> Verdict, n: nat)
    returns (d: Candidate)
    requires n > 0 && Track(runs, draws, test, n) && runs != [] && runs[|runs| - 1].candidates != []
    ensures ByStep(runs, Pop(runs), d, n) || ByDraw(runs, Pop(runs), d, draws, n)
  {
    hide Loses, Steps, Aligned, Seeded, BeValue, Searched, Flat, Maximal, AllRuns;
    LastIsRun(runs, n);
    var cs := runs[|runs| - 1].candidates;
    d := cs[|cs| - 1];
    if |cs| > 1 {
      PushedByStep(runs, n);
    } else {
      assert DrawnAt(runs[..|runs| - 1], runs[|runs| - 1].seed, draws);
      PushedByDraw(runs, n);
    }
  }

  lemma StepsKeep(c: Candidate, d: Candidate, n: nat)
    requires n > 0 && Steps(c, d, n)
    ensures !Loses(c, n)
  {
    hide TopBits, Pow256, Gaps;
  }

  lemma StepsOnce(c: Candidate, d: Candidate, e: Candidate, n: nat)
    requires n > 0 && Steps(c, d, n) && Steps(c, e, n)
    ensures d == e
  {
    hide TopBits, Pow256, Gaps;
  }

  lemma PushedOnce(runs: seq<Run>, runs': seq<Run>, pop: seq<Run>, d: Candidate, e: Candidate,
                   draws: seq<Option<seq<byte>>>, n: nat)
    requires n > 0
    requires ByStep(runs, pop, d, n) || ByDraw(runs, pop, d, draws, n)
    requires ByStep(runs', pop, e, n) || ByDraw(runs', pop, e, draws, n)
    ensures runs == runs'
  {
    hide Aligned, Seeded, BeValue, Steps, Loses, Flat;
    if ByStep(runs, pop, d, n) {
      var c :| AtLast(pop, c) && Steps(c, d, n);
      StepsKeep(c, d, n);
      var c' :| AtLast(pop, c') && Steps(c', e, n);
      StepsOnce(c, d, e, n);
    } else {
      if ByStep(runs', pop, e, n) {
        var c :| AtLast(pop, c) && Steps(c, e, n);
        StepsKeep(c, e, n);
      }
      AlignedOnce(BeValue(Seeded(draws[|Flat(pop)|].value)), n, d, e);
    }
  }

  lemma {:induction false} SameTrack(runs: seq<Run>, runs': seq<Run>, draws: seq<Option<seq<byte>>>,
                                     test: (nat, nat) -> Verdict, n: nat)
    requires Track(runs, draws, test, n) && Track(runs', draws, test, n) && |Flat(runs)| == |Flat(runs')|
    ensures runs == runs'
    decreases |Flat(runs)|
  {
    hide Loses, Steps, IsRun, Flat, Searched, AllRuns, Maximal, Drawn;
    if runs == [] || runs' == [] {
      if runs != [] { PopIs(runs, draws, test, n); }
      if runs' != [] { PopIs(runs', draws, test, n); }
      EmptyFlat();
    } else {
      PopIs(runs, draws, test, n);
      PopIs(runs', draws, test, n);
      SameTrack(Pop(runs), Pop(runs'), draws, test, n);
      var d := Pushed(runs, draws, test, n);
      var e := Pushed(runs', draws, test, n);
      PushedOnce(runs, runs', Pop(runs), d, e, draws, n);
    }
  }

  lemma LastComposite(runs: seq<Run>, more: seq<Run>, test: (nat, nat) -> Verdict)
    requires Searched(more, test) && Flat(more) != [] && Flat(more)[..|Flat(more)| - 1] == Flat(runs) != []
    ensures var k := |Flat(runs)| - 1; test(k, Flat(runs)[k].value) == Composite
  {
    hide Flat;
    var k := |Flat(runs)| - 1;
    assert Flat(more)[k] == Flat(runs)[k];
  }

  lemma PushedOn(runs: seq<Run>, more: seq<Run>, c: Candidate, d: Candidate, draws: seq<Option<seq<byte>>>, n: nat)
    requires n > 0 && AtLast(runs, c) && |Flat(runs)| < |draws|
    requires ByStep(more, runs, d, n) || ByDraw(more, runs, d, draws, n)
    ensures !Loses(c, n) || draws[|Flat(runs)|].Some?
  {
    hide Flat, Loses, Steps, Aligned, Seeded, BeValue, Extend;
    if ByStep(more, runs, d, n) {
      StepsKeep(c, d, n);
    }
  }

  lemma OverForGood(runs: seq<Run>, more: seq<Run>, draws: seq<Option<seq<byte>>>, test: (nat, nat) -> Verdict,
                    maxAttempts: nat, n: nat)
    requires n > 0 && Limit(maxAttempts) < |draws| && Track(runs, draws, test, n) && Track(more, draws, test, n)
    requires more != [] && more[|more| - 1].candidates != [] && Pop(more) == runs
    requires |Flat(runs)| + 1 == |Flat(more)| <= Limit(maxAttempts) + 1
    ensures !Over(runs, draws, test, maxAttempts, n)
  {
    hide Flat, Loses, Pop, AllRuns, Drawn, Maximal, Searched, ByStep, ByDraw, AtLast;
    PopFlat(more);
    var d := Pushed(more, draws, test, n);
    EmptyFlat();
    if runs != [] {
      PopIs(runs, draws, test, n);
      LastComposite(runs, more, test);
      var c := LastCandidate(runs);
      PushedOn(runs, more, c, d, draws, n);
    } else {
      FirstDraw(more, d, draws, n);
    }
  }

  lemma LastCandidate(runs: seq<Run>) returns (c: Candidate)
    requires runs != [] && runs[|runs| - 1].candidates != []
    ensures AtLast(runs, c) && Flat(runs) != [] && Flat(runs)[|Flat(runs)| - 1] == c
  {
    var cs := runs[|runs| - 1].candidates;
    c := cs[|cs| - 1];
    LastOfFlat(runs, c);
  }

  lemma FirstDraw(more: seq<Run>, d: Candidate, draws: seq<Option<seq<byte>>>, n: nat)
    requires n > 0 && (ByStep(more, [], d, n) || ByDraw(more, [], d, draws, n))
    ensures draws != [] && draws[0].Some?
  {
    EmptyFlat();
    hide Flat;
  }

  /** A search that is over is not part of a longer one. */
  lemma {:induction false} NotLonger(runs: seq<Run>, more: seq<Run>, draws: seq<Option<seq<byte>>>,
                                     test: (nat, nat) -> Verdict, maxAttempts: nat, n: nat)
    requires IsSearch(runs, draws, test, maxAttempts, n) && Track(more, draws, test, n)
    requires |Flat(more)| <= Limit(maxAttempts) + 1
    ensures |Flat(more)| <= |Flat(runs)|
    decreases |Flat(more)|
  {
    hide Flat, Loses, Steps, Track, Aligned, Seeded, BeValue, Pop;
    if |Flat(runs)| < |Flat(more)| {
      EmptyFlat();
      PopIs(more, draws, test, n);
      NotLonger(runs, Pop(more), draws, test, maxAttempts, n);
      SameTrack(runs, Pop(more), draws, test, n);
      OverForGood(runs, more, draws, test, maxAttempts, n);
    }
  }

  /** There is one search for what the generator delivers and the tests say. */
  lemma SearchIsDetermined(runs: seq<Run>, runs': seq<Run>, draws: seq<Option<seq<byte>>>,
                           test: (nat, nat) -> Verdict, maxAttempts: nat, n: nat)
    requires IsSearch(runs, draws, test, maxAttempts, n) && IsSearch(runs', draws, test, maxAttempts, n)
    ensures runs == runs'
  {
    hide Flat, Track;
    EmptyFlat();
    NotLonger(runs, runs', draws, test, maxAttempts, n);
    NotLonger(runs', runs, draws, test, maxAttempts, n);
    SameTrack(runs, runs', draws, test, n);
  }

  // ----- The routines -----

  lemma FoundIsKept(runs: seq<Run>, test: (nat, nat) -> Verdict, maxAttempts: nat)
    ensures Found(runs, test, maxAttempts) ==> !Wiped(runs, test, maxAttempts)
  {
  }

  lemma ResultIs(runs: seq<Run>, c: Candidate)
    requires AtLast(runs, c)
    ensures Result(runs) == c.value
  {
  }

  /**
   * rsa_generate_prime. `draws[k]` is what the random generator delivers if it is asked in attempt k, `test` the
   * verdict of the tests on a number in an attempt; `runs` are the candidates met.
   */
  method GeneratePrime(prime: array<byte>, draws: seq<Option<seq<byte>>>, test: (nat, nat) -> Verdict, maxAttempts: nat)
    returns (found: bool, ghost runs: seq<Run>)
    requires prime.Length > 0 && Limit(maxAttempts) < |draws|
    requires forall k :: 0 <= k < |draws| && draws[k].Some? ==> |draws[k].value| == prime.Length
    modifies prime
    ensures IsSearch(runs, draws, test, maxAttempts, prime.Length)
    ensures found <==> Found(runs, test, maxAttempts)
    ensures if Wiped(runs, test, maxAttempts) then forall k :: 0 <= k < prime.Length ==> prime[k] == 0
            else BeValue(prime[..]) == Result(runs)
  {
    hide BeValue, Pow256, Aligned, Moves, Stepped, Steps, Seeded, TopBits, OnWheel, HasCoprime, Residues, Gaps;
    hide IsRun, Flat, Track, AtLast, Extend, Result;
    var n := prime.Length;
    runs := [];
    TrackNothing(draws, test, n);
    EmptyFlat();
    if draws[0].None? {
      forall k | 0 <= k < n { prime[k] := 0; }
      return false, runs;
    }
    var seed := Seeded(draws[0].value);
    SeededTop(draws[0].value);
    forall k | 0 <= k < n { prime[k] := seed[k]; }
    assert prime[..] == seed;
    var idx: nat, rem: nat := Align(prime);
    ghost var c := Candidate(BeValue(prime[..]), idx, rem);
    TrackFirst(draws, test, n, c);
    runs := [Run(draws[0].value, [c])];
    var attempts, more := 0, true;
    while more
      invariant idx < |Gaps()| && rem < WHEEL && c == Candidate(BeValue(prime[..]), idx, rem)
      invariant Track(runs, draws, test, n) && AtLast(runs, c) && |Flat(runs)| == attempts + 1 && runs != []
      invariant if more then attempts < Limit(maxAttempts) else attempts == Limit(maxAttempts)
      decreases Limit(maxAttempts) - attempts, more
    {
      attempts := attempts + 1;
      LastOfFlat(runs, c);
      ResultIs(runs, c);
      var verdict := test(attempts - 1, BeValue(prime[..]));
      match verdict {
        case Failed => return false, runs;
        case ProbablyPrime => return true, runs;
        case Composite =>
      }
      var ok: bool;
      ghost var b := c;
      ok, idx, rem := Advance(prime, idx, rem, draws[attempts]);
      if !ok { return false, runs; }
      c := Candidate(BeValue(prime[..]), idx, rem);
      ghost var next := TrackNext(runs, draws, test, n, b, c);
      runs := next;
      more := attempts < maxAttempts;
    }
    ResultIs(runs, c);
    return false, runs;
  }

  ghost predicate FoundAgain(p: seq<Run>, q: seq<Run>, test: (nat, nat) -> Verdict, maxAttempts: nat) {
    Found(q, test, maxAttempts) && Result(q) == Result(p)
  }

  /**
   * The searches of a key generation: one for p and, if it finds a prime, up to four for q. Search k draws from
   * `draws[k]` and is judged by `tests[k]`. After a search for q another one follows exactly when it found p again.
   */
  ghost predicate IsPair(p: seq<Run>, qs: seq<seq<Run>>, draws: seq<seq<Option<seq<byte>>>>,
                         tests: seq<(nat, nat) -> Verdict>, maxAttempts: nat, n: nat)
    requires |draws| == |tests| == 5
  {
    && IsSearch(p, draws[0], tests[0], maxAttempts, n)
    && |qs| <= 4 && (qs != [] <==> Found(p, tests[0], maxAttempts))
    && (forall k :: 0 <= k < |qs| ==> IsSearch(qs[k], draws[k + 1], tests[k + 1], maxAttempts, n))
    && (forall k :: 0 <= k < |qs| && FoundAgain(p, qs[k], tests[k + 1], maxAttempts) ==> k == 3 || k < |qs| - 1)
    && (forall k :: 0 <= k < |qs| - 1 ==> FoundAgain(p, qs[k], tests[k + 1], maxAttempts))
  }

  /** Did the last search for q find a prime other than p? */
  ghost predicate PairFound(p: seq<Run>, qs: seq<seq<Run>>, tests: seq<(nat, nat) -> Verdict>, maxAttempts: nat)
    requires |qs| < |tests|
  {
    qs != [] && Found(qs[|qs| - 1], tests[|qs|], maxAttempts) && Result(qs[|qs| - 1]) != Result(p)
  }

  lemma AnotherFollows(p: seq<Run>, qs: seq<seq<Run>>, qs': seq<seq<Run>>, draws: seq<seq<Option<seq<byte>>>>,
                       tests: seq<(nat, nat) -> Verdict>, maxAttempts: nat, n: nat, k: nat)
    requires |draws| == |tests| == 5
    requires IsPair(p, qs, draws, tests, maxAttempts, n) && IsPair(p, qs', draws, tests, maxAttempts, n)
    requires k < |qs| && k < |qs'| - 1 && qs[k] == qs'[k]
    ensures k < |qs| - 1
  {
    hide IsSearch, FoundAgain;
    assert FoundAgain(p, qs'[k], tests[k + 1], maxAttempts);
  }

  /** The searches are determined by the generator and the tests, */
  lemma PairIsDetermined(p: seq<Run>, qs: seq<seq<Run>>, p': seq<Run>, qs': seq<seq<Run>>,
                         draws: seq<seq<Option<seq<byte>>>>, tests: seq<(nat, nat) -> Verdict>, maxAttempts: nat,
                         n: nat)
    requires |draws| == |tests| == 5
    requires IsPair(p, qs, draws, tests, maxAttempts, n) && IsPair(p', qs', draws, tests, maxAttempts, n)
    ensures p == p' && qs == qs'
  {
    hide IsSearch, Found, Result;
    SearchIsDetermined(p, p', draws[0], tests[0], maxAttempts, n);
    forall k | 0 <= k < |qs| && k < |qs'| ensures qs[k] == qs'[k] {
      SearchIsDetermined(qs[k], qs'[k], draws[k + 1], tests[k + 1], maxAttempts, n);
    }
    if 0 < |qs| < |qs'| {
      AnotherFollows(p, qs, qs', draws, tests, maxAttempts, n, |qs| - 1);
    } else if 0 < |qs'| < |qs| {
      AnotherFollows(p, qs', qs, draws, tests, maxAttempts, n, |qs'| - 1);
    }
  }

  /** they fail exactly when p's search does, or the last one for q, or when all four for q find p again, */
  lemma PairFailsIff(p: seq<Run>, qs: seq<seq<Run>>, draws: seq<seq<Option<seq<byte>>>>,
                     tests: seq<(nat, nat) -> Verdict>, maxAttempts: nat, n: nat)
    requires |draws| == |tests| == 5 && IsPair(p, qs, draws, tests, maxAttempts, n)
    ensures !PairFound(p, qs, tests, maxAttempts) <==>
              || !Found(p, tests[0], maxAttempts)
              || (qs != [] && !Found(qs[|qs| - 1], tests[|qs|], maxAttempts))
              || (|qs| == 4 && forall k :: 0 <= k < 4 ==> Result(qs[k]) == Result(p))
  {
    hide IsSearch, Found, Result;
    assert forall k :: 0 <= k < |qs| - 1 ==> FoundAgain(p, qs[k], tests[k + 1], maxAttempts);
    if qs != [] {
      var k := |qs| - 1;
      assert FoundAgain(p, qs[k], tests[k + 1], maxAttempts) ==> k == 3;
    }
  }

  /** and the product of the two primes has full length exactly when the generator's last seeds keep. */
  lemma PairModulus(p: seq<Run>, qs: seq<seq<Run>>, draws: seq<seq<Option<seq<byte>>>>,
                    tests: seq<(nat, nat) -> Verdict>, maxAttempts: nat, n: nat)
    requires |draws| == |tests| == 5
    requires IsPair(p, qs, draws, tests, maxAttempts, n) && PairFound(p, qs, tests, maxAttempts)
    ensures var product, size := Result(p) * Result(qs[|qs| - 1]), Pow256(2 * n);
      product < size && (size <= 2 * product <==> KeptLast(p) && KeptLast(qs[|qs| - 1]))
  {
    hide Result, KeptLast, Pow256, AllRuns, Drawn, Maximal, Searched, Over, Flat;
    EmptyFlat();
    var k := |qs| - 1;
    assert IsSearch(qs[k], draws[k + 1], tests[k + 1], maxAttempts, n);
    ResultModulus(p, qs[k], n);
  }

  lemma Differ(s: seq<byte>, t: seq<byte>)
    requires |s| == |t| && s != t
    ensures BeValue(s) != BeValue(t)
  {
    if BeValue(s) == BeValue(t) {
      BeValueInjective(s, t);
    }
  }

  /**
   * The part of noxtls_rsa_key_generate that finds p and q and checks the top bit of their product. Call k of the
   * search gets `draws[k]` and the verdicts of `tests[k]`: the first is for p, at most four are for q.
   */
  method GeneratePair(p: array<byte>, q: array<byte>, draws: seq<seq<Option<seq<byte>>>>,
                      tests: seq<(nat, nat) -> Verdict>, maxAttempts: nat)
    returns (found: bool, full: bool, ghost pRuns: seq<Run>, ghost qTries: seq<seq<Run>>)
    requires p != q && p.Length == q.Length > 0 && |draws| == |tests| == 5
    requires forall k :: 0 <= k < |draws| ==> Limit(maxAttempts) < |draws[k]|
    requires forall k, i :: 0 <= k < |draws| && 0 <= i < |draws[k]| && draws[k][i].Some? ==>
                              |draws[k][i].value| == p.Length
    modifies p, q
    ensures IsPair(pRuns, qTries, draws, tests, maxAttempts, p.Length)
    ensures found <==> PairFound(pRuns, qTries, tests, maxAttempts)
    ensures found ==> BeValue(p[..]) == Result(pRuns) && BeValue(q[..]) == Result(qTries[|qTries| - 1])
    ensures full <==> found && KeptLast(pRuns) && KeptLast(qTries[|qTries| - 1])
  {
    hide BeValue, Pow256, Found, Wiped, IsSearch, Result, KeptLast;
    found, full, pRuns, qTries := false, false, [], [];
    var ok: bool;
    ok, pRuns := GeneratePrime(p, draws[0], tests[0], maxAttempts);
    FoundIsKept(pRuns, tests[0], maxAttempts);
    if !ok { return; }
    ghost var first := p[..];
    var tries := 0;
    while tries < 4 && !found
      invariant tries == |qTries| <= 4 && p[..] == first
      invariant forall k :: 0 <= k < tries ==>
                              IsSearch(qTries[k], draws[k + 1], tests[k + 1], maxAttempts, p.Length)
      invariant forall k :: 0 <= k < tries && (!found || k < tries - 1) ==>
                              FoundAgain(pRuns, qTries[k], tests[k + 1], maxAttempts)
      invariant found ==> PairFound(pRuns, qTries, tests, maxAttempts) && BeValue(q[..]) == Result(qTries[tries - 1])
    {
      ghost var qRuns;
      ok, qRuns := GeneratePrime(q, draws[tries + 1], tests[tries + 1], maxAttempts);
      FoundIsKept(qRuns, tests[tries + 1], maxAttempts);
      tries, qTries := tries + 1, qTries + [qRuns];
      if !ok { return; }
      if p[..] != q[..] {
        Differ(p[..], q[..]);
        found := true;
      }
    }
    if found {
      full := Pow256(2 * p.Length) <= 2 * (BeValue(p[..]) * BeValue(q[..]));
      PairModulus(pRuns, qTries, draws, tests, maxAttempts, p.Length);
    }
  }
}
