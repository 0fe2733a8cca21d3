/** Runs of the RSA prime search: the candidates between one seed and the next. */
module PrimeRun {
  import opened Bytes
  import opened Wheel
  import opened PrimeSearch

  /** A candidate with the wheel position that the search keeps for it. */
  datatype Candidate = Candidate(value: nat, idx: nat, rem: nat)

  /** One advance that does not reseed: the stepped value still has its top bits. */
  ghost predicate Steps(c: Candidate, d: Candidate, n: nat)
    requires n > 0
  {
    Moves(c.value, d.value, n, c.idx, c.rem, d.idx, d.rem) && TopBits(d.value, n)
  }

  /** The candidates that follow one another from a seed: alignment, then advances without reseeding. */
  ghost predicate IsRun(seed: seq<byte>, cs: seq<Candidate>) {
    && seed != [] && cs != []
    && Aligned(BeValue(Seeded(seed)), cs[0].value, |seed|, cs[0].idx, cs[0].rem)
    && forall i :: 0 <= i < |cs| - 1 ==> Steps(cs[i], cs[i + 1], |seed|)
  }

  /** Does the range of the seed's length still hold a number that the wheel does not skip, from the seed on? */
  ghost predicate Kept(seed: seq<byte>) {
    seed != [] && HasCoprime(BeValue(Seeded(seed)), |seed|)
  }

  lemma SeededTop(seed: seq<byte>)
    requires seed != []
    ensures |Seeded(seed)| == |seed| && TopBits(BeValue(Seeded(seed)), |seed|)
    ensures BeValue(Seeded(seed)) < Pow256(|seed|)
  {
    hide BeValue, Pow256, TopBits;
    assert 192 <= Seeded(seed)[0];
    TopOctet(Seeded(seed));
    BeValueBound(Seeded(seed));
  }

  lemma NextHere(v: int)
    requires Coprime(v)
    ensures NextCoprime(v, v)
  {
    hide Coprime;
  }

  lemma NextFurther(v: int, to: int)
    requires !Coprime(v) && NextCoprime(v + 1, to)
    ensures NextCoprime(v, to)
  {
    hide Coprime;
  }

  lemma {:induction false} NextUpTo(v: nat, m: nat) returns (to: nat)
    requires v <= m && Coprime(m)
    ensures NextCoprime(v, to) && to <= m
    decreases m - v
  {
    hide *;
    if Coprime(v) {
      to := v;
      NextHere(v);
    } else {
      to := NextUpTo(v + 1, m);
      NextFurther(v, to);
    }
  }

  /** Every seed starts a run, */
  lemma RunExists(seed: seq<byte>) returns (c: Candidate)
    requires seed != []
    ensures IsRun(seed, [c])
  {
    hide Residues, CoprimeIn, Coprime, BeValue, Pow256, Seeded, NextCoprime;
    var v := BeValue(Seeded(seed));
    CoprimeOne();
    CoprimeShift(v + 1, 1);
    var to := NextUpTo(v, (v + 1) * WHEEL + 1);
    assert Coprime(to) by {
      NextIsCoprime(v, to);
    }
    CoprimeShift(to / WHEEL, to % WHEEL);
    assert to == to / WHEEL * WHEEL + to % WHEEL;
    TurnEnds();
    var idx := ResidueIndex(to % WHEEL);
    c := Candidate(to % Pow256(|seed|), idx, to % WHEEL);
    assert OnWheel(to, idx, to % WHEEL);
  }

  /** A seed has one first candidate. */
  lemma AlignedOnce(v: nat, n: nat, c: Candidate, d: Candidate)
    requires Aligned(v, c.value, n, c.idx, c.rem) && Aligned(v, d.value, n, d.idx, d.rem)
    ensures c == d
  {
    hide Coprime, Residues, CoprimeIn, Pow256;
    var s: nat :| NextCoprime(v, s) && OnWheel(s, c.idx, c.rem) && c.value == s % Pow256(n);
    var t: nat :| NextCoprime(v, t) && OnWheel(t, d.idx, d.rem) && d.value == t % Pow256(n);
    NextIsCoprime(v, s);
    NextIsCoprime(v, t);
    assert s == t;
    ResidueOnce(c.idx, d.idx);
  }

  lemma ResidueOnce(i: nat, j: nat)
    requires i < |Residues()| && j < |Residues()|
    ensures i != j ==> Residues()[i] != Residues()[j]
  {
    hide Residues, CoprimeIn, Coprime;
    if i < j {
      assert Residues()[i] < Residues()[j];
    } else if j < i {
      assert Residues()[j] < Residues()[i];
    }
  }

  lemma NextIsCoprime(v: int, to: int)
    requires NextCoprime(v, to)
    ensures Coprime(to)
  {
  }

  /** and keeps when it leaves room for one turn of the wheel. */
  lemma RoomKeeps(seed: seq<byte>)
    requires seed != [] && BeValue(Seeded(seed)) + WHEEL <= Pow256(|seed|)
    ensures Kept(seed)
  {
    hide Residues, CoprimeIn, Coprime, BeValue, Pow256, Seeded, NextCoprime;
    var v := BeValue(Seeded(seed));
    CoprimeOne();
    CoprimeShift(v + 1, 1);
    var to := NextUpTo(v, (v + 1) * WHEEL + 1);
    NextIsCoprime(v, to);
    NextWithin(v, to);
    assert v <= to by {
      NextIsAhead(v, to);
    }
  }

  lemma NextIsAhead(v: int, to: int)
    requires NextCoprime(v, to)
    ensures v <= to
  {
  }

  // ----- Runs that keep to the wheel -----

  ghost predicate OnTrack(c: Candidate, n: nat)
    requires n > 0
  {
    OnWheel(c.value, c.idx, c.rem) && TopBits(c.value, n) && c.value < Pow256(n)
  }

  lemma StepStaysOnTrack(c: Candidate, d: Candidate, n: nat)
    requires n > 0 && Steps(c, d, n) && OnTrack(c, n)
    ensures OnTrack(d, n) && NextCoprime(c.value + 1, d.value)
  {
    hide Residues, CoprimeIn, Gaps, Coprime, NextCoprime, OnWheel, TopBits, Pow256;
    AdvanceTarget(c.value, c.idx, c.rem);
    KeptStepFits(c.value, c.value + Gaps()[c.idx], n);
  }

  /** Every candidate of a kept run has its top bits and its wheel position, and is next after the one before. */
  lemma {:induction false} RunStaysOnTrack(seed: seq<byte>, cs: seq<Candidate>, k: nat)
    requires IsRun(seed, cs) && Kept(seed) && k < |cs|
    ensures OnTrack(cs[k], |seed|)
    ensures NextCoprime(if k == 0 then BeValue(Seeded(seed)) else cs[k - 1].value + 1, cs[k].value)
  {
    hide BeValue, Pow256, Coprime, NextCoprime, OnWheel, TopBits, HasCoprime, Seeded, Aligned, Steps, Residues, Gaps;
    if k == 0 {
      SeededTop(seed);
      AlignKeepsIff(BeValue(Seeded(seed)), cs[0].value, |seed|, cs[0].idx, cs[0].rem);
    } else {
      RunStaysOnTrack(seed, cs, k - 1);
      StepStaysOnTrack(cs[k - 1], cs[k - 1 + 1], |seed|);
    }
  }

  /** Every number that the wheel does not skip, from the seed to a candidate, is that candidate or one before it. */
  lemma {:induction false} RunMissesNone(seed: seq<byte>, cs: seq<Candidate>, k: nat, m: int)
    requires IsRun(seed, cs) && Kept(seed) && k < |cs|
    requires BeValue(Seeded(seed)) <= m <= cs[k].value && Coprime(m)
    ensures exists i :: 0 <= i <= k && cs[i].value == m
  {
    hide BeValue, Coprime, OnTrack, HasCoprime, Seeded, IsRun, NextCoprime;
    RunStaysOnTrack(seed, cs, k);
    if k > 0 && m <= cs[k - 1].value {
      RunMissesNone(seed, cs, k - 1, m);
    } else {
      OnlyNext(if k == 0 then BeValue(Seeded(seed)) else cs[k - 1].value + 1, cs[k].value, m);
    }
  }

  lemma OnlyNext(v: int, to: int, m: int)
    requires NextCoprime(v, to) && v <= m <= to && Coprime(m)
    ensures m == to
  {
    hide Coprime;
  }

  /** The candidates of a kept run are exactly the numbers, from seed to last, that the wheel does not skip. */
  lemma RunIsExact(seed: seq<byte>, cs: seq<Candidate>, m: int)
    requires IsRun(seed, cs) && Kept(seed)
    ensures (exists i :: 0 <= i < |cs| && cs[i].value == m) <==>
              BeValue(Seeded(seed)) <= m <= cs[|cs| - 1].value && Coprime(m)
  {
    hide BeValue, Coprime, HasCoprime, Seeded, Aligned, Steps;
    if i :| 0 <= i < |cs| && cs[i].value == m {
      RunStaysOnTrack(seed, cs, i);
      RunIncreases(seed, cs, 0, i);
      RunIncreases(seed, cs, i, |cs| - 1);
      RunStaysOnTrack(seed, cs, 0);
    }
    if BeValue(Seeded(seed)) <= m <= cs[|cs| - 1].value && Coprime(m) {
      RunMissesNone(seed, cs, |cs| - 1, m);
    }
  }

  lemma {:induction false} RunIncreases(seed: seq<byte>, cs: seq<Candidate>, i: nat, k: nat)
    requires IsRun(seed, cs) && Kept(seed) && i <= k < |cs|
    ensures cs[i].value <= cs[k].value && (i < k ==> cs[i].value < cs[k].value)
  {
    hide BeValue, Coprime, HasCoprime, Seeded, Aligned, Steps, IsRun, OnTrack;
    if i < k {
      RunIncreases(seed, cs, i, k - 1);
      RunStaysOnTrack(seed, cs, k);
    }
  }

  // ----- Runs that do not -----

  /** When nothing is left in the range, the first candidate has wrapped and the first advance reseeds. */
  lemma LostRunEnds(seed: seq<byte>, cs: seq<Candidate>)
    requires IsRun(seed, cs) && !Kept(seed)
    ensures seed != [] && |cs| == 1 && 2 * cs[0].value <= Pow256(|seed|)
    ensures cs[0].value < Pow256(|seed|)
    ensures !TopBits(cs[0].value, |seed|) && !OnWheel(cs[0].value, cs[0].idx, cs[0].rem)
  {
    var v, n := BeValue(Seeded(seed)), |seed|;
    hide BeValue, Pow256, Coprime, OnWheel, TopBits, Seeded, Residues, Gaps, NextCoprime;
    SeededTop(seed);
    AlignKeepsIff(v, cs[0].value, n, cs[0].idx, cs[0].rem);
    if |cs| > 1 {
      assert Steps(cs[0], cs[1], n);
      var to: nat :| NextCoprime(v, to) && OnWheel(to, cs[0].idx, cs[0].rem) && cs[0].value == to % Pow256(n);
      LostStep(v, to, n, cs[0], cs[1]);
    }
  }

  lemma LostStep(v: nat, to: nat, n: nat, c: Candidate, d: Candidate)
    requires n > 0 && v < Pow256(n) && !HasCoprime(v, n) && NextCoprime(v, to)
    requires OnWheel(to, c.idx, c.rem) && c.value == to % Pow256(n)
    ensures !Steps(c, d, n)
  {
    hide Residues, CoprimeIn, Gaps, Coprime, OnWheel, Pow256;
    assert Pow256(n) <= to by {
      assert NextCoprime(v, to);
    }
    WrapLosesTop(v, to, n);
    AdvanceTarget(to, c.idx, c.rem);
    var p, gap := Pow256(n), Gaps()[c.idx];
    CoprimeOne();
    NextWithin(v, to);
    Pow256Small();
    PowZero();
    PowStep(n);
    if n > 1 {
      Pow256Monotone(2, n);
      Pow256Monotone(1, n - 1);
    } else {
      assert to + gap <= 263;
    }
    Quotient(c.value + gap, p, 0, c.value + gap);
  }

  /** The octets 0xFF, as many as there are, are such a seed. */
  lemma AllOnesIsLost(seed: seq<byte>)
    requires seed != [] && forall k :: 0 <= k < |seed| ==> seed[k] == 0xff
    ensures Seeded(seed) == seed && BeValue(seed) == Pow256(|seed|) - 1 && !Kept(seed)
  {
    SeededOnes(seed);
    AllOnesValue(seed);
    hide BeValue, Pow256, Seeded, Coprime;
    PowModThree(|seed|);
    NoneLeft(Pow256(|seed|));
  }

  lemma SeededOnes(seed: seq<byte>)
    requires seed != [] && forall k :: 0 <= k < |seed| ==> seed[k] == 0xff
    ensures Seeded(seed) == seed
  {
  }

  lemma NoneLeft(p: nat)
    requires p % 3 == 1
    ensures !Coprime(p - 1)
  {
    Quotient(p - 1, 3, p / 3, 0);
  }

  lemma {:induction false} AllOnesValue(s: seq<byte>)
    requires forall k :: 0 <= k < |s| ==> s[k] == 0xff
    ensures BeValue(s) == Pow256(|s|) - 1
  {
    if s != [] {
      AllOnesValue(s[..|s| - 1]);
    }
  }

  // ----- The length of the modulus -----

  lemma {:induction false} Pow256Add(m: nat, n: nat)
    ensures Pow256(m + n) == Pow256(m) * Pow256(n)
  {
    if m > 0 {
      Pow256Add(m - 1, n);
      assert Pow256(m) * Pow256(n) == 256 * (Pow256(m - 1) * Pow256(n));
    }
  }

  /** Two numbers with their top bits set multiply to one of exactly twice their length. */
  lemma TopBitsMultiply(a: nat, b: nat, n: nat)
    requires n > 0 && TopBits(a, n) && TopBits(b, n) && a < Pow256(n) && b < Pow256(n)
    ensures Pow256(2 * n) <= 2 * (a * b) && a * b < Pow256(2 * n)
  {
    hide Pow256;
    Pow256Add(n, n);
    PowStep(n);
    Products(a, b, Pow256(n - 1));
  }

  lemma Products(a: nat, b: nat, w: nat)
    requires 192 * w <= a < 256 * w && 192 * w <= b < 256 * w
    ensures (256 * w) * (256 * w) <= 2 * (a * b) && a * b < (256 * w) * (256 * w)
  {
    var c := 192 * w;
    assert c * c <= a * b by {
      Distribute(a, c, b);
      Distribute(b, c, c);
      MulMonotone(a - c, b);
      MulMonotone(b - c, c);
      assert c * b == b * c;
    }
    assert c * c == 36864 * (w * w) && (256 * w) * (256 * w) == 65536 * (w * w);
    var d := 256 * w;
    assert a * b < d * d by {
      Distribute(d, a, b);
      Distribute(d, b, d);
      assert d * b == b * d;
      MulMonotone(d - a, b);
      MulAtLeast(d - b, d);
    }
  }

  lemma HalfIsShort(a: nat, b: nat, n: nat)
    requires 2 * a <= Pow256(n) && b < Pow256(n)
    ensures 2 * (a * b) < Pow256(2 * n)
  {
    hide Pow256;
    Pow256Add(n, n);
    var p := Pow256(n);
    Distribute(p, 2 * a, b);
    MulMonotone(p - 2 * a, b);
    assert 2 * a * b == 2 * (a * b);
    Distribute(p, b, p);
    MulAtLeast(p - b, p);
    assert p * b == b * p;
  }

  lemma ValueInRange(seed: seq<byte>, cs: seq<Candidate>, i: nat)
    requires IsRun(seed, cs) && i < |cs|
    ensures seed != [] && cs[i].value < Pow256(|seed|)
    ensures Kept(seed) ==> TopBits(cs[i].value, |seed|)
    ensures !Kept(seed) ==> 2 * cs[i].value <= Pow256(|seed|)
  {
    hide BeValue, Pow256, TopBits, HasCoprime, Seeded, IsRun, OnWheel, NextCoprime;
    if Kept(seed) {
      RunStaysOnTrack(seed, cs, i);
    } else {
      LostRunEnds(seed, cs);
    }
  }

  /** The product of two candidates has exactly twice their bits if and only if both their runs are kept. */
  lemma ModulusHasFullLength(s: seq<byte>, cs: seq<Candidate>, i: nat, t: seq<byte>, ds: seq<Candidate>, j: nat)
    requires IsRun(s, cs) && i < |cs| && IsRun(t, ds) && j < |ds| && |s| == |t|
    ensures var product, size := cs[i].value * ds[j].value, Pow256(2 * |s|);
      product < size && (size <= 2 * product <==> Kept(s) && Kept(t))
  {
    hide *;
    ValueInRange(s, cs, i);
    ValueInRange(t, ds, j);
    var a, b, n := cs[i].value, ds[j].value, |s|;
    if Kept(s) && Kept(t) {
      TopBitsMultiply(a, b, n);
    } else if !Kept(s) {
      HalfIsShort(a, b, n);
    } else {
      HalfIsShort(b, a, n);
      assert a * b == b * a;
    }
  }
}
