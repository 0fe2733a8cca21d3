/** How the RSA key generator walks the wheel: big-endian arithmetic in place, alignment and advance. */
module PrimeSearch {
  import opened Bytes
  import opened Wheel

  // ----- Big-endian arithmetic with small operands -----

  lemma ModStep(v: int, d: int, b: int)
    requires 0 < d
    ensures (256 * v + b) % d == (256 * (v % d) + b) % d
  {
    var y := 256 * (v % d) + b;
    var q, p := v / d, y / d;
    assert v == q * d + v % d && y == p * d + y % d;
    MulShift(q, d);
    assert 256 * v + b == 256 * (q * d) + p * d + y % d;
    assert (256 * q + p) * d == 256 * (q * d) + p * d;
    Quotient(256 * v + b, d, 256 * q + p, y % d);
  }

  /** rsa_mod_small */
  method ModSmall(num: array<byte>, divisor: nat) returns (rem: nat)
    requires 0 < divisor <= 65535
    ensures rem == BeValue(num[..]) % divisor
  {
    assert num[..0] == [] && BeValue(num[..0]) == 0;
    hide BeValue;
    rem := 0;
    var i := 0;
    while i < num.Length
      invariant i <= num.Length && rem < divisor
      invariant rem == BeValue(num[..i]) % divisor
    {
      ModStep(BeValue(num[..i]), divisor, num[i]);
      BeValueAppend(num[..i], num[i]);
      assert num[..i + 1] == num[..i] + [num[i]];
      rem := Wrap32(rem * 256 + num[i]) % divisor;
      i := i + 1;
    }
    assert num[..i] == num[..];
  }

  /** The loop invariant of the addition: octets from `i` on are done, and `carry` is still to be added in front. */
  ghost predicate Added(before: seq<byte>, now: seq<byte>, i: nat, carry: nat, addend: nat) {
    && i <= |before| == |now| && now[..i] == before[..i]
    && BeValue(now[i..]) + carry * Pow256(|now| - i) == BeValue(before[i..]) + addend
  }

  lemma SplitFirst(s: seq<byte>, i: nat)
    requires i < |s|
    ensures BeValue(s[i..]) == s[i] * Pow256(|s| - i - 1) + BeValue(s[i + 1..])
  {
    assert s[i..] == [s[i]] + s[i + 1..];
    BeValueConcat([s[i]], s[i + 1..]);
    assert [s[i]][..0] == [] && BeValue([s[i]]) == s[i];
  }

  lemma AddedStep(before: seq<byte>, now: seq<byte>, i: nat, carry: nat, addend: nat, sum: nat)
    requires Added(before, now, i + 1, carry, addend)
    requires sum == before[i] + carry % 256
    ensures Added(before, now[i := sum % 256], i, carry / 256 + sum / 256, addend)
  {
    hide BeValue, Pow256;
    var now' := now[i := sum % 256];
    var p := Pow256(|now| - i - 1);
    assert now'[i + 1..] == now[i + 1..] && now'[..i] == before[..i];
    SplitFirst(now', i);
    SplitFirst(before, i);
    PowStep(|now| - i);
    var c' := carry / 256 + sum / 256;
    assert sum % 256 + 256 * c' == before[i] + carry;
    Regroup(sum % 256, c', before[i], carry, p);
  }

  lemma PowStep(n: nat)
    requires n > 0
    ensures Pow256(n) == 256 * Pow256(n - 1)
  {
  }

  lemma Regroup(low: int, c': int, b: int, c: int, p: int)
    requires low + 256 * c' == b + c
    ensures low * p + c' * (256 * p) == b * p + c * p
  {
    assert (low + 256 * c') * p == low * p + c' * (256 * p) by {
      MulShift(c', p);
      assert (low + 256 * c') * p == low * p + 256 * c' * p;
    }
  }

  /** rsa_add_small: addition modulo 256^n in place. */
  method AddSmall(inout: array<byte>, addend: uint32)
    modifies inout
    ensures BeValue(inout[..]) == (BeValue(old(inout[..])) + addend) % Pow256(inout.Length)
  {
    hide BeValue;
    ghost var before := inout[..];
    var carry: int := addend;
    var i := inout.Length;
    assert before[i..] == [];
    assert Added(before, inout[..], i, carry, addend) by { NothingAdded(before, addend); }
    hide Added;
    while i > 0 && carry > 0
      invariant 0 <= carry < UINT32_LIMIT && 0 <= i <= inout.Length
      invariant Added(before, inout[..], i, carry, addend)
    {
      UntouchedAt(before, inout[..], i, carry, addend);
      var sum: int := inout[i - 1];
      sum := sum + carry % 256;
      AddedStep(before, inout[..], i - 1, carry, addend, sum);
      inout[i - 1] := sum % 256;
      carry := Wrap32(carry / 256 + sum / 256);
      i := i - 1;
    }
    AddedDone(before, inout[..], i, carry, addend);
  }

  lemma NothingAdded(before: seq<byte>, addend: nat)
    ensures Added(before, before, |before|, addend, addend)
  {
    assert before[|before|..] == [];
  }

  lemma UntouchedAt(before: seq<byte>, now: seq<byte>, i: nat, carry: nat, addend: nat)
    requires Added(before, now, i, carry, addend) && i > 0
    ensures |now| == |before| && i <= |now| && now[i - 1] == before[i - 1]
    ensures Added(before, now, i - 1 + 1, carry, addend)
  {
    assert now[..i][i - 1] == before[..i][i - 1];
  }

  lemma AddedDone(before: seq<byte>, now: seq<byte>, i: nat, carry: nat, addend: nat)
    requires Added(before, now, i, carry, addend) && (i == 0 || carry == 0)
    ensures BeValue(now) == (BeValue(before) + addend) % Pow256(|now|)
  {
    hide BeValue, Pow256;
    assert now == now[..i] + now[i..] && before == before[..i] + before[i..];
    BeValueConcat(now[..i], now[i..]);
    BeValueConcat(before[..i], before[i..]);
    BeValueBound(now);
    if carry == 0 {
      Quotient(BeValue(before) + addend, Pow256(|now|), 0, BeValue(now));
    } else {
      assert now[0..] == now && before[0..] == before;
      Quotient(BeValue(before) + addend, Pow256(|now|), carry, BeValue(now));
    }
  }

  // ----- The wheel position of a number -----

  /** `to` is the first number from `from` on that the wheel does not skip. */
  ghost predicate NextCoprime(from: int, to: int) {
    from <= to && Coprime(to) && forall m :: from <= m < to ==> !Coprime(m)
  }

  /** `idx` and `rem` describe `v` as wheel_idx and wheel_rem should. */
  ghost predicate OnWheel(v: int, idx: nat, rem: int) {
    idx < |Residues()| && v % WHEEL == rem == Residues()[idx]
  }

  lemma ModShift(q: int, k: int, c: int, r: int)
    requires 0 < k
    ensures (q * (c * k) + r) % k == r % k
  {
    var x := q * (c * k) + r;
    assert r == r / k * k + r % k;
    assert q * (c * k) == q * c * k;
    assert (q * c + r / k) * k == q * c * k + r / k * k;
    Quotient(x, k, q * c + r / k, r % k);
  }

  /** Numbers that agree modulo 2310 are skipped together. */
  lemma CoprimeShift(q: int, r: int)
    ensures Coprime(q * WHEEL + r) <==> Coprime(r)
  {
    ModShift(q, 2, 1155, r);
    ModShift(q, 3, 770, r);
    ModShift(q, 5, 462, r);
    ModShift(q, 7, 330, r);
    ModShift(q, 11, 210, r);
  }

  /** The number past the last residue, one turn on, stands for residue 0. */
  function Landing(i: nat): int
    requires i <= |Residues()|
  {
    if i < |Residues()| then Residues()[i] else 1 + WHEEL
  }

  lemma LandingCoprime(i: nat)
    requires i <= |Residues()|
    ensures Coprime(Landing(i)) && (i > 0 ==> Residues()[i - 1] < Landing(i))
  {
    hide Residues, CoprimeIn, Coprime;
    TurnEnds();
  }

  lemma TurnEnds()
    ensures Coprime(1 + WHEEL) && !Coprime(0) && !Coprime(WHEEL)
  {
    CoprimeStart();
    hide Coprime;
    CoprimeShift(1, 0);
    CoprimeShift(1, 1);
  }

  lemma CoprimeStart()
    ensures Coprime(1) && !Coprime(0)
  {
  }

  /** No coprime number lies below a residue but above the one before. */
  lemma BelowLanding(i: nat, low: int, r: int)
    requires i <= |Residues()| && low <= r < Landing(i) && 0 <= r
    requires i > 0 ==> Residues()[i - 1] < low
    ensures !Coprime(r)
  {
    hide Residues, CoprimeIn, Coprime;
    TurnEnds();
    if 1 <= r < WHEEL && Coprime(r) {
      var k := ResidueIndex(r);
      assert false;
    }
  }

  /** Landing on residue `i` of turn `q`, coming from `low` beyond the residue before. */
  lemma Land(q: nat, i: nat, low: int)
    requires i <= |Residues()| && 0 <= low <= Landing(i)
    requires i > 0 ==> Residues()[i - 1] < low
    ensures NextCoprime(q * WHEEL + low, q * WHEEL + Landing(i))
    ensures OnWheel(q * WHEEL + Landing(i), if i < |Residues()| then i else 0, Landing(i) % WHEEL)
  {
    hide Residues, CoprimeIn, Coprime;
    FirstResidue();
    LandingCoprime(i);
    CoprimeShift(q, Landing(i));
    var to := q * WHEEL + Landing(i);
    forall m | q * WHEEL + low <= m < to ensures !Coprime(m) {
      BelowLanding(i, low, m - q * WHEEL);
      CoprimeShift(q, m - q * WHEEL);
    }
    if i < |Residues()| {
      Quotient(to, WHEEL, q, Landing(i));
      Quotient(Landing(i), WHEEL, 0, Landing(i));
    } else {
      Quotient(to, WHEEL, q + 1, 1);
      Quotient(Landing(i), WHEEL, 1, 1);
    }
  }

  /** The loop of the alignment finds the first residue from the candidate's remainder on. */
  lemma AlignTarget(v: nat, i: nat, rem: int)
    requires v % WHEEL == rem && i <= |Residues()| && rem <= Landing(i)
    requires i > 0 ==> Residues()[i - 1] < rem
    ensures var idx := if i < |Residues()| then i else 0;
      NextCoprime(v, v + (Landing(i) - rem)) && OnWheel(v + (Landing(i) - rem), idx, Landing(i) % WHEEL)
  {
    hide Residues, CoprimeIn, Landing, NextCoprime, OnWheel;
    Land(v / WHEEL, i, rem);
    assert v == v / WHEEL * WHEEL + rem;
  }

  /** Adding the gap at the wheel position leads to the next number that the wheel does not skip. */
  lemma AdvanceTarget(v: nat, idx: nat, rem: int)
    requires OnWheel(v, idx, rem)
    ensures |Gaps()| == |Residues()| > idx
    ensures var next := if idx + 1 < |Gaps()| then idx + 1 else 0;
      NextCoprime(v + 1, v + Gaps()[idx]) && OnWheel(v + Gaps()[idx], next, (rem + Gaps()[idx]) % WHEEL)
    ensures 0 < Gaps()[idx] <= WHEEL
  {
    hide Residues, CoprimeIn, Gaps, NextCoprime;
    GapAt(idx);
    FirstResidue();
    assert Landing(idx + 1) == rem + Gaps()[idx];
    assert v == v / WHEEL * WHEEL + rem;
    hide OnWheel;
    Land(v / WHEEL, idx + 1, rem + 1);
  }

  // ----- Alignment and advance -----

  /** Does some number `to`, the next from `v` on, account for the candidate's new value and wheel position? */
  ghost predicate Aligned(v: nat, value: nat, n: nat, idx: nat, rem: nat) {
    exists to: nat :: NextCoprime(v, to) && OnWheel(to, idx, rem) && value == to % Pow256(n)
  }

  /** Is there a number that the wheel does not skip between `v` and the end of the `n`-octet range? */
  ghost predicate HasCoprime(v: nat, n: nat) {
    exists m: nat :: v <= m < Pow256(n) && Coprime(m)
  }

  /** The two top bits of an `n`-octet number. */
  ghost predicate TopBits(value: int, n: nat)
    requires n > 0
  {
    192 * Pow256(n - 1) <= value
  }

  lemma TopOctet(s: seq<byte>)
    requires s != []
    ensures TopBits(BeValue(s), |s|) <==> 192 <= s[0]
  {
    hide BeValue, Pow256;
    var p := Pow256(|s| - 1);
    SplitFirst(s, 0);
    assert s[0..] == s;
    BeValueBound(s[1..]);
    if 192 <= s[0] {
      Distribute(s[0], 192, p);
      MulMonotone(s[0] - 192, p);
    } else {
      Distribute(191, s[0], p);
      MulMonotone(191 - s[0], p);
    }
  }

  lemma MulMonotone(x: int, p: int)
    requires 0 <= x && 0 <= p
    ensures 0 <= x * p
  {
  }

  /** Any turn's worth of numbers holds one that the wheel does not skip. */
  lemma CoprimeWithin(v: nat) returns (m: nat)
    ensures v <= m < v + WHEEL && Coprime(m)
  {
    hide Coprime;
    CoprimeStart();
    var q, r := v / WHEEL, v % WHEEL;
    assert v == q * WHEEL + r;
    m := if r <= 1 then q * WHEEL + 1 else (q + 1) * WHEEL + 1;
    CoprimeShift(if r <= 1 then q else q + 1, 1);
    assert (q + 1) * WHEEL == q * WHEEL + WHEEL;
  }

  /** The next number that the wheel does not skip is less than a turn away. */
  lemma NextWithin(v: nat, to: int)
    requires NextCoprime(v, to)
    ensures to < v + WHEEL
  {
    hide Coprime;
    var m := CoprimeWithin(v);
  }

  lemma CoprimeOne()
    ensures Coprime(1) && Coprime(257) && Coprime(263)
  {
  }

  /** Running past the end of the range loses the top bits. */
  lemma WrapLosesTop(v: nat, to: nat, n: nat)
    requires n > 0 && v <= Pow256(n) <= to && NextCoprime(v, to)
    ensures to % Pow256(n) == to - Pow256(n)
    ensures 2 * (to - Pow256(n)) <= Pow256(n) && !TopBits(to - Pow256(n), n)
    ensures n == 1 ==> to <= 257
  {
    var p := Pow256(n);
    NextWithin(v, to);
    CoprimeOne();
    hide Coprime, Pow256;
    PowStep(n);
    if n == 1 {
      Pow256Small();
      PowZero();
      assert to <= 257;
    } else {
      Pow256Small();
      Pow256Monotone(2, n);
      Pow256Monotone(1, n - 1);
    }
    Quotient(to, p, 1, to - p);
  }

  lemma PowZero()
    ensures Pow256(0) == 1
  {
  }

  lemma {:induction false} PowModThree(n: nat)
    ensures Pow256(n) % 3 == 1
  {
    if n > 0 {
      PowModThree(n - 1);
    }
  }

  /** And with them the wheel position: 256^n is no multiple of 2310. */
  lemma WrapLosesWheel(to: nat, n: nat, idx: nat, rem: nat)
    requires OnWheel(to, idx, rem) && Pow256(n) <= to
    ensures !OnWheel(to - Pow256(n), idx, rem)
  {
    hide Residues, CoprimeIn, Coprime, Pow256;
    var p := Pow256(n);
    PowModThree(n);
    if (to - p) % WHEEL == to % WHEEL {
      var q := to / WHEEL - (to - p) / WHEEL;
      assert p == q * WHEEL;
      ModShift(q, 3, 770, 0);
      assert false;
    }
  }

  /**
   * Aligning a candidate that has its top bits keeps them, and leaves it on the wheel at the position that is
   * reported, exactly when the range has a number left that the wheel does not skip.
   */
  lemma AlignKeepsIff(v: nat, value: nat, n: nat, idx: nat, rem: nat)
    requires n > 0 && v < Pow256(n) && TopBits(v, n) && Aligned(v, value, n, idx, rem)
    ensures TopBits(value, n) <==> HasCoprime(v, n)
    ensures OnWheel(value, idx, rem) <==> HasCoprime(v, n)
    ensures if HasCoprime(v, n) then NextCoprime(v, value) && value < Pow256(n) else 2 * value <= Pow256(n)
  {
    hide Residues, CoprimeIn, Coprime, Pow256;
    var to: nat :| NextCoprime(v, to) && OnWheel(to, idx, rem) && value == to % Pow256(n);
    if to < Pow256(n) {
      Quotient(to, Pow256(n), 0, to);
    } else {
      WrapLosesTop(v, to, n);
      WrapLosesWheel(to, n, idx, rem);
    }
  }

  /** The loop of the alignment: the first residue from `start` on. */
  method FindResidue(start: nat) returns (i: nat, residue: int)
    ensures i <= |Gaps()| == |Residues()| && residue == Landing(i)
    ensures i > 0 ==> Residues()[i - 1] < start
    ensures i < |Gaps()| ==> start <= residue
  {
    hide Residues, CoprimeIn, Gaps, Coprime;
    GapCount();
    FirstResidue();
    residue := 1;
    i := 0;
    while i < |Gaps()| && residue < start
      invariant i <= |Gaps()| && residue == Landing(i)
      invariant i > 0 ==> Residues()[i - 1] < start
    {
      GapAt(i);
      residue := residue + Gaps()[i];
      i := i + 1;
    }
  }

  /** rsa_wheel_align */
  method Align(prime: array<byte>) returns (idx: nat, rem: nat)
    modifies prime
    ensures Aligned(old(BeValue(prime[..])), BeValue(prime[..]), prime.Length, idx, rem)
    ensures var n, v := prime.Length, old(BeValue(prime[..]));
      n > 0 && TopBits(v, n) ==> (OnWheel(BeValue(prime[..]), idx, rem) <==> HasCoprime(v, n))
    ensures idx < |Gaps()| && rem < WHEEL
  {
    hide Residues, CoprimeIn, Gaps, BeValue, Coprime, NextCoprime, OnWheel, Landing, Aligned, Pow256;
    hide TopBits, HasCoprime;
    GapCount();
    ghost var before := prime[..];
    var start := ModSmall(prime, WHEEL);
    var i, residue := FindResidue(start);
    LandingRange(i);
    AddSmall(prime, residue - start);
    idx := if i >= |Gaps()| then 0 else i;
    rem := residue % WHEEL;
    AlignIs(before, prime[..], i, start);
    BeValueBound(before);
    if prime.Length > 0 && TopBits(BeValue(before), prime.Length) {
      AlignKeepsIff(BeValue(before), BeValue(prime[..]), prime.Length, idx, rem);
    }
  }

  lemma AlignIs(before: seq<byte>, after: seq<byte>, i: nat, start: nat)
    requires |before| == |after| && i <= |Residues()| && start == BeValue(before) % WHEEL && start <= Landing(i)
    requires i > 0 ==> Residues()[i - 1] < start
    requires BeValue(after) == (BeValue(before) + (Landing(i) - start)) % Pow256(|after|)
    ensures Aligned(BeValue(before), BeValue(after), |after|, if i < |Residues()| then i else 0, Landing(i) % WHEEL)
  {
    hide Residues, CoprimeIn, BeValue, Coprime, NextCoprime, OnWheel, Landing, Pow256;
    AlignTarget(BeValue(before), i, start);
    var to: nat := BeValue(before) + (Landing(i) - start);
    assert NextCoprime(BeValue(before), to);
  }

  lemma LandingRange(i: nat)
    requires i <= |Residues()|
    ensures 1 <= Landing(i) <= 1 + WHEEL && (i == |Residues()| ==> Landing(i) == 1 + WHEEL)
  {
    hide Residues, CoprimeIn, Coprime;
  }

  /** A step that keeps the top bits has not wrapped, from three octets on. */
  lemma StepFits(v: nat, gap: nat, n: nat)
    requires 3 <= n && v < Pow256(n) && gap <= WHEEL && TopBits((v + gap) % Pow256(n), n)
    ensures v + gap < Pow256(n)
  {
    hide Pow256;
    Pow256Small();
    Pow256Monotone(2, n - 1);
    PowStep(n);
    if Pow256(n) <= v + gap {
      Quotient(v + gap, Pow256(n), 1, v + gap - Pow256(n));
    }
  }

  /** Random octets with the two top bits and the lowest bit set. */
  function Seeded(s: seq<byte>): seq<byte>
    requires s != []
  {
    var t := s[0 := 192 + s[0] % 64];
    t[|s| - 1 := t[|s| - 1] / 2 * 2 + 1]
  }

  lemma ParityOfLast(t: seq<byte>)
    requires t != []
    ensures BeValue(t) % 2 == t[|t| - 1] % 2
  {
    var high, low := BeValue(t[..|t| - 1]), t[|t| - 1];
    assert BeValue(t) == 256 * high + low;
    hide BeValue;
    Quotient(256 * high + low, 2, 128 * high + low / 2, low % 2);
  }

  /** Seeding makes the number odd and sets its two top bits, and leaves every other bit of the octets as it was. */
  lemma SeededIs(s: seq<byte>)
    requires s != []
    ensures var t := Seeded(s);
      && |t| == |s| && BeValue(t) % 2 == 1 && 192 <= t[0]
      && (forall k :: 0 < k < |s| - 1 ==> t[k] == s[k])
      && (|s| > 1 ==> t[0] % 64 == s[0] % 64 && t[|s| - 1] / 2 == s[|s| - 1] / 2)
      && (|s| == 1 ==> t[0] % 64 / 2 == s[0] % 64 / 2)
  {
    SeededLength(s);
    ParityOfLast(Seeded(s));
    hide BeValue;
    if |s| == 1 {
      SeededOctet(s[0]);
    }
  }

  lemma SeededOctet(b: byte)
    ensures var t := (192 + b % 64) / 2 * 2 + 1; t % 64 / 2 == b % 64 / 2 && t % 2 == 1 && 192 <= t < 256
  {
    var r := b % 64;
    assert (192 + r) / 2 * 2 + 1 == 192 + (r / 2 * 2 + 1);
  }

  /** One advance of a candidate and its wheel position, modulo the `n`-octet range. */
  ghost predicate Moves(v: nat, value: nat, n: nat, idx: nat, rem: nat, idx': nat, rem': nat) {
    && idx < |Gaps()| && value == (v + Gaps()[idx]) % Pow256(n)
    && idx' == (if idx + 1 == |Gaps()| then 0 else idx + 1) && rem' == (rem + Gaps()[idx]) % WHEEL
  }

  /** What one advance does when the candidate `v` steps to a value with the top bits set. */
  ghost predicate Stepped(v: nat, value: nat, n: nat, idx: nat, rem: nat, idx': nat, rem': nat)
    requires idx < |Gaps()|
  {
    var t := v + Gaps()[idx];
    && value == t % Pow256(n)
    && (3 <= n ==> value == t)
    && (OnWheel(v, idx, rem) ==> value == t && NextCoprime(v + 1, t) && OnWheel(t, idx', rem'))
  }

  /** rsa_wheel_advance, where `random` is what the generator delivers if it is asked. */
  method Advance(prime: array<byte>, idx: nat, rem: nat, random: Option<seq<byte>>)
    returns (ok: bool, idx': nat, rem': nat)
    requires prime.Length > 0 && idx < |Gaps()| && rem < WHEEL
    requires random.Some? ==> |random.value| == prime.Length
    modifies prime
    ensures var n, v := prime.Length, old(BeValue(prime[..]));
      var keeps := TopBits((v + Gaps()[idx]) % Pow256(n), n);
      && (ok <==> keeps || random.Some?)
      && (keeps ==> Moves(v, BeValue(prime[..]), n, idx, rem, idx', rem'))
      && (keeps ==> Stepped(v, BeValue(prime[..]), n, idx, rem, idx', rem'))
      && (!keeps && random.Some? ==>
            Aligned(BeValue(Seeded(random.value)), BeValue(prime[..]), n, idx', rem'))
      && (!ok ==> forall k :: 0 <= k < n ==> prime[k] == 0)
    ensures ok ==> idx' < |Gaps()| && rem' < WHEEL
  {
    hide Residues, CoprimeIn, Gaps, BeValue, Coprime, NextCoprime, OnWheel, Aligned, TopBits, Seeded;
    GapCount();
    GapRange(idx);
    ghost var v := BeValue(prime[..]);
    var step := Gaps()[idx];
    AddSmall(prime, step);
    rem' := (rem + step) % WHEEL;
    idx' := if idx + 1 == |Gaps()| then 0 else idx + 1;
    TopOctet(prime[..]);
    ok := true;
    if prime[0] < 192 {
      if random.None? {
        forall k | 0 <= k < prime.Length { prime[k] := 0; }
        return false, idx', rem';
      }
      var seed := Seeded(random.value);
      SeededLength(random.value);
      forall k | 0 <= k < prime.Length { prime[k] := seed[k]; }
      assert prime[..] == seed;
      idx', rem' := Align(prime);
    } else {
      StepIs(old(prime[..]), prime[..], idx, rem, idx', rem');
    }
  }

  lemma SeededLength(s: seq<byte>)
    requires s != []
    ensures |Seeded(s)| == |s|
  {
  }

  lemma GapRange(idx: nat)
    requires idx < |Gaps()|
    ensures 0 < Gaps()[idx] <= WHEEL
  {
    hide Residues, CoprimeIn, Gaps, Coprime;
    GapCount();
    GapAt(idx);
    FirstResidue();
  }

  lemma StepIs(before: seq<byte>, after: seq<byte>, idx: nat, rem: nat, idx': nat, rem': nat)
    requires |before| == |after| > 0 && idx < |Gaps()| && 0 < Gaps()[idx] <= WHEEL
    requires BeValue(after) == (BeValue(before) + Gaps()[idx]) % Pow256(|after|) && TopBits(BeValue(after), |after|)
    requires rem' == (rem + Gaps()[idx]) % WHEEL && idx' == if idx + 1 == |Gaps()| then 0 else idx + 1
    ensures Stepped(BeValue(before), BeValue(after), |after|, idx, rem, idx', rem')
  {
    hide Residues, CoprimeIn, Gaps, BeValue, Coprime, NextCoprime, OnWheel, TopBits, Pow256;
    var v, n := BeValue(before), |after|;
    BeValueBound(before);
    if 3 <= n {
      StepFits(v, Gaps()[idx], n);
      Quotient(v + Gaps()[idx], Pow256(n), 0, v + Gaps()[idx]);
    }
    if OnWheel(v, idx, rem) {
      AdvanceTarget(v, idx, rem);
      KeptStepFits(v, v + Gaps()[idx], n);
    }
  }

  /** A step from the wheel that keeps the top bits has not wrapped. */
  lemma KeptStepFits(v: nat, to: nat, n: nat)
    requires n > 0 && v < Pow256(n) && NextCoprime(v + 1, to) && TopBits(to % Pow256(n), n)
    ensures to < Pow256(n) && to % Pow256(n) == to
  {
    hide Coprime, Pow256, TopBits;
    if Pow256(n) <= to {
      WrapLosesTop(v + 1, to, n);
    } else {
      Quotient(to, Pow256(n), 0, to);
    }
  }
}
