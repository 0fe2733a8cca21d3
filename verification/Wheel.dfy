/** The prime-search wheel of the RSA key generator: its gap table and the walk over it. */
module Wheel {
  import opened Bytes

  const WHEEL: int := 2 * 3 * 5 * 7 * 11

  /** Not divisible by 2, 3, 5, 7 or 11. */
  predicate Coprime(r: int) {
    r % 2 != 0 && r % 3 != 0 && r % 5 != 0 && r % 7 != 0 && r % 11 != 0
  }

  lemma DivisorOf(r: int, a: int, b: int)
    requires 0 < a && 0 < b && a * b > 0 && r % (a * b) == 0
    ensures r % a == 0
  {
    var q := r / (a * b);
    assert r == q * (a * b) == q * b * a;
    Quotient(r, a, q * b, 0);
  }

  lemma NoDivisor(r: int, d: int)
    requires Coprime(r) && 2 <= d <= 12
    ensures r % d != 0
  {
    if r % d == 0 {
      if d % 2 == 0 {
        DivisorOf(r, 2, d / 2);
      } else if d == 9 {
        DivisorOf(r, 3, 3);
      }
    }
  }

  /** The same as having no divisor from 2 to 12, prime or not. */
  lemma CoprimeIff(r: int)
    ensures Coprime(r) <==> forall d :: 2 <= d <= 12 ==> r % d != 0
  {
    if Coprime(r) {
      hide Coprime;
      forall d | 2 <= d <= 12 ensures r % d != 0 {
        NoDivisor(r, d);
      }
    }
  }

  /** The coprime values in [lo, hi), in increasing order. */
  function CoprimeIn(lo: int, hi: int): (s: seq<int>)
    ensures forall k :: 0 <= k < |s| ==> lo <= s[k] < hi && Coprime(s[k])
    ensures forall j, k :: 0 <= j < k < |s| ==> s[j] < s[k]
    ensures forall r :: lo <= r < hi && Coprime(r) ==> r in s
    decreases hi - lo
  {
    hide Coprime;
    if hi <= lo then []
    else if Coprime(lo) then [lo] + CoprimeIn(lo + 1, hi)
    else CoprimeIn(lo + 1, hi)
  }

  /** wheel_residues */
  function Residues(): (s: seq<int>)
    ensures forall k :: 0 <= k < |s| ==> 1 <= s[k] < WHEEL && Coprime(s[k])
    ensures forall j, k :: 0 <= j < k < |s| ==> s[j] < s[k]
    ensures forall r :: 1 <= r < WHEEL && Coprime(r) ==> r in s
  {
    hide Coprime;
    CoprimeIn(1, WHEEL)
  }

  lemma FirstResidue()
    ensures |Residues()| > 0 && Residues()[0] == 1
  {
    assert Coprime(1);
    hide Residues, CoprimeIn, Coprime;
    var k :| 0 <= k < |Residues()| && Residues()[k] == 1;
    var first := Residues()[0];
    assert first <= 1;
  }

  /** wheel_gaps: differences of consecutive residues, the last one wrapping to the next turn. */
  function Gaps(): (g: seq<int>) {
    hide Residues, CoprimeIn;
    FirstResidue();
    var res := Residues();
    seq(|res| - 1, i requires 0 <= i < |res| - 1 => res[i + 1] - res[i]) + [res[0] + WHEEL - res[|res| - 1]]
  }

  lemma GapAt(i: nat)
    requires i < |Residues()|
    ensures |Residues()| > 0 && |Gaps()| == |Residues()|
    ensures Gaps()[i] == (if i + 1 < |Residues()| then Residues()[i + 1] else 1 + WHEEL) - Residues()[i]
    ensures 0 < Gaps()[i]
  {
    FirstResidue();
    hide Residues, CoprimeIn, Coprime;
    if i + 1 < |Residues()| {
      assert Residues()[i] < Residues()[i + 1];
    }
  }

  lemma GapCount()
    ensures |Gaps()| == |Residues()| > 0
  {
    FirstResidue();
    GapAt(0);
  }

  function Sum(s: seq<int>): int {
    if s == [] then 0 else Sum(s[..|s| - 1]) + s[|s| - 1]
  }

  /** Residue i is 1 plus the sum of the first i gaps, and one full turn adds 2310. */
  lemma {:induction false} GapsTelescope(i: nat)
    requires i <= |Gaps()|
    ensures 1 + Sum(Gaps()[..i]) == if i < |Residues()| then Residues()[i] else 1 + WHEEL
  {
    hide Residues, CoprimeIn, Gaps, Coprime;
    GapCount();
    FirstResidue();
    if i != 0 {
      GapsTelescope(i - 1);
      GapAt(i - 1);
      assert Gaps()[..i][..i - 1] == Gaps()[..i - 1];
    }
  }

  /** The position of the gap to add next, after k steps around the table. */
  function Position(k: nat): (p: nat)
    ensures p < |Gaps()|
  {
    hide Residues, CoprimeIn, Gaps;
    GapCount();
    if k == 0 then 0
    else
      var p := Position(k - 1) + 1;
      if p == |Gaps()| then 0 else p
  }

  /** The k-th number met when the gaps are added cyclically, starting at 1. */
  function Visit(k: nat): int {
    if k == 0 then 1 else Visit(k - 1) + Gaps()[Position(k - 1)]
  }

  lemma {:induction false} VisitFirstTurn(k: nat)
    requires k < |Residues()|
    ensures Position(k) == k && Visit(k) == Residues()[k]
  {
    hide Residues, CoprimeIn, Gaps, Coprime;
    GapCount();
    FirstResidue();
    if k > 0 {
      VisitFirstTurn(k - 1);
      GapAt(k - 1);
    }
  }

  /** Each turn repeats the one before it, 2310 further on. */
  lemma {:induction false} VisitPeriodic(k: nat)
    ensures Position(k + |Gaps()|) == Position(k)
    ensures Visit(k + |Gaps()|) == Visit(k) + WHEEL
  {
    hide Residues, CoprimeIn, Gaps, Coprime;
    GapCount();
    var n := |Gaps()|;
    if k == 0 {
      VisitFirstTurn(n - 1);
      GapAt(n - 1);
      assert Position(n) == 0 && Visit(n) == Visit(n - 1) + Gaps()[n - 1];
    } else {
      VisitPeriodic(k - 1);
      var m := k - 1 + n;
      assert Visit(m + 1) == Visit(m) + Gaps()[Position(m)];
    }
  }

  lemma CoprimePeriodic(r: int)
    ensures Coprime(r) <==> Coprime(r + WHEEL)
  {
    Quotient(r + WHEEL, 2, r / 2 + 1155, r % 2);
    Quotient(r + WHEEL, 3, r / 3 + 770, r % 3);
    Quotient(r + WHEEL, 5, r / 5 + 462, r % 5);
    Quotient(r + WHEEL, 7, r / 7 + 330, r % 7);
    Quotient(r + WHEEL, 11, r / 11 + 210, r % 11);
  }

  /** Every number visited is positive and coprime to 2310. */
  lemma {:induction false} VisitSound(k: nat)
    ensures 1 <= Visit(k) && Coprime(Visit(k))
  {
    hide Residues, CoprimeIn, Gaps, Coprime, Visit, Position;
    GapCount();
    var n := |Gaps()|;
    if k < n {
      VisitFirstTurn(k);
    } else {
      VisitSound(k - n);
      VisitPeriodic(k - n);
      CoprimePeriodic(Visit(k - n));
    }
  }

  lemma WheelNotCoprime()
    ensures !Coprime(WHEEL)
  {
  }

  lemma ResidueIndex(r: int) returns (k: nat)
    requires 1 <= r < WHEEL && Coprime(r)
    ensures k < |Residues()| && Residues()[k] == r
  {
    hide Residues, CoprimeIn, Coprime;
    assert r in Residues();
    k :| 0 <= k < |Residues()| && Residues()[k] == r;
  }

  /** Every positive number coprime to 2310 is visited. */
  lemma {:induction false} VisitComplete(m: int) returns (k: nat)
    requires 1 <= m && Coprime(m)
    ensures Visit(k) == m
    decreases m
  {
    hide Residues, CoprimeIn, Gaps, Coprime, Visit, Position;
    if m < WHEEL {
      k := ResidueIndex(m);
      VisitFirstTurn(k);
    } else {
      WheelNotCoprime();
      CoprimePeriodic(m - WHEEL);
      k := VisitComplete(m - WHEEL);
      VisitPeriodic(k);
      k := k + |Gaps()|;
    }
  }

  lemma {:induction false} VisitIncreasing(j: nat, k: nat)
    requires j < k
    ensures Visit(j) < Visit(k)
  {
    hide Residues, CoprimeIn, Gaps, Coprime, Position;
    GapCount();
    GapAt(Position(k - 1));
    if j < k - 1 {
      VisitIncreasing(j, k - 1);
    }
  }

  ghost predicate Visited(m: int) {
    exists k: nat :: Visit(k) == m
  }

  /** The walk visits exactly the positive numbers coprime to 2310, each once and in increasing order. */
  lemma WalkIsEnumeration()
    ensures forall m :: Visited(m) <==> 1 <= m && Coprime(m)
    ensures forall j: nat, k: nat :: j < k ==> Visit(j) < Visit(k)
  {
    hide Residues, CoprimeIn, Gaps, Coprime, Visit, Position;
    forall m ensures Visited(m) <==> 1 <= m && Coprime(m) {
      if 1 <= m && Coprime(m) {
        var k := VisitComplete(m);
      }
      if Visited(m) {
        var k: nat :| Visit(k) == m;
        VisitSound(k);
      }
    }
    forall j: nat, k: nat | j < k ensures Visit(j) < Visit(k) {
      VisitIncreasing(j, k);
    }
  }

  /** No coprime number lies between two consecutive visits. */
  lemma NothingSkipped(k: nat, m: int)
    requires Visit(k) < m < Visit(k + 1)
    ensures !Coprime(m)
  {
    hide Residues, CoprimeIn, Gaps, Coprime, Visit, Position;
    VisitSound(k);
    if Coprime(m) {
      var j := VisitComplete(m);
      if j < k {
        VisitIncreasing(j, k);
      } else if k + 1 < j {
        VisitIncreasing(k + 1, j);
      }
      assert false;
    }
  }
}
