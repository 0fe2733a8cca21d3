/** Octets, C integer widths and the big-endian value of an octet string. */
module Bytes {

  datatype Option<+T> = None | Some(value: T)

  type byte = x: int | 0 <= x < 256

  const UINT32_LIMIT: int := 0x1_0000_0000
  const INT_MAX: int := 0x7fff_ffff

  /** A value of C's `uint32_t`. */
  type uint32 = x: int | 0 <= x < 0x1_0000_0000

  /** The contents of a NUL-terminated C string, without the terminator. */
  type cstring = s: seq<byte> | 0 !in s

  /** The C string that starts where `s` starts, when a NUL follows `s`. */
  function UpToNul(s: seq<byte>): (c: cstring)
    ensures |c| <= |s| && c == s[..|c|] && (|c| < |s| ==> s[|c|] == 0)
  {
    if s == [] || s[0] == 0 then [] else [s[0]] + UpToNul(s[1..])
  }

  lemma {:induction false} NoNul(c: seq<byte>)
    requires 0 !in c
    ensures UpToNul(c) == c
  {
    if c != [] {
      NoNul(c[1..]);
    }
  }

  /** The octets of an ASCII text. */
  function Ascii(s: string): (b: seq<byte>)
    requires forall k :: 0 <= k < |s| ==> s[k] < 128 as char
    ensures |b| == |s| && forall k :: 0 <= k < |s| ==> b[k] == s[k] as int
  {
    seq(|s|, k requires 0 <= k < |s| => s[k] as int)
  }

  lemma {:induction false} NulBehind(pre: seq<byte>, s: seq<byte>)
    requires 0 !in pre
    ensures UpToNul(pre + s) == pre + UpToNul(s)
  {
    if pre == [] {
      assert pre + s == s;
    } else {
      assert (pre + s)[1..] == pre[1..] + s;
      NulBehind(pre[1..], s);
    }
  }

  const UPPER := "ABCDEFGHIJKLMNOPQRSTUVWXYZ"
  const LOWER := "abcdefghijklmnopqrstuvwxyz"
  const DIGITS := "0123456789"

  /** Are these the characters from `first` on? */
  ghost predicate Run(s: string, first: int) {
    forall k :: 0 <= k < |s| ==> s[k] as int == first + k
  }

  lemma AsciiRuns()
    ensures |UPPER| == 26 && Run(UPPER, 65)
    ensures |LOWER| == 26 && Run(LOWER, 97)
    ensures |DIGITS| == 10 && Run(DIGITS, 48)
  {
    UpperRun();
    LowerRun();
  }

  lemma UpperRun()
    ensures Run(UPPER, 65)
  {
  }

  lemma LowerRun()
    ensures Run(LOWER, 97)
  {
  }

  lemma Associate<T>(a: seq<T>, b: seq<T>, c: seq<T>)
    ensures a + b + c == a + (b + c)
  {
  }

  /** `(a + b)` and `(a * b)` on `uint32_t` are these sums and products reduced modulo 2^32. */
  function Wrap32(x: int): uint32 {
    x % UINT32_LIMIT
  }

  /** `(int32_t)x` for a `uint32_t`, in two's complement. */
  function ToInt32(x: uint32): int {
    if x > INT_MAX then x - UINT32_LIMIT else x
  }

  /** It keeps exactly the numbers below 2^31, and is congruent modulo 2^32. */
  lemma ToInt32Is(x: uint32)
    ensures -0x8000_0000 <= ToInt32(x) < 0x8000_0000 && (ToInt32(x) == x || ToInt32(x) == x - 0x1_0000_0000)
  {
  }

  /** The unsigned integer an octet string denotes, most significant octet first. */
  function BeValue(s: seq<byte>): nat {
    if s == [] then 0 else 256 * BeValue(s[..|s| - 1]) + s[|s| - 1]
  }

  lemma BeValueAppend(s: seq<byte>, b: byte)
    ensures BeValue(s + [b]) == 256 * BeValue(s) + b
  {
    assert (s + [b])[..|s|] == s;
  }

  /** 256^n */
  function Pow256(n: nat): (p: nat)
    ensures p > 0
  {
    if n == 0 then 1 else 256 * Pow256(n - 1)
  }

  lemma Pow256Small()
    ensures Pow256(1) == 256 && Pow256(2) == 0x1_0000 && Pow256(3) == 0x100_0000 && Pow256(4) == UINT32_LIMIT
  {
    assert Pow256(2) == 0x1_0000;
  }

  lemma {:induction false} BeValueBound(s: seq<byte>)
    ensures BeValue(s) < Pow256(|s|)
  {
    if s != [] {
      BeValueBound(s[..|s| - 1]);
    }
  }

  lemma MulShift(x: int, p: int)
    ensures 256 * (x * p) == x * (256 * p)
  {
  }

  lemma {:induction false} BeValueConcat(s: seq<byte>, t: seq<byte>)
    ensures BeValue(s + t) == BeValue(s) * Pow256(|t|) + BeValue(t)
  {
    if t == [] {
      assert s + t == s;
    } else {
      var u := t[..|t| - 1];
      assert (s + t)[..|s + t| - 1] == s + u;
      BeValueConcat(s, u);
      assert BeValue(s + t) == 256 * BeValue(s + u) + t[|t| - 1];
      MulShift(BeValue(s), Pow256(|u|));
    }
  }

  /** On strings of one length the value determines the octets. */
  lemma {:induction false} BeValueInjective(s: seq<byte>, t: seq<byte>)
    requires |s| == |t| && BeValue(s) == BeValue(t)
    ensures s == t
  {
    if s != [] {
      var s', t' := s[..|s| - 1], t[..|t| - 1];
      BeValueInjective(s', t');
      assert s == s' + [s[|s| - 1]];
      assert t == t' + [t[|t| - 1]];
    }
  }

  /** A leading zero octet does not count. */
  lemma BeValueLeadingZero(s: seq<byte>)
    requires s != [] && s[0] == 0
    ensures BeValue(s) == BeValue(s[1..])
  {
    assert s == [0] + s[1..];
    BeValueConcat([0], s[1..]);
    assert BeValue([0]) == 0;
  }

  /** A non-zero leading octet puts the value at or above 256^(|s| - 1). */
  lemma BeValueLeadingNonZero(s: seq<byte>)
    requires s != [] && s[0] != 0
    ensures Pow256(|s| - 1) <= BeValue(s)
    ensures BeValue(s) == s[0] * Pow256(|s| - 1) + BeValue(s[1..])
  {
    assert s == [s[0]] + s[1..];
    BeValueConcat([s[0]], s[1..]);
    assert BeValue([s[0]]) == s[0];
    MulAtLeast(s[0], Pow256(|s| - 1));
  }

  lemma MulAtLeast(x: int, p: int)
    requires 1 <= x && 0 <= p
    ensures p <= x * p
  {
  }

  /** `s` without leading zero octets, but never without its last octet. */
  function Trimmed(s: seq<byte>): (t: seq<byte>)
    ensures |t| <= |s| && (s != [] ==> t != [])
    ensures BeValue(t) == BeValue(s)
    ensures |t| > 1 ==> t[0] != 0
  {
    if |s| > 1 && s[0] == 0 then
      BeValueLeadingZero(s);
      Trimmed(s[1..])
    else s
  }

  lemma {:induction false} Pow256Monotone(m: nat, n: nat)
    requires m <= n
    ensures Pow256(m) <= Pow256(n)
  {
    if m < n {
      Pow256Monotone(m, n - 1);
    }
  }

  /** The quotient and remainder of a division are the only ones there are. */
  lemma Quotient(x: int, k: int, q: int, r: int)
    requires 0 <= r < k && x == q * k + r
    ensures x / k == q && x % k == r
  {
    var p := x / k - q;
    assert x == x / k * k + x % k;
    assert p * k == r - x % k by {
      Distribute(x / k, q, k);
    }
    if p >= 1 {
      MulAtLeast(p, k);
    } else if p <= -1 {
      MulAtLeast(-p, k);
      Distribute(0, p, k);
    }
  }

  lemma Distribute(a: int, b: int, k: int)
    ensures (a - b) * k == a * k - b * k
  {
  }

  /** 2^n */
  function Pow2(n: nat): (p: nat)
    ensures p > 0
  {
    if n == 0 then 1 else 2 * Pow2(n - 1)
  }

  lemma Pow2Of8()
    ensures Pow2(8) == 256
  {
    assert Pow2(4) == 16;
  }
}
