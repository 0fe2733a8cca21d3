/** The integer comparison that matches a certificate's RSA numbers against a private key's. */
module KeyMatch {
  import opened Bytes

  /** A longer trimmed string denotes a larger integer. */
  lemma LongerIsLarger(s: seq<byte>, t: seq<byte>)
    requires s != [] && |s| < |t| && t[0] != 0
    ensures BeValue(s) < BeValue(t)
  {
    BeValueBound(s);
    Pow256Monotone(|s|, |t| - 1);
    BeValueLeadingNonZero(t);
  }

  /** Trimmed strings are equal exactly when they denote the same integer. */
  lemma TrimmedDeterminedByValue(s: seq<byte>, t: seq<byte>)
    requires s != [] && t != []
    ensures Trimmed(s) == Trimmed(t) <==> BeValue(s) == BeValue(t)
  {
    var u, v := Trimmed(s), Trimmed(t);
    if BeValue(s) == BeValue(t) {
      if |u| < |v| {
        LongerIsLarger(u, v);
      } else if |v| < |u| {
        LongerIsLarger(v, u);
      } else {
        BeValueInjective(u, v);
      }
    }
  }

  /** keymatch_trim_integer: moves the start of the value and shortens it. */
  method TrimInteger(a: array?<byte>, start: nat, len: nat) returns (start': nat, len': nat)
    requires a != null ==> start + len <= a.Length
    ensures start' + len' == start + len && len' <= len
    ensures a == null ==> len' == len
    ensures a != null ==> a[start'..start' + len'] == Trimmed(a[start..start + len])
  {
    hide BeValue;
    start', len' := start, len;
    if a == null { return; }
    while len' > 1 && a[start'] == 0
      invariant start' + len' == start + len && len' <= len
      invariant Trimmed(a[start'..start' + len']) == Trimmed(a[start..start + len])
    {
      assert a[start'..start' + len'][1..] == a[start' + 1..start' + len'];
      start' := start' + 1;
      len' := len' - 1;
    }
  }

  /** Bitwise exclusive or of n-bit values. */
  function Xor(n: nat, x: nat, y: nat): (z: nat)
    requires x < Pow2(n) && y < Pow2(n)
    ensures z < Pow2(n) && (z == 0 <==> x == y)
  {
    if n == 0 then 0 else 2 * Xor(n - 1, x / 2, y / 2) + if x % 2 == y % 2 then 0 else 1
  }

  /** Bitwise or of n-bit values. */
  function Or(n: nat, x: nat, y: nat): (z: nat)
    requires x < Pow2(n) && y < Pow2(n)
    ensures z < Pow2(n) && (z == 0 <==> x == 0 && y == 0)
  {
    if n == 0 then 0 else 2 * Or(n - 1, x / 2, y / 2) + if x % 2 == 0 && y % 2 == 0 then 0 else 1
  }

  /** Bit `k`. */
  function Bit(x: nat, k: nat): nat {
    if k == 0 then x % 2 else Bit(x / 2, k - 1)
  }

  /** Both work on each bit apart. */
  lemma {:induction false} XorBits(n: nat, x: nat, y: nat, k: nat)
    requires x < Pow2(n) && y < Pow2(n) && k < n
    ensures Bit(Xor(n, x, y), k) == 1 <==> Bit(x, k) != Bit(y, k)
  {
    var z := Xor(n, x, y);
    assert z / 2 == Xor(n - 1, x / 2, y / 2) && z % 2 == if x % 2 == y % 2 then 0 else 1;
    if k > 0 {
      XorBits(n - 1, x / 2, y / 2, k - 1);
    }
  }

  lemma {:induction false} OrBits(n: nat, x: nat, y: nat, k: nat)
    requires x < Pow2(n) && y < Pow2(n) && k < n
    ensures Bit(Or(n, x, y), k) == 1 <==> Bit(x, k) == 1 || Bit(y, k) == 1
  {
    var z := Or(n, x, y);
    assert z / 2 == Or(n - 1, x / 2, y / 2) && z % 2 == if x % 2 == 0 && y % 2 == 0 then 0 else 1;
    if k > 0 {
      OrBits(n - 1, x / 2, y / 2, k - 1);
    }
  }

  /** noxtls_ct_memcmp: 0 exactly when the octets agree, without an early exit. */
  method CompareConstantTime(a: array<byte>, i: nat, b: array<byte>, j: nat, len: nat) returns (diff: byte)
    requires i + len <= a.Length && j + len <= b.Length
    ensures diff == 0 <==> a[i..i + len] == b[j..j + len]
  {
    diff := 0;
    var k := 0;
    while k < len
      invariant k <= len
      invariant diff == 0 <==> a[i..i + k] == b[j..j + k]
    {
      Pow2Of8();
      assert a[i..i + k + 1] == a[i..i + k] + [a[i + k]];
      assert b[j..j + k + 1] == b[j..j + k] + [b[j + k]];
      diff := Or(8, diff, Xor(8, a[i + k], b[j + k]));
      k := k + 1;
    }
  }

  /**
   * keymatch_integer_equal: the two values are equal exactly when both are present and non-empty
   * and denote the same integer.
   */
  method IntegerEqual(left: array?<byte>, leftLen: uint32, right: array?<byte>, rightLen: uint32)
    returns (equal: bool)
    requires left != null ==> leftLen <= left.Length
    requires right != null ==> rightLen <= right.Length
    ensures equal <==>
              && left != null && right != null && leftLen != 0 && rightLen != 0
              && BeValue(left[..leftLen]) == BeValue(right[..rightLen])
  {
    var l, ll := TrimInteger(left, 0, leftLen);
    var r, rl := TrimInteger(right, 0, rightLen);
    if left == null || right == null || ll == 0 || rl == 0 { return false; }
    assert left[0..leftLen] == left[..leftLen] && right[0..rightLen] == right[..rightLen];
    TrimmedDeterminedByValue(left[..leftLen], right[..rightLen]);
    if ll != rl { return false; }
    var diff := CompareConstantTime(left, l, right, r, ll);
    return diff == 0;
  }
}
