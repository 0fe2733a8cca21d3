/** Importing an EC private scalar from hex text, and its bit length. */
module Scalar {
  import opened Bytes

  /** certgen_hex_nibble */
  function Nibble(c: byte): (v: int)
    ensures -1 <= v < 16
  {
    if 48 <= c <= 57 then c - 48
    else if 97 <= c <= 102 then 10 + (c - 97)
    else if 65 <= c <= 70 then 10 + (c - 65)
    else -1
  }

  /** The digits, a to f in lower case; the other case counts the same, and nothing else is a digit. */
  const HEX: string := DIGITS + "abcdef"

  lemma NibbleTable(c: byte)
    ensures var low := if 65 <= c <= 70 then c + 32 else c;
      && |HEX| == 16
      && (forall v :: 0 <= v < 16 ==> (Nibble(c) == v <==> HEX[v] as int == low))
      && (Nibble(c) == -1 <==> forall v :: 0 <= v < 16 ==> HEX[v] as int != low)
  {
    AsciiRuns();
    assert Run("abcdef", 97);
    hide DIGITS;
    assert |HEX| == 16;
    if Nibble(c) >= 0 {
      assert HEX[Nibble(c)] as int == if 65 <= c <= 70 then c + 32 else c;
    }
  }

  predicate AllHex(d: seq<byte>) {
    forall k :: 0 <= k < |d| ==> 0 <= Nibble(d[k])
  }

  /** The number a string of hex digits denotes. */
  function HexValue(d: seq<byte>): nat
    requires AllHex(d)
  {
    if d == [] then 0 else 16 * HexValue(d[..|d| - 1]) + Nibble(d[|d| - 1])
  }

  lemma HexValueTwo(d: seq<byte>, i: nat)
    requires i + 2 <= |d| && AllHex(d[..i + 2])
    ensures AllHex(d[..i])
    ensures HexValue(d[..i + 2]) == 256 * HexValue(d[..i]) + 16 * Nibble(d[i]) + Nibble(d[i + 1])
  {
    hide Nibble;
    var e := d[..i + 2];
    assert e[..i + 1] == d[..i + 1] && d[..i + 1][..i] == d[..i];
    assert HexValue(e) == 16 * HexValue(d[..i + 1]) + Nibble(d[i + 1]);
    assert HexValue(d[..i + 1]) == 16 * HexValue(d[..i]) + Nibble(d[i]);
  }

  /** The text after an optional 0x or 0X. */
  function Digits(text: cstring): cstring {
    if 2 <= |text| && text[0] == 48 && (text[1] == 120 || text[1] == 88) then text[2..] else text
  }

  /** A prefix is "0x" or "0X", and taken off once. */
  lemma DigitsIs(d: cstring)
    ensures Digits(Ascii("0x") + d) == d && Digits(Ascii("0X") + d) == d
    ensures (forall e: cstring :: d != Ascii("0x") + e && d != Ascii("0X") + e) ==> Digits(d) == d
  {
    assert (Ascii("0x") + d)[2..] == d && (Ascii("0X") + d)[2..] == d;
    if 2 <= |d| && d[0] == 48 && (d[1] == 120 || d[1] == 88) {
      assert d == [48, d[1]] + d[2..];
      assert d == Ascii("0x") + d[2..] || d == Ascii("0X") + d[2..];
    }
  }

  /** Two digits for each octet. */
  function HexText(s: seq<byte>): cstring {
    if s == [] then []
    else
      var b := s[|s| - 1];
      HexText(s[..|s| - 1]) + [HexDigit(b / 16), HexDigit(b % 16)]
  }

  function HexDigit(v: nat): (c: byte)
    requires v < 16
    ensures c != 0 && Nibble(c) == v
  {
    if v < 10 then 48 + v else 97 + (v - 10)
  }

  /** Every octet string, printed in hex, is parsed back to the same number. */
  lemma {:induction false} HexRoundTrip(s: seq<byte>)
    ensures |HexText(s)| == 2 * |s| && AllHex(HexText(s)) && HexValue(HexText(s)) == BeValue(s)
  {
    hide Nibble;
    if s != [] {
      var init, b := s[..|s| - 1], s[|s| - 1];
      HexRoundTrip(init);
      var t := HexText(s);
      assert t[..|t| - 2] == HexText(init);
      AllHexTwo(t, |t| - 2);
      assert t[..|t| - 2 + 2] == t;
      HexValueTwo(t, |t| - 2);
    }
  }

  lemma AllHexCons(c: byte, d: seq<byte>)
    ensures AllHex([c] + d) <==> 0 <= Nibble(c) && AllHex(d)
  {
    hide Nibble;
    var t := [c] + d;
    if AllHex(t) {
      assert t[0] == c && forall k :: 0 <= k < |d| ==> d[k] == t[k + 1];
    }
  }

  /** A zero in front of the digits changes nothing, so an odd number of them is read as if it stood there. */
  lemma {:induction false} LeadingZero(d: seq<byte>)
    ensures AllHex([48] + d) <==> AllHex(d)
    ensures AllHex(d) ==> HexValue([48] + d) == HexValue(d)
  {
    AllHexCons(48, d);
    assert Nibble(48) == 0;
    hide Nibble;
    if AllHex(d) && d == [] {
      OneDigit(48);
      assert [48] + d == [48];
      NoDigits();
    } else if AllHex(d) {
      var init := d[..|d| - 1];
      LeadingZero(init);
      assert ([48] + d)[..|d|] == [48] + init;
    }
  }

  /** Does parsing succeed into a buffer of `outMax` octets? */
  predicate Parses(text: cstring, outMax: nat) {
    var d := Digits(text);
    d != [] && AllHex(d) && (|d| + 1) / 2 <= outMax
  }

  /** The digits printed for an octet string, behind a prefix or not, are accepted exactly when there is room for it. */
  lemma HexTextParses(s: seq<byte>, outMax: nat)
    ensures Parses(Ascii("0x") + HexText(s), outMax) <==> s != [] && |s| <= outMax
    ensures Digits(Ascii("0x") + HexText(s)) == HexText(s)
  {
    HexRoundTrip(s);
    DigitsIs(HexText(s));
  }

  lemma NoDigits()
    ensures AllHex([]) && HexValue([]) == 0 == BeValue([])
  {
  }

  lemma NotAllHex(d: seq<byte>, k: nat)
    requires k < |d| && Nibble(d[k]) < 0
    ensures !AllHex(d)
  {
  }

  lemma AllHexTwo(d: seq<byte>, i: nat)
    requires i + 2 <= |d| && AllHex(d[..i]) && 0 <= Nibble(d[i]) && 0 <= Nibble(d[i + 1])
    ensures AllHex(d[..i + 2])
  {
    hide Nibble;
    assert forall k :: 0 <= k < i ==> d[k] == d[..i][k];
  }

  lemma OneDigit(c: byte)
    requires 0 <= Nibble(c)
    ensures AllHex([c]) && HexValue([c]) == Nibble(c) == BeValue([Nibble(c)])
  {
    hide Nibble;
    assert [c][..0] == [];
  }

  /** noxtls_secure_zero */
  method SecureZero(out: array<byte>, len: nat)
    requires len <= out.Length
    modifies out
    ensures forall k :: 0 <= k < len ==> out[k] == 0
    ensures out[len..] == old(out[len..])
  {
    forall k | 0 <= k < len {
      out[k] := 0;
    }
  }

  /** One turn of the digit loop: two digits become the octet at `outPos`. */
  method StorePair(d: cstring, i: nat, out: array<byte>, outPos: nat)
    requires i + 2 <= |d| && 0 <= Nibble(d[i]) && 0 <= Nibble(d[i + 1]) && outPos < out.Length
    requires AllHex(d[..i]) && BeValue(out[..outPos]) == HexValue(d[..i])
    modifies out
    ensures AllHex(d[..i + 2]) && BeValue(out[..outPos + 1]) == HexValue(d[..i + 2])
    ensures out[outPos + 1..] == old(out[outPos + 1..])
  {
    hide Nibble, HexValue, BeValue, AllHex;
    AllHexTwo(d, i);
    HexValueTwo(d, i);
    ghost var before := out[..outPos];
    out[outPos] := Nibble(d[i]) * 16 + Nibble(d[i + 1]);
    BeValueAppend(before, out[outPos]);
    assert out[..outPos + 1] == before + [out[outPos]];
  }

  /** The part of certgen_parse_scalar_hex after its length checks. */
  method ParseDigits(d: cstring, out: array<byte>, outMax: nat) returns (ok: bool, outLen: nat)
    requires d != [] && (|d| + 1) / 2 <= outMax <= out.Length
    modifies out
    ensures ok <==> AllHex(d)
    ensures ok ==> outLen == (|d| + 1) / 2 && BeValue(out[..outLen]) == HexValue(d)
    ensures ok ==> out[outLen..] == old(out[outLen..])
    ensures !ok ==> outLen == 0 && out[outMax..] == old(out[outMax..])
    ensures !ok && |d| % 2 == 1 && Nibble(d[0]) < 0 ==> out[..] == old(out[..])
    ensures !ok && !(|d| % 2 == 1 && Nibble(d[0]) < 0) ==> forall k :: 0 <= k < outMax ==> out[k] == 0
  {
    hide Nibble, HexValue, BeValue, AllHex;
    NoDigits();
    ghost var start := out[..];
    var outPos: nat, i: nat := 0, 0;
    if |d| % 2 != 0 {
      var nibble := Nibble(d[0]);
      if nibble < 0 {
        NotAllHex(d, 0);
        return false, 0;
      }
      out[outPos] := nibble;
      outPos := outPos + 1;
      i := 1;
      OneDigit(d[0]);
      assert d[..1] == [d[0]] && out[..1] == [nibble as byte];
    }
    while i < |d|
      invariant i <= |d| && 2 * outPos == i + |d| % 2 && i % 2 == |d| % 2
      invariant AllHex(d[..i]) && BeValue(out[..outPos]) == HexValue(d[..i])
      invariant outPos <= out.Length && out[outPos..] == start[outPos..]
      invariant |d| % 2 == 1 ==> 0 <= Nibble(d[0])
    {
      var hi, lo := Nibble(d[i]), Nibble(d[i + 1]);
      if hi < 0 || lo < 0 {
        NotAllHex(d, if hi < 0 then i else i + 1);
        SecureZero(out, outMax);
        return false, 0;
      }
      ghost var now := out[..];
      StorePair(d, i, out, outPos);
      assert out[outPos + 1..] == now[outPos..][1..] && start[outPos..][1..] == start[outPos + 1..];
      outPos := outPos + 1;
      i := i + 2;
    }
    assert d[..i] == d;
    return true, outPos;
  }

  /** certgen_parse_scalar_hex */
  method ParseHex(text: cstring, out: array?<byte>, outMax: uint32) returns (ok: bool, outLen: nat)
    requires out != null ==> outMax <= out.Length
    modifies out
    ensures ok <==> out != null && Parses(text, outMax)
    ensures ok ==> outLen == (|Digits(text)| + 1) / 2
    ensures ok ==> BeValue(out[..outLen]) == HexValue(Digits(text)) && out[outLen..] == old(out[outLen..])
    ensures !ok ==> outLen == 0
    ensures !ok && out != null ==> out[outMax..] == old(out[outMax..])
  {
    if out == null { return false, 0; }
    var d := Digits(text);
    if |d| == 0 || (|d| + 1) / 2 > outMax { return false, 0; }
    ok, outLen := ParseDigits(d, out, outMax);
  }

  // ----- Bit length -----

  /** The number of binary digits of `v`. */
  function BitLength(v: nat): nat {
    if v == 0 then 0 else 1 + BitLength(v / 2)
  }

  lemma {:induction false} BitLengthBounds(v: nat)
    requires v > 0
    ensures BitLength(v) > 0 && Pow2(BitLength(v) - 1) <= v < Pow2(BitLength(v))
  {
    if v > 1 {
      BitLengthBounds(v / 2);
    } else {
      assert BitLength(0) == 0 && Pow2(0) == 1;
    }
  }

  lemma BitLengthDouble(v: nat, b: nat)
    requires b < 2 && 0 < 2 * v + b
    ensures BitLength(2 * v + b) == 1 + BitLength(v)
  {
  }

  lemma BitLengthOctet(v: nat, b: byte)
    requires v > 0
    ensures BitLength(256 * v + b) == BitLength(v) + 8
  {
    var w := 256 * v + b;
    var w1 := w / 2;
    var w2 := w1 / 2;
    var w3 := w2 / 2;
    var w4 := w3 / 2;
    BitLengthHalves(w);
    BitLengthHalves(w4);
  }

  lemma BitLengthHalves(w: nat)
    requires w >= 16
    ensures w / 2 / 2 / 2 / 2 == w / 16 && BitLength(w) == 4 + BitLength(w / 16)
  {
    var x := w / 2 / 2;
    assert BitLength(w) == 2 + BitLength(x);
    assert BitLength(x) == 2 + BitLength(x / 2 / 2);
  }

  lemma BitLengthTopBit(b: byte)
    requires 128 <= b
    ensures BitLength(b) == 8
  {
    BitLengthBounds(b);
    Pow2Of8();
    assert Pow2(7) == 128;
    if BitLength(b) < 8 {
      Pow2Monotone(BitLength(b), 7);
    } else if 8 < BitLength(b) {
      Pow2Monotone(8, BitLength(b) - 1);
    }
  }

  lemma {:induction false} Pow2Monotone(m: nat, n: nat)
    requires m <= n
    ensures Pow2(m) <= Pow2(n)
  {
    if m < n {
      Pow2Monotone(m, n - 1);
    }
  }

  /** The bit length of an octet string that starts with a non-zero octet. */
  lemma {:induction false} BitLengthOfOctets(t: seq<byte>)
    requires t != [] && t[0] != 0
    ensures BitLength(BeValue(t)) == 8 * (|t| - 1) + BitLength(t[0])
  {
    if |t| == 1 {
      assert t[..0] == [] && BeValue(t[..0]) == 0;
    } else {
      var s := t[..|t| - 1];
      BitLengthOfOctets(s);
      BeValueLeadingNonZero(s);
      BitLengthOctet(BeValue(s), t[|t| - 1]);
    }
  }

  /** certgen_scalar_bit_length: the bit length of the big-endian value, reduced to a `uint32_t`. */
  method ScalarBitLength(value: array?<byte>, valueLen: uint32) returns (bits: int)
    requires value != null ==> valueLen <= value.Length
    ensures value == null ==> bits == 0
    ensures value != null ==> bits == Wrap32(BitLength(BeValue(value[..valueLen])))
  {
    if value == null { return 0; }
    hide BitLength, BeValue;
    var start: nat, len: nat := 0, valueLen;
    while len > 0 && value[start] == 0
      invariant start + len == valueLen
      invariant BeValue(value[start..valueLen]) == BeValue(value[..valueLen])
    {
      BeValueLeadingZero(value[start..valueLen]);
      assert value[start..valueLen][1..] == value[start + 1..valueLen];
      start := start + 1;
      len := len - 1;
    }
    ghost var t := value[start..valueLen];
    if len == 0 {
      assert t == [];
      NoBits();
      return 0;
    }
    BitLengthOfOctets(t);
    bits := ShiftToTop(value[start], len * 8);
  }

  /** The shift loop of certgen_scalar_bit_length. */
  method ShiftToTop(octet: byte, top: int) returns (bits: int)
    requires octet != 0
    ensures bits == Wrap32(top - 8 + BitLength(octet))
  {
    hide BitLength, Wrap32;
    bits := Wrap32(top);
    var first: int := octet;
    ghost var shift := 0;
    while first < 128
      invariant 0 < first < 256 && bits == Wrap32(top - shift)
      invariant BitLength(first) == BitLength(octet) + shift
      decreases 256 - first
    {
      BitLengthDouble(first, 0);
      WrapDown(top - shift);
      assert first * 2 % 256 == 2 * first;
      first := first * 2 % 256;
      bits := Wrap32(bits - 1);
      shift := shift + 1;
    }
    BitLengthTopBit(first);
  }

  lemma NoBits()
    ensures BeValue([]) == 0 && BitLength(0) == 0
  {
  }

  lemma WrapDown(x: int)
    ensures Wrap32(Wrap32(x) - 1) == Wrap32(x - 1)
  {
  }

  /** The routine's answer is the bit length exactly when that is below 2^32. */
  lemma BitLengthFits(v: nat)
    ensures Wrap32(BitLength(v)) == BitLength(v) <==> BitLength(v) < UINT32_LIMIT
  {
  }

  /** Values of fewer than 2^29 octets are below that bound, and the answer brackets the value. */
  lemma BitLengthBrackets(s: seq<byte>)
    requires |s| < 0x2000_0000
    ensures var v, b := BeValue(s), Wrap32(BitLength(BeValue(s)));
      if v == 0 then b == 0 else b > 0 && Pow2(b - 1) <= v < Pow2(b)
  {
    hide BeValue, Pow2, BitLength, Wrap32;
    BitLengthAtMost(s);
    BitLengthFits(BeValue(s));
    NoBits();
    if BeValue(s) > 0 {
      BitLengthBounds(BeValue(s));
    }
  }

  lemma {:induction false} BitLengthAtMost(s: seq<byte>)
    ensures BitLength(BeValue(s)) <= 8 * |s|
  {
    if s != [] {
      if s[0] == 0 {
        BeValueLeadingZero(s);
        BitLengthAtMost(s[1..]);
      } else {
        BitLengthOfOctets(s);
        BitLengthOfOneOctet(s[0]);
      }
    }
  }

  lemma BitLengthOfOneOctet(b: byte)
    ensures BitLength(b) <= 8
  {
    if b > 0 {
      BitLengthBounds(b);
      Pow2Of8();
      if 8 < BitLength(b) {
        Pow2Monotone(8, BitLength(b) - 1);
      }
    }
  }
}
