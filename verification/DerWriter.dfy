/** The DER writers of noxtls-lib/certs/asn1.c that certgen builds public keys with. */
module DerWriter {
  import opened Bytes
  import opened Asn1

  // ----- What the writers write -----

  /** noxtls_asn1_put_length: the shortest form for up to 2^24 - 1 octets, nothing beyond. */
  function LengthOctets(n: nat): (lo: seq<byte>)
    ensures lo == [] <==> n > 0xff_ffff
  {
    if n < 128 then [n]
    else if n <= 0xff then [0x81, n]
    else if n <= 0xffff then [0x82, n / 256, n % 256]
    else if n <= 0xff_ffff then [0x83, n / 65536, n / 256 % 256, n % 256]
    else []
  }

  lemma LengthOctetsForm(n: nat)
    requires n <= 0xff_ffff
    ensures LengthForm(LengthOctets(n), n)
  {
    var lo := LengthOctets(n);
    if 128 <= n {
      var v := lo[1..];
      assert v[..0] == [] && BeValue(v[..0]) == 0;
      assert v[..1][..0] == [] && BeValue(v[..1]) == v[0];
      if |v| >= 2 {
        assert v[..2][..1] == v[..1] && BeValue(v[..2]) == 256 * BeValue(v[..1]) + v[1];
      }
      if |v| == 3 {
        assert BeValue(v) == 256 * BeValue(v[..2]) + v[2];
      } else if |v| == 2 {
        assert v[..2] == v;
      } else {
        assert v[..1] == v;
      }
    }
  }

  /** No length octets that the reader takes, for `n` or more, are shorter. */
  lemma LengthOctetsShortest(n: nat, m: nat, lo: seq<byte>)
    requires LengthForm(lo, m) && n <= m
    ensures |LengthOctets(n)| <= |lo|
  {
    if |lo| > 1 {
      BeValueBound(lo[1..]);
      Pow256Small();
    }
  }

  /** A TLV in DER, or nothing where the writer returns 0: body too long, or no room. */
  function Put(tag: byte, body: seq<byte>, outMax: nat): seq<byte> {
    var lo := LengthOctets(|body|);
    if lo == [] || 1 + |lo| + |body| > outMax then [] else [tag] + lo + body
  }

  /** The octets that a TLV with a body of `n` octets takes. */
  function TlvSize(n: nat): (size: nat)
    ensures n < size
  {
    1 + |LengthOctets(n)| + n
  }

  /** Nothing is written exactly for a body of 2^24 octets or more, or for want of room. */
  lemma PutIff(tag: byte, body: seq<byte>, outMax: nat)
    ensures Put(tag, body, outMax) != [] <==> |body| < 0x100_0000 && TlvSize(|body|) <= outMax
    ensures Put(tag, body, outMax) != [] ==> |Put(tag, body, outMax)| == TlvSize(|body|)
  {
    hide LengthOctets;
  }

  lemma PutIsTlv(tag: byte, body: seq<byte>, outMax: nat)
    requires Put(tag, body, outMax) != []
    ensures IsTlv(Put(tag, body, outMax), tag, body)
    ensures |Put(tag, body, outMax)| <= outMax
  {
    LengthOctetsForm(|body|);
  }

  /** noxtls_asn1_put_oid_raw, empty where it returns 0. */
  function PutOid(oid: seq<byte>, outMax: nat): seq<byte> {
    if oid == [] then [] else Put(OBJECT_IDENTIFIER, oid, outMax)
  }

  /** noxtls_asn1_put_bit_string, empty where it returns 0. */
  function PutBits(data: seq<byte>, outMax: nat): seq<byte> {
    Put(BIT_STRING, [0] + data, outMax)
  }

  /** The body of a DER INTEGER for an unsigned big-endian number. */
  function IntegerBody(be: seq<byte>): seq<byte>
    requires be != []
  {
    var t := Trimmed(be);
    if 128 <= t[0] then [0] + t else t
  }

  /** noxtls_asn1_put_integer, empty where it returns 0. */
  function PutInteger(be: seq<byte>, outMax: nat): seq<byte> {
    if be == [] then [] else Put(INTEGER, IntegerBody(be), outMax)
  }

  /** The body keeps the value, is non-negative as a two's complement number, and has no superfluous zero. */
  lemma IntegerBodyIsDer(be: seq<byte>)
    requires be != []
    ensures var b := IntegerBody(be);
      && b != [] && BeValue(b) == BeValue(be) && b[0] < 128
      && (2 <= |b| && b[0] == 0 ==> 128 <= b[1])
  {
    var t := Trimmed(be);
    if 128 <= t[0] {
      BeValueLeadingZero([0] + t);
      assert ([0] + t)[1..] == t;
    }
  }

  // ----- The writers -----

  /** asn1_write_bytes: copies `src` to `dst` at `off` when it fits below `dstMax`. */
  method WriteBytes(dst: array<byte>, dstMax: nat, off: nat, src: seq<byte>) returns (ok: bool)
    requires dstMax <= dst.Length
    modifies dst
    ensures ok <==> off + |src| <= dstMax
    ensures ok ==> dst[..off + |src|] == old(dst[..off]) + src && dst[off + |src|..] == old(dst[off + |src|..])
    ensures !ok ==> dst[..] == old(dst[..])
  {
    if |src| > dstMax || off > dstMax - |src| { return false; }
    var i := 0;
    while i < |src|
      invariant i <= |src|
      invariant dst[..off] == old(dst[..off])
      invariant dst[off..off + i] == src[..i]
      invariant dst[off + |src|..] == old(dst[off + |src|..])
    {
      dst[off + i] := src[i];
      i := i + 1;
    }
    return true;
  }

  /** noxtls_asn1_put_length into a five-octet buffer. */
  method PutLength(len: nat) returns (lenBuf: array<byte>, n: nat)
    ensures fresh(lenBuf) && lenBuf.Length == 5 && n == |LengthOctets(len)| <= 5
    ensures lenBuf[..n] == LengthOctets(len)
  {
    lenBuf := new byte[5](_ => 0);
    if len < 128 {
      lenBuf[0] := len;
      return lenBuf, 1;
    }
    if len <= 0xff {
      lenBuf[0], lenBuf[1] := 0x81, len;
      return lenBuf, 2;
    }
    if len <= 0xffff {
      lenBuf[0], lenBuf[1], lenBuf[2] := 0x82, len / 256, len % 256;
      return lenBuf, 3;
    }
    if len <= 0xff_ffff {
      lenBuf[0], lenBuf[1], lenBuf[2], lenBuf[3] := 0x83, len / 65536, len / 256 % 256, len % 256;
      return lenBuf, 4;
    }
    return lenBuf, 0;
  }

  /** Tag and length octets for `len` content octets, of which the caller still has to write all. */
  method PutHeader(tag: byte, len: nat, out: array<byte>, outMax: nat) returns (at: nat)
    requires outMax <= out.Length
    modifies out
    ensures var lo := LengthOctets(len);
      at == if lo == [] || 1 + |lo| + len > outMax then 0 else 1 + |lo|
    ensures at != 0 ==> out[..at] == [tag] + LengthOctets(len) && at + len <= outMax
    ensures out[at..] == old(out[at..])
  {
    hide LengthOctets;
    var lenBuf, lenBytes := PutLength(len);
    if lenBytes == 0 || 1 + lenBytes + len > outMax {
      return 0;
    }
    out[0] := tag;
    var ok := WriteBytes(out, outMax, 1, lenBuf[..lenBytes]);
    return 1 + lenBytes;
  }

  /** noxtls_asn1_put_sequence, and noxtls_asn1_put_oid_raw for a non-empty body. */
  method PutTlv(tag: byte, body: seq<byte>, out: array<byte>, outMax: nat) returns (n: nat)
    requires outMax <= out.Length
    modifies out
    ensures n == |Put(tag, body, outMax)| <= outMax
    ensures out[..n] == Put(tag, body, outMax)
    ensures out[n..] == old(out[n..])
  {
    hide LengthOctets;
    var at := PutHeader(tag, |body|, out, outMax);
    if at == 0 { return 0; }
    var ok := WriteBytes(out, outMax, at, body);
    return at + |body|;
  }

  /** A TLV whose first content octet is written apart from the others. */
  method PutPrefixed(tag: byte, first: byte, rest: seq<byte>, out: array<byte>, outMax: nat) returns (n: nat)
    requires outMax <= out.Length
    modifies out
    ensures n == |Put(tag, [first] + rest, outMax)| <= outMax
    ensures out[..n] == Put(tag, [first] + rest, outMax)
    ensures out[n..] == old(out[n..])
  {
    hide LengthOctets;
    var at := PutHeader(tag, 1 + |rest|, out, outMax);
    if at == 0 { return 0; }
    ghost var head := out[..at];
    out[at] := first;
    assert out[..at] == head;
    assert out[..at + 1] == head + [first];
    var ok := WriteBytes(out, outMax, at + 1, rest);
    assert head + [first] + rest == head + ([first] + rest);
    return at + 1 + |rest|;
  }

  /** noxtls_asn1_put_bit_string */
  method PutBitString(data: seq<byte>, out: array<byte>, outMax: nat) returns (n: nat)
    requires outMax <= out.Length
    modifies out
    ensures n == |PutBits(data, outMax)| <= outMax
    ensures out[..n] == PutBits(data, outMax)
    ensures out[n..] == old(out[n..])
  {
    n := PutPrefixed(BIT_STRING, 0, data, out, outMax);
  }

  /** The leading zero octets that an INTEGER leaves out. */
  method SkipZeros(be: seq<byte>) returns (start: nat)
    requires be != []
    ensures start < |be| && be[start..] == Trimmed(be)
  {
    start := 0;
    while |be| - start > 1 && be[start] == 0
      invariant start < |be| && Trimmed(be[start..]) == Trimmed(be)
    {
      start := start + 1;
      assert be[start - 1..][1..] == be[start..];
    }
  }

  /** noxtls_asn1_put_integer */
  method PutIntegerTlv(be: seq<byte>, out: array<byte>, outMax: nat) returns (n: nat)
    requires outMax <= out.Length
    modifies out
    ensures n == |PutInteger(be, outMax)| <= outMax
    ensures out[..n] == PutInteger(be, outMax)
    ensures out[n..] == old(out[n..])
  {
    hide LengthOctets, BeValue, Trimmed;
    if be == [] { return 0; }
    var start := SkipZeros(be);
    var t := be[start..];
    if 128 <= t[0] {
      n := PutPrefixed(INTEGER, 0, t, out, outMax);
    } else {
      n := PutTlv(INTEGER, t, out, outMax);
    }
  }
}
