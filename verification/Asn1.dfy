/** Definite-length TLVs (X.690 section 8.1) and certgen's reader for them. */
module Asn1 {
  import opened Bytes

  const SEQUENCE: byte := 0x30
  const BIT_STRING: byte := 0x03
  const INTEGER: byte := 0x02
  const OBJECT_IDENTIFIER: byte := 0x06

  // ----- What a TLV is -----

  /** `lo` are length octets for `n`: the short form, or the long form with one to four octets. */
  predicate LengthForm(lo: seq<byte>, n: nat) {
    || (|lo| == 1 && lo[0] == n && n < 128)
    || (2 <= |lo| <= 5 && lo[0] == 127 + |lo| && BeValue(lo[1..]) == n)
  }

  /** `t` is a TLV with this tag and body. */
  ghost predicate IsTlv(t: seq<byte>, tag: byte, body: seq<byte>) {
    exists lo :: LengthForm(lo, |body|) && t == [tag] + lo + body
  }

  // ----- The reader -----

  /** The outcome of reading at a cursor: success, the new cursor, and where the value lies. */
  datatype Read = Read(ok: bool, next: nat, start: nat, len: nat)

  /** certgen_asn1_read_len as a function of the input and the cursor. */
  function ReadLen(s: seq<byte>, p: nat, end: nat): (r: Read)
    requires end <= |s|
    ensures p <= r.next && (p <= end ==> r.next <= end)
  {
    if p >= end then Read(false, p, 0, 0)
    else if s[p] < 128 then Read(true, p + 1, 0, s[p])
    else
      var n := s[p] - 128;
      if n == 0 || n > 4 || end - (p + 1) < n then Read(false, p + 1, 0, 0)
      else Read(true, p + 1 + n, 0, BeValue(s[p + 1..p + 1 + n]))
  }

  /** certgen_asn1_read_tlv as a function of the input and the cursor. */
  function ReadTlv(s: seq<byte>, p: nat, end: nat, tag: byte): (r: Read)
    requires end <= |s|
    ensures p <= r.next && (p <= end ==> r.next <= end)
    ensures r.ok ==> p + 2 <= r.start && r.start + r.len == r.next <= end
  {
    if p >= end then Read(false, p, 0, 0)
    else if s[p] != tag then Read(false, p + 1, 0, 0)
    else
      var l := ReadLen(s, p + 1, end);
      if !l.ok || end - l.next < l.len then Read(false, l.next, 0, 0)
      else Read(true, l.next + l.len, l.next, l.len)
  }

  /** A read succeeds only on a TLV, whose body it locates. */
  lemma ReadTlvSound(s: seq<byte>, p: nat, end: nat, tag: byte)
    requires end <= |s| && ReadTlv(s, p, end, tag).ok
    ensures var r := ReadTlv(s, p, end, tag);
      IsTlv(s[p..r.next], tag, s[r.start..r.next])
  {
    var r := ReadTlv(s, p, end, tag);
    var lo := s[p + 1..r.start];
    assert lo[1..] == s[p + 2..r.start];
    assert LengthForm(lo, r.len);
    assert s[p..r.next] == [tag] + lo + s[r.start..r.next];
  }

  /** Every TLV at the cursor is read, whatever follows it. */
  lemma ReadTlvComplete(s: seq<byte>, p: nat, end: nat, tag: byte, t: seq<byte>, body: seq<byte>)
    requires p + |t| <= end <= |s| && s[p..p + |t|] == t && IsTlv(t, tag, body)
    ensures ReadTlv(s, p, end, tag) == Read(true, p + |t|, p + |t| - |body|, |body|)
    ensures s[p + |t| - |body|..p + |t|] == body
  {
    var lo :| LengthForm(lo, |body|) && t == [tag] + lo + body;
    var u := s[p..p + |t|];
    assert forall k :: 0 <= k < |t| ==> s[p + k] == t[k];
    assert t[1..1 + |lo|] == lo && t[1 + |lo|..] == body;
    assert s[p + 1..p + 1 + |lo|] == u[1..1 + |lo|];
    assert s[p + 2..p + 1 + |lo|] == u[2..1 + |lo|] == lo[1..];
    assert s[p + 1 + |lo|..p + |t|] == u[1 + |lo|..];
    assert s[p + 1] == t[1] == lo[0];
  }

  /** certgen_asn1_read_len on a buffer; the cursor moves also when it fails. */
  method ReadLenAt(buf: array<byte>, p: nat, end: nat) returns (ok: bool, next: nat, len: nat)
    requires end <= buf.Length
    ensures var r := ReadLen(buf[..], p, end); ok == r.ok && next == r.next && (ok ==> len == r.len < UINT32_LIMIT)
  {
    next, len := p, 0;
    if next >= end { return false, next, 0; }
    var first := buf[next];
    next := next + 1;
    if first < 128 { return true, next, first; }
    var n := first - 128;
    if n == 0 || n > 4 || end - next < n { return false, next, 0; }
    var v: int := 0;
    var i := 0;
    while i < n
      invariant i <= n && next == p + 1 + i
      invariant v == BeValue(buf[p + 1..next])
    {
      BeValueBound(buf[p + 1..next]);
      Pow256Small();
      Pow256Monotone(i, 3);
      assert buf[p + 1..next + 1][..i] == buf[p + 1..next];
      v := Wrap32(v * 256) + buf[next];
      next := next + 1;
      i := i + 1;
    }
    BeValueBound(buf[p + 1..next]);
    Pow256Small();
    Pow256Monotone(n, 4);
    assert buf[..][p + 1..next] == buf[p + 1..next];
    return true, next, v;
  }

  /** certgen_asn1_read_tlv on a buffer. */
  method ReadTlvAt(buf: array<byte>, p: nat, end: nat, expected: byte)
    returns (ok: bool, next: nat, body: nat, bodyLen: nat)
    requires end <= buf.Length < UINT32_LIMIT
    ensures var r := ReadTlv(buf[..], p, end, expected);
      ok == r.ok && next == r.next && (ok ==> body == r.start && bodyLen == r.len)
  {
    next := p;
    if next >= end { return false, next, 0, 0; }
    next := next + 1;
    if buf[next - 1] != expected { return false, next, 0, 0; }
    var len: nat;
    ok, next, len := ReadLenAt(buf, next, end);
    if !ok { return false, next, 0, 0; }
    if end - next < len { return false, next, 0, 0; }
    return true, next + len, next, len;
  }
}
