/** SubjectPublicKeyInfo (RFC 5280 section 4.1.2.7): the three builders of certgen and its extractor. */
module Spki {
  import opened Bytes
  import opened Asn1
  import opened DerWriter

  const PKCS1_MAX: int := 16384
  const SPKI_MAX: int := 16384

  const OID_RSA_ENCRYPTION: seq<byte> := [0x2A, 0x86, 0x48, 0x86, 0xF7, 0x0D, 0x01, 0x01, 0x01]
  const OID_EC_PUBLIC_KEY: seq<byte> := [0x2A, 0x86, 0x48, 0xCE, 0x3D, 0x02, 0x01]
  const NULL_DER: seq<byte> := [0x05, 0x00]

  // ----- Extraction -----

  /** The raw key octets that spki_extract_raw_pubkey finds, with their offset. */
  function Extract(s: seq<byte>): (r: Option<(nat, nat)>)
    ensures r.Some? ==> r.value.0 + r.value.1 <= |s|
  {
    var outer := ReadTlv(s, 0, |s|, SEQUENCE);
    if !outer.ok then None
    else
      var end := outer.start + outer.len;
      var alg := ReadTlv(s, outer.start, end, SEQUENCE);
      if !alg.ok then None
      else
        var bits := ReadTlv(s, alg.next, end, BIT_STRING);
        if !bits.ok || bits.len < 1 || s[bits.start] != 0 then None
        else Some((bits.start + 1, bits.len - 1))
  }

  function ExtractKey(s: seq<byte>): Option<seq<byte>> {
    var r := Extract(s);
    if r.None? then None else Some(s[r.value.0..r.value.0 + r.value.1])
  }

  /** `parts` shows `s` to be a SubjectPublicKeyInfo for `key`, perhaps followed by other octets. */
  datatype Parts = Parts(outer: seq<byte>, algTlv: seq<byte>, alg: seq<byte>, bitsTlv: seq<byte>,
                         rest: seq<byte>, tail: seq<byte>)

  ghost predicate Shows(p: Parts, s: seq<byte>, key: seq<byte>) {
    && s == p.outer + p.tail
    && IsTlv(p.outer, SEQUENCE, p.algTlv + p.bitsTlv + p.rest)
    && IsTlv(p.algTlv, SEQUENCE, p.alg)
    && IsTlv(p.bitsTlv, BIT_STRING, [0] + key)
  }

  ghost predicate IsSpki(s: seq<byte>, key: seq<byte>) {
    exists p :: Shows(p, s, key)
  }

  lemma IsTlvSize(t: seq<byte>, tag: byte, body: seq<byte>)
    requires IsTlv(t, tag, body)
    ensures |body| + 2 <= |t|
  {
  }

  lemma SliceOfSlice<T>(s: seq<T>, i: nat, j: nat, a: nat, b: nat)
    requires i <= j <= |s| && a <= b <= j - i
    ensures s[i..j][a..b] == s[i + a..i + b]
  {
    var t := s[i..j];
    assert forall k :: 0 <= k < b - a ==> t[a..b][k] == t[a + k] == s[i + a + k];
  }

  lemma SliceJoin<T>(s: seq<T>, a: nat, b: nat, c: nat)
    requires a <= b <= c <= |s|
    ensures s[a..b] + s[b..c] == s[a..c]
  {
  }

  lemma SliceParts<T>(s: seq<T>, a: nat, b: nat, c: nat, d: nat)
    requires a <= b <= c <= d <= |s|
    ensures s[a..b] + s[b..c] + s[c..d] == s[a..d] && s == s[0..d] + s[d..|s|]
  {
  }

  lemma ExtractSound(s: seq<byte>)
    requires Extract(s).Some?
    ensures IsSpki(s, ExtractKey(s).value)
  {
    hide IsTlv, ReadTlv;
    var outer := ReadTlv(s, 0, |s|, SEQUENCE);
    ReadTlvSound(s, 0, |s|, SEQUENCE);
    var end := outer.next;
    var alg := ReadTlv(s, outer.start, end, SEQUENCE);
    ReadTlvSound(s, outer.start, end, SEQUENCE);
    var bits := ReadTlv(s, alg.next, end, BIT_STRING);
    ReadTlvSound(s, alg.next, end, BIT_STRING);
    var key := ExtractKey(s).value;
    assert s[bits.start] == 0 && key == s[bits.start + 1..bits.next];
    hide Extract, ExtractKey;
    SliceJoin(s, bits.start, bits.start + 1, bits.next);
    PartsShow(s, key, outer, alg, bits);
  }

  lemma PartsShow(s: seq<byte>, key: seq<byte>, outer: Read, alg: Read, bits: Read)
    requires outer.start <= alg.start <= alg.next <= bits.start < bits.next <= outer.next <= |s|
    requires IsTlv(s[0..outer.next], SEQUENCE, s[outer.start..outer.next])
    requires IsTlv(s[outer.start..alg.next], SEQUENCE, s[alg.start..alg.next])
    requires IsTlv(s[alg.next..bits.next], BIT_STRING, s[bits.start..bits.next])
    requires s[bits.start..bits.next] == [0] + key
    ensures IsSpki(s, key)
  {
    hide IsTlv;
    SliceParts(s, outer.start, alg.next, bits.next, outer.next);
    var p := Parts(s[0..outer.next], s[outer.start..alg.next], s[alg.start..alg.next], s[alg.next..bits.next],
                   s[bits.next..outer.next], s[outer.next..|s|]);
    assert Shows(p, s, key);
  }

  /** Where the parts of a SubjectPublicKeyInfo lie in the input. */
  lemma PartsAt(p: Parts, s: seq<byte>, key: seq<byte>)
    requires Shows(p, s, key)
    ensures var end := |p.outer|;
      var start := end - |p.algTlv| - |p.bitsTlv| - |p.rest|;
      var next := start + |p.algTlv|;
      && 2 <= start && end <= |s| && s[0..end] == p.outer
      && s[start..next] == p.algTlv && s[next..next + |p.bitsTlv|] == p.bitsTlv
      && ReadTlv(s, 0, |s|, SEQUENCE) == Read(true, end, start, end - start)
  {
    hide IsTlv, ReadTlv;
    var body := p.algTlv + p.bitsTlv + p.rest;
    var end := |p.outer|;
    assert s[0..end] == p.outer;
    ReadTlvComplete(s, 0, |s|, SEQUENCE, p.outer, body);
    IsTlvSize(p.outer, SEQUENCE, body);
    var start := end - |body|;
    SliceOfSlice(s, start, end, 0, |p.algTlv|);
    SliceOfSlice(s, start, end, |p.algTlv|, |p.algTlv| + |p.bitsTlv|);
    assert body[0..|p.algTlv|] == p.algTlv && body[|p.algTlv|..|p.algTlv| + |p.bitsTlv|] == p.bitsTlv;
  }

  lemma KeyInBits(s: seq<byte>, at: nat, past: nat, key: seq<byte>)
    requires at <= past <= |s| && s[at..past] == [0] + key
    ensures past == at + 1 + |key| && s[at] == 0 && s[at + 1..past] == key
  {
    var bits := s[at..past];
    assert bits[0] == s[at] && bits[1..] == key;
    SliceOfSlice(s, at, past, 1, 1 + |key|);
  }

  lemma ExtractComplete(p: Parts, s: seq<byte>, key: seq<byte>)
    requires Shows(p, s, key)
    ensures ExtractKey(s) == Some(key)
  {
    hide IsTlv, ReadTlv;
    PartsAt(p, s, key);
    var end := |p.outer|;
    var start := end - |p.algTlv| - |p.bitsTlv| - |p.rest|;
    var next := start + |p.algTlv|;
    ReadTlvComplete(s, start, end, SEQUENCE, p.algTlv, p.alg);
    ReadTlvComplete(s, next, end, BIT_STRING, p.bitsTlv, [0] + key);
    IsTlvSize(p.bitsTlv, BIT_STRING, [0] + key);
    var at, past := next + |p.bitsTlv| - |key| - 1, next + |p.bitsTlv|;
    hide Shows;
    KeyInBits(s, at, past, key);
    assert Extract(s) == Some((at + 1, |key|));
  }

  /** Extraction succeeds with a key on exactly the inputs that open with a SubjectPublicKeyInfo for it. */
  lemma ExtractIffSpki(s: seq<byte>, key: seq<byte>)
    ensures ExtractKey(s) == Some(key) <==> IsSpki(s, key)
  {
    if ExtractKey(s) == Some(key) {
      ExtractSound(s);
    }
    if IsSpki(s, key) {
      var p :| Shows(p, s, key);
      ExtractComplete(p, s, key);
    }
  }

  /** A successful extraction is unchanged by whatever follows. */
  lemma ExtractIgnoresTail(s: seq<byte>, more: seq<byte>)
    requires Extract(s).Some?
    ensures ExtractKey(s + more) == ExtractKey(s)
  {
    ExtractSound(s);
    var key := ExtractKey(s).value;
    var p :| Shows(p, s, key);
    hide IsTlv, Extract, ExtractKey;
    ShowsMore(p, s, key, more);
    ExtractComplete(p.(tail := p.tail + more), s + more, key);
  }

  lemma ShowsMore(p: Parts, s: seq<byte>, key: seq<byte>, more: seq<byte>)
    requires Shows(p, s, key)
    ensures Shows(p.(tail := p.tail + more), s + more, key)
  {
    hide IsTlv;
    assert s + more == p.outer + (p.tail + more);
  }

  /** A successful extraction leaves at least seven octets of framing. */
  lemma ExtractLeavesFraming(s: seq<byte>)
    requires Extract(s).Some?
    ensures |ExtractKey(s).value| + 7 <= |s|
  {
    ExtractSound(s);
    var key := ExtractKey(s).value;
    var p :| Shows(p, s, key);
    hide IsTlv, Extract, ExtractKey;
    IsTlvSize(p.outer, SEQUENCE, p.algTlv + p.bitsTlv + p.rest);
    IsTlvSize(p.algTlv, SEQUENCE, p.alg);
    IsTlvSize(p.bitsTlv, BIT_STRING, [0] + key);
  }

  /** The length of the shortest SubjectPublicKeyInfo, one with an empty algorithm, for a key of `k` octets. */
  function LeastSpki(k: nat): nat {
    var body := 4 + |LengthOctets(1 + k)| + k;
    1 + |LengthOctets(body)| + body
  }

  lemma TlvAtLeast(t: seq<byte>, tag: byte, body: seq<byte>, n: nat)
    requires IsTlv(t, tag, body) && n <= |body|
    ensures 1 + |LengthOctets(n)| + |body| <= |t|
  {
    var lo :| LengthForm(lo, |body|) && t == [tag] + lo + body;
    LengthOctetsShortest(n, |body|, lo);
  }

  lemma ShowsNeedsLeast(p: Parts, s: seq<byte>, key: seq<byte>)
    requires Shows(p, s, key)
    ensures LeastSpki(|key|) <= |s|
  {
    hide IsTlv, LengthOctets, BeValue;
    IsTlvSize(p.algTlv, SEQUENCE, p.alg);
    var bits, content := [0] + key, p.algTlv + p.bitsTlv + p.rest;
    TlvAtLeast(p.bitsTlv, BIT_STRING, bits, 1 + |key|);
    var least := 4 + |LengthOctets(1 + |key|)| + |key|;
    assert least <= |content|;
    TlvAtLeast(p.outer, SEQUENCE, content, least);
  }

  /** No shorter input gives a key of that length. */
  lemma ExtractNeedsLeast(s: seq<byte>)
    requires Extract(s).Some?
    ensures LeastSpki(|ExtractKey(s).value|) <= |s|
  {
    ExtractSound(s);
    var key := ExtractKey(s).value;
    var p :| Shows(p, s, key);
    hide Shows, Extract, ExtractKey, LeastSpki;
    ShowsNeedsLeast(p, s, key);
  }

  /** spki_extract_raw_pubkey */
  method ExtractRawPubkey(der: array<byte>) returns (ok: bool, pk: nat, pkLen: nat)
    requires der.Length < UINT32_LIMIT
    ensures ok <==> Extract(der[..]).Some?
    ensures ok ==> Extract(der[..]) == Some((pk, pkLen))
  {
    hide ReadTlv;
    var p: nat, end: nat, body: nat, bodyLen: nat;
    ok, p, body, bodyLen := ReadTlvAt(der, 0, der.Length, SEQUENCE);
    if !ok { return false, 0, 0; }
    ReadTlvSound(der[..], 0, der.Length, SEQUENCE);
    p, end := body, body + bodyLen;
    var algBody: nat, algLen: nat;
    ok, p, algBody, algLen := ReadTlvAt(der, p, end, SEQUENCE);
    if !ok { return false, 0, 0; }
    var bsBody: nat, bsLen: nat;
    ghost var q := p;
    ok, p, bsBody, bsLen := ReadTlvAt(der, p, end, BIT_STRING);
    if !ok { return false, 0, 0; }
    ReadTlvSound(der[..], q, end, BIT_STRING);
    if bsLen < 1 || der[bsBody] != 0 { return false, 0, 0; }
    return true, bsBody + 1, bsLen - 1;
  }

  // ----- The builders -----

  /** What all three builders end with: the algorithm, the key as a BIT STRING, and the SEQUENCE around them. */
  function Enclose(alg: seq<byte>, key: seq<byte>, bitsMax: nat, contentMax: nat, outMax: nat): seq<byte> {
    var bits := PutBits(key, bitsMax);
    if alg == [] || bits == [] || |alg| + |bits| > contentMax then [] else Put(SEQUENCE, alg + bits, outMax)
  }

  lemma EncloseIsSpki(alg: seq<byte>, algBody: seq<byte>, key: seq<byte>, bitsMax: nat, contentMax: nat, outMax: nat)
    requires IsTlv(alg, SEQUENCE, algBody)
    requires Enclose(alg, key, bitsMax, contentMax, outMax) != []
    ensures ExtractKey(Enclose(alg, key, bitsMax, contentMax, outMax)) == Some(key)
  {
    var s, bits := Enclose(alg, key, bitsMax, contentMax, outMax), PutBits(key, bitsMax);
    PutIsTlv(BIT_STRING, [0] + key, bitsMax);
    PutIsTlv(SEQUENCE, alg + bits, outMax);
    hide IsTlv, Put;
    var p := Parts(s, alg, algBody, bits, [], []);
    assert alg + bits + [] == alg + bits && s + [] == s;
    assert Shows(p, s, key);
    ExtractComplete(p, s, key);
  }

  /** The PKCS#1 RSAPublicKey, empty where a writer returns 0. */
  function RsaPublicKey(n: seq<byte>, e: seq<byte>): seq<byte> {
    var i := PutInteger(n, PKCS1_MAX);
    if i == [] || |i| > PKCS1_MAX then []
    else
      var j := PutInteger(e, PKCS1_MAX - |i|);
      if j == [] then [] else Put(SEQUENCE, i + j, PKCS1_MAX + 8)
  }

  const RSA_ALGORITHM: seq<byte> := Put(SEQUENCE, PutOid(OID_RSA_ENCRYPTION, 32) + NULL_DER, 80)

  /** What encode_rsa_public_spki_der writes. */
  function RsaSpki(n: seq<byte>, e: seq<byte>, outMax: nat): seq<byte> {
    var key := RsaPublicKey(n, e);
    if outMax < 200 || key == [] then []
    else Enclose(RSA_ALGORITHM, key, PKCS1_MAX + 8, SPKI_MAX, outMax)
  }

  /** What encode_ec_public_spki_der writes for a point with coordinates `x` and `y`. */
  function EcSpki(x: seq<byte>, y: seq<byte>, curve: seq<byte>, outMax: nat): seq<byte> {
    var oid := PutOid(curve, 48);
    if outMax < 256 || 1 + |x| + |y| > 256 || oid == [] then []
    else Enclose(Put(SEQUENCE, PutOid(OID_EC_PUBLIC_KEY, 32) + oid, 128), [0x04] + x + y, 280, 512, outMax)
  }

  /** What encode_eddsa_spki_der writes. */
  function EddsaSpki(oid: seq<byte>, pk: seq<byte>, outMax: nat): seq<byte> {
    var o := PutOid(oid, 16);
    if o == [] then [] else Enclose(Put(SEQUENCE, o, 32), pk, 80, 128, outMax)
  }

  // ----- What the builders write -----

  /** The octets of an arc above 127 but its last seven bits, each with its top bit set. */
  function Continued(v: nat): seq<byte> {
    if v < 128 then [128 + v] else Continued(v / 128) + [128 + v % 128]
  }

  function Arc(v: nat): seq<byte> {
    if v < 128 then [v] else Continued(v / 128) + [v % 128]
  }

  /** The OID 1.2.840.113549.1.1.1; its first two arcs share an octet (X.690 section 8.19). */
  function RsaEncryption(): seq<byte> {
    Arc(40 * 1 + 2) + Arc(840) + Arc(113549) + Arc(1) + Arc(1) + Arc(1)
  }

  /** The OID 1.2.840.10045.2.1. */
  function IdEcPublicKey(): seq<byte> {
    Arc(40 * 1 + 2) + Arc(840) + Arc(10045) + Arc(2) + Arc(1)
  }

  lemma Arcs()
    ensures Arc(42) == [0x2A] && Arc(840) == [0x86, 0x48] && Arc(1) == [1] && Arc(2) == [2]
    ensures Arc(113549) == [0x86, 0xF7, 0x0D] && Arc(10045) == [0xCE, 0x3D]
  {
  }

  lemma OidsAre()
    ensures OID_RSA_ENCRYPTION == RsaEncryption() && OID_EC_PUBLIC_KEY == IdEcPublicKey()
  {
    Arcs();
    hide Arc;
  }

  /** A SEQUENCE of the algorithm, itself a SEQUENCE with this body, and the key as a BIT STRING without unused bits. */
  ghost predicate Holds(s: seq<byte>, algorithm: seq<byte>, key: seq<byte>) {
    exists alg, bits ::
      IsTlv(s, 0x30, alg + bits) && IsTlv(alg, 0x30, algorithm) && IsTlv(bits, 0x03, [0] + key)
  }

  lemma EncloseHolds(alg: seq<byte>, algorithm: seq<byte>, key: seq<byte>, bitsMax: nat, contentMax: nat, outMax: nat)
    requires IsTlv(alg, SEQUENCE, algorithm)
    requires Enclose(alg, key, bitsMax, contentMax, outMax) != []
    ensures Holds(Enclose(alg, key, bitsMax, contentMax, outMax), algorithm, key)
  {
    hide IsTlv, Put;
    var bits := PutBits(key, bitsMax);
    PutIsTlv(BIT_STRING, [0] + key, bitsMax);
    PutIsTlv(SEQUENCE, alg + bits, outMax);
  }

  /** The EdDSA builder writes the given OID and key, */
  lemma EddsaHolds(oid: seq<byte>, pk: seq<byte>, outMax: nat)
    requires EddsaSpki(oid, pk, outMax) != []
    ensures exists o :: IsTlv(o, 0x06, oid) && Holds(EddsaSpki(oid, pk, outMax), o, pk)
  {
    hide IsTlv, Put, Enclose, Holds;
    var o := PutOid(oid, 16);
    PutIsTlv(OBJECT_IDENTIFIER, oid, 16);
    SomeAlgorithm(Put(SEQUENCE, o, 32), pk, 80, 128, outMax);
    PutIsTlv(SEQUENCE, o, 32);
    EncloseHolds(Put(SEQUENCE, o, 32), o, pk, 80, 128, outMax);
  }

  /** the EC builder id-ecPublicKey with the given curve, and the uncompressed point, */
  lemma EcHolds(x: seq<byte>, y: seq<byte>, curve: seq<byte>, outMax: nat)
    requires EcSpki(x, y, curve, outMax) != []
    ensures exists o, c :: IsTlv(o, 0x06, IdEcPublicKey()) && IsTlv(c, 0x06, curve)
                           && Holds(EcSpki(x, y, curve, outMax), o + c, [0x04] + x + y)
  {
    EcOidWritten();
    hide *;
    OidsAre();
    EcIs(x, y, curve, outMax);
    var o, c := PutOid(OID_EC_PUBLIC_KEY, 32), PutOid(curve, 48);
    PutOidIsTlv(OID_EC_PUBLIC_KEY, 32);
    PutOidIsTlv(curve, 48);
    SomeAlgorithm(Put(SEQUENCE, o + c, 128), [0x04] + x + y, 280, 512, outMax);
    PutIsTlv(SEQUENCE, o + c, 128);
    EncloseHolds(Put(SEQUENCE, o + c, 128), o + c, [0x04] + x + y, 280, 512, outMax);
  }

  lemma EcOidWritten()
    ensures PutOid(OID_EC_PUBLIC_KEY, 32) != []
  {
  }

  lemma PutOidIsTlv(oid: seq<byte>, size: nat)
    requires PutOid(oid, size) != []
    ensures IsTlv(PutOid(oid, size), 0x06, oid)
  {
    PutIsTlv(OBJECT_IDENTIFIER, oid, size);
  }

  lemma EcIs(x: seq<byte>, y: seq<byte>, curve: seq<byte>, outMax: nat)
    requires EcSpki(x, y, curve, outMax) != []
    ensures PutOid(curve, 48) != []
    ensures EcSpki(x, y, curve, outMax) ==
              Enclose(Put(SEQUENCE, PutOid(OID_EC_PUBLIC_KEY, 32) + PutOid(curve, 48), 128), [0x04] + x + y,
                      280, 512, outMax)
  {
    hide Enclose, Put;
  }

  lemma SomeAlgorithm(alg: seq<byte>, key: seq<byte>, bitsMax: nat, contentMax: nat, outMax: nat)
    requires Enclose(alg, key, bitsMax, contentMax, outMax) != []
    ensures alg != []
  {
    hide Put;
  }

  /** and the RSA builder rsaEncryption with NULL, and the RSAPublicKey. */
  lemma RsaHolds(n: seq<byte>, e: seq<byte>, outMax: nat)
    requires RsaSpki(n, e, outMax) != []
    ensures exists o :: IsTlv(o, 0x06, RsaEncryption())
                        && Holds(RsaSpki(n, e, outMax), o + [0x05, 0x00], RsaPublicKey(n, e))
  {
    RsaOidWritten();
    hide IsTlv, Put, Enclose, Holds, RsaEncryption, PutOid, RsaPublicKey;
    OidsAre();
    var o := PutOid(OID_RSA_ENCRYPTION, 32);
    PutOidIsTlv(OID_RSA_ENCRYPTION, 32);
    PutIsTlv(SEQUENCE, o + NULL_DER, 80);
    EncloseHolds(RSA_ALGORITHM, o + NULL_DER, RsaPublicKey(n, e), PKCS1_MAX + 8, SPKI_MAX, outMax);
  }

  lemma RsaOidWritten()
    ensures PutOid(OID_RSA_ENCRYPTION, 32) != [] && Put(SEQUENCE, PutOid(OID_RSA_ENCRYPTION, 32) + NULL_DER, 80) != []
  {
  }

  lemma RsaAlgorithm()
    ensures RSA_ALGORITHM == [0x30, 13, 0x06, 9] + OID_RSA_ENCRYPTION + NULL_DER
  {
  }

  /** Extraction undoes the RSA builder and gives back the RSAPublicKey. */
  lemma ExtractRsa(n: seq<byte>, e: seq<byte>, outMax: nat)
    requires RsaSpki(n, e, outMax) != []
    ensures ExtractKey(RsaSpki(n, e, outMax)) == Some(RsaPublicKey(n, e))
  {
    RsaAlgorithm();
    PutIsTlv(SEQUENCE, PutOid(OID_RSA_ENCRYPTION, 32) + NULL_DER, 80);
    EncloseIsSpki(RSA_ALGORITHM, PutOid(OID_RSA_ENCRYPTION, 32) + NULL_DER, RsaPublicKey(n, e),
                  PKCS1_MAX + 8, SPKI_MAX, outMax);
  }

  /** Extraction undoes the EC builder and gives back the uncompressed point. */
  lemma ExtractEc(x: seq<byte>, y: seq<byte>, curve: seq<byte>, outMax: nat)
    requires EcSpki(x, y, curve, outMax) != []
    ensures ExtractKey(EcSpki(x, y, curve, outMax)) == Some([0x04] + x + y)
  {
    var body := PutOid(OID_EC_PUBLIC_KEY, 32) + PutOid(curve, 48);
    var alg := Put(SEQUENCE, body, 128);
    assert alg != [];
    PutIsTlv(SEQUENCE, body, 128);
    EncloseIsSpki(alg, body, [0x04] + x + y, 280, 512, outMax);
  }

  /** Extraction undoes the EdDSA builder and gives back the raw key. */
  lemma ExtractEddsa(oid: seq<byte>, pk: seq<byte>, outMax: nat)
    requires EddsaSpki(oid, pk, outMax) != []
    ensures ExtractKey(EddsaSpki(oid, pk, outMax)) == Some(pk)
  {
    var body := PutOid(oid, 16);
    var alg := Put(SEQUENCE, body, 32);
    assert alg != [];
    PutIsTlv(SEQUENCE, body, 32);
    EncloseIsSpki(alg, body, pk, 80, 128, outMax);
  }

  /** The EdDSA builder, which the ML-DSA and SLH-DSA commands call too, serves exactly keys of at most 77 octets. */
  lemma EddsaServesShortKeys(oid: seq<byte>, pk: seq<byte>, outMax: nat)
    ensures EddsaSpki(oid, pk, outMax) != [] <==> 1 <= |oid| <= 14 && |pk| <= 77 && 9 + |oid| + |pk| <= outMax
  {
  }

  /** The ending succeeds exactly when each of its three buffers has room. */
  lemma EncloseIff(alg: seq<byte>, key: seq<byte>, bitsMax: nat, contentMax: nat, outMax: nat)
    requires bitsMax < 0x100_0000 && contentMax < 0x100_0000
    ensures Enclose(alg, key, bitsMax, contentMax, outMax) != [] <==>
              && alg != [] && TlvSize(1 + |key|) <= bitsMax && |alg| + TlvSize(1 + |key|) <= contentMax
              && TlvSize(|alg| + TlvSize(1 + |key|)) <= outMax
  {
    hide Put, LengthOctets;
    PutIff(BIT_STRING, [0] + key, bitsMax);
    PutIff(SEQUENCE, alg + PutBits(key, bitsMax), outMax);
  }

  /** The EC builder serves exactly coordinates of 255 octets together and OIDs of 46 that fit the output. */
  lemma EcServesIff(x: seq<byte>, y: seq<byte>, curve: seq<byte>, outMax: nat)
    ensures EcSpki(x, y, curve, outMax) != [] <==>
              && 1 <= |curve| <= 46 && |x| + |y| <= 255 && 256 <= outMax
              && TlvSize(13 + |curve| + TlvSize(2 + |x| + |y|)) <= outMax
  {
    var key, oid, params := [0x04] + x + y, PutOid(OID_EC_PUBLIC_KEY, 32), PutOid(curve, 48);
    if curve != [] && 1 + |x| + |y| <= 256 {
      ShortSize(|curve|);
      hide Put, LengthOctets, Enclose;
      PutIff(OBJECT_IDENTIFIER, curve, 48);
      PutIff(OBJECT_IDENTIFIER, OID_EC_PUBLIC_KEY, 32);
      ShortSize(7);
      ShortSize(9 + TlvSize(|curve|));
      PutIff(SEQUENCE, oid + params, 128);
      LengthAtMost(2 + |x| + |y|);
      EncloseIff(Put(SEQUENCE, oid + params, 128), key, 280, 512, outMax);
    }
  }

  /** The size of a number as an INTEGER. */
  function IntegerSize(be: seq<byte>): nat
    requires be != []
  {
    TlvSize(|IntegerBody(be)|)
  }

  /** The RSA builder serves exactly numbers whose encoding fits its buffers of 2^14 octets and the output. */
  lemma RsaServesIff(n: seq<byte>, e: seq<byte>, outMax: nat)
    ensures RsaSpki(n, e, outMax) != [] <==>
              && n != [] && e != [] && 200 <= outMax
              && var bits := TlvSize(1 + TlvSize(IntegerSize(n) + IntegerSize(e)));
              15 + bits <= 16384 && TlvSize(15 + bits) <= outMax
  {
    hide Enclose, TlvSize, PutInteger, RSA_ALGORITHM, IntegerSize, IntegerBody;
    if n == [] || e == [] {
      NoRsaKey(n, e);
    } else {
      hide RsaPublicKey;
      RsaKeyIff(n, e);
      RsaAlgorithmSize();
      EncloseIff(RSA_ALGORITHM, RsaPublicKey(n, e), PKCS1_MAX + 8, SPKI_MAX, outMax);
    }
  }

  lemma NoRsaKey(n: seq<byte>, e: seq<byte>)
    requires n == [] || e == []
    ensures RsaPublicKey(n, e) == []
  {
    hide Put, IntegerBody;
  }

  lemma RsaAlgorithmSize()
    ensures |RSA_ALGORITHM| == 15
  {
    RsaAlgorithm();
  }

  lemma RsaKeyIff(n: seq<byte>, e: seq<byte>)
    requires n != [] && e != []
    ensures RsaPublicKey(n, e) != [] <==> IntegerSize(n) + IntegerSize(e) <= 16384
    ensures RsaPublicKey(n, e) != [] ==> |RsaPublicKey(n, e)| == TlvSize(IntegerSize(n) + IntegerSize(e))
  {
    hide Put, LengthOctets, IntegerBody;
    var i := PutInteger(n, PKCS1_MAX);
    PutIff(INTEGER, IntegerBody(n), PKCS1_MAX);
    if i != [] {
      PutIff(INTEGER, IntegerBody(e), PKCS1_MAX - |i|);
      var j := PutInteger(e, PKCS1_MAX - |i|);
      MiddleSize(|i| + |j|);
      PutIff(SEQUENCE, i + j, PKCS1_MAX + 8);
    }
  }

  lemma MiddleSize(n: nat)
    ensures n <= 16384 ==> TlvSize(n) <= 16392
  {
  }

  lemma ShortSize(n: nat)
    ensures n < 128 ==> TlvSize(n) == 2 + n
    ensures n >= 46 ==> TlvSize(n) >= 48 && (n > 46 ==> TlvSize(n) > 48)
  {
  }

  lemma LengthAtMost(n: nat)
    requires n <= 257
    ensures 1 <= |LengthOctets(n)| <= 3
  {
  }

  /** So it refuses every 1312-octet ML-DSA-44 key. */
  lemma MlDsaKeyRefused(oid: seq<byte>, pk: seq<byte>, outMax: nat)
    requires |pk| == 1312
    ensures EddsaSpki(oid, pk, outMax) == []
  {
    EddsaServesShortKeys(oid, pk, outMax);
  }

  /** The extracted RSAPublicKey is two DER INTEGERs with the values of the modulus and the exponent. */
  lemma RsaPublicKeyHoldsNumbers(n: seq<byte>, e: seq<byte>)
    requires RsaPublicKey(n, e) != []
    ensures exists i, j, bn, be ::
      && IsTlv(RsaPublicKey(n, e), 0x30, i + j) && IsTlv(i, 0x02, bn) && IsTlv(j, 0x02, be)
      && BeValue(bn) == BeValue(n) && BeValue(be) == BeValue(e)
  {
    hide Put, IsTlv, BeValue, IntegerBody;
    var i := PutInteger(n, PKCS1_MAX);
    var j := PutInteger(e, PKCS1_MAX - |i|);
    PutIsTlv(INTEGER, IntegerBody(n), PKCS1_MAX);
    PutIsTlv(INTEGER, IntegerBody(e), PKCS1_MAX - |i|);
    PutIsTlv(SEQUENCE, i + j, PKCS1_MAX + 8);
    IntegerBodyIsDer(n);
    IntegerBodyIsDer(e);
  }
}
