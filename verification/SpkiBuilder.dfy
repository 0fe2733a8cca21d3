/** The three SubjectPublicKeyInfo builders of certgen, each proved to write what module Spki says it writes. */
module SpkiBuilder {
  import opened Bytes
  import opened Asn1
  import opened DerWriter
  import opened Spki

  /** memcpy of two pieces, one after the other, into a fresh buffer that holds them both. */
  method Join(a: seq<byte>, b: seq<byte>, size: nat) returns (buf: array<byte>)
    requires |a| + |b| <= size
    ensures fresh(buf) && buf.Length == size && buf[..|a| + |b|] == a + b
  {
    buf := new byte[size](_ => 0);
    var ok := WriteBytes(buf, size, 0, a);
    ok := WriteBytes(buf, size, |a|, b);
  }

  /** The ending that the builders share. */
  method PutEnclosed(alg: seq<byte>, key: seq<byte>, bitsMax: nat, contentMax: nat, out: array<byte>, outMax: nat)
    returns (n: nat)
    requires alg != [] && outMax <= out.Length
    modifies out
    ensures n == |Enclose(alg, key, bitsMax, contentMax, outMax)| <= outMax
    ensures out[..n] == Enclose(alg, key, bitsMax, contentMax, outMax)
    ensures out[n..] == old(out[n..])
  {
    hide Put;
    var bits := new byte[bitsMax](_ => 0);
    var bitsLen := PutBitString(key, bits, bitsMax);
    if bitsLen == 0 { return 0; }
    if |alg| + bitsLen > contentMax { return 0; }
    var content := Join(alg, bits[..bitsLen], contentMax);
    n := PutTlv(SEQUENCE, content[..|alg| + bitsLen], out, outMax);
  }

  method PutOidRaw(oid: seq<byte>, size: nat) returns (der: seq<byte>)
    ensures der == PutOid(oid, size)
  {
    if oid == [] { return []; }
    var buf := new byte[size](_ => 0);
    var n := PutTlv(OBJECT_IDENTIFIER, oid, buf, size);
    return buf[..n];
  }

  method PutSequence(contents: seq<byte>, size: nat) returns (der: seq<byte>)
    ensures der == Put(SEQUENCE, contents, size)
  {
    var buf := new byte[size](_ => 0);
    var n := PutTlv(SEQUENCE, contents, buf, size);
    return buf[..n];
  }

  /** The PKCS#1 part of encode_rsa_public_spki_der. */
  method PutRsaPublicKey(n: seq<byte>, e: seq<byte>) returns (der: seq<byte>)
    ensures der == RsaPublicKey(n, e)
  {
    hide Put, PutInteger;
    var first := new byte[PKCS1_MAX](_ => 0);
    var i := PutIntegerTlv(n, first, PKCS1_MAX);
    if i == 0 { return []; }
    var second := new byte[PKCS1_MAX - i](_ => 0);
    var j := PutIntegerTlv(e, second, PKCS1_MAX - i);
    if j == 0 { return []; }
    var content := Join(first[..i], second[..j], PKCS1_MAX);
    der := PutSequence(content[..i + j], PKCS1_MAX + 8);
  }

  /** encode_rsa_public_spki_der */
  method EncodeRsaPublicSpki(n: seq<byte>, e: seq<byte>, out: array<byte>, outMax: nat) returns (r: nat)
    requires outMax <= out.Length
    modifies out
    ensures r == |RsaSpki(n, e, outMax)| <= outMax && out[..r] == RsaSpki(n, e, outMax)
    ensures out[r..] == old(out[r..])
  {
    hide Put, Enclose, RsaPublicKey;
    if outMax < 200 { return 0; }
    var key := PutRsaPublicKey(n, e);
    if key == [] { return 0; }
    var oid := PutOidRaw(OID_RSA_ENCRYPTION, 32);
    RsaAlgorithm();
    var alg := PutSequence(oid + NULL_DER, 80);
    assert alg == RSA_ALGORITHM;
    r := PutEnclosed(alg, key, PKCS1_MAX + 8, SPKI_MAX, out, outMax);
  }

  /** encode_ec_public_spki_der */
  method EncodeEcPublicSpki(x: seq<byte>, y: seq<byte>, curve: seq<byte>, out: array<byte>, outMax: nat)
    returns (r: nat)
    requires outMax <= out.Length
    modifies out
    ensures r == |EcSpki(x, y, curve, outMax)| <= outMax && out[..r] == EcSpki(x, y, curve, outMax)
    ensures out[r..] == old(out[r..])
  {
    if outMax < 256 { return 0; }
    if 1 + |x| + |y| > 256 { return 0; }
    var pub := Join([0x04] + x, y, 256);
    var oidEc := PutOidRaw(OID_EC_PUBLIC_KEY, 32);
    var oidCurve := PutOidRaw(curve, 48);
    if oidCurve == [] { return 0; }
    var content := Join(oidEc, oidCurve, 96);
    var alg := PutSequence(content[..|oidEc| + |oidCurve|], 128);
    r := PutEnclosed(alg, pub[..1 + |x| + |y|], 280, 512, out, outMax);
  }

  /** encode_eddsa_spki_der */
  method EncodeEddsaSpki(oid: seq<byte>, pk: seq<byte>, out: array<byte>, outMax: nat) returns (r: nat)
    requires outMax <= out.Length
    modifies out
    ensures r == |EddsaSpki(oid, pk, outMax)| <= outMax && out[..r] == EddsaSpki(oid, pk, outMax)
    ensures out[r..] == old(out[r..])
  {
    var o := PutOidRaw(oid, 16);
    if o == [] { return 0; }
    var alg := PutSequence(o, 32);
    r := PutEnclosed(alg, pk, 80, 128, out, outMax);
  }
}
