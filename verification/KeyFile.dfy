/** Public-key files of certgen: a SubjectPublicKeyInfo, bare or in PEM, and the loader of the raw key inside. */
module KeyFile {
  import opened Bytes
  import Base64
  import opened Workspace
  import opened Pem
  import opened PemFile
  import opened Asn1
  import opened DerWriter
  import opened Spki

  /** What load_raw_pubkey_from_file delivers when memory lasts. */
  ghost function KeyIn(file: seq<byte>): Option<seq<byte>> {
    var der := Content(file);
    if der.None? then None else ExtractKey(der.value)
  }

  /** Under a marker that ends its line, PEM preserves the key of every SubjectPublicKeyInfo. */
  lemma KeySurvivesPem(name: seq<byte>, spki: seq<byte>, key: seq<byte>)
    requires 0 !in name && NEWLINE !in name && |spki| <= 1610612733 && IsSpki(spki, key)
    ensures KeyIn(PemText(BeginLabel(name, true), spki, EndLabel(name, true))) == Some(key)
  {
    ExtractIffSpki(spki, key);
    assert spki != [];
    hide Content, PemText, BeginLabel, EndLabel, ExtractKey, IsSpki;
    PrivateKeyLoads(name, spki);
  }

  /** So does a file that is the SubjectPublicKeyInfo itself, unless "-----BEGIN" stands before its first NUL. */
  lemma KeySurvivesBare(spki: seq<byte>, key: seq<byte>)
    requires IsSpki(spki, key) && !HasBegin(spki)
    ensures KeyIn(spki) == Some(key)
  {
    hide Content, FindArmor, ExtractKey, IsSpki, HasBegin;
    ExtractIffSpki(spki, key);
    BareLoads(spki);
  }

  /** A newline-free marker leaves exactly the key of what the octets from the 49th on open with, if that is an SPKI. */
  lemma PublicKeyFoundIff(name: seq<byte>, spki: seq<byte>, key: seq<byte>)
    requires 0 !in name && NEWLINE !in name && 0 < |spki| <= 1610612733
    ensures KeyIn(PemText(BeginLabel(name, false), spki, EndLabel(name, false))) == Some(key) <==>
              |spki| > 48 && IsSpki(spki[48..], key)
  {
    hide Content, PemText, BeginLabel, EndLabel, ExtractKey, IsSpki;
    PublicKeyLosesFirstLine(name, spki);
    if |spki| > 48 {
      ExtractIffSpki(spki[48..], key);
    }
  }

  /** Under certgen's marker for public keys, no key of up to 32 octets with a three-octet OID can be loaded. */
  lemma ShortKeyIsLost(name: seq<byte>, oid: seq<byte>, pk: seq<byte>, outMax: nat)
    requires 0 !in name && NEWLINE !in name && EddsaSpki(oid, pk, outMax) != []
    requires |oid| == 3 && |pk| <= 32
    ensures KeyIn(PemText(BeginLabel(name, false), EddsaSpki(oid, pk, outMax), EndLabel(name, false))) == None
  {
    var spki := EddsaSpki(oid, pk, outMax);
    EddsaLength(oid, pk, outMax);
    hide Content, PemText, BeginLabel, EndLabel, ExtractKey, EddsaSpki;
    PublicKeyLosesFirstLine(name, spki);
  }

  lemma EddsaLength(oid: seq<byte>, pk: seq<byte>, outMax: nat)
    requires EddsaSpki(oid, pk, outMax) != []
    ensures |EddsaSpki(oid, pk, outMax)| == 9 + |oid| + |pk|
  {
    EddsaServesShortKeys(oid, pk, outMax);
  }

  /** Under that marker no key comes back for which too little is left after 48 octets. */
  lemma KeyNeverComesBack(name: seq<byte>, spki: seq<byte>, key: seq<byte>)
    requires 0 !in name && NEWLINE !in name && |spki| <= 1610612733
    requires ExtractKey(spki) == Some(key) && |spki| < 48 + LeastSpki(|key|)
    ensures KeyIn(PemText(BeginLabel(name, false), spki, EndLabel(name, false))) != Some(key)
  {
    hide Content, PemText, BeginLabel, EndLabel, Extract, LeastSpki;
    ExtractLeavesFraming(spki);
    PublicKeyLosesFirstLine(name, spki);
    if |spki| > 48 && ExtractKey(spki[48..]).Some? {
      ExtractNeedsLeast(spki[48..]);
    }
  }

  lemma EncloseLength(alg: seq<byte>, key: seq<byte>, bitsMax: nat, contentMax: nat, outMax: nat)
    requires Enclose(alg, key, bitsMax, contentMax, outMax) != []
    ensures var content := |alg| + 2 + |LengthOctets(1 + |key|)| + |key|;
      && |Enclose(alg, key, bitsMax, contentMax, outMax)| == 1 + |LengthOctets(content)| + content
      && content <= contentMax
  {
    hide LengthOctets;
  }

  lemma FewOctets(n: nat)
    ensures |LengthOctets(n)| <= 4
    ensures n <= 0xff_ffff ==> 1 <= |LengthOctets(n)|
  {
  }

  /** So it is for every key that the RSA builder encodes, */
  lemma RsaKeyIsLost(name: seq<byte>, n: seq<byte>, e: seq<byte>, outMax: nat)
    requires 0 !in name && NEWLINE !in name && RsaSpki(n, e, outMax) != []
    ensures KeyIn(PemText(BeginLabel(name, false), RsaSpki(n, e, outMax), EndLabel(name, false))) !=
              Some(RsaPublicKey(n, e))
  {
    RsaAlgorithm();
    hide KeyIn, PemText, BeginLabel, EndLabel, ExtractKey, Enclose, RsaPublicKey, LengthOctets;
    var key := RsaPublicKey(n, e);
    EncloseLength(RSA_ALGORITHM, key, PKCS1_MAX + 8, SPKI_MAX, outMax);
    FewOctets(17 + |LengthOctets(1 + |key|)| + |key|);
    ExtractRsa(n, e, outMax);
    KeyNeverComesBack(name, RsaSpki(n, e, outMax), key);
  }

  /** every key that the EdDSA builder encodes, */
  lemma EddsaKeyIsLost(name: seq<byte>, oid: seq<byte>, pk: seq<byte>, outMax: nat)
    requires 0 !in name && NEWLINE !in name && EddsaSpki(oid, pk, outMax) != []
    ensures KeyIn(PemText(BeginLabel(name, false), EddsaSpki(oid, pk, outMax), EndLabel(name, false))) != Some(pk)
  {
    EddsaLength(oid, pk, outMax);
    EddsaServesShortKeys(oid, pk, outMax);
    hide KeyIn, PemText, BeginLabel, EndLabel, ExtractKey, EddsaSpki, LengthOctets;
    ExtractEddsa(oid, pk, outMax);
    KeyNeverComesBack(name, EddsaSpki(oid, pk, outMax), pk);
  }

  /** and every point that the EC builder encodes for a curve with an OID of at most 35 octets. */
  lemma EcKeyIsLost(name: seq<byte>, x: seq<byte>, y: seq<byte>, curve: seq<byte>, outMax: nat)
    requires 0 !in name && NEWLINE !in name && EcSpki(x, y, curve, outMax) != [] && |curve| <= 35
    ensures KeyIn(PemText(BeginLabel(name, false), EcSpki(x, y, curve, outMax), EndLabel(name, false))) !=
              Some([0x04] + x + y)
  {
    hide KeyIn, PemText, BeginLabel, EndLabel, ExtractKey, EcSpki, LeastSpki, EcSize, LengthOctets;
    EcLength(x, y, curve, outMax);
    EcTooShort(|curve|, 1 + |x| + |y|);
    SizeSmall(|curve|, 1 + |x| + |y|);
    ExtractEc(x, y, curve, outMax);
    KeyNeverComesBack(name, EcSpki(x, y, curve, outMax), [0x04] + x + y);
  }

  /** The length of an EC key's SubjectPublicKeyInfo for a curve OID of `n` octets and a point of `k`. */
  function EcSize(n: nat, k: nat): nat {
    var content := 15 + n + |LengthOctets(1 + k)| + k;
    1 + |LengthOctets(content)| + content
  }

  lemma EcLength(x: seq<byte>, y: seq<byte>, curve: seq<byte>, outMax: nat)
    requires EcSpki(x, y, curve, outMax) != []
    ensures |EcSpki(x, y, curve, outMax)| == EcSize(|curve|, 1 + |x| + |y|) && 1 + |x| + |y| <= 256
    ensures 1 <= |curve| <= 46
  {
    var body := PutOid(OID_EC_PUBLIC_KEY, 32) + PutOid(curve, 48);
    var alg := Put(SEQUENCE, body, 128);
    assert |body| == 11 + |curve| && |alg| == 13 + |curve|;
    hide Enclose, LengthOctets;
    EncloseLength(alg, [0x04] + x + y, 280, 512, outMax);
  }

  lemma SizeSmall(n: nat, k: nat)
    requires n <= 46 && k <= 256
    ensures EcSize(n, k) < 1000
  {
  }

  lemma EcTooShort(n: nat, k: nat)
    requires n <= 35 && k <= 256
    ensures EcSize(n, k) < 48 + LeastSpki(k)
  {
  }

  // ----- Curve OIDs for which a point is found again -----

  /** An OID that ends in the framing of a SubjectPublicKeyInfo, of its own, for a point of `k` octets. */
  function FramingOid(pre: seq<byte>, fill: seq<byte>, k: nat): (curve: seq<byte>)
    requires 5 + |fill| + k < 128
    ensures |curve| == |pre| + 4 + |fill|
  {
    pre + ([SEQUENCE, 5 + |fill| + k, SEQUENCE, |fill|] + fill)
  }

  function ShortBits(key: seq<byte>): seq<byte>
    requires 1 + |key| < 128
  {
    [BIT_STRING, 1 + |key|, 0] + key
  }

  lemma FramedIsSpki(fill: seq<byte>, key: seq<byte>)
    requires 5 + |fill| + |key| < 128
    ensures var t := [SEQUENCE, 5 + |fill| + |key|, SEQUENCE, |fill|] + fill + ShortBits(key);
      IsSpki(t, key)
  {
    var alg, bits := [SEQUENCE, |fill|] + fill, ShortBits(key);
    var t := [SEQUENCE, 5 + |fill| + |key|, SEQUENCE, |fill|] + fill + bits;
    var p := Parts(t, alg, fill, bits, [], []);
    ShortTlv(SEQUENCE, fill);
    ShortTlv(BIT_STRING, [0] + key);
    assert bits == [BIT_STRING, 1 + |key|] + ([0] + key);
    ShortTlv(SEQUENCE, alg + bits + []);
    assert t == [SEQUENCE, |alg + bits + []|] + (alg + bits + []);
    assert t == t + [];
    hide IsTlv;
    assert Shows(p, t, key);
  }

  lemma ShortTlv(tag: byte, body: seq<byte>)
    requires |body| < 128
    ensures IsTlv([tag, |body|] + body, tag, body)
  {
    assert LengthForm([|body|], |body|);
    assert [tag, |body|] + body == [tag] + [|body|] + body;
  }

  /** The octets in front of the curve OID. */
  function EcHead(n: nat, k: nat): seq<byte>
    requires n < 100
  {
    [SEQUENCE] + LengthOctets(16 + n + k) + [SEQUENCE, 11 + n, OBJECT_IDENTIFIER, 7] + OID_EC_PUBLIC_KEY
    + [OBJECT_IDENTIFIER, n]
  }

  lemma ShortPut(tag: byte, body: seq<byte>, outMax: nat)
    requires |body| < 128 && 2 + |body| <= outMax
    ensures Put(tag, body, outMax) == [tag, |body|] + body
  {
    assert [tag] + [|body|] + body == [tag, |body|] + body;
  }

  lemma EcAlgorithmIs(curve: seq<byte>)
    requires 1 <= |curve| <= 46
    ensures PutOid(curve, 48) != []
    ensures Put(SEQUENCE, PutOid(OID_EC_PUBLIC_KEY, 32) + PutOid(curve, 48), 128) ==
              [SEQUENCE, 11 + |curve|]
              + ([OBJECT_IDENTIFIER, 7] + OID_EC_PUBLIC_KEY + ([OBJECT_IDENTIFIER, |curve|] + curve))
    ensures |Put(SEQUENCE, PutOid(OID_EC_PUBLIC_KEY, 32) + PutOid(curve, 48), 128)| == 13 + |curve|
  {
    hide Put;
    ShortPut(OBJECT_IDENTIFIER, OID_EC_PUBLIC_KEY, 32);
    ShortPut(OBJECT_IDENTIFIER, curve, 48);
    ShortPut(SEQUENCE, PutOid(OID_EC_PUBLIC_KEY, 32) + PutOid(curve, 48), 128);
  }

  lemma ShortBitsIs(key: seq<byte>)
    requires |key| < 123
    ensures PutBits(key, 280) == ShortBits(key) && |ShortBits(key)| == 3 + |key|
  {
    hide Put;
    ShortPut(BIT_STRING, [0] + key, 280);
  }

  lemma EcSpkiIs(x: seq<byte>, y: seq<byte>, curve: seq<byte>, outMax: nat)
    requires 1 <= |curve| <= 46 && 1 + |x| + |y| < 123 && 256 <= outMax
    ensures EcSpki(x, y, curve, outMax) ==
              EcHead(|curve|, 1 + |x| + |y|) + curve + ShortBits([0x04] + x + y)
  {
    hide Put, PutOid, PutBits, LengthOctets, EcHead, ShortBits, OID_EC_PUBLIC_KEY;
    var key, n := [0x04] + x + y, |curve|;
    EcAlgorithmIs(curve);
    ShortBitsIs(key);
    var alg := Put(SEQUENCE, PutOid(OID_EC_PUBLIC_KEY, 32) + PutOid(curve, 48), 128);
    PutIs(SEQUENCE, alg + ShortBits(key), outMax);
    EcPieces(n, |key|, curve, ShortBits(key));
  }

  lemma PutIs(tag: byte, body: seq<byte>, outMax: nat)
    requires |body| <= 200 && 256 <= outMax
    ensures Put(tag, body, outMax) == [tag] + LengthOctets(|body|) + body
  {
  }

  lemma EcPieces(n: nat, k: nat, curve: seq<byte>, bits: seq<byte>)
    requires n == |curve| < 100
    ensures EcHead(n, k) + curve + bits ==
              [SEQUENCE] + LengthOctets(16 + n + k)
              + ([SEQUENCE, 11 + n]
                 + ([OBJECT_IDENTIFIER, 7] + OID_EC_PUBLIC_KEY + ([OBJECT_IDENTIFIER, n] + curve)) + bits)
  {
    hide LengthOctets;
  }

  /** Loading gives back a point whose curve OID puts such framing where the first 48 octets end. */
  lemma EcKeyIsFound(name: seq<byte>, x: seq<byte>, y: seq<byte>, pre: seq<byte>, fill: seq<byte>, outMax: nat)
    requires 0 !in name && NEWLINE !in name && 256 <= outMax
    requires 6 + |fill| + |x| + |y| < 128 && |pre| + |fill| <= 42
    requires |pre| == if 21 + |pre| + |fill| + |x| + |y| < 128 then 33 else 32
    ensures var spki := EcSpki(x, y, FramingOid(pre, fill, 1 + |x| + |y|), outMax);
      && spki != []
      && KeyIn(PemText(BeginLabel(name, false), spki, EndLabel(name, false))) == Some([0x04] + x + y)
  {
    var key := [0x04] + x + y;
    var curve := FramingOid(pre, fill, |key|);
    EcSpkiIs(x, y, curve, outMax);
    HeadLength(|curve|, |key|);
    hide *;
    var spki := EcSpki(x, y, curve, outMax);
    var framing := [SEQUENCE, 5 + |fill| + |key|, SEQUENCE, |fill|] + fill;
    OidParts(pre, fill, |key|);
    CutAt(EcHead(|curve|, |key|), pre, framing, ShortBits(key));
    assert spki[48..] == framing + ShortBits(key) && |spki| > 48;
    FramedIsSpki(fill, key);
    PublicKeyFoundIff(name, spki, key);
  }

  lemma OidParts(pre: seq<byte>, fill: seq<byte>, k: nat)
    requires 5 + |fill| + k < 128
    ensures FramingOid(pre, fill, k) == pre + ([SEQUENCE, 5 + |fill| + k, SEQUENCE, |fill|] + fill)
  {
  }

  lemma HeadLength(n: nat, k: nat)
    requires n < 100 && 16 + n + k <= 255
    ensures |EcHead(n, k)| == if 16 + n + k < 128 then 15 else 16
  {
  }

  lemma CutAt(head: seq<byte>, pre: seq<byte>, framing: seq<byte>, bits: seq<byte>)
    requires |head| + |pre| == 48 && |framing| >= 4
    ensures var s := head + (pre + framing) + bits; |s| > 48 && s[48..] == framing + bits
  {
  }

  /** A point of 65 octets, as for P-256, with an OID of 37. */
  lemma EcKeyAtThirtySeven(name: seq<byte>, x: seq<byte>, y: seq<byte>, pre: seq<byte>)
    requires 0 !in name && NEWLINE !in name && |x| == |y| == 32 && |pre| == 33
    ensures var spki := EcSpki(x, y, pre + ([0x30, 70, 0x30, 0] + []), 256);
      && spki != []
      && KeyIn(PemText(BeginLabel(name, false), spki, EndLabel(name, false))) == Some([0x04] + x + y)
  {
    hide EcSpki, KeyIn, PemText, BeginLabel, EndLabel;
    EcKeyIsFound(name, x, y, pre, [], 256);
  }

  /** Are all points that the EC builder encodes under curve OIDs of `n` octets lost? */
  ghost predicate EcAlwaysLost(name: seq<byte>, n: nat) {
    forall x, y, curve, outMax: nat ::
      |curve| == n && EcSpki(x, y, curve, outMax) != [] ==>
        KeyIn(PemText(BeginLabel(name, false), EcSpki(x, y, curve, outMax), EndLabel(name, false))) !=
        Some([0x04] + x + y)
  }

  /** They are exactly for up to 35 octets; from 47 octets on the builder refuses. */
  lemma EcAlwaysLostIff(name: seq<byte>, n: nat)
    requires 0 !in name && NEWLINE !in name
    ensures EcAlwaysLost(name, n) <==> n <= 35 || 46 < n
  {
    hide EcSpki, KeyIn, PemText, BeginLabel, EndLabel;
    if n <= 35 {
      forall x, y, curve, outMax: nat | |curve| == n && EcSpki(x, y, curve, outMax) != []
        ensures KeyIn(PemText(BeginLabel(name, false), EcSpki(x, y, curve, outMax), EndLabel(name, false))) !=
                Some([0x04] + x + y)
      {
        EcKeyIsLost(name, x, y, curve, outMax);
      }
    } else if 46 < n {
      forall x, y, curve, outMax: nat | |curve| == n ensures EcSpki(x, y, curve, outMax) == [] {
        if EcSpki(x, y, curve, outMax) != [] {
          EcLength(x, y, curve, outMax);
        }
      }
    } else {
      var x, pre, fill := Zeros(40), Zeros(32), Zeros(n - 36);
      EcKeyIsFound(name, x, x, pre, fill, 256);
      assert |FramingOid(pre, fill, 1 + |x| + |x|)| == n;
    }
  }

  /** load_raw_pubkey_from_file */
  method LoadRawPubkey(arena: Arena, file: seq<byte>) returns (rc: int, pk: seq<byte>)
    requires arena.Valid()
    modifies arena, arena.buffer
    ensures arena.Valid() && arena.Current() == AfterLoad(old(arena.Current()), file)
    ensures var der := Load(arena.buffer.Length, old(arena.off), file);
      var key := if der.None? then None else ExtractKey(der.value);
      rc == (if key.Some? then 0 else -1) && pk == (if key.Some? then key.value else [])
  {
    hide Load, AfterLoad, Requests, Extract, Clean;
    var spki: seq<byte>;
    rc, spki := LoadDerOrPem(arena, file);
    if rc != 0 { return -1, []; }
    LoadedLength(arena.buffer.Length, old(arena.off), file);
    var der := new byte[|spki|](i requires 0 <= i < |spki| => spki[i]);
    assert der[..] == spki;
    var ok, at, len := ExtractRawPubkey(der);
    if !ok { return -1, []; }
    return 0, spki[at..at + len];
  }

  lemma LoadedLength(size: nat, off: nat, file: seq<byte>)
    requires Load(size, off, file).Some?
    ensures |Load(size, off, file).value| <= FILE_MAX
  {
    hide Base64.Filter, Base64.Emitted, Base64.Accepted;
  }
}
