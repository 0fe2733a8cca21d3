# Verified model of the NoxTLS codecs, key tools and demo monitor

NoxTLS ships a Base64 codec, a certificate generator with its own PEM, DER and path code on top of a static arena, a
DTLS demo whose two threads exchange datagrams through a shared buffer, an RSA prime search that walks a wheel modulo
2310, an integer comparison for matching keys to certificates, and a script that turns linker maps into size reports.
This project models that code in Dafny and proves what it keeps, inverts and conserves.

| files | what they model |
|---|---|
| `Bytes` | octets, C strings, 32-bit wrap-around, big-endian values |
| `Base64`, `Base64Codec` | the codec as functions with their laws, and the two buffer routines proved against them |
| `Workspace` | the bump arena behind `malloc` in every application |
| `Pem`, `PemFile`, `KeyFile` | the 64-column PEM writer, the file loader, the loader of raw public keys |
| `Asn1`, `DerWriter`, `Spki`, `SpkiBuilder` | the TLV reader, the DER writers, the SubjectPublicKeyInfo extractor and its three builders |
| `Scalar`, `KeyMatch`, `Paths` | hex scalars and bit lengths, integer matching, key and public-key file names |
| `Datagram`, `Monitor` | the growable datagram buffer, and every interleaving of the two demo threads |
| `Wheel`, `PrimeSearch`, `PrimeRun`, `PrimeLoop` | the gap table as an infinite enumeration, the in-place arithmetic that walks it, the candidates from one seed on, the search loops |
| `Tally`, `MapReport`, `MapCategories` | grouping and stable sorting, map-file aggregation, regrouping by category |

Routines that work in place are methods on arrays or classes, each proved equal to a specification function; the laws
are lemmas about those functions. Shifts and masks are written as division and remainder.

## Where the code and its promises part

Each item is a theorem with the exact condition under which the promise holds, and an input that breaks it.

- Encoding: the returned length is right for exactly the inputs of at most 1610612733 octets. Longer inputs are refused
  up to 3221225469 octets; beyond that the 32-bit index wraps, the end of the encoding lies over its beginning, and a
  wrong length is reported as success, zero for 3221225472 octets (`Base64Codec.EncodeReturnIsLength`, `EncodeWraps`).
- PEM: what certgen writes can be loaded again exactly when its begin marker ends its own line (`Pem.LoadsBack`). The
  public-key marker does not (lines 36-37), so a public key comes back without its first 48 octets, and an Ed25519 one
  not at all (`KeyFile.ShortKeyIsLost`). Loading never finds a key of the RSA or the EdDSA builder again
  (`RsaKeyIsLost`, `EddsaKeyIsLost`). It never finds a point of the EC builder exactly for curve OIDs of at most 35
  octets, as all of certgen's are (`EcAlwaysLostIff`); longer ones can hold framing of their own where the cut falls, as
  one of 37 octets does for a P-256 point (`EcKeyIsFound`, `EcKeyAtThirtySeven`).
- The EdDSA builder, which the ML-DSA and SLH-DSA commands share, has an 80-octet buffer for the key: it serves exactly
  keys of at most 77 octets and so refuses every ML-DSA key (`Spki.EddsaServesShortKeys`, `MlDsaKeyRefused`).
- `derive_pub_path` is documented to strip `.key`, `.pem` or `.der`; it strips from the last dot, wherever that is
  (`Paths.DeriveAgreesIff`, `DeriveDropsDirectory`).
- `udp_buffer_read` is documented to read an entire datagram. It delivers one whole datagram and drops nothing exactly
  when one alone is pending and there is room for it (`Datagram.ReadIsWholeIff`, `Monitor.ReceiptIsWholeIff`); two in a
  row are read as one (`Datagram.ReadMerges`).
- `udp_buffer_append` grows to hold what it appends. When reallocation succeeds it has room exactly if the total fits the
  capacity already or is below 2^31 (`Datagram.GrowthSuffices`); 2^31 octets for an empty buffer get 4096
  (`GrowthWraps`).
- The prime search says that its two top bits always give a modulus of full length. They do for two candidates exactly
  if after each seed its range still holds a number that the wheel does not skip (`PrimeRun.ModulusHasFullLength`,
  `PrimeSearch.AlignKeepsIff`, for a whole key generation `PrimeLoop.PairModulus`); a seed of 0xFF octets has none, at any
  length (`PrimeRun.AllOnesIsLost`).
- The map script lists eight flash sections, but it cuts section names at the second dot. A listed section and its
  subsections are taken for flash exactly if the listed name has no second dot (`MapReport.ListedMatchesIff`,
  `ListedCountsIff`), so nothing from `.ARM.exidx` or `.ARM.extab` counts (`ExidxIsDropped`, `InnerDotNeverMatches`).

## Model

| member | source | states |
|---|---|---|
| Base64.SymbolOfSextet | utility/base64.c:119-144 | the decoder's classification of a character is the position of that character in the encoding table |
| Base64.SymbolTable | utility/base64.c:45-55 | the encoder's characters are those of the table A-Z, a-z, 0-9, +, /, written out |
| Base64.SextetTable | utility/base64.c:119-144 | a character is decoded to its place in that table; "=" alone is a pad; tab, newline, return and space alone are whitespace |
| Base64.EncodeBlockIs | utility/base64.c:70-85 | each three octets, as a number, are the number that their four characters print |
| Base64.EncodeTailIs | utility/base64.c:86-106 | one or two octets left over are filled up with zero bits, and characters for those alone are "=" |
| Base64.FilterDrops | utility/base64.c:231-235 | whitespace is skipped wherever it stands, and nothing else is |
| Base64.AcceptedIff | utility/base64.c:230-294 | accepted are whole quanta of table characters, up to two of which may be "=" at the very end |
| Base64.EmittedSplit | utility/base64.c:276-283 | decoding splits behind whole quanta, whatever follows, accepted or not |
| Base64.EmittedRest | utility/base64.c:242-256 | what follows yields octets only if its first "=" stands third or fourth, as if the text ended with that quantum |
| Base64.DecodeEncode | utility/base64.c:70-106 | an encoding is free of whitespace, is accepted, and decodes to the data, for all data |
| Base64.DecodedLength | utility/base64.c:230-294 | an accepted text yields three octets for each four characters, less one for each closing `=` |
| Base64.EncodeDecode | utility/base64.c:170-198 | encoding what an accepted text decodes to gives the text with the discarded low 4 or 2 bits of its last symbol cleared |
| Base64.EncodeDecodeIffCanonical | utility/base64.c:170-198 | that is the text itself exactly when those bits are zero already (RFC 4648 section 3.5) |
| Base64Codec.EncodeReturnIsLength | utility/base64.c:108-111 | the returned length is 4*ceil(n/3) exactly for n <= 1610612733; -1 up to 3221225469, off by 2^32 above |
| Base64.EncodeSplit | utility/base64.c:71-85 | encoding a prefix of whole blocks and the rest gives the encoding of the whole |
| Base64Codec.ReportedLength | applications/certgen/main.c:705-717 | the characters that certgen takes from the buffer are as many as encoding reports |
| Base64Codec.EncodeBuffer | utility/base64.c:42-112 | for every length the buffer holds the RFC 4648 encoding as a 32-bit index lays it down, nothing else is written, and null arguments give -1 |
| Base64Codec.EmitQuantum | utility/base64.c:153-201 | a quantum with 0, 1 or 2 missing characters at the end writes 3, 2 or 1 octets; any other is refused without a write |
| Base64Codec.ReadTail | utility/base64.c:257-274 | the scan after the first `=` succeeds exactly on the missing `=` amid whitespace |
| Base64Codec.DecodeBuffer | utility/base64.c:213-295 | return value and octets written depend on the text without whitespace only, also when output aliases input, and floor(3n/4) output octets suffice, accepted or not |
| Base64Codec.DecodeReturnIs | utility/base64.c:230-294 | the result is the length formula for accepted texts that fit INT_MAX, and -1 for all others |
| Base64Codec.RoundTrip | utility/base64.c:42-295 | any layout of an encoding of at most 1610612733 octets decodes to those octets |
| Workspace.Round16Is | applications/certgen/main.c:102-112 | an offset is rounded up to the least multiple of 16 that is not smaller |
| Workspace.AllocKeepsClean | applications/certgen/main.c:102-112 | an allocation keeps blocks aligned and disjoint and all other octets zero, and its block is zero-filled |
| Workspace.RunKeepsClean | applications/certgen/main.c:92-133 | so does every run of allocations, frees, resets and stores into held blocks |
| Workspace.BlockIsFresh | applications/certgen/main.c:92-133 | after any run a block handed out is aligned, zero-filled, inside the arena and clear of every held block |
| Workspace.AllServedIffRoom | applications/certgen/main.c:102-112 | non-zero requests all succeed exactly when the rounded sizes of all but the last plus the last fit |
| Workspace.Arena.Alloc | applications/certgen/main.c:102-112 | the routine is the specified step: offset or NULL, new offset, and nothing changed on failure |
| Workspace.Arena.Reset | applications/certgen/main.c:127-133 | the whole arena is zero afterwards and no block is held |
| Workspace.Arena.Free | applications/certgen/main.c:120-120 | freeing changes nothing |
| Workspace.Arena.Fill | applications/certgen/main.c:1839-1843 | a copy to a held block changes exactly its first octets |
| Pem.WrapLines | applications/certgen/main.c:709-717 | line breaks stand after each 64 characters, nowhere else, and not at the end |
| Pem.FilterWrap | applications/certgen/main.c:709-717 | taking the line breaks out gives the encoding back |
| Pem.LoadsBack | applications/certgen/main.c:1845-1873 | the loader returns the DER that was written exactly when the begin marker has a newline and only whitespace after it |
| Pem.LoadsBackIffRoom | applications/certgen/main.c:1834-1873 | with a marker that ends its line, loading succeeds exactly when the file is at most 1 MiB and file and body fit the arena |
| Pem.NewlineFreeMarker | applications/certgen/main.c:1845-1873 | with a marker without a newline the first 48 octets are lost, or everything when there are no more |
| Pem.ArmorBehind | applications/certgen/main.c:1845-1857 | text in front of a file moves its body along, unless "-----BEGIN" starts in it |
| Pem.LoadsBackBehind | applications/certgen/main.c:1845-1873 | behind any such text the loader returns the DER that was written exactly when it does without |
| PemFile.MarkersAre | applications/certgen/main.c:36-37 | the texts of the markers, with and without a newline, for any label |
| PemFile.PrivateKeyLoads | applications/certgen/main.c:1062-1062 | the markers of the private-key files, with any label, load back |
| PemFile.PublicKeyLosesFirstLine | applications/certgen/main.c:36-37 | the markers of the public-key files do not |
| PemFile.WriteLines | applications/certgen/main.c:709-717 | the loop that writes lines writes the wrapped text |
| PemFile.WriteDerAsPem | applications/certgen/main.c:699-723 | for every length the file is marker, wrapped encoding as reported, newline, marker; on failed allocation the begin marker only; and the whole arena afterwards |
| PemFile.LoadDerOrPem | applications/certgen/main.c:1817-1882 | result and octets for every file, with every failure, and the whole arena afterwards: the copy of the file with its terminators, and the delivered or decoded octets |
| PemFile.BareLoadsIffRoom | applications/certgen/main.c:1817-1843 | a file without a marker loads as it is exactly when it is at most 1 MiB and two copies fit the arena |
| PemFile.LoadLeaves | applications/certgen/main.c:1817-1882 | every octet of the arena after a load: the file with NUL behind it and over its end marker, then what is delivered and zeros, and all else unchanged |
| KeyFile.KeySurvivesPem | applications/certgen/main.c:2040-2056 | PEM under a marker that ends its line preserves the key of every SubjectPublicKeyInfo |
| KeyFile.KeySurvivesBare | applications/certgen/main.c:2040-2056 | so does the bare SubjectPublicKeyInfo as a file, unless "-----BEGIN" stands before its first NUL |
| KeyFile.PublicKeyFoundIff | applications/certgen/main.c:2040-2056 | under the public-key markers loading gives a key exactly when the octets from the 49th on open with a SubjectPublicKeyInfo for that key |
| KeyFile.KeyNeverComesBack | applications/certgen/main.c:1967-2000 | without its first 48 octets a SubjectPublicKeyInfo that leaves less than the shortest one for its key never gives that key |
| KeyFile.ShortKeyIsLost | applications/certgen/main.c:1074-1074 | the PEM that certgen writes for an Ed25519 public key holds no key for its own loader |
| KeyFile.RsaKeyIsLost | applications/certgen/main.c:1584-1584 | loading the PEM written for an RSA public key never gives back its RSAPublicKey |
| KeyFile.EcKeyIsLost | applications/certgen/main.c:991-991 | nor that of an EC point its octets, for curve OIDs of at most 35 octets |
| KeyFile.EcKeyIsFound | applications/certgen/main.c:497-535 | it does for every point and OID of a family, of 36 to 46 octets, that ends in framing for the point |
| KeyFile.EcAlwaysLostIff | applications/certgen/main.c:991-991 | all points under OIDs of n octets are lost if and only if n is at most 35 or above the 46 that the builder takes |
| KeyFile.EddsaKeyIsLost | applications/certgen/main.c:1074-1074 | nor that of any key from the EdDSA builder that key |
| KeyFile.LoadRawPubkey | applications/certgen/main.c:2040-2056 | success and key are those of loading followed by extraction, and the arena is as loading leaves it |
| Asn1.ReadTlvSound | applications/certgen/main.c:1935-1953 | what a successful read passes over is a TLV with the expected tag and the body it reports |
| Asn1.ReadTlvComplete | applications/certgen/main.c:1935-1953 | every TLV at the cursor, with up to four length octets, is read, whatever follows |
| Asn1.ReadTlv | applications/certgen/main.c:1935-1953 | the cursor never passes the end, never moves back, and a success advances it by at least two with the body inside |
| Asn1.ReadLenAt | applications/certgen/main.c:1895-1920 | the 32-bit accumulation yields the big-endian value of the length octets without wrapping |
| Asn1.ReadTlvAt | applications/certgen/main.c:1935-1953 | the routine on a buffer, cursor included, is the specified read |
| DerWriter.LengthOctetsForm | noxtls-lib/certs/asn1.c:586-626 | length octets written are read back as the same length |
| DerWriter.LengthOctetsShortest | noxtls-lib/certs/asn1.c:586-626 | and no shorter ones would be, for that length or a greater one (X.690 section 10.1) |
| DerWriter.PutIsTlv | noxtls-lib/certs/asn1.c:687-710 | what a writer writes is a TLV with the given tag and body, within its buffer |
| DerWriter.PutIff | noxtls-lib/certs/asn1.c:687-710 | nothing is written exactly for bodies of 2^24 octets or more or for want of room |
| DerWriter.IntegerBodyIsDer | noxtls-lib/certs/asn1.c:637-676 | an INTEGER body keeps the value, is not negative and has no superfluous leading zero |
| DerWriter.WriteBytes | noxtls-lib/certs/asn1.c:562-576 | the bytes are copied exactly when they fit, and nothing else changes |
| DerWriter.PutLength | noxtls-lib/certs/asn1.c:586-626 | the length octets are written to the buffer, none beyond 2^24 - 1 |
| DerWriter.PutTlv | noxtls-lib/certs/asn1.c:687-739 | SEQUENCE and OBJECT IDENTIFIER writers: the TLV, or 0 where it does not fit, and the rest of the buffer unchanged |
| DerWriter.PutBitString | noxtls-lib/certs/asn1.c:750-773 | the BIT STRING writer: a zero octet before the data, or 0 where it does not fit |
| DerWriter.PutIntegerTlv | noxtls-lib/certs/asn1.c:637-676 | the INTEGER writer, with its loop over leading zeros: the specified TLV, or 0 for an empty number or no room |
| Spki.ExtractIffSpki | applications/certgen/main.c:1967-2000 | extraction gives a key for exactly the inputs that open with a SubjectPublicKeyInfo for that key |
| Spki.ExtractIgnoresTail | applications/certgen/main.c:1967-2000 | a successful extraction is unchanged by octets appended to the input |
| Spki.ExtractLeavesFraming | applications/certgen/main.c:1967-2000 | the key is at least seven octets shorter than the input |
| Spki.ExtractNeedsLeast | applications/certgen/main.c:1967-2000 | and at least as much shorter as the shortest length octets for key and body require |
| Spki.ExtractRawPubkey | applications/certgen/main.c:1967-2000 | the routine on a buffer is the specified extraction |
| Spki.EncloseIsSpki | applications/certgen/main.c:595-604 | extraction undoes the ending that all three builders share |
| Spki.ExtractRsa | applications/certgen/main.c:441-484 | extraction undoes the RSA builder and gives its RSAPublicKey |
| Spki.ExtractEc | applications/certgen/main.c:497-535 | extraction undoes the EC builder and gives 0x04, x, y |
| Spki.ExtractEddsa | applications/certgen/main.c:588-605 | extraction undoes the EdDSA builder and gives the raw key |
| Spki.RsaPublicKeyHoldsNumbers | applications/certgen/main.c:441-460 | the RSAPublicKey is two INTEGERs with the values of modulus and exponent |
| Spki.EddsaServesShortKeys | applications/certgen/main.c:588-605 | the EdDSA builder succeeds exactly for OIDs of 1 to 14 and keys of at most 77 octets that fit the output |
| Spki.EddsaHolds | applications/certgen/main.c:588-605 | the EdDSA builder writes a SEQUENCE of the given OID and the key |
| Spki.EcHolds | applications/certgen/main.c:497-535 | the EC builder writes the OID 1.2.840.10045.2.1, the given curve and the point 0x04, x, y |
| Spki.RsaHolds | applications/certgen/main.c:462-484 | the RSA builder writes the OID 1.2.840.113549.1.1.1 with NULL and the RSAPublicKey |
| Spki.EcServesIff | applications/certgen/main.c:497-535 | the EC builder succeeds exactly for OIDs of 1 to 46 and coordinates of together at most 255 octets that fit the output |
| Spki.RsaServesIff | applications/certgen/main.c:441-484 | the RSA builder succeeds exactly for non-empty numbers whose encoding fits its buffers and the output |
| SpkiBuilder.PutEnclosed | applications/certgen/main.c:595-604 | BIT STRING, joined content and outer SEQUENCE, with each size check |
| SpkiBuilder.EncodeRsaPublicSpki | applications/certgen/main.c:441-484 | the routine with its fixed buffers writes the specified SubjectPublicKeyInfo or returns 0 |
| SpkiBuilder.EncodeEcPublicSpki | applications/certgen/main.c:497-535 | the same for EC points |
| SpkiBuilder.EncodeEddsaSpki | applications/certgen/main.c:588-605 | the same for raw keys |
| Scalar.NibbleTable | applications/certgen/main.c:725-731 | the digits 0-9, a-f and A-F have their places as values, and nothing else is a digit |
| Scalar.DigitsIs | applications/certgen/main.c:742-746 | "0x" or "0X" in front is taken off, once |
| Scalar.HexRoundTrip | applications/certgen/main.c:748-768 | every octet string, printed in hex, is read back to the same number |
| Scalar.HexTextParses | applications/certgen/main.c:733-770 | and is accepted exactly when it is not empty and fits |
| Scalar.LeadingZero | applications/certgen/main.c:749-757 | an odd number of digits is read as if a zero stood in front |
| Scalar.ParseHex | applications/certgen/main.c:733-770 | succeeds exactly on at least one digit, hex digits only, that fit; the octets then denote the hex value |
| Scalar.ParseDigits | applications/certgen/main.c:749-769 | the digit loop, with the buffer wiped on a bad digit except a bad leading odd one |
| Scalar.ScalarBitLength | applications/certgen/main.c:772-795 | the result is the bit length of the big-endian value modulo 2^32 |
| Scalar.ShiftToTop | applications/certgen/main.c:788-794 | the shift loop subtracts the leading zero bits of the first octet |
| Scalar.BitLengthBrackets | applications/certgen/main.c:772-795 | below 2^29 octets the result b is 0 for zero and else 2^(b-1) <= value < 2^b |
| KeyMatch.TrimmedDeterminedByValue | applications/cert/main.c:1005-1014 | trimmed strings are equal exactly when they denote the same integer |
| KeyMatch.TrimInteger | applications/cert/main.c:1005-1014 | the loop moves start and length to the trimmed string |
| KeyMatch.XorBits | noxtls-lib/common/noxtls_ct.c:38-57 | the exclusive or of octets works on each bit apart |
| KeyMatch.OrBits | noxtls-lib/common/noxtls_ct.c:38-57 | and so does the accumulating or |
| KeyMatch.CompareConstantTime | noxtls-lib/common/noxtls_ct.c:38-57 | the accumulated difference is zero exactly for equal octets |
| KeyMatch.IntegerEqual | applications/cert/main.c:1016-1026 | equal exactly when both are present, non-empty and denote the same integer |
| Paths.DeriveMatchesBuild | applications/certgen/main.c:2011-2027 | deriving from a built key path gives the built public path, truncation included, for every buffer size but 5 |
| Paths.BuiltPathsFit | applications/certgen/main.c:638-686 | both paths fit their buffers, and hold the whole stem when that has room |
| Paths.RebuildIsStable | applications/certgen/main.c:633-686 | building from either path of a pair gives the pair again |
| Paths.StemOfNamed | applications/certgen/main.c:657-678 | a name that ends in a known extension, in any case, loses exactly that |
| Paths.KnownExtIs | applications/certgen/main.c:614-621 | the known extensions are key, pub, pem and der |
| Paths.LowerTable | applications/certgen/main.c:661-666 | lowering maps the 26 capitals to the small letters and nothing else |
| Paths.StemIs | applications/certgen/main.c:640-678 | every other name is its own stem, so the search for the last separator, which differs between platforms, decides nothing |
| Paths.BuildIs | applications/certgen/main.c:633-686 | the two paths are the stem, cut to leave room in the buffer and in 512 octets, with .key and .pub |
| Paths.DeriveIs | applications/certgen/main.c:2011-2027 | deriving cuts at the last dot or where .pub still fits, whichever comes first |
| Paths.DeriveAgreesIff | applications/certgen/main.c:2011-2027 | for any key path the two routines agree exactly when it has no dot, a known extension, or its last dot past the cut |
| Paths.DeriveDropsDirectory | applications/certgen/main.c:2018-2019 | "./key" becomes ".pub" |
| Paths.LowerSuffix | applications/certgen/main.c:661-666 | the loop lower-cases up to seven octets |
| Paths.BuildKeyPubPaths | applications/certgen/main.c:633-686 | both buffers hold the specified names |
| Paths.DerivePubPath | applications/certgen/main.c:2011-2027 | the buffer holds the specified name |
| Datagram.RunKeepsBounded | applications/dtls_psk_demo/main.c:219-273 | over any run the content fits, capacity <= max(4096, 2 * peak), and growth has moved at most the capacity |
| Datagram.GrowthIsAmortised | applications/dtls_psk_demo/main.c:226-239 | all growth of a run moves at most max(4096, twice the octets appended) |
| Bytes.ToInt32Is | applications/dtls_psk_demo/main.c:272-272 | the length read is returned as an `int32_t`: unchanged below 2^31, less 2^32 above |
| Datagram.AppendIs | applications/dtls_psk_demo/main.c:219-243 | below 2^31 octets: an append succeeds exactly when there is room or reallocation is granted, adds at the end, and grows to twice what is needed, at least 4096 |
| Datagram.SafeIffRoom | applications/dtls_psk_demo/main.c:226-241 | the copy has room exactly if the total fits, is below 2^31, or the growth called for is refused |
| Datagram.GrowthSuffices | applications/dtls_psk_demo/main.c:226-239 | when reallocation succeeds, exactly if the total fits the capacity already or is below 2^31 |
| Datagram.RunKeepsPending | applications/dtls_psk_demo/main.c:219-273 | along every run the content is the datagrams appended since the last read, run together |
| Datagram.ReadIsWholeIff | applications/dtls_psk_demo/main.c:245-273 | after any run a read delivers one whole datagram and drops nothing exactly if one alone is pending and has room |
| Datagram.ReadMerges | applications/dtls_psk_demo/main.c:264-271 | two datagrams in a row are delivered as one |
| Datagram.UdpBuffer.AppendData | applications/dtls_psk_demo/main.c:219-243 | content, capacity and status after an append that has room; a failed one changes nothing |
| Datagram.UdpBuffer.ReadData | applications/dtls_psk_demo/main.c:253-273 | the octets delivered, the return value as an `int32_t`, and an empty buffer afterwards |
| Datagram.UdpBuffer.Release | applications/dtls_psk_demo/main.c:281-293 | back to the initial buffer |
| Monitor.StepKeepsInv | applications/dtls_psk_demo/main.c:397-517 | each action of either thread, spurious wake-ups and failed appends included, keeps the invariant |
| Monitor.MutualExclusion | applications/dtls_psk_demo/main.c:397-517 | in every interleaving at most one thread is in its critical section |
| Monitor.BlockedIsEmptyOrSignalled | applications/dtls_psk_demo/main.c:431-453 | no wake-up is lost: in every state a blocked receiver has an empty buffer or its sender is about to signal |
| Monitor.BlockedMeansEmpty | applications/dtls_psk_demo/main.c:431-453 | with the mutex free, a blocked receiver has an empty buffer |
| Monitor.BothBlockedMeansDrained | applications/dtls_psk_demo/main.c:431-517 | if both threads are blocked, every datagram sent has been taken by a receive |
| Monitor.HolderMovesOn | applications/dtls_psk_demo/main.c:397-517 | the holder of the mutex has a next action, unless its 32-bit total has wrapped round to one that the capacity covers |
| Monitor.NeverStuck | applications/dtls_psk_demo/main.c:397-517 | in every reachable state outside those wrapped totals, some thread can go on without a new call or a spurious wake-up exactly if one is neither idle nor blocked |
| Monitor.SentIsTakenThenBuffered | applications/dtls_psk_demo/main.c:219-273 | per direction, octets sent are in order those delivered, dropped by short reads, and still buffered |
| Monitor.DatagramsInOrder | applications/dtls_psk_demo/main.c:397-517 | per direction, datagrams sent are in order those taken by the receives and those pending |
| Monitor.ReceiptIsWholeIff | applications/dtls_psk_demo/main.c:245-273 | a receive got one whole datagram and dropped nothing exactly if one alone was pending and had room |
| Monitor.CallsAreServed | applications/dtls_psk_demo/main.c:397-517 | in every interleaving the receives have, in order, the rooms that their callers passed, and what was sent is the non-empty data that callers passed whose append succeeded |
| Monitor.BlockedReceives | applications/dtls_psk_demo/main.c:397-453 | a blocked receiver gets the next datagram sent, alone, as much of it as its caller has room for |
| Monitor.SpuriousIsHarmless | applications/dtls_psk_demo/main.c:437-444 | a spurious wake-up of a blocked receiver leads back to the same state |
| Wheel.CoprimeIff | scripts/gen_rsa_wheel_tables.py:21-23 | the wheel keeps exactly the numbers without a divisor from 2 to 12 |
| Wheel.GapsTelescope | scripts/gen_rsa_wheel_tables.py:26-30 | residue i is 1 plus the first i gaps, and one turn adds 2310 |
| Wheel.VisitPeriodic | scripts/gen_rsa_wheel_tables.py:4-7 | each turn repeats the one before, 2310 further on |
| Wheel.WalkIsEnumeration | scripts/gen_rsa_wheel_tables.py:4-7 | adding the gaps forever visits exactly the positive numbers free of 2, 3, 5, 7, 11, in increasing order |
| Wheel.NothingSkipped | scripts/gen_rsa_wheel_tables.py:4-7 | no such number lies between two visits |
| PrimeSearch.ModSmall | noxtls-lib/pkc/rsa/noxtls_rsa.c:112-120 | the remainder of the big-endian value, for divisors up to 65535 |
| PrimeSearch.AddSmall | noxtls-lib/pkc/rsa/noxtls_rsa.c:153-162 | addition in place modulo 256^n, with the early stop on a zero carry |
| PrimeSearch.AlignTarget | noxtls-lib/pkc/rsa/noxtls_rsa.c:692-709 | the number reached is the first from the candidate on that the wheel does not skip, and the position matches it |
| PrimeSearch.AdvanceTarget | noxtls-lib/pkc/rsa/noxtls_rsa.c:720-726 | one gap leads to the next such number and keeps the position right |
| PrimeSearch.AlignKeepsIff | noxtls-lib/pkc/rsa/noxtls_rsa.c:692-709 | aligning keeps the top bits, and the reported position is right, exactly if the range still holds a number that the wheel does not skip |
| PrimeSearch.Align | noxtls-lib/pkc/rsa/noxtls_rsa.c:692-709 | the routine goes to that number modulo 256^n, and the candidate is on the wheel under that same condition |
| PrimeSearch.SeededIs | noxtls-lib/pkc/rsa/noxtls_rsa.c:770-773 | a seed is made odd, its two top bits are set, and every other bit is the generator's |
| PrimeSearch.Advance | noxtls-lib/pkc/rsa/noxtls_rsa.c:720-737 | steps while the top bits stay set, from the wheel or from three octets on without wrapping; else reseeds and aligns, or fails with the candidate wiped |
| PrimeRun.RunExists | noxtls-lib/pkc/rsa/noxtls_rsa.c:766-774 | every seed starts a run |
| PrimeRun.RoomKeeps | noxtls-lib/pkc/rsa/noxtls_rsa.c:692-709 | a seed at least 2310 below the end of the range keeps |
| PrimeRun.RunStaysOnTrack | noxtls-lib/pkc/rsa/noxtls_rsa.c:774-831 | from a seed that keeps, every candidate has its top bits and its wheel position, and is next after the one before |
| PrimeRun.RunIsExact | noxtls-lib/pkc/rsa/noxtls_rsa.c:774-831 | its candidates are exactly the numbers, from the seed to the last, that the wheel does not skip |
| PrimeRun.LostRunEnds | noxtls-lib/pkc/rsa/noxtls_rsa.c:726-736 | from any other seed the first candidate has wrapped, off the wheel, and the first advance reseeds |
| PrimeRun.AllOnesIsLost | noxtls-lib/pkc/rsa/noxtls_rsa.c:766-774 | a seed of 0xFF octets is such a seed |
| PrimeRun.ModulusHasFullLength | noxtls-lib/pkc/rsa/noxtls_rsa.c:770-772 | the product of candidates of two runs has exactly twice their bits if and only if both seeds keep |
| PrimeLoop.GeneratePrime | noxtls-lib/pkc/rsa/noxtls_rsa.c:746-835 | the loop: each run starts from what the generator delivers in that attempt and ends only where a step loses the top bits; all candidates but the last were found composite; the search ends exactly when the generator fails, a verdict is not "composite", or the attempts are used up; it succeeds exactly on "probably prime"; the buffer then holds the last candidate, and zeros if the generator failed |
| PrimeLoop.SearchIsDetermined | noxtls-lib/pkc/rsa/noxtls_rsa.c:746-835 | for given generator output and verdicts there is only one such search, so candidates, result and failure are functions of them |
| PrimeLoop.ResultTop | noxtls-lib/pkc/rsa/noxtls_rsa.c:770-772 | the number that a search ends with has its top bits if and only if the seed of its last run keeps |
| PrimeLoop.ResultModulus | noxtls-lib/pkc/rsa/noxtls_rsa.c:770-772 | two such numbers multiply to a modulus of full length if and only if both those seeds keep |
| PrimeLoop.GeneratePair | noxtls-lib/pkc/rsa/noxtls_rsa.c:1422-1454 | a search for p and up to four for q, another exactly after one that found p again; it fails exactly when one of them fails or the fourth finds p again; the check of the modulus's top bit passes if and only if both results' seeds keep |
| PrimeLoop.PairIsDetermined | noxtls-lib/pkc/rsa/noxtls_rsa.c:1422-1454 | for given generator output and verdicts there is only one such row of searches |
| PrimeLoop.PairFailsIff | noxtls-lib/pkc/rsa/noxtls_rsa.c:1422-1446 | no pair is found exactly when p's search fails, the last one for q fails, or four for q find p again |
| PrimeLoop.PairModulus | noxtls-lib/pkc/rsa/noxtls_rsa.c:1451-1454 | the product of the p and q found has full length if and only if both last seeds keep |
| PrimeLoop.NothingOverlooked | noxtls-lib/pkc/rsa/noxtls_rsa.c:781-831 | every number before a search's result that the wheel does not skip, from the seed of its last run on, was an earlier candidate and found composite in its own attempt |
| Tally.GroupIsExact | scripts/map_size_report.py:188-206 | a dict of running totals has one entry for each key, holding exactly what was added under it |
| Tally.GroupOrder | scripts/map_size_report.py:188-206 | and keeps its keys in the order in which they first came |
| Tally.SortIsStable | scripts/map_size_report.py:226-226 | sorting is descending and keeps, for each sort key, the same elements in the same order |
| Tally.SortKeepsOrder | scripts/map_size_report.py:226-226 | of two elements alike, the one in front was in front before |
| MapReport.PendingIff | scripts/map_size_report.py:139-178 | a section is pending exactly when its name line is the last line that is not passed over |
| MapReport.TwoLineForm | scripts/map_size_report.py:152-175 | a contribution split over two lines counts like the same one on a single line |
| MapReport.BaseSectionIs | scripts/map_size_report.py:184-184 | a section's base is one dot and the word that follows its leading dots, up to the next one |
| MapReport.CountedIff | scripts/map_size_report.py:177-186 | a contribution counts exactly if size and path are not empty and its base is one of seven names |
| MapReport.ListedMatchesIff | scripts/map_size_report.py:184-186 | a listed flash section or a subsection of one is taken for flash if and only if the listed name has no second dot |
| MapReport.ListedCountsIff | scripts/map_size_report.py:177-186 | and a contribution from any listed section counts if and only if that holds and its size and path are not empty |
| MapReport.FileSizesAre | scripts/map_size_report.py:188-206 | each size of a file is the sum over the accepted contributions of its sections |
| MapReport.RollupIsTable | scripts/map_size_report.py:94-127 | a path has at most one of the listed directories, which alone decides its category, whatever the order of the tests |
| MapReport.RollupOther | scripts/map_size_report.py:94-127 | a path in none of them is in category "other" |
| MapReport.RowsAreExact | scripts/map_size_report.py:208-227 | files with accepted contributions have one row each, others none |
| MapReport.RowsHold | scripts/map_size_report.py:188-224 | each column of a row is the sum over the accepted contributions of its sections to that file, and its category that of the path |
| MapReport.RowsAreOrdered | scripts/map_size_report.py:226-226 | rows descend by flash and RAM together; of two alike, the file seen first comes first |
| MapReport.RowsAreBalanced | scripts/map_size_report.py:188-206 | in each row RAM is data plus bss, text, constants and data are within flash, and the row is not empty |
| MapReport.RowsConserve | scripts/map_size_report.py:137-227 | rows sum to the accepted contributions, in flash and in RAM |
| MapReport.ParseMapFile | scripts/map_size_report.py:130-227 | the loops compute those rows, and a missing marker is an error |
| MapCategories.CategoriesAreExact | scripts/map_size_report.py:230-248 | each category of a row is listed once, with the sums over its rows |
| MapCategories.CategoriesAreOrdered | scripts/map_size_report.py:247-247 | categories descend by flash; of two alike, the one of the earlier row comes first |
| MapCategories.CategoriesConserve | scripts/map_size_report.py:230-248 | categories sum to the rows in flash, RAM and count, for any rows |
| MapCategories.ReportConserves | scripts/map_size_report.py:130-248 | from map lines to categories nothing is lost or counted twice |
| MapCategories.SummarizeCategories | scripts/map_size_report.py:230-248 | the loop computes that summary |

## Left out

- All cryptography, certificates beyond public-key containers, and TLS: they are not part of this model.
- Files, stdio, argument parsing and printing: a file is the sequence of its octets, what a writer writes is returned.
- NULL checks of pointer arguments, except where a routine's result depends on them and the model has a nullable array.
- Base64Codec.EncodeBuffer: says nothing about the octets written when the output is the input, which encoding does not
  support.
- Base64Codec.DecodeBuffer: covers separate buffers and the same buffer, not buffers that overlap in part.
- Pem.LoadsBack: is about markers whose text after the first newline holds no dash, and data that encoding can hold.
- PemFile.LoadDerOrPem: works on arrays of its own and copies them into its arena blocks when they are complete, and a
  pointer into a buffer is a copy of what it points to; WriteDerAsPem does the same.
- KeyFile.EcKeyIsLost: is about curve OIDs of at most 35 octets; that the bound is sharp is `EcAlwaysLostIff`, and for
  single inputs the exact condition is `PublicKeyFoundIff`.
- SpkiBuilder.EncodeEcPublicSpki: takes coordinates of any lengths instead of two of the curve's size, and
  EncodeRsaPublicSpki numbers of any lengths instead of two of the key's size.
- Paths.BuildKeyPubPaths: the platform choice between `/` and `\` is a parameter; `strrchr`, `strlen` and `snprintf` have
  their C meaning.
- Paths.DeriveAgreesIff: is about buffers of 6 to 512 octets; both callers use 512.
- Datagram.UdpBuffer.AppendData: requires that the copy has room, as its callers must; by `SafeIffRoom` no weaker
  condition would do. Whether reallocation succeeds is a parameter.
- Monitor.StepKeepsInv: the monitor is modelled on values, as a step machine over the specification of the buffer. A wait
  releases the mutex and blocks in one action, an append without room, whose effect C leaves undefined, is no action,
  the checks of the callback's role are left out, and progress of the handshake is not claimed.
- PrimeSearch.Align: the 480 entries of the C table are taken to be the generator's gaps; the check that they are, and
  that each fits an octet, is the script's own.
- PrimeLoop.GeneratePrime: the random generator's output and the verdicts of the primality tests, one for each number in
  each attempt, are parameters; that a number found composite is composite is not claimed.
- PrimeLoop.GeneratePair: compares the product itself and not its octets.
- MapReport.ParseMapFile: starts from classified lines with normalised paths; the regular expressions and the path
  rewriting are not modelled.
- The duplicate arenas of the other applications, configuration headers, documentation and changelog scripts and the
  benchmark: repeated or easy.
