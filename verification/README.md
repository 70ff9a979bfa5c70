# Injected signature algorithms and SubjectPublicKeyInfo, in Dafny

A model of two pieces of a post-quantum extension of BouncyCastle's TLS and
PKI code, with proofs of what they guarantee.

1. **The injected signature-algorithm registry** (`InjectedSigAlgorithms`).
   Each injected algorithm is a `SigAlgorithmInfo` record: a name, an OID, a
   TLS `SignatureScheme` code point (section 4.2.3 of RFC 8446), that code
   point split into a TLS 1.2 `SignatureAndHashAlgorithm` pair (section
   7.4.1.4.1 of RFC 5246), and an adapter (`SigAlgAPI`). The registry keeps
   an insertion-ordered list of records, an index by code point and an index
   by the OID's dotted string. It answers membership queries, dispatches key
   decoding to the adapter indexed under a key's OID, and dispatches key
   encoding to an adapter whose `isSupportedParameter` accepts the key.
2. **The X.509 `SubjectPublicKeyInfo`** (section 4.1.2.7 of RFC 5280),
   `SEQUENCE { algorithm AlgorithmIdentifier, subjectPublicKey BIT STRING }`:
   its constructors, `getInstance`, the accessors, `toASN1Primitive`, and the
   two readings of the key bits. The flat reading decodes the octets as one
   ASN.1 value. The nested ("PQC") reading decodes them as another
   SubjectPublicKeyInfo and returns that re-encoded as an OCTET STRING.

Modules, one per file:

- `Results` (results.dfy): `Option`, `Result` and `Failure`. Each Java
  exception the code can raise becomes a `Failure`. `UnsupportedParams` is the
  `RuntimeException` "Unsupported ... params were given". `NullPointer` is the
  dereference of a missing map entry.
- `Numeric` (numeric.dfy): octets, and base-b digit strings with their round trips.
- `Oids` (oids.dfy): object identifiers as arcs. It gives the dotted-decimal
  string the registry keys on, proved injective. It also gives the content
  octets of section 8.19 of ITU-T X.690, with both round trips.
- `Asn1` (asn1.dfy): an ASN.1 value datatype, its encoding `Encode` (a value
  written as it stands) and BouncyCastle's DER output `DerEncode`. `DerEncode`
  first normalises the value with `ToDer`. Unused BIT STRING bits are cleared,
  a BOOLEAN TRUE is written as FF, and a GeneralizedTime in UTC ("…Z") is
  rewritten as BouncyCastle's `getDERTime` does. Missing minutes become
  "0000" and missing seconds "00". Trailing zeros of a fraction are dropped,
  and so is the '.' when no digit is left. The decoder `FromByteArray` plays the
  part of `ASN1Primitive.fromByteArray`. Like BouncyCastle's, it keeps a
  decoded BIT STRING's unused bits and a BOOLEAN's octet as read. It rejects
  malformed contents: a BOOLEAN not one octet long, an INTEGER or ENUMERATED
  with a redundant sign octet, a negative ENUMERATED, an invalid RELATIVE-OID,
  a BMPString of odd length, a UTCTime not starting with two digits, a
  GeneralizedTime not starting with four digits, and unknown universal tags. It is proved to
  accept exactly the encodings of well-formed values and to return the value
  encoded.
- `AlgorithmIdentifiers` (algorithm_identifier.dfy): `AlgorithmIdentifier` as a
  one- or two-element SEQUENCE.
- `SubjectPublicKeyInfos` (subject_public_key_info.dfy): the key-info codec.
- `InjectedSigAlgorithms` (injected_sig_algorithms.dfy): the registry. It is an
  immutable value `Registry(injected, bySigScheme, byOid)`. `Inject` is a pure
  transition. `Consistent` is the invariant: both indices equal the
  last-write-wins fold `IndexBy` of the list, and every record carries the split
  of its own code point. The adapter is an opaque handle type `A`. What the
  adapter does is a `SigAlgApi` value, whose functions over handles stand for
  `isSupportedParameter` and the four key-marshalling calls. The
  reverse-dispatch loops pick keys of the code-point map by `:|`, so their
  contracts hold for every iteration order a `HashMap` might use.

Java arithmetic is written out. `cp >> 8` on an int is floor division by 256,
and `cp & 0xFF` is the non-negative remainder. A `(short)` cast keeps the low
16 bits as two's complement (`ToShort`). `SignatureAndHashAlgorithm`'s
constructor refuses a component outside 0..255 with an
IllegalArgumentException.

## Model

| member | source | states |
|---|---|---|
| InjectedSigAlgorithms.DisjointOrIsSum | src/main/java/org/bouncycastle/tls/injection/sigalgs/InjectedSigAlgorithms.java:100 | OR-ing a value shifted left by k bits with a value below 2^k gives their sum, for Java's << and \| modelled bit by bit on integers. |
| InjectedSigAlgorithms.CodePointOf | src/main/java/org/bouncycastle/tls/injection/sigalgs/InjectedSigAlgorithms.java:100 | (hash << 8) \| signature, computed with the bitwise OR, is hash * 256 + signature and so a 16-bit code point. |
| InjectedSigAlgorithms.SplitRoundTrip | src/main/java/org/bouncycastle/tls/injection/sigalgs/InjectedSigAlgorithms.java:43 | Every code point in 0..0xFFFF splits into (cp >> 8, cp & 0xFF), and recombining that pair gives back cp. |
| InjectedSigAlgorithms.CombineRoundTrip | src/main/java/org/bouncycastle/tls/injection/sigalgs/InjectedSigAlgorithms.java:99-102 | Every pair is the split of the code point it recombines to. |
| InjectedSigAlgorithms.SplitAcceptance | src/main/java/org/bouncycastle/tls/injection/sigalgs/InjectedSigAlgorithms.java:43 | The split succeeds exactly when bits 8..23 of the int hold a value below 256, so it also accepts some ints above 0xFFFF. |
| InjectedSigAlgorithms.WideCodePointTruncated | src/main/java/org/bouncycastle/tls/injection/sigalgs/InjectedSigAlgorithms.java:43 | 0x010000AB splits without error into (0, 0xAB), which recombines to a different code point. |
| InjectedSigAlgorithms.NewSigAlgorithmInfo | src/main/java/org/bouncycastle/tls/injection/sigalgs/InjectedSigAlgorithms.java:35-45 | A record exists exactly when its code point splits; it then holds the given fields and the split; otherwise IllegalArgument. |
| InjectedSigAlgorithms.IndexBySpec | src/main/java/org/bouncycastle/tls/injection/sigalgs/InjectedSigAlgorithms.java:74-76 | A key is indexed exactly when some record in the list has it, and it maps to the last such record (last write wins). |
| InjectedSigAlgorithms.LastIsIndexed | src/main/java/org/bouncycastle/tls/injection/sigalgs/InjectedSigAlgorithms.java:75-76 | A record that is the last in the list with its key is what the index holds for that key. |
| InjectedSigAlgorithms.Inject | src/main/java/org/bouncycastle/tls/injection/sigalgs/InjectedSigAlgorithms.java:68-81 | Any 16-bit code point is accepted. The only failure is IllegalArgument. Exactly one record is appended and earlier entries are unchanged. Both indices map the new code point and OID to the new record, so both queries become true. Every other key keeps its entry. Consistency is preserved. |
| InjectedSigAlgorithms.EmptyConsistent | src/main/java/org/bouncycastle/tls/injection/sigalgs/InjectedSigAlgorithms.java:64-66 | The empty registry satisfies the index/list invariant. |
| InjectedSigAlgorithms.IsSigAndHashAlgorithmSupported | src/main/java/org/bouncycastle/tls/injection/sigalgs/InjectedSigAlgorithms.java:99-102 | A pair is supported exactly when hash * 256 + signature is in the code-point index, although the code combines the pair with a shift and a bitwise OR. |
| InjectedSigAlgorithms.GetInjectedSigAndHashAlgorithms | src/main/java/org/bouncycastle/tls/injection/sigalgs/InjectedSigAlgorithms.java:83-85 | The advertised pairs are, in list order, the pairs of the records of the list: one per record, position for position. |
| InjectedSigAlgorithms.SchemeSupportedSpec | src/main/java/org/bouncycastle/tls/injection/sigalgs/InjectedSigAlgorithms.java:91-93 | A code point is supported exactly when some injected record has it, and the index holds the last such record. |
| InjectedSigAlgorithms.AlgorithmSupportedSpec | src/main/java/org/bouncycastle/tls/injection/sigalgs/InjectedSigAlgorithms.java:95-97 | An OID is supported exactly when some injected record has that OID, and the index holds the last such record. Distinct OIDs never share a string key. |
| InjectedSigAlgorithms.AdvertisedPairsSupported | src/main/java/org/bouncycastle/tls/injection/sigalgs/InjectedSigAlgorithms.java:83-102 | Each advertised pair of a 16-bit code point recombines to its record's code point and is reported as supported. |
| InjectedSigAlgorithms.PairSupportedSpec | src/main/java/org/bouncycastle/tls/injection/sigalgs/InjectedSigAlgorithms.java:99-102 | A pair is supported exactly when some record has its recombined code point, and every such record advertises that very pair. |
| InjectedSigAlgorithms.ReinjectionKeepsStaleRecord | src/main/java/org/bouncycastle/tls/injection/sigalgs/InjectedSigAlgorithms.java:73-76 | Re-injecting a registered code point keeps the earlier record in the list, and its pair is advertised twice. The code-point index no longer reaches the earlier record, and neither does the OID index when the OID was the same too. |
| InjectedSigAlgorithms.ReinjectedOidKeepsCodePointEntry | src/main/java/org/bouncycastle/tls/injection/sigalgs/InjectedSigAlgorithms.java:73-76 | Re-injecting a registered OID under another code point moves only the OID index. The earlier record stays in the list and stays reachable through its own code point. |
| InjectedSigAlgorithms.ExampleScenario | src/main/java/org/bouncycastle/tls/injection/sigalgs/InjectedSigAlgorithms.java:68-102 | After injecting XYZ-SIG with OID 1.2.3.4 and code point 0xABCD, that OID, that code point and the pair (0xAB, 0xCD) are supported. Code point 0 and OID 1.2.3.5 are not. |
| InjectedSigAlgorithms.IsParameterSupported | src/main/java/org/bouncycastle/tls/injection/sigalgs/InjectedSigAlgorithms.java:109-115 | True exactly when some record in the code-point index has an adapter accepting the key, whatever the map's iteration order. |
| InjectedSigAlgorithms.ProbedRecords | src/main/java/org/bouncycastle/tls/injection/sigalgs/InjectedSigAlgorithms.java:109-115 | The adapters probed are those of the records last in the list for their code point; a shadowed record is never consulted. |
| InjectedSigAlgorithms.FindAcceptingAdapter | src/main/java/org/bouncycastle/tls/injection/sigalgs/InjectedSigAlgorithms.java:125-128 | Finds an indexed adapter accepting the key exactly when one exists, and what it returns is such an adapter. |
| InjectedSigAlgorithms.CreatePrivateKeyInfo | src/main/java/org/bouncycastle/tls/injection/sigalgs/InjectedSigAlgorithms.java:124-130 | The output of some indexed adapter that accepts the key; UnsupportedParams when none does. |
| InjectedSigAlgorithms.CreateSubjectPublicKeyInfo | src/main/java/org/bouncycastle/tls/injection/sigalgs/InjectedSigAlgorithms.java:139-146 | The output of some indexed adapter that accepts the key; UnsupportedParams when none does. |
| InjectedSigAlgorithms.PrivateKeyParameterDispatch | src/main/java/org/bouncycastle/tls/injection/sigalgs/InjectedSigAlgorithms.java:117-122 | An OID no record has fails with NullPointer. Otherwise the result is that of the adapter of the last record injected with the key info's OID. |
| InjectedSigAlgorithms.PublicKeyParameterDispatch | src/main/java/org/bouncycastle/tls/injection/sigalgs/InjectedSigAlgorithms.java:132-138 | The same for public keys: NullPointer for an unregistered OID, else the adapter of the last record with that OID, given the default parameters. |
| SubjectPublicKeyInfos.FromOctets | src/main/java/org/bouncycastle/asn1/x509/SubjectPublicKeyInfo.java:52-58 | octets() returns exactly the given bytes and getAlgorithm() the given identifier. |
| SubjectPublicKeyInfos.FromEncodable | src/main/java/org/bouncycastle/asn1/x509/SubjectPublicKeyInfo.java:43-50 | The key octets have no pad bits and decode to the DER form of the given value (unused bits cleared, TRUE as FF, GeneralizedTime rewritten), and the algorithm is the given identifier. The DER output must fit in a Java array. |
| SubjectPublicKeyInfos.FromSequence | src/main/java/org/bouncycastle/asn1/x509/SubjectPublicKeyInfo.java:63-76 | Any size but 2 fails with IllegalArgument, and so does any other failure. A success is the key info whose two-element SEQUENCE is exactly the input. |
| SubjectPublicKeyInfos.FromAsn1 | src/main/java/org/bouncycastle/asn1/x509/SubjectPublicKeyInfo.java:35-38 | Only a SEQUENCE can be read; a success re-encodes to the input value; failures are IllegalArgument. |
| SubjectPublicKeyInfos.FromEncoded | src/main/java/org/bouncycastle/asn1/x509/SubjectPublicKeyInfo.java:35-38 | An empty array fails with NullPointer: the decoder gives null and the checked cast dereferences it. Octets that do not decode fail with IllegalArgument. A decoded value that is not a SEQUENCE fails with IllegalState, the checked cast's exception. A SEQUENCE the constructor cannot read fails with IllegalArgument. |
| SubjectPublicKeyInfos.GetInstance | src/main/java/org/bouncycastle/asn1/x509/SubjectPublicKeyInfo.java:28-41 | getInstance is the identity on a key info and gives null for null. A non-null input never gives null. A non-SEQUENCE value fails with IllegalArgument. |
| SubjectPublicKeyInfos.GetAlgorithmId | src/main/java/org/bouncycastle/asn1/x509/SubjectPublicKeyInfo.java:78-90 | getAlgorithmId() and getAlgorithm() always return the same identifier. |
| SubjectPublicKeyInfos.ParsePublicKey | src/main/java/org/bouncycastle/asn1/x509/SubjectPublicKeyInfo.java:111-125 | Pad bits give IllegalState. The result is null exactly for the flat reading of empty key octets. A flat success is a well-formed value that encodes to the key octets. A nested success is an OCTET STRING whose contents decode to the DER form of what the key octets decode to. A DER form too long for a Java array gives OutOfMemory. |
| SubjectPublicKeyInfos.ParsePublicKeyDefault | src/main/java/org/bouncycastle/asn1/x509/SubjectPublicKeyInfo.java:100-103 | parsePublicKey() equals getPublicKey(). |
| SubjectPublicKeyInfos.GetPublicKey | src/main/java/org/bouncycastle/asn1/x509/SubjectPublicKeyInfo.java:136-140 | getPublicKey() equals the flat reading of parsePublicKey. |
| SubjectPublicKeyInfos.SequenceRoundTrip | src/main/java/org/bouncycastle/asn1/x509/SubjectPublicKeyInfo.java:160-168 | toASN1Primitive gives a two-element SEQUENCE, and the sequence constructor reads it back to the same identifier and key bits. |
| SubjectPublicKeyInfos.EncodedRoundTrip | src/main/java/org/bouncycastle/asn1/x509/SubjectPublicKeyInfo.java:28-41 | Encoding a well-formed key info and reading it back with getInstance gives the same key info. |
| SubjectPublicKeyInfos.EmptyEncodingIsNull | src/main/java/org/bouncycastle/asn1/x509/SubjectPublicKeyInfo.java:35-37 | getInstance on an empty array, and the nested reading of empty key octets, fail with NullPointer. |
| SubjectPublicKeyInfos.EncodedCanonical | src/main/java/org/bouncycastle/asn1/x509/SubjectPublicKeyInfo.java:35-38 | Whatever getInstance reads from a byte array re-encodes to exactly that array. |
| SubjectPublicKeyInfos.FlatParseSpec | src/main/java/org/bouncycastle/asn1/x509/SubjectPublicKeyInfo.java:123-124 | The flat reading returns v exactly when the key octets are the encoding of the well-formed value v, and null exactly when they are empty. Its only failures are IllegalState and IOException. |
| SubjectPublicKeyInfos.FlatRoundTrip | src/main/java/org/bouncycastle/asn1/x509/SubjectPublicKeyInfo.java:43-50 | A key info built from a value reads back, flat, as the DER form of that value, which is the value itself when it is already in DER form. |
| SubjectPublicKeyInfos.NestedParseSpec | src/main/java/org/bouncycastle/asn1/x509/SubjectPublicKeyInfo.java:114-121 | The nested reading succeeds exactly when the key octets are the encoding of some well-formed key info whose DER output fits in a Java array. It then returns that key info's DER encoding as an OCTET STRING. |
| SubjectPublicKeyInfos.NestedKeepsDerOctets | src/main/java/org/bouncycastle/asn1/x509/SubjectPublicKeyInfo.java:114-121 | When the key octets already hold a key info in DER form, the nested reading returns exactly those octets as an OCTET STRING. |
| SubjectPublicKeyInfos.NestedReadsDer | src/main/java/org/bouncycastle/asn1/x509/SubjectPublicKeyInfo.java:114-121 | Key octets holding any encoding of a key info read back, nested, as the DER encoding of that key info, or fail with OutOfMemory when that encoding is too long for a Java array. |
| SubjectPublicKeyInfos.NestedClearsUnusedBits | src/main/java/org/bouncycastle/asn1/x509/SubjectPublicKeyInfo.java:114-121 | The key octets 30 09 30 03 06 01 2A 03 02 01 FF read back, nested, as 30 09 30 03 06 01 2A 03 02 01 FE: the set unused bit is cleared. |
| SubjectPublicKeyInfos.NestedRoundTrip | src/main/java/org/bouncycastle/asn1/x509/SubjectPublicKeyInfo.java:114-121 | A key info whose key octets were written from an inner key info reads back, nested, as the DER form taken twice, wrapped in an OCTET STRING, or fails with OutOfMemory when that is too long. For standard-form times that is the inner key info's DER encoding. |
| SubjectPublicKeyInfos.NestedSizeCheck | src/main/java/org/bouncycastle/asn1/x509/SubjectPublicKeyInfo.java:114-121 | Key octets that encode a SEQUENCE of any size but two make the nested reading fail with IllegalArgument, as the outer decoder does. |
| SubjectPublicKeyInfos.ReadingNotSelfDescribing | src/main/java/org/bouncycastle/asn1/x509/SubjectPublicKeyInfo.java:111-125 | A nested key also reads flat without error, as the inner SEQUENCE in DER form. The nested reading succeeds for standard-form times and can fail only with OutOfMemory. The two readings always differ. |
| AlgorithmIdentifiers.FromValue | src/main/java/org/bouncycastle/asn1/x509/SubjectPublicKeyInfo.java:74 | Only a SEQUENCE of one or two elements starting with an OID is read; a success re-encodes to the input; failures are IllegalArgument. |
| AlgorithmIdentifiers.ValueRoundTrip | src/main/java/org/bouncycastle/asn1/x509/SubjectPublicKeyInfo.java:164 | Writing an algorithm identifier into the SEQUENCE and reading it back gives the same identifier. |
| Asn1.FromByteArraySpec | src/main/java/org/bouncycastle/asn1/x509/SubjectPublicKeyInfo.java:124 | The decoder returns v exactly when the octets are the encoding of the well-formed value v, with nothing after it. Malformed primitive contents are refused, including UTCTime and GeneralizedTime without leading digits. |
| Asn1.DerRoundTrip | src/main/java/org/bouncycastle/asn1/x509/SubjectPublicKeyInfo.java:48 | Reading back the DER output of a value whose DER form fits in a Java array gives the value's DER form. |
| Asn1.ToDerIdempotent | src/main/java/org/bouncycastle/asn1/x509/SubjectPublicKeyInfo.java:120 | For values whose UTC GeneralizedTimes are in standard form, normalising to DER form twice is the same as once. |
| Asn1.ToDerShape | src/main/java/org/bouncycastle/asn1/x509/SubjectPublicKeyInfo.java:120 | The DER form keeps the tag, and it is well formed exactly when its contents fit the length limit. |
| Asn1.DerTimeKeepsYear | src/main/java/org/bouncycastle/asn1/x509/SubjectPublicKeyInfo.java:120 | Rewriting a GeneralizedTime keeps its four-digit year, so the result still passes the decoder's check. |
| Asn1.DerTimeIsDer | src/main/java/org/bouncycastle/asn1/x509/SubjectPublicKeyInfo.java:120 | A UTC GeneralizedTime in standard form is rewritten to DER form: seconds always present, and a fraction only when its last digit is not zero. |
| Asn1.DerTimeKeepsDer | src/main/java/org/bouncycastle/asn1/x509/SubjectPublicKeyInfo.java:120 | A GeneralizedTime already in DER form is written unchanged. |
| Asn1.DerTimeStable | src/main/java/org/bouncycastle/asn1/x509/SubjectPublicKeyInfo.java:120 | Rewriting a standard-form or non-UTC time twice is the same as once. |
| Asn1.DerTimeExamples | src/main/java/org/bouncycastle/asn1/x509/SubjectPublicKeyInfo.java:120 | 20230101120000.0Z is written as 20230101120000Z, 20230101120000.500Z as 20230101120000.5Z, and 2023010112Z as 20230101120000Z. |
| Asn1.DerTimeNotIdempotent | src/main/java/org/bouncycastle/asn1/x509/SubjectPublicKeyInfo.java:120 | The decodable time 2023Z is written as 20230000Z, and rewriting that again gives a different time. |
| Oids.ToStringInjective | src/main/java/org/bouncycastle/tls/injection/sigalgs/InjectedSigAlgorithms.java:76 | Two OIDs have the same dotted string exactly when they are equal, so the OID index never merges two algorithms. |

## Left out

- `configure` and `Registrar` (InjectedSigAlgorithms.java lines 148-194): they write into an external `java.security.Provider` and swallow its exceptions.
- The foreign registrations in `injectSigAndHashAlgorithm` (lines 77-79): the SPI factory, the signer and the verifier tables are not modelled, and `sig2spi` is not a parameter of `Inject`.
- Signing, verification and the adapters' key marshalling: they are the uninterpreted functions of `SigAlgApi`.
- `getInjectedSigAndHashAlgorithmsInfos`: it returns the list itself, the `injected` field of `Registry`.
- The process-wide static state and the synchronisation of `Vector`: the registry is a value passed in and returned.
- `HashMap` iteration order: the reverse-dispatch contracts say "some accepting adapter", never which one.
- Probing order: the reverse dispatch (lines 109-115, 124-130, 139-146) follows the code. It probes the values of the code-point index, not every record of the list in insertion order, so a record shadowed by a later one with the same code point is never probed (`ProbedRecords`).
- Re-injection: the code keeps the stale record in the list and the model does the same (`ReinjectionKeepsStaleRecord`). A registry that rejects or fully replaces a colliding record is not modelled.
- `InjectedSigAlgorithms.IsParameterSupported`, `InjectedSigAlgorithms.CreatePrivateKeyInfo`, `InjectedSigAlgorithms.CreateSubjectPublicKeyInfo`: the adapter is called only on handles, so an adapter throwing from `isSupportedParameter` is not modelled.
- `SubjectPublicKeyInfo.getInstance(ASN1TaggedObject, boolean)` (lines 21-26): tagging is not part of the ASN.1 model.
- `getPublicKeyData` (lines 147-150): it returns the `keyData` field of the datatype.
- `SubjectPublicKeyInfos.FromEncodable`: requires a well-formed value whose DER output fits in a Java array. A Java `ASN1Encodable` is always well formed. When the DER output is too long, BouncyCastle throws OutOfMemoryError, which the model does not follow.
- `SubjectPublicKeyInfos.FromEncoded`: BouncyCastle throws IllegalStateException while decoding a NULL that has contents. The model's decoder has no exceptions, so it refuses that input, and `FromEncoded` reports IllegalArgument.
- `SubjectPublicKeyInfos.ParsePublicKey`: no longer promises that the nested result is as long as the key octets, because rewriting a GeneralizedTime can change its length. `OutOfMemory` stands for the error Java raises when the output is longer than an array can hold.
- `Asn1.FromByteArray`: the decoder reads the DER subset the encoder writes. That is definite lengths in shortest form, at most four length octets, primitive tags in low-tag-number form, and SEQUENCE as the only constructed type. BER leniency (indefinite lengths, non-minimal lengths, constructed strings, SET, tagged objects, high tag numbers) is not modelled.
- `Asn1.FromByteArraySpec`: content checks cover BOOLEAN, INTEGER, ENUMERATED, RELATIVE-OID, BMPString, and the leading digits of UTCTime and GeneralizedTime. BouncyCastle's checks on the other string types are not modelled, so the model accepts some contents of those types that BouncyCastle refuses.
- `Asn1.ToDer`: DER normalisation covers the BIT STRING unused bits, the BOOLEAN TRUE octet and UTC GeneralizedTimes. A GeneralizedTime with a local time or an offset, and every UTCTime, is written as read, as BouncyCastle's `getDERTime` leaves them. SET ordering and constructed-string flattening are not needed, because the decoder does not read those forms.
- `Asn1.ToDerShape`: no longer promises that the DER form keeps the content length, because rewriting a GeneralizedTime changes it.
- `Asn1.ToDerIdempotent`: holds only when every UTC GeneralizedTime is in standard form. `getDERTime` is not idempotent on a shortened time such as 2023Z (`DerTimeNotIdempotent`).
- `ASN1Primitive`, `DERBitString`, `DEROctetString`, `AlgorithmIdentifier`, `ASN1ObjectIdentifier`, `SignatureAndHashAlgorithm` and `PrivateKeyInfo` are not part of this model as source. They appear only as the small datatypes and functions above, built to the behaviour the two modelled classes rely on.
- `PrivateKeyInfo` is reduced to its algorithm identifier, private key octets and optional attributes; its encoding is not modelled.
