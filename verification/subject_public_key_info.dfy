/** The X.509 SubjectPublicKeyInfo (section 4.1.2.7 of RFC 5280):
      SubjectPublicKeyInfo ::= SEQUENCE { algorithm AlgorithmIdentifier,
                                          subjectPublicKey BIT STRING }
    with the two readings of the key bits: flat (the octets are one encoded
    value) and nested (the octets are another SubjectPublicKeyInfo). */
module SubjectPublicKeyInfos {
  import opened Results
  import opened Numeric
  import opened Asn1
  import opened AlgorithmIdentifiers

  datatype SubjectPublicKeyInfo = SubjectPublicKeyInfo(algId: AlgorithmIdentifier, keyData: BitString)

  /** What SubjectPublicKeyInfo.getInstance(Object) can be handed. */
  datatype Source =
    | Instance(info: SubjectPublicKeyInfo)
    | NullRef
    | Encodable(value: Value)
    | ByteArray(bytes: seq<byte>)

  // ---------------------------------------------------------------------------
  // Construction
  // ---------------------------------------------------------------------------

  /** The (AlgorithmIdentifier, byte[]) constructor: the octets become a BIT
      STRING without pad bits. */
  function FromOctets(algId: AlgorithmIdentifier, publicKey: seq<byte>): (s: SubjectPublicKeyInfo)
    ensures GetAlgorithm(s) == algId
    ensures Octets(s) == Ok(publicKey)
  {
    SubjectPublicKeyInfo(algId, BitString(0, publicKey))
  }

  /** The (AlgorithmIdentifier, ASN1Encodable) constructor: the key bits are the
      DER encoding of the value, which reads back as the value's DER form. */
  function FromEncodable(algId: AlgorithmIdentifier, publicKey: Value): (s: SubjectPublicKeyInfo)
    requires Asn1.WF(publicKey) && Fits(ToDer(publicKey))
    ensures GetAlgorithm(s) == algId
    ensures Octets(s).Ok?
    ensures FromByteArray(s.keyData.bytes) == Some(ToDer(publicKey))
  {
    DerRoundTrip(publicKey);
    FromOctets(algId, DerEncode(publicKey))
  }

  /** The ASN1Sequence constructor: exactly two elements, an AlgorithmIdentifier
      and a BIT STRING; everything else is an IllegalArgumentException. */
  function FromSequence(items: seq<Value>): (r: Result<SubjectPublicKeyInfo>)
    ensures |items| != 2 ==> r == Err(IllegalArgument)
    ensures r.Err? ==> r.error == IllegalArgument
    ensures r.Ok? ==> ToAsn1Primitive(r.value) == Sequence(items)
  {
    if |items| != 2 then Err(IllegalArgument)
    else
      match AlgorithmIdentifiers.FromValue(items[0])
      case Err(e) => Err(e)
      case Ok(algId) =>
        match items[1]
        case Bits(b) =>
          assert items == [items[0], items[1]];
          Ok(SubjectPublicKeyInfo(algId, b))
        case _ => Err(IllegalArgument)
  }

  /** getInstance on a non-null ASN.1 value: it must be a SEQUENCE. */
  function FromAsn1(v: Value): (r: Result<SubjectPublicKeyInfo>)
    ensures r.Err? ==> r.error == IllegalArgument
    ensures r.Ok? ==> ToAsn1Primitive(r.value) == v
  {
    match v
    case Sequence(items) => FromSequence(items)
    case _ => Err(IllegalArgument)
  }

  /** getInstance on a byte array, through ASN1Sequence.getInstance(byte[]).
      The decoded value is cast to a SEQUENCE with a check that reports any
      other type as an IllegalStateException by its class name, so null, from
      an empty array, gives a NullPointerException. A decoding failure
      surfaces as an IllegalArgumentException, and a SEQUENCE is read as
      above. */
  function FromEncoded(b: seq<byte>): (r: Result<SubjectPublicKeyInfo>)
    ensures b == [] ==> r == Err(NullPointer)
    ensures b != [] && FromByteArray(b).None? ==> r == Err(IllegalArgument)
    ensures FromByteArray(b).Some? && !FromByteArray(b).value.Sequence? ==> r == Err(IllegalState)
    ensures FromByteArray(b).Some? && FromByteArray(b).value.Sequence? && r.Err? ==> r.error == IllegalArgument
  {
    if b == [] then Err(NullPointer)
    else
      match FromByteArray(b)
      case None => Err(IllegalArgument)
      case Some(v) => if v.Sequence? then FromAsn1(v) else Err(IllegalState)
  }

  /** SubjectPublicKeyInfo.getInstance(Object). */
  function GetInstance(o: Source): (r: Result<Option<SubjectPublicKeyInfo>>)
    ensures o.Instance? ==> r == Ok(Some(o.info))
    ensures o.NullRef? ==> r == Ok(None)
    ensures !o.NullRef? && r.Ok? ==> r.value.Some?
    ensures o.Encodable? && !o.value.Sequence? ==> r == Err(IllegalArgument)
  {
    match o
    case Instance(s) => Ok(Some(s))
    case NullRef => Ok(None)
    case Encodable(v) =>
      (match FromAsn1(v)
       case Err(e) => Err(e)
       case Ok(s) => Ok(Some(s)))
    case ByteArray(b) =>
      match FromEncoded(b)
      case Err(e) => Err(e)
      case Ok(s) => Ok(Some(s))
  }

  // ---------------------------------------------------------------------------
  // Accessors
  // ---------------------------------------------------------------------------

  function GetAlgorithm(s: SubjectPublicKeyInfo): AlgorithmIdentifier {
    s.algId
  }

  /** The deprecated accessor; always the same as GetAlgorithm. */
  function GetAlgorithmId(s: SubjectPublicKeyInfo): (a: AlgorithmIdentifier)
    ensures a == GetAlgorithm(s)
  {
    s.algId
  }

  /** The key bits as octets; an IllegalStateException when the BIT STRING is
      not octet aligned. */
  function Octets(s: SubjectPublicKeyInfo): (r: Result<seq<byte>>)
    ensures r.Ok? <==> s.keyData.padBits == 0
    ensures r.Ok? ==> r.value == s.keyData.bytes
    ensures r.Err? ==> r.error == IllegalState
  {
    if s.keyData.padBits != 0 then Err(IllegalState) else Ok(s.keyData.bytes)
  }

  /** toASN1Primitive: the two-element SEQUENCE the structure is written as. */
  function ToAsn1Primitive(s: SubjectPublicKeyInfo): Value {
    Sequence([AlgorithmIdentifiers.ToValue(s.algId), Bits(s.keyData)])
  }

  /** The key infos a Java SubjectPublicKeyInfo can stand for. */
  predicate WF(s: SubjectPublicKeyInfo) {
    Asn1.WF(ToAsn1Primitive(s))
  }

  // ---------------------------------------------------------------------------
  // Reading the key bits
  // ---------------------------------------------------------------------------

  /** parsePublicKey(isPQC); `None` is Java's null.

      Flat: fromByteArray on the key octets, which gives null for no octets and
      an IOException unless the octets are exactly one value.

      Nested: the octets are read by getInstance as a SubjectPublicKeyInfo,
      whose DER encoding is wrapped as an OCTET STRING. The DER encoding
      decodes to the DER form of what the key octets encode; rewriting times
      can make it longer, and one too long for a Java array is an
      OutOfMemoryError. */
  function ParsePublicKey(s: SubjectPublicKeyInfo, isPQC: bool): (r: Result<Option<Value>>)
    ensures s.keyData.padBits != 0 ==> r == Err(IllegalState)
    ensures r == Ok(None) <==> !isPQC && Octets(s) == Ok([])
    ensures !isPQC && r.Ok? && r.value.Some? ==>
      Asn1.WF(r.value.value) && Encode(r.value.value) == s.keyData.bytes
    ensures isPQC && r.Ok? ==>
      && r.value.Some? && r.value.value.OctetString?
      && FromByteArray(s.keyData.bytes).Some?
      && FromByteArray(r.value.value.bytes) == Some(ToDer(FromByteArray(s.keyData.bytes).value))
  {
    match Octets(s)
    case Err(e) => Err(e)
    case Ok(o) =>
      if isPQC then
        match FromEncoded(o)
        case Err(e) => Err(e)
        case Ok(inner) =>
          var x := ToAsn1Primitive(inner);
          if !Fits(ToDer(x)) then Err(OutOfMemory)
          else
            EncodedCanonical(o);
            DerRoundTrip(x);
            Ok(Some(OctetString(DerEncode(x))))
      else if o == [] then Ok(None)
      else
        FlatDecodeCanonical(o);
        match FromByteArray(o)
        case None => Err(IOException)
        case Some(v) => Ok(Some(v))
  }

  /** parsePublicKey(): the flat reading, as getPublicKey computes it. */
  function ParsePublicKeyDefault(s: SubjectPublicKeyInfo): (r: Result<Option<Value>>)
    ensures r == GetPublicKey(s)
  {
    ParsePublicKey(s, false)
  }

  /** getPublicKey(): decodes the key octets directly; agrees with the flat
      reading of parsePublicKey. */
  function GetPublicKey(s: SubjectPublicKeyInfo): (r: Result<Option<Value>>)
    ensures r == ParsePublicKey(s, false)
  {
    match Octets(s)
    case Err(e) => Err(e)
    case Ok(o) =>
      if o == [] then Ok(None)
      else
        match FromByteArray(o)
        case None => Err(IOException)
        case Some(v) => Ok(Some(v))
  }

  // ---------------------------------------------------------------------------
  // Properties
  // ---------------------------------------------------------------------------

  lemma FlatDecodeCanonical(b: seq<byte>)
    ensures FromByteArray(b).Some? ==> Asn1.WF(FromByteArray(b).value) && Encode(FromByteArray(b).value) == b
  {
    if FromByteArray(b).Some? {
      FromByteArraySpec(b, FromByteArray(b).value);
    }
  }

  /** What getInstance reads from a byte array is a well-formed key info that
      re-encodes to that array. */
  lemma EncodedCanonical(b: seq<byte>)
    requires FromEncoded(b).Ok?
    ensures var s := FromEncoded(b).value;
      && FromByteArray(b) == Some(ToAsn1Primitive(s))
      && WF(s) && Encode(ToAsn1Primitive(s)) == b
  {
    FlatDecodeCanonical(b);
  }

  /** toASN1Primitive followed by the sequence constructor is the identity. */
  lemma SequenceRoundTrip(s: SubjectPublicKeyInfo)
    ensures ToAsn1Primitive(s).Sequence? && |ToAsn1Primitive(s).items| == 2
    ensures FromSequence(ToAsn1Primitive(s).items) == Ok(s)
  {
    AlgorithmIdentifiers.ValueRoundTrip(s.algId);
  }

  /** Encoding a key info and reading it back with getInstance gives the same
      key info. */
  lemma EncodedRoundTrip(s: SubjectPublicKeyInfo)
    requires WF(s)
    ensures GetInstance(ByteArray(Encode(ToAsn1Primitive(s)))) == Ok(Some(s))
  {
    FromByteArraySpec(Encode(ToAsn1Primitive(s)), ToAsn1Primitive(s));
    EncodeNonEmpty(ToAsn1Primitive(s));
    SequenceRoundTrip(s);
  }

  /** getInstance on an empty array, and the nested reading of a key with no
      octets, fail with a NullPointerException. */
  lemma EmptyEncodingIsNull(algId: AlgorithmIdentifier)
    ensures GetInstance(ByteArray([])) == Err(NullPointer)
    ensures ParsePublicKey(FromOctets(algId, []), true) == Err(NullPointer)
  {
  }

  /** The flat reading gives null exactly for no key octets, returns v exactly
      when the key octets are the encoding of the well-formed value v, and
      otherwise fails with IllegalState (pad bits) or IOException. */
  lemma FlatParseSpec(s: SubjectPublicKeyInfo, v: Value)
    ensures ParsePublicKey(s, false) == Ok(Some(v)) <==> Octets(s) == Ok(Encode(v)) && Asn1.WF(v)
    ensures ParsePublicKey(s, false) == Ok(None) <==> Octets(s) == Ok([])
    ensures ParsePublicKey(s, false).Err? ==> ParsePublicKey(s, false).error in {IllegalState, IOException}
  {
    if Octets(s).Ok? {
      FromByteArraySpec(s.keyData.bytes, v);
      if Asn1.WF(v) { EncodeNonEmpty(v); }
    }
  }

  /** A key built from a value reads back, flat, as the value's DER form; a
      value already in DER form reads back as itself. */
  lemma FlatRoundTrip(algId: AlgorithmIdentifier, v: Value)
    requires Asn1.WF(v) && Fits(ToDer(v))
    ensures ParsePublicKey(FromEncodable(algId, v), false) == Ok(Some(ToDer(v)))
    ensures ToDer(v) == v ==> ParsePublicKey(FromEncodable(algId, v), false) == Ok(Some(v))
  {
    var s := FromEncodable(algId, v);
    ToDerShape(v);
    EncodeNonEmpty(ToDer(v));
    FlatParseSpec(s, ToDer(v));
  }

  /** The nested reading succeeds exactly when the key octets are the encoding
      of some well-formed key info whose DER form fits a Java array, and then
      returns that key info's DER encoding as an OCTET STRING. */
  lemma NestedParseSpec(s: SubjectPublicKeyInfo)
    ensures ParsePublicKey(s, true).Ok? <==>
      Octets(s).Ok? && exists inner :: (WF(inner) && Encode(ToAsn1Primitive(inner)) == s.keyData.bytes
                                        && Fits(ToDer(ToAsn1Primitive(inner))))
    ensures ParsePublicKey(s, true).Ok? ==>
      exists inner :: WF(inner) && Encode(ToAsn1Primitive(inner)) == s.keyData.bytes
        && ParsePublicKey(s, true) == Ok(Some(OctetString(DerEncode(ToAsn1Primitive(inner)))))
  {
    if ParsePublicKey(s, true).Ok? {
      var inner := FromEncoded(s.keyData.bytes).value;
      EncodedCanonical(s.keyData.bytes);
      assert WF(inner) && Encode(ToAsn1Primitive(inner)) == s.keyData.bytes;
    }
    if Octets(s).Ok? && exists inner :: (WF(inner) && Encode(ToAsn1Primitive(inner)) == s.keyData.bytes
                                         && Fits(ToDer(ToAsn1Primitive(inner)))) {
      var inner :| WF(inner) && Encode(ToAsn1Primitive(inner)) == s.keyData.bytes
        && Fits(ToDer(ToAsn1Primitive(inner)));
      EncodedRoundTrip(inner);
    }
  }

  /** When the key octets are already DER, the nested reading returns exactly
      those octets as an OCTET STRING. */
  lemma NestedKeepsDerOctets(s: SubjectPublicKeyInfo)
    requires ParsePublicKey(s, true).Ok?
    requires ToDer(FromByteArray(s.keyData.bytes).value) == FromByteArray(s.keyData.bytes).value
    ensures ParsePublicKey(s, true) == Ok(Some(OctetString(s.keyData.bytes)))
  {
    EncodedCanonical(s.keyData.bytes);
  }

  /** An algorithm identifier with its parameters in DER form. */
  function DerAlgorithmId(a: AlgorithmIdentifier): AlgorithmIdentifier {
    match a.parameters
    case None => a
    case Some(p) => AlgorithmIdentifier(a.algorithm, Some(ToDer(p)))
  }

  lemma DerAlgorithmIdValue(a: AlgorithmIdentifier)
    ensures ToValue(DerAlgorithmId(a)) == ToDer(ToValue(a))
  {
    match a.parameters
    case None =>
      assert ToDerAll([ObjectId(a.algorithm)]) == [ObjectId(a.algorithm)];
    case Some(p) =>
      assert ToDerAll([ObjectId(a.algorithm), p]) == [ObjectId(a.algorithm), ToDer(p)];
  }

  /** The DER form of a key info: its algorithm parameters and key bits in DER form. */
  function DerInfo(s: SubjectPublicKeyInfo): (d: SubjectPublicKeyInfo)
    ensures ToAsn1Primitive(d) == ToDer(ToAsn1Primitive(s))
  {
    DerAlgorithmIdValue(s.algId);
    var d := SubjectPublicKeyInfo(DerAlgorithmId(s.algId), DerBits(s.keyData));
    assert ToDerAll([ToValue(s.algId), Bits(s.keyData)]) == [ToValue(d.algId), Bits(d.keyData)];
    d
  }

  /** A key whose octets are another key info's DER encoding reads back, nested,
      as that same DER encoding wrapped in an OCTET STRING. */
  lemma NestedRoundTrip(algId: AlgorithmIdentifier, inner: SubjectPublicKeyInfo)
    requires WF(inner) && Fits(ToDer(ToAsn1Primitive(inner)))
    ensures var x := ToAsn1Primitive(inner);
      ParsePublicKey(FromEncodable(algId, x), true)
      == if Fits(ToDer(ToDer(x))) then Ok(Some(OctetString(DerEncode(ToDer(x))))) else Err(OutOfMemory)
    ensures StandardTimes(ToAsn1Primitive(inner)) ==>
      ParsePublicKey(FromEncodable(algId, ToAsn1Primitive(inner)), true)
      == Ok(Some(OctetString(DerEncode(ToAsn1Primitive(inner)))))
  {
    var x := ToAsn1Primitive(inner);
    var d := DerInfo(inner);
    ToDerShape(x);
    assert FromEncodable(algId, x) == FromOctets(algId, Encode(ToAsn1Primitive(d)));
    NestedReadsDer(algId, d);
    assert ToAsn1Primitive(DerInfo(d)) == ToDer(ToDer(x));
    if StandardTimes(x) {
      ToDerIdempotent(x);
    }
  }

  /** Key octets holding any encoding of a key info read back, nested, as the
      DER encoding of that key info: unused bits of its BIT STRING come back
      cleared and a BOOLEAN TRUE in its parameters as FF. */
  lemma NestedReadsDer(algId: AlgorithmIdentifier, inner: SubjectPublicKeyInfo)
    requires WF(inner)
    ensures ParsePublicKey(FromOctets(algId, Encode(ToAsn1Primitive(inner))), true)
         == if Fits(ToAsn1Primitive(DerInfo(inner)))
            then Ok(Some(OctetString(Encode(ToAsn1Primitive(DerInfo(inner))))))
            else Err(OutOfMemory)
  {
    EncodedRoundTrip(inner);
    EncodeNonEmpty(ToAsn1Primitive(inner));
  }

  /** The key info of the example below: algorithm 1.2 without parameters, and
      one byte of key bits whose one unused bit is set or clear. */
  function ExampleInfo(last: byte): SubjectPublicKeyInfo {
    SubjectPublicKeyInfo(AlgorithmIdentifier(Oids.Oid([1, 2]), None), BitString(1, [last]))
  }

  lemma ExampleEncoding(last: byte)
    ensures WF(ExampleInfo(last))
    ensures Encode(ToAsn1Primitive(ExampleInfo(last)))
         == [0x30, 0x09, 0x30, 0x03, 0x06, 0x01, 0x2A, 0x03, 0x02, 0x01, last]
  {
    var alg := ObjectId(Oids.Oid([1, 2]));
    var bits := Bits(BitString(1, [last]));
    assert Oids.EncodeContent(Oids.Oid([1, 2])) == [0x2A];
    assert Encode(alg) == [0x06, 0x01, 0x2A];
    assert [alg][1..] == [];
    assert EncodeAll([alg]) == [0x06, 0x01, 0x2A];
    assert Encode(Sequence([alg])) == [0x30, 0x03, 0x06, 0x01, 0x2A];
    assert Encode(bits) == [0x03, 0x02, 0x01, last];
    assert [Sequence([alg]), bits][1..] == [bits];
    assert [bits][1..] == [];
    assert EncodeAll([Sequence([alg]), bits]) == [0x30, 0x03, 0x06, 0x01, 0x2A, 0x03, 0x02, 0x01, last];
  }

  /** An example of the re-encoding: the key octets 30 09 30 03 06 01 2A 03 02
      01 FF hold a key info whose BIT STRING has one unused bit set; read
      nested, they come back with that bit cleared, ending in 03 02 01 FE. */
  lemma NestedClearsUnusedBits(algId: AlgorithmIdentifier)
    ensures ParsePublicKey(FromOctets(algId, [0x30, 0x09, 0x30, 0x03, 0x06, 0x01, 0x2A, 0x03, 0x02, 0x01, 0xFF]), true)
         == Ok(Some(OctetString([0x30, 0x09, 0x30, 0x03, 0x06, 0x01, 0x2A, 0x03, 0x02, 0x01, 0xFE])))
  {
    ExampleEncoding(0xFF);
    ExampleEncoding(0xFE);
    assert ClearLowBits(0xFF, 1) == 0xFE;
    assert DerInfo(ExampleInfo(0xFF)) == ExampleInfo(0xFE);
    WFFits(ToAsn1Primitive(ExampleInfo(0xFE)));
    NestedReadsDer(algId, ExampleInfo(0xFF));
  }

  /** The nested reading fails like the sequence constructor: key octets that
      encode a SEQUENCE of any size but two give an IllegalArgumentException. */
  lemma NestedSizeCheck(algId: AlgorithmIdentifier, items: seq<Value>)
    requires Asn1.WF(Sequence(items)) && Fits(ToDer(Sequence(items))) && |items| != 2
    ensures ParsePublicKey(FromEncodable(algId, Sequence(items)), true) == Err(IllegalArgument)
  {
    ToDerShape(Sequence(items));
    EncodeNonEmpty(ToDer(Sequence(items)));
  }

  /** The encoding does not say which reading is meant: a nested key also reads
      flat without error, as the inner key info's SEQUENCE rather than an OCTET
      STRING; read nested, it succeeds whenever its times have the standard
      form. */
  lemma ReadingNotSelfDescribing(algId: AlgorithmIdentifier, inner: SubjectPublicKeyInfo)
    requires WF(inner) && Fits(ToDer(ToAsn1Primitive(inner)))
    ensures var outer := FromEncodable(algId, ToAsn1Primitive(inner));
      && ParsePublicKey(outer, false) == Ok(Some(ToDer(ToAsn1Primitive(inner))))
      && (StandardTimes(ToAsn1Primitive(inner)) ==> ParsePublicKey(outer, true).Ok?)
      && (ParsePublicKey(outer, true).Err? ==> ParsePublicKey(outer, true).error == OutOfMemory)
      && ParsePublicKey(outer, false) != ParsePublicKey(outer, true)
  {
    FlatRoundTrip(algId, ToAsn1Primitive(inner));
    NestedRoundTrip(algId, inner);
  }
}
