/** The ASN.1 values the key-info codec handles, their encoding, and the
    decoder that turns an octet string back into exactly one value.

    `Encode` writes a value as it stands. BouncyCastle keeps a parsed value as
    it was read (a BIT STRING with non-zero unused bits, a BOOLEAN whose octet
    is neither 0x00 nor 0xFF, a GeneralizedTime with trailing fractional zeros)
    and normalises it only when it writes DER; `ToDer` is that normalisation
    and `DerEncode` the DER output.

    The decoder accepts definite lengths in their shortest form with at most
    four length octets and below 2^31; the universal types SEQUENCE, BIT
    STRING, OCTET STRING, NULL and OBJECT IDENTIFIER; the other universal
    primitive types BouncyCastle's input stream knows, with the content checks
    it makes for BOOLEAN, INTEGER, ENUMERATED, RELATIVE-OID, BMPString, UTCTime
    and GeneralizedTime; and
    primitive tags of the other classes with opaque contents. */
module Asn1 {
  import opened Results
  import opened Numeric
  import Oids

  /** The number of unused bits in the last octet of a BIT STRING. */
  type PadBits = n: int | 0 <= n < 8

  datatype BitString = BitString(padBits: PadBits, bytes: seq<byte>)

  datatype Value =
    | Sequence(items: seq<Value>)
    | Bits(bits: BitString)
    | OctetString(bytes: seq<byte>)
    | Null
    | ObjectId(oid: Oids.Oid)
    | Primitive(tag: byte, content: seq<byte>)   // BOOLEAN, INTEGER, strings, context tags, ...

  /** Contents must be shorter than this: a Java array cannot hold more, and the
      length decoder refuses lengths of more than 31 bits. */
  const MaxLength: nat := 0x8000_0000

  const SequenceTag: byte := 0x30
  const BitStringTag: byte := 0x03
  const OctetStringTag: byte := 0x04
  const NullTag: byte := 0x05
  const OidTag: byte := 0x06
  const BooleanTag: byte := 0x01
  const IntegerTag: byte := 0x02
  const EnumeratedTag: byte := 0x0A
  const RelativeOidTag: byte := 0x0D
  const BmpStringTag: byte := 0x1E
  const UtcTimeTag: byte := 0x17
  const GeneralizedTimeTag: byte := 0x18

  /** The universal primitive types, other than those modelled on their own,
      that BouncyCastle's input stream builds: BOOLEAN, INTEGER,
      ObjectDescriptor, ENUMERATED, UTF8String, RELATIVE-OID, the restricted
      character strings, UTCTime and GeneralizedTime. Any other universal tag
      number is refused as unknown. */
  const KnownUniversalTags: set<byte> :=
    {1, 2, 7, 10, 12, 13, 18, 19, 20, 21, 22, 23, 24, 25, 26, 27, 28, 30}

  /** The identifier octets a `Primitive` may carry: primitive, low-tag-number
      form, and either a known universal type or a tag of another class. */
  predicate OtherPrimitiveTag(t: byte) {
    && (t / 32) % 2 == 0
    && t % 32 != 31
    && (t < 64 ==> t in KnownUniversalTags)
  }

  /** INTEGER contents BouncyCastle refuses: empty, or nine leading bits all
      equal (a redundant sign octet). */
  predicate MalformedInteger(c: seq<byte>) {
    || c == []
    || (|c| > 1 && ((c[0] == 0 && c[1] < 128) || (c[0] == 0xFF && c[1] >= 128)))
  }

  /** An ASCII decimal digit. */
  predicate IsDigit(x: byte) {
    0x30 <= x <= 0x39
  }

  /** The checks on time contents: a UTCTime must start with two digits and a
      GeneralizedTime with four. */
  predicate TimeContentOk(t: byte, c: seq<byte>) {
    && (t == UtcTimeTag ==> |c| >= 2 && IsDigit(c[0]) && IsDigit(c[1]))
    && (t == GeneralizedTimeTag ==> |c| >= 4 && IsDigit(c[0]) && IsDigit(c[1]) && IsDigit(c[2]) && IsDigit(c[3]))
  }

  /** The content checks made when a primitive of tag `t` is built. */
  predicate PrimitiveContentOk(t: byte, c: seq<byte>) {
    && (t == BooleanTag ==> |c| == 1)
    && (t == IntegerTag ==> !MalformedInteger(c))
    && (t == EnumeratedTag ==> !MalformedInteger(c) && c[0] < 128)
    && (t == RelativeOidTag ==> c != [] && Oids.ParseSubIds(c).Some?)
    && (t == BmpStringTag ==> |c| % 2 == 0)
    && TimeContentOk(t, c)
  }

  // ---------------------------------------------------------------------------
  // Encoding
  // ---------------------------------------------------------------------------

  function Tag(v: Value): byte {
    match v
    case Sequence(_) => SequenceTag
    case Bits(_) => BitStringTag
    case OctetString(_) => OctetStringTag
    case Null => NullTag
    case ObjectId(_) => OidTag
    case Primitive(t, _) => t
  }

  /** The contents octets of `v` (section 8 of ITU-T X.690). */
  function Content(v: Value): seq<byte>
    decreases v, 0
  {
    match v
    case Sequence(items) => EncodeAll(items)
    case Bits(b) => [b.padBits] + b.bytes
    case OctetString(bs) => bs
    case Null => []
    case ObjectId(o) => if Oids.Valid(o) then Oids.EncodeContent(o) else []
    case Primitive(_, c) => c
  }

  /** Definite length octets in their shortest form. */
  function EncodeLength(n: nat): (bs: seq<byte>)
    requires n < MaxLength
  {
    if n < 128 then [n]
    else
      var ds := ToDigits(n, 256);
      Pow256Four();
      ToDigitsLength(n, 256, 4);
      [128 + |ds|] + ds
  }

  lemma Pow256Four()
    ensures Pow(256, 4) == 0x1_0000_0000
  {
    assert Pow(256, 2) == 0x1_0000;
  }

  /** Identifier, length and contents octets of the value as it stands. A value
      whose contents would not fit a Java array has no encoding and yields the
      empty string. */
  function Encode(v: Value): seq<byte>
    decreases v, 1
  {
    var c := Content(v);
    if |c| < MaxLength then [Tag(v)] + EncodeLength(|c|) + c else []
  }

  function EncodeAll(items: seq<Value>): seq<byte>
    decreases items
  {
    if items == [] then [] else Encode(items[0]) + EncodeAll(items[1..])
  }

  /** The values a Java ASN.1 object can stand for: contents within bounds at
      every level, a valid OID, no pad bits without data, a permitted tag. */
  predicate WF(v: Value) {
    && |Content(v)| < MaxLength
    && match v
      case Sequence(items) => forall i :: 0 <= i < |items| ==> WF(items[i])
      case Bits(b) => b.bytes == [] ==> b.padBits == 0
      case OctetString(_) => true
      case Null => true
      case ObjectId(o) => Oids.Valid(o)
      case Primitive(t, c) => OtherPrimitiveTag(t) && PrimitiveContentOk(t, c)
  }

  /** No content at any level too long for a Java array: what BouncyCastle
      needs to write a value out. */
  predicate Fits(v: Value) {
    && |Content(v)| < MaxLength
    && match v
      case Sequence(items) => forall i :: 0 <= i < |items| ==> Fits(items[i])
      case _ => true
  }

  lemma WFFits(v: Value)
    requires WF(v)
    ensures Fits(v)
  {
  }

  // ---------------------------------------------------------------------------
  // DER output
  // ---------------------------------------------------------------------------

  /** An octet with its low `k` bits cleared: `x & (0xFF << k)`. */
  function ClearLowBits(x: byte, k: PadBits): byte {
    ((x as bv8) & ((0xFF as bv8) << k)) as int
  }

  /** A BIT STRING with the unused bits of its last octet cleared (section
      11.2.1 of ITU-T X.690). */
  function DerBits(b: BitString): (d: BitString)
    ensures d.padBits == b.padBits && |d.bytes| == |b.bytes|
  {
    if b.bytes == [] then b
    else BitString(b.padBits, b.bytes[..|b.bytes| - 1] + [ClearLowBits(b.bytes[|b.bytes| - 1], b.padBits)])
  }

  const Zulu: byte := 0x5A        // 'Z'
  const Dot: byte := 0x2E         // '.'
  const Zero: byte := 0x30        // '0'

  /** Whether the GeneralizedTime contents `c` hold a digit at `pos`. */
  predicate DigitAt(c: seq<byte>, pos: nat) {
    |c| > pos && IsDigit(c[pos])
  }

  predicate HasMinutes(c: seq<byte>) {
    DigitAt(c, 10) && DigitAt(c, 11)
  }

  predicate HasSeconds(c: seq<byte>) {
    DigitAt(c, 12) && DigitAt(c, 13)
  }

  /** A '.' right after the seconds, at position 14. */
  predicate HasFraction(c: seq<byte>) {
    |c| > 14 && c[14] == Dot
  }

  /** Steps back from `i` over '0' octets, stopping at position 0. */
  function SkipZeros(c: seq<byte>, i: nat): (j: nat)
    requires i < |c|
    ensures j <= i && (j > 0 ==> c[j] != Zero)
    ensures forall k :: j < k <= i ==> c[k] == Zero
    decreases i
  {
    if i > 0 && c[i] == Zero then SkipZeros(c, i - 1) else i
  }

  /** The contents BouncyCastle's DER writer puts out for GeneralizedTime
      contents `c`. A time in UTC ('Z' last) gets missing minutes and seconds
      filled in as zeros and trailing fractional zeros dropped, with the '.'
      when no fraction is left. Any other time is written as it stands. */
  function DerTime(c: seq<byte>): (d: seq<byte>)
    ensures c == [] || c[|c| - 1] != Zulu ==> d == c
    ensures c != [] && c[|c| - 1] == Zulu ==> d != [] && d[|d| - 1] == Zulu
  {
    if c == [] || c[|c| - 1] != Zulu then c
    else if !HasMinutes(c) then c[..|c| - 1] + [Zero, Zero, Zero, Zero, Zulu]
    else if !HasSeconds(c) then c[..|c| - 1] + [Zero, Zero, Zulu]
    else if HasFraction(c) then
      var j := SkipZeros(c, |c| - 2);
      if c[j] == Dot then c[..j] + [Zulu] else c[..j + 1] + [Zulu]
    else c
  }

  /** The value BouncyCastle's DER output writes for `v`: unused BIT STRING bits
      cleared, a BOOLEAN TRUE written as 0xFF (section 11.1 of ITU-T X.690) and
      GeneralizedTime contents rewritten by `DerTime`, at every level. */
  function ToDer(v: Value): Value
    decreases v, 1
  {
    match v
    case Sequence(items) => Sequence(ToDerAll(items))
    case Bits(b) => Bits(DerBits(b))
    case Primitive(t, c) =>
      if t == BooleanTag && |c| == 1 && c[0] != 0 then Primitive(t, [0xFF])
      else if t == GeneralizedTimeTag then Primitive(t, DerTime(c))
      else v
    case _ => v
  }

  function ToDerAll(items: seq<Value>): (ds: seq<Value>)
    ensures |ds| == |items|
    ensures forall i :: 0 <= i < |items| ==> ds[i] == ToDer(items[i])
    decreases items, 0
  {
    if items == [] then []
    else
      var ds := [ToDer(items[0])] + ToDerAll(items[1..]);
      assert forall i :: 1 <= i < |items| ==> items[1..][i - 1] == items[i];
      ds
  }

  /** getEncoded(DER). */
  function DerEncode(v: Value): seq<byte> {
    Encode(ToDer(v))
  }

  // ---------------------------------------------------------------------------
  // Decoding
  // ---------------------------------------------------------------------------

  /** Reads definite length octets; refuses the indefinite form, more than four
      length octets, and lengths not in shortest form. */
  function ParseLength(b: seq<byte>): (r: Option<(nat, seq<byte>)>)
    ensures r.Some? ==> r.value.0 < MaxLength && |r.value.1| < |b|
  {
    if b == [] then None
    else if b[0] < 128 then Some((b[0], b[1..]))
    else
      var k := b[0] - 128;
      if k < 1 || k > 4 || |b| < 1 + k || b[1] == 0 then None
      else
        var n := FromDigits(b[1..1 + k], 256);
        if n < 128 || n >= MaxLength then None else Some((n, b[1 + k..]))
  }

  /** Decodes the contents octets of a value with identifier octet `tag`. */
  function ParseContents(tag: byte, c: seq<byte>): Option<Value>
    decreases |c|, 2
  {
    if tag == SequenceTag then
      match ParseItems(c)
      case None => None
      case Some(items) => Some(Sequence(items))
    else if tag == BitStringTag then
      if c != [] && c[0] < 8 && (|c| == 1 ==> c[0] == 0)
      then Some(Bits(BitString(c[0], c[1..])))
      else None
    else if tag == OctetStringTag then Some(OctetString(c))
    else if tag == NullTag then (if c == [] then Some(Null) else None)
    else if tag == OidTag then
      match Oids.ParseContent(c)
      case None => None
      case Some(o) => Some(ObjectId(o))
    else if OtherPrimitiveTag(tag) && PrimitiveContentOk(tag, c) then Some(Primitive(tag, c))
    else None
  }

  /** Decodes one value from the front of `b` and returns the octets after it. */
  function ParseOne(b: seq<byte>): (r: Option<(Value, seq<byte>)>)
    ensures r.Some? ==> |r.value.1| < |b|
    decreases |b|, 0
  {
    if b == [] then None
    else
      match ParseLength(b[1..])
      case None => None
      case Some((n, r)) =>
        if |r| < n then None
        else
          match ParseContents(b[0], r[..n])
          case None => None
          case Some(v) => Some((v, r[n..]))
  }

  /** Decodes the contents of a SEQUENCE: values back to back, to the end. */
  function ParseItems(c: seq<byte>): Option<seq<Value>>
    decreases |c|, 1
  {
    if c == [] then Some([])
    else
      match ParseOne(c)
      case None => None
      case Some((v, rest)) =>
        match ParseItems(rest)
        case None => None
        case Some(vs) => Some([v] + vs)
  }

  /** ASN1Primitive.fromByteArray: exactly one value, no trailing octets. */
  function FromByteArray(b: seq<byte>): Option<Value> {
    match ParseOne(b)
    case None => None
    case Some((v, rest)) => if rest == [] then Some(v) else None
  }

  // ---------------------------------------------------------------------------
  // Round trip and canonicity
  // ---------------------------------------------------------------------------

  lemma LengthRoundTrip(n: nat, rest: seq<byte>)
    requires n < MaxLength
    ensures ParseLength(EncodeLength(n) + rest) == Some((n, rest))
  {
    var b := EncodeLength(n) + rest;
    if n >= 128 {
      var ds := ToDigits(n, 256);
      Pow256Four();
      ToDigitsLength(n, 256, 4);
      assert 1 <= |ds| <= 4 && b[0] == 128 + |ds|;
      assert ds[0] != 0;
      assert b[1] == ds[0];
      assert b[1..1 + |ds|] == ds;
      assert b[1 + |ds|..] == rest;
      FromToDigits(n, 256);
    } else {
      assert b[1..] == rest;
    }
  }

  lemma LengthCanonical(b: seq<byte>)
    requires ParseLength(b).Some?
    ensures var (n, r) := ParseLength(b).value; b == EncodeLength(n) + r
  {
    var (n, r) := ParseLength(b).value;
    if b[0] >= 128 {
      var k := b[0] - 128;
      var ds: seq<nat> := b[1..1 + k];
      assert |ds| == k >= 1 && ds[0] == b[1] != 0;
      assert forall j :: 0 <= j < |ds| ==> ds[j] == b[1 + j] < 256;
      assert Canonical(ds, 256);
      ToFromDigits(ds, 256);
      assert b == [b[0]] + ds + r;
    } else {
      assert b == [b[0]] + r;
    }
  }

  lemma {:induction false} ContentsRoundTrip(v: Value)
    requires WF(v)
    ensures ParseContents(Tag(v), Content(v)) == Some(v)
    decreases v, 1
  {
    match v
    case Sequence(items) => ItemsRoundTrip(items);
    case Bits(b) => BitsRoundTrip(b);
    case OctetString(bs) => OctetsRoundTrip(bs);
    case Null => NullRoundTrip();
    case ObjectId(o) => Oids.ContentRoundTrip(o); OidRoundTrip(o);
    case Primitive(t, c) => PrimitiveRoundTrip(t, c);
  }

  lemma BitsRoundTrip(b: BitString)
    requires b.bytes == [] ==> b.padBits == 0
    ensures ParseContents(BitStringTag, [b.padBits] + b.bytes) == Some(Bits(b))
  {
    var c := [b.padBits] + b.bytes;
    assert c[0] == b.padBits && c[1..] == b.bytes;
  }

  lemma OctetsRoundTrip(bs: seq<byte>)
    ensures ParseContents(OctetStringTag, bs) == Some(OctetString(bs))
  {
  }

  lemma NullRoundTrip()
    ensures ParseContents(NullTag, []) == Some(Null)
  {
  }

  lemma OidRoundTrip(o: Oids.Oid)
    requires Oids.Valid(o) && Oids.ParseContent(Oids.EncodeContent(o)) == Some(o)
    ensures ParseContents(OidTag, Oids.EncodeContent(o)) == Some(ObjectId(o))
  {
  }

  lemma PrimitiveRoundTrip(t: byte, c: seq<byte>)
    requires OtherPrimitiveTag(t) && PrimitiveContentOk(t, c)
    ensures ParseContents(t, c) == Some(Primitive(t, c))
  {
  }

  lemma {:induction false} ItemsRoundTrip(items: seq<Value>)
    requires forall i :: 0 <= i < |items| ==> WF(items[i])
    ensures ParseItems(EncodeAll(items)) == Some(items)
    decreases items, 0
  {
    if items != [] {
      var tail := EncodeAll(items[1..]);
      EncodeNonEmpty(items[0]);
      OneRoundTrip(items[0], tail);
      ItemsRoundTrip(items[1..]);
      ParseItemsCons(Encode(items[0]) + tail, items[0], tail, items[1..]);
      assert items == [items[0]] + items[1..];
    }
  }

  lemma ParseItemsCons(c: seq<byte>, v: Value, rest: seq<byte>, vs: seq<Value>)
    requires c != [] && ParseOne(c) == Some((v, rest)) && ParseItems(rest) == Some(vs)
    ensures ParseItems(c) == Some([v] + vs)
  {
  }

  /** Decoding the encoding of a well-formed value gives the value back and
      leaves whatever followed it. */
  lemma {:induction false} OneRoundTrip(v: Value, rest: seq<byte>)
    requires WF(v)
    ensures ParseOne(Encode(v) + rest) == Some((v, rest))
    decreases v, 2
  {
    var c := Content(v);
    var b := Encode(v) + rest;
    assert b == [Tag(v)] + (EncodeLength(|c|) + (c + rest));
    assert b[0] == Tag(v);
    assert b[1..] == EncodeLength(|c|) + (c + rest);
    LengthRoundTrip(|c|, c + rest);
    assert (c + rest)[..|c|] == c;
    assert (c + rest)[|c|..] == rest;
    ContentsRoundTrip(v);
    ParseOneUnfold(b, |c|, c + rest, v);
  }

  lemma ParseOneUnfold(b: seq<byte>, n: nat, r: seq<byte>, v: Value)
    requires b != [] && ParseLength(b[1..]) == Some((n, r)) && n <= |r|
    requires ParseContents(b[0], r[..n]) == Some(v)
    ensures ParseOne(b) == Some((v, r[n..]))
  {
  }

  lemma {:induction false} ContentsCanonical(tag: byte, c: seq<byte>)
    requires ParseContents(tag, c).Some? && |c| < MaxLength
    ensures var v := ParseContents(tag, c).value; WF(v) && Tag(v) == tag && Content(v) == c
    decreases |c|, 2
  {
    if tag == SequenceTag {
      ItemsCanonical(c);
    } else if tag == BitStringTag {
      assert c == [c[0]] + c[1..];
    } else if tag == OidTag {
      Oids.ContentCanonical(c);
    }
  }

  lemma {:induction false} ItemsCanonical(c: seq<byte>)
    requires ParseItems(c).Some?
    ensures var items := ParseItems(c).value;
      (forall i :: 0 <= i < |items| ==> WF(items[i])) && EncodeAll(items) == c
    decreases |c|, 1
  {
    if c != [] {
      var (v, rest) := ParseOne(c).value;
      OneCanonical(c);
      ItemsCanonical(rest);
      var items := ParseItems(c).value;
      assert items[0] == v && items[1..] == ParseItems(rest).value;
    }
  }

  /** Whatever the decoder reads from the front of `b` is a well-formed value
      whose encoding is exactly the octets it consumed. */
  lemma {:induction false} OneCanonical(b: seq<byte>)
    requires ParseOne(b).Some?
    ensures var (v, rest) := ParseOne(b).value; WF(v) && b == Encode(v) + rest
    decreases |b|, 0
  {
    var (v, rest) := ParseOne(b).value;
    var n, r := ParseOneParts(b);
    LengthCanonical(b[1..]);
    ContentsCanonical(b[0], r[..n]);
    EncodeParts(v);
    Reassemble(b, n, r);
  }

  lemma EncodeParts(v: Value)
    requires |Content(v)| < MaxLength
    ensures Encode(v) == [Tag(v)] + EncodeLength(|Content(v)|) + Content(v)
  {
  }

  lemma Reassemble(b: seq<byte>, n: nat, r: seq<byte>)
    requires b != [] && n <= |r| && n < MaxLength && b[1..] == EncodeLength(n) + r
    ensures b == [b[0]] + EncodeLength(n) + r[..n] + r[n..]
  {
    assert r == r[..n] + r[n..];
    assert b == [b[0]] + b[1..];
  }

  /** The length and contents ParseOne read from the front of `b`. */
  lemma ParseOneParts(b: seq<byte>) returns (n: nat, r: seq<byte>)
    requires ParseOne(b).Some?
    ensures b != [] && ParseLength(b[1..]) == Some((n, r)) && n <= |r|
    ensures ParseContents(b[0], r[..n]) == Some(ParseOne(b).value.0)
    ensures ParseOne(b).value.1 == r[n..]
  {
    n, r := ParseLength(b[1..]).value.0, ParseLength(b[1..]).value.1;
  }

  /** fromByteArray succeeds exactly on the encodings of well-formed values,
      and then returns that value. */
  lemma FromByteArraySpec(b: seq<byte>, v: Value)
    ensures FromByteArray(b) == Some(v) <==> WF(v) && b == Encode(v)
  {
    if FromByteArray(b) == Some(v) {
      OneCanonical(b);
      assert b == Encode(v) + [];
    }
    if WF(v) && b == Encode(v) {
      OneRoundTrip(v, []);
      assert Encode(v) + [] == b;
    }
  }

  // ---------------------------------------------------------------------------
  // DER output: well-formedness, size and stability
  // ---------------------------------------------------------------------------

  lemma ClearLowBitsIdempotent(x: byte, k: PadBits)
    ensures ClearLowBits(ClearLowBits(x, k), k) == ClearLowBits(x, k)
  {
    var m := (0xFF as bv8) << k;
    var y := (x as bv8) & m;
    Bv8RoundTrip(y);
    MaskIdempotent(y, m);
  }

  lemma Bv8RoundTrip(y: bv8)
    ensures (y as int) as bv8 == y
  {
  }

  lemma MaskIdempotent(y: bv8, m: bv8)
    ensures (y & m) & m == y & m
  {
  }

  /** GeneralizedTime contents in the form YYYYMMDDHH[MM[SS[.f...]]]Z, all
      digits except the '.' and the 'Z'. */
  predicate StandardZTime(c: seq<byte>) {
    && |c| >= 11 && c[|c| - 1] == Zulu
    && (forall k :: 0 <= k < |c| - 1 && k != 14 ==> IsDigit(c[k]))
    && (|c| - 1 in {10, 12, 14} || (|c| - 1 >= 16 && c[14] == Dot))
  }

  /** The DER form of a GeneralizedTime (section 11.7 of ITU-T X.690):
      YYYYMMDDHHMMSS[.f...]Z with seconds present and a fraction, if any, not
      ending in 0. */
  predicate DerZTime(c: seq<byte>) {
    && |c| >= 15 && c[|c| - 1] == Zulu
    && (forall k :: 0 <= k < |c| - 1 && k != 14 ==> IsDigit(c[k]))
    && (|c| == 15 || (|c| >= 17 && c[14] == Dot && c[|c| - 2] != Zero))
  }

  /** The rewriting keeps the four leading year digits a GeneralizedTime must
      start with. */
  lemma DerTimeKeepsYear(c: seq<byte>)
    requires PrimitiveContentOk(GeneralizedTimeTag, c)
    ensures PrimitiveContentOk(GeneralizedTimeTag, DerTime(c))
    ensures DerTime(c)[..4] == c[..4]
  {
    if c[|c| - 1] == Zulu && HasMinutes(c) && HasSeconds(c) && HasFraction(c) {
      var j := SkipZeros(c, |c| - 2);
      assert c[14] == Dot;
      assert j >= 14;
    }
  }

  /** A time of the standard form comes out in DER form. */
  lemma DerTimeIsDer(c: seq<byte>)
    requires StandardZTime(c)
    ensures DerZTime(DerTime(c))
  {
    var n := |c|;
    if n - 1 >= 16 {
      assert HasMinutes(c) && HasSeconds(c) && HasFraction(c);
      var j := SkipZeros(c, n - 2);
      assert c[14] == Dot;
      assert j >= 14;
      var d := DerTime(c);
      if c[j] == Dot {
        assert j == 14;
        assert d == c[..14] + [Zulu];
      } else {
        assert d == c[..j + 1] + [Zulu];
        assert forall k :: 0 <= k < |d| - 1 ==> d[k] == c[k];
      }
    } else if n - 1 == 14 {
      assert !HasFraction(c);
    } else if n - 1 == 12 {
      assert HasMinutes(c) && !HasSeconds(c);
      var d := DerTime(c);
      assert forall k :: 0 <= k < 12 ==> d[k] == c[k];
    } else {
      assert !HasMinutes(c);
      var d := DerTime(c);
      assert forall k :: 0 <= k < 10 ==> d[k] == c[k];
    }
  }

  /** A time already in DER form is written unchanged. */
  lemma DerTimeKeepsDer(c: seq<byte>)
    requires DerZTime(c)
    ensures DerTime(c) == c
  {
    var n := |c|;
    assert HasMinutes(c) && HasSeconds(c);
    if n >= 17 {
      var j := SkipZeros(c, n - 2);
      assert j == n - 2;
      assert c[..j + 1] + [Zulu] == c;
    }
  }

  /** Rewriting a time of the standard form a second time changes nothing. */
  lemma DerTimeStable(c: seq<byte>)
    requires c == [] || c[|c| - 1] != Zulu || StandardZTime(c)
    ensures DerTime(DerTime(c)) == DerTime(c)
  {
    if c != [] && c[|c| - 1] == Zulu {
      DerTimeIsDer(c);
      DerTimeKeepsDer(DerTime(c));
    }
  }

  /** Examples: a zero fraction is dropped with its '.', trailing fractional
      zeros are dropped, and missing minutes and seconds are filled in. */
  lemma DerTimeExamples()
    // "20230101120000.0Z" -> "20230101120000Z"
    ensures DerTime([0x32, 0x30, 0x32, 0x33, 0x30, 0x31, 0x30, 0x31, 0x31, 0x32, 0x30, 0x30, 0x30, 0x30, 0x2E, 0x30, 0x5A])
         == [0x32, 0x30, 0x32, 0x33, 0x30, 0x31, 0x30, 0x31, 0x31, 0x32, 0x30, 0x30, 0x30, 0x30, 0x5A]
    // "20230101120000.500Z" -> "20230101120000.5Z"
    ensures DerTime([0x32, 0x30, 0x32, 0x33, 0x30, 0x31, 0x30, 0x31, 0x31, 0x32, 0x30, 0x30, 0x30, 0x30, 0x2E, 0x35, 0x30, 0x30, 0x5A])
         == [0x32, 0x30, 0x32, 0x33, 0x30, 0x31, 0x30, 0x31, 0x31, 0x32, 0x30, 0x30, 0x30, 0x30, 0x2E, 0x35, 0x5A]
    // "2023010112Z" -> "20230101120000Z"
    ensures DerTime([0x32, 0x30, 0x32, 0x33, 0x30, 0x31, 0x30, 0x31, 0x31, 0x32, 0x5A])
         == [0x32, 0x30, 0x32, 0x33, 0x30, 0x31, 0x30, 0x31, 0x31, 0x32, 0x30, 0x30, 0x30, 0x30, 0x5A]
  {
    var a: seq<byte> := [0x32, 0x30, 0x32, 0x33, 0x30, 0x31, 0x30, 0x31, 0x31, 0x32, 0x30, 0x30, 0x30, 0x30, 0x2E, 0x30, 0x5A];
    assert SkipZeros(a, 15) == 14;
    var b: seq<byte> := [0x32, 0x30, 0x32, 0x33, 0x30, 0x31, 0x30, 0x31, 0x31, 0x32, 0x30, 0x30, 0x30, 0x30, 0x2E, 0x35, 0x30, 0x30, 0x5A];
    assert SkipZeros(b, 17) == 15;
  }

  /** The rewriting is not idempotent on every time the decoder accepts:
      "2023Z" is written as "20230000Z", which is written as "202300000000Z". */
  lemma DerTimeNotIdempotent()
    ensures PrimitiveContentOk(GeneralizedTimeTag, [0x32, 0x30, 0x32, 0x33, 0x5A])
    ensures DerTime([0x32, 0x30, 0x32, 0x33, 0x5A]) == [0x32, 0x30, 0x32, 0x33, 0x30, 0x30, 0x30, 0x30, 0x5A]
    ensures DerTime(DerTime([0x32, 0x30, 0x32, 0x33, 0x5A]))
         == [0x32, 0x30, 0x32, 0x33, 0x30, 0x30, 0x30, 0x30, 0x30, 0x30, 0x30, 0x30, 0x5A]
  {
    assert !HasMinutes([0x32, 0x30, 0x32, 0x33, 0x30, 0x30, 0x30, 0x30, 0x5A]);
  }

  /** DER normalisation keeps the tag, and keeps a well-formed value well formed
      unless some content grows past what a Java array holds. */
  lemma {:induction false} ToDerShape(v: Value)
    requires WF(v)
    ensures Tag(ToDer(v)) == Tag(v)
    ensures WF(ToDer(v)) <==> Fits(ToDer(v))
    decreases v, 1
  {
    match v
    case Sequence(items) =>
      ToDerAllShape(items);
      assert forall i :: 0 <= i < |items| ==> WF(items[i]);
    case Primitive(t, c) =>
      if t == GeneralizedTimeTag {
        DerTimeKeepsYear(c);
      }
    case _ =>
  }

  lemma {:induction false} ToDerAllShape(items: seq<Value>)
    requires forall i :: 0 <= i < |items| ==> WF(items[i])
    ensures forall i :: 0 <= i < |items| ==> (WF(ToDerAll(items)[i]) <==> Fits(ToDerAll(items)[i]))
    decreases items, 0
  {
    forall i | 0 <= i < |items|
      ensures WF(ToDerAll(items)[i]) <==> Fits(ToDerAll(items)[i])
    {
      ToDerShape(items[i]);
    }
  }

  /** Every GeneralizedTime in `v` that ends in 'Z' has the standard form. */
  predicate StandardTimes(v: Value) {
    match v
    case Sequence(items) => forall i :: 0 <= i < |items| ==> StandardTimes(items[i])
    case Primitive(t, c) => t == GeneralizedTimeTag && c != [] && c[|c| - 1] == Zulu ==> StandardZTime(c)
    case _ => true
  }

  /** Writing DER twice changes nothing more when the times are of the standard
      form: the DER form of a DER form is itself. */
  lemma {:induction false} ToDerIdempotent(v: Value)
    requires StandardTimes(v)
    ensures ToDer(ToDer(v)) == ToDer(v)
    decreases v, 1
  {
    match v
    case Sequence(items) => ToDerAllIdempotent(items);
    case Bits(b) =>
      if b.bytes != [] {
        var n := |b.bytes|;
        var d := DerBits(b);
        ClearLowBitsIdempotent(b.bytes[n - 1], b.padBits);
        assert d.bytes[..n - 1] == b.bytes[..n - 1];
        assert DerBits(d).bytes == d.bytes;
      }
    case Primitive(t, c) =>
      if t == GeneralizedTimeTag {
        DerTimeStable(c);
      }
    case _ =>
  }

  lemma {:induction false} ToDerAllIdempotent(items: seq<Value>)
    requires forall i :: 0 <= i < |items| ==> StandardTimes(items[i])
    ensures ToDerAll(ToDerAll(items)) == ToDerAll(items)
    decreases items, 0
  {
    forall i | 0 <= i < |items|
      ensures ToDer(ToDer(items[i])) == ToDer(items[i])
    {
      ToDerIdempotent(items[i]);
    }
  }

  /** Reading DER output back gives the DER form of the value written. */
  lemma DerRoundTrip(v: Value)
    requires WF(v) && Fits(ToDer(v))
    ensures FromByteArray(DerEncode(v)) == Some(ToDer(v))
  {
    ToDerShape(v);
    FromByteArraySpec(DerEncode(v), ToDer(v));
  }

  /** Well-formed values have non-empty encodings. */
  lemma EncodeNonEmpty(v: Value)
    requires WF(v)
    ensures |Encode(v)| >= 2
  {
    var c := Content(v);
    assert Encode(v) == [Tag(v)] + EncodeLength(|c|) + c;
  }
}
