/** ASN.1 OBJECT IDENTIFIERs: the dotted-decimal string the registry keys on,
    and the content octets of section 8.19 of ITU-T X.690. */
module Oids {
  import opened Results
  import opened Numeric

  /** An object identifier as its sequence of arcs, e.g. [1, 2, 840]. */
  datatype Oid = Oid(arcs: seq<nat>)

  /** The identifiers an ASN1ObjectIdentifier can hold: at least two arcs, the
      first 0, 1 or 2, and the second below 40 under the arcs 0 and 1. */
  predicate Valid(o: Oid) {
    && |o.arcs| >= 2
    && o.arcs[0] <= 2
    && (o.arcs[0] < 2 ==> o.arcs[1] < 40)
  }

  // ---------------------------------------------------------------------------
  // Dotted-decimal form (ASN1ObjectIdentifier.toString)
  // ---------------------------------------------------------------------------

  function DigitChar(d: nat): char
    requires d < 10
  {
    (48 + d) as char
  }

  /** The decimal numeral of `n`, without leading zeros. */
  function Decimal(n: nat): (s: string)
    ensures |s| >= 1
    ensures forall i :: 0 <= i < |s| ==> '0' <= s[i] <= '9'
  {
    if n < 10 then [DigitChar(n)] else Decimal(n / 10) + [DigitChar(n % 10)]
  }

  /** Arcs joined by '.'. */
  function Dotted(arcs: seq<nat>): string {
    if |arcs| == 0 then ""
    else if |arcs| == 1 then Decimal(arcs[0])
    else Decimal(arcs[0]) + "." + Dotted(arcs[1..])
  }

  /** The string form the registry uses as the key of its OID index. */
  function ToString(o: Oid): string {
    Dotted(o.arcs)
  }

  lemma {:induction false} DecimalInjective(x: nat, y: nat)
    requires Decimal(x) == Decimal(y)
    ensures x == y
    decreases x
  {
    if x >= 10 && y >= 10 {
      var dx, dy := Decimal(x), Decimal(y);
      assert dx[..|dx| - 1] == Decimal(x / 10);
      assert dy[..|dy| - 1] == Decimal(y / 10);
      DecimalInjective(x / 10, y / 10);
      assert x % 10 == y % 10 by {
        assert dx[|dx| - 1] == DigitChar(x % 10);
        assert dy[|dy| - 1] == DigitChar(y % 10);
      }
    }
  }

  /** The shape of a dotted string: the first numeral, then '.' and the rest. */
  lemma DottedHead(arcs: seq<nat>)
    requires |arcs| >= 1
    ensures var d := Decimal(arcs[0]); var s := Dotted(arcs);
      && |s| >= |d| && s[..|d|] == d
      && (|arcs| == 1 ==> |s| == |d|)
      && (|arcs| > 1 ==> |s| > |d| && s[|d|] == '.' && s[|d| + 1..] == Dotted(arcs[1..]))
  {
  }

  lemma {:induction false} DottedInjective(a: seq<nat>, b: seq<nat>)
    requires Dotted(a) == Dotted(b)
    ensures a == b
    decreases |a|
  {
    if |a| == 0 {
      if |b| > 0 { DottedHead(b); }
    } else if |b| == 0 {
      DottedHead(a);
    } else {
      DottedHead(a);
      DottedHead(b);
      var s := Dotted(a);
      var dx, dy := Decimal(a[0]), Decimal(b[0]);
      if |dx| == |dy| {
        assert dx == s[..|dx|] == dy;
        DecimalInjective(a[0], b[0]);
        if |a| > 1 && |b| > 1 {
          DottedInjective(a[1..], b[1..]);
          assert a == [a[0]] + a[1..];
          assert b == [b[0]] + b[1..];
        }
      }
    }
  }

  /** Distinct identifiers have distinct string keys, so an index keyed by
      ToString never merges two different OIDs. */
  lemma ToStringInjective(a: Oid, b: Oid)
    ensures ToString(a) == ToString(b) <==> a == b
  {
    if ToString(a) == ToString(b) {
      DottedInjective(a.arcs, b.arcs);
    }
  }

  // ---------------------------------------------------------------------------
  // Content octets (section 8.19 of ITU-T X.690)
  // ---------------------------------------------------------------------------

  /** Base-128 digits as octets: every digit but the last has bit 8 set. */
  function Mark(ds: seq<nat>): (bs: seq<byte>)
    requires forall i :: 0 <= i < |ds| ==> ds[i] < 128
    ensures |bs| == |ds|
  {
    if |ds| <= 1 then ds else [ds[0] + 128] + Mark(ds[1..])
  }

  function EncodeSubId(n: nat): seq<byte> {
    Mark(ToDigits(n, 128))
  }

  function EncodeSubIds(s: seq<nat>): seq<byte> {
    if s == [] then [] else EncodeSubId(s[0]) + EncodeSubIds(s[1..])
  }

  /** The first two arcs share one sub-identifier, 40 * first + second. */
  function SubIdentifiers(o: Oid): seq<nat>
    requires Valid(o)
  {
    [o.arcs[0] * 40 + o.arcs[1]] + o.arcs[2..]
  }

  function EncodeContent(o: Oid): seq<byte>
    requires Valid(o)
  {
    EncodeSubIds(SubIdentifiers(o))
  }

  /** Reads the digits of one sub-identifier: octets with bit 8 set, then one without. */
  function ParseSubIdDigits(c: seq<byte>): (r: Option<(seq<nat>, seq<byte>)>)
    ensures r.Some? ==> |r.value.1| < |c|
  {
    if c == [] then None
    else if c[0] < 128 then Some(([c[0]], c[1..]))
    else match ParseSubIdDigits(c[1..])
      case None => None
      case Some((ds, rest)) => Some(([c[0] - 128] + ds, rest))
  }

  /** Splits content octets into sub-identifiers; a sub-identifier may not start
      with the octet 0x80 (a leading zero digit). */
  function ParseSubIds(c: seq<byte>): Option<seq<nat>>
    decreases |c|
  {
    if c == [] then Some([])
    else match ParseSubIdDigits(c)
      case None => None
      case Some((ds, rest)) =>
        if |ds| > 1 && ds[0] == 0 then None
        else match ParseSubIds(rest)
          case None => None
          case Some(tail) => Some([FromDigits(ds, 128)] + tail)
  }

  function FromSubIdentifiers(first: nat, rest: seq<nat>): Oid {
    if first < 40 then Oid([0, first] + rest)
    else if first < 80 then Oid([1, first - 40] + rest)
    else Oid([2, first - 80] + rest)
  }

  /** Decodes OBJECT IDENTIFIER content octets; empty content is rejected. */
  function ParseContent(c: seq<byte>): Option<Oid> {
    if c == [] then None
    else match ParseSubIds(c)
      case None => None
      case Some(s) => if s == [] then None else Some(FromSubIdentifiers(s[0], s[1..]))
  }

  lemma {:induction false} ParseMarked(ds: seq<nat>, rest: seq<byte>)
    requires |ds| >= 1 && forall i :: 0 <= i < |ds| ==> ds[i] < 128
    ensures ParseSubIdDigits(Mark(ds) + rest) == Some((ds, rest))
    decreases |ds|
  {
    if |ds| > 1 {
      ParseMarked(ds[1..], rest);
      assert (Mark(ds) + rest)[1..] == Mark(ds[1..]) + rest;
      assert ds == [ds[0]] + ds[1..];
    } else {
      assert (Mark(ds) + rest)[1..] == rest;
      assert ds == [ds[0]];
    }
  }

  lemma {:induction false} ParsedIsMarked(c: seq<byte>)
    requires ParseSubIdDigits(c).Some?
    ensures var (ds, rest) := ParseSubIdDigits(c).value;
      && |ds| >= 1 && (forall i :: 0 <= i < |ds| ==> ds[i] < 128)
      && c == Mark(ds) + rest
    decreases |c|
  {
    if c[0] >= 128 {
      ParsedIsMarked(c[1..]);
      var (ds, rest) := ParseSubIdDigits(c[1..]).value;
      var ds' := [c[0] - 128] + ds;
      assert ds'[1..] == ds;
      assert c == [c[0]] + c[1..];
    } else {
      assert c == [c[0]] + c[1..];
    }
  }

  lemma {:induction false} SubIdsRoundTrip(s: seq<nat>)
    ensures ParseSubIds(EncodeSubIds(s)) == Some(s)
    decreases |s|
  {
    if s != [] {
      var ds := ToDigits(s[0], 128);
      var tail := EncodeSubIds(s[1..]);
      var c := EncodeSubIds(s);
      assert c == Mark(ds) + tail;
      ParseMarked(ds, tail);
      assert c != [] by { assert |Mark(ds)| >= 1; }
      assert ParseSubIdDigits(c) == Some((ds, tail));
      assert !(|ds| > 1 && ds[0] == 0);
      FromToDigits(s[0], 128);
      SubIdsRoundTrip(s[1..]);
      assert ParseSubIds(c) == Some([FromDigits(ds, 128)] + s[1..]);
      assert s == [s[0]] + s[1..];
    }
  }

  lemma {:induction false} SubIdsCanonical(c: seq<byte>)
    requires ParseSubIds(c).Some?
    ensures c == EncodeSubIds(ParseSubIds(c).value)
    ensures c != [] ==> ParseSubIds(c).value != []
    decreases |c|
  {
    if c != [] {
      ParsedIsMarked(c);
      var (ds, rest) := ParseSubIdDigits(c).value;
      assert Canonical(ds, 128);
      ToFromDigits(ds, 128);
      SubIdsCanonical(rest);
      var s := ParseSubIds(c).value;
      assert s[0] == FromDigits(ds, 128) && s[1..] == ParseSubIds(rest).value;
    }
  }

  lemma FirstSubIdentifier(o: Oid)
    requires Valid(o)
    ensures var s := SubIdentifiers(o); FromSubIdentifiers(s[0], s[1..]) == o
  {
    assert o.arcs == [o.arcs[0], o.arcs[1]] + o.arcs[2..];
  }

  /** Decoding the content octets of a valid identifier gives it back. */
  lemma ContentRoundTrip(o: Oid)
    requires Valid(o)
    ensures ParseContent(EncodeContent(o)) == Some(o)
  {
    var s := SubIdentifiers(o);
    SubIdsRoundTrip(s);
    assert EncodeSubIds(s) != [] by { assert |EncodeSubId(s[0])| >= 1; }
    FirstSubIdentifier(o);
  }

  /** Whatever content decodes is the encoding of a valid identifier: the
      decoder accepts exactly the canonical encodings. */
  lemma ContentCanonical(c: seq<byte>)
    requires ParseContent(c).Some?
    ensures Valid(ParseContent(c).value)
    ensures EncodeContent(ParseContent(c).value) == c
  {
    SubIdsCanonical(c);
    var s := ParseSubIds(c).value;
    var o := FromSubIdentifiers(s[0], s[1..]);
    assert SubIdentifiers(o) == s;
  }
}
