/** The registry of injected signature algorithms: an insertion-ordered list of
    records, an index by TLS SignatureScheme code point (section 4.2.3 of
    RFC 8446) and an index by the OID's string form, with the queries and the
    key-marshalling dispatch built on them.

    An algorithm's adapter (its SigAlgAPI) is an opaque handle of type `A`;
    what the adapter does is given by a `SigAlgApi` value of functions over
    handles, which the dispatch operations take as a parameter. */
module InjectedSigAlgorithms {
  import opened Results
  import opened Numeric
  import Oids
  import opened Asn1
  import opened AlgorithmIdentifiers
  import opened SubjectPublicKeyInfos

  /** A Java int. */
  type Int32 = x: int | -0x8000_0000 <= x < 0x8000_0000

  // ---------------------------------------------------------------------------
  // Code point <-> (hash, signature) pair
  // ---------------------------------------------------------------------------

  /** A Java (short) cast: keep the low 16 bits, read as two's complement. */
  function ToShort(x: int): int {
    (x + 0x8000) % 0x1_0000 - 0x8000
  }

  /** The TLS 1.2 SignatureAndHashAlgorithm pair (section 7.4.1.4.1 of
      RFC 5246); for an injected scheme its halves are just the two octets of
      the code point. */
  datatype SignatureAndHashAlgorithm = SignatureAndHashAlgorithm(hash: byte, signature: byte)

  /** The SignatureAndHashAlgorithm(short, short) constructor, which refuses a
      component outside 0..255 with an IllegalArgumentException. */
  function NewSignatureAndHashAlgorithm(hash: int, signature: int): (r: Result<SignatureAndHashAlgorithm>)
    ensures r.Ok? <==> 0 <= hash < 256 && 0 <= signature < 256
    ensures r.Ok? ==> r.value.hash == hash && r.value.signature == signature
    ensures r.Err? ==> r.error == IllegalArgument
  {
    if 0 <= hash < 256 && 0 <= signature < 256
    then Ok(SignatureAndHashAlgorithm(hash, signature))
    else Err(IllegalArgument)
  }

  /** The split of a code point into (short)(cp >> 8) and (short)(cp & 0xFF).
      On a Java int, >> 8 is floor division by 256 and & 0xFF the non-negative
      remainder, which are Dafny's / and % by 256. */
  function SplitCodePoint(cp: Int32): Result<SignatureAndHashAlgorithm> {
    NewSignatureAndHashAlgorithm(ToShort(cp / 256), ToShort(cp % 256))
  }

  /** Java's << on a non-negative int that does not overflow. */
  function ShiftLeft(x: nat, k: nat): nat {
    x * Pow(2, k)
  }

  /** Java's | on two non-negative ints, bit by bit from the lowest. */
  function BitOr(a: nat, b: nat): nat
    decreases a + b
  {
    if a == 0 then b
    else if b == 0 then a
    else 2 * BitOr(a / 2, b / 2) + (if a % 2 == 1 || b % 2 == 1 then 1 else 0)
  }

  /** OR-ing a value shifted left by k with one below 2^k sets disjoint bits,
      so it is a sum. */
  lemma {:induction false} DisjointOrIsSum(h: nat, s: nat, k: nat)
    requires s < Pow(2, k)
    ensures BitOr(ShiftLeft(h, k), s) == ShiftLeft(h, k) + s
    decreases k
  {
    var hk := ShiftLeft(h, k);
    if k > 0 && hk != 0 && s != 0 {
      assert Pow(2, k) == 2 * Pow(2, k - 1);
      var hk' := ShiftLeft(h, k - 1);
      assert hk == 2 * hk';
      assert hk / 2 == hk' && hk % 2 == 0;
      DisjointOrIsSum(h, s / 2, k - 1);
      assert BitOr(hk, s) == 2 * (hk' + s / 2) + s % 2;
    }
  }

  /** The code point isSigAndHashAlgorithmSupported recombines from a pair:
      the high octet is the hash, the low octet the signature. */
  function CodePointOf(p: SignatureAndHashAlgorithm): (cp: Int32)
    ensures cp == p.hash * 256 + p.signature
    ensures 0 <= cp <= 0xFFFF
  {
    DisjointOrIsSum(p.hash, p.signature, 8);
    BitOr(ShiftLeft(p.hash, 8), p.signature)
  }

  /** Every 16-bit code point splits into its high and low octet, and the
      pair recombines to the code point. */
  lemma SplitRoundTrip(cp: Int32)
    requires 0 <= cp <= 0xFFFF
    ensures SplitCodePoint(cp) == Ok(SignatureAndHashAlgorithm(cp / 256, cp % 256))
    ensures CodePointOf(SplitCodePoint(cp).value) == cp
  {
    var h, l := cp / 256, cp % 256;
    assert cp == h * 256 + l;
    assert 0 <= h < 256;
    assert ToShort(h) == h && ToShort(l) == l;
  }

  /** Every pair is the split of the code point it recombines to. */
  lemma CombineRoundTrip(p: SignatureAndHashAlgorithm)
    ensures SplitCodePoint(CodePointOf(p)) == Ok(p)
  {
    var cp := CodePointOf(p);
    SplitRoundTrip(cp);
    assert cp / 256 == p.hash && cp % 256 == p.signature;
  }

  /** Which Java ints the split accepts: those whose bits 8..23 hold a value
      below 256. That is every 16-bit code point, but also larger ints, whose
      high bits the (short) cast throws away. */
  lemma SplitAcceptance(cp: Int32)
    ensures SplitCodePoint(cp).Ok? <==> (cp / 256) % 0x1_0000 < 256
  {
  }

  /** A code point above 0xFFFF can be split without error into a pair that
      recombines to a different code point. */
  lemma WideCodePointTruncated()
    ensures SplitCodePoint(0x0100_00AB) == Ok(SignatureAndHashAlgorithm(0, 0xAB))
    ensures CodePointOf(SplitCodePoint(0x0100_00AB).value) != 0x0100_00AB
  {
    assert 0x0100_00AB / 256 == 0x1_0000;
  }

  // ---------------------------------------------------------------------------
  // Records and the registry
  // ---------------------------------------------------------------------------

  /** SigAlgorithmInfo: one injected algorithm. */
  datatype SigAlgorithmInfo<A> = SigAlgorithmInfo(
    name: string,
    oid: Oids.Oid,
    codePoint: Int32,
    sigAndHash: SignatureAndHashAlgorithm,
    api: A)

  /** The SigAlgorithmInfo constructor; fails where the split fails. */
  function NewSigAlgorithmInfo<A>(name: string, oid: Oids.Oid, cp: Int32, api: A): (r: Result<SigAlgorithmInfo<A>>)
    ensures r.Ok? <==> SplitCodePoint(cp).Ok?
    ensures r.Ok? ==> r.value == SigAlgorithmInfo(name, oid, cp, SplitCodePoint(cp).value, api)
    ensures r.Err? ==> r.error == IllegalArgument
  {
    match SplitCodePoint(cp)
    case Err(e) => Err(e)
    case Ok(p) => Ok(SigAlgorithmInfo(name, oid, cp, p, api))
  }

  /** The list `injected`, the map `injectedSignatureSchemes` and the map
      `injectedOids`, keyed by `oid.toString()`. */
  datatype Registry<A> = Registry(
    injected: seq<SigAlgorithmInfo<A>>,
    bySigScheme: map<Int32, SigAlgorithmInfo<A>>,
    byOid: map<string, SigAlgorithmInfo<A>>)

  function EmptyRegistry<A>(): Registry<A> {
    Registry([], map[], map[])
  }

  function CodePointKey<A>(info: SigAlgorithmInfo<A>): Int32 {
    info.codePoint
  }

  function OidKey<A>(info: SigAlgorithmInfo<A>): string {
    Oids.ToString(info.oid)
  }

  /** The map a list of records gives when it is put into a map one record at
      a time, in order: a later record replaces an earlier one with the same key. */
  function IndexBy<A, K>(s: seq<SigAlgorithmInfo<A>>, key: SigAlgorithmInfo<A> -> K): map<K, SigAlgorithmInfo<A>>
    decreases |s|
  {
    if s == [] then map[]
    else IndexBy(s[..|s| - 1], key)[key(s[|s| - 1]) := s[|s| - 1]]
  }

  /** Position i holds the last record of the list with its key. */
  ghost predicate LastWithKey<A, K>(s: seq<SigAlgorithmInfo<A>>, key: SigAlgorithmInfo<A> -> K, i: int) {
    && 0 <= i < |s|
    && forall j :: i < j < |s| ==> key(s[j]) != key(s[i])
  }

  /** A key is in the fold exactly when some record has it, and then it maps
      to the last such record. */
  lemma {:induction false} IndexBySpec<A, K>(s: seq<SigAlgorithmInfo<A>>, key: SigAlgorithmInfo<A> -> K, k: K)
    ensures k in IndexBy(s, key) <==> exists i :: 0 <= i < |s| && key(s[i]) == k
    ensures k in IndexBy(s, key) ==>
      exists i :: LastWithKey(s, key, i) && key(s[i]) == k && IndexBy(s, key)[k] == s[i]
    decreases |s|
  {
    if s != [] {
      var init := s[..|s| - 1];
      var n := |s| - 1;
      IndexBySpec(init, key, k);
      if key(s[n]) == k {
        assert LastWithKey(s, key, n);
      } else if k in IndexBy(init, key) {
        var i :| LastWithKey(init, key, i) && key(init[i]) == k && IndexBy(init, key)[k] == init[i];
        assert s[i] == init[i];
        assert LastWithKey(s, key, i);
      }
      if exists i :: 0 <= i < |s| && key(s[i]) == k {
        var i :| 0 <= i < |s| && key(s[i]) == k;
        if i < n { assert init[i] == s[i]; }
      }
    }
  }

  /** Every record at the last position for its key is what the fold maps
      that key to. */
  lemma LastIsIndexed<A, K>(s: seq<SigAlgorithmInfo<A>>, key: SigAlgorithmInfo<A> -> K, i: int)
    requires LastWithKey(s, key, i)
    ensures key(s[i]) in IndexBy(s, key) && IndexBy(s, key)[key(s[i])] == s[i]
  {
    IndexBySpec(s, key, key(s[i]));
    var j :| LastWithKey(s, key, j) && key(s[j]) == key(s[i]) && IndexBy(s, key)[key(s[i])] == s[j];
  }

  /** The registry invariant: each index is the last-write-wins fold of the
      list, and every record carries the split of its own code point. */
  ghost predicate Consistent<A>(r: Registry<A>) {
    && r.bySigScheme == IndexBy(r.injected, CodePointKey)
    && r.byOid == IndexBy(r.injected, OidKey)
    && forall i :: 0 <= i < |r.injected| ==> SplitCodePoint(r.injected[i].codePoint) == Ok(r.injected[i].sigAndHash)
  }

  lemma EmptyConsistent<A>()
    ensures Consistent(EmptyRegistry<A>())
  {
  }

  /** injectSigAndHashAlgorithm. The record is built first, so a code point the
      split refuses leaves the registry as it was; otherwise the record is
      appended to the list and put under its code point and OID string,
      replacing whatever was there. */
  function Inject<A>(r: Registry<A>, name: string, oid: Oids.Oid, cp: Int32, api: A): (res: Result<Registry<A>>)
    ensures 0 <= cp <= 0xFFFF ==> res.Ok?
    ensures res.Err? ==> res.error == IllegalArgument
    ensures res.Ok? ==>
      var r' := res.value;
      && |r'.injected| == |r.injected| + 1
      && r'.injected[..|r.injected|] == r.injected
      && SplitCodePoint(cp).Ok?
      && r'.injected[|r.injected|] == SigAlgorithmInfo(name, oid, cp, SplitCodePoint(cp).value, api)
    ensures res.Ok? ==>
      var r' := res.value;
      var info := r'.injected[|r.injected|];
      && IsSigSchemeSupported(r', cp) && r'.bySigScheme[cp] == info
      && IsSigAlgorithmSupported(r', oid) && r'.byOid[Oids.ToString(oid)] == info
    ensures res.Ok? ==>
      var r' := res.value;
      && (forall c :: c != cp ==> (c in r'.bySigScheme <==> c in r.bySigScheme))
      && (forall c :: c != cp && c in r.bySigScheme ==> r'.bySigScheme[c] == r.bySigScheme[c])
      && (forall k :: k != Oids.ToString(oid) ==> (k in r'.byOid <==> k in r.byOid))
      && (forall k :: k != Oids.ToString(oid) && k in r.byOid ==> r'.byOid[k] == r.byOid[k])
    ensures res.Ok? && Consistent(r) ==> Consistent(res.value)
  {
    match NewSigAlgorithmInfo(name, oid, cp, api)
    case Err(e) => Err(e)
    case Ok(info) =>
      var r' := Registry(r.injected + [info], r.bySigScheme[cp := info], r.byOid[Oids.ToString(oid) := info]);
      assert r'.injected[..|r.injected|] == r.injected;
      Ok(r')
  }

  // ---------------------------------------------------------------------------
  // Queries
  // ---------------------------------------------------------------------------

  function IsSigSchemeSupported<A>(r: Registry<A>, cp: Int32): bool {
    cp in r.bySigScheme
  }

  function IsSigAlgorithmSupported<A>(r: Registry<A>, oid: Oids.Oid): bool {
    Oids.ToString(oid) in r.byOid
  }

  /** isSigAndHashAlgorithmSupported: recombines the pair and asks the
      code-point index. */
  function IsSigAndHashAlgorithmSupported<A>(r: Registry<A>, p: SignatureAndHashAlgorithm): (b: bool)
    ensures b <==> (p.hash * 256 + p.signature) in r.bySigScheme
  {
    IsSigSchemeSupported(r, CodePointOf(p))
  }

  /** getInjectedSigAndHashAlgorithms: the pairs of the list, in list order. */
  function GetInjectedSigAndHashAlgorithms<A>(r: Registry<A>): (ps: seq<SignatureAndHashAlgorithm>)
    ensures |ps| == |r.injected|
    ensures forall i :: 0 <= i < |ps| ==> ps[i] == r.injected[i].sigAndHash
  {
    seq(|r.injected|, i requires 0 <= i < |r.injected| => r.injected[i].sigAndHash)
  }

  /** A code point is supported exactly when some record in the list has it,
      and the index then holds the last such record. */
  lemma SchemeSupportedSpec<A>(r: Registry<A>, cp: Int32)
    requires Consistent(r)
    ensures IsSigSchemeSupported(r, cp) <==> exists i :: 0 <= i < |r.injected| && r.injected[i].codePoint == cp
    ensures IsSigSchemeSupported(r, cp) ==>
      exists i :: LastWithKey(r.injected, CodePointKey, i) && r.injected[i].codePoint == cp && r.bySigScheme[cp] == r.injected[i]
  {
    IndexBySpec(r.injected, CodePointKey, cp);
  }

  /** An OID is supported exactly when some record in the list has that OID:
      distinct OIDs never share a string key. */
  lemma AlgorithmSupportedSpec<A>(r: Registry<A>, oid: Oids.Oid)
    requires Consistent(r)
    ensures IsSigAlgorithmSupported(r, oid) <==> exists i :: 0 <= i < |r.injected| && r.injected[i].oid == oid
    ensures IsSigAlgorithmSupported(r, oid) ==>
      exists i :: LastWithKey(r.injected, OidKey, i) && r.injected[i].oid == oid && r.byOid[Oids.ToString(oid)] == r.injected[i]
  {
    var k := Oids.ToString(oid);
    IndexBySpec(r.injected, OidKey, k);
    if IsSigAlgorithmSupported(r, oid) {
      var i :| LastWithKey(r.injected, OidKey, i) && OidKey(r.injected[i]) == k && r.byOid[k] == r.injected[i];
      Oids.ToStringInjective(r.injected[i].oid, oid);
    }
  }

  /** Every pair the registry advertises for a 16-bit code point is accepted
      by isSigAndHashAlgorithmSupported and recombines to its record's code point. */
  lemma AdvertisedPairsSupported<A>(r: Registry<A>)
    requires Consistent(r)
    ensures var ps := GetInjectedSigAndHashAlgorithms(r);
      forall i :: 0 <= i < |ps| && 0 <= r.injected[i].codePoint <= 0xFFFF ==>
        CodePointOf(ps[i]) == r.injected[i].codePoint && IsSigAndHashAlgorithmSupported(r, ps[i])
  {
    var ps := GetInjectedSigAndHashAlgorithms(r);
    forall i | 0 <= i < |ps| && 0 <= r.injected[i].codePoint <= 0xFFFF
      ensures CodePointOf(ps[i]) == r.injected[i].codePoint && IsSigAndHashAlgorithmSupported(r, ps[i])
    {
      SplitRoundTrip(r.injected[i].codePoint);
      SchemeSupportedSpec(r, r.injected[i].codePoint);
    }
  }

  /** A pair is supported exactly when some record has the code point the
      pair recombines to, and such a record advertises that very pair. */
  lemma PairSupportedSpec<A>(r: Registry<A>, p: SignatureAndHashAlgorithm)
    requires Consistent(r)
    ensures IsSigAndHashAlgorithmSupported(r, p) <==>
      exists i :: 0 <= i < |r.injected| && r.injected[i].codePoint == CodePointOf(p)
    ensures forall i :: 0 <= i < |r.injected| && r.injected[i].codePoint == CodePointOf(p) ==>
      GetInjectedSigAndHashAlgorithms(r)[i] == p
  {
    SchemeSupportedSpec(r, CodePointOf(p));
    CombineRoundTrip(p);
  }

  /** Re-injecting a code point that is already registered appends a second
      record with that code point; the earlier record stays in the list (and in
      the advertised pairs) but the code-point index no longer reaches it. */
  lemma ReinjectionKeepsStaleRecord<A>(r: Registry<A>, name: string, oid: Oids.Oid, cp: Int32, api: A)
    requires Consistent(r) && IsSigSchemeSupported(r, cp) && Inject(r, name, oid, cp, api).Ok?
    ensures var r' := Inject(r, name, oid, cp, api).value;
      var stale := r.bySigScheme[cp];
      var newer := r'.injected[|r.injected|];
      && (exists i :: 0 <= i < |r.injected| && r'.injected[i] == stale && r'.injected[i].codePoint == cp)
      && r'.injected[|r.injected|].codePoint == cp
      && (stale != newer ==> forall c :: c in r'.bySigScheme ==> r'.bySigScheme[c] != stale)
      && (stale != newer && stale.oid == oid ==> forall k :: k in r'.byOid ==> r'.byOid[k] != stale)
      && (exists i :: 0 <= i < |r.injected| && GetInjectedSigAndHashAlgorithms(r')[i] == GetInjectedSigAndHashAlgorithms(r')[|r.injected|])
  {
    var r' := Inject(r, name, oid, cp, api).value;
    var stale := r.bySigScheme[cp];
    var newer := r'.injected[|r.injected|];
    SchemeSupportedSpec(r, cp);
    var i :| LastWithKey(r.injected, CodePointKey, i) && r.injected[i].codePoint == cp && r.bySigScheme[cp] == r.injected[i];
    assert r'.injected[i] == r.injected[i];
    assert GetInjectedSigAndHashAlgorithms(r')[i] == GetInjectedSigAndHashAlgorithms(r')[|r.injected|];
    if stale != newer {
      forall c | c in r'.bySigScheme
        ensures r'.bySigScheme[c] != stale
      {
        SchemeSupportedSpec(r, c);
      }
      if stale.oid == oid {
        forall k | k in r'.byOid
          ensures r'.byOid[k] != stale
        {
          if k != Oids.ToString(oid) && r'.byOid[k] == stale {
            IndexBySpec(r.injected, OidKey, k);
          }
        }
      }
    }
  }

  /** Re-injecting an OID that is already registered under another code point
      moves only the OID index: the earlier record stays in the list and stays
      reachable through its own code point. */
  lemma ReinjectedOidKeepsCodePointEntry<A>(r: Registry<A>, name: string, oid: Oids.Oid, cp: Int32, api: A)
    requires Consistent(r) && IsSigAlgorithmSupported(r, oid) && Inject(r, name, oid, cp, api).Ok?
    requires r.byOid[Oids.ToString(oid)].codePoint != cp
    ensures var r' := Inject(r, name, oid, cp, api).value;
      var stale := r.byOid[Oids.ToString(oid)];
      && (exists i :: 0 <= i < |r.injected| && r'.injected[i] == stale)
      && r'.byOid[Oids.ToString(oid)] == r'.injected[|r.injected|] != stale
      && stale.codePoint in r.bySigScheme && stale.codePoint in r'.bySigScheme
      && (r.bySigScheme[stale.codePoint] == stale ==> r'.bySigScheme[stale.codePoint] == stale)
  {
    var r' := Inject(r, name, oid, cp, api).value;
    AlgorithmSupportedSpec(r, oid);
    var i :| LastWithKey(r.injected, OidKey, i) && r.injected[i].oid == oid && r.byOid[Oids.ToString(oid)] == r.injected[i];
    assert r'.injected[i] == r.injected[i];
    SchemeSupportedSpec(r, r.injected[i].codePoint);
  }

  /** The example scenario: one algorithm "XYZ-SIG" with OID 1.2.3.4 and code
      point 0xABCD. */
  lemma ExampleScenario<A>(api: A)
    ensures Inject(EmptyRegistry<A>(), "XYZ-SIG", Oids.Oid([1, 2, 3, 4]), 0xABCD, api).Ok?
    ensures var r := Inject(EmptyRegistry<A>(), "XYZ-SIG", Oids.Oid([1, 2, 3, 4]), 0xABCD, api).value;
      && IsSigAlgorithmSupported(r, Oids.Oid([1, 2, 3, 4]))
      && IsSigSchemeSupported(r, 0xABCD)
      && IsSigAndHashAlgorithmSupported(r, SignatureAndHashAlgorithm(0xAB, 0xCD))
      && !IsSigSchemeSupported(r, 0x0000)
      && !IsSigAlgorithmSupported(r, Oids.Oid([1, 2, 3, 5]))
  {
    var r := Inject(EmptyRegistry<A>(), "XYZ-SIG", Oids.Oid([1, 2, 3, 4]), 0xABCD, api).value;
    EmptyConsistent<A>();
    AlgorithmSupportedSpec(r, Oids.Oid([1, 2, 3, 5]));
  }

  // ---------------------------------------------------------------------------
  // Key marshalling dispatch
  // ---------------------------------------------------------------------------

  /** The fields of a PKCS#8 PrivateKeyInfo the registry passes around. */
  datatype PrivateKeyInfo = PrivateKeyInfo(
    privateKeyAlgorithm: AlgorithmIdentifier,
    privateKey: seq<byte>,
    attributes: Option<seq<Value>>)

  /** What an adapter does, as functions of its handle. */
  datatype SigAlgApi<!A, !K, !D> = SigAlgApi(
    isSupportedParameter: (A, K) -> bool,
    createPrivateKeyParameter: (A, PrivateKeyInfo) -> Result<K>,
    createPublicKeyParameter: (A, SubjectPublicKeyInfo, D) -> Result<K>,
    createPrivateKeyInfo: (A, K, Option<seq<Value>>) -> Result<PrivateKeyInfo>,
    createSubjectPublicKeyInfo: (A, K) -> Result<SubjectPublicKeyInfo>)

  predicate Accepts<A, K, D>(ops: SigAlgApi<A, K, D>, info: SigAlgorithmInfo<A>, param: K) {
    ops.isSupportedParameter(info.api, param)
  }

  /** Some record in the code-point index has an adapter accepting `param`. */
  ghost predicate SomeIndexedAdapterAccepts<A, K, D>(r: Registry<A>, ops: SigAlgApi<A, K, D>, param: K) {
    exists cp :: cp in r.bySigScheme && Accepts(ops, r.bySigScheme[cp], param)
  }

  /** isParameterSupported: probes the adapters of the code-point index, in
      whatever order the map yields them. */
  method IsParameterSupported<A, K, D>(r: Registry<A>, ops: SigAlgApi<A, K, D>, param: K) returns (b: bool)
    ensures b <==> SomeIndexedAdapterAccepts(r, ops, param)
  {
    var pending := r.bySigScheme.Keys;
    while pending != {}
      invariant pending <= r.bySigScheme.Keys
      invariant forall cp :: cp in r.bySigScheme && cp !in pending ==> !Accepts(ops, r.bySigScheme[cp], param)
      decreases pending
    {
      var cp :| cp in pending;
      if ops.isSupportedParameter(r.bySigScheme[cp].api, param) {
        return true;
      }
      pending := pending - {cp};
    }
    return false;
  }

  /** The probed adapters are those of the records that are last in the list
      for their code point: a record shadowed by a later one with the same code
      point is never consulted, even when its OID is still indexed. */
  lemma ProbedRecords<A, K, D>(r: Registry<A>, ops: SigAlgApi<A, K, D>, param: K)
    requires Consistent(r)
    ensures SomeIndexedAdapterAccepts(r, ops, param) <==>
      exists i :: LastWithKey(r.injected, CodePointKey, i) && Accepts(ops, r.injected[i], param)
  {
    if SomeIndexedAdapterAccepts(r, ops, param) {
      var cp :| cp in r.bySigScheme && Accepts(ops, r.bySigScheme[cp], param);
      SchemeSupportedSpec(r, cp);
    }
    if exists i :: LastWithKey(r.injected, CodePointKey, i) && Accepts(ops, r.injected[i], param) {
      var i :| LastWithKey(r.injected, CodePointKey, i) && Accepts(ops, r.injected[i], param);
      LastIsIndexed(r.injected, CodePointKey, i);
    }
  }

  /** The reverse-dispatch loop shared by createPrivateKeyInfo and
      createSubjectPublicKeyInfo: the first handle, in map order, whose adapter
      accepts `param`; None when no indexed adapter does. */
  method FindAcceptingAdapter<A, K, D>(r: Registry<A>, ops: SigAlgApi<A, K, D>, param: K) returns (found: Option<A>)
    ensures found.None? <==> !SomeIndexedAdapterAccepts(r, ops, param)
    ensures found.Some? ==> exists cp :: cp in r.bySigScheme && Accepts(ops, r.bySigScheme[cp], param) && r.bySigScheme[cp].api == found.value
  {
    var pending := r.bySigScheme.Keys;
    while pending != {}
      invariant pending <= r.bySigScheme.Keys
      invariant forall cp :: cp in r.bySigScheme && cp !in pending ==> !Accepts(ops, r.bySigScheme[cp], param)
      decreases pending
    {
      var cp :| cp in pending;
      if ops.isSupportedParameter(r.bySigScheme[cp].api, param) {
        return Some(r.bySigScheme[cp].api);
      }
      pending := pending - {cp};
    }
    return None;
  }

  /** createPrivateKeyInfo: the output of an accepting adapter, or the
      RuntimeException "Unsupported private key params" when none accepts. */
  method CreatePrivateKeyInfo<A, K, D>(r: Registry<A>, ops: SigAlgApi<A, K, D>, param: K, attributes: Option<seq<Value>>)
    returns (res: Result<PrivateKeyInfo>)
    ensures !SomeIndexedAdapterAccepts(r, ops, param) ==> res == Err(UnsupportedParams)
    ensures SomeIndexedAdapterAccepts(r, ops, param) ==>
      exists cp :: cp in r.bySigScheme && Accepts(ops, r.bySigScheme[cp], param)
        && res == ops.createPrivateKeyInfo(r.bySigScheme[cp].api, param, attributes)
  {
    var found := FindAcceptingAdapter(r, ops, param);
    match found
    case None => res := Err(UnsupportedParams);
    case Some(a) => res := ops.createPrivateKeyInfo(a, param, attributes);
  }

  /** createSubjectPublicKeyInfo: the output of an accepting adapter, or the
      RuntimeException "Unsupported public key params" when none accepts. */
  method CreateSubjectPublicKeyInfo<A, K, D>(r: Registry<A>, ops: SigAlgApi<A, K, D>, publicKey: K)
    returns (res: Result<SubjectPublicKeyInfo>)
    ensures !SomeIndexedAdapterAccepts(r, ops, publicKey) ==> res == Err(UnsupportedParams)
    ensures SomeIndexedAdapterAccepts(r, ops, publicKey) ==>
      exists cp :: cp in r.bySigScheme && Accepts(ops, r.bySigScheme[cp], publicKey)
        && res == ops.createSubjectPublicKeyInfo(r.bySigScheme[cp].api, publicKey)
  {
    var found := FindAcceptingAdapter(r, ops, publicKey);
    match found
    case None => res := Err(UnsupportedParams);
    case Some(a) => res := ops.createSubjectPublicKeyInfo(a, publicKey);
  }

  /** createPrivateKeyParameter: the adapter indexed under the string of the
      key's algorithm OID; the source dereferences the missing entry of an
      unregistered OID, a NullPointerException. */
  function CreatePrivateKeyParameter<A, K, D>(r: Registry<A>, ops: SigAlgApi<A, K, D>, keyInfo: PrivateKeyInfo): Result<K> {
    var key := Oids.ToString(keyInfo.privateKeyAlgorithm.algorithm);
    if key in r.byOid then ops.createPrivateKeyParameter(r.byOid[key].api, keyInfo) else Err(NullPointer)
  }

  /** createPublicKeyParameter: as above, keyed by the SubjectPublicKeyInfo's
      algorithm OID, with the default parameters passed through. */
  function CreatePublicKeyParameter<A, K, D>(r: Registry<A>, ops: SigAlgApi<A, K, D>, keyInfo: SubjectPublicKeyInfo, defaultParams: D): Result<K> {
    var key := Oids.ToString(GetAlgorithm(keyInfo).algorithm);
    if key in r.byOid then ops.createPublicKeyParameter(r.byOid[key].api, keyInfo, defaultParams) else Err(NullPointer)
  }

  /** Forward dispatch goes to the adapter of the last record injected with
      the key info's OID, and fails with NullPointer when no record has it. */
  lemma PrivateKeyParameterDispatch<A, K, D>(r: Registry<A>, ops: SigAlgApi<A, K, D>, keyInfo: PrivateKeyInfo)
    requires Consistent(r)
    ensures var oid := keyInfo.privateKeyAlgorithm.algorithm;
      && ((forall i :: 0 <= i < |r.injected| ==> r.injected[i].oid != oid) ==>
            CreatePrivateKeyParameter(r, ops, keyInfo) == Err(NullPointer))
      && ((exists i :: 0 <= i < |r.injected| && r.injected[i].oid == oid) ==>
            exists i :: LastWithKey(r.injected, OidKey, i) && r.injected[i].oid == oid
              && CreatePrivateKeyParameter(r, ops, keyInfo) == ops.createPrivateKeyParameter(r.injected[i].api, keyInfo))
  {
    AlgorithmSupportedSpec(r, keyInfo.privateKeyAlgorithm.algorithm);
  }

  lemma PublicKeyParameterDispatch<A, K, D>(r: Registry<A>, ops: SigAlgApi<A, K, D>, keyInfo: SubjectPublicKeyInfo, defaultParams: D)
    requires Consistent(r)
    ensures var oid := GetAlgorithm(keyInfo).algorithm;
      && ((forall i :: 0 <= i < |r.injected| ==> r.injected[i].oid != oid) ==>
            CreatePublicKeyParameter(r, ops, keyInfo, defaultParams) == Err(NullPointer))
      && ((exists i :: 0 <= i < |r.injected| && r.injected[i].oid == oid) ==>
            exists i :: LastWithKey(r.injected, OidKey, i) && r.injected[i].oid == oid
              && CreatePublicKeyParameter(r, ops, keyInfo, defaultParams)
                 == ops.createPublicKeyParameter(r.injected[i].api, keyInfo, defaultParams))
  {
    AlgorithmSupportedSpec(r, GetAlgorithm(keyInfo).algorithm);
  }
}
