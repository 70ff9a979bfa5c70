/** The X.509 AlgorithmIdentifier (section 4.1.1.2 of RFC 5280):
      AlgorithmIdentifier ::= SEQUENCE { algorithm OBJECT IDENTIFIER,
                                         parameters ANY OPTIONAL } */
module AlgorithmIdentifiers {
  import opened Results
  import opened Asn1
  import Oids

  datatype AlgorithmIdentifier = AlgorithmIdentifier(algorithm: Oids.Oid, parameters: Option<Value>)

  /** The SEQUENCE the identifier is written as; absent parameters are omitted. */
  function ToValue(a: AlgorithmIdentifier): Value {
    match a.parameters
    case None => Sequence([ObjectId(a.algorithm)])
    case Some(p) => Sequence([ObjectId(a.algorithm), p])
  }

  /** AlgorithmIdentifier.getInstance on a non-null value: a SEQUENCE of one or
      two elements whose first is an OBJECT IDENTIFIER; anything else is an
      IllegalArgumentException. */
  function FromValue(v: Value): (r: Result<AlgorithmIdentifier>)
    ensures r.Err? ==> r.error == IllegalArgument
    ensures r.Ok? ==> ToValue(r.value) == v
  {
    match v
    case Sequence(items) =>
      if |items| < 1 || |items| > 2 || !items[0].ObjectId? then Err(IllegalArgument)
      else if |items| == 1 then
        assert items == [items[0]];
        Ok(AlgorithmIdentifier(items[0].oid, None))
      else
        assert items == [items[0], items[1]];
        Ok(AlgorithmIdentifier(items[0].oid, Some(items[1])))
    case _ => Err(IllegalArgument)
  }

  /** Writing an identifier and reading it back gives the same identifier. */
  lemma ValueRoundTrip(a: AlgorithmIdentifier)
    ensures FromValue(ToValue(a)) == Ok(a)
  {
  }
}
