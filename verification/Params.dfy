/** The parameter map that is signed and serialized. */
module ParamMaps {
  import opened Wrappers
  import opened ByteStrings
  import opened SortedMaps
  import opened FormCodec

  /** What every `Params` keeps: empty values are never stored. */
  predicate NoEmptyValues(m: Fields) {
    forall k :: k in m ==> m[k] != []
  }

  function WithField(m: Fields, key: Bytes, value: Bytes): Fields {
    if value == [] then m else m[key := value]
  }

  function WithOptionalField(m: Fields, key: Bytes, value: Option<Bytes>): Fields {
    match value
    case None => m
    case Some(v) => WithField(m, key, v)
  }

  /** All pairs inserted from left to right. */
  function InsertAll(m: Fields, ps: seq<Pair>): Fields
    decreases |ps|
  {
    if ps == [] then m else InsertAll(WithField(m, ps[0].0, ps[0].1), ps[1..])
  }

  function GetField(m: Fields, key: Bytes): Option<Bytes> {
    if key in m then Some(m[key]) else None
  }

  predicate IsSignatureField(key: Bytes) { key == "sign" || key == "sign_type" }

  /** The fields a signature covers. */
  function Signed(m: Fields): Fields { m - {"sign", "sign_type"} }

  function PayloadPart(p: Pair): Bytes { p.0 + "=" + p.1 }

  function PayloadParts(ps: seq<Pair>): (parts: seq<Bytes>)
    ensures |parts| == |ps|
    ensures forall i :: 0 <= i < |ps| ==> parts[i] == PayloadPart(ps[i])
  {
    seq(|ps|, i requires 0 <= i < |ps| => PayloadPart(ps[i]))
  }

  /** The text to sign: the covered fields as `k=v`, in key order, joined by `&`. */
  function SignPayload(m: Fields): Bytes {
    Join(PayloadParts(Entries(Signed(m))), '&')
  }

  function Encode(m: Fields): Bytes { EncodePairs(Entries(m)) }

  class Params {
    var inner: Fields

    predicate Valid() reads this { NoEmptyValues(inner) }

    constructor ()
      ensures inner == map[] && Valid()
    {
      inner := map[];
    }

    method Insert(key: Bytes, value: Bytes)
      requires Valid()
      modifies this
      ensures inner == WithField(old(inner), key, value) && Valid()
    {
      if value != [] {
        inner := inner[key := value];
      }
    }

    method InsertOpt(key: Bytes, value: Option<Bytes>)
      requires Valid()
      modifies this
      ensures inner == WithOptionalField(old(inner), key, value) && Valid()
    {
      match value
      case None =>
      case Some(v) => Insert(key, v);
    }

    method Remove(key: Bytes) returns (previous: Option<Bytes>)
      requires Valid()
      modifies this
      ensures inner == old(inner) - {key} && Valid()
      ensures previous == GetField(old(inner), key)
    {
      previous := GetField(inner, key);
      inner := inner - {key};
    }

    /** Keys of `other` win. */
    method Merge(other: Params)
      requires Valid() && other.Valid()
      modifies this
      ensures inner == old(inner) + old(other.inner) && Valid()
    {
      inner := inner + other.inner;
    }

    method BuildPayload() returns (payload: Bytes)
      ensures payload == SignPayload(inner)
    {
      var parts := CollectParts(Entries(inner));
      KeptEntries(inner);
      payload := Join(parts, '&');
    }

    method BuildQuery() returns (out: Bytes)
      ensures out == Encode(inner)
    {
      out := Serialize(Entries(inner));
    }
  }

  /** The loop of `sign_payload`: collect the parts in order, skipping the signature fields. */
  method CollectParts(ps: seq<Pair>) returns (parts: seq<Bytes>)
    ensures parts == PayloadParts(KeptPairs(ps))
  {
    parts := [];
    for i := 0 to |ps|
      invariant parts == PayloadParts(KeptPairs(ps[..i]))
    {
      KeptPartsSnoc(ps, i);
      if !IsSignatureField(ps[i].0) {
        parts := parts + [PayloadPart(ps[i])];
      }
    }
    assert ps[..|ps|] == ps;
  }

  /** The loop of `encode`: the serializer appends one pair after the other to its buffer. */
  method Serialize(ps: seq<Pair>) returns (out: Bytes)
    ensures out == EncodePairs(ps)
  {
    out := [];
    for i := 0 to |ps|
      invariant out == EncodePairs(ps[..i])
    {
      EncodePairsSnoc(ps[..i], ps[i]);
      assert ps[..i + 1] == ps[..i] + [ps[i]];
      if i > 0 { out := out + "&"; }
      out := out + EncodePair(ps[i]);
    }
    assert ps[..|ps|] == ps;
  }

  /** `Params::from_iter`. */
  method FromIter(pairs: seq<Pair>) returns (params: Params)
    ensures fresh(params) && params.Valid()
    ensures params.inner == InsertAll(map[], pairs)
  {
    params := new Params();
    for i := 0 to |pairs|
      invariant params.Valid()
      invariant InsertAll(map[], pairs) == InsertAll(params.inner, pairs[i..])
    {
      params.Insert(pairs[i].0, pairs[i].1);
      assert pairs[i..][1..] == pairs[i + 1..];
    }
  }

  // ---- The payload ----

  function KeptPairs(ps: seq<Pair>): (kept: seq<Pair>)
    ensures forall p :: p in kept <==> p in ps && !IsSignatureField(p.0)
  {
    if ps == [] then []
    else if IsSignatureField(ps[0].0) then KeptPairs(ps[1..])
    else [ps[0]] + KeptPairs(ps[1..])
  }

  lemma {:induction false} KeptSnoc(ps: seq<Pair>, p: Pair)
    ensures KeptPairs(ps + [p]) == KeptPairs(ps) + (if IsSignatureField(p.0) then [] else [p])
  {
    if ps == [] {
      assert ps + [p] == [p];
    } else {
      assert (ps + [p])[1..] == ps[1..] + [p];
      KeptSnoc(ps[1..], p);
    }
  }

  lemma KeptPartsSnoc(ps: seq<Pair>, i: nat)
    requires i < |ps|
    ensures PayloadParts(KeptPairs(ps[..i + 1]))
         == PayloadParts(KeptPairs(ps[..i])) + if IsSignatureField(ps[i].0) then [] else [PayloadPart(ps[i])]
  {
    KeptSnoc(ps[..i], ps[i]);
    assert ps[..i + 1] == ps[..i] + [ps[i]];
  }

  lemma {:induction false} KeptSorted(ps: seq<Pair>)
    requires SortedPairs(ps)
    ensures SortedPairs(KeptPairs(ps))
  {
    if ps != [] {
      KeptSorted(ps[1..]);
      forall p | p in ps[1..] ensures Less(ps[0].0, p.0) {
        var i :| 1 <= i < |ps| && ps[i] == p;
      }
    }
  }

  lemma KeptList(ps: seq<Pair>, m: Fields)
    requires Lists(ps, m)
    ensures Lists(KeptPairs(ps), Signed(m))
  {
  }

  lemma KeptEntries(m: Fields)
    ensures KeptPairs(Entries(m)) == Entries(Signed(m))
  {
    KeptSorted(Entries(m));
    EntriesList(m);
    KeptList(Entries(m), m);
    SortedPairsUnique(KeptPairs(Entries(m)), Signed(m));
  }

  /** The payload does not see `sign` and `sign_type`, whatever they hold. */
  lemma PayloadIgnoresSignature(m: Fields, n: Fields)
    requires Signed(m) == Signed(n)
    ensures SignPayload(m) == SignPayload(n)
  {
  }

  /** Keys without `=` and `&`, values without `&`. */
  predicate Delimited(m: Fields) {
    forall k :: k in m ==> '=' !in k && '&' !in k && '&' !in m[k]
  }

  function ReadPayload(s: Bytes): seq<Pair> {
    var parts := Split(s, '&');
    seq(|parts|, i requires 0 <= i < |parts| => SplitOnce(parts[i], '='))
  }

  /** Without stray delimiters the payload can be read back into the pairs it was made of. */
  lemma PayloadReadsBack(m: Fields)
    requires Delimited(Signed(m)) && Signed(m) != map[]
    ensures ReadPayload(SignPayload(m)) == Entries(Signed(m))
    ensures SignPayload(m) != []
  {
    PartsReadBack(Entries(Signed(m)));
  }

  lemma PartsReadBack(ps: seq<Pair>)
    requires ps != []
    requires forall p :: p in ps ==> '=' !in p.0 && '&' !in p.0 && '&' !in p.1
    ensures ReadPayload(Join(PayloadParts(ps), '&')) == ps && Join(PayloadParts(ps), '&') != []
  {
    var parts := PayloadParts(ps);
    forall i | 0 <= i < |ps|
      ensures '&' !in parts[i] && SplitOnce(parts[i], '=') == ps[i]
    {
      assert ps[i] in ps;
      SplitOnceAt(ps[i].0, ps[i].1, '=');
    }
    SplitJoin(parts, '&');
    assert |parts[0]| > 0;
  }

  /** The payload determines the signed fields, and is determined by them. */
  lemma PayloadInjective(m: Fields, n: Fields)
    requires Delimited(Signed(m)) && Delimited(Signed(n))
    ensures SignPayload(m) == SignPayload(n) <==> Signed(m) == Signed(n)
  {
    if SignPayload(m) == SignPayload(n) {
      if Signed(m) != map[] { PayloadReadsBack(m); }
      if Signed(n) != map[] { PayloadReadsBack(n); }
      EntriesList(Signed(m));
      EntriesList(Signed(n));
      ListsUnique(Entries(Signed(m)), Signed(m), Signed(n));
    }
  }

  lemma UnsignedMap(m: Fields)
    requires forall k :: k in m ==> !IsSignatureField(k)
    ensures Signed(m) == m
  {
  }

  lemma PayloadOfList(ps: seq<Pair>, m: Fields)
    requires SortedPairs(ps) && Lists(ps, m)
    requires forall k :: k in m ==> !IsSignatureField(k)
    ensures SignPayload(m) == Join(PayloadParts(ps), '&')
  {
    UnsignedMap(m);
    SortedPairsUnique(ps, m);
  }

  lemma CollidingText(p: Pair, q: Pair, x: Bytes)
    requires x == p.1 + ['&'] + PayloadPart(q)
    ensures Join(PayloadParts([(p.0, x)]), '&') == Join(PayloadParts([p, q]), '&')
  {
    assert PayloadParts([p, q]) == [PayloadPart(p)] + [PayloadPart(q)];
    JoinSnoc([PayloadPart(p)], PayloadPart(q), '&');
    assert p.0 + "=" + x == (p.0 + "=" + p.1) + ['&'] + PayloadPart(q);
  }

  /**
    Values are signed unencoded, so an `&` inside one can imitate another field: two maps that
    differ in the number of their fields have the same payload.
   */
  lemma PayloadCollision(p: Pair, q: Pair, ps: seq<Pair>, qs: seq<Pair>, m: Fields, n: Fields)
    requires Less(p.0, q.0) && !IsSignatureField(p.0) && !IsSignatureField(q.0)
    requires ps == [(p.0, p.1 + ['&'] + PayloadPart(q))] && qs == [p, q] && Lists(ps, m) && Lists(qs, n)
    ensures SignPayload(m) == SignPayload(n) && m != n
    ensures p.1 != [] && q.1 != [] ==> NoEmptyValues(m) && NoEmptyValues(n)
  {
    CollidingText(p, q, p.1 + ['&'] + PayloadPart(q));
    OneFieldMore(p, q, ps, qs, m, n);
    PairShapes(ps[0], p, q, ps, qs);
    SamePayload(ps, qs, m, n);
    PairValues(ps[0], p, q, ps, qs, m, n);
  }

  lemma PairValues(x: Pair, p: Pair, q: Pair, ps: seq<Pair>, qs: seq<Pair>, m: Fields, n: Fields)
    requires ps == [x] && qs == [p, q] && Lists(ps, m) && Lists(qs, n) && x.1 != []
    ensures p.1 != [] && q.1 != [] ==> NoEmptyValues(m) && NoEmptyValues(n)
  {
    ListedValues(ps, m);
    ListedValues(qs, n);
  }

  predicate AllUnsigned(ps: seq<Pair>) { forall i :: 0 <= i < |ps| ==> !IsSignatureField(ps[i].0) }

  lemma PairShapes(x: Pair, p: Pair, q: Pair, ps: seq<Pair>, qs: seq<Pair>)
    requires ps == [x] && qs == [p, q] && Less(p.0, q.0)
    requires !IsSignatureField(x.0) && !IsSignatureField(p.0) && !IsSignatureField(q.0)
    ensures SortedPairs(ps) && SortedPairs(qs) && AllUnsigned(ps) && AllUnsigned(qs)
  {
  }

  lemma SamePayload(ps: seq<Pair>, qs: seq<Pair>, m: Fields, n: Fields)
    requires SortedPairs(ps) && Lists(ps, m) && AllUnsigned(ps)
    requires SortedPairs(qs) && Lists(qs, n) && AllUnsigned(qs)
    requires Join(PayloadParts(ps), '&') == Join(PayloadParts(qs), '&')
    ensures SignPayload(m) == SignPayload(n)
  {
    ListedNames(ps, m);
    ListedNames(qs, n);
    PayloadOfList(ps, m);
    PayloadOfList(qs, n);
  }

  lemma ListedNames(ps: seq<Pair>, m: Fields)
    requires Lists(ps, m) && AllUnsigned(ps)
    ensures forall k :: k in m ==> !IsSignatureField(k)
  {
  }

  lemma ListedValues(ps: seq<Pair>, m: Fields)
    requires Lists(ps, m)
    ensures (forall i :: 0 <= i < |ps| ==> ps[i].1 != []) ==> NoEmptyValues(m)
  {
  }

  lemma OneFieldMore(p: Pair, q: Pair, ps: seq<Pair>, qs: seq<Pair>, m: Fields, n: Fields)
    requires Less(p.0, q.0) && |ps| == 1 && ps[0].0 == p.0 && qs == [p, q] && Lists(ps, m) && Lists(qs, n)
    ensures m != n
  {
    assert q in qs && q.0 in n;
    LessIrreflexive(p.0);
  }

  // ---- Insertion order ----

  lemma {:induction false} InsertAllContents(m: Fields, ps: seq<Pair>, k: Bytes)
    requires DistinctKeys(ps)
    ensures forall p :: p in ps && p.0 == k && p.1 != [] ==>
              GetField(InsertAll(m, ps), k) == Some(p.1)
    ensures (forall p :: p in ps && p.0 == k ==> p.1 == []) ==>
              GetField(InsertAll(m, ps), k) == GetField(m, k)
    decreases |ps|
  {
    if ps != [] {
      InsertAllContents(WithField(m, ps[0].0, ps[0].1), ps[1..], k);
    }
  }

  /** Distinct keys may be inserted in any order: the map, and so its payload, is the same. */
  lemma InsertionOrderIrrelevant(ps: seq<Pair>, qs: seq<Pair>)
    requires DistinctKeys(ps) && DistinctKeys(qs)
    requires forall p :: p in ps <==> p in qs
    ensures InsertAll(map[], ps) == InsertAll(map[], qs)
    ensures SignPayload(InsertAll(map[], ps)) == SignPayload(InsertAll(map[], qs))
  {
    forall k ensures GetField(InsertAll(map[], ps), k) == GetField(InsertAll(map[], qs), k) {
      InsertAllContents(map[], ps, k);
      InsertAllContents(map[], qs, k);
    }
    MapsEqual(InsertAll(map[], ps), InsertAll(map[], qs));
  }

  lemma MapsEqual(m: Fields, n: Fields)
    requires forall k :: GetField(m, k) == GetField(n, k)
    ensures m == n
  {
    forall k ensures k in m <==> k in n { assert GetField(m, k) == GetField(n, k); }
    forall k | k in m ensures m[k] == n[k] { assert GetField(m, k) == GetField(n, k); }
  }
}
