/** Strict parsing of payment notifications. */
module Notifications {
  import opened Wrappers
  import opened ByteStrings
  import opened Utf8
  import opened SortedMaps
  import opened FormCodec

  datatype Limits = Limits(maxEncodedBytes: nat, maxFields: nat)

  const DEFAULT_LIMITS := Limits(16 * 1024, 128)

  datatype Source = Query | Form

  datatype Entry = Entry(key: Bytes, value: Bytes, source: Source)

  datatype NotifyError =
    | TooManyBytes | TooManyFields | EmptyFieldName | BadEncoding(cause: DecodeError)
    | DuplicateField(source: Source) | ConflictingField
    | MissingField(key: Bytes) | UnsupportedSignType | VerifyFailed
    | InvalidPid | PidMismatch | InvalidTradeNo | InvalidOutTradeNo
    | InvalidType | InvalidName | InvalidMoney | BlankTradeStatus

  // ---- Parsing ----

  /** One non-empty piece between two `&`. */
  function ParsePair(pair: Bytes, source: Source): Result<Entry, NotifyError> {
    var (rawKey, rawValue) := SplitOnce(pair, '=');
    match DecodeComponent(rawKey)
    case Err(e) => Err(BadEncoding(e))
    case Ok(key) =>
      if key == [] then Err(EmptyFieldName)
      else
        match DecodeComponent(rawValue)
        case Err(e) => Err(BadEncoding(e))
        case Ok(value) => Ok(Entry(key, value, source))
  }

  function ParsePairs(pairs: seq<Bytes>, source: Source, maxFields: nat, entries: seq<Entry>)
    : Result<seq<Entry>, NotifyError>
    decreases |pairs|
  {
    if pairs == [] then Ok(entries)
    else if pairs[0] == [] then ParsePairs(pairs[1..], source, maxFields, entries)
    else if |entries| >= maxFields then Err(TooManyFields)
    else
      match ParsePair(pairs[0], source)
      case Err(e) => Err(e)
      case Ok(entry) => ParsePairs(pairs[1..], source, maxFields, entries + [entry])
  }

  function ParseSource(input: Option<Bytes>, source: Source, maxFields: nat, entries: seq<Entry>)
    : Result<seq<Entry>, NotifyError>
  {
    if input.GetOr([]) == [] then Ok(entries)
    else ParsePairs(Split(input.value, '&'), source, maxFields, entries)
  }

  /** The loop of `parse_source`, appending to the caller's entries. */
  method ReadSource(input: Option<Bytes>, source: Source, maxFields: nat, entries: seq<Entry>)
    returns (r: Result<seq<Entry>, NotifyError>)
    ensures r == ParseSource(input, source, maxFields, entries)
  {
    if input.GetOr([]) == [] { return Ok(entries); }
    var pairs := Split(input.value, '&');
    var out := entries;
    for i := 0 to |pairs|
      invariant ParsePairs(pairs, source, maxFields, entries)
             == ParsePairs(pairs[i..], source, maxFields, out)
    {
      assert pairs[i..][1..] == pairs[i + 1..];
      if pairs[i] == [] { continue; }
      if |out| >= maxFields { return Err(TooManyFields); }
      var entry := ParsePair(pairs[i], source);
      if entry.Err? { return Err(entry.error); }
      out := out + [entry.value];
    }
    r := Ok(out);
  }

  function EncodedLength(query: Option<Bytes>, form: Option<Bytes>): nat {
    |query.GetOr([])| + |form.GetOr([])|
  }

  function ParseRaw(query: Option<Bytes>, form: Option<Bytes>, limits: Limits)
    : Result<seq<Entry>, NotifyError>
  {
    if EncodedLength(query, form) > limits.maxEncodedBytes then Err(TooManyBytes)
    else
      match ParseSource(query, Query, limits.maxFields, [])
      case Err(e) => Err(e)
      case Ok(entries) => ParseSource(form, Form, limits.maxFields, entries)
  }

  /** What the strict parser lets through. */
  predicate IsParsedEntry(e: Entry) {
    e.key != [] && ValidUtf8(e.key) && ValidUtf8(e.value)
  }

  lemma PrefixSnoc(entries: seq<Entry>, entry: Entry, all: seq<Entry>)
    requires entries + [entry] <= all
    ensures entries <= all && all[|entries|..] == [entry] + all[|entries| + 1..]
  {
    assert all[|entries|] == (entries + [entry])[|entries|] == entry;
  }

  lemma {:induction false} ParsePairsSound(pairs: seq<Bytes>, source: Source, maxFields: nat, entries: seq<Entry>)
    requires |entries| <= maxFields
    requires forall e :: e in entries ==> IsParsedEntry(e)
    requires ParsePairs(pairs, source, maxFields, entries).Ok?
    ensures var all := ParsePairs(pairs, source, maxFields, entries).value;
            && entries <= all && |all| <= maxFields
            && (forall e :: e in all ==> IsParsedEntry(e))
            && (forall e :: e in all[|entries|..] ==> e.source == source)
    decreases |pairs|
  {
    if pairs != [] {
      if pairs[0] == [] {
        ParsePairsSound(pairs[1..], source, maxFields, entries);
      } else {
        var entry := ParsePair(pairs[0], source).value;
        ParsePairsSound(pairs[1..], source, maxFields, entries + [entry]);
        PrefixSnoc(entries, entry, ParsePairs(pairs, source, maxFields, entries).value);
      }
    }
  }

  /** Accepted input respects both limits; every field has a name and is well-formed text. */
  lemma ParseRawSound(query: Option<Bytes>, form: Option<Bytes>, limits: Limits)
    requires ParseRaw(query, form, limits).Ok?
    ensures EncodedLength(query, form) <= limits.maxEncodedBytes
    ensures |ParseRaw(query, form, limits).value| <= limits.maxFields
    ensures forall e :: e in ParseRaw(query, form, limits).value ==> IsParsedEntry(e)
  {
    if query.GetOr([]) != [] {
      ParsePairsSound(Split(query.value, '&'), Query, limits.maxFields, []);
    }
    var first := ParseSource(query, Query, limits.maxFields, []).value;
    if form.GetOr([]) != [] {
      ParsePairsSound(Split(form.value, '&'), Form, limits.maxFields, first);
    }
  }

  /** The pieces that count. */
  function Pieces(pairs: seq<Bytes>): seq<Bytes> {
    if pairs == [] then []
    else if pairs[0] == [] then Pieces(pairs[1..])
    else [pairs[0]] + Pieces(pairs[1..])
  }

  predicate AllParse(pieces: seq<Bytes>, source: Source) {
    forall i :: 0 <= i < |pieces| ==> ParsePair(pieces[i], source).Ok?
  }

  /** Empty pieces are skipped; the others are accepted exactly when all parse and there are not too many. */
  lemma {:induction false} ParsePairsIff(pairs: seq<Bytes>, source: Source, maxFields: nat, entries: seq<Entry>)
    requires |entries| <= maxFields
    ensures ParsePairs(pairs, source, maxFields, entries).Ok? <==>
              |entries| + |Pieces(pairs)| <= maxFields && AllParse(Pieces(pairs), source)
    decreases |pairs|
  {
    if pairs != [] {
      if pairs[0] == [] {
        ParsePairsIff(pairs[1..], source, maxFields, entries);
      } else if |entries| < maxFields {
        var rest := Pieces(pairs[1..]);
        assert AllParse([pairs[0]] + rest, source) <==> ParsePair(pairs[0], source).Ok? && AllParse(rest, source) by {
          AllParseHead(pairs[0], rest, source);
        }
        if ParsePair(pairs[0], source).Ok? {
          ParsePairsIff(pairs[1..], source, maxFields, entries + [ParsePair(pairs[0], source).value]);
        }
      }
    }
  }

  lemma AllParseHead(piece: Bytes, rest: seq<Bytes>, source: Source)
    ensures AllParse([piece] + rest, source) <==> ParsePair(piece, source).Ok? && AllParse(rest, source)
  {
    var all := [piece] + rest;
    if AllParse(all, source) {
      assert all[0] == piece;
      forall i | 0 <= i < |rest| ensures ParsePair(rest[i], source).Ok? { assert all[i + 1] == rest[i]; }
    }
  }

  lemma {:induction false} ParsePairsSize(pairs: seq<Bytes>, source: Source, maxFields: nat, entries: seq<Entry>)
    ensures ParsePairs(pairs, source, maxFields, entries) != Err(TooManyBytes)
    decreases |pairs|
  {
    if pairs != [] {
      if pairs[0] == [] {
        ParsePairsSize(pairs[1..], source, maxFields, entries);
      } else if |entries| < maxFields && ParsePair(pairs[0], source).Ok? {
        ParsePairsSize(pairs[1..], source, maxFields, entries + [ParsePair(pairs[0], source).value]);
      }
    }
  }

  lemma ParseSourceSize(input: Option<Bytes>, source: Source, maxFields: nat, entries: seq<Entry>)
    ensures ParseSource(input, source, maxFields, entries) != Err(TooManyBytes)
  {
    if input.Some? { ParsePairsSize(Split(input.value, '&'), source, maxFields, entries); }
  }

  /** Input is refused for its size exactly when query and form together exceed the limit. */
  lemma TooManyBytesIff(query: Option<Bytes>, form: Option<Bytes>, limits: Limits)
    ensures ParseRaw(query, form, limits) == Err(TooManyBytes) <==>
              (if query.Some? then |query.value| else 0) + (if form.Some? then |form.value| else 0)
              > limits.maxEncodedBytes
  {
    ParseSourceSize(query, Query, limits.maxFields, []);
    if ParseSource(query, Query, limits.maxFields, []).Ok? {
      ParseSourceSize(form, Form, limits.maxFields, ParseSource(query, Query, limits.maxFields, []).value);
    }
  }

  // ---- Printer against parser ----

  predicate IsWritablePair(p: Pair) {
    p.0 != [] && ValidUtf8(p.0) && ValidUtf8(p.1)
  }

  predicate Writable(ps: seq<Pair>) {
    forall p :: p in ps ==> IsWritablePair(p)
  }

  function Tagged(ps: seq<Pair>, source: Source): (es: seq<Entry>)
    ensures |es| == |ps|
    ensures forall i :: 0 <= i < |ps| ==> es[i] == Entry(ps[i].0, ps[i].1, source)
  {
    seq(|ps|, i requires 0 <= i < |ps| => Entry(ps[i].0, ps[i].1, source))
  }

  lemma ParsePairOfEncoded(p: Pair, source: Source)
    requires IsWritablePair(p)
    ensures ParsePair(EncodePair(p), source) == Ok(Entry(p.0, p.1, source))
    ensures EncodePair(p) != []
  {
    EncodePairSplits(p);
    ComponentRoundTrip(p.0);
    ComponentRoundTrip(p.1);
  }

  lemma TaggedHead(entries: seq<Entry>, ps: seq<Pair>, source: Source)
    requires ps != []
    ensures entries + [Entry(ps[0].0, ps[0].1, source)] + Tagged(ps[1..], source) == entries + Tagged(ps, source)
  {
  }

  lemma {:induction false} ParsePairsOfEncoded(ps: seq<Pair>, source: Source, maxFields: nat, entries: seq<Entry>)
    requires Writable(ps) && |entries| + |ps| <= maxFields
    ensures ParsePairs(EncodedPairs(ps), source, maxFields, entries)
         == Ok(entries + Tagged(ps, source))
    decreases |ps|
  {
    if ps == [] {
      assert entries + Tagged(ps, source) == entries;
    } else {
      assert ps[0] in ps;
      ParsePairOfEncoded(ps[0], source);
      var entry := Entry(ps[0].0, ps[0].1, source);
      assert EncodedPairs(ps)[1..] == EncodedPairs(ps[1..]);
      ParsePairsOfEncoded(ps[1..], source, maxFields, entries + [entry]);
      TaggedHead(entries, ps, source);
    }
  }

  lemma ParseSourceOfEncoded(ps: seq<Pair>, source: Source, maxFields: nat, entries: seq<Entry>)
    requires Writable(ps) && |entries| + |ps| <= maxFields
    ensures ParseSource(Some(EncodePairs(ps)), source, maxFields, entries)
         == Ok(entries + Tagged(ps, source))
  {
    if ps == [] {
      assert entries + Tagged(ps, source) == entries;
    } else {
      EncodePairsSplits(ps);
      ParsePairsOfEncoded(ps, source, maxFields, entries);
    }
  }

  /** Serialized query and form pairs are read back, in order and tagged with their origin. */
  lemma ParseRawOfEncoded(qs: seq<Pair>, fs: seq<Pair>, limits: Limits)
    requires Writable(qs) && Writable(fs)
    requires |qs| + |fs| <= limits.maxFields
    requires |EncodePairs(qs)| + |EncodePairs(fs)| <= limits.maxEncodedBytes
    ensures ParseRaw(Some(EncodePairs(qs)), Some(EncodePairs(fs)), limits)
         == Ok(Tagged(qs, Query) + Tagged(fs, Form))
  {
    ParseSourceOfEncoded(qs, Query, limits.maxFields, []);
    assert [] + Tagged(qs, Query) == Tagged(qs, Query);
    ParseSourceOfEncoded(fs, Form, limits.maxFields, Tagged(qs, Query));
  }
}
