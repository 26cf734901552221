/** Merging the query and form fields of a notification into one parameter map. */
module Merging {
  import opened Wrappers
  import opened ByteStrings
  import opened Utf8
  import opened SortedMaps
  import opened FormCodec
  import opened ParamMaps
  import opened TextMaps
  import opened Notifications

  predicate DuplicateAt(es: seq<Entry>, j: nat)
    requires j < |es|
  {
    exists i :: 0 <= i < j && es[i].key == es[j].key && es[i].source == es[j].source
  }

  function FirstDuplicate(es: seq<Entry>, start: nat): (r: Option<Source>)
    requires start <= |es|
    ensures r.None? <==> forall j :: start <= j < |es| ==> !DuplicateAt(es, j)
    decreases |es| - start
  {
    if start == |es| then None
    else if DuplicateAt(es, start) then Some(es[start].source)
    else FirstDuplicate(es, start + 1)
  }

  /** No key repeats within one source. */
  predicate NoDuplicates(es: seq<Entry>) {
    forall i, j :: 0 <= i < j < |es| ==> es[i].key != es[j].key || es[i].source != es[j].source
  }

  /** A key has one value only. */
  predicate Agreeing(es: seq<Entry>) {
    forall d, e :: d in es && e in es && d.key == e.key ==> d.value == e.value
  }

  /** All fields of both sources, without the empty ones. */
  ghost function UnionOf(es: seq<Entry>): Fields
    requires Agreeing(es)
  {
    map e | e in es && e.value != [] :: e.key := e.value
  }

  ghost function Canonical(es: seq<Entry>): Result<Fields, NotifyError> {
    if FirstDuplicate(es, 0).Some? then Err(DuplicateField(FirstDuplicate(es, 0).value))
    else if !Agreeing(es) then Err(ConflictingField)
    else Ok(UnionOf(es))
  }

  lemma NoDuplicatesIff(es: seq<Entry>)
    ensures NoDuplicates(es) <==> FirstDuplicate(es, 0).None?
  {
    if FirstDuplicate(es, 0).None? {
      forall i, j | 0 <= i < j < |es|
        ensures es[i].key != es[j].key || es[i].source != es[j].source
      {
        assert !DuplicateAt(es, j);
      }
    }
  }

  lemma UnionContents(es: seq<Entry>, k: Bytes, v: Bytes)
    requires Agreeing(es)
    ensures GetField(UnionOf(es), k) == Some(v) <==>
            v != [] && (Entry(k, v, Query) in es || Entry(k, v, Form) in es)
  {
    var u := UnionOf(es);
    if GetField(u, k) == Some(v) {
      var d :| d in es && d.value != [] && d.key == k;
      assert u[d.key] == d.value;
      assert d.source == Query || d.source == Form;
    }
    var q, f := Entry(k, v, Query), Entry(k, v, Form);
    if v != [] && q in es { assert u[q.key] == v; }
    if v != [] && f in es { assert u[f.key] == v; }
  }

  lemma {:induction false} FirstDuplicateIs(es: seq<Entry>, start: nat, j: nat)
    requires start <= j < |es| && DuplicateAt(es, j) && forall i :: start <= i < j ==> !DuplicateAt(es, i)
    ensures FirstDuplicate(es, start) == Some(es[j].source)
    decreases j - start
  {
    if start < j { FirstDuplicateIs(es, start + 1, j); }
  }

  /** A repeated key is reported, the first one and with its source, before any disagreement. */
  lemma CanonicalErrors(es: seq<Entry>, j: nat)
    ensures j < |es| && DuplicateAt(es, j) && (forall i :: 0 <= i < j ==> !DuplicateAt(es, i)) ==>
              Canonical(es) == Err(DuplicateField(es[j].source))
    ensures NoDuplicates(es) && !Agreeing(es) ==> Canonical(es) == Err(ConflictingField)
  {
    NoDuplicatesIff(es);
    if j < |es| && DuplicateAt(es, j) && forall i :: 0 <= i < j ==> !DuplicateAt(es, i) {
      FirstDuplicateIs(es, 0, j);
    }
  }

  /** Merging succeeds exactly when no source repeats a key and the sources do not disagree. */
  lemma CanonicalIff(es: seq<Entry>)
    ensures Canonical(es).Ok? <==> NoDuplicates(es) && Agreeing(es)
    ensures Canonical(es).Ok? ==>
              forall k, v :: GetField(Canonical(es).value, k) == Some(v) <==>
                             v != [] && (Entry(k, v, Query) in es || Entry(k, v, Form) in es)
  {
    NoDuplicatesIff(es);
    if Canonical(es).Ok? {
      forall k, v { UnionContents(es, k, v); }
    }
  }

  lemma {:induction false} CopiesIff(es: seq<Entry>)
    ensures (forall e :: multiset(es)[e] <= 1) <==>
            (forall i, j :: 0 <= i < j < |es| ==> es[i] != es[j])
  {
    if es != [] {
      var head, rest := es[0], es[1..];
      assert es == [head] + rest;
      CopiesIff(rest);
      if forall e :: multiset(es)[e] <= 1 {
        assert multiset(es)[head] <= 1;
        assert head !in rest;
        forall e ensures multiset(rest)[e] <= 1 { assert multiset(es)[e] <= 1; }
      }
      if forall i, j :: 0 <= i < j < |es| ==> es[i] != es[j] {
        forall i, j | 0 <= i < j < |rest| ensures rest[i] != rest[j] {
          assert rest[i] == es[i + 1] && rest[j] == es[j + 1];
        }
        assert head !in rest by {
          if i :| 0 <= i < |rest| && rest[i] == head { assert false; }
        }
      }
    }
  }

  predicate KeyedBySource(es: seq<Entry>) {
    forall d, e :: d in es && e in es && d.key == e.key && d.source == e.source ==> d == e
  }

  lemma NoDuplicatesAsMultiset(es: seq<Entry>)
    ensures NoDuplicates(es) <==> KeyedBySource(es) && forall e :: multiset(es)[e] <= 1
  {
    CopiesIff(es);
    if NoDuplicates(es) {
      forall d, e | d in es && e in es && d.key == e.key && d.source == e.source ensures d == e {
        var i :| 0 <= i < |es| && es[i] == d;
        var j :| 0 <= j < |es| && es[j] == e;
        assert !(i < j) && !(j < i);
      }
    }
  }

  /** The order of the entries changes neither the outcome nor the merged map. */
  lemma CanonicalOrderIrrelevant(es: seq<Entry>, fs: seq<Entry>)
    requires multiset(es) == multiset(fs)
    ensures Canonical(es).Ok? <==> Canonical(fs).Ok?
    ensures Canonical(es).Ok? ==> Canonical(es).value == Canonical(fs).value
  {
    forall e ensures e in es <==> e in fs {
      assert e in multiset(es) <==> e in multiset(fs);
    }
    NoDuplicatesAsMultiset(es);
    NoDuplicatesAsMultiset(fs);
    CanonicalIff(es);
    CanonicalIff(fs);
    if Canonical(es).Ok? {
      var m, n := Canonical(es).value, Canonical(fs).value;
      forall k ensures GetField(m, k) == GetField(n, k) {
        if k in m { assert GetField(m, k) == Some(m[k]); assert GetField(n, k) == Some(m[k]); }
        if k in n { assert GetField(n, k) == Some(n[k]); assert GetField(m, k) == Some(n[k]); }
      }
      MapsEqual(m, n);
    }
  }

  /** How the fields read so far are filed. */
  ghost predicate Files(m: Fields, es: seq<Entry>, source: Source) {
    && (forall e :: e in es && e.source == source ==> e.key in m && m[e.key] == e.value)
    && (forall k :: k in m ==> Entry(k, m[k], source) in es)
  }

  /** The first loop of `canonicalize`: file every entry under its source. */
  method FileEntries(entries: seq<Entry>) returns (r: Result<(Fields, Fields), NotifyError>)
    ensures r.Err? ==> FirstDuplicate(entries, 0).Some? && r.error == DuplicateField(FirstDuplicate(entries, 0).value)
    ensures r.Ok? ==>
              && FirstDuplicate(entries, 0).None?
              && Files(r.value.0, entries, Query) && Files(r.value.1, entries, Form)
  {
    var query: Fields, form: Fields := map[], map[];
    for i := 0 to |entries|
      invariant FirstDuplicate(entries, 0) == FirstDuplicate(entries, i)
      invariant Files(query, entries[..i], Query) && Files(form, entries[..i], Form)
    {
      var e := entries[i];
      FilesSnoc(entries, i, query, Query);
      FilesSnoc(entries, i, form, Form);
      if e.source == Query {
        FiledIffDuplicate(entries, i, query);
        if e.key in query { return Err(DuplicateField(Query)); }
        query := query[e.key := e.value];
      } else {
        FiledIffDuplicate(entries, i, form);
        if e.key in form { return Err(DuplicateField(Form)); }
        form := form[e.key := e.value];
      }
    }
    assert entries[..|entries|] == entries;
    r := Ok((query, form));
  }

  /** One more entry is filed under its source. */
  lemma FilesSnoc(es: seq<Entry>, i: nat, m: Fields, source: Source)
    requires i < |es| && Files(m, es[..i], source)
    ensures es[i].source != source ==> Files(m, es[..i + 1], source)
    ensures es[i].source == source && es[i].key !in m ==> Files(m[es[i].key := es[i].value], es[..i + 1], source)
  {
    assert es[..i + 1] == es[..i] + [es[i]];
  }

  lemma FiledIffDuplicate(es: seq<Entry>, i: nat, m: Fields)
    requires i < |es| && Files(m, es[..i], es[i].source)
    ensures es[i].key in m <==> DuplicateAt(es, i)
  {
    var e := es[i];
    if e.key in m {
      assert Entry(e.key, m[e.key], e.source) in es[..i];
    }
    if DuplicateAt(es, i) {
      var j :| 0 <= j < i && es[j].key == e.key && es[j].source == e.source;
      assert es[j] in es[..i];
    }
  }

  /** The second loop: every form field that the query also has must be equal there. */
  method SharedFieldsAgree(query: Fields, form: Fields) returns (ok: bool)
    ensures ok <==> forall k :: k in query && k in form ==> query[k] == form[k]
  {
    var keys := SortedKeys(form.Keys);
    for i := 0 to |keys|
      invariant forall j :: 0 <= j < i && keys[j] in query ==> query[keys[j]] == form[keys[j]]
    {
      if keys[i] in query && query[keys[i]] != form[keys[i]] { return false; }
    }
    forall k | k in query && k in form ensures query[k] == form[k] {
      assert k in keys;
    }
    ok := true;
  }

  /** The third loop: insert the chained pairs, skipping names that are already present. */
  method Chain(pairs: seq<Pair>) returns (params: Params)
    ensures fresh(params) && params.Valid()
    ensures forall p :: p in pairs && p.1 != [] ==> p.0 in params.inner
    ensures forall k :: k in params.inner ==> (k, params.inner[k]) in pairs
  {
    params := new Params();
    for i := 0 to |pairs|
      invariant params.Valid()
      invariant forall p :: p in pairs[..i] && p.1 != [] ==> p.0 in params.inner
      invariant forall k :: k in params.inner ==> (k, params.inner[k]) in pairs
    {
      assert pairs[..i + 1] == pairs[..i] + [pairs[i]];
      if pairs[i].0 in params.inner { continue; }
      params.Insert(pairs[i].0, pairs[i].1);
    }
    assert pairs[..|pairs|] == pairs;
  }

  method Canonicalize(entries: seq<Entry>) returns (r: Result<Params, NotifyError>)
    ensures r.Ok? ==> fresh(r.value) && r.value.Valid()
    ensures r.Ok? ==> Canonical(entries) == Ok(r.value.inner)
    ensures r.Err? ==> Canonical(entries) == Err(r.error)
  {
    var filed := FileEntries(entries);
    if filed.Err? { return Err(filed.error); }
    var (query, form) := filed.value;
    var agree := SharedFieldsAgree(query, form);
    FiledAgree(entries, query, form);
    if !agree { return Err(ConflictingField); }
    var params := Chain(Entries(query) + Entries(form));
    ChainedPairs(query, form, params.inner);
    ChainedIsUnion(entries, query, form, params.inner);
    r := Ok(params);
  }

  lemma FiledAgree(es: seq<Entry>, query: Fields, form: Fields)
    requires Files(query, es, Query) && Files(form, es, Form)
    ensures Agreeing(es) <==> forall k :: k in query && k in form ==> query[k] == form[k]
  {
    if Agreeing(es) {
      forall k | k in query && k in form ensures query[k] == form[k] {
        assert Entry(k, query[k], Query) in es && Entry(k, form[k], Form) in es;
      }
    }
  }

  /** `m` draws its fields from the two maps and leaves out the empty ones only. */
  predicate Chained(query: Fields, form: Fields, m: Fields) {
    && (forall k :: k in m ==> (k in query && query[k] == m[k]) || (k in form && form[k] == m[k]))
    && (forall k :: k in query && query[k] != [] ==> k in m)
    && (forall k :: k in form && form[k] != [] ==> k in m)
  }

  lemma ChainedPairs(query: Fields, form: Fields, m: Fields)
    requires forall p :: p in Entries(query) + Entries(form) && p.1 != [] ==> p.0 in m
    requires forall k :: k in m ==> (k, m[k]) in Entries(query) + Entries(form)
    ensures Chained(query, form, m)
  {
    EntriesList(query);
    EntriesList(form);
    forall k | k in m ensures (k in query && query[k] == m[k]) || (k in form && form[k] == m[k]) {
      assert (k, m[k]) in Entries(query) || (k, m[k]) in Entries(form);
    }
    forall k | k in query && query[k] != [] ensures k in m {
      assert (k, query[k]) in Entries(query) + Entries(form);
    }
    forall k | k in form && form[k] != [] ensures k in m {
      assert (k, form[k]) in Entries(query) + Entries(form);
    }
  }

  lemma ChainedIsUnion(es: seq<Entry>, query: Fields, form: Fields, m: Fields)
    requires Files(query, es, Query) && Files(form, es, Form) && Agreeing(es)
    requires NoEmptyValues(m) && Chained(query, form, m)
    ensures m == UnionOf(es)
  {
    var u := UnionOf(es);
    forall k ensures GetField(m, k) == GetField(u, k) {
      if k in m { UnionContents(es, k, m[k]); }
      if k in u { UnionContents(es, k, u[k]); }
    }
    MapsEqual(m, u);
  }

  // ---- Printer against parser ----

  /** `parse_notify_params` with explicit limits. */
  ghost function ParseNotify(query: Option<Bytes>, form: Option<Bytes>, limits: Limits)
    : Result<Fields, NotifyError>
  {
    match ParseRaw(query, form, limits)
    case Err(e) => Err(e)
    case Ok(entries) => Canonical(entries)
  }

  /** `parse_raw_notify_params_with_limits`. */
  method ReadRaw(query: Option<Bytes>, form: Option<Bytes>, limits: Limits) returns (r: Result<seq<Entry>, NotifyError>)
    ensures r == ParseRaw(query, form, limits)
  {
    if EncodedLength(query, form) > limits.maxEncodedBytes { return Err(TooManyBytes); }
    var entries := ReadSource(query, Query, limits.maxFields, []);
    if entries.Err? { return Err(entries.error); }
    r := ReadSource(form, Form, limits.maxFields, entries.value);
  }

  /** Parse, then merge. */
  method ReadNotify(query: Option<Bytes>, form: Option<Bytes>, limits: Limits) returns (r: Result<Params, NotifyError>)
    ensures r.Ok? ==> fresh(r.value) && r.value.Valid() && ParseNotify(query, form, limits) == Ok(r.value.inner)
    ensures r.Err? ==> ParseNotify(query, form, limits) == Err(r.error)
  {
    var entries := ReadRaw(query, form, limits);
    if entries.Err? { return Err(entries.error); }
    r := Canonicalize(entries.value);
  }

  /** The pairs of `m`, each in the query or the form or in both, in any order. */
  predicate SplitsInto(m: Fields, qs: seq<Pair>, fs: seq<Pair>) {
    && DistinctKeys(qs) && DistinctKeys(fs)
    && (forall p :: p in qs + fs ==> p.0 in m && m[p.0] == p.1)
    && (forall k :: k in m ==> (k, m[k]) in qs || (k, m[k]) in fs)
  }

  lemma TaggedMember(ps: seq<Pair>, source: Source, k: Bytes, v: Bytes)
    ensures Entry(k, v, source) in Tagged(ps, source) <==> (k, v) in ps
  {
    if (k, v) in ps {
      var i :| 0 <= i < |ps| && ps[i] == (k, v);
      assert Tagged(ps, source)[i] == Entry(k, v, source);
    }
  }

  lemma TaggedNoDuplicates(qs: seq<Pair>, fs: seq<Pair>)
    requires DistinctKeys(qs) && DistinctKeys(fs)
    ensures NoDuplicates(Tagged(qs, Query) + Tagged(fs, Form))
  {
  }

  lemma CanonicalOfSplit(m: Fields, qs: seq<Pair>, fs: seq<Pair>)
    requires NoEmptyValues(m) && SplitsInto(m, qs, fs)
    ensures Canonical(Tagged(qs, Query) + Tagged(fs, Form)) == Ok(m)
  {
    var es := Tagged(qs, Query) + Tagged(fs, Form);
    TaggedNoDuplicates(qs, fs);
    forall e | e in es ensures e.key in m && m[e.key] == e.value {
      TaggedMember(qs, Query, e.key, e.value);
      TaggedMember(fs, Form, e.key, e.value);
      assert e == Entry(e.key, e.value, e.source);
    }
    CanonicalIff(es);
    var u := UnionOf(es);
    forall k ensures GetField(u, k) == GetField(m, k) {
      if k in m {
        TaggedMember(qs, Query, k, m[k]);
        TaggedMember(fs, Form, k, m[k]);
        UnionContents(es, k, m[k]);
      }
      if k in u { UnionContents(es, k, u[k]); }
    }
    MapsEqual(u, m);
  }

  /**
    However the pairs of a map are distributed over query and form, and in whatever order they are
    written, the strict parser returns the map.
   */
  lemma SplitRoundTrip(m: Fields, qs: seq<Pair>, fs: seq<Pair>, limits: Limits)
    requires NoEmptyValues(m) && SplitsInto(m, qs, fs) && Writable(qs) && Writable(fs)
    requires |qs| + |fs| <= limits.maxFields
    requires |EncodePairs(qs)| + |EncodePairs(fs)| <= limits.maxEncodedBytes
    ensures ParseNotify(Some(EncodePairs(qs)), Some(EncodePairs(fs)), limits) == Ok(m)
  {
    ParseRawOfEncoded(qs, fs, limits);
    CanonicalOfSplit(m, qs, fs);
  }

  lemma EncodeReadsBack(m: Fields, limits: Limits)
    requires NoEmptyValues(m) && IsText(m)
    requires [] !in m && |m| <= limits.maxFields && |Encode(m)| <= limits.maxEncodedBytes
    ensures ParseNotify(Some(Encode(m)), None, limits) == Ok(m)
  {
    var ps := Entries(m);
    EntriesList(m);
    EntriesWritable(m);
    QueryReadsBack(ps, limits);
    CanonicalOfSplit(m, ps, []);
  }

  lemma EntriesWritable(m: Fields)
    requires IsText(m) && [] !in m
    ensures Writable(Entries(m))
  {
    EntriesList(m);
  }

  lemma QueryReadsBack(ps: seq<Pair>, limits: Limits)
    requires Writable(ps) && |ps| <= limits.maxFields && |EncodePairs(ps)| <= limits.maxEncodedBytes
    ensures ParseRaw(Some(EncodePairs(ps)), None, limits) == Ok(Tagged(ps, Query) + Tagged([], Form))
  {
    ParseSourceOfEncoded(ps, Query, limits.maxFields, []);
    assert [] + Tagged(ps, Query) == Tagged(ps, Query) + Tagged([], Form);
  }

  /** Whatever the input, an accepted notification has named fields only and no more than the limit. */
  lemma AcceptedIsBounded(query: Option<Bytes>, form: Option<Bytes>, limits: Limits)
    requires ParseNotify(query, form, limits).Ok?
    ensures EncodedLength(query, form) <= limits.maxEncodedBytes
    ensures |ParseNotify(query, form, limits).value| <= limits.maxFields
    ensures NoEmptyValues(ParseNotify(query, form, limits).value)
    ensures IsText(ParseNotify(query, form, limits).value)
    ensures [] !in ParseNotify(query, form, limits).value
  {
    ParseRawSound(query, form, limits);
    var es := ParseRaw(query, form, limits).value;
    UnionSize(es);
    var u := UnionOf(es);
    forall k | k in u ensures k != [] && ValidUtf8(k) && ValidUtf8(u[k]) && u[k] != [] {
      UnionContents(es, k, u[k]);
      assert Entry(k, u[k], Query) in es || Entry(k, u[k], Form) in es;
    }
  }

  /**
    The serialized form of a parameter map reads back as that map exactly when no name is empty and
    both limits are kept.
   */
  lemma EncodeRoundTripIff(m: Fields, limits: Limits)
    requires NoEmptyValues(m) && IsText(m)
    ensures ParseNotify(Some(Encode(m)), None, limits) == Ok(m) <==>
            [] !in m && |m| <= limits.maxFields && |Encode(m)| <= limits.maxEncodedBytes
  {
    if [] !in m && |m| <= limits.maxFields && |Encode(m)| <= limits.maxEncodedBytes {
      EncodeReadsBack(m, limits);
    }
    if ParseNotify(Some(Encode(m)), None, limits) == Ok(m) {
      AcceptedIsBounded(Some(Encode(m)), None, limits);
    }
  }

  /** Merging never adds fields. */
  lemma UnionSize(es: seq<Entry>)
    requires Agreeing(es)
    ensures |UnionOf(es)| <= |es|
  {
    var keys := KeySet(es);
    forall k | k in UnionOf(es).Keys ensures k in keys {
      var e :| e in es && e.key == k;
    }
    SubsetSize(UnionOf(es).Keys, keys);
  }

  function KeySet(es: seq<Entry>): (keys: set<Bytes>)
    ensures forall e :: e in es ==> e.key in keys
    ensures |keys| <= |es|
  {
    if es == [] then {} else {es[0].key} + KeySet(es[1..])
  }

  lemma {:induction false} SubsetSize(a: set<Bytes>, b: set<Bytes>)
    requires a <= b
    ensures |a| <= |b|
  {
    if a != {} {
      var x :| x in a;
      SubsetSize(a - {x}, b - {x});
    }
  }

  /** Two maps with the same serialized form are the same map. */
  lemma EncodeInjective(m: Fields, n: Fields)
    requires NoEmptyValues(m) && NoEmptyValues(n) && IsText(m) && IsText(n)
    requires [] !in m && [] !in n && Encode(m) == Encode(n)
    ensures m == n
  {
    var limits := Limits(|Encode(m)|, |m| + |n|);
    EncodeRoundTripIff(m, limits);
    EncodeRoundTripIff(n, limits);
  }
}
