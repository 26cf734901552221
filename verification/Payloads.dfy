/**
  Which payloads belong to one set of signed fields only.

  Values are signed unencoded.  Names of parameters hold no delimiter, but a value may hold an `&`,
  and what follows it may read as another field.
 */
module Payloads {
  import opened Wrappers
  import opened ByteStrings
  import opened SortedMaps
  import opened ParamMaps

  /** What a `Params` with plain names holds: no `=` or `&` in a name, no empty value. */
  predicate PlainNames(m: Fields) {
    forall k :: k in m ==> '=' !in k && '&' !in k && m[k] != []
  }

  /** No other set of signed fields with plain names has this payload. */
  ghost predicate Determined(m: Fields) {
    forall n: Fields {:trigger SignPayload(n)} ::
      PlainNames(Signed(n)) && SignPayload(n) == SignPayload(m) ==> Signed(n) == Signed(m)
  }

  /**
    The value can be cut at an `&` so that what follows is a field that sorts behind `key`: a plain
    name that is not signed over, `=` and a non-empty value.
   */
  predicate Splittable(key: Bytes, value: Bytes) {
    exists i, j :: 0 < i < j < |value| && CutsAt(key, value, i, j)
  }

  predicate CutsAt(key: Bytes, value: Bytes, i: nat, j: nat) {
    && 0 < i < j < |value| - 1 && value[i] == '&' && value[j] == '='
    && '=' !in value[i + 1..j] && '&' !in value[i + 1..j]
    && Less(key, value[i + 1..j]) && !IsSignatureField(value[i + 1..j])
  }

  // ---- Payloads of pairs ----

  function Text(ps: seq<Pair>): Bytes { Join(PayloadParts(ps), '&') }

  lemma TextOfOne(p: Pair)
    ensures Text([p]) == p.0 + ['='] + p.1
  {
    assert PayloadParts([p]) == [PayloadPart(p)];
  }

  lemma TextSplits(ps: seq<Pair>)
    requires |ps| >= 2
    ensures Text(ps) == ps[0].0 + ['='] + (ps[0].1 + ['&'] + Text(ps[1..]))
  {
    assert PayloadParts(ps)[1..] == PayloadParts(ps[1..]);
    assert Text(ps) == PayloadPart(ps[0]) + ['&'] + Text(ps[1..]);
  }

  lemma TextHead(ps: seq<Pair>)
    requires ps != []
    ensures Text(ps) == ps[0].0 + ['='] + (if |ps| == 1 then ps[0].1 else ps[0].1 + ['&'] + Text(ps[1..]))
  {
    if |ps| == 1 {
      TextOfOne(ps[0]);
      assert ps == [ps[0]];
    } else {
      TextSplits(ps);
    }
  }

  /** The first name, and what follows its `=`, can be read off the payload. */
  lemma SameHead(a: Bytes, x: Bytes, b: Bytes, y: Bytes)
    requires '=' !in a && '=' !in b && a + ['='] + x == b + ['='] + y
    ensures a == b && x == y
  {
    SplitOnceAt(a, x, '=');
    SplitOnceAt(b, y, '=');
  }

  lemma OneFieldMap(k: Bytes, v: Bytes) returns (n: Fields)
    requires v != [] && !IsSignatureField(k) && '=' !in k && '&' !in k
    ensures PlainNames(Signed(n)) && SignPayload(n) == k + ['='] + v
    ensures Signed(n) == n == map[k := v]
  {
    n := map[k := v];
    assert Signed(n) == n;
    assert Lists([(k, v)], n);
    SortedPairsUnique([(k, v)], n);
    TextOfOne((k, v));
  }

  lemma TextOfTwo(p: Pair, q: Pair)
    ensures Text([p, q]) == p.0 + ['='] + (p.1 + ['&'] + (q.0 + ['='] + q.1))
  {
    TextSplits([p, q]);
    assert [p, q][1..] == [q];
    TextOfOne(q);
  }

  lemma TwoPairsList(p: Pair, q: Pair) returns (n: Fields)
    requires p.0 != q.0
    ensures Lists([p, q], n) && |n| == 2 && forall k :: k in n <==> k == p.0 || k == q.0
    ensures n[p.0] == p.1 && n[q.0] == q.1
  {
    n := map[p.0 := p.1, q.0 := q.1];
    assert forall x :: x in [p, q] <==> x == p || x == q;
  }

  lemma TwoFieldMap(p: Pair, q: Pair) returns (n: Fields)
    requires IsPlainPair(p) && IsPlainPair(q) && Less(p.0, q.0)
    ensures PlainNames(Signed(n)) && SignPayload(n) == Text([p, q]) && |Signed(n)| == 2
  {
    LessIrreflexive(p.0);
    n := TwoPairsList(p, q);
    TwoPairsPlain(p, q, n);
    TwoPairsSorted(p, q);
    PairsText([p, q], n);
  }

  lemma PairsText(ps: seq<Pair>, m: Fields)
    requires SortedPairs(ps) && Lists(ps, m)
    requires forall k :: k in m ==> !IsSignatureField(k)
    ensures Signed(m) == m && SignPayload(m) == Text(ps)
  {
    UnsignedMap(m);
    PayloadOfList(ps, m);
  }

  lemma TwoPairsSorted(p: Pair, q: Pair)
    requires Less(p.0, q.0)
    ensures SortedPairs([p, q])
  {
  }

  lemma TwoPairsPlain(p: Pair, q: Pair, n: Fields)
    requires IsPlainPair(p) && IsPlainPair(q) && (forall k :: k in n <==> k == p.0 || k == q.0)
    requires n[p.0] == p.1 && n[q.0] == q.1
    ensures PlainNames(n) && forall k :: k in n ==> !IsSignatureField(k)
  {
  }

  predicate IsPlainPair(p: Pair) {
    '=' !in p.0 && '&' !in p.0 && p.1 != [] && !IsSignatureField(p.0)
  }

  // ---- Several fields can always be read as one ----

  lemma SeveralAreOne(m: Fields) returns (n: Fields)
    requires PlainNames(Signed(m)) && |Signed(m)| >= 2
    ensures PlainNames(Signed(n)) && SignPayload(n) == SignPayload(m) && |Signed(n)| == 1
  {
    var ps := Entries(Signed(m));
    assert ps[0].0 in Signed(m);
    n := FoldedMap(ps);
  }

  lemma FoldedMap(ps: seq<Pair>) returns (n: Fields)
    requires |ps| >= 2 && '=' !in ps[0].0 && '&' !in ps[0].0 && !IsSignatureField(ps[0].0)
    ensures PlainNames(Signed(n)) && SignPayload(n) == Text(ps) && |Signed(n)| == 1
  {
    TextSplits(ps);
    n := OneFieldMap(ps[0].0, ps[0].1 + ['&'] + Text(ps[1..]));
  }

  /** One field whose value can be split can be read as two. */
  lemma OneIsTwo(m: Fields, k: Bytes, v: Bytes, i: nat, j: nat) returns (n: Fields)
    requires PlainNames(Signed(m)) && Signed(m) == map[k := v] && CutsAt(k, v, i, j)
    ensures PlainNames(Signed(n)) && SignPayload(n) == SignPayload(m) && |Signed(n)| == 2
  {
    assert k in Signed(m);
    OneFieldPayload(m, k, v);
    var p: Pair, q: Pair := (k, v[..i]), (v[i + 1..j], v[j + 1..]);
    n := TwoFieldMap(p, q);
    TextOfTwo(p, q);
    CutsBack(v, i, j);
  }

  lemma CutsBack(v: Bytes, i: nat, j: nat)
    requires i < j < |v| && v[i] == '&' && v[j] == '='
    ensures v[..i] + ['&'] + (v[i + 1..j] + ['='] + v[j + 1..]) == v
  {
  }

  lemma OneFieldPayload(m: Fields, k: Bytes, v: Bytes)
    requires Signed(m) == map[k := v]
    ensures Entries(Signed(m)) == [(k, v)] && SignPayload(m) == k + ['='] + v
  {
    assert Lists([(k, v)], Signed(m));
    SortedPairsUnique([(k, v)], Signed(m));
    TextOfOne((k, v));
  }

  lemma CutHere(k: Bytes, v: Bytes, first: Bytes, name: Bytes, tail: Bytes)
    requires v == first + ['&'] + (name + ['='] + tail) && first != [] && tail != []
    requires '=' !in name && '&' !in name && !IsSignatureField(name) && Less(k, name)
    ensures Splittable(k, v)
  {
    SecondField(first, name, tail, v);
    assert CutsAt(k, v, |first|, |first| + 1 + |name|);
  }

  lemma PairsCut(k: Bytes, v: Bytes, ps: seq<Pair>)
    requires |ps| >= 2 && '=' !in k && IsPlainPair(ps[0]) && IsPlainPair(ps[1]) && Less(ps[0].0, ps[1].0)
    requires Text(ps) == k + ['='] + v
    ensures Splittable(k, v)
  {
    TextSplits(ps);
    TextHead(ps[1..]);
    SameHead(ps[0].0, ps[0].1 + ['&'] + Text(ps[1..]), k, v);
    var tail := if |ps| == 2 then ps[1].1 else ps[1].1 + ['&'] + Text(ps[1..][1..]);
    CutHere(k, v, ps[0].1, ps[1].0, tail);
  }

  /** Two readings of one payload: the second cuts the value of the first. */
  lemma SecondReadingCuts(k: Bytes, v: Bytes, ps: seq<Pair>, n: Fields)
    requires PlainNames(n) && ps == Entries(n) && |ps| >= 2 && '=' !in k
    requires forall key :: key in n ==> !IsSignatureField(key)
    requires Text(ps) == k + ['='] + v
    ensures Splittable(k, v)
  {
    assert ps[0].0 in n && ps[1].0 in n;
    PairsCut(k, v, ps);
  }

  lemma SecondField(first: Bytes, name: Bytes, tail: Bytes, v: Bytes)
    requires v == first + ['&'] + (name + ['='] + tail)
    ensures var i, j := |first|, |first| + 1 + |name|;
            i < j < |v| && v[i] == '&' && v[j] == '=' && v[i + 1..j] == name && |v| - 1 - j == |tail|
  {
  }

  lemma OneReading(k: Bytes, v: Bytes, ps: seq<Pair>, n: Fields)
    requires PlainNames(n) && ps == Entries(n) && '=' !in k
    requires forall key :: key in n ==> !IsSignatureField(key)
    requires Text(ps) == k + ['='] + v && !Splittable(k, v)
    ensures n == map[k := v]
  {
    if ps == [] {
      assert false;
    } else if |ps| == 1 {
      TextHead(ps);
      assert ps[0].0 in n;
      SameHead(ps[0].0, ps[0].1, k, v);
      EntriesList(n);
      assert Lists([(k, v)], map[k := v]) && ps == [(k, v)];
      ListsUnique(ps, n, map[k := v]);
    } else {
      SecondReadingCuts(k, v, ps, n);
    }
  }

  /**
    A payload belongs to one set of fields exactly when nothing is signed, or a single field whose
    value cannot be split: two fields can always be read as one whose value holds an `&`.
   */
  lemma DeterminedIff(m: Fields)
    requires PlainNames(Signed(m))
    ensures Determined(m) <==>
              Signed(m) == map[] || exists k :: k in Signed(m) && |Signed(m)| == 1 && !Splittable(k, Signed(m)[k])
  {
    var ps := Entries(Signed(m));
    if |ps| == 0 {
      NothingSigned(m);
    } else if |ps| == 1 {
      var k, v := ps[0].0, ps[0].1;
      SingleField(m);
      if Splittable(k, v) {
        var i, j :| 0 < i < j < |v| && CutsAt(k, v, i, j);
        var n := OneIsTwo(m, k, v, i, j);
        assert Signed(n) != Signed(m);
      } else {
        OnlyReading(m, k, v);
      }
    } else {
      var n := SeveralAreOne(m);
      assert Signed(n) != Signed(m);
    }
  }

  lemma SingleField(m: Fields)
    requires |Signed(m)| == 1
    ensures var p := Entries(Signed(m))[0];
            Signed(m) == map[p.0 := p.1] && forall k :: k in Signed(m) <==> k == p.0
  {
    var ps := Entries(Signed(m));
    EntriesList(Signed(m));
    assert ps == [ps[0]];
    assert Lists(ps, map[ps[0].0 := ps[0].1]);
    ListsUnique(ps, Signed(m), map[ps[0].0 := ps[0].1]);
  }

  lemma NothingSigned(m: Fields)
    requires |Signed(m)| == 0
    ensures Signed(m) == map[] && Determined(m)
  {
    assert SignPayload(m) == [];
    forall n: Fields | PlainNames(Signed(n)) && SignPayload(n) == SignPayload(m) ensures Signed(n) == map[] {
      var ps := Entries(Signed(n));
      if ps != [] { TextHead(ps); }
    }
  }

  lemma OnlyReading(m: Fields, k: Bytes, v: Bytes)
    requires PlainNames(Signed(m)) && Signed(m) == map[k := v] && !Splittable(k, v)
    ensures Determined(m)
  {
    OneFieldPayload(m, k, v);
    PlainKey(m, k, v);
    forall n: Fields | PlainNames(Signed(n)) && SignPayload(n) == SignPayload(m) ensures Signed(n) == Signed(m) {
      OneReading(k, v, Entries(Signed(n)), Signed(n));
    }
  }

  lemma PlainKey(m: Fields, k: Bytes, v: Bytes)
    requires PlainNames(Signed(m)) && Signed(m) == map[k := v]
    ensures '=' !in k && '&' !in k && v != []
  {
    assert k in Signed(m);
  }
}
