/** The order in which a `BTreeMap<String, String>` is walked. */
module SortedMaps {
  import opened ByteStrings

  type Fields = map<Bytes, Bytes>
  type Pair = (Bytes, Bytes)

  /** Byte-wise lexicographic order, the `Ord` of Rust strings. */
  predicate Less(a: Bytes, b: Bytes) {
    b != [] && (a == [] || a[0] < b[0] || (a[0] == b[0] && Less(a[1..], b[1..])))
  }

  /** `a` is a proper prefix of `b` of length `i`, or they first differ at position `i`, `a` being smaller there. */
  predicate SmallerAt(a: Bytes, b: Bytes, i: nat) {
    i <= |a| && i < |b| && a[..i] == b[..i] && (i == |a| || a[i] < b[i])
  }

  lemma SmallerLater(a: Bytes, b: Bytes, i: nat)
    requires a != [] && b != [] && a[0] == b[0]
    ensures SmallerAt(a[1..], b[1..], i) <==> SmallerAt(a, b, i + 1)
  {
    if i <= |a| - 1 && i < |b| - 1 {
      assert a[..i + 1] == [a[0]] + a[1..][..i] && b[..i + 1] == [b[0]] + b[1..][..i];
    }
  }

  /** The order by positions. */
  lemma {:induction false} LessIff(a: Bytes, b: Bytes)
    ensures Less(a, b) <==> exists i: nat :: SmallerAt(a, b, i)
  {
    if b == [] {
    } else if a == [] || a[0] < b[0] {
      assert SmallerAt(a, b, 0);
    } else if a[0] == b[0] {
      LessIff(a[1..], b[1..]);
      if i: nat :| SmallerAt(a[1..], b[1..], i) { SmallerLater(a, b, i); }
      if i: nat :| SmallerAt(a, b, i) {
        assert i > 0;
        SmallerLater(a, b, i - 1);
      }
    } else {
      forall i: nat ensures !SmallerAt(a, b, i) {
        if 0 < i <= |a| && i <= |b| { assert a[..i][0] != b[..i][0]; }
      }
    }
  }

  lemma {:induction false} LessTransitive(a: Bytes, b: Bytes, c: Bytes)
    requires Less(a, b) && Less(b, c)
    ensures Less(a, c)
  {
    if a != [] && a[0] == b[0] && b[0] == c[0] {
      LessTransitive(a[1..], b[1..], c[1..]);
    }
  }

  lemma {:induction false} LessTrichotomy(a: Bytes, b: Bytes)
    ensures Less(a, b) || a == b || Less(b, a)
    ensures !(Less(a, b) && Less(b, a))
    ensures !Less(a, a)
  {
    if a != [] && b != [] && a[0] == b[0] {
      LessTrichotomy(a[1..], b[1..]);
      assert a == [a[0]] + a[1..] && b == [b[0]] + b[1..];
    }
    if a != [] { LessIrreflexive(a); }
  }

  lemma {:induction false} LessIrreflexive(a: Bytes)
    ensures !Less(a, a)
  {
    if a != [] { LessIrreflexive(a[1..]); }
  }

  predicate StrictlySorted(ks: seq<Bytes>) {
    forall i, j :: 0 <= i < j < |ks| ==> Less(ks[i], ks[j])
  }

  predicate IsLeast(k: Bytes, keys: set<Bytes>) {
    k in keys && forall j :: j in keys && j != k ==> Less(k, j)
  }

  lemma {:induction false} LeastExists(keys: set<Bytes>)
    requires keys != {}
    ensures exists k :: IsLeast(k, keys)
  {
    var x :| x in keys;
    var others := keys - {x};
    if others == {} {
      assert forall j :: j in keys && j != x ==> j in others;
      assert IsLeast(x, keys);
    } else {
      LeastExists(others);
      var y :| IsLeast(y, others);
      LessTrichotomy(x, y);
      if Less(y, x) {
        assert IsLeast(y, keys);
      } else {
        forall j | j in keys && j != x ensures Less(x, j) {
          if j != y { LessTransitive(x, y, j); }
        }
        assert IsLeast(x, keys);
      }
    }
  }

  lemma LeastUnique(j: Bytes, k: Bytes, keys: set<Bytes>)
    requires IsLeast(j, keys) && IsLeast(k, keys)
    ensures j == k
  {
    LessTrichotomy(j, k);
  }

  /** The keys in iteration order. */
  function SortedKeys(keys: set<Bytes>): (ks: seq<Bytes>)
    ensures StrictlySorted(ks)
    ensures forall k :: k in ks <==> k in keys
    ensures |ks| == |keys|
  {
    if keys == {} then []
    else
      LeastExists(keys);
      assert forall j, k :: IsLeast(j, keys) && IsLeast(k, keys) ==> j == k by {
        forall j, k | IsLeast(j, keys) && IsLeast(k, keys) ensures j == k { LeastUnique(j, k, keys); }
      }
      var k :| IsLeast(k, keys);
      [k] + SortedKeys(keys - {k})
  }

  function PairsAt(m: Fields, ks: seq<Bytes>): (ps: seq<Pair>)
    requires forall k :: k in ks ==> k in m
    ensures |ps| == |ks|
    ensures forall i :: 0 <= i < |ks| ==> ps[i] == (ks[i], m[ks[i]])
  {
    seq(|ks|, i requires 0 <= i < |ks| => (ks[i], m[ks[i]]))
  }

  /** The key/value pairs in iteration order. */
  function Entries(m: Fields): (ps: seq<Pair>)
    ensures |ps| == |m|
    ensures forall i :: 0 <= i < |ps| ==> ps[i].0 in m && ps[i].1 == m[ps[i].0]
    ensures forall k :: k in m ==> (k, m[k]) in ps
    ensures forall i, j :: 0 <= i < j < |ps| ==> Less(ps[i].0, ps[j].0)
  {
    var ks := SortedKeys(m.Keys);
    var ps := PairsAt(m, ks);
    assert forall k :: k in m ==> (k, m[k]) in ps by {
      forall k | k in m ensures (k, m[k]) in ps {
        var i :| 0 <= i < |ks| && ks[i] == k;
        assert ps[i] == (k, m[k]);
      }
    }
    ps
  }

  /** No key occurs twice. */
  predicate DistinctKeys(ps: seq<Pair>) {
    forall i, j :: 0 <= i < j < |ps| ==> ps[i].0 != ps[j].0
  }

  /** `m` holds exactly the given pairs. */
  predicate Lists(ps: seq<Pair>, m: Fields) {
    && (forall p :: p in ps ==> p.0 in m && m[p.0] == p.1)
    && (forall k :: k in m ==> (k, m[k]) in ps)
  }

  lemma EntriesList(m: Fields)
    ensures DistinctKeys(Entries(m))
    ensures Lists(Entries(m), m)
  {
    var ps := Entries(m);
    forall i, j | 0 <= i < j < |ps| ensures ps[i].0 != ps[j].0 {
      LessIrreflexive(ps[i].0);
    }
  }

  /** A list of pairs determines the map it lists. */
  lemma ListsUnique(ps: seq<Pair>, m: Fields, n: Fields)
    requires Lists(ps, m) && Lists(ps, n)
    ensures m == n
  {
    forall k | k in m ensures k in n && n[k] == m[k] {
      assert (k, m[k]) in ps;
    }
    forall k | k in n ensures k in m {
      assert (k, n[k]) in ps;
    }
  }

  lemma SortedTail(ks: seq<Bytes>, k: Bytes)
    requires StrictlySorted(ks) && ks != []
    ensures k in ks[1..] <==> k in ks && k != ks[0]
  {
    LessIrreflexive(ks[0]);
    if k in ks && k != ks[0] {
      var i :| 0 <= i < |ks| && ks[i] == k;
      assert ks[1..][i - 1] == k;
    }
  }

  /** A set of keys has only one strictly sorted listing. */
  lemma {:induction false} SortedUnique(a: seq<Bytes>, b: seq<Bytes>)
    requires StrictlySorted(a) && StrictlySorted(b)
    requires forall k :: k in a <==> k in b
    ensures a == b
  {
    assert b != [] ==> b[0] in a;
    assert a != [] ==> a[0] in b;
    if a != [] {
      LessTrichotomy(a[0], b[0]);
      assert a[0] == b[0];
      forall k ensures k in a[1..] <==> k in b[1..] {
        SortedTail(a, k);
        SortedTail(b, k);
      }
      SortedUnique(a[1..], b[1..]);
      assert a == [a[0]] + a[1..] && b == [b[0]] + b[1..];
    }
  }

  predicate SortedPairs(ps: seq<Pair>) {
    forall i, j :: 0 <= i < j < |ps| ==> Less(ps[i].0, ps[j].0)
  }

  function KeysOf(ps: seq<Pair>): (ks: seq<Bytes>)
    ensures |ks| == |ps| && forall i :: 0 <= i < |ps| ==> ks[i] == ps[i].0
  {
    seq(|ps|, i requires 0 <= i < |ps| => ps[i].0)
  }

  lemma {:induction false} ListedKeys(ps: seq<Pair>, m: Fields, k: Bytes)
    requires Lists(ps, m)
    ensures k in KeysOf(ps) <==> k in m
  {
    if k in KeysOf(ps) {
      var i :| 0 <= i < |ps| && KeysOf(ps)[i] == k;
      assert ps[i] in ps;
    }
    if k in m {
      var i :| 0 <= i < |ps| && ps[i] == (k, m[k]);
      assert KeysOf(ps)[i] == k;
    }
  }

  /** `Entries` is the only sorted list of pairs that lists the map. */
  lemma SortedPairsUnique(ps: seq<Pair>, m: Fields)
    requires SortedPairs(ps) && Lists(ps, m)
    ensures ps == Entries(m)
  {
    var ks := KeysOf(ps);
    forall k ensures k in ks <==> k in SortedKeys(m.Keys) { ListedKeys(ps, m, k); }
    SortedUnique(ks, SortedKeys(m.Keys));
    forall i | 0 <= i < |ps| ensures ps[i] == Entries(m)[i] {
      assert ps[i] in ps && ks[i] == ps[i].0;
    }
  }
}
