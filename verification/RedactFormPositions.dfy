/**
  The form redactor's omissions by position, without its state: which fragments of a text are masked
  is decided by what stands in front of them.
 */
module FormPositions {
  import opened ByteStrings
  import opened JsonRedaction
  import opened FormRedaction
  import opened FormShape
  import opened SecretRedaction
  import opened FormCoverage

  predicate BoundaryAt(s: Bytes, p: nat)
    requires p <= |s|
  {
    p == 0 || IsBoundary(s[p - 1])
  }

  function NameFrom(s: Bytes, p: nat): Bytes
    requires p <= |s|
  {
    NameAt(s[p..])
  }

  /** What follows the name at `p`. */
  function BehindName(s: Bytes, p: nat): Bytes
    requires p <= |s|
  {
    s[p..][|NameFrom(s, p)|..]
  }

  function ValueAt(s: Bytes, p: nat): Bytes
    requires p <= |s|
  {
    BehindName(s, p)[..ValueLength(BehindName(s, p))]
  }

  /** Where the fragment at `p` ends. */
  function EndOf(s: Bytes, p: nat): (end: nat)
    requires p <= |s|
    ensures end <= |s|
  {
    p + |NameFrom(s, p)| + ValueLength(BehindName(s, p))
  }

  /** All fragments in front of `a` that are masked end at `q` or before. */
  predicate NoneReaches(s: Bytes, a: nat, q: nat)
    requires a <= |s|
    decreases a, 0
  {
    forall r: nat :: r < a && MaskedAt(s, r) ==> EndOf(s, r) <= q
  }

  /** An occurrence of `name` away from a boundary, with no masked fragment between it and `a`. */
  predicate Shadows(s: Bytes, q: nat, a: nat, name: Bytes)
    requires a <= |s|
    decreases a, 1
  {
    q < a && NameFrom(s, q) == name && !BoundaryAt(s, q) && NoneReaches(s, a, q)
  }

  predicate Shadowed(s: Bytes, a: nat, name: Bytes)
    requires a <= |s|
    decreases a, 2
  {
    exists q: nat :: q < a && Shadows(s, q, a, name)
  }

  /** A name at a boundary, outside the masked fragments. */
  predicate FragmentAt(s: Bytes, p: nat)
    decreases p, 3
  {
    p < |s| && NameFrom(s, p) != [] && BoundaryAt(s, p) && NoneReaches(s, p, p)
  }

  /** The fragment at `p` is masked. */
  predicate MaskedAt(s: Bytes, p: nat)
    decreases p, 4
  {
    FragmentAt(s, p) && !Shadowed(s, p, NameFrom(s, p))
  }

  /** The fragment at `p` shows its value. */
  predicate ShownAt(s: Bytes, p: nat) {
    FragmentAt(s, p) && Shadowed(s, p, NameFrom(s, p)) && ValueAt(s, p) != MASK
  }

  predicate SomeShown(s: Bytes, a: nat) {
    exists p: nat :: a <= p < |s| && ShownAt(s, p)
  }

  // ---- The redactor's state, read off the text ----

  predicate Fits(s: Bytes, a: nat, st: State) {
    && a <= |s| && NoneReaches(s, a, a)
    && (NameFrom(s, a) != [] ==> (st.boundary <==> BoundaryAt(s, a)))
    && (st.keyAlive <==> !Shadowed(s, a, KEY_NAME))
    && (st.signAlive <==> !Shadowed(s, a, SIGN_NAME))
  }

  lemma FitsAlive(s: Bytes, a: nat, st: State)
    requires Fits(s, a, st) && NameFrom(s, a) != []
    ensures st.Alive(NameFrom(s, a)) <==> !Shadowed(s, a, NameFrom(s, a))
    ensures a < |s| && (FragmentAt(s, a) <==> st.boundary)
    ensures MaskedAt(s, a) <==> st.Takes(NameFrom(s, a))
  {
  }

  /** No masked fragment starts from `a` up to `b`, so what reaches where is the same at both. */
  lemma NothingBetween(s: Bytes, a: nat, b: nat, q: nat)
    requires a <= b <= |s| && forall p: nat :: a <= p < b ==> !MaskedAt(s, p)
    ensures NoneReaches(s, b, q) <==> NoneReaches(s, a, q)
  {
  }

  /** Neither does another occurrence away from a boundary. */
  lemma ShadowsSame(s: Bytes, a: nat, b: nat, name: Bytes)
    requires a <= b <= |s| && forall p: nat :: a <= p < b ==> !MaskedAt(s, p)
    requires forall p: nat :: a <= p < b ==> NameFrom(s, p) != name || BoundaryAt(s, p)
    ensures Shadowed(s, b, name) <==> Shadowed(s, a, name)
  {
    if q: nat :| q < b && Shadows(s, q, b, name) {
      NothingBetween(s, a, b, q);
      assert q < a && Shadows(s, q, a, name);
    }
    if q: nat :| q < a && Shadows(s, q, a, name) {
      NothingBetween(s, a, b, q);
      assert Shadows(s, q, b, name);
    }
  }

  lemma ShadowBegins(s: Bytes, a: nat)
    requires a < |s| && NoneReaches(s, a, a) && !BoundaryAt(s, a)
    ensures Shadowed(s, a + 1, NameFrom(s, a))
  {
    assert !MaskedAt(s, a);
    NothingBetween(s, a, a + 1, a);
    assert Shadows(s, a, a + 1, NameFrom(s, a));
  }

  lemma ShadowedAfterCopy(s: Bytes, a: nat, name: Bytes)
    requires a < |s| && NoneReaches(s, a, a) && !MaskedAt(s, a)
    ensures Shadowed(s, a + 1, name) <==> Shadowed(s, a, name) || (NameFrom(s, a) == name && !BoundaryAt(s, a))
  {
    if NameFrom(s, a) == name && !BoundaryAt(s, a) {
      ShadowBegins(s, a);
    } else {
      ShadowsSame(s, a, a + 1, name);
    }
  }

  lemma ReachesAfterCopy(s: Bytes, a: nat)
    requires a < |s| && NoneReaches(s, a, a) && !MaskedAt(s, a)
    ensures NoneReaches(s, a + 1, a + 1)
  {
    NothingBetween(s, a, a + 1, a + 1);
    FarEnough(s, a, a + 1);
  }

  /** One byte is copied. */
  lemma FitsCopy(s: Bytes, a: nat, st: State)
    requires Fits(s, a, st) && a < |s| && (NameFrom(s, a) == [] || !st.boundary)
    ensures Fits(s, a + 1, st.After(s[a], NameFrom(s, a)))
    ensures !ShownAt(s, a)
  {
    NotMaskedHere(s, a, st);
    ReachesAfterCopy(s, a);
    ShadowedAfterCopy(s, a, KEY_NAME);
    ShadowedAfterCopy(s, a, SIGN_NAME);
    AliveAfterCopy(s, a, st);
  }

  lemma NotMaskedHere(s: Bytes, a: nat, st: State)
    requires Fits(s, a, st) && a < |s| && (NameFrom(s, a) == [] || !st.boundary)
    ensures !FragmentAt(s, a) && !MaskedAt(s, a) && !ShownAt(s, a)
  {
  }

  lemma AliveAfterCopy(s: Bytes, a: nat, st: State)
    requires Fits(s, a, st) && a < |s| && (NameFrom(s, a) == [] || !st.boundary)
    requires Shadowed(s, a + 1, KEY_NAME) <==>
               Shadowed(s, a, KEY_NAME) || (NameFrom(s, a) == KEY_NAME && !BoundaryAt(s, a))
    requires Shadowed(s, a + 1, SIGN_NAME) <==>
               Shadowed(s, a, SIGN_NAME) || (NameFrom(s, a) == SIGN_NAME && !BoundaryAt(s, a))
    ensures var next := st.After(s[a], NameFrom(s, a));
            && (next.keyAlive <==> !Shadowed(s, a + 1, KEY_NAME))
            && (next.signAlive <==> !Shadowed(s, a + 1, SIGN_NAME))
  {
  }

  lemma FarEnough(s: Bytes, a: nat, b: nat)
    requires a <= |s| && a <= b && NoneReaches(s, a, a)
    ensures NoneReaches(s, a, b)
  {
  }

  lemma DelimiterBehind(s: Bytes, a: nat)
    requires a < |s| && NameFrom(s, a) != []
    ensures a < EndOf(s, a) && s[EndOf(s, a)..] == BehindName(s, a)[ValueLength(BehindName(s, a))..]
    ensures NameFrom(s, EndOf(s, a)) == []
  {
    var rest := BehindName(s, a);
    var after := rest[ValueLength(rest)..];
    assert s[EndOf(s, a)..] == after;
    if after != [] { NameAtHead(after); }
  }

  /** Inside a masked fragment no other one starts. */
  lemma InsideMasked(s: Bytes, a: nat, p: nat)
    requires a < |s| && MaskedAt(s, a) && a < p < EndOf(s, a)
    ensures !FragmentAt(s, p)
  {
  }

  lemma ReachesAfterMask(s: Bytes, a: nat)
    requires a < |s| && NoneReaches(s, a, a) && MaskedAt(s, a) && a < EndOf(s, a)
    ensures NoneReaches(s, EndOf(s, a), EndOf(s, a))
  {
    var b := EndOf(s, a);
    forall r: nat | r < b && MaskedAt(s, r) ensures EndOf(s, r) <= b {
      if r > a { InsideMasked(s, a, r); }
    }
  }

  lemma MaskShowsNothing(s: Bytes, a: nat, b: nat)
    requires a < |s| && MaskedAt(s, a) && b == EndOf(s, a)
    ensures forall p: nat :: a <= p < b ==> !ShownAt(s, p)
  {
    forall p: nat | a <= p < b ensures !ShownAt(s, p) {
      if p > a { InsideMasked(s, a, p); }
    }
  }

  /** At a place where no name starts, only the shadows matter. */
  lemma FitsBehind(s: Bytes, b: nat, st: State)
    requires b <= |s| && NoneReaches(s, b, b) && NameFrom(s, b) == []
    requires (st.keyAlive <==> !Shadowed(s, b, KEY_NAME)) && (st.signAlive <==> !Shadowed(s, b, SIGN_NAME))
    ensures Fits(s, b, st)
  {
  }

  /** A fragment is masked. */
  lemma FitsMask(s: Bytes, a: nat, b: nat)
    requires a < |s| && NoneReaches(s, a, a) && MaskedAt(s, a) && b == EndOf(s, a)
    ensures Fits(s, b, FRESH)
  {
    DelimiterBehind(s, a);
    ReachesAfterMask(s, a);
    NotShadowed(s, a, b, KEY_NAME);
    NotShadowed(s, a, b, SIGN_NAME);
    FitsBehind(s, b, FRESH);
  }

  lemma NotShadowed(s: Bytes, a: nat, b: nat, name: Bytes)
    requires a < b <= |s| && MaskedAt(s, a) && EndOf(s, a) == b
    ensures !Shadowed(s, b, name)
  {
    forall q: nat | q < b ensures !Shadows(s, q, b, name) {}
  }

  lemma MaskedWordIsPlain(name: Bytes, i: nat)
    requires (name == KEY_NAME || name == SIGN_NAME) && 0 < i < |name + MASK|
    ensures (name + MASK)[i] != 'k' && (name + MASK)[i] != 's'
  {
    NamePlain(name);
    if i < |name| {
      assert (name + MASK)[i] == name[1..][i - 1];
    } else {
      assert (name + MASK)[i] == MASK[i - |name|] == '*';
    }
  }

  lemma WordAt(s: Bytes, a: nat, word: Bytes, p: nat)
    requires a <= |s| && word <= s[a..] && a <= p < a + |word|
    ensures p < |s| && s[p..] != [] && s[p..][0] == word[p - a]
  {
    assert s[p] == s[a..][p - a];
  }

  lemma FragmentWord(t: Bytes, name: Bytes)
    requires name <= t && t[|name|..][..ValueLength(t[|name|..])] == MASK
    ensures name + MASK <= t && |name + MASK| == |name| + ValueLength(t[|name|..])
  {
    var rest := t[|name|..];
    assert t == name + rest && rest == MASK + rest[3..];
  }

  lemma MaskHoldsNoName(s: Bytes, a: nat, p: nat)
    requires a < |s| && NameFrom(s, a) != [] && ValueAt(s, a) == MASK && a < p < EndOf(s, a)
    ensures NameFrom(s, p) == []
  {
    var name := NameFrom(s, a);
    FragmentWord(s[a..], name);
    WordAt(s, a, name + MASK, p);
    MaskedWordIsPlain(name, p - a);
    NameAtHead(s[p..]);
  }

  lemma NoNameBetween(s: Bytes, a: nat, b: nat, name: Bytes)
    requires a < b <= |s| && NoneReaches(s, a, a) && !MaskedAt(s, a) && BoundaryAt(s, a) && name != []
    requires forall p: nat :: a < p < b ==> NameFrom(s, p) == []
    ensures NoneReaches(s, b, b) && (Shadowed(s, b, name) <==> Shadowed(s, a, name))
  {
    NothingBetween(s, a, b, b);
    FarEnough(s, a, b);
    ShadowsSame(s, a, b, name);
  }

  lemma DeadNotShown(s: Bytes, a: nat, st: State)
    requires Fits(s, a, st) && a < |s| && NameFrom(s, a) != [] && st.boundary && !st.Alive(NameFrom(s, a))
    requires ValueAt(s, a) == MASK
    ensures !MaskedAt(s, a) && BoundaryAt(s, a) && !ShownAt(s, a)
  {
    FitsAlive(s, a, st);
  }

  lemma NoNameShowsNothing(s: Bytes, a: nat, b: nat)
    requires a < b <= |s| && !ShownAt(s, a) && forall p: nat :: a < p < b ==> NameFrom(s, p) == []
    ensures forall p: nat :: a <= p < b ==> !ShownAt(s, p)
  {
  }

  /** A fragment with a dead name whose value is the mask already. */
  lemma FitsDead(s: Bytes, a: nat, b: nat, st: State)
    requires Fits(s, a, st) && a < |s| && NameFrom(s, a) != [] && st.boundary && !st.Alive(NameFrom(s, a))
    requires ValueAt(s, a) == MASK && b == EndOf(s, a)
    ensures Fits(s, b, st.After('*', NameFrom(s, a)))
    ensures forall p: nat :: a <= p < b ==> !ShownAt(s, p)
  {
    DeadNotShown(s, a, st);
    DelimiterBehind(s, a);
    forall p: nat | a < p < b ensures NameFrom(s, p) == [] { MaskHoldsNoName(s, a, p); }
    NoNameShowsNothing(s, a, b);
    NoNameBetween(s, a, b, KEY_NAME);
    NoNameBetween(s, a, b, SIGN_NAME);
    DeadStays(st, NameFrom(s, a));
    FitsBehind(s, b, st.After('*', NameFrom(s, a)));
  }

  lemma DeadStays(st: State, name: Bytes)
    requires (name == KEY_NAME || name == SIGN_NAME) && !st.Alive(name)
    ensures st.After('*', name).keyAlive == st.keyAlive && st.After('*', name).signAlive == st.signAlive
  {
  }

  lemma SomeShownFrom(s: Bytes, a: nat, b: nat)
    requires a <= b <= |s| && forall p: nat :: a <= p < b ==> !ShownAt(s, p)
    ensures SomeShown(s, a) <==> SomeShown(s, b)
  {
  }

  lemma {:induction false} OverlooksIff(s: Bytes, a: nat, st: State)
    requires Fits(s, a, st)
    ensures Overlooks(s[a..], st) <==> SomeShown(s, a)
    decreases |s| - a
  {
    if a < |s| {
      var name, rest := NameFrom(s, a), BehindName(s, a);
      if name != [] && st.boundary {
        FitsAlive(s, a, st);
        DelimiterBehind(s, a);
        if st.Alive(name) {
          FitsMask(s, a, EndOf(s, a));
          MaskShowsNothing(s, a, EndOf(s, a));
          OverlooksIff(s, EndOf(s, a), FRESH);
          SomeShownFrom(s, a, EndOf(s, a));
        } else if ValueAt(s, a) == MASK {
          FitsDead(s, a, EndOf(s, a), st);
          OverlooksIff(s, EndOf(s, a), st.After('*', name));
          SomeShownFrom(s, a, EndOf(s, a));
        } else {
          assert ShownAt(s, a);
        }
      } else {
        FitsCopy(s, a, st);
        assert s[a..][1..] == s[a + 1..];
        OverlooksIff(s, a + 1, st.After(s[a], name));
        SomeShownFrom(s, a, a + 1);
      }
    }
  }

  /**
    The redactor masks every fragment of a text exactly when no fragment has a value other than the
    mask and an earlier occurrence of its name away from a boundary with no masked fragment between.
   */
  lemma AllMaskedIff(s: Bytes)
    ensures RedactForm(s, FRESH) == MaskAll(s, true) <==> !exists p: nat :: p < |s| && ShownAt(s, p)
  {
    MasksAllIff(s, FRESH);
    assert s[0..] == s;
    OverlooksIff(s, 0, FRESH);
  }
}
