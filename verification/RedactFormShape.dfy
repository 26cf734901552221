/** What the form redactor keeps of its input. */
module FormShape {
  import opened ByteStrings
  import opened FormRedaction

  /** The steps of one redactor run over a text. */
  datatype Scan =
    | Done
    | Copy(c: Byte, next: Scan)
    | Fragment(name: Bytes, value: Bytes, next: Scan)

  function ScanOf(s: Bytes, st: State): Scan
    decreases |s|
  {
    if s == [] then Done
    else
      var name := NameAt(s);
      if name != [] && st.Takes(name) then
        var rest := s[|name|..];
        Fragment(name, rest[..ValueLength(rest)], ScanOf(rest[ValueLength(rest)..], FRESH))
      else Copy(s[0], ScanOf(s[1..], st.After(s[0], name)))
  }

  function Text(t: Scan): Bytes {
    match t
    case Done => []
    case Copy(c, next) => [c] + Text(next)
    case Fragment(name, value, next) => name + (value + Text(next))
  }

  function Masks(t: Scan): Scan {
    match t
    case Done => Done
    case Copy(c, next) => Copy(c, Masks(next))
    case Fragment(name, _, next) => Fragment(name, MASK, Masks(next))
  }

  predicate IsValue(v: Bytes) {
    forall i :: 0 <= i < |v| ==> !IsDelimiter(v[i])
  }

  /** Equal up to the values of the fragments. */
  predicate SameShape(t: Scan, u: Scan) {
    match (t, u)
    case (Done, Done) => true
    case (Copy(c, n), Copy(d, m)) => c == d && SameShape(n, m)
    case (Fragment(a, _, n), Fragment(b, v, m)) => a == b && IsValue(v) && SameShape(n, m)
    case _ => false
  }

  lemma {:induction false} TextOfScan(s: Bytes, st: State)
    ensures Text(ScanOf(s, st)) == s
    decreases |s|
  {
    if s != [] {
      var name := NameAt(s);
      if name != [] && st.Takes(name) {
        var rest := s[|name|..];
        var n := ValueLength(rest);
        TextOfScan(rest[n..], FRESH);
        TextOfFragment(name, rest, n, ScanOf(rest[n..], FRESH));
      } else {
        TextOfScan(s[1..], st.After(s[0], name));
      }
    }
  }

  lemma TextOfFragment(name: Bytes, rest: Bytes, n: nat, next: Scan)
    requires n <= |rest| && Text(next) == rest[n..]
    ensures Text(Fragment(name, rest[..n], next)) == name + rest
  {
    SplitAt(rest, n);
  }

  lemma {:induction false} RedactedIsMasked(s: Bytes, st: State)
    ensures RedactForm(s, st) == Text(Masks(ScanOf(s, st)))
    decreases |s|
  {
    if s != [] {
      var name := NameAt(s);
      if name != [] && st.Takes(name) {
        var rest := s[|name|..];
        RedactedIsMasked(rest[ValueLength(rest)..], FRESH);
      } else {
        RedactedIsMasked(s[1..], st.After(s[0], name));
      }
    }
  }

  predicate Named(t: Scan) {
    match t
    case Done => true
    case Copy(_, next) => Named(next)
    case Fragment(name, _, next) => (name == KEY_NAME || name == SIGN_NAME) && Named(next)
  }

  lemma {:induction false} ScanNamed(s: Bytes, st: State)
    ensures Named(ScanOf(s, st))
    ensures SameShape(ScanOf(s, st), ScanOf(s, st))
    decreases |s|
  {
    if s != [] {
      var name := NameAt(s);
      if name != [] && st.Takes(name) {
        var rest := s[|name|..];
        ScanNamed(rest[ValueLength(rest)..], FRESH);
      } else {
        ScanNamed(s[1..], st.After(s[0], name));
      }
    }
  }

  /** Words that cannot start a name are found in both texts or in neither. */
  predicate IsPlain(w: Bytes) {
    forall i :: 0 <= i < |w| ==> w[i] != 'k' && w[i] != 's'
  }

  lemma {:induction false} WordAgrees(w: Bytes, t: Scan, u: Scan)
    requires IsPlain(w) && SameShape(t, u) && Named(t)
    ensures w <= Text(t) <==> w <= Text(u)
    decreases w
  {
    if w != [] && t.Copy? {
      WordAgrees(w[1..], t.next, u.next);
      WordHead(w, Text(t));
      WordHead(w, Text(u));
      assert Text(t)[1..] == Text(t.next) && Text(u)[1..] == Text(u.next);
    } else if w != [] && t.Fragment? {
      WordHead(w, Text(t));
      WordHead(w, Text(u));
      assert Text(t)[0] == t.name[0] && Text(u)[0] == t.name[0];
    }
  }

  lemma WordHead(w: Bytes, s: Bytes)
    requires w != []
    ensures w <= s <==> s != [] && s[0] == w[0] && w[1..] <= s[1..]
  {
    if s != [] && s[0] == w[0] && w[1..] <= s[1..] {
      assert w == [w[0]] + w[1..] && s == [s[0]] + s[1..];
    }
  }

  lemma NameAtHead(s: Bytes)
    requires s != []
    ensures KEY_NAME <= s <==> s[0] == 'k' && "ey=" <= s[1..]
    ensures SIGN_NAME <= s <==> s[0] == 's' && "ign=" <= s[1..]
  {
    WordHead(KEY_NAME, s);
    WordHead(SIGN_NAME, s);
    assert KEY_NAME[1..] == "ey=" && SIGN_NAME[1..] == "ign=";
  }

  lemma NameAgrees(s: Bytes, r: Bytes)
    requires s != [] && r != [] && s[0] == r[0]
    requires "ey=" <= s[1..] <==> "ey=" <= r[1..]
    requires "ign=" <= s[1..] <==> "ign=" <= r[1..]
    ensures NameAt(s) == NameAt(r)
  {
    NameAtHead(s);
    NameAtHead(r);
  }

  lemma CopiedName(c: Byte, t: Scan, u: Scan)
    requires SameShape(t, u) && Named(t)
    ensures NameAt([c] + Text(t)) == NameAt([c] + Text(u))
    ensures ([c] + Text(u))[1..] == Text(u)
  {
    WordAgrees("ey=", t, u);
    WordAgrees("ign=", t, u);
    assert ([c] + Text(t))[1..] == Text(t);
    NameAgrees([c] + Text(t), [c] + Text(u));
  }

  lemma NameAtAppend(name: Bytes, x: Bytes)
    requires name == KEY_NAME || name == SIGN_NAME
    ensures NameAt(name + x) == name && (name + x)[|name|..] == x
  {
    OneNameAt(name + x);
    assert name <= name + x;
  }

  lemma HeadAgrees(t: Scan, u: Scan)
    requires SameShape(t, u)
    requires Named(t)
    ensures Text(t) == [] <==> Text(u) == []
    ensures Text(t) != [] ==> Text(t)[0] == Text(u)[0]
  {
  }

  lemma ScanAtFragment(name: Bytes, value: Bytes, rest: Bytes, st: State)
    requires name == KEY_NAME || name == SIGN_NAME
    requires st.Takes(name) && IsValue(value) && (rest != [] ==> IsDelimiter(rest[0]))
    ensures ScanOf(name + (value + rest), st) == Fragment(name, value, ScanOf(rest, FRESH))
  {
    NameAtAppend(name, value + rest);
    ValueEnds(value, rest);
    assert (value + rest)[..|value|] == value && (value + rest)[|value|..] == rest;
  }

  /** Scanning a text whose fragment values were replaced finds exactly the replaced scan. */
  lemma {:induction false} ReplacedScan(s: Bytes, st: State, u: Scan)
    requires SameShape(ScanOf(s, st), u)
    ensures ScanOf(Text(u), st) == u
    decreases |s|
  {
    if s != [] {
      var name := NameAt(s);
      if name != [] && st.Takes(name) {
        var rest := s[|name|..];
        var after := rest[ValueLength(rest)..];
        var t := ScanOf(after, FRESH);
        ReplacedScan(after, FRESH, u.next);
        TextOfScan(after, FRESH);
        ScanNamed(after, FRESH);
        HeadAgrees(t, u.next);
        ScanAtFragment(name, u.value, Text(u.next), st);
      } else {
        var st' := st.After(s[0], name);
        ReplacedScan(s[1..], st', u.next);
        assert s == [s[0]] + s[1..];
        ReplacedCopy(s[0], s[1..], st, st', u.next);
      }
    }
  }

  lemma ReplacedCopy(c: Byte, r: Bytes, st: State, st': State, m: Scan)
    requires NameAt([c] + r) == [] || !st.Takes(NameAt([c] + r))
    requires st' == st.After(c, NameAt([c] + r))
    requires SameShape(ScanOf(r, st'), m) && ScanOf(Text(m), st') == m
    ensures ScanOf([c] + Text(m), st) == Copy(c, m)
  {
    TextOfScan(r, st');
    ScanNamed(r, st');
    CopiedName(c, ScanOf(r, st'), m);
    ScanAtCopy(c, Text(m), st);
  }

  lemma ScanAtCopy(c: Byte, r: Bytes, st: State)
    requires NameAt([c] + r) == [] || !st.Takes(NameAt([c] + r))
    ensures ScanOf([c] + r, st) == Copy(c, ScanOf(r, st.After(c, NameAt([c] + r))))
  {
    assert ([c] + r)[1..] == r;
  }

  lemma {:induction false} ValueEnds(value: Bytes, rest: Bytes)
    requires IsValue(value) && (rest != [] ==> IsDelimiter(rest[0]))
    ensures ValueLength(value + rest) == |value|
  {
    if value == [] {
      assert value + rest == rest;
    } else {
      assert (value + rest)[1..] == value[1..] + rest;
      ValueEnds(value[1..], rest);
    }
  }

  lemma {:induction false} MasksSameShape(t: Scan)
    ensures SameShape(t, Masks(t))
  {
    if !t.Done? { MasksSameShape(t.next); }
  }

  lemma {:induction false} SameShapeMasks(t: Scan, u: Scan)
    requires SameShape(t, u)
    ensures Masks(t) == Masks(u)
  {
    if !t.Done? { SameShapeMasks(t.next, u.next); }
  }

  lemma {:induction false} EqualMasksSameShape(t: Scan, u: Scan)
    requires Masks(t) == Masks(u) && SameShape(u, u)
    ensures SameShape(t, u)
  {
    if !t.Done? { EqualMasksSameShape(t.next, u.next); }
  }

  lemma ScanOfRedacted(s: Bytes, st: State)
    ensures ScanOf(RedactForm(s, st), st) == Masks(ScanOf(s, st))
  {
    RedactedIsMasked(s, st);
    MasksSameShape(ScanOf(s, st));
    ReplacedScan(s, st, Masks(ScanOf(s, st)));
  }

  /** Redacting twice is redacting once. */
  lemma RedactFormIdempotent(s: Bytes, st: State)
    ensures RedactForm(RedactForm(s, st), st) == RedactForm(s, st)
  {
    ScanOfRedacted(s, st);
    RedactedIsMasked(s, st);
    RedactedIsMasked(RedactForm(s, st), st);
    MasksSameShape(ScanOf(s, st));
    SameShapeMasks(ScanOf(s, st), Masks(ScanOf(s, st)));
  }

  /**
    The output shows the shape and nothing else: two texts are redacted to the same output exactly
    when they differ in the values of masked fragments only.
   */
  lemma RedactFormShowsShape(s: Bytes, r: Bytes, st: State)
    ensures RedactForm(s, st) == RedactForm(r, st) <==> SameShape(ScanOf(s, st), ScanOf(r, st))
  {
    RedactedIsMasked(s, st);
    RedactedIsMasked(r, st);
    if SameShape(ScanOf(s, st), ScanOf(r, st)) {
      SameShapeMasks(ScanOf(s, st), ScanOf(r, st));
    }
    if RedactForm(s, st) == RedactForm(r, st) {
      ScanOfRedacted(s, st);
      ScanOfRedacted(r, st);
      ScanNamed(r, st);
      EqualMasksSameShape(ScanOf(s, st), ScanOf(r, st));
    }
  }

  /** Plain words survive redaction, and none appears. */
  lemma PlainWords(w: Bytes, s: Bytes, st: State)
    requires IsPlain(w)
    ensures w <= s <==> w <= RedactForm(s, st)
  {
    var t := ScanOf(s, st);
    TextOfScan(s, st);
    RedactedIsMasked(s, st);
    ScanNamed(s, st);
    MasksSameShape(t);
    WordAgrees(w, t, Masks(t));
  }
}
