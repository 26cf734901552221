/**
  Masking of `key=` and `sign=` fragments in query-like text.

  The source searches for the first occurrence of each name in what remains of the text and takes
  the nearest of those that stand at a boundary.  Character by character this means: a name whose
  first occurrence is not at a boundary is dead until the next fragment is masked.
 */
module FormRedaction {
  import opened Wrappers
  import opened ByteStrings
  import opened JsonRedaction

  const KEY_NAME: Bytes := "key="
  const SIGN_NAME: Bytes := "sign="
  const MASK: Bytes := "***"

  predicate IsBoundary(c: Byte) { c in {'?', '&', ' ', '\'', '"'} }

  predicate IsDelimiter(c: Byte) { c in {'&', ' ', '\'', '"', ')', ']'} }

  /** The name that `s` starts with, or nothing. */
  function NameAt(s: Bytes): (name: Bytes)
    ensures name <= s && |name| <= 5
    ensures name == [] || name == KEY_NAME || name == SIGN_NAME
  {
    if KEY_NAME <= s then KEY_NAME
    else if SIGN_NAME <= s then SIGN_NAME
    else []
  }

  /** Length of the value: up to the first delimiter. */
  function ValueLength(s: Bytes): (n: nat)
    ensures n <= |s|
    ensures n < |s| ==> IsDelimiter(s[n])
    ensures forall i :: 0 <= i < n ==> !IsDelimiter(s[i])
  {
    if s == [] || IsDelimiter(s[0]) then 0 else 1 + ValueLength(s[1..])
  }

  /** Where the search stands: the previous byte is a boundary, and which names are still alive. */
  datatype State = State(boundary: bool, keyAlive: bool, signAlive: bool) {
    predicate Alive(name: Bytes) { if name == KEY_NAME then keyAlive else signAlive }

    predicate Takes(name: Bytes) { boundary && Alive(name) }

    /** After copying `c`, at which `name` (or nothing) started. */
    function After(c: Byte, name: Bytes): State {
      State(IsBoundary(c), keyAlive && name != KEY_NAME, signAlive && name != SIGN_NAME)
    }
  }

  /** The search starts afresh behind every masked value. */
  const FRESH := State(true, true, true)

  function RedactForm(s: Bytes, st: State): Bytes
    decreases |s|
  {
    if s == [] then []
    else
      var name := NameAt(s);
      if name != [] && st.Takes(name) then
        var rest := s[|name|..];
        name + (MASK + RedactForm(rest[ValueLength(rest)..], FRESH))
      else [s[0]] + RedactForm(s[1..], st.After(s[0], name))
  }

  // ---- The loop of the source ----

  /** A first occurrence counts only at the very front or behind a boundary byte. */
  function AtBoundary(s: Bytes, at: Option<nat>, front: bool): Option<nat>
    requires at.Some? ==> at.value <= |s|
  {
    match at
    case None => None
    case Some(i) => if (if i == 0 then front else IsBoundary(s[i - 1])) then Some(i) else None
  }

  function Nearest(a: Option<nat>, b: Option<nat>): Option<nat> {
    match (a, b)
    case (None, _) => b
    case (_, None) => a
    case (Some(i), Some(j)) => if j < i then b else a
  }

  function Candidate(s: Bytes, st: State, name: Bytes): Option<nat> {
    if st.Alive(name) then AtBoundary(s, Find(s, name), st.boundary) else None
  }

  /** Where the next fragment is masked: the nearest boundary occurrence among the first ones. */
  function NextFragment(s: Bytes, st: State): Option<nat> {
    Nearest(Candidate(s, st, KEY_NAME), Candidate(s, st, SIGN_NAME))
  }

  lemma OneNameAt(s: Bytes)
    ensures !(KEY_NAME <= s && SIGN_NAME <= s)
  {
    assert KEY_NAME[0] != SIGN_NAME[0];
  }

  lemma FindStep(s: Bytes, name: Bytes)
    requires s != [] && name != []
    ensures Find(s, name) == if name <= s then Some(0)
                             else match Find(s[1..], name) case None => None case Some(i) => Some(i + 1)
  {
  }

  lemma BoundaryStep(s: Bytes, name: Bytes, front: bool)
    requires s != [] && name != [] && !(name <= s)
    ensures AtBoundary(s, Find(s, name), front)
         == match AtBoundary(s[1..], Find(s[1..], name), IsBoundary(s[0]))
            case None => None
            case Some(i) => Some(i + 1)
  {
    FindStep(s, name);
  }

  lemma CandidateStep(s: Bytes, st: State, name: Bytes)
    requires s != [] && (name == KEY_NAME || name == SIGN_NAME)
    requires NameAt(s) == [] || !st.Takes(NameAt(s))
    ensures Candidate(s, st, name) == ShiftBy(Candidate(s[1..], st.After(s[0], NameAt(s)), name), 1)
  {
    OneNameAt(s);
    if name <= s {
      FindStep(s, name);
      assert NameAt(s) == name;
    } else {
      BoundaryStep(s, name, st.boundary);
      assert NameAt(s) != name;
    }
  }

  lemma CopyStep(s: Bytes, st: State)
    requires s != [] && (NameAt(s) == [] || !st.Takes(NameAt(s)))
    ensures NextFragment(s, st) == ShiftBy(NextFragment(s[1..], st.After(s[0], NameAt(s))), 1)
  {
    CandidateStep(s, st, KEY_NAME);
    CandidateStep(s, st, SIGN_NAME);
  }

  lemma TakeStep(s: Bytes, st: State)
    requires NameAt(s) != [] && st.Takes(NameAt(s))
    ensures NextFragment(s, st) == Some(0)
  {
    FindStep(s, NameAt(s));
  }

  /** The output when the next fragment is masked at `i`. */
  function MaskedAt(s: Bytes, i: nat): Bytes
    requires i <= |s|
  {
    var name := NameAt(s[i..]);
    var rest := s[i..][|name|..];
    s[..i] + (name + (MASK + RedactForm(rest[ValueLength(rest)..], FRESH)))
  }

  lemma MaskedAtStep(s: Bytes, i: nat)
    requires 1 <= i <= |s|
    ensures MaskedAt(s, i) == [s[0]] + MaskedAt(s[1..], i - 1)
  {
    assert s[1..][i - 1..] == s[i..];
    assert s[..i] == [s[0]] + s[1..][..i - 1];
    var name := NameAt(s[i..]);
    var rest := s[i..][|name|..];
    SumAssociates([s[0]], s[1..][..i - 1], name + (MASK + RedactForm(rest[ValueLength(rest)..], FRESH)));
  }

  /** The searching step and the character-by-character form agree. */
  predicate SearchAgrees(s: Bytes, st: State) {
    match NextFragment(s, st)
    case None => RedactForm(s, st) == s
    case Some(i) => i < |s| && NameAt(s[i..]) != [] && RedactForm(s, st) == MaskedAt(s, i)
  }

  lemma AgreesCopied(s: Bytes, st: State)
    requires s != [] && (NameAt(s) == [] || !st.Takes(NameAt(s)))
    requires SearchAgrees(s[1..], st.After(s[0], NameAt(s)))
    ensures SearchAgrees(s, st)
  {
    CopyStep(s, st);
    AgreesBehind(s, RedactForm(s, st), RedactForm(s[1..], st.After(s[0], NameAt(s))),
                 NextFragment(s[1..], st.After(s[0], NameAt(s))));
  }

  /** Agreement at the tail, in terms of what was found there and what was printed. */
  lemma AgreesBehind(s: Bytes, out: Bytes, rest: Bytes, next: Option<nat>)
    requires s != [] && out == [s[0]] + rest
    requires match next
             case None => rest == s[1..]
             case Some(i) => i < |s[1..]| && NameAt(s[1..][i..]) != [] && rest == MaskedAt(s[1..], i)
    ensures match ShiftBy(next, 1)
            case None => out == s
            case Some(i) => i < |s| && NameAt(s[i..]) != [] && out == MaskedAt(s, i)
  {
    match next
    case None => assert s == [s[0]] + s[1..];
    case Some(i) =>
      MaskedAtStep(s, i + 1);
      assert s[1..][i..] == s[i + 1..];
  }

  lemma AgreesTaken(s: Bytes, st: State)
    requires NameAt(s) != [] && st.Takes(NameAt(s))
    ensures SearchAgrees(s, st)
  {
    TakeStep(s, st);
    assert s[0..] == s && s[..0] == [];
    assert MaskedAt(s, 0) == RedactForm(s, st);
  }

  lemma {:induction false} SearchFindsNext(s: Bytes, st: State)
    ensures SearchAgrees(s, st)
  {
    if s != [] {
      var name := NameAt(s);
      if name == [] || !st.Takes(name) {
        SearchFindsNext(s[1..], st.After(s[0], name));
        AgreesCopied(s, st);
      } else {
        AgreesTaken(s, st);
      }
    }
  }

  /** `redact_form_secrets`: search, copy up to the value, mask, go on at the delimiter. */
  method RedactFormSecrets(input: Bytes) returns (out: Bytes)
    ensures out == RedactForm(input, FRESH)
  {
    out := [];
    var rest := input;
    while true
      invariant out + RedactForm(rest, FRESH) == RedactForm(input, FRESH)
      decreases |rest|
    {
      SearchFindsNext(rest, FRESH);
      var next := NextFragment(rest, FRESH);
      if next.None? { break; }
      var idx := next.value;
      var name := NameAt(rest[idx..]);
      var valueStart := idx + |name|;
      var value := rest[valueStart..];
      assert value == rest[idx..][|name|..];
      var end := ValueLength(value);
      Regroup(rest, idx, name, MASK + RedactForm(value[end..], FRESH));
      var head := rest[..valueStart];
      Reassociate(out, head, MASK, RedactForm(value[end..], FRESH));
      out := out + head + MASK;
      rest := value[end..];
    }
    out := out + rest;
  }
}
