/** What `redact_secrets` as a whole does to the secrets in a text, and to the rest of it. */
module RedactionResults {
  import opened Wrappers
  import opened ByteStrings
  import opened JsonRedaction
  import JsonShape
  import opened FormRedaction
  import opened FormShape
  import opened SecretRedaction
  import opened FormCoverage

  /** Neither pass finds anything left to do. */
  lemma BothPassesDone(s: Bytes)
    ensures RedactJson(RedactSecrets(s)) == RedactSecrets(s)
    ensures RedactForm(RedactSecrets(s), FRESH) == RedactSecrets(s)
  {
    RedactSecretsIdempotent(s);
    RedactFormIdempotent(RedactJson(s), FRESH);
  }

  /** Two texts are printed alike exactly when, their JSON secrets masked, they differ in fragment values only. */
  lemma RedactSecretsShowsShape(s: Bytes, r: Bytes)
    ensures RedactSecrets(s) == RedactSecrets(r) <==>
              SameShape(ScanOf(RedactJson(s), FRESH), ScanOf(RedactJson(r), FRESH))
  {
    RedactFormShowsShape(RedactJson(s), RedactJson(r), FRESH);
  }

  /** The whole redactor masks every fragment that is left in the JSON pass's output, unless it overlooks one. */
  lemma RedactSecretsMasksAllIff(s: Bytes)
    ensures RedactSecrets(s) == MaskAll(RedactJson(s), true) <==> !Overlooks(RedactJson(s), FRESH)
  {
    MasksAllIff(RedactJson(s), FRESH);
  }

  // ---- Fragments ----

  /** Text that holds no delimiter of a fragment. */
  predicate NoDelimiter(v: Bytes) {
    forall i :: 0 <= i < |v| ==> v[i] !in {'&', ' ', '\'', '"', ')', ']'}
  }

  predicate EndsFragment(rest: Bytes) { rest == [] || rest[0] in {'&', ' ', '\'', '"', ')', ']'} }

  /** What may stand in front of a fragment: nothing, or text without a name in it that ends in a boundary. */
  predicate LeadsIn(front: Bytes) {
    front == []
    || ((forall i :: 0 <= i < |front| ==> front[i] != 'k' && front[i] != 's')
        && front[|front| - 1] in {'?', '&', ' ', '\'', '"'})
  }

  /** No JSON member is in the text. */
  predicate NoMember(s: Bytes) { forall p :: 0 <= p <= |s| ==> !("\"key\"" <= s[p..]) && !("\"sign\"" <= s[p..]) }

  lemma MemberFreeIsFormOnly(s: Bytes)
    requires NoMember(s)
    ensures RedactSecrets(s) == RedactForm(s, FRESH)
  {
    forall j | 0 <= j < |s| ensures MemberAt(s[j..]) == [] {}
    CopyUntil(s, |s|);
    assert s[..|s|] + RedactJson(s[|s|..]) == s;
  }

  lemma NoMemberBehind(front: Bytes, rest: Bytes)
    requires NoMember(front + rest)
    ensures NoMember(rest)
  {
    forall p | 0 <= p <= |rest| ensures rest[p..] == (front + rest)[|front| + p..] {}
  }

  lemma FragmentInFront(name: Bytes, v: Bytes, rest: Bytes, st: State)
    requires (name == KEY_NAME || name == SIGN_NAME) && st.Takes(name)
    requires NoDelimiter(v) && EndsFragment(rest)
    ensures RedactForm(name + (v + rest), st) == name + (MASK + RedactForm(rest, FRESH))
  {
    NameAtAppend(name, v + rest);
    SumDrop(name, v + rest);
    ValueEnds(v, rest);
    SumDrop(v, rest);
  }

  lemma FrontIsCopied(front: Bytes, r: Bytes)
    requires LeadsIn(front)
    ensures RedactForm(front + r, FRESH) == front + RedactForm(r, FRESH)
  {
    if front == [] {
      assert front + r == r && front + RedactForm(r, FRESH) == RedactForm(r, FRESH);
    } else {
      CopiesPlain(front, r, FRESH);
      assert AfterPlain(front, FRESH) == FRESH;
    }
  }

  /**
    The value of a fragment is masked, whatever it is: at the front of the text or behind a boundary, up
    to the next delimiter.  The rest is redacted on its own.
   */
  lemma FragmentMasked(front: Bytes, name: Bytes, v: Bytes, rest: Bytes)
    requires name == "key=" || name == "sign="
    requires LeadsIn(front) && NoDelimiter(v) && EndsFragment(rest) && NoMember(front + (name + (v + rest)))
    ensures RedactSecrets(front + (name + (v + rest))) == front + (name + ("***" + RedactSecrets(rest)))
  {
    MemberFreeIsFormOnly(front + (name + (v + rest)));
    NoMemberBehind(front, name + (v + rest));
    NoMemberBehind(name, v + rest);
    NoMemberBehind(v, rest);
    MemberFreeIsFormOnly(rest);
    FrontIsCopied(front, name + (v + rest));
    FragmentInFront(name, v, rest, FRESH);
  }

  // ---- Members ----

  /** A word without names leaves the search as it was, but for the boundary. */
  lemma {:induction false} WordState(w: Bytes, r: Bytes, st: State)
    requires HoldsNoName(w) && w != []
    ensures RedactForm(w + r, st) == w + RedactForm(r, AfterPlain(w, st))
  {
    CopiesByte(w, r, st);
    var st' := st.After(w[0], []);
    if |w| == 1 {
      assert w[1..] + r == r && [w[0]] == w;
      assert AfterPlain(w, st) == st';
    } else {
      WordState(w[1..], r, st');
      assert AfterPlain(w[1..], st') == AfterPlain(w, st);
      SumHead(w, RedactForm(r, AfterPlain(w, st)));
    }
  }

  lemma MemberIsCopied(member: Bytes, r: Bytes)
    requires member == KEY_MEMBER || member == SIGN_MEMBER
    ensures RedactForm(member + (MASKED_VALUE + r), FRESH) == member + (MASKED_VALUE + RedactForm(r, FRESH))
  {
    MemberWords();
    WordState(member, MASKED_VALUE + r, FRESH);
    assert member[|member| - 1] == '"' && AfterPlain(member, FRESH) == FRESH;
    WordState(MASKED_VALUE, r, FRESH);
    assert MASKED_VALUE[|MASKED_VALUE| - 1] == '"' && AfterPlain(MASKED_VALUE, FRESH) == FRESH;
  }

  lemma JsonMember(member: Bytes, gap: Bytes, body: Bytes, rest: Bytes)
    requires (member == KEY_MEMBER || member == SIGN_MEMBER) && JsonShape.IsGap(gap)
    requires StringEnd(body + ['"']) == Some(|body|)
    ensures RedactJson(member + (gap + (body + (['"'] + rest)))) == member + (MASKED_VALUE + RedactJson(rest))
  {
    var value := body + (['"'] + rest);
    MemberInFront(member, gap + value);
    JsonShape.GapExtends(gap, value);
    SumDrop(gap, value);
    JsonShape.BodyEnds(body, rest);
    JsonShape.CutsBody(body, rest);
  }

  lemma MemberInFront(member: Bytes, tail: Bytes)
    requires member == KEY_MEMBER || member == SIGN_MEMBER
    ensures RedactJson(member + tail) == member + RedactTail(tail)
  {
    OneMemberAt(member + tail);
    assert member <= member + tail;
    SumDrop(member, tail);
  }

  /** A string value of a secret member is masked, whatever it is; the rest is redacted on its own. */
  lemma MemberMasked(member: Bytes, gap: Bytes, body: Bytes, rest: Bytes)
    requires (member == "\"key\"" || member == "\"sign\"") && JsonShape.IsGap(gap)
    requires StringEnd(body + ['"']) == Some(|body|)
    ensures RedactSecrets(member + (gap + (body + (['"'] + rest)))) == member + (":\"***\"" + RedactSecrets(rest))
  {
    JsonMember(member, gap, body, rest);
    MemberIsCopied(member, RedactJson(rest));
  }

  /** In particular with and without spaces around the colon, for text without quotes and backslashes. */
  lemma PlainMemberMasked(member: Bytes, gap: Bytes, v: Bytes, rest: Bytes)
    requires member == "\"key\"" || member == "\"sign\""
    requires gap == ":\"" || gap == " : \""
    requires forall i :: 0 <= i < |v| ==> v[i] != '"' && v[i] != '\\'
    ensures RedactSecrets(member + (gap + (v + (['"'] + rest)))) == member + (":\"***\"" + RedactSecrets(rest))
  {
    GapsOpen();
    PlainBodyEnds(v);
    MemberMasked(member, gap, v, rest);
  }

  lemma GapsOpen()
    ensures JsonShape.IsGap(":\"") && JsonShape.IsGap(" : \"")
  {
    JsonShape.MaskOpens();
    assert OpenFrom("\"", true) == Some(1);
    SpaceOpens(" \"", "\"", true, 1);
    ColonOpens(": \"", " \"", 2);
    SpaceOpens(" : \"", ": \"", false, 3);
  }

  lemma SpaceOpens(s: Bytes, rest: Bytes, colonSeen: bool, n: nat)
    requires s != [] && s[0] == ' ' && s[1..] == rest && OpenFrom(rest, colonSeen) == Some(n)
    ensures OpenFrom(s, colonSeen) == Some(n + 1)
  {
  }

  lemma ColonOpens(s: Bytes, rest: Bytes, n: nat)
    requires s != [] && s[0] == ':' && s[1..] == rest && OpenFrom(rest, true) == Some(n)
    ensures OpenFrom(s, false) == Some(n + 1)
  {
    assert SpaceLength(s) == 0;
    assert OpenFrom(s, false) == ShiftBy(OpenFrom(rest, true), 1);
  }

  // ---- Everything else ----

  /** None of the four words occurs. */
  predicate NoSecretWord(s: Bytes) {
    forall p :: 0 <= p <= |s| ==>
      !("\"key\"" <= s[p..]) && !("\"sign\"" <= s[p..]) && !("key=" <= s[p..]) && !("sign=" <= s[p..])
  }

  /** Text in which none of them occurs is printed as it is. */
  lemma NothingToMask(s: Bytes)
    requires NoSecretWord(s)
    ensures RedactSecrets(s) == s
  {
    MemberFreeIsFormOnly(s);
    forall j | 0 <= j <= |s| ensures NameAt(s[j..]) == [] {}
    NamelessCopies(s, FRESH);
  }

  predicate Nameless(s: Bytes) { forall j :: 0 <= j <= |s| ==> NameAt(s[j..]) == [] }

  lemma NamelessRest(s: Bytes)
    requires Nameless(s) && s != []
    ensures Nameless(s[1..]) && NameAt(s) == []
  {
    assert s[0..] == s;
    forall j | 0 <= j <= |s[1..]| ensures NameAt(s[1..][j..]) == [] {
      assert s[1..][j..] == s[j + 1..];
    }
  }

  lemma CopiesOne(s: Bytes, st: State)
    requires s != [] && NameAt(s) == []
    ensures RedactForm(s, st) == [s[0]] + RedactForm(s[1..], st.After(s[0], []))
  {
  }

  lemma {:induction false} NamelessCopies(s: Bytes, st: State)
    requires Nameless(s)
    ensures RedactForm(s, st) == s
  {
    if s != [] {
      NamelessRest(s);
      CopiesOne(s, st);
      NamelessCopies(s[1..], st.After(s[0], []));
    }
  }
}
