/** Both redaction passes together. */
module SecretRedaction {
  import opened Wrappers
  import opened ByteStrings
  import opened JsonRedaction
  import JsonShape
  import opened FormRedaction
  import opened FormShape

  function RedactSecrets(s: Bytes): Bytes { RedactForm(RedactJson(s), FRESH) }

  method Redact(input: Bytes) returns (out: Bytes)
    ensures out == RedactSecrets(input)
  {
    var json := RedactJsonSecrets(input);
    out := RedactFormSecrets(json);
  }

  // ---- The form pass keeps what the JSON pass established ----

  lemma NoQuoteNoMember(s: Bytes)
    requires s != [] && s[0] != '"'
    ensures MemberAt(s) == []
  {
    assert KEY_MEMBER[0] == '"' && SIGN_MEMBER[0] == '"';
  }

  lemma {:induction false} PeelQuoteFree(p: Bytes, r: Bytes)
    requires '"' !in p
    ensures RedactJson(p + r) == p + RedactJson(r)
  {
    if p == [] {
      assert p + r == r;
    } else {
      SumHead(p, r);
      NoQuoteNoMember(p + r);
      PeelQuoteFree(p[1..], r);
      SumHead(p, RedactJson(r));
    }
  }

  /** No name starts in front of `w`, whatever follows it. */
  predicate ShutsOut(w: Bytes) {
    && w != []
    && (w[0] == 'k' ==> |w| > 3 && w[3] != '=')
    && (w[0] == 's' ==> |w| > 4 && w[4] != '=')
  }

  predicate HoldsNoName(w: Bytes) {
    w == [] || (ShutsOut(w) && HoldsNoName(w[1..]))
  }

  lemma NoNameInFront(w: Bytes, r: Bytes)
    requires ShutsOut(w)
    ensures NameAt(w + r) == []
  {
    var s := w + r;
    assert s[0] == w[0];
    if w[0] == 'k' { assert s[3] == w[3]; }
    if w[0] == 's' { assert s[4] == w[4]; }
  }

  lemma CopiesByte(w: Bytes, r: Bytes, st: State)
    requires ShutsOut(w)
    ensures RedactForm(w + r, st) == [w[0]] + RedactForm(w[1..] + r, st.After(w[0], []))
  {
    NoNameInFront(w, r);
    SumHead(w, r);
  }

  /** Such a word is copied by the form pass. */
  lemma {:induction false} CopiesWord(w: Bytes, r: Bytes, st: State) returns (st': State)
    requires HoldsNoName(w)
    ensures RedactForm(w + r, st) == w + RedactForm(r, st')
  {
    if w == [] {
      assert w + r == r && w + RedactForm(r, st) == RedactForm(r, st);
      st' := st;
    } else {
      CopiesByte(w, r, st);
      st' := CopiesWord(w[1..], r, st.After(w[0], []));
      SumHead(w, RedactForm(r, st'));
    }
  }

  lemma GapIsPlain(gap: Bytes)
    requires JsonShape.IsGap(gap)
    ensures IsPlain(gap)
  {
    JsonShape.OpenBytes(gap, false);
    forall i | 0 <= i < |gap| ensures gap[i] != 'k' && gap[i] != 's' {
      if i < |gap| - 1 { assert JsonShape.IsGapByte(gap[i]); }
    }
  }

  lemma OpenIffGap(s: Bytes, gap: Bytes)
    requires JsonShape.IsGap(gap) && gap <= s
    ensures OpenValue(s).Some?
  {
    JsonShape.GapExtends(gap, s[|gap|..]);
    assert s == gap + s[|gap|..];
  }

  /** The form pass neither opens nor closes a string value behind a member name. */
  lemma OpenSurvives(s: Bytes, st: State)
    ensures OpenValue(s).Some? <==> OpenValue(RedactForm(s, st)).Some?
  {
    var z := RedactForm(s, st);
    if OpenValue(s).Some? {
      JsonShape.OpenedIsGap(s);
      var gap := s[..OpenValue(s).value];
      GapIsPlain(gap);
      PlainWords(gap, s, st);
      OpenIffGap(z, gap);
    }
    if OpenValue(z).Some? {
      JsonShape.OpenedIsGap(z);
      var gap := z[..OpenValue(z).value];
      GapIsPlain(gap);
      PlainWords(gap, s, st);
      OpenIffGap(s, gap);
    }
  }

  /** Words such as `key"`: one byte that may start a name, the others plain, not itself a name. */
  lemma InnerWordSurvives(w: Bytes, s: Bytes, st: State)
    requires w == "key\"" || w == "sign\""
    ensures w <= s <==> w <= RedactForm(s, st)
  {
    if s != [] {
      var z := RedactForm(s, st);
      WordHead(w, s);
      WordHead(w, z);
      var name := NameAt(s);
      if name != [] && st.Takes(name) {
        assert name <= z;
        assert z[|name| - 1] == '=' && s[|name| - 1] == '=';
        if w <= s { assert w[|name| - 1] == '='; }
        if w <= z { assert w[|name| - 1] == '='; }
      } else {
        assert w[1..] == "ey\"" || w[1..] == "ign\"";
        PlainWords(w[1..], s[1..], st.After(s[0], name));
        assert z[1..] == RedactForm(s[1..], st.After(s[0], name));
      }
    }
  }

  lemma NamelessByte(c: Byte, w: Bytes)
    requires HoldsNoName(w) && ShutsOut([c] + w)
    ensures HoldsNoName([c] + w)
  {
    assert ([c] + w)[1..] == w;
  }

  /** A word with only its first byte able to start a name. */
  lemma {:induction false} PlainHoldsNoName(w: Bytes)
    requires IsPlain(w)
    ensures HoldsNoName(w)
  {
    if w != [] { PlainHoldsNoName(w[1..]); }
  }

  lemma QuotedHoldsNoName(first: Byte, rest: Bytes)
    requires IsPlain(rest) && ShutsOut([first] + rest)
    ensures HoldsNoName(['"'] + ([first] + rest))
  {
    PlainHoldsNoName(rest);
    NamelessByte(first, rest);
    NamelessByte('"', [first] + rest);
  }

  lemma MemberWords()
    ensures HoldsNoName(KEY_MEMBER) && HoldsNoName(SIGN_MEMBER) && HoldsNoName(MASKED_VALUE)
  {
    KeyWord();
    SignWord();
    PlainHoldsNoName(MASKED_VALUE);
  }

  lemma KeyWord()
    ensures HoldsNoName(KEY_MEMBER)
  {
    QuotedHoldsNoName('k', "ey\"");
    assert KEY_MEMBER == ['"'] + (['k'] + "ey\"");
  }

  lemma SignWord()
    ensures HoldsNoName(SIGN_MEMBER)
  {
    QuotedHoldsNoName('s', "ign\"");
    assert SIGN_MEMBER == ['"'] + (['s'] + "ign\"");
  }

  /** A masked value is left alone by the JSON pass. */
  lemma MaskedValueStays(rest: Bytes)
    ensures OpenValue(MASKED_VALUE + rest) == Some(2)
    ensures AfterString((MASKED_VALUE + rest)[2..]) == rest
    ensures RedactTail(MASKED_VALUE + rest) == MASKED_VALUE + RedactJson(rest)
  {
    JsonShape.MaskFits(JsonShape.Done);
    var value := "***" + (['"'] + rest);
    assert MASKED_VALUE + rest == ":\"" + value;
    JsonShape.GapExtends(":\"", value);
    JsonShape.BodyEnds("***", rest);
    assert (MASKED_VALUE + rest)[2..] == value && value[4..] == rest;
  }

  predicate Stable(s: Bytes) { RedactJson(s) == s }

  lemma StableTail(member: Bytes, tail: Bytes)
    requires Stable(member + tail) && MemberAt(member + tail) == member != []
    ensures RedactTail(tail) == tail
  {
    assert (member + tail)[|member|..] == tail;
    assert (member + RedactTail(tail))[|member|..] == RedactTail(tail);
  }

  lemma MaskedTail(tail: Bytes)
    requires RedactTail(tail) == tail && OpenValue(tail).Some?
    ensures |tail| >= 6 && tail == MASKED_VALUE + tail[6..] && Stable(tail[6..])
  {
    var rest := RedactJson(AfterString(tail[OpenValue(tail).value..]));
    assert tail == MASKED_VALUE + rest;
    assert tail[6..] == rest;
    MaskedValueStays(rest);
    assert (MASKED_VALUE + RedactJson(rest))[6..] == RedactJson(rest);
  }

  lemma StableCopy(s: Bytes)
    requires Stable(s) && s != [] && MemberAt(s) == []
    ensures Stable(s[1..])
  {
    assert ([s[0]] + RedactJson(s[1..]))[1..] == RedactJson(s[1..]);
  }

  lemma QuotedWord(inner: Bytes, member: Bytes, s: Bytes, z: Bytes)
    requires s != [] && z != [] && s[0] == '"' == z[0] && member == ['"'] + inner
    requires inner <= s[1..] <==> inner <= z[1..]
    ensures member <= s <==> member <= z
  {
    WordHead(member, s);
    WordHead(member, z);
    assert member[1..] == inner;
  }

  lemma QuotedMembers(s: Bytes, z: Bytes)
    requires s != [] && z != [] && s[0] == '"' == z[0]
    requires "key\"" <= s[1..] <==> "key\"" <= z[1..]
    requires "sign\"" <= s[1..] <==> "sign\"" <= z[1..]
    ensures MemberAt(s) == MemberAt(z)
  {
    QuotedWord("key\"", KEY_MEMBER, s, z);
    QuotedWord("sign\"", SIGN_MEMBER, s, z);
  }

  /** No member name appears or disappears where the form pass copies. */
  lemma MemberSurvives(s: Bytes, st: State)
    requires s != [] && (NameAt(s) == [] || !st.Takes(NameAt(s)))
    ensures MemberAt(RedactForm(s, st)) == MemberAt(s)
  {
    var z := RedactForm(s, st);
    var st' := st.After(s[0], NameAt(s));
    assert z[0] == s[0] && z[1..] == RedactForm(s[1..], st');
    if s[0] == '"' {
      InnerWordSurvives("key\"", s[1..], st');
      InnerWordSurvives("sign\"", s[1..], st');
      QuotedMembers(s, z);
    } else {
      NoQuoteNoMember(s);
      NoQuoteNoMember(z);
    }
  }

  lemma StableFragment(name: Bytes, rest: Bytes)
    requires (name == KEY_NAME || name == SIGN_NAME) && Stable(rest)
    ensures Stable(name + (MASK + rest))
  {
    PeelQuoteFree(name, MASK + rest);
    PeelQuoteFree(MASK, rest);
  }

  lemma StableAfterValue(s: Bytes)
    requires Stable(s) && NameAt(s) != []
    ensures var rest := s[|NameAt(s)|..];
            Stable(rest[ValueLength(rest)..])
  {
    var name := NameAt(s);
    var rest := s[|name|..];
    var n := ValueLength(rest);
    FragmentHoldsNoQuote(name, rest[..n]);
    assert s == (name + rest[..n]) + rest[n..];
    StableBehind(name + rest[..n], rest[n..]);
  }

  lemma FragmentHoldsNoQuote(name: Bytes, value: Bytes)
    requires (name == KEY_NAME || name == SIGN_NAME) && IsValue(value)
    ensures '"' !in name + value
  {
  }

  lemma StableBehind(p: Bytes, r: Bytes)
    requires '"' !in p && Stable(p + r)
    ensures Stable(r)
  {
    PeelQuoteFree(p, r);
    SumDrop(p, r);
    SumDrop(p, RedactJson(r));
  }

  lemma StableMember(member: Bytes, tail: Bytes)
    requires member == KEY_MEMBER || member == SIGN_MEMBER
    requires if OpenValue(tail).None? then Stable(tail)
             else |tail| >= 6 && tail == MASKED_VALUE + tail[6..] && Stable(tail[6..])
    ensures Stable(member + tail)
  {
    OneMemberAt(member + tail);
    assert member <= member + tail && (member + tail)[|member|..] == tail;
    if OpenValue(tail).Some? { MaskedValueStays(tail[6..]); }
  }

  /** On text the JSON pass leaves alone, the form pass yields text the JSON pass leaves alone. */
  lemma {:induction false} FormKeepsStable(s: Bytes, st: State)
    requires Stable(s)
    ensures Stable(RedactForm(s, st))
    decreases |s|
  {
    if s != [] {
      var name, member := NameAt(s), MemberAt(s);
      if name != [] && st.Takes(name) {
        var rest := s[|name|..];
        StableAfterValue(s);
        FormKeepsStable(rest[ValueLength(rest)..], FRESH);
        StableFragment(name, RedactForm(rest[ValueLength(rest)..], FRESH));
      } else if member == [] {
        StableCopy(s);
        FormKeepsStable(s[1..], st.After(s[0], name));
        MemberSurvives(s, st);
      } else {
        FormKeepsMember(member, s[|member|..], st);
      }
    }
  }

  lemma {:induction false} FormKeepsMember(member: Bytes, tail: Bytes, st: State)
    requires (member == KEY_MEMBER || member == SIGN_MEMBER) && Stable(member + tail)
    ensures Stable(RedactForm(member + tail, st))
    decreases |tail| + 1
  {
    MemberWords();
    OneMemberAt(member + tail);
    assert MemberAt(member + tail) == member && (member + tail)[|member|..] == tail;
    StableTail(member, tail);
    var st' := CopiesWord(member, tail, st);
    OpenSurvives(tail, st');
    if OpenValue(tail).None? {
      FormKeepsStable(tail, st');
      StableMember(member, RedactForm(tail, st'));
    } else {
      MaskedTail(tail);
      var rest := tail[6..];
      var st'' := CopiesWord(MASKED_VALUE, rest, st');
      FormKeepsStable(rest, st'');
      var masked := MASKED_VALUE + RedactForm(rest, st'');
      assert masked[6..] == RedactForm(rest, st'');
      StableMember(member, masked);
    }
  }

  /** Re-running the redactor changes nothing, on any text. */
  lemma RedactSecretsIdempotent(s: Bytes)
    ensures RedactSecrets(RedactSecrets(s)) == RedactSecrets(s)
    ensures RedactJson(RedactSecrets(s)) == RedactSecrets(s)
  {
    JsonShape.RedactJsonIdempotent(s);
    FormKeepsStable(RedactJson(s), FRESH);
    RedactFormIdempotent(RedactJson(s), FRESH);
  }
}
