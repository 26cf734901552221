/** The redactor cuts at ASCII bytes only: it never splits a character. */
module RedactedText {
  import opened Wrappers
  import opened ByteStrings
  import opened Utf8
  import opened JsonRedaction
  import JsonShape
  import opened FormRedaction
  import opened SecretRedaction

  lemma AsciiFirst(s: Bytes)
    requires ValidUtf8(s) && s != [] && s[0] <= '\U{7F}'
    ensures ValidUtf8(s[1..])
  {
  }

  lemma AsciiPrepend(w: Bytes, r: Bytes)
    requires IsAscii(w) && ValidUtf8(r)
    ensures ValidUtf8(w + r)
  {
    AsciiIsValid(w);
    ConcatValid(w, r);
  }

  /** Dropping an ASCII prefix, or everything up to and including an ASCII byte. */
  lemma {:induction false} DropAscii(s: Bytes, n: nat)
    requires ValidUtf8(s) && n <= |s| && IsAscii(s[..n])
    ensures ValidUtf8(s[n..])
  {
    if n > 0 {
      assert s[0] == s[..n][0];
      AsciiFirst(s);
      var rest := s[1..][..n - 1];
      forall i | 0 <= i < |rest| ensures rest[i] <= '\U{7F}' {
        assert rest[i] == s[..n][i + 1];
      }
      DropAscii(s[1..], n - 1);
      assert s[1..][n - 1..] == s[n..];
    }
  }

  lemma DropThrough(s: Bytes, i: nat)
    requires ValidUtf8(s) && i < |s| && s[i] <= '\U{7F}'
    ensures ValidUtf8(s[i + 1..])
  {
    CutAtAscii(s, i);
    AsciiFirst(s[i..]);
    assert s[i..][1..] == s[i + 1..];
  }

  /** A character outside ASCII consists of such bytes. */
  lemma WideBytes(s: Bytes, i: nat)
    requires s != [] && s[0] > '\U{7F}' && i < CharLength(s)
    ensures s[i] > '\U{7F}'
  {
  }

  lemma WideCharacter(s: Bytes)
    requires ValidUtf8(s) && s != [] && s[0] > '\U{7F}'
    ensures var n := CharLength(s);
            && 2 <= n <= |s| && ValidUtf8(s[n..])
            && forall i :: 0 <= i < n ==> s[i] > '\U{7F}'
  {
    forall i | 0 <= i < CharLength(s) ensures s[i] > '\U{7F}' { WideBytes(s, i); }
  }

  lemma CharacterIsText(s: Bytes)
    requires ValidUtf8(s) && s != [] && s[0] > '\U{7F}'
    ensures ValidUtf8(s[..CharLength(s)])
  {
    var n := CharLength(s);
    var c := s[..n];
    assert CharLength(c) == n;
    assert c[n..] == [] && ValidUtf8([]);
  }

  lemma {:induction false} WideHoldsNoName(w: Bytes)
    requires forall i :: 0 <= i < |w| ==> w[i] > '\U{7F}'
    ensures HoldsNoName(w)
  {
    if w != [] { WideHoldsNoName(w[1..]); }
  }

  lemma BehindFragmentIsText(s: Bytes)
    requires ValidUtf8(s) && NameAt(s) != []
    ensures var rest := s[|NameAt(s)|..];
            ValidUtf8(rest[ValueLength(rest)..])
  {
    var name := NameAt(s);
    assert s[..|name|] == name && IsAscii(name);
    DropAscii(s, |name|);
    CutAtAscii(s[|name|..], ValueLength(s[|name|..]));
  }

  lemma FragmentIsText(name: Bytes, r: Bytes)
    requires (name == KEY_NAME || name == SIGN_NAME) && ValidUtf8(r)
    ensures ValidUtf8(name + (MASK + r))
  {
    AsciiPrepend(MASK, r);
    AsciiPrepend(name, MASK + r);
  }

  lemma {:induction false} FormKeepsText(s: Bytes, st: State)
    requires ValidUtf8(s)
    ensures ValidUtf8(RedactForm(s, st))
    decreases |s|
  {
    if s != [] {
      var name := NameAt(s);
      if name != [] && st.Takes(name) {
        var rest := s[|name|..];
        BehindFragmentIsText(s);
        FormKeepsText(rest[ValueLength(rest)..], FRESH);
        FragmentIsText(name, RedactForm(rest[ValueLength(rest)..], FRESH));
      } else if s[0] <= '\U{7F}' {
        FormKeepsText(s[1..], st.After(s[0], name));
        AsciiPrepend([s[0]], RedactForm(s[1..], st.After(s[0], name)));
      } else {
        FormKeepsWide(s, st);
      }
    }
  }

  lemma {:induction false} FormKeepsWide(s: Bytes, st: State)
    requires ValidUtf8(s) && s != [] && s[0] > '\U{7F}'
    ensures ValidUtf8(RedactForm(s, st))
    decreases |s|, 0
  {
    WideCharacter(s);
    CharacterIsText(s);
    var n := CharLength(s);
    assert s == s[..n] + s[n..];
    WideHoldsNoName(s[..n]);
    var st' := CopiesWord(s[..n], s[n..], st);
    FormKeepsText(s[n..], st');
    ConcatValid(s[..n], RedactForm(s[n..], st'));
  }

  lemma {:induction false} JsonKeepsText(s: Bytes)
    requires ValidUtf8(s)
    ensures ValidUtf8(RedactJson(s))
    decreases |s|, 0
  {
    if s != [] {
      var member := MemberAt(s);
      if member != [] {
        assert s[..|member|] == member && IsAscii(member);
        DropAscii(s, |member|);
        TailKeepsText(s[|member|..]);
        AsciiPrepend(member, RedactTail(s[|member|..]));
      } else if s[0] <= '\U{7F}' {
        JsonKeepsText(s[1..]);
        AsciiPrepend([s[0]], RedactJson(s[1..]));
      } else {
        WideCharacter(s);
        CharacterIsText(s);
        var n := CharLength(s);
        assert s == s[..n] + s[n..];
        PeelQuoteFree(s[..n], s[n..]);
        JsonKeepsText(s[n..]);
        ConcatValid(s[..n], RedactJson(s[n..]));
      }
    }
  }

  lemma AfterStringIsText(value: Bytes)
    requires ValidUtf8(value)
    ensures ValidUtf8(AfterString(value))
  {
    match StringEnd(value)
    case None =>
    case Some(end) =>
      DropThrough(value, end);
      assert AfterString(value) == value[end + 1..];
  }

  lemma OpenedIsText(tail: Bytes)
    requires ValidUtf8(tail) && OpenValue(tail).Some?
    ensures ValidUtf8(tail[OpenValue(tail).value..])
  {
    JsonShape.OpenBytes(tail, false);
    DropThrough(tail, OpenValue(tail).value - 1);
  }

  lemma {:induction false} TailKeepsText(tail: Bytes)
    requires ValidUtf8(tail)
    ensures ValidUtf8(RedactTail(tail))
    decreases |tail|, 1
  {
    match OpenValue(tail)
    case None => JsonKeepsText(tail);
    case Some(start) =>
      OpenedIsText(tail);
      AfterStringIsText(tail[start..]);
      var rest := AfterString(tail[start..]);
      JsonKeepsText(rest);
      AsciiPrepend(MASKED_VALUE, RedactJson(rest));
  }

  /** Redacting text gives text: every slice of the source lies on a character boundary. */
  lemma RedactKeepsText(s: Bytes)
    requires ValidUtf8(s)
    ensures ValidUtf8(RedactSecrets(s))
  {
    JsonKeepsText(s);
    FormKeepsText(RedactJson(s), FRESH);
  }
}
