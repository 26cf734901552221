/**
  When the form redactor masks every fragment.

  The source promises to mask the form and query fragments named `key` or `sign`.  Its search looks
  at the first occurrence of each name only, so an earlier occurrence that is not at a boundary (the
  `key=` in `monkey=`) hides a later fragment.  This module says exactly when that happens.
 */
module FormCoverage {
  import opened ByteStrings
  import opened JsonRedaction
  import opened FormRedaction
  import opened FormShape
  import opened SecretRedaction

  /** The promise: every name at a boundary has its value masked. */
  function MaskAll(s: Bytes, boundary: bool): Bytes
    decreases |s|
  {
    if s == [] then []
    else
      var name := NameAt(s);
      if name != [] && boundary then
        var rest := s[|name|..];
        name + (MASK + MaskAll(rest[ValueLength(rest)..], true))
      else [s[0]] + MaskAll(s[1..], IsBoundary(s[0]))
  }

  /**
    Some fragment at a boundary has a value other than the mask, and its name occurred before away
    from a boundary with no masked fragment in between.
   */
  predicate Overlooks(s: Bytes, st: State)
    decreases |s|
  {
    if s == [] then false
    else
      var name := NameAt(s);
      if name != [] && st.boundary then
        var rest := s[|name|..];
        var value, after := rest[..ValueLength(rest)], rest[ValueLength(rest)..];
        if st.Alive(name) then Overlooks(after, FRESH)
        else value != MASK || Overlooks(after, st.After('*', name))
      else Overlooks(s[1..], st.After(s[0], name))
  }

  lemma {:induction false} HeadSurvives(s: Bytes, st: State, boundary: bool)
    ensures s == [] <==> RedactForm(s, st) == []
    ensures s == [] <==> MaskAll(s, boundary) == []
    ensures s != [] ==> RedactForm(s, st)[0] == s[0] && MaskAll(s, boundary)[0] == s[0]
  {
    if s != [] {
      var name := NameAt(s);
      if name != [] { assert name[0] == s[0]; }
    }
  }

  lemma PlainShutsOut(w: Bytes)
    requires IsPlain(w) && w != []
    ensures ShutsOut(w) && IsPlain(w[1..])
  {
    assert w[0] != 'k' && w[0] != 's';
  }

  function AfterPlain(w: Bytes, st: State): State
    requires w != []
  {
    State(IsBoundary(w[|w| - 1]), st.keyAlive, st.signAlive)
  }

  /** Plain words are copied and leave the names as they are. */
  lemma {:induction false} CopiesPlain(w: Bytes, r: Bytes, st: State)
    requires IsPlain(w) && w != []
    ensures RedactForm(w + r, st) == w + RedactForm(r, AfterPlain(w, st))
    ensures Overlooks(w + r, st) <==> Overlooks(r, AfterPlain(w, st))
  {
    PlainShutsOut(w);
    CopiesByte(w, r, st);
    OverlooksByte(w, r, st);
    var st' := st.After(w[0], []);
    if |w| > 1 {
      CopiesPlain(w[1..], r, st');
      assert AfterPlain(w[1..], st') == AfterPlain(w, st);
    } else {
      assert w[1..] + r == r;
      assert w[1..] + RedactForm(r, st') == RedactForm(r, st');
      assert st' == AfterPlain(w, st);
    }
    SumHead(w, RedactForm(r, AfterPlain(w, st)));
  }

  lemma OverlooksByte(w: Bytes, r: Bytes, st: State)
    requires ShutsOut(w)
    ensures Overlooks(w + r, st) <==> Overlooks(w[1..] + r, st.After(w[0], []))
  {
    NoNameInFront(w, r);
    SumHead(w, r);
  }

  lemma NamePlain(name: Bytes)
    requires name == KEY_NAME || name == SIGN_NAME
    ensures IsPlain(name[1..]) && name[1..] != [] && name[1..][|name| - 2] == '='
    ensures name == [name[0]] + name[1..]
  {
  }

  lemma CopiesNameHead(name: Bytes, rest: Bytes, st: State)
    requires (name == KEY_NAME || name == SIGN_NAME) && !st.Takes(name)
    ensures RedactForm(name + rest, st) == [name[0]] + RedactForm(name[1..] + rest, st.After(name[0], name))
    ensures !st.boundary ==>
              (Overlooks(name + rest, st) <==> Overlooks(name[1..] + rest, st.After(name[0], name)))
  {
    NameAtAppend(name, rest);
    SumHead(name, rest);
  }

  /** A name that is not taken is copied, and is dead afterwards. */
  lemma CopiesName(name: Bytes, rest: Bytes, st: State)
    requires (name == KEY_NAME || name == SIGN_NAME) && !st.Takes(name)
    ensures RedactForm(name + rest, st) == name + RedactForm(rest, st.After('=', name))
    ensures !st.boundary ==> (Overlooks(name + rest, st) <==> Overlooks(rest, st.After('=', name)))
  {
    NamePlain(name);
    var inner := name[1..];
    var st' := st.After(name[0], name);
    CopiesNameHead(name, rest, st);
    CopiesPlain(inner, rest, st');
    assert AfterPlain(inner, st') == st.After('=', name);
    SumHead(name, RedactForm(rest, st.After('=', name)));
  }

  /** In front of a delimiter or the end the boundary flag does not matter. */
  lemma DelimiterFirst(s: Bytes, a: bool, b: bool)
    requires s != [] ==> IsDelimiter(s[0])
    ensures MaskAll(s, a) == MaskAll(s, b)
  {
    if s != [] {
      NameAtHead(s);
    }
  }

  lemma DeadFragment(name: Bytes, rest: Bytes, st: State)
    requires (name == KEY_NAME || name == SIGN_NAME) && !st.Takes(name)
    requires rest[..ValueLength(rest)] == MASK
    ensures RedactForm(name + rest, st)
         == name + (MASK + RedactForm(rest[ValueLength(rest)..], st.After('*', name)))
  {
    var after := rest[ValueLength(rest)..];
    SplitAt(rest, ValueLength(rest));
    CopiesName(name, rest, st);
    CopiesPlain(MASK, after, st.After('=', name));
    assert AfterPlain(MASK, st.After('=', name)) == st.After('*', name);
  }

  lemma OverlookedValue(rest: Bytes, st: State)
    requires rest[..ValueLength(rest)] != MASK
    ensures RedactForm(rest, st) != MASK + MaskAll(rest[ValueLength(rest)..], true)
  {
    if MASK <= RedactForm(rest, st) {
      PlainWords(MASK, rest, st);
      StarsAreValue(rest);
      assert rest == MASK + rest[3..];
      LongerValue(rest[3..], st, rest[ValueLength(rest)..]);
    } else {
      SumPrefix(MASK, MaskAll(rest[ValueLength(rest)..], true));
    }
  }

  lemma SumPrefix(w: Bytes, x: Bytes)
    ensures w <= w + x
  {
  }

  lemma LongerValue(r: Bytes, st: State, after: Bytes)
    requires r != [] && !IsDelimiter(r[0]) && (after != [] ==> IsDelimiter(after[0]))
    ensures RedactForm(MASK + r, st) != MASK + MaskAll(after, true)
  {
    var st' := AfterPlain(MASK, st);
    CopiesPlain(MASK, r, st);
    DropMask(MaskAll(after, true), RedactForm(r, st'));
    HeadSurvives(r, st', true);
    HeadSurvives(after, st', true);
  }

  lemma DropMask(x: Bytes, y: Bytes)
    ensures MASK + x == MASK + y <==> x == y
  {
    assert (MASK + x)[3..] == x && (MASK + y)[3..] == y;
  }

  lemma StarsAreValue(rest: Bytes)
    requires MASK <= rest && rest[..ValueLength(rest)] != MASK
    ensures ValueLength(rest) > 3
  {
    assert rest[0] == '*' && rest[1] == '*' && rest[2] == '*';
    assert rest[..3] == MASK;
  }

  lemma OverlookedFragment(name: Bytes, rest: Bytes, st: State)
    requires (name == KEY_NAME || name == SIGN_NAME) && !st.Takes(name)
    requires rest[..ValueLength(rest)] != MASK
    ensures RedactForm(name + rest, st) != name + (MASK + MaskAll(rest[ValueLength(rest)..], true))
  {
    var x := MASK + MaskAll(rest[ValueLength(rest)..], true);
    var st' := st.After('=', name);
    CopiesName(name, rest, st);
    OverlookedValue(rest, st');
    assert (name + RedactForm(rest, st'))[|name|..] == RedactForm(rest, st');
    assert (name + x)[|name|..] == x;
  }

  /** The redactor keeps its promise exactly on the texts in which it overlooks nothing. */
  lemma {:induction false} MasksAllIff(s: Bytes, st: State)
    ensures RedactForm(s, st) == MaskAll(s, st.boundary) <==> !Overlooks(s, st)
    decreases |s|
  {
    if s != [] {
      var name := NameAt(s);
      if name != [] && st.boundary {
        var rest := s[|name|..];
        assert s == name + rest;
        var n := ValueLength(rest);
        var value, after := rest[..n], rest[n..];
        if st.Alive(name) {
          MasksAllIff(after, FRESH);
          SamePrefix(name, RedactForm(after, FRESH), MaskAll(after, true));
        } else if value == MASK {
          DeadFragment(name, rest, st);
          MasksAllIff(after, st.After('*', name));
          DelimiterFirst(after, true, false);
          SamePrefix(name, RedactForm(after, st.After('*', name)), MaskAll(after, true));
        } else {
          OverlookedFragment(name, rest, st);
        }
      } else {
        var st' := st.After(s[0], name);
        MasksAllIff(s[1..], st');
        assert ([s[0]] + RedactForm(s[1..], st'))[1..] == RedactForm(s[1..], st');
        assert ([s[0]] + MaskAll(s[1..], st'.boundary))[1..] == MaskAll(s[1..], st'.boundary);
      }
    }
  }

  lemma SamePrefix(name: Bytes, x: Bytes, y: Bytes)
    ensures name + (MASK + x) == name + (MASK + y) <==> x == y
  {
    assert (name + (MASK + x))[|name|..][3..] == x;
    assert (name + (MASK + y))[|name|..][3..] == y;
  }

  /** Away from a boundary nothing is masked. */
  lemma {:induction false} CopiesInside(w: Bytes, st: State)
    requires !st.boundary && forall i :: 0 <= i < |w| ==> !IsBoundary(w[i])
    ensures RedactForm(w, st) == w
  {
    if w != [] {
      CopiesInside(w[1..], st.After(w[0], NameAt(w)));
      assert [w[0]] + w[1..] == w;
    }
  }

  lemma DeadNameCopies(name: Bytes, value: Bytes, st: State)
    requires (name == KEY_NAME || name == SIGN_NAME) && !st.Alive(name)
    requires forall i :: 0 <= i < |value| ==> !IsBoundary(value[i])
    ensures RedactForm(name + value, st) == name + value
  {
    CopiesName(name, value, st);
    CopiesInside(value, st.After('=', name));
  }

  /**
    A name inside a longer one hides the next fragment of that name: with `mon`, `key=`, `1&` and a
    secret, the fragment in `monkey=1&key=secret` is not masked, and the text is printed as it is.
   */
  lemma HiddenFragment(front: Bytes, name: Bytes, between: Bytes, value: Bytes)
    requires name == KEY_NAME || name == SIGN_NAME
    requires IsPlain(front) && front != [] && !IsBoundary(front[|front| - 1])
    requires IsPlain(between) && between != [] && IsBoundary(between[|between| - 1])
    requires IsValue(value) && value != MASK
    ensures Overlooks(front + (name + (between + (name + value))), FRESH)
    ensures (forall i :: 0 <= i < |value| ==> !IsBoundary(value[i])) ==>
              (var s := front + (name + (between + (name + value))); RedactForm(s, FRESH) == s)
  {
    var hidden := name + value;
    CopiesPlain(front, name + (between + hidden), FRESH);
    var st := AfterPlain(front, FRESH);
    CopiesName(name, between + hidden, st);
    var st' := st.After('=', name);
    CopiesPlain(between, hidden, st');
    NameAtAppend(name, value);
    ValueEnds(value, []);
    assert value + [] == value && value[..|value|] == value;
    if forall i :: 0 <= i < |value| ==> !IsBoundary(value[i]) {
      DeadNameCopies(name, value, AfterPlain(between, st'));
    }
  }

  lemma MonkeyParts(front: Bytes, between: Bytes, value: Bytes)
    requires front == "mon" && between == "1&" && value == "abc"
    ensures IsPlain(front) && front != [] && !IsBoundary(front[|front| - 1])
    ensures IsPlain(between) && between != [] && IsBoundary(between[|between| - 1])
    ensures IsValue(value) && value != MASK && forall i :: 0 <= i < |value| ==> !IsBoundary(value[i])
  {
    assert value[0] == 'a' && MASK[0] == '*';
  }

  lemma MonkeyText(front: Bytes, between: Bytes, value: Bytes)
    requires front == "mon" && between == "1&" && value == "abc"
    ensures front + (KEY_NAME + (between + (KEY_NAME + value))) == "monkey=1&key=abc"
  {
  }

  /** A concrete text that is printed with its secret. */
  lemma MonkeyShowsKey(text: Bytes)
    requires text == "monkey=1&key=abc"
    ensures RedactForm(text, FRESH) == text
  {
    var front: Bytes, between: Bytes, value: Bytes := "mon", "1&", "abc";
    MonkeyParts(front, between, value);
    MonkeyText(front, between, value);
    HiddenFragment(front, KEY_NAME, between, value);
  }
}
