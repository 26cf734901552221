/** UTF-8 well-formedness: sections 3 and 4 of RFC 3629. */
module Utf8 {
  import opened ByteStrings

  predicate IsTail(c: Byte) { '\U{80}' <= c <= '\U{BF}' }

  /** Length of the well-formed character at the front of `s`; 0 if there is none. */
  function CharLength(s: Bytes): (n: nat)
    ensures n <= |s|
  {
    if s == [] then 0
    else if s[0] <= '\U{7F}' then 1
    else if |s| >= 2 && '\U{C2}' <= s[0] <= '\U{DF}' && IsTail(s[1]) then 2
    else if |s| >= 3 && IsThreeByteLead(s[0], s[1]) && IsTail(s[2]) then 3
    else if |s| >= 4 && IsFourByteLead(s[0], s[1]) && IsTail(s[2]) && IsTail(s[3]) then 4
    else 0
  }

  predicate IsThreeByteLead(a: Byte, b: Byte) {
    || (a == '\U{E0}' && '\U{A0}' <= b <= '\U{BF}')
    || ('\U{E1}' <= a <= '\U{EC}' && IsTail(b))
    || (a == '\U{ED}' && '\U{80}' <= b <= '\U{9F}')
    || ('\U{EE}' <= a <= '\U{EF}' && IsTail(b))
  }

  predicate IsFourByteLead(a: Byte, b: Byte) {
    || (a == '\U{F0}' && '\U{90}' <= b <= '\U{BF}')
    || ('\U{F1}' <= a <= '\U{F3}' && IsTail(b))
    || (a == '\U{F4}' && '\U{80}' <= b <= '\U{8F}')
  }

  predicate ValidUtf8(s: Bytes) {
    s == [] || (CharLength(s) > 0 && ValidUtf8(s[CharLength(s)..]))
  }

  predicate IsAscii(s: Bytes) { forall i :: 0 <= i < |s| ==> s[i] <= '\U{7F}' }

  lemma {:induction false} AsciiIsValid(s: Bytes)
    requires IsAscii(s)
    ensures ValidUtf8(s)
  {
    if s != [] { AsciiIsValid(s[1..]); }
  }

  lemma {:induction false} ConcatValid(a: Bytes, b: Bytes)
    requires ValidUtf8(a) && ValidUtf8(b)
    ensures ValidUtf8(a + b)
  {
    if a == [] {
      assert a + b == b;
    } else {
      var n := CharLength(a);
      assert CharLength(a + b) == n;
      assert (a + b)[n..] == a[n..] + b;
      ConcatValid(a[n..], b);
    }
  }

  /** A well-formed string may be cut in front of every byte that is no continuation byte. */
  lemma {:induction false} CutAtBoundary(s: Bytes, i: nat)
    requires ValidUtf8(s) && i <= |s|
    requires i < |s| ==> !IsTail(s[i])
    ensures ValidUtf8(s[..i]) && ValidUtf8(s[i..])
  {
    if i != 0 {
      var n := CharLength(s);
      assert forall j :: 1 <= j < n ==> IsTail(s[j]);
      assert n <= i;
      CutAtBoundary(s[n..], i - n);
      assert s[n..][i - n..] == s[i..];
      assert s[..i][n..] == s[n..][..i - n];
      assert CharLength(s[..i]) == n;
    }
  }

  /** A well-formed string may be cut in front of any ASCII byte: Rust's slicing there is safe. */
  lemma CutAtAscii(s: Bytes, i: nat)
    requires ValidUtf8(s) && i <= |s|
    requires i < |s| ==> s[i] <= '\U{7F}'
    ensures ValidUtf8(s[..i]) && ValidUtf8(s[i..])
  {
    CutAtBoundary(s, i);
  }

  lemma {:induction false} TrimStartKeepsText(s: Bytes)
    requires ValidUtf8(s)
    ensures ValidUtf8(TrimStart(s))
  {
    var n := SpaceLength(s);
    if n > 0 {
      assert CharLength(s) == n;
      TrimStartKeepsText(s[n..]);
      assert TrimStart(s) == TrimStart(s[n..]);
    }
  }

  lemma {:induction false} TrimEndKeepsText(s: Bytes)
    requires ValidUtf8(s)
    ensures ValidUtf8(TrimEnd(s))
    decreases |s|
  {
    var n := SpaceLengthAtEnd(s);
    if n > 0 {
      CutAtBoundary(s, |s| - n);
      TrimEndKeepsText(s[..|s| - n]);
    }
  }

  /** Trimming cuts at character boundaries only. */
  lemma TrimKeepsText(s: Bytes)
    requires ValidUtf8(s)
    ensures ValidUtf8(Trim(s))
  {
    TrimStartKeepsText(s);
    TrimEndKeepsText(TrimStart(s));
  }

  // ---- Trimmed text has nothing left to trim ----

  lemma {:induction false} TrimEndStops(s: Bytes)
    ensures SpaceLengthAtEnd(TrimEnd(s)) == 0
    ensures TrimEnd(s) <= s
    decreases |s|
  {
    if SpaceLengthAtEnd(s) > 0 { TrimEndStops(s[..|s| - SpaceLengthAtEnd(s)]); }
  }

  lemma TrimIdempotent(s: Bytes)
    ensures Trim(Trim(s)) == Trim(s)
  {
    var t := TrimStart(s);
    TrimStartStops(s);
    TrimEndStops(t);
    assert SpaceLength(Trim(s)) == 0;
    assert TrimStart(Trim(s)) == Trim(s);
  }
}
