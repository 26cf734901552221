/**
  Bytes against characters: well-formed text is a sequence of Unicode scalar values (RFC 3629, section
  3), and trimming it removes whitespace characters from both ends.
 */
module UnicodeText {
  import opened ByteStrings
  import opened Utf8

  // ---- Characters ----

  type Scalar = c: int | 0 <= c <= 0xD7FF || 0xE000 <= c <= 0x10FFFF witness 0

  /** The number without its last base-64 digit. */
  function Upper(c: nat): (q: nat)
    ensures 64 * q <= c < 64 * q + 64
  {
    c / 64
  }

  /** The last base-64 digit, as a continuation byte. */
  function Tail(c: nat): (b: Byte)
    ensures IsTail(b) && b as int == 0x80 + (c - 64 * Upper(c))
  {
    (0x80 + (c - 64 * Upper(c))) as char
  }

  function Lead(mark: nat, c: nat): (b: Byte)
    requires mark + c < 256
    ensures b as int == mark + c
  {
    (mark + c) as char
  }

  /** The bytes of a character. */
  function Utf8Of(c: Scalar): (s: Bytes)
    ensures 1 <= |s| <= 4
  {
    if c < 0x80 then [Lead(0, c)]
    else if c < 0x800 then [Lead(0xC0, Upper(c)), Tail(c)]
    else if c < 0x1_0000 then [Lead(0xE0, Upper(Upper(c))), Tail(Upper(c)), Tail(c)]
    else [Lead(0xF0, Upper(Upper(Upper(c)))), Tail(Upper(Upper(c))), Tail(Upper(c)), Tail(c)]
  }

  lemma CharOf(c: Scalar, rest: Bytes)
    ensures CharLength(Utf8Of(c) + rest) == |Utf8Of(c)|
  {
    var s := Utf8Of(c) + rest;
    if c < 0x80 {
    } else if c < 0x800 {
      assert s[0] == Utf8Of(c)[0] && s[1] == Utf8Of(c)[1];
    } else if c < 0x1_0000 {
      assert s[0] == Utf8Of(c)[0] && s[1] == Utf8Of(c)[1] && s[2] == Utf8Of(c)[2];
    } else {
      assert s[0] == Utf8Of(c)[0] && s[1] == Utf8Of(c)[1] && s[2] == Utf8Of(c)[2] && s[3] == Utf8Of(c)[3];
    }
  }

  /** The value of a continuation byte. */
  function Low(b: Byte): (n: nat)
    requires IsTail(b)
    ensures n < 64 && b as int == 0x80 + n
  {
    b as int - 0x80
  }

  lemma Digits(q: nat, b: Byte, c: nat)
    requires IsTail(b) && c == 64 * q + Low(b)
    ensures Upper(c) == q && Tail(c) == b
  {
  }

  /** The character in front of a text. */
  lemma FirstScalar(s: Bytes) returns (c: Scalar)
    requires CharLength(s) > 0
    ensures s[..CharLength(s)] == Utf8Of(c)
  {
    var n := CharLength(s);
    if n == 1 {
      c := s[0] as int;
    } else if n == 2 {
      var a := s[0] as int - 0xC0;
      c := 64 * a + Low(s[1]);
      Digits(a, s[1], c);
    } else if n == 3 {
      var a := s[0] as int - 0xE0;
      var b := 64 * a + Low(s[1]);
      c := 64 * b + Low(s[2]);
      Digits(a, s[1], b);
      Digits(b, s[2], c);
    } else {
      var a := s[0] as int - 0xF0;
      var b := 64 * a + Low(s[1]);
      var d := 64 * b + Low(s[2]);
      c := 64 * d + Low(s[3]);
      Digits(a, s[1], b);
      Digits(b, s[2], d);
      Digits(d, s[3], c);
    }
  }

  // ---- Text ----

  function Utf8Text(cs: seq<Scalar>): Bytes {
    if cs == [] then [] else Utf8Of(cs[0]) + Utf8Text(cs[1..])
  }

  lemma {:induction false} TextIsValid(cs: seq<Scalar>)
    ensures ValidUtf8(Utf8Text(cs))
  {
    if cs != [] {
      TextIsValid(cs[1..]);
      CharOf(cs[0], Utf8Text(cs[1..]));
      SumDrop(Utf8Of(cs[0]), Utf8Text(cs[1..]));
    }
  }

  lemma {:induction false} ValidIsText(s: Bytes) returns (cs: seq<Scalar>)
    requires ValidUtf8(s)
    ensures s == Utf8Text(cs)
  {
    if s == [] {
      cs := [];
    } else {
      var n := CharLength(s);
      var first := FirstScalar(s);
      var rest := ValidIsText(s[n..]);
      cs := [first] + rest;
      assert cs[1..] == rest;
      SplitAt(s, n);
    }
  }

  /** Well-formed bytes are exactly the encodings of sequences of scalar values. */
  lemma ValidUtf8Iff(s: Bytes)
    ensures ValidUtf8(s) <==> exists cs :: s == Utf8Text(cs)
  {
    if ValidUtf8(s) { var cs := ValidIsText(s); }
    if cs :| s == Utf8Text(cs) { TextIsValid(cs); }
  }

  // ---- Whitespace ----

  /** The property White_Space of the Unicode Character Database. */
  predicate IsWhiteSpace(c: int) {
    || 0x9 <= c <= 0xD || c == 0x20 || c == 0x85 || c == 0xA0 || c == 0x1680 || 0x2000 <= c <= 0x200A
    || c == 0x2028 || c == 0x2029 || c == 0x202F || c == 0x205F || c == 0x3000
  }

  lemma SpaceIff(c: Scalar, rest: Bytes)
    ensures SpaceLength(Utf8Of(c) + rest) == if IsWhiteSpace(c) then |Utf8Of(c)| else 0
  {
  }

  lemma SpaceAtEndIff(front: Bytes, c: Scalar)
    ensures SpaceLengthAtEnd(front + Utf8Of(c)) == if IsWhiteSpace(c) then |Utf8Of(c)| else 0
  {
  }

  function WithoutLeading(cs: seq<Scalar>): seq<Scalar> {
    if cs == [] || !IsWhiteSpace(cs[0]) then cs else WithoutLeading(cs[1..])
  }

  function WithoutTrailing(cs: seq<Scalar>): seq<Scalar> {
    if cs == [] || !IsWhiteSpace(cs[|cs| - 1]) then cs else WithoutTrailing(cs[..|cs| - 1])
  }

  lemma TrimStartStep(head: Bytes, rest: Bytes)
    ensures SpaceLength(head + rest) == |head| > 0 ==> TrimStart(head + rest) == TrimStart(rest)
    ensures SpaceLength(head + rest) == 0 ==> TrimStart(head + rest) == head + rest
  {
    var s := head + rest;
    if SpaceLength(s) == |head| > 0 {
      SumDrop(head, rest);
      assert SpaceRun(s) == |head| + SpaceRun(rest);
      assert s[|head| + SpaceRun(rest)..] == rest[SpaceRun(rest)..];
    }
  }

  lemma {:induction false} TrimStartText(cs: seq<Scalar>)
    ensures TrimStart(Utf8Text(cs)) == Utf8Text(WithoutLeading(cs))
  {
    if cs != [] {
      SpaceIff(cs[0], Utf8Text(cs[1..]));
      TrimStartStep(Utf8Of(cs[0]), Utf8Text(cs[1..]));
      if IsWhiteSpace(cs[0]) { TrimStartText(cs[1..]); }
    }
  }

  lemma {:induction false} TextSnoc(cs: seq<Scalar>, c: Scalar)
    ensures Utf8Text(cs + [c]) == Utf8Text(cs) + Utf8Of(c)
  {
    if cs == [] {
      assert cs + [c] == [c];
    } else {
      assert (cs + [c])[1..] == cs[1..] + [c];
      TextSnoc(cs[1..], c);
      SumAssociates(Utf8Of(cs[0]), Utf8Text(cs[1..]), Utf8Of(c));
    }
  }

  lemma {:induction false} TrimEndText(cs: seq<Scalar>)
    ensures TrimEnd(Utf8Text(cs)) == Utf8Text(WithoutTrailing(cs))
    decreases |cs|
  {
    if cs != [] {
      var front, last := cs[..|cs| - 1], cs[|cs| - 1];
      assert front + [last] == cs;
      TextSnoc(front, last);
      SpaceAtEndIff(Utf8Text(front), last);
      if IsWhiteSpace(last) {
        TrimEndText(front);
        assert (Utf8Text(front) + Utf8Of(last))[..|Utf8Text(front)|] == Utf8Text(front);
      }
    }
  }

  /** Trimming text removes whitespace characters from both ends, and nothing else. */
  lemma TrimText(cs: seq<Scalar>)
    ensures Trim(Utf8Text(cs)) == Utf8Text(WithoutTrailing(WithoutLeading(cs)))
  {
    TrimStartText(cs);
    TrimEndText(WithoutLeading(cs));
  }
}
