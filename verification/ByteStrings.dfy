/**
  Byte strings: a Rust `str` is the sequence of its UTF-8 bytes, and one byte is written as the
  character with that number.  ASCII literals such as "sign" therefore denote their own bytes.
 */
module ByteStrings {
  type Byte = c: char | c as int < 256 witness 'A'
  type Bytes = seq<Byte>

  predicate IsDigit(c: Byte) { '0' <= c <= '9' }

  predicate IsAlphanumeric(c: Byte) {
    IsDigit(c) || 'a' <= c <= 'z' || 'A' <= c <= 'Z'
  }

  predicate IsHexDigit(c: Byte) {
    IsDigit(c) || 'a' <= c <= 'f' || 'A' <= c <= 'F'
  }

  function ToLower(c: Byte): Byte {
    if 'A' <= c <= 'Z' then (c as int + 32) as char else c
  }

  function LowerAll(s: Bytes): Bytes {
    seq(|s|, i requires 0 <= i < |s| => ToLower(s[i]))
  }

  // ---- Whitespace (White_Space of the Unicode Character Database, in UTF-8) ----

  /** Byte length of the whitespace character at the front of `s`; 0 if there is none. */
  function SpaceLength(s: Bytes): (n: nat)
    ensures n <= |s|
  {
    if s == [] then 0
    else if IsAsciiSpace(s[0]) then 1
    else if |s| >= 2 && IsLatinSpace(s[0], s[1]) then 2
    else if |s| >= 3 && IsWideSpace(s[0], s[1], s[2]) then 3
    else 0
  }

  predicate IsAsciiSpace(c: Byte) { '\t' <= c <= '\r' || c == ' ' }

  predicate IsLatinSpace(a: Byte, b: Byte) {
    a == '\U{C2}' && (b == '\U{85}' || b == '\U{A0}')
  }

  predicate IsWideSpace(a: Byte, b: Byte, c: Byte) {
    || (a == '\U{E1}' && b == '\U{9A}' && c == '\U{80}')
    || (a == '\U{E2}' && b == '\U{80}' && ('\U{80}' <= c <= '\U{8A}' || c in {'\U{A8}', '\U{A9}', '\U{AF}'}))
    || (a == '\U{E2}' && b == '\U{81}' && c == '\U{9F}')
    || (a == '\U{E3}' && b == '\U{80}' && c == '\U{80}')
  }

  /** Byte length of the whitespace character at the end of `s`; 0 if there is none. */
  function SpaceLengthAtEnd(s: Bytes): (n: nat)
    ensures n <= |s|
  {
    var l := |s|;
    if l >= 1 && IsAsciiSpace(s[l - 1]) then 1
    else if l >= 2 && IsLatinSpace(s[l - 2], s[l - 1]) then 2
    else if l >= 3 && IsWideSpace(s[l - 3], s[l - 2], s[l - 1]) then 3
    else 0
  }

  /** Number of bytes of whitespace in front of the first other character. */
  function SpaceRun(s: Bytes): (n: nat)
    ensures n <= |s|
  {
    if SpaceLength(s) == 0 then 0 else SpaceLength(s) + SpaceRun(s[SpaceLength(s)..])
  }

  function TrimStart(s: Bytes): Bytes { s[SpaceRun(s)..] }

  lemma {:induction false} TrimStartStops(s: Bytes)
    ensures SpaceLength(TrimStart(s)) == 0
  {
    var n := SpaceLength(s);
    if n > 0 {
      TrimStartStops(s[n..]);
      assert TrimStart(s) == TrimStart(s[n..]);
    }
  }

  function TrimEnd(s: Bytes): Bytes
    decreases |s|
  {
    if SpaceLengthAtEnd(s) == 0 then s else TrimEnd(s[..|s| - SpaceLengthAtEnd(s)])
  }

  function Trim(s: Bytes): Bytes { TrimEnd(TrimStart(s)) }

  predicate IsBlank(s: Bytes) { Trim(s) == [] }

  predicate IsPrintable(c: Byte) { '!' <= c <= '~' }

  /** Text that starts and ends with printable ASCII is its own trimmed form. */
  lemma TrimPrintable(s: Bytes)
    requires s != [] ==> IsPrintable(s[0]) && IsPrintable(s[|s| - 1])
    ensures Trim(s) == s
  {
    assert SpaceRun(s) == 0 && TrimStart(s) == s;
    assert SpaceLengthAtEnd(s) == 0;
  }

  // ---- Concatenation ----

  lemma SumHead(w: Bytes, x: Bytes)
    requires w != []
    ensures (w + x)[0] == w[0] && (w + x)[1..] == w[1..] + x
    ensures [w[0]] + (w[1..] + x) == w + x
  {
  }

  lemma SumDrop(w: Bytes, x: Bytes)
    ensures (w + x)[|w|..] == x
  {
  }

  lemma SplitAt(s: Bytes, n: nat)
    requires n <= |s|
    ensures s[..n] + s[n..] == s
  {
  }

  lemma SumAssociates(a: Bytes, b: Bytes, c: Bytes)
    ensures (a + b) + c == a + (b + c)
  {
  }

  // ---- Splitting and joining ----

  /** The pieces between the separators, as Rust's `split`. */
  function Split(s: Bytes, sep: Byte): (parts: seq<Bytes>)
    ensures |parts| >= 1
    ensures forall p :: p in parts ==> sep !in p
  {
    if s == [] then [[]]
    else
      var rest := Split(s[1..], sep);
      if s[0] == sep then [[]] + rest else [[s[0]] + rest[0]] + rest[1..]
  }

  function Join(parts: seq<Bytes>, sep: Byte): Bytes {
    if |parts| == 0 then []
    else if |parts| == 1 then parts[0]
    else parts[0] + [sep] + Join(parts[1..], sep)
  }

  /** `split_once`, with `(s, "")` when the separator is absent. */
  function SplitOnce(s: Bytes, sep: Byte): (Bytes, Bytes) {
    if s == [] then ([], [])
    else if s[0] == sep then ([], s[1..])
    else
      var (before, after) := SplitOnce(s[1..], sep);
      ([s[0]] + before, after)
  }

  lemma {:induction false} SplitFirst(a: Bytes, rest: Bytes, sep: Byte)
    requires sep !in a
    ensures Split(a + [sep] + rest, sep) == [a] + Split(rest, sep)
  {
    if a == [] {
      assert a + [sep] + rest == [sep] + rest;
    } else {
      assert (a + [sep] + rest)[1..] == a[1..] + [sep] + rest;
      SplitFirst(a[1..], rest, sep);
      assert [a[0]] + a[1..] == a;
    }
  }

  lemma {:induction false} SplitSingle(a: Bytes, sep: Byte)
    requires sep !in a
    ensures Split(a, sep) == [a]
  {
    if a != [] {
      SplitSingle(a[1..], sep);
      assert [a[0]] + a[1..] == a;
    }
  }

  lemma {:induction false} SplitOnceAt(a: Bytes, b: Bytes, sep: Byte)
    requires sep !in a
    ensures SplitOnce(a + [sep] + b, sep) == (a, b)
  {
    if a == [] {
      assert a + [sep] + b == [sep] + b;
    } else {
      assert (a + [sep] + b)[1..] == a[1..] + [sep] + b;
      SplitOnceAt(a[1..], b, sep);
      assert [a[0]] + a[1..] == a;
    }
  }

  lemma {:induction false} SplitOnceAbsent(s: Bytes, sep: Byte)
    requires sep !in s
    ensures SplitOnce(s, sep) == (s, [])
  {
    if s != [] {
      SplitOnceAbsent(s[1..], sep);
      assert [s[0]] + s[1..] == s;
    }
  }

  /** Splitting undoes joining when no piece holds the separator. */
  lemma {:induction false} SplitJoin(parts: seq<Bytes>, sep: Byte)
    requires |parts| >= 1
    requires forall p :: p in parts ==> sep !in p
    ensures Split(Join(parts, sep), sep) == parts
  {
    if |parts| == 1 {
      SplitSingle(parts[0], sep);
    } else {
      SplitFirst(parts[0], Join(parts[1..], sep), sep);
      SplitJoin(parts[1..], sep);
    }
  }

  lemma {:induction false} JoinSnoc(parts: seq<Bytes>, last: Bytes, sep: Byte)
    ensures Join(parts + [last], sep)
         == if parts == [] then last else Join(parts, sep) + [sep] + last
  {
    if |parts| == 0 {
      assert parts + [last] == [last];
    } else if |parts| == 1 {
      assert (parts + [last])[1..] == [last];
    } else {
      assert (parts + [last])[1..] == parts[1..] + [last];
      JoinSnoc(parts[1..], last, sep);
      assert Join(parts + [last], sep)
          == parts[0] + [sep] + (Join(parts[1..], sep) + [sep] + last)
          == (parts[0] + [sep] + Join(parts[1..], sep)) + [sep] + last;
    }
  }

  // ---- Decimal numbers ----

  function Digit(d: nat): (c: Byte)
    requires d < 10
    ensures IsDigit(c) && DigitValue(c) == d
  {
    ('0' as int + d) as char
  }

  function DigitValue(c: Byte): (d: nat)
    requires IsDigit(c)
    ensures d < 10
  {
    c as int - '0' as int
  }

  predicate AllDigits(s: Bytes) { forall i :: 0 <= i < |s| ==> IsDigit(s[i]) }

  /** Decimal text of `n` without leading zeros. */
  function Numeral(n: nat): (s: Bytes)
    ensures s != [] && AllDigits(s)
  {
    if n < 10 then [Digit(n)] else Numeral(n / 10) + [Digit(n % 10)]
  }

  function NumeralValue(s: Bytes): nat
    requires AllDigits(s)
  {
    if s == [] then 0 else 10 * NumeralValue(s[..|s| - 1]) + DigitValue(s[|s| - 1])
  }

  lemma {:induction false} NumeralReads(n: nat)
    ensures NumeralValue(Numeral(n)) == n
  {
    if n >= 10 {
      NumeralReads(n / 10);
      var s := Numeral(n);
      assert s[..|s| - 1] == Numeral(n / 10);
    }
  }

  function Pow10(n: nat): (p: nat)
    ensures p >= 1
  {
    if n == 0 then 1 else 10 * Pow10(n - 1)
  }

  lemma {:induction false} NumeralLength(n: nat, width: nat)
    requires width >= 1 && n < Pow10(width)
    ensures |Numeral(n)| <= width
  {
    if n >= 10 { NumeralLength(n / 10, width - 1); }
  }

  lemma NumeralInjective(m: nat, n: nat)
    requires Numeral(m) == Numeral(n)
    ensures m == n
  {
    NumeralReads(m);
    NumeralReads(n);
  }
}
