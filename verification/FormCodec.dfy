/**
  `application/x-www-form-urlencoded`: the serializer of section 5.2 of the WHATWG URL Standard and
  the strict component decoder the notification parser builds on section 5.1.
 */
module FormCodec {
  import opened Wrappers
  import opened ByteStrings
  import opened Utf8
  import opened SortedMaps

  datatype DecodeError = MalformedPercent | NotUtf8

  // ---- Serializer ----

  predicate IsUnreserved(c: Byte) {
    IsAlphanumeric(c) || c in {'*', '-', '.', '_'}
  }

  function UpperHex(d: nat): (c: Byte)
    requires d < 16
    ensures IsHexDigit(c) && IsAlphanumeric(c) && HexValue(c) == d
  {
    if d < 10 then Digit(d) else ('A' as int + d - 10) as char
  }

  function HexValue(c: Byte): (d: nat)
    requires IsHexDigit(c)
    ensures d < 16
  {
    if IsDigit(c) then c as int - '0' as int
    else if 'a' <= c then c as int - 'a' as int + 10
    else c as int - 'A' as int + 10
  }

  function EncodeByte(c: Byte): Bytes {
    if IsUnreserved(c) then [c]
    else if c == ' ' then "+"
    else ['%', UpperHex(c as int / 16), UpperHex(c as int % 16)]
  }

  function EncodeComponent(s: Bytes): Bytes {
    if s == [] then [] else EncodeByte(s[0]) + EncodeComponent(s[1..])
  }

  function EncodePair(p: Pair): Bytes {
    EncodeComponent(p.0) + "=" + EncodeComponent(p.1)
  }

  function EncodedPairs(ps: seq<Pair>): (parts: seq<Bytes>)
    ensures |parts| == |ps|
    ensures forall i :: 0 <= i < |ps| ==> parts[i] == EncodePair(ps[i])
  {
    seq(|ps|, i requires 0 <= i < |ps| => EncodePair(ps[i]))
  }

  /** The serialized form of a list of pairs. */
  function EncodePairs(ps: seq<Pair>): Bytes { Join(EncodedPairs(ps), '&') }

  // ---- Decoder ----

  /** Every `%` is followed by two hexadecimal digits. */
  predicate WellFormedPercent(s: Bytes) {
    if s == [] then true
    else if s[0] == '%' then
      |s| >= 3 && IsHexDigit(s[1]) && IsHexDigit(s[2]) && WellFormedPercent(s[3..])
    else WellFormedPercent(s[1..])
  }

  /** The index loop of the source decides `WellFormedPercent`. */
  method ValidatePercentEncoding(input: Bytes) returns (r: Result<(), DecodeError>)
    ensures r == if WellFormedPercent(input) then Ok(()) else Err(MalformedPercent)
  {
    var index := 0;
    while index < |input|
      invariant 0 <= index <= |input|
      invariant WellFormedPercent(input) <==> WellFormedPercent(input[index..])
    {
      if input[index] == '%' {
        if index + 2 >= |input| || !IsHexDigit(input[index + 1]) || !IsHexDigit(input[index + 2]) {
          return Err(MalformedPercent);
        }
        assert input[index..][3..] == input[index + 3..];
        index := index + 3;
      } else {
        assert input[index..][1..] == input[index + 1..];
        index := index + 1;
      }
    }
    r := Ok(());
  }

  function PlusToSpace(s: Bytes): Bytes {
    seq(|s|, i requires 0 <= i < |s| => if s[i] == '+' then ' ' else s[i])
  }

  /** Percent-decoding of section 1.3: a `%` without two hexadecimal digits stands for itself. */
  function PercentDecode(s: Bytes): Bytes {
    if s == [] then []
    else if s[0] == '%' && |s| >= 3 && IsHexDigit(s[1]) && IsHexDigit(s[2]) then
      [(16 * HexValue(s[1]) + HexValue(s[2])) as char] + PercentDecode(s[3..])
    else [s[0]] + PercentDecode(s[1..])
  }

  function DecodeComponent(s: Bytes): (r: Result<Bytes, DecodeError>)
    ensures r.Ok? ==> ValidUtf8(r.value)
  {
    if !WellFormedPercent(s) then Err(MalformedPercent)
    else
      var decoded := PercentDecode(PlusToSpace(s));
      if ValidUtf8(decoded) then Ok(decoded) else Err(NotUtf8)
  }

  // ---- Printer against parser ----

  /** Serialized text uses no separator and no byte outside this alphabet. */
  predicate IsEncodedByte(c: Byte) {
    IsUnreserved(c) || c in {'+', '%'}
  }

  lemma {:induction false} EncodeComponentAlphabet(s: Bytes)
    ensures forall i :: 0 <= i < |EncodeComponent(s)| ==> IsEncodedByte(EncodeComponent(s)[i])
    ensures '&' !in EncodeComponent(s) && '=' !in EncodeComponent(s)
    ensures |s| <= |EncodeComponent(s)| <= 3 * |s|
  {
    if s != [] { EncodeComponentAlphabet(s[1..]); }
  }

  lemma PlusToSpaceSum(a: Bytes, b: Bytes)
    ensures PlusToSpace(a + b) == PlusToSpace(a) + PlusToSpace(b)
  {
  }

  lemma DecodePlain(c: Byte, rest: Bytes)
    requires c != '%'
    ensures WellFormedPercent([c] + rest) <==> WellFormedPercent(rest)
    ensures PercentDecode([c] + rest) == [c] + PercentDecode(rest)
  {
    assert ([c] + rest)[1..] == rest;
  }

  lemma DecodeEscape(h: Byte, l: Byte, rest: Bytes)
    requires IsHexDigit(h) && IsHexDigit(l)
    ensures WellFormedPercent(['%', h, l] + rest) <==> WellFormedPercent(rest)
    ensures PercentDecode(['%', h, l] + rest) == [(16 * HexValue(h) + HexValue(l)) as char] + PercentDecode(rest)
  {
    assert (['%', h, l] + rest)[3..] == rest;
  }

  lemma DecodeByte(c: Byte, rest: Bytes)
    ensures WellFormedPercent(EncodeByte(c) + rest) <==> WellFormedPercent(rest)
    ensures PercentDecode(PlusToSpace(EncodeByte(c)) + rest) == [c] + PercentDecode(rest)
  {
    if IsUnreserved(c) || c == ' ' {
      DecodePlain(EncodeByte(c)[0], rest);
      assert PlusToSpace(EncodeByte(c)) == [c];
      DecodePlain(c, rest);
    } else {
      var h, l := UpperHex(c as int / 16), UpperHex(c as int % 16);
      assert PlusToSpace(['%', h, l]) == ['%', h, l];
      DecodeEscape(h, l, rest);
    }
  }

  lemma {:induction false} DecodeUndoesEncode(s: Bytes)
    ensures WellFormedPercent(EncodeComponent(s))
    ensures PercentDecode(PlusToSpace(EncodeComponent(s))) == s
  {
    if s != [] {
      var rest := EncodeComponent(s[1..]);
      DecodeUndoesEncode(s[1..]);
      DecodeByte(s[0], rest);
      DecodeByte(s[0], PlusToSpace(rest));
      PlusToSpaceSum(EncodeByte(s[0]), rest);
    }
  }

  /** Every Rust string survives the round trip through one component. */
  lemma ComponentRoundTrip(s: Bytes)
    requires ValidUtf8(s)
    ensures DecodeComponent(EncodeComponent(s)) == Ok(s)
  {
    DecodeUndoesEncode(s);
  }

  lemma EncodePairSplits(p: Pair)
    ensures SplitOnce(EncodePair(p), '=') == (EncodeComponent(p.0), EncodeComponent(p.1))
    ensures '&' !in EncodePair(p)
    ensures EncodePair(p) != []
  {
    EncodeComponentAlphabet(p.0);
    EncodeComponentAlphabet(p.1);
    SplitOnceAt(EncodeComponent(p.0), EncodeComponent(p.1), '=');
  }

  /** A non-empty serialized list splits back into its encoded pairs. */
  lemma EncodePairsSplits(ps: seq<Pair>)
    requires ps != []
    ensures Split(EncodePairs(ps), '&') == EncodedPairs(ps)
    ensures EncodePairs(ps) != []
  {
    var parts := EncodedPairs(ps);
    forall p | p in parts ensures '&' !in p && p != [] {
      var i :| 0 <= i < |parts| && parts[i] == p;
      EncodePairSplits(ps[i]);
    }
    SplitJoin(parts, '&');
    assert parts[0] in parts && |parts[0]| > 0;
  }

  /** Appending one pair to the serializer's buffer. */
  lemma EncodePairsSnoc(ps: seq<Pair>, p: Pair)
    ensures EncodePairs(ps + [p])
         == (if ps == [] then [] else EncodePairs(ps) + "&") + EncodePair(p)
  {
    assert EncodedPairs(ps + [p]) == EncodedPairs(ps) + [EncodePair(p)];
    JoinSnoc(EncodedPairs(ps), EncodePair(p), '&');
  }

  // ---- The texts themselves ----

  /** What becomes of a byte: kept, a plus sign for a space, or its number in upper-case hexadecimal. */
  lemma EncodedByteText(c: Byte)
    ensures ('a' <= c && c <= 'z') || ('A' <= c && c <= 'Z') || ('0' <= c && c <= '9') || c in {'*', '-', '.', '_'} ==>
              EncodeByte(c) == [c]
    ensures EncodeByte(' ') == "+" && EncodeByte('&') == "%26" && EncodeByte('=') == "%3D" && EncodeByte('+') == "%2B"
    ensures IsEncodedAway(c) ==>
              EncodeByte(c) == ['%', "0123456789ABCDEF"[c as int / 16], "0123456789ABCDEF"[c as int % 16]]
  {
    UpperHexText(c as int / 16);
    UpperHexText(c as int % 16);
  }

  predicate IsEncodedAway(c: Byte) {
    !(('a' <= c && c <= 'z') || ('A' <= c && c <= 'Z') || ('0' <= c && c <= '9') || c in {'*', '-', '.', '_', ' '})
  }

  lemma UpperHexText(d: nat)
    requires d < 16
    ensures UpperHex(d) == "0123456789ABCDEF"[d]
  {
  }

  /** The decoder reads digits of either case. */
  lemma HexDigitsRead(d: nat)
    requires d < 16
    ensures IsHexDigit("0123456789ABCDEF"[d]) && HexValue("0123456789ABCDEF"[d]) == d
    ensures IsHexDigit("0123456789abcdef"[d]) && HexValue("0123456789abcdef"[d]) == d
  {
  }
}
