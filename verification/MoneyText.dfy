/** What an amount written as text is worth: any text, with sign, point and digit separators. */
module AmountTexts {
  import opened Wrappers
  import opened ByteStrings
  import opened Amounts

  // ---- The shape of a number ----

  predicate IsGrouped(s: Bytes) { forall i :: 0 <= i < |s| ==> IsDigit(s[i]) || s[i] == '_' }

  /** Digits and `_`, a digit first. */
  predicate StartsGrouped(s: Bytes) { IsGrouped(s) && s != [] && IsDigit(s[0]) }

  function BehindPoint(s: Bytes): Bytes { SplitOnce(s, '.').1 }

  /** The text without its first point. */
  function WithoutPoint(s: Bytes): Bytes { SplitOnce(s, '.').0 + BehindPoint(s) }

  /** A decimal number without sign: digits with separators, and at most one point anywhere. */
  predicate IsDecimalText(s: Bytes) { StartsGrouped(WithoutPoint(s)) }

  /** The digits of a text, in order. */
  function DigitsOf(s: Bytes): (digits: Bytes)
    ensures AllDigits(digits)
  {
    if s == [] then [] else (if IsDigit(s[0]) then [s[0]] else []) + DigitsOf(s[1..])
  }

  /** The number that all digits make together, and how many of them stand behind the point. */
  function ValueOf(s: Bytes): Decimal {
    Decimal(NumeralValue(DigitsOf(WithoutPoint(s))), |DigitsOf(BehindPoint(s))|)
  }

  // ---- The scanner ----

  lemma DigitsHead(c: Byte, rest: Bytes)
    ensures DigitsOf([c] + rest) == if IsDigit(c) then [c] + DigitsOf(rest) else DigitsOf(rest)
    ensures IsGrouped([c] + rest) <==> (IsDigit(c) || c == '_') && IsGrouped(rest)
  {
    assert ([c] + rest)[1..] == rest;
  }

  lemma AccumulateHead(mantissa: nat, c: Byte, rest: Bytes)
    requires IsDigit(c) && AllDigits(rest)
    ensures Accumulate(mantissa, [c] + rest) == Accumulate(10 * mantissa + DigitValue(c), rest)
  {
    assert ([c] + rest)[1..] == rest;
  }

  /** What a scan of digits and separators yields. */
  function Scanned(digits: Bytes, mantissa: nat, scale: nat, accepted: bool): Option<Decimal>
    requires AllDigits(digits)
  {
    if accepted then Some(Decimal(Accumulate(mantissa, digits), scale)) else None
  }

  lemma ScannedHead(c: Byte, digits: Bytes, mantissa: nat, scale: nat, accepted: bool)
    requires IsDigit(c) && AllDigits(digits)
    ensures Scanned([c] + digits, mantissa, scale, accepted)
         == Scanned(digits, 10 * mantissa + DigitValue(c), scale, accepted)
  {
    AccumulateHead(mantissa, c, digits);
  }

  lemma ScanStep(s: Bytes, mantissa: nat, scale: nat, point: bool, digits: bool)
    requires s != [] && (s[0] != '.' || point)
    ensures ScanDecimal(s, mantissa, scale, point, digits)
         == if IsDigit(s[0]) then
              ScanDecimal(s[1..], 10 * mantissa + DigitValue(s[0]), if point then scale + 1 else scale, point, true)
            else if s[0] == '_' && digits then ScanDecimal(s[1..], mantissa, scale, point, true)
            else None
  {
  }

  /** Behind the point. */
  lemma {:induction false} ScanFraction(s: Bytes, mantissa: nat, scale: nat, digits: bool)
    ensures ScanDecimal(s, mantissa, scale, true, digits)
         == Scanned(DigitsOf(s), mantissa, scale + |DigitsOf(s)|, IsGrouped(s) && (digits || StartsGrouped(s)))
    decreases |s|
  {
    if s != [] {
      var c, rest := s[0], s[1..];
      assert [c] + rest == s;
      DigitsHead(c, rest);
      ScanStep(s, mantissa, scale, true, digits);
      if IsDigit(c) {
        ScannedHead(c, DigitsOf(rest), mantissa, scale + |DigitsOf(s)|, IsGrouped(s));
        ScanFraction(rest, 10 * mantissa + DigitValue(c), scale + 1, true);
      } else if c == '_' && digits {
        ScanFraction(rest, mantissa, scale, true);
      }
    }
  }

  lemma PointInFront(s: Bytes)
    requires s != [] && s[0] == '.'
    ensures WithoutPoint(s) == s[1..] && BehindPoint(s) == s[1..]
  {
    assert [] + s[1..] == s[1..];
  }

  lemma PointLater(s: Bytes)
    requires s != [] && s[0] != '.'
    ensures WithoutPoint(s) == [s[0]] + WithoutPoint(s[1..]) && BehindPoint(s) == BehindPoint(s[1..])
  {
  }

  lemma DigitInFront(s: Bytes, all: Bytes, rest: Bytes, decimals: nat, mantissa: nat, digits: bool)
    requires s != [] && IsDigit(s[0]) && all == [s[0]] + rest
    requires ScanDecimal(s[1..], 10 * mantissa + DigitValue(s[0]), 0, false, true)
          == Scanned(DigitsOf(rest), 10 * mantissa + DigitValue(s[0]), decimals, IsGrouped(rest))
    ensures ScanDecimal(s, mantissa, 0, false, digits) == Scanned(DigitsOf(all), mantissa, decimals, IsGrouped(all))
  {
    ScanStep(s, mantissa, 0, false, digits);
    DigitsHead(s[0], rest);
    ScannedHead(s[0], DigitsOf(rest), mantissa, decimals, IsGrouped(all));
  }

  lemma OtherInFront(s: Bytes, all: Bytes, rest: Bytes, decimals: nat, mantissa: nat, digits: bool)
    requires s != [] && !IsDigit(s[0]) && s[0] != '.' && all == [s[0]] + rest
    requires s[0] == '_' && digits ==>
               ScanDecimal(s[1..], mantissa, 0, false, true)
               == Scanned(DigitsOf(rest), mantissa, decimals, IsGrouped(rest))
    ensures ScanDecimal(s, mantissa, 0, false, digits)
         == Scanned(DigitsOf(all), mantissa, decimals, IsGrouped(all) && digits)
  {
    ScanStep(s, mantissa, 0, false, digits);
    DigitsHead(s[0], rest);
  }

  lemma {:induction false} ScanNumber(s: Bytes, mantissa: nat, digits: bool)
    ensures ScanDecimal(s, mantissa, 0, false, digits)
         == Scanned(DigitsOf(WithoutPoint(s)), mantissa, |DigitsOf(BehindPoint(s))|,
                    IsGrouped(WithoutPoint(s)) && (digits || StartsGrouped(WithoutPoint(s))))
    decreases |s|
  {
    if s != [] {
      var rest := s[1..];
      if s[0] == '.' {
        PointInFront(s);
        ScanFraction(rest, mantissa, 0, digits);
      } else {
        PointLater(s);
        var all, decimals := WithoutPoint(s), |DigitsOf(BehindPoint(s))|;
        if IsDigit(s[0]) {
          ScanNumber(rest, 10 * mantissa + DigitValue(s[0]), true);
          DigitInFront(s, all, WithoutPoint(rest), decimals, mantissa, digits);
        } else {
          if s[0] == '_' && digits { ScanNumber(rest, mantissa, true); }
          OtherInFront(s, all, WithoutPoint(rest), decimals, mantissa, digits);
        }
      }
    }
  }

  lemma {:induction false} AccumulateIsValue(s: Bytes)
    requires AllDigits(s)
    ensures Accumulate(0, s) == NumeralValue(s)
  {
    if s != [] {
      var front, last := s[..|s| - 1], s[|s| - 1];
      assert front + [last] == s;
      AccumulateIsValue(front);
      AccumulateSnoc(0, front, last);
    }
  }

  /** A text without sign is accepted exactly when it is a decimal number, and has that number's value. */
  lemma ScanIff(s: Bytes)
    ensures ScanDecimal(s, 0, 0, false, false) == if IsDecimalText(s) then Some(ValueOf(s)) else None
  {
    ScanNumber(s, 0, false);
    AccumulateIsValue(DigitsOf(WithoutPoint(s)));
  }

  // ---- Signs ----

  predicate Unsigned(s: Bytes) { s == [] || (s[0] != '-' && s[0] != '+') }

  /** The sign counts, and nothing but a decimal number may follow it. */
  lemma ParseDecimalIff(s: Bytes, wide: Bytes -> Option<Decimal>)
    ensures Unsigned(s) && IsDecimalText(s) && Representable(ValueOf(s)) ==> ParseDecimal(s, wide) == Some(ValueOf(s))
    ensures Unsigned(s) && !IsDecimalText(s) ==> ParseDecimal(s, wide) == None
  {
    ScanIff(s);
  }

  lemma ParseSigned(s: Bytes, wide: Bytes -> Option<Decimal>)
    ensures IsDecimalText(s) && Representable(ValueOf(s)) ==>
              && ParseDecimal("+" + s, wide) == Some(ValueOf(s))
              && ParseDecimal("-" + s, wide) == Some(Decimal(-ValueOf(s).mantissa, ValueOf(s).scale))
    ensures !IsDecimalText(s) ==> ParseDecimal("+" + s, wide) == None && ParseDecimal("-" + s, wide) == None
  {
    assert ("+" + s)[1..] == s && ("-" + s)[1..] == s;
    ScanIff(s);
  }

  // ---- Amounts ----

  /**
    Parsing an amount: the trimmed text, if it is a decimal number, is worth what its digits say and
    goes through `new`; behind a minus sign it is never an amount, and anything else is no number.
   */
  lemma FromYuanIff(s: Bytes, text: Bytes, wide: Bytes -> Option<Decimal>)
    requires Representable(ValueOf(text))
    ensures Trim(s) == text && Unsigned(text) && IsDecimalText(text) ==> FromYuanStr(s, wide) == New(ValueOf(text))
    ensures Trim(s) == "+" + text && IsDecimalText(text) ==> FromYuanStr(s, wide) == New(ValueOf(text))
    ensures Trim(s) == "-" + text ==> FromYuanStr(s, wide) == Err(InvalidMoney)
    ensures Trim(s) == text && Unsigned(text) && !IsDecimalText(text) ==> FromYuanStr(s, wide) == Err(InvalidMoney)
  {
    ParseDecimalIff(text, wide);
    ParseSigned(text, wide);
  }

  // ---- Plain digits ----

  lemma {:induction false} DigitsOfDigits(s: Bytes)
    requires AllDigits(s)
    ensures DigitsOf(s) == s
  {
    if s != [] {
      DigitsOfDigits(s[1..]);
      assert [s[0]] + s[1..] == s;
    }
  }

  /** The value of plain digits, with and without a point. */
  lemma PlainValue(whole: Bytes, fraction: Bytes)
    requires AllDigits(whole) && AllDigits(fraction)
    ensures whole != [] ==> IsDecimalText(whole) && ValueOf(whole) == Decimal(NumeralValue(whole), 0)
    ensures whole + fraction != [] ==>
              && IsDecimalText(whole + ['.'] + fraction)
              && ValueOf(whole + ['.'] + fraction) == Decimal(NumeralValue(whole + fraction), |fraction|)
  {
    SplitOnceAbsent(whole, '.');
    assert whole + [] == whole;
    DigitsOfDigits(whole);
    SplitOnceAt(whole, fraction, '.');
    DigitsOfDigits(whole + fraction);
    DigitsOfDigits(fraction);
  }

  lemma NumeralLast(front: Bytes, last: Byte)
    requires AllDigits(front) && IsDigit(last)
    ensures NumeralValue(front + [last]) == 10 * NumeralValue(front) + DigitValue(last)
  {
    var s := front + [last];
    assert s[..|s| - 1] == front;
  }

  lemma {:induction false} NumeralValueSum(a: Bytes, b: Bytes)
    requires AllDigits(a) && AllDigits(b)
    ensures NumeralValue(a + b) == NumeralValue(a) * Pow10(|b|) + NumeralValue(b)
    decreases |b|
  {
    if b == [] {
      assert a + b == a;
    } else {
      var front, last := b[..|b| - 1], b[|b| - 1];
      NumeralValueSum(a, front);
      assert b == front + [last];
      assert a + b == (a + front) + [last];
      NumeralLast(front, last);
      NumeralLast(a + front, last);
      TimesTen(NumeralValue(a), |front|);
    }
  }

  lemma TimesTen(x: nat, n: nat)
    ensures 10 * (x * Pow10(n)) == x * Pow10(n + 1)
  {
    Commutes(x, Pow10(n));
  }

  lemma Commutes(x: nat, p: nat)
    ensures 10 * (x * p) == x * (10 * p)
  {
  }

  lemma OneDigit(d: nat)
    requires d < 10
    ensures NumeralValue([Digit(d)]) == d
  {
    assert [Digit(d)][..0] == [];
  }

  lemma TwoDigitValue(a: nat, b: nat)
    requires a < 10 && b < 10
    ensures NumeralValue([Digit(a), Digit(b)]) == 10 * a + b
  {
    assert [Digit(a), Digit(b)] == [Digit(a)] + [Digit(b)];
    NumeralValueSum([Digit(a)], [Digit(b)]);
    OneDigit(a);
    OneDigit(b);
    Pow10Small();
  }

  lemma Accepted(s: Bytes, value: Decimal, wide: Bytes -> Option<Decimal>)
    requires s != [] && IsDigit(s[0]) && IsDigit(s[|s| - 1])
    requires IsDecimalText(s) && ValueOf(s) == value && IsMoney(Money(value))
    ensures FromYuanStr(s, wide) == Ok(Money(value))
  {
    TrimPrintable(s);
    FromYuanIff(s, s, wide);
    NewKeeps(value);
  }

  lemma NewKeeps(value: Decimal)
    requires IsMoney(Money(value))
    ensures New(value) == Ok(Money(value))
  {
  }

  /** `12`, `12.3` and `12.34`: up to two decimals are read exactly. */
  lemma WrittenYuan(yuan: nat, wide: Bytes -> Option<Decimal>)
    requires 0 < yuan < MANTISSA_LIMIT
    ensures FromYuanStr(Numeral(yuan), wide) == Ok(Money(Decimal(yuan, 0)))
  {
    NumeralReads(yuan);
    PlainValue(Numeral(yuan), []);
    Accepted(Numeral(yuan), Decimal(yuan, 0), wide);
  }

  lemma WrittenFraction(yuan: nat, fraction: Bytes, value: nat, wide: Bytes -> Option<Decimal>)
    requires AllDigits(fraction) && 1 <= |fraction| <= 2
    requires value == yuan * Pow10(|fraction|) + NumeralValue(fraction) && 0 < value < MANTISSA_LIMIT
    ensures FromYuanStr(Numeral(yuan) + ['.'] + fraction, wide) == Ok(Money(Decimal(value, |fraction|)))
  {
    NumeralReads(yuan);
    PlainValue(Numeral(yuan), fraction);
    NumeralValueSum(Numeral(yuan), fraction);
    Accepted(Numeral(yuan) + ['.'] + fraction, Decimal(value, |fraction|), wide);
  }

  lemma WrittenTenths(yuan: nat, a: nat, wide: Bytes -> Option<Decimal>)
    requires a < 10 && 0 < 10 * yuan + a < MANTISSA_LIMIT
    ensures FromYuanStr(Numeral(yuan) + ['.'] + [Digit(a)], wide) == Ok(Money(Decimal(10 * yuan + a, 1)))
  {
    Pow10Small();
    OneDigit(a);
    WrittenFraction(yuan, [Digit(a)], 10 * yuan + a, wide);
  }

  lemma WrittenCents(yuan: nat, a: nat, b: nat, wide: Bytes -> Option<Decimal>)
    requires a < 10 && b < 10 && 0 < 100 * yuan + (10 * a + b) < MANTISSA_LIMIT
    ensures FromYuanStr(Numeral(yuan) + ['.'] + [Digit(a), Digit(b)], wide)
         == Ok(Money(Decimal(100 * yuan + (10 * a + b), 2)))
  {
    Pow10Small();
    TwoDigitValue(a, b);
    WrittenFraction(yuan, [Digit(a), Digit(b)], 100 * yuan + (10 * a + b), wide);
  }
}
