/** Exact positive amounts with at most two decimals. */
module Amounts {
  import opened Wrappers
  import opened ByteStrings

  /** The value `mantissa / 10^scale`, as in the `rust_decimal` crate. */
  datatype Decimal = Decimal(mantissa: int, scale: nat)

  datatype AmountError = InvalidMoney | InvalidPrecision | OutOfRange

  /** An amount as the constructors leave it: see `IsMoney`. */
  datatype Money = Money(amount: Decimal)

  const MANTISSA_LIMIT := 0x1_0000_0000_0000_0000_0000_0000
  const SCALE_LIMIT := 28
  const I64_MAX := 0x7FFF_FFFF_FFFF_FFFF

  predicate Representable(d: Decimal) {
    -MANTISSA_LIMIT < d.mantissa < MANTISSA_LIMIT && d.scale <= SCALE_LIMIT
  }

  /** Numeric equality, independent of the representation. */
  predicate SameValue(a: Decimal, b: Decimal) {
    a.mantissa * Pow10(b.scale) == b.mantissa * Pow10(a.scale)
  }

  function Abs(n: int): nat { if n < 0 then -n else n }

  /** `round_dp_with_strategy(2, MidpointAwayFromZero)`. */
  function RoundCents(d: Decimal): Decimal {
    if d.scale <= 2 then d
    else
      var unit := Pow10(d.scale - 2);
      var cents := Abs(d.mantissa) / unit + if 2 * (Abs(d.mantissa) % unit) >= unit then 1 else 0;
      Decimal(if d.mantissa < 0 then -cents else cents, 2)
  }

  function New(amount: Decimal): Result<Money, AmountError> {
    if amount.mantissa <= 0 then Err(InvalidMoney)
    else
      var rounded := RoundCents(amount);
      if !SameValue(rounded, amount) then Err(InvalidPrecision) else Ok(Money(rounded))
  }

  function NewRounded(amount: Decimal): Result<Money, AmountError> {
    var rounded := RoundCents(amount);
    if rounded.mantissa <= 0 then Err(InvalidMoney) else Ok(Money(rounded))
  }

  /** What every constructor establishes. */
  predicate IsMoney(m: Money) {
    0 < m.amount.mantissa < MANTISSA_LIMIT && m.amount.scale <= 2
  }

  /** The amount in fen, 1/100 yuan. */
  function Fen(m: Money): int
    requires m.amount.scale <= 2
  {
    m.amount.mantissa * Pow10(2 - m.amount.scale)
  }

  // ---- Arithmetic ----

  lemma MulOrder(a: int, b: int, d: int)
    requires d > 0
    ensures a < b <==> a * d < b * d
    ensures a == b <==> a * d == b * d
  {
    var e := b - a;
    assert b * d == a * d + e * d;
    if e > 0 { assert e * d > 0; } else if e < 0 { assert e * d < 0; }
  }

  lemma DivisionUnique(x: int, d: int, q: int)
    requires d > 0 && q * d <= x < q * d + d
    ensures x / d == q
  {
    var q' := x / d;
    assert x == q' * d + x % d;
    assert (q + 1) * d == q * d + d && (q' + 1) * d == q' * d + d;
    MulOrder(q, q' + 1, d);
    MulOrder(q', q + 1, d);
  }

  lemma Pow10Small()
    ensures Pow10(0) == 1 && Pow10(1) == 10 && Pow10(2) == 100
  {
    assert Pow10(1) == 10 * Pow10(0);
    assert Pow10(2) == 10 * Pow10(1);
  }

  lemma Pow10Split(n: nat)
    requires n >= 2
    ensures Pow10(n) == 100 * Pow10(n - 2)
  {
    assert Pow10(n) == 10 * Pow10(n - 1) && Pow10(n - 1) == 10 * Pow10(n - 2);
  }

  /** The closest number of fen, halves up: `floor(100 a + 1/2)` for the amount `a`. */
  function NearestFen(d: Decimal): int {
    (200 * d.mantissa + Pow10(d.scale)) / (2 * Pow10(d.scale))
  }

  lemma RoundsToNearest(d: Decimal)
    requires d.mantissa > 0
    ensures RoundCents(d).scale <= 2
    ensures Fen(Money(RoundCents(d))) == NearestFen(d)
  {
    Pow10Small();
    var m, t := d.mantissa, Pow10(d.scale);
    if d.scale <= 2 {
      var f := Fen(Money(d));
      assert f * t == 100 * m;
      DivisionUnique(200 * m + t, 2 * t, f) by {
        assert f * (2 * t) == 200 * m;
      }
    } else {
      Pow10Split(d.scale);
      var p := Pow10(d.scale - 2);
      var q, r := m / p, m % p;
      assert m == q * p + r;
      var c := RoundCents(d).mantissa;
      assert c * (2 * t) == 200 * (c * p);
      assert c * p == if 2 * r >= p then q * p + p else q * p;
      DivisionUnique(200 * m + t, 2 * t, c);
    }
  }

  /** Two quotients of equal ratio have equal floors. */
  lemma SameRatioSameFloor(x: int, d: int, y: int, e: int)
    requires d > 0 && e > 0 && x * e == y * d
    ensures x / d == y / e
  {
    var q := x / d;
    var r := x % d;
    assert x == q * d + r;
    assert y * d == q * d * e + r * e;
    assert r * e == d * (y - q * e);
    var s := y - q * e;
    MulOrder(r, d, e);
    MulOrder(s, e, d);
    MulOrder(-1, s, d);
    MulOrder(-1, r, e);
    DivisionUnique(y, e, q);
  }

  // ---- The constructors, by value ----

  /** An amount is accepted exactly when it is positive and a whole number of fen. */
  lemma NewIff(d: Decimal)
    ensures New(d).Ok? <==> d.mantissa > 0 && 100 * d.mantissa % Pow10(d.scale) == 0
    ensures New(d).Err? ==> New(d) == Err(if d.mantissa <= 0 then InvalidMoney else InvalidPrecision)
    ensures New(d).Ok? ==>
              && SameValue(New(d).value.amount, d)
              && New(d).value.amount.scale <= 2
              && Fen(New(d).value) * Pow10(d.scale) == 100 * d.mantissa
              && NewRounded(d) == New(d)
  {
    Pow10Small();
    if d.mantissa > 0 {
      var m, t := d.mantissa, Pow10(d.scale);
      if d.scale <= 2 {
        var f := Fen(Money(d));
        assert f * t == 100 * m;
        ExactRemainder(100 * m, t, f);
      } else {
        Pow10Split(d.scale);
        var p := Pow10(d.scale - 2);
        var c := RoundCents(d).mantissa;
        RoundedExactly(m, p, c);
        ScaledRemainder(m, p);
        assert c * t == 100 * (c * p);
      }
    }
  }

  lemma RoundedExactly(m: int, p: int, c: int)
    requires m > 0 && p > 0 && c == m / p + if 2 * (m % p) >= p then 1 else 0
    ensures c * p == m <==> m % p == 0
  {
    var q, r := m / p, m % p;
    assert m == q * p + r;
    assert (q + 1) * p == q * p + p;
  }

  lemma ScaledRemainder(m: int, p: int)
    requires p > 0
    ensures 100 * m % (100 * p) == 0 <==> m % p == 0
  {
    var t := 100 * p;
    if m % p == 0 {
      var q := m / p;
      assert m == q * p;
      assert 100 * m == q * t;
      ExactRemainder(100 * m, t, q);
    }
    if 100 * m % t == 0 {
      var k := 100 * m / t;
      assert 100 * m == k * t == 100 * (k * p);
      ExactRemainder(m, p, k);
    }
  }

  lemma ExactRemainder(x: int, d: int, q: int)
    requires d > 0 && x == q * d
    ensures x % d == 0
  {
    DivisionUnique(x, d, q);
    assert x == (x / d) * d + x % d;
  }

  lemma FenSign(m: Money)
    requires m.amount.scale <= 2
    ensures m.amount.mantissa > 0 <==> Fen(m) >= 1
  {
    MulOrder(0, m.amount.mantissa, Pow10(2 - m.amount.scale));
  }

  lemma RoundNonPositive(d: Decimal)
    requires d.mantissa <= 0
    ensures RoundCents(d).mantissa <= 0
  {
    if d.scale > 2 {
      var unit := Pow10(d.scale - 2);
      QuotientNonNegative(Abs(d.mantissa), unit);
      if d.mantissa == 0 { DivisionUnique(0, unit, 0); }
    }
  }

  lemma QuotientNonNegative(x: nat, d: nat)
    requires d > 0
    ensures x / d >= 0
  {
    assert x == (x / d) * d + x % d;
    MulOrder(-1, x / d, d);
  }

  /** Rounding gives the nearest fen, and is refused exactly when that is less than one. */
  lemma NewRoundedIsNearest(d: Decimal)
    ensures NewRounded(d).Ok? <==> d.mantissa > 0 && NearestFen(d) >= 1
    ensures NewRounded(d).Err? ==> NewRounded(d) == Err(InvalidMoney)
    ensures NewRounded(d).Ok? ==>
              NewRounded(d).value.amount.scale <= 2 && Fen(NewRounded(d).value) == NearestFen(d)
  {
    if d.mantissa > 0 {
      RoundsToNearest(d);
      FenSign(Money(RoundCents(d)));
    } else {
      RoundNonPositive(d);
    }
  }

  /** `new` sees the value only: trailing zeros change nothing. */
  lemma NewSeesValue(a: Decimal, b: Decimal)
    requires SameValue(a, b)
    ensures New(a).Ok? <==> New(b).Ok?
    ensures New(a).Err? ==> New(a).error == New(b).error
    ensures New(a).Ok? ==>
              && New(a).value.amount.scale <= 2 && New(b).value.amount.scale <= 2
              && Fen(New(a).value) == Fen(New(b).value)
  {
    SameSign(a.mantissa, Pow10(b.scale), b.mantissa, Pow10(a.scale));
    if a.mantissa > 0 {
      NewIff(a);
      NewIff(b);
      if New(a).Ok? { WholeCarries(a, b); }
      if New(b).Ok? { WholeCarries(b, a); }
      if New(a).Ok? { NewRoundedSeesValue(a, b); }
    }
  }

  /** `new_rounded` sees the value only. */
  lemma NewRoundedSeesValue(a: Decimal, b: Decimal)
    requires SameValue(a, b)
    ensures NewRounded(a).Ok? <==> NewRounded(b).Ok?
    ensures NewRounded(a).Ok? ==>
              && NewRounded(a).value.amount.scale <= 2 && NewRounded(b).value.amount.scale <= 2
              && Fen(NewRounded(a).value) == Fen(NewRounded(b).value)
  {
    SameSign(a.mantissa, Pow10(b.scale), b.mantissa, Pow10(a.scale));
    NearestSeesValue(a, b);
    NewRoundedIsNearest(a);
    NewRoundedIsNearest(b);
  }

  lemma NearestSeesValue(a: Decimal, b: Decimal)
    requires SameValue(a, b)
    ensures NearestFen(a) == NearestFen(b)
  {
    SameRatio(a.mantissa, b.mantissa, Pow10(a.scale), Pow10(b.scale));
    SameRatioSameFloor(200 * a.mantissa + Pow10(a.scale), 2 * Pow10(a.scale),
                       200 * b.mantissa + Pow10(b.scale), 2 * Pow10(b.scale));
  }

  lemma SameRatio(m: int, n: int, s: int, t: int)
    requires m * t == n * s
    ensures (200 * m + s) * (2 * t) == (200 * n + t) * (2 * s)
  {
    CrossProduct(m, s, t);
    CrossProduct(n, t, s);
    assert s * t == t * s;
  }

  lemma CrossProduct(m: int, s: int, t: int)
    ensures (200 * m + s) * (2 * t) == 400 * (m * t) + 2 * (s * t)
  {
  }

  lemma SameSign(x: int, d: int, y: int, e: int)
    requires d > 0 && e > 0 && x * d == y * e
    ensures x > 0 <==> y > 0
  {
    MulOrder(0, x, d);
    MulOrder(0, y, e);
  }

  lemma WholeCarries(a: Decimal, b: Decimal)
    requires SameValue(a, b)
    requires 100 * a.mantissa % Pow10(a.scale) == 0
    ensures 100 * b.mantissa % Pow10(b.scale) == 0
  {
    var s, t := Pow10(a.scale), Pow10(b.scale);
    var f := 100 * a.mantissa / s;
    assert 100 * a.mantissa == f * s;
    assert s * (100 * b.mantissa) == 100 * (b.mantissa * s) == 100 * (a.mantissa * t)
        == (100 * a.mantissa) * t == f * s * t == s * (f * t);
    CancelFactor(s, 100 * b.mantissa, f * t);
    ExactRemainder(100 * b.mantissa, t, f);
  }

  lemma CancelFactor(s: int, x: int, y: int)
    requires s > 0 && s * x == s * y
    ensures x == y
  {
    MulOrder(x, y, s);
  }

  lemma RoundingShrinks(d: Decimal)
    requires Representable(d) && d.mantissa > 0
    ensures RoundCents(d).mantissa < MANTISSA_LIMIT && RoundCents(d).scale <= 2
  {
    if d.scale > 2 {
      assert Pow10(d.scale - 2) == 10 * Pow10(d.scale - 3);
      TenthOrLess(d.mantissa, Pow10(d.scale - 2));
    }
  }

  lemma TenthOrLess(m: nat, unit: nat)
    requires unit >= 10
    ensures 0 <= m / unit <= m / 10
  {
    var q := m / unit;
    assert m == q * unit + m % unit;
    QuotientNonNegative(m, unit);
    assert q * (unit - 10) >= 0;
    assert q * unit == q * 10 + q * (unit - 10);
  }

  /** Every accepted amount is positive, below the mantissa limit and has at most two decimals. */
  lemma ConstructorsGiveMoney(d: Decimal)
    requires Representable(d)
    ensures New(d).Ok? ==> IsMoney(New(d).value)
    ensures NewRounded(d).Ok? ==> IsMoney(NewRounded(d).value)
  {
    if d.mantissa > 0 {
      RoundingShrinks(d);
      NewIff(d);
    } else {
      RoundNonPositive(d);
    }
  }

  // ---- Fen ----

  /** `Decimal::from(fen) / Decimal::from(100)`, which is exact. */
  function FromFen(fen: int): Result<Money, AmountError> {
    if fen <= 0 then Err(InvalidMoney) else New(Decimal(fen, 2))
  }

  /** `checked_mul`: a product too wide for the mantissa gives up decimals while it has any. */
  function Narrow(mantissa: nat, scale: nat): Option<Decimal> {
    if mantissa < MANTISSA_LIMIT then Some(Decimal(mantissa, scale))
    else if scale == 0 then None
    else Narrow(mantissa / 10, scale - 1)
  }

  function TryToFen(m: Money): Result<int, AmountError>
    requires IsMoney(m)
  {
    match Narrow(100 * m.amount.mantissa, m.amount.scale)
    case None => Err(OutOfRange)
    case Some(product) =>
      var fen := product.mantissa / Pow10(product.scale);
      if fen <= I64_MAX then Ok(fen) else Err(OutOfRange)
  }

  /** The conversion is exact, and fails only when the fen do not fit. */
  lemma TryToFenIff(m: Money)
    requires IsMoney(m)
    ensures TryToFen(m) == if Fen(m) <= 0x7FFF_FFFF_FFFF_FFFF then Ok(Fen(m)) else Err(OutOfRange)
  {
    Pow10Small();
    var n, s := m.amount.mantissa, m.amount.scale;
    if s == 1 {
      assert Narrow(100 * n, 1) ==
        if 100 * n < MANTISSA_LIMIT then Some(Decimal(100 * n, 1)) else Narrow(10 * n, 0);
    } else if s == 2 {
      assert Narrow(100 * n, 2) ==
        if 100 * n < MANTISSA_LIMIT then Some(Decimal(100 * n, 2)) else Narrow(10 * n, 1);
      assert Narrow(10 * n, 1) ==
        if 10 * n < MANTISSA_LIMIT then Some(Decimal(10 * n, 1)) else Narrow(n, 0);
    }
  }

  lemma FenRoundTrip(fen: int)
    requires 1 <= fen <= 0x7FFF_FFFF_FFFF_FFFF
    ensures FromFen(fen).Ok? && IsMoney(FromFen(fen).value)
    ensures Fen(FromFen(fen).value) == fen
    ensures TryToFen(FromFen(fen).value) == Ok(fen)
  {
    Pow10Small();
    TryToFenIff(Money(Decimal(fen, 2)));
  }

  // ---- Printing and parsing ----

  function TwoDigits(n: nat): Bytes
    requires n < 100
  {
    [Digit(n / 10), Digit(n % 10)]
  }

  /** The digits after the point, padded to two. */
  function FractionDigits(fraction: nat, scale: nat): Bytes
    requires scale <= 2 && fraction < Pow10(scale)
  {
    Pow10Small();
    if scale == 0 then "00"
    else if scale == 1 then [Digit(fraction), '0']
    else TwoDigits(fraction)
  }

  /** `format!("{:.2}")`. */
  function ToEpayString(m: Money): Bytes
    requires IsMoney(m)
  {
    var unit := Pow10(m.amount.scale);
    Numeral(m.amount.mantissa / unit) + "."
    + FractionDigits(m.amount.mantissa % unit, m.amount.scale)
  }

  /** What is printed depends on the value only, and always ends in a point and two digits. */
  lemma PrintsFen(m: Money)
    requires IsMoney(m)
    ensures ToEpayString(m) == Numeral(Fen(m) / 100) + "." + TwoDigits(Fen(m) % 100)
  {
    Pow10Small();
    var n := m.amount.mantissa;
    FenDigits(n);
    if m.amount.scale == 0 {
      assert n / Pow10(0) == n && n % Pow10(0) == 0 && Fen(m) == 100 * n;
    } else if m.amount.scale == 1 {
      assert n / Pow10(1) == n / 10 && n % Pow10(1) == n % 10 && Fen(m) == 10 * n;
    } else {
      assert n / Pow10(2) == n / 100 && n % Pow10(2) == n % 100 && Fen(m) == n;
    }
  }

  lemma FenDigits(n: nat)
    ensures 100 * n / 100 == n && 100 * n % 100 == 0
    ensures 10 * n / 100 == n / 10 && 10 * n % 100 == 10 * (n % 10)
  {
  }

  /**
    The digit scanner of `Decimal::from_str`: one optional point, `_` after a digit, at least one
    digit.  Yields mantissa and scale.
   */
  function ScanDecimal(s: Bytes, mantissa: nat, scale: nat, point: bool, digits: bool): Option<Decimal> {
    if s == [] then
      if digits then Some(Decimal(mantissa, scale)) else None
    else if IsDigit(s[0]) then
      ScanDecimal(s[1..], 10 * mantissa + DigitValue(s[0]), if point then scale + 1 else scale, point, true)
    else if s[0] == '.' && !point then ScanDecimal(s[1..], mantissa, scale, true, digits)
    else if s[0] == '_' && digits then ScanDecimal(s[1..], mantissa, scale, point, digits)
    else None
  }

  /**
    `Decimal::from_str`.  `wide` stands for the crate's rounding of numbers that are well formed but
    exceed 96 bits of mantissa or 28 decimals.
   */
  function ParseDecimal(s: Bytes, wide: Bytes -> Option<Decimal>): Option<Decimal> {
    var negative := s != [] && s[0] == '-';
    var unsigned := if s != [] && (s[0] == '-' || s[0] == '+') then s[1..] else s;
    match ScanDecimal(unsigned, 0, 0, false, false)
    case None => None
    case Some(d) =>
      if !Representable(d) then wide(s)
      else Some(if negative then Decimal(-d.mantissa, d.scale) else d)
  }

  function FromYuanStr(s: Bytes, wide: Bytes -> Option<Decimal>): Result<Money, AmountError> {
    match ParseDecimal(Trim(s), wide)
    case None => Err(InvalidMoney)
    case Some(d) => New(d)
  }

  function Accumulate(mantissa: nat, s: Bytes): nat
    requires AllDigits(s)
    decreases |s|
  {
    if s == [] then mantissa else Accumulate(10 * mantissa + DigitValue(s[0]), s[1..])
  }

  lemma {:induction false} AccumulateSnoc(mantissa: nat, s: Bytes, c: Byte)
    requires AllDigits(s) && IsDigit(c)
    ensures Accumulate(mantissa, s + [c]) == 10 * Accumulate(mantissa, s) + DigitValue(c)
    decreases |s|
  {
    if s == [] {
      assert s + [c] == [c];
      assert Accumulate(mantissa, [c]) == Accumulate(10 * mantissa + DigitValue(c), [c][1..]);
    } else {
      assert (s + [c])[1..] == s[1..] + [c];
      AccumulateSnoc(10 * mantissa + DigitValue(s[0]), s[1..], c);
    }
  }

  lemma {:induction false} AccumulateNumeral(n: nat)
    ensures Accumulate(0, Numeral(n)) == n
  {
    if n < 10 {
      assert Accumulate(0, [Digit(n)]) == Accumulate(n, [Digit(n)][1..]);
    } else {
      AccumulateNumeral(n / 10);
      AccumulateSnoc(0, Numeral(n / 10), Digit(n % 10));
    }
  }

  lemma {:induction false} ScanDigits(s: Bytes, rest: Bytes, mantissa: nat, digits: bool)
    requires AllDigits(s)
    ensures ScanDecimal(s + rest, mantissa, 0, false, digits)
         == ScanDecimal(rest, Accumulate(mantissa, s), 0, false, digits || s != [])
    decreases |s|
  {
    if s == [] {
      assert s + rest == rest;
    } else {
      assert (s + rest)[1..] == s[1..] + rest;
      ScanDigits(s[1..], rest, 10 * mantissa + DigitValue(s[0]), true);
    }
  }

  lemma ScanCents(mantissa: nat, cents: nat)
    requires cents < 100
    ensures ScanDecimal("." + TwoDigits(cents), mantissa, 0, false, true)
         == Some(Decimal(100 * mantissa + cents, 2))
  {
    var a, b := Digit(cents / 10), Digit(cents % 10);
    var m := 10 * mantissa + DigitValue(a);
    assert TwoDigits(cents)[1..] == [b] && [b][1..] == [];
    assert ("." + TwoDigits(cents))[1..] == TwoDigits(cents);
    assert ScanDecimal([b], m, 1, true, true) == ScanDecimal([], 10 * m + DigitValue(b), 2, true, true);
    assert ScanDecimal(TwoDigits(cents), mantissa, 0, true, true) == ScanDecimal([b], m, 1, true, true);
  }

  lemma ScanCanonical(yuan: nat, tail: Bytes, cents: nat)
    requires cents < 100 && tail == "." + TwoDigits(cents)
    ensures ScanDecimal(Numeral(yuan) + tail, 0, 0, false, false)
         == Some(Decimal(100 * yuan + cents, 2))
  {
    ScanDigits(Numeral(yuan), tail, 0, false);
    AccumulateNumeral(yuan);
    ScanCents(yuan, cents);
  }

  lemma UnsignedParse(s: Bytes, d: Decimal, wide: Bytes -> Option<Decimal>)
    requires s != [] && s[0] != '-' && s[0] != '+'
    requires ScanDecimal(s, 0, 0, false, false) == Some(d) && Representable(d)
    ensures ParseDecimal(s, wide) == Some(d)
  {
  }

  lemma NewCents(fen: nat)
    requires fen > 0
    ensures New(Decimal(fen, 2)) == Ok(Money(Decimal(fen, 2)))
  {
  }

  /**
    The printed form parses back to the same number of fen whenever these fit the mantissa; beyond
    that the crate's own rounding decides.
   */
  lemma PrintParseRoundTrip(m: Money, wide: Bytes -> Option<Decimal>)
    requires IsMoney(m) && Fen(m) < MANTISSA_LIMIT
    ensures FromYuanStr(ToEpayString(m), wide) == Ok(Money(Decimal(Fen(m), 2)))
    ensures IsMoney(Money(Decimal(Fen(m), 2))) && SameValue(Decimal(Fen(m), 2), m.amount)
  {
    FenSign(m);
    FenValue(m);
    PrintedTrimmed(m);
    PrintedParses(m, wide);
    NewCents(Fen(m));
  }

  lemma PrintedTrimmed(m: Money)
    requires IsMoney(m) && Fen(m) >= 0
    ensures Trim(ToEpayString(m)) == ToEpayString(m)
  {
    var s := ToEpayString(m);
    PrintsFen(m);
    assert s[0] == Numeral(Fen(m) / 100)[0] && s[|s| - 1] == TwoDigits(Fen(m) % 100)[1];
    TrimPrintable(s);
  }

  lemma PrintedParses(m: Money, wide: Bytes -> Option<Decimal>)
    requires IsMoney(m) && 0 <= Fen(m) < MANTISSA_LIMIT
    ensures ParseDecimal(ToEpayString(m), wide) == Some(Decimal(Fen(m), 2))
  {
    PrintsFen(m);
    var yuan, tail := Numeral(Fen(m) / 100), "." + TwoDigits(Fen(m) % 100);
    assert ToEpayString(m) == yuan + tail && IsDigit((yuan + tail)[0]);
    ScanCanonical(Fen(m) / 100, tail, Fen(m) % 100);
    UnsignedParse(yuan + tail, Decimal(Fen(m), 2), wide);
  }

  lemma FenValue(m: Money)
    requires IsMoney(m)
    ensures SameValue(Decimal(Fen(m), 2), m.amount)
  {
    Pow10Small();
  }
}
