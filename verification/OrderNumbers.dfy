/** Merchant order numbers: prefix, clock and a four-digit in-process sequence. */
module OrderNumbers {
  import opened Wrappers
  import opened ByteStrings
  import opened Validation

  const U32_RANGE: nat := 0x1_0000_0000

  /** The static atomic counter; `fetch_add` wraps around. */
  class Sequence {
    var next: nat

    predicate Valid() reads this { next < U32_RANGE }

    constructor ()
      ensures Valid() && next == 0
    {
      next := 0;
    }

    method FetchAdd() returns (ticket: nat)
      requires Valid()
      modifies this
      ensures Valid() && ticket == old(next) && next == After(old(next), 1)
    {
      ticket := next;
      next := if next == 0xFFFF_FFFF then 0 else next + 1;
    }

    /** `generate_out_trade_no`; the clock reading is absent before the Unix epoch. */
    method Generate(prefix: Bytes, nanos: Option<nat>) returns (r: Result<Bytes, ParamError>)
      requires Valid()
      modifies this
      ensures Valid() && r == Outcome(old(next), Call(prefix, nanos))
      ensures next == After(old(next), if nanos.Some? then 1 else 0)
    {
      if nanos.None? { return Err(ClockBeforeEpoch); }
      var ticket := FetchAdd();
      var value := prefix + Numeral(nanos.value) + Padded(ticket % 10_000, 4);
      var valid := ValidateOutTradeNo(value);
      r := if valid.Err? then Err(valid.error) else Ok(value);
    }

    /** A caller's run: one call after the other, in the order in which they draw their tickets. */
    method GenerateAll(calls: seq<Call>) returns (results: seq<Result<Bytes, ParamError>>)
      requires Valid()
      modifies this
      ensures Valid() && |results| == |calls|
      ensures forall i :: 0 <= i < |calls| ==> results[i] == OutcomeAt(old(next), calls, i)
      ensures next == TicketAt(old(next), calls, |calls|)
    {
      results := [];
      ghost var start := next;
      TicketStart(start, calls);
      for i := 0 to |calls|
        invariant Valid() && |results| == i && next == TicketAt(start, calls, i)
        invariant AreOutcomes(start, calls, results)
      {
        TicketStep(start, calls, i);
        var r := Generate(calls[i].prefix, calls[i].nanos);
        OutcomesSnoc(start, calls, results, r);
        results := results + [r];
      }
    }
  }

  /** The results of the first calls of a run. */
  ghost predicate AreOutcomes(start: nat, calls: seq<Call>, results: seq<Result<Bytes, ParamError>>) {
    && start < U32_RANGE && |results| <= |calls|
    && forall i :: 0 <= i < |results| ==> results[i] == OutcomeAt(start, calls, i)
  }

  lemma OutcomesSnoc(start: nat, calls: seq<Call>, results: seq<Result<Bytes, ParamError>>,
                     r: Result<Bytes, ParamError>)
    requires AreOutcomes(start, calls, results) && |results| < |calls|
    requires r == OutcomeAt(start, calls, |results|)
    ensures AreOutcomes(start, calls, results + [r])
  {
    var all := results + [r];
    forall i | 0 <= i < |all| ensures all[i] == OutcomeAt(start, calls, i) {
      if i < |results| {
        assert all[i] == results[i];
      } else {
        assert i == |results| && all[i] == r;
      }
    }
  }

  /** The counter after `n` more tickets. */
  function After(ticket: nat, n: nat): (t: nat)
    ensures t < U32_RANGE
  {
    (ticket + n) % 0x1_0000_0000
  }

  function Zeros(n: nat): (s: Bytes)
    ensures |s| == n && AllDigits(s)
  {
    seq(n, _ => '0')
  }

  /** `{n:0width}`. */
  function Padded(n: nat, width: nat): (s: Bytes)
    ensures AllDigits(s)
  {
    var s := Numeral(n);
    if |s| < width then Zeros(width - |s|) + s else s
  }

  datatype Call = Call(prefix: Bytes, nanos: Option<nat>)

  function OrderNumber(prefix: Bytes, nanos: nat, ticket: nat): Bytes {
    prefix + Numeral(nanos) + Padded(ticket % 10_000, 4)
  }

  /** What a call returns that draws the given ticket. */
  function Outcome(ticket: nat, call: Call): Result<Bytes, ParamError> {
    match call.nanos
    case None => Err(ClockBeforeEpoch)
    case Some(nanos) =>
      match ValidateOutTradeNo(OrderNumber(call.prefix, nanos, ticket))
      case Err(e) => Err(e)
      case Ok(_) => Ok(OrderNumber(call.prefix, nanos, ticket))
  }

  /** Tickets drawn by calls `i..j`: failures of the clock draw none, refused numbers do. */
  function Drawn(calls: seq<Call>, i: nat, j: nat): (n: nat)
    requires i <= j <= |calls|
    ensures n <= j - i
  {
    if i == j then 0 else Drawn(calls, i, j - 1) + if calls[j - 1].nanos.Some? then 1 else 0
  }

  /** The counter when call `i` of a run is made. */
  function TicketAt(start: nat, calls: seq<Call>, i: nat): (ticket: nat)
    requires i <= |calls| && start < U32_RANGE
    ensures ticket < U32_RANGE
  {
    After(start, Drawn(calls, 0, i))
  }

  function OutcomeAt(start: nat, calls: seq<Call>, i: nat): Result<Bytes, ParamError>
    requires i < |calls| && start < U32_RANGE
  {
    Outcome(TicketAt(start, calls, i), calls[i])
  }

  // ---- The four digits ----

  lemma {:induction false} LeadingZeros(k: nat, s: Bytes)
    requires AllDigits(s)
    ensures NumeralValue(Zeros(k) + s) == NumeralValue(s)
    decreases |s| + k
  {
    var z := Zeros(k) + s;
    if s != [] {
      var front := s[..|s| - 1];
      LeadingZeros(k, front);
      assert z[..|z| - 1] == Zeros(k) + front;
    } else if k > 0 {
      LeadingZeros(k - 1, s);
      assert z[..|z| - 1] == Zeros(k - 1) + s;
    }
  }

  lemma PaddedReads(n: nat)
    requires n < 10_000
    ensures |Padded(n, 4)| == 4 && NumeralValue(Padded(n, 4)) == n
  {
    assert Pow10(4) == 10 * Pow10(3) == 100 * Pow10(2) == 1000 * Pow10(1) == 10_000;
    NumeralLength(n, 4);
    NumeralReads(n);
    LeadingZeros(4 - |Numeral(n)|, Numeral(n));
  }

  /** Whatever the prefixes and the clock, different last four digits of the tickets tell numbers apart. */
  lemma SuffixDecides(p: Bytes, m: nat, t: nat, q: Bytes, n: nat, u: nat)
    requires OrderNumber(p, m, t) == OrderNumber(q, n, u)
    ensures t % 10_000 == u % 10_000 && p + Numeral(m) == q + Numeral(n)
  {
    var a, b := OrderNumber(p, m, t), OrderNumber(q, n, u);
    PaddedReads(t % 10_000);
    PaddedReads(u % 10_000);
    assert a[|a| - 4..] == Padded(t % 10_000, 4) && b[|b| - 4..] == Padded(u % 10_000, 4);
    assert a[..|a| - 4] == p + Numeral(m) && b[..|b| - 4] == q + Numeral(n);
  }

  /** With one prefix, numbers are equal exactly when clock and last four ticket digits are. */
  lemma SameNumberIff(prefix: Bytes, m: nat, t: nat, n: nat, u: nat)
    ensures OrderNumber(prefix, m, t) == OrderNumber(prefix, n, u) <==> m == n && t % 10_000 == u % 10_000
  {
    if OrderNumber(prefix, m, t) == OrderNumber(prefix, n, u) {
      SuffixDecides(prefix, m, t, prefix, n, u);
      assert (prefix + Numeral(m))[|prefix|..] == Numeral(m);
      assert (prefix + Numeral(n))[|prefix|..] == Numeral(n);
      NumeralInjective(m, n);
    }
  }

  lemma SameRemainderIff(x: nat, d: int)
    requires x + d >= 0
    ensures x % 10_000 == (x + d) % 10_000 <==> d % 10_000 == 0
  {
    var q, r := x / 10_000, x % 10_000;
    var p, s := d / 10_000, d % 10_000;
    assert x + d == (q + p) * 10_000 + (r + s);
    if r + s < 10_000 {
      RemainderIs(x + d, q + p, r + s);
    } else {
      RemainderIs(x + d, q + p + 1, r + s - 10_000);
    }
  }

  lemma RemainderIs(x: int, q: int, r: int)
    requires x == q * 10_000 + r && 0 <= r < 10_000
    ensures x % 10_000 == r
  {
  }

  /** The counter has wrapped at most once after fewer than 2^32 tickets. */
  lemma AfterIs(ticket: nat, d: nat)
    requires ticket < U32_RANGE && d < U32_RANGE
    ensures After(ticket, d) == if ticket + d < U32_RANGE then ticket + d else ticket + d - U32_RANGE
  {
  }

  /**
    Two tickets at a distance of `d` end in the same four digits exactly when `d` is a multiple of
    10000, or is 7296 modulo 10000 and the counter wrapped in between.
   */
  lemma SameDigitsIff(ticket: nat, d: nat)
    requires ticket < U32_RANGE && d < U32_RANGE
    ensures ticket % 10_000 == After(ticket, d) % 10_000 <==>
            d % 10_000 == if ticket + d < U32_RANGE then 0 else 7296
  {
    AfterIs(ticket, d);
    if ticket + d < U32_RANGE {
      SameRemainderIff(ticket, d);
    } else {
      SameRemainderIff(ticket, d - U32_RANGE);
      WrapShift(d);
    }
  }

  lemma WrapShift(d: nat)
    ensures (d - U32_RANGE) % 10_000 == 0 <==> d % 10_000 == 7296
  {
    assert U32_RANGE == 429_496 * 10_000 + 7296;
  }

  // ---- Runs ----

  lemma {:induction false} DrawnSplits(calls: seq<Call>, i: nat, j: nat)
    requires i <= j <= |calls|
    ensures Drawn(calls, 0, j) == Drawn(calls, 0, i) + Drawn(calls, i, j)
  {
    if i < j { DrawnSplits(calls, i, j - 1); }
  }

  lemma AfterAfter(ticket: nat, m: nat, n: nat)
    ensures After(After(ticket, m), n) == After(ticket, m + n)
  {
    var x := ticket + m;
    assert x == (x / 0x1_0000_0000) * 0x1_0000_0000 + x % 0x1_0000_0000;
  }

  lemma TicketsApart(start: nat, calls: seq<Call>, i: nat, j: nat)
    requires i <= j <= |calls| && start < U32_RANGE
    ensures TicketAt(start, calls, j) == After(TicketAt(start, calls, i), Drawn(calls, i, j))
  {
    DrawnSplits(calls, i, j);
    AfterAfter(start, Drawn(calls, 0, i), Drawn(calls, i, j));
  }

  lemma TicketStart(start: nat, calls: seq<Call>)
    requires start < U32_RANGE
    ensures TicketAt(start, calls, 0) == start
  {
  }

  /** One call of `Sequence.Generate` takes the counter from `TicketAt` of one call to the next. */
  lemma TicketStep(start: nat, calls: seq<Call>, i: nat)
    requires i < |calls| && start < U32_RANGE
    ensures TicketAt(start, calls, i + 1)
         == After(TicketAt(start, calls, i), if calls[i].nanos.Some? then 1 else 0)
  {
    TicketsApart(start, calls, i, i + 1);
  }

  lemma {:induction false} DrawnPositive(calls: seq<Call>, i: nat, j: nat)
    requires i < j <= |calls| && calls[i].nanos.Some?
    ensures Drawn(calls, i, j) >= 1
  {
    if i + 1 < j { DrawnPositive(calls, i, j - 1); }
  }

  /** Fewer tickets between two calls than it takes for the four digits to come again. */
  predicate CloseTickets(ticket: nat, d: nat) {
    d < 7296 || (d < 10_000 && ticket + d < U32_RANGE)
  }

  /**
    In any run, from any counter state, two calls fewer than 7296 tickets apart never return the same
    number, whatever the prefixes and the clock; without a wrap between them fewer than 10000 will do.
   */
  lemma NeverRepeats(start: nat, calls: seq<Call>, i: nat, j: nat)
    requires start < U32_RANGE && i < j < |calls|
    ensures CloseTickets(TicketAt(start, calls, i), Drawn(calls, i, j)) && OutcomeAt(start, calls, i).Ok? ==>
              OutcomeAt(start, calls, i) != OutcomeAt(start, calls, j)
  {
    var t, d := TicketAt(start, calls, i), Drawn(calls, i, j);
    TicketsApart(start, calls, i, j);
    if CloseTickets(t, d) && OutcomeAt(start, calls, i).Ok? && OutcomeAt(start, calls, j).Ok? {
      DrawnPositive(calls, i, j);
      DigitsDiffer(t, d);
      OutcomesDiffer(t, calls[i], TicketAt(start, calls, j), calls[j]);
    }
  }

  lemma DigitsDiffer(ticket: nat, d: nat)
    requires ticket < U32_RANGE && 0 < d && CloseTickets(ticket, d)
    ensures ticket % 10_000 != After(ticket, d) % 10_000
  {
    SameDigitsIff(ticket, d);
  }

  lemma OutcomesDiffer(t: nat, a: Call, u: nat, b: Call)
    requires t % 10_000 != u % 10_000 && Outcome(t, a).Ok? && Outcome(u, b).Ok?
    ensures Outcome(t, a).value != Outcome(u, b).value
  {
    if OrderNumber(a.prefix, a.nanos.value, t) == OrderNumber(b.prefix, b.nanos.value, u) {
      SuffixDecides(a.prefix, a.nanos.value, t, b.prefix, b.nanos.value, u);
    }
  }

  /** With one prefix the number comes again exactly with the clock reading and the four digits. */
  lemma RepeatsIff(start: nat, calls: seq<Call>, i: nat, j: nat)
    requires start < U32_RANGE && i < j < |calls| && Drawn(calls, i, j) < U32_RANGE
    requires calls[i].prefix == calls[j].prefix
    ensures OutcomeAt(start, calls, i).Ok? && OutcomeAt(start, calls, j).Ok? ==>
              (OutcomeAt(start, calls, i) == OutcomeAt(start, calls, j) <==>
                 && calls[i].nanos == calls[j].nanos
                 && Drawn(calls, i, j) % 10_000 ==
                    if TicketAt(start, calls, i) + Drawn(calls, i, j) < U32_RANGE then 0 else 7296)
  {
    var t, u := TicketAt(start, calls, i), TicketAt(start, calls, j);
    TicketsApart(start, calls, i, j);
    SameDigitsIff(t, Drawn(calls, i, j));
    if OutcomeAt(start, calls, i).Ok? && OutcomeAt(start, calls, j).Ok? {
      SameNumberIff(calls[i].prefix, calls[i].nanos.value, t, calls[j].nanos.value, u);
    }
  }

  /** The same call `n` times. */
  function Calls(call: Call, n: nat): (calls: seq<Call>)
    ensures |calls| == n && forall i :: 0 <= i < n ==> calls[i] == call
  {
    seq(n, _ => call)
  }

  lemma {:induction false} AllDraw(call: Call, n: nat, i: nat, j: nat)
    requires call.nanos.Some? && i <= j <= n
    ensures Drawn(Calls(call, n), i, j) == j - i
  {
    if i < j { AllDraw(call, n, i, j - 1); }
  }

  lemma LegalAtEveryTicket(t: nat, u: nat, call: Call)
    requires Outcome(t, call).Ok?
    ensures Outcome(u, call).Ok?
  {
    OutcomeIff(t, call);
    OutcomeIff(u, call);
  }

  lemma DigitsComeAgain(start: nat, call: Call, d: nat)
    requires start < U32_RANGE && 0 < d < U32_RANGE && call.nanos.Some?
    requires d % 10_000 == if start + d < U32_RANGE then 0 else 7296
    ensures TicketAt(start, Calls(call, d + 1), 0) == start
    ensures TicketAt(start, Calls(call, d + 1), d) % 10_000 == start % 10_000
  {
    AllDraw(call, d + 1, 0, d);
    TicketStart(start, Calls(call, d + 1));
    SameDigitsIff(start, d);
  }

  lemma SameDigitsSameOutcome(t: nat, u: nat, call: Call)
    requires t % 10_000 == u % 10_000 && Outcome(t, call).Ok?
    ensures Outcome(t, call) == Outcome(u, call)
  {
    LegalAtEveryTicket(t, u, call);
  }

  /** Repeating a legal call under one clock reading, `d` tickets later the number is the same. */
  lemma ComesAgain(start: nat, call: Call, d: nat)
    requires start < U32_RANGE && 0 < d < U32_RANGE && call.nanos.Some? && Outcome(start, call).Ok?
    requires d % 10_000 == if start + d < U32_RANGE then 0 else 7296
    ensures OutcomeAt(start, Calls(call, d + 1), 0) == OutcomeAt(start, Calls(call, d + 1), d) == Outcome(start, call)
  {
    DigitsComeAgain(start, call, d);
    SameDigitsSameOutcome(start, TicketAt(start, Calls(call, d + 1), d), call);
  }

  lemma ALegalCall(ticket: nat)
    ensures Outcome(ticket, Call("A", Some(0))).Ok?
  {
    assert |Numeral(0)| == 1;
    OutcomeIff(ticket, Call("A", Some(0)));
  }

  /**
    Both bounds are reached by every legal call that is repeated under one clock reading: drawn at
    counter 0 its number is returned again 10000 tickets later, drawn at the last counter value 7296
    tickets later.
   */
  lemma BoundsAreSharp(call: Call, first: nat, last: nat, far: nat, near: nat)
    requires Outcome(first, call).Ok? && call.nanos.Some?
    requires first == 0 && last == 0xFFFF_FFFF && far == 10_000 && near == 7296
    ensures OutcomeAt(first, Calls(call, far + 1), 0).Ok?
    ensures OutcomeAt(first, Calls(call, far + 1), 0) == OutcomeAt(first, Calls(call, far + 1), far)
    ensures OutcomeAt(last, Calls(call, near + 1), 0).Ok?
    ensures OutcomeAt(last, Calls(call, near + 1), 0) == OutcomeAt(last, Calls(call, near + 1), near)
  {
    LegalAtEveryTicket(first, last, call);
    ComesAgain(first, call, far);
    ComesAgain(last, call, near);
  }

  lemma SuffixAlphabet(nanos: nat, ticket: nat)
    ensures AllDigits(Numeral(nanos) + Padded(ticket % 10_000, 4))
    ensures |Numeral(nanos) + Padded(ticket % 10_000, 4)| == |Numeral(nanos)| + 4
  {
    PaddedReads(ticket % 10_000);
  }

  predicate LegalBytes(s: Bytes) { forall i :: 0 <= i < |s| ==> IsOrderNumberByte(s[i]) }

  lemma LegalSum(prefix: Bytes, suffix: Bytes)
    requires AllDigits(suffix)
    ensures LegalBytes(prefix + suffix) <==> LegalBytes(prefix)
  {
    if LegalBytes(prefix + suffix) {
      forall i | 0 <= i < |prefix| ensures IsOrderNumberByte(prefix[i]) {
        assert (prefix + suffix)[i] == prefix[i];
      }
    }
  }

  /** A number is returned exactly when the clock works and the prefix is legal and short enough. */
  lemma OutcomeIff(ticket: nat, call: Call)
    ensures Outcome(ticket, call).Ok? <==>
            && call.nanos.Some?
            && |call.prefix| + |Numeral(call.nanos.value)| + 4 <= 64
            && forall i :: 0 <= i < |call.prefix| ==>
                 IsLetterOrDigit(call.prefix[i]) || call.prefix[i] in {'.', '_', '|', '-'}
    ensures Outcome(ticket, call).Err? ==>
              Outcome(ticket, call) == Err(if call.nanos.None? then ClockBeforeEpoch else InvalidOutTradeNo)
  {
    if call.nanos.Some? {
      assert OrderNumber(call.prefix, call.nanos.value, ticket) != [];
      OutTradeNoIff(OrderNumber(call.prefix, call.nanos.value, ticket));
      var suffix := Numeral(call.nanos.value) + Padded(ticket % 10_000, 4);
      SuffixAlphabet(call.nanos.value, ticket);
      LegalSum(call.prefix, suffix);
      SumAssociates(call.prefix, Numeral(call.nanos.value), Padded(ticket % 10_000, 4));
      OutTradeNoIff(call.prefix + suffix);
    }
  }

  /** A number that is returned: the prefix, the clock reading, and the ticket modulo 10000 as four digits. */
  lemma NumberShape(ticket: nat, call: Call)
    requires Outcome(ticket, call).Ok?
    ensures var number := Outcome(ticket, call).value;
            && call.nanos.Some? && |number| == |call.prefix| + |Numeral(call.nanos.value)| + 4
            && call.prefix <= number
            && number[|call.prefix|..|number| - 4] == Numeral(call.nanos.value)
            && AllDigits(number[|number| - 4..]) && NumeralValue(number[|number| - 4..]) == ticket % 10_000
  {
    PaddedReads(ticket % 10_000);
    ShapeOf(call.prefix, Numeral(call.nanos.value), Padded(ticket % 10_000, 4));
  }

  lemma ShapeOf(prefix: Bytes, clock: Bytes, digits: Bytes)
    requires |digits| == 4
    ensures var number := prefix + clock + digits;
            && prefix <= number && number[|prefix|..|number| - 4] == clock && number[|number| - 4..] == digits
  {
  }
}
