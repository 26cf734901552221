/** What pagination delivers, over whole runs. */
module Pagination {
  import opened Wrappers
  import opened ByteStrings
  import opened SortedMaps
  import opened ParamMaps
  import opened Errors
  import opened Retrying
  import opened Transports
  import opened Clients
  import opened Orders

  // ---- The numbers in a page request ----

  function NumberAt(q: Fields, key: Bytes): Option<nat> {
    if key in q && q[key] != [] && AllDigits(q[key]) then Some(NumeralValue(q[key])) else None
  }

  lemma NumberOf(q: Fields, key: Bytes, n: nat)
    requires GetField(q, key) == Some(Numeral(n))
    ensures NumberAt(q, key) == Some(n)
  {
    NumeralReads(n);
  }

  lemma PageFieldsSent(client: Client, limit: nat, page: nat)
    requires page >= 1
    ensures var q := PageRequest(client, limit, page).query;
            && GetField(q, "limit") == Some(Numeral(limit)) && GetField(q, "page") == Some(Numeral(page))
            && GetField(q, "offset") == Some(Numeral(OnPages(page - 1, limit)))
  {
  }

  lemma PageQueryNumbers(client: Client, limit: nat, page: nat, offset: nat)
    requires page >= 1 && offset == OnPages(page - 1, limit)
    ensures var q := PageRequest(client, limit, page).query;
            && NumberAt(q, "limit") == Some(limit) && NumberAt(q, "page") == Some(page)
            && NumberAt(q, "offset") == Some(offset)
  {
    var q := PageRequest(client, limit, page).query;
    PageFieldsSent(client, limit, page);
    NumberOf(q, "limit", limit);
    NumberOf(q, "page", page);
    NumberOf(q, "offset", offset);
  }

  // ---- When the loop ends ----

  /** The page counter never has to pass its largest value. */
  ghost predicate Advances(fetch: Fetch, limit: nat, maxPages: nat) {
    maxPages <= U32_MAX
    && (maxPages < U32_MAX || forall start :: !Continues(fetch(start, U32_MAX).0, limit, U32_MAX, maxPages))
  }

  lemma NextIsNew(fetch: Fetch, start: nat, limit: nat, page: nat, maxPages: nat)
    requires Advances(fetch, limit, maxPages) && 1 <= page <= maxPages
    requires Continues(fetch(start, page).0, limit, page, maxPages)
    ensures NextPageNumber(page) == page + 1 <= maxPages
  {
  }

  lemma {:induction false} EndsInTime(fetch: Fetch, start: nat, limit: nat, page: nat, maxPages: nat)
    requires Advances(fetch, limit, maxPages) && 1 <= page <= maxPages
    ensures EndsWithin(fetch, start, limit, page, maxPages, maxPages - page)
    ensures Ends(fetch, start, limit, page, maxPages)
    decreases maxPages - page
  {
    var (rows, calls) := fetch(start, page);
    if Continues(rows, limit, page, maxPages) {
      NextIsNew(fetch, start, limit, page, maxPages);
      EndsInTime(fetch, start + calls, limit, page + 1, maxPages);
    }
    assert EndsWithin(fetch, start, limit, page, maxPages, maxPages - page);
  }

  lemma AdvancingRunEnds(fetch: Fetch, start: nat, limit: nat, maxPages: nat)
    requires Advances(fetch, limit, maxPages)
    ensures RunEnds(fetch, start, limit, maxPages)
  {
    if maxPages > 0 { EndsInTime(fetch, start, limit, 1, maxPages); }
  }

  /** Every page is full. */
  ghost predicate AlwaysFull(fetch: Fetch, limit: nat) {
    forall start, page :: 1 <= page <= U32_MAX ==>
      fetch(start, page).0.Ok? && HasMore(fetch(start, page).0.value, limit)
  }

  lemma {:induction false} FullEndsIff(fetch: Fetch, start: nat, limit: nat, page: nat, maxPages: nat, n: nat)
    requires AlwaysFull(fetch, limit) && 1 <= page <= U32_MAX
    ensures EndsWithin(fetch, start, limit, page, maxPages, n) <==> Min(page + n + 1, U32_MAX) > maxPages
    decreases n
  {
    var (rows, calls) := fetch(start, page);
    assert fetch(start, page).0.Ok? && HasMore(fetch(start, page).0.value, limit);
    if n > 0 { FullEndsIff(fetch, start + calls, limit, NextPageNumber(page), maxPages, n - 1); }
  }

  /** The page fetched after `n` others, if the loop gets there. */
  function PageFetched(fetch: Fetch, start: nat, limit: nat, page: nat, maxPages: nat, n: nat): Option<nat>
    decreases n
  {
    var (rows, calls) := fetch(start, page);
    if n == 0 then Some(page)
    else if Continues(rows, limit, page, maxPages) then
      PageFetched(fetch, start + calls, limit, NextPageNumber(page), maxPages, n - 1)
    else None
  }

  lemma {:induction false} FullPagesFetched(fetch: Fetch, start: nat, limit: nat, page: nat, maxPages: nat, n: nat)
    requires AlwaysFull(fetch, limit) && 1 <= page <= Min(maxPages, U32_MAX)
    ensures PageFetched(fetch, start, limit, page, maxPages, n)
         == if Min(page + n, U32_MAX) <= maxPages then Some(Min(page + n, U32_MAX)) else None
    decreases n
  {
    var (rows, calls) := fetch(start, page);
    assert fetch(start, page).0.Ok? && HasMore(fetch(start, page).0.value, limit);
    if n > 0 && Continues(rows, limit, page, maxPages) {
      FullPagesFetched(fetch, start + calls, limit, NextPageNumber(page), maxPages, n - 1);
    }
  }

  /**
    Against a server whose pages are always full the loop ends exactly when `max_pages` is below the
    largest 32-bit number: there the saturating page counter stops, and the last page is fetched
    again and again.
   */
  lemma EndsOnFullPagesIff(fetch: Fetch, start: nat, limit: nat, maxPages: nat, n: nat)
    requires AlwaysFull(fetch, limit) && 1 <= maxPages <= U32_MAX
    ensures RunEnds(fetch, start, limit, maxPages) <==> maxPages < U32_MAX
    ensures PageFetched(fetch, start, limit, 1, maxPages, n)
         == if Min(n + 1, U32_MAX) <= maxPages then Some(Min(n + 1, U32_MAX)) else None
  {
    FullPagesFetched(fetch, start, limit, 1, maxPages, n);
    FullEndsIff(fetch, start, limit, 1, maxPages, maxPages - 1);
    forall m: nat | EndsWithin(fetch, start, limit, 1, maxPages, m) ensures maxPages < U32_MAX {
      FullEndsIff(fetch, start, limit, 1, maxPages, m);
    }
  }

  // ---- Any server ----

  ghost predicate CallsBounded(fetch: Fetch, bound: nat) {
    forall start, page :: fetch(start, page).1 <= bound
  }

  lemma {:induction false} TraceLength(fetch: Fetch, start: nat, limit: nat, page: nat, maxPages: nat, collected: nat,
                                       bound: nat)
    requires Advances(fetch, limit, maxPages) && 1 <= page <= maxPages && CallsBounded(fetch, bound)
    requires Ends(fetch, start, limit, page, maxPages)
    ensures |Trace(fetch, start, limit, page, maxPages, collected)| <= (maxPages - page + 1) * bound
    decreases maxPages - page
  {
    var (rows, calls) := fetch(start, page);
    assert calls <= bound by { assert fetch(start, page).1 <= bound; }
    OneMore(maxPages - page, bound);
    if Continues(rows, limit, page, maxPages) {
      NextIsNew(fetch, start, limit, page, maxPages);
      OnePageLess(fetch, start, limit, page, maxPages);
      TraceLength(fetch, start + calls, limit, page + 1, maxPages, collected + |rows.value|, bound);
    }
  }

  lemma OneMore(n: nat, bound: nat)
    ensures (n + 1) * bound == bound + n * bound && n * bound >= 0
  {
  }

  lemma RunLength(fetch: Fetch, start: nat, limit: nat, maxPages: nat, bound: nat)
    requires Advances(fetch, limit, maxPages) && CallsBounded(fetch, bound)
    ensures RunEnds(fetch, start, limit, maxPages)
    ensures |RunTrace(fetch, start, limit, maxPages)| <= maxPages * bound
  {
    AdvancingRunEnds(fetch, start, limit, maxPages);
    if maxPages > 0 { TraceLength(fetch, start, limit, 1, maxPages, 0, bound); }
  }

  lemma RetriesBounded(client: Client, answer: Answers, limit: nat)
    ensures CallsBounded(PagesOf(client, answer, limit), client.policy.maxRetries + 1)
  {
  }

  /** Whatever the server does, a run makes at most `max_pages * (max_retries + 1)` requests. */
  lemma RunIsBounded(client: Client, answer: Answers, start: nat, limit: nat, maxPages: nat)
    requires Advances(PagesOf(client, answer, limit), limit, maxPages)
    ensures RunEnds(PagesOf(client, answer, limit), start, limit, maxPages)
    ensures |RunTrace(PagesOf(client, answer, limit), start, limit, maxPages)|
         <= maxPages * (client.policy.maxRetries + 1)
  {
    RetriesBounded(client, answer, limit);
    RunLength(PagesOf(client, answer, limit), start, limit, maxPages, client.policy.maxRetries + 1);
  }

  /** No page holds more orders than were asked for. */
  ghost predicate PagesWithin(fetch: Fetch, limit: nat, maxPages: nat) {
    forall start, page :: 1 <= page <= maxPages && fetch(start, page).0.Ok? ==>
      |fetch(start, page).0.value| <= limit
  }

  lemma {:induction false} TraceOffsets(fetch: Fetch, start: nat, limit: nat, page: nat, maxPages: nat)
    requires Advances(fetch, limit, maxPages) && 1 <= page <= maxPages
    requires 1 <= limit <= 50 && PagesWithin(fetch, limit, maxPages) && Ends(fetch, start, limit, page, maxPages)
    ensures forall step :: step in Trace(fetch, start, limit, page, maxPages, OnPages(page - 1, limit)) ==>
              step.collected == OnPages(step.page - 1, limit)
    decreases maxPages - page
  {
    var (rows, calls) := fetch(start, page);
    if Continues(rows, limit, page, maxPages) {
      assert |fetch(start, page).0.value| <= limit;
      NextIsNew(fetch, start, limit, page, maxPages);
      OnePageLess(fetch, start, limit, page, maxPages);
      OnPagesSteps(page - 1, limit);
      TraceOffsets(fetch, start + calls, limit, page + 1, maxPages);
    }
  }

  /** Every request asks for the offset that was collected when it was sent. */
  predicate AsksForNext(ask: Ask, steps: seq<Step>) {
    forall step :: step in steps ==> NumberAt(ask(step.page).query, "offset") == Some(step.collected)
  }

  /** Every request of a run, retries included, asks for the orders right behind those collected. */
  lemma OffsetIsCollected(client: Client, fetch: Fetch, start: nat, limit: nat, maxPages: nat)
    requires Advances(fetch, limit, maxPages) && 1 <= limit <= 50 && PagesWithin(fetch, limit, maxPages)
    ensures RunEnds(fetch, start, limit, maxPages)
    ensures AsksForNext(Asking(client, limit), RunTrace(fetch, start, limit, maxPages))
  {
    AdvancingRunEnds(fetch, start, limit, maxPages);
    if maxPages > 0 {
      OnPagesSteps(0, limit);
      TraceOffsets(fetch, start, limit, 1, maxPages);
      forall step | step in RunTrace(fetch, start, limit, maxPages)
        ensures NumberAt(Asking(client, limit)(step.page).query, "offset") == Some(step.collected)
      {
        PageQueryNumbers(client, limit, step.page, step.collected);
      }
    }
  }

  // ---- A server with a fixed list ----

  function Slice<T>(xs: seq<T>, from: nat, count: nat): seq<T> {
    if from >= |xs| then [] else xs[from..Min(from + count, |xs|)]
  }

  /** The first `min(N, limit * max_pages)` orders. */
  function FirstPages(db: seq<Order>, limit: nat, maxPages: nat): seq<Order> {
    db[..Min(|db|, OnPages(maxPages, limit))]
  }

  /** Page `page` of the list. */
  function PageOf(db: seq<Order>, limit: nat, page: nat): (rows: seq<Order>)
    requires page >= 1
    ensures |rows| <= limit
  {
    Slice(db, OnPages(page - 1, limit), limit)
  }

  /** The server may fail at any time, but what it delivers is the requested page. */
  ghost predicate Honest(fetch: Fetch, db: seq<Order>, limit: nat, maxPages: nat) {
    forall start, page :: 1 <= page <= maxPages && fetch(start, page).0.Ok? ==>
      fetch(start, page).0.value == PageOf(db, limit, page)
  }

  /** The bound is below the largest 32-bit number, or the list ends before that page does. */
  predicate BoundReached(db: seq<Order>, limit: nat, maxPages: nat) {
    maxPages < U32_MAX || (maxPages == U32_MAX && |db| < OnPages(U32_MAX, limit))
  }

  lemma FullPage(db: seq<Order>, limit: nat, page: nat)
    requires page >= 1 && OnPages(page - 1, limit) <= |db| && 1 <= limit <= 50
    ensures HasMore(PageOf(db, limit, page), limit) <==> OnPages(page, limit) <= |db|
    ensures db[..OnPages(page - 1, limit)] + PageOf(db, limit, page) == FirstPages(db, limit, page)
    ensures OnPages(page, limit) > |db| ==> FirstPages(db, limit, page) == db
  {
    OnPagesSteps(page - 1, limit);
  }

  /** A page of the list is full exactly when the list reaches to its end. */
  lemma FullIff(db: seq<Order>, limit: nat, page: nat)
    requires page >= 1 && 1 <= limit <= 50
    ensures HasMore(PageOf(db, limit, page), limit) <==> OnPages(page, limit) <= |db|
  {
    OnPagesSteps(page - 1, limit);
    if OnPages(page - 1, limit) <= |db| { FullPage(db, limit, page); }
  }

  lemma HonestAdvances(fetch: Fetch, db: seq<Order>, limit: nat, maxPages: nat)
    requires Honest(fetch, db, limit, maxPages) && 1 <= limit <= 50 && BoundReached(db, limit, maxPages)
    ensures Advances(fetch, limit, maxPages) && PagesWithin(fetch, limit, maxPages)
  {
    if maxPages == U32_MAX {
      FullIff(db, limit, U32_MAX);
      forall start ensures !Continues(fetch(start, U32_MAX).0, limit, U32_MAX, maxPages) {
        if fetch(start, U32_MAX).0.Ok? {
          assert fetch(start, U32_MAX).0.value == PageOf(db, limit, U32_MAX);
        }
      }
    }
  }

  /** With what was collected so far being a prefix of the list, the result is the longer prefix. */
  lemma {:induction false} CollectPrefix(fetch: Fetch, db: seq<Order>, start: nat, limit: nat, page: nat,
                                         maxPages: nat, orders: seq<Order>)
    requires Advances(fetch, limit, maxPages) && 1 <= page <= maxPages
    requires 1 <= limit <= 50 && Honest(fetch, db, limit, maxPages) && Ends(fetch, start, limit, page, maxPages)
    requires OnPages(page - 1, limit) <= |db| && orders == db[..OnPages(page - 1, limit)]
    ensures var r := Collect(fetch, start, limit, page, maxPages, orders);
            r.Ok? ==> r.value == FirstPages(db, limit, maxPages)
    decreases maxPages - page
  {
    var (rows, calls) := fetch(start, page);
    if rows.Ok? {
      assert fetch(start, page).0.value == PageOf(db, limit, page);
      FullPage(db, limit, page);
      if Continues(rows, limit, page, maxPages) {
        NextIsNew(fetch, start, limit, page, maxPages);
        OnePageLess(fetch, start, limit, page, maxPages);
        CollectPrefix(fetch, db, start + calls, limit, page + 1, maxPages, orders + rows.value);
      } else {
        LastPage(fetch, db, start, limit, page, maxPages);
      }
    }
  }

  /** Where the loop stops with success, the pages up to there are all there is to collect. */
  lemma LastPage(fetch: Fetch, db: seq<Order>, start: nat, limit: nat, page: nat, maxPages: nat)
    requires 1 <= page <= maxPages <= U32_MAX && 1 <= limit <= 50
    requires fetch(start, page).0.Ok? && fetch(start, page).0.value == PageOf(db, limit, page)
    requires !Continues(fetch(start, page).0, limit, page, maxPages)
    ensures FirstPages(db, limit, page) == FirstPages(db, limit, maxPages)
  {
    FullIff(db, limit, page);
    OnPagesGrows(page, maxPages, limit);
  }

  /**
    Against a fixed list a successful run returns exactly its first `min(N, limit * max_pages)`
    orders, in order, none skipped or repeated, however often the server failed on the way.
   */
  lemma RunIsPrefix(fetch: Fetch, db: seq<Order>, start: nat, limit: nat, maxPages: nat)
    requires 1 <= limit <= 50 && Honest(fetch, db, limit, maxPages) && BoundReached(db, limit, maxPages)
    ensures RunEnds(fetch, start, limit, maxPages)
    ensures var r := AllOrders(fetch, start, limit, maxPages);
            r.Ok? ==> r.value == FirstPages(db, limit, maxPages)
  {
    HonestAdvances(fetch, db, limit, maxPages);
    AdvancingRunEnds(fetch, start, limit, maxPages);
    OnPagesSteps(0, limit);
    assert db[..0] == [];
    if maxPages > 0 { CollectPrefix(fetch, db, start, limit, 1, maxPages, []); }
  }

  /** The server delivers every page of the run whose rows pass the check. */
  ghost predicate Reliable(fetch: Fetch, db: seq<Order>, limit: nat, maxPages: nat, check: Order -> bool) {
    forall start, page :: 1 <= page <= maxPages ==>
      (fetch(start, page).0.Ok? <==> AllPass(PageOf(db, limit, page), check))
  }

  lemma AllPassConcat(a: seq<Order>, b: seq<Order>, check: Order -> bool)
    ensures AllPass(a + b, check) <==> AllPass(a, check) && AllPass(b, check)
  {
    if AllPass(a + b, check) {
      forall row | row in a ensures check(row) { assert row in a + b; }
      forall row | row in b ensures check(row) { assert row in a + b; }
    }
  }

  lemma NotPassing(db: seq<Order>, i: nat, j: nat, check: Order -> bool)
    requires i <= j <= |db| && !AllPass(db[..i], check)
    ensures !AllPass(db[..j], check)
  {
    assert db[..j] == db[..i] + db[i..j];
    AllPassConcat(db[..i], db[i..j], check);
  }

  lemma MorePagesCoverMore(db: seq<Order>, limit: nat, page: nat, maxPages: nat, check: Order -> bool)
    requires page <= maxPages && !AllPass(FirstPages(db, limit, page), check)
    ensures !AllPass(FirstPages(db, limit, maxPages), check)
  {
    OnPagesGrows(page, maxPages, limit);
    NotPassing(db, Min(|db|, OnPages(page, limit)), Min(|db|, OnPages(maxPages, limit)), check);
  }

  lemma {:induction false} CollectSucceeds(fetch: Fetch, db: seq<Order>, start: nat, limit: nat, page: nat,
                                           maxPages: nat, orders: seq<Order>, check: Order -> bool)
    requires Advances(fetch, limit, maxPages) && 1 <= page <= maxPages && 1 <= limit <= 50
    requires Honest(fetch, db, limit, maxPages) && Reliable(fetch, db, limit, maxPages, check)
    requires Ends(fetch, start, limit, page, maxPages)
    requires OnPages(page - 1, limit) <= |db| && orders == db[..OnPages(page - 1, limit)] && AllPass(orders, check)
    ensures Collect(fetch, start, limit, page, maxPages, orders).Ok? <==>
              AllPass(FirstPages(db, limit, maxPages), check)
    decreases maxPages - page
  {
    var (rows, calls) := fetch(start, page);
    var now := PageOf(db, limit, page);
    assert fetch(start, page).0.Ok? <==> AllPass(now, check);
    FullPage(db, limit, page);
    AllPassConcat(orders, now, check);
    if rows.Err? {
      MorePagesCoverMore(db, limit, page, maxPages, check);
    } else if Continues(rows, limit, page, maxPages) {
      NextIsNew(fetch, start, limit, page, maxPages);
      OnePageLess(fetch, start, limit, page, maxPages);
      CollectSucceeds(fetch, db, start + calls, limit, page + 1, maxPages, orders + now, check);
    } else {
      LastPage(fetch, db, start, limit, page, maxPages);
    }
  }

  /** Without failures of the server, a run succeeds exactly when all rows it covers are valid. */
  lemma RunSucceedsIff(fetch: Fetch, db: seq<Order>, start: nat, limit: nat, maxPages: nat, check: Order -> bool)
    requires 1 <= limit <= 50 && BoundReached(db, limit, maxPages)
    requires Honest(fetch, db, limit, maxPages) && Reliable(fetch, db, limit, maxPages, check)
    ensures RunEnds(fetch, start, limit, maxPages)
    ensures AllOrders(fetch, start, limit, maxPages).Ok? <==> AllPass(FirstPages(db, limit, maxPages), check)
  {
    HonestAdvances(fetch, db, limit, maxPages);
    AdvancingRunEnds(fetch, start, limit, maxPages);
    OnPagesSteps(0, limit);
    assert db[..0] == [];
    if maxPages > 0 {
      CollectSucceeds(fetch, db, start, limit, 1, maxPages, [], check);
    }
  }

  /**
    Against a fixed list, delivered without failures, the loop ends exactly when its bound is below
    the largest 32-bit number or the list is shorter than that many pages.
   */
  lemma FixedListEndsIff(fetch: Fetch, db: seq<Order>, start: nat, limit: nat, maxPages: nat)
    requires 1 <= limit <= 50 && 1 <= maxPages <= U32_MAX && Honest(fetch, db, limit, maxPages)
    requires forall start, page :: 1 <= page <= maxPages ==> fetch(start, page).0.Ok?
    ensures RunEnds(fetch, start, limit, maxPages) <==> BoundReached(db, limit, maxPages)
  {
    if BoundReached(db, limit, maxPages) {
      RunIsPrefix(fetch, db, start, limit, maxPages);
    } else {
      forall s, page | 1 <= page <= U32_MAX
        ensures fetch(s, page).0.Ok? && HasMore(fetch(s, page).0.value, limit)
      {
        assert fetch(s, page).0.Ok? && fetch(s, page).0.value == PageOf(db, limit, page);
        OnPagesGrows(page, U32_MAX, limit);
        FullIff(db, limit, page);
      }
      EndsOnFullPagesIff(fetch, start, limit, maxPages, 0);
    }
  }
}
