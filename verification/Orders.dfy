/** Order rows, list responses and the pagination loop. */
module Orders {
  import opened Wrappers
  import opened ByteStrings
  import opened SortedMaps
  import opened ParamMaps
  import opened Errors
  import opened Retrying
  import opened Transports
  import opened Clients
  import opened Validation
  import Amounts

  datatype Order = Order(tradeNo: Bytes, outTradeNo: Bytes, pid: nat, money: Bytes)

  datatype OrderList = OrderList(count: int, orders: seq<Order>)

  /**
    What the client is configured with.  `decode` turns a body into a list response; `wide` is as in
    `Amounts.ParseDecimal`.
   */
  datatype Client = Client(pid: nat, key: Bytes, policy: RetryPolicy, maxBytes: nat,
                           decode: Bytes -> Result<OrderList, Error>, wide: Bytes -> Option<Amounts.Decimal>)

  const LIST_ERROR := InvalidResponse(QueryOrders, "returned order list is invalid")

  /** `validate_row`. */
  predicate RowValid(pid: nat, row: Order, wide: Bytes -> Option<Amounts.Decimal>) {
    && ValidateTradeNo(row.tradeNo).Ok? && ValidateOutTradeNo(row.outTradeNo).Ok?
    && row.pid == pid && Amounts.FromYuanStr(row.money, wide).Ok?
  }

  /** The row check with the configured merchant id. */
  function RowCheck(client: Client): Order -> bool {
    row => RowValid(client.pid, row, client.wide)
  }

  predicate AllPass(rows: seq<Order>, check: Order -> bool) {
    forall row :: row in rows ==> check(row)
  }

  predicate ListValid(check: Order -> bool, list: OrderList) {
    list.count >= 0 && AllPass(list.orders, check)
  }

  /** The early-return loop of the list's `validate_success`. */
  method CheckRows(check: Order -> bool, list: OrderList) returns (ok: bool)
    ensures ok == ListValid(check, list)
  {
    if list.count < 0 { return false; }
    for i := 0 to |list.orders|
      invariant forall j :: 0 <= j < i ==> check(list.orders[j])
    {
      if !check(list.orders[i]) { return false; }
    }
    ok := true;
  }

  lemma CheckIsRowValid(client: Client, rows: seq<Order>)
    ensures AllPass(rows, RowCheck(client)) <==> forall row :: row in rows ==> RowValid(client.pid, row, client.wide)
  {
    if AllPass(rows, RowCheck(client)) {
      forall row | row in rows ensures RowValid(client.pid, row, client.wide) { assert RowCheck(client)(row); }
    }
  }

  method ValidateList(client: Client, list: OrderList) returns (ok: bool)
    ensures ok <==> list.count >= 0 && forall row :: row in list.orders ==> RowValid(client.pid, row, client.wide)
    ensures ok == ListValid(RowCheck(client), list)
  {
    CheckIsRowValid(client, list.orders);
    ok := CheckRows(RowCheck(client), list);
  }

  // ---- Pages ----

  function ClampLimit(limit: nat): (n: nat)
    ensures 1 <= n <= 50
    ensures 1 <= limit <= 50 ==> n == limit
    ensures limit > 50 ==> n == 50
  {
    if limit < 1 then 1 else if limit > 50 then 50 else limit
  }

  predicate HasMore(orders: seq<Order>, limit: nat) { |orders| >= ClampLimit(limit) }

  function NextPageNumber(page: nat): nat {
    Min(Max(page, 1) + 1, U32_MAX)
  }

  function NextPage(orders: seq<Order>, page: nat, limit: nat): Option<nat> {
    if HasMore(orders, limit) then Some(NextPageNumber(page)) else None
  }

  /** The orders on that many full pages. */
  function OnPages(pages: nat, limit: nat): nat { pages * limit }

  lemma OnPagesSteps(pages: nat, limit: nat)
    ensures OnPages(0, limit) == 0 && OnPages(pages + 1, limit) == OnPages(pages, limit) + limit
  {
  }

  lemma OnPagesGrows(pages: nat, more: nat, limit: nat)
    requires pages <= more
    ensures OnPages(pages, limit) <= OnPages(more, limit)
  {
    assert (more - pages) * limit >= 0;
  }

  /** The query fields of one page request: `limit`, `page` and the equivalent `offset`. */
  function PageFields(limit: nat, page: nat): Fields
    requires page >= 1
  {
    map["limit" := Numeral(limit), "page" := Numeral(page), "offset" := Numeral(OnPages(page - 1, limit))]
  }

  function PageRequest(client: Client, limit: nat, page: nat): Request
    requires page >= 1
  {
    var m: Fields := map["pid" := Numeral(client.pid)] + PageFields(limit, page);
    Request.Request(Get, QueryOrders, WithField(WithField(m, "key", client.key), "act", "orders"), map[])
  }

  /** The query of a page: these fields and no others. */
  predicate AsksFor(query: Fields, client: Client, limit: nat, page: nat)
    requires page >= 1
  {
    && "act" in query && query["act"] == "orders"
    && "pid" in query && query["pid"] == Numeral(client.pid)
    && (if client.key == [] then "key" !in query else "key" in query && query["key"] == client.key)
    && "limit" in query && query["limit"] == Numeral(limit)
    && "page" in query && query["page"] == Numeral(page)
    && "offset" in query && query["offset"] == Numeral(OnPages(page - 1, limit))
    && query.Keys <= {"act", "pid", "key", "limit", "page", "offset"}
  }

  /** What a page request asks for. */
  lemma PageRequestAsks(client: Client, limit: nat, page: nat)
    requires page >= 1
    ensures var request := PageRequest(client, limit, page);
            request.verb == Get && request.endpoint == QueryOrders && request.form == map[]
    ensures AsksFor(PageRequest(client, limit, page).query, client, limit, page)
  {
  }

  method BuildPageFields(limit: nat, page: nat) returns (extra: Params)
    requires page >= 1
    ensures fresh(extra) && extra.Valid() && extra.inner == PageFields(limit, page)
  {
    extra := new Params();
    extra.Insert("limit", Numeral(limit));
    extra.Insert("page", Numeral(page));
    extra.Insert("offset", Numeral(OnPages(page - 1, limit)));
  }

  /** The parameters are assembled by inserting and merging. */
  method BuildPageQuery(client: Client, limit: nat, page: nat) returns (query: Fields)
    requires page >= 1
    ensures query == PageRequest(client, limit, page).query
  {
    var extra := BuildPageFields(limit, page);
    var params := new Params();
    params.Insert("pid", Numeral(client.pid));
    assert params.inner == map["pid" := Numeral(client.pid)];
    params.Merge(extra);
    params.Insert("key", client.key);
    params.Insert("act", "orders");
    query := params.inner;
  }

  function CheckList(check: Order -> bool, list: Result<OrderList, Error>): Result<seq<Order>, Error> {
    match list
    case Err(e) => Err(e)
    case Ok(list) => if ListValid(check, list) then Ok(list.orders) else Err(LIST_ERROR)
  }

  /** The orders of one page, as requested at position `start` of the run. */
  function PageResult(client: Client, answer: Answers, start: nat, limit: nat, page: nat)
    : Result<seq<Order>, Error>
    requires page >= 1
  {
    CheckList(RowCheck(client), GetResult(answer, start, PageRequest(client, limit, page), client.policy,
                                          client.maxBytes, client.decode))
  }

  function PageCalls(client: Client, answer: Answers, start: nat, limit: nat, page: nat): nat
    requires page >= 1
  {
    Calls(answer, start, PageRequest(client, limit, page), client.policy)
  }

  /**
    How the pages of a run come in: the orders of a page requested at some position of the run, and
    the number of transport calls this takes.
   */
  type Fetch = (nat, nat) -> (Result<seq<Order>, Error>, nat)

  ghost predicate FetchesPages(fetch: Fetch, client: Client, answer: Answers, limit: nat) {
    forall start, page {:trigger PageResult(client, answer, start, limit, page)} :: page >= 1 ==>
      fetch(start, page) == (PageResult(client, answer, start, limit, page),
                             PageCalls(client, answer, start, limit, page))
  }

  /** The pages a server lets the client see. */
  function PagesOf(client: Client, answer: Answers, limit: nat): Fetch {
    (start, page) =>
      if page >= 1 then (PageResult(client, answer, start, limit, page), PageCalls(client, answer, start, limit, page))
      else (Ok([]), 0)
  }

  lemma PagesOfFetches(client: Client, answer: Answers, limit: nat)
    ensures FetchesPages(PagesOf(client, answer, limit), client, answer, limit)
  {
  }

  /** `query_orders_with` with arguments already in range. */
  method QueryPage(client: Client, transport: Transport, limit: nat, page: nat, ghost fetch: Fetch)
    returns (r: Result<seq<Order>, Error>)
    requires client.policy.Valid() && transport.Valid() && page >= 1
    requires FetchesPages(fetch, client, transport.answer, limit)
    modifies transport
    ensures r == fetch(|old(transport.requests)|, page).0
    ensures |transport.requests| == |old(transport.requests)| + fetch(|old(transport.requests)|, page).1
    ensures transport.requests
         == old(transport.requests) + Repeat(PageRequest(client, limit, page), fetch(|old(transport.requests)|, page).1)
  {
    ghost var expected := PageResult(client, transport.answer, |transport.requests|, limit, page);
    var query := BuildPageQuery(client, limit, page);
    var request := Request.Request(Get, QueryOrders, query, map[]);
    var list := GetJson(transport, request, client.policy, client.maxBytes, client.decode);
    if list.Err? { return Err(list.error); }
    var valid := ValidateList(client, list.value);
    r := if valid then Ok(list.value.orders) else Err(LIST_ERROR);
  }

  // ---- All pages ----

  /** The loop goes on behind this page. */
  predicate Continues(rows: Result<seq<Order>, Error>, limit: nat, page: nat, maxPages: nat) {
    rows.Ok? && HasMore(rows.value, limit) && NextPageNumber(page) <= maxPages
  }

  /** The loop, at `page` now, ends after at most `n` further pages. */
  predicate EndsWithin(fetch: Fetch, start: nat, limit: nat, page: nat, maxPages: nat, n: nat)
    decreases n
  {
    var (rows, calls) := fetch(start, page);
    !Continues(rows, limit, page, maxPages)
    || (n > 0 && EndsWithin(fetch, start + calls, limit, NextPageNumber(page), maxPages, n - 1))
  }

  /** The loop ends at all. */
  ghost predicate Ends(fetch: Fetch, start: nat, limit: nat, page: nat, maxPages: nat) {
    exists n :: EndsWithin(fetch, start, limit, page, maxPages, n)
  }

  /** The number of pages after this one. */
  ghost function PagesLeft(fetch: Fetch, start: nat, limit: nat, page: nat, maxPages: nat): (n: nat)
    requires Ends(fetch, start, limit, page, maxPages)
    ensures EndsWithin(fetch, start, limit, page, maxPages, n)
    ensures forall m: nat :: m < n ==> !EndsWithin(fetch, start, limit, page, maxPages, m)
  {
    var n :| EndsWithin(fetch, start, limit, page, maxPages, n);
    LeastEnd(fetch, start, limit, page, maxPages, n)
  }

  ghost function LeastEnd(fetch: Fetch, start: nat, limit: nat, page: nat, maxPages: nat, n: nat): (least: nat)
    requires EndsWithin(fetch, start, limit, page, maxPages, n)
    ensures EndsWithin(fetch, start, limit, page, maxPages, least)
    ensures forall m: nat :: m < least ==> !EndsWithin(fetch, start, limit, page, maxPages, m)
  {
    if exists m: nat :: m < n && EndsWithin(fetch, start, limit, page, maxPages, m) then
      var m: nat :| m < n && EndsWithin(fetch, start, limit, page, maxPages, m);
      LeastEnd(fetch, start, limit, page, maxPages, m)
    else n
  }

  /** A loop that goes on has one page less to go. */
  lemma OnePageLess(fetch: Fetch, start: nat, limit: nat, page: nat, maxPages: nat)
    requires Ends(fetch, start, limit, page, maxPages) && Continues(fetch(start, page).0, limit, page, maxPages)
    ensures Ends(fetch, start + fetch(start, page).1, limit, NextPageNumber(page), maxPages)
    ensures PagesLeft(fetch, start + fetch(start, page).1, limit, NextPageNumber(page), maxPages)
          < PagesLeft(fetch, start, limit, page, maxPages)
  {
    var n := PagesLeft(fetch, start, limit, page, maxPages);
    assert EndsWithin(fetch, start + fetch(start, page).1, limit, NextPageNumber(page), maxPages, n - 1);
  }

  /** What is collected from `page` on. */
  function Collect(fetch: Fetch, start: nat, limit: nat, page: nat, maxPages: nat, orders: seq<Order>)
    : Result<seq<Order>, Error>
    requires Ends(fetch, start, limit, page, maxPages)
    decreases PagesLeft(fetch, start, limit, page, maxPages)
  {
    var (rows, calls) := fetch(start, page);
    if rows.Err? then Err(rows.error)
    else if Continues(rows, limit, page, maxPages) then
      OnePageLess(fetch, start, limit, page, maxPages);
      Collect(fetch, start + calls, limit, NextPageNumber(page), maxPages, orders + rows.value)
    else Ok(orders + rows.value)
  }

  /** A whole run ends: exactly what a caller needs for the call to return. */
  ghost predicate RunEnds(fetch: Fetch, start: nat, limit: nat, maxPages: nat) {
    maxPages == 0 || Ends(fetch, start, limit, 1, maxPages)
  }

  function AllOrders(fetch: Fetch, start: nat, limit: nat, maxPages: nat): Result<seq<Order>, Error>
    requires RunEnds(fetch, start, limit, maxPages)
  {
    if maxPages == 0 then Ok([]) else Collect(fetch, start, limit, 1, maxPages, [])
  }

  // ---- Every order handed out passed the row check ----

  ghost predicate RowsPass(fetch: Fetch, check: Order -> bool) {
    forall start, page :: fetch(start, page).0.Ok? ==> AllPass(fetch(start, page).0.value, check)
  }

  lemma {:induction false} CollectRows(fetch: Fetch, start: nat, limit: nat, page: nat, maxPages: nat,
                                       orders: seq<Order>, check: Order -> bool)
    requires Ends(fetch, start, limit, page, maxPages) && RowsPass(fetch, check) && AllPass(orders, check)
    ensures var r := Collect(fetch, start, limit, page, maxPages, orders);
            r.Ok? ==> AllPass(r.value, check)
    decreases PagesLeft(fetch, start, limit, page, maxPages)
  {
    var (rows, calls) := fetch(start, page);
    if rows.Ok? {
      assert AllPass(fetch(start, page).0.value, check);
      if Continues(rows, limit, page, maxPages) {
        OnePageLess(fetch, start, limit, page, maxPages);
        CollectRows(fetch, start + calls, limit, NextPageNumber(page), maxPages, orders + rows.value, check);
      }
    }
  }

  lemma CheckedRows(check: Order -> bool, list: Result<OrderList, Error>)
    ensures CheckList(check, list).Ok? ==> AllPass(CheckList(check, list).value, check)
  {
  }

  /** A page is delivered exactly when the list counts from zero and every row belongs to the merchant and is valid. */
  lemma PageDelivered(client: Client, answer: Answers, start: nat, limit: nat, page: nat, rows: seq<Order>)
    requires page >= 1
    ensures var list := GetResult(answer, start, PageRequest(client, limit, page), client.policy, client.maxBytes,
                                  client.decode);
            PageResult(client, answer, start, limit, page) == Ok(rows) <==>
              && list.Ok? && list.value.orders == rows && list.value.count >= 0
              && forall row :: row in rows ==>
                   && ValidateTradeNo(row.tradeNo).Ok? && ValidateOutTradeNo(row.outTradeNo).Ok?
                   && row.pid == client.pid && Amounts.FromYuanStr(row.money, client.wide).Ok?
  {
    CheckIsRowValid(client, rows);
  }

  lemma PagesPass(client: Client, answer: Answers, limit: nat)
    ensures RowsPass(PagesOf(client, answer, limit), RowCheck(client))
  {
    var fetch, check := PagesOf(client, answer, limit), RowCheck(client);
    forall start, page | fetch(start, page).0.Ok? ensures AllPass(fetch(start, page).0.value, check) {
      if page >= 1 {
        CheckedRows(check, GetResult(answer, start, PageRequest(client, limit, page), client.policy,
                                     client.maxBytes, client.decode));
      }
    }
  }

  /**
    Whatever the server does, every order of a run has valid numbers and a valid amount and belongs to
    the configured merchant.
   */
  lemma DeliveredRowsAreValid(client: Client, answer: Answers, start: nat, limit: nat, maxPages: nat)
    requires RunEnds(PagesOf(client, answer, limit), start, limit, maxPages)
    ensures var r := AllOrders(PagesOf(client, answer, limit), start, limit, maxPages);
            r.Ok? ==> forall row :: row in r.value ==>
              && ValidateTradeNo(row.tradeNo).Ok? && ValidateOutTradeNo(row.outTradeNo).Ok?
              && row.pid == client.pid && Amounts.FromYuanStr(row.money, client.wide).Ok?
  {
    var fetch, check := PagesOf(client, answer, limit), RowCheck(client);
    PagesPass(client, answer, limit);
    if maxPages > 0 { CollectRows(fetch, start, limit, 1, maxPages, [], check); }
    var r := AllOrders(fetch, start, limit, maxPages);
    if r.Ok? { CheckIsRowValid(client, r.value); }
  }

  // ---- The requests of a run ----

  /** One request of a run: the page, and the number of orders collected when it is sent. */
  datatype Step = Step(page: nat, collected: nat)

  /** The requests from `page` on: a page may take several attempts. */
  function Trace(fetch: Fetch, start: nat, limit: nat, page: nat, maxPages: nat, collected: nat): (steps: seq<Step>)
    requires Ends(fetch, start, limit, page, maxPages) && page >= 1
    ensures forall step :: step in steps ==> step.page >= 1
    decreases PagesLeft(fetch, start, limit, page, maxPages)
  {
    var (rows, calls) := fetch(start, page);
    var sent := Repeat(Step(page, collected), calls);
    if Continues(rows, limit, page, maxPages) then
      OnePageLess(fetch, start, limit, page, maxPages);
      sent + Trace(fetch, start + calls, limit, NextPageNumber(page), maxPages, collected + |rows.value|)
    else sent
  }

  /** The request for each page number. */
  type Ask = nat -> Request

  function Asking(client: Client, limit: nat): Ask {
    (page: nat) => if page == 0 then PageRequest(client, limit, 1) else PageRequest(client, limit, page)
  }

  function Sent(ask: Ask, steps: seq<Step>): (requests: seq<Request>)
    ensures |requests| == |steps| && forall i :: 0 <= i < |steps| ==> requests[i] == ask(steps[i].page)
  {
    seq(|steps|, i requires 0 <= i < |steps| => ask(steps[i].page))
  }

  /** The requests of a whole run. */
  function RunTrace(fetch: Fetch, start: nat, limit: nat, maxPages: nat): (steps: seq<Step>)
    requires RunEnds(fetch, start, limit, maxPages)
    ensures forall step :: step in steps ==> step.page >= 1
  {
    if maxPages == 0 then [] else Trace(fetch, start, limit, 1, maxPages, 0)
  }

  lemma {:induction false} SentRepeat(ask: Ask, step: Step, n: nat)
    ensures Sent(ask, Repeat(step, n)) == Repeat(ask(step.page), n)
  {
    if n > 0 { SentRepeat(ask, step, n - 1); }
  }

  lemma SentSum(ask: Ask, a: seq<Step>, b: seq<Step>)
    ensures Sent(ask, a + b) == Sent(ask, a) + Sent(ask, b)
  {
  }

  lemma RequestsRegroup(sent: seq<Request>, a: seq<Request>, b: seq<Request>)
    ensures sent + (a + b) == (sent + a) + b
  {
  }

  /** The last page of a run. */
  lemma TraceStops(ask: Ask, fetch: Fetch, start: nat, limit: nat, page: nat, maxPages: nat, collected: nat)
    requires Ends(fetch, start, limit, page, maxPages) && page >= 1
    requires !Continues(fetch(start, page).0, limit, page, maxPages)
    ensures Sent(ask, Trace(fetch, start, limit, page, maxPages, collected)) == Repeat(ask(page), fetch(start, page).1)
  {
    SentRepeat(ask, Step(page, collected), fetch(start, page).1);
  }

  lemma TraceSplits(fetch: Fetch, start: nat, limit: nat, page: nat, maxPages: nat, collected: nat)
    requires Ends(fetch, start, limit, page, maxPages) && page >= 1
    requires Continues(fetch(start, page).0, limit, page, maxPages)
    ensures Ends(fetch, start + fetch(start, page).1, limit, NextPageNumber(page), maxPages)
    ensures Trace(fetch, start, limit, page, maxPages, collected)
         == Repeat(Step(page, collected), fetch(start, page).1)
            + Trace(fetch, start + fetch(start, page).1, limit, NextPageNumber(page), maxPages,
                    collected + |fetch(start, page).0.value|)
  {
    OnePageLess(fetch, start, limit, page, maxPages);
  }

  lemma SentBehind(ask: Ask, sent: seq<Request>, step: Step, n: nat, rest: seq<Step>)
    ensures sent + Sent(ask, Repeat(step, n) + rest) == (sent + Repeat(ask(step.page), n)) + Sent(ask, rest)
  {
    SentRepeat(ask, step, n);
    SentSum(ask, Repeat(step, n), rest);
    RequestsRegroup(sent, Repeat(ask(step.page), n), Sent(ask, rest));
  }

  /** Any other page: its requests, then those of the pages behind it. */
  lemma TraceGoesOn(ask: Ask, fetch: Fetch, start: nat, limit: nat, page: nat, maxPages: nat, collected: nat,
                    sent: seq<Request>)
    requires Ends(fetch, start, limit, page, maxPages) && page >= 1
    requires Continues(fetch(start, page).0, limit, page, maxPages)
    ensures Ends(fetch, start + fetch(start, page).1, limit, NextPageNumber(page), maxPages)
    ensures sent + Sent(ask, Trace(fetch, start, limit, page, maxPages, collected))
         == (sent + Repeat(ask(page), fetch(start, page).1))
            + Sent(ask, Trace(fetch, start + fetch(start, page).1, limit, NextPageNumber(page), maxPages,
                              collected + |fetch(start, page).0.value|))
  {
    TraceSplits(fetch, start, limit, page, maxPages, collected);
    var (rows, calls) := fetch(start, page);
    SentBehind(ask, sent, Step(page, collected), calls,
               Trace(fetch, start + calls, limit, NextPageNumber(page), maxPages, collected + |rows.value|));
  }

  /** What remains of a run when it has sent `sent` and collected `orders`. */
  ghost predicate OnTrack(ask: Ask, fetch: Fetch, limit: nat, page: nat, maxPages: nat, sent: seq<Request>,
                          orders: seq<Order>, all: Result<seq<Order>, Error>, requests: seq<Request>)
    requires page >= 1
  {
    && Ends(fetch, |sent|, limit, page, maxPages)
    && all == Collect(fetch, |sent|, limit, page, maxPages, orders)
    && requests == sent + Sent(ask, Trace(fetch, |sent|, limit, page, maxPages, |orders|))
  }

  lemma StaysOnTrack(ask: Ask, fetch: Fetch, limit: nat, page: nat, maxPages: nat, sent: seq<Request>,
                     orders: seq<Order>, all: Result<seq<Order>, Error>, requests: seq<Request>, after: seq<Request>)
    requires page >= 1 && Continues(fetch(|sent|, page).0, limit, page, maxPages)
    requires OnTrack(ask, fetch, limit, page, maxPages, sent, orders, all, requests)
    requires after == sent + Repeat(ask(page), fetch(|sent|, page).1)
    ensures OnTrack(ask, fetch, limit, NextPageNumber(page), maxPages, after,
                    orders + fetch(|sent|, page).0.value, all, requests)
    ensures PagesLeft(fetch, |after|, limit, NextPageNumber(page), maxPages)
          < PagesLeft(fetch, |sent|, limit, page, maxPages)
  {
    OnePageLess(fetch, |sent|, limit, page, maxPages);
    TraceGoesOn(ask, fetch, |sent|, limit, page, maxPages, |orders|, sent);
  }

  lemma EndsOnTrack(ask: Ask, fetch: Fetch, limit: nat, page: nat, maxPages: nat, sent: seq<Request>,
                    orders: seq<Order>, all: Result<seq<Order>, Error>, requests: seq<Request>)
    requires page >= 1 && !Continues(fetch(|sent|, page).0, limit, page, maxPages)
    requires OnTrack(ask, fetch, limit, page, maxPages, sent, orders, all, requests)
    ensures requests == sent + Repeat(ask(page), fetch(|sent|, page).1)
    ensures all == match fetch(|sent|, page).0
                   case Err(e) => Err(e)
                   case Ok(rows) => Ok(orders + rows)
  {
    TraceStops(ask, fetch, |sent|, limit, page, maxPages, |orders|);
  }

  /** The loop over pages. */
  method CollectPages(client: Client, transport: Transport, limit: nat, maxPages: nat, ghost fetch: Fetch)
    returns (r: Result<seq<Order>, Error>)
    requires client.policy.Valid() && transport.Valid() && maxPages <= U32_MAX
    requires FetchesPages(fetch, client, transport.answer, limit) && 1 <= limit <= 50
    requires RunEnds(fetch, |transport.requests|, limit, maxPages)
    modifies transport
    ensures r == AllOrders(fetch, |old(transport.requests)|, limit, maxPages)
    ensures transport.requests
         == old(transport.requests)
            + Sent(Asking(client, limit), RunTrace(fetch, |old(transport.requests)|, limit, maxPages))
  {
    if maxPages == 0 { return Ok([]); }
    var orders: seq<Order> := [];
    var page := 1;
    ghost var ask := Asking(client, limit);
    ghost var all := AllOrders(fetch, |transport.requests|, limit, maxPages);
    ghost var requests :=
      transport.requests + Sent(ask, RunTrace(fetch, |transport.requests|, limit, maxPages));
    while true
      invariant 1 <= page <= maxPages
      invariant OnTrack(ask, fetch, limit, page, maxPages, transport.requests, orders, all, requests)
      decreases PagesLeft(fetch, |transport.requests|, limit, page, maxPages)
    {
      ghost var sent := transport.requests;
      var rows := QueryPage(client, transport, limit, page, fetch);
      if Continues(rows, limit, page, maxPages) {
        StaysOnTrack(ask, fetch, limit, page, maxPages, sent, orders, all, requests, transport.requests);
      } else {
        EndsOnTrack(ask, fetch, limit, page, maxPages, sent, orders, all, requests);
      }
      if rows.Err? { return Err(rows.error); }
      var next := NextPage(rows.value, page, limit);
      orders := orders + rows.value;
      if next.None? || next.value > maxPages { return Ok(orders); }
      page := next.value;
    }
  }

  /** `query_all_orders_with`, called when its loop ends. */
  method QueryAllOrders(client: Client, transport: Transport, limit: nat, maxPages: nat)
    returns (r: Result<seq<Order>, Error>)
    requires client.policy.Valid() && transport.Valid() && maxPages <= U32_MAX
    requires RunEnds(PagesOf(client, transport.answer, ClampLimit(limit)), |transport.requests|, ClampLimit(limit),
                     maxPages)
    modifies transport
    ensures var fetch := PagesOf(client, transport.answer, ClampLimit(limit));
            && r == AllOrders(fetch, |old(transport.requests)|, ClampLimit(limit), maxPages)
            && transport.requests == old(transport.requests)
               + Sent(Asking(client, ClampLimit(limit)),
                      RunTrace(fetch, |old(transport.requests)|, ClampLimit(limit), maxPages))
    ensures r.Ok? ==> forall row :: row in r.value ==> RowValid(client.pid, row, client.wide)
  {
    var limit := ClampLimit(limit);
    PagesOfFetches(client, transport.answer, limit);
    DeliveredRowsAreValid(client, transport.answer, |transport.requests|, limit, maxPages);
    r := CollectPages(client, transport, limit, maxPages, PagesOf(client, transport.answer, limit));
  }
}
