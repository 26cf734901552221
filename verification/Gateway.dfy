/** The whole client, from requests and bodies to collected orders, against a gateway with a fixed list. */
module Gateways {
  import opened Wrappers
  import opened ByteStrings
  import opened SortedMaps
  import opened FormCodec
  import opened ParamMaps
  import opened Errors
  import opened Retrying
  import opened Transports
  import opened Clients
  import opened Orders
  import opened Pagination
  import Validation

  /** A gateway that reads `page`. */
  function ByPage(db: seq<Order>, q: Fields): seq<Order> {
    match (NumberAt(q, "limit"), NumberAt(q, "page"))
    case (Some(limit), Some(page)) => if page >= 1 then PageOf(db, limit, page) else []
    case _ => []
  }

  /** A gateway that reads `offset`. */
  function ByOffset(db: seq<Order>, q: Fields): seq<Order> {
    match (NumberAt(q, "limit"), NumberAt(q, "offset"))
    case (Some(limit), Some(offset)) => Slice(db, offset, limit)
    case _ => []
  }

  /**
    Both kinds of gateway serve the same page, and the offset sent with page `page` is the number of
    orders on the pages before it.
   */
  lemma BothGatewaysAgree(client: Client, db: seq<Order>, limit: nat, page: nat)
    requires page >= 1
    ensures ByPage(db, PageRequest(client, limit, page).query) == PageOf(db, limit, page)
    ensures ByOffset(db, PageRequest(client, limit, page).query) == PageOf(db, limit, page)
    ensures NumberAt(PageRequest(client, limit, page).query, "offset") == Some(OnPages(page - 1, limit))
  {
    PageQueryNumbers(client, limit, page, OnPages(page - 1, limit));
  }

  /** Every body the gateway delivers lists the requested orders, whichever field it reads. */
  ghost predicate ServesList(client: Client, answer: Answers, db: seq<Order>) {
    forall i, request :: answer(i, request).Ok? ==>
      var list := client.decode(answer(i, request).value);
      list.Ok? ==> list.value.orders == ByPage(db, request.query) || list.value.orders == ByOffset(db, request.query)
  }

  lemma GatewayIsHonest(client: Client, answer: Answers, db: seq<Order>, limit: nat, maxPages: nat)
    requires ServesList(client, answer, db)
    ensures Honest(PagesOf(client, answer, limit), db, limit, maxPages)
  {
    var fetch := PagesOf(client, answer, limit);
    forall start, page | page >= 1 && fetch(start, page).0.Ok?
      ensures fetch(start, page).0.value == PageOf(db, limit, page)
    {
      PageIsServed(client, answer, db, start, limit, page);
    }
  }

  lemma ResultIsDecoded<T>(answer: Answers, start: nat, request: Request, policy: RetryPolicy, limit: nat,
                           decode: Bytes -> Result<T, Error>)
    requires GetResult(answer, start, request, policy, limit, decode).Ok?
    ensures exists i: nat :: answer(i, request).Ok?
              && decode(answer(i, request).value) == GetResult(answer, start, request, policy, limit, decode)
  {
    ResultWhenFits(answer, start, request, policy, limit, decode);
    var i := start + Attempts(answer, start, request, policy, 0) - 1;
    assert answer(i, request).Ok?;
  }

  lemma OrdersServed(client: Client, answer: Answers, db: seq<Order>, start: nat, request: Request,
                     list: Result<OrderList, Error>)
    requires ServesList(client, answer, db) && list.Ok?
    requires list == GetResult(answer, start, request, client.policy, client.maxBytes, client.decode)
    ensures list.value.orders == ByPage(db, request.query) || list.value.orders == ByOffset(db, request.query)
  {
    ResultIsDecoded(answer, start, request, client.policy, client.maxBytes, client.decode);
  }

  lemma PageIsServed(client: Client, answer: Answers, db: seq<Order>, start: nat, limit: nat, page: nat)
    requires ServesList(client, answer, db) && page >= 1
    requires PageResult(client, answer, start, limit, page).Ok?
    ensures PageResult(client, answer, start, limit, page).value == PageOf(db, limit, page)
  {
    BothGatewaysAgree(client, db, limit, page);
    var request := PageRequest(client, limit, page);
    var list := GetResult(answer, start, request, client.policy, client.maxBytes, client.decode);
    OrdersServed(client, answer, db, start, request, list);
  }

  lemma PagesCollectPrefix(client: Client, answer: Answers, db: seq<Order>, start: nat, limit: nat, maxPages: nat)
    requires 1 <= limit <= 50 && ServesList(client, answer, db) && BoundReached(db, limit, maxPages)
    ensures RunEnds(PagesOf(client, answer, limit), start, limit, maxPages)
    ensures var r := AllOrders(PagesOf(client, answer, limit), start, limit, maxPages);
            r.Ok? ==> r.value == FirstPages(db, limit, maxPages)
  {
    GatewayIsHonest(client, answer, db, limit, maxPages);
    RunIsPrefix(PagesOf(client, answer, limit), db, start, limit, maxPages);
  }

  /**
    Against a gateway that may fail at any time the run ends, and a successful one returns the first
    `min(N, limit * max_pages)` orders.
   */
  lemma ClientCollectsPrefix(client: Client, answer: Answers, db: seq<Order>, start: nat, limit: nat, maxPages: nat)
    requires ServesList(client, answer, db) && BoundReached(db, ClampLimit(limit), maxPages)
    ensures RunEnds(PagesOf(client, answer, ClampLimit(limit)), start, ClampLimit(limit), maxPages)
    ensures var r := AllOrders(PagesOf(client, answer, ClampLimit(limit)), start, ClampLimit(limit), maxPages);
            r.Ok? ==> r.value == FirstPages(db, ClampLimit(limit), maxPages)
  {
    PagesCollectPrefix(client, answer, db, start, ClampLimit(limit), maxPages);
  }

  lemma PagesAskForNext(client: Client, fetch: Fetch, db: seq<Order>, start: nat, limit: nat, maxPages: nat)
    requires 1 <= limit <= 50 && Honest(fetch, db, limit, maxPages) && BoundReached(db, limit, maxPages)
    ensures RunEnds(fetch, start, limit, maxPages)
    ensures AsksForNext(Asking(client, limit), RunTrace(fetch, start, limit, maxPages))
  {
    HonestAdvances(fetch, db, limit, maxPages);
    OffsetIsCollected(client, fetch, start, limit, maxPages);
  }

  /** Against such a gateway every request, retries included, asks for the orders right behind those collected. */
  lemma ClientAsksForNext(client: Client, answer: Answers, db: seq<Order>, start: nat, limit: nat, maxPages: nat)
    requires ServesList(client, answer, db) && BoundReached(db, ClampLimit(limit), maxPages)
    ensures RunEnds(PagesOf(client, answer, ClampLimit(limit)), start, ClampLimit(limit), maxPages)
    ensures AsksForNext(Asking(client, ClampLimit(limit)),
                        RunTrace(PagesOf(client, answer, ClampLimit(limit)), start, ClampLimit(limit), maxPages))
  {
    GatewayIsHonest(client, answer, db, ClampLimit(limit), maxPages);
    PagesAskForNext(client, PagesOf(client, answer, ClampLimit(limit)), db, start, ClampLimit(limit), maxPages);
  }

  // ---- Requests that fit ----

  /** Every page request of the run is within the size bound. */
  predicate AllFit(client: Client, limit: nat, maxPages: nat) {
    forall page {:trigger PageRequest(client, limit, page)} :: 1 <= page <= maxPages ==>
      Fits(PageRequest(client, limit, page))
  }

  /** Bytes of a list of pairs, each byte escaped at worst, with its separators. */
  function WorstSize(ps: seq<Pair>): nat {
    if ps == [] then 0 else WorstSize(ps[..|ps| - 1]) + 3 * (|ps[|ps| - 1].0| + |ps[|ps| - 1].1|) + 2
  }

  lemma {:induction false} EncodedAtMost(ps: seq<Pair>)
    ensures |EncodePairs(ps)| <= WorstSize(ps)
  {
    if ps != [] {
      var front, last := ps[..|ps| - 1], ps[|ps| - 1];
      assert ps == front + [last];
      EncodedAtMost(front);
      OneMorePair(front, last);
    }
  }

  lemma OneMorePair(front: seq<Pair>, last: Pair)
    ensures |EncodePairs(front + [last])| <= |EncodePairs(front)| + 3 * (|last.0| + |last.1|) + 2
  {
    EncodePairsSnoc(front, last);
    PairAtMost(last);
  }

  lemma PairAtMost(p: Pair)
    ensures |EncodePair(p)| <= 3 * (|p.0| + |p.1|) + 1
  {
    EncodeComponentAlphabet(p.0);
    EncodeComponentAlphabet(p.1);
  }

  lemma {:induction false} WorstOfParts(ps: seq<Pair>, unit: nat)
    requires forall p :: p in ps ==> 3 * (|p.0| + |p.1|) + 2 <= unit
    ensures WorstSize(ps) <= |ps| * unit
  {
    if ps != [] {
      WorstOfParts(ps[..|ps| - 1], unit);
      assert ps[|ps| - 1] in ps;
      assert |ps| * unit == (|ps| - 1) * unit + unit;
    }
  }

  lemma ShortNumeral(n: nat)
    requires n <= 0xFFFF_FFFF_FFFF_FFFF
    ensures |Numeral(n)| <= 20
  {
    assert Pow10(20) == 100_000_000_000_000_000_000 by {
      assert Pow10(5) == 10 * Pow10(4) == 100 * Pow10(3) == 1000 * Pow10(2) == 10_000 * Pow10(1) == 100_000;
      assert Pow10(10) == 10 * Pow10(9) == 100 * Pow10(8) == 1000 * Pow10(7) == 10_000 * Pow10(6) == 100_000 * Pow10(5);
      assert Pow10(15) == 10 * Pow10(14) == 100 * Pow10(13) == 1000 * Pow10(12) == 10_000 * Pow10(11)
          == 100_000 * Pow10(10);
      assert Pow10(20) == 10 * Pow10(19) == 100 * Pow10(18) == 1000 * Pow10(17) == 10_000 * Pow10(16)
          == 100_000 * Pow10(15);
    }
    NumeralLength(n, 20);
  }

  /** At most `n` fields, all short. */
  predicate ShortFields(m: Fields, n: nat) {
    |m| <= n && forall k :: k in m ==> |k| <= 6 && |m[k]| <= 200
  }

  lemma ShortWithField(m: Fields, n: nat, key: Bytes, value: Bytes)
    requires ShortFields(m, n) && |key| <= 6 && |value| <= 200
    ensures ShortFields(WithField(m, key, value), n + 1)
  {
  }

  lemma ShortUnion(a: Fields, b: Fields, m: nat, n: nat)
    requires ShortFields(a, m) && ShortFields(b, n)
    ensures ShortFields(a + b, m + n)
  {
    assert (a + b).Keys == a.Keys + b.Keys;
    assert |(a + b).Keys| <= |a.Keys| + |b.Keys|;
  }

  lemma ShortPairsFit(ps: seq<Pair>)
    requires |ps| <= 6 && forall p :: p in ps ==> |p.0| <= 6 && |p.1| <= 200
    ensures |EncodePairs(ps)| <= Validation.MAX_REQUEST_BYTES
  {
    EncodedAtMost(ps);
    ShortPairsAreSmall(ps);
  }

  lemma ShortPairsAreSmall(ps: seq<Pair>)
    requires |ps| <= 6 && forall p :: p in ps ==> |p.0| <= 6 && |p.1| <= 200
    ensures WorstSize(ps) <= Validation.MAX_REQUEST_BYTES
  {
    WorstOfParts(ps, 620);
  }

  lemma ShortFieldsFit(m: Fields)
    requires ShortFields(m, 6)
    ensures |Encode(m)| <= Validation.MAX_REQUEST_BYTES
  {
    EntriesList(m);
    ShortPairsFit(Entries(m));
  }

  lemma PageNumbersShort(limit: Bytes, page: Bytes, offset: Bytes)
    requires |limit| <= 20 && |page| <= 20 && |offset| <= 20
    ensures ShortFields(map["limit" := limit, "page" := page, "offset" := offset], 3)
  {
  }

  lemma PageFieldsShort(pid: Bytes, key: Bytes, limit: Bytes, page: Bytes, offset: Bytes)
    requires |pid| <= 20 && |key| <= 200 && |limit| <= 20 && |page| <= 20 && |offset| <= 20
    ensures var m: Fields := map["pid" := pid] + map["limit" := limit, "page" := page, "offset" := offset];
            ShortFields(WithField(WithField(m, "key", key), "act", "orders"), 6)
  {
    var a: Fields, b: Fields := map["pid" := pid], map["limit" := limit, "page" := page, "offset" := offset];
    PageNumbersShort(limit, page, offset);
    ShortUnion(a, b, 1, 3);
    ShortWithField(a + b, 4, "key", key);
    ShortWithField(WithField(a + b, "key", key), 5, "act", "orders");
  }

  /** Keys of up to 200 bytes always fit; the gateway's keys have 32. */
  lemma ShortKeysFit(client: Client, limit: nat, maxPages: nat)
    requires |client.key| <= 200 && client.pid <= 0xFFFF_FFFF_FFFF_FFFF && limit <= 50 && maxPages <= U32_MAX
    ensures AllFit(client, limit, maxPages)
  {
    forall page | 1 <= page <= maxPages ensures Fits(PageRequest(client, limit, page)) {
      OnPagesGrows(page - 1, U32_MAX, limit);
      assert OnPages(U32_MAX, limit) <= 50 * U32_MAX;
      PageFits(client, limit, page, OnPages(page - 1, limit));
    }
  }

  lemma PageFits(client: Client, limit: nat, page: nat, offset: nat)
    requires page >= 1 && offset == OnPages(page - 1, limit)
    requires |client.key| <= 200 && client.pid <= 0xFFFF_FFFF_FFFF_FFFF
    requires limit <= 50 && page <= U32_MAX && offset <= 50 * U32_MAX
    ensures Fits(PageRequest(client, limit, page))
  {
    ShortNumeral(client.pid);
    ShortNumeral(limit);
    ShortNumeral(page);
    ShortNumeral(offset);
    PageFieldsShort(Numeral(client.pid), client.key, Numeral(limit), Numeral(page), Numeral(offset));
    ShortFieldsFit(PageRequest(client, limit, page).query);
  }

  // ---- A server that does not fail ----

  /** The body is within the limit and lists exactly these orders. */
  predicate Lists(client: Client, outcome: Outcome, rows: seq<Order>) {
    && outcome.Ok? && |outcome.value| <= client.maxBytes
    && client.decode(outcome.value).Ok?
    && client.decode(outcome.value).value.count >= 0 && client.decode(outcome.value).value.orders == rows
  }

  /** Every page request of the run is answered with the requested orders. */
  ghost predicate Serves(client: Client, answer: Answers, db: seq<Order>, limit: nat, maxPages: nat) {
    forall i, page {:trigger answer(i, PageRequest(client, limit, page))} :: 1 <= page <= maxPages ==>
      Lists(client, answer(i, PageRequest(client, limit, page)), PageOf(db, limit, page))
  }

  lemma FirstAnswerCounts(client: Client, answer: Answers, start: nat, request: Request, rows: seq<Order>)
    requires Fits(request) && Lists(client, answer(start, request), rows)
    ensures var list := GetResult(answer, start, request, client.policy, client.maxBytes, client.decode);
            list.Ok? && list.value.count >= 0 && list.value.orders == rows
  {
    assert Calls(answer, start, request, client.policy) == 1;
  }

  lemma CheckedList(check: Order -> bool, list: Result<OrderList, Error>, rows: seq<Order>)
    requires list.Ok? && list.value.count >= 0 && list.value.orders == rows
    ensures CheckList(check, list).Ok? <==> AllPass(rows, check)
    ensures CheckList(check, list).Ok? ==> CheckList(check, list).value == rows
  {
  }

  lemma PageDelivered(client: Client, answer: Answers, db: seq<Order>, start: nat, limit: nat, page: nat, maxPages: nat)
    requires Serves(client, answer, db, limit, maxPages) && AllFit(client, limit, maxPages) && 1 <= page <= maxPages
    ensures var rows := PagesOf(client, answer, limit)(start, page).0;
            && (rows.Ok? <==> AllPass(PageOf(db, limit, page), RowCheck(client)))
            && (rows.Ok? ==> rows.value == PageOf(db, limit, page))
  {
    var request, rows := PageRequest(client, limit, page), PageOf(db, limit, page);
    assert Lists(client, answer(start, request), rows);
    FirstAnswerCounts(client, answer, start, request, rows);
    CheckedList(RowCheck(client), GetResult(answer, start, request, client.policy, client.maxBytes, client.decode),
                rows);
  }

  lemma GatewayIsReliable(client: Client, answer: Answers, db: seq<Order>, limit: nat, maxPages: nat)
    requires Serves(client, answer, db, limit, maxPages) && AllFit(client, limit, maxPages)
    ensures Honest(PagesOf(client, answer, limit), db, limit, maxPages)
    ensures Reliable(PagesOf(client, answer, limit), db, limit, maxPages, RowCheck(client))
  {
    var fetch := PagesOf(client, answer, limit);
    forall start, page | 1 <= page <= maxPages
      ensures fetch(start, page).0.Ok? <==> AllPass(PageOf(db, limit, page), RowCheck(client))
      ensures fetch(start, page).0.Ok? ==> fetch(start, page).0.value == PageOf(db, limit, page)
    {
      PageDelivered(client, answer, db, start, limit, page, maxPages);
    }
  }

  lemma PagesSucceedIff(client: Client, answer: Answers, db: seq<Order>, start: nat, limit: nat, maxPages: nat)
    requires 1 <= limit <= 50 && BoundReached(db, limit, maxPages)
    requires Serves(client, answer, db, limit, maxPages) && AllFit(client, limit, maxPages)
    ensures RunEnds(PagesOf(client, answer, limit), start, limit, maxPages)
    ensures var r := AllOrders(PagesOf(client, answer, limit), start, limit, maxPages);
            && (r.Ok? <==> AllPass(FirstPages(db, limit, maxPages), RowCheck(client)))
            && (r.Ok? ==> r.value == FirstPages(db, limit, maxPages))
  {
    var fetch := PagesOf(client, answer, limit);
    GatewayIsReliable(client, answer, db, limit, maxPages);
    RunIsPrefix(fetch, db, start, limit, maxPages);
    RunSucceedsIff(fetch, db, start, limit, maxPages, RowCheck(client));
  }

  /**
    The client against a server that answers every page request of the run: it succeeds exactly when
    all rows it covers pass `validate_row` for the configured merchant, and then returns all of them.
   */
  lemma ClientSucceedsIff(client: Client, answer: Answers, db: seq<Order>, start: nat, limit: nat, maxPages: nat)
    requires BoundReached(db, ClampLimit(limit), maxPages)
    requires Serves(client, answer, db, ClampLimit(limit), maxPages) && AllFit(client, ClampLimit(limit), maxPages)
    ensures RunEnds(PagesOf(client, answer, ClampLimit(limit)), start, ClampLimit(limit), maxPages)
    ensures var r := AllOrders(PagesOf(client, answer, ClampLimit(limit)), start, ClampLimit(limit), maxPages);
            var covered := FirstPages(db, ClampLimit(limit), maxPages);
            && (r.Ok? <==> forall row :: row in covered ==> RowValid(client.pid, row, client.wide))
            && (r.Ok? ==> r.value == covered)
  {
    var covered := FirstPages(db, ClampLimit(limit), maxPages);
    CheckIsRowValid(client, covered);
    PagesSucceedIff(client, answer, db, start, ClampLimit(limit), maxPages);
  }

  // ---- Such servers exist, for every list ----

  /** Answers with the page number, which `ListingClient` decodes into that page. */
  function ListingAnswers(): Answers {
    (i: nat, request: Request) => Ok(GetField(request.query, "page").GetOr([]))
  }

  function Listed(db: seq<Order>, limit: nat, body: Bytes): OrderList {
    OrderList(0, if body != [] && AllDigits(body) && NumeralValue(body) >= 1
                 then PageOf(db, limit, NumeralValue(body)) else [])
  }

  lemma ServersExist(client: Client, db: seq<Order>, limit: nat, maxPages: nat)
    requires maxPages <= U32_MAX && client.maxBytes >= 20
    requires client.decode == (body => Ok(Listed(db, limit, body)))
    ensures Serves(client, ListingAnswers(), db, limit, maxPages)
  {
    forall i, page | 1 <= page <= maxPages
      ensures Lists(client, ListingAnswers()(i, PageRequest(client, limit, page)), PageOf(db, limit, page))
    {
      PageFieldsSent(client, limit, page);
      ShortNumeral(page);
      NumeralReads(page);
    }
  }
}
