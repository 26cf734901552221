/** The transport seen by the client, and the bounded body reader of the built-in one. */
module Transports {
  import opened Wrappers
  import opened ByteStrings
  import opened SortedMaps
  import opened Errors

  datatype Verb = Get | Post

  /** A request without the gateway's base URL. */
  datatype Request = Request(verb: Verb, endpoint: Endpoint, query: Fields, form: Fields)

  type Outcome = Result<Bytes, Error>

  /** `map_err(Error::sanitized)`. */
  function Sanitize(outcome: Outcome): Outcome {
    match outcome
    case Ok(body) => Ok(body)
    case Err(e) => Err(e.Sanitized())
  }

  predicate Retryable(outcome: Outcome) { outcome.Err? && outcome.error.IsRetryable() }

  /** Redaction never changes whether a failure may be retried, and is done once and for all. */
  lemma SanitizeKeepsOutcome(outcome: Outcome)
    ensures Retryable(Sanitize(outcome)) <==> Retryable(outcome)
    ensures Sanitize(Sanitize(outcome)) == Sanitize(outcome)
  {
    if outcome.Err? { SanitizedIsStable(outcome.error); }
  }

  /**
    Any server behind any network: the outcome of a request is an arbitrary function of the
    position of the request in the run and of the request itself.  Requests and sleeps are recorded.
   */
  class Transport {
    const respond: (nat, Request) -> Outcome
    /** The outcomes as the client sees them, sanitized. */
    const answer: (nat, Request) -> Outcome
    var requests: seq<Request>
    var sleeps: seq<nat>

    ghost predicate Valid() {
      forall i, r {:trigger respond(i, r)} :: answer(i, r) == Sanitize(respond(i, r))
    }

    constructor (respond: (nat, Request) -> Outcome)
      ensures Valid() && this.respond == respond && requests == [] && sleeps == []
    {
      this.respond := respond;
      this.answer := (i, r) => Sanitize(respond(i, r));
      requests := [];
      sleeps := [];
    }

    /** One request; the error, if any, is sanitized. */
    method Send(request: Request) returns (outcome: Outcome)
      requires Valid()
      modifies this`requests
      ensures requests == old(requests) + [request]
      ensures outcome == answer(|old(requests)|, request)
    {
      outcome := Sanitize(respond(|requests|, request));
      requests := requests + [request];
    }

    method Sleep(duration: nat)
      modifies this`sleeps
      ensures sleeps == old(sleeps) + [duration]
    {
      sleeps := sleeps + [duration];
    }
  }

  function Repeat<T>(x: T, n: nat): (xs: seq<T>)
    ensures |xs| == n && forall y :: y in xs ==> y == x
  {
    if n == 0 then [] else Repeat(x, n - 1) + [x]
  }

  // ---- Bounded bodies ----

  function ReadChunks(body: Bytes, chunks: seq<Outcome>, limit: nat): Outcome
    decreases |chunks|
  {
    if chunks == [] then Ok(body)
    else
      match chunks[0]
      case Err(e) => Err(e)
      case Ok(chunk) =>
        if |body| + |chunk| > limit then Err(ResponseTooLarge(limit))
        else ReadChunks(body + chunk, chunks[1..], limit)
  }

  predicate IsSuccess(status: nat) { 200 <= status < 300 }

  /** `preview` stands for the redacted, shortened text of a body. */
  function ReadBody(status: nat, contentLength: Option<nat>, chunks: seq<Outcome>, limit: nat,
                    preview: Bytes -> Bytes): Outcome
  {
    if contentLength.Some? && contentLength.value > limit then Err(ResponseTooLarge(limit))
    else
      match ReadChunks([], chunks, limit)
      case Err(e) => Err(e)
      case Ok(body) => if IsSuccess(status) then Ok(body) else Err(Http(status, preview(body)))
  }

  /** `read_response`; `held` is the largest buffer at any time, which never exceeds the limit. */
  method ReadResponse(status: nat, contentLength: Option<nat>, chunks: seq<Outcome>, limit: nat,
                      preview: Bytes -> Bytes)
    returns (r: Outcome, ghost held: nat)
    ensures r == ReadBody(status, contentLength, chunks, limit, preview)
    ensures held <= limit
    ensures r.Ok? ==> |r.value| == held
  {
    held := 0;
    if contentLength.Some? && contentLength.value > limit { return Err(ResponseTooLarge(limit)), held; }
    var body: Bytes := [];
    for i := 0 to |chunks|
      invariant |body| == held <= limit
      invariant ReadChunks([], chunks, limit) == ReadChunks(body, chunks[i..], limit)
    {
      assert chunks[i..][1..] == chunks[i + 1..];
      if chunks[i].Err? { return Err(chunks[i].error), held; }
      if |body| + |chunks[i].value| > limit { return Err(ResponseTooLarge(limit)), held; }
      body := body + chunks[i].value;
      held := |body|;
    }
    if !IsSuccess(status) { return Err(Http(status, preview(body))), held; }
    r := Ok(body);
  }

  /** All chunks one after the other; chunks that failed contribute nothing. */
  function Concat(chunks: seq<Outcome>): Bytes {
    if chunks == [] then []
    else (match chunks[0] case Ok(c) => c case Err(_) => []) + Concat(chunks[1..])
  }

  lemma {:induction false} ReadChunksIff(body: Bytes, chunks: seq<Outcome>, limit: nat)
    requires |body| <= limit
    ensures ReadChunks(body, chunks, limit).Ok? <==>
              (forall c :: c in chunks ==> c.Ok?) && |body| + |Concat(chunks)| <= limit
    ensures ReadChunks(body, chunks, limit).Ok? ==>
              ReadChunks(body, chunks, limit) == Ok(body + Concat(chunks))
    decreases |chunks|
  {
    if chunks == [] {
      assert body + [] == body;
    } else {
      assert forall c :: c in chunks <==> c == chunks[0] || c in chunks[1..];
      match chunks[0]
      case Err(_) =>
      case Ok(chunk) =>
        if |body| + |chunk| <= limit {
          ReadChunksIff(body + chunk, chunks[1..], limit);
          assert (body + chunk) + Concat(chunks[1..]) == body + Concat(chunks);
        }
    }
  }

  /** A body is delivered exactly when it is complete, successful and within the limit. */
  lemma ReadBodyIff(status: nat, contentLength: Option<nat>, chunks: seq<Outcome>, limit: nat,
                    preview: Bytes -> Bytes)
    ensures ReadBody(status, contentLength, chunks, limit, preview).Ok? <==>
              && 200 <= status <= 299 && (contentLength.Some? ==> contentLength.value <= limit)
              && (forall c :: c in chunks ==> c.Ok?) && |Concat(chunks)| <= limit
    ensures ReadBody(status, contentLength, chunks, limit, preview).Ok? ==>
              ReadBody(status, contentLength, chunks, limit, preview) == Ok(Concat(chunks))
  {
    ReadChunksIff([], chunks, limit);
    assert [] + Concat(chunks) == Concat(chunks);
  }

  lemma {:induction false} ChunksBefore(body: Bytes, chunks: seq<Outcome>, limit: nat, i: nat)
    requires i < |chunks| && (forall c :: c in chunks[..i] ==> c.Ok?) && |body| + |Concat(chunks[..i])| <= limit
    ensures chunks[i].Err? ==> ReadChunks(body, chunks, limit) == Err(chunks[i].error)
    ensures chunks[i].Ok? && |body| + |Concat(chunks[..i])| + |chunks[i].value| > limit ==>
              ReadChunks(body, chunks, limit) == Err(ResponseTooLarge(limit))
    decreases i
  {
    if i > 0 {
      var rest := chunks[1..];
      assert chunks[..i][1..] == rest[..i - 1];
      assert chunks[0] == chunks[..i][0];
      assert forall c :: c in rest[..i - 1] ==> c in chunks[..i];
      ChunksBefore(body + chunks[0].value, rest, limit, i - 1);
    }
  }

  /**
    Which error it is: too long as soon as the announced or the received length exceeds the limit, the
    failure of a chunk before that, and the status of a complete body last.
   */
  lemma ReadBodyErrors(status: nat, contentLength: Option<nat>, chunks: seq<Outcome>, limit: nat,
                       preview: Bytes -> Bytes, i: nat)
    ensures contentLength.Some? && contentLength.value > limit ==>
              ReadBody(status, contentLength, chunks, limit, preview) == Err(ResponseTooLarge(limit))
    ensures (contentLength.Some? ==> contentLength.value <= limit) && i < |chunks|
            && (forall c :: c in chunks[..i] ==> c.Ok?) && |Concat(chunks[..i])| <= limit ==>
              && (chunks[i].Err? ==> ReadBody(status, contentLength, chunks, limit, preview) == Err(chunks[i].error))
              && (chunks[i].Ok? && |Concat(chunks[..i])| + |chunks[i].value| > limit ==>
                    ReadBody(status, contentLength, chunks, limit, preview) == Err(ResponseTooLarge(limit)))
    ensures (contentLength.Some? ==> contentLength.value <= limit) && !(200 <= status <= 299)
            && (forall c :: c in chunks ==> c.Ok?) && |Concat(chunks)| <= limit ==>
              ReadBody(status, contentLength, chunks, limit, preview) == Err(Http(status, preview(Concat(chunks))))
  {
    if i < |chunks| && (forall c :: c in chunks[..i] ==> c.Ok?) && |Concat(chunks[..i])| <= limit {
      ChunksBefore([], chunks, limit, i);
    }
    ReadChunksIff([], chunks, limit);
    assert [] + Concat(chunks) == Concat(chunks);
  }
}
