/** One gateway call: size bound, retries, response limit. */
module Clients {
  import opened Wrappers
  import opened ByteStrings
  import opened SortedMaps
  import opened ParamMaps
  import opened Errors
  import opened Retrying
  import opened Transports
  import Validation

  /** What the client sees of a server: see `Transport.answer`. */
  type Answers = (nat, Request) -> Outcome

  function EncodedSize(request: Request): nat {
    |Encode(request.query)| + if request.verb.Post? then |Encode(request.form)| else 0
  }

  predicate Fits(request: Request) {
    Validation.ValidateEncodedSize(EncodedSize(request)).Ok?
  }

  /** `finish`: the length check, then the caller's decoder. */
  function Finish<T>(outcome: Outcome, limit: nat, decode: Bytes -> Result<T, Error>): Result<T, Error> {
    match outcome
    case Err(e) => Err(e)
    case Ok(body) => if |body| > limit then Err(ResponseTooLarge(limit)) else decode(body)
  }

  predicate Again(policy: RetryPolicy, retries: nat, outcome: Outcome) {
    outcome.Err? && policy.ShouldRetry(retries, outcome.error)
  }

  /** How many attempts a GET makes from here on, `retries` having failed already. */
  function Attempts(answer: Answers, start: nat, request: Request, policy: RetryPolicy, retries: nat): (n: nat)
    requires retries <= policy.maxRetries
    ensures 1 <= n <= policy.maxRetries - retries + 1
    decreases policy.maxRetries - retries
  {
    if Again(policy, retries, answer(start, request))
    then 1 + Attempts(answer, start + 1, request, policy, retries + 1)
    else 1
  }

  function Calls(answer: Answers, start: nat, request: Request, policy: RetryPolicy): (n: nat)
    ensures n <= policy.maxRetries + 1
  {
    if Fits(request) then Attempts(answer, start, request, policy, 0) else 0
  }

  function GetResult<T>(answer: Answers, start: nat, request: Request, policy: RetryPolicy, limit: nat,
                        decode: Bytes -> Result<T, Error>)
    : Result<T, Error>
  {
    if !Fits(request) then Err(Param(Validation.RequestTooLarge))
    else Finish(answer(start + Calls(answer, start, request, policy) - 1, request), limit, decode)
  }

  /** What a run of `n` attempts leaves in the transport. */
  ghost predicate Ran(transport: Transport, requests: seq<Request>, sleeps: seq<nat>, request: Request,
                      policy: RetryPolicy, n: nat, slept: nat)
    reads transport
  {
    && transport.requests == requests + Repeat(request, n)
    && transport.sleeps == sleeps + policy.Backoffs(slept)
  }

  /** One attempt of a run. */
  method Attempt(transport: Transport, request: Request, policy: RetryPolicy, ghost requests: seq<Request>,
                 ghost sleeps: seq<nat>, ghost n: nat)
    returns (outcome: Outcome)
    requires transport.Valid() && Ran(transport, requests, sleeps, request, policy, n, n)
    modifies transport`requests
    ensures outcome == transport.answer(|requests| + n, request)
    ensures Ran(transport, requests, sleeps, request, policy, n + 1, n)
  {
    RepeatSnoc(requests, request, n);
    outcome := transport.Send(request);
  }

  /** The wait in front of the attempt after the first `n`. */
  method Wait(transport: Transport, request: Request, policy: RetryPolicy, retries: nat, ghost requests: seq<Request>,
              ghost sleeps: seq<nat>)
    requires retries >= 1 && policy.Valid() && Ran(transport, requests, sleeps, request, policy, retries, retries - 1)
    modifies transport`sleeps
    ensures Ran(transport, requests, sleeps, request, policy, retries, retries)
  {
    BackoffsSnoc(sleeps, policy, retries - 1);
    transport.Sleep(policy.Backoff(retries));
  }

  /** The retry loop of `get_json`. */
  method SendWithRetries(transport: Transport, request: Request, policy: RetryPolicy)
    returns (outcome: Outcome, ghost n: nat)
    requires policy.Valid() && transport.Valid()
    modifies transport
    ensures n == Attempts(transport.answer, |old(transport.requests)|, request, policy, 0)
    ensures outcome == transport.answer(|old(transport.requests)| + n - 1, request)
    ensures transport.requests == old(transport.requests) + Repeat(request, n)
    ensures transport.sleeps == old(transport.sleeps) + policy.Backoffs(n - 1)
  {
    ghost var requests, sleeps := transport.requests, transport.sleeps;
    NothingRan(requests, sleeps, request, policy);
    var retries := 0;
    while true
      invariant retries <= policy.maxRetries
      invariant Ran(transport, requests, sleeps, request, policy, retries, retries)
      invariant Attempts(transport.answer, |requests|, request, policy, 0)
             == retries + Attempts(transport.answer, |requests| + retries, request, policy, retries)
      decreases policy.maxRetries - retries
    {
      outcome := Attempt(transport, request, policy, requests, sleeps, retries);
      if outcome.Ok? || !policy.ShouldRetry(retries, outcome.error) {
        n := retries + 1;
        return;
      }
      retries := retries + 1;
      Wait(transport, request, policy, retries, requests, sleeps);
    }
  }

  lemma NothingRan(requests: seq<Request>, sleeps: seq<nat>, request: Request, policy: RetryPolicy)
    ensures requests + Repeat(request, 0) == requests && sleeps + policy.Backoffs(0) == sleeps
  {
  }

  lemma ResultWhenFits<T>(answer: Answers, start: nat, request: Request, policy: RetryPolicy, limit: nat,
                          decode: Bytes -> Result<T, Error>)
    ensures Fits(request) ==>
              && Calls(answer, start, request, policy) == Attempts(answer, start, request, policy, 0)
              && GetResult(answer, start, request, policy, limit, decode)
              == Finish(answer(start + Attempts(answer, start, request, policy, 0) - 1, request), limit, decode)
    ensures !Fits(request) ==>
              && Calls(answer, start, request, policy) == 0
              && GetResult(answer, start, request, policy, limit, decode) == Err(Param(Validation.RequestTooLarge))
  {
  }

  /** `get_json`. */
  method GetJson<T>(transport: Transport, request: Request, policy: RetryPolicy, limit: nat,
                    decode: Bytes -> Result<T, Error>)
    returns (r: Result<T, Error>)
    requires policy.Valid() && transport.Valid() && request.verb.Get?
    modifies transport
    ensures r == GetResult(transport.answer, |old(transport.requests)|, request, policy, limit, decode)
    ensures var n := Calls(transport.answer, |old(transport.requests)|, request, policy);
            && transport.requests == old(transport.requests) + Repeat(request, n)
            && transport.sleeps == old(transport.sleeps) + policy.Backoffs(if n == 0 then 0 else n - 1)
  {
    ResultWhenFits(transport.answer, |transport.requests|, request, policy, limit, decode);
    var fits := Fits(request);
    if !fits {
      NothingRan(transport.requests, transport.sleeps, request, policy);
      return Err(Param(Validation.RequestTooLarge));
    }
    var outcome, n := SendWithRetries(transport, request, policy);
    r := Finish(outcome, limit, decode);
  }

  /** `post_json`: exactly one call, no sleep. */
  method PostJson<T>(transport: Transport, request: Request, limit: nat, decode: Bytes -> Result<T, Error>)
    returns (r: Result<T, Error>)
    requires transport.Valid() && request.verb.Post?
    modifies transport`requests
    ensures !Fits(request) ==>
              r == Err(Param(Validation.RequestTooLarge)) && transport.requests == old(transport.requests)
    ensures Fits(request) ==>
              && transport.requests == old(transport.requests) + [request]
              && r == Finish(transport.answer(|old(transport.requests)|, request), limit, decode)
    ensures Fits(request) ==>
              match transport.answer(|old(transport.requests)|, request)
              case Err(e) => r == Err(e)
              case Ok(body) => r == if |body| > limit then Err(ResponseTooLarge(limit)) else decode(body)
  {
    if !Fits(request) { return Err(Param(Validation.RequestTooLarge)); }
    var attempt := transport.Send(request);
    r := Finish(attempt, limit, decode);
  }

  lemma RepeatSnoc(base: seq<Request>, request: Request, n: nat)
    ensures base + Repeat(request, n) + [request] == base + Repeat(request, n + 1)
  {
    assert Repeat(request, n + 1) == Repeat(request, n) + [request];
  }

  lemma BackoffsSnoc(base: seq<nat>, policy: RetryPolicy, n: nat)
    ensures base + policy.Backoffs(n) + [policy.Backoff(n + 1)] == base + policy.Backoffs(n + 1)
  {
    assert policy.Backoffs(n + 1) == policy.Backoffs(n) + [policy.Backoff(n + 1)];
  }

  /**
    The number of attempts, without the loop: all outcomes but the last are retryable failures, and
    the last is a body, another failure, or the last one the policy permits.
   */
  lemma {:induction false} AttemptsIff(answer: Answers, start: nat, request: Request, policy: RetryPolicy,
                                       retries: nat, n: nat)
    requires retries <= policy.maxRetries
    ensures Attempts(answer, start, request, policy, retries) == n <==>
              && 1 <= n <= policy.maxRetries - retries + 1
              && (forall i :: start <= i < start + n - 1 ==> Retryable(answer(i, request)))
              && (Retryable(answer(start + n - 1, request)) ==> n == policy.maxRetries - retries + 1)
    decreases policy.maxRetries - retries
  {
    if Retryable(answer(start, request)) && retries < policy.maxRetries {
      if n >= 2 {
        AttemptsIff(answer, start + 1, request, policy, retries + 1, n - 1);
        assert (forall i :: start <= i < start + n - 1 ==> Retryable(answer(i, request))) <==>
               (forall i :: start + 1 <= i < start + n - 1 ==> Retryable(answer(i, request)));
      }
    } else if n >= 2 {
      assert Attempts(answer, start, request, policy, retries) == 1;
      assert !Retryable(answer(start, request)) || policy.maxRetries == retries;
    }
  }

  // ---- Which failures are repeated, and what a call returns ----

  /** The gateway's application did not see the request: no connection, no answer in time, or a gateway error. */
  predicate Transient(outcome: Outcome) {
    && outcome.Err?
    && match outcome.error
       case Transport(kind, _) => kind == Timeout || kind == Connect
       case Http(status, _) => status == 502 || status == 503 || status == 504
       case _ => false
  }

  /** Exactly these are repeated, sanitized or not. */
  lemma TransientIff(outcome: Outcome)
    ensures Retryable(outcome) <==> Transient(outcome)
    ensures Transient(Sanitize(outcome)) <==> Transient(outcome)
  {
  }

  /** All other failures, by their kind. */
  predicate Lasting(error: Error) {
    match error
    case Transport(kind, _) => kind in {Redirect, TransportErrorKind.Body, TransportErrorKind.Request, Other}
    case Http(status, _) => status < 502 || status > 504
    case _ => true
  }

  /** A request is sent exactly when its encoded query and, for a POST, its form have at most 4096 bytes together. */
  lemma FitsIff(request: Request)
    ensures request.verb.Get? ==> (Fits(request) <==> |Encode(request.query)| <= 4096)
    ensures request.verb.Post? ==> (Fits(request) <==> |Encode(request.query)| + |Encode(request.form)| <= 4096)
  {
  }

  lemma OversizedIsRefused<T>(answer: Answers, start: nat, request: Request, policy: RetryPolicy, limit: nat,
                              decode: Bytes -> Result<T, Error>)
    requires request.verb.Get? && |Encode(request.query)| > 4096
    ensures Calls(answer, start, request, policy) == 0
    ensures GetResult(answer, start, request, policy, limit, decode) == Err(Param(Validation.RequestTooLarge))
  {
    FitsIff(request);
    ResultWhenFits(answer, start, request, policy, limit, decode);
  }

  /** The first `n` answers of a call are transient failures. */
  ghost predicate FirstFail(answer: Answers, start: nat, request: Request, n: nat) {
    forall i :: start <= i < start + n ==> Transient(answer(i, request))
  }

  lemma EndsAt(answer: Answers, start: nat, request: Request, policy: RetryPolicy, n: nat)
    requires request.verb.Get? && |Encode(request.query)| <= 4096
    requires n <= policy.maxRetries && FirstFail(answer, start, request, n)
    requires !Transient(answer(start + n, request)) || n == policy.maxRetries
    ensures Fits(request) && Attempts(answer, start, request, policy, 0) == n + 1
  {
    FitsIff(request);
    AllRetried(answer, start, request, n);
    TransientIff(answer(start + n, request));
    AttemptsIff(answer, start, request, policy, 0, n + 1);
  }

  lemma AllRetried(answer: Answers, start: nat, request: Request, n: nat)
    requires FirstFail(answer, start, request, n)
    ensures forall i :: start <= i < start + n ==> Retryable(answer(i, request))
  {
    forall i | start <= i < start + n ensures Retryable(answer(i, request)) { TransientIff(answer(i, request)); }
  }

  /** The result of a call of `n + 1` attempts is that of the last one. */
  lemma ResultAt<T>(answer: Answers, start: nat, request: Request, policy: RetryPolicy, limit: nat,
                    decode: Bytes -> Result<T, Error>, n: nat, last: Outcome)
    requires Fits(request) && Attempts(answer, start, request, policy, 0) == n + 1
    requires answer(start + n, request) == last
    ensures Calls(answer, start, request, policy) == n + 1
    ensures GetResult(answer, start, request, policy, limit, decode) == Finish(last, limit, decode)
  {
    var attempts := Attempts(answer, start, request, policy, 0);
    assert start + attempts - 1 == start + n;
    ResultWhenFits(answer, start, request, policy, limit, decode);
  }

  lemma LastingIsFinal(error: Error)
    requires Lasting(error)
    ensures !Transient(Err(error))
  {
  }

  /** Transient failures, as many as there are retries at most, cost one call each; then the body decides. */
  lemma BodyAfterFailures<T>(answer: Answers, start: nat, request: Request, policy: RetryPolicy, limit: nat,
                             decode: Bytes -> Result<T, Error>, n: nat, body: Bytes)
    requires request.verb.Get? && |Encode(request.query)| <= 4096
    requires n <= policy.maxRetries && FirstFail(answer, start, request, n) && answer(start + n, request) == Ok(body)
    ensures Calls(answer, start, request, policy) == n + 1
    ensures |body| <= limit ==> GetResult(answer, start, request, policy, limit, decode) == decode(body)
    ensures |body| > limit ==>
              GetResult(answer, start, request, policy, limit, decode) == Err(ResponseTooLarge(limit))
  {
    EndsAt(answer, start, request, policy, n);
    ResultAt(answer, start, request, policy, limit, decode, n, Ok(body));
  }

  /** A failure of any other kind is final, at the first call or later. */
  lemma LastingFailureIsFinal<T>(answer: Answers, start: nat, request: Request, policy: RetryPolicy, limit: nat,
                                 decode: Bytes -> Result<T, Error>, n: nat, error: Error)
    requires request.verb.Get? && |Encode(request.query)| <= 4096
    requires n <= policy.maxRetries && FirstFail(answer, start, request, n)
    requires answer(start + n, request) == Err(error) && Lasting(error)
    ensures Calls(answer, start, request, policy) == n + 1
    ensures GetResult(answer, start, request, policy, limit, decode) == Err(error)
  {
    LastingIsFinal(error);
    EndsAt(answer, start, request, policy, n);
    ResultAt(answer, start, request, policy, limit, decode, n, Err(error));
  }

  /** When every permitted attempt fails, the last failure is returned. */
  lemma RetriesRunOut<T>(answer: Answers, start: nat, request: Request, policy: RetryPolicy, limit: nat,
                         decode: Bytes -> Result<T, Error>, error: Error)
    requires request.verb.Get? && |Encode(request.query)| <= 4096
    requires FirstFail(answer, start, request, policy.maxRetries + 1)
    requires answer(start + policy.maxRetries, request) == Err(error)
    ensures Calls(answer, start, request, policy) == policy.maxRetries + 1
    ensures GetResult(answer, start, request, policy, limit, decode) == Err(error)
  {
    EndsAt(answer, start, request, policy, policy.maxRetries);
    ResultAt(answer, start, request, policy, limit, decode, policy.maxRetries, Err(error));
  }
}
