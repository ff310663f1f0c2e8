/** The Gemini service wrapper of services/geminiService.ts: the retry and
    fallback policy around every remote call, the choice of model and
    thinking budget for metadata generation, and the parser that turns the
    trend search answer into keywords. The remote call itself is an oracle
    `respond(k, request)`: the outcome of the k-th attempt (counting from
    0) made with that request. Waiting is recorded, not performed. */
module Gemini {
  import opened Types
  import opened Text

  const ProModel := "gemini-3-pro-preview"
  const LiteModel := "gemini-flash-lite-latest"
  /** The fallback model of the retry policy, also the trend search model. */
  const FlashModel := "gemini-2.5-flash"
  const ThinkingBudget: nat := 2048
  /** The default of the `retries` parameter; no caller passes another. */
  const DefaultRetries: nat := 3

  /** What is sent: an image to analyse, or the trend query text. */
  datatype Contents = ImageAnalysis(image: nat, mime: string) | TrendQuery(keywords: string)

  /** The request parameters: model, contents, whether the JSON schema is
      requested, the thinking budget if any, and whether search grounding
      is on. */
  datatype Request = Request(model: string, contents: Contents, json: bool, thinking: Option<nat>, search: bool)

  /** A thrown error: its `status` (absent when undefined) and `message`
      (empty when undefined). */
  datatype ApiError = ApiError(status: Option<int>, message: string)

  /** One attempt: the response text (empty when the response has none) or
      the error thrown. */
  datatype Outcome = Success(text: string) | Failure(error: ApiError)

  datatype GenError = InvalidKey | QuotaExceeded | Rethrown(error: ApiError)

  /** What happened between two attempts. */
  datatype Retry = FellBack | Backoff(delay: nat)

  /** A whole call: its result, every request sent, in order, and what
      happened before each attempt after the first. */
  datatype Trace = Trace(result: Result<string, GenError>, attempts: seq<Request>, retries: seq<Retry>)

  // ---------------------------------------------------------------------
  // Classification of errors

  predicate IsInvalidKey(e: ApiError) {
    Contains(e.message, "API key not valid") || Contains(e.message, "API_KEY_INVALID")
  }

  predicate IsQuota(e: ApiError) {
    e.status == Some(429) || Contains(e.message, "429") || Contains(e.message, "quota")
    || Contains(e.message, "RESOURCE_EXHAUSTED")
  }

  predicate IsServer(e: ApiError) {
    e.status.Some? && e.status.value >= 500
  }

  /** The request of the fallback attempt: the flash model, no thinking
      configuration, everything else kept. */
  function Fallback(req: Request): (r: Request)
    ensures r.model == FlashModel && r.thinking.None?
    ensures r.contents == req.contents && r.json == req.json && r.search == req.search
  {
    req.(model := FlashModel, thinking := None)
  }

  function Pow2(n: nat): (r: nat)
    ensures r >= 1
  {
    if n == 0 then 1 else 2 * Pow2(n - 1)
  }

  /** `Math.pow(2, 4 - retries) * 1000`. */
  function BackoffDelay(retries: nat): nat
    requires retries <= 4
  {
    Pow2(4 - retries) * 1000
  }

  /** The delays waited before a retry: 1, 2, 4 and 8 seconds with 4, 3, 2
      and 1 retries left. With no retries left nothing is retried, so the
      formula's value there, 16 seconds, is never waited. */
  lemma BackoffSchedule()
    ensures BackoffDelay(4) == 1000 && BackoffDelay(3) == 2000 && BackoffDelay(2) == 4000
    ensures BackoffDelay(1) == 8000 && BackoffDelay(0) == 16000
  {
  }

  // ---------------------------------------------------------------------
  // The policy as a recursive definition

  /** What is done after a failed attempt with `retries` retries left. */
  datatype Decision = Stop(error: GenError) | Again(step: Retry, next: Request, pro: bool)

  /** The handling of one error: an invalid key is fatal before anything
      else is looked at; a quota or server error is retried while retries
      are left, by falling back when it is a quota error in pro mode and by
      backing off otherwise; with no retries left a quota error becomes
      the quota error and anything else is rethrown. */
  function Decide(e: ApiError, req: Request, pro: bool, retries: nat): (d: Decision)
    requires retries <= 4
    ensures d.Again? ==> retries > 0
  {
    if IsInvalidKey(e) then Stop(InvalidKey)
    else if (IsQuota(e) || IsServer(e)) && retries > 0 then
      if IsQuota(e) && pro then Again(FellBack, Fallback(req), false)
      else Again(Backoff(BackoffDelay(retries)), req, pro)
    else if IsQuota(e) then Stop(QuotaExceeded)
    else Stop(Rethrown(e))
  }

  /** What `generateWithRetry(params, isProMode, retries)` does when its
      k-th attempt is made with `req`. */
  function Run(req: Request, pro: bool, retries: nat, k: nat, respond: (nat, Request) -> Outcome): (t: Trace)
    requires retries <= 4
    ensures |t.attempts| == |t.retries| + 1 <= retries + 1
    ensures t.attempts[0] == req
    decreases retries
  {
    match respond(k, req)
    case Success(text) => Trace(Ok(text), [req], [])
    case Failure(e) =>
      match Decide(e, req, pro, retries)
      case Stop(err) => Trace(Err(err), [req], [])
      case Again(step, next, pro') =>
        var rest := Run(next, pro', retries - 1, k + 1, respond);
        Trace(rest.result, [req] + rest.attempts, [step] + rest.retries)
  }

  /** A trace with earlier attempts and retries put in front. */
  function Behind(attempts: seq<Request>, retries: seq<Retry>, t: Trace): Trace {
    Trace(t.result, attempts + t.attempts, retries + t.retries)
  }

  /** One retried attempt unfolds the policy by one step. */
  lemma RunStep(req: Request, pro: bool, retries: nat, k: nat, respond: (nat, Request) -> Outcome)
    requires retries <= 4
    requires respond(k, req).Failure?
    requires Decide(respond(k, req).error, req, pro, retries).Again?
    ensures var d := Decide(respond(k, req).error, req, pro, retries);
            Run(req, pro, retries, k, respond) == Behind([req], [d.step], Run(d.next, d.pro, retries - 1, k + 1, respond))
  {
  }

  lemma BehindTwice(a: seq<Request>, s: seq<Retry>, b: seq<Request>, u: seq<Retry>, t: Trace)
    ensures Behind(a, s, Behind(b, u, t)) == Behind(a + b, s + u, t)
  {
    assert a + (b + t.attempts) == (a + b) + t.attempts;
    assert s + (u + t.retries) == (s + u) + t.retries;
  }

  /** `generateWithRetry`, with its recursion written as a loop over the
      request, the pro-mode flag and the remaining retries. */
  method GenerateWithRetry(params: Request, isProMode: bool, retries: nat, respond: (nat, Request) -> Outcome)
    returns (t: Trace)
    requires retries <= 4
    ensures t == Run(params, isProMode, retries, 0, respond)
  {
    var req, pro, left, k := params, isProMode, retries, 0;
    var attempts: seq<Request> := [];
    var steps: seq<Retry> := [];
    while true
      invariant left <= 4
      invariant Run(params, isProMode, retries, 0, respond) == Behind(attempts, steps, Run(req, pro, left, k, respond))
      decreases left
    {
      var outcome := respond(k, req);
      if outcome.Success? {
        return Trace(Ok(outcome.text), attempts + [req], steps);
      }
      var e := outcome.error;
      ghost var d := Decide(e, req, pro, left);
      if IsInvalidKey(e) {
        assert d == Stop(InvalidKey);
        return Trace(Err(InvalidKey), attempts + [req], steps);
      }
      var isQuota := IsQuota(e);
      var isServer := IsServer(e);
      if (isQuota || isServer) && left > 0 {
        RunStep(req, pro, left, k, respond);
        BehindTwice(attempts, steps, [req], [d.step], Run(d.next, d.pro, left - 1, k + 1, respond));
        attempts := attempts + [req];
        if isQuota && pro {
          assert d == Again(FellBack, Fallback(req), false);
          req, pro := Fallback(req), false;
          steps := steps + [FellBack];
        } else {
          assert d == Again(Backoff(BackoffDelay(left)), req, pro);
          steps := steps + [Backoff(BackoffDelay(left))];
        }
        left, k := left - 1, k + 1;
      } else if isQuota {
        assert d == Stop(QuotaExceeded);
        return Trace(Err(QuotaExceeded), attempts + [req], steps);
      } else {
        assert d == Stop(Rethrown(e));
        return Trace(Err(Rethrown(e)), attempts + [req], steps);
      }
    }
  }

  // ---------------------------------------------------------------------
  // What the policy promises

  /** The outcome of the i-th attempt of a trace that began at attempt k. */
  function OutcomeAt(t: Trace, k: nat, i: nat, respond: (nat, Request) -> Outcome): Outcome
    requires i < |t.attempts|
  {
    respond(k + i, t.attempts[i])
  }

  /** The cases of `Decide`, spelled out. */
  lemma DecideCases(e: ApiError, req: Request, pro: bool, retries: nat)
    requires retries <= 4
    ensures var d := Decide(e, req, pro, retries);
            && (d.Again? <==> !IsInvalidKey(e) && (IsQuota(e) || IsServer(e)) && retries > 0)
            && (d.Again? ==> (d.step == FellBack <==> IsQuota(e) && pro))
            && (d.Again? && d.step == FellBack ==> d.next == Fallback(req) && !d.pro)
            && (d.Again? && d.step.Backoff? ==> d.next == req && d.pro == pro && d.step.delay == BackoffDelay(retries))
            && (d.Stop? ==> (d.error == InvalidKey <==> IsInvalidKey(e)))
            && (d.Stop? ==> (d.error == QuotaExceeded <==> !IsInvalidKey(e) && IsQuota(e)))
            && (d.Stop? && !IsInvalidKey(e) && !IsQuota(e) ==> d.error == Rethrown(e))
  {
  }

  /** A failed attempt that the policy may retry. */
  predicate Retriable(o: Outcome) {
    o.Failure? && !IsInvalidKey(o.error) && (IsQuota(o.error) || IsServer(o.error))
  }

  /** How a call ends on its last outcome: with the text, the invalid-key
      error, the quota error for a quota error, or the error itself. */
  function Final(o: Outcome): Result<string, GenError> {
    match o
    case Success(text) => Ok(text)
    case Failure(e) =>
      if IsInvalidKey(e) then Err(InvalidKey)
      else if IsQuota(e) then Err(QuotaExceeded)
      else Err(Rethrown(e))
  }

  /** Whether the attempt k made with `req` is followed by another. */
  predicate Retried(req: Request, pro: bool, retries: nat, k: nat, respond: (nat, Request) -> Outcome)
    requires retries <= 4
  {
    respond(k, req).Failure? && Decide(respond(k, req).error, req, pro, retries).Again?
  }

  /** The next request, mode and retry of a retried attempt. */
  function Next(req: Request, pro: bool, retries: nat, k: nat, respond: (nat, Request) -> Outcome): (d: Decision)
    requires retries <= 4 && Retried(req, pro, retries, k, respond)
    ensures d.Again? && retries > 0
  {
    Decide(respond(k, req).error, req, pro, retries)
  }

  /** A retried attempt failed with a retriable error. */
  lemma RetriedRetriable(req: Request, pro: bool, retries: nat, k: nat, respond: (nat, Request) -> Outcome)
    requires retries <= 4 && Retried(req, pro, retries, k, respond)
    ensures Retriable(respond(k, req))
  {
    DecideCases(respond(k, req).error, req, pro, retries);
  }

  /** A call whose first attempt is not retried ends with that attempt:
      a retriable error ends it only when no retries are left. */
  lemma RunStop(req: Request, pro: bool, retries: nat, k: nat, respond: (nat, Request) -> Outcome)
    requires retries <= 4 && !Retried(req, pro, retries, k, respond)
    ensures var t := Run(req, pro, retries, k, respond);
            t.attempts == [req] && t.retries == [] && t.result == Final(respond(k, req))
    ensures Retriable(respond(k, req)) ==> retries == 0
  {
    if respond(k, req).Failure? {
      DecideCases(respond(k, req).error, req, pro, retries);
    }
  }

  /** The rest of a call after a retried attempt. */
  function Rest(req: Request, pro: bool, retries: nat, k: nat, respond: (nat, Request) -> Outcome): (t: Trace)
    requires retries <= 4 && Retried(req, pro, retries, k, respond)
    ensures Run(req, pro, retries, k, respond) == Behind([req], [Next(req, pro, retries, k, respond).step], t)
    ensures |t.attempts| == |t.retries| + 1 <= retries
    ensures var d := Next(req, pro, retries, k, respond);
            t == Run(d.next, d.pro, retries - 1, k + 1, respond) && t.attempts[0] == d.next
  {
    var d := Next(req, pro, retries, k, respond);
    RunStep(req, pro, retries, k, respond);
    Run(d.next, d.pro, retries - 1, k + 1, respond)
  }

  /** Indexing a trace with one attempt and one retry put in front. */
  lemma BehindOne(req: Request, step: Retry, rest: Trace, k: nat, respond: (nat, Request) -> Outcome)
    requires |rest.attempts| == |rest.retries| + 1
    ensures var t := Behind([req], [step], rest);
            && |t.attempts| == |rest.attempts| + 1 && |t.retries| == |rest.retries| + 1
            && t.attempts[0] == req && t.retries[0] == step
            && OutcomeAt(t, k, 0, respond) == respond(k, req)
            && (forall i :: 0 < i < |t.attempts| ==> t.attempts[i] == rest.attempts[i - 1])
            && (forall i :: 0 < i < |t.retries| ==> t.retries[i] == rest.retries[i - 1])
            && (forall i :: 0 < i < |t.attempts| ==> OutcomeAt(t, k, i, respond) == OutcomeAt(rest, k + 1, i - 1, respond))
  {
  }

  /** The result of `t` is what its last attempt gave. */
  predicate LastDecides(t: Trace, k: nat, respond: (nat, Request) -> Outcome) {
    |t.attempts| > 0 && t.result == Final(OutcomeAt(t, k, |t.attempts| - 1, respond))
  }

  /** A last attempt of `t` with a retriable error used all `retries`
      retries. */
  predicate ExhaustedIfRetriable(t: Trace, retries: nat, k: nat, respond: (nat, Request) -> Outcome) {
    |t.attempts| > 0 && (Retriable(OutcomeAt(t, k, |t.attempts| - 1, respond)) ==> |t.attempts| == retries + 1)
  }

  /** One attempt put in front keeps the last attempt and the result. */
  lemma LastBehind(req: Request, step: Retry, rest: Trace, retries: nat, k: nat, respond: (nat, Request) -> Outcome)
    requires |rest.attempts| == |rest.retries| + 1
    ensures LastDecides(rest, k + 1, respond) ==> LastDecides(Behind([req], [step], rest), k, respond)
    ensures ExhaustedIfRetriable(rest, retries, k + 1, respond) ==>
              ExhaustedIfRetriable(Behind([req], [step], rest), retries + 1, k, respond)
  {
    var t := Behind([req], [step], rest);
    assert t.attempts[|t.attempts| - 1] == rest.attempts[|rest.attempts| - 1];
  }

  /** Every attempt of `t` but the last failed with a retriable error. */
  predicate RetriedOnlyRetriable(t: Trace, k: nat, respond: (nat, Request) -> Outcome) {
    forall i :: 0 <= i < |t.attempts| - 1 ==> Retriable(OutcomeAt(t, k, i, respond))
  }

  lemma RetriableBehind(req: Request, step: Retry, rest: Trace, k: nat, respond: (nat, Request) -> Outcome)
    requires |rest.attempts| == |rest.retries| + 1
    requires Retriable(respond(k, req)) && RetriedOnlyRetriable(rest, k + 1, respond)
    ensures RetriedOnlyRetriable(Behind([req], [step], rest), k, respond)
  {
    var t := Behind([req], [step], rest);
    forall i | 0 <= i < |t.attempts| - 1 ensures Retriable(OutcomeAt(t, k, i, respond)) {
      if i > 0 {
        assert t.attempts[i] == rest.attempts[i - 1];
        assert OutcomeAt(t, k, i, respond) == OutcomeAt(rest, k + 1, i - 1, respond);
      }
    }
  }

  /** Every attempt but the last failed with a quota or server error that
      was not an invalid key; an invalid key ends the call at once. */
  lemma {:induction false} OnlyRetriableRetried(req: Request, pro: bool, retries: nat, k: nat, respond: (nat, Request) -> Outcome)
    requires retries <= 4
    ensures RetriedOnlyRetriable(Run(req, pro, retries, k, respond), k, respond)
    decreases retries
  {
    if Retried(req, pro, retries, k, respond) {
      var d := Next(req, pro, retries, k, respond);
      var rest := Rest(req, pro, retries, k, respond);
      OnlyRetriableRetried(d.next, d.pro, retries - 1, k + 1, respond);
      RetriedRetriable(req, pro, retries, k, respond);
      RetriableBehind(req, d.step, rest, k, respond);
    } else {
      RunStop(req, pro, retries, k, respond);
    }
  }

  /** The result is decided by the last attempt's outcome alone. */
  lemma {:induction false} ResultOfLastAttempt(req: Request, pro: bool, retries: nat, k: nat, respond: (nat, Request) -> Outcome)
    requires retries <= 4
    ensures LastDecides(Run(req, pro, retries, k, respond), k, respond)
    decreases retries
  {
    if Retried(req, pro, retries, k, respond) {
      var d := Next(req, pro, retries, k, respond);
      ResultOfLastAttempt(d.next, d.pro, retries - 1, k + 1, respond);
    }
    LastInduct(req, pro, retries, k, respond);
  }

  /** A retriable error ends a call only when no retries are left. */
  lemma {:induction false} RetriesExhausted(req: Request, pro: bool, retries: nat, k: nat, respond: (nat, Request) -> Outcome)
    requires retries <= 4
    ensures ExhaustedIfRetriable(Run(req, pro, retries, k, respond), retries, k, respond)
    decreases retries
  {
    if Retried(req, pro, retries, k, respond) {
      var d := Next(req, pro, retries, k, respond);
      RetriesExhausted(d.next, d.pro, retries - 1, k + 1, respond);
      LastStep(req, pro, retries, k, respond);
    } else {
      LastStop(req, pro, retries, k, respond);
    }
  }

  /** A retried attempt passes the last attempt of the rest of the call
      through. */
  lemma LastStep(req: Request, pro: bool, retries: nat, k: nat, respond: (nat, Request) -> Outcome)
    requires retries <= 4 && Retried(req, pro, retries, k, respond)
    ensures var d := Next(req, pro, retries, k, respond);
            var rest := Run(d.next, d.pro, retries - 1, k + 1, respond);
            var t := Run(req, pro, retries, k, respond);
            && (LastDecides(rest, k + 1, respond) ==> LastDecides(t, k, respond))
            && (ExhaustedIfRetriable(rest, retries - 1, k + 1, respond) ==> ExhaustedIfRetriable(t, retries, k, respond))
  {
    var d := Next(req, pro, retries, k, respond);
    var rest := Rest(req, pro, retries, k, respond);
    LastBehind(req, d.step, rest, retries - 1, k, respond);
  }

  lemma LastInduct(req: Request, pro: bool, retries: nat, k: nat, respond: (nat, Request) -> Outcome)
    requires retries <= 4
    requires Retried(req, pro, retries, k, respond) ==>
               var d := Next(req, pro, retries, k, respond);
               LastDecides(Run(d.next, d.pro, retries - 1, k + 1, respond), k + 1, respond)
    ensures LastDecides(Run(req, pro, retries, k, respond), k, respond)
  {
    if Retried(req, pro, retries, k, respond) {
      LastStep(req, pro, retries, k, respond);
    } else {
      LastStop(req, pro, retries, k, respond);
    }
  }

  /** A call that ends with its first attempt. */
  lemma LastStop(req: Request, pro: bool, retries: nat, k: nat, respond: (nat, Request) -> Outcome)
    requires retries <= 4 && !Retried(req, pro, retries, k, respond)
    ensures var t := Run(req, pro, retries, k, respond);
            LastDecides(t, k, respond) && ExhaustedIfRetriable(t, retries, k, respond)
  {
    RunStop(req, pro, retries, k, respond);
  }

  /** A retry falls back exactly when the error was a quota error in pro
      mode; it then leaves pro mode. */
  lemma NextCases(req: Request, pro: bool, retries: nat, k: nat, respond: (nat, Request) -> Outcome)
    requires retries <= 4 && Retried(req, pro, retries, k, respond)
    ensures var d := Next(req, pro, retries, k, respond);
            && (d.step == FellBack ==> pro && d.next == Fallback(req) && !d.pro)
            && (d.step.Backoff? ==> d.next == req && d.pro == pro && d.step.delay == BackoffDelay(retries))
  {
    DecideCases(respond(k, req).error, req, pro, retries);
  }

  /** No two steps are fallbacks. */
  predicate AtMostOneFallback(steps: seq<Retry>) {
    forall i, j :: 0 <= i < j < |steps| ==> !(steps[i].FellBack? && steps[j].FellBack?)
  }

  lemma FallbackBehind(step: Retry, steps: seq<Retry>)
    requires AtMostOneFallback(steps)
    requires step == FellBack ==> FellBack !in steps
    ensures AtMostOneFallback([step] + steps)
  {
    var s := [step] + steps;
    forall i, j | 0 <= i < j < |s| ensures !(s[i].FellBack? && s[j].FellBack?) {
      assert s[j] == steps[j - 1];
      if i > 0 {
        assert s[i] == steps[i - 1];
      } else if step == FellBack {
        assert steps[j - 1] in steps;
      }
    }
  }

  /** After a fallback the pro flag is off, so a call falls back at most
      once, and never when it starts outside pro mode. */
  lemma {:induction false} FallbackAtMostOnce(req: Request, pro: bool, retries: nat, k: nat, respond: (nat, Request) -> Outcome)
    requires retries <= 4
    ensures var t := Run(req, pro, retries, k, respond);
            (!pro ==> FellBack !in t.retries) && AtMostOneFallback(t.retries)
    decreases retries
  {
    if Retried(req, pro, retries, k, respond) {
      var d := Next(req, pro, retries, k, respond);
      var rest := Rest(req, pro, retries, k, respond);
      FallbackAtMostOnce(d.next, d.pro, retries - 1, k + 1, respond);
      NextCases(req, pro, retries, k, respond);
      FallbackBehind(d.step, rest.retries);
    } else {
      RunStop(req, pro, retries, k, respond);
    }
  }

  /** Each step links consecutive requests: a fallback sends the fallback
      request next, a backoff sends the same request again; the i-th step
      waits `BackoffDelay(retries - i)`. */
  lemma {:induction false} StepsLinkAttempts(req: Request, pro: bool, retries: nat, k: nat, respond: (nat, Request) -> Outcome)
    requires retries <= 4
    ensures AllLinked(Run(req, pro, retries, k, respond), retries)
    decreases retries
  {
    if Retried(req, pro, retries, k, respond) {
      var d := Next(req, pro, retries, k, respond);
      var rest := Rest(req, pro, retries, k, respond);
      StepsLinkAttempts(d.next, d.pro, retries - 1, k + 1, respond);
      NextCases(req, pro, retries, k, respond);
      BehindOne(req, d.step, rest, k, respond);
      LinkedBehind(req, d.step, rest, retries);
    } else {
      RunStop(req, pro, retries, k, respond);
    }
  }

  /** Putting a linked step in front of a linked trace links the whole. */
  lemma LinkedBehind(req: Request, step: Retry, rest: Trace, retries: nat)
    requires 0 < retries <= 4 && |rest.attempts| == |rest.retries| + 1 <= retries
    requires step == FellBack ==> rest.attempts[0] == Fallback(req)
    requires step.Backoff? ==> rest.attempts[0] == req && step.delay == BackoffDelay(retries)
    requires AllLinked(rest, retries - 1)
    ensures AllLinked(Behind([req], [step], rest), retries)
  {
    var t := Behind([req], [step], rest);
    forall i | 0 <= i <= |rest.retries| ensures Linked(t, retries, i) {
      if i > 0 {
        assert Linked(rest, retries - 1, i - 1);
        assert t.retries[i] == rest.retries[i - 1];
        assert t.attempts[i] == rest.attempts[i - 1];
        assert t.attempts[i + 1] == rest.attempts[i];
      }
    }
  }

  /** Step i of a trace that started with `retries` retries: a fallback
      is followed by the fallback request, a backoff by the same request
      after `BackoffDelay(retries - i)`. */
  predicate AllLinked(t: Trace, retries: nat)
    requires retries <= 4
  {
    && |t.attempts| == |t.retries| + 1 <= retries + 1
    && forall i :: 0 <= i < |t.retries| ==> Linked(t, retries, i)
  }

  predicate Linked(t: Trace, retries: nat, i: nat)
    requires retries <= 4
    requires |t.attempts| == |t.retries| + 1 <= retries + 1 && i < |t.retries|
  {
    && (t.retries[i] == FellBack ==> t.attempts[i + 1] == Fallback(t.attempts[i]))
    && (t.retries[i].Backoff? ==> t.attempts[i + 1] == t.attempts[i] && t.retries[i].delay == BackoffDelay(retries - i))
  }

  /** With the default three retries a call makes at most four attempts,
      and each backoff waits 2, 4 or 8 seconds, longer each time: the i-th
      step waits 2^(i+1) seconds. */
  lemma DefaultPolicy(req: Request, pro: bool, respond: (nat, Request) -> Outcome)
    ensures var t := Run(req, pro, DefaultRetries, 0, respond);
            && |t.attempts| <= 4
            && forall i :: 0 <= i < |t.retries| && t.retries[i].Backoff? ==>
                 t.retries[i].delay == [2000, 4000, 8000][i]
  {
    var t := Run(req, pro, DefaultRetries, 0, respond);
    StepsLinkAttempts(req, pro, DefaultRetries, 0, respond);
    forall i | 0 <= i < |t.retries| && t.retries[i].Backoff? ensures t.retries[i].delay == [2000, 4000, 8000][i] {
      assert Linked(t, DefaultRetries, i);
      DefaultDelay(i);
    }
  }

  lemma DefaultDelay(i: nat)
    requires i < 3
    ensures BackoffDelay(DefaultRetries - i) == [2000, 4000, 8000][i]
  {
    assert Pow2(1) == 2 && Pow2(2) == 4 && Pow2(3) == 8;
  }

  /** Outside pro mode every attempt repeats the first request. */
  lemma NoFallbackSameRequest(req: Request, retries: nat, k: nat, respond: (nat, Request) -> Outcome)
    requires retries <= 4
    ensures var t := Run(req, false, retries, k, respond);
            forall i :: 0 <= i < |t.attempts| ==> t.attempts[i] == req
  {
    var t := Run(req, false, retries, k, respond);
    FallbackAtMostOnce(req, false, retries, k, respond);
    StepsLinkAttempts(req, false, retries, k, respond);
    forall i | 0 <= i < |t.attempts| ensures t.attempts[i] == req {
      SameUpTo(t, retries, i);
    }
  }

  lemma {:induction false} SameUpTo(t: Trace, retries: nat, i: nat)
    requires retries <= 4 && |t.attempts| == |t.retries| + 1 <= retries + 1 && i < |t.attempts|
    requires AllLinked(t, retries)
    requires FellBack !in t.retries
    ensures t.attempts[i] == t.attempts[0]
  {
    if i > 0 {
      SameUpTo(t, retries, i - 1);
      assert Linked(t, retries, i - 1);
      assert t.retries[i - 1] in t.retries;
    }
  }

  // ---------------------------------------------------------------------
  // Metadata generation

  /** `apiKey || process.env.API_KEY`. */
  function ResolveKey(stored: string, env: string): string {
    if stored != [] then stored else env
  }

  /** QUALITY asks the pro model with a thinking budget, FAST the lite model
      without one; both request the JSON schema. */
  function MetadataRequest(mode: ModelMode, image: nat, mime: string): (r: Request)
    ensures mode == Quality ==> r.model == ProModel && r.thinking == Some(ThinkingBudget)
    ensures mode == Fast ==> r.model == LiteModel && r.thinking == None
    ensures r.contents == ImageAnalysis(image, mime) && r.json && !r.search
  {
    var isPro := mode == Quality;
    Request(if isPro then ProModel else LiteModel, ImageAnalysis(image, mime), true,
            if isPro then Some(ThinkingBudget) else None, false)
  }

  datatype MetadataError = MissingKey | Api(error: GenError) | NoText

  /** The response text (the JSON the schema asks for; its parsing is not
      modelled) or the error, and the requests sent. */
  datatype MetadataRun = MetadataRun(result: Result<string, MetadataError>, attempts: seq<Request>)

  /** How `generateImageMetadata` reports the outcome that decided the
      call: a failure as the call's error, an empty text as "no response
      text", any other text as the result. */
  function Reported(o: Outcome): Result<string, MetadataError> {
    match Final(o)
    case Err(e) => Err(Api(e))
    case Ok(text) => if text == [] then Err(NoText) else Ok(text)
  }

  /** `generateImageMetadata`. */
  function GenerateImageMetadata(image: nat, mime: string, mode: ModelMode, stored: string, env: string,
                                 respond: (nat, Request) -> Outcome): (r: MetadataRun)
    ensures ResolveKey(stored, env) == [] <==> r.attempts == []
    ensures ResolveKey(stored, env) == [] ==> r.result == Err(MissingKey)
    ensures r.attempts != [] ==> r.attempts[0] == MetadataRequest(mode, image, mime) && |r.attempts| <= 4
    ensures r.result.Ok? ==> r.result.value != []
    ensures r.attempts != [] ==> r.result == Reported(respond(|r.attempts| - 1, r.attempts[|r.attempts| - 1]))
    ensures r.attempts != [] ==> r.attempts == Run(MetadataRequest(mode, image, mime), mode == Quality, DefaultRetries, 0, respond).attempts
  {
    if ResolveKey(stored, env) == [] then MetadataRun(Err(MissingKey), [])
    else
      var t := Run(MetadataRequest(mode, image, mime), mode == Quality, DefaultRetries, 0, respond);
      ResultOfLastAttempt(MetadataRequest(mode, image, mime), mode == Quality, DefaultRetries, 0, respond);
      match t.result
      case Err(e) => MetadataRun(Err(Api(e)), t.attempts)
      case Ok(text) => if text == [] then MetadataRun(Err(NoText), t.attempts) else MetadataRun(Ok(text), t.attempts)
  }

  /** An empty response text is the "No response text generated" error. */
  lemma EmptyTextFails(image: nat, mime: string, mode: ModelMode, stored: string, env: string,
                       respond: (nat, Request) -> Outcome)
    requires ResolveKey(stored, env) != []
    requires respond(0, MetadataRequest(mode, image, mime)) == Success([])
    ensures GenerateImageMetadata(image, mime, mode, stored, env, respond)
            == MetadataRun(Err(NoText), [MetadataRequest(mode, image, mime)])
  {
  }

  /** FAST mode never falls back: every attempt asks the lite model
      without thinking. QUALITY mode asks the pro model with the thinking
      budget until it falls back to the flash model without thinking. */
  lemma ModelsUsed(image: nat, mime: string, mode: ModelMode, stored: string, env: string,
                   respond: (nat, Request) -> Outcome)
    ensures var r := GenerateImageMetadata(image, mime, mode, stored, env, respond);
            forall i :: 0 <= i < |r.attempts| ==>
              if mode == Fast then r.attempts[i] == MetadataRequest(Fast, image, mime)
              else r.attempts[i] == MetadataRequest(Quality, image, mime)
                   || r.attempts[i] == Fallback(MetadataRequest(Quality, image, mime))
  {
    var r := GenerateImageMetadata(image, mime, mode, stored, env, respond);
    if ResolveKey(stored, env) != [] {
      var req := MetadataRequest(mode, image, mime);
      var t := Run(req, mode == Quality, DefaultRetries, 0, respond);
      assert r.attempts == t.attempts;
      if mode == Fast {
        NoFallbackSameRequest(req, DefaultRetries, 0, respond);
      } else {
        StepsLinkAttempts(req, true, DefaultRetries, 0, respond);
        forall i | 0 <= i < |t.attempts| ensures t.attempts[i] == req || t.attempts[i] == Fallback(req) {
          ProOrFallback(t, DefaultRetries, req, i);
        }
      }
    }
  }

  lemma {:induction false} ProOrFallback(t: Trace, retries: nat, req: Request, i: nat)
    requires retries <= 4 && |t.attempts| == |t.retries| + 1 <= retries + 1
    requires i < |t.attempts| && t.attempts[0] == req
    requires AllLinked(t, retries)
    ensures t.attempts[i] == req || t.attempts[i] == Fallback(req)
  {
    if i > 0 {
      ProOrFallback(t, retries, req, i - 1);
      assert Linked(t, retries, i - 1);
      assert Fallback(Fallback(req)) == Fallback(req);
    }
  }

  // ---------------------------------------------------------------------
  // Trending keywords

  /** The search request of `getTrendingKeywords`: only the first five
      keywords, joined with ", ", enter the query. */
  function TrendRequest(keywords: seq<string>): Request {
    var n := if |keywords| < 5 then |keywords| else 5;
    Request(FlashModel, TrendQuery(Join(keywords[..n], ", ")), false, None, true)
  }

  lemma TrendQueryFirstFive(keywords: seq<string>, more: seq<string>)
    requires |keywords| >= 5
    ensures TrendRequest(keywords + more) == TrendRequest(keywords[..5])
  {
    assert (keywords + more)[..5] == keywords[..5];
    assert keywords[..5][..5] == keywords[..5];
  }

  predicate NumberingChar(c: char) { IsDigit(c) || c == '-' }

  /** Length of the longest prefix of digits and hyphens. */
  function NumberingLength(s: string): (n: nat)
    ensures n <= |s|
    ensures forall i :: 0 <= i < n ==> NumberingChar(s[i])
    ensures n < |s| ==> !NumberingChar(s[n])
  {
    if s != [] && NumberingChar(s[0]) then 1 + NumberingLength(s[1..]) else 0
  }

  /** `replace(/^[\d-]*\.\s*\/, '')`: digits and hyphens, a dot and the
      white space after it are cut off the front when they are there. */
  function StripNumbering(line: string): string {
    var n := NumberingLength(line);
    if n < |line| && line[n] == '.' then TrimStart(line[n + 1..]) else line
  }

  function CleanLine(line: string): string { Trim(StripNumbering(line)) }

  function CleanLines(lines: seq<string>): (r: seq<string>)
    ensures |r| == |lines|
    ensures forall i :: 0 <= i < |r| ==> r[i] == CleanLine(lines[i])
  {
    if lines == [] then [] else [CleanLine(lines[0])] + CleanLines(lines[1..])
  }

  predicate KeptLine(line: string) {
    |line| > 0 && !StartsWith(line, "Source") && !StartsWith(line, "http")
  }

  /** A returned trend: non-empty, trimmed, not a citation. */
  predicate Trend(line: string) { KeptLine(line) && NoBoundarySpace(line) }

  /** The cleaned lines that are kept, in order. */
  function KeptTrends(lines: seq<string>): (kept: seq<string>)
    ensures forall i :: 0 <= i < |kept| ==> Trend(kept[i])
    ensures IsSubsequence(kept, CleanLines(lines))
    ensures forall x :: x in kept <==> KeptLine(x) && exists i :: 0 <= i < |lines| && x == CleanLine(lines[i])
    ensures forall x :: multiset(kept)[x] == if KeptLine(x) then multiset(CleanLines(lines))[x] else 0
  {
    var cleaned := CleanLines(lines);
    CleanedMembers(lines);
    FilterIsSubsequence(cleaned, KeptLine);
    FilterCount(cleaned, KeptLine);
    CleanedTrimmed(lines);
    FilterKeeps(cleaned, KeptLine, Trend);
    Filter(cleaned, KeptLine)
  }

  lemma CleanedMembers(lines: seq<string>)
    ensures forall x :: x in CleanLines(lines) <==> exists i :: 0 <= i < |lines| && x == CleanLine(lines[i])
  {
    var cleaned := CleanLines(lines);
    forall x | x in cleaned ensures exists i :: 0 <= i < |lines| && x == CleanLine(lines[i]) {
      var i :| 0 <= i < |cleaned| && cleaned[i] == x;
    }
    forall i | 0 <= i < |lines| ensures CleanLine(lines[i]) in cleaned {
      assert cleaned[i] == CleanLine(lines[i]);
    }
  }

  lemma CleanedTrimmed(lines: seq<string>)
    ensures forall i :: 0 <= i < |CleanLines(lines)| && KeptLine(CleanLines(lines)[i]) ==> Trend(CleanLines(lines)[i])
  {
  }

  /** r is the first ten elements of s, or all of s when it is shorter. */
  predicate FirstTen(r: seq<string>, s: seq<string>) {
    |r| == (if |s| < 10 then |s| else 10) && r == s[..|r|]
  }

  /** The answer split into lines, each cleaned, the empty ones and the
      source citations dropped, and at most ten kept. */
  function ParseTrends(text: string): (r: seq<string>)
    ensures |r| <= 10
    ensures FirstTen(r, KeptTrends(Split(text, '\n')))
    ensures forall i :: 0 <= i < |r| ==> Trend(r[i])
    ensures IsSubsequence(r, CleanLines(Split(text, '\n')))
  {
    var kept := KeptTrends(Split(text, '\n'));
    var n := if |kept| < 10 then |kept| else 10;
    PrefixOfSubsequence(kept, n, CleanLines(Split(text, '\n')));
    kept[..n]
  }

  /** A run of digits and hyphens, as `[\d-]*` matches. */
  predicate AllNumbering(d: string) {
    forall i :: 0 <= i < |d| ==> NumberingChar(d[i])
  }

  lemma {:induction false} NumberingOfRun(d: string, rest: string)
    requires AllNumbering(d)
    requires rest != [] && rest[0] == '.'
    ensures NumberingLength(d + rest) == |d|
    decreases |d|
  {
    if d != [] {
      assert (d + rest)[1..] == d[1..] + rest;
      NumberingOfRun(d[1..], rest);
    } else {
      assert d + rest == rest;
    }
  }

  /** A numbering of digits and hyphens and its dot are cut off with the
      following white space. */
  lemma StripNumberingPrefix(d: string, rest: string)
    requires AllNumbering(d)
    ensures StripNumbering(d + "." + rest) == TrimStart(rest)
  {
    var line := d + "." + rest;
    assert line == d + ("." + rest);
    NumberingOfRun(d, "." + rest);
    assert line[|d|] == '.';
    assert line[|d| + 1..] == rest;
  }

  lemma TrimStartSpace(x: string)
    ensures TrimStart(" " + x) == TrimStart(x)
  {
    assert (" " + x)[0] == ' ';
    assert (" " + x)[1..] == x;
  }

  /** The list item `n. x`. */
  function Item(n: nat, x: string): string {
    NatToString(n) + ". " + x
  }

  /** A list item `n. x` of the answer is read as x. */
  lemma NumberedItem(n: nat, x: string)
    requires Trend(x)
    ensures CleanLine(Item(n, x)) == x
  {
    var d := NatToString(n);
    assert Item(n, x) == d + "." + (" " + x);
    assert forall j :: 0 <= j < |d| ==> IsDigit(d[j]);
    StripNumberingPrefix(d, " " + x);
    TrimStartSpace(x);
    TrimStartNoSpace(x);
    TrimFixed(x);
  }

  /** An answer listing items as `1. x`, `2. y`, ... */
  function NumberedList(items: seq<string>): (lines: seq<string>)
    ensures |lines| == |items|
    ensures forall i :: 0 <= i < |items| ==> lines[i] == Item(i + 1, items[i])
  {
    seq(|items|, i requires 0 <= i < |items| => Item(i + 1, items[i]))
  }

  /** Reading such an answer gives back its first ten items. */
  lemma NumberedListRoundTrip(items: seq<string>)
    requires forall i :: 0 <= i < |items| ==> Trend(items[i]) && '\n' !in items[i]
    ensures ParseTrends(Join(NumberedList(items), "\n")) == items[..if |items| < 10 then |items| else 10]
  {
    var lines := NumberedList(items);
    if items == [] {
      EmptyAnswer();
    } else {
      NumberedLines(items);
      SplitJoin(lines, '\n');
      CleanNumbered(items);
      FilterAll(items, KeptLine);
    }
  }

  /** An empty answer gives no trends. */
  lemma EmptyAnswer()
    ensures ParseTrends([]) == []
  {
    assert Split([], '\n') == [[]];
    assert CleanLines([[]]) == [CleanLine([])];
    assert Filter([CleanLine([])], KeptLine) == [];
  }

  lemma NumberedLines(items: seq<string>)
    requires forall i :: 0 <= i < |items| ==> '\n' !in items[i]
    ensures forall i :: 0 <= i < |items| ==> '\n' !in NumberedList(items)[i]
  {
    forall i | 0 <= i < |items| ensures '\n' !in Item(i + 1, items[i]) {
      ItemOneLine(i + 1, items[i]);
    }
  }

  lemma ItemOneLine(n: nat, x: string)
    requires '\n' !in x
    ensures '\n' !in Item(n, x)
  {
    var d := NatToString(n);
    assert forall j :: 0 <= j < |d| ==> IsDigit(d[j]);
    assert Item(n, x) == d + ". " + x;
  }

  lemma CleanNumbered(items: seq<string>)
    requires forall i :: 0 <= i < |items| ==> Trend(items[i])
    ensures CleanLines(NumberedList(items)) == items
  {
    var lines := NumberedList(items);
    forall i | 0 <= i < |items| ensures CleanLine(lines[i]) == items[i] {
      NumberedItem(i + 1, items[i]);
    }
    CleanLinesOf(lines, items);
  }

  lemma CleanLinesOf(lines: seq<string>, items: seq<string>)
    requires |lines| == |items|
    requires forall i :: 0 <= i < |items| ==> CleanLine(lines[i]) == items[i]
    ensures CleanLines(lines) == items
  {
  }

  /** `getTrendingKeywords`: no key, a failed call or an empty answer all
      give the empty list; nothing is thrown. */
  function GetTrendingKeywords(keywords: seq<string>, stored: string, env: string, respond: (nat, Request) -> Outcome): (r: seq<string>)
    ensures ResolveKey(stored, env) == [] ==> r == []
    ensures ResolveKey(stored, env) != [] && respond(0, TrendRequest(keywords)).Failure? ==> r == []
    ensures ResolveKey(stored, env) != [] && respond(0, TrendRequest(keywords)).Success? ==>
              r == ParseTrends(respond(0, TrendRequest(keywords)).text)
    ensures |r| <= 10
    ensures forall i :: 0 <= i < |r| ==> Trend(r[i])
  {
    if ResolveKey(stored, env) == [] then []
    else
      match respond(0, TrendRequest(keywords))
      case Failure(_) => []
      case Success(text) => ParseTrends(text)
  }
}
