/** The retry loop shared by the query functions: up to `retries` requests,
    success on status 200, a wait and a new attempt on the "time based"
    statuses, a stop on any other status. The network is replaced by the
    sequence of replies the endpoint would give, and `time.sleep` by the list
    of the waits the loop asks for. */
module Retry {
  import opened Base
  import opened Decimal

  /** What the loop reads from a response: its status code and its
      `Retry-After` header, if any. */
  datatype Reply = Reply(status: int, retryAfter: Option<string>)

  /** The statuses the client waits on and retries: 429, 500, 502, 503, 504,
      that is "too many requests" and the server errors other than 501. */
  predicate Retryable(status: int): (retry: bool)
    ensures retry <==> status == 429 || (500 <= status <= 504 && status != 501)
    ensures retry ==> status != 200
  {
    status == 429 || status == 500 || status == 502 || status == 503 || status == 504
  }

  /** How long to wait after a retryable failure.
      - `Fixed(delay)`: the same wait after every attempt (`sparql_query`).
      - `Staged(delay0, delay1, delay2)`: a wait per attempt number, none
        from the fourth attempt on (`get_all_person_info` and its kin).
      - `RetryAfter(fallback)`: the `Retry-After` header of a 429 reply when
        it is present and non-empty, `fallback` otherwise
        (`sparql_query_retry_after`, `get_person_info_retry_after`). */
  datatype DelayPolicy =
    | Fixed(delay: nat)
    | Staged(delay0: nat, delay1: nat, delay2: nat)
    | RetryAfter(fallback: nat)

  /** `sparql_query(query, retries=3, delay=10)` */
  const QueryPolicy: DelayPolicy := Fixed(10)
  /** `get_all_person_info(..., delay0=1, delay1=20, delay2=60)` */
  const PersonPolicy: DelayPolicy := Staged(1, 20, 60)
  /** `sparql_query_retry_after`: `delay = 1` unless the header says otherwise. */
  const QueryRetryAfterPolicy: DelayPolicy := RetryAfter(1)
  /** `get_person_info_retry_after`: `delay = 60` unless the header says otherwise. */
  const PersonRetryAfterPolicy: DelayPolicy := RetryAfter(60)
  /** The default `retries` of every query function. */
  const DefaultRetries: nat := 3

  /** The wait (in seconds; 0 for no `time.sleep` call) after attempt number
      `attempt` (counted from 0) failed with the retryable `reply`, or the
      error `int(retry_after)` raises on a header that is not a number. */
  function Backoff(policy: DelayPolicy, attempt: nat, reply: Reply): (wait: Result<nat>)
    ensures wait.Err? ==> policy.RetryAfter? && reply.status == 429 && reply.retryAfter.Some?
  {
    match policy
    case Fixed(d) => Ok(d)
    case Staged(d0, d1, d2) =>
      // a wait of 0 stands for no `time.sleep` call at all
      if attempt == 0 then Ok(d0)
      else if attempt == 1 then Ok(d1)
      else if attempt == 2 then Ok(d2)
      else Ok(0)
    case RetryAfter(fallback) =>
      if reply.status == 429 && reply.retryAfter.Some? && reply.retryAfter.value != "" then
        var h := reply.retryAfter.value;
        if AllDigits(h) then Ok(DecimalValue(h)) else Err(BadRetryAfter(h))
      else Ok(fallback)
  }

  /** How the loop ends: with the successful reply (whose JSON the caller
      reads), with `None` (a non-retryable status or no attempts left), or
      with the exception `int()` raised on a bad header. */
  datatype Outcome = Answered(reply: Reply) | GaveUp | Failed(error: Error)

  /** The whole observable behaviour of a run: how it ended, how many
      requests it sent and the waits it asked for, in order. */
  datatype Run = Run(outcome: Outcome, requests: nat, waits: seq<nat>)

  /** The loop from attempt `attempt` on, given the reply to every request. */
  function RunFrom(replies: nat -> Reply, retries: nat, policy: DelayPolicy, attempt: nat): (r: Run)
    ensures attempt < retries ==> attempt < r.requests <= retries
    decreases retries - attempt
  {
    if attempt >= retries then Run(GaveUp, attempt, [])
    else
      var reply := replies(attempt);
      if reply.status == 200 then Run(Answered(reply), attempt + 1, [])
      else if !Retryable(reply.status) then Run(GaveUp, attempt + 1, [])
      else match Backoff(policy, attempt, reply)
        case Err(e) => Run(Failed(e), attempt + 1, [])
        case Ok(d) =>
          var rest := RunFrom(replies, retries, policy, attempt + 1);
          Run(rest.outcome, rest.requests, [d] + rest.waits)
  }

  /** A run of the loop from its first attempt. */
  function RunOf(replies: nat -> Reply, retries: nat, policy: DelayPolicy): Run
  {
    RunFrom(replies, retries, policy, 0)
  }

  /** A run preceded by the waits `w` of earlier attempts. */
  function After(w: seq<nat>, r: Run): Run
  {
    Run(r.outcome, r.requests, w + r.waits)
  }

  /** One retried attempt: its wait joins the earlier ones. */
  lemma RetriedAttempt(replies: nat -> Reply, retries: nat, policy: DelayPolicy, attempt: nat, w: seq<nat>)
    requires attempt < retries
    requires Retryable(replies(attempt).status) && Backoff(policy, attempt, replies(attempt)).Ok?
    ensures After(w, RunFrom(replies, retries, policy, attempt))
      == After(w + [Backoff(policy, attempt, replies(attempt)).value], RunFrom(replies, retries, policy, attempt + 1))
  {
    var d := Backoff(policy, attempt, replies(attempt)).value;
    var rest := RunFrom(replies, retries, policy, attempt + 1);
    assert w + ([d] + rest.waits) == (w + [d]) + rest.waits;
  }

  /** `for attempt in range(retries)` with its `return` and `break`s. */
  method QueryWithRetries(replies: nat -> Reply, retries: nat, policy: DelayPolicy)
    returns (outcome: Outcome, requests: nat, waits: seq<nat>)
    ensures Run(outcome, requests, waits) == RunOf(replies, retries, policy)
  {
    waits := [];
    for attempt := 0 to retries
      invariant RunOf(replies, retries, policy) == After(waits, RunFrom(replies, retries, policy, attempt))
    {
      var reply := replies(attempt);
      if reply.status == 200 {
        return Answered(reply), attempt + 1, waits;
      }
      if !Retryable(reply.status) {
        return GaveUp, attempt + 1, waits;
      }
      var delay := Backoff(policy, attempt, reply);
      if delay.Err? {
        return Failed(delay.error), attempt + 1, waits;
      }
      RetriedAttempt(replies, retries, policy, attempt, waits);
      waits := waits + [delay.value];
    }
    outcome, requests := GaveUp, retries;
  }

  /** What a run from `attempt` does: it sends between one and `retries`
      requests in all (none when no attempt is left); every request but the
      last got a retryable status and was followed by the policy's wait; the
      run is answered exactly when the last reply was a 200, and that reply is
      the answer; it gives up early only on a status that is neither 200 nor
      retryable; it fails only on a retryable reply whose wait cannot be read;
      and a run that used up its attempts waited after the last one too. */
  lemma RunFromFacts(replies: nat -> Reply, retries: nat, policy: DelayPolicy, attempt: nat)
    requires attempt <= retries
    ensures var r := RunFrom(replies, retries, policy, attempt);
      && (attempt < retries ==> attempt < r.requests)
      && r.requests <= retries
      && (attempt == retries ==> r == Run(GaveUp, retries, []))
      && (forall k :: attempt <= k < r.requests - 1 ==> Retryable(replies(k).status))
      && (forall k :: 0 <= k < |r.waits| ==> Backoff(policy, attempt + k, replies(attempt + k)) == Ok(r.waits[k]))
      && (r.outcome.Answered? <==> attempt < r.requests && replies(r.requests - 1).status == 200)
      && (r.outcome.Answered? ==> r.outcome.reply == replies(r.requests - 1))
      && (r.outcome.GaveUp? && r.requests < retries ==>
            replies(r.requests - 1).status != 200 && !Retryable(replies(r.requests - 1).status))
      && (r.outcome.Failed? ==>
            Retryable(replies(r.requests - 1).status)
            && Backoff(policy, r.requests - 1, replies(r.requests - 1)) == Err(r.outcome.error))
      && (attempt < retries ==> (|r.waits| == r.requests - attempt <==> r.outcome.GaveUp? && attempt < r.requests == retries && Retryable(replies(retries - 1).status)))
      && (|r.waits| != r.requests - attempt ==> |r.waits| == r.requests - attempt - 1)
  {
    RunFromShape(replies, retries, policy, attempt);
    RunFromWaits(replies, retries, policy, attempt);
    RunFromEnding(replies, retries, policy, attempt);
    RunFromWaitCount(replies, retries, policy, attempt);
  }

  /** The requests a run sends: at least one while attempts remain, never
      more than the retries, and every one but the last answered with a
      retryable status. */
  lemma {:induction false} RunFromShape(replies: nat -> Reply, retries: nat, policy: DelayPolicy, attempt: nat)
    requires attempt <= retries
    ensures var r := RunFrom(replies, retries, policy, attempt);
      && (attempt < retries ==> attempt < r.requests)
      && r.requests <= retries
      && (attempt == retries ==> r == Run(GaveUp, retries, []))
      && (forall k :: attempt <= k < r.requests - 1 ==> Retryable(replies(k).status))
    decreases retries - attempt
  {
    if attempt < retries {
      var reply := replies(attempt);
      if reply.status != 200 && Retryable(reply.status) && Backoff(policy, attempt, reply).Ok? {
        RunFromShape(replies, retries, policy, attempt + 1);
      }
    }
  }

  /** The waits of a run are the delays the policy gives for the replies
      before each retry, in order. */
  lemma {:induction false} RunFromWaits(replies: nat -> Reply, retries: nat, policy: DelayPolicy, attempt: nat)
    requires attempt <= retries
    ensures var r := RunFrom(replies, retries, policy, attempt);
      forall k :: 0 <= k < |r.waits| ==> Backoff(policy, attempt + k, replies(attempt + k)) == Ok(r.waits[k])
    decreases retries - attempt
  {
    if attempt < retries {
      var reply := replies(attempt);
      if reply.status != 200 && Retryable(reply.status) && Backoff(policy, attempt, reply).Ok? {
        RunFromWaits(replies, retries, policy, attempt + 1);
        RunFromShape(replies, retries, policy, attempt + 1);
        var rest := RunFrom(replies, retries, policy, attempt + 1);
        var r := RunFrom(replies, retries, policy, attempt);
        assert r.waits == [Backoff(policy, attempt, reply).value] + rest.waits;
        forall k | 1 <= k < |r.waits|
          ensures Backoff(policy, attempt + k, replies(attempt + k)) == Ok(r.waits[k])
        {
          assert r.waits[k] == rest.waits[k - 1];
          assert attempt + k == (attempt + 1) + (k - 1);
        }
      }
    }
  }

  /** How a run ends, read off its last reply. */
  lemma {:induction false} RunFromEnding(replies: nat -> Reply, retries: nat, policy: DelayPolicy, attempt: nat)
    requires attempt <= retries
    ensures var r := RunFrom(replies, retries, policy, attempt);
      && attempt <= r.requests
      && (attempt < retries ==> attempt < r.requests)
      && (r.outcome.Answered? <==> attempt < r.requests && replies(r.requests - 1).status == 200)
      && (r.outcome.Answered? ==> r.outcome.reply == replies(r.requests - 1))
      && (r.outcome.GaveUp? && attempt < r.requests < retries ==>
            replies(r.requests - 1).status != 200 && !Retryable(replies(r.requests - 1).status))
      && (r.outcome.Failed? ==>
            attempt < r.requests
            && Retryable(replies(r.requests - 1).status)
            && Backoff(policy, r.requests - 1, replies(r.requests - 1)) == Err(r.outcome.error))
    decreases retries - attempt
  {
    if attempt < retries {
      var reply := replies(attempt);
      if reply.status != 200 && Retryable(reply.status) && Backoff(policy, attempt, reply).Ok? {
        RunFromEnding(replies, retries, policy, attempt + 1);
      }
    }
  }

  /** A run waits after every request but the last, and after the last one
      too exactly when it used up its attempts on a retryable reply. */
  lemma {:induction false} RunFromWaitCount(replies: nat -> Reply, retries: nat, policy: DelayPolicy, attempt: nat)
    requires attempt <= retries
    ensures var r := RunFrom(replies, retries, policy, attempt);
      && attempt <= r.requests
      && (attempt < retries ==> (|r.waits| == r.requests - attempt <==> r.outcome.GaveUp? && attempt < r.requests == retries && Retryable(replies(retries - 1).status)))
      && (|r.waits| != r.requests - attempt ==> |r.waits| == r.requests - attempt - 1)
    decreases retries - attempt
  {
    if attempt < retries {
      var reply := replies(attempt);
      if reply.status != 200 && Retryable(reply.status) && Backoff(policy, attempt, reply).Ok? {
        RunFromWaitCount(replies, retries, policy, attempt + 1);
      }
    }
  }

  /** The whole run: at most `retries` requests; the result is returned on
      the first 200; the loop stops at the first status outside the retryable
      ones; with no attempt allowed nothing is sent. */
  lemma RunOfFacts(replies: nat -> Reply, retries: nat, policy: DelayPolicy)
    ensures var r := RunOf(replies, retries, policy);
      && r.requests <= retries
      && (retries > 0 ==> r.requests > 0)
      && (retries == 0 ==> r == Run(GaveUp, 0, []))
      && (forall k :: 0 <= k < r.requests - 1 ==> Retryable(replies(k).status))
      && (r.outcome.Answered? <==> r.requests > 0 && replies(r.requests - 1).status == 200)
      && (r.outcome.Answered? ==> r.outcome.reply == replies(r.requests - 1))
      && (r.outcome.GaveUp? && r.requests < retries ==> !Retryable(replies(r.requests - 1).status))
  {
    RunFromFacts(replies, retries, policy, 0);
  }

  /** A 200 on the first request ends the run at once, with no wait. */
  lemma FirstSuccessEndsRun(replies: nat -> Reply, retries: nat, policy: DelayPolicy)
    requires retries > 0 && replies(0).status == 200
    ensures RunOf(replies, retries, policy) == Run(Answered(replies(0)), 1, [])
  {
  }

  /** An endpoint that always answers with the same retryable status and a
      fixed delay: every attempt is used, each followed by the same wait, and
      the result is None. */
  lemma {:induction false} AlwaysBusyUsesEveryAttempt(replies: nat -> Reply, retries: nat, delay: nat, attempt: nat)
    requires attempt <= retries
    requires forall k :: attempt <= k < retries ==> Retryable(replies(k).status)
    ensures var r := RunFrom(replies, retries, Fixed(delay), attempt);
      && r.outcome == GaveUp && r.requests == retries
      && |r.waits| == retries - attempt
      && forall k :: 0 <= k < |r.waits| ==> r.waits[k] == delay
    decreases retries - attempt
  {
    if attempt < retries {
      AlwaysBusyUsesEveryAttempt(replies, retries, delay, attempt + 1);
    }
  }

  /** With the staged policy the waits of a run are `delay0`, `delay1`,
      `delay2` in that order, and no wait at all from the fourth attempt on. */
  lemma StagedWaits(replies: nat -> Reply, retries: nat, d0: nat, d1: nat, d2: nat)
    ensures var w := RunOf(replies, retries, Staged(d0, d1, d2)).waits;
      && (|w| > 0 ==> w[0] == d0)
      && (|w| > 1 ==> w[1] == d1)
      && (|w| > 2 ==> w[2] == d2)
      && forall k :: 3 <= k < |w| ==> w[k] == 0
  {
    RunFromFacts(replies, retries, Staged(d0, d1, d2), 0);
  }

  /** A `Retry-After` header written as a decimal number is waited for
      exactly, on any attempt and whatever the fallback. */
  lemma RetryAfterIsHonoured(fallback: nat, attempt: nat, seconds: nat)
    ensures Backoff(RetryAfter(fallback), attempt, Reply(429, Some(DecimalString(seconds)))) == Ok(seconds)
  {
    DecimalRoundTrip(seconds);
  }

  /** The header is read only on a 429 that carries a non-empty one; every
      other retryable reply waits for the fallback, and only a header that is
      not a number raises. */
  lemma RetryAfterFallback(fallback: nat, attempt: nat, reply: Reply)
    requires Retryable(reply.status)
    ensures Backoff(RetryAfter(fallback), attempt, reply).Err? <==>
      reply.status == 429 && reply.retryAfter.Some? && reply.retryAfter.value != "" && !AllDigits(reply.retryAfter.value)
    ensures reply.status != 429 || reply.retryAfter == None || reply.retryAfter == Some("") ==>
      Backoff(RetryAfter(fallback), attempt, reply) == Ok(fallback)
  {
  }

  /** `sparql_query` with its defaults against an endpoint that is always
      busy: three requests, ten seconds after each, and None. */
  lemma DefaultQueryGivesUpWhenBusy(replies: nat -> Reply)
    requires forall k :: 0 <= k < DefaultRetries ==> Retryable(replies(k).status)
    ensures var r := RunOf(replies, DefaultRetries, QueryPolicy);
      && r.outcome == GaveUp && r.requests == 3 && |r.waits| == 3
      && r.waits[0] == 10 && r.waits[1] == 10 && r.waits[2] == 10
  {
    AlwaysBusyUsesEveryAttempt(replies, DefaultRetries, 10, 0);
  }

  /** `get_all_person_info` with its defaults: at most three waits, of one,
      twenty and sixty seconds in that order. */
  lemma DefaultPersonWaits(replies: nat -> Reply)
    ensures var w := RunOf(replies, DefaultRetries, PersonPolicy).waits;
      && |w| <= 3
      && (|w| > 0 ==> w[0] == 1)
      && (|w| > 1 ==> w[1] == 20)
      && (|w| > 2 ==> w[2] == 60)
  {
    RunFromFacts(replies, DefaultRetries, PersonPolicy, 0);
    StagedWaits(replies, DefaultRetries, 1, 20, 60);
  }

  /** Without a usable `Retry-After` header the two header-reading clients
      wait their own defaults: one second for a query, sixty for a person. */
  lemma DefaultRetryAfterFallbacks(attempt: nat, reply: Reply)
    requires Retryable(reply.status) && reply.status != 429
    ensures Backoff(QueryRetryAfterPolicy, attempt, reply) == Ok(1)
    ensures Backoff(PersonRetryAfterPolicy, attempt, reply) == Ok(60)
  {
    RetryAfterFallback(1, attempt, reply);
    RetryAfterFallback(60, attempt, reply);
  }
}
