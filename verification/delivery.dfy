/** `send_document_with_retry`: up to `max_retries` attempts to send a
    file; a timeout or network failure is retried after a pause that doubles
    each time (2, 4, 8, ... seconds), any other failure propagates at once,
    and when every attempt timed out the last failure is raised. What each
    attempt does is a parameter: attempt `a` (from 0) behaves as `tries(a)`. */
module Delivery {
  import opened Options

  datatype Attempt = Delivered | Timeout | NetworkFailure | OtherFailure(message: string)

  /** Only `asyncio.TimeoutError` and `TelegramNetworkError` are retried. */
  predicate Retryable(a: Attempt)
  {
    a.Timeout? || a.NetworkFailure?
  }

  /** The send came through; every attempt failed in a retryable way (the
      last failure, or none when no attempt was allowed); or a failure that
      is not retried propagated. */
  datatype SendResult = Sent | GaveUp(lastError: Option<Attempt>) | Propagated(error: Attempt)

  const DefaultMaxRetries: int := 4

  function Pow2(n: nat): (r: nat)
    ensures r >= 1
  {
    if n == 0 then 1 else 2 * Pow2(n - 1)
  }

  /** The pauses taken when `n` attempts were made and the last one ended
      the loop: one before each attempt after the first, `2 ** (a + 1)`
      seconds after attempt `a`. */
  function Backoff(n: nat): (r: seq<nat>)
    ensures |r| == if n == 0 then 0 else n - 1
    ensures forall a :: 0 <= a < |r| ==> r[a] == Pow2(a + 1)
  {
    if n <= 1 then [] else Backoff(n - 1) + [Pow2(n - 1)]
  }

  function Sum(s: seq<nat>): nat
  {
    if s == [] then 0 else Sum(s[..|s| - 1]) + s[|s| - 1]
  }

  /** The pauses of `n` attempts add up to `2 ** n - 2` seconds. */
  lemma {:induction false} BackoffTotal(n: nat)
    ensures Sum(Backoff(n)) == if n == 0 then 0 else Pow2(n) - 2
  {
    if n > 1 {
      var b := Backoff(n);
      assert b[..|b| - 1] == Backoff(n - 1);
      BackoffTotal(n - 1);
    }
  }

  /** With the default four attempts the sender waits at most 14 seconds in
      all: there is no pause after the last attempt. */
  lemma DefaultWaitBound(made: nat)
    requires made <= DefaultMaxRetries
    ensures Sum(Backoff(made)) <= 14
  {
    BackoffTotal(made);
    if made > 0 {
      assert Pow2(made) <= Pow2(4) by {
        PowMono(made, 4);
      }
    }
  }

  lemma {:induction false} PowMono(a: nat, b: nat)
    requires a <= b
    ensures Pow2(a) <= Pow2(b)
    decreases b
  {
    if a < b {
      PowMono(a, b - 1);
    }
  }

  function Max0(n: int): nat
  {
    if n < 0 then 0 else n
  }

  /** The retry loop. `made` is the number of attempts and `waits` the
      pauses taken, in order. */
  method SendWithRetry(tries: nat -> Attempt, maxRetries: int) returns (result: SendResult, made: nat, waits: seq<nat>)
    ensures made <= Max0(maxRetries)
    ensures forall a :: 0 <= a < made - 1 ==> Retryable(tries(a))
    ensures result == Sent <==> made > 0 && tries(made - 1) == Delivered
    ensures result.Propagated? <==> made > 0 && tries(made - 1).OtherFailure?
    ensures result.Propagated? ==> result.error == tries(made - 1)
    ensures result.GaveUp? ==> made == Max0(maxRetries)
    ensures result.GaveUp? ==> result.lastError == if made == 0 then None else Some(tries(made - 1))
    ensures result.GaveUp? && made > 0 ==> Retryable(tries(made - 1))
    ensures waits == Backoff(made)
  {
    var lastError: Option<Attempt> := None;
    waits := [];
    var attempt: nat := 0;
    while attempt < maxRetries
      invariant attempt <= Max0(maxRetries)
      invariant forall a :: 0 <= a < attempt ==> Retryable(tries(a))
      invariant lastError == if attempt == 0 then None else Some(tries(attempt - 1))
      invariant |waits| == if attempt == 0 then 0 else if attempt < maxRetries then attempt else attempt - 1
      invariant forall a :: 0 <= a < |waits| ==> waits[a] == Pow2(a + 1)
      decreases maxRetries - attempt
    {
      var outcome := tries(attempt);
      if outcome == Delivered {
        made := attempt + 1;
        result := Sent;
        assert waits == Backoff(made);
        return;
      } else if Retryable(outcome) {
        lastError := Some(outcome);
        if attempt < maxRetries - 1 {
          waits := waits + [Pow2(attempt + 1)];
        }
      } else {
        made := attempt + 1;
        result := Propagated(outcome);
        assert waits == Backoff(made);
        return;
      }
      attempt := attempt + 1;
    }
    made := attempt;
    result := GaveUp(lastError);
    assert waits == Backoff(made);
  }
}
