/**
 * `http_get_bytes`: up to `retries` GET requests for one URL, the content of
 * the first one that succeeds, otherwise the exception of the last one, with a
 * pause of `0.8 * attempt` seconds after every failed attempt but the last.
 * The network is a parameter: `net(url, n)` is what the `n`-th request for
 * `url` (counting from 1) followed by `raise_for_status()` produces.
 */
module Http {

  newtype byte = x: int | 0 <= x < 256

  type Bytes = seq<byte>

  /** One `session.get(url)` followed by `r.raise_for_status()`: the body, or the exception raised. */
  datatype Attempt = Delivered(content: Bytes) | Failed(error: string)

  type Transport = (string, nat) -> Attempt

  /**
   * How `http_get_bytes` ends: it returns the content, re-raises the last
   * exception, or, when `retries < 1` and the loop body never runs, falls off
   * the end and returns None.
   */
  datatype Fetched = Content(data: Bytes) | Raised(error: string) | NoneReturned

  /** The outcome together with the number of requests made. */
  datatype Trace = Trace(result: Fetched, attempts: nat)

  /** The `retries` every caller in the scripts leaves at its default. */
  const Retries := 3

  /** Attempts `attempt` to `retries`, when the ones before have failed. */
  function FetchFrom(net: Transport, url: string, retries: int, attempt: nat): (t: Trace)
    requires 1 <= attempt <= retries
    ensures attempt <= t.attempts <= retries
    ensures !t.result.NoneReturned?
    decreases retries - attempt
  {
    match net(url, attempt)
    case Delivered(content) => Trace(Content(content), attempt)
    case Failed(error) =>
      if attempt < retries then FetchFrom(net, url, retries, attempt + 1)
      else Trace(Raised(error), attempt)
  }

  /** What `http_get_bytes(url, session, retries=retries)` does. */
  function Fetch(net: Transport, url: string, retries: int): Trace {
    if retries < 1 then Trace(NoneReturned, 0) else FetchFrom(net, url, retries, 1)
  }

  /**
   * The pauses, in milliseconds, made while `n` attempts are carried out: the
   * pause `0.8 * attempt` seconds follows each attempt except the last one.
   */
  function Pauses(n: nat): (p: seq<nat>)
    ensures |p| == if n == 0 then 0 else n - 1
    ensures forall i :: 0 <= i < |p| ==> p[i] == 800 * (i + 1)
  {
    if n <= 1 then [] else Pauses(n - 1) + [800 * (n - 1)]
  }

  /**
   * The retry loop.  `attempts` counts the requests made and `sleeps` lists
   * the pauses in milliseconds; the sleeping itself is left to the caller.
   */
  method HttpGetBytes(net: Transport, url: string, retries: int) returns (result: Fetched, attempts: nat, sleeps: seq<nat>)
    ensures Trace(result, attempts) == Fetch(net, url, retries)
    ensures sleeps == Pauses(attempts)
  {
    result, attempts, sleeps := NoneReturned, 0, [];
    var lastError := "";
    var attempt := 1;
    while attempt <= retries
      invariant 1 <= attempt && (attempt == 1 || attempt <= retries)
      invariant attempt <= retries ==> Fetch(net, url, retries) == FetchFrom(net, url, retries, attempt)
      invariant attempts == attempt - 1 && sleeps == Pauses(attempt)
      decreases retries - attempt
    {
      attempts := attempt;
      match net(url, attempt)
      case Delivered(content) =>
        result := Content(content);
        return;
      case Failed(error) =>
        lastError := error;
        if attempt < retries {
          sleeps := sleeps + [800 * attempt];
          attempt := attempt + 1;
        } else {
          result := Raised(lastError);
          return;
        }
    }
  }

  /** Every attempt before the last one made failed. */
  lemma {:induction false} FailedBefore(net: Transport, url: string, retries: int, attempt: nat, b: nat)
    requires 1 <= attempt <= retries && attempt <= b < FetchFrom(net, url, retries, attempt).attempts
    ensures net(url, b).Failed?
    decreases retries - attempt
  {
    if attempt < b {
      FailedBefore(net, url, retries, attempt + 1, b);
    }
  }

  /** The last attempt made is the one whose outcome is reported; an error is reported only after the final attempt. */
  lemma {:induction false} LastAttempt(net: Transport, url: string, retries: int, attempt: nat)
    requires 1 <= attempt <= retries
    ensures var t := FetchFrom(net, url, retries, attempt);
      && (t.result.Content? ==> net(url, t.attempts) == Delivered(t.result.data))
      && (t.result.Raised? ==> t.attempts == retries && net(url, retries) == Failed(t.result.error))
    decreases retries - attempt
  {
    if net(url, attempt).Failed? && attempt < retries {
      LastAttempt(net, url, retries, attempt + 1);
    }
  }

  /**
   * `http_get_bytes` makes between 1 and `retries` requests, all but the last
   * of which failed; it returns the content of the one that succeeded, or
   * raises the error of the final attempt.
   */
  lemma {:induction false} FetchReturnsFirstSuccess(net: Transport, url: string, retries: int)
    requires retries >= 1
    ensures var t := Fetch(net, url, retries);
      && 1 <= t.attempts <= retries
      && (forall b :: 1 <= b < t.attempts ==> net(url, b).Failed?)
      && (t.result.Content? ==> net(url, t.attempts) == Delivered(t.result.data))
      && (t.result.Raised? ==> t.attempts == retries && net(url, retries) == Failed(t.result.error))
      && !t.result.NoneReturned?
  {
    forall b | 1 <= b < Fetch(net, url, retries).attempts
      ensures net(url, b).Failed?
    {
      FailedBefore(net, url, retries, 1, b);
    }
    LastAttempt(net, url, retries, 1);
  }

  /** `http_get_bytes` returns content exactly when one of the first `retries` requests succeeds. */
  lemma {:induction false} FetchSucceedsIff(net: Transport, url: string, retries: int)
    ensures Fetch(net, url, retries).result.Content?
        <==> exists a :: 1 <= a <= retries && net(url, a).Delivered?
  {
    if retries >= 1 {
      FetchReturnsFirstSuccess(net, url, retries);
      var t := Fetch(net, url, retries);
      if t.result.Raised? {
        forall a | 1 <= a <= retries
          ensures net(url, a).Failed?
        {
          if a < retries {
            FailedBefore(net, url, retries, 1, a);
          }
        }
      }
    }
  }

  /** With the default of three retries, `http_get_bytes` never returns None. */
  lemma {:induction false} DefaultRetriesReturnOrRaise(net: Transport, url: string)
    ensures !Fetch(net, url, Retries).result.NoneReturned?
    ensures 1 <= Fetch(net, url, Retries).attempts <= 3
  {
  }

  /** The pauses fall between attempts: one fewer than the requests made, and none when the first request succeeds. */
  lemma {:induction false} PausesBetweenAttempts(net: Transport, url: string, retries: int)
    requires retries >= 1
    ensures |Pauses(Fetch(net, url, retries).attempts)| == Fetch(net, url, retries).attempts - 1
    ensures net(url, 1).Delivered? ==> Pauses(Fetch(net, url, retries).attempts) == []
  {
    FetchReturnsFirstSuccess(net, url, retries);
  }
}
