/**
 * `get_url`: one logical GET that retries until the origin gives a
 * terminal answer, and the process-wide throttle `DELAY` it resets after
 * every response. A response is abstracted to its status code, whether
 * its body carries the origin's "page not found" and "server error"
 * markers, and its round-trip time in whole milliseconds.
 */
module Fetch {

  /** Throttle value set after a slow response (0.4 s). */
  const SlowDelayMs: nat := 400
  /** Round-trip time above which a response counts as slow (0.4 s). */
  const SlowThresholdMs: nat := 400
  /** Backoff slept before retrying a non-terminal response (5 s). */
  const BackoffMs: nat := 5000

  datatype Response = Response(status: int, notFoundMarker: bool, serverErrorMarker: bool, elapsedMs: nat)

  datatype Verdict = Success | NotFound | Retry

  /** How `get_url` classifies one response; the checks run in this order. */
  function Classify(resp: Response): (v: Verdict)
    ensures resp.status == 200 ==> v == Success
    ensures resp.status != 200 && resp.status == 404 && resp.notFoundMarker ==> v == NotFound
    ensures resp.status != 200 && resp.serverErrorMarker ==> v == NotFound
    ensures v == Retry <==> resp.status != 200 && !(resp.status == 404 && resp.notFoundMarker) && !resp.serverErrorMarker
  {
    if resp.status == 200 then Success
    else if resp.status == 404 && resp.notFoundMarker then NotFound
    else if resp.serverErrorMarker then NotFound
    else Retry
  }

  predicate IsTerminal(resp: Response)
  {
    Classify(resp) != Retry
  }

  /** The value `DELAY` takes after a response that took `elapsedMs`. */
  function DelayFor(elapsedMs: nat): (d: nat)
    ensures d == SlowDelayMs <==> elapsedMs > SlowThresholdMs
    ensures d == 0 <==> elapsedMs <= SlowThresholdMs
  {
    if elapsedMs > SlowThresholdMs then SlowDelayMs else 0
  }

  /** The origin eventually answers with a terminal response, so the retry loop ends. */
  predicate Terminates(rs: seq<Response>)
    decreases |rs|
  {
    |rs| > 0 && (IsTerminal(rs[0]) || Terminates(rs[1..]))
  }

  /** Position of the response `get_url` returns on: the first terminal one. */
  function TerminalIndex(rs: seq<Response>): (k: nat)
    requires Terminates(rs)
    ensures k < |rs| && IsTerminal(rs[k])
    ensures forall j :: 0 <= j < k ==> !IsTerminal(rs[j])
    decreases |rs|
  {
    if IsTerminal(rs[0]) then 0 else 1 + TerminalIndex(rs[1..])
  }

  /** What `get_url` returns for the response sequence `rs`. */
  function FetchVerdict(rs: seq<Response>): (v: Verdict)
    requires Terminates(rs)
    ensures v != Retry
  {
    Classify(rs[TerminalIndex(rs)])
  }

  /**
   * Every sleep `get_url` performs, in order and in milliseconds: the
   * throttle delay after each response, then the backoff if it retries.
   */
  function FetchSleeps(rs: seq<Response>): seq<nat>
    requires Terminates(rs)
    decreases |rs|
  {
    if IsTerminal(rs[0]) then [DelayFor(rs[0].elapsedMs)]
    else [DelayFor(rs[0].elapsedMs), BackoffMs] + FetchSleeps(rs[1..])
  }

  /** The `DELAY` left behind by `get_url`: that of the response it returned on. */
  function FinalDelay(rs: seq<Response>): nat
    requires Terminates(rs)
  {
    DelayFor(rs[TerminalIndex(rs)].elapsedMs)
  }

  function Count(xs: seq<nat>, x: nat): nat
    decreases |xs|
  {
    if |xs| == 0 then 0 else (if xs[0] == x then 1 else 0) + Count(xs[1..], x)
  }

  /**
   * Exactly one 5 s backoff per non-terminal response before the terminal
   * one, two sleeps per retried response and one for the terminal one,
   * and the last sleep is the throttle value left in `DELAY`.
   */
  lemma {:induction false} BackoffPerRetry(rs: seq<Response>)
    requires Terminates(rs)
    ensures Count(FetchSleeps(rs), BackoffMs) == TerminalIndex(rs)
    ensures |FetchSleeps(rs)| == 2 * TerminalIndex(rs) + 1
    ensures FetchSleeps(rs)[|FetchSleeps(rs)| - 1] == FinalDelay(rs)
    decreases |rs|
  {
    if !IsTerminal(rs[0]) {
      BackoffPerRetry(rs[1..]);
      var tail := FetchSleeps(rs[1..]);
      assert FetchSleeps(rs) == [DelayFor(rs[0].elapsedMs)] + ([BackoffMs] + tail);
      assert ([BackoffMs] + tail)[1..] == tail;
    }
    LastSleep(rs);
  }

  /** The last sleep of `get_url` is the delay set by the response it returned on. */
  lemma {:induction false} LastSleep(rs: seq<Response>)
    requires Terminates(rs)
    ensures |FetchSleeps(rs)| > 0 && FetchSleeps(rs)[|FetchSleeps(rs)| - 1] == FinalDelay(rs)
    decreases |rs|
  {
    if !IsTerminal(rs[0]) {
      LastSleep(rs[1..]);
      var tail := FetchSleeps(rs[1..]);
      var all := [DelayFor(rs[0].elapsedMs), BackoffMs] + tail;
      assert FetchSleeps(rs) == all;
      assert all[|all| - 1] == tail[|tail| - 1];
      assert TerminalIndex(rs) == 1 + TerminalIndex(rs[1..]);
    }
  }

  /** `get_url` never looks past the first terminal response. */
  lemma {:induction false} IgnoresLaterResponses(rs: seq<Response>, later: seq<Response>)
    requires Terminates(rs)
    ensures Terminates(rs[..TerminalIndex(rs) + 1] + later)
    ensures TerminalIndex(rs[..TerminalIndex(rs) + 1] + later) == TerminalIndex(rs)
    ensures FetchVerdict(rs[..TerminalIndex(rs) + 1] + later) == FetchVerdict(rs)
    ensures FetchSleeps(rs[..TerminalIndex(rs) + 1] + later) == FetchSleeps(rs)
    decreases |rs|
  {
    var cut := rs[..TerminalIndex(rs) + 1] + later;
    assert cut[0] == rs[0];
    if !IsTerminal(rs[0]) {
      IgnoresLaterResponses(rs[1..], later);
      assert cut[1..] == rs[1..][..TerminalIndex(rs[1..]) + 1] + later;
    }
  }

  /** N retryable responses then a 200: `get_url` succeeds after exactly N backoffs. */
  lemma RetriesThenSuccess(retries: seq<Response>, ok: Response)
    requires forall i :: 0 <= i < |retries| ==> Classify(retries[i]) == Retry
    requires ok.status == 200
    ensures Terminates(retries + [ok])
    ensures TerminalIndex(retries + [ok]) == |retries|
    ensures FetchVerdict(retries + [ok]) == Success
    ensures Count(FetchSleeps(retries + [ok]), BackoffMs) == |retries|
    decreases |retries|
  {
    var rs := retries + [ok];
    if |retries| > 0 {
      assert rs[1..] == retries[1..] + [ok];
      RetriesThenSuccess(retries[1..], ok);
    }
    BackoffPerRetry(rs);
  }

  /**
   * The process-wide throttle. `delay` is `DELAY` in milliseconds; `slept`
   * records every sleep taken by the fetches and dispatches that read it.
   */
  class Throttle {
    var delay: nat
    ghost var slept: seq<nat>

    /** `DELAY` is only ever 0 or 0.4 s. */
    ghost predicate Valid()
      reads this
    {
      delay == 0 || delay == SlowDelayMs
    }

    constructor ()
      ensures Valid()
      ensures delay == 0 && slept == []
    {
      delay := 0;
      slept := [];
    }

    /** Record a `sleep(DELAY)` taken by a caller. */
    method SleepDelay()
      requires Valid()
      modifies this
      ensures Valid()
      ensures delay == old(delay)
      ensures slept == old(slept) + [old(delay)]
    {
      slept := slept + [delay];
    }

    /**
     * `get_url`: read responses until the first terminal one, resetting
     * `DELAY` and sleeping it after each, and backing off 5 s after each
     * retryable one. Returns the verdict and the number of responses read.
     */
    method GetUrl(rs: seq<Response>) returns (verdict: Verdict, attempts: nat)
      requires Terminates(rs)
      modifies this
      ensures Valid()
      ensures verdict == FetchVerdict(rs)
      ensures attempts == TerminalIndex(rs) + 1
      ensures delay == FinalDelay(rs)
      ensures slept == old(slept) + FetchSleeps(rs)
    {
      var i := 0;
      while true
        invariant i <= TerminalIndex(rs)
        invariant Terminates(rs[i..]) && TerminalIndex(rs[i..]) == TerminalIndex(rs) - i
        invariant old(slept) + FetchSleeps(rs) == slept + FetchSleeps(rs[i..])
        decreases TerminalIndex(rs) - i
      {
        var resp := rs[i];
        delay := DelayFor(resp.elapsedMs);
        slept := slept + [delay];
        verdict := Classify(resp);
        if verdict != Retry {
          attempts := i + 1;
          return;
        }
        slept := slept + [BackoffMs];
        assert rs[i..][1..] == rs[i + 1..];
        i := i + 1;
      }
    }
  }
}
