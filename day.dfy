/**
 * `work_day`: one day's worth of articles. The thread pool is modelled by
 * what it guarantees: every locator's task runs to an outcome, and
 * `as_completed` hands the outcomes back in some permutation `order` of
 * the submission order. Each task runs to completion before the dispatch
 * loop's `sleep(DELAY)` reads the throttle, which is one of the schedules
 * the pool allows.
 */
module Day {
  import opened Wrappers
  import opened Fetch
  import opened Articles
  import opened Locators
  import opened Ordering

  /** Why a day cannot be completed: `work_day` raises and the run stops. */
  datatype DayFailure = IndexMissing | ArticleFailed(error: ParseError)

  function Indices(n: nat): (r: seq<nat>)
    ensures |r| == n && forall i :: 0 <= i < n ==> r[i] == i
  {
    seq(n, i requires 0 <= i < n => i)
  }

  /** `order` lists each of `0 .. n-1` exactly once. */
  predicate IsPermutation(order: seq<nat>, n: nat)
  {
    multiset(order) == multiset(Indices(n))
  }

  /** Every index in `order` points into a sequence of length `n`. */
  predicate InBounds(order: seq<nat>, n: nat)
  {
    forall j :: 0 <= j < |order| ==> order[j] < n
  }

  lemma PermutationBounds(order: seq<nat>, n: nat)
    requires IsPermutation(order, n)
    ensures |order| == n && InBounds(order, n)
  {
    assert |order| == |multiset(order)| == |multiset(Indices(n))| == n;
    forall j | 0 <= j < |order|
      ensures order[j] < n
    {
      assert order[j] in multiset(order);
      assert order[j] in multiset(Indices(n));
    }
  }

  /** `v` rearranged by `order`: the `j`-th element is `v[order[j]]` (`PickAt`). */
  function Pick<T>(v: seq<T>, order: seq<nat>): (r: seq<T>)
    requires InBounds(order, |v|)
    ensures |r| == |order|
    decreases |order|
  {
    if |order| == 0 then [] else [v[order[0]]] + Pick(v, order[1..])
  }

  lemma {:induction false} PickAt<T>(v: seq<T>, order: seq<nat>, j: nat)
    requires InBounds(order, |v|) && j < |order|
    ensures Pick(v, order)[j] == v[order[j]]
    decreases j
  {
    if j > 0 {
      PickAt(v, order[1..], j - 1);
    }
  }

  lemma {:induction false} PickConcat<T>(v: seq<T>, a: seq<nat>, b: seq<nat>)
    requires InBounds(a, |v|) && InBounds(b, |v|)
    ensures InBounds(a + b, |v|)
    ensures Pick(v, a + b) == Pick(v, a) + Pick(v, b)
    decreases |a|
  {
    if |a| == 0 {
      assert a + b == b;
    } else {
      assert (a + b)[1..] == a[1..] + b;
      PickConcat(v, a[1..], b);
    }
  }

  lemma MultisetRemove(o1: seq<nat>, o2: seq<nat>, p: nat)
    requires multiset(o1) == multiset(o2) && |o1| > 0 && p < |o2| && o2[p] == o1[0]
    ensures multiset(o1[1..]) == multiset(o2[..p] + o2[p + 1..])
    ensures o2 == o2[..p] + ([o1[0]] + o2[p + 1..])
  {
    assert o1 == [o1[0]] + o1[1..];
    assert o2 == o2[..p] + ([o2[p]] + o2[p + 1..]);
    assert multiset(o1[1..]) == multiset(o1) - multiset{o1[0]};
  }

  lemma InBoundsSplit(o: seq<nat>, p: nat, n: nat)
    requires InBounds(o, n) && p < |o|
    ensures InBounds(o[..p], n) && InBounds(o[p + 1..], n) && o[p] < n
  {
    var pre, post := o[..p], o[p + 1..];
    forall j | 0 <= j < |pre|
      ensures pre[j] < n
    {
      assert pre[j] == o[j];
    }
    forall j | 0 <= j < |post|
      ensures post[j] < n
    {
      assert post[j] == o[p + 1 + j];
    }
  }

  /** Rearranging by index lists with equal multisets gives equal multisets. */
  lemma {:induction false} PickMultiset<T>(v: seq<T>, o1: seq<nat>, o2: seq<nat>)
    requires InBounds(o1, |v|) && InBounds(o2, |v|) && multiset(o1) == multiset(o2)
    ensures multiset(Pick(v, o1)) == multiset(Pick(v, o2))
    decreases |o1|
  {
    if |o1| == 0 {
      assert |o2| == |multiset(o2)| == 0;
    } else {
      var x := o1[0];
      assert x in multiset(o2);
      var p :| 0 <= p < |o2| && o2[p] == x;
      MultisetRemove(o1, o2, p);
      var a, b := o2[..p], o2[p + 1..];
      InBoundsSplit(o2, p, |v|);
      assert ([x] + b)[1..] == b;
      PickConcat(v, a, [x] + b);
      PickConcat(v, a, b);
      PickMultiset(v, o1[1..], a + b);
      assert Pick(v, o1) == [v[x]] + Pick(v, o1[1..]);
      assert Pick(v, [x] + b) == [v[x]] + Pick(v, b);
    }
  }

  /** A permutation of the submission order hands back the same multiset of results. */
  lemma PermutedResults<T>(v: seq<T>, order: seq<nat>)
    requires IsPermutation(order, |v|)
    ensures InBounds(order, |v|)
    ensures multiset(Pick(v, order)) == multiset(v)
  {
    PermutationBounds(order, |v|);
    PickMultiset(v, order, Indices(|v|));
    forall j | 0 <= j < |v|
      ensures Pick(v, Indices(|v|))[j] == v[j]
    {
      PickAt(v, Indices(|v|), j);
    }
    assert Pick(v, Indices(|v|)) == v;
  }

  predicate AllTerminate(sources: seq<ArticleSource>)
  {
    forall i :: 0 <= i < |sources| ==> Terminates(sources[i].responses)
  }

  /** The outcomes of the first `n` submitted tasks, in submission order (`OutcomeAt`). */
  function OutcomesUpTo(urlEnds: seq<string>, sources: seq<ArticleSource>, toIso: string -> Option<string>, n: nat)
    : (outs: seq<Result<Article, ParseError>>)
    requires |urlEnds| == |sources| && AllTerminate(sources) && n <= |sources|
    ensures |outs| == n
  {
    if n == 0 then []
    else
      OutcomesUpTo(urlEnds, sources, toIso, n - 1)
        + [ArticleOutcome(urlEnds[n - 1], FetchVerdict(sources[n - 1].responses), sources[n - 1].page, toIso)]
  }

  /** The outcome of every submitted task, in submission order. */
  function TaskOutcomes(urlEnds: seq<string>, sources: seq<ArticleSource>, toIso: string -> Option<string>)
    : (outs: seq<Result<Article, ParseError>>)
    requires |urlEnds| == |sources| && AllTerminate(sources)
    ensures |outs| == |sources|
  {
    OutcomesUpTo(urlEnds, sources, toIso, |sources|)
  }

  lemma {:induction false} OutcomeAt(urlEnds: seq<string>, sources: seq<ArticleSource>,
                                     toIso: string -> Option<string>, n: nat, i: nat)
    requires |urlEnds| == |sources| && AllTerminate(sources) && i < n <= |sources|
    ensures OutcomesUpTo(urlEnds, sources, toIso, n)[i]
      == ArticleOutcome(urlEnds[i], FetchVerdict(sources[i].responses), sources[i].page, toIso)
    decreases n
  {
    if i < n - 1 {
      OutcomeAt(urlEnds, sources, toIso, n - 1, i);
    }
  }

  /** `results.append(r.result())` over completed tasks: the records so far, or the first error raised. */
  function Gather(completed: seq<Result<Article, ParseError>>): Result<seq<Article>, ParseError>
    decreases |completed|
  {
    if |completed| == 0 then Ok([])
    else
      var last := completed[|completed| - 1];
      match Gather(completed[..|completed| - 1])
      case Err(e) => Err(e)
      case Ok(vs) => if last.Err? then Err(last.error) else Ok(vs + [last.value])
  }

  /** Gathering succeeds exactly when every task succeeded, and then keeps their order. */
  lemma {:induction false} GatherOk(completed: seq<Result<Article, ParseError>>)
    ensures Gather(completed).Ok? <==> forall k :: 0 <= k < |completed| ==> completed[k].Ok?
    ensures Gather(completed).Ok? ==>
      |Gather(completed).value| == |completed|
      && forall k :: 0 <= k < |completed| ==> Gather(completed).value[k] == completed[k].value
    decreases |completed|
  {
    if |completed| > 0 {
      var init := completed[..|completed| - 1];
      GatherOk(init);
      assert forall k :: 0 <= k < |init| ==> init[k] == completed[k];
    }
  }

  /** What `work_day` returns: the day's records sorted by stamp, or why it stopped. */
  function DayOutcome(day: DaySource, sources: seq<ArticleSource>, order: seq<nat>, toIso: string -> Option<string>)
    : Result<seq<Article>, DayFailure>
    requires Terminates(day.responses)
    requires |sources| == |FilterHrefs(day.hrefs)| && AllTerminate(sources)
    requires IsPermutation(order, |sources|)
  {
    match DayLocators(FetchVerdict(day.responses), day.hrefs)
    case Err(_) => Err(IndexMissing)
    case Ok(urlEnds) =>
      var outs := TaskOutcomes(urlEnds, sources, toIso);
      PermutationBounds(order, |outs|);
      match Gather(Pick(outs, order))
      case Err(e) => Err(ArticleFailed(e))
      case Ok(results) => Ok(SortByStamp(results))
  }

  /** Every sleep of the dispatch loop over the first `n` tasks: each task's fetch sleeps, then the dispatch `sleep(DELAY)`. */
  function SleepsUpTo(sources: seq<ArticleSource>, n: nat): seq<nat>
    requires AllTerminate(sources) && n <= |sources|
  {
    if n == 0 then []
    else SleepsUpTo(sources, n - 1) + FetchSleeps(sources[n - 1].responses) + [FinalDelay(sources[n - 1].responses)]
  }

  function DispatchSleeps(sources: seq<ArticleSource>): seq<nat>
    requires AllTerminate(sources)
  {
    SleepsUpTo(sources, |sources|)
  }

  /** The sleeps of the first `m` tasks come first in those of the first `n`. */
  lemma {:induction false} SleepsPrefix(sources: seq<ArticleSource>, m: nat, n: nat)
    requires AllTerminate(sources) && m <= n <= |sources|
    ensures SleepsUpTo(sources, m) <= SleepsUpTo(sources, n)
    decreases n - m
  {
    if m < n {
      SleepsPrefix(sources, m, n - 1);
      var init := SleepsUpTo(sources, n - 1);
      assert SleepsUpTo(sources, n) == init + (FetchSleeps(sources[n - 1].responses) + [FinalDelay(sources[n - 1].responses)]);
      assert init <= SleepsUpTo(sources, n);
    }
  }

  /**
   * In the sequential schedule, the dispatch sleep after task `i` is the
   * throttle left by that task's last response: 400 ms when it took more
   * than 400 ms, 0 otherwise. It is the last entry of the log up to task
   * `i`, which the whole dispatch log starts with.
   */
  lemma DispatchSleepFollowsLatency(sources: seq<ArticleSource>, i: nat)
    requires AllTerminate(sources) && i < |sources|
    ensures SleepsUpTo(sources, i + 1) <= DispatchSleeps(sources)
    ensures var s := SleepsUpTo(sources, i + 1); var rs := sources[i].responses;
      |s| > 0
      && s[|s| - 1] == DelayFor(rs[TerminalIndex(rs)].elapsedMs)
      && (s[|s| - 1] == SlowDelayMs <==> rs[TerminalIndex(rs)].elapsedMs > SlowThresholdMs)
  {
    SleepsPrefix(sources, i + 1, |sources|);
  }

  /**
   * The submission loop of `work_day`: run each locator's task and append
   * its future, then sleep the current `DELAY` before the next dispatch.
   */
  method Dispatch(throttle: Throttle, urlEnds: seq<string>, sources: seq<ArticleSource>, toIso: string -> Option<string>)
    returns (futures: seq<Result<Article, ParseError>>)
    requires |urlEnds| == |sources| && AllTerminate(sources)
    requires throttle.Valid()
    modifies throttle
    ensures throttle.Valid()
    ensures futures == TaskOutcomes(urlEnds, sources, toIso)
    ensures throttle.slept == old(throttle.slept) + DispatchSleeps(sources)
    ensures throttle.delay == if |sources| == 0 then old(throttle.delay) else FinalDelay(sources[|sources| - 1].responses)
  {
    futures := [];
    for i := 0 to |urlEnds|
      invariant throttle.Valid()
      invariant futures == OutcomesUpTo(urlEnds, sources, toIso, i)
      invariant throttle.slept == old(throttle.slept) + SleepsUpTo(sources, i)
      invariant throttle.delay == if i == 0 then old(throttle.delay) else FinalDelay(sources[i - 1].responses)
    {
      var outcome := ParseArticle(throttle, urlEnds[i], sources[i], toIso);
      futures := futures + [outcome];
      throttle.SleepDelay();
      SleepsStep(old(throttle.slept), sources, i);
    }
  }

  /** One more dispatched task appends its fetch sleeps and one dispatch sleep. */
  lemma SleepsStep(prior: seq<nat>, sources: seq<ArticleSource>, i: nat)
    requires AllTerminate(sources) && i < |sources|
    ensures prior + SleepsUpTo(sources, i) + FetchSleeps(sources[i].responses) + [FinalDelay(sources[i].responses)]
      == prior + SleepsUpTo(sources, i + 1)
  {
    var step := FetchSleeps(sources[i].responses) + [FinalDelay(sources[i].responses)];
    calc {
      prior + SleepsUpTo(sources, i) + FetchSleeps(sources[i].responses) + [FinalDelay(sources[i].responses)];
      prior + (SleepsUpTo(sources, i) + step);
      prior + SleepsUpTo(sources, i + 1);
    }
  }

  /** The `as_completed` loop: append each result, re-raising the first error met. */
  method Collect(completed: seq<Result<Article, ParseError>>) returns (r: Result<seq<Article>, ParseError>)
    ensures r == Gather(completed)
  {
    var results: seq<Article> := [];
    for j := 0 to |completed|
      invariant Gather(completed[..j]) == Ok(results)
    {
      var outcome := completed[j];
      assert completed[..j + 1][..j] == completed[..j];
      if outcome.Err? {
        GatherFirstError(completed, j + 1);
        return Err(outcome.error);
      }
      results := results + [outcome.value];
    }
    assert completed[..|completed|] == completed;
    r := Ok(results);
  }

  /** `work_day`. */
  method WorkDay(throttle: Throttle, day: DaySource, sources: seq<ArticleSource>, order: seq<nat>,
                 toIso: string -> Option<string>)
    returns (r: Result<seq<Article>, DayFailure>)
    requires Terminates(day.responses)
    requires |sources| == |FilterHrefs(day.hrefs)| && AllTerminate(sources)
    requires IsPermutation(order, |sources|)
    modifies throttle
    ensures throttle.Valid()
    ensures r == DayOutcome(day, sources, order, toIso)
    ensures FetchVerdict(day.responses) == NotFound ==>
      throttle.slept == old(throttle.slept) + FetchSleeps(day.responses)
      && throttle.delay == FinalDelay(day.responses)
    ensures FetchVerdict(day.responses) != NotFound ==>
      throttle.slept == old(throttle.slept) + FetchSleeps(day.responses) + DispatchSleeps(sources)
      && throttle.delay == if |sources| == 0 then FinalDelay(day.responses)
                           else FinalDelay(sources[|sources| - 1].responses)
  {
    var located := ParseDay(throttle, day);
    if located.Err? {
      return Err(IndexMissing);
    }
    var urlEnds := located.value;
    var futures := Dispatch(throttle, urlEnds, sources, toIso);
    PermutationBounds(order, |futures|);
    var gathered := Collect(Pick(futures, order));
    if gathered.Err? {
      return Err(ArticleFailed(gathered.error));
    }
    r := Ok(SortByStamp(gathered.value));
  }

  /** Once a prefix of the completed tasks has failed, the whole gathering fails with the same error. */
  lemma {:induction false} GatherFirstError(completed: seq<Result<Article, ParseError>>, n: nat)
    requires n <= |completed| && Gather(completed[..n]).Err?
    ensures Gather(completed) == Gather(completed[..n])
    decreases |completed| - n
  {
    if n < |completed| {
      assert completed[..|completed| - 1][..n] == completed[..n];
      GatherFirstError(completed[..|completed| - 1], n);
    } else {
      assert completed[..n] == completed;
    }
  }

  // ---------------------------------------------------------------- properties of a day

  /** A day completes exactly when its index exists and every article parses, whatever the completion order. */
  lemma DayOkIffAllParse(day: DaySource, sources: seq<ArticleSource>, order: seq<nat>, toIso: string -> Option<string>)
    requires Terminates(day.responses)
    requires |sources| == |FilterHrefs(day.hrefs)| && AllTerminate(sources)
    requires IsPermutation(order, |sources|)
    ensures FetchVerdict(day.responses) == NotFound ==> DayOutcome(day, sources, order, toIso) == Err(IndexMissing)
    ensures DayOutcome(day, sources, order, toIso).Ok? <==>
      FetchVerdict(day.responses) != NotFound && AllOk(TaskOutcomes(FilterHrefs(day.hrefs), sources, toIso))
  {
    if FetchVerdict(day.responses) != NotFound {
      var outs := TaskOutcomes(FilterHrefs(day.hrefs), sources, toIso);
      PermutedResults(outs, order);
      var completed := Pick(outs, order);
      GatherOk(completed);
      AllOkMultiset(outs, completed);
    }
  }

  predicate AllOk(outs: seq<Result<Article, ParseError>>)
  {
    forall i :: 0 <= i < |outs| ==> outs[i].Ok?
  }

  /** Whether every outcome succeeded does not depend on their order. */
  lemma AllOkMultiset(a: seq<Result<Article, ParseError>>, b: seq<Result<Article, ParseError>>)
    requires multiset(a) == multiset(b)
    ensures AllOk(a) <==> AllOk(b)
  {
    if AllOk(a) {
      forall i | 0 <= i < |b|
        ensures b[i].Ok?
      {
        assert b[i] in multiset(a);
      }
    }
    if AllOk(b) {
      forall i | 0 <= i < |a|
        ensures a[i].Ok?
      {
        assert a[i] in multiset(b);
      }
    }
  }

  function OkValues(outs: seq<Result<Article, ParseError>>): (vs: seq<Article>)
    requires AllOk(outs)
    ensures |vs| == |outs| && forall i :: 0 <= i < |outs| ==> vs[i] == outs[i].value
  {
    seq(|outs|, i requires 0 <= i < |outs| => outs[i].value)
  }

  /** Every record a task produces is stored under its own locator's url. */
  lemma TaskUrls(urlEnds: seq<string>, sources: seq<ArticleSource>, toIso: string -> Option<string>)
    requires |urlEnds| == |sources| && AllTerminate(sources)
    ensures var outs := TaskOutcomes(urlEnds, sources, toIso);
      forall i :: 0 <= i < |outs| && outs[i].Ok? ==> outs[i].value.url == StoreUrl(urlEnds[i])
  {
    var outs := TaskOutcomes(urlEnds, sources, toIso);
    forall i | 0 <= i < |outs| && outs[i].Ok?
      ensures outs[i].value.url == StoreUrl(urlEnds[i])
    {
      OutcomeAt(urlEnds, sources, toIso, |sources|, i);
      NotFoundGivesSentinel(urlEnds[i], FetchVerdict(sources[i].responses), sources[i].page, toIso);
    }
  }

  /**
   * A completed day holds exactly one record per kept locator: a
   * permutation of the tasks' records, sorted by stamp.
   */
  lemma DayRecords(day: DaySource, sources: seq<ArticleSource>, order: seq<nat>, toIso: string -> Option<string>)
    requires Terminates(day.responses)
    requires |sources| == |FilterHrefs(day.hrefs)| && AllTerminate(sources)
    requires IsPermutation(order, |sources|)
    requires DayOutcome(day, sources, order, toIso).Ok?
    ensures AllOk(TaskOutcomes(FilterHrefs(day.hrefs), sources, toIso))
    ensures var v := DayOutcome(day, sources, order, toIso).value;
      |v| == |sources| && Sorted(v)
      && multiset(v) == multiset(OkValues(TaskOutcomes(FilterHrefs(day.hrefs), sources, toIso)))
  {
    var outs := TaskOutcomes(FilterHrefs(day.hrefs), sources, toIso);
    DayOkIffAllParse(day, sources, order, toIso);
    PermutedResults(OkValues(outs), order);
    GatherPicked(outs, order);
  }

  /** When every task succeeded, gathering them in any order yields their records in that order. */
  lemma GatherPicked(outs: seq<Result<Article, ParseError>>, order: seq<nat>)
    requires AllOk(outs) && InBounds(order, |outs|)
    ensures Gather(Pick(outs, order)) == Ok(Pick(OkValues(outs), order))
  {
    var completed, vals := Pick(outs, order), OkValues(outs);
    forall k | 0 <= k < |completed|
      ensures completed[k].Ok? && completed[k].value == Pick(vals, order)[k]
    {
      PickAt(outs, order, k);
      PickAt(vals, order, k);
    }
    GatherOk(completed);
    assert Gather(completed).value == Pick(vals, order);
  }

  /** A locator whose page does not exist still yields its sentinel record in a completed day. */
  lemma NotFoundLocatorKept(day: DaySource, sources: seq<ArticleSource>, order: seq<nat>, toIso: string -> Option<string>, i: nat)
    requires Terminates(day.responses)
    requires |sources| == |FilterHrefs(day.hrefs)| && AllTerminate(sources)
    requires IsPermutation(order, |sources|)
    requires DayOutcome(day, sources, order, toIso).Ok?
    requires i < |sources| && FetchVerdict(sources[i].responses) == NotFound
    ensures Sentinel(FilterHrefs(day.hrefs)[i]) in DayOutcome(day, sources, order, toIso).value
  {
    DayRecords(day, sources, order, toIso);
    var outs := TaskOutcomes(FilterHrefs(day.hrefs), sources, toIso);
    var vals := OkValues(outs);
    OutcomeAt(FilterHrefs(day.hrefs), sources, toIso, |sources|, i);
    assert vals[i] == Sentinel(FilterHrefs(day.hrefs)[i]);
    assert vals[i] in multiset(vals);
  }
}
