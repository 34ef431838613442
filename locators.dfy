/**
 * `parse_day`: fetch a day's index page and keep the article locators
 * that point at the site itself. The XPath query is replaced by the list
 * of hrefs it yields.
 */
module Locators {
  import opened Wrappers
  import opened Text
  import opened Fetch

  /** Substrings that mark an href as off-site or malformed. */
  const InopressaMarker: string := "https://www.inopressa.ru"
  const MeddailyMarker: string := "//www.meddaily.ru"
  const EmptyPageMarker: string := "/.html"

  /** What the origin does when asked for a day's index: its responses, and the hrefs on the 200 page. */
  datatype DaySource = DaySource(responses: seq<Response>, hrefs: seq<string>)

  /** `parse_day` reads `.text` of the int 404 when the index is not found: an AttributeError. */
  datatype DayError = IndexNotFound

  predicate Keep(href: string)
  {
    !(Contains(href, InopressaMarker) || Contains(href, MeddailyMarker) || Contains(href, EmptyPageMarker))
  }

  /** The comprehension that removes bad urls. */
  function FilterHrefs(hrefs: seq<string>): (kept: seq<string>)
    ensures |kept| <= |hrefs|
    ensures forall i :: 0 <= i < |kept| ==> Keep(kept[i])
    decreases |hrefs|
  {
    if |hrefs| == 0 then []
    else if Keep(hrefs[0]) then [hrefs[0]] + FilterHrefs(hrefs[1..])
    else FilterHrefs(hrefs[1..])
  }

  /** `a` is `b` with some elements removed, the rest in their original order. */
  predicate IsSubsequence<T(==)>(a: seq<T>, b: seq<T>)
    decreases |b|
  {
    |a| == 0 || (|b| > 0 && ((a[0] == b[0] && IsSubsequence(a[1..], b[1..])) || IsSubsequence(a, b[1..])))
  }

  lemma {:induction false} FilterIsSubsequence(hrefs: seq<string>)
    ensures IsSubsequence(FilterHrefs(hrefs), hrefs)
    decreases |hrefs|
  {
    if |hrefs| > 0 {
      FilterIsSubsequence(hrefs[1..]);
      if Keep(hrefs[0]) {
        assert FilterHrefs(hrefs)[1..] == FilterHrefs(hrefs[1..]);
      }
    }
  }

  /** Each kept href occurs as often as in the input; each dropped one not at all. */
  lemma {:induction false} FilterMultiplicity(hrefs: seq<string>, h: string)
    ensures multiset(FilterHrefs(hrefs))[h] == if Keep(h) then multiset(hrefs)[h] else 0
    decreases |hrefs|
  {
    if |hrefs| > 0 {
      FilterMultiplicity(hrefs[1..], h);
      assert hrefs == [hrefs[0]] + hrefs[1..];
    }
  }

  /** An href survives exactly when it is in the input and carries none of the markers. */
  lemma FilterMembership(hrefs: seq<string>, h: string)
    ensures h in FilterHrefs(hrefs) <==> h in hrefs && Keep(h)
  {
    FilterMultiplicity(hrefs, h);
  }

  /** Filtering an already filtered list changes nothing. */
  lemma {:induction false} FilterIdempotent(hrefs: seq<string>)
    ensures FilterHrefs(FilterHrefs(hrefs)) == FilterHrefs(hrefs)
    decreases |hrefs|
  {
    if |hrefs| > 0 {
      FilterIdempotent(hrefs[1..]);
      if Keep(hrefs[0]) {
        assert FilterHrefs(hrefs)[1..] == FilterHrefs(hrefs[1..]);
      }
    }
  }

  /** `parse_day`'s result once `get_url` has returned `verdict` for the index page. */
  function DayLocators(verdict: Verdict, hrefs: seq<string>): Result<seq<string>, DayError>
  {
    if verdict == NotFound then Err(IndexNotFound) else Ok(FilterHrefs(hrefs))
  }

  /** `parse_day`: fetch the index, fail on a missing one, keep the good locators. */
  method ParseDay(throttle: Throttle, day: DaySource) returns (r: Result<seq<string>, DayError>)
    requires Terminates(day.responses)
    modifies throttle
    ensures throttle.Valid()
    ensures r == DayLocators(FetchVerdict(day.responses), day.hrefs)
    ensures throttle.delay == FinalDelay(day.responses)
    ensures throttle.slept == old(throttle.slept) + FetchSleeps(day.responses)
  {
    var verdict, _ := throttle.GetUrl(day.responses);
    if verdict == NotFound {
      return Err(IndexNotFound);
    }
    r := Ok(FilterHrefs(day.hrefs));
  }
}
