/** `daterange`: the days of a run, a day being its ordinal number. */
module Calendar {

  /** The days `start`, `start + 1`, ... up to, but not including, `end`; none when `end <= start`. */
  function DateRange(start: int, end: int): seq<int>
    decreases end - start
  {
    if start < end then [start] + DateRange(start + 1, end) else []
  }

  /** `range((end - start).days)` gives `end - start` days, each the previous plus one. */
  lemma {:induction false} DateRangeDays(start: int, end: int)
    ensures |DateRange(start, end)| == if start < end then end - start else 0
    ensures forall i :: 0 <= i < |DateRange(start, end)| ==> DateRange(start, end)[i] == start + i
    decreases end - start
  {
    if start < end {
      DateRangeDays(start + 1, end);
    }
  }

  /** A day is yielded exactly when it lies in `[start, end)`. */
  lemma DateRangeMembers(start: int, end: int, d: int)
    ensures d in DateRange(start, end) <==> start <= d < end
  {
    DateRangeDays(start, end);
    if start <= d < end {
      assert DateRange(start, end)[d - start] == d;
    }
  }

  /** Running `[a, b)` and then `[b, c)` visits the same days, in the same order, as running `[a, c)`. */
  lemma {:induction false} DateRangeSplit(a: int, b: int, c: int)
    requires a <= b <= c
    ensures DateRange(a, c) == DateRange(a, b) + DateRange(b, c)
    decreases b - a
  {
    if a < b {
      DateRangeSplit(a + 1, b, c);
    }
  }
}
