/**
 * `sorted(results, key=lambda x: x.time_stamp)`: Python compares strings
 * code point by code point, a shorter prefix first.
 */
module Ordering {
  import opened Articles

  /** Python's `a <= b` on strings. */
  predicate StampLe(a: string, b: string)
    decreases |a|
  {
    |a| == 0 || (|b| > 0 && (a[0] < b[0] || (a[0] == b[0] && StampLe(a[1..], b[1..]))))
  }

  lemma {:induction false} StampLeTotal(a: string, b: string)
    ensures StampLe(a, b) || StampLe(b, a)
    decreases |a|
  {
    if |a| > 0 && |b| > 0 && a[0] == b[0] {
      StampLeTotal(a[1..], b[1..]);
    }
  }

  lemma {:induction false} StampLeTransitive(a: string, b: string, c: string)
    requires StampLe(a, b) && StampLe(b, c)
    ensures StampLe(a, c)
    decreases |a|
  {
    if |a| > 0 && a[0] == b[0] && b[0] == c[0] {
      StampLeTransitive(a[1..], b[1..], c[1..]);
    }
  }

  /** Only the empty stamp sorts at or before the empty stamp. */
  lemma StampLeEmpty(a: string)
    ensures StampLe(a, "") <==> a == ""
  {
  }

  predicate Sorted(xs: seq<Article>)
  {
    forall i, j :: 0 <= i < j < |xs| ==> StampLe(xs[i].timeStamp, xs[j].timeStamp)
  }

  /** Puts `x` in front of the first record it sorts at or before. */
  function Insert(x: Article, xs: seq<Article>): (r: seq<Article>)
    ensures multiset(r) == multiset(xs) + multiset{x}
    decreases |xs|
  {
    if |xs| == 0 then [x]
    else if StampLe(x.timeStamp, xs[0].timeStamp) then [x] + xs
    else
      assert xs == [xs[0]] + xs[1..];
      [xs[0]] + Insert(x, xs[1..])
  }

  /** Stamp `a` sorts at or before every record of `xs`. */
  predicate LeAll(a: string, xs: seq<Article>)
  {
    forall k :: 0 <= k < |xs| ==> StampLe(a, xs[k].timeStamp)
  }

  lemma SortedCons(a: Article, xs: seq<Article>)
    requires Sorted(xs) && LeAll(a.timeStamp, xs)
    ensures Sorted([a] + xs)
  {
    forall i, j | 0 <= i < j < |xs| + 1
      ensures StampLe(([a] + xs)[i].timeStamp, ([a] + xs)[j].timeStamp)
    {
      assert ([a] + xs)[j] == xs[j - 1];
      if i > 0 {
        assert ([a] + xs)[i] == xs[i - 1];
      }
    }
  }

  /** Inserting into a sorted list keeps it sorted. */
  lemma {:induction false} InsertSorted(x: Article, xs: seq<Article>)
    requires Sorted(xs)
    ensures Sorted(Insert(x, xs))
    decreases |xs|
  {
    if |xs| == 0 {
    } else if StampLe(x.timeStamp, xs[0].timeStamp) {
      forall k | 0 <= k < |xs|
        ensures StampLe(x.timeStamp, xs[k].timeStamp)
      {
        if k > 0 {
          StampLeTransitive(x.timeStamp, xs[0].timeStamp, xs[k].timeStamp);
        }
      }
      SortedCons(x, xs);
    } else {
      var tail := xs[1..];
      assert Sorted(tail) by {
        forall i, j | 0 <= i < j < |tail|
          ensures StampLe(tail[i].timeStamp, tail[j].timeStamp)
        {
          assert tail[i] == xs[i + 1] && tail[j] == xs[j + 1];
        }
      }
      var rest := Insert(x, tail);
      InsertSorted(x, tail);
      StampLeTotal(x.timeStamp, xs[0].timeStamp);
      forall k | 0 <= k < |rest|
        ensures StampLe(xs[0].timeStamp, rest[k].timeStamp)
      {
        assert rest[k] in multiset(rest);
        if rest[k] != x {
          assert rest[k] in multiset(tail);
          var j :| 0 <= j < |tail| && tail[j] == rest[k];
          assert xs[j + 1] == rest[k];
        }
      }
      SortedCons(xs[0], rest);
    }
  }

  /** The records ordered by time stamp: a sorted permutation of the input. */
  function SortByStamp(xs: seq<Article>): (r: seq<Article>)
    ensures multiset(r) == multiset(xs)
    ensures Sorted(r)
    decreases |xs|
  {
    if |xs| == 0 then []
    else
      assert xs == [xs[0]] + xs[1..];
      InsertSorted(xs[0], SortByStamp(xs[1..]));
      Insert(xs[0], SortByStamp(xs[1..]))
  }

  /** In a sorted day, records with an empty stamp (the sentinels) come before all others. */
  lemma SentinelsFirst(xs: seq<Article>, i: nat, j: nat)
    requires Sorted(xs) && i < j < |xs|
    requires xs[j].timeStamp == ""
    ensures xs[i].timeStamp == ""
  {
    StampLeEmpty(xs[i].timeStamp);
  }

  lemma {:induction false} StampLeReflexive(a: string)
    ensures StampLe(a, a)
    decreases |a|
  {
    if |a| > 0 {
      StampLeReflexive(a[1..]);
    }
  }

  /** The records whose stamp is `t`, in their order. */
  function WithStamp(xs: seq<Article>, t: string): seq<Article>
    decreases |xs|
  {
    if |xs| == 0 then [] else (if xs[0].timeStamp == t then [xs[0]] else []) + WithStamp(xs[1..], t)
  }

  lemma WithStampCons(a: Article, rest: seq<Article>, t: string)
    ensures WithStamp([a] + rest, t) == (if a.timeStamp == t then [a] else []) + WithStamp(rest, t)
  {
    assert ([a] + rest)[1..] == rest;
  }

  lemma {:induction false} InsertStable(x: Article, ys: seq<Article>, t: string)
    ensures WithStamp(Insert(x, ys), t) == (if x.timeStamp == t then [x] else []) + WithStamp(ys, t)
    decreases |ys|
  {
    if |ys| == 0 {
      WithStampCons(x, [], t);
    } else if StampLe(x.timeStamp, ys[0].timeStamp) {
      WithStampCons(x, ys, t);
    } else {
      var y, tail := ys[0], ys[1..];
      var rest := Insert(x, tail);
      assert Insert(x, ys) == [y] + rest;
      assert ys == [y] + tail;
      InsertStable(x, tail, t);
      WithStampCons(y, rest, t);
      WithStampCons(y, tail, t);
      if x.timeStamp == t {
        StampLeReflexive(t);
        assert WithStamp(Insert(x, ys), t) == WithStamp(rest, t);
        assert WithStamp(ys, t) == WithStamp(tail, t);
      }
    }
  }

  /** `sorted` is stable: records with equal stamps keep their relative order. */
  lemma {:induction false} SortStable(xs: seq<Article>, t: string)
    ensures WithStamp(SortByStamp(xs), t) == WithStamp(xs, t)
    decreases |xs|
  {
    if |xs| > 0 {
      SortStable(xs[1..], t);
      InsertStable(xs[0], SortByStamp(xs[1..]), t);
    }
  }
}
