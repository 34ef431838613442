/**
 * The Python string operations the scraper relies on, over `seq<char>`:
 * substring test (`in`), `str.replace`, `str.strip`, `str.lstrip(chars)`
 * and `str.join`.
 */
module Text {

  /** `p in s` for Python strings: `p` occurs somewhere in `s`. */
  predicate Contains(s: string, p: string)
    decreases |s|
  {
    p <= s || (|s| > 0 && Contains(s[1..], p))
  }

  /** No character of `a` occurs in `b`. */
  predicate Disjoint(a: string, b: string)
  {
    forall i, j :: 0 <= i < |a| && 0 <= j < |b| ==> a[i] != b[j]
  }

  /**
   * `s.replace(p, r)`: scan left to right, replacing every non-overlapping
   * occurrence of the non-empty pattern `p` by `r`.
   */
  function ReplaceAll(s: string, p: string, r: string): string
    requires |p| > 0
    decreases |s|
  {
    if p <= s then r + ReplaceAll(s[|p|..], p, r)
    else if |s| == 0 then []
    else [s[0]] + ReplaceAll(s[1..], p, r)
  }

  lemma {:induction false} ContainsLength(s: string, p: string)
    requires Contains(s, p)
    ensures |p| <= |s|
    decreases |s|
  {
    if !(p <= s) {
      ContainsLength(s[1..], p);
    }
  }

  /** An occurrence inside a suffix is an occurrence in the whole string. */
  lemma {:induction false} ContainsInSuffix(s: string, k: nat, p: string)
    requires k <= |s| && Contains(s[k..], p)
    ensures Contains(s, p)
    decreases k
  {
    if k > 0 {
      assert s[1..][k - 1..] == s[k..];
      ContainsInSuffix(s[1..], k - 1, p);
    }
  }

  /** `b` occurs in `a + b + c`. */
  lemma {:induction false} ContainsMiddle(a: string, b: string, c: string)
    ensures Contains(a + b + c, b)
    decreases |a|
  {
    if a == [] {
      assert a + b + c == b + c;
    } else {
      assert (a + b + c)[1..] == a[1..] + b + c;
      ContainsMiddle(a[1..], b, c);
    }
  }

  /** A prefix `a` none of whose characters starts `p` cannot hold an occurrence of `p` that reaches into `b`. */
  lemma {:induction false} ContainsSkip(a: string, b: string, p: string)
    requires |p| > 0
    requires forall i :: 0 <= i < |a| ==> a[i] != p[0]
    requires Contains(a + b, p)
    ensures Contains(b, p)
    decreases |a|
  {
    if a != [] {
      assert !(p <= a + b) by {
        assert (a + b)[0] == a[0];
      }
      assert (a + b)[1..] == a[1..] + b;
      ContainsSkip(a[1..], b, p);
    } else {
      assert a + b == b;
    }
  }

  lemma PrefixHead(w: string, x: string)
    ensures |w| > 0 && w <= x ==> w[0] == x[0]
  {
  }

  lemma PrefixCons(w: string, x: string)
    ensures |w| > 0 && |x| > 0 && w[0] == x[0] && w[1..] <= x[1..] ==> w <= x
  {
    if |w| > 0 && |x| > 0 && w[0] == x[0] && w[1..] <= x[1..] {
      assert w == [w[0]] + w[1..] && x == [x[0]] + x[1..];
    }
  }

  /**
   * Replacing by a non-empty `r` never manufactures a prefix made of
   * characters foreign to `r`: such a prefix of the result was already
   * a prefix of the input.
   */
  lemma {:induction false} ReplacePrefix(t: string, p: string, r: string, w: string)
    requires |p| > 0 && |r| > 0 && Disjoint(w, r)
    requires w <= ReplaceAll(t, p, r)
    ensures w <= t
    decreases |t|
  {
    if |w| == 0 {
    } else if p <= t {
      PrefixHead(w, ReplaceAll(t, p, r));
      assert false;
    } else if |t| == 0 {
    } else {
      var rest := ReplaceAll(t[1..], p, r);
      assert ReplaceAll(t, p, r) == [t[0]] + rest;
      assert w[1..] <= rest;
      ReplacePrefix(t[1..], p, r, w[1..]);
      assert w == [t[0]] + w[1..];
    }
  }

  /** At an occurrence of `p`, `replace` emits `r` and carries on after it. */
  lemma ReplaceAtMatch(p: string, r: string, b: string)
    requires |p| > 0
    ensures ReplaceAll(p + b, p, r) == r + ReplaceAll(b, p, r)
  {
    assert p <= p + b;
    assert (p + b)[|p|..] == b;
  }

  /** A character that cannot start `p` is copied and the scan moves one step. */
  lemma ReplaceAtMismatch(c: char, t: string, p: string, r: string)
    requires |p| > 0 && c != p[0]
    ensures ReplaceAll([c] + t, p, r) == [c] + ReplaceAll(t, p, r)
  {
    PrefixHead(p, [c] + t);
    assert ([c] + t)[1..] == t;
  }

  /**
   * `replace` keeps a prefix that cannot start `p`, turns the occurrence
   * of `p` that follows it into `r`, and carries on after it.
   */
  lemma {:induction false} ReplaceSplit(a: string, p: string, r: string, b: string)
    requires |p| > 0
    requires forall i :: 0 <= i < |a| ==> a[i] != p[0]
    ensures ReplaceAll(a + p + b, p, r) == a + r + ReplaceAll(b, p, r)
    decreases |a|
  {
    if a == [] {
      assert a + p + b == p + b;
      ReplaceAtMatch(p, r, b);
    } else {
      assert a + p + b == [a[0]] + (a[1..] + p + b);
      ReplaceAtMismatch(a[0], a[1..] + p + b, p, r);
      ReplaceSplit(a[1..], p, r, b);
      ConsRegroup(a, r, ReplaceAll(b, p, r));
    }
  }

  lemma ConsRegroup(a: string, y: string, z: string)
    requires |a| > 0
    ensures [a[0]] + (a[1..] + y + z) == a + y + z
  {
    assert a == [a[0]] + a[1..];
  }

  /** After `s.replace(p, r)` with `r` sharing no character with `p`, `p` no longer occurs. */
  lemma {:induction false} ReplaceRemoves(s: string, p: string, r: string)
    requires |p| > 0 && |r| > 0 && Disjoint(p, r)
    ensures !Contains(ReplaceAll(s, p, r), p)
    decreases |s|
  {
    var res := ReplaceAll(s, p, r);
    if p <= s {
      ReplaceRemoves(s[|p|..], p, r);
      if Contains(res, p) {
        ContainsSkip(r, ReplaceAll(s[|p|..], p, r), p);
      }
    } else if |s| == 0 {
      if Contains(res, p) {
        ContainsLength(res, p);
      }
    } else {
      var rest := ReplaceAll(s[1..], p, r);
      assert res == [s[0]] + rest;
      ReplaceRemoves(s[1..], p, r);
      if p <= res {
        assert p[1..] <= rest;
        ReplacePrefix(s[1..], p, r, p[1..]);
        PrefixCons(p, s);
        assert false;
      }
      assert res[1..] == rest;
    }
  }

  /** `s.replace(p, r)` introduces no occurrence of a `q` that shares no character with `r`. */
  lemma {:induction false} ReplaceKeepsAbsent(s: string, p: string, r: string, q: string)
    requires |p| > 0 && |r| > 0 && |q| > 0 && Disjoint(q, r)
    requires !Contains(s, q)
    ensures !Contains(ReplaceAll(s, p, r), q)
    decreases |s|
  {
    var res := ReplaceAll(s, p, r);
    if p <= s {
      var tail := ReplaceAll(s[|p|..], p, r);
      if Contains(s[|p|..], q) {
        ContainsInSuffix(s, |p|, q);
      }
      ReplaceKeepsAbsent(s[|p|..], p, r, q);
      if Contains(res, q) {
        ContainsSkip(r, tail, q);
      }
    } else if |s| == 0 {
      if Contains(res, q) {
        ContainsLength(res, q);
      }
    } else {
      var rest := ReplaceAll(s[1..], p, r);
      assert res == [s[0]] + rest;
      ReplaceKeepsAbsent(s[1..], p, r, q);
      if q <= res {
        assert q[1..] <= rest;
        ReplacePrefix(s[1..], p, r, q[1..]);
        PrefixCons(q, s);
        assert false;
      }
      assert res[1..] == rest;
    }
  }

  /** Where `p` does not occur, `s.replace(p, r)` is `s` itself. */
  lemma {:induction false} ReplaceAbsent(s: string, p: string, r: string)
    requires |p| > 0 && !Contains(s, p)
    ensures ReplaceAll(s, p, r) == s
    decreases |s|
  {
    if |s| > 0 {
      ReplaceAbsent(s[1..], p, r);
      assert s == [s[0]] + s[1..];
    }
  }

  /** Python's `str.isspace` characters, the ones `str.strip()` removes. */
  predicate IsSpace(c: char)
  {
    ('\U{9}' <= c <= '\U{D}') || ('\U{1C}' <= c <= '\U{20}') || c == '\U{85}' || c == '\U{A0}'
    || c == '\U{1680}' || ('\U{2000}' <= c <= '\U{200A}') || c == '\U{2028}' || c == '\U{2029}'
    || c == '\U{202F}' || c == '\U{205F}' || c == '\U{3000}'
  }

  /** Drops the longest prefix whose characters all satisfy `drop`. */
  function LStripWhere(s: string, drop: char -> bool): (r: string)
    ensures |r| <= |s| && r == s[|s| - |r|..]
    ensures r == [] || !drop(r[0])
    ensures forall i :: 0 <= i < |s| - |r| ==> drop(s[i])
    decreases |s|
  {
    if |s| > 0 && drop(s[0]) then LStripWhere(s[1..], drop) else s
  }

  /** Drops the longest suffix whose characters all satisfy `drop`. */
  function RStripWhere(s: string, drop: char -> bool): (r: string)
    ensures |r| <= |s| && r == s[..|r|]
    ensures r == [] || !drop(r[|r| - 1])
    ensures forall i :: |r| <= i < |s| ==> drop(s[i])
    decreases |s|
  {
    if |s| > 0 && drop(s[|s| - 1]) then RStripWhere(s[..|s| - 1], drop) else s
  }

  /** Stripping a prefix of droppable characters that ends before a kept one leaves exactly the rest. */
  lemma {:induction false} LStripPrefix(a: string, b: string, drop: char -> bool)
    requires forall i :: 0 <= i < |a| ==> drop(a[i])
    requires b == [] || !drop(b[0])
    ensures LStripWhere(a + b, drop) == b
    decreases |a|
  {
    if a == [] {
      assert a + b == b;
    } else {
      assert (a + b)[0] == a[0];
      assert (a + b)[1..] == a[1..] + b;
      LStripPrefix(a[1..], b, drop);
    }
  }

  /** A string made only of droppable characters strips to nothing. */
  lemma {:induction false} LStripAll(s: string, drop: char -> bool)
    requires forall i :: 0 <= i < |s| ==> drop(s[i])
    ensures LStripWhere(s, drop) == []
    decreases |s|
  {
    if |s| > 0 {
      LStripAll(s[1..], drop);
    }
  }

  /** `s.strip()`. */
  function Strip(s: string): string
  {
    RStripWhere(LStripWhere(s, IsSpace), IsSpace)
  }

  /** `s.lstrip(cs)`: removes leading characters that belong to the SET `cs`, not the prefix `cs`. */
  function LStripChars(s: string, cs: string): string
  {
    LStripWhere(s, c => c in cs)
  }

  /** `sep.join(xs)`. */
  function Join(sep: string, xs: seq<string>): string
    decreases |xs|
  {
    if |xs| == 0 then ""
    else if |xs| == 1 then xs[0]
    else xs[0] + sep + Join(sep, xs[1..])
  }

  /** Every joined piece occurs in the joined string. */
  lemma {:induction false} JoinContainsEach(sep: string, xs: seq<string>, i: nat)
    requires i < |xs|
    ensures Contains(Join(sep, xs), xs[i])
    decreases |xs|
  {
    if |xs| == 1 {
      ContainsMiddle([], xs[0], []);
      assert [] + xs[0] + [] == xs[0];
    } else if i == 0 {
      ContainsMiddle([], xs[0], sep + Join(sep, xs[1..]));
      assert [] + xs[0] + (sep + Join(sep, xs[1..])) == Join(sep, xs);
    } else {
      JoinContainsEach(sep, xs[1..], i - 1);
      var pre := xs[0] + sep;
      assert Join(sep, xs) == pre + Join(sep, xs[1..]);
      assert Join(sep, xs)[|pre|..] == Join(sep, xs[1..]);
      ContainsInSuffix(Join(sep, xs), |pre|, xs[i]);
    }
  }

  /** The joined string's length: the pieces plus one separator between each pair. */
  lemma {:induction false} JoinLength(sep: string, xs: seq<string>)
    requires |xs| > 0
    ensures |Join(sep, xs)| == TotalLength(xs) + (|xs| - 1) * |sep|
    decreases |xs|
  {
    if |xs| > 1 {
      JoinLength(sep, xs[1..]);
    }
  }

  function TotalLength(xs: seq<string>): nat
    decreases |xs|
  {
    if |xs| == 0 then 0 else |xs[0]| + TotalLength(xs[1..])
  }
}
