/**
 * `save_sqlite`: the table `newsru_com` whose `url` column is
 * `UNIQUE ON CONFLICT IGNORE`. `executemany` inserts the batch one record
 * at a time; a record whose url is already in the table is skipped
 * silently and the row already there is left as it was.
 */
module Store {
  import opened Articles
  import opened Locators

  /** The urls present in `rows`. */
  function Urls(rows: seq<Article>): set<string>
  {
    set i | 0 <= i < |rows| :: rows[i].url
  }

  /** The table's UNIQUE constraint on `url`. */
  predicate UniqueUrls(rows: seq<Article>)
  {
    forall i, j :: 0 <= i < j < |rows| ==> rows[i].url != rows[j].url
  }

  /** The rows inserting `batch` adds after `existing`, in insertion order. */
  function NewRows(existing: seq<Article>, batch: seq<Article>): seq<Article>
    decreases |batch|
  {
    if |batch| == 0 then []
    else if batch[0].url in Urls(existing) then NewRows(existing, batch[1..])
    else [batch[0]] + NewRows(existing + [batch[0]], batch[1..])
  }

  lemma UrlsSnoc(rows: seq<Article>, x: Article)
    ensures Urls(rows + [x]) == Urls(rows) + {x.url}
  {
    var r := rows + [x];
    assert x.url == r[|rows|].url;
    forall u | u in Urls(rows)
      ensures u in Urls(r)
    {
      var i :| 0 <= i < |rows| && rows[i].url == u;
      assert r[i].url == u;
    }
  }

  /** Inserting keeps every url distinct; no new row reuses a url that was already there. */
  lemma {:induction false} NewRowsUnique(existing: seq<Article>, batch: seq<Article>)
    requires UniqueUrls(existing)
    ensures UniqueUrls(existing + NewRows(existing, batch))
    ensures forall k :: 0 <= k < |NewRows(existing, batch)| ==> NewRows(existing, batch)[k].url !in Urls(existing)
    decreases |batch|
  {
    if |batch| > 0 {
      if batch[0].url in Urls(existing) {
        NewRowsUnique(existing, batch[1..]);
      } else {
        var grown := existing + [batch[0]];
        forall i | 0 <= i < |existing|
          ensures existing[i].url != batch[0].url
        {
          assert existing[i].url in Urls(existing);
        }
        NewRowsUnique(grown, batch[1..]);
        UrlsSnoc(existing, batch[0]);
        assert existing + NewRows(existing, batch) == grown + NewRows(grown, batch[1..]);
      }
    }
  }

  /** After the insert, the table holds every url it held and every url of the batch, and no other. */
  lemma {:induction false} NewRowsCover(existing: seq<Article>, batch: seq<Article>)
    ensures Urls(existing + NewRows(existing, batch)) == Urls(existing) + Urls(batch)
    decreases |batch|
  {
    if |batch| == 0 {
      assert existing + NewRows(existing, batch) == existing;
    } else {
      var x, tail := batch[0], batch[1..];
      var held, batchUrls := Urls(existing), Urls(batch);
      UrlsCons(batch);
      assert batchUrls == {x.url} + Urls(tail);
      if x.url in held {
        assert NewRows(existing, batch) == NewRows(existing, tail);
        NewRowsCover(existing, tail);
        assert Urls(existing + NewRows(existing, tail)) == held + Urls(tail);
        assert held + Urls(tail) == held + batchUrls;
      } else {
        var grown := existing + [x];
        assert NewRows(existing, batch) == [x] + NewRows(grown, tail);
        assert existing + NewRows(existing, batch) == grown + NewRows(grown, tail);
        NewRowsCover(grown, tail);
        UrlsSnoc(existing, x);
        assert Urls(grown + NewRows(grown, tail)) == held + {x.url} + Urls(tail);
      }
    }
  }

  lemma UrlsCons(batch: seq<Article>)
    requires |batch| > 0
    ensures Urls(batch) == {batch[0].url} + Urls(batch[1..])
  {
    UrlsSnoc([], batch[0]);
    assert [] + [batch[0]] == [batch[0]];
    assert batch == [batch[0]] + batch[1..];
    UrlsConcat([batch[0]], batch[1..]);
  }

  lemma UrlsConcat(a: seq<Article>, b: seq<Article>)
    ensures Urls(a + b) == Urls(a) + Urls(b)
  {
    var r := a + b;
    forall u | u in Urls(r)
      ensures u in Urls(a) + Urls(b)
    {
      var i :| 0 <= i < |r| && r[i].url == u;
      if i < |a| {
        assert a[i].url == u;
      } else {
        assert b[i - |a|].url == u;
      }
    }
    forall u | u in Urls(a) + Urls(b)
      ensures u in Urls(r)
    {
      if u in Urls(a) {
        var i :| 0 <= i < |a| && a[i].url == u;
        assert r[i].url == u;
      } else {
        var i :| 0 <= i < |b| && b[i].url == u;
        assert r[|a| + i].url == u;
      }
    }
  }

  /** Nothing is added when every url of the batch is already in the table. */
  lemma {:induction false} NothingNewWhenPresent(existing: seq<Article>, batch: seq<Article>)
    requires Urls(batch) <= Urls(existing)
    ensures NewRows(existing, batch) == []
    decreases |batch|
  {
    if |batch| > 0 {
      assert batch[0].url in Urls(batch);
      UrlsCons(batch);
      NothingNewWhenPresent(existing, batch[1..]);
    }
  }

  /** Committing the same batch a second time adds no row. */
  lemma CommitTwiceAddsNothing(existing: seq<Article>, batch: seq<Article>)
    ensures NewRows(existing + NewRows(existing, batch), batch) == []
  {
    NewRowsCover(existing, batch);
    NothingNewWhenPresent(existing + NewRows(existing, batch), batch);
  }

  /** `batch[i]` is the first record of the batch with its url, and that url is not yet in the table. */
  predicate FirstFresh(existing: seq<Article>, batch: seq<Article>, i: nat)
    requires i < |batch|
  {
    batch[i].url !in Urls(existing) && forall j :: 0 <= j < i ==> batch[j].url != batch[i].url
  }

  /** A first fresh record of `batch` after its head is a first fresh record of the tail, against the grown table. */
  lemma FirstFreshTail(existing: seq<Article>, batch: seq<Article>, i: nat)
    requires 0 < i < |batch|
    ensures var grown := if batch[0].url in Urls(existing) then existing else existing + [batch[0]];
      FirstFresh(existing, batch, i) <==> FirstFresh(grown, batch[1..], i - 1) && batch[0].url != batch[i].url
  {
    var x, tail := batch[0], batch[1..];
    UrlsSnoc(existing, x);
    assert tail[i - 1] == batch[i];
    assert forall j :: 0 <= j < i - 1 ==> tail[j] == batch[j + 1];
    if FirstFresh(existing, batch, i) {
      assert x.url != batch[i].url;
    }
    if FirstFresh(if x.url in Urls(existing) then existing else existing + [x], tail, i - 1) && x.url != batch[i].url {
      forall j | 0 <= j < i
        ensures batch[j].url != batch[i].url
      {
        if j > 0 {
          assert batch[j] == tail[j - 1];
        }
      }
    }
  }

  /** The rows added keep the batch order. */
  lemma {:induction false} NewRowsInOrder(existing: seq<Article>, batch: seq<Article>)
    ensures IsSubsequence(NewRows(existing, batch), batch)
    decreases |batch|
  {
    if |batch| > 0 {
      var x, tail := batch[0], batch[1..];
      if x.url in Urls(existing) {
        NewRowsInOrder(existing, tail);
      } else {
        NewRowsInOrder(existing + [x], tail);
        assert NewRows(existing, batch)[1..] == NewRows(existing + [x], tail);
      }
    }
  }

  /** The first record of each url not already present is added. */
  lemma {:induction false} FirstFreshAdded(existing: seq<Article>, batch: seq<Article>, i: nat)
    requires i < |batch| && FirstFresh(existing, batch, i)
    ensures batch[i] in NewRows(existing, batch)
    decreases |batch|
  {
    var x, tail := batch[0], batch[1..];
    var grown := if x.url in Urls(existing) then existing else existing + [x];
    assert NewRows(existing, batch) == if x.url in Urls(existing) then NewRows(grown, tail)
                                       else [x] + NewRows(grown, tail);
    if i > 0 {
      FirstFreshTail(existing, batch, i);
      FirstFreshAdded(grown, tail, i - 1);
      assert tail[i - 1] == batch[i];
    }
  }

  /** Every added row is the first record of the batch with its url, a url not already present. */
  lemma {:induction false} AddedAreFirstFresh(existing: seq<Article>, batch: seq<Article>, k: nat)
    requires k < |NewRows(existing, batch)|
    ensures exists i :: 0 <= i < |batch| && batch[i] == NewRows(existing, batch)[k] && FirstFresh(existing, batch, i)
    decreases |batch|
  {
    var x, tail := batch[0], batch[1..];
    var grown := if x.url in Urls(existing) then existing else existing + [x];
    var added, rest := NewRows(existing, batch), NewRows(grown, tail);
    assert added == if x.url in Urls(existing) then rest else [x] + rest;
    if x.url !in Urls(existing) && k == 0 {
      assert batch[0] == added[0] && FirstFresh(existing, batch, 0);
    } else {
      var k' := if x.url in Urls(existing) then k else k - 1;
      assert added[k] == rest[k'];
      AddedAreFirstFresh(grown, tail, k');
      var i :| 0 <= i < |tail| && tail[i] == rest[k'] && FirstFresh(grown, tail, i);
      UrlsSnoc(existing, x);
      assert x.url in Urls(grown);
      FirstFreshTail(existing, batch, i + 1);
      assert batch[i + 1] == tail[i];
    }
  }

  /** The table of the store. */
  class Table {
    var rows: seq<Article>

    ghost predicate Valid()
      reads this
    {
      UniqueUrls(rows)
    }

    constructor ()
      ensures Valid() && rows == []
    {
      rows := [];
    }

    /** `executemany("insert into newsru_com values (?, ?, ?, ?, ?, ?)", batch)`. */
    method InsertMany(batch: seq<Article>)
      requires Valid()
      modifies this
      ensures Valid()
      ensures rows == old(rows) + NewRows(old(rows), batch)
    {
      for i := 0 to |batch|
        invariant Valid()
        invariant old(rows) + NewRows(old(rows), batch) == rows + NewRows(rows, batch[i..])
      {
        assert batch[i..][1..] == batch[i + 1..];
        if batch[i].url !in Urls(rows) {
          forall k | 0 <= k < |rows|
            ensures rows[k].url != batch[i].url
          {
            assert rows[k].url in Urls(rows);
          }
          rows := rows + [batch[i]];
        }
      }
      assert batch[|batch|..] == [];
    }
  }
}
