/**
 * The offset pagination every listing query uses: page `page` (from 1) of
 * `limit` rows is `findMany({ skip: (page - 1) * limit, take: limit })`, and
 * the reported page count is `Math.ceil(totalCount / limit)`.
 */
module Paging {
  import opened Common

  /** The `meta` block of a listing; `totalPages` is absent where the query does not report it. */
  datatype Meta = Meta(page: int, limit: int, totalCount: nat, totalPages: Option<nat>)

  datatype Listing<T> = Listing(meta: Meta, data: seq<T>)

  /** A row of a keyed table, with its id. */
  datatype Keyed<V> = Keyed(id: Id, value: V)

  /**
   * A keyed table read whole, in id order. Ids are generated in increasing
   * order, so this is creation order: the order `findMany` returns rows in
   * when the query names no `orderBy`.
   */
  ghost function TableRows<V>(m: map<Id, V>): (r: seq<Keyed<V>>)
    ensures |r| == |m|
    decreases |m|
  {
    if m == map[] then []
    else
      LargestKey(m.Keys);
      var k :| k in m && forall j :: j in m ==> j <= k;
      assert (m - {k}).Keys == m.Keys - {k};
      TableRows(m - {k}) + [Keyed(k, m[k])]
  }

  /** A non-empty table is read as the table without its largest id, then that row. */
  lemma TableRowsLast<V>(m: map<Id, V>) returns (k: Id)
    requires m != map[]
    ensures k in m && (forall j :: j in m ==> j <= k)
    ensures TableRows(m) == TableRows(m - {k}) + [Keyed(k, m[k])]
    ensures (m - {k}).Keys == m.Keys - {k}
  {
    LargestKey(m.Keys);
    k :| k in m && forall j :: j in m ==> j <= k;
    assert (m - {k}).Keys == m.Keys - {k};
  }

  /** Every row read from a table is a row of the table. */
  lemma {:induction false} TableRowsSound<V>(m: map<Id, V>)
    ensures forall x :: x in TableRows(m) ==> x.id in m && x.value == m[x.id]
    decreases |m|
  {
    if m != map[] {
      var k := TableRowsLast(m);
      TableRowsSound(m - {k});
    }
  }

  /** Every row of a table is read. */
  lemma {:induction false} TableRowsComplete<V>(m: map<Id, V>)
    ensures forall k :: k in m ==> Keyed(k, m[k]) in TableRows(m)
    decreases |m|
  {
    if m != map[] {
      var k := TableRowsLast(m);
      var rest := m - {k};
      TableRowsComplete(rest);
      forall k' | k' in m ensures Keyed(k', m[k']) in TableRows(m) {
        if k' != k {
          assert k' in rest && rest[k'] == m[k'];
        }
      }
    }
  }

  /** A table is read in increasing id order. */
  lemma {:induction false} TableRowsIncreasing<V>(m: map<Id, V>)
    ensures forall i, j :: 0 <= i < j < |TableRows(m)| ==> TableRows(m)[i].id < TableRows(m)[j].id
    decreases |m|
  {
    if m != map[] {
      var k := TableRowsLast(m);
      var rest := m - {k};
      TableRowsIncreasing(rest);
      TableRowsSound(rest);
      var r, r' := TableRows(m), TableRows(rest);
      forall i, j | 0 <= i < j < |r| ensures r[i].id < r[j].id {
        assert r[i] == r'[i] && r'[i] in r';
        if j < |r'| {
          assert r[j] == r'[j];
        }
      }
    }
  }

  /** A non-empty set of ids has a largest one. */
  lemma LargestKey(ids: set<Id>)
    requires ids != {}
    ensures exists k :: k in ids && forall j :: j in ids ==> j <= k
  {
    var top := Largest(ids);
  }

  lemma {:induction false} Largest(ids: set<Id>) returns (top: Id)
    requires ids != {}
    ensures top in ids && forall j :: j in ids ==> j <= top
    decreases |ids|
  {
    var x :| x in ids;
    if ids == {x} {
      top := x;
    } else {
      var k := Largest(ids - {x});
      top := if x <= k then k else x;
      forall j | j in ids ensures j <= top {
        if j != x {
          assert j in ids - {x};
        }
      }
    }
  }

  function Min(a: int, b: int): int
  {
    if a <= b then a else b
  }

  /** `skip`: the rows of the pages before `page`, a whole number of pages. */
  function Skip(page: int, limit: int): (s: nat)
    requires page >= 1 && limit >= 1
    ensures s % limit == 0 && s / limit == page - 1
  {
    DivideWhole(page - 1, limit, 0);
    (page - 1) * limit
  }

  /** `q * d + r` with `0 <= r < d` is `q` whole parts of `d` and the remainder `r`. */
  lemma DivideWhole(q: nat, d: int, r: int)
    requires d >= 1 && 0 <= r < d
    ensures (q * d + r) / d == q && (q * d + r) % d == r
  {
    var n := q * d + r;
    var q', r' := n / d, n % d;
    assert n == q' * d + r';
    if q' < q {
      MulMonotone(q' + 1, q, d);
    } else if q' > q {
      MulMonotone(q + 1, q', d);
    }
  }

  lemma MulMonotone(a: int, b: int, d: int)
    requires a <= b && d >= 1
    ensures a * d <= b * d
  {
    assert b * d - a * d == (b - a) * d;
  }

  /**
   * The rows `findMany({ skip, take: limit })` returns: at most `limit`
   * consecutive rows starting at row `Skip(page, limit)`, as many as remain.
   */
  function Window<T>(rows: seq<T>, page: int, limit: int): (r: seq<T>)
    requires page >= 1 && limit >= 1
    ensures |r| <= limit
    ensures |r| == if Skip(page, limit) >= |rows| then 0 else Min(limit, |rows| - Skip(page, limit))
    ensures forall k :: 0 <= k < |r| ==> Skip(page, limit) + k < |rows| && r[k] == rows[Skip(page, limit) + k]
  {
    var s := Skip(page, limit);
    if s >= |rows| then [] else rows[s..Min(s + limit, |rows|)]
  }

  /** `Math.ceil(totalCount / limit)`: the fewest pages of `limit` rows that hold every row. */
  function TotalPages(count: nat, limit: int): (p: nat)
    requires limit >= 1
    ensures count <= p * limit
    ensures p > 0 ==> (p - 1) * limit < count
  {
    if count == 0 then 0 else 1 + TotalPages(if count <= limit then 0 else count - limit, limit)
  }

  /** A listing with a `totalPages` count: the window of `rows`, counted in full. */
  function Paginate<T>(rows: seq<T>, page: int, limit: int): (r: Listing<T>)
    requires page >= 1 && limit >= 1
    ensures r.meta == Meta(page, limit, |rows|, Some(TotalPages(|rows|, limit)))
    ensures |r.data| <= limit && forall x :: x in r.data ==> x in rows
  {
    var data := Window(rows, page, limit);
    assert forall k :: 0 <= k < |data| ==> data[k] in rows;
    Listing(Meta(page, limit, |rows|, Some(TotalPages(|rows|, limit))), data)
  }

  /** The rows on pages 1 to `n`, one page after the other. */
  function Pages<T>(rows: seq<T>, limit: int, n: nat): seq<T>
    requires limit >= 1
  {
    if n == 0 then [] else Pages(rows, limit, n - 1) + Window(rows, n, limit)
  }

  /** Reading pages 1 to `n` in turn reads the first `n * limit` rows (or all of them), in order. */
  lemma {:induction false} PagesArePrefix<T>(rows: seq<T>, limit: int, n: nat)
    requires limit >= 1
    ensures Pages(rows, limit, n) == rows[..Min(n * limit, |rows|)]
  {
    if n > 0 {
      PagesArePrefix(rows, limit, n - 1);
      var before := Min((n - 1) * limit, |rows|);
      var after := Min(n * limit, |rows|);
      var w := Window(rows, n, limit);
      assert Skip(n, limit) == (n - 1) * limit;
      assert n * limit == (n - 1) * limit + limit;
      assert |w| == after - before;
      assert rows[..after] == rows[..before] + rows[before..after];
      assert w == rows[before..after];
    }
  }

  /** Reading every page, from 1 to `TotalPages`, reads each row once and in order. */
  lemma PagesCoverRows<T>(rows: seq<T>, limit: int)
    requires limit >= 1
    ensures Pages(rows, limit, TotalPages(|rows|, limit)) == rows
  {
    PagesArePrefix(rows, limit, TotalPages(|rows|, limit));
  }

  /** A page past the last one is empty. */
  lemma PastLastPageIsEmpty<T>(rows: seq<T>, page: int, limit: int)
    requires limit >= 1 && page > TotalPages(|rows|, limit)
    ensures Window(rows, page, limit) == []
  {
    MulMonotone(TotalPages(|rows|, limit), page - 1, limit);
    assert Skip(page, limit) == (page - 1) * limit;
  }

  /** Row `k` is on page `k / limit + 1`, at position `k % limit`. */
  lemma RowOnPage<T>(rows: seq<T>, limit: int, k: nat)
    requires limit >= 1 && k < |rows|
    ensures var page := k / limit + 1;
            page <= TotalPages(|rows|, limit) &&
            k % limit < |Window(rows, page, limit)| && Window(rows, page, limit)[k % limit] == rows[k]
  {
    var q, m := k / limit, k % limit;
    assert k == q * limit + m;
    var s := Skip(q + 1, limit);
    assert s == q * limit;
    assert s + m == k;
    var w := Window(rows, q + 1, limit);
    assert |w| > m;
    assert w[m] == rows[s + m];
    RowBeforeLastPage(|rows|, limit, k);
  }

  lemma RowBeforeLastPage(count: nat, limit: int, k: nat)
    requires limit >= 1 && k < count
    ensures k / limit + 1 <= TotalPages(count, limit)
  {
    var q, p := k / limit, TotalPages(count, limit);
    assert q * limit <= k;
    if q + 1 > p {
      MulMonotone(p, q, limit);
    }
  }
}
