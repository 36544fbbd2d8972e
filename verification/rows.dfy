/**
 * Ordered row tables: a table is a sequence of rows in creation order, each
 * row carrying an id that `idOf` reads. Lookup and deletion by id are the
 * `findUnique` / `delete` / `deleteMany` calls of the services.
 */
module Rows {
  import opened Common

  /** Ids grow along the table (rows are appended with ever larger ids), so they are distinct. */
  ghost predicate IncreasingIds<T>(rows: seq<T>, idOf: T -> Id)
  {
    forall i, j :: 0 <= i < j < |rows| ==> idOf(rows[i]) < idOf(rows[j])
  }

  ghost predicate IdsBelow<T>(rows: seq<T>, idOf: T -> Id, bound: Id)
  {
    forall i :: 0 <= i < |rows| ==> idOf(rows[i]) < bound
  }

  /** The position of the row with the given id, if any. */
  function IndexOf<T>(rows: seq<T>, idOf: T -> Id, id: Id): (r: Option<nat>)
    ensures r.Some? ==> r.value < |rows| && idOf(rows[r.value]) == id
    ensures r.None? ==> forall i :: 0 <= i < |rows| ==> idOf(rows[i]) != id
  {
    if rows == [] then None
    else if idOf(rows[0]) == id then Some(0)
    else
      match IndexOf(rows[1..], idOf, id)
      case None => None
      case Some(k) => Some(k + 1)
  }

  /** Deleting rows (a `deleteMany`) keeps the ids increasing. */
  lemma {:induction false} FilterKeepsOrder<T>(rows: seq<T>, keep: T -> bool, idOf: T -> Id)
    requires IncreasingIds(rows, idOf)
    ensures IncreasingIds(Filter(rows, keep), idOf)
  {
    if rows != [] {
      FilterKeepsOrder(rows[1..], keep, idOf);
      var rest := Filter(rows[1..], keep);
      if keep(rows[0]) {
        forall j | 0 <= j < |rest| ensures idOf(rows[0]) < idOf(rest[j]) {
          assert rest[j] in rows[1..];
          var k :| 0 <= k < |rows[1..]| && rows[1..][k] == rest[j];
          assert rows[k + 1] == rest[j];
        }
      }
    }
  }

  lemma {:induction false} FilterKeepsBound<T>(rows: seq<T>, keep: T -> bool, idOf: T -> Id, bound: Id)
    requires IdsBelow(rows, idOf, bound)
    ensures IdsBelow(Filter(rows, keep), idOf, bound)
  {
    var r := Filter(rows, keep);
    forall i | 0 <= i < |r| ensures idOf(r[i]) < bound {
      assert r[i] in rows;
    }
  }

  /** Appending a row whose id exceeds every id keeps the ids increasing. */
  lemma AppendKeepsOrder<T>(rows: seq<T>, row: T, idOf: T -> Id, bound: Id)
    requires IncreasingIds(rows, idOf) && IdsBelow(rows, idOf, bound) && bound <= idOf(row)
    ensures IncreasingIds(rows + [row], idOf)
  {
  }

  /**
   * Deleting the row at a position keeps the ids increasing and in use, and
   * removes exactly the rows with that row's id.
   */
  lemma DeleteAtKeepsOrder<T>(rows: seq<T>, idOf: T -> Id, i: nat, bound: Id)
    requires IncreasingIds(rows, idOf) && IdsBelow(rows, idOf, bound) && i < |rows|
    ensures IncreasingIds(rows[..i] + rows[i + 1..], idOf)
    ensures IdsBelow(rows[..i] + rows[i + 1..], idOf, bound)
    ensures forall x :: x in rows[..i] + rows[i + 1..] <==> x in rows && idOf(x) != idOf(rows[i])
  {
    var rest := rows[..i] + rows[i + 1..];
    forall x ensures x in rest <==> x in rows && idOf(x) != idOf(rows[i]) {
      if x in rows && idOf(x) != idOf(rows[i]) {
        var k :| 0 <= k < |rows| && rows[k] == x;
        if k < i {
          assert rest[k] == x;
        } else {
          assert rest[k - 1] == x;
        }
      }
    }
  }

  /** In a table with increasing ids, a row is determined by its id. */
  lemma SameIdSameRow<T>(rows: seq<T>, idOf: T -> Id, x: T, i: nat)
    requires IncreasingIds(rows, idOf) && x in rows && i < |rows| && idOf(rows[i]) == idOf(x)
    ensures rows[i] == x
  {
    var k :| 0 <= k < |rows| && rows[k] == x;
    assert k == i;
  }

  /** The table without the row with the given id (`delete where id`). */
  function RemoveId<T>(rows: seq<T>, idOf: T -> Id, id: Id): (r: seq<T>)
  {
    Filter(rows, x => idOf(x) != id)
  }

  /** The rows after the first of a table with increasing ids have increasing ids. */
  lemma IncreasingTail<T>(rows: seq<T>, idOf: T -> Id)
    requires IncreasingIds(rows, idOf) && rows != []
    ensures IncreasingIds(rows[1..], idOf)
  {
    forall i, j | 0 <= i < j < |rows| - 1 ensures idOf(rows[1..][i]) < idOf(rows[1..][j]) {
      assert rows[1..][i] == rows[i + 1] && rows[1..][j] == rows[j + 1];
    }
  }

  /** In a table with increasing ids, the rows after the first have larger ids. */
  lemma AboveFirst<T>(rows: seq<T>, idOf: T -> Id)
    requires IncreasingIds(rows, idOf) && rows != []
    ensures forall k :: 0 <= k < |rows[1..]| ==> idOf(rows[1..][k]) > idOf(rows[0])
  {
    forall k | 0 <= k < |rows| - 1 ensures idOf(rows[1..][k]) > idOf(rows[0]) {
      assert rows[1..][k] == rows[k + 1];
    }
  }

  /** Deleting by id the first row of a table keeps the rest; deleting another id keeps the first row. */
  lemma RemoveIdHead<T>(rows: seq<T>, idOf: T -> Id, id: Id)
    requires rows != []
    ensures idOf(rows[0]) == id ==> RemoveId(rows, idOf, id) == RemoveId(rows[1..], idOf, id)
    ensures idOf(rows[0]) != id ==> RemoveId(rows, idOf, id) == [rows[0]] + RemoveId(rows[1..], idOf, id)
  {
  }

  /** Cutting out position i > 0 is keeping the first row and cutting position i - 1 out of the rest. */
  lemma CutAfterFirst<T>(rows: seq<T>, i: nat)
    requires 0 < i < |rows|
    ensures rows[..i] + rows[i + 1..] == [rows[0]] + (rows[1..][..i - 1] + rows[1..][i..])
  {
    var front, back := rows[1..][..i - 1], rows[1..][i..];
    assert rows[..i] == [rows[0]] + front;
    assert rows[i + 1..] == back;
    assert [rows[0]] + front + back == [rows[0]] + (front + back);
  }

  /** In a table with distinct ids, deleting by id removes exactly the row at its position. */
  lemma {:induction false} RemoveIdAt<T>(rows: seq<T>, idOf: T -> Id, i: nat)
    requires IncreasingIds(rows, idOf) && i < |rows|
    ensures RemoveId(rows, idOf, idOf(rows[i])) == rows[..i] + rows[i + 1..]
  {
    var id := idOf(rows[i]);
    RemoveIdHead(rows, idOf, id);
    if i == 0 {
      AboveFirst(rows, idOf);
      RemoveAbsentId(rows[1..], idOf, id);
    } else {
      IncreasingTail(rows, idOf);
      assert rows[1..][i - 1] == rows[i];
      RemoveIdAt(rows[1..], idOf, i - 1);
      CutAfterFirst(rows, i);
    }
  }

  /** Deleting an id that no row carries leaves the table as it is. */
  lemma {:induction false} RemoveAbsentId<T>(rows: seq<T>, idOf: T -> Id, id: Id)
    requires forall k :: 0 <= k < |rows| ==> idOf(rows[k]) != id
    ensures RemoveId(rows, idOf, id) == rows
  {
    if rows != [] {
      RemoveIdHead(rows, idOf, id);
      assert forall k :: 0 <= k < |rows[1..]| ==> rows[1..][k] == rows[k + 1];
      RemoveAbsentId(rows[1..], idOf, id);
    }
  }

  /** A filter every row passes keeps the table as it is. */
  lemma {:induction false} FilterKeepsAll<T>(s: seq<T>, keep: T -> bool)
    requires forall x :: x in s ==> keep(x)
    ensures Filter(s, keep) == s
  {
    if s != [] {
      assert forall x :: x in s[1..] ==> x in s;
      FilterKeepsAll(s[1..], keep);
    }
  }
}
