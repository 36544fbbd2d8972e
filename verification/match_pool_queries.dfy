/**
 * The read side of the match-pool service: one pool by id, and the paged
 * list of pools, optionally of one session.
 */
module MatchPoolQueries {
  import opened Common
  import opened Store
  import opened Rows
  import opened Paging

  /** A pool read with its participant rows. */
  datatype PoolView = PoolView(id: Id, pool: MatchPool, rows: seq<PoolParticipant>)

  /** `getMatchPoolById`: the pool and its rows, or MatchPoolNotFound. */
  function GetMatchPoolById(db: Db, id: Id): (r: Result<PoolView>)
    reads db
    ensures r.Err? <==> id !in db.pools
    ensures r.Err? ==> r.error == MatchPoolNotFound
    ensures r.Ok? ==> r.value.id == id && r.value.pool == db.pools[id]
    ensures r.Ok? ==> forall p :: p in r.value.rows <==> p in db.poolParticipants && p.matchPoolId == id
  {
    if id !in db.pools then Err(MatchPoolNotFound)
    else Ok(PoolView(id, db.pools[id], PoolRows(db.poolParticipants, id)))
  }

  /** The `where` of `getAllMatchPools`: every pool, or only the given session's. */
  predicate OfSession(sessionId: Option<Id>, row: Keyed<MatchPool>)
  {
    sessionId.None? || row.value.sessionId == sessionId.value
  }

  /** The pools the listing counts and pages through, in creation order. */
  ghost function SelectedPools(pools: map<Id, MatchPool>, sessionId: Option<Id>): (r: seq<Keyed<MatchPool>>)
    ensures forall x :: x in r ==> x.id in pools && x.value == pools[x.id] && OfSession(sessionId, x)
    ensures forall id :: id in pools && OfSession(sessionId, Keyed(id, pools[id])) ==> Keyed(id, pools[id]) in r
  {
    TableRowsSound(pools);
    TableRowsComplete(pools);
    Filter(TableRows(pools), row => OfSession(sessionId, row))
  }

  /** Without a session filter every pool is listed. */
  lemma AllPoolsCounted(pools: map<Id, MatchPool>)
    ensures |SelectedPools(pools, None)| == |pools|
  {
    FilterKeepsAll(TableRows(pools), row => OfSession(None, row));
  }

  /**
   * `getAllMatchPools`: the selected pools are counted in full and page
   * `page` of them is returned; the reply carries no page count.
   */
  ghost function GetAllMatchPools(db: Db, sessionId: Option<Id>, page: int, limit: int): (r: Listing<Keyed<MatchPool>>)
    reads db
    requires page >= 1 && limit >= 1
    ensures r.meta == Meta(page, limit, |SelectedPools(db.pools, sessionId)|, None)
    ensures r.data == Window(SelectedPools(db.pools, sessionId), page, limit)
    ensures |r.data| <= limit
    ensures forall x :: x in r.data ==> x.id in db.pools && x.value == db.pools[x.id] && OfSession(sessionId, x)
  {
    var rows := SelectedPools(db.pools, sessionId);
    var data := Window(rows, page, limit);
    assert forall k :: 0 <= k < |data| ==> data[k] in rows;
    Listing(Meta(page, limit, |rows|, None), data)
  }
}
