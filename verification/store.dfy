/**
 * The persistent store the services read and write: one object whose fields
 * are the tables. Keyed tables are maps from row id to row; the three row
 * tables whose order matters (queue entries, pool participants, match
 * participants) are sequences in creation order. Row ids are generated
 * unique keys; they are modelled by one counter, so a new id differs from
 * (is larger than) every id in use in any table.
 */
module Store {
  import opened Common
  import opened Skill
  import opened Balance
  import opened Rows

  datatype TeamName = TeamA | TeamB

  datatype Session = Session(clubId: Id, startTime: int, endTime: int, sessionType: string, isActive: bool)

  /** A member waiting in a session queue (`SessionQueueParticipant`). */
  datatype QueueEntry = QueueEntry(id: Id, sessionQueueId: Id, memberId: Id)

  datatype MatchPool = MatchPool(sessionId: Id)

  /** A member placed in a pool with a team label (`MatchPoolParticipant`). */
  datatype PoolParticipant = PoolParticipant(id: Id, matchPoolId: Id, memberId: Id, teamName: TeamName)

  /** A court of a session (`SessionCourt`). */
  datatype SessionCourt = SessionCourt(sessionId: Id, courtId: Id, isBooked: bool)

  /** The court, marked as booked. */
  function Booked(c: SessionCourt): (b: SessionCourt)
    ensures b.isBooked && b.sessionId == c.sessionId && b.courtId == c.courtId
  {
    c.(isBooked := true)
  }

  datatype Match = Match(sessionId: Id, courtId: Id, clubId: Id, startTime: int, endTime: int)

  datatype MatchParticipant = MatchParticipant(id: Id, matchId: Id, memberId: Id, teamName: TeamName)

  datatype Member = Member(clubId: Id, isMember: bool, sessionId: Option<Id>, level: Option<Level>, gender: GenderType)

  datatype Club = Club(ownerId: Id, remainingMembers: int)

  /** A plan's duration is in days. */
  datatype SubscriptionPlan = SubscriptionPlan(duration: int)

  datatype Subscription = Subscription(clubId: Id, subscriptionPlanId: Id, startDate: int, endDate: int, isActive: bool)

  ghost predicate OwnersUnique(clubs: map<Id, Club>)
  {
    forall a, b :: a in clubs && b in clubs && clubs[a].ownerId == clubs[b].ownerId ==> a == b
  }

  function EntryId(e: QueueEntry): Id { e.id }
  function PoolRowId(p: PoolParticipant): Id { p.id }
  function MatchRowId(p: MatchParticipant): Id { p.id }

  ghost predicate KeysBelow<V>(m: map<Id, V>, bound: Id)
  {
    forall k :: k in m ==> k < bound
  }

  /** The entries of one queue, in join order (`findMany where sessionQueueId`). */
  function QueueOf(entries: seq<QueueEntry>, queueId: Id): (r: seq<QueueEntry>)
    ensures |r| <= |entries|
    ensures forall e :: e in r <==> e in entries && e.sessionQueueId == queueId
  {
    if entries == [] then []
    else
      var last := entries[|entries| - 1];
      QueueOf(entries[..|entries| - 1], queueId) + (if last.sessionQueueId == queueId then [last] else [])
  }

  /** A queue read from a table with increasing ids has increasing ids. */
  lemma {:induction false} QueueOfKeepsOrder(entries: seq<QueueEntry>, queueId: Id)
    requires IncreasingIds(entries, EntryId)
    ensures IncreasingIds(QueueOf(entries, queueId), EntryId)
  {
    if entries != [] {
      var init := entries[..|entries| - 1];
      QueueOfKeepsOrder(init, queueId);
      var q := QueueOf(init, queueId);
      forall k | 0 <= k < |q| ensures q[k].id < entries[|entries| - 1].id {
        assert q[k] in init;
      }
    }
  }

  /** The rows of one pool, in creation order (`matchPoolParticipants` of a pool). */
  function PoolRows(rows: seq<PoolParticipant>, poolId: Id): (r: seq<PoolParticipant>)
    ensures |r| <= |rows|
    ensures forall p :: p in r <==> p in rows && p.matchPoolId == poolId
  {
    if rows == [] then []
    else
      var last := rows[|rows| - 1];
      PoolRows(rows[..|rows| - 1], poolId) + (if last.matchPoolId == poolId then [last] else [])
  }

  /** Reading a pool's rows distributes over appended rows. */
  lemma {:induction false} PoolRowsAppend(a: seq<PoolParticipant>, b: seq<PoolParticipant>, poolId: Id)
    ensures PoolRows(a + b, poolId) == PoolRows(a, poolId) + PoolRows(b, poolId)
    decreases |b|
  {
    if b == [] {
      assert a + b == a;
    } else {
      assert (a + b)[..|a + b| - 1] == a + b[..|b| - 1];
      PoolRowsAppend(a, b[..|b| - 1], poolId);
    }
  }

  /** Rows that all belong to the pool are all read back, in order. */
  lemma {:induction false} PoolRowsAll(rows: seq<PoolParticipant>, poolId: Id)
    requires forall k :: 0 <= k < |rows| ==> rows[k].matchPoolId == poolId
    ensures PoolRows(rows, poolId) == rows
  {
    if rows != [] {
      PoolRowsAll(rows[..|rows| - 1], poolId);
      assert rows[..|rows| - 1] + [rows[|rows| - 1]] == rows;
    }
  }

  /** A pool no row belongs to has no rows. */
  lemma {:induction false} PoolRowsNone(rows: seq<PoolParticipant>, poolId: Id)
    requires forall k :: 0 <= k < |rows| ==> rows[k].matchPoolId != poolId
    ensures PoolRows(rows, poolId) == []
  {
    if rows != [] {
      PoolRowsNone(rows[..|rows| - 1], poolId);
    }
  }

  /** The rows of every other pool: what a pool's cascading delete leaves. */
  function OtherRows(rows: seq<PoolParticipant>, poolId: Id): (r: seq<PoolParticipant>)
    ensures |r| <= |rows|
    ensures forall p :: p in r <==> p in rows && p.matchPoolId != poolId
  {
    if rows == [] then []
    else
      var last := rows[|rows| - 1];
      OtherRows(rows[..|rows| - 1], poolId) + (if last.matchPoolId != poolId then [last] else [])
  }

  /** The cascading delete empties the deleted pool and leaves every other pool's rows as they were. */
  lemma OtherRowsDropPool(rows: seq<PoolParticipant>, poolId: Id, other: Id)
    ensures PoolRows(OtherRows(rows, poolId), poolId) == []
    ensures other != poolId ==> PoolRows(OtherRows(rows, poolId), other) == PoolRows(rows, other)
  {
    var r := OtherRows(rows, poolId);
    assert forall k :: 0 <= k < |r| ==> r[k] in r;
    PoolRowsNone(r, poolId);
    if other != poolId {
      OtherPoolsKept(rows, poolId, other);
    }
  }

  /** The cascading delete of one pool leaves another pool's rows as they were. */
  lemma {:induction false} OtherPoolsKept(rows: seq<PoolParticipant>, poolId: Id, other: Id)
    requires other != poolId
    ensures PoolRows(OtherRows(rows, poolId), other) == PoolRows(rows, other)
  {
    if rows != [] {
      OtherPoolsKept(rows[..|rows| - 1], poolId, other);
      LastRowKept(rows, poolId, other);
    }
  }

  /** The step of OtherPoolsKept: the last row, kept or dropped, reads the same in another pool. */
  lemma LastRowKept(rows: seq<PoolParticipant>, poolId: Id, other: Id)
    requires other != poolId && rows != []
    ensures PoolRows(OtherRows(rows, poolId), other) ==
            PoolRows(OtherRows(rows[..|rows| - 1], poolId), other) + PoolRows([rows[|rows| - 1]], other)
    ensures PoolRows(rows, other) == PoolRows(rows[..|rows| - 1], other) + PoolRows([rows[|rows| - 1]], other)
  {
    var init, last := rows[..|rows| - 1], rows[|rows| - 1];
    var kept := if last.matchPoolId != poolId then [last] else [];
    var mine := if last.matchPoolId == other then [last] else [];
    PoolRowsAppend(OtherRows(init, poolId), kept, other);
    OneRow(kept, other);
    OneRow([last], other);
    assert PoolRows(rows, other) == PoolRows(init, other) + mine;
  }

  /** A table of at most one row reads as that row in its own pool and as nothing in any other. */
  lemma OneRow(rows: seq<PoolParticipant>, poolId: Id)
    requires |rows| <= 1
    ensures PoolRows(rows, poolId) == if rows != [] && rows[0].matchPoolId == poolId then rows else []
  {
    if rows != [] {
      assert rows[..0] == [];
    }
  }

  /** The cascading delete keeps the table's order. */
  lemma {:induction false} OtherRowsKeepsOrder(rows: seq<PoolParticipant>, poolId: Id)
    requires IncreasingIds(rows, PoolRowId)
    ensures IncreasingIds(OtherRows(rows, poolId), PoolRowId)
  {
    if rows != [] {
      var init := rows[..|rows| - 1];
      OtherRowsKeepsOrder(init, poolId);
      var kept := OtherRows(init, poolId);
      forall k | 0 <= k < |kept| ensures kept[k].id < rows[|rows| - 1].id {
        assert kept[k] in init;
      }
    }
  }

  /** A pool's cascading delete leaves rows of the remaining pools, in order. */
  lemma OtherRowsStayValid(rows: seq<PoolParticipant>, pools: map<Id, MatchPool>, poolId: Id, bound: Id)
    requires IncreasingIds(rows, PoolRowId) && IdsBelow(rows, PoolRowId, bound)
    requires forall i :: 0 <= i < |rows| ==> rows[i].matchPoolId in pools
    ensures IncreasingIds(OtherRows(rows, poolId), PoolRowId) && IdsBelow(OtherRows(rows, poolId), PoolRowId, bound)
    ensures forall i :: 0 <= i < |OtherRows(rows, poolId)| ==> OtherRows(rows, poolId)[i].matchPoolId in pools - {poolId}
  {
    var rest := OtherRows(rows, poolId);
    OtherRowsKeepsOrder(rows, poolId);
    forall i | 0 <= i < |rest| ensures rest[i].matchPoolId in pools - {poolId} && rest[i].id < bound {
      assert rest[i] in rows;
    }
  }

  /**
   * `matchParticipant.createMany`: one match row per pool row, same member
   * and team, with the ids that follow the match's own id.
   */
  function MatchRows(matchId: Id, rows: seq<PoolParticipant>): (r: seq<MatchParticipant>)
    ensures |r| == |rows|
    ensures forall k :: 0 <= k < |rows| ==> r[k] == MatchParticipant(matchId + 1 + k, matchId, rows[k].memberId, rows[k].teamName)
  {
    if rows == [] then []
    else
      var n := |rows| - 1;
      MatchRows(matchId, rows[..n]) + [MatchParticipant(matchId + 1 + n, matchId, rows[n].memberId, rows[n].teamName)]
  }

  /** Match rows created from the next id on keep the match-participant table ordered. */
  lemma MatchRowsKeepOrder(rows: seq<MatchParticipant>, matchId: Id, pool: seq<PoolParticipant>)
    requires IncreasingIds(rows, MatchRowId) && IdsBelow(rows, MatchRowId, matchId + 1)
    ensures IncreasingIds(rows + MatchRows(matchId, pool), MatchRowId)
    ensures IdsBelow(rows + MatchRows(matchId, pool), MatchRowId, matchId + 1 + |pool|)
  {
  }

  class Db {
    var sessions: map<Id, Session>
    /** `SessionQueue`: session id to the id of its queue (a session has at most one queue). */
    var queues: map<Id, Id>
    var queueEntries: seq<QueueEntry>
    var pools: map<Id, MatchPool>
    var poolParticipants: seq<PoolParticipant>
    var courts: map<Id, SessionCourt>
    var matches: map<Id, Match>
    var matchParticipants: seq<MatchParticipant>
    var members: map<Id, Member>
    var clubs: map<Id, Club>
    var plans: map<Id, SubscriptionPlan>
    var subscriptions: map<Id, Subscription>
    /** The next generated id. */
    var nextId: Id

    /**
     * Sessions and queues have ids in use; a queue belongs to a session and,
     * ids being unique across tables, its id is not its session's id.
     */
    ghost predicate SessionsOk()
      reads this`sessions, this`queues, this`nextId
    {
      KeysBelow(sessions, nextId) &&
      forall s :: s in queues ==> s in sessions && queues[s] < nextId && queues[s] != s
    }

    ghost predicate QueueOk()
      reads this`queueEntries, this`nextId
    {
      IncreasingIds(queueEntries, EntryId) && IdsBelow(queueEntries, EntryId, nextId)
    }

    /** Every pool belongs to a session, and every pool participant to a pool. */
    ghost predicate PoolsOk()
      reads this`pools, this`poolParticipants, this`sessions, this`nextId
    {
      KeysBelow(pools, nextId) &&
      (forall p :: p in pools ==> pools[p].sessionId in sessions) &&
      IncreasingIds(poolParticipants, PoolRowId) && IdsBelow(poolParticipants, PoolRowId, nextId) &&
      forall i :: 0 <= i < |poolParticipants| ==> poolParticipants[i].matchPoolId in pools
    }

    ghost predicate MatchesOk()
      reads this`matches, this`matchParticipants, this`nextId
    {
      KeysBelow(matches, nextId) &&
      IncreasingIds(matchParticipants, MatchRowId) && IdsBelow(matchParticipants, MatchRowId, nextId)
    }

    /** Members and subscriptions have ids in use; no user owns two clubs (`ownerId` is unique). */
    ghost predicate ClubsOk()
      reads this`members, this`subscriptions, this`clubs, this`nextId
    {
      KeysBelow(members, nextId) && KeysBelow(subscriptions, nextId) && OwnersUnique(clubs)
    }

    ghost predicate Valid()
      reads this
    {
      SessionsOk() && QueueOk() && PoolsOk() && MatchesOk() && ClubsOk()
    }

    /** An empty store. */
    constructor ()
      ensures Valid()
      ensures sessions == map[] && queues == map[] && queueEntries == [] && pools == map[]
      ensures poolParticipants == [] && courts == map[] && matches == map[] && matchParticipants == []
      ensures members == map[] && clubs == map[] && plans == map[] && subscriptions == map[]
    {
      sessions, queues, queueEntries := map[], map[], [];
      pools, poolParticipants := map[], [];
      courts, matches, matchParticipants := map[], map[], [];
      members, clubs, plans, subscriptions := map[], map[], map[], map[];
      nextId := 0;
    }

    /** `matchPool.create`: a new pool of the session, with no participants yet. */
    method AddPool(sessionId: Id) returns (id: Id)
      requires Valid() && sessionId in sessions
      modifies this`pools, this`nextId
      ensures Valid()
      ensures id == old(nextId) && id !in old(pools) && nextId == id + 1
      ensures pools == old(pools)[id := MatchPool(sessionId)]
      ensures forall k :: 0 <= k < |poolParticipants| ==> poolParticipants[k].matchPoolId != id
    {
      id := nextId;
      pools, nextId := pools[id := MatchPool(sessionId)], nextId + 1;
    }

    /**
     * One transaction of `addToMatchPool`: the queue entry at position `i`
     * is deleted and a pool row with the next id is appended.
     */
    method MoveToPool(i: nat, row: PoolParticipant)
      requires Valid() && i < |queueEntries|
      requires row.id == nextId && row.matchPoolId in pools
      modifies this`poolParticipants, this`queueEntries, this`nextId
      ensures Valid()
      ensures poolParticipants == old(poolParticipants) + [row]
      ensures queueEntries == old(queueEntries)[..i] + old(queueEntries)[i + 1..]
      ensures forall e :: e in queueEntries <==> e in old(queueEntries) && e.id != old(queueEntries)[i].id
      ensures nextId == old(nextId) + 1
    {
      AppendKeepsOrder(poolParticipants, row, PoolRowId, nextId);
      DeleteAtKeepsOrder(queueEntries, EntryId, i, nextId);
      var rows, entries := poolParticipants + [row], queueEntries[..i] + queueEntries[i + 1..];
      poolParticipants, queueEntries, nextId := rows, entries, nextId + 1;
    }

    /**
     * The two writes of `removeFromMatchPool`: the pool row at position `i`
     * is deleted, then a queue entry with the next id is appended.
     */
    method MoveToQueue(i: nat, entry: QueueEntry)
      requires Valid() && i < |poolParticipants|
      requires entry.id == nextId
      modifies this`poolParticipants, this`queueEntries, this`nextId
      ensures Valid()
      ensures poolParticipants == old(poolParticipants)[..i] + old(poolParticipants)[i + 1..]
      ensures forall p :: p in poolParticipants <==> p in old(poolParticipants) && p.id != old(poolParticipants)[i].id
      ensures queueEntries == old(queueEntries) + [entry]
      ensures nextId == old(nextId) + 1
    {
      DeleteAtKeepsOrder(poolParticipants, PoolRowId, i, nextId);
      AppendKeepsOrder(queueEntries, entry, EntryId, nextId);
      var rows, entries := poolParticipants[..i] + poolParticipants[i + 1..], queueEntries + [entry];
      poolParticipants, queueEntries, nextId := rows, entries, nextId + 1;
    }

    /**
     * `match.create` then `matchParticipant.createMany`: the match with the
     * next id, and one match row per given pool row with the ids that follow.
     */
    method AddMatch(m: Match, pool: seq<PoolParticipant>) returns (matchId: Id)
      requires Valid()
      modifies this`matches, this`matchParticipants, this`nextId
      ensures Valid()
      ensures matchId == old(nextId) && matchId !in old(matches)
      ensures matches == old(matches)[matchId := m]
      ensures matchParticipants == old(matchParticipants) + MatchRows(matchId, pool)
      ensures nextId == old(nextId) + 1 + |pool|
    {
      matchId := nextId;
      var created := MatchRows(matchId, pool);
      MatchRowsKeepOrder(matchParticipants, matchId, pool);
      matches, matchParticipants, nextId := matches[matchId := m], matchParticipants + created, nextId + 1 + |pool|;
    }

    /** `matchPool.delete`, cascading to the pool's rows. */
    method DeletePool(poolId: Id)
      requires Valid() && poolId in pools
      modifies this`pools, this`poolParticipants
      ensures Valid()
      ensures pools == old(pools) - {poolId}
      ensures poolParticipants == OtherRows(old(poolParticipants), poolId)
    {
      OtherRowsStayValid(poolParticipants, pools, poolId, nextId);
      pools, poolParticipants := pools - {poolId}, OtherRows(poolParticipants, poolId);
    }

    /** `sessionCourt.update`: the court is booked. */
    method BookCourt(sessionCourtId: Id)
      requires Valid() && sessionCourtId in courts
      modifies this`courts
      ensures Valid()
      ensures courts == old(courts)[sessionCourtId := Booked(old(courts)[sessionCourtId])]
    {
      courts := courts[sessionCourtId := Booked(courts[sessionCourtId])];
    }
  }
}
