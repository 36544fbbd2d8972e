/**
 * `createSessionMatch`: turns a full pool into a match on a free court of the
 * same session. In one transaction the match is created, the pool's rows are
 * copied into match rows, the pool is deleted with its rows and the court is
 * booked.
 */
module MatchCreation {
  import opened Common
  import opened Balance
  import opened Store
  import opened MatchPoolService

  /** A match lasts one hour (60 * 60 * 1000 ms after its start). */
  const MatchLength: int := 3600000

  /** A pool needs this many rows before it can become a match. */
  const MatchSize: nat := 4

  /**
   * The match created on a pool and a court: the pool's session, the court,
   * the session's club, starting `now` and lasting one hour.
   */
  function NewMatch(sessions: map<Id, Session>, pool: MatchPool, court: SessionCourt, now: int): (m: Match)
    requires pool.sessionId in sessions
    ensures m.sessionId == pool.sessionId && m.courtId == court.courtId && m.clubId == sessions[pool.sessionId].clubId
    ensures m.endTime - m.startTime == MatchLength && m.startTime == now
  {
    Match(pool.sessionId, court.courtId, sessions[pool.sessionId].clubId, now, now + MatchLength)
  }

  /**
   * `createSessionMatch`, with the clock read `now`. It fails, writing
   * nothing, when the pool is missing, has fewer than 4 rows, when the court
   * is missing or already booked, or belongs to another session.
   */
  method CreateSessionMatch(db: Db, matchPoolId: Id, sessionCourtId: Id, now: int) returns (r: Result<Id>)
    requires db.Valid()
    modifies db`pools, db`poolParticipants, db`matches, db`matchParticipants, db`courts, db`nextId
    ensures db.Valid()
    ensures r.Err? ==> unchanged(db)
    ensures matchPoolId !in old(db.pools) ==> r == Err(MatchPoolNotFound)
    ensures matchPoolId in old(db.pools) && |PoolRows(old(db.poolParticipants), matchPoolId)| < MatchSize ==>
              r == Err(NotEnoughPoolParticipants)
    ensures matchPoolId in old(db.pools) && |PoolRows(old(db.poolParticipants), matchPoolId)| >= MatchSize &&
            (sessionCourtId !in old(db.courts) || old(db.courts)[sessionCourtId].isBooked) ==>
              r == Err(SessionCourtNotFound)
    ensures matchPoolId in old(db.pools) && |PoolRows(old(db.poolParticipants), matchPoolId)| >= MatchSize &&
            sessionCourtId in old(db.courts) && !old(db.courts)[sessionCourtId].isBooked &&
            old(db.courts)[sessionCourtId].sessionId != old(db.pools)[matchPoolId].sessionId ==>
              r == Err(CourtSessionMismatch)
    ensures r.Ok? <==>
              matchPoolId in old(db.pools) && |PoolRows(old(db.poolParticipants), matchPoolId)| >= MatchSize &&
              sessionCourtId in old(db.courts) && !old(db.courts)[sessionCourtId].isBooked &&
              old(db.courts)[sessionCourtId].sessionId == old(db.pools)[matchPoolId].sessionId
    ensures r.Ok? ==>
              r.value == old(db.nextId) &&
              MatchCreated(db, old(db.sessions), old(db.pools), old(db.poolParticipants), old(db.matches), old(db.matchParticipants),
                           old(db.courts), old(db.nextId), matchPoolId, sessionCourtId, now)
  {
    if matchPoolId !in db.pools {
      return Err(MatchPoolNotFound);
    }
    var pool := db.pools[matchPoolId];
    var rows := PoolRows(db.poolParticipants, matchPoolId);
    if |rows| < MatchSize {
      return Err(NotEnoughPoolParticipants);
    }
    if sessionCourtId !in db.courts || db.courts[sessionCourtId].isBooked {
      return Err(SessionCourtNotFound);
    }
    var court := db.courts[sessionCourtId];
    if pool.sessionId != court.sessionId {
      return Err(CourtSessionMismatch);
    }
    var matchId := CommitMatch(db, matchPoolId, sessionCourtId, now);
    r := Ok(matchId);
  }

  /**
   * The writes of a created match: the match with the id `nextId0`, one
   * match row per row of the pool, the pool deleted with its rows, the court
   * booked; ids advance past the new rows.
   */
  ghost predicate MatchCreated(db: Db, sessions0: map<Id, Session>, pools0: map<Id, MatchPool>, rows0: seq<PoolParticipant>,
                               matches0: map<Id, Match>, matchRows0: seq<MatchParticipant>, courts0: map<Id, SessionCourt>,
                               nextId0: Id, matchPoolId: Id, sessionCourtId: Id, now: int)
    reads db
    requires matchPoolId in pools0 && sessionCourtId in courts0 && pools0[matchPoolId].sessionId in sessions0
  {
    nextId0 !in matches0 &&
    db.matches == matches0[nextId0 := NewMatch(sessions0, pools0[matchPoolId], courts0[sessionCourtId], now)] &&
    db.matchParticipants == matchRows0 + MatchRows(nextId0, PoolRows(rows0, matchPoolId)) &&
    db.nextId == nextId0 + 1 + |PoolRows(rows0, matchPoolId)| &&
    db.pools == pools0 - {matchPoolId} &&
    db.poolParticipants == OtherRows(rows0, matchPoolId) &&
    db.courts == courts0[sessionCourtId := Booked(courts0[sessionCourtId])]
  }

  /** The transaction of `createSessionMatch`, once its guards have passed. */
  method CommitMatch(db: Db, matchPoolId: Id, sessionCourtId: Id, now: int) returns (matchId: Id)
    requires db.Valid() && matchPoolId in db.pools && sessionCourtId in db.courts
    modifies db`pools, db`poolParticipants, db`matches, db`matchParticipants, db`courts, db`nextId
    ensures db.Valid()
    ensures old(db.pools)[matchPoolId].sessionId in old(db.sessions)
    ensures matchId == old(db.nextId)
    ensures MatchCreated(db, old(db.sessions), old(db.pools), old(db.poolParticipants), old(db.matches), old(db.matchParticipants),
                         old(db.courts), old(db.nextId), matchPoolId, sessionCourtId, now)
  {
    var pool, court := db.pools[matchPoolId], db.courts[sessionCourtId];
    matchId := db.AddMatch(NewMatch(db.sessions, pool, court, now), PoolRows(db.poolParticipants, matchPoolId));
    db.DeletePool(matchPoolId);
    db.BookCourt(sessionCourtId);
  }

  /**
   * After a match is created from a pool, the pool has no rows left, every
   * other pool keeps its rows, and the match holds one row per former pool
   * row with the same member and team.
   */
  lemma MatchTakesPool(rows: seq<PoolParticipant>, matchRows: seq<MatchParticipant>, matchId: Id, poolId: Id, other: Id)
    requires matchRows == MatchRows(matchId, PoolRows(rows, poolId))
    ensures PoolRows(OtherRows(rows, poolId), poolId) == []
    ensures other != poolId ==> PoolRows(OtherRows(rows, poolId), other) == PoolRows(rows, other)
    ensures |matchRows| == |PoolRows(rows, poolId)|
    ensures forall k :: 0 <= k < |matchRows| ==>
              matchRows[k].matchId == matchId &&
              matchRows[k].memberId == PoolRows(rows, poolId)[k].memberId &&
              matchRows[k].teamName == PoolRows(rows, poolId)[k].teamName
  {
    OtherRowsDropPool(rows, poolId, other);
  }

  /** Rows appended for a pool that had none are exactly the pool's rows. */
  lemma NewPoolRows(rows0: seq<PoolParticipant>, added: seq<PoolParticipant>, poolId: Id)
    requires forall k :: 0 <= k < |rows0| ==> rows0[k].matchPoolId != poolId
    requires forall k :: 0 <= k < |added| ==> added[k].matchPoolId == poolId
    ensures PoolRows(rows0 + added, poolId) == added
  {
    PoolRowsNone(rows0, poolId);
    PoolRowsAll(added, poolId);
    PoolRowsAppend(rows0, added, poolId);
  }

  /** The two teams of a split hold the group's four members between them. */
  lemma SplitCoversGroup(g: seq<Candidate>, t: nat)
    requires |g| == 4 && t < |Pairings|
    ensures var a, b := Pairings[t].teamA, Pairings[t].teamB;
            multiset{g[a[0]].memberId, g[a[1]].memberId, g[b[0]].memberId, g[b[1]].memberId} ==
              multiset{g[0].memberId, g[1].memberId, g[2].memberId, g[3].memberId}
  {
    var m0, m1, m2, m3 := g[0].memberId, g[1].memberId, g[2].memberId, g[3].memberId;
    if t == 0 {
      assert Pairings[t] == Pairing([0, 1], [2, 3]);
    } else if t == 1 {
      assert Pairings[t] == Pairing([0, 2], [1, 3]);
      assert multiset{m0, m2, m1, m3} == multiset{m0, m1, m2, m3};
    } else {
      assert Pairings[t] == Pairing([0, 3], [1, 2]);
      assert multiset{m0, m3, m1, m2} == multiset{m0, m1, m2, m3};
    }
  }

  /** The rows of a split group: TEAM_A's two, then TEAM_B's two, together the group's four members. */
  lemma SplitRows(g: seq<Candidate>, t: nat, poolId: Id, firstId: Id)
    requires |g| == 4 && t < |Pairings|
    ensures InGroup(Pairings[t].teamA) && InGroup(Pairings[t].teamB)
    ensures var rows := TeamRows(poolId, firstId, Team(g, Pairings[t].teamA), TeamA) +
                        TeamRows(poolId, firstId + 2, Team(g, Pairings[t].teamB), TeamB);
            |rows| == MatchSize &&
            rows[0].teamName == TeamA && rows[1].teamName == TeamA &&
            rows[2].teamName == TeamB && rows[3].teamName == TeamB &&
            multiset{rows[0].memberId, rows[1].memberId, rows[2].memberId, rows[3].memberId} ==
              multiset{g[0].memberId, g[1].memberId, g[2].memberId, g[3].memberId}
  {
    PairingIsSplit(t);
    var a, b := Pairings[t].teamA, Pairings[t].teamB;
    var rowsA := TeamRows(poolId, firstId, Team(g, a), TeamA);
    var rowsB := TeamRows(poolId, firstId + 2, Team(g, b), TeamB);
    var rows := rowsA + rowsB;
    assert rows[0] == rowsA[0] && rows[1] == rowsA[1] && rows[2] == rowsB[0] && rows[3] == rowsB[1];
    assert rows[0].memberId == g[a[0]].memberId && rows[1].memberId == g[a[1]].memberId;
    assert rows[2].memberId == g[b[0]].memberId && rows[3].memberId == g[b[1]].memberId;
    SplitCoversGroup(g, t);
  }

  /**
   * A pool made by `generateMatchPool` (through `createBalancedMatch`) can
   * become a match: it has exactly 4 rows, TEAM_A's two members then
   * TEAM_B's two, which are the selected group's members.
   */
  lemma AllocatedPoolIsFull(db: Db, pools0: map<Id, MatchPool>, rows0: seq<PoolParticipant>, entries0: seq<QueueEntry>,
                            nextId0: Id, sessionId: Id, g: seq<Candidate>, t: nat, r: Option<Allocation>)
    requires |g| == 4 && t < |Pairings|
    requires forall k :: 0 <= k < |rows0| ==> rows0[k].matchPoolId in pools0
    requires Allocated(db, pools0, rows0, entries0, nextId0, sessionId, g, Pairings[t], r)
    ensures var rows := PoolRows(db.poolParticipants, nextId0);
            |rows| == MatchSize &&
            rows[0].teamName == TeamA && rows[1].teamName == TeamA &&
            rows[2].teamName == TeamB && rows[3].teamName == TeamB &&
            multiset{rows[0].memberId, rows[1].memberId, rows[2].memberId, rows[3].memberId} ==
              multiset{g[0].memberId, g[1].memberId, g[2].memberId, g[3].memberId}
  {
    PairingIsSplit(t);
    var rowsA := TeamRows(nextId0, nextId0 + 1, Team(g, Pairings[t].teamA), TeamA);
    var rowsB := TeamRows(nextId0, nextId0 + 3, Team(g, Pairings[t].teamB), TeamB);
    assert db.poolParticipants == rows0 + (rowsA + rowsB);
    NewPoolRows(rows0, rowsA + rowsB, nextId0);
    SplitRows(g, t, nextId0, nextId0 + 1);
  }
}
