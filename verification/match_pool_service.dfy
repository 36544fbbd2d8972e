/**
 * The queue -> pool -> match state machine of the match-pool service. Each
 * method is one service call against the store: it either fails with the
 * service's error before writing anything, or performs exactly the writes
 * listed in its `modifies` clause and its postconditions.
 */
module MatchPoolService {
  import opened Common
  import opened Balance
  import opened Rows
  import opened Store

  /** The number of pool rows with the given pool, member and team (the duplicate guard's `findMany`). */
  function CountRows(rows: seq<PoolParticipant>, poolId: Id, memberId: Id, team: TeamName): nat
  {
    if rows == [] then 0
    else
      var last := rows[|rows| - 1];
      CountRows(rows[..|rows| - 1], poolId, memberId, team) +
      (if last.matchPoolId == poolId && last.memberId == memberId && last.teamName == team then 1 else 0)
  }

  /** Counting over a concatenation adds up. */
  lemma {:induction false} CountRowsAppend(a: seq<PoolParticipant>, b: seq<PoolParticipant>, poolId: Id, memberId: Id, team: TeamName)
    ensures CountRows(a + b, poolId, memberId, team) == CountRows(a, poolId, memberId, team) + CountRows(b, poolId, memberId, team)
    decreases |b|
  {
    if b != [] {
      assert (a + b)[..|a + b| - 1] == a + b[..|b| - 1];
      CountRowsAppend(a, b[..|b| - 1], poolId, memberId, team);
    } else {
      assert a + b == a;
    }
  }

  /** Rows of other pools or the other team do not count. */
  lemma {:induction false} CountRowsAbsent(rows: seq<PoolParticipant>, poolId: Id, memberId: Id, team: TeamName)
    requires forall i :: 0 <= i < |rows| ==> rows[i].matchPoolId != poolId || rows[i].teamName != team
    ensures CountRows(rows, poolId, memberId, team) == 0
  {
    if rows != [] {
      CountRowsAbsent(rows[..|rows| - 1], poolId, memberId, team);
    }
  }

  /** A count never exceeds the number of rows. */
  lemma {:induction false} CountRowsBound(rows: seq<PoolParticipant>, poolId: Id, memberId: Id, team: TeamName)
    ensures CountRows(rows, poolId, memberId, team) <= |rows|
  {
    if rows != [] {
      CountRowsBound(rows[..|rows| - 1], poolId, memberId, team);
    }
  }

  /**
   * `addToMatchPool`: moves one queue entry into a pool under a team label.
   * It fails, writing nothing, when the pool or the queue entry is missing,
   * when exactly 2 rows with the same pool, member and team exist, or when
   * the pool's session has no queue. Otherwise, in one step, it appends one
   * pool row with the entry's member and the team, and deletes that entry.
   */
  method AddToMatchPool(db: Db, matchPoolId: Id, entryId: Id, teamName: TeamName) returns (r: Result<PoolParticipant>)
    requires db.Valid()
    modifies db`poolParticipants, db`queueEntries, db`nextId
    ensures db.Valid()
    ensures matchPoolId !in db.pools ==> r == Err(MatchPoolNotFound)
    ensures matchPoolId in db.pools && IndexOf(old(db.queueEntries), EntryId, entryId).None? ==>
              r == Err(QueueParticipantNotFound)
    ensures r.Err? ==> unchanged(db)
    ensures r.Ok? ==>
              var i := IndexOf(old(db.queueEntries), EntryId, entryId);
              matchPoolId in db.pools && i.Some? &&
              var entry := old(db.queueEntries)[i.value];
              CountRows(old(db.poolParticipants), matchPoolId, entry.memberId, teamName) != 2 &&
              db.pools[matchPoolId].sessionId in db.queues &&
              r.value == PoolParticipant(old(db.nextId), matchPoolId, entry.memberId, teamName) &&
              db.poolParticipants == old(db.poolParticipants) + [r.value] &&
              (forall e :: e in db.queueEntries <==> e in old(db.queueEntries) && e.id != entryId) &&
              db.nextId == old(db.nextId) + 1
    ensures matchPoolId in db.pools && IndexOf(old(db.queueEntries), EntryId, entryId).Some? ==>
              var entry := old(db.queueEntries)[IndexOf(old(db.queueEntries), EntryId, entryId).value];
              (CountRows(old(db.poolParticipants), matchPoolId, entry.memberId, teamName) == 2 ==> r == Err(AlreadyInMatchPool)) &&
              (CountRows(old(db.poolParticipants), matchPoolId, entry.memberId, teamName) != 2 ==>
                 (db.pools[matchPoolId].sessionId !in db.queues ==> r == Err(SessionQueueNotFound)) &&
                 (db.pools[matchPoolId].sessionId in db.queues ==> r.Ok?))
  {
    if matchPoolId !in db.pools {
      return Err(MatchPoolNotFound);
    }
    var i := IndexOf(db.queueEntries, EntryId, entryId);
    if i.None? {
      return Err(QueueParticipantNotFound);
    }
    var entry := db.queueEntries[i.value];
    if CountRows(db.poolParticipants, matchPoolId, entry.memberId, teamName) == 2 {
      return Err(AlreadyInMatchPool);
    }
    if db.pools[matchPoolId].sessionId !in db.queues {
      return Err(SessionQueueNotFound);
    }
    var created := PoolParticipant(db.nextId, matchPoolId, entry.memberId, teamName);
    db.MoveToPool(i.value, created);
    r := Ok(created);
  }

  /**
   * Under the invariant that no (pool, member, team) has more than 2 rows,
   * the `=== 2` guard of `addToMatchPool` is the same as `>= 2`, and every
   * successful add keeps the invariant.
   */
  ghost predicate AtMostTwo(rows: seq<PoolParticipant>)
  {
    forall poolId, memberId, team :: CountRows(rows, poolId, memberId, team) <= 2
  }

  lemma {:induction false} AddKeepsAtMostTwo(rows: seq<PoolParticipant>, row: PoolParticipant)
    requires AtMostTwo(rows)
    requires CountRows(rows, row.matchPoolId, row.memberId, row.teamName) != 2
    ensures AtMostTwo(rows + [row])
  {
    forall poolId, memberId, team ensures CountRows(rows + [row], poolId, memberId, team) <= 2 {
      assert (rows + [row])[..|rows + [row]| - 1] == rows;
    }
  }

  /**
   * `removeFromMatchPool`, as written: deletes the pool row, then (as a
   * separate write) appends a queue entry for the same member whose queue id
   * is the pool's *session* id. Fails, writing nothing, on an unknown row.
   */
  method RemoveFromMatchPool(db: Db, participantId: Id) returns (r: Result<QueueEntry>)
    requires db.Valid()
    modifies db`poolParticipants, db`queueEntries, db`nextId
    ensures db.Valid()
    ensures IndexOf(old(db.poolParticipants), PoolRowId, participantId).None? <==> r == Err(PoolParticipantNotFound)
    ensures IndexOf(old(db.poolParticipants), PoolRowId, participantId).Some? <==> r.Ok?
    ensures r.Err? ==> unchanged(db)
    ensures r.Ok? ==>
              var i := IndexOf(old(db.poolParticipants), PoolRowId, participantId).value;
              var row := old(db.poolParticipants)[i];
              r.value == QueueEntry(old(db.nextId), db.pools[row.matchPoolId].sessionId, row.memberId) &&
              db.poolParticipants == old(db.poolParticipants)[..i] + old(db.poolParticipants)[i + 1..] &&
              db.queueEntries == old(db.queueEntries) + [r.value] &&
              db.nextId == old(db.nextId) + 1
  {
    var i := IndexOf(db.poolParticipants, PoolRowId, participantId);
    if i.None? {
      return Err(PoolParticipantNotFound);
    }
    var row := db.poolParticipants[i.value];
    var entry := QueueEntry(db.nextId, db.pools[row.matchPoolId].sessionId, row.memberId);
    db.MoveToQueue(i.value, entry);
    r := Ok(entry);
  }

  /**
   * `removeFromMatchPool` as evidently intended: the member goes back to the
   * pool's session queue, i.e. the new entry carries that queue's id. If the
   * session has no queue it fails before writing.
   */
  method RemoveFromMatchPoolToQueue(db: Db, participantId: Id) returns (r: Result<QueueEntry>)
    requires db.Valid()
    modifies db`poolParticipants, db`queueEntries, db`nextId
    ensures db.Valid()
    ensures r.Err? ==> unchanged(db)
    ensures IndexOf(old(db.poolParticipants), PoolRowId, participantId).None? ==> r == Err(PoolParticipantNotFound)
    ensures IndexOf(old(db.poolParticipants), PoolRowId, participantId).Some? ==>
              (r.Ok? <==> ReturnQueueExists(db, old(db.poolParticipants), participantId)) &&
              (r.Err? ==> r == Err(SessionQueueNotFound))
    ensures r.Ok? ==>
              var i := IndexOf(old(db.poolParticipants), PoolRowId, participantId).value;
              var row := old(db.poolParticipants)[i];
              var sessionId := db.pools[row.matchPoolId].sessionId;
              sessionId in db.queues &&
              r.value == QueueEntry(old(db.nextId), db.queues[sessionId], row.memberId) &&
              db.poolParticipants == old(db.poolParticipants)[..i] + old(db.poolParticipants)[i + 1..] &&
              db.queueEntries == old(db.queueEntries) + [r.value] &&
              db.nextId == old(db.nextId) + 1
  {
    var i := IndexOf(db.poolParticipants, PoolRowId, participantId);
    if i.None? {
      return Err(PoolParticipantNotFound);
    }
    var row := db.poolParticipants[i.value];
    var sessionId := db.pools[row.matchPoolId].sessionId;
    if sessionId !in db.queues {
      return Err(SessionQueueNotFound);
    }
    var entry := QueueEntry(db.nextId, db.queues[sessionId], row.memberId);
    db.MoveToQueue(i.value, entry);
    r := Ok(entry);
  }

  /** The session of the pool holding the known row `participantId` has a queue. */
  ghost predicate ReturnQueueExists(db: Db, rows: seq<PoolParticipant>, participantId: Id)
    reads db
    requires IndexOf(rows, PoolRowId, participantId).Some?
  {
    var row := rows[IndexOf(rows, PoolRowId, participantId).value];
    row.matchPoolId in db.pools && db.pools[row.matchPoolId].sessionId in db.queues
  }

  /** The session's queue holds the member (under some entry). */
  ghost predicate Waiting(entries: seq<QueueEntry>, queueId: Id, memberId: Id)
  {
    exists e :: e in entries && e.sessionQueueId == queueId && e.memberId == memberId
  }

  /**
   * Round trip as written: a member waiting in the session's queue under a
   * single entry, moved into a pool (`addToMatchPool` deletes the entry) and
   * taken out again (`removeFromMatchPool` appends an entry whose queue id is
   * the session id) no longer waits in the session's queue.
   */
  lemma RoundTripLosesMember(entries0: seq<QueueEntry>, entries1: seq<QueueEntry>, queues: map<Id, Id>,
                             sessionId: Id, e: QueueEntry, returned: QueueEntry)
    requires sessionId in queues && queues[sessionId] != sessionId
    requires e in entries0 && e.sessionQueueId == queues[sessionId]
    requires forall x :: x in entries0 && x.sessionQueueId == e.sessionQueueId && x.memberId == e.memberId ==> x == e
    requires forall x :: x in entries1 <==> x in entries0 && x.id != e.id
    requires returned.sessionQueueId == sessionId && returned.memberId == e.memberId
    ensures Waiting(entries0, queues[sessionId], e.memberId)
    ensures !Waiting(entries1 + [returned], queues[sessionId], e.memberId)
  {
  }

  /** As written, the returned entry leaves the session's queue exactly as it was. */
  lemma {:induction false} ReturnedEntryOutsideQueue(entries: seq<QueueEntry>, queues: map<Id, Id>, sessionId: Id, returned: QueueEntry)
    requires sessionId in queues && queues[sessionId] != sessionId
    requires returned.sessionQueueId == sessionId
    ensures QueueOf(entries + [returned], queues[sessionId]) == QueueOf(entries, queues[sessionId])
  {
    assert (entries + [returned])[..|entries + [returned]| - 1] == entries;
  }

  /** Corrected round trip: the member rejoins the session's queue, at its end. */
  lemma {:induction false} ReturnedEntryRejoinsQueue(entries: seq<QueueEntry>, queueId: Id, returned: QueueEntry)
    requires returned.sessionQueueId == queueId
    ensures QueueOf(entries + [returned], queueId) == QueueOf(entries, queueId) + [returned]
    ensures Waiting(entries + [returned], queueId, returned.memberId)
  {
    assert (entries + [returned])[..|entries + [returned]| - 1] == entries;
  }

  /** The queue entry a candidate was read from. */
  function EntryOf(c: Candidate, queueId: Id): QueueEntry
  {
    QueueEntry(c.entryId, queueId, c.memberId)
  }

  function EntryIds(members: seq<Candidate>): (r: seq<Id>)
    ensures |r| == |members| && forall k :: 0 <= k < |members| ==> r[k] == members[k].entryId
  {
    if members == [] then [] else EntryIds(members[..|members| - 1]) + [members[|members| - 1].entryId]
  }

  /** The pool rows one team loop creates: one per member, in order, with consecutive ids from `firstId`. */
  function TeamRows(poolId: Id, firstId: Id, members: seq<Candidate>, team: TeamName): (r: seq<PoolParticipant>)
    ensures |r| == |members|
    ensures forall k :: 0 <= k < |members| ==> r[k] == PoolParticipant(firstId + k, poolId, members[k].memberId, team)
  {
    if members == [] then []
    else
      var n := |members| - 1;
      TeamRows(poolId, firstId, members[..n], team) + [PoolParticipant(firstId + n, poolId, members[n].memberId, team)]
  }

  /** Every member of the group waits in the queue under its own entry, and the entries are distinct. */
  ghost predicate Queued(entries: seq<QueueEntry>, queueId: Id, group: seq<Candidate>)
  {
    (forall k :: 0 <= k < |group| ==> EntryOf(group[k], queueId) in entries) &&
    forall i, j :: 0 <= i < j < |group| ==> group[i].entryId != group[j].entryId
  }

  /** No row of the pool carries the team label yet. */
  ghost predicate NoTeamRows(rows: seq<PoolParticipant>, poolId: Id, team: TeamName)
  {
    forall k :: 0 <= k < |rows| ==> rows[k].matchPoolId != poolId || rows[k].teamName != team
  }

  /**
   * After n calls of a team loop: the pool gained the first n members' rows,
   * with consecutive ids from `firstId`, and exactly their entries left the queue.
   */
  ghost predicate TeamProgress(rows: seq<PoolParticipant>, entries: seq<QueueEntry>, nextId: Id,
                               origRows: seq<PoolParticipant>, origEntries: seq<QueueEntry>, firstId: Id,
                               poolId: Id, members: seq<Candidate>, n: nat, team: TeamName)
  {
    n <= |members| &&
    rows == origRows + TeamRows(poolId, firstId, members[..n], team) &&
    nextId == firstId + n &&
    forall e :: e in entries <==> e in origEntries && e.id !in EntryIds(members[..n])
  }

  /**
   * One team loop of `createBalancedMatch`: `addToMatchPool` for each member
   * in order. The members wait in the pool's session queue under distinct
   * entries and the team is still empty (what `generateMatchPool` hands
   * over), so every call succeeds: the pool gains one row per member, with
   * consecutive ids, and exactly their entries leave the queue.
   */
  method AddTeam(db: Db, poolId: Id, members: seq<Candidate>, team: TeamName)
    requires db.Valid() && poolId in db.pools && |members| <= 2
    requires db.pools[poolId].sessionId in db.queues
    requires Queued(db.queueEntries, db.queues[db.pools[poolId].sessionId], members)
    requires NoTeamRows(db.poolParticipants, poolId, team)
    modifies db`poolParticipants, db`queueEntries, db`nextId
    ensures db.Valid()
    ensures RowsAppended(db.poolParticipants, old(db.poolParticipants), poolId, old(db.nextId), members, team)
    ensures db.nextId == old(db.nextId) + |members|
    ensures Dequeued(db.queueEntries, old(db.queueEntries), members)
  {
    var n := 0;
    while n < |members|
      invariant db.Valid() && poolId in db.pools
      invariant TeamProgress(db.poolParticipants, db.queueEntries, db.nextId, old(db.poolParticipants), old(db.queueEntries),
                             old(db.nextId), poolId, members, n, team)
    {
      AddMember(db, poolId, members, n, team, old(db.poolParticipants), old(db.queueEntries), old(db.nextId));
      n := n + 1;
    }
    assert members[..n] == members;
  }

  /** The n-th `addToMatchPool` call of a team loop whose members are queued: it succeeds and extends the progress. */
  method AddMember(db: Db, poolId: Id, members: seq<Candidate>, n: nat, team: TeamName,
                   ghost origRows: seq<PoolParticipant>, ghost origEntries: seq<QueueEntry>, ghost firstId: Id)
    requires db.Valid() && poolId in db.pools && n < |members| <= 2
    requires db.pools[poolId].sessionId in db.queues
    requires Queued(origEntries, db.queues[db.pools[poolId].sessionId], members)
    requires NoTeamRows(origRows, poolId, team)
    requires TeamProgress(db.poolParticipants, db.queueEntries, db.nextId, origRows, origEntries, firstId, poolId, members, n, team)
    modifies db`poolParticipants, db`queueEntries, db`nextId
    ensures db.Valid()
    ensures TeamProgress(db.poolParticipants, db.queueEntries, db.nextId, origRows, origEntries, firstId, poolId, members, n + 1, team)
  {
    ghost var queueId := db.queues[db.pools[poolId].sessionId];
    AddStepSucceeds(db.queueEntries, origEntries, db.poolParticipants, origRows, queueId, poolId, firstId, members, n, team);
    ghost var rows, entries := db.poolParticipants, db.queueEntries;
    var added := AddToMatchPool(db, poolId, members[n].entryId, team);
    assert added.Ok?;
    AddStepResult(rows, db.poolParticipants, origRows, entries, db.queueEntries, origEntries, poolId, firstId, members, n, team);
  }

  /**
   * Before the n-th call of a team loop on a ready team: the member's entry
   * is still queued (it is found, and it is the member's), and the pool
   * holds fewer than 2 rows of that member under the team label.
   */
  lemma AddStepSucceeds(cur: seq<QueueEntry>, orig: seq<QueueEntry>, rows: seq<PoolParticipant>, origRows: seq<PoolParticipant>,
                        queueId: Id, poolId: Id, firstId: Id, members: seq<Candidate>, n: nat, team: TeamName)
    requires IncreasingIds(cur, EntryId)
    requires Queued(orig, queueId, members) && NoTeamRows(origRows, poolId, team)
    requires n < |members| <= 2
    requires rows == origRows + TeamRows(poolId, firstId, members[..n], team)
    requires forall e :: e in cur <==> e in orig && e.id !in EntryIds(members[..n])
    ensures IndexOf(cur, EntryId, members[n].entryId).Some?
    ensures cur[IndexOf(cur, EntryId, members[n].entryId).value] == EntryOf(members[n], queueId)
    ensures CountRows(rows, poolId, members[n].memberId, team) < 2
  {
    var e := EntryOf(members[n], queueId);
    assert e in cur by {
      forall k | 0 <= k < n ensures EntryIds(members[..n])[k] != e.id {
        assert members[..n][k] == members[k];
      }
    }
    var i := IndexOf(cur, EntryId, e.id);
    SameIdSameRow(cur, EntryId, e, i.value);
    var added := TeamRows(poolId, firstId, members[..n], team);
    CountRowsAppend(origRows, added, poolId, members[n].memberId, team);
    CountRowsAbsent(origRows, poolId, members[n].memberId, team);
    CountRowsBound(added, poolId, members[n].memberId, team);
  }

  /** After the n-th call: the rows and the deleted entries extend by the n-th member. */
  lemma AddStepResult(rows: seq<PoolParticipant>, newRows: seq<PoolParticipant>, origRows: seq<PoolParticipant>,
                      entries: seq<QueueEntry>, newEntries: seq<QueueEntry>, origEntries: seq<QueueEntry>,
                      poolId: Id, firstId: Id, members: seq<Candidate>, n: nat, team: TeamName)
    requires n < |members|
    requires rows == origRows + TeamRows(poolId, firstId, members[..n], team)
    requires newRows == rows + [PoolParticipant(firstId + n, poolId, members[n].memberId, team)]
    requires forall e :: e in entries <==> e in origEntries && e.id !in EntryIds(members[..n])
    requires forall e :: e in newEntries <==> e in entries && e.id != members[n].entryId
    ensures newRows == origRows + TeamRows(poolId, firstId, members[..n + 1], team)
    ensures forall e :: e in newEntries <==> e in origEntries && e.id !in EntryIds(members[..n + 1])
  {
    assert members[..n + 1][..n] == members[..n];
    assert EntryIds(members[..n + 1]) == EntryIds(members[..n]) + [members[n].entryId];
  }

  /** What `createBalancedMatch` reports: the new pool, the entries of the group, and of each team. */
  datatype Allocation = Allocation(matchPoolId: Id, participants: seq<Id>, teamA: seq<Id>, teamB: seq<Id>)

  /**
   * `createBalancedMatch`: for a group of 4 queued candidates, picks the
   * first best split and allocates it to a new pool of the session. Any
   * other group size is a no-op.
   */
  method CreateBalancedMatch(db: Db, sessionId: Id, participants: seq<Candidate>) returns (r: Option<Allocation>)
    requires db.Valid() && sessionId in db.sessions && sessionId in db.queues
    requires Queued(db.queueEntries, db.queues[sessionId], participants)
    modifies db`pools, db`poolParticipants, db`queueEntries, db`nextId
    ensures db.Valid()
    ensures |participants| != 4 ==> r.None? && unchanged(db)
    ensures |participants| == 4 ==>
              Allocated(db, old(db.pools), old(db.poolParticipants), old(db.queueEntries), old(db.nextId),
                        sessionId, participants, Pairings[FirstBestPairing(participants)], r)
  {
    if |participants| != 4 {
      return None;
    }
    var teams, diff := BestPairing(participants);
    r := AllocateTeams(db, sessionId, participants, teams);
  }

  /**
   * The effect of allocating a group under a split: a new pool of the
   * session (the next id), TEAM_A's rows then TEAM_B's rows appended with the
   * following ids, and the group's entries gone from the queue.
   */
  ghost predicate Allocated(db: Db, pools0: map<Id, MatchPool>, rows0: seq<PoolParticipant>, entries0: seq<QueueEntry>, nextId0: Id,
                            sessionId: Id, participants: seq<Candidate>, split: Pairing, r: Option<Allocation>)
    reads db
    requires |participants| == 4 && InGroup(split.teamA) && InGroup(split.teamB)
  {
    r == Some(Allocation(nextId0, EntryIds(participants), EntryIds(Team(participants, split.teamA)), EntryIds(Team(participants, split.teamB)))) &&
    nextId0 !in pools0 && db.pools == pools0[nextId0 := MatchPool(sessionId)] &&
    TeamsAdded(db.poolParticipants, rows0, nextId0, nextId0 + 1, Team(participants, split.teamA), Team(participants, split.teamB)) &&
    db.nextId == nextId0 + 5 &&
    forall e :: e in db.queueEntries <==> e in entries0 && e.id !in EntryIds(participants)
  }

  /** The rows after both team loops: TEAM_A's rows from `firstId`, then TEAM_B's with the ids that follow. */
  ghost predicate TeamsAdded(rows: seq<PoolParticipant>, rows0: seq<PoolParticipant>, poolId: Id, firstId: Id,
                             teamA: seq<Candidate>, teamB: seq<Candidate>)
  {
    rows == rows0 + TeamRows(poolId, firstId, teamA, TeamA) + TeamRows(poolId, firstId + |teamA|, teamB, TeamB)
  }

  lemma AllocatedIntro(db: Db, pools0: map<Id, MatchPool>, rows0: seq<PoolParticipant>, entries0: seq<QueueEntry>, nextId0: Id,
                        sessionId: Id, participants: seq<Candidate>, split: Pairing, r: Option<Allocation>)
    requires |participants| == 4 && InGroup(split.teamA) && InGroup(split.teamB)
    requires r == Some(Allocation(nextId0, EntryIds(participants), EntryIds(Team(participants, split.teamA)), EntryIds(Team(participants, split.teamB))))
    requires nextId0 !in pools0 && db.pools == pools0[nextId0 := MatchPool(sessionId)]
    requires TeamsAdded(db.poolParticipants, rows0, nextId0, nextId0 + 1, Team(participants, split.teamA), Team(participants, split.teamB))
    requires db.nextId == nextId0 + 5
    requires forall e :: e in db.queueEntries <==> e in entries0 && e.id !in EntryIds(participants)
    ensures Allocated(db, pools0, rows0, entries0, nextId0, sessionId, participants, split, r)
  {
  }

  /** The write half of `createBalancedMatch`: create the pool, then add the TEAM_A rows and the TEAM_B rows, one per player. */
  method AllocateTeams(db: Db, sessionId: Id, participants: seq<Candidate>, teams: Pairing) returns (r: Option<Allocation>)
    requires db.Valid() && sessionId in db.sessions && sessionId in db.queues
    requires |participants| == 4 && teams in Pairings
    requires Queued(db.queueEntries, db.queues[sessionId], participants)
    modifies db`pools, db`poolParticipants, db`queueEntries, db`nextId
    ensures db.Valid()
    ensures InGroup(teams.teamA) && InGroup(teams.teamB)
    ensures Allocated(db, old(db.pools), old(db.poolParticipants), old(db.queueEntries), old(db.nextId),
                      sessionId, participants, teams, r)
  {
    ghost var t :| 0 <= t < |Pairings| && Pairings[t] == teams;
    PairingIsSplit(t);
    var poolId := db.AddPool(sessionId);
    FillPool(db, sessionId, poolId, participants, teams, t);
    r := Some(Allocation(poolId, EntryIds(participants), EntryIds(Team(participants, teams.teamA)), EntryIds(Team(participants, teams.teamB))));
    AllocatedIntro(db, old(db.pools), old(db.poolParticipants), old(db.queueEntries), poolId, sessionId, participants, teams, r);
  }

  /** The two team loops of `createBalancedMatch` into the pool just created for the session. */
  method FillPool(db: Db, sessionId: Id, poolId: Id, participants: seq<Candidate>, teams: Pairing, ghost t: nat)
    requires db.Valid() && sessionId in db.queues && poolId in db.pools && db.pools[poolId].sessionId == sessionId
    requires |participants| == 4 && t < |Pairings| && teams == Pairings[t]
    requires Queued(db.queueEntries, db.queues[sessionId], participants)
    requires forall k :: 0 <= k < |db.poolParticipants| ==> db.poolParticipants[k].matchPoolId != poolId
    modifies db`poolParticipants, db`queueEntries, db`nextId
    ensures db.Valid()
    ensures InGroup(teams.teamA) && InGroup(teams.teamB)
    ensures TeamsAdded(db.poolParticipants, old(db.poolParticipants), poolId, old(db.nextId),
                       Team(participants, teams.teamA), Team(participants, teams.teamB))
    ensures db.nextId == old(db.nextId) + 4
    ensures forall e :: e in db.queueEntries <==> e in old(db.queueEntries) && e.id !in EntryIds(participants)
  {
    PairingIsSplit(t);
    var teamA := Team(participants, teams.teamA);
    var teamB := Team(participants, teams.teamB);
    SplitTeams(db.queueEntries, db.queues[sessionId], participants, t);
    NoRowsNoTeamRows(db.poolParticipants, poolId, TeamA);
    NoRowsNoTeamRows(db.poolParticipants, poolId, TeamB);
    ghost var entries0 := db.queueEntries;
    AddTeams(db, poolId, teamA, teamB);
    GroupDequeued(db.queueEntries, entries0, participants, teamA, teamB);
  }

  /** The TEAM_A loop then the TEAM_B loop of `createBalancedMatch`, into a pool that has no rows yet. */
  method AddTeams(db: Db, poolId: Id, teamA: seq<Candidate>, teamB: seq<Candidate>)
    requires db.Valid() && poolId in db.pools && db.pools[poolId].sessionId in db.queues
    requires |teamA| == 2 && |teamB| == 2
    requires Queued(db.queueEntries, db.queues[db.pools[poolId].sessionId], teamA)
    requires Queued(db.queueEntries, db.queues[db.pools[poolId].sessionId], teamB)
    requires forall id :: id in EntryIds(teamA) ==> id !in EntryIds(teamB)
    requires NoTeamRows(db.poolParticipants, poolId, TeamA) && NoTeamRows(db.poolParticipants, poolId, TeamB)
    modifies db`poolParticipants, db`queueEntries, db`nextId
    ensures db.Valid()
    ensures TeamsAdded(db.poolParticipants, old(db.poolParticipants), poolId, old(db.nextId), teamA, teamB)
    ensures db.nextId == old(db.nextId) + 4
    ensures forall e :: e in db.queueEntries <==> e in old(db.queueEntries) && e.id !in EntryIds(teamA) && e.id !in EntryIds(teamB)
  {
    ghost var entries0, rows0 := db.queueEntries, db.poolParticipants;
    AddTeam(db, poolId, teamA, TeamA);
    QueuedAfter(entries0, db.queueEntries, db.queues[db.pools[poolId].sessionId], teamB, teamA);
    OtherTeamRows(rows0, db.poolParticipants, poolId, old(db.nextId), teamA, TeamA, TeamB);
    AddSecondTeam(db, poolId, teamA, teamB, rows0, entries0, old(db.nextId));
  }

  /** The TEAM_B loop, after the TEAM_A loop has run from `rows0`, `entries0` and `nextId0`. */
  method AddSecondTeam(db: Db, poolId: Id, teamA: seq<Candidate>, teamB: seq<Candidate>,
                       ghost rows0: seq<PoolParticipant>, ghost entries0: seq<QueueEntry>, ghost nextId0: Id)
    requires db.Valid() && poolId in db.pools && db.pools[poolId].sessionId in db.queues
    requires |teamA| == 2 && |teamB| == 2 && db.nextId == nextId0 + 2
    requires Queued(db.queueEntries, db.queues[db.pools[poolId].sessionId], teamB)
    requires NoTeamRows(db.poolParticipants, poolId, TeamB)
    requires RowsAppended(db.poolParticipants, rows0, poolId, nextId0, teamA, TeamA)
    requires Dequeued(db.queueEntries, entries0, teamA)
    modifies db`poolParticipants, db`queueEntries, db`nextId
    ensures db.Valid()
    ensures TeamsAdded(db.poolParticipants, rows0, poolId, nextId0, teamA, teamB)
    ensures db.nextId == nextId0 + 4
    ensures forall e :: e in db.queueEntries <==> e in entries0 && e.id !in EntryIds(teamA) && e.id !in EntryIds(teamB)
  {
    AddTeam(db, poolId, teamB, TeamB);
    BothTeams(rows0, old(db.poolParticipants), db.poolParticipants, entries0, old(db.queueEntries), db.queueEntries,
              poolId, nextId0, teamA, teamB);
  }

  /**
   * The two teams of a split of a queued group are queued, share no entry,
   * and together hold exactly the group's entries.
   */
  lemma SplitTeams(entries: seq<QueueEntry>, queueId: Id, g: seq<Candidate>, t: nat)
    requires |g| == 4 && t < |Pairings| && Queued(entries, queueId, g)
    ensures Queued(entries, queueId, Team(g, Pairings[t].teamA)) && Queued(entries, queueId, Team(g, Pairings[t].teamB))
    ensures forall id :: id in EntryIds(Team(g, Pairings[t].teamA)) ==> id !in EntryIds(Team(g, Pairings[t].teamB))
    ensures forall id :: id in EntryIds(g) <==> id in EntryIds(Team(g, Pairings[t].teamA)) || id in EntryIds(Team(g, Pairings[t].teamB))
  {
    PairingIsSplit(t);
    TeamQueued(entries, queueId, g, Pairings[t].teamA);
    TeamQueued(entries, queueId, g, Pairings[t].teamB);
    SplitIds(g, t);
  }

  /** A team of two distinct positions of a queued group is queued. */
  lemma TeamQueued(entries: seq<QueueEntry>, queueId: Id, g: seq<Candidate>, idx: seq<nat>)
    requires |g| == 4 && Queued(entries, queueId, g)
    requires |idx| == 2 && InGroup(idx) && idx[0] != idx[1]
    ensures Queued(entries, queueId, Team(g, idx))
  {
  }

  /** The entry ids of the two teams of a split are apart and together the group's. */
  lemma SplitIds(g: seq<Candidate>, t: nat)
    requires |g| == 4 && t < |Pairings|
    requires forall i, j :: 0 <= i < j < |g| ==> g[i].entryId != g[j].entryId
    ensures InGroup(Pairings[t].teamA) && InGroup(Pairings[t].teamB)
    ensures forall id :: id in EntryIds(Team(g, Pairings[t].teamA)) ==> id !in EntryIds(Team(g, Pairings[t].teamB))
    ensures forall id :: id in EntryIds(g) <==> id in EntryIds(Team(g, Pairings[t].teamA)) || id in EntryIds(Team(g, Pairings[t].teamB))
  {
    PairingIsSplit(t);
    var a, b := Team(g, Pairings[t].teamA), Team(g, Pairings[t].teamB);
    assert EntryIds(g) == [g[0].entryId, g[1].entryId, g[2].entryId, g[3].entryId];
    assert EntryIds(a) == [a[0].entryId, a[1].entryId];
    assert EntryIds(b) == [b[0].entryId, b[1].entryId];
  }

  /** The two team loops together: the rows of both teams in order, and the whole group's entries removed. */
  lemma BothTeams(rows0: seq<PoolParticipant>, rows1: seq<PoolParticipant>, rows2: seq<PoolParticipant>,
                  entries0: seq<QueueEntry>, entries1: seq<QueueEntry>, entries2: seq<QueueEntry>,
                  poolId: Id, nextId0: Id, teamA: seq<Candidate>, teamB: seq<Candidate>)
    requires |teamA| == 2
    requires RowsAppended(rows1, rows0, poolId, nextId0, teamA, TeamA)
    requires RowsAppended(rows2, rows1, poolId, nextId0 + 2, teamB, TeamB)
    requires Dequeued(entries1, entries0, teamA) && Dequeued(entries2, entries1, teamB)
    ensures TeamsAdded(rows2, rows0, poolId, nextId0, teamA, teamB)
    ensures forall e :: e in entries2 <==> e in entries0 && e.id !in EntryIds(teamA) && e.id !in EntryIds(teamB)
  {
  }

  /** Removing other entries keeps a group queued. */
  lemma QueuedAfter(entries: seq<QueueEntry>, entries': seq<QueueEntry>, queueId: Id, members: seq<Candidate>, removed: seq<Candidate>)
    requires Queued(entries, queueId, members)
    requires Dequeued(entries', entries, removed)
    requires forall id :: id in EntryIds(removed) ==> id !in EntryIds(members)
    ensures Queued(entries', queueId, members)
  {
    forall k | 0 <= k < |members| ensures EntryOf(members[k], queueId) in entries' {
      assert EntryIds(members)[k] == members[k].entryId;
    }
  }

  /** The rows are the earlier rows followed by the members' rows under `team`, with ids from `firstId`. */
  ghost predicate RowsAppended(rows: seq<PoolParticipant>, rows0: seq<PoolParticipant>, poolId: Id, firstId: Id,
                               members: seq<Candidate>, team: TeamName)
  {
    rows == rows0 + TeamRows(poolId, firstId, members, team)
  }

  /** Removing both teams' entries is removing the group's entries. */
  lemma GroupDequeued(entries: seq<QueueEntry>, entries0: seq<QueueEntry>, g: seq<Candidate>, a: seq<Candidate>, b: seq<Candidate>)
    requires forall e :: e in entries <==> e in entries0 && e.id !in EntryIds(a) && e.id !in EntryIds(b)
    requires forall id :: id in EntryIds(g) <==> id in EntryIds(a) || id in EntryIds(b)
    ensures forall e :: e in entries <==> e in entries0 && e.id !in EntryIds(g)
  {
  }

  /** Exactly the members' entries left the queue table. */
  ghost predicate Dequeued(entries: seq<QueueEntry>, entries0: seq<QueueEntry>, members: seq<Candidate>)
  {
    forall e :: e in entries <==> e in entries0 && e.id !in EntryIds(members)
  }

  /** A pool without rows has no rows of either team. */
  lemma NoRowsNoTeamRows(rows: seq<PoolParticipant>, poolId: Id, team: TeamName)
    requires forall k :: 0 <= k < |rows| ==> rows[k].matchPoolId != poolId
    ensures NoTeamRows(rows, poolId, team)
  {
  }

  /** Rows added under one team label are not rows of the other team. */
  lemma OtherTeamRows(rows: seq<PoolParticipant>, rows': seq<PoolParticipant>, poolId: Id, firstId: Id, members: seq<Candidate>,
                      team: TeamName, other: TeamName)
    requires NoTeamRows(rows, poolId, other) && team != other
    requires RowsAppended(rows', rows, poolId, firstId, members, team)
    ensures NoTeamRows(rows', poolId, other)
  {
  }
}
