/**
 * `generateMatchPool`: reads a session's queue (in join order, each entry
 * joined with its member row) and the keys of the session's earlier matches,
 * selects the next group of 4 (module Selection) and hands it to
 * `createBalancedMatch`, which allocates it to a new pool.
 */
module MatchPoolGenerate {
  import opened Common
  import opened Balance
  import opened Rows
  import opened PlayedKey
  import opened Selection
  import opened Store
  import opened MatchPoolService

  /** A queue entry joined with its member row (`include: { member: true }`). */
  function CandidateOf(e: QueueEntry, members: map<Id, Member>): (c: Candidate)
    ensures c.entryId == e.id && c.memberId == e.memberId
    ensures c.member.Some? <==> e.memberId in members
    ensures c.member.Some? ==> c.member.value == Profile(members[e.memberId].level, members[e.memberId].gender)
  {
    if e.memberId in members then
      Candidate(e.id, e.memberId, Some(Profile(members[e.memberId].level, members[e.memberId].gender)))
    else Candidate(e.id, e.memberId, None)
  }

  /** The queue's entries as candidates, in the same order. */
  function QueueCandidates(queue: seq<QueueEntry>, members: map<Id, Member>): (r: seq<Candidate>)
    ensures |r| == |queue| && forall k :: 0 <= k < |queue| ==> r[k] == CandidateOf(queue[k], members)
  {
    if queue == [] then []
    else QueueCandidates(queue[..|queue| - 1], members) + [CandidateOf(queue[|queue| - 1], members)]
  }

  /** The member ids of one match's participant rows, in creation order. */
  function MatchMembers(rows: seq<MatchParticipant>, matchId: Id): (r: seq<Id>)
    ensures |r| <= |rows|
    ensures forall k :: 0 <= k < |rows| && rows[k].matchId == matchId ==> rows[k].memberId in r
  {
    if rows == [] then []
    else
      var last := rows[|rows| - 1];
      MatchMembers(rows[..|rows| - 1], matchId) + (if last.matchId == matchId then [last.memberId] else [])
  }

  /** The positions of the participant rows that record `memberId` in match `matchId`. */
  ghost function RowsRecording(rows: seq<MatchParticipant>, matchId: Id, memberId: Id): set<nat>
  {
    set k: nat | k < |rows| && rows[k].matchId == matchId && rows[k].memberId == memberId
  }

  /** Adding one row adds its position to the recording rows exactly when it records the member in the match. */
  lemma RowsRecordingStep(rows: seq<MatchParticipant>, matchId: Id, memberId: Id)
    requires rows != []
    ensures |rows| - 1 !in RowsRecording(rows[..|rows| - 1], matchId, memberId)
    ensures RowsRecording(rows, matchId, memberId) ==
              RowsRecording(rows[..|rows| - 1], matchId, memberId) +
              (if rows[|rows| - 1].matchId == matchId && rows[|rows| - 1].memberId == memberId then {|rows| - 1} else {})
  {
  }

  /**
   * The member list of a match is exactly its participant rows: each member
   * id occurs in it once per row of the match that records it.
   */
  lemma {:induction false} MatchMembersCount(rows: seq<MatchParticipant>, matchId: Id, memberId: Id)
    ensures multiset(MatchMembers(rows, matchId))[memberId] == |RowsRecording(rows, matchId, memberId)|
  {
    if rows != [] {
      MatchMembersCount(rows[..|rows| - 1], matchId, memberId);
      RowsRecordingStep(rows, matchId, memberId);
    }
  }

  /** A member id is listed for a match if and only if some participant row of the match records it. */
  lemma MatchMembersExact(rows: seq<MatchParticipant>, matchId: Id, memberId: Id)
    ensures memberId in MatchMembers(rows, matchId) <==>
              exists k :: 0 <= k < |rows| && rows[k].matchId == matchId && rows[k].memberId == memberId
  {
    MatchMembersCount(rows, matchId, memberId);
    var recording := RowsRecording(rows, matchId, memberId);
    if memberId in MatchMembers(rows, matchId) {
      assert |recording| > 0;
      var k :| k in recording;
    }
    if exists k :: 0 <= k < |rows| && rows[k].matchId == matchId && rows[k].memberId == memberId {
      var k :| 0 <= k < |rows| && rows[k].matchId == matchId && rows[k].memberId == memberId;
      assert k in recording;
    }
  }

  /** `playedSet`: the key of every earlier match of the session. */
  function PlayedKeys(matches: map<Id, Match>, rows: seq<MatchParticipant>, sessionId: Id): (r: set<seq<Id>>)
    ensures forall m :: m in matches && matches[m].sessionId == sessionId ==> Key(MatchMembers(rows, m)) in r
    ensures forall key :: key in r ==> exists m :: m in matches && matches[m].sessionId == sessionId && key == Key(MatchMembers(rows, m))
  {
    set m | m in matches && matches[m].sessionId == sessionId :: Key(MatchMembers(rows, m))
  }

  /** The selection `generateMatchPool` makes on a store state, for a session that has a queue. */
  function SessionSelection(entries: seq<QueueEntry>, queueId: Id, members: map<Id, Member>,
                            matches: map<Id, Match>, matchRows: seq<MatchParticipant>,
                            sessionId: Id, genderType: GenderType): Result<seq<Candidate>>
  {
    Selected(QueueCandidates(QueueOf(entries, queueId), members), genderType, PlayedKeys(matches, matchRows, sessionId))
  }

  /** A candidate read from a queue stands for an entry of that queue. */
  lemma CandidatesAreQueued(entries: seq<QueueEntry>, queueId: Id, members: map<Id, Member>, c: Candidate)
    requires c in QueueCandidates(QueueOf(entries, queueId), members)
    ensures EntryOf(c, queueId) in entries
  {
    var queue := QueueOf(entries, queueId);
    var k :| 0 <= k < |queue| && QueueCandidates(queue, members)[k] == c;
    assert queue[k] in queue;
  }

  /**
   * What generateMatchPool selects can be allocated: 4 candidates, each
   * standing for an entry of the session's queue, no entry twice.
   */
  lemma SelectionIsQueued(entries: seq<QueueEntry>, queueId: Id, members: map<Id, Member>,
                          matches: map<Id, Match>, matchRows: seq<MatchParticipant>, sessionId: Id, genderType: GenderType)
    requires IncreasingIds(entries, EntryId)
    requires SessionSelection(entries, queueId, members, matches, matchRows, sessionId, genderType).Ok?
    ensures var g := SessionSelection(entries, queueId, members, matches, matchRows, sessionId, genderType).value;
            |g| == 4 && Queued(entries, queueId, g)
  {
    var queue := QueueCandidates(QueueOf(entries, queueId), members);
    QueueOfKeepsOrder(entries, queueId);
    assert IncreasingIds(queue, CandidateId);
    var played := PlayedKeys(matches, matchRows, sessionId);
    SelectedFromQueue(queue, genderType, played);
    var g := Selected(queue, genderType, played).value;
    forall k | 0 <= k < |g| ensures EntryOf(g[k], queueId) in entries {
      CandidatesAreQueued(entries, queueId, members, g[k]);
    }
  }

  /**
   * `generateMatchPool`: fails, writing nothing, when the session or its
   * queue is missing or the selection fails; otherwise allocates the
   * selected group, split by its first best pairing, to a new pool.
   */
  method GenerateMatchPool(db: Db, sessionId: Id, genderType: GenderType) returns (r: Result<Allocation>)
    requires db.Valid()
    modifies db`pools, db`poolParticipants, db`queueEntries, db`nextId
    ensures db.Valid()
    ensures sessionId !in old(db.sessions) ==> r == Err(SessionNotFound) && unchanged(db)
    ensures sessionId in old(db.sessions) && sessionId !in old(db.queues) ==> r == Err(SessionQueueNotFound) && unchanged(db)
    ensures sessionId in old(db.sessions) && sessionId in old(db.queues) ==>
              var selection := SessionSelection(old(db.queueEntries), old(db.queues)[sessionId], old(db.members),
                                                old(db.matches), old(db.matchParticipants), sessionId, genderType);
              (selection.Err? ==> r == Err(selection.error) && unchanged(db)) &&
              (selection.Ok? ==>
                 r.Ok? && |selection.value| == 4 &&
                 Allocated(db, old(db.pools), old(db.poolParticipants), old(db.queueEntries), old(db.nextId),
                           sessionId, selection.value, Pairings[FirstBestPairing(selection.value)], Some(r.value)))
  {
    if sessionId !in db.sessions {
      return Err(SessionNotFound);
    }
    if sessionId !in db.queues {
      return Err(SessionQueueNotFound);
    }
    var queueId := db.queues[sessionId];
    var queue := QueueCandidates(QueueOf(db.queueEntries, queueId), db.members);
    var played := PlayedKeys(db.matches, db.matchParticipants, sessionId);
    var selection := SelectGroup(queue, genderType, played);
    if selection.Err? {
      return Err(selection.error);
    }
    SelectionIsQueued(db.queueEntries, queueId, db.members, db.matches, db.matchParticipants, sessionId, genderType);
    var allocation := CreateBalancedMatch(db, sessionId, selection.value);
    r := Ok(allocation.value);
  }
}
