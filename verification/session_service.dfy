/**
 * The session service: creating a session (with its queue), ending and
 * deleting one, finding a club's active session, and listing sessions
 * newest first.
 */
module SessionService {
  import opened Common
  import opened Rows
  import opened Store
  import opened Paging

  /** The session type when the payload names none. */
  const DefaultType: string := "DOUBLES"

  /** The fields `createSession` reads from its payload; an absent field is None. */
  datatype SessionInput = SessionInput(clubId: Option<Id>, startTime: Option<int>, endTime: Option<int>, sessionType: Option<string>)

  /** The closed intervals [s.startTime, s.endTime] and [start, end] share an instant. */
  predicate Overlaps(s: Session, start: int, end: int)
  {
    s.startTime <= end && s.endTime >= start
  }

  /** Some active session of the club overlaps [start, end] (the `findFirst` of createSession). */
  predicate Conflicts(sessions: map<Id, Session>, clubId: Id, start: int, end: int)
  {
    exists id :: id in sessions && sessions[id].clubId == clubId && sessions[id].isActive && Overlaps(sessions[id], start, end)
  }

  /** No two active sessions of a club overlap. */
  ghost predicate NoActiveOverlap(sessions: map<Id, Session>)
  {
    forall a, b :: a in sessions && b in sessions && a != b &&
                   sessions[a].isActive && sessions[b].isActive && sessions[a].clubId == sessions[b].clubId ==>
                   !Overlaps(sessions[a], sessions[b].startTime, sessions[b].endTime)
  }

  /**
   * The checks of `createSession`, in the order `createSession` runs them, and the session
   * it creates when they pass: active, of the given type or DOUBLES.
   */
  function CheckSession(sessions: map<Id, Session>, input: SessionInput, now: int): (r: Result<Session>)
    ensures input.clubId.None? ==> r == Err(ClubIdRequired)
    ensures input.clubId.Some? && (input.startTime.None? || input.endTime.None?) ==> r == Err(TimesRequired)
    ensures input.clubId.Some? && input.startTime.Some? && input.endTime.Some? ==>
              var start, end := input.startTime.value, input.endTime.value;
              (start >= end ==> r == Err(EndNotAfterStart)) &&
              (start < end && start < now ==> r == Err(StartInPast)) &&
              (start < end && start >= now && Conflicts(sessions, input.clubId.value, start, end) ==> r == Err(SessionOverlaps))
    ensures r.Ok? <==> input.clubId.Some? && input.startTime.Some? && input.endTime.Some? &&
                       input.startTime.value < input.endTime.value && input.startTime.value >= now &&
                       !Conflicts(sessions, input.clubId.value, input.startTime.value, input.endTime.value)
    ensures r.Ok? ==> r.value.clubId == input.clubId.value && r.value.isActive &&
                      r.value.startTime == input.startTime.value && r.value.endTime == input.endTime.value &&
                      r.value.sessionType == (if input.sessionType.Some? then input.sessionType.value else DefaultType)
  {
    if input.clubId.None? then Err(ClubIdRequired)
    else if input.startTime.None? || input.endTime.None? then Err(TimesRequired)
    else
      var start, end := input.startTime.value, input.endTime.value;
      if start >= end then Err(EndNotAfterStart)
      else if start < now then Err(StartInPast)
      else if Conflicts(sessions, input.clubId.value, start, end) then Err(SessionOverlaps)
      else
        var sessionType := if input.sessionType.Some? then input.sessionType.value else DefaultType;
        Ok(Session(input.clubId.value, start, end, sessionType, true))
  }

  /** The intervals are closed: a session starting the instant another active one of the club ends is refused. */
  lemma TouchingSessionsConflict(sessions: map<Id, Session>, other: Id, input: SessionInput, now: int)
    requires other in sessions && sessions[other].isActive && sessions[other].startTime <= sessions[other].endTime
    requires input.clubId == Some(sessions[other].clubId) && input.startTime == Some(sessions[other].endTime)
    requires input.endTime.Some? && input.endTime.value > sessions[other].endTime && sessions[other].endTime >= now
    ensures CheckSession(sessions, input, now) == Err(SessionOverlaps)
  {
    assert Overlaps(sessions[other], input.startTime.value, input.endTime.value);
  }

  /** A session that passes the checks keeps the club's active sessions pairwise apart. */
  lemma CheckedSessionKeepsApart(sessions: map<Id, Session>, input: SessionInput, now: int, id: Id)
    requires NoActiveOverlap(sessions) && id !in sessions
    requires CheckSession(sessions, input, now).Ok?
    ensures NoActiveOverlap(sessions[id := CheckSession(sessions, input, now).value])
  {
    var s := CheckSession(sessions, input, now).value;
    var after := sessions[id := s];
    forall a, b | a in after && b in after && a != b && after[a].isActive && after[b].isActive && after[a].clubId == after[b].clubId
      ensures !Overlaps(after[a], after[b].startTime, after[b].endTime)
    {
      if a == id {
        assert !Overlaps(sessions[b], s.startTime, s.endTime);
      } else if b == id {
        assert !Overlaps(sessions[a], s.startTime, s.endTime);
      }
    }
  }

  /**
   * `createSession`: the checks of CheckSession; when they pass, one
   * transaction adds the session and its queue, which point at each other.
   */
  method CreateSession(db: Db, input: SessionInput, now: int) returns (r: Result<Id>)
    requires db.Valid()
    modifies db`sessions, db`queues, db`nextId
    ensures db.Valid()
    ensures CheckSession(old(db.sessions), input, now).Err? ==>
              r == Err(CheckSession(old(db.sessions), input, now).error) && unchanged(db)
    ensures CheckSession(old(db.sessions), input, now).Ok? ==>
              r == Ok(old(db.nextId)) && r.value !in old(db.sessions) && r.value !in old(db.queues) &&
              db.sessions == old(db.sessions)[r.value := CheckSession(old(db.sessions), input, now).value] &&
              db.queues == old(db.queues)[r.value := r.value + 1] &&
              db.nextId == old(db.nextId) + 2
    ensures NoActiveOverlap(old(db.sessions)) ==> NoActiveOverlap(db.sessions)
  {
    var checked := CheckSession(db.sessions, input, now);
    if checked.Err? {
      return Err(checked.error);
    }
    var id := db.nextId;
    if NoActiveOverlap(db.sessions) {
      CheckedSessionKeepsApart(db.sessions, input, now, id);
    }
    db.sessions, db.queues, db.nextId := db.sessions[id := checked.value], db.queues[id := id + 1], id + 2;
    r := Ok(id);
  }

  /** The session, no longer active. */
  function Deactivated(s: Session): (d: Session)
    ensures !d.isActive && d.clubId == s.clubId && d.startTime == s.startTime && d.endTime == s.endTime
    ensures d.sessionType == s.sessionType
  {
    s.(isActive := false)
  }

  /** Deactivating a session keeps the active sessions pairwise apart. */
  lemma DeactivatingKeepsApart(sessions: map<Id, Session>, id: Id)
    requires NoActiveOverlap(sessions) && id in sessions
    ensures NoActiveOverlap(sessions[id := Deactivated(sessions[id])])
  {
  }

  /** The members that are not attached to the session. */
  function MembersOutside(members: map<Id, Member>, sessionId: Id): (r: map<Id, Member>)
    ensures forall m :: m in r <==> m in members && members[m].sessionId != Some(sessionId)
    ensures forall m :: m in r ==> r[m] == members[m]
  {
    map m | m in members && members[m].sessionId != Some(sessionId) :: members[m]
  }

  /**
   * `endSession`: SessionNotFound, or SessionAlreadyEnded for an inactive
   * session; otherwise one transaction deactivates the session and deletes
   * every member attached to it. The record as it was is returned.
   */
  method EndSession(db: Db, id: Id) returns (r: Result<Session>)
    requires db.Valid()
    modifies db`sessions, db`members
    ensures db.Valid()
    ensures r.Err? ==> unchanged(db)
    ensures id !in old(db.sessions) ==> r == Err(SessionNotFound)
    ensures id in old(db.sessions) && !old(db.sessions)[id].isActive ==> r == Err(SessionAlreadyEnded)
    ensures r.Ok? <==> id in old(db.sessions) && old(db.sessions)[id].isActive
    ensures r.Ok? ==> r.value == old(db.sessions)[id]
    ensures r.Ok? ==> db.sessions == old(db.sessions)[id := Deactivated(old(db.sessions)[id])]
    ensures r.Ok? ==> db.members == MembersOutside(old(db.members), id)
    ensures NoActiveOverlap(old(db.sessions)) ==> NoActiveOverlap(db.sessions)
  {
    if id !in db.sessions {
      return Err(SessionNotFound);
    }
    var session := db.sessions[id];
    if !session.isActive {
      return Err(SessionAlreadyEnded);
    }
    if NoActiveOverlap(db.sessions) {
      DeactivatingKeepsApart(db.sessions, id);
    }
    db.sessions := db.sessions[id := Deactivated(session)];
    db.members := MembersOutside(db.members, id);
    r := Ok(session);
  }

  /**
   * `deleteSession`: SessionNotFound for an unknown id; otherwise the
   * session is only deactivated, nothing is deleted, and deleting it again
   * succeeds without changing anything.
   */
  method DeleteSession(db: Db, id: Id) returns (r: Result<Session>)
    requires db.Valid()
    modifies db`sessions
    ensures db.Valid()
    ensures r.Err? <==> id !in old(db.sessions)
    ensures r.Err? ==> r.error == SessionNotFound && unchanged(db)
    ensures r.Ok? ==> r.value == old(db.sessions)[id] && db.sessions == old(db.sessions)[id := Deactivated(old(db.sessions)[id])]
    ensures r.Ok? && !old(db.sessions)[id].isActive ==> db.sessions == old(db.sessions)
    ensures NoActiveOverlap(old(db.sessions)) ==> NoActiveOverlap(db.sessions)
  {
    if id !in db.sessions {
      return Err(SessionNotFound);
    }
    var session := db.sessions[id];
    if NoActiveOverlap(db.sessions) {
      DeactivatingKeepsApart(db.sessions, id);
    }
    db.sessions := db.sessions[id := Deactivated(session)];
    r := Ok(session);
  }

  /** `getActiveSession`: some active session of the club, or none when it has none. */
  method GetActiveSession(db: Db, clubId: Id) returns (r: Option<Id>)
    ensures r.Some? ==> r.value in db.sessions && db.sessions[r.value].clubId == clubId && db.sessions[r.value].isActive
    ensures r.None? ==> forall id :: id in db.sessions ==> db.sessions[id].clubId != clubId || !db.sessions[id].isActive
  {
    if exists id :: id in db.sessions && db.sessions[id].clubId == clubId && db.sessions[id].isActive {
      var id :| id in db.sessions && db.sessions[id].clubId == clubId && db.sessions[id].isActive;
      r := Some(id);
    } else {
      r := None;
    }
  }

  /** The sessions are ordered by start time, latest first. */
  ghost predicate NewestFirstOrder(rows: seq<Keyed<Session>>)
  {
    forall i, j :: 0 <= i < j < |rows| ==> rows[i].value.startTime >= rows[j].value.startTime
  }

  /** A row placed into a newest-first list before the first row that does not start later. */
  function InsertByStart(x: Keyed<Session>, rows: seq<Keyed<Session>>): (r: seq<Keyed<Session>>)
    ensures multiset(r) == multiset(rows) + multiset{x}
    ensures r[0] == x || (rows != [] && r[0] == rows[0])
  {
    if rows == [] || x.value.startTime >= rows[0].value.startTime then
      [x] + rows
    else
      assert rows == [rows[0]] + rows[1..];
      [rows[0]] + InsertByStart(x, rows[1..])
  }

  /** Inserting into a newest-first list keeps it newest first. */
  lemma {:induction false} InsertKeepsOrder(x: Keyed<Session>, rows: seq<Keyed<Session>>)
    requires NewestFirstOrder(rows)
    ensures NewestFirstOrder(InsertByStart(x, rows))
  {
    if rows != [] && x.value.startTime < rows[0].value.startTime {
      var rest := InsertByStart(x, rows[1..]);
      InsertKeepsOrder(x, rows[1..]);
      assert rows == [rows[0]] + rows[1..];
      forall k | 0 <= k < |rest|
        ensures rows[0].value.startTime >= rest[k].value.startTime
      {
        assert rest[k] in multiset(rows[1..]) + multiset{x};
      }
      assert InsertByStart(x, rows) == [rows[0]] + rest;
    }
  }

  /** `orderBy: { startTime: "desc" }`: the same rows, latest start first. */
  function NewestFirst(rows: seq<Keyed<Session>>): (r: seq<Keyed<Session>>)
    ensures multiset(r) == multiset(rows)
    ensures NewestFirstOrder(r)
  {
    if rows == [] then []
    else
      assert rows == [rows[0]] + rows[1..];
      InsertKeepsOrder(rows[0], NewestFirst(rows[1..]));
      InsertByStart(rows[0], NewestFirst(rows[1..]))
  }

  /** The `where` of `getAllSessions`: every session, or only the given club's. */
  predicate OfClub(clubId: Option<Id>, row: Keyed<Session>)
  {
    clubId.None? || row.value.clubId == clubId.value
  }

  /** The sessions the `where` selects, in creation order. */
  ghost function SelectedSessions(sessions: map<Id, Session>, clubId: Option<Id>): (r: seq<Keyed<Session>>)
    ensures forall x :: x in r ==> x.id in sessions && x.value == sessions[x.id] && OfClub(clubId, x)
    ensures forall id :: id in sessions && OfClub(clubId, Keyed(id, sessions[id])) ==> Keyed(id, sessions[id]) in r
  {
    TableRowsSound(sessions);
    TableRowsComplete(sessions);
    Filter(TableRows(sessions), row => OfClub(clubId, row))
  }

  /** The sessions the listing counts and pages through, latest start first. */
  ghost function ClubSessions(sessions: map<Id, Session>, clubId: Option<Id>): (r: seq<Keyed<Session>>)
    ensures NewestFirstOrder(r)
    ensures forall x :: x in r ==> x.id in sessions && x.value == sessions[x.id] && OfClub(clubId, x)
    ensures forall id :: id in sessions && OfClub(clubId, Keyed(id, sessions[id])) ==> Keyed(id, sessions[id]) in r
  {
    var selected := SelectedSessions(sessions, clubId);
    var r := NewestFirst(selected);
    assert forall x :: x in r <==> x in multiset(selected);
    r
  }

  /**
   * `getAllSessions` (and `getMyClubSessions`, the same query for one
   * club): the selected sessions counted in full, page `page` of them
   * latest start first, and the page count.
   */
  ghost function GetAllSessions(db: Db, clubId: Option<Id>, page: int, limit: int): (r: Listing<Keyed<Session>>)
    reads db
    requires page >= 1 && limit >= 1
    ensures r == Paginate(ClubSessions(db.sessions, clubId), page, limit)
    ensures r.meta.totalCount == |ClubSessions(db.sessions, clubId)| && |r.data| <= limit
    ensures r.meta.totalPages == Some(TotalPages(r.meta.totalCount, limit))
    ensures NewestFirstOrder(r.data)
    ensures forall x :: x in r.data ==> x.id in db.sessions && x.value == db.sessions[x.id] && OfClub(clubId, x)
  {
    var rows := ClubSessions(db.sessions, clubId);
    var r := Paginate(rows, page, limit);
    assert forall k :: 0 <= k < |r.data| ==> r.data[k] == rows[Skip(page, limit) + k];
    r
  }
}
