/**
 * The session-queue service: reading a session's queue, paging through its
 * entries, and deleting one entry.
 */
module SessionQueueService {
  import opened Common
  import opened Rows
  import opened Store
  import opened Paging

  /** A queue read with its entries, in join order. */
  datatype QueueView = QueueView(id: Id, sessionId: Id, entries: seq<QueueEntry>)

  /**
   * `getSessionQueueBySessionId`, and `getCurrentSessionQueue`, which is the
   * same lookup: the session's queue with its entries, or SessionQueueNotFound.
   */
  function GetSessionQueue(db: Db, sessionId: Id): (r: Result<QueueView>)
    reads db
    ensures r.Err? <==> sessionId !in db.queues
    ensures r.Err? ==> r.error == SessionQueueNotFound
    ensures r.Ok? ==> r.value.id == db.queues[sessionId] && r.value.sessionId == sessionId
    ensures r.Ok? ==> forall e :: e in r.value.entries <==> e in db.queueEntries && e.sessionQueueId == db.queues[sessionId]
  {
    if sessionId !in db.queues then Err(SessionQueueNotFound)
    else Ok(QueueView(db.queues[sessionId], sessionId, QueueOf(db.queueEntries, db.queues[sessionId])))
  }

  /** The reply of `getSessionQueueParticipants`. */
  datatype QueuePage = QueuePage(totalCount: nat, participants: seq<QueueEntry>)

  /**
   * One page of a queue as written: `totalCount` is the length of the page
   * itself, so it never exceeds `limit`, whatever the queue's length.
   */
  function PageOfQueue(entries: seq<QueueEntry>, queueId: Id, page: int, limit: int): (r: QueuePage)
    requires page >= 1 && limit >= 1
    ensures r.participants == Window(QueueOf(entries, queueId), page, limit)
    ensures r.totalCount == |r.participants| <= limit
  {
    var data := Window(QueueOf(entries, queueId), page, limit);
    QueuePage(|data|, data)
  }

  /** One page of a queue, with `totalCount` the queue's length as the other listings report it. */
  function CountedPageOfQueue(entries: seq<QueueEntry>, queueId: Id, page: int, limit: int): (r: QueuePage)
    requires page >= 1 && limit >= 1
    ensures r.participants == Window(QueueOf(entries, queueId), page, limit)
    ensures r.totalCount == |QueueOf(entries, queueId)|
  {
    QueuePage(|QueueOf(entries, queueId)|, Window(QueueOf(entries, queueId), page, limit))
  }

  /** With the queue's length reported, `totalCount` is the same on every page, and paging to `TotalPages` reads the whole queue. */
  lemma CountedPagesReadQueue(entries: seq<QueueEntry>, queueId: Id, page: int, other: int, limit: int)
    requires page >= 1 && other >= 1 && limit >= 1
    ensures CountedPageOfQueue(entries, queueId, page, limit).totalCount == CountedPageOfQueue(entries, queueId, other, limit).totalCount
    ensures Pages(QueueOf(entries, queueId), limit, TotalPages(CountedPageOfQueue(entries, queueId, page, limit).totalCount, limit)) ==
            QueueOf(entries, queueId)
  {
    PagesCoverRows(QueueOf(entries, queueId), limit);
  }

  /** As written, a queue of 11 read 10 at a time reports 10 entries on its first page and 1 on its second. */
  lemma PageCountIsNotQueueSize()
    ensures var entries := seq(11, k requires 0 <= k => QueueEntry(k, 100, 200 + k));
            |QueueOf(entries, 100)| == 11 &&
            PageOfQueue(entries, 100, 1, 10).totalCount == 10 &&
            PageOfQueue(entries, 100, 2, 10).totalCount == 1
  {
    var entries := seq(11, k requires 0 <= k => QueueEntry(k, 100, 200 + k));
    QueueOfWhole(entries, 100);
  }

  /** A table whose entries all belong to one queue is that queue. */
  lemma {:induction false} QueueOfWhole(entries: seq<QueueEntry>, queueId: Id)
    requires forall k :: 0 <= k < |entries| ==> entries[k].sessionQueueId == queueId
    ensures QueueOf(entries, queueId) == entries
  {
    if entries != [] {
      QueueOfWhole(entries[..|entries| - 1], queueId);
      assert entries[..|entries| - 1] + [entries[|entries| - 1]] == entries;
    }
  }

  /**
   * `getSessionQueueParticipants`: SessionQueueNotFound when the session has
   * no queue, else page `page` of the queue's entries.
   */
  function GetSessionQueueParticipants(db: Db, sessionId: Id, page: int, limit: int): (r: Result<QueuePage>)
    reads db
    requires page >= 1 && limit >= 1
    ensures r.Err? <==> sessionId !in db.queues
    ensures r.Err? ==> r.error == SessionQueueNotFound
    ensures r.Ok? ==> r.value == PageOfQueue(db.queueEntries, db.queues[sessionId], page, limit)
    ensures r.Ok? ==> r.value.totalCount <= limit
    ensures r.Ok? ==>
              forall e :: e in r.value.participants ==> e in db.queueEntries && e.sessionQueueId == db.queues[sessionId]
  {
    if sessionId !in db.queues then Err(SessionQueueNotFound)
    else
      var q := PageOfQueue(db.queueEntries, db.queues[sessionId], page, limit);
      assert forall k :: 0 <= k < |q.participants| ==> q.participants[k] in QueueOf(db.queueEntries, db.queues[sessionId]);
      Ok(q)
  }

  /**
   * `deleteQueueParticipant`: ParticipantNotFound on an unknown id;
   * otherwise exactly that entry leaves the table, the others keep their
   * order, and the deleted entry is returned.
   */
  method DeleteQueueParticipant(db: Db, participantId: Id) returns (r: Result<QueueEntry>)
    requires db.Valid()
    modifies db`queueEntries
    ensures db.Valid()
    ensures r.Err? ==> unchanged(db)
    ensures r.Err? <==> IndexOf(old(db.queueEntries), EntryId, participantId).None?
    ensures r.Err? ==> r.error == ParticipantNotFound
    ensures r.Ok? ==>
              var i := IndexOf(old(db.queueEntries), EntryId, participantId).value;
              r.value == old(db.queueEntries)[i] && r.value.id == participantId &&
              db.queueEntries == old(db.queueEntries)[..i] + old(db.queueEntries)[i + 1..]
    ensures forall e :: e in db.queueEntries <==> e in old(db.queueEntries) && e.id != participantId
  {
    var found := IndexOf(db.queueEntries, EntryId, participantId);
    if found.None? {
      return Err(ParticipantNotFound);
    }
    var i := found.value;
    r := Ok(db.queueEntries[i]);
    DeleteAtKeepsOrder(db.queueEntries, EntryId, i, db.nextId);
    db.queueEntries := db.queueEntries[..i] + db.queueEntries[i + 1..];
  }
}
