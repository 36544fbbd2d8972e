/**
 * The member service: adding a member to a club (attaching a guest to the
 * club's active session and charging the club's member allowance),
 * updating and deleting members, and listing them.
 */
module MemberService {
  import opened Common
  import opened Skill
  import opened Balance
  import opened Store
  import opened Paging
  import opened SessionService
  import opened SubscriptionService

  /** The club with one member slot used; nothing keeps the count from going below 0. */
  function Charged(c: Club): (d: Club)
    ensures d.remainingMembers == c.remainingMembers - 1 && d.ownerId == c.ownerId
  {
    c.(remainingMembers := c.remainingMembers - 1)
  }

  /** A club may take a member: it has an active subscription, or slots left. */
  predicate MayJoin(clubs: map<Id, Club>, clubId: Id, subscribed: bool)
    requires clubId in clubs
  {
    subscribed || clubs[clubId].remainingMembers != 0
  }

  /**
   * The admission checks of `createMember` as written: the club must exist,
   * and the subscription is then looked up with the club's id used as an
   * owner's user id.
   */
  ghost function AdmitAsWritten(clubs: map<Id, Club>, subscriptions: map<Id, Subscription>, clubId: Id): (r: Result<Club>)
    requires OwnersUnique(clubs)
    ensures r.Ok? ==> clubId in clubs && r.value == clubs[clubId]
    ensures r.Ok? ==> exists owned :: owned in clubs && clubs[owned].ownerId == clubId
  {
    if clubId !in clubs then Err(ClubNotFound)
    else if ClubOwnedBy(clubs, clubId).None? then Err(ClubNotFound)
    else if !MayJoin(clubs, clubId, HasActive(subscriptions, ClubOwnedBy(clubs, clubId).value)) then Err(ClubAtFullCapacity)
    else Ok(clubs[clubId])
  }

  /** The admission checks as intended: the club's own subscription decides. */
  ghost function Admit(clubs: map<Id, Club>, subscriptions: map<Id, Subscription>, clubId: Id): (r: Result<Club>)
    ensures r.Err? <==> clubId !in clubs || (!HasActive(subscriptions, clubId) && clubs[clubId].remainingMembers == 0)
    ensures r.Err? ==> r.error == (if clubId !in clubs then ClubNotFound else ClubAtFullCapacity)
    ensures r.Ok? ==> r.value == clubs[clubId]
  {
    if clubId !in clubs then Err(ClubNotFound)
    else if !MayJoin(clubs, clubId, HasActive(subscriptions, clubId)) then Err(ClubAtFullCapacity)
    else Ok(clubs[clubId])
  }

  /**
   * As written, a club with free slots whose id is not also some owner's
   * user id turns every new member away with ClubNotFound, while the
   * intended check admits the member.
   */
  lemma OwnerLookupRejectsClub()
    ensures var clubs, subscriptions := map[1 := Club(7, 5)], map[];
            OwnersUnique(clubs) &&
            AdmitAsWritten(clubs, subscriptions, 1) == Err(ClubNotFound) &&
            Admit(clubs, subscriptions, 1) == Ok(Club(7, 5))
  {
    var clubs: map<Id, Club> := map[1 := Club(7, 5)];
    assert forall c :: c in clubs ==> clubs[c].ownerId != 1;
  }

  /** Looking the subscription up through the club's own owner finds that club, as the intended check does. */
  lemma OwnerLookupOfOwnClub(clubs: map<Id, Club>, subscriptions: map<Id, Subscription>, clubId: Id)
    requires OwnersUnique(clubs) && clubId in clubs
    ensures ClubOwnedBy(clubs, clubs[clubId].ownerId) == Some(clubId)
    ensures (Admit(clubs, subscriptions, clubId).Ok? <==>
              MayJoin(clubs, clubId, HasActive(subscriptions, ClubOwnedBy(clubs, clubs[clubId].ownerId).value)))
  {
  }

  /** With an active subscription a club at 0 slots still admits, and its count goes to -1. */
  lemma AllowanceCanGoNegative()
    ensures var clubs, subscriptions := map[5 := Club(5, 0)], map[9 := Subscription(5, 1, 0, 10, true)];
            OwnersUnique(clubs) &&
            AdmitAsWritten(clubs, subscriptions, 5).Ok? && Admit(clubs, subscriptions, 5).Ok? &&
            Charged(clubs[5]).remainingMembers == -1
  {
    var clubs: map<Id, Club> := map[5 := Club(5, 0)];
    var subscriptions: map<Id, Subscription> := map[9 := Subscription(5, 1, 0, 10, true)];
    assert clubs[5].ownerId == 5;
    assert HasActive(subscriptions, 5) by {
      assert 9 in subscriptions;
    }
  }

  /**
   * The session step of `createMember`: a member (`isMember`) is stored as
   * given; a guest is attached to an active session of the club, and is
   * refused with NoActiveSession when the club has none.
   */
  method AttachSession(db: Db, payload: Member) returns (r: Result<Member>)
    requires db.Valid()
    ensures payload.isMember ==> r == Ok(payload)
    ensures !payload.isMember ==> (r.Err? <==> forall id :: id in db.sessions ==> db.sessions[id].clubId != payload.clubId || !db.sessions[id].isActive)
    ensures r.Err? ==> r.error == NoActiveSession
    ensures !payload.isMember && r.Ok? ==>
              r.value.sessionId.Some? && r.value == payload.(sessionId := r.value.sessionId) &&
              r.value.sessionId.value in db.sessions && db.sessions[r.value.sessionId.value].clubId == payload.clubId &&
              db.sessions[r.value.sessionId.value].isActive
  {
    if payload.isMember {
      return Ok(payload);
    }
    var current := GetActiveSession(db, payload.clubId);
    if current.None? {
      return Err(NoActiveSession);
    }
    r := Ok(payload.(sessionId := Some(current.value)));
  }

  /** `member.create` then `club.update`: the member with the next id, and one slot charged to its club. */
  method AddMember(db: Db, member: Member) returns (id: Id)
    requires db.Valid() && member.clubId in db.clubs
    modifies db`members, db`clubs, db`nextId
    ensures db.Valid()
    ensures id == old(db.nextId) && id !in old(db.members) && db.nextId == id + 1
    ensures db.members == old(db.members)[id := member]
    ensures db.clubs == old(db.clubs)[member.clubId := Charged(old(db.clubs)[member.clubId])]
  {
    id := db.nextId;
    db.members, db.nextId := db.members[id := member], id + 1;
    db.clubs := db.clubs[member.clubId := Charged(db.clubs[member.clubId])];
  }

  /**
   * `createMember`, as written: the session step, then ClubNotFound for an
   * unknown club, then the subscription looked up with the club id as an
   * owner's id (ClubNotFound when no club is owned by that id), then
   * ClubAtFullCapacity; on success the member is added and the club charged.
   */
  method CreateMember(db: Db, payload: Member) returns (r: Result<Id>)
    requires db.Valid()
    modifies db`members, db`clubs, db`nextId
    ensures db.Valid()
    ensures r.Err? ==> unchanged(db)
    ensures r == Err(NoActiveSession) <==>
              !payload.isMember && (forall id :: id in old(db.sessions) ==> old(db.sessions)[id].clubId != payload.clubId || !old(db.sessions)[id].isActive)
    ensures r.Ok? || r.error != NoActiveSession ==>
              (AdmitAsWritten(old(db.clubs), old(db.subscriptions), payload.clubId).Err? <==> r.Err?) &&
              (r.Err? ==> r.error == AdmitAsWritten(old(db.clubs), old(db.subscriptions), payload.clubId).error)
    ensures r.Ok? ==>
              r.value == old(db.nextId) && r.value !in old(db.members) &&
              db.members.Keys == old(db.members).Keys + {r.value} &&
              (forall m :: m in old(db.members) ==> db.members[m] == old(db.members)[m]) &&
              db.clubs == old(db.clubs)[payload.clubId := Charged(old(db.clubs)[payload.clubId])]
    ensures r.Ok? ==>
              db.members[r.value] == payload.(sessionId := db.members[r.value].sessionId) &&
              (payload.isMember ==> db.members[r.value] == payload) &&
              (!payload.isMember ==> db.members[r.value].sessionId.Some? &&
                                     db.members[r.value].sessionId.value in old(db.sessions) &&
                                     old(db.sessions)[db.members[r.value].sessionId.value].isActive &&
                                     old(db.sessions)[db.members[r.value].sessionId.value].clubId == payload.clubId)
  {
    var attached := AttachSession(db, payload);
    if attached.Err? {
      return Err(attached.error);
    }
    var member := attached.value;
    if payload.clubId !in db.clubs {
      return Err(ClubNotFound);
    }
    var club := db.clubs[payload.clubId];
    var subscription := GetCurrentSubscription(db, payload.clubId);
    if subscription.Err? {
      return Err(subscription.error);
    }
    if subscription.value.None? && club.remainingMembers == 0 {
      return Err(ClubAtFullCapacity);
    }
    var id := AddMember(db, member);
    r := Ok(id);
  }

  /**
   * `createMember` with the intended admission: the subscription is looked
   * up through the club's own owner, so only an unknown club or a full club
   * without an active subscription is refused after the session step.
   */
  method CreateMemberCorrected(db: Db, payload: Member) returns (r: Result<Id>)
    requires db.Valid()
    modifies db`members, db`clubs, db`nextId
    ensures db.Valid()
    ensures r.Err? ==> unchanged(db)
    ensures r == Err(NoActiveSession) <==>
              !payload.isMember && (forall id :: id in old(db.sessions) ==> old(db.sessions)[id].clubId != payload.clubId || !old(db.sessions)[id].isActive)
    ensures r.Ok? || r.error != NoActiveSession ==>
              (Admit(old(db.clubs), old(db.subscriptions), payload.clubId).Err? <==> r.Err?) &&
              (r.Err? ==> r.error == Admit(old(db.clubs), old(db.subscriptions), payload.clubId).error)
    ensures r.Ok? ==>
              r.value == old(db.nextId) && r.value !in old(db.members) &&
              db.members.Keys == old(db.members).Keys + {r.value} &&
              (forall m :: m in old(db.members) ==> db.members[m] == old(db.members)[m]) &&
              db.clubs == old(db.clubs)[payload.clubId := Charged(old(db.clubs)[payload.clubId])]
  {
    var attached := AttachSession(db, payload);
    if attached.Err? {
      return Err(attached.error);
    }
    var member := attached.value;
    if payload.clubId !in db.clubs {
      return Err(ClubNotFound);
    }
    var club := db.clubs[payload.clubId];
    OwnerLookupOfOwnClub(db.clubs, db.subscriptions, payload.clubId);
    var subscription := GetCurrentSubscription(db, club.ownerId);
    if subscription.value.None? && club.remainingMembers == 0 {
      return Err(ClubAtFullCapacity);
    }
    var id := AddMember(db, member);
    r := Ok(id);
  }

  /** The fields an update may carry; an absent field is None and keeps its value. */
  datatype MemberPatch = MemberPatch(clubId: Option<Id>, isMember: Option<bool>, sessionId: Option<Option<Id>>,
                                     level: Option<Option<Level>>, gender: Option<GenderType>)

  /** The member with the patch's fields written over it. */
  function Patched(m: Member, p: MemberPatch): (r: Member)
    ensures p.clubId.Some? ==> r.clubId == p.clubId.value
    ensures p.clubId.None? ==> r.clubId == m.clubId
    ensures p.isMember.Some? ==> r.isMember == p.isMember.value
    ensures p.isMember.None? ==> r.isMember == m.isMember
    ensures p.sessionId.Some? ==> r.sessionId == p.sessionId.value
    ensures p.sessionId.None? ==> r.sessionId == m.sessionId
    ensures p.level.Some? ==> r.level == p.level.value
    ensures p.level.None? ==> r.level == m.level
    ensures p.gender.Some? ==> r.gender == p.gender.value
    ensures p.gender.None? ==> r.gender == m.gender
  {
    Member(if p.clubId.Some? then p.clubId.value else m.clubId,
           if p.isMember.Some? then p.isMember.value else m.isMember,
           if p.sessionId.Some? then p.sessionId.value else m.sessionId,
           if p.level.Some? then p.level.value else m.level,
           if p.gender.Some? then p.gender.value else m.gender)
  }

  /** An empty patch changes nothing, and applying a patch twice is applying it once. */
  lemma PatchLaws(m: Member, p: MemberPatch)
    ensures Patched(m, MemberPatch(None, None, None, None, None)) == m
    ensures Patched(Patched(m, p), p) == Patched(m, p)
  {
  }

  /**
   * `updateMember`: ClubNotFound when the patch names a club that does not
   * exist; MemberNotFound when the member does not (the update's own
   * failure); otherwise the member's fields are overwritten by the patch.
   */
  method UpdateMember(db: Db, id: Id, patch: MemberPatch) returns (r: Result<Member>)
    requires db.Valid()
    modifies db`members
    ensures db.Valid()
    ensures r.Err? ==> unchanged(db)
    ensures patch.clubId.Some? && patch.clubId.value !in old(db.clubs) ==> r == Err(ClubNotFound)
    ensures (patch.clubId.None? || patch.clubId.value in old(db.clubs)) && id !in old(db.members) ==> r == Err(MemberNotFound)
    ensures r.Ok? <==> (patch.clubId.None? || patch.clubId.value in old(db.clubs)) && id in old(db.members)
    ensures r.Ok? ==> r.value == Patched(old(db.members)[id], patch) && db.members == old(db.members)[id := r.value]
  {
    if patch.clubId.Some? && patch.clubId.value !in db.clubs {
      return Err(ClubNotFound);
    }
    if id !in db.members {
      return Err(MemberNotFound);
    }
    var updated := Patched(db.members[id], patch);
    db.members := db.members[id := updated];
    r := Ok(updated);
  }

  /**
   * `deleteMember`: MemberNotFound on an unknown id; otherwise the member is
   * removed and returned. The club's slot count is not given back.
   */
  method DeleteMember(db: Db, id: Id) returns (r: Result<Member>)
    requires db.Valid()
    modifies db`members
    ensures db.Valid()
    ensures r.Err? <==> id !in old(db.members)
    ensures r.Err? ==> r.error == MemberNotFound && unchanged(db)
    ensures r.Ok? ==> r.value == old(db.members)[id] && db.members == old(db.members) - {id}
  {
    if id !in db.members {
      return Err(MemberNotFound);
    }
    r := Ok(db.members[id]);
    db.members := db.members - {id};
  }

  /** The `where` of `getAllMembers`: every member, or only the given club's. */
  predicate InClub(clubId: Option<Id>, row: Keyed<Member>)
  {
    clubId.None? || row.value.clubId == clubId.value
  }

  /** The members the listing counts and pages through, in creation order. */
  ghost function ClubMembers(members: map<Id, Member>, clubId: Option<Id>): (r: seq<Keyed<Member>>)
    ensures forall x :: x in r ==> x.id in members && x.value == members[x.id] && InClub(clubId, x)
    ensures forall id :: id in members && InClub(clubId, Keyed(id, members[id])) ==> Keyed(id, members[id]) in r
  {
    TableRowsSound(members);
    TableRowsComplete(members);
    Filter(TableRows(members), row => InClub(clubId, row))
  }

  /**
   * `getAllMembers` (and `getMyClubMembers`, the same query for one club):
   * the selected members counted in full, page `page` of them, and the page
   * count.
   */
  ghost function GetAllMembers(db: Db, clubId: Option<Id>, page: int, limit: int): (r: Listing<Keyed<Member>>)
    reads db
    requires page >= 1 && limit >= 1
    ensures r == Paginate(ClubMembers(db.members, clubId), page, limit)
    ensures r.meta.totalCount == |ClubMembers(db.members, clubId)| && |r.data| <= limit
    ensures forall x :: x in r.data ==> x.id in db.members && x.value == db.members[x.id] && InClub(clubId, x)
  {
    Paginate(ClubMembers(db.members, clubId), page, limit)
  }
}
