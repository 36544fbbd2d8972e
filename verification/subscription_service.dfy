/**
 * The subscription service: taking a plan for a club, cancelling a
 * subscription, finding a user's current subscription, and listing them.
 */
module SubscriptionService {
  import opened Common
  import opened Store
  import opened Paging

  /** One day in milliseconds (24 * 60 * 60 * 1000). */
  const DayMs: int := 86400000

  /** The end of a subscription of `days` days starting at `start`: exactly that many whole days later. */
  function EndDate(start: int, days: int): (end: int)
    ensures (end - start) % DayMs == 0 && (end - start) / DayMs == days
  {
    start + days * DayMs
  }

  /** The club has an active subscription (what `findFirst({ isActive: true })` looks for). */
  predicate HasActive(subscriptions: map<Id, Subscription>, clubId: Id)
  {
    exists id :: id in subscriptions && subscriptions[id].clubId == clubId && subscriptions[id].isActive
  }

  /** The club owned by the user, if any (`club.findUnique({ ownerId })`). */
  ghost function ClubOwnedBy(clubs: map<Id, Club>, ownerId: Id): (r: Option<Id>)
    requires OwnersUnique(clubs)
    ensures r.Some? ==> r.value in clubs && clubs[r.value].ownerId == ownerId
    ensures r.None? ==> forall c :: c in clubs ==> clubs[c].ownerId != ownerId
    ensures forall c :: c in clubs && clubs[c].ownerId == ownerId ==> r == Some(c)
  {
    if exists c :: c in clubs && clubs[c].ownerId == ownerId then
      var c :| c in clubs && clubs[c].ownerId == ownerId;
      Some(c)
    else None
  }

  /**
   * `takeSubscription`: ClubNotFound or PlanNotFound; otherwise one active
   * subscription of the club to the plan, from `now` to the plan's duration
   * in days later.
   */
  method TakeSubscription(db: Db, subscriptionPlanId: Id, clubId: Id, now: int) returns (r: Result<Id>)
    requires db.Valid()
    modifies db`subscriptions, db`nextId
    ensures db.Valid()
    ensures r.Err? ==> unchanged(db)
    ensures clubId !in old(db.clubs) ==> r == Err(ClubNotFound)
    ensures clubId in old(db.clubs) && subscriptionPlanId !in old(db.plans) ==> r == Err(PlanNotFound)
    ensures r.Ok? <==> clubId in old(db.clubs) && subscriptionPlanId in old(db.plans)
    ensures r.Ok? ==>
              r.value == old(db.nextId) && r.value !in old(db.subscriptions) && db.nextId == old(db.nextId) + 1 &&
              db.subscriptions == old(db.subscriptions)[r.value := Subscription(clubId, subscriptionPlanId, now,
                                                                               EndDate(now, db.plans[subscriptionPlanId].duration), true)]
    ensures r.Ok? ==> HasActive(db.subscriptions, clubId)
  {
    if clubId !in db.clubs {
      return Err(ClubNotFound);
    }
    if subscriptionPlanId !in db.plans {
      return Err(PlanNotFound);
    }
    var id := db.nextId;
    var created := Subscription(clubId, subscriptionPlanId, now, EndDate(now, db.plans[subscriptionPlanId].duration), true);
    db.subscriptions, db.nextId := db.subscriptions[id := created], id + 1;
    assert db.subscriptions[id] == created;
    r := Ok(id);
  }

  /** The subscription, inactive and ended at `now`. */
  function Cancelled(s: Subscription, now: int): (c: Subscription)
    ensures !c.isActive && c.endDate == now
    ensures c.clubId == s.clubId && c.subscriptionPlanId == s.subscriptionPlanId && c.startDate == s.startDate
  {
    s.(isActive := false, endDate := now)
  }

  /**
   * `cancelSubscription`: SubscriptionNotFound on an unknown id; otherwise
   * the subscription becomes inactive, ending `now`, and the record as it
   * was is returned.
   */
  method CancelSubscription(db: Db, id: Id, now: int) returns (r: Result<Subscription>)
    requires db.Valid()
    modifies db`subscriptions
    ensures db.Valid()
    ensures r.Err? <==> id !in old(db.subscriptions)
    ensures r.Err? ==> r.error == SubscriptionNotFound && unchanged(db)
    ensures r.Ok? ==> r.value == old(db.subscriptions)[id]
    ensures r.Ok? ==> db.subscriptions == old(db.subscriptions)[id := Cancelled(old(db.subscriptions)[id], now)]
    ensures r.Ok? ==> db.subscriptions.Keys == old(db.subscriptions).Keys && !db.subscriptions[id].isActive
  {
    if id !in db.subscriptions {
      return Err(SubscriptionNotFound);
    }
    r := Ok(db.subscriptions[id]);
    db.subscriptions := db.subscriptions[id := Cancelled(db.subscriptions[id], now)];
  }

  /**
   * `getCurrentSubscription(userId)`: ClubNotFound when the user owns no
   * club; otherwise some active subscription of the user's club, or none.
   */
  method GetCurrentSubscription(db: Db, userId: Id) returns (r: Result<Option<Id>>)
    requires db.Valid()
    ensures r.Err? <==> ClubOwnedBy(db.clubs, userId).None?
    ensures r.Err? ==> r.error == ClubNotFound
    ensures r.Ok? && r.value.Some? ==>
              var s := r.value.value;
              s in db.subscriptions && db.subscriptions[s].isActive && db.subscriptions[s].clubId == ClubOwnedBy(db.clubs, userId).value
    ensures r.Ok? && r.value.None? ==> !HasActive(db.subscriptions, ClubOwnedBy(db.clubs, userId).value)
  {
    if !exists c :: c in db.clubs && db.clubs[c].ownerId == userId {
      return Err(ClubNotFound);
    }
    var club :| club in db.clubs && db.clubs[club].ownerId == userId;
    if exists s :: s in db.subscriptions && db.subscriptions[s].clubId == club && db.subscriptions[s].isActive {
      var s :| s in db.subscriptions && db.subscriptions[s].clubId == club && db.subscriptions[s].isActive;
      r := Ok(Some(s));
    } else {
      r := Ok(None);
    }
  }

  /**
   * `getAllSubscriptions`: the `userId` of the query is read but the filter
   * is empty, so every subscription is counted and paged, whoever asks.
   */
  ghost function GetAllSubscriptions(db: Db, userId: Option<Id>, page: int, limit: int): (r: Listing<Keyed<Subscription>>)
    reads db
    requires page >= 1 && limit >= 1
    ensures r == Paginate(TableRows(db.subscriptions), page, limit)
    ensures r.meta.totalCount == |db.subscriptions| && r.meta.totalPages == Some(TotalPages(|db.subscriptions|, limit))
    ensures forall x :: x in r.data ==> x.id in db.subscriptions && x.value == db.subscriptions[x.id]
  {
    TableRowsSound(db.subscriptions);
    Paginate(TableRows(db.subscriptions), page, limit)
  }
}
