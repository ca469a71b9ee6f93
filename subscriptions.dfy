/** The local subscription endpoint: `POST` activates a plan for the signed-in
    user without involving the payment provider; `GET` reads the user's
    subscription state and the plan catalogue. */
module Subscriptions {
  import opened Collections
  import opened Schema
  import opened Http
  import Database

  /** One day, in milliseconds. */
  const DayMs: int := 24 * 60 * 60 * 1000

  /** The plan row whose uuid `planId` spells, if the plans table has one:
      the id column is a uuid, so the comparison is on the value and ignores
      the case of the hex digits and the grouping of the text. */
  function FindPlan(plans: seq<SubscriptionPlan>, planId: string): (r: Option<SubscriptionPlan>)
    ensures r.Some? ==> r.value in plans && r.value.id == Key(planId)
    ensures r.None? <==> forall p :: p in plans ==> p.id != Key(planId)
  {
    First(Filter(plans, (p: SubscriptionPlan) => p.id == Key(planId)))
  }

  /** Any spelling of a stored plan's uuid finds that plan. */
  lemma FindPlanAnySpelling(plans: seq<SubscriptionPlan>, k: nat, planId: string)
    requires PlansOk(plans) && k < |plans| && SameUuid(plans[k].id, planId)
    ensures FindPlan(plans, planId) == Some(plans[k])
  {
    KeyMatchesSameUuid(plans[k].id, planId);
    var r := FindPlan(plans, planId);
    var i :| 0 <= i < |plans| && plans[i] == r.value;
    if i != k {
      assert false;
    }
  }

  /** No plan is found exactly when no stored plan id names the same uuid as
      `planId`. */
  lemma FindPlanNoneIff(plans: seq<SubscriptionPlan>, planId: string)
    requires PlansOk(plans)
    ensures FindPlan(plans, planId).None? <==> forall i :: 0 <= i < |plans| ==> !SameUuid(plans[i].id, planId)
  {
    forall i | 0 <= i < |plans|
      ensures plans[i].id == Key(planId) <==> SameUuid(plans[i].id, planId)
    {
      KeyMatchesSameUuid(plans[i].id, planId);
    }
  }

  /** The end date `setDate(getDate() + duration)` gives, read as whole days after `now`. */
  function EndDate(now: Timestamp, duration: int): Timestamp {
    now + duration * DayMs
  }

  /** The users table after activating a plan for `userId`: that row, if
      present, becomes active until the plan's end date; all else is unchanged. */
  function Activate(users: map<Id, User>, userId: Id, endDate: Timestamp): (r: map<Id, User>)
    ensures r.Keys == users.Keys
    ensures forall k :: k in users && k != userId ==> r[k] == users[k]
    ensures userId in users ==>
      r[userId] == users[userId].(subscriptionStatus := StatusActive, subscriptionEndDate := Some(endDate))
  {
    if userId in users then
      users[userId := users[userId].(subscriptionStatus := StatusActive, subscriptionEndDate := Some(endDate))]
    else users
  }

  /** Activation never writes a provider id: both stored provider ids, and every
      column but status and end date, keep their values. */
  lemma ActivationKeepsProviderIds(users: map<Id, User>, userId: Id, endDate: Timestamp)
    ensures forall k :: k in users ==>
      var u := Activate(users, userId, endDate)[k];
      u.(subscriptionStatus := users[k].subscriptionStatus, subscriptionEndDate := users[k].subscriptionEndDate) == users[k]
  {
  }

  /** The local path can make a user active while no provider subscription id is
      stored, so "active implies a stored subscription id" does not hold of it. */
  lemma ActivationWithoutProviderId(users: map<Id, User>, userId: Id, endDate: Timestamp)
    requires userId in users && users[userId].stripeSubscriptionId.None?
    ensures var u := Activate(users, userId, endDate)[userId];
      u.subscriptionStatus == StatusActive && u.stripeSubscriptionId.None?
  {
  }

  /** Activation leaves no active user without an end date. */
  lemma ActivationKeepsActiveEndDate(users: map<Id, User>, userId: Id, endDate: Timestamp)
    requires ActiveHasEndDate(users)
    ensures ActiveHasEndDate(Activate(users, userId, endDate))
  {
  }

  /** Subscribing to a plan of positive duration leaves the user active until
      a moment at least one day after the purchase, with the provider columns
      untouched. */
  lemma PositivePlanActivatesBeyondNow(users: map<Id, User>, userId: Id, now: Timestamp, duration: int)
    requires userId in users && duration > 0
    ensures var u := Activate(users, userId, EndDate(now, duration))[userId];
      && u.subscriptionStatus == StatusActive
      && u.subscriptionEndDate.Some? && u.subscriptionEndDate.value >= now + DayMs
      && u.stripeSubscriptionId == users[userId].stripeSubscriptionId
      && u.stripeCustomerId == users[userId].stripeCustomerId
  {
  }

  /** `POST`: 401 without a signed-in user; 500 when `planId` is not uuid text,
      since the database refuses to compare it with the uuid column and the
      `catch` answers; 400 for an unknown plan. These change nothing; otherwise
      the session user's row becomes active until `now` plus the plan's
      duration in days. */
  method Subscribe(db: Database.Db, session: Option<Session>, planId: string, now: Timestamp)
    returns (response: Response)
    requires db.Valid()
    modifies db`users
    ensures db.Valid()
    ensures !SignedIn(session) ==> response == Response(401, "Unauthorized") && db.users == old(db.users)
    ensures SignedIn(session) && !IsUuid(planId) ==>
      response == Response(500, "Failed to process subscription") && db.users == old(db.users)
    ensures SignedIn(session) && IsUuid(planId) && FindPlan(db.subscriptionPlans, planId).None? ==>
      response == Response(400, "Invalid subscription plan") && db.users == old(db.users)
    ensures SignedIn(session) && IsUuid(planId) && FindPlan(db.subscriptionPlans, planId).Some? ==>
      && response == Response(200, "Subscription successful")
      && db.users == Activate(old(db.users), session.value.user.value.id,
                              EndDate(now, FindPlan(db.subscriptionPlans, planId).value.duration))
  {
    if !(session.Some? && session.value.user.Some?) {
      return Response(401, "Unauthorized");
    }
    if !IsUuid(planId) {
      return Response(500, "Failed to process subscription");
    }
    var plan := FindPlan(db.subscriptionPlans, planId);
    if plan.None? {
      return Response(400, "Invalid subscription plan");
    }
    var subscriptionEndDate := now;
    subscriptionEndDate := subscriptionEndDate + plan.value.duration * DayMs;
    var userId := session.value.user.value.id;
    if userId in db.users {
      var activated := db.users[userId].(subscriptionStatus := StatusActive,
                                         subscriptionEndDate := Some(subscriptionEndDate));
      OverwriteKeepsUsersOk(db.users, userId, activated);
      db.users := db.users[userId := activated];
    }
    return Response(200, "Subscription successful");
  }

  /** What `GET` reports on success. */
  datatype SubscriptionInfo = SubscriptionInfo(
    subscriptionStatus: string,
    subscriptionEndDate: Option<Timestamp>,
    plans: seq<SubscriptionPlan>)

  /** `GET`: 401 without a signed-in user, 404 when the user's row is missing,
      otherwise 200 with the row's status and end date and every plan. */
  method GetSubscription(db: Database.Db, session: Option<Session>)
    returns (status: nat, info: Option<SubscriptionInfo>)
    ensures !SignedIn(session) ==> status == 401 && info.None?
    ensures SignedIn(session) && session.value.user.value.id !in db.users ==> status == 404 && info.None?
    ensures SignedIn(session) && session.value.user.value.id in db.users ==>
      var u := db.users[session.value.user.value.id];
      status == 200 && info == Some(SubscriptionInfo(u.subscriptionStatus, u.subscriptionEndDate, db.subscriptionPlans))
  {
    if !(session.Some? && session.value.user.Some?) {
      return 401, None;
    }
    var userId := session.value.user.value.id;
    if userId !in db.users {
      return 404, None;
    }
    var user := db.users[userId];
    var plans := db.subscriptionPlans;
    return 200, Some(SubscriptionInfo(user.subscriptionStatus, user.subscriptionEndDate, plans));
  }
}
