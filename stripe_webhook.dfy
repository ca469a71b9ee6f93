/** The payment-provider webhook: a verified event becomes an overwrite of
    the subscription columns of at most one user row. */
module StripeWebhook {
  import opened Collections
  import opened Schema
  import opened Http
  import Database

  const ModeSubscription := "subscription"
  const StripeStatusActive := "active"

  /** The fields of a checkout session the handler reads. */
  datatype CheckoutSession = CheckoutSession(
    mode: string,
    subscription: string,
    clientReferenceId: Option<string>)

  /** The fields of a provider subscription the handler reads. */
  datatype Subscription = Subscription(
    status: string,
    currentPeriodEnd: int,
    metadataUserId: Option<string>)

  /** A verified event. A completed checkout carries the `current_period_end`
      (in seconds) of the subscription that `subscriptions.retrieve` returned
      for the session's subscription id. */
  datatype Event =
    | CheckoutSessionCompleted(session: CheckoutSession, retrievedPeriodEnd: int)
    | SubscriptionUpdated(subscription: Subscription)
    | SubscriptionDeleted(subscription: Subscription)
    | Unhandled(eventType: string)

  /** A JavaScript string that is present and not empty. */
  predicate Truthy(s: Option<string>) {
    s.Some? && s.value != ""
  }

  /** The text the event's `UPDATE ... WHERE users.id = ?` compares with the
      id column, if the event writes at all. */
  function Target(event: Event): Option<string> {
    match event
    case CheckoutSessionCompleted(session, _) =>
      if session.mode == ModeSubscription && Truthy(session.clientReferenceId)
      then session.clientReferenceId else None
    case SubscriptionUpdated(sub) => if Truthy(sub.metadataUserId) then sub.metadataUserId else None
    case SubscriptionDeleted(sub) => if Truthy(sub.metadataUserId) then sub.metadataUserId else None
    case Unhandled(_) => None
  }

  /** The row a completed checkout writes: active, ending at the period end
      (seconds converted to milliseconds), with the subscription id stored. */
  function CheckoutRow(u: User, subscriptionId: string, periodEnd: int): User {
    u.(subscriptionStatus := StatusActive,
       subscriptionEndDate := Some(periodEnd * 1000),
       stripeSubscriptionId := Some(subscriptionId))
  }

  /** The row an updated or deleted subscription writes; the stored
      subscription id is left as it was. */
  function SubscriptionRow(u: User, sub: Subscription): User {
    u.(subscriptionStatus := if sub.status == StripeStatusActive then StatusActive else StatusInactive,
       subscriptionEndDate := if sub.status == StripeStatusActive then Some(sub.currentPeriodEnd * 1000) else None)
  }

  /** The stored id the event's update selects: the canonical form of the
      uuid its target spells. */
  function TargetKey(event: Event): Option<Id> {
    match Target(event)
    case Some(t) => Some(Key(t))
    case None => None
  }

  /** The row the event writes over `u`, for an event that writes. */
  function EventRow(u: User, event: Event): User
    requires Target(event).Some?
  {
    match event
    case CheckoutSessionCompleted(session, periodEnd) => CheckoutRow(u, session.subscription, periodEnd)
    case SubscriptionUpdated(sub) => SubscriptionRow(u, sub)
    case SubscriptionDeleted(sub) => SubscriptionRow(u, sub)
  }

  /** The users table after the event: the targeted row, if present, is
      overwritten; every other row is untouched. */
  function ApplyEvent(users: map<Id, User>, event: Event): (r: map<Id, User>)
    ensures r.Keys == users.Keys
    ensures forall k :: k in users && Some(k) != TargetKey(event) ==> r[k] == users[k]
    ensures TargetKey(event).Some? && TargetKey(event).value in users ==>
      r[TargetKey(event).value] == EventRow(users[TargetKey(event).value], event)
  {
    var target := TargetKey(event);
    if target.Some? && target.value in users then
      users[target.value := EventRow(users[target.value], event)]
    else users
  }

  /** Every branch overwrites fields with values taken from the event alone,
      so delivering an event twice leaves the table as delivering it once. */
  lemma ApplyEventIdempotent(users: map<Id, User>, event: Event)
    ensures ApplyEvent(ApplyEvent(users, event), event) == ApplyEvent(users, event)
  {
    var once := ApplyEvent(users, event);
    var twice := ApplyEvent(once, event);
    forall k | k in users ensures twice[k] == once[k] {
      if Some(k) == TargetKey(event) {
        assert twice[k] == EventRow(once[k], event);
      }
    }
  }

  /** A completed checkout in subscription mode whose client reference spells
      the uuid of a user, in any case or grouping, sets that user active, with
      end date period end x 1000 and the subscription id stored, whatever the
      subscription's own status. */
  lemma CheckoutActivates(users: map<Id, User>, session: CheckoutSession, periodEnd: int, k: Id)
    requires UsersOk(users) && k in users
    requires session.mode == ModeSubscription && Truthy(session.clientReferenceId)
    requires SameUuid(k, session.clientReferenceId.value)
    ensures var u := ApplyEvent(users, CheckoutSessionCompleted(session, periodEnd))[k];
      && u.subscriptionStatus == StatusActive
      && u.subscriptionEndDate == Some(periodEnd * 1000)
      && u.stripeSubscriptionId == Some(session.subscription)
  {
    KeyMatchesSameUuid(k, session.clientReferenceId.value);
  }

  /** A checkout that is not in subscription mode, or has no client reference,
      changes no user. */
  lemma CheckoutWithoutReferenceIsNoOp(users: map<Id, User>, session: CheckoutSession, periodEnd: int)
    requires session.mode != ModeSubscription || !Truthy(session.clientReferenceId)
    ensures ApplyEvent(users, CheckoutSessionCompleted(session, periodEnd)) == users
  {
  }

  /** The event names a target whose text is not a uuid: comparing it with the
      `uuid` id column makes the database raise an error, which nothing in the
      handler catches. */
  predicate TargetNotUuid(event: Event) {
    Target(event).Some? && !IsUuid(Target(event).value)
  }

  /** The checkout session is created with the user's email as its client
      reference, while this handler compares the reference with the `uuid` user
      ids: an email is not uuid text, so the update raises an error. */
  lemma CheckoutByEmailRefused(session: CheckoutSession, periodEnd: int, email: string)
    requires session.mode == ModeSubscription && session.clientReferenceId == Some(email)
    requires '@' in email
    ensures TargetNotUuid(CheckoutSessionCompleted(session, periodEnd))
  {
    AtSignNotUuid(email);
  }

  /** An event whose target is not a uuid names no row of a table keyed by uuids,
      so its delivery leaves the table as it was. */
  lemma RefusedChangesNothing(users: map<Id, User>, event: Event)
    requires UsersOk(users) && TargetNotUuid(event)
    ensures ApplyEvent(users, event) == users
  {
    var t := Target(event).value;
    if t in users {
      CanonicalIdIsCanonical(t);
      assert false;
    }
  }

  /** On an updated or deleted subscription naming a user: status "active" gives
      an active row with the refreshed end date, any other status an inactive row
      with no end date; the stored subscription id never changes. */
  lemma SubscriptionChangeOutcome(users: map<Id, User>, sub: Subscription, deleted: bool, k: Id)
    requires UsersOk(users) && k in users
    requires Truthy(sub.metadataUserId) && SameUuid(k, sub.metadataUserId.value)
    ensures var event := if deleted then SubscriptionDeleted(sub) else SubscriptionUpdated(sub);
      var u := ApplyEvent(users, event)[k];
      && (sub.status == StripeStatusActive ==>
            u.subscriptionStatus == StatusActive && u.subscriptionEndDate == Some(sub.currentPeriodEnd * 1000))
      && (sub.status != StripeStatusActive ==>
            u.subscriptionStatus == StatusInactive && u.subscriptionEndDate == None)
  {
    KeyMatchesSameUuid(k, sub.metadataUserId.value);
  }

  /** Updated and deleted events never write the stored subscription id, and
      without `metadata.userId` they write nothing at all. */
  lemma SubscriptionChangeKeepsStripeId(users: map<Id, User>, event: Event)
    requires event.SubscriptionUpdated? || event.SubscriptionDeleted?
    ensures forall k :: k in users ==>
      ApplyEvent(users, event)[k].stripeSubscriptionId == users[k].stripeSubscriptionId
    ensures !Truthy(event.subscription.metadataUserId) ==> ApplyEvent(users, event) == users
  {
  }

  /** No event leaves an active user without an end date. */
  lemma ApplyEventKeepsActiveEndDate(users: map<Id, User>, event: Event)
    requires ActiveHasEndDate(users)
    ensures ActiveHasEndDate(ApplyEvent(users, event))
  {
  }

  /** An updated subscription with status "active" that names a user with no
      stored subscription id makes that user active while the id stays unset:
      "active implies a stored subscription id" is not kept by this handler. */
  lemma ActiveWithoutStripeId(users: map<Id, User>, sub: Subscription, k: Id)
    requires UsersOk(users) && k in users
    requires Truthy(sub.metadataUserId) && SameUuid(k, sub.metadataUserId.value)
    requires users[k].stripeSubscriptionId.None?
    requires sub.status == StripeStatusActive
    ensures var u := ApplyEvent(users, SubscriptionUpdated(sub))[k];
      u.subscriptionStatus == StatusActive && u.stripeSubscriptionId.None?
  {
    KeyMatchesSameUuid(k, sub.metadataUserId.value);
  }

  /** Events of types the handler does not recognise change nothing. */
  lemma UnhandledIsNoOp(users: map<Id, User>, eventType: string)
    ensures ApplyEvent(users, Unhandled(eventType)) == users
  {
  }

  /** A sequence of deliveries, applied in order; deliveries never add or
      remove user rows. */
  function ApplyAll(users: map<Id, User>, events: seq<Event>): (r: map<Id, User>)
    ensures r.Keys == users.Keys
    decreases |events|
  {
    if events == [] then users
    else ApplyEvent(ApplyAll(users, events[..|events| - 1]), events[|events| - 1])
  }

  /** Whatever was delivered before, including duplicates of earlier events, a
      final delete naming a user with a non-active status leaves that user
      inactive with no end date. */
  lemma FinalDeleteDeactivates(users: map<Id, User>, earlier: seq<Event>, sub: Subscription, k: Id)
    requires UsersOk(users) && k in users
    requires Truthy(sub.metadataUserId) && SameUuid(k, sub.metadataUserId.value)
    requires sub.status != StripeStatusActive
    ensures var u := ApplyAll(users, earlier + [SubscriptionDeleted(sub)])[k];
      u.subscriptionStatus == StatusInactive && u.subscriptionEndDate == None
  {
    KeyMatchesSameUuid(k, sub.metadataUserId.value);
    var events := earlier + [SubscriptionDeleted(sub)];
    assert events[..|events| - 1] == earlier;
  }

  /** What `webhooks.constructEvent(body, signature, secret)` gives: the
      verified event, or the message of the error it throws. */
  datatype Construction = Constructed(event: Event) | SignatureError(message: string)

  /** `POST`: a body whose signature fails verification is answered 400 with
      the error's message and changes nothing. A verified event whose target is
      not uuid text fails in the update and is answered 500, changing nothing;
      the provider delivers it again later. Any other verified event is applied
      and answered 200. */
  method HandleWebhook(db: Database.Db, construction: Construction) returns (response: Response)
    requires db.Valid()
    modifies db`users
    ensures db.Valid()
    ensures construction.SignatureError? ==>
      response == Response(400, "Webhook Error: " + construction.message) && db.users == old(db.users)
    ensures construction.Constructed? && TargetNotUuid(construction.event) ==>
      response == UncaughtError && db.users == old(db.users)
    ensures construction.Constructed? && !TargetNotUuid(construction.event) ==>
      response == Response(200, "received") && db.users == ApplyEvent(old(db.users), construction.event)
  {
    if construction.SignatureError? {
      return Response(400, "Webhook Error: " + construction.message);
    }
    var event := construction.event;
    match event {
      case CheckoutSessionCompleted(checkoutSession, periodEnd) =>
        response := CompleteCheckout(db, checkoutSession, periodEnd);
        return;
      case SubscriptionUpdated(subscription) =>
        response := UpdateSubscriptionColumns(db, subscription);
        return;
      case SubscriptionDeleted(subscription) =>
        response := UpdateSubscriptionColumns(db, subscription);
        return;
      case Unhandled(_) =>
    }
    return Response(200, "received");
  }

  /** The branch for a completed checkout session. */
  method CompleteCheckout(db: Database.Db, checkoutSession: CheckoutSession, periodEnd: int) returns (response: Response)
    requires db.Valid()
    modifies db`users
    ensures db.Valid()
    ensures TargetNotUuid(CheckoutSessionCompleted(checkoutSession, periodEnd)) ==>
      response == UncaughtError && db.users == old(db.users)
    ensures !TargetNotUuid(CheckoutSessionCompleted(checkoutSession, periodEnd)) ==>
      && response == Response(200, "received")
      && db.users == ApplyEvent(old(db.users), CheckoutSessionCompleted(checkoutSession, periodEnd))
  {
    ghost var event := CheckoutSessionCompleted(checkoutSession, periodEnd);
    if checkoutSession.mode == ModeSubscription {
      var subscriptionId := checkoutSession.subscription;
      var userId := checkoutSession.clientReferenceId;
      if userId.Some? && userId.value != "" {
        if !IsUuid(userId.value) {
          return UncaughtError;
        }
        var key := Key(userId.value);
        assert TargetKey(event) == Some(key);
        if key in db.users {
          var row := CheckoutRow(db.users[key], subscriptionId, periodEnd);
          assert row == EventRow(db.users[key], event);
          OverwriteKeepsUsersOk(db.users, key, row);
          db.users := db.users[key := row];
        }
      } else {
        assert Target(event).None?;
      }
    } else {
      assert Target(event).None?;
    }
    return Response(200, "received");
  }

  /** The branch shared by updated and deleted subscriptions. */
  method UpdateSubscriptionColumns(db: Database.Db, subscription: Subscription) returns (response: Response)
    requires db.Valid()
    modifies db`users
    ensures db.Valid()
    ensures TargetNotUuid(SubscriptionUpdated(subscription)) ==>
      response == UncaughtError && db.users == old(db.users)
    ensures !TargetNotUuid(SubscriptionUpdated(subscription)) ==>
      response == Response(200, "received") && db.users == ApplyEvent(old(db.users), SubscriptionUpdated(subscription))
  {
    ghost var event := SubscriptionUpdated(subscription);
    var userId := subscription.metadataUserId;
    if userId.Some? && userId.value != "" {
      if !IsUuid(userId.value) {
        return UncaughtError;
      }
      var key := Key(userId.value);
      assert TargetKey(event) == Some(key);
      if key in db.users {
        var row := SubscriptionRow(db.users[key], subscription);
        assert row == EventRow(db.users[key], event);
        OverwriteKeepsUsersOk(db.users, key, row);
        db.users := db.users[key := row];
      }
    }
    return Response(200, "received");
  }
}
