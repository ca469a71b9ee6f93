/** The database as one mutable object: each table is a field that the
    store operations reassign, and `Valid` is the set of constraints the
    database enforces on every table. */
module Database {
  import opened Schema

  class Db {
    var posts: seq<Post>
    var pages: seq<Page>
    var menuItems: seq<MenuItem>
    var users: map<Id, User>
    var verificationTokens: seq<VerificationToken>
    var subscriptionPlans: seq<SubscriptionPlan>

    ghost predicate Valid()
      reads this
    {
      && PostsOk(posts)
      && PagesOk(pages)
      && MenuItemsOk(menuItems)
      && UsersOk(users)
      && TokensOk(verificationTokens)
      && PlansOk(subscriptionPlans)
    }

    /** An empty database. */
    constructor ()
      ensures Valid()
      ensures posts == [] && pages == [] && menuItems == []
      ensures users == map[] && verificationTokens == [] && subscriptionPlans == []
    {
      posts, pages, menuItems := [], [], [];
      users, verificationTokens, subscriptionPlans := map[], [], [];
    }
  }
}
