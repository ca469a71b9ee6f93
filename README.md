# NextPress core, modelled in Dafny

NextPress is a content-management and subscription web application. This
project models its core: the rules the server and the admin screens apply to
their tables. Everything else in the application is UI or request plumbing.

The core covers:

- **Schema** (`schema.dfy`, `database.dfy`). The records of posts, pages, menu
  items, users, verification tokens and subscription plans. Also their column
  defaults and the uniqueness constraints the database enforces. The database
  is one object, `Database.Db`. Each table is a field of it. `Db.Valid` is the
  conjunction of the constraints, and every write method keeps it.
- **Rate limiter** (`rate_limiter.dfy`). The fixed-window, per-client counter
  table that guards signup. It is a class whose `Check` updates the table in
  place.
- **Subscription entitlement**:
  - the payment-provider webhook (`stripe_webhook.dfy`);
  - the local activation endpoint and the subscription read
    (`subscriptions.dfy`).
- **Account lifecycle**:
  - email verification with single-use, expiring tokens (`verify_email.dfy`);
  - rate-limited signup that keeps emails unique (`signup.dfy`).
- **Menu**:
  - the dashboard's drag-and-drop reorder and its edit/delete list updates
    (`menu_content.dfy`);
  - the server-side store, with its sorted read and the transaction that
    rewrites `order` (`menu_store.dfy`).
- **Content stores** (`posts.dfy`, `pages.dfy`). Each has published/draft
  listing, lookup by slug, create, update and delete. Posts also have the rule
  that refreshes a post's date.
- **Small pure rules**:
  - the blog excerpt and listing (`blog.dfy`);
  - theme lookup with fallback (`themes.dfy`);
  - the role gate (`rbac.dfy`);
  - the admin user list handlers (`user_management.dfy`).
- **Shared helpers** (`collections.dfy`, `http.dfy`). `Option`, and `Filter`,
  which stands for both a SQL `WHERE` and JavaScript's `Array.filter`. Also
  the response and session shapes the handlers see.

How the model represents the program:

- Tables are sequences of rows, in table order. Users are the exception: they
  are a map keyed by id.
- Time is an integer number of milliseconds, passed in as `now`.
- Ids are uuids. A stored id is held as its canonical text: 32 lower-case
  digits in groups of 8-4-4-4-12, the form PostgreSQL returns. A
  `WHERE id = ?` compares the canonical form of the text it is given
  (`Schema.Key`). So any spelling PostgreSQL accepts for a uuid selects the
  row with that uuid: either case, with or without hyphens, in braces. This
  holds for every table: posts, pages, menu items, users and plans.
- Generated ids are passed in as `newId`, with a precondition that the id is
  canonical and not in use. Posts, pages and menu items take the database's
  `defaultRandom()`. The signup route makes a user's id itself with
  `uuidv4()`.
- Foreign calls are inputs:
  - `webhooks.constructEvent` becomes the `Construction` value, an event or the
    error message it throws;
  - the `current_period_end` that `subscriptions.retrieve` returns becomes a
    field of the checkout event;
  - bcrypt is a function parameter `hash`.
- Request handlers return a `Response`: a status and the message or error text
  of the JSON body.
- JavaScript truthiness is modelled where the code relies on it. An empty
  `x-forwarded-for` header counts as absent. So do an empty token, an empty
  `client_reference_id` and an empty `metadata.userId`.

## Model

| member | source | states |
|---|---|---|
| Database.Db.constructor | src/lib/db/schema.ts:3-78 | A new database has empty tables and satisfies every uniqueness constraint |
| Schema.AtSignNotUuid | src/lib/db/schema.ts:30 | Text containing `@`, such as an email address, is never accepted by the `uuid` id column |
| Schema.HexDigitsAccepted | src/lib/db/schema.ts:30 | Any 32 hexadecimal digits are accepted as uuid text |
| Schema.CaseBlindUuid | src/lib/db/schema.ts:30 | 32 hexadecimal digits spelled in upper case and in lower case name the same uuid |
| Schema.ValueOfCanonical | src/lib/db/schema.ts:4-30 | The canonical text of a uuid (lower case, in groups of 8-4-4-4-12) spells the same value as the text it was made from |
| Schema.CanonicalIdIsCanonical | src/lib/db/schema.ts:4-30 | Text in the stored form is uuid text and is its own canonical form |
| Schema.KeyMatchesSameUuid | src/lib/db/schema.ts:4-30 | A stored id is its own key. A `WHERE id = ?` with any text selects it exactly when that text spells the same uuid, in either case, with or without hyphens or braces |
| Schema.PostSlugIdentifiesOne | src/lib/db/schema.ts:9 | Under the unique slug column, selecting posts by slug yields at most one row |
| Schema.PageSlugIdentifiesOne | src/lib/db/schema.ts:17 | Under the unique slug column, selecting pages by slug yields at most one row |
| Schema.TokenIdentifiesOne | src/lib/db/schema.ts:65-69 | Under the unique token column, selecting tokens by value yields at most one row |
| Schema.EmailIdentifiesOne | src/lib/db/schema.ts:32 | Under the unique email column, two users with the same email are the same user |
| RateLimiter.ClientKey | src/lib/rate-limiter.ts:14-15 | An absent or empty `x-forwarded-for` header gives the key "unknown". Otherwise the key is the header's text before its first comma |
| RateLimiter.BeforeFirstComma | src/lib/rate-limiter.ts:15 | The key is a prefix of the header that contains no comma and ends at the first comma or at the end of the header |
| RateLimiter.Hit | src/lib/rate-limiter.ts:17-27 | A client with no record starts at count 1 with reset time now + 60000. Within the window (now <= resetTime) the count rises by one and the reset time is kept. After the window the count restarts at 1 with a new reset time |
| RateLimiter.WithinWindowCounts | src/lib/rate-limiter.ts:22-27 | Any run of requests inside the window adds exactly its length to the count and never extends the reset time |
| RateLimiter.WindowAdmitsFifty | src/lib/rate-limiter.ts:17-35 | For a new client, the n-th request of a burst within one window is refused exactly when n > 50: the first 50 pass and the 51st fails |
| RateLimiter.Limiter.constructor | src/lib/rate-limiter.ts:11 | The table starts empty |
| RateLimiter.Limiter.Check | src/lib/rate-limiter.ts:13-36 | Only the request's key changes, and it changes to `Hit` of the stored record; a refused request is still counted; the answer is a 429 "Too many requests" exactly when the new count exceeds 50 |
| StripeWebhook.ApplyEvent | src/app/api/webhooks/stripe/route.ts:28-63 | No row is added or removed. Only the row whose id is the uuid the event's target spells can change, and it takes the branch's overwrite |
| StripeWebhook.ApplyEventIdempotent | src/app/api/webhooks/stripe/route.ts:37-57 | Applying the same event twice gives the same table as applying it once |
| StripeWebhook.CheckoutActivates | src/app/api/webhooks/stripe/route.ts:31-44 | A completed subscription-mode checkout whose client reference spells a user's uuid, in any case or grouping, makes that user active, with end date = period end x 1000 and the subscription id stored, whatever the subscription's status |
| StripeWebhook.CheckoutWithoutReferenceIsNoOp | src/app/api/webhooks/stripe/route.ts:31-36 | A checkout not in subscription mode, or without a client reference, changes nothing |
| StripeWebhook.CheckoutByEmailRefused | src/app/api/webhooks/stripe/route.ts:31-43 | A subscription-mode checkout whose client reference is an email address names a target that is not uuid text |
| StripeWebhook.RefusedChangesNothing | src/app/api/webhooks/stripe/route.ts:37-57 | An event whose target is not uuid text names no row of a uuid-keyed table, so the table stays as it was |
| StripeWebhook.SubscriptionChangeOutcome | src/app/api/webhooks/stripe/route.ts:47-58 | On updated/deleted, for the user whose uuid `metadata.userId` spells: status "active" gives active with the refreshed end date; any other status gives inactive with no end date |
| StripeWebhook.SubscriptionChangeKeepsStripeId | src/app/api/webhooks/stripe/route.ts:50-57 | Updated/deleted events never write the stored subscription id, and without `metadata.userId` they change nothing |
| StripeWebhook.ApplyEventKeepsActiveEndDate | src/app/api/webhooks/stripe/route.ts:37-57 | No event leaves an active user without an end date |
| StripeWebhook.ActiveWithoutStripeId | src/app/api/webhooks/stripe/route.ts:50-57 | An "active" update naming (in any spelling of its uuid) a user with no stored subscription id makes the user active while the id stays unset |
| StripeWebhook.UnhandledIsNoOp | src/app/api/webhooks/stripe/route.ts:61-62 | Unrecognised event types change nothing |
| StripeWebhook.ApplyAll | src/app/api/webhooks/stripe/route.ts:28-63 | A sequence of deliveries never adds or removes user rows |
| StripeWebhook.FinalDeleteDeactivates | src/app/api/webhooks/stripe/route.ts:47-58 | Whatever was delivered before, a final non-active delete leaves the user whose uuid it names inactive with no end date |
| StripeWebhook.HandleWebhook | src/app/api/webhooks/stripe/route.ts:12-66 | A failed signature check answers 400 "Webhook Error: ..." and changes nothing. A verified event whose target is not uuid text fails in the update: the answer is 500 and nothing changes. Any other verified event is applied to the user whose uuid the target spells, and answered 200 |
| StripeWebhook.CompleteCheckout | src/app/api/webhooks/stripe/route.ts:31-45 | For a completed checkout: a subscription-mode reference that is not uuid text gives 500 and no change. Otherwise the checkout's columns are written to the user whose uuid the reference spells, if there is one, and the answer is 200 |
| StripeWebhook.UpdateSubscriptionColumns | src/app/api/webhooks/stripe/route.ts:47-58 | For updated and deleted subscriptions: a `metadata.userId` that is not uuid text gives 500 and no change. Otherwise the subscription's columns are written to the user whose uuid it spells, in any case or grouping, and the answer is 200 |
| Subscriptions.FindPlan | src/app/api/subscriptions/route.ts:18 | The plan found is in the table and its id is the canonical form of the requested uuid; none is found exactly when no plan has that id |
| Subscriptions.FindPlanAnySpelling | src/app/api/subscriptions/route.ts:18-22 | Any spelling of a stored plan's uuid, in either case or grouping, finds that plan |
| Subscriptions.FindPlanNoneIff | src/app/api/subscriptions/route.ts:18-22 | No plan is found, and the answer is 400, exactly when no stored plan id names the same uuid as the request |
| Subscriptions.Activate | src/app/api/subscriptions/route.ts:30-35 | Only the session user's row changes, and only its status (active) and end date |
| Subscriptions.ActivationKeepsProviderIds | src/app/api/subscriptions/route.ts:30-35 | Every column but status and end date, both provider ids included, keeps its value |
| Subscriptions.ActivationWithoutProviderId | src/app/api/subscriptions/route.ts:27-35 | The local path can make a user active with no stored subscription id |
| Subscriptions.ActivationKeepsActiveEndDate | src/app/api/subscriptions/route.ts:30-35 | Activation leaves no active user without an end date |
| Subscriptions.PositivePlanActivatesBeyondNow | src/app/api/subscriptions/route.ts:27-35 | After subscribing to a plan of positive duration, the user is active until at least one day after the purchase, and both provider ids are untouched |
| Subscriptions.Subscribe | src/app/api/subscriptions/route.ts:8-43 | 401 without a session, 500 from the `catch` when the plan id is not uuid text, and 400 when no plan has that uuid, all changing nothing; otherwise 200, and the user is active until now + duration days |
| Subscriptions.GetSubscription | src/app/api/subscriptions/route.ts:45-70 | 401 without a session and 404 without a user row; otherwise 200 with the row's status, its end date and every plan |
| VerifyEmail.TokenRows | src/app/api/auth/verify-email/route.ts:15-18 | Exactly the token rows whose value is the presented token |
| VerifyEmail.MarkVerified | src/app/api/auth/verify-email/route.ts:29-32 | The update adds or removes no user |
| VerifyEmail.Verify | src/app/api/auth/verify-email/route.ts:6-42 | Success exactly for a non-empty, stored, unexpired token. Every failure is a 400 that changes nothing. Success verifies exactly the users with the token's email and deletes the token |
| VerifyEmail.TokenSingleUse | src/app/api/auth/verify-email/route.ts:19-36 | Replaying a token that has verified an email is refused as "Invalid token", at any later time |
| VerifyEmail.ExpiryBoundary | src/app/api/auth/verify-email/route.ts:25-27 | A token presented after its expiry is refused and kept; one presented exactly at its expiry is accepted |
| VerifyEmail.VerifyKeepsConstraints | src/app/api/auth/verify-email/route.ts:29-36 | Verification keeps emails and token values unique |
| VerifyEmail.HandleVerifyEmail | src/app/api/auth/verify-email/route.ts:6-42 | The handler's response and new tables are those of `Verify` |
| Signup.Register | src/app/api/auth/signup/route.ts:13-34 | An email on record gives 400 "User already exists" and inserts nothing. Otherwise 201 and exactly one new row: the given name and email, role "user", status "free", the password hash, and every other nullable column (email verification, image, end date, both provider ids) unset |
| Signup.RegisterKeepsUsersOk | src/app/api/auth/signup/route.ts:17-32 | Signup with an id from `uuidv4()` keeps the users table keyed by canonical uuid ids with unique emails |
| Signup.SecondSignupRefused | src/app/api/auth/signup/route.ts:17-20 | A second signup with the same email is refused |
| Signup.HandleSignup | src/app/api/auth/signup/route.ts:9-40 | The limiter counts the request first. A refused request gets 429 before any lookup or insert. Otherwise the outcome is `Register` with the hash of the password |
| MenuContent.OnDragEnd | src/app/dashboard/menu/menu-content.tsx:130-144 | No destination means no change and no request. Otherwise the same items in a new arrangement, numbered `order = index`. The dragged item is at the destination, and the others keep their relative order. The new list is also the request body |
| MenuContent.MovePermutes | src/app/dashboard/menu/menu-content.tsx:135-137 | The two splices only rearrange the items |
| MenuContent.MoveLands | src/app/dashboard/menu/menu-content.tsx:136-137 | The moved item lands at the destination, and removing it gives back the list without the source item |
| MenuContent.RenumberedRemove | src/app/dashboard/menu/menu-content.tsx:139-142 | Renumbering by index leaves the items equal up to their `order` field |
| MenuContent.EditSubmit | src/app/dashboard/menu/menu-content.tsx:81-106 | With nothing being edited, or a failed request, the list is unchanged. Otherwise exactly the items with the edited id are replaced by the edited item |
| MenuContent.DeleteItem | src/app/dashboard/menu/menu-content.tsx:108-128 | With nothing selected, or a failed request, the list is unchanged. Otherwise exactly the items with that id are removed |
| MenuContent.DeleteRemovesOneItem | src/app/dashboard/menu/menu-content.tsx:120 | When no other item shares the selected id, a successful delete removes exactly that item, and the others, duplicates included, keep their order |
| MenuContent.NewItemOrderAboveAll | src/app/dashboard/menu/menu-content.tsx:66 | A new item's order is the list length, above every order of an index-numbered list |
| MenuStore.InsertByOrder | src/lib/menu.ts:12-14 | Inserting into a list sorted by descending order keeps it sorted and adds exactly that item |
| MenuStore.GetMenuItems | src/lib/menu.ts:12-14 | The read returns every row, sorted by order, highest first |
| MenuStore.CreateMenuItem | src/lib/menu.ts:16-19 | One row is appended under a fresh id; with a canonical new id, ids stay unique and canonical |
| MenuStore.UpdateMenuItem | src/lib/menu.ts:21-27 | Only rows whose id is the uuid `id` spells change, and they take only the patch's fields. Nothing is returned when no row has that id. Ids stay unique |
| MenuStore.DeleteMenuItem | src/lib/menu.ts:29-31 | Exactly the rows whose id is the uuid `id` spells are removed |
| MenuStore.DeleteRemovesRow | src/lib/menu.ts:29-31 | With distinct ids, deleting by any spelling of a row's uuid removes exactly that row, and the others keep their order |
| MenuStore.DeleteKeepsMenuItemsOk | src/lib/menu.ts:29-31 | Deleting keeps ids unique |
| MenuStore.LastOrder | src/lib/menu.ts:35-39 | The order of the last entry whose id spells the row's uuid, so that of two entries for one uuid the last one wins. Absent exactly when no entry spells it |
| MenuStore.Reordered | src/lib/menu.ts:33-41 | Only `order` changes, and only on rows whose uuid an entry spells, in any case or grouping. Such a row takes the order of the last entry for it |
| MenuStore.ReorderStep | src/lib/menu.ts:35-39 | Each per-item update extends the effect of the ones before it by that item |
| MenuStore.RunReorderTransaction | src/lib/menu.ts:35-39 | Running the updates in list order, each on the row whose uuid its entry spells, gives `Reordered`; it succeeds exactly when every listed id is uuid text |
| MenuStore.ReorderMenuItems | src/lib/menu.ts:33-41 | When every update succeeds, the whole result is committed. When an id is not uuid text, that update fails, the transaction rolls back, every order stays as it was, and the failure is reported |
| MenuStore.LastOrderOfDistinct | src/lib/menu.ts:35-39 | With distinct ids, each id takes the order of its only entry |
| MenuStore.ReadBackOrder | src/lib/menu.ts:12-41 | After a reorder that lists each id once, a row read back for a listed id carries the order of its entry |
| MenuStore.ReadReversesDragOrder | src/lib/menu.ts:12-14 | After a reorder numbered by index is saved, an item the user placed above another is read back below it |
| MenuStore.CreateMenuItemIn | src/lib/menu.ts:16-19 | The table becomes `CreateMenuItem`'s result |
| MenuStore.UpdateMenuItemIn | src/lib/menu.ts:21-27 | The table becomes `UpdateMenuItem`'s result |
| MenuStore.DeleteMenuItemIn | src/lib/menu.ts:29-31 | The table becomes `DeleteMenuItem`'s result |
| Posts.GetPosts | src/lib/posts.ts:14-19 | `getPosts(true)` returns every post; `getPosts()` returns exactly the published ones |
| Posts.GetPost | src/lib/posts.ts:21-24 | The post returned has the slug and is published. Nothing is returned exactly when no published post has the slug |
| Posts.SameSlugSamePost | src/lib/db/schema.ts:9 | Two posts with the same slug are the same row |
| Posts.GetPostFindsPublished | src/lib/posts.ts:21-24 | A post is found by its slug exactly when it is published |
| Posts.CreatePost | src/lib/posts.ts:26-32 | A slug in use is rejected. Otherwise one row is appended, dated now (a supplied date is ignored), with status defaulting to "draft" and not restricted |
| Posts.CreateKeepsPostsOk | src/lib/posts.ts:26-32 | Creating keeps ids and slugs unique |
| Posts.PatchedPost | src/lib/posts.ts:34-44 | The updated row keeps its id and restricted flag and takes every field the patch carries. Its date becomes now exactly when the patch publishes the post or carries a date, and is kept otherwise. A carried date is never stored |
| Posts.UpdatePost | src/lib/posts.ts:34-44 | Only the row whose id is the uuid `id` spells changes, and it becomes the patched row. A slug taken by another post is rejected. Nothing is returned when no row has that id |
| Posts.UpdateKeepsPostsOk | src/lib/posts.ts:34-44 | An accepted update keeps ids and slugs unique |
| Posts.UpdateReturnsPatched | src/lib/posts.ts:34-44 | Updating by any spelling of a post's uuid returns the stored post with the patch applied |
| Posts.PublishMakesVisible | src/lib/posts.ts:34-44 | Publishing a draft, named by any spelling of its uuid, makes `getPost` find it under its slug |
| Posts.DeletePost | src/lib/posts.ts:46-48 | Exactly the rows whose id is the uuid `id` spells are removed |
| Posts.DeleteRemovesRow | src/lib/posts.ts:46-48 | With distinct ids, deleting by any spelling of a post's uuid removes exactly that post, and the others keep their order |
| Posts.DeleteKeepsPostsOk | src/lib/posts.ts:46-48 | Deleting keeps ids and slugs unique |
| Posts.CreatePostIn | src/lib/posts.ts:26-32 | The table becomes `CreatePost`'s rows, or is unchanged on a rejection |
| Posts.UpdatePostIn | src/lib/posts.ts:34-44 | The table becomes `UpdatePost`'s rows, or is unchanged on a rejection |
| Posts.DeletePostIn | src/lib/posts.ts:46-48 | The table becomes `DeletePost`'s result |
| Pages.GetPages | src/lib/pages.ts:13-18 | `getPages(true)` returns every page; `getPages()` returns exactly the published ones |
| Pages.GetPage | src/lib/pages.ts:20-23 | The page returned has the slug, whatever its status. Nothing is returned exactly when no page has the slug |
| Pages.SameSlugSamePage | src/lib/db/schema.ts:17 | Two pages with the same slug are the same row |
| Pages.GetPageFindsAny | src/lib/pages.ts:20-23 | Every page, draft or published, is found by its slug |
| Pages.CreatePage | src/lib/pages.ts:25-28 | A slug in use is rejected. Otherwise one row is appended with the given fields and status defaulting to "draft" |
| Pages.CreateKeepsPagesOk | src/lib/pages.ts:25-28 | Creating keeps ids and slugs unique |
| Pages.Overwritten | src/lib/pages.ts:30-36 | The updated page keeps its id and restricted flag and takes the title, content, slug and status given |
| Pages.UpdatePage | src/lib/pages.ts:30-36 | The row whose id is the uuid `id` spells takes all four fields, and no other row changes. A slug taken by another page is rejected. Nothing is returned when no row has that id |
| Pages.UpdateKeepsPagesOk | src/lib/pages.ts:30-36 | An accepted update keeps ids and slugs unique |
| Pages.UpdatedPageFoundBySlug | src/lib/pages.ts:30-36 | After an update by any spelling of its uuid, the page is found under its new slug with its new fields |
| Pages.DeletePage | src/lib/pages.ts:38-40 | Exactly the rows whose id is the uuid `id` spells are removed |
| Pages.DeleteRemovesRow | src/lib/pages.ts:38-40 | With distinct ids, deleting by any spelling of a page's uuid removes exactly that page, and the others keep their order |
| Pages.DeleteKeepsPagesOk | src/lib/pages.ts:38-40 | Deleting keeps ids and slugs unique |
| Pages.CreatePageIn | src/lib/pages.ts:25-28 | The table becomes `CreatePage`'s rows, or is unchanged on a rejection |
| Pages.UpdatePageIn | src/lib/pages.ts:30-36 | The table becomes `UpdatePage`'s rows, or is unchanged on a rejection |
| Pages.DeletePageIn | src/lib/pages.ts:38-40 | The table becomes `DeletePage`'s result |
| Blog.Excerpt | src/app/blog/page.tsx:19-21 | Content of at most 150 characters, 150 included, is shown unchanged. Longer content becomes its first 150 characters followed by "...". The result is never longer than 153 characters and starts with the content |
| Blog.ExcerptIdempotent | src/app/blog/page.tsx:19-21 | Cutting an excerpt again changes nothing |
| Blog.BlogPage | src/app/blog/page.tsx:5-40 | One card for each post that `getPosts()` returns, in order |
| Blog.BlogListsExactlyPublished | src/app/blog/page.tsx:6-33 | The page shows a card for exactly the published posts, and each card's link finds its post through `getPost` |
| Themes.GetTheme | src/lib/themes.ts:130-132 | The result is a member of the table. It is the theme with the name when one exists, and otherwise the first theme |
| Themes.ThemeNamesDistinct | src/lib/themes.ts:27-128 | The four theme names are distinct |
| Themes.GetThemeByName | src/lib/themes.ts:130-132 | Every theme is what its own name looks up |
| Themes.UnknownNameGivesLight | src/lib/themes.ts:130-132 | An unknown name gives the light theme |
| Rbac.CheckRole | src/lib/rbac.ts:7-19 | With no session or no user, redirect to sign-in, whatever the roles. A role not allowed redirects to `/unauthorized`. An allowed role passes |
| Rbac.DashboardGate | src/app/dashboard/layout.tsx:14 | The dashboard admits admins and editors and sends users to `/unauthorized` |
| Rbac.MoreRolesStillPass | src/lib/rbac.ts:16-18 | Allowing more roles never turns a pass into a redirect |
| UserManagement.RoleChange | src/app/dashboard/users/user-management.tsx:47-68 | The request is always sent. On success only the role of users with the id changes, and the list length is kept. On failure nothing changes |
| UserManagement.EditUser | src/app/dashboard/users/user-management.tsx:70-95 | With no user being edited, nothing is sent or changed. On success the edited record replaces the users with its id wholesale, and the form closes. On failure nothing changes |
| UserManagement.DeleteUser | src/app/dashboard/users/user-management.tsx:97-117 | With no user selected, nothing is sent or changed. On success exactly the users with the id leave the list, and the dialog closes. On failure nothing changes |
| UserManagement.ChangePassword | src/app/dashboard/users/user-management.tsx:119-142 | With no user selected, nothing is sent. On success the dialog closes and the typed password is cleared. The list never changes |
| UserManagement.DeleteRemovesOneEntry | src/app/dashboard/users/user-management.tsx:109 | With distinct ids, a delete removes exactly the selected entry, and the others keep their order |
| UserManagement.DeleteAbsentKeepsList | src/app/dashboard/users/user-management.tsx:109 | Deleting an id the list does not hold leaves the list as it is |
| UserManagement.HandlersKeepIdsDistinct | src/app/dashboard/users/user-management.tsx:59-109 | Every handler keeps the ids in the list distinct |

## Where the model follows the code

Facts about the subscription columns, as the code writes them:

- An active user always has an end date. Every write path that sets a user
  active also sets the end date (`ApplyEventKeepsActiveEndDate`,
  `ActivationKeepsActiveEndDate`).
- An active user may have no provider subscription id:
  - the local activation endpoint never writes one
    (`ActivationWithoutProviderId`);
  - an "active" subscription update can name a user that has none
    (`ActiveWithoutStripeId`).
- The webhook finds the user by the checkout's `client_reference_id` or by the
  subscription's `metadata.userId`. It never looks the user up by the
  provider's subscription id.
- The webhook does not look up a subscription plan on checkout.
- No code path writes a `canceled` status. A deleted or lapsed subscription
  leaves the user `inactive`.

Behaviour kept as written:

- **Checkout reference.** The checkout session is created with the user's
  email as `client_reference_id` (src/app/api/cancel-subscription/route.ts:36).
  The webhook compares that value with the `uuid` column `users.id`. An email
  is not uuid text, so the database raises an error that the handler does not
  catch. The answer is a 500, no user is updated, and the provider delivers
  the event again later (`CheckoutByEmailRefused`, `HandleWebhook`).
- **Subscription id on cancellation.** The updated/deleted branch never clears
  `stripeSubscriptionId` (`SubscriptionChangeKeepsStripeId`).
- **Menu order.** Drag-and-drop numbers the items `order = index`, counting up
  from the top. The store reads them sorted by `order` in descending order, so
  the saved arrangement comes back reversed (`ReadReversesDragOrder`).

## Left out

- Rendering, dialogs, toasts, routing, the markdown editor and form schemas. These are UI only.
- The DOM and `localStorage` side of theme application. These are browser I/O.
- Payment-provider calls are foreign and become inputs:
  - signature verification (`Construction`);
  - the subscription retrieval (its period end is a field of the event);
  - checkout session creation;
  - product and price retrieval.
- bcrypt is foreign. The model takes the hash function as a parameter and does not model `compare`.
- The next-auth session and JWT wiring is foreign. A session is an input.
- The 500 answers given when the database or a foreign call throws are not modelled, whether a handler's `catch` turns the error into a 500 or it escapes uncaught. The webhook's subscription retrieval is one that escapes: it answers 500 even for an event with no user reference. The exception is an id that is not uuid text, which is modelled in the subscription and webhook routes.
- A database failure while verifying an email, between the user update and the token deletion, is not modelled.
- Concurrency is not modelled. That includes concurrent webhook deliveries and concurrent requests sharing the limiter table. Calls are a sequential history.
- RateLimiter.Limiter.Check: the in-place mutation of the stored record object is modelled as replacing the map entry with a new record value. No other code holds a reference to that record, so the observable state is the same.
- RateLimiter.Limiter.Check: the clock is the `now` parameter rather than `Date.now()`.
- Subscriptions.Subscribe: the end date is now plus whole days in milliseconds. `setDate` across a daylight-saving change, which can shift it by an hour, is not modelled.
- `current_period_end * 1000` and all other arithmetic use unbounded integers. JavaScript numbers lose precision only far beyond any date involved.
- Blog.Excerpt: lengths are counted in characters. JavaScript counts UTF-16 code units, and `substring` can split a surrogate pair.
- The date formatting on the blog cards is presentation only. A card carries the raw timestamp.
- Posts.GetPosts: the query has no `orderBy`, so the database may return the rows in any order. The model returns them in table order, and the "in order" of Blog.BlogPage means that order. The same holds for Pages.GetPages.
- MenuStore.GetMenuItems: the database may return rows with equal `order` in any order. The model fixes one such order, and its contract only promises descending order and the same rows.
- MenuStore.UpdateMenuItem: an empty patch makes the query builder throw ("no values to set"). The model treats it as a write that changes nothing. The same holds for Posts.UpdatePost. Neither caller sends an empty patch.
- Reloading the list after a failed drag reorder is not modelled: it is a fetch. Neither is the re-fetch after adding a menu item.
- The request handlers that wrap the stores behind a role check and a field-presence check are not modelled. These are the posts, pages, menu, plans, users and password-change routes. Their storage effect is the store operations modelled here.
- Impersonation, the cancel-subscription route (which only creates a checkout session), email sending and templates, and configuration are not part of this model.
- Uuid collisions are ruled out by the precondition that a new id is unused. A new id is also required to be canonical uuid text, which is what `uuidv4()` and the database's `defaultRandom()` produce.
- Posts.UpdatePost: an id that is not uuid text makes the database raise an error, and the route's `catch` answers 500. The model instead treats such an id as matching no row. The same holds for Posts.DeletePost, Pages.UpdatePage, Pages.DeletePage, MenuStore.UpdateMenuItem and MenuStore.DeleteMenuItem.
- MenuStore.ReorderMenuItems: an `order` that is not an integer would also abort the transaction. Orders are integers in the model.
