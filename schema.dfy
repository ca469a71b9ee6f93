/** The tables of the relational schema as record types, their column
    defaults, and the uniqueness constraints the database enforces. */
module Schema {
  import opened Collections

  /** A uuid primary key. */
  type Id = string

  /** A hexadecimal digit, in either case. */
  predicate HexDigit(c: char) {
    '0' <= c <= '9' || 'a' <= c <= 'f' || 'A' <= c <= 'F'
  }

  /** The digits of a PostgreSQL `uuid` input text, `seen` of them read so far:
      32 hexadecimal digits in all, with a single hyphen allowed after any
      group of four. */
  predicate UuidDigits(s: string, seen: nat)
    decreases |s|
  {
    if s == [] then seen == 32
    else if s[0] == '-' then 0 < seen < 32 && seen % 4 == 0 && |s| > 1 && s[1] != '-' && UuidDigits(s[1..], seen)
    else HexDigit(s[0]) && seen < 32 && UuidDigits(s[1..], seen + 1)
  }

  /** Text that a `uuid` column accepts, bare or in braces. Any other text
      compared with a `uuid` column makes the database raise an error. */
  predicate IsUuid(s: string) {
    || UuidDigits(s, 0)
    || (|s| >= 2 && s[0] == '{' && s[|s| - 1] == '}' && UuidDigits(s[1..|s| - 1], 0))
  }

  /** Thirty-two hexadecimal digits, without hyphens, are uuid text. */
  lemma {:induction false} HexDigitsAccepted(s: string, seen: nat)
    requires seen + |s| == 32
    requires forall i :: 0 <= i < |s| ==> HexDigit(s[i])
    ensures UuidDigits(s, seen)
    decreases |s|
  {
    if s != [] {
      HexDigitsAccepted(s[1..], seen + 1);
    }
  }

  /** Uuid digits hold nothing but hexadecimal digits and hyphens. */
  lemma {:induction false} UuidDigitsAlphabet(s: string, seen: nat)
    requires UuidDigits(s, seen)
    ensures forall c :: c in s ==> HexDigit(c) || c == '-'
    decreases |s|
  {
    if s != [] {
      if s[0] == '-' {
        UuidDigitsAlphabet(s[1..], seen);
      } else {
        UuidDigitsAlphabet(s[1..], seen + 1);
      }
      assert s == [s[0]] + s[1..];
    }
  }

  /** Text holding an `@`, such as an email address, is not a uuid. */
  lemma AtSignNotUuid(s: string)
    requires '@' in s
    ensures !IsUuid(s)
  {
    var i :| 0 <= i < |s| && s[i] == '@';
    if UuidDigits(s, 0) {
      UuidDigitsAlphabet(s, 0);
      assert false;
    }
    if |s| >= 2 && s[0] == '{' && s[|s| - 1] == '}' && UuidDigits(s[1..|s| - 1], 0) {
      var inner := s[1..|s| - 1];
      assert inner[i - 1] == '@' && '@' in inner;
      UuidDigitsAlphabet(inner, 0);
      assert false;
    }
  }

  predicate LowerHexDigit(c: char) {
    '0' <= c <= '9' || 'a' <= c <= 'f'
  }

  /** The lower-case form of a hexadecimal digit. */
  function LowerHex(c: char): (r: char)
    requires HexDigit(c)
    ensures LowerHexDigit(r)
    ensures LowerHexDigit(c) ==> r == c
  {
    if 'A' <= c <= 'F' then (c as int - 'A' as int + 'a' as int) as char else c
  }

  /** The value uuid text denotes: its hexadecimal digits, lower-cased, in
      order. Braces and hyphens carry no part of it. */
  function UuidValue(s: string): string
    decreases |s|
  {
    if s == [] then []
    else (if HexDigit(s[0]) then [LowerHex(s[0])] else []) + UuidValue(s[1..])
  }

  /** The value of uuid text is made of lower-case digits only. */
  lemma {:induction false} UuidValueDigits(s: string)
    ensures forall i :: 0 <= i < |UuidValue(s)| ==> LowerHexDigit(UuidValue(s)[i])
    decreases |s|
  {
    if s != [] {
      UuidValueDigits(s[1..]);
      var head := if HexDigit(s[0]) then [LowerHex(s[0])] else [];
      assert UuidValue(s) == head + UuidValue(s[1..]);
    }
  }

  /** The text the database returns for the uuid that `s` spells: the 32 digits
      in lower case, in groups of 8-4-4-4-12. */
  function Canonical(s: string): string {
    var d := UuidValue(s);
    if |d| == 32 then Hyphenated(d) else d
  }

  /** 32 digits in groups of 8-4-4-4-12. */
  function Hyphenated(d: string): string
    requires |d| == 32
  {
    d[..8] + ("-" + (d[8..12] + ("-" + (d[12..16] + ("-" + (d[16..20] + ("-" + d[20..])))))))
  }

  predicate LowerDigits(g: string) {
    forall i :: 0 <= i < |g| ==> LowerHexDigit(g[i])
  }

  /** Id text as a `uuid` column stores and returns it: 32 lower-case digits
      with hyphens after the 8th, 12th, 16th and 20th. */
  predicate CanonicalId(s: string) {
    && |s| == 36
    && forall i :: 0 <= i < |s| ==>
         if i == 8 || i == 13 || i == 18 || i == 23 then s[i] == '-' else LowerHexDigit(s[i])
  }

  /** Two texts that spell the same uuid, whatever their case, hyphens or braces. */
  predicate SameUuid(a: string, b: string) {
    IsUuid(a) && IsUuid(b) && UuidValue(a) == UuidValue(b)
  }

  /** The stored id that a `WHERE id = ?` with the given text selects: uuid
      text stands for its canonical form; any other text (which the database
      refuses) is kept as it is, and so equals no stored id. */
  function Key(id: string): Id {
    if IsUuid(id) then Canonical(id) else id
  }

  lemma {:induction false} UuidValueAppend(a: string, b: string)
    ensures UuidValue(a + b) == UuidValue(a) + UuidValue(b)
    decreases |a|
  {
    if a == [] {
      assert a + b == b;
    } else {
      var head := if HexDigit(a[0]) then [LowerHex(a[0])] else [];
      assert (a + b)[0] == a[0] && (a + b)[1..] == a[1..] + b;
      assert UuidValue(a + b) == head + UuidValue(a[1..] + b);
      UuidValueAppend(a[1..], b);
      assert UuidValue(a) == head + UuidValue(a[1..]);
    }
  }

  lemma {:induction false} UuidValueOfDigits(d: string)
    requires forall i :: 0 <= i < |d| ==> LowerHexDigit(d[i])
    ensures UuidValue(d) == d
    decreases |d|
  {
    if d != [] {
      UuidValueOfDigits(d[1..]);
    }
  }

  /** The canonical form spells the same value as the text it was made from. */
  lemma ValueOfCanonical(s: string)
    ensures UuidValue(Canonical(s)) == UuidValue(s)
  {
    var d := UuidValue(s);
    UuidValueDigits(s);
    if |d| == 32 {
      ValueOfHyphenated(d);
    } else {
      UuidValueOfDigits(d);
    }
  }

  /** Hyphens added between the groups carry no value. */
  lemma ValueOfHyphenated(d: string)
    requires |d| == 32 && forall i :: 0 <= i < |d| ==> LowerHexDigit(d[i])
    ensures UuidValue(Hyphenated(d)) == d
  {
    var g1, g2, g3, g4, g5 := d[..8], d[8..12], d[12..16], d[16..20], d[20..];
    var r4 := g4 + ("-" + g5);
    var r3 := g3 + ("-" + r4);
    var r2 := g2 + ("-" + r3);
    UuidValueOfDigits(g5);
    GroupThenRest(g4, g5);
    GroupThenRest(g3, r4);
    GroupThenRest(g2, r3);
    GroupThenRest(g1, r2);
    assert g1 + (g2 + (g3 + (g4 + g5))) == d;
  }

  /** A group of lower-case digits, a hyphen, and the rest, have the value of
      the group followed by that of the rest. */
  lemma GroupThenRest(group: string, rest: string)
    requires forall i :: 0 <= i < |group| ==> LowerHexDigit(group[i])
    ensures UuidValue(group + ("-" + rest)) == group + UuidValue(rest)
  {
    var tail := "-" + rest;
    assert tail[0] == '-' && tail[1..] == rest;
    assert UuidValue(tail) == UuidValue(rest);
    UuidValueOfDigits(group);
    UuidValueAppend(group, tail);
  }

  /** A group of hexadecimal digits in front of uuid digits extends them. */
  lemma {:induction false} HexGroupThenRest(group: string, rest: string, seen: nat)
    requires forall i :: 0 <= i < |group| ==> HexDigit(group[i])
    requires seen + |group| <= 32 && (rest == [] ==> seen + |group| == 32)
    requires UuidDigits(rest, seen + |group|)
    ensures UuidDigits(group + rest, seen)
    decreases |group|
  {
    if group != [] {
      HexGroupThenRest(group[1..], rest, seen + 1);
      assert (group + rest)[0] == group[0] && (group + rest)[1..] == group[1..] + rest;
    } else {
      assert group + rest == rest;
    }
  }

  /** Text in the stored form is uuid text and is its own canonical form. */
  lemma CanonicalIdIsCanonical(s: string)
    requires CanonicalId(s)
    ensures IsUuid(s) && Canonical(s) == s
  {
    var g1, g2, g3, g4, g5 := s[..8], s[9..13], s[14..18], s[19..23], s[24..];
    var r4 := g4 + ("-" + g5);
    var r3 := g3 + ("-" + r4);
    var r2 := g2 + ("-" + r3);
    assert g1 + ("-" + r2) == s;
    assert LowerDigits(g1) && LowerDigits(g2) && LowerDigits(g3) && LowerDigits(g4) && LowerDigits(g5) by {
      assert forall i :: 0 <= i < 4 ==> g2[i] == s[9 + i] && g3[i] == s[14 + i] && g4[i] == s[19 + i];
      assert forall i :: 0 <= i < 12 ==> g5[i] == s[24 + i];
    }
    GroupsAreUuid(g1, g2, g3, g4, g5);
    GroupsValue(g1, g2, g3, g4, g5);
  }

  lemma GroupsAreUuid(g1: string, g2: string, g3: string, g4: string, g5: string)
    requires |g1| == 8 && |g2| == |g3| == |g4| == 4 && |g5| == 12
    requires LowerDigits(g1) && LowerDigits(g2) && LowerDigits(g3) && LowerDigits(g4) && LowerDigits(g5)
    ensures UuidDigits(g1 + ("-" + (g2 + ("-" + (g3 + ("-" + (g4 + ("-" + g5))))))), 0)
  {
    var r4 := g4 + ("-" + g5);
    var r3 := g3 + ("-" + r4);
    var r2 := g2 + ("-" + r3);
    HexDigitsAccepted(g5, 20);
    HyphenThenRest(g5, 20);
    HexGroupThenRest(g4, "-" + g5, 16);
    HyphenThenRest(r4, 16);
    HexGroupThenRest(g3, "-" + r4, 12);
    HyphenThenRest(r3, 12);
    HexGroupThenRest(g2, "-" + r3, 8);
    HyphenThenRest(r2, 8);
    HexGroupThenRest(g1, "-" + r2, 0);
  }

  lemma GroupsValue(g1: string, g2: string, g3: string, g4: string, g5: string)
    requires |g1| == 8 && |g2| == |g3| == |g4| == 4 && |g5| == 12
    requires LowerDigits(g1) && LowerDigits(g2) && LowerDigits(g3) && LowerDigits(g4) && LowerDigits(g5)
    ensures var s := g1 + ("-" + (g2 + ("-" + (g3 + ("-" + (g4 + ("-" + g5)))))));
      Canonical(s) == s
  {
    var r4 := g4 + ("-" + g5);
    var r3 := g3 + ("-" + r4);
    var r2 := g2 + ("-" + r3);
    UuidValueOfDigits(g5);
    GroupThenRest(g4, g5);
    GroupThenRest(g3, r4);
    GroupThenRest(g2, r3);
    GroupThenRest(g1, r2);
    var d := g1 + (g2 + (g3 + (g4 + g5)));
    assert d[..8] == g1 && d[8..12] == g2 && d[12..16] == g3 && d[16..20] == g4 && d[20..] == g5;
    assert Hyphenated(d) == g1 + ("-" + r2);
  }

  /** A hyphen after a complete group of four, before more digits. */
  lemma HyphenThenRest(rest: string, seen: nat)
    requires 0 < seen < 32 && seen % 4 == 0 && rest != [] && rest[0] != '-'
    requires UuidDigits(rest, seen)
    ensures UuidDigits("-" + rest, seen)
  {
    var t := "-" + rest;
    assert t[0] == '-' && t[1] == rest[0] && t[1..] == rest;
  }

  /** A stored id is selected by exactly the texts that spell its uuid, in any
      case, with or without hyphens and braces; it is its own key. */
  lemma KeyMatchesSameUuid(k: Id, id: string)
    requires CanonicalId(k)
    ensures Key(k) == k
    ensures k == Key(id) <==> SameUuid(k, id)
  {
    CanonicalIdIsCanonical(k);
    if IsUuid(id) {
      ValueOfCanonical(id);
      ValueOfCanonical(k);
    }
  }

  /** Texts whose digits agree up to case spell the same value. */
  lemma {:induction false} CaseBlindValue(s: string, t: string)
    requires |s| == |t|
    requires forall i :: 0 <= i < |s| ==> HexDigit(s[i]) && HexDigit(t[i]) && LowerHex(s[i]) == LowerHex(t[i])
    ensures UuidValue(s) == UuidValue(t)
    decreases |s|
  {
    if s != [] {
      CaseBlindValue(s[1..], t[1..]);
    }
  }

  /** 32 digits spelled in upper case and in lower case name the same uuid, so
      both select the same stored row. */
  lemma CaseBlindUuid(s: string, t: string)
    requires |s| == |t| == 32
    requires forall i :: 0 <= i < |s| ==> HexDigit(s[i]) && HexDigit(t[i]) && LowerHex(s[i]) == LowerHex(t[i])
    ensures SameUuid(s, t)
  {
    HexDigitsAccepted(s, 0);
    HexDigitsAccepted(t, 0);
    CaseBlindValue(s, t);
  }

  /** A point in time, in milliseconds since the epoch (a JavaScript `Date`). */
  type Timestamp = int

  // Values stored in the `status` text column of posts and pages.
  const Draft := "draft"
  const Published := "published"

  // Values stored in the `role` text column of users.
  const RoleUser := "user"
  const RoleEditor := "editor"
  const RoleAdmin := "admin"

  // Values stored in the `subscriptionStatus` text column of users.
  const StatusFree := "free"
  const StatusActive := "active"
  const StatusInactive := "inactive"

  datatype Post = Post(
    id: Id,
    title: string,
    content: string,
    date: Timestamp,
    status: string,
    slug: string,
    isRestricted: bool)

  datatype Page = Page(
    id: Id,
    title: string,
    content: string,
    slug: string,
    status: string,
    isRestricted: bool)

  /** `labelText` is the `label` column (`label` is a Dafny keyword). */
  datatype MenuItem = MenuItem(id: Id, labelText: string, url: string, order: int)

  datatype User = User(
    id: Id,
    name: Option<string>,
    email: string,
    emailVerified: Option<Timestamp>,
    image: Option<string>,
    password: string,
    role: string,
    subscriptionStatus: string,
    subscriptionEndDate: Option<Timestamp>,
    stripeSubscriptionId: Option<string>,
    stripeCustomerId: Option<string>)

  datatype VerificationToken = VerificationToken(identifier: string, token: string, expires: Timestamp)

  /** A plan; `price` is in minor currency units and `duration` in days. */
  datatype SubscriptionPlan = SubscriptionPlan(
    id: Id,
    name: string,
    price: int,
    duration: int,
    stripeProductId: string,
    stripePriceId: string)

  /** The outcome of a write to a table with unique columns: the table after the
      write and the row the statement returns, or a rejection when the write
      would break a unique constraint (the database raises an error and the
      table keeps its rows). */
  datatype Write<R> = Written(rows: seq<R>, returned: Option<R>) | UniqueViolation

  /** The row the database stores for an insert of a user that gives only the
      non-defaulted columns: role and subscription status take their column
      defaults and every nullable column is NULL. */
  function NewUserRow(id: Id, name: Option<string>, email: string, password: string): User {
    User(id, name, email, None, None, password, RoleUser, StatusFree, None, None, None)
  }

  // Uniqueness constraints: primary keys and `unique()` columns.

  // Every id is a uuid, which the model holds in its canonical text.

  ghost predicate PostsOk(posts: seq<Post>) {
    && (forall i :: 0 <= i < |posts| ==> CanonicalId(posts[i].id))
    && (forall i, j :: 0 <= i < j < |posts| ==> posts[i].id != posts[j].id && posts[i].slug != posts[j].slug)
  }

  ghost predicate PagesOk(pages: seq<Page>) {
    && (forall i :: 0 <= i < |pages| ==> CanonicalId(pages[i].id))
    && (forall i, j :: 0 <= i < j < |pages| ==> pages[i].id != pages[j].id && pages[i].slug != pages[j].slug)
  }

  ghost predicate MenuItemsOk(items: seq<MenuItem>) {
    && (forall i :: 0 <= i < |items| ==> CanonicalId(items[i].id))
    && (forall i, j :: 0 <= i < j < |items| ==> items[i].id != items[j].id)
  }

  /** The users table is keyed by its uuid ids; emails are unique. */
  ghost predicate UsersOk(users: map<Id, User>) {
    && (forall k :: k in users ==> users[k].id == k && CanonicalId(k))
    && (forall a, b :: a in users && b in users && a != b ==> users[a].email != users[b].email)
  }

  /** Overwriting a user row with one of the same id and email keeps the
      users table valid. */
  lemma OverwriteKeepsUsersOk(users: map<Id, User>, k: Id, u: User)
    requires UsersOk(users) && k in users && u.id == k && u.email == users[k].email
    ensures UsersOk(users[k := u])
  {
    var r := users[k := u];
    forall a, b | a in r && b in r && a != b ensures r[a].email != r[b].email {
      assert r[a].email == users[a].email && r[b].email == users[b].email;
    }
  }

  ghost predicate TokensOk(tokens: seq<VerificationToken>) {
    forall i, j :: 0 <= i < j < |tokens| ==> tokens[i].token != tokens[j].token
  }

  ghost predicate PlansOk(plans: seq<SubscriptionPlan>) {
    && (forall i :: 0 <= i < |plans| ==> CanonicalId(plans[i].id))
    && (forall i, j :: 0 <= i < j < |plans| ==> plans[i].id != plans[j].id)
  }

  /** Every active user has an end date: the part of the account invariant
      that every write path of the subscription columns keeps. */
  ghost predicate ActiveHasEndDate(users: map<Id, User>) {
    forall k :: k in users && users[k].subscriptionStatus == StatusActive ==> users[k].subscriptionEndDate.Some?
  }

  /** Under the slug constraint, selecting posts by slug yields at most one row. */
  lemma PostSlugIdentifiesOne(posts: seq<Post>, slug: string)
    requires PostsOk(posts)
    ensures |Filter(posts, (p: Post) => p.slug == slug)| <= 1
  {
    FilterAtMostOne(posts, (p: Post) => p.slug == slug);
  }

  /** Under the slug constraint, selecting pages by slug yields at most one row. */
  lemma PageSlugIdentifiesOne(pages: seq<Page>, slug: string)
    requires PagesOk(pages)
    ensures |Filter(pages, (p: Page) => p.slug == slug)| <= 1
  {
    FilterAtMostOne(pages, (p: Page) => p.slug == slug);
  }

  /** Under the token constraint, selecting tokens by value yields at most one row. */
  lemma TokenIdentifiesOne(tokens: seq<VerificationToken>, token: string)
    requires TokensOk(tokens)
    ensures |Filter(tokens, (t: VerificationToken) => t.token == token)| <= 1
  {
    FilterAtMostOne(tokens, (t: VerificationToken) => t.token == token);
  }

  /** Under the email constraint, at most one user has a given email. */
  lemma EmailIdentifiesOne(users: map<Id, User>, email: string, a: Id, b: Id)
    requires UsersOk(users)
    requires a in users && b in users && users[a].email == email && users[b].email == email
    ensures a == b
  {
  }
}
