/** The posts store: published/draft reads, lookup by slug, and the writes,
    including the rule that stamps a post with the current time. */
module Posts {
  import opened Collections
  import opened Schema
  import Database

  /** `getPosts`: every post when unpublished ones are asked for, otherwise
      exactly the published posts, in table order. */
  function GetPosts(posts: seq<Post>, includeUnpublished: bool): (r: seq<Post>)
    ensures includeUnpublished ==> r == posts
    ensures !includeUnpublished ==> forall p :: p in r <==> p in posts && p.status == Published
  {
    if includeUnpublished then posts else Filter(posts, (p: Post) => p.status == Published)
  }

  /** `getPost`: the first post with the slug that is also published. */
  function GetPost(posts: seq<Post>, slug: string): (r: Option<Post>)
    ensures r.Some? ==> r.value in posts && r.value.slug == slug && r.value.status == Published
    ensures r.None? <==> forall p :: p in posts && p.slug == slug ==> p.status != Published
  {
    First(Filter(posts, (p: Post) => p.slug == slug && p.status == Published))
  }

  /** Two rows of a table that satisfies the constraints and share a slug are the same row. */
  lemma SameSlugSamePost(posts: seq<Post>, p: Post, q: Post)
    requires PostsOk(posts) && p in posts && q in posts && p.slug == q.slug
    ensures p == q
  {
    var i :| 0 <= i < |posts| && posts[i] == p;
    var j :| 0 <= j < |posts| && posts[j] == q;
    if i < j {
      assert false;
    } else if j < i {
      assert false;
    }
  }

  /** A post is found by its slug exactly when it is published: drafts stay hidden. */
  lemma GetPostFindsPublished(posts: seq<Post>, p: Post)
    requires PostsOk(posts) && p in posts
    ensures GetPost(posts, p.slug) == if p.status == Published then Some(p) else None
  {
    var r := GetPost(posts, p.slug);
    if r.Some? {
      SameSlugSamePost(posts, p, r.value);
    }
  }

  /** The fields `createPost` is given. A supplied `date` is ignored; an absent
      `status` takes the column default. */
  datatype NewPost = NewPost(title: string, content: string, date: Option<Timestamp>, status: Option<string>, slug: string)

  /** `createPost`: one row under a fresh id, dated `now`; a slug already in use
      is rejected by the unique constraint. */
  function CreatePost(posts: seq<Post>, newId: Id, post: NewPost, now: Timestamp): (r: Write<Post>)
    requires forall p :: p in posts ==> p.id != newId
    ensures r.UniqueViolation? <==> exists p :: p in posts && p.slug == post.slug
    ensures r.Written? ==>
      && r.returned.Some?
      && r.rows == posts + [r.returned.value]
      && var row := r.returned.value;
      && row.id == newId && row.title == post.title && row.content == post.content && row.slug == post.slug
      && row.date == now
      && row.status == (if post.status.Some? then post.status.value else Draft)
      && !row.isRestricted
  {
    if exists p :: p in posts && p.slug == post.slug then UniqueViolation
    else
      var row := Post(newId, post.title, post.content, now, post.status.GetOr(Draft), post.slug, false);
      Written(posts + [row], Some(row))
  }

  lemma CreateKeepsPostsOk(posts: seq<Post>, newId: Id, post: NewPost, now: Timestamp)
    requires PostsOk(posts) && CanonicalId(newId) && forall p :: p in posts ==> p.id != newId
    ensures CreatePost(posts, newId, post, now).Written? ==> PostsOk(CreatePost(posts, newId, post, now).rows)
  {
    var r := CreatePost(posts, newId, post, now);
    if r.Written? {
      forall i, j | 0 <= i < j < |r.rows| ensures r.rows[i].id != r.rows[j].id && r.rows[i].slug != r.rows[j].slug {
        if j == |posts| {
          assert r.rows[i] in posts;
        }
      }
    }
  }

  /** The fields of a `Partial<Post>` patch; an absent field is left as it is. */
  datatype PostPatch = PostPatch(
    title: Option<string>,
    content: Option<string>,
    date: Option<Timestamp>,
    status: Option<string>,
    slug: Option<string>)

  /** The row an update writes. The date becomes `now` when the patch publishes
      the post or carries a date of its own; the carried date is never stored. */
  function PatchedPost(p: Post, patch: PostPatch, now: Timestamp): (r: Post)
    ensures r.id == p.id && r.isRestricted == p.isRestricted
    ensures r.title == patch.title.GetOr(p.title) && r.content == patch.content.GetOr(p.content)
    ensures r.status == patch.status.GetOr(p.status) && r.slug == patch.slug.GetOr(p.slug)
    ensures r.date == now || r.date == p.date
    ensures r.date != p.date ==> patch.status == Some(Published) || patch.date.Some?
    ensures patch.status == Some(Published) || patch.date.Some? ==> r.date == now
  {
    Post(p.id, patch.title.GetOr(p.title), patch.content.GetOr(p.content),
         if patch.status == Some(Published) || patch.date.Some? then now else p.date,
         patch.status.GetOr(p.status), patch.slug.GetOr(p.slug), p.isRestricted)
  }

  /** The `UPDATE ... WHERE id = ?` itself: the rows with the id take the patch. */
  function PatchRows(posts: seq<Post>, id: Id, patch: PostPatch, now: Timestamp): (r: seq<Post>)
    ensures |r| == |posts|
    ensures forall i :: 0 <= i < |posts| ==>
      r[i] == if posts[i].id == id then PatchedPost(posts[i], patch, now) else posts[i]
  {
    seq(|posts|, i requires 0 <= i < |posts| =>
      if posts[i].id == id then PatchedPost(posts[i], patch, now) else posts[i])
  }

  /** `updatePost`: the row whose id is the uuid `id` spells takes the patch;
      nothing changes (and nothing is returned) when no row has that id; a new slug that another post
      already uses is rejected. */
  function UpdatePost(posts: seq<Post>, id: string, patch: PostPatch, now: Timestamp): (r: Write<Post>)
    ensures r.UniqueViolation? <==>
      (exists p :: p in posts && p.id == Key(id))
      && patch.slug.Some? && exists q :: q in posts && q.id != Key(id) && q.slug == patch.slug.value
    ensures r.Written? ==> |r.rows| == |posts|
    ensures r.Written? ==> forall i :: 0 <= i < |posts| ==>
      r.rows[i] == if posts[i].id == Key(id) then PatchedPost(posts[i], patch, now) else posts[i]
    ensures r.Written? ==> (r.returned.None? <==> forall p :: p in posts ==> p.id != Key(id))
    ensures r.Written? && r.returned.Some? ==> r.returned.value in r.rows && r.returned.value.id == Key(id)
  {
    if (exists p :: p in posts && p.id == Key(id))
       && patch.slug.Some? && exists q :: q in posts && q.id != Key(id) && q.slug == patch.slug.value
    then UniqueViolation
    else
      var updated := PatchRows(posts, Key(id), patch, now);
      var hasId := (p: Post) => p.id == Key(id);
      FilterEmptyTogether(posts, updated, hasId);
      Written(updated, First(Filter(updated, hasId)))
  }

  /** An accepted update keeps ids and slugs unique. */
  lemma UpdateKeepsPostsOk(posts: seq<Post>, id: string, patch: PostPatch, now: Timestamp)
    requires PostsOk(posts)
    ensures UpdatePost(posts, id, patch, now).Written? ==> PostsOk(UpdatePost(posts, id, patch, now).rows)
  {
    var r := UpdatePost(posts, id, patch, now);
    if r.Written? {
      forall i, j | 0 <= i < j < |r.rows| ensures r.rows[i].id != r.rows[j].id && r.rows[i].slug != r.rows[j].slug {
        assert posts[i].id != posts[j].id && posts[i].slug != posts[j].slug;
        if posts[i].id == Key(id) && patch.slug.Some? {
          assert posts[j] in posts;
        } else if posts[j].id == Key(id) && patch.slug.Some? {
          assert posts[i] in posts;
        }
      }
    }
  }

  /** Updating by any spelling of a post's uuid returns the stored post with
      the patch applied. */
  lemma UpdateReturnsPatched(posts: seq<Post>, k: nat, id: string, patch: PostPatch, now: Timestamp)
    requires PostsOk(posts) && k < |posts| && SameUuid(posts[k].id, id)
    requires UpdatePost(posts, id, patch, now).Written?
    ensures UpdatePost(posts, id, patch, now).returned == Some(PatchedPost(posts[k], patch, now))
  {
    KeyMatchesSameUuid(posts[k].id, id);
    var r := UpdatePost(posts, id, patch, now);
    var i :| 0 <= i < |r.rows| && r.rows[i] == r.returned.value;
    if i != k {
      assert false;
    }
  }

  /** Publishing a draft through an update makes it visible under its slug. */
  lemma PublishMakesVisible(posts: seq<Post>, k: nat, id: string, patch: PostPatch, now: Timestamp)
    requires PostsOk(posts) && k < |posts| && SameUuid(posts[k].id, id)
    requires patch.status == Some(Published) && patch.slug.None?
    ensures UpdatePost(posts, id, patch, now).Written?
    ensures GetPost(UpdatePost(posts, id, patch, now).rows, posts[k].slug)
         == Some(PatchedPost(posts[k], patch, now))
  {
    KeyMatchesSameUuid(posts[k].id, id);
    var r := UpdatePost(posts, id, patch, now);
    UpdateKeepsPostsOk(posts, id, patch, now);
    assert r.rows[k] == PatchedPost(posts[k], patch, now);
    GetPostFindsPublished(r.rows, r.rows[k]);
  }

  /** `deletePost`: exactly the rows whose id is the uuid `id` spells go; the
      others stay in order. */
  function DeletePost(posts: seq<Post>, id: string): (r: seq<Post>)
    ensures forall p :: p in r <==> p in posts && p.id != Key(id)
  {
    Filter(posts, (p: Post) => p.id != Key(id))
  }

  lemma DeleteKeepsPostsOk(posts: seq<Post>, id: string)
    requires PostsOk(posts)
    ensures PostsOk(DeletePost(posts, id))
  {
    FilterKeepsDistinct(posts, (p: Post) => p.id != Key(id), (p: Post) => (p.id, p.slug));
    var r := DeletePost(posts, id);
    forall i, j | 0 <= i < j < |r| ensures r[i].id != r[j].id && r[i].slug != r[j].slug {
      assert r[i] in posts && r[j] in posts;
      if r[i].slug == r[j].slug {
        SameSlugSamePost(posts, r[i], r[j]);
      }
    }
  }

  /** With distinct ids, deleting by any spelling of a post's uuid takes out
      exactly that post and keeps the others in their order. */
  lemma DeleteRemovesRow(posts: seq<Post>, k: nat, id: string)
    requires PostsOk(posts) && k < |posts| && SameUuid(posts[k].id, id)
    ensures DeletePost(posts, id) == posts[..k] + posts[k + 1..]
  {
    KeyMatchesSameUuid(posts[k].id, id);
    FilterRemovesOne(posts, (p: Post) => p.id != Key(id), k);
  }

  // The writes on the database object.

  method CreatePostIn(db: Database.Db, newId: Id, post: NewPost, now: Timestamp)
    returns (created: Option<Post>)
    requires db.Valid() && CanonicalId(newId) && forall p :: p in db.posts ==> p.id != newId
    modifies db`posts
    ensures db.Valid()
    ensures var r := CreatePost(old(db.posts), newId, post, now);
      if r.Written? then db.posts == r.rows && created == r.returned
      else db.posts == old(db.posts) && created.None?
  {
    CreateKeepsPostsOk(db.posts, newId, post, now);
    var r := CreatePost(db.posts, newId, post, now);
    if r.Written? {
      db.posts := r.rows;
      created := r.returned;
    } else {
      created := None;
    }
  }

  method UpdatePostIn(db: Database.Db, id: string, patch: PostPatch, now: Timestamp)
    returns (updated: Option<Post>, violation: bool)
    requires db.Valid()
    modifies db`posts
    ensures db.Valid()
    ensures var r := UpdatePost(old(db.posts), id, patch, now);
      && violation == r.UniqueViolation?
      && (r.Written? ==> db.posts == r.rows && updated == r.returned)
      && (r.UniqueViolation? ==> db.posts == old(db.posts) && updated.None?)
  {
    UpdateKeepsPostsOk(db.posts, id, patch, now);
    var r := UpdatePost(db.posts, id, patch, now);
    if r.Written? {
      db.posts := r.rows;
      return r.returned, false;
    }
    return None, true;
  }

  method DeletePostIn(db: Database.Db, id: string)
    requires db.Valid()
    modifies db`posts
    ensures db.Valid()
    ensures db.posts == DeletePost(old(db.posts), id)
  {
    DeleteKeepsPostsOk(db.posts, id);
    db.posts := DeletePost(db.posts, id);
  }
}
