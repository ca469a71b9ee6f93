/** The blog listing: one card per published post, showing an excerpt of the
    content and a link to the post's own page. */
module Blog {
  import opened Collections
  import opened Schema
  import Posts

  /** Longest content shown whole. */
  const ExcerptLength := 150

  /** The card text: content over 150 characters is cut to its first 150 and
      marked with an ellipsis; shorter content, and content of exactly 150
      characters, is shown as it is. */
  function Excerpt(content: string): (r: string)
    ensures |content| <= ExcerptLength ==> r == content
    ensures |content| > ExcerptLength ==> |r| == ExcerptLength + 3 && r[ExcerptLength..] == "..."
    ensures |r| <= ExcerptLength + 3
    // The excerpt always starts with as much of the content as it has room for.
    ensures var n := if |content| < ExcerptLength then |content| else ExcerptLength;
      n <= |r| && r[..n] == content[..n]
  {
    if |content| > ExcerptLength then content[..ExcerptLength] + "..." else content
  }

  /** Cutting an excerpt again changes nothing. */
  lemma ExcerptIdempotent(content: string)
    ensures Excerpt(Excerpt(content)) == Excerpt(content)
  {
    var e := Excerpt(content);
    if |content| > ExcerptLength {
      assert e[..ExcerptLength] == content[..ExcerptLength];
      assert Excerpt(e) == e[..ExcerptLength] + "...";
    }
  }

  /** What one card of the listing shows. */
  datatype Card = Card(key: Id, title: string, excerpt: string, date: Timestamp, href: string)

  function PostHref(slug: string): string {
    "/post/" + slug
  }

  function CardOf(p: Post): Card {
    Card(p.id, p.title, Excerpt(p.content), p.date, PostHref(p.slug))
  }

  /** The blog page: a card for each post `getPosts()` returns. */
  function BlogPage(posts: seq<Post>): (r: seq<Card>)
    ensures |r| == |Posts.GetPosts(posts, false)|
    ensures forall i :: 0 <= i < |r| ==> r[i] == CardOf(Posts.GetPosts(posts, false)[i])
  {
    var listed := Posts.GetPosts(posts, false);
    seq(|listed|, i requires 0 <= i < |listed| => CardOf(listed[i]))
  }

  /** The page shows a card for exactly the published posts, and each card's
      link leads, through `getPost`, back to the post it was made from. */
  lemma BlogListsExactlyPublished(posts: seq<Post>)
    requires PostsOk(posts)
    ensures forall c :: c in BlogPage(posts) ==>
      exists p :: p in posts && p.status == Published && c == CardOf(p) && Posts.GetPost(posts, p.slug) == Some(p)
    ensures forall p :: p in posts && p.status == Published ==> CardOf(p) in BlogPage(posts)
  {
    var listed := Posts.GetPosts(posts, false);
    var cards := BlogPage(posts);
    forall c | c in cards
      ensures exists p :: p in posts && p.status == Published && c == CardOf(p) && Posts.GetPost(posts, p.slug) == Some(p)
    {
      var i :| 0 <= i < |cards| && cards[i] == c;
      var p := listed[i];
      assert p in listed;
      Posts.GetPostFindsPublished(posts, p);
    }
    forall p | p in posts && p.status == Published ensures CardOf(p) in cards {
      var i :| 0 <= i < |listed| && listed[i] == p;
      assert cards[i] == CardOf(p);
    }
  }
}
