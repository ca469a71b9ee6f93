/** The pages store: published/draft listing, lookup by slug (whatever the
    status), and the writes. */
module Pages {
  import opened Collections
  import opened Schema
  import Database

  /** `getPages`: every page when unpublished ones are asked for, otherwise
      exactly the published pages, in table order. */
  function GetPages(pages: seq<Page>, includeUnpublished: bool): (r: seq<Page>)
    ensures includeUnpublished ==> r == pages
    ensures !includeUnpublished ==> forall p :: p in r <==> p in pages && p.status == Published
  {
    if includeUnpublished then pages else Filter(pages, (p: Page) => p.status == Published)
  }

  /** `getPage`: the first page with the slug. Unlike `getPost`, the status is
      not consulted. */
  function GetPage(pages: seq<Page>, slug: string): (r: Option<Page>)
    ensures r.Some? ==> r.value in pages && r.value.slug == slug
    ensures r.None? <==> forall p :: p in pages ==> p.slug != slug
  {
    First(Filter(pages, (p: Page) => p.slug == slug))
  }

  /** Two rows of a table that satisfies the constraints and share a slug are the same row. */
  lemma SameSlugSamePage(pages: seq<Page>, p: Page, q: Page)
    requires PagesOk(pages) && p in pages && q in pages && p.slug == q.slug
    ensures p == q
  {
    var i :| 0 <= i < |pages| && pages[i] == p;
    var j :| 0 <= j < |pages| && pages[j] == q;
    if i < j {
      assert false;
    } else if j < i {
      assert false;
    }
  }

  /** Every page, draft or published, is found by its slug. */
  lemma GetPageFindsAny(pages: seq<Page>, p: Page)
    requires PagesOk(pages) && p in pages
    ensures GetPage(pages, p.slug) == Some(p)
  {
    SameSlugSamePage(pages, p, GetPage(pages, p.slug).value);
  }

  /** The fields `createPage` is given; an absent `status` takes the column default. */
  datatype NewPage = NewPage(title: string, content: string, slug: string, status: Option<string>)

  /** `createPage`: one row under a fresh id holding the given fields; a slug
      already in use is rejected by the unique constraint. */
  function CreatePage(pages: seq<Page>, newId: Id, page: NewPage): (r: Write<Page>)
    requires forall p :: p in pages ==> p.id != newId
    ensures r.UniqueViolation? <==> exists p :: p in pages && p.slug == page.slug
    ensures r.Written? ==>
      && r.returned.Some?
      && r.rows == pages + [r.returned.value]
      && var row := r.returned.value;
      && row.id == newId && row.title == page.title && row.content == page.content && row.slug == page.slug
      && row.status == (if page.status.Some? then page.status.value else Draft)
      && !row.isRestricted
  {
    if exists p :: p in pages && p.slug == page.slug then UniqueViolation
    else
      var row := Page(newId, page.title, page.content, page.slug, page.status.GetOr(Draft), false);
      Written(pages + [row], Some(row))
  }

  lemma CreateKeepsPagesOk(pages: seq<Page>, newId: Id, page: NewPage)
    requires PagesOk(pages) && CanonicalId(newId) && forall p :: p in pages ==> p.id != newId
    ensures CreatePage(pages, newId, page).Written? ==> PagesOk(CreatePage(pages, newId, page).rows)
  {
    var r := CreatePage(pages, newId, page);
    if r.Written? {
      forall i, j | 0 <= i < j < |r.rows| ensures r.rows[i].id != r.rows[j].id && r.rows[i].slug != r.rows[j].slug {
        if j == |pages| {
          assert r.rows[i] in pages;
        }
      }
    }
  }

  /** The four columns `updatePage` overwrites. */
  datatype PageFields = PageFields(title: string, content: string, slug: string, status: string)

  function Overwritten(p: Page, fields: PageFields): (r: Page)
    ensures r.id == p.id && r.isRestricted == p.isRestricted
    ensures r.title == fields.title && r.content == fields.content
    ensures r.slug == fields.slug && r.status == fields.status
  {
    Page(p.id, fields.title, fields.content, fields.slug, fields.status, p.isRestricted)
  }

  /** The `UPDATE ... WHERE id = ?` itself: the rows with the id take the fields. */
  function OverwriteRows(pages: seq<Page>, id: Id, fields: PageFields): (r: seq<Page>)
    ensures |r| == |pages|
    ensures forall i :: 0 <= i < |pages| ==>
      r[i] == if pages[i].id == id then Overwritten(pages[i], fields) else pages[i]
  {
    seq(|pages|, i requires 0 <= i < |pages| =>
      if pages[i].id == id then Overwritten(pages[i], fields) else pages[i])
  }

  /** `updatePage`: the row whose id is the uuid `id` spells takes all four
      fields; nothing changes (and nothing is returned) when no row has that
      id; a slug another page already uses is rejected. */
  function UpdatePage(pages: seq<Page>, id: string, fields: PageFields): (r: Write<Page>)
    ensures r.UniqueViolation? <==>
      (exists p :: p in pages && p.id == Key(id)) && exists q :: q in pages && q.id != Key(id) && q.slug == fields.slug
    ensures r.Written? ==> |r.rows| == |pages|
    ensures r.Written? ==> forall i :: 0 <= i < |pages| ==>
      r.rows[i] == if pages[i].id == Key(id) then Overwritten(pages[i], fields) else pages[i]
    ensures r.Written? ==> (r.returned.None? <==> forall p :: p in pages ==> p.id != Key(id))
    ensures r.Written? && r.returned.Some? ==> r.returned.value in r.rows && r.returned.value.id == Key(id)
  {
    if (exists p :: p in pages && p.id == Key(id)) && exists q :: q in pages && q.id != Key(id) && q.slug == fields.slug
    then UniqueViolation
    else
      var updated := OverwriteRows(pages, Key(id), fields);
      var hasId := (p: Page) => p.id == Key(id);
      FilterEmptyTogether(pages, updated, hasId);
      Written(updated, First(Filter(updated, hasId)))
  }

  /** An accepted update keeps ids and slugs unique. */
  lemma UpdateKeepsPagesOk(pages: seq<Page>, id: string, fields: PageFields)
    requires PagesOk(pages)
    ensures UpdatePage(pages, id, fields).Written? ==> PagesOk(UpdatePage(pages, id, fields).rows)
  {
    var r := UpdatePage(pages, id, fields);
    if r.Written? {
      forall i, j | 0 <= i < j < |r.rows| ensures r.rows[i].id != r.rows[j].id && r.rows[i].slug != r.rows[j].slug {
        assert pages[i].id != pages[j].id && pages[i].slug != pages[j].slug;
        if pages[i].id == Key(id) {
          assert pages[j] in pages;
        } else if pages[j].id == Key(id) {
          assert pages[i] in pages;
        }
      }
    }
  }

  /** After an accepted update the page is found under its new slug with its new fields. */
  lemma UpdatedPageFoundBySlug(pages: seq<Page>, k: nat, id: string, fields: PageFields)
    requires PagesOk(pages) && k < |pages| && SameUuid(pages[k].id, id)
    requires UpdatePage(pages, id, fields).Written?
    ensures GetPage(UpdatePage(pages, id, fields).rows, fields.slug) == Some(Overwritten(pages[k], fields))
  {
    KeyMatchesSameUuid(pages[k].id, id);
    var r := UpdatePage(pages, id, fields);
    UpdateKeepsPagesOk(pages, id, fields);
    assert r.rows[k] == Overwritten(pages[k], fields);
    GetPageFindsAny(r.rows, r.rows[k]);
  }

  /** `deletePage`: exactly the rows whose id is the uuid `id` spells go; the
      others stay in order. */
  function DeletePage(pages: seq<Page>, id: string): (r: seq<Page>)
    ensures forall p :: p in r <==> p in pages && p.id != Key(id)
  {
    Filter(pages, (p: Page) => p.id != Key(id))
  }

  lemma DeleteKeepsPagesOk(pages: seq<Page>, id: string)
    requires PagesOk(pages)
    ensures PagesOk(DeletePage(pages, id))
  {
    FilterKeepsDistinct(pages, (p: Page) => p.id != Key(id), (p: Page) => (p.id, p.slug));
    var r := DeletePage(pages, id);
    forall i, j | 0 <= i < j < |r| ensures r[i].id != r[j].id && r[i].slug != r[j].slug {
      assert r[i] in pages && r[j] in pages;
      if r[i].slug == r[j].slug {
        SameSlugSamePage(pages, r[i], r[j]);
      }
    }
  }

  /** With distinct ids, deleting by any spelling of a page's uuid takes out
      exactly that page and keeps the others in their order. */
  lemma DeleteRemovesRow(pages: seq<Page>, k: nat, id: string)
    requires PagesOk(pages) && k < |pages| && SameUuid(pages[k].id, id)
    ensures DeletePage(pages, id) == pages[..k] + pages[k + 1..]
  {
    KeyMatchesSameUuid(pages[k].id, id);
    FilterRemovesOne(pages, (p: Page) => p.id != Key(id), k);
  }

  // The writes on the database object.

  method CreatePageIn(db: Database.Db, newId: Id, page: NewPage) returns (created: Option<Page>)
    requires db.Valid() && CanonicalId(newId) && forall p :: p in db.pages ==> p.id != newId
    modifies db`pages
    ensures db.Valid()
    ensures var r := CreatePage(old(db.pages), newId, page);
      if r.Written? then db.pages == r.rows && created == r.returned
      else db.pages == old(db.pages) && created.None?
  {
    CreateKeepsPagesOk(db.pages, newId, page);
    var r := CreatePage(db.pages, newId, page);
    if r.Written? {
      db.pages := r.rows;
      created := r.returned;
    } else {
      created := None;
    }
  }

  method UpdatePageIn(db: Database.Db, id: string, fields: PageFields) returns (updated: Option<Page>, violation: bool)
    requires db.Valid()
    modifies db`pages
    ensures db.Valid()
    ensures var r := UpdatePage(old(db.pages), id, fields);
      && violation == r.UniqueViolation?
      && (r.Written? ==> db.pages == r.rows && updated == r.returned)
      && (r.UniqueViolation? ==> db.pages == old(db.pages) && updated.None?)
  {
    UpdateKeepsPagesOk(db.pages, id, fields);
    var r := UpdatePage(db.pages, id, fields);
    if r.Written? {
      db.pages := r.rows;
      return r.returned, false;
    }
    return None, true;
  }

  method DeletePageIn(db: Database.Db, id: string)
    requires db.Valid()
    modifies db`pages
    ensures db.Valid()
    ensures db.pages == DeletePage(old(db.pages), id)
  {
    DeleteKeepsPagesOk(db.pages, id);
    db.pages := DeletePage(db.pages, id);
  }
}
