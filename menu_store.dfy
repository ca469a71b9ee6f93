/** The menu items table: the sorted read, single-row writes, and the
    transaction that rewrites the `order` column of listed items. */
module MenuStore {
  import opened Collections
  import opened Schema
  import Database

  ghost predicate SortedByOrderDesc(s: seq<MenuItem>) {
    forall i, j :: 0 <= i < j < |s| ==> s[i].order >= s[j].order
  }

  /** A head whose order is at least that of every element of a sorted tail
      keeps the list sorted. */
  lemma InsertedBelow(head: MenuItem, x: MenuItem, tail: seq<MenuItem>, rest: seq<MenuItem>)
    requires SortedByOrderDesc([head] + tail) && SortedByOrderDesc(rest)
    requires x.order < head.order
    requires multiset(rest) == multiset(tail) + multiset{x}
    ensures SortedByOrderDesc([head] + rest)
  {
    forall j | 0 <= j < |rest| ensures head.order >= rest[j].order {
      assert rest[j] in multiset(tail) + multiset{x};
      if rest[j] != x {
        assert rest[j] in tail;
        var k :| 0 <= k < |tail| && tail[k] == rest[j];
        assert ([head] + tail)[0] == head && ([head] + tail)[k + 1] == tail[k];
      }
    }
    var r := [head] + rest;
    forall i, j | 0 <= i < j < |r| ensures r[i].order >= r[j].order {
      if i > 0 {
        assert r[i] == rest[i - 1] && r[j] == rest[j - 1];
      } else {
        assert r[j] == rest[j - 1];
      }
    }
  }

  /** An item whose order is at least that of the first element of a sorted list
      can go in front of it. */
  lemma PrependedSorted(x: MenuItem, s: seq<MenuItem>)
    requires SortedByOrderDesc(s) && (s == [] || x.order >= s[0].order)
    ensures SortedByOrderDesc([x] + s)
  {
    var r := [x] + s;
    forall i, j | 0 <= i < j < |r| ensures r[i].order >= r[j].order {
      assert r[j] == s[j - 1];
      if i > 0 {
        assert r[i] == s[i - 1];
      } else if j > 1 {
        assert s[0].order >= s[j - 1].order;
      }
    }
  }

  /** Inserts `x` into a list sorted by descending order. */
  function InsertByOrder(x: MenuItem, s: seq<MenuItem>): (r: seq<MenuItem>)
    requires SortedByOrderDesc(s)
    ensures SortedByOrderDesc(r)
    ensures multiset(r) == multiset(s) + multiset{x}
    decreases |s|
  {
    if s == [] || x.order >= s[0].order then
      PrependedSorted(x, s);
      [x] + s
    else
      var rest := InsertByOrder(x, s[1..]);
      assert s == [s[0]] + s[1..];
      InsertedBelow(s[0], x, s[1..], rest);
      [s[0]] + rest
  }

  /** `getMenuItems`: every row, sorted by `order`, highest first. (The database
      may break ties either way; this is one of the orders it may return.) */
  function GetMenuItems(table: seq<MenuItem>): (r: seq<MenuItem>)
    ensures SortedByOrderDesc(r)
    ensures multiset(r) == multiset(table)
    decreases |table|
  {
    if table == [] then []
    else
      assert table == [table[0]] + table[1..];
      InsertByOrder(table[0], GetMenuItems(table[1..]))
  }

  /** `createMenuItem`: one row appended under a fresh id; the id constraint still holds. */
  function CreateMenuItem(table: seq<MenuItem>, newId: Id, labelText: string, url: string, order: int)
    : (r: (seq<MenuItem>, MenuItem))
    requires forall x :: x in table ==> x.id != newId
    ensures r.1 == MenuItem(newId, labelText, url, order)
    ensures r.0 == table + [r.1]
    ensures MenuItemsOk(table) && CanonicalId(newId) ==> MenuItemsOk(r.0)
  {
    var item := MenuItem(newId, labelText, url, order);
    (table + [item], item)
  }

  /** The fields of a `Partial<MenuItem>` patch; an absent field is left as it is. */
  datatype MenuItemPatch = MenuItemPatch(labelText: Option<string>, url: Option<string>, order: Option<int>)

  function Patched(item: MenuItem, patch: MenuItemPatch): MenuItem {
    MenuItem(item.id, patch.labelText.GetOr(item.labelText), patch.url.GetOr(item.url), patch.order.GetOr(item.order))
  }

  /** `updateMenuItem`: the row whose id is the uuid `id` spells takes the
      patch's fields; the returned row is the updated one, or None when no row
      has that id. */
  function UpdateMenuItem(table: seq<MenuItem>, id: string, patch: MenuItemPatch): (r: (seq<MenuItem>, Option<MenuItem>))
    ensures |r.0| == |table|
    ensures forall i :: 0 <= i < |table| ==>
      r.0[i] == if table[i].id == Key(id) then Patched(table[i], patch) else table[i]
    ensures r.1.None? <==> forall x :: x in table ==> x.id != Key(id)
    ensures r.1.Some? ==> r.1.value in r.0 && r.1.value.id == Key(id)
    ensures MenuItemsOk(table) ==> MenuItemsOk(r.0)
  {
    var key := Key(id);
    var updated := seq(|table|, i requires 0 <= i < |table| =>
                       if table[i].id == key then Patched(table[i], patch) else table[i]);
    var hasId := (x: MenuItem) => x.id == key;
    FilterEmptyTogether(table, updated, hasId);
    (updated, First(Filter(updated, hasId)))
  }

  /** `deleteMenuItem`: exactly the rows whose id is the uuid `id` spells go;
      the others stay in order. */
  function DeleteMenuItem(table: seq<MenuItem>, id: string): (r: seq<MenuItem>)
    ensures forall x :: x in r <==> x in table && x.id != Key(id)
  {
    Filter(table, (x: MenuItem) => x.id != Key(id))
  }

  /** Deleting rows keeps the remaining ids distinct. */
  lemma DeleteKeepsMenuItemsOk(table: seq<MenuItem>, id: string)
    requires MenuItemsOk(table)
    ensures MenuItemsOk(DeleteMenuItem(table, id))
  {
    FilterKeepsDistinct(table, (x: MenuItem) => x.id != Key(id), (x: MenuItem) => x.id);
  }

  /** With distinct ids, deleting by any spelling of a row's uuid takes out
      exactly that row and keeps the others in their order. */
  lemma DeleteRemovesRow(table: seq<MenuItem>, k: nat, id: string)
    requires MenuItemsOk(table) && k < |table| && SameUuid(table[k].id, id)
    ensures DeleteMenuItem(table, id) == table[..k] + table[k + 1..]
  {
    KeyMatchesSameUuid(table[k].id, id);
    FilterRemovesOne(table, (x: MenuItem) => x.id != Key(id), k);
  }

  /** The order the last entry naming the stored id `id` in `items` carries:
      when two entries spell the same uuid, the later entry's update is the one
      that stays. */
  function LastOrder(items: seq<MenuItem>, id: Id): (r: Option<int>)
    ensures r.None? <==> forall x :: x in items ==> Key(x.id) != id
    ensures r.Some? ==> exists j :: 0 <= j < |items| && Key(items[j].id) == id && items[j].order == r.value
                                    && forall k :: j < k < |items| ==> Key(items[k].id) != id
    decreases |items|
  {
    if items == [] then None
    else if Key(items[|items| - 1].id) == id then Some(items[|items| - 1].order)
    else
      assert items == items[..|items| - 1] + [items[|items| - 1]];
      LastOrder(items[..|items| - 1], id)
  }

  /** One `UPDATE menu_items SET order = ? WHERE id = ?`. */
  function SetOrder(table: seq<MenuItem>, id: Id, order: int): seq<MenuItem> {
    seq(|table|, i requires 0 <= i < |table| => if table[i].id == id then table[i].(order := order) else table[i])
  }

  /** The table once every listed update has run: a listed id takes the order of
      its last entry, an unlisted row is untouched, and only `order` ever changes. */
  function Reordered(table: seq<MenuItem>, items: seq<MenuItem>): (r: seq<MenuItem>)
    ensures |r| == |table|
    ensures forall i :: 0 <= i < |table| ==> r[i].(order := table[i].order) == table[i]
    ensures forall i :: 0 <= i < |table| && LastOrder(items, table[i].id).None? ==> r[i] == table[i]
    ensures forall i :: 0 <= i < |table| && LastOrder(items, table[i].id).Some? ==>
      r[i].order == LastOrder(items, table[i].id).value
  {
    seq(|table|, i requires 0 <= i < |table| =>
      match LastOrder(items, table[i].id)
      case Some(o) => table[i].(order := o)
      case None => table[i])
  }

  /** One more update extends the transaction's effect by that entry. */
  lemma ReorderStep(table: seq<MenuItem>, items: seq<MenuItem>, k: nat)
    requires k < |items|
    ensures Reordered(table, items[..k + 1]) == SetOrder(Reordered(table, items[..k]), Key(items[k].id), items[k].order)
  {
    var prefix := items[..k + 1];
    assert prefix[..|prefix| - 1] == items[..k];
    assert prefix[|prefix| - 1] == items[k];
  }

  /** Every listed id is uuid text, so that no per-item update raises an error. */
  predicate AllIdsUuid(items: seq<MenuItem>) {
    forall i :: 0 <= i < |items| ==> IsUuid(items[i].id)
  }

  /** The body of the transaction: the per-item updates, run in list order on the
      transaction's working copy of the table. An id that is not uuid text makes
      its update raise an error, which aborts the transaction. */
  method RunReorderTransaction(table: seq<MenuItem>, items: seq<MenuItem>) returns (tx: seq<MenuItem>, ok: bool)
    ensures ok <==> AllIdsUuid(items)
    ensures ok ==> tx == Reordered(table, items)
  {
    tx := table;
    for k := 0 to |items|
      invariant tx == Reordered(table, items[..k])
      invariant forall i :: 0 <= i < k ==> IsUuid(items[i].id)
    {
      if !IsUuid(items[k].id) {
        return tx, false;
      }
      ReorderStep(table, items, k);
      tx := SetOrder(tx, Key(items[k].id), items[k].order);
    }
    assert items[..|items|] == items;
    ok := true;
  }

  /** `reorderMenuItems`: the updates run inside one transaction. When every
      update succeeds its result is committed as a whole; when one raises an
      error the transaction rolls back, the table keeps every order it had, and
      the error reaches the caller (`ok` is false). */
  method ReorderMenuItems(db: Database.Db, items: seq<MenuItem>) returns (ok: bool)
    requires db.Valid()
    modifies db`menuItems
    ensures db.Valid()
    ensures ok <==> AllIdsUuid(items)
    ensures ok ==> db.menuItems == Reordered(old(db.menuItems), items)
    ensures !ok ==> db.menuItems == old(db.menuItems)
  {
    var tx;
    tx, ok := RunReorderTransaction(db.menuItems, items);
    if ok {
      db.menuItems := tx;
    }
  }

  /** With distinct stored ids, the last entry for an id is its only entry. */
  lemma LastOrderOfDistinct(items: seq<MenuItem>, p: nat)
    requires MenuItemsOk(items) && p < |items|
    ensures LastOrder(items, items[p].id) == Some(items[p].order)
  {
    forall j | 0 <= j < |items| ensures Key(items[j].id) == items[j].id {
      KeyMatchesSameUuid(items[j].id, items[j].id);
    }
  }

  /** A row of the reordered table whose id was listed carries its last listed order. */
  lemma SavedOrder(table: seq<MenuItem>, items: seq<MenuItem>, x: MenuItem)
    requires x in multiset(Reordered(table, items)) && LastOrder(items, x.id).Some?
    ensures x.order == LastOrder(items, x.id).value
  {
    var saved := Reordered(table, items);
    var k :| 0 <= k < |saved| && saved[k] == x;
    assert saved[k].id == table[k].id;
  }

  /** After a reorder that lists each id once, a row read back for a listed id
      carries the order of its entry. */
  lemma ReadBackOrder(table: seq<MenuItem>, updated: seq<MenuItem>, p: nat, x: MenuItem)
    requires MenuItemsOk(updated) && p < |updated|
    requires x in GetMenuItems(Reordered(table, updated)) && x.id == updated[p].id
    ensures x.order == updated[p].order
  {
    assert x in multiset(GetMenuItems(Reordered(table, updated)));
    LastOrderOfDistinct(updated, p);
    SavedOrder(table, updated, x);
  }

  /** In a list sorted by descending order, an entry of lower order comes later. */
  lemma LowerOrderComesLater(r: seq<MenuItem>, i: nat, j: nat)
    requires SortedByOrderDesc(r) && i < |r| && j < |r| && r[i].order < r[j].order
    ensures j < i
  {
  }

  /** The drag handler numbers items upwards from the top of the list, while the
      read sorts by order downwards: after the reorder is saved, an item the user
      placed above another is read back below it. */
  lemma ReadReversesDragOrder(table: seq<MenuItem>, updated: seq<MenuItem>, p: nat, q: nat, i: nat, j: nat)
    requires MenuItemsOk(updated)
    requires forall k :: 0 <= k < |updated| ==> updated[k].order == k
    requires p < q < |updated|
    requires var r := GetMenuItems(Reordered(table, updated));
      i < |r| && j < |r| && r[i].id == updated[p].id && r[j].id == updated[q].id
    ensures j < i
  {
    var r := GetMenuItems(Reordered(table, updated));
    ReadBackOrder(table, updated, p, r[i]);
    ReadBackOrder(table, updated, q, r[j]);
    LowerOrderComesLater(r, i, j);
  }

  // The in-place writes of the store on the database object.

  method CreateMenuItemIn(db: Database.Db, newId: Id, labelText: string, url: string, order: int)
    returns (item: MenuItem)
    requires db.Valid() && CanonicalId(newId) && forall x :: x in db.menuItems ==> x.id != newId
    modifies db`menuItems
    ensures db.Valid()
    ensures (db.menuItems, item) == CreateMenuItem(old(db.menuItems), newId, labelText, url, order)
  {
    var r := CreateMenuItem(db.menuItems, newId, labelText, url, order);
    db.menuItems := r.0;
    item := r.1;
  }

  method UpdateMenuItemIn(db: Database.Db, id: string, patch: MenuItemPatch) returns (item: Option<MenuItem>)
    requires db.Valid()
    modifies db`menuItems
    ensures db.Valid()
    ensures (db.menuItems, item) == UpdateMenuItem(old(db.menuItems), id, patch)
  {
    var r := UpdateMenuItem(db.menuItems, id, patch);
    db.menuItems := r.0;
    item := r.1;
  }

  method DeleteMenuItemIn(db: Database.Db, id: string)
    requires db.Valid()
    modifies db`menuItems
    ensures db.Valid()
    ensures db.menuItems == DeleteMenuItem(old(db.menuItems), id)
  {
    DeleteKeepsMenuItemsOk(db.menuItems, id);
    db.menuItems := DeleteMenuItem(db.menuItems, id);
  }
}
