/** The dashboard's menu editor: the local list it keeps, the drag-and-drop
    reorder, and the list updates that follow a successful edit or delete. */
module MenuContent {
  import opened Collections
  import opened Schema

  /** An item with its position field blanked: what a reorder must preserve. */
  function Unordered(item: MenuItem): MenuItem {
    item.(order := 0)
  }

  function UnorderedAll(items: seq<MenuItem>): (r: seq<MenuItem>)
    ensures |r| == |items|
  {
    seq(|items|, i requires 0 <= i < |items| => Unordered(items[i]))
  }

  lemma UnorderedAllAppend(a: seq<MenuItem>, b: seq<MenuItem>)
    ensures UnorderedAll(a + b) == UnorderedAll(a) + UnorderedAll(b)
  {
  }

  /** The sequence without its element at index `i`. */
  function Remove(xs: seq<MenuItem>, i: nat): (r: seq<MenuItem>)
    requires i < |xs|
    ensures |r| == |xs| - 1
  {
    xs[..i] + xs[i + 1..]
  }

  /** The two `splice` calls: take the element at `s` out, insert it at `d`. */
  function Move(xs: seq<MenuItem>, s: nat, d: nat): (r: seq<MenuItem>)
    requires s < |xs| && d < |xs|
    ensures |r| == |xs|
  {
    var rest := Remove(xs, s);
    rest[..d] + [xs[s]] + rest[d..]
  }

  lemma UnorderedMultisetAppend(a: seq<MenuItem>, b: seq<MenuItem>)
    ensures multiset(UnorderedAll(a + b)) == multiset(UnorderedAll(a)) + multiset(UnorderedAll(b))
  {
    UnorderedAllAppend(a, b);
  }

  /** Moving an element only rearranges the list. */
  lemma MovePermutes(xs: seq<MenuItem>, s: nat, d: nat)
    requires s < |xs| && d < |xs|
    ensures multiset(UnorderedAll(Move(xs, s, d))) == multiset(UnorderedAll(xs))
  {
    var a, b, x := xs[..s], xs[s + 1..], xs[s];
    var rest := Remove(xs, s);
    assert rest == a + b;
    var p, q := rest[..d], rest[d..];
    assert rest == p + q;
    assert Move(xs, s, d) == p + [x] + q;
    assert xs == a + [x] + b;
    var ux := multiset(UnorderedAll([x]));
    calc {
      multiset(UnorderedAll(Move(xs, s, d)));
      multiset(UnorderedAll(p + [x] + q));
      { UnorderedMultisetAppend(p + [x], q); UnorderedMultisetAppend(p, [x]); }
      multiset(UnorderedAll(p)) + ux + multiset(UnorderedAll(q));
      { UnorderedMultisetAppend(p, q); }
      multiset(UnorderedAll(rest)) + ux;
      { UnorderedMultisetAppend(a, b); }
      multiset(UnorderedAll(a)) + multiset(UnorderedAll(b)) + ux;
      { UnorderedMultisetAppend(a + [x], b); UnorderedMultisetAppend(a, [x]); }
      multiset(UnorderedAll(a + [x] + b));
      multiset(UnorderedAll(xs));
    }
  }

  /** The moved element sits at `d`, and without it the others are in their old order. */
  lemma MoveLands(xs: seq<MenuItem>, s: nat, d: nat)
    requires s < |xs| && d < |xs|
    ensures Move(xs, s, d)[d] == xs[s]
    ensures Remove(Move(xs, s, d), d) == Remove(xs, s)
  {
    var rest := Remove(xs, s);
    var m := Move(xs, s, d);
    assert m[..d] == rest[..d];
    assert m[d + 1..] == rest[d..];
  }

  /** Renumbering items by index leaves them equal up to their position fields. */
  lemma RenumberedRemove(a: seq<MenuItem>, b: seq<MenuItem>, d: nat)
    requires |a| == |b| && d < |a|
    requires forall i :: 0 <= i < |a| ==> Unordered(a[i]) == Unordered(b[i])
    ensures UnorderedAll(Remove(a, d)) == UnorderedAll(Remove(b, d))
  {
    var ra, rb := Remove(a, d), Remove(b, d);
    forall i | 0 <= i < |ra| ensures Unordered(ra[i]) == Unordered(rb[i]) {
      if i < d {
        assert ra[i] == a[i] && rb[i] == b[i];
      } else {
        assert ra[i] == a[i + 1] && rb[i] == b[i + 1];
      }
    }
  }

  /** `onDragEnd`: without a destination nothing changes and no request is sent.
      Otherwise the dragged item is taken out of a copy of the list and put back
      at the destination, every item is renumbered with its index, and the new
      list is both the new state and the body of the reorder request. */
  method OnDragEnd(menuItems: seq<MenuItem>, source: nat, destination: Option<nat>)
    returns (updated: seq<MenuItem>, request: Option<seq<MenuItem>>)
    requires source < |menuItems|
    ensures destination.None? ==> updated == menuItems && request.None?
    ensures destination.Some? ==> request == Some(updated)
    ensures |updated| == |menuItems|
    // A permutation of the original items, ignoring their positions.
    ensures destination.Some? ==> multiset(UnorderedAll(updated)) == multiset(UnorderedAll(menuItems))
    // Positions are renumbered from zero.
    ensures destination.Some? ==> forall i :: 0 <= i < |updated| ==> updated[i].order == i
    // The dragged item lands at the destination (past the end: last), and the
    // other items keep their relative order.
    ensures destination.Some? ==>
      var d := if destination.value < |menuItems| then destination.value else |menuItems| - 1;
      && Unordered(updated[d]) == Unordered(menuItems[source])
      && UnorderedAll(Remove(updated, d)) == UnorderedAll(Remove(menuItems, source))
  {
    if destination.None? {
      return menuItems, None;
    }
    var items := menuItems;
    // items.splice(source, 1)
    var reorderedItem := items[source];
    items := items[..source] + items[source + 1..];
    // items.splice(destination, 0, reorderedItem); a start past the end appends
    var d := if destination.value <= |items| then destination.value else |items|;
    items := items[..d] + [reorderedItem] + items[d..];
    updated := seq(|items|, i requires 0 <= i < |items| => items[i].(order := i));
    request := Some(updated);

    assert items == Move(menuItems, source, d);
    MovePermutes(menuItems, source, d);
    MoveLands(menuItems, source, d);
    assert UnorderedAll(updated) == UnorderedAll(items);
    RenumberedRemove(updated, items, d);
  }

  /** `handleEditSubmit`: with no item being edited, or when the request fails,
      the list stays as it is; otherwise every item with the edited id is
      replaced by the edited item and no other item changes. */
  function EditSubmit(menuItems: seq<MenuItem>, editing: Option<MenuItem>, responseOk: bool): (r: seq<MenuItem>)
    ensures editing.None? || !responseOk ==> r == menuItems
    ensures |r| == |menuItems|
    ensures editing.Some? && responseOk ==> forall i :: 0 <= i < |r| ==>
      && r[i].id == menuItems[i].id
      && (menuItems[i].id == editing.value.id ==> r[i] == editing.value)
      && (menuItems[i].id != editing.value.id ==> r[i] == menuItems[i])
  {
    if editing.None? || !responseOk then menuItems
    else seq(|menuItems|, i requires 0 <= i < |menuItems| =>
           if menuItems[i].id == editing.value.id then editing.value else menuItems[i])
  }

  /** `handleDeleteItem`: with no item selected, or when the request fails, the
      list stays as it is; otherwise exactly the items with that id go. */
  function DeleteItem(menuItems: seq<MenuItem>, toDelete: Option<MenuItem>, responseOk: bool): (r: seq<MenuItem>)
    ensures toDelete.None? || !responseOk ==> r == menuItems
    ensures toDelete.Some? && responseOk ==>
      forall x :: x in r <==> x in menuItems && x.id != toDelete.value.id
  {
    if toDelete.None? || !responseOk then menuItems
    else Filter(menuItems, (item: MenuItem) => item.id != toDelete.value.id)
  }

  /** When no other item shares the selected item's id, a successful delete
      takes out exactly that item and keeps the others, duplicates included,
      in their order. */
  lemma DeleteRemovesOneItem(menuItems: seq<MenuItem>, k: nat, toDelete: Option<MenuItem>)
    requires k < |menuItems| && toDelete.Some? && toDelete.value.id == menuItems[k].id
    requires forall i :: 0 <= i < |menuItems| && i != k ==> menuItems[i].id != menuItems[k].id
    ensures DeleteItem(menuItems, toDelete, true) == menuItems[..k] + menuItems[k + 1..]
  {
    FilterRemovesOne(menuItems, (item: MenuItem) => item.id != toDelete.value.id, k);
  }

  /** The body `handleSubmit` posts for a new item. */
  datatype NewMenuItem = NewMenuItem(labelText: string, url: string, order: int)

  function NewItemRequest(menuItems: seq<MenuItem>, labelText: string, url: string): NewMenuItem {
    NewMenuItem(labelText, url, |menuItems|)
  }

  /** A new item is numbered with the list's length, so in a list numbered by
      index (as a drag leaves it) its order is above every existing order. */
  lemma NewItemOrderAboveAll(menuItems: seq<MenuItem>, labelText: string, url: string)
    requires forall i :: 0 <= i < |menuItems| ==> menuItems[i].order == i
    ensures forall x :: x in menuItems ==> x.order < NewItemRequest(menuItems, labelText, url).order
  {
  }
}
