// Edits of one page's ordered item list, located by item identity. Each
// edit gives None when its guard makes the engine return without change.

module ItemEdits {
  import opened DataModel

  /** The body of a block added by `addTextBlock(to:)`. */
  const NewTextBlockBody: string := "New Text Block"

  /** `firstIndex(where: { $0.id == id })`. */
  function FirstIndex(items: seq<PageItem>, id: Uuid): (r: Option<nat>)
    ensures r.Some? ==> r.value < |items| && items[r.value].Id() == id
    ensures r.Some? ==> forall j :: 0 <= j < r.value ==> items[j].Id() != id
    ensures r.None? ==> forall j :: 0 <= j < |items| ==> items[j].Id() != id
  {
    FirstWhere(items, ItemId, id)
  }

  /** The search finds position `k` when `k` holds the id and no earlier position does. */
  lemma FirstIndexAt(items: seq<PageItem>, id: Uuid, k: nat)
    requires k < |items| && items[k].Id() == id
    requires forall j :: 0 <= j < k ==> items[j].Id() != id
    ensures FirstIndex(items, id) == Some(k)
  {
  }

  function RemoveAt<T>(s: seq<T>, i: nat): (r: seq<T>)
    requires i < |s|
    ensures |r| == |s| - 1
    ensures forall j :: 0 <= j < |r| ==> r[j] == if j < i then s[j] else s[j + 1]
  {
    s[..i] + s[i + 1..]
  }

  function InsertAt<T>(s: seq<T>, i: nat, x: T): (r: seq<T>)
    requires i <= |s|
    ensures |r| == |s| + 1 && r[i] == x
    ensures forall j :: 0 <= j < |r| && j != i ==> r[j] == if j < i then s[j] else s[j - 1]
  {
    s[..i] + [x] + s[i..]
  }

  /** Moving an item within a list keeps its identities below any bound they were below. */
  lemma MoveKeepsIdsBelow(items: seq<PageItem>, from: nat, to: nat, bound: Uuid)
    requires from < |items| && to < |items| && IdsBelow(items, bound)
    ensures IdsBelow(InsertAt(RemoveAt(items, from), to, items[from]), bound)
  {
    var moved := InsertAt(RemoveAt(items, from), to, items[from]);
    RemoveInsertMultiset(items, from, to);
    forall it | it in moved ensures it.Id() < bound {
      assert it in multiset(moved);
    }
  }

  lemma RemoveInsertMultiset<T>(s: seq<T>, from: nat, to: nat)
    requires from < |s| && to < |s|
    ensures multiset(InsertAt(RemoveAt(s, from), to, s[from])) == multiset(s)
  {
    RemoveAtMultiset(s, from);
    InsertAtMultiset(RemoveAt(s, from), to, s[from]);
  }

  /** Removing position `i` takes exactly one copy of `s[i]` out of the multiset. */
  lemma RemoveAtMultiset<T>(s: seq<T>, i: nat)
    requires i < |s|
    ensures multiset(RemoveAt(s, i)) + multiset{s[i]} == multiset(s)
  {
    assert RemoveAt(s, i) == s[..i] + s[i + 1..];
    assert s == s[..i] + [s[i]] + s[i + 1..];
  }

  /** Inserting `x` adds exactly one copy of it to the multiset. */
  lemma InsertAtMultiset<T>(s: seq<T>, i: nat, x: T)
    requires i <= |s|
    ensures multiset(InsertAt(s, i, x)) == multiset(s) + multiset{x}
  {
    assert InsertAt(s, i, x) == s[..i] + [x] + s[i..];
    assert s == s[..i] + s[i..];
  }

  /**
   * `updateText(at:in:newText:)` on the item list: replaces the body of the
   * first item with that identity, provided it is a text item.
   */
  function UpdatedText(items: seq<PageItem>, id: Uuid, newText: string): (r: Option<seq<PageItem>>)
    ensures r.Some? <==> FirstIndex(items, id).Some? && items[FirstIndex(items, id).value].Text?
    ensures r.Some? ==>
      var k := FirstIndex(items, id).value;
      |r.value| == |items| && r.value[k] == Text(id, newText) &&
      forall j :: 0 <= j < |items| && j != k ==> r.value[j] == items[j]
  {
    match FirstIndex(items, id)
    case None => None
    case Some(k) =>
      if items[k].Text? then Some(items[k := Text(items[k].textId, newText)]) else None
  }

  /** `addTextBlock(to:)` on the item list, with `id` the fresh identity. */
  function WithTextBlock(items: seq<PageItem>, id: Uuid): (r: seq<PageItem>)
    ensures |r| == |items| + 1 && r[..|items|] == items
    ensures r[|items|] == Text(id, NewTextBlockBody)
  {
    items + [Text(id, NewTextBlockBody)]
  }

  /** Where `moveItem` reinserts the moved item after removing it. */
  function AdjustedIndex(from: nat, to: nat): nat
  {
    if from < to then to - 1 else to
  }

  /**
   * `moveItem(in:from:to:)` on the item list: removes the source item and
   * reinserts it at the destination's index, less one when the destination
   * came after the source.
   */
  function MovedItems(items: seq<PageItem>, sourceId: Uuid, destinationId: Uuid): (r: Option<seq<PageItem>>)
    ensures r.None? <==>
      FirstIndex(items, sourceId).None? || FirstIndex(items, destinationId).None? ||
      FirstIndex(items, sourceId) == FirstIndex(items, destinationId)
    ensures r.Some? ==> |r.value| == |items| && multiset(r.value) == multiset(items)
  {
    match (FirstIndex(items, sourceId), FirstIndex(items, destinationId))
    case (Some(from), Some(to)) =>
      if from == to then None
      else
        RemoveInsertMultiset(items, from, AdjustedIndex(from, to));
        Some(InsertAt(RemoveAt(items, from), AdjustedIndex(from, to), items[from]))
    case _ => None
  }

  /**
   * After a move the moved item sits immediately before the destination
   * item, and taking it out again leaves every other item in its old order.
   */
  lemma MovedItemsPlacement(items: seq<PageItem>, sourceId: Uuid, destinationId: Uuid)
    requires MovedItems(items, sourceId, destinationId).Some?
    ensures var from := FirstIndex(items, sourceId).value;
            var to := FirstIndex(items, destinationId).value;
            var r := MovedItems(items, sourceId, destinationId).value;
            var k := AdjustedIndex(from, to);
            k + 1 < |r| && r[k] == items[from] && r[k + 1] == items[to] &&
            RemoveAt(r, k) == RemoveAt(items, from)
  {
    var from := FirstIndex(items, sourceId).value;
    var to := FirstIndex(items, destinationId).value;
    var rest := RemoveAt(items, from);
    var k := AdjustedIndex(from, to);
    var r := InsertAt(rest, k, items[from]);
    assert r[k + 1] == rest[k];
    assert RemoveAt(r, k) == rest;
  }

  /** `moveItemToEnd(in:from:)` on the item list: the found item is moved last. */
  function MovedToEnd(items: seq<PageItem>, sourceId: Uuid): (r: Option<seq<PageItem>>)
    ensures r.None? <==> FirstIndex(items, sourceId).None?
    ensures r.Some? ==> |r.value| == |items| && multiset(r.value) == multiset(items)
    ensures r.Some? ==>
      var from := FirstIndex(items, sourceId).value;
      r.value[|items| - 1] == items[from] && r.value[..|items| - 1] == RemoveAt(items, from)
  {
    match FirstIndex(items, sourceId)
    case None => None
    case Some(from) =>
      assert items == items[..from] + [items[from]] + items[from + 1..];
      Some(RemoveAt(items, from) + [items[from]])
  }

  /** `deleteItem(at:in:)` on the item list: exactly the first item with that identity goes. */
  function DeletedItem(items: seq<PageItem>, id: Uuid): (r: Option<seq<PageItem>>)
    ensures r.None? <==> FirstIndex(items, id).None?
    ensures r.Some? ==> |r.value| == |items| - 1
    ensures r.Some? ==>
      var k := FirstIndex(items, id).value;
      r.value[..k] == items[..k] && r.value[k..] == items[k + 1..] &&
      multiset(r.value) + multiset{items[k]} == multiset(items)
  {
    match FirstIndex(items, id)
    case None => None
    case Some(k) =>
      assert items == items[..k] + [items[k]] + items[k + 1..];
      Some(RemoveAt(items, k))
  }

  /** The file a deletion also removes from disk: only a file item has one. */
  function DeletedFileName(items: seq<PageItem>, id: Uuid): (r: Option<string>)
    ensures r.Some? <==> FirstIndex(items, id).Some? && items[FirstIndex(items, id).value].File?
    ensures r.Some? ==> r.value == items[FirstIndex(items, id).value].filename
  {
    match FirstIndex(items, id)
    case None => None
    case Some(k) => if items[k].File? then Some(items[k].filename) else None
  }

  /** Four items with distinct identities, for the worked examples. */
  predicate DistinctIds4(a: PageItem, b: PageItem, c: PageItem, d: PageItem)
  {
    a.Id() != b.Id() && a.Id() != c.Id() && a.Id() != d.Id() &&
    b.Id() != c.Id() && b.Id() != d.Id() && c.Id() != d.Id()
  }

  /** Moving A onto C in [A,B,C,D] gives [B,A,C,D]: the item lands just before C. */
  lemma MoveForwardExample(a: PageItem, b: PageItem, c: PageItem, d: PageItem)
    requires DistinctIds4(a, b, c, d)
    ensures MovedItems([a, b, c, d], a.Id(), c.Id()) == Some([b, a, c, d])
  {
    var s := [a, b, c, d];
    FirstIndexAt(s, a.Id(), 0);
    FirstIndexAt(s, c.Id(), 2);
    assert RemoveAt(s, 0) == [b, c, d];
    assert InsertAt([b, c, d], 1, a) == [b, a, c, d];
  }

  /** Moving D onto A in [A,B,C,D] gives [D,A,B,C]: the item lands at A's place. */
  lemma MoveBackwardExample(a: PageItem, b: PageItem, c: PageItem, d: PageItem)
    requires DistinctIds4(a, b, c, d)
    ensures MovedItems([a, b, c, d], d.Id(), a.Id()) == Some([d, a, b, c])
  {
    var s := [a, b, c, d];
    FirstIndexAt(s, a.Id(), 0);
    FirstIndexAt(s, d.Id(), 3);
    assert RemoveAt(s, 3) == [a, b, c];
    assert InsertAt([a, b, c], 0, d) == [d, a, b, c];
  }

  /** Moving B to the end of [A,B,C] gives [A,C,B]. */
  lemma MoveToEndExample(a: PageItem, b: PageItem, c: PageItem)
    requires a.Id() != b.Id()
    ensures MovedToEnd([a, b, c], b.Id()) == Some([a, c, b])
  {
    var s := [a, b, c];
    FirstIndexAt(s, b.Id(), 1);
    assert RemoveAt(s, 1) == [a, c];
    assert MovedToEnd(s, b.Id()) == Some(RemoveAt(s, 1) + [s[1]]);
    assert RemoveAt(s, 1) + [s[1]] == [a, c, b];
  }
}
