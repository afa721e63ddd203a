// The reconciler: loads a page's stored item list and merges it against
// the folder's actual listing. The listing decides which files exist; the
// stored list decides order and text.

module Reconciler {
  import opened DataModel
  import opened FileSystem

  /** What `removeAll` keeps: every text item, and file items whose name is listed. */
  predicate Kept(item: PageItem, names: set<string>)
  {
    item.Text? || item.filename in names
  }

  /** `items.removeAll { file item whose name is not on disk }`. */
  function Pruned(items: seq<PageItem>, names: set<string>): (r: seq<PageItem>)
    ensures |r| <= |items|
    ensures forall it :: it in r <==> it in items && Kept(it, names)
  {
    if items == [] then []
    else if Kept(items[0], names) then [items[0]] + Pruned(items[1..], names)
    else Pruned(items[1..], names)
  }

  /** The names of the file items of a list. */
  function FileNames(items: seq<PageItem>): set<string>
  {
    set it | it in items && it.File? :: it.filename
  }

  /** The text items of a list, in order. */
  function TextItems(items: seq<PageItem>): (r: seq<PageItem>)
    ensures forall it :: it in r <==> it in items && it.Text?
  {
    if items == [] then []
    else if items[0].Text? then [items[0]] + TextItems(items[1..])
    else TextItems(items[1..])
  }

  /** The listed names the merge adds, in listing order: not the sidecar, not yet represented. */
  function NewNames(listing: seq<string>, represented: set<string>): (r: seq<string>)
    ensures forall n :: n in r <==> n in listing && n != SidecarName && n !in represented
    ensures |r| <= |listing|
  {
    if listing == [] then []
    else
      var last := listing[|listing| - 1];
      var init := NewNames(listing[..|listing| - 1], represented);
      assert listing == listing[..|listing| - 1] + [last];
      if last != SidecarName && last !in represented then init + [last] else init
  }

  /** Fresh file items for `names`, with identities drawn from `next` on and created `now`. */
  function FreshFiles(names: seq<string>, now: Timestamp, next: Uuid): (r: seq<PageItem>)
    ensures |r| == |names|
    ensures forall k :: 0 <= k < |r| ==> r[k] == File(next + k, names[k], DiskFileMetadata(now))
  {
    seq(|names|, k requires 0 <= k < |names| => File(next + k, names[k], DiskFileMetadata(now)))
  }

  /** The stored items a merge against `names` keeps. */
  function KeptItems(items: seq<PageItem>, names: seq<string>): seq<PageItem>
  {
    Pruned(items, set n | n in names)
  }

  /** The names a merge against `names` adds as fresh file items. */
  function AddedNames(items: seq<PageItem>, names: seq<string>): seq<string>
  {
    NewNames(names, FileNames(KeptItems(items, names)))
  }

  /**
   * The reconciled list and the next unused identity. A failed listing
   * leaves the list as it is.
   */
  function Merge(items: seq<PageItem>, listing: Option<seq<string>>, now: Timestamp, next: Uuid): (r: (seq<PageItem>, Uuid))
    ensures listing.None? ==> r == (items, next)
    ensures r.1 >= next
    ensures listing.Some? ==> |r.0| <= |items| + |listing.value| && r.1 - next <= |listing.value|
  {
    match listing
    case None => (items, next)
    case Some(names) =>
      var kept := Pruned(items, set n | n in names);
      var added := NewNames(names, FileNames(kept));
      (kept + FreshFiles(added, now, next), next + |added|)
  }

  /**
   * `mergeFiles(into:at:)`: drops file items whose name is not listed,
   * then appends one fresh file item per listed name not yet represented.
   */
  method MergeFiles(content: PageContent, listing: Option<seq<string>>, now: Timestamp, next: Uuid)
    returns (merged: PageContent, nextOut: Uuid)
    ensures (merged.items, nextOut) == Merge(content.items, listing, now, next)
  {
    merged, nextOut := content, next;
    if listing.None? {
      return;
    }
    var fileUrls := listing.value;
    var existingOnDisk := set n | n in fileUrls;
    var kept := Pruned(content.items, existingOnDisk);
    var items;
    items, nextOut := AppendNewFiles(kept, fileUrls, FileNames(kept), now, next);
    merged := PageContent(items);
  }

  /** The loop of `mergeFiles(into:at:)`: one fresh file item per listed name that is neither the sidecar nor represented. */
  method AppendNewFiles(kept: seq<PageItem>, fileUrls: seq<string>, existingFileNames: set<string>, now: Timestamp, next: Uuid)
    returns (items: seq<PageItem>, nextOut: Uuid)
    ensures items == kept + FreshFiles(NewNames(fileUrls, existingFileNames), now, next)
    ensures nextOut == next + |NewNames(fileUrls, existingFileNames)|
  {
    items, nextOut := kept, next;
    ghost var added: seq<string> := [];
    for i := 0 to |fileUrls|
      invariant added == NewNames(fileUrls[..i], existingFileNames)
      invariant items == kept + FreshFiles(added, now, next)
      invariant nextOut == next + |added|
    {
      var filename := fileUrls[i];
      NewNamesStep(fileUrls, i, existingFileNames);
      if filename == SidecarName {
        continue;
      }
      if filename !in existingFileNames {
        var file := File(nextOut, filename, DiskFileMetadata(now));
        FreshFilesSnoc(kept, added, filename, now, next);
        assert file == File(next + |added|, filename, DiskFileMetadata(now));
        items := items + [file];
        nextOut := nextOut + 1;
        added := added + [filename];
      }
    }
    assert fileUrls[..|fileUrls|] == fileUrls;
  }

  /** Extending a listing prefix by one name extends the new names by it exactly when it is new. */
  lemma NewNamesStep(listing: seq<string>, i: nat, represented: set<string>)
    requires i < |listing|
    ensures NewNames(listing[..i + 1], represented) ==
      if listing[i] != SidecarName && listing[i] !in represented then NewNames(listing[..i], represented) + [listing[i]]
      else NewNames(listing[..i], represented)
  {
    assert listing[..i + 1][..i] == listing[..i];
  }

  /** One more name adds one fresh file item at the end, with the next identity. */
  lemma FreshFilesSnoc(kept: seq<PageItem>, names: seq<string>, name: string, now: Timestamp, next: Uuid)
    ensures kept + FreshFiles(names + [name], now, next) ==
      (kept + FreshFiles(names, now, next)) + [File(next + |names|, name, DiskFileMetadata(now))]
  {
    assert FreshFiles(names + [name], now, next) == FreshFiles(names, now, next) + [File(next + |names|, name, DiskFileMetadata(now))];
  }

  /** After a merge, every file item names a listed entry. */
  lemma MergeFilesAreListed(items: seq<PageItem>, names: seq<string>, now: Timestamp, next: Uuid)
    ensures forall it :: it in Merge(items, Some(names), now, next).0 && it.File? ==> it.filename in names
  {
    var kept := Pruned(items, set n | n in names);
    var newItems := FreshFiles(NewNames(names, FileNames(kept)), now, next);
    forall it: PageItem | it in kept + newItems && it.File? ensures it.filename in names {
      if it !in kept {
        var k :| 0 <= k < |newItems| && newItems[k] == it;
      }
    }
  }

  /** A merge never removes, changes or reorders a text item. */
  lemma {:induction false} MergeKeepsText(items: seq<PageItem>, listing: Option<seq<string>>, now: Timestamp, next: Uuid)
    ensures TextItems(Merge(items, listing, now, next).0) == TextItems(items)
  {
    if listing.Some? {
      var names := set n | n in listing.value;
      var newItems := FreshFiles(NewNames(listing.value, FileNames(Pruned(items, names))), now, next);
      PrunedKeepsText(items, names);
      TextItemsAppend(Pruned(items, names), newItems);
      NoTextInFresh(newItems);
    }
  }

  lemma {:induction false} PrunedKeepsText(items: seq<PageItem>, names: set<string>)
    ensures TextItems(Pruned(items, names)) == TextItems(items)
  {
    if items != [] {
      PrunedKeepsText(items[1..], names);
      if Kept(items[0], names) {
        assert ([items[0]] + Pruned(items[1..], names))[1..] == Pruned(items[1..], names);
      }
    }
  }

  lemma {:induction false} TextItemsAppend(a: seq<PageItem>, b: seq<PageItem>)
    ensures TextItems(a + b) == TextItems(a) + TextItems(b)
  {
    if a == [] {
      assert a + b == b;
    } else {
      assert (a + b)[1..] == a[1..] + b;
      TextItemsAppend(a[1..], b);
    }
  }

  lemma NoTextInFresh(newItems: seq<PageItem>)
    requires forall it :: it in newItems ==> it.File?
    ensures TextItems(newItems) == []
  {
    if newItems != [] {
      assert newItems[0] in newItems;
      NoTextInFresh(newItems[1..]);
    }
  }

  /**
   * The merge appends exactly the new names, in listing order, as fresh
   * file items after the kept items; a kept prefix is the stored list with
   * unlisted file items removed and everything else in its order.
   */
  lemma MergeAppendsNewFiles(items: seq<PageItem>, names: seq<string>, now: Timestamp, next: Uuid)
    ensures |Merge(items, Some(names), now, next).0| == |KeptItems(items, names)| + |AddedNames(items, names)|
    ensures Merge(items, Some(names), now, next).0[..|KeptItems(items, names)|] == KeptItems(items, names)
    ensures Merge(items, Some(names), now, next).1 == next + |AddedNames(items, names)|
    ensures forall k :: 0 <= k < |AddedNames(items, names)| ==>
      Merge(items, Some(names), now, next).0[|KeptItems(items, names)| + k] ==
        File(next + k, AddedNames(items, names)[k], DiskFileMetadata(now))
  {
    var kept := KeptItems(items, names);
    var newItems := FreshFiles(AddedNames(items, names), now, next);
    var r := kept + newItems;
    assert Merge(items, Some(names), now, next).0 == r;
    assert r[..|kept|] == kept;
  }

  /** Every listed name other than the sidecar is represented by some file item after a merge. */
  lemma MergeRepresentsListing(items: seq<PageItem>, names: seq<string>, now: Timestamp, next: Uuid)
    ensures forall n :: n in names && n != SidecarName ==> n in FileNames(Merge(items, Some(names), now, next).0)
  {
    var kept := Pruned(items, set n | n in names);
    var added := NewNames(names, FileNames(kept));
    var newItems := FreshFiles(added, now, next);
    var r := kept + newItems;
    forall n | n in names && n != SidecarName ensures n in FileNames(r) {
      if n in FileNames(kept) {
        var it :| it in kept && it.File? && it.filename == n;
        assert it in r;
      } else {
        var k :| 0 <= k < |added| && added[k] == n;
        assert newItems[k] in r;
      }
    }
  }

  /** A list whose file items are all listed is left whole by the removal step. */
  lemma {:induction false} PrunedAllKept(items: seq<PageItem>, names: set<string>)
    requires forall it :: it in items ==> Kept(it, names)
    ensures Pruned(items, names) == items
  {
    if items != [] {
      assert items[0] in items;
      PrunedAllKept(items[1..], names);
    }
  }

  lemma {:induction false} NewNamesNone(names: seq<string>, represented: set<string>)
    requires forall n :: n in names ==> n == SidecarName || n in represented
    ensures NewNames(names, represented) == []
  {
    if names != [] {
      var init := names[..|names| - 1];
      assert forall n :: n in init ==> n in names;
      NewNamesNone(init, represented);
    }
  }

  /**
   * Merging is idempotent: merging the result again against the same
   * listing changes nothing and draws no fresh identity.
   */
  lemma MergeIdempotent(items: seq<PageItem>, listing: Option<seq<string>>, now: Timestamp, later: Timestamp, next: Uuid, next2: Uuid)
    ensures Merge(Merge(items, listing, now, next).0, listing, later, next2) == (Merge(items, listing, now, next).0, next2)
  {
    if listing.Some? {
      var names := listing.value;
      MergeFilesAreListed(items, names, now, next);
      MergeRepresentsListing(items, names, now, next);
      MergeFixed(Merge(items, listing, now, next).0, names, later, next2);
    }
  }

  /** A list whose files are exactly the listed names is a fixed point of the merge. */
  lemma MergeFixed(r: seq<PageItem>, names: seq<string>, later: Timestamp, next2: Uuid)
    requires forall it :: it in r && it.File? ==> it.filename in names
    requires forall n :: n in names && n != SidecarName ==> n in FileNames(r)
    ensures Merge(r, Some(names), later, next2) == (r, next2)
  {
    PrunedAllKept(r, set n | n in names);
    NewNamesNone(names, FileNames(r));
    assert Pruned(r, set n | n in names) + [] == r;
  }

  /**
   * When every file item of the stored list is still listed, the stored
   * list survives whole as a prefix and new files come strictly after it.
   */
  lemma MergeOfCurrentList(items: seq<PageItem>, names: seq<string>, now: Timestamp, next: Uuid)
    requires forall it :: it in items && it.File? ==> it.filename in names
    ensures var r := Merge(items, Some(names), now, next).0;
            |r| >= |items| && r[..|items|] == items &&
            forall k :: |items| <= k < |r| ==> r[k].File? && r[k].filename !in FileNames(items)
  {
    PrunedAllKept(items, set n | n in names);
    MergeAppendsNewFiles(items, names, now, next);
  }

  /**
   * A merge draws identities only upward: every resulting item is a stored
   * item or carries an identity from `next` up to the returned counter.
   */
  lemma MergeDrawsFresh(items: seq<PageItem>, listing: Option<seq<string>>, now: Timestamp, next: Uuid)
    ensures Merge(items, listing, now, next).1 >= next
    ensures forall it :: it in Merge(items, listing, now, next).0 ==>
      it in items || next <= it.Id() < Merge(items, listing, now, next).1
  {
    if listing.Some? {
      var kept := Pruned(items, set n | n in listing.value);
      var added := NewNames(listing.value, FileNames(kept));
      var newItems := FreshFiles(added, now, next);
      forall it | it in kept + newItems ensures it in items || next <= it.Id() < next + |added| {
        if it !in kept {
          var k :| 0 <= k < |newItems| && newItems[k] == it;
        }
      }
    }
  }

  /** Loading a page keeps every identity below the returned counter when all stored ones are below the given one. */
  lemma LoadPageIdsBelow(disk: Disk, url: Path, now: Timestamp, next: Uuid)
    requires LayoutIdsBelow(disk, next)
    ensures LoadPage(disk, url, now, next).1 >= next
    ensures IdsBelow(LoadPage(disk, url, now, next).0.content.items, LoadPage(disk, url, now, next).1)
  {
    var stored := ReadSidecar(disk, url);
    ReadSidecarIdsBelow(disk, url, next);
    MergeDrawsFresh(stored, ContentsOfDirectory(disk, url), now, next);
  }

  /** No two file items of a list name the same file. */
  predicate UniqueFileNames(items: seq<PageItem>)
  {
    forall i, j :: 0 <= i < j < |items| && items[i].File? && items[j].File? ==> items[i].filename != items[j].filename
  }

  /** The removal step keeps a list's file names unique. */
  lemma {:induction false} PrunedUniqueFileNames(items: seq<PageItem>, names: set<string>)
    requires UniqueFileNames(items)
    ensures UniqueFileNames(Pruned(items, names))
  {
    if items != [] {
      var rest := items[1..];
      assert UniqueFileNames(rest) by {
        forall i, j | 0 <= i < j < |rest| && rest[i].File? && rest[j].File?
          ensures rest[i].filename != rest[j].filename
        {
          assert rest[i] == items[i + 1] && rest[j] == items[j + 1];
        }
      }
      PrunedUniqueFileNames(rest, names);
      if Kept(items[0], names) {
        var tail := Pruned(rest, names);
        var r := [items[0]] + tail;
        forall i, j | 0 <= i < j < |r| && r[i].File? && r[j].File?
          ensures r[i].filename != r[j].filename
        {
          if i == 0 {
            assert r[j] == tail[j - 1] && tail[j - 1] in tail;
            var m :| 0 <= m < |rest| && rest[m] == r[j];
            assert items[m + 1] == r[j];
          } else {
            assert r[i] == tail[i - 1] && r[j] == tail[j - 1];
          }
        }
      }
    }
  }

  /** A listing without repeats adds no name twice. */
  lemma {:induction false} NewNamesNoDuplicates(listing: seq<string>, represented: set<string>)
    requires NoDuplicates(listing)
    ensures NoDuplicates(NewNames(listing, represented))
    decreases |listing|
  {
    if listing != [] {
      var init := listing[..|listing| - 1];
      var last := listing[|listing| - 1];
      assert NoDuplicates(init) by {
        forall i, j | 0 <= i < j < |init| ensures init[i] != init[j] {
          assert init[i] == listing[i] && init[j] == listing[j];
        }
      }
      NewNamesNoDuplicates(init, represented);
      assert last !in init by {
        forall i | 0 <= i < |init| ensures init[i] != last {
          assert init[i] == listing[i];
        }
      }
    }
  }

  /**
   * A merge of a list with unique file names against a listing without
   * repeats yields unique file names again.
   */
  lemma MergeUniqueFileNames(items: seq<PageItem>, names: seq<string>, now: Timestamp, next: Uuid)
    requires UniqueFileNames(items) && NoDuplicates(names)
    ensures UniqueFileNames(Merge(items, Some(names), now, next).0)
  {
    var kept := Pruned(items, set n | n in names);
    var added := NewNames(names, FileNames(kept));
    var newItems := FreshFiles(added, now, next);
    var r := kept + newItems;
    PrunedUniqueFileNames(items, set n | n in names);
    NewNamesNoDuplicates(names, FileNames(kept));
    forall i, j | 0 <= i < j < |r| && r[i].File? && r[j].File?
      ensures r[i].filename != r[j].filename
    {
      if j < |kept| {
        assert r[i] == kept[i] && r[j] == kept[j];
      } else if i >= |kept| {
        assert r[i] == newItems[i - |kept|] && r[j] == newItems[j - |kept|];
      } else {
        assert r[i] == kept[i] && r[i] in kept;
        assert r[i].filename in FileNames(kept);
        assert r[j] == newItems[j - |kept|];
        assert added[j - |kept|] in added;
      }
    }
  }

  /**
   * Under the same conditions every listed name other than the layout
   * file names exactly one file item after a merge.
   */
  lemma MergeNamesEachOnce(items: seq<PageItem>, names: seq<string>, now: Timestamp, next: Uuid)
    requires UniqueFileNames(items) && NoDuplicates(names)
    ensures forall n :: n in names && n != SidecarName ==>
      exists i :: 0 <= i < |Merge(items, Some(names), now, next).0| &&
        Merge(items, Some(names), now, next).0[i].File? && Merge(items, Some(names), now, next).0[i].filename == n
    ensures UniqueFileNames(Merge(items, Some(names), now, next).0)
  {
    var r := Merge(items, Some(names), now, next).0;
    MergeUniqueFileNames(items, names, now, next);
    MergeRepresentsListing(items, names, now, next);
    forall n | n in names && n != SidecarName
      ensures exists i :: 0 <= i < |r| && r[i].File? && r[i].filename == n
    {
      var it :| it in r && it.File? && it.filename == n;
      var i :| 0 <= i < |r| && r[i] == it;
    }
  }

  /**
   * `loadPage(from:)`: the stored list (empty when the layout file is
   * missing or does not parse) merged against the folder's visible listing.
   */
  function LoadPage(disk: Disk, url: Path, now: Timestamp, next: Uuid): (r: (Page, Uuid))
    ensures r.0.url == url
  {
    var (items, nextOut) := Merge(ReadSidecar(disk, url), ContentsOfDirectory(disk, url), now, next);
    (Page(url, PageContent(items)), nextOut)
  }

  method LoadPageFrom(disk: Disk, url: Path, now: Timestamp, next: Uuid) returns (page: Page, nextOut: Uuid)
    ensures (page, nextOut) == LoadPage(disk, url, now, next)
  {
    var content := PageContent(ReadSidecar(disk, url));
    content, nextOut := MergeFiles(content, ContentsOfDirectory(disk, url), now, next);
    page := Page(url, content);
  }

  /**
   * A folder without a usable layout file loads as fresh file items for its
   * visible entries, in listing order; a folder that cannot be listed loads
   * as an empty page.
   */
  lemma LoadPageWithoutSidecar(disk: Disk, url: Path, now: Timestamp, next: Uuid)
    requires url !in disk || SidecarName !in disk[url].entries || disk[url].layout.None?
    ensures var page := LoadPage(disk, url, now, next).0;
            page.url == url &&
            page.content.items == if url in disk then FreshFiles(NewNames(Visible(disk[url].entries), {}), now, next) else []
  {
    assert Pruned([], {}) == [];
    assert FileNames([]) == {};
  }

  /**
   * On a disk whose folders list each name once, loading a folder whose
   * layout has unique file names gives one file item per visible entry.
   */
  lemma LoadPageNamesEachOnce(disk: Disk, url: Path, now: Timestamp, next: Uuid)
    requires WellFormed(disk) && url in disk && UniqueFileNames(ReadSidecar(disk, url))
    ensures forall n :: n in Visible(disk[url].entries) ==>
      exists i :: 0 <= i < |LoadPage(disk, url, now, next).0.content.items| &&
        LoadPage(disk, url, now, next).0.content.items[i].File? && LoadPage(disk, url, now, next).0.content.items[i].filename == n
    ensures UniqueFileNames(LoadPage(disk, url, now, next).0.content.items)
  {
    var names := Visible(disk[url].entries);
    VisibleNoDuplicates(disk[url].entries);
    SidecarIsHidden();
    MergeNamesEachOnce(ReadSidecar(disk, url), names, now, next);
    assert ContentsOfDirectory(disk, url) == Some(names);
    assert LoadPage(disk, url, now, next).0.content.items == Merge(ReadSidecar(disk, url), Some(names), now, next).0;
    assert forall n :: n in names ==> n != SidecarName;
  }
}
