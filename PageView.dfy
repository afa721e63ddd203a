// The pure helpers of the page view: the breadcrumb above a page, the file
// list handed to the previewer, the image test of a file block and the
// guards of the two drop targets.

module PageView {
  import opened DataModel
  import opened Naming
  import opened NameOrder
  import opened ItemEdits

  // ---------------------------------------------------------------------
  // Breadcrumb

  /** `s` ends with `t`. */
  predicate EndsWith(s: string, t: string)
  {
    |t| <= |s| && s[|s| - |t|..] == t
  }

  /** `joined(separator:)`: starts with the first part and, with two parts or more, ends with the separator and the last. */
  function Join(parts: seq<string>, sep: string): (r: string)
    ensures parts != [] ==> parts[0] <= r
    ensures |parts| >= 2 ==> EndsWith(r, sep + parts[|parts| - 1])
    decreases |parts|
  {
    if parts == [] then ""
    else if |parts| == 1 then parts[0]
    else Join(parts[..|parts| - 1], sep) + sep + parts[|parts| - 1]
  }

  lemma JoinSnoc(parts: seq<string>, sep: string, x: string)
    requires parts != []
    ensures Join(parts + [x], sep) == Join(parts, sep) + sep + x
  {
    assert (parts + [x])[..|parts|] == parts;
  }

  /**
   * `pagePath.dropFirst(rootPath.count)`: the page's components after as
   * many leading components as the root has. The root is not checked to be
   * a prefix of the page.
   */
  function RelativeComponents(root: Path, page: Path): (r: seq<string>)
    ensures |r| == if |page| > |root| then |page| - |root| else 0
    ensures forall i :: 0 <= i < |r| ==> r[i] == page[|root| + i]
  {
    if |page| <= |root| then [] else page[|root|..]
  }

  /** The separator between breadcrumb components. */
  const CrumbSeparator: string := " > "

  /**
   * `breadcrumbText`: empty without a root; the root's name for a page no
   * deeper than the root; otherwise the root's name and the relative
   * components joined by " > ".
   */
  function BreadcrumbText(root: Option<Path>, page: Path): (r: string)
    ensures root.None? ==> r == ""
    ensures root.Some? ==> LastComponent(root.value) <= r
    ensures root.Some? && |page| <= |root.value| ==> r == LastComponent(root.value)
    ensures root.Some? && |page| > |root.value| ==> EndsWith(r, CrumbSeparator + page[|page| - 1])
  {
    match root
    case None => ""
    case Some(rootUrl) =>
      var rel := RelativeComponents(rootUrl, page);
      if rel == [] then LastComponent(rootUrl)
      else Join([LastComponent(rootUrl)] + rel, CrumbSeparator)
  }

  /**
   * One folder deeper, one crumb longer: the breadcrumb of a child folder
   * is its parent's breadcrumb, the separator and the child's name.
   */
  lemma BreadcrumbOfChild(root: Path, page: Path, name: string)
    requires |root| <= |page|
    ensures BreadcrumbText(Some(root), page + [name]) == BreadcrumbText(Some(root), page) + CrumbSeparator + name
  {
    var rel := RelativeComponents(root, page);
    var rel2 := RelativeComponents(root, page + [name]);
    assert rel2 == rel + [name];
    if rel == [] {
      assert [LastComponent(root)] + rel2 == [LastComponent(root)] + [name];
      JoinSnoc([LastComponent(root)], CrumbSeparator, name);
    } else {
      assert [LastComponent(root)] + rel2 == ([LastComponent(root)] + rel) + [name];
      JoinSnoc([LastComponent(root)] + rel, CrumbSeparator, name);
    }
  }

  /** The crumbs of a page two levels below the root, written out. */
  lemma BreadcrumbExample()
    ensures BreadcrumbText(Some(["Users", "me", "Notes"]), ["Users", "me", "Notes", "Work", "Q3"]) == "Notes > Work > Q3"
    ensures BreadcrumbText(Some(["Users", "me", "Notes"]), ["Users", "me", "Notes"]) == "Notes"
  {
    var root: Path := ["Users", "me", "Notes"];
    BreadcrumbOfChild(root, root, "Work");
    BreadcrumbOfChild(root, root + ["Work"], "Q3");
    assert root + ["Work"] + ["Q3"] == ["Users", "me", "Notes", "Work", "Q3"];
  }

  // ---------------------------------------------------------------------
  // Quick Look preview

  /** The `(id, url)` pairs of the file items, in content order; text items are skipped. */
  function FileEntries(url: Path, items: seq<PageItem>): (r: seq<(Uuid, Path)>)
    ensures |r| <= |items|
  {
    if items == [] then []
    else
      (if items[0].File? then [(items[0].fileId, url + [items[0].filename])] else []) +
      FileEntries(url, items[1..])
  }

  /** The entries of a concatenation are the entries of its parts, in order. */
  lemma {:induction false} FileEntriesAppend(url: Path, a: seq<PageItem>, b: seq<PageItem>)
    ensures FileEntries(url, a + b) == FileEntries(url, a) + FileEntries(url, b)
  {
    if a == [] {
      assert a + b == b;
    } else {
      var head := if a[0].File? then [(a[0].fileId, url + [a[0].filename])] else [];
      assert (a + b)[0] == a[0] && (a + b)[1..] == a[1..] + b;
      assert FileEntries(url, a + b) == head + FileEntries(url, a[1..] + b);
      FileEntriesAppend(url, a[1..], b);
      assert head + (FileEntries(url, a[1..]) + FileEntries(url, b)) == (head + FileEntries(url, a[1..])) + FileEntries(url, b);
    }
  }

  /** An entry is the identity and URL of some file item, and every file item has its entry. */
  lemma {:induction false} FileEntriesMembers(url: Path, items: seq<PageItem>)
    ensures forall e :: e in FileEntries(url, items) <==>
      exists i :: 0 <= i < |items| && items[i].File? && e == (items[i].fileId, url + [items[i].filename])
  {
    if items != [] {
      FileEntriesMembers(url, items[1..]);
      forall e | e in FileEntries(url, items)
        ensures exists i :: 0 <= i < |items| && items[i].File? && e == (items[i].fileId, url + [items[i].filename])
      {
        if e !in FileEntries(url, items[1..]) {
          assert items[0].File? && e == (items[0].fileId, url + [items[0].filename]);
        } else {
          var i :| 0 <= i < |items[1..]| && items[1..][i].File? && e == (items[1..][i].fileId, url + [items[1..][i].filename]);
          assert items[i + 1] == items[1..][i];
        }
      }
      forall i | 0 <= i < |items| && items[i].File?
        ensures (items[i].fileId, url + [items[i].filename]) in FileEntries(url, items)
      {
        if i > 0 {
          assert items[1..][i - 1] == items[i];
        }
      }
    }
  }

  /** `firstIndex(where: { $0.0 == id })` over the entries. */
  function EntryIndex(entries: seq<(Uuid, Path)>, id: Uuid): (r: Option<nat>)
    ensures r.Some? ==> r.value < |entries| && entries[r.value].0 == id
    ensures r.Some? ==> forall j :: 0 <= j < r.value ==> entries[j].0 != id
    ensures r.None? ==> forall j :: 0 <= j < |entries| ==> entries[j].0 != id
  {
    FirstWhere(entries, EntryId, id)
  }

  /** The identity of an entry, as a function value. */
  function EntryId(e: (Uuid, Path)): Uuid { e.0 }

  /** The URLs of the entries, in order. */
  function EntryUrls(entries: seq<(Uuid, Path)>): (r: seq<Path>)
    ensures |r| == |entries| && forall i :: 0 <= i < |entries| ==> r[i] == entries[i].1
  {
    seq(|entries|, i requires 0 <= i < |entries| => entries[i].1)
  }

  /** What the previewer is opened with. */
  datatype Preview = Preview(urls: seq<Path>, selectedIndex: nat)

  /**
   * `showQuickLookIfPossible`: the page's file URLs and the position of the
   * selected item among them; None when nothing is selected or the
   * selection is not a file item of the page.
   */
  function QuickLookPreview(page: Page, selected: Option<Uuid>): (r: Option<Preview>)
    ensures r.Some? ==> r.value.selectedIndex < |r.value.urls|
  {
    match selected
    case None => None
    case Some(id) =>
      var entries := FileEntries(page.url, page.content.items);
      match EntryIndex(entries, id)
      case None => None
      case Some(k) => Some(Preview(EntryUrls(entries), k))
  }

  /**
   * The preview opens exactly when a file item of the page is selected, and
   * then at that file's URL; a selected text item opens nothing.
   */
  lemma QuickLookPreviewSelects(page: Page, selected: Option<Uuid>)
    ensures QuickLookPreview(page, selected).Some? <==>
      selected.Some? && exists i :: 0 <= i < |page.content.items| && page.content.items[i].File? && page.content.items[i].fileId == selected.value
    ensures QuickLookPreview(page, selected).Some? ==>
      exists i :: 0 <= i < |page.content.items| && page.content.items[i].File? && page.content.items[i].fileId == selected.value &&
        QuickLookPreview(page, selected).value.urls[QuickLookPreview(page, selected).value.selectedIndex] == page.url + [page.content.items[i].filename]
  {
    var items := page.content.items;
    var entries := FileEntries(page.url, items);
    FileEntriesMembers(page.url, items);
    if selected.Some? {
      var id := selected.value;
      match EntryIndex(entries, id)
      case None =>
        forall i | 0 <= i < |items| && items[i].File?
          ensures items[i].fileId != id
        {
          var e := (items[i].fileId, page.url + [items[i].filename]);
          assert e in entries;
        }
      case Some(k) =>
        assert entries[k] in entries;
    }
  }

  /** The preview lists the URL of every file item of the page and nothing else. */
  lemma QuickLookPreviewUrls(page: Page, id: Uuid)
    requires QuickLookPreview(page, Some(id)).Some?
    ensures forall u :: u in QuickLookPreview(page, Some(id)).value.urls <==>
      exists i :: 0 <= i < |page.content.items| && page.content.items[i].File? && u == page.url + [page.content.items[i].filename]
  {
    var items := page.content.items;
    var entries := FileEntries(page.url, items);
    var urls := QuickLookPreview(page, Some(id)).value.urls;
    FileEntriesMembers(page.url, items);
    forall u | u in urls
      ensures exists i :: 0 <= i < |items| && items[i].File? && u == page.url + [items[i].filename]
    {
      var k :| 0 <= k < |urls| && urls[k] == u;
      assert entries[k] in entries;
    }
    forall i | 0 <= i < |items| && items[i].File?
      ensures page.url + [items[i].filename] in urls
    {
      var e := (items[i].fileId, page.url + [items[i].filename]);
      assert e in entries;
      var k :| 0 <= k < |entries| && entries[k] == e;
      assert urls[k] == e.1;
    }
  }

  // ---------------------------------------------------------------------
  // Image files

  /** The extensions a file block renders as an image, in lower case. */
  const ImageExtensions: seq<string> := ["jpg", "jpeg", "png", "gif", "heic", "webp"]

  /** `FileBlockView.isImage`: the lower-cased extension is an image extension. */
  predicate IsImage(filename: string)
    ensures IsImage(filename) ==> SplitExtension(filename).0 != [] && 3 <= |SplitExtension(filename).1| <= 4
  {
    Fold(SplitExtension(filename).1) in ImageExtensions
  }

  /** For a name with a base and a dot-free extension, the test looks at that extension only, in any case. */
  lemma IsImageByExtension(base: string, ext: string)
    requires base != [] && ext != []
    requires forall j :: 0 <= j < |ext| ==> ext[j] != '.'
    ensures IsImage(base + "." + ext) <==> Fold(ext) in ImageExtensions
  {
    SplitOfJoined(base, ext);
  }

  /** An upper-case image extension counts. */
  lemma IsImageExample()
    ensures IsImage("photo.JPG")
  {
    IsImageByExtension("photo", "JPG");
    assert "photo" + "." + "JPG" == "photo.JPG";
    assert ImageExtensions[0] == "jpg";
    assert Fold("JPG") == "jpg" by {
      assert Fold("G") == "g";
      assert Fold("PG") == "pg";
    }
  }

  /** A text file is not an image. */
  lemma IsNotImageExample()
    ensures !IsImage("notes.txt")
  {
    IsImageByExtension("notes", "txt");
    assert "notes" + "." + "txt" == "notes.txt";
    assert forall e :: e in ImageExtensions ==> e[0] != 't';
    assert Fold("txt")[0] == 't';
  }

  // ---------------------------------------------------------------------
  // Drop targets

  /**
   * `PageItemDropDelegate.dropEntered`: the move it asks for, dragged item
   * onto the target item, when something is dragged and it is not the
   * target itself.
   */
  function DropEnteredMove(dragging: Option<Uuid>, target: PageItem): (r: Option<(Uuid, Uuid)>)
    ensures r.Some? <==> dragging.Some? && dragging.value != target.Id()
    ensures r.Some? ==> r.value == (dragging.value, target.Id())
  {
    if dragging.Some? && dragging.value != target.Id() then Some((dragging.value, target.Id())) else None
  }

  /**
   * A requested move whose two items are both on the page always happens,
   * and leaves the dragged item immediately before the target.
   */
  lemma DropEnteredMovesBeforeTarget(items: seq<PageItem>, dragging: Option<Uuid>, target: PageItem)
    requires DropEnteredMove(dragging, target).Some?
    requires FirstIndex(items, dragging.value).Some? && FirstIndex(items, target.Id()).Some?
    ensures MovedItems(items, dragging.value, target.Id()).Some?
    ensures var from := FirstIndex(items, dragging.value).value;
            var to := FirstIndex(items, target.Id()).value;
            var r := MovedItems(items, dragging.value, target.Id()).value;
            r[AdjustedIndex(from, to)].Id() == dragging.value && r[AdjustedIndex(from, to) + 1].Id() == target.Id()
  {
    MovedItemsPlacement(items, dragging.value, target.Id());
  }

  /** The guard only spares calls the move would decline: an item moved onto itself stays put. */
  lemma DropOntoItselfDeclined(items: seq<PageItem>, id: Uuid)
    ensures MovedItems(items, id, id).None?
  {
  }

  /** The outcome of a drop: the move-to-end it asks for, the new drag state, and whether it was accepted. */
  datatype DropOutcome = DropOutcome(moveToEnd: Option<Uuid>, dragging: Option<Uuid>, accepted: bool)

  /** `PageItemDropDelegate.performDrop`: clears the drag and accepts; the move already happened on entry. */
  function DropOnItem(dragging: Option<Uuid>): (r: DropOutcome)
    ensures r.moveToEnd.None? && r.dragging.None? && r.accepted
  {
    DropOutcome(None, None, true)
  }

  /**
   * `PageItemDropToEndDelegate.performDrop`: asks to move the dragged item,
   * if any, to the end; always clears the drag and accepts.
   */
  function DropToEnd(dragging: Option<Uuid>): (r: DropOutcome)
    ensures r.moveToEnd == dragging
    ensures r.dragging.None? && r.accepted
  {
    DropOutcome(dragging, None, true)
  }

  /** After any drop the drag is over: a second drop at the end asks for nothing. */
  lemma SecondDropIsIdle(dragging: Option<Uuid>)
    ensures DropToEnd(DropToEnd(dragging).dragging).moveToEnd.None?
    ensures DropToEnd(DropOnItem(dragging).dragging).moveToEnd.None?
  {
  }

  /** A drop at the end of a page that holds the dragged item puts that item last. */
  lemma DropToEndPutsLast(items: seq<PageItem>, dragging: Option<Uuid>)
    requires DropToEnd(dragging).moveToEnd.Some?
    requires FirstIndex(items, DropToEnd(dragging).moveToEnd.value).Some?
    ensures MovedToEnd(items, dragging.value).Some?
    ensures MovedToEnd(items, dragging.value).value[|items| - 1].Id() == dragging.value
  {
  }
}
