// The page engine: the published page list and tree, the folder monitors,
// the item edits that persist a page, and the file operations on page
// folders.

module ContextManager {
  import opened DataModel
  import opened FileSystem
  import opened NameOrder
  import opened Naming
  import opened Reconciler
  import opened ItemEdits
  import opened TreeBuilder

  /** A folder monitor: an opaque handle; what it watches and how is not modelled. */
  datatype Monitor = Monitor(handle: nat)

  /** `pages.firstIndex(where: { $0.id == id })`. */
  function PageIndex(pages: seq<Page>, id: Path): (r: Option<nat>)
    ensures r.Some? ==> r.value < |pages| && pages[r.value].Id() == id
    ensures r.Some? ==> forall j :: 0 <= j < r.value ==> pages[j].Id() != id
    ensures r.None? ==> forall j :: 0 <= j < |pages| ==> pages[j].Id() != id
  {
    FirstWhere(pages, PageId, id)
  }

  /** `page(for:)`: the first page with that URL. */
  function PageFor(pages: seq<Page>, url: Path): (r: Option<Page>)
    ensures r.Some? ==> r.value in pages && r.value.url == url
    ensures r.None? ==> forall p :: p in pages ==> p.url != url
  {
    if pages == [] then None
    else if pages[0].url == url then Some(pages[0])
    else PageFor(pages[1..], url)
  }

  /**
   * Because a page's identity is its URL, the lookup by identity the edits
   * use and the lookup by URL of `page(for:)` find the same page.
   */
  lemma {:induction false} LookupsAgree(pages: seq<Page>, url: Path)
    ensures PageIndex(pages, url).Some? <==> PageFor(pages, url).Some?
    ensures PageIndex(pages, url).Some? ==> pages[PageIndex(pages, url).value] == PageFor(pages, url).value
  {
    if pages != [] && pages[0].url != url {
      LookupsAgree(pages[1..], url);
    }
  }

  /** `savePage(_:)` on the disk: the page's item list becomes its folder's layout. */
  function SavedDisk(disk: Disk, page: Page): (r: Disk)
    ensures page.url in disk ==> ReadSidecar(r, page.url) == page.content.items
    ensures page.url !in disk ==> r == disk
    ensures r.Keys == disk.Keys && forall q :: q in disk && q != page.url ==> r[q] == disk[q]
  {
    WriteSidecar(disk, page.url, page.content.items)
  }

  /** Saving a page never changes what any folder lists. */
  lemma SavedDiskKeepsListings(disk: Disk, page: Page)
    ensures forall q :: ContentsOfDirectory(SavedDisk(disk, page), q) == ContentsOfDirectory(disk, q)
  {
    forall q {
      WriteSidecarKeepsListings(disk, page.url, page.content.items, q);
    }
  }

  /** An edit of an item list; None when its guard makes the engine return. */
  type Edit = seq<PageItem> -> Option<seq<PageItem>>

  /**
   * The shared shape of the item edits: find the page by identity, compute
   * the new item list, store it in that page and save the page. A missing
   * page, or an edit that declines, changes nothing.
   */
  function EditPage(pages: seq<Page>, disk: Disk, id: Path, edit: Edit): (r: (seq<Page>, Disk))
    ensures UrlSeq(r.0) == UrlSeq(pages)
    ensures PageIndex(pages, id).None? ==> r == (pages, disk)
    ensures PageIndex(pages, id).Some? && edit(pages[PageIndex(pages, id).value].content.items).None? ==> r == (pages, disk)
    ensures PageIndex(pages, id).Some? && edit(pages[PageIndex(pages, id).value].content.items).Some? ==>
      var k := PageIndex(pages, id).value;
      var items := edit(pages[k].content.items).value;
      r.0[k].content.items == items &&
      (forall j :: 0 <= j < |pages| && j != k ==> r.0[j] == pages[j]) &&
      (id in disk ==> ReadSidecar(r.1, id) == items) &&
      r.1.Keys == disk.Keys && (forall q :: q in disk && q != id ==> r.1[q] == disk[q])
  {
    match PageIndex(pages, id)
    case None => (pages, disk)
    case Some(k) =>
      match edit(pages[k].content.items)
      case None => (pages, disk)
      case Some(items) =>
        var page := Page(pages[k].url, PageContent(items));
        (pages[k := page], SavedDisk(disk, page))
  }

  function UpdateTextEdit(id: Uuid, newText: string): Edit
  {
    items => UpdatedText(items, id, newText)
  }

  function AddTextBlockEdit(id: Uuid): Edit
  {
    items => Some(WithTextBlock(items, id))
  }

  function MoveEdit(sourceId: Uuid, destinationId: Uuid): Edit
  {
    items => MovedItems(items, sourceId, destinationId)
  }

  function MoveToEndEdit(sourceId: Uuid): Edit
  {
    items => MovedToEnd(items, sourceId)
  }

  function DeleteEdit(id: Uuid): Edit
  {
    items => DeletedItem(items, id)
  }

  /**
   * `deleteItem(at:in:)`: a file item's file is removed from the page
   * folder first; then the item goes and the page is saved.
   */
  function DeleteOutcome(pages: seq<Page>, disk: Disk, id: Path, itemId: Uuid): (r: (seq<Page>, Disk))
    ensures UrlSeq(r.0) == UrlSeq(pages)
    ensures PageIndex(pages, id).None? ==> r == (pages, disk)
    ensures PageIndex(pages, id).Some? ==>
      var items := pages[PageIndex(pages, id).value].content.items;
      match DeletedFileName(items, itemId)
      case None => r == EditPage(pages, disk, id, DeleteEdit(itemId))
      case Some(f) => r == EditPage(pages, RemoveItem(disk, id + [f]), id, DeleteEdit(itemId))
  {
    match PageIndex(pages, id)
    case None => (pages, disk)
    case Some(k) =>
      match DeletedFileName(pages[k].content.items, itemId)
      case None => EditPage(pages, disk, id, DeleteEdit(itemId))
      case Some(f) => EditPage(pages, RemoveItem(disk, id + [f]), id, DeleteEdit(itemId))
  }

  /** Deleting a text item, or an item that is not there, leaves every folder listing as it was. */
  lemma DeleteTextKeepsFiles(pages: seq<Page>, disk: Disk, id: Path, itemId: Uuid)
    requires PageIndex(pages, id).Some? ==> DeletedFileName(pages[PageIndex(pages, id).value].content.items, itemId).None?
    ensures forall q :: ContentsOfDirectory(DeleteOutcome(pages, disk, id, itemId).1, q) == ContentsOfDirectory(disk, q)
  {
    match PageIndex(pages, id)
    case None =>
    case Some(k) =>
      var items := pages[k].content.items;
      if DeletedItem(items, itemId).Some? {
        SavedDiskKeepsListings(disk, Page(pages[k].url, PageContent(DeletedItem(items, itemId).value)));
      }
  }

  /**
   * Deleting a file item removes its file: afterwards nothing of that name
   * exists in the page folder (the layout file itself excepted, which the
   * save writes back).
   */
  lemma DeleteFileRemovesFile(pages: seq<Page>, disk: Disk, id: Path, itemId: Uuid)
    requires PageIndex(pages, id).Some?
    requires DeletedFileName(pages[PageIndex(pages, id).value].content.items, itemId).Some?
    ensures var f := DeletedFileName(pages[PageIndex(pages, id).value].content.items, itemId).value;
            f != SidecarName ==> !FileExists(DeleteOutcome(pages, disk, id, itemId).1, id + [f])
  {
    var k := PageIndex(pages, id).value;
    var items := pages[k].content.items;
    var f := DeletedFileName(items, itemId).value;
    var p := id + [f];
    var removed := RemoveItem(disk, p);
    var page := Page(pages[k].url, PageContent(DeletedItem(items, itemId).value));
    var saved := SavedDisk(removed, page);
    ParentOfChild(id, f);
    assert DeleteOutcome(pages, disk, id, itemId).1 == saved;
    if f != SidecarName {
      assert !FileExists(removed, p) by {
        if FileExists(disk, p) {
        } else {
          assert removed == disk;
        }
      }
      if id in removed {
        var d := removed[id];
        assert saved[id].entries == if SidecarName in d.entries then d.entries else d.entries + [SidecarName];
      }
    }
  }

  /** The page list keeps its URLs in order, so its order by name and its URL set are kept. */
  lemma {:induction false} SameUrls(a: seq<Page>, b: seq<Page>)
    requires UrlSeq(a) == UrlSeq(b)
    ensures PageUrls(a) == PageUrls(b)
    ensures SortedByName(a, PageName) ==> SortedByName(b, PageName)
    decreases |a|
  {
    assert |a| == |b|;
    assert forall i :: 0 <= i < |a| ==> a[i].url == b[i].url;
    if a != [] {
      var n := |a| - 1;
      assert UrlSeq(a[..n]) == UrlSeq(b[..n]);
      SameUrls(a[..n], b[..n]);
    }
  }

  /** Distinct URLs: every page of the list is the only one for its folder. */
  predicate DistinctUrls(pages: seq<Page>)
  {
    forall i, j :: 0 <= i < j < |pages| ==> pages[i].url != pages[j].url
  }

  lemma CountAtTwo<T>(s: seq<T>, i: nat, j: nat)
    requires i < j < |s| && s[i] == s[j]
    ensures multiset(s)[s[i]] >= 2
  {
    assert s == s[..j] + s[j..];
    assert s[i] in multiset(s[..j]);
    assert s[j] in multiset(s[j..]);
  }

  lemma CountOnce<T>(s: seq<T>, x: T)
    requires multiset(s)[x] >= 2
    ensures exists i, j :: 0 <= i < j < |s| && s[i] == x && s[j] == x
  {
    var i :| 0 <= i < |s| && s[i] == x;
    assert s == s[..i] + [x] + s[i + 1..];
    if x in s[..i] {
      var i' :| 0 <= i' < i && s[..i][i'] == x;
      assert s[i'] == x;
    } else {
      assert x in multiset(s[i + 1..]);
      var j' :| 0 <= j' < |s[i + 1..]| && s[i + 1..][j'] == x;
      assert s[i + 1 + j'] == x;
    }
  }

  /** Reordering a list with distinct URLs keeps them distinct. */
  lemma DistinctUrlsPermutation(a: seq<Page>, b: seq<Page>)
    requires multiset(a) == multiset(b) && DistinctUrls(a)
    ensures DistinctUrls(b)
  {
    forall i, j | 0 <= i < j < |b| ensures b[i].url != b[j].url {
      if b[i].url == b[j].url {
        assert b[i] in multiset(a) && b[j] in multiset(a);
        if b[i] == b[j] {
          CountAtTwo(b, i, j);
          CountOnce(a, b[i]);
        }
      }
    }
  }

  lemma PageUrlsPermutation(a: seq<Page>, b: seq<Page>)
    requires multiset(a) == multiset(b)
    ensures PageUrls(a) == PageUrls(b)
  {
    PageUrlsMembers(a);
    PageUrlsMembers(b);
    forall u | u in PageUrls(a) ensures u in PageUrls(b) {
      var i :| 0 <= i < |a| && a[i].url == u;
      assert a[i] in multiset(b);
    }
    forall u | u in PageUrls(b) ensures u in PageUrls(a) {
      var i :| 0 <= i < |b| && b[i].url == u;
      assert b[i] in multiset(a);
    }
  }

  /**
   * The monitor map after a reload: the folders seen keep the monitor
   * they had, and the others get a new one where opening it succeeds;
   * folders not seen lose theirs.
   */
  function Monitored(monitors: map<Path, Monitor>, seen: set<Path>, open: Path -> Option<Monitor>): (r: map<Path, Monitor>)
    ensures r.Keys <= seen
  {
    map u | u in seen && (u in monitors || open(u).Some?) :: if u in monitors then monitors[u] else open(u).value
  }

  /**
   * A folder seen keeps the monitor it had; a folder seen without one is
   * monitored exactly when opening a monitor succeeds, and then by that
   * monitor.
   */
  lemma MonitoredKeeps(monitors: map<Path, Monitor>, seen: set<Path>, open: Path -> Option<Monitor>)
    ensures forall u :: u in seen && u in monitors ==> u in Monitored(monitors, seen, open) && Monitored(monitors, seen, open)[u] == monitors[u]
    ensures forall u :: u in seen && u !in monitors ==> (u in Monitored(monitors, seen, open) <==> open(u).Some?)
    ensures forall u :: u in Monitored(monitors, seen, open) && u !in monitors ==> Monitored(monitors, seen, open)[u] == open(u).value
  {
  }

  /** The monitor map part way through the loop: the folders in `done` have been given a monitor if they lacked one. */
  function WithMonitors(monitors: map<Path, Monitor>, done: set<Path>, open: Path -> Option<Monitor>): map<Path, Monitor>
  {
    map u | u in monitors.Keys + done && (u in monitors || open(u).Some?) :: if u in monitors then monitors[u] else open(u).value
  }

  /** What `reload(from:)` publishes when the root can be listed. */
  datatype Reloaded = Reloaded(pages: seq<Page>, tree: seq<PageNode>, monitors: map<Path, Monitor>, next: Uuid)

  /**
   * `reload(from:)`: walks the root's child folders, sorts the pages and
   * the top-level nodes by name, and brings the monitor map in line with
   * the folders seen. None when the root cannot be listed.
   */
  function ReloadOf(disk: Disk, root: Path, now: Timestamp, next: Uuid, monitors: map<Path, Monitor>, open: Path -> Option<Monitor>): (r: Option<Reloaded>)
    ensures r.None? <==> root !in disk
  {
    if root !in disk then None
    else
      var walk := WalkFolders(disk, root, ChildFolders(disk, root));
      var loaded := PagesOf(disk, walk.folders, now, next);
      Some(Reloaded(SortByName(loaded.0, PageName), SortByName(walk.nodes, NodeName),
                    Monitored(monitors, PageUrls(loaded.0), open), loaded.1))
  }

  /**
   * The walk `reload(from:)` makes over the root's child folders: the
   * top-level nodes, the pages in visiting order, the folders seen and the
   * next unused identity.
   */
  function RootLoad(disk: Disk, root: Path, now: Timestamp, next: Uuid): (seq<PageNode>, seq<Page>, set<Path>, Uuid)
    requires root in disk
  {
    var walk := WalkFolders(disk, root, ChildFolders(disk, root));
    var loaded := PagesOf(disk, walk.folders, now, next);
    (walk.nodes, loaded.0, PageUrls(loaded.0), loaded.1)
  }

  /** The loop of `reload(from:)` over the root's child folders, each loaded with `loadNode`. */
  method LoadRoot(disk: Disk, root: Path, now: Timestamp, next: Uuid) returns (tree: seq<PageNode>, pages: seq<Page>, seen: set<Path>, nextOut: Uuid)
    requires root in disk
    ensures (tree, pages, seen, nextOut) == RootLoad(disk, root, now, next)
  {
    var directoryContents := ChildFolders(disk, root);
    tree, pages, seen, nextOut := LoadFolders(disk, root, directoryContents, now, next, [], {});
    RootLoadFromEmpty(disk, root, now, next, tree, pages, seen, nextOut);
  }

  /** `LoadFolders` started from no pages and no folders seen computes `RootLoad`. */
  lemma RootLoadFromEmpty(disk: Disk, root: Path, now: Timestamp, next: Uuid,
                          tree: seq<PageNode>, pages: seq<Page>, seen: set<Path>, nextOut: Uuid)
    requires root in disk
    requires tree == WalkFolders(disk, root, ChildFolders(disk, root)).nodes
    requires pages == [] + PagesOf(disk, WalkFolders(disk, root, ChildFolders(disk, root)).folders, now, next).0
    requires nextOut == PagesOf(disk, WalkFolders(disk, root, ChildFolders(disk, root)).folders, now, next).1
    requires seen == {} + PageUrls(PagesOf(disk, WalkFolders(disk, root, ChildFolders(disk, root)).folders, now, next).0)
    ensures (tree, pages, seen, nextOut) == RootLoad(disk, root, now, next)
  {
    var loaded := PagesOf(disk, WalkFolders(disk, root, ChildFolders(disk, root)).folders, now, next);
    assert pages == loaded.0 by {
      assert [] + loaded.0 == loaded.0;
    }
    assert seen == PageUrls(loaded.0) by {
      assert {} + PageUrls(loaded.0) == PageUrls(loaded.0);
    }
  }

  /** What the walk from the root computes is what `ReloadOf` describes. */
  lemma ReloadOfLoaded(disk: Disk, root: Path, now: Timestamp, next: Uuid, monitors: map<Path, Monitor>, open: Path -> Option<Monitor>,
                       tree: seq<PageNode>, pages: seq<Page>, seen: set<Path>, nextOut: Uuid)
    requires root in disk
    requires (tree, pages, seen, nextOut) == RootLoad(disk, root, now, next)
    ensures ReloadOf(disk, root, now, next, monitors, open).Some?
    ensures ReloadOf(disk, root, now, next, monitors, open).value.pages == SortByName(pages, PageName)
    ensures ReloadOf(disk, root, now, next, monitors, open).value.tree == SortByName(tree, NodeName)
    ensures ReloadOf(disk, root, now, next, monitors, open).value.monitors == Monitored(monitors, seen, open)
    ensures ReloadOf(disk, root, now, next, monitors, open).value.next == nextOut
  {
  }

  /**
   * After a reload the pages and the top-level nodes are sorted by name,
   * every node is well shaped, the pages are those of the folders visited
   * (in some order), and every monitored folder is one of them.
   */
  lemma ReloadOfShape(disk: Disk, root: Path, now: Timestamp, next: Uuid, monitors: map<Path, Monitor>, open: Path -> Option<Monitor>)
    requires root in disk
    ensures var r := ReloadOf(disk, root, now, next, monitors, open).value;
            var walk := WalkFolders(disk, root, ChildFolders(disk, root));
            SortedByName(r.pages, PageName) && SortedByName(r.tree, NodeName) &&
            (forall n :: n in r.tree ==> WellShaped(n)) &&
            multiset(r.pages) == multiset(PagesOf(disk, walk.folders, now, next).0) &&
            PageUrls(r.pages) == PageUrls(PagesOf(disk, walk.folders, now, next).0) &&
            r.monitors.Keys <= PageUrls(r.pages)
  {
    var walk := WalkFolders(disk, root, ChildFolders(disk, root));
    var loaded := PagesOf(disk, walk.folders, now, next);
    SortByNameSorted(loaded.0, PageName);
    SortByNameSorted(walk.nodes, NodeName);
    WalkFoldersWellShaped(disk, root, ChildFolders(disk, root));
    var tree := SortByName(walk.nodes, NodeName);
    forall n | n in tree ensures WellShaped(n) {
      assert n in multiset(walk.nodes);
    }
    PageUrlsPermutation(loaded.0, SortByName(loaded.0, PageName));
  }

  /**
   * On a disk where no folder lists a name twice, a reload publishes one
   * page per visited folder: no two pages share a URL, and the seen set is
   * exactly the visited folders.
   */
  lemma ReloadPagesOnce(disk: Disk, root: Path, now: Timestamp, next: Uuid, monitors: map<Path, Monitor>, open: Path -> Option<Monitor>)
    requires root in disk && WellFormed(disk)
    ensures DistinctUrls(ReloadOf(disk, root, now, next, monitors, open).value.pages)
    ensures |ReloadOf(disk, root, now, next, monitors, open).value.pages| == |WalkFolders(disk, root, ChildFolders(disk, root)).folders|
  {
    var walk := WalkFolders(disk, root, ChildFolders(disk, root));
    var loaded := PagesOf(disk, walk.folders, now, next);
    ChildFoldersNoDuplicates(disk, root);
    WalkFoldersVisitsOnce(disk, root, ChildFolders(disk, root));
    assert DistinctUrls(loaded.0) by {
      forall i, j | 0 <= i < j < |loaded.0| ensures loaded.0[i].url != loaded.0[j].url {
        assert loaded.0[i].url == walk.folders[i] && loaded.0[j].url == walk.folders[j];
      }
    }
    DistinctUrlsPermutation(loaded.0, SortByName(loaded.0, PageName));
  }

  /**
   * The engine's invariant over its state: pages and top-level nodes
   * sorted by name, every node well shaped, only page folders monitored,
   * and the identity counter above every identity on a page or in a stored
   * layout, so a drawn identity is always new.
   */
  ghost predicate ValidState(pages: seq<Page>, tree: seq<PageNode>, monitors: map<Path, Monitor>, disk: Disk, next: Uuid)
  {
    monitors.Keys <= PageUrls(pages) &&
    SortedByName(pages, PageName) && SortedByName(tree, NodeName) &&
    (forall n :: n in tree ==> WellShaped(n)) &&
    PagesIdsBelow(pages, next) && LayoutIdsBelow(disk, next)
  }

  /** Replacing one page's items by items below the counter, and saving it, keeps the invariant. */
  lemma CommitKeepsValid(pages: seq<Page>, tree: seq<PageNode>, monitors: map<Path, Monitor>, disk: Disk, next: Uuid, k: nat, items: seq<PageItem>)
    requires ValidState(pages, tree, monitors, disk, next) && k < |pages| && IdsBelow(items, next)
    ensures ValidState(pages[k := Page(pages[k].url, PageContent(items))], tree, monitors,
                       SavedDisk(disk, Page(pages[k].url, PageContent(items))), next)
  {
    var page := Page(pages[k].url, PageContent(items));
    SameUrls(pages, pages[k := page]);
    PagesIdsBelowUpdate(pages, k, page, next);
    WriteSidecarIdsBelow(disk, page.url, items, next);
  }

  /** Drawing one identity keeps the invariant. */
  lemma BumpKeepsValid(pages: seq<Page>, tree: seq<PageNode>, monitors: map<Path, Monitor>, disk: Disk, next: Uuid)
    requires ValidState(pages, tree, monitors, disk, next)
    ensures ValidState(pages, tree, monitors, disk, next + 1)
  {
    LayoutIdsBelowMono(disk, next, next + 1);
  }

  /** A change of the disk that adds no layout keeps the invariant. */
  lemma DiskChangeKeepsValid(pages: seq<Page>, tree: seq<PageNode>, monitors: map<Path, Monitor>, disk: Disk, disk': Disk, next: Uuid)
    requires ValidState(pages, tree, monitors, disk, next)
    requires forall q :: q in disk' && disk'[q].layout.Some? ==> q in disk && disk'[q].layout == disk[q].layout
    ensures ValidState(pages, tree, monitors, disk', next)
  {
  }

  /** A reload of a disk whose layouts lie below the counter ends in a state that keeps the invariant. */
  lemma ReloadValid(disk: Disk, root: Path, now: Timestamp, next: Uuid, monitors: map<Path, Monitor>, open: Path -> Option<Monitor>)
    requires root in disk && LayoutIdsBelow(disk, next)
    ensures ValidState(ReloadOf(disk, root, now, next, monitors, open).value.pages, ReloadOf(disk, root, now, next, monitors, open).value.tree,
                       ReloadOf(disk, root, now, next, monitors, open).value.monitors, disk, ReloadOf(disk, root, now, next, monitors, open).value.next)
  {
    ReloadOfShape(disk, root, now, next, monitors, open);
    ReloadIdsBelow(disk, root, now, next, monitors, open);
    LayoutIdsBelowMono(disk, next, ReloadOf(disk, root, now, next, monitors, open).value.next);
  }

  /**
   * A reload whose stored layouts all lie below the counter leaves every
   * page's identities below the counter it ends with.
   */
  lemma ReloadIdsBelow(disk: Disk, root: Path, now: Timestamp, next: Uuid, monitors: map<Path, Monitor>, open: Path -> Option<Monitor>)
    requires root in disk && LayoutIdsBelow(disk, next)
    ensures ReloadOf(disk, root, now, next, monitors, open).value.next >= next
    ensures PagesIdsBelow(ReloadOf(disk, root, now, next, monitors, open).value.pages, ReloadOf(disk, root, now, next, monitors, open).value.next)
  {
    var walk := WalkFolders(disk, root, ChildFolders(disk, root));
    var loaded := PagesOf(disk, walk.folders, now, next);
    PagesOfIdsBelow(disk, walk.folders, now, next);
    var sorted := SortByName(loaded.0, PageName);
    forall p | p in sorted ensures IdsBelow(p.content.items, loaded.1) {
      assert p in multiset(sorted);
      assert p in loaded.0;
    }
  }

  /**
   * The engine (`ContextManager`). The file system it works on is a field
   * here, and `UUID()` draws the next identity from `nextUuid`.
   */
  class ContextManager {
    var pages: seq<Page>
    var pageTree: seq<PageNode>
    var rootMonitor: Option<Monitor>
    var pageMonitors: map<Path, Monitor>
    var rootUrl: Option<Path>
    var disk: Disk
    var nextUuid: Uuid

    /** The engine's invariant, ValidState, over the fields. */
    ghost predicate Valid()
      reads this
    {
      ValidState(pages, pageTree, pageMonitors, disk, nextUuid)
    }

    /** `firstUuid` stands for the freshness of `UUID()`: it lies above every stored identity. */
    constructor (disk: Disk, firstUuid: Uuid)
      requires LayoutIdsBelow(disk, firstUuid)
      ensures Valid()
      ensures pages == [] && pageTree == [] && rootMonitor.None? && pageMonitors == map[] && rootUrl.None?
      ensures this.disk == disk && nextUuid == firstUuid
    {
      pages := [];
      pageTree := [];
      rootMonitor := None;
      pageMonitors := map[];
      rootUrl := None;
      this.disk := disk;
      nextUuid := firstUuid;
    }

    /** `page(for:)`. */
    function PageForUrl(url: Path): (r: Option<Page>)
      reads this
      ensures r.Some? ==> r.value in pages && r.value.url == url
      ensures r.None? ==> forall p :: p in pages ==> p.url != url
    {
      PageFor(pages, url)
    }

    /** `savePage(_:)`. */
    method SavePage(page: Page)
      modifies this`disk
      ensures disk == SavedDisk(old(disk), page)
    {
      disk := WriteSidecar(disk, page.url, page.content.items);
    }

    /** Stores `items` in page `k` and saves that page. */
    method Commit(k: nat, items: seq<PageItem>)
      requires Valid() && k < |pages| && IdsBelow(items, nextUuid)
      modifies this`pages, this`disk
      ensures Valid()
      ensures pages == old(pages)[k := Page(old(pages)[k].url, PageContent(items))]
      ensures disk == SavedDisk(old(disk), pages[k])
    {
      CommitKeepsValid(pages, pageTree, pageMonitors, disk, nextUuid, k, items);
      pages := pages[k := Page(pages[k].url, PageContent(items))];
      SavePage(pages[k]);
    }

    method UpdateText(id: Uuid, page: Page, newText: string)
      requires Valid()
      modifies this`pages, this`disk
      ensures Valid()
      ensures (pages, disk) == EditPage(old(pages), old(disk), page.Id(), UpdateTextEdit(id, newText))
    {
      var pageIndex := PageIndex(pages, page.Id());
      if pageIndex.None? {
        return;
      }
      var k := pageIndex.value;
      var itemIndex := FirstIndex(pages[k].content.items, id);
      if itemIndex.None? {
        return;
      }
      var i := itemIndex.value;
      var item := pages[k].content.items[i];
      if item.Text? {
        IdsBelowFrom(pages[k].content.items, pages[k].content.items[i := Text(item.textId, newText)], nextUuid);
        Commit(k, pages[k].content.items[i := Text(item.textId, newText)]);
      }
    }

    method AddTextBlock(page: Page)
      requires Valid()
      modifies this`pages, this`disk, this`nextUuid
      ensures Valid()
      ensures (pages, disk) == EditPage(old(pages), old(disk), page.Id(), AddTextBlockEdit(old(nextUuid)))
      ensures nextUuid == if PageIndex(old(pages), page.Id()).Some? then old(nextUuid) + 1 else old(nextUuid)
    {
      var pageIndex := PageIndex(pages, page.Id());
      if pageIndex.None? {
        return;
      }
      var k := pageIndex.value;
      var newBlock := Text(nextUuid, NewTextBlockBody);
      ghost var updated := Page(pages[k].url, PageContent(pages[k].content.items + [newBlock]));
      assert EditPage(pages, disk, page.Id(), AddTextBlockEdit(nextUuid)) == (pages[k := updated], SavedDisk(disk, updated));
      assert pages[k] in pages;
      IdsBelowFrom(pages[k].content.items, pages[k].content.items + [newBlock], nextUuid + 1);
      BumpKeepsValid(pages, pageTree, pageMonitors, disk, nextUuid);
      nextUuid := nextUuid + 1;
      Commit(k, pages[k].content.items + [newBlock]);
    }

    method MoveItem(page: Page, sourceId: Uuid, destinationId: Uuid)
      requires Valid()
      modifies this`pages, this`disk
      ensures Valid()
      ensures (pages, disk) == EditPage(old(pages), old(disk), page.Id(), MoveEdit(sourceId, destinationId))
    {
      var pageIndex := PageIndex(pages, page.Id());
      if pageIndex.None? {
        return;
      }
      var k := pageIndex.value;
      var fromIndex := FirstIndex(pages[k].content.items, sourceId);
      if fromIndex.None? {
        return;
      }
      var toIndex := FirstIndex(pages[k].content.items, destinationId);
      if toIndex.None? {
        return;
      }
      var from, to := fromIndex.value, toIndex.value;
      if from == to {
        return;
      }
      var items := pages[k].content.items;
      var moved := items[from];
      items := RemoveAt(items, from);
      var adjustedIndex := if from < to then to - 1 else to;
      items := InsertAt(items, adjustedIndex, moved);
      assert pages[k] in pages;
      MoveKeepsIdsBelow(pages[k].content.items, from, adjustedIndex, nextUuid);
      Commit(k, items);
    }

    method MoveItemToEnd(page: Page, sourceId: Uuid)
      requires Valid()
      modifies this`pages, this`disk
      ensures Valid()
      ensures (pages, disk) == EditPage(old(pages), old(disk), page.Id(), MoveToEndEdit(sourceId))
    {
      var pageIndex := PageIndex(pages, page.Id());
      if pageIndex.None? {
        return;
      }
      var k := pageIndex.value;
      var fromIndex := FirstIndex(pages[k].content.items, sourceId);
      if fromIndex.None? {
        return;
      }
      var items := pages[k].content.items;
      var moved := items[fromIndex.value];
      items := RemoveAt(items, fromIndex.value);
      items := items + [moved];
      assert pages[k] in pages;
      IdsBelowFrom(pages[k].content.items, items, nextUuid);
      Commit(k, items);
    }

    method DeleteItem(id: Uuid, page: Page)
      requires Valid()
      modifies this`pages, this`disk
      ensures Valid()
      ensures (pages, disk) == DeleteOutcome(old(pages), old(disk), page.Id(), id)
    {
      var pageIndex := PageIndex(pages, page.Id());
      if pageIndex.None? {
        return;
      }
      var k := pageIndex.value;
      var itemIndex := FirstIndex(pages[k].content.items, id);
      if itemIndex.Some? {
        var i := itemIndex.value;
        var item := pages[k].content.items[i];
        ghost var cleared := if item.File? then RemoveItem(disk, page.url + [item.filename]) else disk;
        assert DeleteOutcome(pages, disk, page.Id(), id) == EditPage(pages, cleared, page.Id(), DeleteEdit(id));
        if item.File? {
          DiskChangeKeepsValid(pages, pageTree, pageMonitors, disk, RemoveItem(disk, page.url + [item.filename]), nextUuid);
          disk := RemoveItem(disk, page.url + [item.filename]);
        }
        assert pages[k] in pages;
        IdsBelowFrom(pages[k].content.items, RemoveAt(pages[k].content.items, i), nextUuid);
        Commit(k, RemoveAt(pages[k].content.items, i));
      }
    }

    /** `deletePage(_:)`: removes the page folder; the page list follows at the next reload. */
    method DeletePage(page: Page)
      requires Valid()
      modifies this`disk
      ensures Valid()
      ensures disk == RemoveItem(old(disk), page.url)
    {
      disk := RemoveItem(disk, page.url);
    }

    /**
     * `importFile(at:to:)`: a file already in the page folder is left
     * alone; any other is copied in under the first free name.
     */
    method ImportFile(src: Path, page: Page)
      requires Valid()
      modifies this`disk
      ensures Valid()
      ensures Parent(src) == page.url ==> disk == old(disk)
      ensures Parent(src) != page.url ==>
        exists name :: !FileExists(old(disk), page.url + [name]) &&
          (name == LastComponent(src) || FileExists(old(disk), page.url + [LastComponent(src)])) &&
          disk == CopyItem(old(disk), src, page.url + [name])
      ensures Parent(src) != page.url && FileExists(old(disk), page.url + [LastComponent(src)]) ==>
        var (base, ext) := SplitExtension(LastComponent(src));
        exists n :: 1 <= n &&
          disk == CopyItem(old(disk), src, page.url + [Numbered(base, n, ext)]) &&
          forall k :: 1 <= k < n ==> FileExists(old(disk), page.url + [Numbered(base, k, ext)])
    {
      if Parent(src) == page.url {
        return;
      }
      var name := UniqueDestinationName(LastComponent(src), Occupied(disk, page.url));
      disk := CopyItem(disk, src, page.url + [name]);
    }

    /**
     * `addPage(in:)`: without a root nothing happens; otherwise a folder
     * "Page <seconds>", numbered if taken, is created in the parent (or
     * the root). `seconds` is the clock reading.
     */
    method AddPage(parent: Option<Path>, seconds: int)
      requires Valid()
      modifies this`disk
      ensures Valid()
      ensures rootUrl.None? ==> disk == old(disk)
      ensures rootUrl.Some? ==>
        var base := if parent.Some? then parent.value else rootUrl.value;
        exists name :: !FileExists(old(disk), base + [name]) &&
          (name == PageFolderName(seconds) || FileExists(old(disk), base + [PageFolderName(seconds)])) &&
          disk == CreateDirectory(old(disk), base + [name])
      ensures rootUrl.Some? ==>
        var base := if parent.Some? then parent.value else rootUrl.value;
        var (stem, ext) := SplitExtension(PageFolderName(seconds));
        FileExists(old(disk), base + [PageFolderName(seconds)]) ==>
          exists n :: 1 <= n &&
            disk == CreateDirectory(old(disk), base + [Numbered(stem, n, ext)]) &&
            forall k :: 1 <= k < n ==> FileExists(old(disk), base + [Numbered(stem, k, ext)])
    {
      if rootUrl.None? {
        return;
      }
      var base := if parent.Some? then parent.value else rootUrl.value;
      var newName := PageFolderName(seconds);
      var name := UniqueDestinationName(newName, Occupied(disk, base));
      disk := CreateDirectory(disk, base + [name]);
    }

    /**
     * `loadPages(from:)`: records the root, opens its monitor (which may
     * fail), and reloads.
     */
    method LoadPages(url: Path, now: Timestamp, open: Path -> Option<Monitor>)
      requires Valid()
      modifies this`rootUrl, this`rootMonitor, this`pages, this`pageTree, this`pageMonitors, this`nextUuid
      ensures Valid()
      ensures rootUrl == Some(url) && rootMonitor == open(url)
      ensures url !in disk ==> unchanged(this`pages, this`pageTree, this`pageMonitors, this`nextUuid)
      ensures url in disk ==>
        Reloaded(pages, pageTree, pageMonitors, nextUuid) == ReloadOf(disk, url, now, old(nextUuid), old(pageMonitors), open).value
    {
      rootUrl := Some(url);
      rootMonitor := open(url);
      Reload(url, now, open);
    }

    /**
     * The monitor bookkeeping of `reload(from:)`: every folder seen that has
     * no monitor gets one when opening it succeeds, and monitors of folders
     * not seen are dropped.
     */
    method UpdateMonitors(seenPageUrls: set<Path>, open: Path -> Option<Monitor>)
      modifies this`pageMonitors
      ensures pageMonitors == Monitored(old(pageMonitors), seenPageUrls, open)
    {
      var remaining := seenPageUrls;
      ghost var done: set<Path> := {};
      while remaining != {}
        invariant remaining + done == seenPageUrls && remaining !! done
        invariant pageMonitors == WithMonitors(old(pageMonitors), done, open)
        decreases remaining
      {
        var folderUrl :| folderUrl in remaining;
        if folderUrl !in pageMonitors {
          var monitor := open(folderUrl);
          if monitor.Some? {
            pageMonitors := pageMonitors[folderUrl := monitor.value];
          }
        }
        remaining := remaining - {folderUrl};
        done := done + {folderUrl};
      }
      pageMonitors := map u | u in pageMonitors && u in seenPageUrls :: pageMonitors[u];
    }

    /**
     * `reload(from:)`: when the root can be listed, builds the pages and
     * the tree, brings the monitors in line with the folders seen, and
     * publishes the sorted results; otherwise nothing changes.
     */
    method Reload(url: Path, now: Timestamp, open: Path -> Option<Monitor>)
      requires Valid()
      modifies this`pages, this`pageTree, this`pageMonitors, this`nextUuid
      ensures Valid()
      ensures url !in disk ==> unchanged(this`pages, this`pageTree, this`pageMonitors, this`nextUuid)
      ensures url in disk ==>
        Reloaded(pages, pageTree, pageMonitors, nextUuid) == ReloadOf(disk, url, now, old(nextUuid), old(pageMonitors), open).value
    {
      if url !in disk {
        return;
      }
      var newTree, newPages, seenPageUrls, next := LoadRoot(disk, url, now, nextUuid);
      ReloadOfLoaded(disk, url, now, nextUuid, pageMonitors, open, newTree, newPages, seenPageUrls, next);
      ReloadValid(disk, url, now, nextUuid, pageMonitors, open);
      UpdateMonitors(seenPageUrls, open);
      Publish(SortByName(newPages, PageName), SortByName(newTree, NodeName), next);
    }

    /** The assignments that end `reload(from:)`: the new pages, the new tree and the counter. */
    method Publish(newPages: seq<Page>, newTree: seq<PageNode>, next: Uuid)
      requires ValidState(newPages, newTree, pageMonitors, disk, next)
      modifies this`pages, this`pageTree, this`nextUuid
      ensures Valid()
      ensures pages == newPages && pageTree == newTree && nextUuid == next
    {
      pages := newPages;
      pageTree := newTree;
      nextUuid := next;
    }
  }

  /** The name `addPage` starts from: "Page " and the clock reading in whole seconds, signed. */
  function PageFolderName(seconds: int): (r: string)
    ensures |r| > 5 && r[..5] == "Page " && r[5..] == SignedDecimal(seconds)
    ensures seconds >= 0 ==> forall j :: 5 <= j < |r| ==> '0' <= r[j] <= '9'
    ensures seconds < 0 ==> r[5] == '-' && forall j :: 6 <= j < |r| ==> '0' <= r[j] <= '9'
  {
    "Page " + SignedDecimal(seconds)
  }

  /** Different clock readings give different page folder names. */
  lemma PageFolderNameInjective(s: int, t: int)
    requires PageFolderName(s) == PageFolderName(t)
    ensures s == t
  {
    SignedDecimalInjective(s, t);
  }
}
