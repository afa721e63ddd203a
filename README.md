# contexter — a verified model of the page engine

contexter is a macOS notes application. Every folder under a chosen root
folder is a *page*. A page's content is an ordered list of items. An item is
either a text block kept only in the page's layout file, or a reference to a
file that sits in the page folder. The layout is stored in the hidden file
`._context_layout.json` inside each page folder. The folder listing decides
which files exist. The layout decides the order and holds the text.

This project models the page engine (`ContextManager`), its value types and
the pure helpers of the page view, and proves properties about them:

- `DataModel.dfy`: items, page content, pages and page nodes, plus their
  identities.
- `FileSystem.dfy`: the disk, with its operations.
  - The disk is a map from folder paths to folders. A path missing from the
    map is a folder whose listing fails.
  - Operations: the hidden-file-skipping listing, reading and writing the
    layout file, removal, copying and folder creation.
- `NameOrder.dfy`: the name order, a case-insensitive lexicographic
  comparison, and the sort by name.
- `Naming.dfy`
  - Splitting a file name into base and extension.
  - The numbered candidates `base (n).ext`.
  - The loop that finds the first free destination name.
- `ItemEdits.dfy`: the item-list edits behind update text, add text block,
  move, move to end and delete.
- `Reconciler.dfy`: loading one page, and merging its stored list against
  the folder listing.
- `TreeBuilder.dfy`: the recursive walk that builds the page tree and the
  pre-order list of page folders, with its imperative counterparts.
- `ContextManager.dfy`:
  - the `ContextManager` class, whose methods update its pages, tree,
    monitors and disk in place;
  - the specification functions the class's methods are proved against.
- `PageView.dfy`: the pure helpers of the page view:
  - breadcrumb text;
  - the Quick Look file list;
  - image detection by extension;
  - the drag-and-drop decisions.

Effects become parameters. A folder monitor is an opaque handle
(`Monitor`). Opening one is a parameter function `open` that may fail.
`Date()` becomes a `now` parameter, and the clock reading that names a new
page becomes a `seconds` parameter. The fresh UUIDs the application draws
come from a counter field, `nextUuid`, threaded through every operation that
mints identities.

## Model

| member | source | states |
|---|---|---|
| DataModel.ItemIdIsFirstField | contexter/DataModel.swift:27-40 | definitional reading: the identity of a text item and of a file item is the UUID carried in its first field |
| DataModel.PageIdentityIsUrl | contexter/DataModel.swift:3-11 | definitional reading: two pages have the same identity exactly when their URLs are equal; a page's name is the last component of its URL |
| DataModel.NodeIdentityIsUrl | contexter/DataModel.swift:13-21 | definitional reading: two tree nodes have the same identity exactly when their URLs are equal; a node's name is the last component of its URL |
| DataModel.ParentOfChild | contexter/ContextManager.swift:100 | removing the last component of `p + [name]` gives `p`, and its last component is `name` |
| DataModel.PageUrlsMembers | contexter/ContextManager.swift:38 | a URL is in the seen-URL set of a page list exactly when some page in the list has that URL |
| DataModel.FirstWhere | contexter/ContextManager.swift:186 | the first-match search behind `firstIndex(where:)`: a position found holds the key and no earlier one does; none means no element has it |
| DataModel.IdsBelowFrom | contexter/ContextManager.swift:184-235 | a list made only of items of a list below the bound, or of items below the bound, is itself below the bound |
| DataModel.PagesIdsBelowUpdate | contexter/ContextManager.swift:186-191 | replacing one page by a page whose items lie below the bound keeps all pages below the bound |
| FileSystem.SidecarIsHidden | contexter/ContextManager.swift:10 | the layout file's name starts with a dot, so listings that skip hidden files never show it |
| FileSystem.Visible | contexter/ContextManager.swift:138 | a name survives the hidden-file-skipping listing exactly when it is listed and does not start with a dot |
| FileSystem.VisibleAppend | contexter/ContextManager.swift:138 | filtering hidden names out of a concatenated listing is the concatenation of the filtered parts |
| FileSystem.VisibleNoDuplicates | contexter/ContextManager.swift:138 | a listing without repeated names stays free of repeats after the hidden names are dropped |
| FileSystem.ContentsOfDirectory | contexter/ContextManager.swift:35 | the listing succeeds exactly when the folder exists, and lists only visible entries of that folder |
| FileSystem.Occupied | contexter/ContextManager.swift:268 | a name is occupied in a folder exactly when a file or folder of that name exists there |
| FileSystem.ReadSidecar | contexter/ContextManager.swift:113-127 | the stored list is empty when the layout file is missing, the folder is missing or the layout does not parse |
| FileSystem.SidecarRoundTrip | contexter/ContextManager.swift:175-183 | reading the layout file back after writing a list yields that list |
| FileSystem.WriteSidecarKeepsListings | contexter/ContextManager.swift:175-183 | writing a layout file changes no folder's visible listing |
| FileSystem.WriteSidecar | contexter/ContextManager.swift:175-183 | writing a layout file touches only that folder and keeps its subfolders |
| FileSystem.RemoveItem | contexter/ContextManager.swift:237-243 | removing a missing item changes nothing; removing an existing item deletes it and everything below it, drops its name from its parent's entries and subfolders, and leaves every other folder as it was |
| FileSystem.CopyItem | contexter/ContextManager.swift:106 | the copy fails, leaving the disk as it was, when the source is missing, the destination exists or its folder is missing; otherwise the destination name is appended to its folder's entries; no other folder changes and no folder is added |
| FileSystem.CreateDirectory | contexter/ContextManager.swift:251 | the creation fails, leaving the disk as it was, when the parent is missing or the name is taken; otherwise exactly one new empty folder appears and its name is appended to the parent's entries and subfolders; no other folder changes |
| FileSystem.CopyItemListed | contexter/ContextManager.swift:106-107 | a copied file that is not hidden appears at the end of its folder's visible listing, after the entries listed before |
| FileSystem.FileExists | contexter/ContextManager.swift:268 | every folder exists, and anything that exists is a folder or lies in a known folder |
| FileSystem.ReadSidecarIdsBelow | contexter/ContextManager.swift:113-127 | when every stored layout lies below a bound, so does the list read from any folder |
| FileSystem.WriteSidecarIdsBelow | contexter/ContextManager.swift:175-183 | writing a list below a bound keeps every stored layout below it |
| FileSystem.LayoutIdsBelowMono | contexter/ContextManager.swift:113-127 | raising the bound keeps every stored layout below it |
| NameOrder.LexLessTransitive | contexter/ContextManager.swift:52-54 | the character-wise comparison underlying the name order is transitive |
| NameOrder.LexLessTotal | contexter/ContextManager.swift:52-54 | of two different folded strings, one compares before the other |
| NameOrder.NameLessAsymmetric | contexter/ContextManager.swift:52-54 | of two names, at most one compares as ascending before the other |
| NameOrder.NameLeqTotal | contexter/ContextManager.swift:52-54 | any two names are comparable in the name order |
| NameOrder.NameLeqTransitive | contexter/ContextManager.swift:52-54 | the name order is transitive |
| NameOrder.NameLess | contexter/ContextManager.swift:52-54 | two names that compare as ascending are different even ignoring case |
| NameOrder.InsertByNameSorted | contexter/ContextManager.swift:52-54 | inserting into a list sorted by name keeps it sorted by name |
| NameOrder.SortByNameSorted | contexter/ContextManager.swift:83-88 | the result of the sort by name is sorted by name |
| NameOrder.SortByName | contexter/ContextManager.swift:83-88 | the sort by name is a permutation of its input |
| NameOrder.SortByNameOfSorted | contexter/ContextManager.swift:83-88 | sorting a list that is already sorted by name leaves it unchanged |
| Naming.SplitExtension | contexter/ContextManager.swift:262-263 | the extension holds no dot; without an extension the base is the whole name; otherwise base, dot and extension rebuild the name, and the base is not empty |
| Naming.SplitJoin | contexter/ContextManager.swift:262-263 | joining the base and extension of a name gives back the name |
| Naming.SplitOfJoined | contexter/ContextManager.swift:262-263 | splitting `base.ext` gives back `base` and `ext` when the base is not empty and the extension holds no dot |
| Naming.Decimal | contexter/ContextManager.swift:248 | the decimal rendering of a number is non-empty and consists of digits only |
| Naming.DecimalInjective | contexter/ContextManager.swift:248 | different numbers have different decimal renderings |
| Naming.SignedDecimal | contexter/ContextManager.swift:248 | a signed integer renders as its decimal digits, preceded by a minus sign exactly when it is negative |
| Naming.SignedDecimalInjective | contexter/ContextManager.swift:248 | different integers render differently |
| Naming.Numbered | contexter/ContextManager.swift:269-274 | a numbered candidate starts with the base and is longer than base and extension together |
| Naming.NumberedKeepsExtension | contexter/ContextManager.swift:269-274 | a numbered candidate keeps the extension: splitting it gives `base (n)` and the same extension |
| Naming.NumberedIsNotOriginal | contexter/ContextManager.swift:269-274 | no numbered candidate equals the original file name |
| Naming.NumberedInjective | contexter/ContextManager.swift:269-276 | different counters give different candidate names |
| Naming.UniqueDestinationName | contexter/ContextManager.swift:261-280 | the chosen name is not taken; a free file name is kept; otherwise the name is the numbered candidate with the smallest counter not taken |
| ItemEdits.FirstIndex | contexter/ContextManager.swift:186 | the result is the first position holding the id, or none when no item has it |
| ItemEdits.FirstIndexAt | contexter/ContextManager.swift:186 | the search finds a position holding the id when no earlier position holds it |
| ItemEdits.MoveKeepsIdsBelow | contexter/ContextManager.swift:206-211 | a move keeps every identity below a bound that all the items were below |
| ItemEdits.RemoveInsertMultiset | contexter/ContextManager.swift:206-211 | removing an item and inserting it elsewhere keeps the same items |
| ItemEdits.RemoveAtMultiset | contexter/ContextManager.swift:208 | removing a position takes exactly one copy of its item out of the list |
| ItemEdits.InsertAtMultiset | contexter/ContextManager.swift:210 | inserting an item adds exactly one copy of it |
| ItemEdits.UpdatedText | contexter/ContextManager.swift:184-192 | an update happens exactly when the first item with the id is a text block; it replaces that block's text and keeps everything else |
| ItemEdits.WithTextBlock | contexter/ContextManager.swift:194-199 | the new list is the old one followed by a text block that has the fresh id and the default text |
| ItemEdits.MovedItems | contexter/ContextManager.swift:201-213 | a move is declined exactly when either id is missing or the two ids are equal; an accepted move is a permutation of the same length |
| ItemEdits.MovedItemsPlacement | contexter/ContextManager.swift:201-213 | the moved item ends up directly before the destination item, and the remaining items keep their relative order |
| ItemEdits.MovedToEnd | contexter/ContextManager.swift:215-223 | moving is declined exactly when the id is missing; otherwise the item goes last and the others keep their order |
| ItemEdits.DeletedItem | contexter/ContextManager.swift:225-235 | deletion is declined exactly when the id is missing; otherwise the first item with the id is removed and the order of the others is kept |
| ItemEdits.DeletedFileName | contexter/ContextManager.swift:227-231 | a file is to be removed exactly when the deleted item is a file item, and it is that item's file |
| ItemEdits.MoveForwardExample | contexter/ContextManager.swift:201-213 | moving the first of four distinct items onto the third gives B, A, C, D |
| ItemEdits.MoveBackwardExample | contexter/ContextManager.swift:201-213 | moving the fourth of four distinct items onto the first gives D, A, B, C |
| ItemEdits.MoveToEndExample | contexter/ContextManager.swift:215-223 | moving the middle one of three items to the end puts it last |
| Reconciler.Pruned | contexter/ContextManager.swift:141-145 | the removal step keeps exactly the text items and the file items whose name is listed |
| Reconciler.NewNames | contexter/ContextManager.swift:155-170 | the names added are exactly the listed names that are neither the layout file nor already represented |
| Reconciler.FreshFiles | contexter/ContextManager.swift:158-168 | each added name becomes a file item with the next unused identity and the current time |
| Reconciler.Merge | contexter/ContextManager.swift:135-173 | a failed listing leaves the list and the counter as they are; the counter never goes down; the merge adds at most one item and one identity per listed name |
| Reconciler.AppendNewFiles | contexter/ContextManager.swift:155-170 | the loop appends the fresh file items for exactly the new names, in listing order, and advances the counter by their number |
| Reconciler.NewNamesStep | contexter/ContextManager.swift:155-170 | one more listed name is added exactly when it is neither the layout file nor represented |
| Reconciler.FreshFilesSnoc | contexter/ContextManager.swift:158-168 | one more new name appends one fresh file item carrying the next identity |
| Reconciler.MergeFiles | contexter/ContextManager.swift:135-173 | the merged list and the next identity are the ones the merge specification gives; a failed listing leaves the list unchanged |
| Reconciler.MergeFilesAreListed | contexter/ContextManager.swift:135-173 | after a merge, every file item names a listed entry |
| Reconciler.MergeKeepsText | contexter/ContextManager.swift:135-173 | a merge never removes, changes or reorders a text block |
| Reconciler.MergeAppendsNewFiles | contexter/ContextManager.swift:135-173 | definitional reading: the kept items come first in their order; the new names follow as fresh file items in listing order |
| Reconciler.MergeRepresentsListing | contexter/ContextManager.swift:135-173 | every listed name other than the layout file is represented by a file item after a merge (see MergeNamesEachOnce for "exactly one") |
| Reconciler.MergeIdempotent | contexter/ContextManager.swift:135-173 | merging a merged list again against the same listing changes nothing and draws no identity |
| Reconciler.MergeFixed | contexter/ContextManager.swift:135-173 | a list whose file items are exactly the listed names, each represented, is left unchanged by a merge, which draws no identity |
| Reconciler.MergeOfCurrentList | contexter/ContextManager.swift:135-173 | when every stored file item is still listed, the stored list survives whole as a prefix and only unrepresented files follow it |
| Reconciler.MergeDrawsFresh | contexter/ContextManager.swift:155-170 | every item after a merge is a stored item or carries an identity drawn in this merge, from the counter up to the returned counter |
| Reconciler.PrunedUniqueFileNames | contexter/ContextManager.swift:141-145 | removing items keeps file names unique |
| Reconciler.NewNamesNoDuplicates | contexter/ContextManager.swift:155-170 | the new names of a listing that has no repeats have no repeats |
| Reconciler.MergeUniqueFileNames | contexter/ContextManager.swift:135-173 | a merge of a list with unique file names against a listing without repeats keeps file names unique |
| Reconciler.MergeNamesEachOnce | contexter/ContextManager.swift:135-173 | after such a merge each listed name other than the layout file is held by exactly one file item |
| Reconciler.LoadPage | contexter/ContextManager.swift:113-173 | the loaded page keeps the folder's URL |
| Reconciler.LoadPageIdsBelow | contexter/ContextManager.swift:113-173 | loading a page from a disk whose layouts lie below the counter leaves every item below the returned counter |
| Reconciler.LoadPageNamesEachOnce | contexter/ContextManager.swift:113-173 | a loaded page holds exactly one file item per visible entry of its folder |
| Reconciler.LoadPageFrom | contexter/ContextManager.swift:113-133 | loading a page is the stored list merged against the folder listing, and the page keeps the folder's URL |
| Reconciler.LoadPageWithoutSidecar | contexter/ContextManager.swift:113-133 | without a usable layout file a page loads as fresh file items for its visible entries in listing order, or empty when the folder cannot be listed |
| TreeBuilder.ChildFolders | contexter/ContextManager.swift:46-49 | a child shows up exactly when it is a visible entry of the folder and is itself a folder; a folder that cannot be listed has none |
| TreeBuilder.CreatedFolderIsChild | contexter/ContextManager.swift:46-49 | a folder created under a free, non-hidden name becomes a child folder of its parent, which keeps its other child folders, so the next walk finds the new page |
| TreeBuilder.BelowShrinks | contexter/ContextManager.swift:51 | the folders below a child are strictly fewer than those below its parent, so the walk ends |
| TreeBuilder.WalkFolders | contexter/ContextManager.swift:51 | the walk of a run of child folders yields one node per folder |
| TreeBuilder.PagesOf | contexter/ContextManager.swift:60-66 | loading a run of folders yields one page per folder, in order, each carrying its folder's URL |
| TreeBuilder.PagesOfIdsBelow | contexter/ContextManager.swift:42-44 | loading a run of folders keeps every identity below the returned counter, which never goes below the starting one |
| TreeBuilder.WalkNode | contexter/ContextManager.swift:41-58 | a node carries the folder's URL; it is a leaf exactly when the folder has no child folders; the folder comes first in its visit order |
| TreeBuilder.PagesOfAppend | contexter/ContextManager.swift:42-44 | loading the pages of two folder runs in turn equals loading their concatenation |
| TreeBuilder.LoadOnePage | contexter/ContextManager.swift:42-44 | loading one folder appends its page and records its URL as seen |
| TreeBuilder.LoadNode | contexter/ContextManager.swift:41-58 | the node built is the walk's node, and the pages appended are the folders of the walk in pre-order, each loaded in turn |
| TreeBuilder.LoadFolders | contexter/ContextManager.swift:60-66 | the root's nodes are the walk's nodes, and the pages appended are the pre-order pages of all subtrees in listing order |
| TreeBuilder.WalkNodeChildren | contexter/ContextManager.swift:51-57 | a node's children are sorted by name and are exactly the nodes of the folder's child folders |
| TreeBuilder.WalkFoldersNodes | contexter/ContextManager.swift:60-66 | the k-th node of the root walk belongs to the k-th listed child folder |
| TreeBuilder.WalkNodeWellShaped | contexter/ContextManager.swift:51-57 | in every subtree, a branch is never empty and its children are sorted by name and lie directly below it |
| TreeBuilder.WalkFoldersWellShaped | contexter/ContextManager.swift:60-66 | every node of the root walk is well shaped |
| TreeBuilder.WalkNodeBelow | contexter/ContextManager.swift:41-58 | every folder a walk visits after its start lies strictly below the start |
| TreeBuilder.WalkFoldersBelow | contexter/ContextManager.swift:60-66 | every folder the root walk visits lies below one of the listed child folders |
| TreeBuilder.WalkNodeVisitsOnce | contexter/ContextManager.swift:41-58 | a walk visits no folder twice |
| TreeBuilder.WalkFoldersVisitsOnce | contexter/ContextManager.swift:60-66 | the root walk over distinct child folders visits no folder twice |
| TreeBuilder.ChildFoldersNoDuplicates | contexter/ContextManager.swift:46-49 | the child folders of a folder that lists each name once are distinct |
| TreeBuilder.WalkPagesOnce | contexter/ContextManager.swift:42-44 | the pages loaded by a walk are in visit order and carry distinct URLs |
| ContextManager.PageIndex | contexter/ContextManager.swift:186 | the result is the first position of a page with that identity, or none when no page has it |
| ContextManager.PageFor | contexter/ContextManager.swift:257-259 | a page found has the requested URL and is in the list; none means no page has that URL |
| ContextManager.LookupsAgree | contexter/ContextManager.swift:257-259 | the lookup by identity and the lookup by URL find the same page |
| ContextManager.SavedDisk | contexter/ContextManager.swift:175-183 | saving a page makes its layout file read back as the page's items and changes no other folder |
| ContextManager.SavedDiskKeepsListings | contexter/ContextManager.swift:175-183 | saving a page changes no folder's visible listing |
| ContextManager.EditPage | contexter/ContextManager.swift:184-223 | an edit keeps the page URLs in order; a missing page or a declined edit changes nothing; otherwise only that page's items change, and they are saved |
| ContextManager.DeleteOutcome | contexter/ContextManager.swift:225-235 | deleting keeps the page URLs in order; a missing page changes nothing; otherwise the item is removed, a file item's file is deleted and the page is saved |
| ContextManager.DeleteTextKeepsFiles | contexter/ContextManager.swift:225-235 | deleting a text block leaves every folder listing as it was |
| ContextManager.DeleteFileRemovesFile | contexter/ContextManager.swift:225-235 | deleting a file item deletes its file from the page folder |
| ContextManager.SameUrls | contexter/ContextManager.swift:184-235 | two page lists with the same URLs in order have the same seen-URL set and the same sortedness |
| ContextManager.DistinctUrlsPermutation | contexter/ContextManager.swift:83-85 | a permutation of a list with distinct URLs has distinct URLs |
| ContextManager.PageUrlsPermutation | contexter/ContextManager.swift:83-85 | any permutation of a page list has the same URL set |
| ContextManager.Monitored | contexter/ContextManager.swift:68-81 | after the update, only pages seen in this reload have a monitor |
| ContextManager.MonitoredKeeps | contexter/ContextManager.swift:68-81 | definitional reading: a seen page keeps its existing monitor; a seen page without one gets a monitor exactly when opening succeeds; a new entry is the monitor just opened |
| ContextManager.ReloadOf | contexter/ContextManager.swift:32-97 | a reload takes effect exactly when the root folder can be listed |
| ContextManager.LoadRoot | contexter/ContextManager.swift:35-66 | the nodes, pages, seen URLs and next identity gathered from the root are those of the walk specification |
| ContextManager.ReloadOfLoaded | contexter/ContextManager.swift:68-88 | definitional reading: the reload's pages and tree are the gathered ones sorted by name, and the monitors are the updated monitors |
| ContextManager.ReloadOfShape | contexter/ContextManager.swift:83-88 | after a reload the pages and the tree are sorted by name, every node is well shaped, the pages are a permutation of the pages gathered by the walk, and every monitored folder is one of the pages |
| ContextManager.ReloadPagesOnce | contexter/ContextManager.swift:60-85 | after a reload no URL appears twice among the pages, and there is one page per folder visited |
| ContextManager.ReloadIdsBelow | contexter/ContextManager.swift:32-97 | a reload from a disk whose layouts lie below the counter leaves every page identity below the counter it ends with |
| ContextManager.ReloadValid | contexter/ContextManager.swift:32-97 | the state a reload produces satisfies the invariant |
| ContextManager.CommitKeepsValid | contexter/ContextManager.swift:186-191 | replacing a page's items by items below the counter and saving it keeps the invariant |
| ContextManager.BumpKeepsValid | contexter/ContextManager.swift:194-199 | drawing one identity from the counter keeps the invariant |
| ContextManager.DiskChangeKeepsValid | contexter/ContextManager.swift:225-243 | a disk change that adds no stored layout keeps the invariant |
| ContextManager.PageFolderName | contexter/ContextManager.swift:248 | the name a new page starts from is "Page " followed by the signed decimal rendering of the clock reading: digits only from 1970 on, a minus sign and digits before |
| ContextManager.PageFolderNameInjective | contexter/ContextManager.swift:248 | different clock readings give different page names |
| ContextManager.ContextManager.constructor | contexter/ContextManager.swift:5-17 | a fresh manager has no pages, no tree, no monitors and no root, and is valid; its first counter value must lie above every identity stored on the disk, which stands for the freshness of `UUID()` |
| ContextManager.ContextManager.PageForUrl | contexter/ContextManager.swift:257-259 | a page found has the URL and is one of the manager's pages; none means no page has it |
| ContextManager.ContextManager.SavePage | contexter/ContextManager.swift:175-183 | the disk becomes the disk with the page saved |
| ContextManager.ContextManager.Commit | contexter/ContextManager.swift:186-191 | the page at the position gets the new items, and it is saved; items below the counter keep the manager valid |
| ContextManager.ContextManager.UpdateText | contexter/ContextManager.swift:184-192 | the pages and disk become the text-update edit of the old state; the manager stays valid |
| ContextManager.ContextManager.AddTextBlock | contexter/ContextManager.swift:194-199 | the pages and disk become the add-block edit of the old state; one identity is drawn exactly when the page exists; the manager stays valid, so the new block's identity is above every stored one |
| ContextManager.ContextManager.MoveItem | contexter/ContextManager.swift:201-213 | the pages and disk become the move edit of the old state |
| ContextManager.ContextManager.MoveItemToEnd | contexter/ContextManager.swift:215-223 | the pages and disk become the move-to-end edit of the old state |
| ContextManager.ContextManager.DeleteItem | contexter/ContextManager.swift:225-235 | the pages and disk become the delete outcome of the old state |
| ContextManager.ContextManager.DeletePage | contexter/ContextManager.swift:237-243 | the page folder and everything below it are removed from the disk; the manager stays valid |
| ContextManager.ContextManager.ImportFile | contexter/ContextManager.swift:99-111 | a file already in the page folder is left alone; otherwise it is copied in under a free name: its own name when that is free, else the numbered candidate `base (n).ext` with the smallest counter `n` whose name is free; the manager stays valid |
| ContextManager.ContextManager.AddPage | contexter/ContextManager.swift:245-255 | without a root nothing happens; otherwise a folder is created in the parent or the root under a free name: the timestamp name when that is free, else its numbered candidate with the smallest free counter; the manager stays valid |
| ContextManager.ContextManager.LoadPages | contexter/ContextManager.swift:19-30 | the root is recorded and its monitor opened; the state then becomes the reload of the root, unchanged when the root cannot be listed |
| ContextManager.ContextManager.UpdateMonitors | contexter/ContextManager.swift:68-81 | the monitor map becomes the updated monitors for the seen URLs |
| ContextManager.ContextManager.Reload | contexter/ContextManager.swift:32-97 | when the root can be listed the state becomes the reload of the root; otherwise pages, tree, monitors and identities are unchanged |
| ContextManager.ContextManager.Publish | contexter/ContextManager.swift:90-93 | the new pages, tree and counter are stored and the manager is valid |
| PageView.Join | contexter/PageView.swift:166 | a joined list starts with its first part and, with two or more parts, ends with the separator and the last part |
| PageView.JoinSnoc | contexter/PageView.swift:163-166 | joining one more part adds a separator and that part at the end |
| PageView.RelativeComponents | contexter/PageView.swift:162 | the relative components are the page's components after as many as the root has |
| PageView.BreadcrumbText | contexter/PageView.swift:158-167 | without a root the breadcrumb is empty; it starts with the root's name; a page no deeper than the root shows only that name; a deeper page's breadcrumb ends with the separator and the page's own name |
| PageView.BreadcrumbOfChild | contexter/PageView.swift:158-167 | the breadcrumb of a child page is its parent's breadcrumb, the separator and the child's name |
| PageView.BreadcrumbExample | contexter/PageView.swift:158-167 | the breadcrumb of Notes/Work/Q3 under root Notes is "Notes > Work > Q3", and that of the root itself is "Notes" |
| PageView.FileEntriesMembers | contexter/PageView.swift:138-144 | the file entries are exactly the identity and URL of each file item |
| PageView.FileEntriesAppend | contexter/PageView.swift:138-144 | the file entries of a concatenation are the concatenated entries |
| PageView.EntryIndex | contexter/PageView.swift:145 | the result is the first entry with the id, or none when there is none |
| PageView.QuickLookPreview | contexter/PageView.swift:136-148 | the selected index lies within the preview's URL list |
| PageView.QuickLookPreviewSelects | contexter/PageView.swift:136-148 | a preview opens exactly when a file item is selected; the selected URL is that item's file in the page folder |
| PageView.QuickLookPreviewUrls | contexter/PageView.swift:136-148 | the preview lists exactly the URLs of the page's file items |
| PageView.IsImage | contexter/PageView.swift:248-251 | a name counts as an image only when it has a base and an extension of three or four characters |
| PageView.IsImageByExtension | contexter/PageView.swift:248-251 | a name with a base and an extension is an image exactly when its lower-cased extension is one of the six image types |
| PageView.IsImageExample | contexter/PageView.swift:248-251 | "photo.JPG" is an image |
| PageView.IsNotImageExample | contexter/PageView.swift:248-251 | "notes.txt" is not an image |
| PageView.DropEnteredMove | contexter/PageView.swift:320-323 | a move is requested exactly when an item is dragged over a different item, from the dragged item to the target |
| PageView.DropEnteredMovesBeforeTarget | contexter/PageView.swift:320-323 | definitional reading: the requested move places the dragged item directly before the target |
| PageView.DropOntoItselfDeclined | contexter/PageView.swift:320-323 | moving an item onto itself is declined |
| PageView.DropOnItem | contexter/PageView.swift:325-328 | dropping on an item clears the drag and is accepted without any further move |
| PageView.DropToEnd | contexter/PageView.swift:336-342 | dropping on the end area moves the dragged item, if any, to the end, clears the drag and is accepted |
| PageView.SecondDropIsIdle | contexter/PageView.swift:325-342 | after any drop, a further drop moves nothing |
| PageView.DropToEndPutsLast | contexter/PageView.swift:336-342 | dropping a dragged item of the page on the end area makes it the last item |

## Left out

- The JSON encoding and decoding of the layout file. The layout is modelled as already parsed (`layout: Option<seq<PageItem>>`, None when it does not parse). The write path stores the list directly.
- `FolderMonitor` (FolderMonitor.swift is not part of this model). A monitor is an opaque handle, opening one is the parameter `open`, and the change callbacks with the reloads they trigger are not modelled.
- `print` logging and the swallowed errors of `try?`/`catch`. A failing operation leaves the modelled disk unchanged.
- Delivery of the reload result through `DispatchQueue.main.async`. The model assigns the new state directly within the reload, so it has no interleaving with other operations.
- `Date()` and the system clock. They are the `now` and `seconds` parameters. `seconds` is the signed whole-second reading that names a new page, so a clock before 1970 gives a name such as "Page -5". The conversion `Int(Date().timeIntervalSince1970)` from a floating-point reading, with its truncation and its trap when out of range, is not modelled.
- File contents, sizes and modification times. `lastModifiedText` and the date formatter of the page view are not modelled.
- URL standardisation (`standardizedFileURL`). Paths are taken as already standardised component sequences.
- The view bodies, the file importer sheet, the key capture view and the Quick Look panel itself (QuickLookPreviewer.swift is not part of this model). Only the pure decisions of the page view are modelled.
- ContentView.swift and SidebarView.swift are not part of this model.
- NameOrder.NameLess: `localizedCaseInsensitiveCompare` is modelled as an ASCII case fold followed by lexicographic character order, not the locale's collation.
- NameOrder.SortByName: Swift's `sort` is not guaranteed stable, so the model fixes one sorted permutation (an insertion sort). The properties proved are that the result is sorted and a permutation.
- Naming.SplitExtension: the extension is the text after the last dot, and a name whose only dot is its first character has no extension. Other corner cases of NSString's `pathExtension` and `deletingPathExtension`, such as trailing slashes, are not modelled.
- FileSystem.CreateDirectory: only the case whose parent exists is modelled. Creating missing intermediate folders is not.
- FileSystem.CopyItem: only copying a file is modelled. Copying a folder tree is not.
- FileSystem.CopyItem: file contents are not modelled, so copying in a file named like the layout file leaves the folder's parsed layout as it was.
- The disk is a field of the manager (`disk`) rather than a process-wide file system, so other processes that change the disk are not modelled.
- PageView.BreadcrumbText: as in the source, the root's components are dropped by count, with no check that the root is a prefix of the page. The contract states the first and the last crumb, not every crumb in between; BreadcrumbOfChild and BreadcrumbExample cover the middle.

## Notes on behaviour

- `loadPage(from:)` returns the merged list but does not write it back to the layout file. The model follows this: a load never changes the disk.
- The listing used by the merge contains the page's subfolders as well as its files. Child page folders therefore also show up as file items of their parent page, as in the source.
- The monitor loop iterates a set. Its effect does not depend on the order, and `Monitored` states it as a map.
- The identities of the items added by one merge are consecutive values of the identity counter. In the application they are random UUIDs. The model keeps freshness as part of the manager's invariant: every identity held by a page or stored in a layout lies below the counter. The constructor demands this of the disk it starts from, and every operation that draws identities or stores a layout keeps it.
