// The recursive walk of `reload`: every page folder below the root is
// loaded as a page and projected as a tree node, children sorted by name.
//
// The walk is specified in two parts: which folders are visited, in what
// order, and what tree they form (WalkNode, WalkFolders); and how the
// visited folders are loaded as pages, drawing identities in visiting order
// (PagesOf). The methods do both at once, as the program does.

module TreeBuilder {
  import opened DataModel
  import opened FileSystem
  import opened NameOrder
  import opened Reconciler

  /** The entries of `names` that are folders, in order. */
  function FoldersAmong(names: seq<string>, subdirs: set<string>): (r: seq<string>)
    ensures forall n :: n in r <==> n in names && n in subdirs
  {
    if names == [] then []
    else if names[0] in subdirs then [names[0]] + FoldersAmong(names[1..], subdirs)
    else FoldersAmong(names[1..], subdirs)
  }

  /**
   * The child folders `loadNode` descends into: the visible entries that
   * are folders, in listing order; none when the listing fails.
   */
  function ChildFolders(disk: Disk, dir: Path): (r: seq<string>)
    ensures forall n :: n in r <==> dir in disk && n in disk[dir].entries && !IsHidden(n) && n in disk[dir].subdirs
    ensures dir !in disk ==> r == []
  {
    if dir in disk then FoldersAmong(Visible(disk[dir].entries), disk[dir].subdirs) else []
  }

  /**
   * A folder created under a free, non-hidden name becomes a child folder
   * of its parent, so the next walk visits it; the parent's other child
   * folders stay.
   */
  lemma CreatedFolderIsChild(disk: Disk, p: Path)
    requires p != [] && Parent(p) in disk && !FileExists(disk, p) && !IsHidden(LastComponent(p))
    ensures LastComponent(p) in ChildFolders(CreateDirectory(disk, p), Parent(p))
    ensures forall n :: n in ChildFolders(disk, Parent(p)) ==> n in ChildFolders(CreateDirectory(disk, p), Parent(p))
  {
  }

  /** The known folders at or below `p`: what a walk from `p` can still visit. */
  function Below(disk: Disk, p: Path): set<Path>
  {
    set q | q in disk.Keys && p <= q
  }

  lemma BelowShrinks(disk: Disk, p: Path, name: string)
    requires p in disk
    ensures Below(disk, p + [name]) < Below(disk, p)
  {
    assert p in Below(disk, p) && p !in Below(disk, p + [name]);
    forall q | q in Below(disk, p + [name]) ensures q in Below(disk, p) {
      assert q[..|p|] == (p + [name])[..|p|] == p;
    }
  }

  /** A walk from one folder: its node and the folders visited, in pre-order. */
  datatype NodeWalk = NodeWalk(node: PageNode, folders: seq<Path>)

  /** A walk over sibling folders: their nodes in list order, and the folders visited. */
  datatype FolderWalk = FolderWalk(nodes: seq<PageNode>, folders: seq<Path>)

  /**
   * `loadNode(at:)`: visits the folder, then its child folders in listing
   * order, and sorts the child nodes by name; a folder with no child
   * folders is a leaf.
   */
  function WalkNode(disk: Disk, p: Path): (r: NodeWalk)
    ensures r.node.url == p
    ensures r.node.children.Leaf? <==> |ChildFolders(disk, p)| == 0
    ensures |r.folders| >= 1 && r.folders[0] == p
    decreases Below(disk, p), 1, 0
  {
    var sub := WalkFolders(disk, p, ChildFolders(disk, p));
    var children := SortByName(sub.nodes, NodeName);
    NodeWalk(PageNode(p, if children == [] then Leaf else Branch(children)), [p] + sub.folders)
  }

  /** The walk of the folders `p + [n]` for `n` in `names`, one after another. */
  function WalkFolders(disk: Disk, p: Path, names: seq<string>): (r: FolderWalk)
    requires names != [] ==> p in disk
    ensures |r.nodes| == |names|
    decreases Below(disk, p), 0, |names|
  {
    if names == [] then FolderWalk([], [])
    else
      var last := |names| - 1;
      var init := WalkFolders(disk, p, names[..last]);
      BelowShrinks(disk, p, names[last]);
      var w := WalkNode(disk, p + [names[last]]);
      FolderWalk(init.nodes + [w.node], init.folders + w.folders)
  }

  /**
   * The pages of `folders`, each loaded with `loadPage(from:)` in order,
   * identities drawn from `next` on; and the next unused identity.
   */
  function PagesOf(disk: Disk, folders: seq<Path>, now: Timestamp, next: Uuid): (r: (seq<Page>, Uuid))
    ensures |r.0| == |folders| && forall k :: 0 <= k < |folders| ==> r.0[k].url == folders[k]
  {
    if folders == [] then ([], next)
    else
      var init := PagesOf(disk, folders[..|folders| - 1], now, next);
      var lp := LoadPage(disk, folders[|folders| - 1], now, init.1);
      (init.0 + [lp.0], lp.1)
  }

  /** Loading a run of pages keeps every identity below the returned counter. */
  lemma {:induction false} PagesOfIdsBelow(disk: Disk, folders: seq<Path>, now: Timestamp, next: Uuid)
    requires LayoutIdsBelow(disk, next)
    ensures PagesOf(disk, folders, now, next).1 >= next
    ensures PagesIdsBelow(PagesOf(disk, folders, now, next).0, PagesOf(disk, folders, now, next).1)
    decreases |folders|
  {
    if folders != [] {
      var init := PagesOf(disk, folders[..|folders| - 1], now, next);
      PagesOfIdsBelow(disk, folders[..|folders| - 1], now, next);
      LayoutIdsBelowMono(disk, next, init.1);
      var lp := LoadPage(disk, folders[|folders| - 1], now, init.1);
      LoadPageIdsBelow(disk, folders[|folders| - 1], now, init.1);
      forall p | p in init.0 + [lp.0] ensures IdsBelow(p.content.items, lp.1) {
        if p in init.0 {
          assert IdsBelow(p.content.items, init.1);
        }
      }
    }
  }

  /** Loading two runs of folders one after the other is loading their concatenation. */
  lemma {:induction false} PagesOfAppend(disk: Disk, a: seq<Path>, b: seq<Path>, now: Timestamp, next: Uuid)
    ensures PagesOf(disk, a + b, now, next).0 == PagesOf(disk, a, now, next).0 + PagesOf(disk, b, now, PagesOf(disk, a, now, next).1).0
    ensures PagesOf(disk, a + b, now, next).1 == PagesOf(disk, b, now, PagesOf(disk, a, now, next).1).1
    decreases |b|
  {
    if b == [] {
      assert a + b == a;
    } else {
      var b0 := b[..|b| - 1];
      assert (a + b)[..|a + b| - 1] == a + b0;
      assert (a + b)[|a + b| - 1] == b[|b| - 1];
      PagesOfAppend(disk, a, b0, now, next);
      var first := PagesOf(disk, a, now, next);
      var mid := PagesOf(disk, b0, now, first.1);
      var lp := LoadPage(disk, b[|b| - 1], now, mid.1);
      assert PagesOf(disk, a + b, now, next) == (PagesOf(disk, a + b0, now, next).0 + [lp.0], lp.1);
      assert PagesOf(disk, b, now, first.1) == (mid.0 + [lp.0], lp.1);
      AppendAssoc(first.0, mid.0, [lp.0]);
    }
  }

  lemma PagesOfOne(disk: Disk, p: Path, now: Timestamp, next: Uuid)
    ensures PagesOf(disk, [p], now, next) == ([LoadPage(disk, p, now, next).0], LoadPage(disk, p, now, next).1)
  {
    assert [p][..0] == [];
    assert PagesOf(disk, [], now, next) == ([], next);
    assert [] + [LoadPage(disk, p, now, next).0] == [LoadPage(disk, p, now, next).0];
  }

  lemma AppendAssoc<T>(a: seq<T>, b: seq<T>, c: seq<T>)
    ensures a + b + c == a + (b + c)
  {
  }

  lemma UnionAssoc<T>(a: set<T>, b: set<T>, c: set<T>)
    ensures a + b + c == a + (b + c)
  {
  }

  /**
   * A walk's pages are its own folder's page, then the pages of its child
   * folders' walks: what loading the folder and then its child folders
   * accumulates is what the walk from the folder loads.
   */
  lemma WalkNodeLoads(disk: Disk, p: Path, now: Timestamp, next: Uuid,
                      pagesIn: seq<Page>, seenIn: set<Path>,
                      pagesMid: seq<Page>, seenMid: set<Path>, nextMid: Uuid,
                      pagesOut: seq<Page>, seenOut: set<Path>, nextOut: Uuid)
    requires pagesMid == pagesIn + PagesOf(disk, [p], now, next).0
    requires nextMid == PagesOf(disk, [p], now, next).1
    requires seenMid == seenIn + PageUrls(PagesOf(disk, [p], now, next).0)
    requires pagesOut == pagesMid + PagesOf(disk, WalkFolders(disk, p, ChildFolders(disk, p)).folders, now, nextMid).0
    requires nextOut == PagesOf(disk, WalkFolders(disk, p, ChildFolders(disk, p)).folders, now, nextMid).1
    requires seenOut == seenMid + PageUrls(PagesOf(disk, WalkFolders(disk, p, ChildFolders(disk, p)).folders, now, nextMid).0)
    ensures pagesOut == pagesIn + PagesOf(disk, WalkNode(disk, p).folders, now, next).0
    ensures nextOut == PagesOf(disk, WalkNode(disk, p).folders, now, next).1
    ensures seenOut == seenIn + PageUrls(PagesOf(disk, WalkNode(disk, p).folders, now, next).0)
  {
    var sub := WalkFolders(disk, p, ChildFolders(disk, p)).folders;
    var first := PagesOf(disk, [p], now, next);
    var rest := PagesOf(disk, sub, now, first.1);
    var all := PagesOf(disk, WalkNode(disk, p).folders, now, next);
    assert all.0 == first.0 + rest.0 && all.1 == rest.1 by {
      assert WalkNode(disk, p).folders == [p] + sub;
      PagesOfAppend(disk, [p], sub, now, next);
    }
    assert pagesOut == pagesIn + all.0 by {
      AppendAssoc(pagesIn, first.0, rest.0);
    }
    assert PageUrls(all.0) == PageUrls(first.0) + PageUrls(rest.0) by {
      PageUrlsAppend(first.0, rest.0);
    }
    UnionAssoc(seenIn, PageUrls(first.0), PageUrls(rest.0));
  }

  /** `loadPage(from:)` appended to the pages loaded so far. */
  method LoadOnePage(disk: Disk, folder: Path, now: Timestamp, next: Uuid, pagesIn: seq<Page>, seenIn: set<Path>)
    returns (pagesOut: seq<Page>, seenOut: set<Path>, nextOut: Uuid)
    ensures pagesOut == pagesIn + PagesOf(disk, [folder], now, next).0
    ensures nextOut == PagesOf(disk, [folder], now, next).1
    ensures seenOut == seenIn + PageUrls(PagesOf(disk, [folder], now, next).0)
  {
    var page;
    page, nextOut := LoadPageFrom(disk, folder, now, next);
    pagesOut := pagesIn + [page];
    seenOut := seenIn + {folder};
    PagesOfOne(disk, folder, now, next);
    assert PageUrls([page]) == {folder} by {
      assert [page][..0] == [];
    }
  }

  /**
   * `loadNode(at:)` as the program runs it: appends the page of every
   * folder it visits to `pagesIn`, adds their URLs to `seenIn`, and draws
   * identities from `next` on.
   */
  method LoadNode(disk: Disk, folder: Path, now: Timestamp, next: Uuid, pagesIn: seq<Page>, seenIn: set<Path>)
    returns (node: PageNode, pagesOut: seq<Page>, seenOut: set<Path>, nextOut: Uuid)
    ensures node == WalkNode(disk, folder).node
    ensures pagesOut == pagesIn + PagesOf(disk, WalkNode(disk, folder).folders, now, next).0
    ensures nextOut == PagesOf(disk, WalkNode(disk, folder).folders, now, next).1
    ensures seenOut == seenIn + PageUrls(PagesOf(disk, WalkNode(disk, folder).folders, now, next).0)
    decreases Below(disk, folder), 1
  {
    pagesOut, seenOut, nextOut := LoadOnePage(disk, folder, now, next, pagesIn, seenIn);
    ghost var pagesMid, seenMid, nextMid := pagesOut, seenOut, nextOut;
    var childFolders := ChildFolders(disk, folder);
    var children;
    children, pagesOut, seenOut, nextOut := LoadFolders(disk, folder, childFolders, now, nextOut, pagesOut, seenOut);
    children := SortByName(children, NodeName);
    node := PageNode(folder, if children == [] then Leaf else Branch(children));
    WalkNodeLoads(disk, folder, now, next, pagesIn, seenIn, pagesMid, seenMid, nextMid, pagesOut, seenOut, nextOut);
  }

  /** `childFolders.map { loadNode(at: $0) }`, and the root loop of `reload`. */
  method LoadFolders(disk: Disk, dir: Path, names: seq<string>, now: Timestamp, next: Uuid, pagesIn: seq<Page>, seenIn: set<Path>)
    returns (nodes: seq<PageNode>, pagesOut: seq<Page>, seenOut: set<Path>, nextOut: Uuid)
    requires names != [] ==> dir in disk
    ensures nodes == WalkFolders(disk, dir, names).nodes
    ensures pagesOut == pagesIn + PagesOf(disk, WalkFolders(disk, dir, names).folders, now, next).0
    ensures nextOut == PagesOf(disk, WalkFolders(disk, dir, names).folders, now, next).1
    ensures seenOut == seenIn + PageUrls(PagesOf(disk, WalkFolders(disk, dir, names).folders, now, next).0)
    decreases Below(disk, dir), 0
  {
    nodes, pagesOut, seenOut, nextOut := [], pagesIn, seenIn, next;
    ghost var done := WalkFolders(disk, dir, []);
    ghost var loaded := PagesOf(disk, [], now, next);
    for i := 0 to |names|
      invariant done == WalkFolders(disk, dir, names[..i])
      invariant loaded == PagesOf(disk, done.folders, now, next)
      invariant nodes == done.nodes && nextOut == loaded.1
      invariant pagesOut == pagesIn + loaded.0
      invariant seenOut == seenIn + PageUrls(loaded.0)
    {
      BelowShrinks(disk, dir, names[i]);
      var node;
      node, pagesOut, seenOut, nextOut := LoadNode(disk, dir + [names[i]], now, nextOut, pagesOut, seenOut);
      nodes := nodes + [node];
      ghost var w := WalkNode(disk, dir + [names[i]]);
      ghost var more := PagesOf(disk, w.folders, now, loaded.1);
      AppendAssoc(pagesIn, loaded.0, more.0);
      PageUrlsAppend(loaded.0, more.0);
      UnionAssoc(seenIn, PageUrls(loaded.0), PageUrls(more.0));
      PagesOfAppend(disk, done.folders, w.folders, now, next);
      WalkFoldersSnoc(disk, dir, names, i);
      done := FolderWalk(done.nodes + [w.node], done.folders + w.folders);
      loaded := (loaded.0 + more.0, more.1);
    }
    assert names[..|names|] == names;
  }

  /** One more folder extends a sibling walk by that folder's walk. */
  lemma WalkFoldersSnoc(disk: Disk, p: Path, names: seq<string>, i: nat)
    requires i < |names| && p in disk
    ensures WalkFolders(disk, p, names[..i + 1]) ==
              FolderWalk(WalkFolders(disk, p, names[..i]).nodes + [WalkNode(disk, p + [names[i]]).node],
                         WalkFolders(disk, p, names[..i]).folders + WalkNode(disk, p + [names[i]]).folders)
  {
    assert names[..i + 1][..i] == names[..i];
  }

  /** A sibling walk yields one node per folder, at `p + [name]`, in order. */
  lemma {:induction false} WalkFoldersNodes(disk: Disk, p: Path, names: seq<string>)
    requires names != [] ==> p in disk
    ensures forall k :: 0 <= k < |names| ==> WalkFolders(disk, p, names).nodes[k].url == p + [names[k]]
    decreases |names|
  {
    if names != [] {
      WalkFoldersNodes(disk, p, names[..|names| - 1]);
    }
  }

  /**
   * A node is a leaf exactly when its folder has no child folders (in
   * particular when its listing fails); otherwise it has one child per
   * child folder, and a child at `p + [name]` exactly for the child
   * folders `name`.
   */
  lemma WalkNodeChildren(disk: Disk, p: Path)
    ensures var n := WalkNode(disk, p).node;
            (n.children.Leaf? <==> ChildFolders(disk, p) == []) &&
            (n.children.Branch? ==>
               |n.children.nodes| == |ChildFolders(disk, p)| &&
               forall name :: name in ChildFolders(disk, p) <==> exists c :: c in n.children.nodes && c.url == p + [name])
  {
    var names := ChildFolders(disk, p);
    var sub := WalkFolders(disk, p, names);
    WalkFoldersNodes(disk, p, names);
    var n := WalkNode(disk, p).node;
    if names != [] {
      var cs := n.children.nodes;
      assert multiset(cs) == multiset(sub.nodes);
      forall name ensures name in names <==> exists c :: c in cs && c.url == p + [name] {
        if name in names {
          var k :| 0 <= k < |names| && names[k] == name;
          assert sub.nodes[k] in multiset(cs);
        }
        if c :| c in cs && c.url == p + [name] {
          assert c in multiset(sub.nodes);
          var k :| 0 <= k < |sub.nodes| && sub.nodes[k] == c;
          assert names[k] == (p + [names[k]])[|p|] == (p + [name])[|p|] == name;
        }
      }
    }
  }

  /**
   * The shape the builder guarantees everywhere in a tree: a child list,
   * when present, is never empty and is sorted by name.
   */
  ghost predicate WellShaped(n: PageNode)
  {
    match n.children
    case Leaf => true
    case Branch(cs) => cs != [] && SortedByName(cs, NodeName) && forall c :: c in cs ==> WellShaped(c)
  }

  lemma {:induction false} WalkNodeWellShaped(disk: Disk, p: Path)
    ensures WellShaped(WalkNode(disk, p).node)
    decreases Below(disk, p), 1
  {
    var sub := WalkFolders(disk, p, ChildFolders(disk, p));
    WalkFoldersWellShaped(disk, p, ChildFolders(disk, p));
    if |sub.nodes| != 0 {
      var sorted := SortByName(sub.nodes, NodeName);
      SortByNameSorted(sub.nodes, NodeName);
      forall c | c in sorted ensures WellShaped(c) {
        assert c in multiset(sub.nodes);
      }
    }
  }

  lemma {:induction false} WalkFoldersWellShaped(disk: Disk, p: Path, names: seq<string>)
    requires names != [] ==> p in disk
    ensures forall c :: c in WalkFolders(disk, p, names).nodes ==> WellShaped(c)
    decreases Below(disk, p), 0, |names|
  {
    if names != [] {
      var last := |names| - 1;
      WalkFoldersWellShaped(disk, p, names[..last]);
      BelowShrinks(disk, p, names[last]);
      WalkNodeWellShaped(disk, p + [names[last]]);
    }
  }

  /** Paths at or below `p + [n]` lie strictly below `p`, under its child `n`. */
  lemma UnderChild(p: Path, n: string, fs: seq<Path>)
    requires forall k :: 0 <= k < |fs| ==> p + [n] <= fs[k]
    ensures forall k :: 0 <= k < |fs| ==> |p| < |fs[k]| && p <= fs[k] && fs[k][|p|] == n
  {
    forall k | 0 <= k < |fs| ensures |p| < |fs[k]| && p <= fs[k] && fs[k][|p|] == n {
      assert fs[k][..|p| + 1] == p + [n];
      assert fs[k][..|p|] == fs[k][..|p| + 1][..|p|] == p;
    }
  }

  /** Every folder a walk from `p` visits lies at or below `p`, and only the first is `p` itself. */
  lemma {:induction false} WalkNodeBelow(disk: Disk, p: Path)
    ensures forall k :: 0 <= k < |WalkNode(disk, p).folders| ==>
              p <= WalkNode(disk, p).folders[k] && (k > 0 ==> |p| < |WalkNode(disk, p).folders[k]|)
    decreases Below(disk, p), 1
  {
    var names := ChildFolders(disk, p);
    var sub := WalkFolders(disk, p, names);
    WalkFoldersBelow(disk, p, names);
    var fs := [p] + sub.folders;
    forall k | 0 < k < |fs| ensures p <= fs[k] && |p| < |fs[k]| {
      assert fs[k] == sub.folders[k - 1];
    }
  }

  /** Every folder a sibling walk visits lies strictly below `p`, under one of `names`. */
  lemma {:induction false} WalkFoldersBelow(disk: Disk, p: Path, names: seq<string>)
    requires names != [] ==> p in disk
    ensures forall k :: 0 <= k < |WalkFolders(disk, p, names).folders| ==>
              |p| < |WalkFolders(disk, p, names).folders[k]| && p <= WalkFolders(disk, p, names).folders[k] &&
              WalkFolders(disk, p, names).folders[k][|p|] in names
    decreases Below(disk, p), 0, |names|
  {
    if names != [] {
      var last := |names| - 1;
      var init := WalkFolders(disk, p, names[..last]);
      WalkFoldersBelow(disk, p, names[..last]);
      BelowShrinks(disk, p, names[last]);
      WalkNodeBelow(disk, p + [names[last]]);
      var w := WalkNode(disk, p + [names[last]]);
      UnderChild(p, names[last], w.folders);
      var fs := init.folders + w.folders;
      forall k | 0 <= k < |fs| ensures |p| < |fs[k]| && p <= fs[k] && fs[k][|p|] in names {
        if k < |init.folders| {
          assert fs[k] == init.folders[k];
          assert fs[k][|p|] in names[..last];
        } else {
          assert fs[k] == w.folders[k - |init.folders|];
        }
      }
    }
  }

  /**
   * On a disk where no folder lists a name twice, a walk visits every
   * folder at most once.
   */
  lemma {:induction false} WalkNodeVisitsOnce(disk: Disk, p: Path)
    requires WellFormed(disk)
    ensures NoDuplicates(WalkNode(disk, p).folders)
    decreases Below(disk, p), 1
  {
    var names := ChildFolders(disk, p);
    var sub := WalkFolders(disk, p, names);
    ChildFoldersNoDuplicates(disk, p);
    WalkFoldersVisitsOnce(disk, p, names);
    WalkFoldersBelow(disk, p, names);
    var fs := [p] + sub.folders;
    forall i, j | 0 <= i < j < |fs| ensures fs[i] != fs[j] {
      assert fs[j] == sub.folders[j - 1];
      if i > 0 {
        assert fs[i] == sub.folders[i - 1];
      }
    }
  }

  lemma {:induction false} WalkFoldersVisitsOnce(disk: Disk, p: Path, names: seq<string>)
    requires WellFormed(disk) && NoDuplicates(names)
    requires names != [] ==> p in disk
    ensures NoDuplicates(WalkFolders(disk, p, names).folders)
    decreases Below(disk, p), 0, |names|
  {
    if names != [] {
      var last := |names| - 1;
      var init := WalkFolders(disk, p, names[..last]);
      assert NoDuplicates(names[..last]);
      WalkFoldersVisitsOnce(disk, p, names[..last]);
      WalkFoldersBelow(disk, p, names[..last]);
      BelowShrinks(disk, p, names[last]);
      WalkNodeVisitsOnce(disk, p + [names[last]]);
      WalkNodeBelow(disk, p + [names[last]]);
      var w := WalkNode(disk, p + [names[last]]);
      UnderChild(p, names[last], w.folders);
      assert names[last] !in names[..last];
      var fs := init.folders + w.folders;
      var n0 := |init.folders|;
      forall i, j | 0 <= i < j < |fs| ensures fs[i] != fs[j] {
        if j < n0 {
          assert fs[i] == init.folders[i] && fs[j] == init.folders[j];
        } else if i >= n0 {
          assert fs[i] == w.folders[i - n0] && fs[j] == w.folders[j - n0];
        } else {
          assert fs[i] == init.folders[i] && fs[j] == w.folders[j - n0];
          assert fs[i][|p|] in names[..last];
        }
      }
    }
  }

  lemma ChildFoldersNoDuplicates(disk: Disk, p: Path)
    requires WellFormed(disk)
    ensures NoDuplicates(ChildFolders(disk, p))
  {
    if p in disk {
      VisibleNoDuplicates(disk[p].entries);
      FoldersAmongNoDuplicates(Visible(disk[p].entries), disk[p].subdirs);
    }
  }

  lemma {:induction false} FoldersAmongNoDuplicates(names: seq<string>, subdirs: set<string>)
    requires NoDuplicates(names)
    ensures NoDuplicates(FoldersAmong(names, subdirs))
  {
    if names != [] {
      assert NoDuplicates(names[1..]) by {
        forall i, j | 0 <= i < j < |names[1..]| ensures names[1..][i] != names[1..][j] {
          assert names[1..][i] == names[i + 1] && names[1..][j] == names[j + 1];
        }
      }
      FoldersAmongNoDuplicates(names[1..], subdirs);
      assert names[0] !in names[1..] by {
        forall k | 0 <= k < |names[1..]| ensures names[1..][k] != names[0] {
          assert names[1..][k] == names[k + 1];
        }
      }
    }
  }

  /**
   * The pages a walk loads are exactly one per visited folder, in visiting
   * order, so on a well-formed disk no two of them share a URL.
   */
  lemma WalkPagesOnce(disk: Disk, p: Path, now: Timestamp, next: Uuid)
    requires WellFormed(disk)
    ensures UrlSeq(PagesOf(disk, WalkNode(disk, p).folders, now, next).0) == WalkNode(disk, p).folders
    ensures NoDuplicates(UrlSeq(PagesOf(disk, WalkNode(disk, p).folders, now, next).0))
  {
    WalkNodeVisitsOnce(disk, p);
  }
}
