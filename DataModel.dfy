// The value types of the page engine: items, page content, pages and the
// tree projection of page folders.

module DataModel {

  datatype Option<T> = None | Some(value: T)

  /** An item identity token (a UUID in the application). */
  type Uuid = nat

  /** A point in time (a `Date` in the application). */
  type Timestamp = int

  /** A file URL, as its sequence of path components. */
  type Path = seq<string>

  /** `lastPathComponent`: the final component, "" for the empty path. */
  function LastComponent(p: Path): string
  {
    if p == [] then "" else p[|p| - 1]
  }

  /** `deletingLastPathComponent`: the path of the enclosing folder. */
  function Parent(p: Path): Path
  {
    if p == [] then [] else p[..|p| - 1]
  }

  lemma ParentOfChild(p: Path, name: string)
    ensures Parent(p + [name]) == p && LastComponent(p + [name]) == name
  {
    assert (p + [name])[..|p|] == p;
  }

  datatype DiskFileMetadata = DiskFileMetadata(createdAt: Timestamp)

  /** One element of a page's ordered content: a text block or a file reference. */
  datatype PageItem =
    | Text(textId: Uuid, body: string)
    | File(fileId: Uuid, filename: string, metadata: DiskFileMetadata)
  {
    /** The identity of an item is the token in its first field, for both variants. */
    function Id(): Uuid
    {
      match this
      case Text(id, _) => id
      case File(id, _, _) => id
    }
  }

  lemma ItemIdIsFirstField(id: Uuid, body: string, filename: string, meta: DiskFileMetadata)
    ensures Text(id, body).Id() == id
    ensures File(id, filename, meta).Id() == id
  {
  }

  datatype PageContent = PageContent(items: seq<PageItem>)

  /** One folder is one page, identified by its URL. */
  datatype Page = Page(url: Path, content: PageContent)
  {
    function Id(): Path { url }
    function Name(): string { LastComponent(url) }
  }

  /** The tree projection of a page folder. */
  datatype PageNode = PageNode(url: Path, children: NodeChildren)
  {
    function Id(): Path { url }
    function Name(): string { LastComponent(url) }
  }

  /** The optional child list of a node: `nil` for a leaf, else the child nodes. */
  datatype NodeChildren = Leaf | Branch(nodes: seq<PageNode>)

  lemma PageIdentityIsUrl(p: Page, q: Page)
    ensures p.Id() == q.Id() <==> p.url == q.url
    ensures p.Name() == LastComponent(p.url)
  {
  }

  lemma NodeIdentityIsUrl(n: PageNode, m: PageNode)
    ensures n.Id() == m.Id() <==> n.url == m.url
    ensures n.Name() == LastComponent(n.url)
  {
  }

  /** `page.name` as a function value, for sorting. */
  function PageName(p: Page): string { p.Name() }

  /** `node.name` as a function value, for sorting. */
  function NodeName(n: PageNode): string { n.Name() }

  /** `item.id` as a function value, for searching. */
  function ItemId(it: PageItem): Uuid { it.Id() }

  /** `page.id` as a function value, for searching. */
  function PageId(p: Page): Path { p.Id() }

  /** `firstIndex(where: { key($0) == k })`: the first position whose key is `k`, if any. */
  function FirstWhere<T, K(==)>(s: seq<T>, key: T -> K, k: K): (r: Option<nat>)
    ensures r.Some? ==> r.value < |s| && key(s[r.value]) == k
    ensures r.Some? ==> forall j :: 0 <= j < r.value ==> key(s[j]) != k
    ensures r.None? ==> forall j :: 0 <= j < |s| ==> key(s[j]) != k
  {
    if s == [] then None
    else if key(s[0]) == k then Some(0)
    else match FirstWhere(s[1..], key, k)
      case None => None
      case Some(j) => Some(j + 1)
  }

  /**
   * Every identity in the list lies below `bound`, so no identity drawn
   * from a counter at `bound` or above can collide with one of them.
   */
  predicate IdsBelow(items: seq<PageItem>, bound: Uuid)
  {
    forall it :: it in items ==> it.Id() < bound
  }

  /** Every identity on every page lies below `bound`. */
  predicate PagesIdsBelow(pages: seq<Page>, bound: Uuid)
  {
    forall p :: p in pages ==> IdsBelow(p.content.items, bound)
  }

  /** A list made of items of lists below the bound, and of items below it, stays below it. */
  lemma IdsBelowFrom(s: seq<PageItem>, t: seq<PageItem>, bound: Uuid)
    requires IdsBelow(s, bound)
    requires forall it :: it in t ==> it in s || it.Id() < bound
    ensures IdsBelow(t, bound)
  {
  }

  /** Replacing one page by a page below the bound keeps a page list below it. */
  lemma PagesIdsBelowUpdate(pages: seq<Page>, k: nat, page: Page, bound: Uuid)
    requires k < |pages| && PagesIdsBelow(pages, bound) && IdsBelow(page.content.items, bound)
    ensures PagesIdsBelow(pages[k := page], bound)
  {
    forall p | p in pages[k := page] ensures IdsBelow(p.content.items, bound) {
      var j :| 0 <= j < |pages[k := page]| && pages[k := page][j] == p;
      if j != k {
        assert p == pages[j];
      }
    }
  }

  /** The set of URLs of a page list. */
  function PageUrls(pages: seq<Page>): set<Path>
  {
    if pages == [] then {} else PageUrls(pages[..|pages| - 1]) + {pages[|pages| - 1].url}
  }

  lemma {:induction false} PageUrlsAppend(a: seq<Page>, b: seq<Page>)
    ensures PageUrls(a + b) == PageUrls(a) + PageUrls(b)
    decreases |b|
  {
    if b != [] {
      assert (a + b)[..|a + b| - 1] == a + b[..|b| - 1];
      PageUrlsAppend(a, b[..|b| - 1]);
    } else {
      assert a + b == a;
    }
  }

  lemma {:induction false} PageUrlsMembers(pages: seq<Page>)
    ensures forall u :: u in PageUrls(pages) <==> exists i :: 0 <= i < |pages| && pages[i].url == u
    decreases |pages|
  {
    if pages != [] {
      var init := pages[..|pages| - 1];
      PageUrlsMembers(init);
      assert forall i :: 0 <= i < |init| ==> init[i] == pages[i];
    }
  }

  /** The URLs of a page list, in order. */
  function UrlSeq(pages: seq<Page>): (r: seq<Path>)
    ensures |r| == |pages| && forall i :: 0 <= i < |pages| ==> r[i] == pages[i].url
  {
    seq(|pages|, i requires 0 <= i < |pages| => pages[i].url)
  }
}
