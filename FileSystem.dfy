// An abstract file system: the state the engine reads and writes through
// the file manager. Every folder the model knows about maps to its raw
// listing; a folder missing from the map is one whose listing fails.

module FileSystem {
  import opened DataModel

  /** The hidden layout file kept in every page folder. */
  const SidecarName: string := "._context_layout.json"

  /**
   * One folder: the names it contains (hidden ones included, in listing
   * order), which of them are folders, and what its layout file parses to
   * (None when it does not parse). The layout file exists exactly when
   * SidecarName is among the entries.
   */
  datatype Dir = Dir(entries: seq<string>, subdirs: set<string>, layout: Option<seq<PageItem>>)

  type Disk = map<Path, Dir>

  const EmptyDir: Dir := Dir([], {}, None)

  predicate IsHidden(name: string)
  {
    |name| > 0 && name[0] == '.'
  }

  lemma SidecarIsHidden()
    ensures IsHidden(SidecarName)
  {
  }

  /** The listing with hidden names skipped (`.skipsHiddenFiles`). */
  function Visible(names: seq<string>): (r: seq<string>)
    ensures forall n :: n in r <==> n in names && !IsHidden(n)
    ensures |r| <= |names|
  {
    if names == [] then []
    else if IsHidden(names[0]) then Visible(names[1..])
    else [names[0]] + Visible(names[1..])
  }

  lemma {:induction false} VisibleAppend(a: seq<string>, b: seq<string>)
    ensures Visible(a + b) == Visible(a) + Visible(b)
  {
    if a == [] {
      assert a + b == b;
    } else {
      assert (a + b)[1..] == a[1..] + b;
      VisibleAppend(a[1..], b);
    }
  }

  /** `contentsOfDirectory(at:options: [.skipsHiddenFiles])`: None when the listing fails. */
  function ContentsOfDirectory(disk: Disk, dir: Path): (r: Option<seq<string>>)
    ensures r.Some? <==> dir in disk
    ensures r.Some? ==> forall n :: n in r.value ==> !IsHidden(n) && n in disk[dir].entries
  {
    if dir in disk then Some(Visible(disk[dir].entries)) else None
  }

  /** `fileExists(atPath:)`: a folder the disk knows, or a name listed in its parent. */
  predicate FileExists(disk: Disk, p: Path)
    ensures p in disk ==> FileExists(disk, p)
    ensures FileExists(disk, p) ==> p in disk || (p != [] && Parent(p) in disk)
  {
    p in disk || (p != [] && Parent(p) in disk && LastComponent(p) in disk[Parent(p)].entries)
  }

  /** The names under `dir` that are taken: listed entries and known sub-folders. */
  function Occupied(disk: Disk, dir: Path): (r: set<string>)
    ensures forall n :: n in r <==> FileExists(disk, dir + [n])
  {
    var listed := if dir in disk then set n | n in disk[dir].entries else {};
    var folders := set q | q in disk.Keys && |q| == |dir| + 1 && q[..|dir|] == dir :: q[|dir|];
    assert forall n :: FileExists(disk, dir + [n]) ==> n in listed + folders by {
      forall n | FileExists(disk, dir + [n]) ensures n in listed + folders {
        ParentOfChild(dir, n);
        if dir + [n] in disk {
          var q := dir + [n];
          assert q[..|dir|] == dir && q[|dir|] == n;
        }
      }
    }
    assert forall n :: n in listed + folders ==> FileExists(disk, dir + [n]) by {
      forall n | n in listed + folders ensures FileExists(disk, dir + [n]) {
        ParentOfChild(dir, n);
        if n !in listed {
          var q :| q in disk.Keys && |q| == |dir| + 1 && q[..|dir|] == dir && q[|dir|] == n;
          assert q == dir + [n];
        }
      }
    }
    listed + folders
  }

  /**
   * Reading the layout file: the parsed items when the file exists and
   * parses, and the empty list when it is missing or does not parse.
   */
  function ReadSidecar(disk: Disk, dir: Path): (r: seq<PageItem>)
    ensures dir !in disk || SidecarName !in disk[dir].entries ==> r == []
    ensures dir in disk && disk[dir].layout.None? ==> r == []
    ensures r != [] ==> dir in disk && disk[dir].layout == Some(r)
  {
    if dir in disk && SidecarName in disk[dir].entries && disk[dir].layout.Some?
    then disk[dir].layout.value
    else []
  }

  /** Writing the layout file: creates or replaces it; fails (no change) when the folder is gone. */
  function WriteSidecar(disk: Disk, dir: Path, items: seq<PageItem>): (r: Disk)
    ensures r.Keys == disk.Keys
    ensures forall q :: q in disk && q != dir ==> r[q] == disk[q]
    ensures dir in disk ==> r[dir].subdirs == disk[dir].subdirs && r[dir].layout == Some(items)
  {
    if dir !in disk then disk
    else
      var d := disk[dir];
      var entries := if SidecarName in d.entries then d.entries else d.entries + [SidecarName];
      disk[dir := Dir(entries, d.subdirs, Some(items))]
  }

  /** Writing then reading a layout file gives back the written list. */
  lemma SidecarRoundTrip(disk: Disk, dir: Path, items: seq<PageItem>)
    requires dir in disk
    ensures ReadSidecar(WriteSidecar(disk, dir, items), dir) == items
  {
  }

  /** Writing a layout file never changes what any folder lists. */
  lemma WriteSidecarKeepsListings(disk: Disk, dir: Path, items: seq<PageItem>, q: Path)
    ensures ContentsOfDirectory(WriteSidecar(disk, dir, items), q) == ContentsOfDirectory(disk, q)
  {
    if dir in disk && q == dir && SidecarName !in disk[dir].entries {
      VisibleAppend(disk[dir].entries, [SidecarName]);
      SidecarIsHidden();
      assert [SidecarName][1..] == [];
      assert Visible([SidecarName]) == [];
      assert WriteSidecar(disk, dir, items)[dir].entries == disk[dir].entries + [SidecarName];
      assert Visible(disk[dir].entries + [SidecarName]) == Visible(disk[dir].entries);
    }
  }

  /** Every occurrence of `name` removed from a listing. */
  function Without(names: seq<string>, name: string): (r: seq<string>)
    ensures forall n :: n in r <==> n in names && n != name
  {
    if names == [] then []
    else if names[0] == name then Without(names[1..], name)
    else [names[0]] + Without(names[1..], name)
  }

  /**
   * `removeItem(at:)`: removes the entry and, for a folder, everything
   * below it. Fails (no change) when nothing exists at the path.
   */
  function RemoveItem(disk: Disk, p: Path): (r: Disk)
    ensures !FileExists(disk, p) ==> r == disk
    ensures FileExists(disk, p) && p != [] ==> !FileExists(r, p)
    ensures FileExists(disk, p) ==> forall q :: q in r ==> q in disk && !(p <= q)
    ensures forall q :: q in r ==> q in disk && r[q].layout == disk[q].layout
    ensures FileExists(disk, p) ==> forall q :: q in disk && !(p <= q) ==>
      q in r && (r[q] == disk[q] || (p != [] && q == Parent(p)))
    ensures FileExists(disk, p) && p != [] && Parent(p) in disk ==>
      Parent(p) in r &&
      r[Parent(p)] == Dir(Without(disk[Parent(p)].entries, LastComponent(p)), disk[Parent(p)].subdirs - {LastComponent(p)}, disk[Parent(p)].layout)
  {
    if !FileExists(disk, p) then disk
    else
      var pruned := map q | q in disk && !(p <= q) :: disk[q];
      if p != [] && Parent(p) in pruned then
        var d := pruned[Parent(p)];
        pruned[Parent(p) := Dir(Without(d.entries, LastComponent(p)), d.subdirs - {LastComponent(p)}, d.layout)]
      else pruned
  }

  /**
   * `copyItem(at:to:)` of a file: the destination name appears in the
   * target folder. Fails (no change) when the source does not exist, the
   * destination exists, or the target folder is gone.
   */
  function CopyItem(disk: Disk, src: Path, dest: Path): (r: Disk)
    requires dest != []
    ensures r.Keys == disk.Keys
    ensures r != disk ==> FileExists(r, dest) && !FileExists(disk, dest)
    ensures forall q :: q in r ==> r[q].layout == disk[q].layout
    ensures !FileExists(disk, src) || FileExists(disk, dest) || Parent(dest) !in disk ==> r == disk
    ensures FileExists(disk, src) && !FileExists(disk, dest) && Parent(dest) in disk ==>
      r[Parent(dest)] == Dir(disk[Parent(dest)].entries + [LastComponent(dest)], disk[Parent(dest)].subdirs, disk[Parent(dest)].layout)
    ensures forall q :: q in disk && q != Parent(dest) ==> r[q] == disk[q]
  {
    var dir := Parent(dest);
    if !FileExists(disk, src) || FileExists(disk, dest) || dir !in disk then disk
    else
      var d := disk[dir];
      disk[dir := Dir(d.entries + [LastComponent(dest)], d.subdirs, d.layout)]
  }

  /**
   * `createDirectory(at:withIntermediateDirectories: true)` for a folder
   * whose parent exists: a new empty folder. An existing folder is left as
   * it is; an existing file of that name makes it fail.
   */
  function CreateDirectory(disk: Disk, p: Path): (r: Disk)
    requires p != []
    ensures Parent(p) in disk && !FileExists(disk, p) ==>
      p in r && r[p] == EmptyDir && Parent(p) in r && LastComponent(p) in r[Parent(p)].subdirs
    ensures forall q :: q in disk ==> q in r
    ensures forall q :: q in r ==> if q in disk then r[q].layout == disk[q].layout else r[q].layout.None?
    ensures Parent(p) !in disk || FileExists(disk, p) ==> r == disk
    ensures Parent(p) in disk && !FileExists(disk, p) ==>
      r.Keys == disk.Keys + {p} &&
      r[Parent(p)] == Dir(disk[Parent(p)].entries + [LastComponent(p)], disk[Parent(p)].subdirs + {LastComponent(p)}, disk[Parent(p)].layout)
    ensures forall q :: q in disk && q != Parent(p) ==> r[q] == disk[q]
  {
    var dir := Parent(p);
    if p in disk || dir !in disk || FileExists(disk, p) then disk
    else
      var d := disk[dir];
      assert p != dir;
      disk[dir := Dir(d.entries + [LastComponent(p)], d.subdirs + {LastComponent(p)}, d.layout)][p := EmptyDir]
  }

  /** A copied file that is not hidden joins the end of its folder's listing; the folder's other entries stay listed. */
  lemma CopyItemListed(disk: Disk, src: Path, dest: Path)
    requires dest != [] && FileExists(disk, src) && !FileExists(disk, dest) && Parent(dest) in disk
    requires !IsHidden(LastComponent(dest))
    ensures ContentsOfDirectory(CopyItem(disk, src, dest), Parent(dest)) ==
      Some(Visible(disk[Parent(dest)].entries) + [LastComponent(dest)])
  {
    var name := LastComponent(dest);
    VisibleAppend(disk[Parent(dest)].entries, [name]);
    assert [name][1..] == [];
    assert Visible([name]) == [name];
    assert CopyItem(disk, src, dest)[Parent(dest)].entries == disk[Parent(dest)].entries + [name];
  }

  /**
   * Every identity stored in any layout file lies below `bound` (a parsed
   * layout counts even when its file has been removed from the listing).
   */
  predicate LayoutIdsBelow(disk: Disk, bound: Uuid)
  {
    forall q :: q in disk && disk[q].layout.Some? ==> IdsBelow(disk[q].layout.value, bound)
  }

  /** What is read from a layout file lies below any bound all layouts lie below. */
  lemma ReadSidecarIdsBelow(disk: Disk, dir: Path, bound: Uuid)
    requires LayoutIdsBelow(disk, bound)
    ensures IdsBelow(ReadSidecar(disk, dir), bound)
  {
  }

  /** Writing a list below the bound keeps every layout below it. */
  lemma WriteSidecarIdsBelow(disk: Disk, dir: Path, items: seq<PageItem>, bound: Uuid)
    requires LayoutIdsBelow(disk, bound) && IdsBelow(items, bound)
    ensures LayoutIdsBelow(WriteSidecar(disk, dir, items), bound)
  {
  }

  /** A larger bound holds whenever a smaller one does. */
  lemma LayoutIdsBelowMono(disk: Disk, bound: Uuid, larger: Uuid)
    requires LayoutIdsBelow(disk, bound) && bound <= larger
    ensures LayoutIdsBelow(disk, larger)
  {
  }

  /** No folder lists a name twice (true of any real directory). */
  ghost predicate WellFormed(disk: Disk)
  {
    forall q :: q in disk ==> NoDuplicates(disk[q].entries)
  }

  predicate NoDuplicates<T(==)>(s: seq<T>)
  {
    forall i, j :: 0 <= i < j < |s| ==> s[i] != s[j]
  }

  lemma {:induction false} VisibleNoDuplicates(names: seq<string>)
    requires NoDuplicates(names)
    ensures NoDuplicates(Visible(names))
  {
    if names != [] {
      assert NoDuplicates(names[1..]) by {
        forall i, j | 0 <= i < j < |names[1..]| ensures names[1..][i] != names[1..][j] {
          assert names[1..][i] == names[i + 1] && names[1..][j] == names[j + 1];
        }
      }
      VisibleNoDuplicates(names[1..]);
      assert names[0] !in names[1..] by {
        forall k | 0 <= k < |names[1..]| ensures names[1..][k] != names[0] {
          assert names[1..][k] == names[k + 1];
        }
      }
    }
  }
}
