/** `FileSystemItem` and `FileSystemProvider` (src/fileSystemProvider.ts):
    the checked-set state behind the tree view. */
module Provider {
  import opened Wrappers
  import opened Paths
  import opened InsertionSets
  import opened FileSystem
  import opened Listing

  /** A tree item: the resource, whether it is a directory, and the
      checked state computed when the item was built. */
  datatype Item = Item(uri: Path, isDirectory: bool, isChecked: bool) {
    /** `updateLabel`: a check box, a space, and the base name. */
    function Label(): string {
      (if isChecked then "[x]" else "[ ]") + " " + BaseName(uri)
    }
  }

  /** The label of an item built for entry `name` of a directory shows its
      checked state in the box and then the name itself. */
  lemma LabelShowsName(item: Item, parent: Path, name: string)
    requires item.uri == Join(parent, name) && '/' !in name
    ensures item.Label() == (if item.isChecked then "[x] " else "[ ] ") + name
    ensures item.Label()[1] == 'x' <==> item.isChecked
  {
    BaseNameOfJoin(parent, name);
  }

  /** `_calculateDirectoryCheckedState` as a value: the directory has a
      descendant file and every one of them is in `checked`. */
  predicate DirectoryChecked(fs: FileSystem, d: Path, checked: set<Path>) {
    Descendants(fs, d, File) != {} && Descendants(fs, d, File) <= checked
  }

  /** The item `getChildren` builds for entry `e` of `parent`. */
  function ItemFor(fs: FileSystem, parent: Path, e: Entry, checked: set<Path>): Item {
    var uri := Join(parent, e.name);
    if e.kind == Directory then Item(uri, true, DirectoryChecked(fs, uri, checked))
    else Item(uri, false, uri in checked)
  }

  /** The items of a readable directory: one per non-ignored entry of the
      sorted listing. */
  function ChildItems(fs: FileSystem, parent: Path, checked: set<Path>): seq<Item>
    requires parent in fs
  {
    ItemsFor(fs, parent, Visible(SortEntries(fs[parent])), checked)
  }

  function ItemsFor(fs: FileSystem, parent: Path, es: seq<Entry>, checked: set<Path>): (r: seq<Item>)
    ensures |r| == |es|
    ensures forall i :: 0 <= i < |es| ==> r[i] == ItemFor(fs, parent, es[i], checked)
  {
    if es == [] then []
    else ItemsFor(fs, parent, es[..|es| - 1], checked) + [ItemFor(fs, parent, es[|es| - 1], checked)]
  }

  lemma ItemsStep(fs: FileSystem, parent: Path, es: seq<Entry>, j: nat, checked: set<Path>)
    requires j < |es|
    ensures ItemsFor(fs, parent, Visible(es[..j + 1]), checked) ==
      ItemsFor(fs, parent, Visible(es[..j]), checked)
      + (if Ignored(es[j].name) then [] else [ItemFor(fs, parent, es[j], checked)])
  {
    assert es[..j + 1] == es[..j] + [es[j]];
    VisibleAppend(es[..j], [es[j]]);
    var v := Visible(es[..j]);
    if !Ignored(es[j].name) {
      assert Visible([es[j]]) == [es[j]];
      assert (v + [es[j]])[..|v|] == v;
    } else {
      assert Visible([es[j]]) == [];
      assert v + [] == v;
    }
  }

  /** The set after a directory toggle that sets every descendant file to
      `target`. */
  function ToggledMembers(checked: set<Path>, files: set<Path>, target: bool): set<Path> {
    if target then checked + files else checked - files
  }

  /** A file toggle: delete the path when present, add it otherwise. */
  function FlipFile(checked: seq<Path>, p: Path): (r: seq<Path>)
    ensures Distinct(checked) ==> Distinct(r)
    ensures p in Elems(r) <==> p !in Elems(checked)
    ensures forall q :: q != p ==> (q in Elems(r) <==> q in Elems(checked))
  {
    if p in checked then Delete(checked, p) else Add(checked, p)
  }

  /** What a directory toggle has done to the set `c` once the paths `done`
      are handled: added them after the original order, or removed them. */
  predicate SetAllState(before: seq<Path>, done: set<Path>, target: bool, c: seq<Path>) {
    Distinct(c)
    && (target ==> Elems(c) == Elems(before) + done && |c| >= |before| && c[..|before|] == before)
    && (!target ==> c == Without(before, done))
  }

  lemma SetAllStep(before: seq<Path>, done: set<Path>, target: bool, c: seq<Path>, f: Path)
    requires Distinct(before) && SetAllState(before, done, target, c)
    ensures SetAllState(before, done + {f}, target, if target then Add(c, f) else Delete(c, f))
  {
    if target {
      AddKeepsPrefix(c, before, f);
    } else {
      DeleteAfterWithout(before, done, f);
    }
  }

  class FileSystemProvider {
    var root: Option<Path>
    /** `checkedFilePaths`, in insertion order. */
    var checked: seq<Path>
    /** How many times `onDidChangeTreeData` has fired. */
    ghost var refreshes: nat

    ghost predicate Valid()
      reads this
    {
      Distinct(checked)
    }

    function Members(): set<Path>
      reads this
    {
      Elems(checked)
    }

    constructor(workspaceRoot: Option<Path>)
      ensures root == workspaceRoot && checked == [] && refreshes == 0
      ensures Valid()
    {
      root := workspaceRoot;
      checked := [];
      refreshes := 0;
    }

    method GetWorkspaceRoot() returns (r: Option<Path>)
      ensures r == root
    {
      r := root;
    }

    method Refresh()
      modifies this
      ensures root == old(root) && checked == old(checked)
      ensures refreshes == old(refreshes) + 1
    {
      refreshes := refreshes + 1;
    }

    /** `_getAllFileDescendants`: a breadth-first walk from `dir` with a
        queue and a set of visited paths. It returns the descendant files
        and, as a ghost, the directories it expanded, each once. */
    method AllFileDescendants(fs: FileSystem, dir: Path) returns (files: seq<Path>, ghost expanded: seq<Path>)
      ensures Elems(files) == Descendants(fs, dir, File)
      ensures Distinct(expanded)
      ensures Elems(expanded) == {dir} + Descendants(fs, dir, Directory)
    {
      ghost var reach := {dir} + Descendants(fs, dir, Directory);
      files := [];
      expanded := [];
      var queue := [dir];
      var visited: set<Path> := {};
      while |queue| > 0
        invariant visited == Elems(expanded) && Distinct(expanded)
        invariant dir in visited || dir in queue
        invariant visited <= reach && Elems(queue) <= reach
        invariant Elems(files) <= Descendants(fs, dir, File)
        invariant Expanded(fs, visited, Elems(files), visited + Elems(queue))
        decreases fs.Keys - visited, |queue|
      {
        var current := queue[0];
        ElemsTail(queue);
        queue := queue[1..];
        if current in visited {
          continue;
        }
        ghost var done := visited;
        DistinctSnoc(expanded, current);
        ElemsSnoc(expanded, current);
        visited := visited + {current};
        expanded := expanded + [current];
        assert visited + Elems(queue) == done + ({current} + Elems(queue));
        if current in fs {
          var entries := fs[current];
          for j := 0 to |entries|
            invariant Elems(queue) <= reach
            invariant Elems(files) <= Descendants(fs, dir, File)
            invariant dir in visited || dir in queue
            invariant EntriesIn(fs, current, j, File, Elems(files))
            invariant EntriesIn(fs, current, j, Directory, visited + Elems(queue))
            invariant Expanded(fs, done, Elems(files), visited + Elems(queue))
          {
            var e := entries[j];
            ghost var found, pending := Elems(files), visited + Elems(queue);
            if Ignored(e.name) {
              EntriesInStep(fs, current, j, File, found, found);
              EntriesInStep(fs, current, j, Directory, pending, pending);
              continue;
            }
            var uri := Join(current, e.name);
            if e.kind == Directory {
              ChildReached(fs, dir, current, Directory, j);
              ElemsSnoc(queue, uri);
              queue := queue + [uri];
            } else if e.kind == File {
              ChildReached(fs, dir, current, File, j);
              ElemsSnoc(files, uri);
              files := files + [uri];
            }
            EntriesInStep(fs, current, j, File, found, Elems(files));
            EntriesInStep(fs, current, j, Directory, pending, visited + Elems(queue));
            ExpandedMono(fs, done, found, pending, Elems(files), visited + Elems(queue));
          }
        }
        ExpandedAdd(fs, done, Elems(files), visited + Elems(queue), current);
      }
      assert visited + Elems(queue) == visited;
      ExpandedClosed(fs, visited, Elems(files));
      DescendantsClosed(fs, visited, Elems(files), File, dir);
      DescendantsClosed(fs, visited, visited, Directory, dir);
    }

    /** `_calculateDirectoryCheckedState`. */
    method CalculateDirectoryCheckedState(fs: FileSystem, d: Path) returns (b: bool)
      ensures b == DirectoryChecked(fs, d, Members())
    {
      var files;
      ghost var expanded;
      files, expanded := AllFileDescendants(fs, d);
      if |files| == 0 {
        return false;
      }
      assert files[0] in Elems(files);
      b := forall f :: f in files ==> f in checked;
      assert b <==> Elems(files) <= Members() by {
        assert forall f :: f in Elems(files) <==> f in files;
        assert forall f :: f in Members() <==> f in checked;
      }
    }

    /** `getChildren`: nothing without a root or when the directory cannot
        be read; otherwise one item per non-ignored entry of the sorted
        listing of `element` (or of the root). */
    method GetChildren(fs: FileSystem, element: Option<Item>) returns (items: seq<Item>)
      ensures root.None? ==> items == []
      ensures root.Some? ==>
        var parent := if element.Some? then element.value.uri else root.value;
        items == if parent in fs then ChildItems(fs, parent, Members()) else []
    {
      if root.None? {
        return [];
      }
      var parent := if element.Some? then element.value.uri else root.value;
      items := [];
      if parent !in fs {
        return;
      }
      var entries := SortEntries(fs[parent]);
      for j := 0 to |entries|
        invariant items == ItemsFor(fs, parent, Visible(entries[..j]), Members())
      {
        ItemsStep(fs, parent, entries, j, Members());
        var e := entries[j];
        if Ignored(e.name) {
          continue;
        }
        var uri := Join(parent, e.name);
        var isDirectory := e.kind == Directory;
        var isChecked;
        if isDirectory {
          isChecked := CalculateDirectoryCheckedState(fs, uri);
        } else {
          isChecked := uri in checked;
        }
        items := items + [Item(uri, isDirectory, isChecked)];
      }
      assert entries[..|entries|] == entries;
    }

    /** The loop of a directory toggle: every path of `files` added to the
        set, or every one deleted from it, one after the other. */
    method SetAll(files: seq<Path>, target: bool)
      requires Valid()
      modifies this
      ensures Valid()
      ensures root == old(root) && refreshes == old(refreshes)
      ensures target ==> Members() == old(Members()) + Elems(files)
      ensures target ==> |checked| >= |old(checked)| && checked[..|old(checked)|] == old(checked)
      ensures !target ==> checked == Without(old(checked), Elems(files))
    {
      ghost var before := checked;
      ghost var done: set<Path> := {};
      WithoutNothing(before, {});
      for i := 0 to |files|
        invariant done == Elems(files[..i])
        invariant root == old(root) && refreshes == old(refreshes)
        invariant SetAllState(before, done, target, checked)
      {
        ElemsPrefixStep(files, i);
        SetAllStep(before, done, target, checked, files[i]);
        if target {
          checked := Add(checked, files[i]);
        } else {
          checked := Delete(checked, files[i]);
        }
        done := done + {files[i]};
      }
      assert files[..|files|] == files;
    }

    /** `toggleItemChecked`. A directory sets each of its descendant files
        to the negation of the checked state the item was built with; a
        file flips its own membership. Either way the view is refreshed. */
    method ToggleItemChecked(fs: FileSystem, item: Item)
      requires Valid()
      modifies this
      ensures Valid()
      ensures root == old(root) && refreshes == old(refreshes) + 1
      ensures item.isDirectory ==>
        Members() == ToggledMembers(old(Members()), Descendants(fs, item.uri, File), !item.isChecked)
      ensures item.isDirectory && item.isChecked ==>
        checked == Without(old(checked), Descendants(fs, item.uri, File))
      ensures item.isDirectory && !item.isChecked ==>
        |checked| >= |old(checked)| && checked[..|old(checked)|] == old(checked)
      ensures !item.isDirectory ==> checked == FlipFile(old(checked), item.uri)
    {
      if item.isDirectory {
        var files;
        ghost var expanded;
        files, expanded := AllFileDescendants(fs, item.uri);
        var target := !item.isChecked;
        if |files| > 0 {
          SetAll(files, target);
        } else if !target {
          WithoutNothing(checked, Elems(files));
        }
        Refresh();
      } else {
        if item.uri in checked {
          checked := Delete(checked, item.uri);
        } else {
          checked := Add(checked, item.uri);
        }
        Refresh();
      }
    }

    /** `getCheckedFilePaths`: the set in insertion order. */
    method GetCheckedFilePaths() returns (paths: seq<Path>)
      requires Valid()
      ensures Elems(paths) == Members() && Distinct(paths)
      ensures paths == checked
    {
      paths := checked;
    }

    /** `updateWorkspaceRoot`: a new root and an empty set. */
    method UpdateWorkspaceRoot(workspaceRoot: Option<Path>)
      modifies this
      ensures root == workspaceRoot && checked == [] && Members() == {}
      ensures refreshes == old(refreshes) + 1
      ensures Valid()
    {
      root := workspaceRoot;
      checked := [];
      Refresh();
    }
  }

  /** A file toggled twice is back to its membership; only its position
      in the insertion order may change. */
  lemma FlipFileTwice(checked: seq<Path>, p: Path)
    ensures Elems(FlipFile(FlipFile(checked, p), p)) == Elems(checked)
  {
  }

  /** With the filesystem unchanged, toggling a directory that has
      descendant files makes its derived checked state the negation of
      the state it was shown with. */
  lemma ToggleSetsDerivedState(fs: FileSystem, d: Path, checked: set<Path>, shown: bool)
    requires Descendants(fs, d, File) != {}
    ensures DirectoryChecked(fs, d, ToggledMembers(checked, Descendants(fs, d, File), !shown)) == !shown
  {
    var files := Descendants(fs, d, File);
    if shown {
      var f :| f in files;
      assert f !in ToggledMembers(checked, files, false);
    }
  }

  /** Toggling a directory twice, each time from a freshly built item,
      restores the set exactly when the directory started fully checked or
      fully unchecked: a partial selection below it is lost. */
  lemma ToggleDirectoryTwice(fs: FileSystem, d: Path, checked: set<Path>)
    requires Descendants(fs, d, File) != {}
    ensures
      var files := Descendants(fs, d, File);
      var once := ToggledMembers(checked, files, !DirectoryChecked(fs, d, checked));
      var twice := ToggledMembers(once, files, !DirectoryChecked(fs, d, once));
      twice == checked <==> files <= checked || files * checked == {}
  {
    var files := Descendants(fs, d, File);
    var shown := DirectoryChecked(fs, d, checked);
    ToggleSetsDerivedState(fs, d, checked, shown);
    var once := ToggledMembers(checked, files, !shown);
    var twice := ToggledMembers(once, files, !DirectoryChecked(fs, d, once));
    if !(files <= checked) && files * checked != {} {
      var f :| f in files * checked;
      assert f !in twice;
    }
  }

  lemma ShownNames(fs: FileSystem, parent: Path, checked: set<Path>, i: nat)
    requires WellFormed(fs) && parent in fs && i < |ChildItems(fs, parent, checked)|
    ensures var shown := Visible(SortEntries(fs[parent]));
      i < |shown| && BaseName(ChildItems(fs, parent, checked)[i].uri) == shown[i].name
      && !Ignored(shown[i].name)
  {
    var es := fs[parent];
    var shown := Visible(SortEntries(es));
    assert shown[i] in shown;
    assert shown[i] in multiset(SortEntries(es));
    var k :| 0 <= k < |es| && es[k] == shown[i];
    BaseNameOfJoin(parent, shown[i].name);
  }

  /** `getChildren` on a readable directory with single-segment names:
      directories before the rest, each group by name. */
  lemma ChildItemsOrdered(fs: FileSystem, parent: Path, checked: set<Path>)
    requires WellFormed(fs) && parent in fs
    ensures var items := ChildItems(fs, parent, checked);
      forall i, j :: 0 <= i < j < |items| ==>
        (items[j].isDirectory ==> items[i].isDirectory)
        && (items[i].isDirectory == items[j].isDirectory ==>
              NameLeq(BaseName(items[i].uri), BaseName(items[j].uri)))
  {
    var items := ChildItems(fs, parent, checked);
    var shown := Visible(SortEntries(fs[parent]));
    VisibleSorted(SortEntries(fs[parent]));
    forall i, j | 0 <= i < j < |items|
      ensures items[j].isDirectory ==> items[i].isDirectory
      ensures items[i].isDirectory == items[j].isDirectory ==>
        NameLeq(BaseName(items[i].uri), BaseName(items[j].uri))
    {
      ShownNames(fs, parent, checked, i);
      ShownNames(fs, parent, checked, j);
      assert EntryLeq(shown[i], shown[j]);
      assert items[i] == ItemFor(fs, parent, shown[i], checked);
      assert items[j] == ItemFor(fs, parent, shown[j], checked);
    }
  }

  lemma ChildItemChecked(fs: FileSystem, parent: Path, checked: set<Path>, i: nat)
    requires WellFormed(fs) && parent in fs && i < |ChildItems(fs, parent, checked)|
    ensures var item := ChildItems(fs, parent, checked)[i];
      !Ignored(BaseName(item.uri))
      && item.isChecked == (if item.isDirectory then DirectoryChecked(fs, item.uri, checked)
                            else item.uri in checked)
  {
    ShownNames(fs, parent, checked, i);
    var shown := Visible(SortEntries(fs[parent]));
    assert ChildItems(fs, parent, checked)[i] == ItemFor(fs, parent, shown[i], checked);
  }

  /** No item has an ignored name; a file item is checked iff its path is
      in the set, a directory item iff its derived state holds. */
  lemma ChildItemsChecked(fs: FileSystem, parent: Path, checked: set<Path>)
    requires WellFormed(fs) && parent in fs
    ensures var items := ChildItems(fs, parent, checked);
      forall i :: 0 <= i < |items| ==>
        !Ignored(BaseName(items[i].uri))
        && items[i].isChecked == (if items[i].isDirectory then DirectoryChecked(fs, items[i].uri, checked)
                                  else items[i].uri in checked)
  {
    var items := ChildItems(fs, parent, checked);
    forall i | 0 <= i < |items|
      ensures !Ignored(BaseName(items[i].uri))
      ensures items[i].isChecked == (if items[i].isDirectory then DirectoryChecked(fs, items[i].uri, checked)
                                     else items[i].uri in checked)
    {
      ChildItemChecked(fs, parent, checked, i);
    }
  }

  /** Every non-ignored entry of the directory has its item. */
  lemma ChildItemsComplete(fs: FileSystem, parent: Path, checked: set<Path>)
    requires parent in fs
    ensures forall e :: e in fs[parent] && !Ignored(e.name) ==>
      ItemFor(fs, parent, e, checked) in ChildItems(fs, parent, checked)
  {
    var es := fs[parent];
    var shown := Visible(SortEntries(es));
    var items := ChildItems(fs, parent, checked);
    forall e | e in es && !Ignored(e.name)
      ensures ItemFor(fs, parent, e, checked) in items
    {
      assert e in multiset(es);
      assert e in SortEntries(es) by {
        assert e in multiset(SortEntries(es));
      }
      var i :| 0 <= i < |shown| && shown[i] == e;
      assert items[i] == ItemFor(fs, parent, e, checked);
    }
  }
}
