/** What the walk over a source tree delivers: every regular file outside skipped folders, once. */
module SourceTreeLaws {
  import opened StableSorting
  import opened SourceTree
  import JsonValue

  /** The file lies below `path`, reached through folders that are not skipped. */
  ghost predicate Holds(path: Path, items: seq<Item>, f: Found)
    decreases items
  {
    exists item | item in items ::
      if item.entry.File? then f == Found(path + [item.name], item.entry.size, item.entry.bytes)
      else item.entry.Folder? && item.name !in SKIPPED && Holds(path + [item.name], item.entry.items, f)
  }

  /** A link, an entry that cannot be examined or a folder that cannot be listed, outside skipped folders. */
  ghost predicate Troubled(items: seq<Item>)
    decreases items
  {
    exists item | item in items ::
      item.entry.Link? || item.entry.Unavailable?
      || (item.entry.Folder? && item.name !in SKIPPED && (!item.entry.readable || Troubled(item.entry.items)))
  }

  ghost predicate Distinct(items: seq<Item>) {
    forall i, j :: 0 <= i < j < |items| ==> items[i].name != items[j].name
  }

  /** No folder holds two entries of one name. */
  ghost predicate WellNamed(items: seq<Item>)
    decreases items
  {
    Distinct(items) && forall item | item in items :: item.entry.Folder? ==> WellNamed(item.entry.items)
  }

  ghost predicate OncePerPath(files: seq<Found>) {
    forall i, j :: 0 <= i < j < |files| ==> files[i].path != files[j].path
  }

  // ---------- sorting keeps the items

  lemma {:induction false} InsertMembers(items: seq<Item>, item: Item, le: (Item, Item) -> bool, x: Item)
    ensures x in Insert(items, item, le) <==> x in items || x == item
  {
    if !(items == [] || le(items[|items| - 1], item)) {
      var init, last := items[..|items| - 1], items[|items| - 1];
      InsertMembers(init, item, le, x);
      assert items == init + [last];
    }
  }

  lemma {:induction false} SortMembers(items: seq<Item>, le: (Item, Item) -> bool, x: Item)
    ensures x in StableSort(items, le) <==> x in items
  {
    if items != [] {
      var init, last := items[..|items| - 1], items[|items| - 1];
      SortMembers(init, le, x);
      InsertMembers(StableSort(init, le), last, le, x);
      assert items == init + [last];
    }
  }

  lemma {:induction false} InsertDistinct(items: seq<Item>, item: Item, le: (Item, Item) -> bool)
    requires Distinct(items) && forall x :: x in items ==> x.name != item.name
    ensures Distinct(Insert(items, item, le))
  {
    if !(items == [] || le(items[|items| - 1], item)) {
      var init, last := items[..|items| - 1], items[|items| - 1];
      InsertDistinct(init, item, le);
      forall x | x in Insert(init, item, le) ensures x.name != last.name {
        InsertMembers(init, item, le, x);
      }
    }
  }

  lemma {:induction false} SortDistinct(items: seq<Item>, le: (Item, Item) -> bool)
    requires Distinct(items)
    ensures Distinct(StableSort(items, le))
  {
    if items != [] {
      var init, last := items[..|items| - 1], items[|items| - 1];
      SortDistinct(init, le);
      forall x | x in StableSort(init, le) ensures x.name != last.name {
        SortMembers(init, le, x);
      }
      InsertDistinct(StableSort(init, le), last, le);
    }
  }

  // ---------- one folder

  ghost predicate FileOf(path: Path, item: Item, f: Found) {
    item.entry.File? && f == Found(path + [item.name], item.entry.size, item.entry.bytes)
  }

  ghost predicate FolderOf(path: Path, item: Item, p: Pending) {
    item.entry.Folder? && item.name !in SKIPPED
      && p == Pending(path + [item.name], item.entry.readable, item.entry.items)
  }

  ghost predicate Stops(item: Item) {
    item.entry.Link? || item.entry.Unavailable?
  }

  /** What one more item adds to a scan that goes on. */
  lemma TakeMembers(path: Path, before: Level, item: Item)
    requires !before.failed
    ensures Take(path, before, item).failed <==> Stops(item)
    ensures forall f :: f in Take(path, before, item).files <==> f in before.files || FileOf(path, item, f)
    ensures forall p :: p in Take(path, before, item).folders <==> p in before.folders || FolderOf(path, item, p)
  {
  }

  lemma OneOfMore(items: seq<Item>, kind: Item -> bool)
    requires items != []
    ensures (exists item :: item in items && kind(item))
      <==> (exists item :: item in items[..|items| - 1] && kind(item)) || kind(items[|items| - 1])
  {
    var init, last := items[..|items| - 1], items[|items| - 1];
    assert items == init + [last] && last in items;
  }

  lemma {:induction false} ScanStopped(path: Path, items: seq<Item>)
    ensures Scan(path, items).failed <==> exists item :: item in items && Stops(item)
  {
    hide Scan, Take, Stops, FileOf, FolderOf;
    if items == [] {
      NothingScanned(path);
    } else {
      ScanStopped(path, items[..|items| - 1]);
      ScanStep(path, items);
      OneOfMore(items, (item: Item) => Stops(item));
      var before := Scan(path, items[..|items| - 1]);
      if before.failed {
        StaysFailed(path, before, items[|items| - 1]);
      } else {
        TakeMembers(path, before, items[|items| - 1]);
      }
    }
  }

  lemma StaysFailed(path: Path, before: Level, item: Item)
    requires before.failed
    ensures Take(path, before, item) == before
  {
  }

  lemma {:induction false} ScanFiles(path: Path, items: seq<Item>, f: Found)
    requires !Scan(path, items).failed
    ensures f in Scan(path, items).files <==> exists item :: item in items && FileOf(path, item, f)
  {
    hide Scan, Take, FileOf, FolderOf;
    if items == [] {
      NothingScanned(path);
    } else {
      GoesOnBefore(path, items);
      ScanFiles(path, items[..|items| - 1], f);
      OneOfMore(items, (item: Item) => FileOf(path, item, f));
      TakeMembers(path, Scan(path, items[..|items| - 1]), items[|items| - 1]);
    }
  }

  lemma GoesOnBefore(path: Path, items: seq<Item>)
    requires items != [] && !Scan(path, items).failed
    ensures !Scan(path, items[..|items| - 1]).failed
    ensures Scan(path, items) == Take(path, Scan(path, items[..|items| - 1]), items[|items| - 1])
  {
    hide Scan, Take;
    ScanStep(path, items);
    if Scan(path, items[..|items| - 1]).failed {
      StaysFailed(path, Scan(path, items[..|items| - 1]), items[|items| - 1]);
    }
  }

  lemma {:induction false} ScanFolders(path: Path, items: seq<Item>, p: Pending)
    requires !Scan(path, items).failed
    ensures p in Scan(path, items).folders <==> exists item :: item in items && FolderOf(path, item, p)
  {
    hide Scan, Take, FileOf, FolderOf;
    if items == [] {
      NothingScanned(path);
    } else {
      GoesOnBefore(path, items);
      ScanFolders(path, items[..|items| - 1], p);
      OneOfMore(items, (item: Item) => FolderOf(path, item, p));
      TakeMembers(path, Scan(path, items[..|items| - 1]), items[|items| - 1]);
    }
  }

  lemma LevelMembers(folder: Pending)
    requires folder.readable
    ensures var level := LevelOf(folder);
      && (level.failed <==> exists item :: item in folder.items && Stops(item))
      && (!level.failed ==>
          && (forall f :: f in level.files <==> exists item :: item in folder.items && FileOf(folder.path, item, f))
          && (forall p ::
              p in level.folders <==> exists item :: item in folder.items && FolderOf(folder.path, item, p)))
  {
    hide StableSort, Scan, FileOf, FolderOf, Stops;
    var sorted := StableSort(folder.items, Descending());
    forall x ensures x in sorted <==> x in folder.items {
      SortMembers(folder.items, Descending(), x);
    }
    ScanStopped(folder.path, sorted);
    if !LevelOf(folder).failed {
      forall f
        ensures f in LevelOf(folder).files <==> exists item :: item in folder.items && FileOf(folder.path, item, f)
      {
        ScanFiles(folder.path, sorted, f);
      }
      forall p
        ensures p in LevelOf(folder).folders <==> exists item :: item in folder.items && FolderOf(folder.path, item, p)
      {
        ScanFolders(folder.path, sorted, p);
      }
    }
  }

  // ---------- what is delivered, and when the walk fails

  ghost predicate Reached(stack: seq<Pending>, f: Found) {
    exists p :: p in stack && Holds(p.path, p.items, f)
  }

  ghost predicate Fails(p: Pending) {
    !p.readable || Troubled(p.items)
  }

  lemma {:induction false} FolderDelivers(folder: Pending, f: Found)
    ensures WalkFolder(folder).failed <==> Fails(folder)
    ensures !WalkFolder(folder).failed ==> (f in WalkFolder(folder).files <==> Holds(folder.path, folder.items, f))
    decreases PendingWeight(folder), 0
  {
    hide WalkStack, LevelOf;
    if folder.readable {
      var level := LevelOf(folder);
      LevelMembers(folder);
      LevelWeight(folder);
      StackDelivers(level.folders, f);
      if !level.failed { BelowLevel(folder, f); }
    } else {
      UnreadableFails(folder);
    }
  }

  lemma UnreadableFails(folder: Pending)
    requires !folder.readable
    ensures WalkFolder(folder).failed
  {
  }

  /** The folder's own files and what its folders hold are what it holds. */
  lemma BelowLevel(folder: Pending, f: Found)
    requires folder.readable && !LevelOf(folder).failed
    ensures Holds(folder.path, folder.items, f) <==> f in LevelOf(folder).files || Reached(LevelOf(folder).folders, f)
    ensures Troubled(folder.items) <==> exists p :: p in LevelOf(folder).folders && Fails(p)
  {
    hide LevelOf;
    LevelMembers(folder);
    var level := LevelOf(folder);
    if Holds(folder.path, folder.items, f) {
      var item :| item in folder.items &&
        if item.entry.File? then f == Found(folder.path + [item.name], item.entry.size, item.entry.bytes)
        else item.entry.Folder? && item.name !in SKIPPED && Holds(folder.path + [item.name], item.entry.items, f);
      if item.entry.File? {
        assert FileOf(folder.path, item, f);
      } else {
        assert FolderOf(folder.path, item, Pending(folder.path + [item.name], item.entry.readable, item.entry.items));
      }
    }
    if Troubled(folder.items) {
      var item :| item in folder.items && (item.entry.Link? || item.entry.Unavailable?
        || (item.entry.Folder? && item.name !in SKIPPED && (!item.entry.readable || Troubled(item.entry.items))));
      assert !Stops(item);
      var p := Pending(folder.path + [item.name], item.entry.readable, item.entry.items);
      assert FolderOf(folder.path, item, p) && Fails(p);
    }
  }

  lemma {:induction false} StackDelivers(stack: seq<Pending>, f: Found)
    ensures WalkStack(stack).failed <==> exists p :: p in stack && Fails(p)
    ensures !WalkStack(stack).failed ==> (f in WalkStack(stack).files <==> Reached(stack, f))
    decreases StackWeight(stack), 1, |stack|
  {
    hide WalkFolder, Holds, Fails;
    if stack != [] {
      var init, last := stack[..|stack| - 1], stack[|stack| - 1];
      FolderDelivers(last, f);
      StackDelivers(init, f);
      assert forall p :: p in stack <==> p in init || p == last;
    }
  }

  // ---------- once each

  lemma {:induction false} ScanDistinct(path: Path, items: seq<Item>)
    requires Distinct(items)
    ensures OncePerPath(Scan(path, items).files)
    ensures forall f :: f in Scan(path, items).files ==> |f.path| == |path| + 1
  {
    if items != [] {
      var init, last := items[..|items| - 1], items[|items| - 1];
      ScanDistinct(path, init);
      FilesNamed(path, init, last.name);
    }
  }

  lemma {:induction false} FilesNamed(path: Path, items: seq<Item>, name: string)
    requires forall i :: 0 <= i < |items| ==> items[i].name != name
    ensures forall f :: f in Scan(path, items).files ==> f.path != path + [name]
    ensures forall p :: p in Scan(path, items).folders ==> p.path != path + [name]
  {
    if items != [] {
      var last := items[|items| - 1];
      FilesNamed(path, items[..|items| - 1], name);
      assert (path + [last.name])[|path|] != (path + [name])[|path|];
    }
  }

  /** Folders side by side: paths of one length, all different. */
  ghost predicate SideBySide(stack: seq<Pending>, length: nat) {
    && (forall i :: 0 <= i < |stack| ==> |stack[i].path| == length && WellNamed(stack[i].items))
    && forall i, j :: 0 <= i < j < |stack| ==> stack[i].path != stack[j].path
  }

  lemma {:induction false} ScanSideBySide(path: Path, items: seq<Item>)
    requires WellNamed(items)
    ensures SideBySide(Scan(path, items).folders, |path| + 1)
  {
    hide Scan, WellNamed;
    if items != [] {
      var init, last := items[..|items| - 1], items[|items| - 1];
      NamesDistinct(items);
      InitWellNamed(items);
      ScanSideBySide(path, init);
      FilesNamed(path, init, last.name);
      ScanStep(path, items);
    } else {
      NothingScanned(path);
    }
  }

  lemma InitWellNamed(items: seq<Item>)
    requires WellNamed(items) && items != []
    ensures WellNamed(items[..|items| - 1])
    ensures items[|items| - 1].entry.Folder? ==> WellNamed(items[|items| - 1].entry.items)
  {
    var init, last := items[..|items| - 1], items[|items| - 1];
    assert last in items && forall item :: item in init ==> item in items;
  }

  lemma ScanStep(path: Path, items: seq<Item>)
    requires items != []
    ensures Scan(path, items) == Take(path, Scan(path, items[..|items| - 1]), items[|items| - 1])
  {
  }

  lemma NothingScanned(path: Path)
    ensures Scan(path, []) == Level([], [], false)
  {
  }

  lemma SortWellNamed(items: seq<Item>)
    requires WellNamed(items)
    ensures WellNamed(StableSort(items, Descending()))
  {
    SortDistinct(items, Descending());
    forall item | item in StableSort(items, Descending()) ensures item in items {
      SortMembers(items, Descending(), item);
    }
  }

  /** Every file below a folder has the folder's path in front. */
  lemma {:induction false} FolderBelow(folder: Pending, f: Found)
    requires f in WalkFolder(folder).files
    ensures |f.path| > |folder.path| && f.path[..|folder.path|] == folder.path
    decreases PendingWeight(folder), 0
  {
    hide WalkStack, LevelOf;
    var level := LevelOf(folder);
    if f in level.files {
      OwnFiles(folder, f);
    } else {
      LevelWeight(folder);
      OwnFolders(folder);
      StackBelow(level.folders, folder.path, f);
    }
  }

  lemma OwnFiles(folder: Pending, f: Found)
    requires f in LevelOf(folder).files
    ensures |f.path| == |folder.path| + 1 && f.path[..|folder.path|] == folder.path
  {
    ScanOwn(folder.path, StableSort(folder.items, Descending()), f);
  }

  lemma OwnFolders(folder: Pending)
    ensures forall p :: p in LevelOf(folder).folders ==>
      |p.path| == |folder.path| + 1 && p.path[..|folder.path|] == folder.path
  {
    ScanOwnFolders(folder.path, StableSort(folder.items, Descending()));
  }

  lemma {:induction false} ScanOwnFolders(path: Path, items: seq<Item>)
    ensures forall p :: p in Scan(path, items).folders ==> |p.path| == |path| + 1 && p.path[..|path|] == path
  {
    if items != [] { ScanOwnFolders(path, items[..|items| - 1]); }
  }

  lemma {:induction false} ScanOwn(path: Path, items: seq<Item>, f: Found)
    requires f in Scan(path, items).files
    ensures |f.path| == |path| + 1 && f.path[..|path|] == path
  {
    if f in Scan(path, items[..|items| - 1]).files { ScanOwn(path, items[..|items| - 1], f); }
  }

  lemma {:induction false} StackBelow(stack: seq<Pending>, path: Path, f: Found)
    requires f in WalkStack(stack).files
    requires forall p :: p in stack ==> |p.path| == |path| + 1 && p.path[..|path|] == path
    ensures |f.path| > |path| + 1 && f.path[..|path|] == path
    decreases StackWeight(stack), 1, |stack|
  {
    hide WalkFolder;
    var init, last := stack[..|stack| - 1], stack[|stack| - 1];
    if f in WalkFolder(last).files {
      FolderBelow(last, f);
      assert f.path[..|path|] == f.path[..|path| + 1][..|path|];
    } else {
      StackBelow(init, path, f);
    }
  }

  lemma OnceAppend(a: seq<Found>, b: seq<Found>)
    requires OncePerPath(a) && OncePerPath(b)
    requires forall f, g :: f in a && g in b ==> f.path != g.path
    ensures OncePerPath(a + b)
  {
    var ab := a + b;
    forall i, j | 0 <= i < j < |ab| ensures ab[i].path != ab[j].path {
      if i < |a| <= j { assert a[i] in a && b[j - |a|] in b; }
    }
  }

  lemma {:induction false} FolderOnce(folder: Pending)
    requires WellNamed(folder.items)
    ensures OncePerPath(WalkFolder(folder).files)
    decreases PendingWeight(folder), 0
  {
    hide WalkStack, LevelOf;
    var level := LevelOf(folder);
    LevelOnce(folder);
    LevelWeight(folder);
    StackOnce(level.folders, |folder.path| + 1);
    OwnFolders(folder);
    forall f, g | f in level.files && g in WalkStack(level.folders).files ensures f.path != g.path {
      OwnFiles(folder, f);
      StackBelow(level.folders, folder.path, g);
    }
    OnceAppend(level.files, WalkStack(level.folders).files);
  }

  lemma LevelOnce(folder: Pending)
    requires WellNamed(folder.items)
    ensures OncePerPath(LevelOf(folder).files)
    ensures SideBySide(LevelOf(folder).folders, |folder.path| + 1)
  {
    hide WellNamed;
    SortWellNamed(folder.items);
    NamesDistinct(StableSort(folder.items, Descending()));
    ScanDistinct(folder.path, StableSort(folder.items, Descending()));
    ScanSideBySide(folder.path, StableSort(folder.items, Descending()));
  }

  lemma NamesDistinct(items: seq<Item>)
    requires WellNamed(items)
    ensures Distinct(items)
  {
  }

  lemma {:induction false} StackOnce(stack: seq<Pending>, length: nat)
    requires SideBySide(stack, length)
    ensures OncePerPath(WalkStack(stack).files)
    decreases StackWeight(stack), 1, |stack|
  {
    hide WalkFolder, WellNamed;
    if stack != [] {
      var init, last := stack[..|stack| - 1], stack[|stack| - 1];
      FolderOnce(last);
      StackOnce(init, length);
      forall f, g | f in WalkFolder(last).files && g in WalkStack(init).files ensures f.path != g.path {
        FolderBelow(last, f);
        var p := StackOwner(init, g);
      }
      OnceAppend(WalkFolder(last).files, WalkStack(init).files);
    }
  }

  /** A file from a stack of folders comes from below one of them. */
  lemma {:induction false} StackOwner(stack: seq<Pending>, f: Found) returns (p: Pending)
    requires f in WalkStack(stack).files
    ensures p in stack && |f.path| > |p.path| && f.path[..|p.path|] == p.path
  {
    hide WalkFolder;
    p := stack[|stack| - 1];
    if f in WalkFolder(p).files {
      FolderBelow(p, f);
    } else {
      p := StackOwner(stack[..|stack| - 1], f);
    }
  }

  /** The walk fails exactly when trouble lies outside the skipped folders. Otherwise it delivers each
      regular file outside them, and each under its path once. */
  lemma WalkExactly(readable: bool, items: seq<Item>)
    requires WellNamed(items)
    ensures var walk := WalkFolder(Pending([], readable, items));
      && (walk.failed <==> !readable || Troubled(items))
      && OncePerPath(walk.files)
      && (!walk.failed ==> forall f :: f in walk.files <==> Holds([], items, f))
  {
    hide WalkFolder, Holds, Troubled, WellNamed;
    var folder := Pending([], readable, items);
    FolderOnce(folder);
    FolderDelivers(folder, Found([], 0, ""));
    if !WalkFolder(folder).failed {
      forall f ensures f in WalkFolder(folder).files <==> Holds([], items, f) {
        FolderDelivers(folder, f);
      }
    }
  }

  // ---------- the order within a folder

  /** The folders that are passed over, by name. */
  lemma SkippedExactly(name: string)
    ensures name in SKIPPED <==>
      || name == ".git" || name == ".gradle" || name == ".gradle-user-home" || name == ".cxx" || name == "__pycache__"
      || name == ".pytest_cache" || name == "build" || name == "analysis_output" || name == "out" || name == "output"
      || name == "releases" || name == "_release_staging" || name == "_release_validation"
  {
  }

  /** A folder's entries are gone through by falling names, equal ones in the order they are listed. */
  lemma EntriesFall(items: seq<Item>, i: nat, j: nat)
    requires i < j < |StableSort(items, Descending())|
    ensures var sorted := StableSort(items, Descending());
      sorted[i].name == sorted[j].name || sorted[j].name < sorted[i].name
      || exists k :: JsonValue.SmallerAt(sorted[j].name, sorted[i].name, k)
  {
    DescendingOrders();
    hide StableSort;
    var sorted := StableSort(items, Descending());
    StableSortSorts(items, sorted, Descending());
    assert Descending()(sorted[i], sorted[j]);
    JsonValue.BeforeExactly(sorted[j].name, sorted[i].name);
  }

  lemma DescendingOrders()
    ensures TotalPreorder(Descending())
  {
    JsonValue.AtMostOrders();
    hide JsonValue.AtMost;
    forall a: Item, b: Item ensures Descending()(a, b) || Descending()(b, a) {
      assert JsonValue.AtMost(a.name, b.name) || JsonValue.AtMost(b.name, a.name);
    }
    forall a: Item, b: Item, c: Item | Descending()(a, b) && Descending()(b, c) ensures Descending()(a, c) {
      assert JsonValue.AtMost(b.name, a.name) && JsonValue.AtMost(c.name, b.name);
    }
  }
}
