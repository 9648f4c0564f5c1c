/** Listing the regular files of a source tree, tools/verify_no_plaintext_model_assets.py. */
module SourceTree {
  import opened StableSorting
  import JsonValue

  type Path = seq<string>

  /** What a name stands for: a symbolic link, a regular file with the size `stat` gives and the bytes
      a read delivers, a folder (which may refuse to be listed), something else, or something that
      cannot be examined. */
  datatype Entry =
    | Link
    | File(size: nat, bytes: string)
    | Folder(readable: bool, items: seq<Item>)
    | Special
    | Unavailable

  datatype Item = Item(name: string, entry: Entry)

  const SKIPPED: set<string> := {
    ".git", ".gradle", ".gradle-user-home", ".cxx", "__pycache__", ".pytest_cache", "build", "analysis_output",
    "out", "output", "releases", "_release_staging", "_release_validation"}

  datatype Found = Found(path: Path, size: nat, bytes: string)

  datatype Pending = Pending(path: Path, readable: bool, items: seq<Item>)

  /** What a generator run delivers, and whether it ends by raising. */
  datatype Walk = Walk(files: seq<Found>, failed: bool)

  // ---------- one folder

  /** `sorted(..., key=name, reverse=True)` */
  function Descending(): (Item, Item) -> bool {
    (a: Item, b: Item) => JsonValue.AtMost(b.name, a.name)
  }

  datatype Level = Level(files: seq<Found>, folders: seq<Pending>, failed: bool)

  /** One more item: a file is delivered, a folder set aside, a link or unavailable entry ends the scan. */
  function Take(path: Path, before: Level, item: Item): Level {
    if before.failed then before
    else
      match item.entry
      case Link => before.(failed := true)
      case Unavailable => before.(failed := true)
      case File(size, bytes) => before.(files := before.files + [Found(path + [item.name], size, bytes)])
      case Folder(readable, items) =>
        if item.name in SKIPPED then before
        else before.(folders := before.folders + [Pending(path + [item.name], readable, items)])
      case Special => before
  }

  /** Going through the items of one folder. */
  function Scan(path: Path, items: seq<Item>): Level {
    if items == [] then Level([], [], false)
    else Take(path, Scan(path, items[..|items| - 1]), items[|items| - 1])
  }

  // ---------- how much is left to do

  function Weight(entry: Entry): nat {
    1 + if entry.Folder? then ItemsWeight(entry.items) else 0
  }

  function ItemsWeight(items: seq<Item>): nat {
    if items == [] then 0 else ItemsWeight(items[..|items| - 1]) + Weight(items[|items| - 1].entry)
  }

  function PendingWeight(folder: Pending): nat {
    1 + ItemsWeight(folder.items)
  }

  function StackWeight(stack: seq<Pending>): nat {
    if stack == [] then 0 else StackWeight(stack[..|stack| - 1]) + PendingWeight(stack[|stack| - 1])
  }

  lemma {:induction false} InsertWeight(items: seq<Item>, item: Item, le: (Item, Item) -> bool)
    ensures ItemsWeight(Insert(items, item, le)) == ItemsWeight(items) + Weight(item.entry)
  {
    if items == [] || le(items[|items| - 1], item) {
      assert (items + [item])[..|items|] == items;
    } else {
      var init, last := items[..|items| - 1], items[|items| - 1];
      InsertWeight(init, item, le);
      var all := Insert(init, item, le) + [last];
      assert all[..|all| - 1] == Insert(init, item, le);
    }
  }

  lemma {:induction false} SortWeight(items: seq<Item>, le: (Item, Item) -> bool)
    ensures ItemsWeight(StableSort(items, le)) == ItemsWeight(items)
  {
    if items != [] {
      SortWeight(items[..|items| - 1], le);
      InsertWeight(StableSort(items[..|items| - 1], le), items[|items| - 1], le);
    }
  }

  lemma {:induction false} ScanWeight(path: Path, items: seq<Item>)
    ensures StackWeight(Scan(path, items).folders) <= ItemsWeight(items)
  {
    if items != [] {
      ScanWeight(path, items[..|items| - 1]);
      var folders := Scan(path, items).folders;
      if folders != Scan(path, items[..|items| - 1]).folders {
        assert folders[..|folders| - 1] == Scan(path, items[..|items| - 1]).folders;
      }
    }
  }

  lemma LevelWeight(folder: Pending)
    ensures StackWeight(LevelOf(folder).folders) < PendingWeight(folder)
  {
    SortWeight(folder.items, Descending());
    ScanWeight(folder.path, StableSort(folder.items, Descending()));
  }

  function LevelOf(folder: Pending): Level {
    if !folder.readable then Level([], [], true)
    else Scan(folder.path, StableSort(folder.items, Descending()))
  }

  // ---------- the whole tree

  function Then(a: Walk, b: Walk): Walk {
    if a.failed then a else Walk(a.files + b.files, b.failed)
  }

  /** Depth first: a folder's own files, then its folders, the one set aside last first. */
  function WalkFolder(folder: Pending): Walk
    decreases PendingWeight(folder), 0
  {
    var level := LevelOf(folder);
    LevelWeight(folder);
    Then(Walk(level.files, level.failed), WalkStack(level.folders))
  }

  function WalkStack(stack: seq<Pending>): Walk
    decreases StackWeight(stack), 1, |stack|
  {
    if stack == [] then Walk([], false)
    else Then(WalkFolder(stack[|stack| - 1]), WalkStack(stack[..|stack| - 1]))
  }

  lemma ThenAssociates(a: Walk, b: Walk, c: Walk)
    ensures Then(Then(a, b), c) == Then(a, Then(b, c))
  {
    assert a.files + b.files + c.files == a.files + (b.files + c.files);
  }

  lemma {:induction false} WalkAppend(below: seq<Pending>, above: seq<Pending>)
    ensures WalkStack(below + above) == Then(WalkStack(above), WalkStack(below))
    decreases |above|
  {
    hide WalkFolder;
    if above == [] {
      assert below + above == below;
      assert [] + WalkStack(below).files == WalkStack(below).files;
    } else {
      var init, last := above[..|above| - 1], above[|above| - 1];
      assert (below + above)[..|below + above| - 1] == below + init;
      WalkAppend(below, init);
      ThenAssociates(WalkFolder(last), WalkStack(init), WalkStack(below));
    }
  }

  lemma {:induction false} WeightAppend(below: seq<Pending>, above: seq<Pending>)
    ensures StackWeight(below + above) == StackWeight(below) + StackWeight(above)
  {
    if above == [] {
      assert below + above == below;
    } else {
      assert (below + above)[..|below + above| - 1] == below + above[..|above| - 1];
      WeightAppend(below, above[..|above| - 1]);
    }
  }

  /** One turn of the worklist: the top folder gives way to its own folders. */
  lemma Turn(stack: seq<Pending>)
    requires stack != []
    ensures var level := LevelOf(stack[|stack| - 1]);
      && WalkStack(stack) == Then(Walk(level.files, level.failed), WalkStack(stack[..|stack| - 1] + level.folders))
      && StackWeight(stack[..|stack| - 1] + level.folders) < StackWeight(stack)
  {
    hide LevelOf;
    var init, last := stack[..|stack| - 1], stack[|stack| - 1];
    var level := LevelOf(last);
    WalkAppend(init, level.folders);
    ThenAssociates(Walk(level.files, level.failed), WalkStack(level.folders), WalkStack(init));
    LevelWeight(last);
    WeightAppend(init, level.folders);
  }

  lemma {:induction false} ScanStops(path: Path, items: seq<Item>, n: nat)
    requires n <= |items| && Scan(path, items[..n]).failed
    ensures Scan(path, items) == Scan(path, items[..n])
  {
    if n == |items| {
      assert items[..n] == items;
    } else {
      assert items[..|items| - 1][..n] == items[..n];
      ScanStops(path, items[..|items| - 1], n);
    }
  }

  /** `iter_source_files` without a list of tracked paths: the worklist delivers the depth-first walk. */
  method IterSourceFiles(readable: bool, items: seq<Item>) returns (files: seq<Found>, failed: bool)
    ensures Walk(files, failed) == WalkFolder(Pending([], readable, items))
  {
    hide WalkFolder, WalkStack, StableSort, StackWeight, Scan, LevelOf;
    files, failed := [], false;
    var stack := [Pending([], readable, items)];
    ghost var whole := WalkFolder(Pending([], readable, items));
    StartOfWalk(Pending([], readable, items));
    while stack != []
      invariant Then(Walk(files, false), WalkStack(stack)) == whole
      decreases StackWeight(stack)
    {
      Turn(stack);
      var folder := stack[|stack| - 1];
      ghost var level := LevelOf(folder);
      LevelScan(folder);
      stack := stack[..|stack| - 1];
      ghost var rest, start := stack, files;
      if !folder.readable { return files, true; }
      var entries := StableSort(folder.items, Descending());
      for n := 0 to |entries|
        invariant Level(files, stack, false) == Onto(start, rest, Scan(folder.path, entries[..n]))
      {
        var item := entries[n];
        OneMore(folder.path, entries, n);
        if item.entry.Link? || item.entry.Unavailable? {
          ScanStops(folder.path, entries, n + 1);
          return files, true;
        }
        if item.entry.Folder? {
          if item.name in SKIPPED { continue; }
          stack := stack + [Pending(folder.path + [item.name], item.entry.readable, item.entry.items)];
        } else if item.entry.File? {
          files := files + [Found(folder.path + [item.name], item.entry.size, item.entry.bytes)];
        }
      }
      assert entries[..|entries|] == entries;
      ThenAssociates(Walk(start, false), Walk(level.files, false), WalkStack(stack));
    }
    EndOfWalk(files);
  }

  ghost function Onto(files: seq<Found>, stack: seq<Pending>, level: Level): Level {
    Level(files + level.files, stack + level.folders, level.failed)
  }

  lemma OneMore(path: Path, items: seq<Item>, n: nat)
    requires n < |items|
    ensures Scan(path, items[..n + 1]) == Take(path, Scan(path, items[..n]), items[n])
  {
    assert items[..n + 1][..n] == items[..n];
  }

  lemma LevelScan(folder: Pending)
    ensures LevelOf(folder) ==
      if folder.readable then Scan(folder.path, StableSort(folder.items, Descending())) else Level([], [], true)
    ensures Scan(folder.path, StableSort(folder.items, Descending())[..0]) == Level([], [], false)
  {
  }

  lemma StartOfWalk(folder: Pending)
    ensures Then(Walk([], false), WalkStack([folder])) == WalkFolder(folder)
  {
    hide WalkFolder;
    var walk := WalkFolder(folder);
    assert [folder][..0] == [] && WalkStack([]) == Walk([], false);
    assert walk.files + [] == walk.files && [] + walk.files == walk.files;
  }

  lemma EndOfWalk(files: seq<Found>)
    ensures Then(Walk(files, false), WalkStack([])) == Walk(files, false)
  {
    assert files + [] == files;
  }

  // ---------- a list of tracked paths

  /** `iter_source_files` with a list of tracked paths: every one must be a regular file, and then each is
      delivered in its place. */
  method IterTrackedFiles(tracked: seq<(Path, Entry)>) returns (files: seq<Found>, failed: bool)
    ensures failed <==> exists i :: 0 <= i < |tracked| && !tracked[i].1.File?
    ensures !failed ==> |files| == |tracked| && forall i :: 0 <= i < |tracked| ==>
      files[i] == Found(tracked[i].0, tracked[i].1.size, tracked[i].1.bytes)
  {
    files, failed := [], false;
    for n := 0 to |tracked|
      invariant |files| == n && forall i :: 0 <= i < n ==>
        tracked[i].1.File? && files[i] == Found(tracked[i].0, tracked[i].1.size, tracked[i].1.bytes)
    {
      var (path, entry) := tracked[n];
      if entry.Unavailable? || entry.Link? || !entry.File? { return files, true; }
      files := files + [Found(path, entry.size, entry.bytes)];
    }
  }
}
