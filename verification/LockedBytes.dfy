/** Finding locked bytes by size first, in a source tree and in a release archive,
    tools/verify_no_plaintext_model_assets.py. Contents are texts with one character per byte, and
    `digest` stands for SHA-256 in hexadecimal. */
module LockedBytes {
  import opened Wrappers
  import opened SourceTree
  import SourceTreeLaws
  import ArtifactLock
  import LfsPointer

  /** A checked lock row. */
  datatype Row = Row(size: nat, sha256: string)

  type Index = map<nat, set<string>>

  ghost predicate Indexes(index: Index, rows: seq<Row>) {
    && (forall size, sha :: size in index && sha in index[size] <==> Row(size, sha) in rows)
    && forall size :: size in index ==> index[size] != {}
  }

  /** The loop of `load_locked_digests` that fills `by_size`. */
  method IndexBySize(rows: seq<Row>) returns (index: Index)
    ensures Indexes(index, rows)
  {
    index := map[];
    for n := 0 to |rows|
      invariant Indexes(index, rows[..n])
    {
      var row := rows[n];
      ghost var before := index;
      if row.size !in index { index := index[row.size := {}]; }
      index := index[row.size := index[row.size] + {row.sha256}];
      assert rows[..n + 1] == rows[..n] + [row];
      forall size, sha ensures size in index && sha in index[size] <==> Row(size, sha) in rows[..n + 1] {
        assert size in before && sha in before[size] <==> Row(size, sha) in rows[..n];
      }
    }
    assert rows[..|rows|] == rows;
  }

  ghost predicate LockedSize(rows: seq<Row>, size: nat) {
    exists row :: row in rows && row.size == size
  }

  lemma IndexedSize(index: Index, rows: seq<Row>, size: nat)
    requires Indexes(index, rows)
    ensures size in index <==> LockedSize(rows, size)
  {
    if size in index {
      var sha :| sha in index[size];
      assert Row(size, sha) in rows;
    }
    if LockedSize(rows, size) {
      var row :| row in rows && row.size == size;
      assert Row(size, row.sha256) in rows;
    }
  }

  // ---------- names

  /** Letters as a case-insensitive pattern compares them. */
  function Fold(c: char): char {
    if 'A' <= c <= 'Z' then c - 'A' + 'a'
    else if c == '\U{0130}' || c == '\U{0131}' then 'i'
    else if c == '\U{017F}' then 's'
    else if c == '\U{212A}' then 'k'
    else c
  }

  function FoldAll(text: string): (r: string)
    ensures |r| == |text|
  {
    seq(|text|, i requires 0 <= i < |text| => Fold(text[i]))
  }

  function Lower(c: char): char {
    if 'A' <= c <= 'Z' then c - 'A' + 'a' else c
  }

  predicate EndsWith(text: string, end: string) {
    |end| <= |text| && text[|text| - |end|..] == end
  }

  predicate NameChar(c: char) {
    'a' <= c <= 'z' || '0' <= c <= '9' || c == '_' || c == '.' || c == '-'
  }

  const LIBRARY_STARTS: set<string> := {"libcs2", "libdelta", "libow2", "libvalorant"}

  /** `MODEL_LIBRARY.fullmatch` */
  predicate ModelLibrary(name: string) {
    var folded := FoldAll(name);
    exists start <- LIBRARY_STARTS ::
      && start <= folded && |start| + 8 <= |folded| && EndsWith(folded, "w8a16.so")
      && forall i | |start| <= i < |folded| - 8 :: NameChar(folded[i])
  }

  predicate OnnxName(name: string) {
    |name| >= 5 && name[|name| - 5] == '.'
    && Lower(name[|name| - 4]) == 'o' && Lower(name[|name| - 3]) == 'n' && Lower(name[|name| - 2]) == 'n'
    && Lower(name[|name| - 1]) == 'x'
  }

  /** `path_reason`, as whether there is one. */
  predicate NameRefused(path: Path) {
    var name := if path == [] then "" else path[|path| - 1];
    OnnxName(name) || ModelLibrary(name)
  }

  // ---------- the verdict on some bytes

  /** By the index: bytes are read only when their announced size is that of a locked artifact. */
  predicate IndexPasses(index: Index, size: nat, bytes: string, digest: string -> string) {
    size in index ==> |bytes| == size && digest(bytes) !in index[size]
  }

  /** By reading everything and comparing with every row. */
  ghost predicate Unlocked(rows: seq<Row>, bytes: string, digest: string -> string) {
    Row(|bytes|, digest(bytes)) !in rows
  }

  /** The two verdicts agree whenever the announced size is the real one. Otherwise the index refuses
      the bytes exactly when the announced size is locked, whatever they are. */
  lemma SizeFirstExactly(index: Index, rows: seq<Row>, size: nat, bytes: string, digest: string -> string)
    requires Indexes(index, rows)
    ensures size == |bytes| ==> (IndexPasses(index, size, bytes, digest) <==> Unlocked(rows, bytes, digest))
    ensures size != |bytes| ==> (IndexPasses(index, size, bytes, digest) <==> !LockedSize(rows, size))
  {
    IndexedSize(index, rows, size);
  }

  /** By the index of tools/check_private_artifact_source_boundary.py, which hashes whatever it reads
      without comparing how much that was. */
  predicate BoundaryPasses(index: Index, size: nat, bytes: string, digest: string -> string) {
    size in index ==> digest(bytes) !in index[size]
  }

  /** The two tools judge alike unless the announced size is locked, more or fewer bytes are read, and
      their digest belongs to no row of that size: then only this tool refuses. With true sizes both
      give the verdict of comparing with every row. */
  lemma ToolsAgreeExactly(index: Index, rows: seq<Row>, size: nat, bytes: string, digest: string -> string)
    requires Indexes(index, rows)
    ensures (IndexPasses(index, size, bytes, digest) <==> BoundaryPasses(index, size, bytes, digest))
      <==> !(LockedSize(rows, size) && size != |bytes| && Row(size, digest(bytes)) !in rows)
    ensures IndexPasses(index, size, bytes, digest) ==> BoundaryPasses(index, size, bytes, digest)
    ensures size == |bytes| ==> (BoundaryPasses(index, size, bytes, digest) <==> Unlocked(rows, bytes, digest))
  {
    IndexedSize(index, rows, size);
  }

  // ---------- a source tree

  /** A declared public model must be there itself or as its pointer. */
  predicate PublicIntact(row: Row, f: Found, digest: string -> string) {
    if f.size == row.size then |f.bytes| == row.size && digest(f.bytes) == row.sha256
    else f.bytes == LfsPointer.Print(row.size, row.sha256)
  }

  predicate Passes(index: Index, public: map<Path, Row>, lock: Option<Path>, f: Found, digest: string -> string) {
    if f.path in public then PublicIntact(public[f.path], f, digest)
    else !NameRefused(f.path) && (lock == Some(f.path) || IndexPasses(index, f.size, f.bytes, digest))
  }

  /** How many of the files were hashed. */
  function Hashed(index: Index, public: map<Path, Row>, lock: Option<Path>, files: seq<Found>): nat {
    if files == [] then 0
    else
      var f := files[|files| - 1];
      var one :=
        if f.path in public then f.size == public[f.path].size else f.size in index && lock != Some(f.path);
      Hashed(index, public, lock, files[..|files| - 1]) + if one then 1 else 0
  }

  ghost predicate TreePasses(index: Index, public: map<Path, Row>, lock: Option<Path>, files: seq<Found>,
                             digest: string -> string) {
    && (forall i :: 0 <= i < |files| ==> Passes(index, public, lock, files[i], digest))
    && forall path :: path in public ==> Present(files, path)
  }

  ghost predicate Present(files: seq<Found>, path: Path) {
    exists i :: 0 <= i < |files| && files[i].path == path
  }

  ghost predicate SeenIn(public: map<Path, Row>, files: seq<Found>, seen: set<Path>) {
    forall path :: path in seen <==> path in public && Present(files, path)
  }

  lemma NoneSeen(public: map<Path, Row>)
    ensures SeenIn(public, [], {})
  {
  }

  lemma SeeMore(public: map<Path, Row>, files: seq<Found>, n: nat, seen: set<Path>)
    requires n < |files| && SeenIn(public, files[..n], seen)
    ensures SeenIn(public, files[..n + 1], if files[n].path in public then seen + {files[n].path} else seen)
  {
    var before, after := files[..n], files[..n + 1];
    forall path ensures Present(after, path) <==> Present(before, path) || path == files[n].path {
      if Present(before, path) {
        var i :| 0 <= i < n && before[i].path == path;
        assert after[i].path == path;
      }
      if Present(after, path) {
        var i :| 0 <= i <= n && after[i].path == path;
        assert i < n ==> before[i].path == path;
      }
      assert after[n].path == files[n].path;
    }
  }

  lemma AllSeen(public: map<Path, Row>, files: seq<Found>, seen: set<Path>)
    requires SeenIn(public, files, seen)
    ensures public.Keys - seen == {} <==> forall path :: path in public ==> Present(files, path)
  {
    if public.Keys - seen == {} {
      assert forall path :: path in public ==> path in public.Keys - seen || path in seen;
    }
  }

  /** `scan_source` over what the walk delivers, with the walk's own failure at its end. */
  method ScanSource(files: seq<Found>, failed: bool, index: Index, public: map<Path, Row>, lock: Option<Path>,
                    digest: string -> string)
    returns (r: Result<(nat, nat), string>)
    ensures r.Ok? <==> !failed && TreePasses(index, public, lock, files, digest)
    ensures r.Ok? ==> r.value == (|files|, Hashed(index, public, lock, files))
  {
    hide NameRefused, LfsPointer.Print, SeenIn;
    var count, hashed := 0, 0;
    var seen: set<Path> := {};
    NoneSeen(public);
    for n := 0 to |files|
      invariant count == n && hashed == Hashed(index, public, lock, files[..n])
      invariant forall i :: 0 <= i < n ==> Passes(index, public, lock, files[i], digest)
      invariant SeenIn(public, files[..n], seen)
    {
      var f := files[n];
      count := count + 1;
      assert files[..n + 1][..n] == files[..n];
      SeeMore(public, files, n, seen);
      if f.path in public {
        var row := public[f.path];
        if f.size == row.size {
          hashed := hashed + 1;
          if |f.bytes| != row.size || digest(f.bytes) != row.sha256 { return Err("public model integrity mismatch"); }
        } else if f.bytes != LfsPointer.Print(row.size, row.sha256) {
          return Err("public model integrity mismatch");
        }
        seen := seen + {f.path};
        continue;
      }
      if NameRefused(f.path) { return Err("plaintext model name"); }
      if f.size !in index || lock == Some(f.path) { continue; }
      hashed := hashed + 1;
      if |f.bytes| != f.size { return Err("source file changed during scan"); }
      if digest(f.bytes) in index[f.size] { return Err("locked_private_artifact_bytes"); }
    }
    assert files[..|files|] == files;
    if failed { return Err("cannot enumerate source"); }
    AllSeen(public, files, seen);
    if public.Keys - seen != {} { return Err("declared public model is missing"); }
    r := Ok((count, hashed));
  }

  // ---------- a release archive

  datatype Member = Member(name: string, encrypted: bool, size: nat, bytes: string)

  function WithoutSlashes(name: string): string {
    if name != "" && name[|name| - 1] == '/' then WithoutSlashes(name[..|name| - 1]) else name
  }

  predicate IsFolder(m: Member) {
    m.name != "" && m.name[|m.name| - 1] == '/'
  }

  /** `strict_archive_name` */
  function PathOf(m: Member): Option<Path> {
    ArtifactLock.StrictRelativePath(WithoutSlashes(m.name))
  }

  predicate MemberPasses(index: Index, m: Member, digest: string -> string) {
    && PathOf(m).Some?
    && (!IsFolder(m) ==> !m.encrypted && !NameRefused(PathOf(m).value) && IndexPasses(index, m.size, m.bytes, digest))
  }

  ghost predicate ArchivePasses(index: Index, members: seq<Member>, digest: string -> string) {
    && (forall i :: 0 <= i < |members| ==> MemberPasses(index, members[i], digest))
    && forall i, j :: 0 <= i < j < |members| ==> PathOf(members[i]) != PathOf(members[j])
  }

  function FileCount(members: seq<Member>): nat {
    if members == [] then 0
    else FileCount(members[..|members| - 1]) + if IsFolder(members[|members| - 1]) then 0 else 1
  }

  function MembersHashed(index: Index, members: seq<Member>): nat {
    if members == [] then 0
    else
      var m := members[|members| - 1];
      MembersHashed(index, members[..|members| - 1]) + if !IsFolder(m) && m.size in index then 1 else 0
  }

  ghost predicate PathPresent(members: seq<Member>, path: Path) {
    exists i :: 0 <= i < |members| && PathOf(members[i]) == Some(path)
  }

  /** A prefix passes with one more member exactly when that member does and its path is new. */
  lemma OneMoreMember(index: Index, members: seq<Member>, n: nat, digest: string -> string)
    requires n < |members| && ArchivePasses(index, members[..n], digest)
    ensures ArchivePasses(index, members[..n + 1], digest) <==>
      MemberPasses(index, members[n], digest) && !PathPresent(members[..n], PathOf(members[n]).value)
  {
    hide PathOf, MemberPasses;
    PassingPath(index, members[n], digest);
    var before, after := members[..n], members[..n + 1];
    assert after[n] == members[n] && forall i :: 0 <= i < n ==> after[i] == before[i];
    forall i | 0 <= i < n ensures PathOf(before[i]).Some? { PassingPath(index, before[i], digest); }
  }

  lemma PassingPath(index: Index, m: Member, digest: string -> string)
    ensures MemberPasses(index, m, digest) ==> PathOf(m).Some?
  {
  }

  lemma PathsPresent(members: seq<Member>, n: nat, path: Path)
    requires n < |members|
    ensures PathPresent(members[..n + 1], path) <==> PathPresent(members[..n], path) || PathOf(members[n]) == Some(path)
  {
    hide PathOf;
    var before, after := members[..n], members[..n + 1];
    if PathPresent(before, path) {
      var i :| 0 <= i < n && PathOf(before[i]) == Some(path);
      assert after[i] == before[i];
    }
    if PathPresent(after, path) {
      var i :| 0 <= i <= n && PathOf(after[i]) == Some(path);
      assert i < n ==> before[i] == after[i];
    }
    assert after[n] == members[n];
  }

  lemma PrefixPasses(index: Index, members: seq<Member>, n: nat, digest: string -> string)
    requires n <= |members| && ArchivePasses(index, members, digest)
    ensures ArchivePasses(index, members[..n], digest)
  {
    hide PathOf, MemberPasses;
  }

  /** `scan_archive` */
  method ScanArchive(members: seq<Member>, index: Index, digest: string -> string)
    returns (r: Result<(nat, nat), string>)
    ensures r.Ok? <==> ArchivePasses(index, members, digest)
    ensures r.Ok? ==> r.value == (FileCount(members), MembersHashed(index, members))
  {
    hide NameRefused, PathOf, ArchivePasses, PathPresent;
    var files, hashed := 0, 0;
    var seen: set<Path> := {};
    NoMembers(index, digest);
    for n := 0 to |members|
      invariant ArchivePasses(index, members[..n], digest)
      invariant forall path :: path in seen <==> PathPresent(members[..n], path)
      invariant files == FileCount(members[..n]) && hashed == MembersHashed(index, members[..n])
    {
      var m := members[n];
      assert members[..n + 1][..n] == members[..n];
      OneMoreMember(index, members, n, digest);
      if ArchivePasses(index, members, digest) { PrefixPasses(index, members, n + 1, digest); }
      forall path ensures PathPresent(members[..n + 1], path) <==> path in seen || PathOf(m) == Some(path) {
        PathsPresent(members, n, path);
      }
      var path := PathOf(m);
      if path.None? { return Err("archive entry path is unsafe"); }
      if path.value in seen { return Err("duplicate archive entry"); }
      seen := seen + {path.value};
      if IsFolder(m) { continue; }
      if m.encrypted { return Err("encrypted archive entry cannot be inspected"); }
      files := files + 1;
      if NameRefused(path.value) { return Err("plaintext model name"); }
      if m.size !in index { continue; }
      hashed := hashed + 1;
      if |m.bytes| != m.size { return Err("archive entry size changed"); }
      if digest(m.bytes) in index[m.size] { return Err("locked_private_artifact_bytes"); }
    }
    assert members[..|members|] == members;
    r := Ok((files, hashed));
  }

  lemma NoMembers(index: Index, digest: string -> string)
    ensures ArchivePasses(index, [], digest) && forall path :: !PathPresent([], path)
  {
  }

  /** With true sizes, an archive passes exactly when no file in it has the bytes of any row, and its
      names are safe, distinct and allowed. */
  lemma HonestArchive(index: Index, rows: seq<Row>, members: seq<Member>, digest: string -> string)
    requires Indexes(index, rows)
    requires forall i :: 0 <= i < |members| ==> members[i].size == |members[i].bytes|
    ensures ArchivePasses(index, members, digest) <==>
      && (forall i :: 0 <= i < |members| ==> PathOf(members[i]).Some?)
      && (forall i, j :: 0 <= i < j < |members| ==> PathOf(members[i]) != PathOf(members[j]))
      && (forall i :: 0 <= i < |members| && !IsFolder(members[i]) ==>
          && !members[i].encrypted && !NameRefused(PathOf(members[i]).value)
          && Unlocked(rows, members[i].bytes, digest))
  {
    hide NameRefused, PathOf, IsFolder, Unlocked, IndexPasses;
    forall i | 0 <= i < |members|
      ensures IndexPasses(index, members[i].size, members[i].bytes, digest)
        <==> Unlocked(rows, members[i].bytes, digest)
    {
      SizeFirstExactly(index, rows, members[i].size, members[i].bytes, digest);
    }
  }

  /** The whole scan of a tree against its plain meaning: no trouble below the root, every declared
      model intact, and nothing else that is named like a model or has the bytes of any row. */
  ghost predicate TreeClean(rows: seq<Row>, public: map<Path, Row>, lock: Option<Path>, files: seq<Found>,
                            digest: string -> string) {
    && (forall i :: 0 <= i < |files| && files[i].path !in public ==>
        !NameRefused(files[i].path) && (lock == Some(files[i].path) || Unlocked(rows, files[i].bytes, digest)))
    && (forall i :: 0 <= i < |files| && files[i].path in public ==>
        PublicIntact(public[files[i].path], files[i], digest))
    && forall path :: path in public ==> Present(files, path)
  }

  lemma HonestTree(index: Index, rows: seq<Row>, public: map<Path, Row>, lock: Option<Path>, files: seq<Found>,
                   digest: string -> string)
    requires Indexes(index, rows)
    requires forall i :: 0 <= i < |files| ==> files[i].size == |files[i].bytes|
    ensures TreePasses(index, public, lock, files, digest) <==> TreeClean(rows, public, lock, files, digest)
  {
    hide NameRefused, Unlocked, IndexPasses, PublicIntact;
    forall i | 0 <= i < |files|
      ensures IndexPasses(index, files[i].size, files[i].bytes, digest) <==> Unlocked(rows, files[i].bytes, digest)
    {
      SizeFirstExactly(index, rows, files[i].size, files[i].bytes, digest);
    }
  }

  ghost predicate FileClean(rows: seq<Row>, public: map<Path, Row>, lock: Option<Path>, f: Found,
                            digest: string -> string) {
    if f.path in public then PublicIntact(public[f.path], f, digest)
    else !NameRefused(f.path) && (lock == Some(f.path) || Unlocked(rows, f.bytes, digest))
  }

  /** From the tree itself to the verdict: a well-named tree whose sizes are true passes exactly when
      no trouble lies outside the skipped folders, every regular file outside them is clean by the
      rows, and every declared model is among them. */
  lemma TreeVerdict(index: Index, rows: seq<Row>, public: map<Path, Row>, lock: Option<Path>, readable: bool,
                    items: seq<Item>, digest: string -> string)
    requires Indexes(index, rows) && SourceTreeLaws.WellNamed(items)
    requires forall f :: SourceTreeLaws.Holds([], items, f) ==> f.size == |f.bytes|
    ensures var walk := WalkFolder(Pending([], readable, items));
      !walk.failed && TreePasses(index, public, lock, walk.files, digest) <==>
      && readable && !SourceTreeLaws.Troubled(items)
      && (forall f :: SourceTreeLaws.Holds([], items, f) ==> FileClean(rows, public, lock, f, digest))
      && (forall path :: path in public ==> exists f :: SourceTreeLaws.Holds([], items, f) && f.path == path)
  {
    hide WalkFolder, SourceTreeLaws.Holds, SourceTreeLaws.Troubled, SourceTreeLaws.WellNamed, NameRefused, Unlocked,
         IndexPasses, PublicIntact, TreePasses, Indexes;
    var walk := WalkFolder(Pending([], readable, items));
    SourceTreeLaws.WalkExactly(readable, items);
    if !walk.failed {
      assert forall i :: 0 <= i < |walk.files| ==> walk.files[i] in walk.files;
      HonestTree(index, rows, public, lock, walk.files, digest);
      CleanFiles(rows, public, lock, walk.files, items, digest);
    }
  }

  lemma CleanFiles(rows: seq<Row>, public: map<Path, Row>, lock: Option<Path>, files: seq<Found>, items: seq<Item>,
                   digest: string -> string)
    requires forall f :: f in files <==> SourceTreeLaws.Holds([], items, f)
    ensures TreeClean(rows, public, lock, files, digest) <==>
      && (forall f :: SourceTreeLaws.Holds([], items, f) ==> FileClean(rows, public, lock, f, digest))
      && (forall path :: path in public ==> exists f :: SourceTreeLaws.Holds([], items, f) && f.path == path)
  {
    hide SourceTreeLaws.Holds, NameRefused, Unlocked, PublicIntact;
    assert TreeClean(rows, public, lock, files, digest) <==>
      (forall i :: 0 <= i < |files| ==> FileClean(rows, public, lock, files[i], digest))
      && (forall path :: path in public ==> Present(files, path));
    assert (forall i :: 0 <= i < |files| ==> FileClean(rows, public, lock, files[i], digest))
      <==> (forall f :: f in files ==> FileClean(rows, public, lock, f, digest));
    forall path ensures Present(files, path) <==> exists f :: SourceTreeLaws.Holds([], items, f) && f.path == path {
      if f :| SourceTreeLaws.Holds([], items, f) && f.path == path {
        assert f in files;
      }
    }
  }
}
