/** The archive-evidence verifier, tools/dual_machine_cryptographic_evidence.py. */
module Evidence {
  import opened Wrappers
  import opened StableSorting
  import opened JsonValue
  import opened ArchivePaths

  const MANIFEST_SCHEMA := "visionforge-dual-machine-cryptographic-evidence-v1"

  const REQUIRED_CASES: set<string> := {
    "tag_bit_flip", "aad_bit_flip", "ciphertext_bit_flip", "truncation", "oversize", "duplicate_counter",
    "out_of_order", "wrong_epoch", "wrong_direction", "wrong_type", "wrong_connection", "cross_session",
    "plaintext_downgrade", "artifact_sha256"}

  const MAX_ENTRIES: nat := 256
  const MAX_CASES: nat := 64
  const MAX_ARTIFACT_BYTES: nat := 512 * 1024 * 1024
  const MAX_TOTAL_BYTES: nat := 512 * 1024 * 1024
  const CHUNK: nat := 1024 * 1024

  datatype Record = Record(path: string, size: nat, digest: string)

  datatype Case = Case(id: string, artifact: string)

  // ---------- entries

  /** `_validate_artifact_entry`. */
  function ArtifactEntry(root: seq<string>, value: Json): Result<Record, string> {
    if !value.Object? then Err("artifact_schema")
    else if Keys(value.fields) != {"path", "size", "sha256"} then Err("schema_keys")
    else
      match ArchivePath(root, Get(value, "path"))
      case Err(code) => Err(code)
      case Ok(path) =>
        var size, digest := Get(value, "size"), Get(value, "sha256");
        if !size.Int? then Err("integer_type")
        else if size.i < 0 || size.i > MAX_ARTIFACT_BYTES then Err("artifact_size_bound")
        else if !Digest(digest) then Err("artifact_hash_format")
        else Ok(Record(path, size.i, digest.s))
  }

  /** `_validate_case_entry`. */
  function CaseEntry(root: seq<string>, value: Json): Result<Case, string> {
    if !value.Object? then Err("case_schema")
    else if Keys(value.fields) != {"case_id", "result", "artifact"} then Err("schema_keys")
    else
      var id, result := Get(value, "case_id"), Get(value, "result");
      if !id.String? || id.s !in REQUIRED_CASES then Err("case_unknown")
      else if result != String("rejected") then Err("case_not_rejected")
      else
        match ArchivePath(root, Get(value, "artifact"))
        case Err(code) => Err(code)
        case Ok(path) => Ok(Case(id.s, path))
  }

  // ---------- reading files

  /** How one opened file behaves: its size when opened, the bytes its reads deliver in order, how many
      come at once from a position, and its size at the end. */
  datatype Delivery = Delivery(sizeAtOpen: nat, bytes: string, pace: nat -> nat, sizeAtEnd: nat)

  /** A file nobody touches, read at any pace. */
  predicate Unchanging(file: Delivery, content: string) {
    file.sizeAtOpen == file.sizeAtEnd == |content| && file.bytes == content
  }

  /** Files that can be opened; no other path names a regular file. */
  type Archive = map<string, Delivery>

  /** `handle.read(limit)` at a position: empty only at the end, else as much as comes at once. */
  function ReadBlock(file: Delivery, position: nat, limit: nat): (block: string)
    requires position <= |file.bytes|
    ensures |block| <= limit && position + |block| <= |file.bytes|
    ensures block == file.bytes[position..position + |block|]
    ensures limit > 0 && position < |file.bytes| ==> block != ""
  {
    var most := if limit < |file.bytes| - position then limit else |file.bytes| - position;
    var ready := if file.pace(position) == 0 then 1 else file.pace(position);
    var count := if ready < most then ready else most;
    file.bytes[position..position + count]
  }

  /** What hashing one file accepts: all three sizes as declared, and the digest of the bytes the budget
      lets through. */
  predicate HashAccepts(file: Delivery, size: nat, expected: string, budget: int, digest: string -> string) {
    && size <= budget
    && file.sizeAtOpen == file.sizeAtEnd == size <= MAX_ARTIFACT_BYTES
    && (|file.bytes| == size || (|file.bytes| > size && budget == size))
    && digest(file.bytes[..size]) == expected
  }

  /** `_hash_artifact`. `bytesRead` counts what was read from the file, accepted or not. */
  method HashArtifact(archive: Archive, path: string, size: nat, expected: string, budget: int,
                      digest: string -> string)
    returns (r: Result<(), string>, bytesRead: nat)
    ensures r.Ok? <==> path in archive && HashAccepts(archive[path], size, expected, budget, digest)
    ensures bytesRead <= if budget < 0 then 0 else budget
    ensures r.Ok? ==> bytesRead == size
  {
    bytesRead := 0;
    if budget < 0 || size > budget {
      return Err("artifact_total_size_bound"), 0;
    }
    if path !in archive {
      return Err("artifact_missing"), 0;
    }
    var file := archive[path];
    if file.sizeAtOpen > budget {
      return Err("artifact_total_size_bound"), 0;
    }
    if file.sizeAtOpen > MAX_ARTIFACT_BYTES || file.sizeAtOpen != size {
      return Err("artifact_size_mismatch"), 0;
    }
    var hashed := "";
    while true
      invariant bytesRead <= budget && bytesRead <= |file.bytes| && hashed == file.bytes[..bytesRead]
      decreases |file.bytes| - bytesRead
    {
      var remaining := budget - bytesRead;
      if remaining == 0 {
        break;
      }
      var block := ReadBlock(file, bytesRead, if CHUNK < remaining then CHUNK else remaining);
      if block == "" {
        assert bytesRead == |file.bytes|;
        break;
      }
      bytesRead := bytesRead + |block|;
      hashed := hashed + block;
    }
    assert bytesRead == budget || bytesRead == |file.bytes|;
    if file.sizeAtEnd != size {
      return Err("artifact_size_mismatch"), bytesRead;
    }
    if bytesRead != size {
      return Err("artifact_size_mismatch"), bytesRead;
    }
    if digest(hashed) != expected {
      return Err("artifact_sha256_mismatch"), bytesRead;
    }
    r := Ok(());
  }

  // ---------- the loops over the manifest

  function TotalSize(records: seq<Record>): nat {
    if records == [] then 0 else TotalSize(records[..|records| - 1]) + records[|records| - 1].size
  }

  ghost predicate DistinctPaths(records: seq<Record>) {
    forall i, j :: 0 <= i < j < |records| ==> records[i].path != records[j].path
  }

  ghost predicate EntriesAre(root: seq<string>, items: seq<Json>, records: seq<Record>) {
    |items| == |records| && forall i :: 0 <= i < |items| ==> ArtifactEntry(root, items[i]) == Ok(records[i])
  }

  ghost predicate CasesAre(root: seq<string>, items: seq<Json>, cases: seq<Case>) {
    |items| == |cases| && forall i :: 0 <= i < |items| ==> CaseEntry(root, items[i]) == Ok(cases[i])
  }

  ghost predicate DistinctCases(cases: seq<Case>) {
    forall i, j :: 0 <= i < j < |cases| ==> cases[i].id != cases[j].id
  }

  function PathsOf(records: seq<Record>): seq<string> {
    seq(|records|, i requires 0 <= i < |records| => records[i].path)
  }

  /** The artifact list is acceptable: every entry valid, no path twice, the sizes within the total. */
  ghost predicate ArtifactsFit(root: seq<string>, items: seq<Json>, records: seq<Record>) {
    EntriesAre(root, items, records) && DistinctPaths(records) && TotalSize(records) <= MAX_TOTAL_BYTES
  }

  lemma {:induction false} TotalGrows(records: seq<Record>, n: nat)
    requires n <= |records|
    ensures TotalSize(records[..n]) <= TotalSize(records)
  {
    if n < |records| {
      assert records[..|records| - 1][..n] == records[..n];
      TotalGrows(records[..|records| - 1], n);
    } else {
      assert records[..n] == records;
    }
  }

  method ReadArtifacts(root: seq<string>, items: seq<Json>) returns (r: Result<seq<Record>, string>)
    ensures r.Ok? ==> ArtifactsFit(root, items, r.value)
    ensures r.Err? ==> forall records :: !ArtifactsFit(root, items, records)
  {
    hide ArtifactEntry;
    var records: seq<Record> := [];
    var seen: set<string>, total := {}, 0;
    for index := 0 to |items|
      invariant ArtifactsFit(root, items[..index], records) && total == TotalSize(records)
      invariant forall p :: p in seen <==> exists i :: 0 <= i < |records| && records[i].path == p
    {
      match ArtifactEntry(root, items[index])
      case Err(code) => return Err(code);
      case Ok(record) =>
        if record.path in seen || record.size > MAX_TOTAL_BYTES - total {
          forall all ensures !ArtifactsFit(root, items, all) {
            if ArtifactsFit(root, items, all) { PrefixForced(root, items, records, record, all, index); }
          }
          return Err(if record.path in seen then "artifact_duplicate" else "artifact_total_size_bound");
        }
        assert (records + [record])[..|records|] == records;
        total, seen, records := total + record.size, seen + {record.path}, records + [record];
    }
    assert items[..|items|] == items;
    r := Ok(records);
  }

  /** The records read so far are those of every acceptable reading. */
  lemma PrefixForced(root: seq<string>, items: seq<Json>, records: seq<Record>, record: Record, all: seq<Record>,
                     index: nat)
    requires index < |items| && EntriesAre(root, items[..index], records)
      && ArtifactEntry(root, items[index]) == Ok(record)
    requires ArtifactsFit(root, items, all)
    ensures all[..index] == records && all[index] == record
    ensures TotalSize(records) + record.size <= MAX_TOTAL_BYTES
    ensures forall i :: 0 <= i < |records| ==> records[i].path != record.path
  {
    hide ArtifactEntry;
    forall i | 0 <= i < index ensures all[i] == records[i] {
      assert items[..index][i] == items[i];
    }
    assert all[..index] == records;
    assert all[..index + 1][..index] == all[..index];
    TotalGrows(all, index + 1);
  }

  ghost predicate CasesFit(root: seq<string>, items: seq<Json>, cases: seq<Case>) {
    CasesAre(root, items, cases) && DistinctCases(cases)
  }

  method ReadCases(root: seq<string>, items: seq<Json>) returns (r: Result<seq<Case>, string>)
    ensures r.Ok? ==> CasesFit(root, items, r.value)
    ensures r.Err? ==> forall cases :: !CasesFit(root, items, cases)
  {
    hide CaseEntry;
    var cases: seq<Case> := [];
    var seen: set<string> := {};
    for index := 0 to |items|
      invariant CasesFit(root, items[..index], cases)
      invariant forall id :: id in seen <==> exists i :: 0 <= i < |cases| && cases[i].id == id
    {
      match CaseEntry(root, items[index])
      case Err(code) => return Err(code);
      case Ok(entry) =>
        if entry.id in seen {
          forall all ensures !CasesFit(root, items, all) {
            if CasesFit(root, items, all) { CasePrefixForced(root, items, cases, entry, all, index); }
          }
          return Err("case_duplicate");
        }
        seen, cases := seen + {entry.id}, cases + [entry];
    }
    assert items[..|items|] == items;
    r := Ok(cases);
  }

  lemma CasePrefixForced(root: seq<string>, items: seq<Json>, cases: seq<Case>, entry: Case, all: seq<Case>, index: nat)
    requires index < |items| && CasesAre(root, items[..index], cases) && CaseEntry(root, items[index]) == Ok(entry)
    requires CasesFit(root, items, all)
    ensures forall i :: 0 <= i < |cases| ==> cases[i].id != entry.id
  {
    hide CaseEntry;
    forall i | 0 <= i < index ensures all[i] == cases[i] {
      assert items[..index][i] == items[i];
    }
    assert all[index] == entry;
  }

  // ---------- the whole verification

  predicate ByPath(a: Record, b: Record) {
    AtMost(a.path, b.path)
  }

  /** The order in which the artifacts are hashed. */
  function InOrder(records: seq<Record>): seq<Record> {
    StableSort(records, ByPath)
  }

  /** Every artifact is accepted with the budget the earlier ones leave. */
  ghost predicate RunAccepts(order: seq<Record>, archive: Archive, digest: string -> string) {
    forall k :: 0 <= k < |order| ==> AcceptedAt(order, k, archive, digest)
  }

  ghost predicate AcceptedAt(order: seq<Record>, k: nat, archive: Archive, digest: string -> string)
    requires k < |order|
  {
    && order[k].path in archive
    && HashAccepts(archive[order[k].path], order[k].size, order[k].digest, MAX_TOTAL_BYTES - TotalSize(order[..k]),
      digest)
  }

  /** The manifest itself: its three fields, its entries, every required case exactly once, and the
      artifacts the cases refer to exactly the declared ones. */
  ghost predicate ManifestFits(root: seq<string>, manifest: Json, records: seq<Record>, cases: seq<Case>) {
    && manifest.Object? && Keys(manifest.fields) == {"schema", "artifacts", "attack_matrix"}
    && Get(manifest, "schema") == String(MANIFEST_SCHEMA)
    && var artifacts, matrix := Get(manifest, "artifacts"), Get(manifest, "attack_matrix");
    && artifacts.Array? && 0 < |artifacts.items| <= MAX_ENTRIES
    && matrix.Array? && |matrix.items| <= MAX_CASES
    && ArtifactsFit(root, artifacts.items, records)
    && CasesFit(root, matrix.items, cases)
    && (set c | c in cases :: c.id) == REQUIRED_CASES
    && (set c | c in cases :: c.artifact) == (set r | r in records :: r.path)
  }

  ghost predicate Accepts(root: seq<string>, manifest: Json, archive: Archive, digest: string -> string) {
    exists records, cases ::
      ManifestFits(root, manifest, records, cases) && RunAccepts(InOrder(records), archive, digest)
  }

  datatype Report = Report(artifacts: seq<string>, cases: set<string>)

  lemma OneReading(root: seq<string>, manifest: Json, r1: seq<Record>, c1: seq<Case>, r2: seq<Record>, c2: seq<Case>)
    requires manifest.Object? && Get(manifest, "artifacts").Array? && Get(manifest, "attack_matrix").Array?
    requires ArtifactsFit(root, Get(manifest, "artifacts").items, r1)
      && CasesFit(root, Get(manifest, "attack_matrix").items, c1)
    requires ArtifactsFit(root, Get(manifest, "artifacts").items, r2)
      && CasesFit(root, Get(manifest, "attack_matrix").items, c2)
    ensures r1 == r2 && c1 == c2
  {
    hide ArtifactEntry, CaseEntry, Get;
  }

  /** Hashes the artifacts one after the other, each within what is left of the total. */
  method HashAll(order: seq<Record>, archive: Archive, digest: string -> string)
    returns (r: Result<(), string>, totalRead: nat)
    requires TotalSize(order) <= MAX_TOTAL_BYTES
    ensures r.Ok? <==> RunAccepts(order, archive, digest)
    ensures totalRead <= MAX_TOTAL_BYTES
  {
    hide HashAccepts;
    var accepted := 0;
    totalRead := 0;
    for k := 0 to |order|
      invariant accepted == totalRead == TotalSize(order[..k]) <= MAX_TOTAL_BYTES
      invariant forall i :: 0 <= i < k ==> AcceptedAt(order, i, archive, digest)
    {
      var record := order[k];
      TotalGrows(order, k + 1);
      assert order[..k + 1][..k] == order[..k];
      var one, bytesRead :=
        HashArtifact(archive, record.path, record.size, record.digest, MAX_TOTAL_BYTES - accepted, digest);
      totalRead := totalRead + bytesRead;
      if one.Err? {
        assert !AcceptedAt(order, k, archive, digest);
        return one, totalRead;
      }
      accepted := accepted + record.size;
    }
    r := Ok(());
  }

  /** `verify_evidence_manifest` on a parsed manifest. However the files behave, the bytes read in the
      whole run stay within the total. */
  method VerifyEvidenceManifest(root: seq<string>, manifest: Json, archive: Archive, digest: string -> string)
    returns (r: Result<Report, string>, totalRead: nat)
    ensures r.Ok? <==> Accepts(root, manifest, archive, digest)
    ensures forall records, cases :: r.Ok? && ManifestFits(root, manifest, records, cases) ==>
      r.value == Report(PathsOf(InOrder(records)), REQUIRED_CASES)
    ensures totalRead <= 536870912
  {
    hide ArtifactsFit, CasesFit, InOrder, RunAccepts, Get;
    totalRead := 0;
    if !manifest.Object? {
      return Err("schema_type"), 0;
    }
    if Keys(manifest.fields) != {"schema", "artifacts", "attack_matrix"} {
      return Err("schema_keys"), 0;
    }
    if Get(manifest, "schema") != String(MANIFEST_SCHEMA) {
      return Err("schema_value"), 0;
    }
    var artifacts, matrix := Get(manifest, "artifacts"), Get(manifest, "attack_matrix");
    if !artifacts.Array? {
      return Err("artifact_list_type"), 0;
    }
    if artifacts.items == [] || |artifacts.items| > MAX_ENTRIES {
      return Err("artifact_count"), 0;
    }
    if !matrix.Array? {
      return Err("case_list_type"), 0;
    }
    if |matrix.items| > MAX_CASES {
      return Err("case_count"), 0;
    }
    var records := ReadArtifacts(root, artifacts.items);
    if records.Err? {
      return Err(records.error), 0;
    }
    var cases := ReadCases(root, matrix.items);
    if cases.Err? {
      return Err(cases.error), 0;
    }
    forall r2, c2 | ManifestFits(root, manifest, r2, c2) ensures r2 == records.value && c2 == cases.value {
      OneReading(root, manifest, r2, c2, records.value, cases.value);
    }
    if (set c | c in cases.value :: c.id) != REQUIRED_CASES {
      return Err("case_matrix_incomplete"), 0;
    }
    if (set c | c in cases.value :: c.artifact) != (set a | a in records.value :: a.path) {
      return Err("artifact_manifest_mismatch"), 0;
    }
    assert ManifestFits(root, manifest, records.value, cases.value);
    OrderKeepsTotal(root, artifacts.items, records.value);
    var hashed;
    hashed, totalRead := HashAll(InOrder(records.value), archive, digest);
    if hashed.Err? {
      return Err(hashed.error), totalRead;
    }
    r := Ok(Report(PathsOf(InOrder(records.value)), REQUIRED_CASES));
  }

  lemma OrderKeepsTotal(root: seq<string>, items: seq<Json>, records: seq<Record>)
    requires ArtifactsFit(root, items, records)
    ensures TotalSize(InOrder(records)) <= MAX_TOTAL_BYTES
  {
    SortKeepsTotal(records);
  }

  lemma {:induction false} SortKeepsTotal(records: seq<Record>)
    ensures TotalSize(InOrder(records)) == TotalSize(records)
  {
    if records != [] {
      SortKeepsTotal(records[..|records| - 1]);
      InsertAddsSize(InOrder(records[..|records| - 1]), records[|records| - 1]);
    }
  }

  lemma {:induction false} InsertAddsSize(ys: seq<Record>, x: Record)
    ensures TotalSize(Insert(ys, x, ByPath)) == TotalSize(ys) + x.size
  {
    if ys == [] || ByPath(ys[|ys| - 1], x) {
      assert (ys + [x])[..|ys|] == ys;
    } else {
      var rest := Insert(ys[..|ys| - 1], x, ByPath);
      InsertAddsSize(ys[..|ys| - 1], x);
      assert (rest + [ys[|ys| - 1]])[..|rest|] == rest;
    }
  }

  // ---------- archives that do not change

  /** The set-level meaning: a fitting manifest, and every declared file there with its size and digest. */
  ghost predicate Correct(root: seq<string>, manifest: Json, contents: map<string, string>, digest: string -> string) {
    exists records, cases ::
      && ManifestFits(root, manifest, records, cases)
      && forall r <- records :: FileMatches(r, contents, digest)
  }

  ghost predicate FileMatches(r: Record, contents: map<string, string>, digest: string -> string) {
    r.path in contents && |contents[r.path]| == r.size && digest(contents[r.path]) == r.digest
  }

  ghost predicate Still(archive: Archive, contents: map<string, string>) {
    archive.Keys == contents.Keys && forall p <- archive.Keys :: Unchanging(archive[p], contents[p])
  }

  /** The shrinking budget rejects no file of an unchanging archive whose declared sizes fit the total. */
  lemma BudgetNeverBinds(order: seq<Record>, k: nat, archive: Archive, contents: map<string, string>,
                         digest: string -> string)
    requires k < |order| && TotalSize(order) <= MAX_TOTAL_BYTES && Still(archive, contents)
    ensures AcceptedAt(order, k, archive, digest) <==> FileMatches(order[k], contents, digest)
  {
    TotalGrows(order, k + 1);
    assert order[..k + 1][..k] == order[..k];
    var r := order[k];
    if r.path in contents && |contents[r.path]| == r.size {
      assert contents[r.path][..r.size] == contents[r.path];
    }
  }

  lemma ByPathOrders()
    ensures TotalPreorder(ByPath)
  {
    AtMostOrders();
    forall a: Record, b: Record ensures ByPath(a, b) || ByPath(b, a) {
      assert AtMost(a.path, b.path) || AtMost(b.path, a.path);
    }
    forall a: Record, b: Record, c: Record | ByPath(a, b) && ByPath(b, c) ensures ByPath(a, c) {
      assert AtMost(a.path, b.path) && AtMost(b.path, c.path);
    }
  }

  /** On an archive that does not change, at whatever pace it is read, acceptance means correctness. */
  lemma AcceptsIffCorrect(root: seq<string>, manifest: Json, archive: Archive, contents: map<string, string>,
                          digest: string -> string)
    requires Still(archive, contents)
    ensures Accepts(root, manifest, archive, digest) <==> Correct(root, manifest, contents, digest)
  {
    hide Still, FileMatches, AcceptedAt, InOrder, ManifestFits;
    forall records, cases | ManifestFits(root, manifest, records, cases)
      ensures RunAccepts(InOrder(records), archive, digest) <==> forall r <- records :: FileMatches(r, contents, digest)
    {
      FittingTotal(root, manifest, records, cases);
      RunIffMatches(records, archive, contents, digest);
    }
  }

  lemma FittingTotal(root: seq<string>, manifest: Json, records: seq<Record>, cases: seq<Case>)
    requires ManifestFits(root, manifest, records, cases)
    ensures TotalSize(records) <= MAX_TOTAL_BYTES
  {
  }

  lemma RunIffMatches(records: seq<Record>, archive: Archive, contents: map<string, string>, digest: string -> string)
    requires TotalSize(records) <= MAX_TOTAL_BYTES && Still(archive, contents)
    ensures RunAccepts(InOrder(records), archive, digest) <==> forall r <- records :: FileMatches(r, contents, digest)
  {
    hide Still, FileMatches, AcceptedAt;
    var order := InOrder(records);
    SortKeepsTotal(records);
    ByPathOrders();
    StableSortSorts(records, StableSort(records, ByPath), ByPath);
    forall k | 0 <= k < |order|
      ensures AcceptedAt(order, k, archive, digest) <==> FileMatches(order[k], contents, digest)
    {
      BudgetNeverBinds(order, k, archive, contents, digest);
    }
    forall r: Record ensures r in records <==> r in order {
      StableSortMembers(records, order, ByPath, r);
    }
    if RunAccepts(order, archive, digest) {
      forall r | r in records ensures FileMatches(r, contents, digest) {
        var k :| 0 <= k < |order| && order[k] == r;
      }
    } else {
      var k :| 0 <= k < |order| && !AcceptedAt(order, k, archive, digest);
      assert order[k] in order;
    }
  }
}
