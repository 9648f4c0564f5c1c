/**
  An accepted evidence manifest in terms of its JSON: what every artifact entry and every attack case
  says, that each required attack stands there once and was rejected, and which files back it.
 */
module EvidenceTerms {
  import opened Wrappers
  import opened JsonValue
  import opened ArchivePaths
  import opened Sums
  import opened StableSorting
  import opened Evidence

  const ATTACKS: set<string> := {
    "tag_bit_flip", "aad_bit_flip", "ciphertext_bit_flip", "truncation", "oversize", "duplicate_counter",
    "out_of_order", "wrong_epoch", "wrong_direction", "wrong_type", "wrong_connection", "cross_session",
    "plaintext_downgrade", "artifact_sha256"}

  /** An entry with these three members and no others. */
  ghost predicate ArtifactSays(item: Json, r: Record) {
    && HasExactly(item, {"path", "size", "sha256"})
    && Member(item, "path", String(r.path)) && LocalPath(r.path)
    && Member(item, "size", Int(r.size)) && r.size <= 536870912
    && Member(item, "sha256", String(r.digest)) && |r.digest| == 64 && Drawn(r.digest, "0123456789abcdef")
  }

  /** A known attack that was rejected, and the artifact that shows it. */
  ghost predicate CaseSays(item: Json, id: string, artifact: string) {
    && HasExactly(item, {"case_id", "result", "artifact"})
    && Member(item, "case_id", String(id)) && id in ATTACKS
    && Member(item, "result", String("rejected"))
    && Member(item, "artifact", String(artifact)) && LocalPath(artifact)
  }

  lemma EntryExactly(root: seq<string>, item: Json, r: Record)
    ensures ArtifactEntry(root, item) == Ok(r) <==> ArtifactSays(item, r)
  {
    hide Get, Member, HasExactly, Keys, LocalPath, ArchivePath, Digest;
    ExactIsObject(item, {"path", "size", "sha256"});
    if item.Object? {
      KeysExactly(item, {"path", "size", "sha256"});
      MembersGot(item, "path");
      MembersGot(item, "sha256");
      MemberGot(item, "size", Int(r.size));
      AcceptedPaths(root, Get(item, "path"));
      DigestExactly(Get(item, "sha256"));
    }
  }

  lemma CaseExactly(root: seq<string>, item: Json, c: Case)
    ensures CaseEntry(root, item) == Ok(c) <==> CaseSays(item, c.id, c.artifact)
  {
    hide Get, Member, HasExactly, Keys, LocalPath, ArchivePath;
    ExactIsObject(item, {"case_id", "result", "artifact"});
    if item.Object? {
      KeysExactly(item, {"case_id", "result", "artifact"});
      MembersGot(item, "case_id");
      MembersGot(item, "result");
      MembersGot(item, "artifact");
      AcceptedPaths(root, Get(item, "artifact"));
    }
  }

  // ---------- the manifest

  function SizesOf(records: seq<Record>): seq<int> {
    seq(|records|, i requires 0 <= i < |records| => records[i].size)
  }

  /** The artifact list says these records: each path once, and sizes that add up to at most 512 MiB. */
  ghost predicate ArtifactsSay(items: seq<Json>, records: seq<Record>) {
    && 0 < |items| <= 256 && |records| == |items|
    && (forall i | 0 <= i < |items| :: ArtifactSays(items[i], records[i]))
    && (forall i, j | 0 <= i < j < |items| :: records[i].path != records[j].path)
    && Sum(SizesOf(records)) <= 536870912
  }

  /** Item `i` is the only one that carries the attack. */
  ghost predicate OnlyCarrier(matrix: seq<Json>, id: string, i: int) {
    && 0 <= i < |matrix| && Member(matrix[i], "case_id", String(id))
    && forall j | 0 <= j < |matrix| && j != i :: !Member(matrix[j], "case_id", String(id))
  }

  ghost predicate Declared(records: seq<Record>, path: string) {
    exists k :: 0 <= k < |records| && records[k].path == path
  }

  ghost predicate RejectedCase(item: Json, records: seq<Record>) {
    exists id, artifact :: CaseSays(item, id, artifact) && Declared(records, artifact)
  }

  ghost predicate Referred(matrix: seq<Json>, path: string) {
    exists i :: 0 <= i < |matrix| && Member(matrix[i], "artifact", String(path))
  }

  /** Every item is a rejected attack on a declared artifact, every attack stands in exactly one item,
      and every declared artifact is referred to. */
  ghost predicate MatrixSays(matrix: seq<Json>, records: seq<Record>) {
    && |matrix| <= 64
    && (forall i | 0 <= i < |matrix| :: RejectedCase(matrix[i], records))
    && (forall id | id in ATTACKS :: exists i :: OnlyCarrier(matrix, id, i))
    && (forall k | 0 <= k < |records| :: Referred(matrix, records[k].path))
  }

  ghost predicate ManifestSays(manifest: Json, items: seq<Json>, matrix: seq<Json>, records: seq<Record>) {
    && HasExactly(manifest, {"schema", "artifacts", "attack_matrix"})
    && Member(manifest, "schema", String("visionforge-dual-machine-cryptographic-evidence-v1"))
    && Member(manifest, "artifacts", Array(items)) && ArtifactsSay(items, records)
    && Member(manifest, "attack_matrix", Array(matrix)) && MatrixSays(matrix, records)
  }

  lemma {:induction false} TotalIsSum(records: seq<Record>)
    ensures TotalSize(records) == Sum(SizesOf(records))
  {
    if records != [] {
      var last := |records| - 1;
      TotalIsSum(records[..last]);
      SumSplits(SizesOf(records[..last]), records[last].size);
      assert SizesOf(records) == SizesOf(records[..last]) + [records[last].size];
    }
  }

  lemma ArtifactsExactly(root: seq<string>, items: seq<Json>, records: seq<Record>)
    requires 0 < |items| <= 256
    ensures ArtifactsFit(root, items, records) <==> ArtifactsSay(items, records)
  {
    hide ArtifactEntry, ArtifactSays;
    TotalIsSum(records);
    if |items| == |records| {
      forall i | 0 <= i < |items|
        ensures ArtifactEntry(root, items[i]) == Ok(records[i]) <==> ArtifactSays(items[i], records[i])
      {
        EntryExactly(root, items[i], records[i]);
      }
    }
  }

  ghost predicate Named(cases: seq<Case>, path: string) {
    exists i :: 0 <= i < |cases| && cases[i].artifact == path
  }

  /** The same sets, element by element. */
  lemma ReferencesMatch(records: seq<Record>, cases: seq<Case>)
    ensures (set c | c in cases :: c.artifact) == (set r | r in records :: r.path)
       <==> && (forall i | 0 <= i < |cases| :: Declared(records, cases[i].artifact))
            && (forall k | 0 <= k < |records| :: Named(cases, records[k].path))
  {
    var from, to := (set c | c in cases :: c.artifact), (set r | r in records :: r.path);
    if from == to {
      forall i | 0 <= i < |cases| ensures Declared(records, cases[i].artifact) {
        assert cases[i] in cases && cases[i].artifact in from;
        var r :| r in records && r.path == cases[i].artifact;
        var k :| 0 <= k < |records| && records[k] == r;
      }
      forall k | 0 <= k < |records| ensures Named(cases, records[k].path) {
        assert records[k] in records && records[k].path in to;
        var c :| c in cases && c.artifact == records[k].path;
        var i :| 0 <= i < |cases| && cases[i] == c;
      }
    } else {
      SetsDiffer(from, to);
      if path :| path in from && path !in to {
        var c :| c in cases && c.artifact == path;
        var i :| 0 <= i < |cases| && cases[i] == c;
        NotDeclared(records, path);
      } else {
        var path :| path in to && path !in from;
        var r :| r in records && r.path == path;
        var k :| 0 <= k < |records| && records[k] == r;
        NotNamed(cases, path);
      }
    }
  }

  lemma SetsDiffer(a: set<string>, b: set<string>)
    requires a != b
    ensures (exists x :: x in a && x !in b) || exists x :: x in b && x !in a
  {
  }

  lemma NotDeclared(records: seq<Record>, path: string)
    requires path !in (set r | r in records :: r.path)
    ensures !Declared(records, path)
  {
    forall k | 0 <= k < |records| ensures records[k].path != path { assert records[k] in records; }
  }

  lemma NotNamed(cases: seq<Case>, path: string)
    requires path !in (set c | c in cases :: c.artifact)
    ensures !Named(cases, path)
  {
    forall i | 0 <= i < |cases| ensures cases[i].artifact != path { assert cases[i] in cases; }
  }

  ghost predicate Carried(cases: seq<Case>, id: string) {
    exists i :: 0 <= i < |cases| && cases[i].id == id
  }

  lemma RequiredMatch(cases: seq<Case>)
    requires forall i | 0 <= i < |cases| :: cases[i].id in ATTACKS
    ensures (set c | c in cases :: c.id) == REQUIRED_CASES <==> forall id | id in ATTACKS :: Carried(cases, id)
  {
    assert ATTACKS == REQUIRED_CASES;
    hide ATTACKS, REQUIRED_CASES;
    var ids := (set c | c in cases :: c.id);
    forall id ensures id in ids <==> Carried(cases, id) {
      if i :| 0 <= i < |cases| && cases[i].id == id { assert cases[i] in cases; }
    }
  }

  ghost predicate CasesSay(matrix: seq<Json>, cases: seq<Case>) {
    |cases| == |matrix| && forall i | 0 <= i < |matrix| :: CaseSays(matrix[i], cases[i].id, cases[i].artifact)
  }

  lemma CasesExactly(root: seq<string>, matrix: seq<Json>, cases: seq<Case>)
    ensures CasesAre(root, matrix, cases) <==> CasesSay(matrix, cases)
  {
    hide CaseEntry, CaseSays;
    if |matrix| == |cases| {
      forall i | 0 <= i < |matrix|
        ensures CaseEntry(root, matrix[i]) == Ok(cases[i]) <==> CaseSays(matrix[i], cases[i].id, cases[i].artifact)
      {
        CaseExactly(root, matrix[i], cases[i]);
      }
    }
  }

  lemma KnownAttacks(matrix: seq<Json>, cases: seq<Case>)
    requires CasesSay(matrix, cases)
    ensures forall i | 0 <= i < |cases| :: cases[i].id in ATTACKS
  {
    hide ATTACKS, Member, HasExactly, LocalPath;
    forall i | 0 <= i < |cases| ensures cases[i].id in ATTACKS {
      assert CaseSays(matrix[i], cases[i].id, cases[i].artifact);
    }
  }

  /** The list of cases fits and refers as it must. */
  ghost predicate CasesComplete(records: seq<Record>, cases: seq<Case>) {
    && DistinctCases(cases)
    && (set c | c in cases :: c.id) == REQUIRED_CASES
    && (set c | c in cases :: c.artifact) == (set r | r in records :: r.path)
  }

  lemma MatrixReads(matrix: seq<Json>, records: seq<Record>, cases: seq<Case>)
    requires |matrix| <= 64 && CasesSay(matrix, cases) && CasesComplete(records, cases)
    ensures MatrixSays(matrix, records)
  {
    hide CaseSays, ATTACKS, RejectedCase, OnlyCarrier, Referred, CasesComplete;
    forall i | 0 <= i < |matrix| ensures RejectedCase(matrix[i], records) {
      ReadRejected(matrix, records, cases, i);
    }
    forall id | id in ATTACKS ensures exists i :: OnlyCarrier(matrix, id, i) {
      ReadCarrier(matrix, records, cases, id);
    }
    forall k | 0 <= k < |records| ensures Referred(matrix, records[k].path) {
      ReadReference(matrix, records, cases, k);
    }
  }

  lemma ReadRejected(matrix: seq<Json>, records: seq<Record>, cases: seq<Case>, i: int)
    requires CasesSay(matrix, cases) && CasesComplete(records, cases) && 0 <= i < |matrix|
    ensures RejectedCase(matrix[i], records)
  {
    ReferencesMatch(records, cases);
    hide CaseSays, Declared, REQUIRED_CASES;
    assert CaseSays(matrix[i], cases[i].id, cases[i].artifact);
  }

  lemma ReadCarrier(matrix: seq<Json>, records: seq<Record>, cases: seq<Case>, id: string)
    requires CasesSay(matrix, cases) && CasesComplete(records, cases) && id in ATTACKS
    ensures exists i :: OnlyCarrier(matrix, id, i)
  {
    KnownAttacks(matrix, cases);
    RequiredMatch(cases);
    hide CaseSays, OnlyCarrier, ATTACKS, REQUIRED_CASES, CasesSay;
    assert Carried(cases, id);
    var i :| 0 <= i < |cases| && cases[i].id == id;
    CarriesOwn(matrix, records, cases, id, i);
  }

  lemma ReadReference(matrix: seq<Json>, records: seq<Record>, cases: seq<Case>, k: int)
    requires CasesSay(matrix, cases) && CasesComplete(records, cases) && 0 <= k < |records|
    ensures Referred(matrix, records[k].path)
  {
    ReferencesMatch(records, cases);
    hide CaseSays, Declared, REQUIRED_CASES, Member;
    assert Named(cases, records[k].path);
    var i :| 0 <= i < |cases| && cases[i].artifact == records[k].path;
    CaseMembers(matrix[i], cases[i].id, cases[i].artifact);
  }

  lemma CaseMembers(item: Json, id: string, artifact: string)
    requires CaseSays(item, id, artifact)
    ensures forall other :: Member(item, "case_id", String(other)) <==> other == id
    ensures forall other :: Member(item, "artifact", String(other)) <==> other == artifact
  {
    hide Member, Get, HasExactly, LocalPath;
    ExactIsObject(item, {"case_id", "result", "artifact"});
    MembersGot(item, "case_id");
    MembersGot(item, "artifact");
  }

  lemma CarriesOwn(matrix: seq<Json>, records: seq<Record>, cases: seq<Case>, id: string, i: int)
    requires CasesSay(matrix, cases) && CasesComplete(records, cases)
    requires 0 <= i < |cases| && cases[i].id == id
    ensures OnlyCarrier(matrix, id, i)
  {
    hide CaseSays, Member;
    CaseMembers(matrix[i], cases[i].id, cases[i].artifact);
    forall j | 0 <= j < |matrix| && j != i ensures !Member(matrix[j], "case_id", String(id)) {
      CaseMembers(matrix[j], cases[j].id, cases[j].artifact);
    }
  }

  lemma MatrixCases(matrix: seq<Json>, records: seq<Record>) returns (cases: seq<Case>)
    requires MatrixSays(matrix, records)
    ensures CasesSay(matrix, cases) && CasesComplete(records, cases)
  {
    hide CaseSays, Member, ATTACKS, REQUIRED_CASES, Declared, CasesComplete;
    cases := CasesOf(matrix, records);
    KnownAttacks(matrix, cases);
    forall i | 0 <= i < |matrix|
      ensures forall other :: Member(matrix[i], "case_id", String(other)) <==> other == cases[i].id
      ensures forall other :: Member(matrix[i], "artifact", String(other)) <==> other == cases[i].artifact
    {
      CaseMembers(matrix[i], cases[i].id, cases[i].artifact);
    }
    assert DistinctCases(cases) by {
      forall i, j | 0 <= i < j < |cases| ensures cases[i].id != cases[j].id {
        var k :| OnlyCarrier(matrix, cases[i].id, k);
      }
    }
    forall id | id in ATTACKS ensures Carried(cases, id) {
      var k :| OnlyCarrier(matrix, id, k);
      assert cases[k].id == id;
    }
    forall k | 0 <= k < |records| ensures Named(cases, records[k].path) {
      assert Referred(matrix, records[k].path);
      var i :| 0 <= i < |matrix| && Member(matrix[i], "artifact", String(records[k].path));
      assert cases[i].artifact == records[k].path;
    }
    RequiredMatch(cases);
    ReferencesMatch(records, cases);
    Completes(records, cases);
  }

  lemma Completes(records: seq<Record>, cases: seq<Case>)
    requires DistinctCases(cases) && (set c | c in cases :: c.id) == REQUIRED_CASES
    requires (set c | c in cases :: c.artifact) == (set r | r in records :: r.path)
    ensures CasesComplete(records, cases)
  {
  }

  ghost function CasesOf(matrix: seq<Json>, records: seq<Record>): (cases: seq<Case>)
    requires forall i | 0 <= i < |matrix| :: RejectedCase(matrix[i], records)
    ensures CasesSay(matrix, cases) && forall i | 0 <= i < |cases| :: Declared(records, cases[i].artifact)
  {
    hide CaseSays, Declared, RejectedCase;
    seq(|matrix|, i requires 0 <= i < |matrix| => CaseOf(matrix[i], records))
  }

  ghost function CaseOf(item: Json, records: seq<Record>): (c: Case)
    requires RejectedCase(item, records)
    ensures CaseSays(item, c.id, c.artifact) && Declared(records, c.artifact)
  {
    var id, artifact :| CaseSays(item, id, artifact) && Declared(records, artifact);
    Case(id, artifact)
  }

  // ---------- acceptance

  lemma FitsExactly(root: seq<string>, manifest: Json, records: seq<Record>)
    ensures (exists cases :: ManifestFits(root, manifest, records, cases))
       <==> exists items, matrix :: ManifestSays(manifest, items, matrix, records)
  {
    hide ManifestFits, ManifestSays;
    if cases :| ManifestFits(root, manifest, records, cases) {
      FittingSays(root, manifest, records, cases);
    }
    if items, matrix :| ManifestSays(manifest, items, matrix, records) {
      SayingFits(root, manifest, items, matrix, records);
    }
  }

  lemma ManifestMembers(manifest: Json, items: seq<Json>, matrix: seq<Json>)
    requires manifest.Object?
    ensures && HasExactly(manifest, {"schema", "artifacts", "attack_matrix"})
            && Member(manifest, "schema", String("visionforge-dual-machine-cryptographic-evidence-v1"))
            && Member(manifest, "artifacts", Array(items)) && Member(manifest, "attack_matrix", Array(matrix))
       <==> && Keys(manifest.fields) == {"schema", "artifacts", "attack_matrix"}
            && Get(manifest, "schema") == String(MANIFEST_SCHEMA)
            && Get(manifest, "artifacts") == Array(items) && Get(manifest, "attack_matrix") == Array(matrix)
  {
    hide Get, Member, Keys, HasExactly;
    KeysExactly(manifest, {"schema", "artifacts", "attack_matrix"});
    MembersGot(manifest, "schema");
    MemberGot(manifest, "artifacts", Array(items));
    MemberGot(manifest, "attack_matrix", Array(matrix));
  }

  lemma FittingSays(root: seq<string>, manifest: Json, records: seq<Record>, cases: seq<Case>)
    requires ManifestFits(root, manifest, records, cases)
    ensures exists items, matrix :: ManifestSays(manifest, items, matrix, records)
  {
    hide Get, Keys, HasExactly, Member, ArtifactsFit, ArtifactsSay, CasesAre, CasesSay, MatrixSays, REQUIRED_CASES;
    var items, matrix := Get(manifest, "artifacts").items, Get(manifest, "attack_matrix").items;
    ManifestMembers(manifest, items, matrix);
    ArtifactsExactly(root, items, records);
    CasesExactly(root, matrix, cases);
    Completes(records, cases);
    MatrixReads(matrix, records, cases);
    assert ManifestSays(manifest, items, matrix, records);
  }

  lemma SayingFits(root: seq<string>, manifest: Json, items: seq<Json>, matrix: seq<Json>, records: seq<Record>)
    requires ManifestSays(manifest, items, matrix, records)
    ensures exists cases :: ManifestFits(root, manifest, records, cases)
  {
    hide Get, Keys, HasExactly, Member, ArtifactsFit, CasesAre, CasesSay, REQUIRED_CASES, ATTACKS, ArtifactSays,
         RejectedCase, Referred, OnlyCarrier;
    ExactIsObject(manifest, {"schema", "artifacts", "attack_matrix"});
    ManifestMembers(manifest, items, matrix);
    ArtifactsExactly(root, items, records);
    var cases := MatrixCases(matrix, records);
    CasesExactly(root, matrix, cases);
    assert ManifestFits(root, manifest, records, cases);
  }

  /** A manifest is accepted exactly when it says records that the archive's files bear out. */
  lemma AcceptsExactly(root: seq<string>, manifest: Json, archive: Archive, digest: string -> string)
    ensures Accepts(root, manifest, archive, digest)
       <==> exists items, matrix, records ::
              ManifestSays(manifest, items, matrix, records) && RunAccepts(InOrder(records), archive, digest)
  {
    hide ManifestFits, ManifestSays, RunAccepts, InOrder;
    if records, cases :| ManifestFits(root, manifest, records, cases) && RunAccepts(InOrder(records), archive, digest) {
      FitsExactly(root, manifest, records);
    }
    if items, matrix, records :|
        ManifestSays(manifest, items, matrix, records) && RunAccepts(InOrder(records), archive, digest) {
      FitsExactly(root, manifest, records);
    }
  }

  /** What acceptance promises of an attack: exactly one item carries it, says it was rejected, and names
      an artifact that was there with its declared size and digest. */
  lemma EveryAttackRejected(root: seq<string>, manifest: Json, archive: Archive, contents: map<string, string>,
                            digest: string -> string, id: string)
    requires Still(archive, contents) && Accepts(root, manifest, archive, digest) && id in ATTACKS
    ensures exists matrix, i, r: Record ::
      && Member(manifest, "attack_matrix", Array(matrix)) && OnlyCarrier(matrix, id, i)
      && Member(matrix[i], "result", String("rejected")) && Member(matrix[i], "artifact", String(r.path))
      && FileMatches(r, contents, digest)
  {
    hide ManifestFits, RunAccepts, InOrder, ATTACKS, Member, HasExactly, OnlyCarrier, FileMatches, Still, ArtifactsSay,
         LocalPath;
    AcceptsIffCorrect(root, manifest, archive, contents, digest);
    var records: seq<Record>, cases :| ManifestFits(root, manifest, records, cases)
      && forall r <- records :: FileMatches(r, contents, digest);
    FittingSays(root, manifest, records, cases);
    var items, matrix :| ManifestSays(manifest, items, matrix, records);
    var i :| OnlyCarrier(matrix, id, i);
    CarrierInside(matrix, id, i);
    assert RejectedCase(matrix[i], records);
    var other, artifact :| CaseSays(matrix[i], other, artifact) && Declared(records, artifact);
    var k :| 0 <= k < |records| && records[k].path == artifact;
    assert FileMatches(records[k], contents, digest);
  }

  lemma CarrierInside(matrix: seq<Json>, id: string, i: int)
    requires OnlyCarrier(matrix, id, i)
    ensures 0 <= i < |matrix|
  {
  }

  /** The report names the declared paths, in rising order and each once. */
  lemma ReportRises(root: seq<string>, items: seq<Json>, records: seq<Record>)
    requires ArtifactsFit(root, items, records)
    ensures var paths := PathsOf(InOrder(records));
      && (forall i, j | 0 <= i < j < |paths| :: Before(paths[i], paths[j]))
      && (forall path :: path in paths <==> Declared(records, path))
  {
    var order := InOrder(records);
    ByPathOrders();
    StableSortSorts(records, StableSort(records, ByPath), ByPath);
    OrderOnce(root, items, records);
    hide ArtifactsFit, InOrder;
    forall i, j | 0 <= i < j < |order| ensures Before(order[i].path, order[j].path) {
      assert ByPath(order[i], order[j]);
    }
    forall path ensures path in PathsOf(order) <==> Declared(records, path) {
      if path in PathsOf(order) {
        var k :| 0 <= k < |order| && order[k].path == path;
        assert order[k] in order && order[k] in records;
      }
      if Declared(records, path) {
        var k :| 0 <= k < |records| && records[k].path == path;
        assert records[k] in records && records[k] in order;
        var i :| 0 <= i < |order| && order[i] == records[k];
        assert PathsOf(order)[i] == path;
      }
    }
  }

  /** Sorting keeps the records, and their paths apart. */
  lemma OrderOnce(root: seq<string>, items: seq<Json>, records: seq<Record>)
    requires ArtifactsFit(root, items, records)
    ensures forall r :: r in records <==> r in InOrder(records)
    ensures forall i, j | 0 <= i < j < |InOrder(records)| :: InOrder(records)[i].path != InOrder(records)[j].path
  {
    SortedOnce(records);
  }

  lemma {:induction false} InsertOnce(ys: seq<Record>, x: Record)
    requires DistinctPaths(ys) && forall i | 0 <= i < |ys| :: ys[i].path != x.path
    ensures DistinctPaths(Insert(ys, x, ByPath))
    ensures forall r :: r in Insert(ys, x, ByPath) <==> r in ys || r == x
  {
    hide ByPath;
    if ys != [] && !ByPath(ys[|ys| - 1], x) {
      var init, last := ys[..|ys| - 1], ys[|ys| - 1];
      InsertOnce(init, x);
      var rest := Insert(init, x, ByPath);
      assert ys == init + [last];
      forall i | 0 <= i < |rest| ensures rest[i].path != last.path {
        assert rest[i] in rest;
        if rest[i] != x { var k :| 0 <= k < |init| && init[k] == rest[i]; }
      }
    }
  }

  lemma {:induction false} SortedOnce(records: seq<Record>)
    requires DistinctPaths(records)
    ensures DistinctPaths(InOrder(records)) && forall r :: r in records <==> r in InOrder(records)
  {
    hide ByPath, Insert;
    if records != [] {
      var last := |records| - 1;
      var init := records[..last];
      SortedOnce(init);
      assert records == init + [records[last]];
      var sorted := StableSort(init, ByPath);
      forall i | 0 <= i < |sorted| ensures sorted[i].path != records[last].path {
        assert sorted[i] in sorted && sorted[i] in init;
        var k :| 0 <= k < |init| && init[k] == sorted[i];
      }
      InsertOnce(sorted, records[last]);
    }
  }
}
