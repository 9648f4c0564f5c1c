/** The private-artifact lock and its check against the source files,
    tools/prepare_android_private_artifacts.py. File contents are texts with one character per byte. */
module ArtifactLock {
  import opened Wrappers
  import opened StableSorting
  import opened Picking
  import opened Paths
  import opened Characters
  import opened JsonValue

  type Path = seq<string>

  /** A lock row before its checks; fields have the types the checks demand. */
  datatype Row = Row(id: string, kind: string, source: string, target: string, size: int, sha256: string,
                     variants: seq<string>, licenseReview: bool, publication: Publication)

  /** What a row says of the public repository: whether its file may be stored there, whether it names
      any of the three public fields, and what these are. */
  datatype Publication = Publication(allowed: bool, named: bool, repository: Option<string>, trained: bool, lfs: bool)

  /** What the header settles for the rows; `lowerOrDigit` says which letters `str.islower` and
      `str.isdigit` accept. */
  datatype Policy = Policy(variants: seq<string>, lowerOrDigit: char -> bool)

  datatype Artifact = Artifact(id: string, kind: string, source: Path, target: Path, size: int, sha256: string,
                               variants: seq<string>, publicAllowed: bool)

  const ALLOWED_PREFIXES: seq<Path> := [["assets", "qnn"], ["assets", "portable_models"], ["jniLibs", "arm64-v8a"]]

  const ALLOWED_KINDS: set<string> := {"vendor_runtime", "model_weight_library", "portable_model_weight"}

  const MAX_SIZE: int := 1024 * 1024 * 1024

  const LFS_PREFIX := "version https://git-lfs.github.com/spec/v1"

  /** The parts of a `PurePosixPath`, which drops empty and `.` components. */
  function PosixParts(value: string): Path {
    Filter(Split(value, '/'), (part: string) => part != "" && part != ".")
  }

  function StrictRelativePath(value: string): Option<Path> {
    if value == "" || '\\' in value || '\0' in value || value[0] == '/' || ".." in PosixParts(value) then None
    else Some(PosixParts(value))
  }

  predicate TargetAllowed(path: Path) {
    exists i :: 0 <= i < |ALLOWED_PREFIXES| && IsPrefix(ALLOWED_PREFIXES[i], path)
  }

  predicate CanonicalId(id: string, policy: Policy) {
    && 0 < |id| <= 120
    && forall i :: 0 <= i < |id| ==> policy.lowerOrDigit(id[i]) || id[i] == '_' || id[i] == '-'
  }

  const REPOSITORY: Path := ["android_inference_benchmark", "app", "src", "main"]

  /** Only user-trained weight libraries may be public, at the place their target gives them; other rows
      must not speak of it. */
  predicate PublicationValid(row: Row, target: Path) {
    var p := row.publication;
    if p.allowed then
      && row.kind == "model_weight_library" && p.trained && p.lfs
      && p.repository.Some? && StrictRelativePath(p.repository.value) == Some(REPOSITORY + target)
    else !p.named
  }

  /** Everything a row must meet on its own. */
  predicate RowValid(row: Row, policy: Policy) {
    && CanonicalId(row.id, policy)
    && row.kind in ALLOWED_KINDS
    && StrictRelativePath(row.source).Some?
    && StrictRelativePath(row.target).Some?
    && TargetAllowed(StrictRelativePath(row.target).value)
    && 0 < row.size <= MAX_SIZE
    && LowerHex64(row.sha256)
    && row.variants == policy.variants
    && row.licenseReview
    && PublicationValid(row, StrictRelativePath(row.target).value)
  }

  function ArtifactOf(row: Row): Artifact
    requires StrictRelativePath(row.source).Some? && StrictRelativePath(row.target).Some?
  {
    Artifact(row.id, row.kind, StrictRelativePath(row.source).value, StrictRelativePath(row.target).value,
             row.size, row.sha256, row.variants, row.publication.allowed)
  }

  /** Two artifacts that may not stand in one lock. */
  predicate Clash(a: Artifact, b: Artifact) {
    a.id == b.id || a.source == b.source || a.target == b.target
  }

  ghost predicate PairwiseDistinct(artifacts: seq<Artifact>) {
    forall i, j :: 0 <= i < j < |artifacts| ==> !Clash(artifacts[i], artifacts[j])
  }

  ghost predicate AllValid(rows: seq<Row>, policy: Policy) {
    forall i :: 0 <= i < |rows| ==> RowValid(rows[i], policy)
  }

  /** The artifacts of the first `n` rows. */
  ghost function ArtifactsOf(rows: seq<Row>, policy: Policy, n: nat): (artifacts: seq<Artifact>)
    requires n <= |rows| && AllValid(rows[..n], policy)
    ensures |artifacts| == n
  {
    seq(n, i requires 0 <= i < n => assert rows[..n][i] == rows[i]; ArtifactOf(rows[i]))
  }

  /** All rows valid, with no id, source or target used twice. */
  ghost predicate LockValid(rows: seq<Row>, policy: Policy) {
    AllValid(rows[..|rows|], policy) && PairwiseDistinct(ArtifactsOf(rows, policy, |rows|))
  }

  method LoadRows(rows: seq<Row>, policy: Policy) returns (r: Result<seq<Artifact>, string>)
    ensures r.Ok? <==> rows != [] && LockValid(rows, policy)
    ensures r.Ok? ==> r.value == ArtifactsOf(rows, policy, |rows|)
  {
    hide ArtifactOf, RowValid, ArtifactsOf, PairwiseDistinct, LockValid, AllValid;
    if rows == [] {
      return Err("artifact lock policy/artifacts are missing");
    }
    var artifacts: seq<Artifact> := [];
    var ids: set<string>, sources: set<Path>, targets: set<Path> := {}, {}, {};
    NoRows(rows, policy);
    for index := 0 to |rows|
      invariant AllValid(rows[..index], policy) && artifacts == ArtifactsOf(rows, policy, index)
      invariant PairwiseDistinct(artifacts)
      invariant ids == (set a | a in artifacts :: a.id)
      invariant sources == (set a | a in artifacts :: a.source)
      invariant targets == (set a | a in artifacts :: a.target)
    {
      var row := rows[index];
      if !RowValid(row, policy) {
        InvalidRowRefused(rows, policy, index);
        return Err("artifact row is invalid");
      }
      ValidParts(row, policy);
      var artifact := ArtifactOf(row);
      OneMoreRow(rows, policy, index);
      if artifact.id in ids || artifact.source in sources || artifact.target in targets {
        assert exists a | a in artifacts :: Clash(a, artifact);
        DuplicateRefused(rows, policy, index);
        return Err("duplicate artifact");
      }
      ids, sources, targets := ids + {artifact.id}, sources + {artifact.source}, targets + {artifact.target};
      SetsGrow(artifacts, artifact);
      StaysDistinct(artifacts, artifact);
      artifacts := artifacts + [artifact];
    }
    AllRows(rows, policy);
    r := Ok(artifacts);
  }

  lemma NoRows(rows: seq<Row>, policy: Policy)
    ensures AllValid(rows[..0], policy) && ArtifactsOf(rows, policy, 0) == [] && PairwiseDistinct([])
  {
  }

  lemma AllRows(rows: seq<Row>, policy: Policy)
    requires AllValid(rows[..|rows|], policy) && PairwiseDistinct(ArtifactsOf(rows, policy, |rows|))
    ensures LockValid(rows, policy)
  {
  }

  lemma OneMoreRow(rows: seq<Row>, policy: Policy, n: nat)
    requires n < |rows| && AllValid(rows[..n], policy) && RowValid(rows[n], policy)
    ensures AllValid(rows[..n + 1], policy)
    ensures StrictRelativePath(rows[n].source).Some? && StrictRelativePath(rows[n].target).Some?
    ensures ArtifactsOf(rows, policy, n + 1) == ArtifactsOf(rows, policy, n) + [ArtifactOf(rows[n])]
  {
    hide RowValid, ArtifactOf, StrictRelativePath;
    ValidParts(rows[n], policy);
    assert rows[..n + 1] == rows[..n] + [rows[n]];
  }

  lemma InvalidRowRefused(rows: seq<Row>, policy: Policy, n: nat)
    requires n < |rows| && !RowValid(rows[n], policy)
    ensures !LockValid(rows, policy)
  {
    hide RowValid;
    assert rows[..|rows|][n] == rows[n];
  }

  lemma DuplicateRefused(rows: seq<Row>, policy: Policy, n: nat)
    requires n < |rows| && AllValid(rows[..n], policy) && RowValid(rows[n], policy)
    requires StrictRelativePath(rows[n].source).Some? && StrictRelativePath(rows[n].target).Some?
    requires exists a | a in ArtifactsOf(rows, policy, n) :: Clash(a, ArtifactOf(rows[n]))
    ensures !LockValid(rows, policy)
  {
    hide RowValid, ArtifactOf, StrictRelativePath, Clash;
    var artifacts := ArtifactsOf(rows, policy, n);
    var a :| a in artifacts && Clash(a, ArtifactOf(rows[n]));
    var i :| 0 <= i < n && artifacts[i] == a;
    if AllValid(rows[..|rows|], policy) {
      assert Clash(ArtifactsOf(rows, policy, |rows|)[i], ArtifactsOf(rows, policy, |rows|)[n]);
    }
  }

  lemma StaysDistinct(artifacts: seq<Artifact>, artifact: Artifact)
    requires PairwiseDistinct(artifacts) && forall a | a in artifacts :: !Clash(a, artifact)
    ensures PairwiseDistinct(artifacts + [artifact])
  {
    hide Clash;
    var more := artifacts + [artifact];
    forall i, j | 0 <= i < j < |more| ensures !Clash(more[i], more[j]) {
      assert artifacts[i] in artifacts;
    }
  }

  lemma SetsGrow(artifacts: seq<Artifact>, artifact: Artifact)
    ensures (set a | a in artifacts + [artifact] :: a.id) == (set a | a in artifacts :: a.id) + {artifact.id}
    ensures (set a | a in artifacts + [artifact] :: a.source) == (set a | a in artifacts :: a.source)
      + {artifact.source}
    ensures (set a | a in artifacts + [artifact] :: a.target) == (set a | a in artifacts :: a.target)
      + {artifact.target}
  {
    assert forall a :: a in artifacts + [artifact] <==> a in artifacts || a == artifact;
  }

  lemma ValidParts(row: Row, policy: Policy)
    requires RowValid(row, policy)
    ensures StrictRelativePath(row.source).Some? && StrictRelativePath(row.target).Some?
  {
  }

  // ---------- the lock as JSON

  const LOCK_SCHEMA := "visionforge-android-private-artifacts-lock-v1"

  const ROOT_VARIABLE := "VISIONFORGE_ANDROID_PRIVATE_ARTIFACT_ROOT"

  function TextOf(value: Json): Option<string> {
    if value.String? then Some(value.s) else None
  }

  /** A list of texts. */
  function TextsOf(items: seq<Json>): Option<seq<string>> {
    if items == [] then Some([])
    else
      var before, last := TextsOf(items[..|items| - 1]), TextOf(items[|items| - 1]);
      if before.Some? && last.Some? then Some(before.value + [last.value]) else None
  }

  /** Python's `value in {None, False}`, which an integer zero is too. */
  predicate NoneOrFalse(value: Json) {
    value == Null || value == Bool(false) || value == Int(0)
  }

  /** The plaintext variants of the header: debug and qa, and owner with its explicit approval. */
  function HeaderVariants(header: Json): Option<seq<string>>
    requires header.Object?
  {
    var configured := Get(header, "plaintext_allowed_variants");
    var owner := Get(header, "owner_private_release_plaintext_allowed");
    if configured == Array([String("debug"), String("qa")]) && NoneOrFalse(owner) then Some(["debug", "qa"])
    else if configured == Array([String("debug"), String("qa"), String("owner")]) && owner == Bool(true) then
      Some(["debug", "qa", "owner"])
    else None
  }

  /** The policy of a lock whose header is in order. */
  function LockPolicy(payload: Json, lowerOrDigit: char -> bool): Option<Policy> {
    if !payload.Object? || Get(payload, "schema") != String(LOCK_SCHEMA) then None
    else if !Get(payload, "policy").Object? then None
    else if !Get(payload, "artifacts").Array? || Get(payload, "artifacts").items == [] then None
    else
      var header := Get(payload, "policy");
      if Get(header, "public_source_tree_must_not_contain_locked_bytes") != Bool(true) then None
      else if Get(header, "release_requires_encrypted_session_delivery") != Bool(true) then None
      else if Get(header, "release_plaintext_allowed") != Bool(false) then None
      else if Get(header, "source_root_environment") != String(ROOT_VARIABLE) then None
      else if HeaderVariants(header).None? then None
      else Some(Policy(HeaderVariants(header).value, lowerOrDigit))
  }

  /** A row whose fields have the types that the checks ask for. */
  function RowOf(item: Json): Option<Row> {
    if !item.Object? then None
    else
      var id, kind := TextOf(Get(item, "id")), TextOf(Get(item, "kind"));
      var source, target := TextOf(Get(item, "source_path")), TextOf(Get(item, "target_path"));
      var size, sha, variants := Get(item, "size"), TextOf(Get(item, "sha256")), Get(item, "allowed_variants");
      var review, allowed := Get(item, "license_review_required"), Get(item, "public_repository_allowed");
      if id.None? || kind.None? || source.None? || target.None? || sha.None? then None
      else if !size.Int? || !allowed.Bool? || !variants.Array? || TextsOf(variants.items).None? then None
      else
        Some(Row(id.value, kind.value, source.value, target.value, size.i, sha.value, TextsOf(variants.items).value,
                 review == Bool(true), PublicationOf(item, allowed.b)))
  }

  function PublicationOf(item: Json, allowed: bool): Publication
    requires item.Object?
  {
    var named := exists key <- {"provenance", "repository_storage", "repository_path"} :: Find(item.fields, key).Some?;
    Publication(allowed, named, TextOf(Get(item, "repository_path")), Get(item, "provenance") == String("user_trained"),
                Get(item, "repository_storage") == String("git_lfs"))
  }

  ghost predicate RowsAre(items: seq<Json>, rows: seq<Row>) {
    |rows| == |items| && forall i :: 0 <= i < |items| ==> RowOf(items[i]) == Some(rows[i])
  }

  /** What a lock must be to load: a header in order, rows of the right types, and the rows a valid lock. */
  ghost predicate LockAccepted(payload: Json, lowerOrDigit: char -> bool, rows: seq<Row>) {
    && LockPolicy(payload, lowerOrDigit).Some?
    && RowsAre(Get(payload, "artifacts").items, rows)
    && LockValid(rows, LockPolicy(payload, lowerOrDigit).value)
  }

  /** `load_lock` on the parsed text. */
  method LoadLock(payload: Json, lowerOrDigit: char -> bool) returns (r: Result<seq<Artifact>, string>)
    ensures r.Ok? <==> exists rows :: LockAccepted(payload, lowerOrDigit, rows)
    ensures forall rows :: r.Ok? && LockAccepted(payload, lowerOrDigit, rows) ==>
      r.value == ArtifactsOf(rows, LockPolicy(payload, lowerOrDigit).value, |rows|)
  {
    hide RowOf, LockPolicy, LockValid, ArtifactsOf;
    var policy := LockPolicy(payload, lowerOrDigit);
    if policy.None? { return Err("artifact lock header is invalid"); }
    HeaderHasRows(payload, lowerOrDigit);
    var items := Get(payload, "artifacts").items;
    var rows: seq<Row> := [];
    for index := 0 to |items|
      invariant RowsAre(items[..index], rows)
    {
      var row := RowOf(items[index]);
      if row.None? { return Err("artifact row is invalid"); }
      rows := rows + [row.value];
    }
    assert items[..|items|] == items;
    forall other | RowsAre(items, other) ensures other == rows { }
    r := LoadRows(rows, policy.value);
    if r.Ok? { assert LockAccepted(payload, lowerOrDigit, rows); }
  }

  lemma HeaderHasRows(payload: Json, lowerOrDigit: char -> bool)
    requires LockPolicy(payload, lowerOrDigit).Some?
    ensures payload.Object? && Get(payload, "artifacts").Array? && Get(payload, "artifacts").items != []
  {
  }

  // ---------- a lock whose targets lie inside one another

  /** Two rows whose targets are `assets/qnn/a` and `assets/qnn/a/b`. */
  function NestedRows(sha: string): (rows: seq<Row>)
    ensures |rows| == 2
  {
    var private := Publication(false, false, None, false, false);
    [Row("a", "vendor_runtime", "a", "assets/qnn/a", 1, sha, ["debug", "qa"], true, private),
     Row("b", "vendor_runtime", "b", "assets/qnn/a/b", 1, sha, ["debug", "qa"], true, private)]
  }

  /** A path of plain parts is read as these parts. */
  lemma PlainPath(parts: seq<string>)
    requires parts != [] && Without(parts, '/') && Without(parts, '\\') && Without(parts, '\0')
    requires forall i :: 0 <= i < |parts| ==> parts[i] != "" && parts[i] != "." && parts[i] != ".."
    ensures StrictRelativePath(Join(parts, '/')) == Some(parts)
  {
    hide Split, Join;
    var text := Join(parts, '/');
    SplitJoin(parts, '/');
    FilterAll(parts, (part: string) => part != "" && part != ".");
    JoinAvoids(parts, '\\');
    JoinAvoids(parts, '\0');
    JoinStarts(parts);
  }

  lemma {:induction false} JoinAvoids(parts: seq<string>, c: char)
    requires Without(parts, c) && c != '/'
    ensures c !in Join(parts, '/')
  {
    if |parts| > 1 { JoinAvoids(parts[..|parts| - 1], c); }
  }

  lemma {:induction false} JoinStarts(parts: seq<string>)
    requires parts != [] && parts[0] != ""
    ensures Join(parts, '/') != "" && Join(parts, '/')[0] == parts[0][0]
  {
    if |parts| > 1 { JoinStarts(parts[..|parts| - 1]); }
  }

  lemma NestedParts()
    ensures StrictRelativePath("a") == Some(["a"]) && StrictRelativePath("b") == Some(["b"])
    ensures StrictRelativePath("assets/qnn/a") == Some(["assets", "qnn", "a"])
    ensures StrictRelativePath("assets/qnn/a/b") == Some(["assets", "qnn", "a", "b"])
  {
    hide StrictRelativePath;
    var one, two, three, four := ["a"], ["b"], ["assets", "qnn", "a"], ["assets", "qnn", "a", "b"];
    PlainPath(one);
    PlainPath(two);
    PlainPath(three);
    PlainPath(four);
    assert three[..2] == ["assets", "qnn"] && three[..2][..1] == ["assets"];
    assert Join(three, '/') == "assets/qnn/a";
    assert four[..3] == three;
    assert Join(four, '/') == "assets/qnn/a/b";
  }

  /** The rows are a valid lock all the same: only equal targets are refused. */
  lemma NestedLockValid(sha: string, policy: Policy)
    requires LowerHex64(sha) && policy.variants == ["debug", "qa"]
    requires policy.lowerOrDigit('a') && policy.lowerOrDigit('b')
    ensures LockValid(NestedRows(sha), policy)
    ensures var artifacts := ArtifactsOf(NestedRows(sha), policy, 2);
      artifacts[0].target == ["assets", "qnn", "a"] && artifacts[1].target == ["assets", "qnn", "a", "b"]
  {
    hide StrictRelativePath, LowerHex64;
    NestedParts();
    var rows := NestedRows(sha);
    assert IsPrefix(ALLOWED_PREFIXES[0], ["assets", "qnn", "a"])
      && IsPrefix(ALLOWED_PREFIXES[0], ["assets", "qnn", "a", "b"]);
    assert RowValid(rows[0], policy) && RowValid(rows[1], policy);
    assert rows[..2] == rows;
  }

  // ---------- the check against the sources

  function AllowedIn(variant: string): Artifact -> bool {
    (a: Artifact) => variant in a.variants
  }

  function Selected(artifacts: seq<Artifact>, variant: string): seq<Artifact> {
    Filter(artifacts, AllowedIn(variant))
  }

  /** The source file is there, holds the locked bytes, and is no Git LFS pointer. */
  predicate SourceMatches(a: Artifact, sources: map<Path, string>, digest: string -> string) {
    && a.source in sources
    && |sources[a.source]| == a.size && digest(sources[a.source]) == a.sha256
    && !IsPrefix(LFS_PREFIX, sources[a.source])
  }

  method VerifyArtifacts(artifacts: seq<Artifact>, sources: map<Path, string>, variant: string,
                         digest: string -> string)
    returns (r: Result<seq<Artifact>, string>)
    ensures r.Ok? <==>
      && variant in {"debug", "qa", "owner"}
      && (exists a <- artifacts :: variant in a.variants)
      && forall a <- artifacts | variant in a.variants ::
           && a.source in sources && |sources[a.source]| == a.size && digest(sources[a.source]) == a.sha256
           && !("version https://git-lfs.github.com/spec/v1" <= sources[a.source])
    ensures r.Ok? ==> r.value == Selected(artifacts, variant) && Picked(artifacts, r.value, AllowedIn(variant))
  {
    hide Picked;
    FilterPicks(artifacts, Selected(artifacts, variant), AllowedIn(variant));
    FilterMembers(artifacts, AllowedIn(variant));
    if variant == "release" {
      return Err("release plaintext model/runtime staging is forbidden");
    }
    if variant !in {"debug", "qa", "owner"} {
      return Err("unsupported Android variant");
    }
    var selected := Selected(artifacts, variant);
    assert forall a :: a in selected <==> a in artifacts && variant in a.variants;
    if selected == [] {
      return Err("artifact lock has no entries");
    }
    assert selected[0] in selected;
    for k := 0 to |selected|
      invariant forall i :: 0 <= i < k ==> SourceMatches(selected[i], sources, digest)
    {
      if !SourceMatches(selected[k], sources, digest) {
        assert selected[k] in selected;
        return Err("private artifact integrity mismatch");
      }
    }
    r := Ok(selected);
  }
}
