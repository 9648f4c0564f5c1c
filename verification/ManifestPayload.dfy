/** What a release payload must meet, tools/formal_release_manifest_security.py. */
module ManifestPayload {
  import opened Wrappers
  import opened JsonValue
  import opened Names
  import opened Paths
  import ArtifactLock

  const PAYLOAD_SCHEMA := "visionforge-publishable-release-bundle-v2"

  const PAYLOAD_FIELDS: set<string> := {
    "schema", "ok", "channel", "release_version", "bundle_sequence", "published_at", "min_supported_version",
    "revocation_epoch", "artifacts", "evidence_sources"}

  const ARTIFACT_FIELDS: set<string> := {"role", "archive_path", "size", "sha256"}

  const EVIDENCE_FIELDS: set<string> := {"role", "archive_path", "file_count", "size", "files"}

  const EVIDENCE_FILE_FIELDS: set<string> := {"archive_path", "size", "sha256"}

  predicate LowerOrDigit(c: char) {
    'a' <= c <= 'z' || '0' <= c <= '9'
  }

  /** A name of 1 to `longest` characters: a lower-case letter or digit, then those or `extra` ones. */
  predicate NameShape(value: Json, longest: nat, extra: set<char>) {
    && value.String? && 0 < |value.s| <= longest && LowerOrDigit(value.s[0])
    && forall i :: 0 <= i < |value.s| ==> LowerOrDigit(value.s[i]) || value.s[i] in extra
  }

  predicate Channel(value: Json) { NameShape(value, 32, {'.', '_', '-'}) }

  predicate Role(value: Json) { NameShape(value, 64, {'_'}) }

  // ---------- versions

  predicate VersionParts(parts: seq<string>) {
    forall i :: 0 <= i < |parts| ==> parts[i] != "" && AllDigits(parts[i])
  }

  function Numbers(parts: seq<string>): seq<nat>
    requires VersionParts(parts)
  {
    seq(|parts|, i requires 0 <= i < |parts| => DecimalValue(parts[i]))
  }

  /** `_numeric_version`: the tuple of a dotted version. */
  function NumericVersion(value: Json): Option<seq<nat>> {
    if value.String? && VersionParts(Split(value.s, '.')) then Some(Numbers(Split(value.s, '.'))) else None
  }

  /** Python's order on tuples. */
  predicate TupleAtMost(a: seq<nat>, b: seq<nat>)
    decreases |a|
  {
    a == [] || (b != [] && (a[0] < b[0] || (a[0] == b[0] && TupleAtMost(a[1..], b[1..]))))
  }

  // ---------- entries

  predicate SafeArchivePath(value: Json) {
    && value.String? && value.s != "" && '\\' !in value.s && value.s[0] != '/'
    && forall i :: 0 <= i < |ArtifactLock.PosixParts(value.s)| ==>
         ArtifactLock.PosixParts(value.s)[i] != ".." && ':' !in ArtifactLock.PosixParts(value.s)[i]
  }

  /** `_validate_sized_hash_entry`. */
  predicate SizedHashEntry(item: Json, fields: set<string>) {
    && item.Object? && Keys(item.fields) == fields
    && SafeArchivePath(Get(item, "archive_path"))
    && Get(item, "size").Int? && Get(item, "size").i >= 0
    && Digest(Get(item, "sha256"))
  }

  predicate ArtifactItem(item: Json) {
    item.Object? && Role(Get(item, "role")) && SizedHashEntry(item, ARTIFACT_FIELDS)
  }

  /** A non-empty bounded list of entries, no role and no path twice. */
  ghost predicate ValidArtifacts(value: Json) {
    && value.Array? && 0 < |value.items| <= 256
    && (forall i :: 0 <= i < |value.items| ==> ArtifactItem(value.items[i]))
    && forall i, j :: 0 <= i < j < |value.items| ==>
         Get(value.items[i], "role") != Get(value.items[j], "role")
         && Get(value.items[i], "archive_path") != Get(value.items[j], "archive_path")
  }

  method ValidateArtifacts(value: Json) returns (ok: bool)
    ensures ok <==> ValidArtifacts(value)
  {
    hide ArtifactItem, Get;
    if !value.Array? || value.items == [] || |value.items| > 256 {
      return false;
    }
    var roles: set<Json>, paths: set<Json> := {}, {};
    for k := 0 to |value.items|
      invariant forall i :: 0 <= i < k ==> ArtifactItem(value.items[i])
      invariant forall i :: 0 <= i < k ==> value.items[i].Object?
      invariant forall i, j :: 0 <= i < j < k ==>
        Get(value.items[i], "role") != Get(value.items[j], "role")
        && Get(value.items[i], "archive_path") != Get(value.items[j], "archive_path")
      invariant forall r :: r in roles <==> exists i :: 0 <= i < k && Get(value.items[i], "role") == r
      invariant forall p :: p in paths <==> exists i :: 0 <= i < k && Get(value.items[i], "archive_path") == p
    {
      var item := value.items[k];
      if !ArtifactItem(item) {
        return false;
      }
      ItemIsObject(item);
      if Get(item, "role") in roles || Get(item, "archive_path") in paths {
        return false;
      }
      roles, paths := roles + {Get(item, "role")}, paths + {Get(item, "archive_path")};
    }
    ok := true;
  }

  lemma ItemIsObject(item: Json)
    requires ArtifactItem(item)
    ensures item.Object?
  {
  }

  // ---------- evidence sources

  /** `value.rstrip("/") + "/"`. */
  function DirectoryPrefix(path: string): string
    decreases |path|
  {
    if path != "" && path[|path| - 1] == '/' then DirectoryPrefix(path[..|path| - 1]) else path + "/"
  }

  predicate EvidenceFile(item: Json, prefix: string) {
    SizedHashEntry(item, EVIDENCE_FILE_FIELDS) && prefix <= Get(item, "archive_path").s
  }

  function SizeOf(item: Json): int {
    if item.Object? && Get(item, "size").Int? then Get(item, "size").i else 0
  }

  function TotalSize(items: seq<Json>): int {
    if items == [] then 0 else TotalSize(items[..|items| - 1]) + SizeOf(items[|items| - 1])
  }

  predicate EvidenceHeader(value: Json) {
    && value.Object? && Keys(value.fields) == EVIDENCE_FIELDS
    && Get(value, "role") == String("device_evidence_sources")
    && SafeArchivePath(Get(value, "archive_path"))
    && Get(value, "files").Array? && |Get(value, "files").items| <= 4096
    && Get(value, "file_count") == Int(|Get(value, "files").items|)
    && Get(value, "size").Int? && Get(value, "size").i >= 0
  }

  /** Every file under the declared root, no path twice, and the declared count and total right. */
  ghost predicate ValidEvidenceSources(value: Json) {
    && EvidenceHeader(value)
    && var files, prefix := Get(value, "files").items, DirectoryPrefix(Get(value, "archive_path").s);
    && (forall i :: 0 <= i < |files| ==> EvidenceFile(files[i], prefix))
    && (forall i, j :: 0 <= i < j < |files| ==> Get(files[i], "archive_path") != Get(files[j], "archive_path"))
    && TotalSize(files) == Get(value, "size").i
  }

  method ValidateEvidenceSources(value: Json) returns (ok: bool)
    ensures ok <==> ValidEvidenceSources(value)
  {
    hide EvidenceFile, Get, SizeOf;
    if !EvidenceHeader(value) {
      return false;
    }
    var files, prefix := Get(value, "files").items, DirectoryPrefix(Get(value, "archive_path").s);
    var paths: set<Json>, observedSize := {}, 0;
    for k := 0 to |files|
      invariant forall i :: 0 <= i < k ==> EvidenceFile(files[i], prefix)
      invariant forall i :: 0 <= i < k ==> files[i].Object?
      invariant forall i, j :: 0 <= i < j < k ==> Get(files[i], "archive_path") != Get(files[j], "archive_path")
      invariant forall p :: p in paths <==> exists i :: 0 <= i < k && Get(files[i], "archive_path") == p
      invariant observedSize == TotalSize(files[..k])
    {
      var item := files[k];
      assert files[..k + 1][..k] == files[..k];
      if !EvidenceFile(item, prefix) {
        return false;
      }
      FileIsObject(item, prefix);
      if Get(item, "archive_path") in paths {
        return false;
      }
      paths := paths + {Get(item, "archive_path")};
      observedSize := observedSize + Get(item, "size").i;
    }
    assert files[..|files|] == files;
    ok := observedSize == Get(value, "size").i;
  }

  lemma FileIsObject(item: Json, prefix: string)
    requires EvidenceFile(item, prefix)
    ensures item.Object? && Get(item, "size").Int? && SizeOf(item) == Get(item, "size").i
  {
  }

  // ---------- the payload

  predicate IntAtLeast(value: Json, minimum: int) {
    value.Int? && value.i >= minimum
  }

  /** Everything but the two lists. `isTime` says which texts `datetime.fromisoformat` reads as UTC. */
  predicate PayloadHeader(payload: Json, isTime: string -> bool) {
    && payload.Object? && Keys(payload.fields) == PAYLOAD_FIELDS
    && Get(payload, "schema") == String(PAYLOAD_SCHEMA)
    && Get(payload, "ok") == Bool(true)
    && Channel(Get(payload, "channel"))
    && NumericVersion(Get(payload, "release_version")).Some?
    && NumericVersion(Get(payload, "min_supported_version")).Some?
    && TupleAtMost(NumericVersion(Get(payload, "min_supported_version")).value,
      NumericVersion(Get(payload, "release_version")).value)
    && IntAtLeast(Get(payload, "bundle_sequence"), 1)
    && IntAtLeast(Get(payload, "revocation_epoch"), 0)
    && Get(payload, "published_at").String? && var time := Get(payload, "published_at").s;
    time != "" && time[|time| - 1] == 'Z' && isTime(time)
  }

  ghost predicate ValidPayload(payload: Json, isTime: string -> bool) {
    && PayloadHeader(payload, isTime)
    && ValidArtifacts(Get(payload, "artifacts"))
    && ValidEvidenceSources(Get(payload, "evidence_sources"))
  }

  method ValidatePayload(payload: Json, isTime: string -> bool) returns (ok: bool)
    ensures ok <==> ValidPayload(payload, isTime)
  {
    if !PayloadHeader(payload, isTime) {
      return false;
    }
    ok := ValidateArtifacts(Get(payload, "artifacts"));
    if ok {
      ok := ValidateEvidenceSources(Get(payload, "evidence_sources"));
    }
  }

  // ---------- what the checks mean

  /** The version order: a total preorder in which a shorter version precedes its extensions. */
  lemma {:induction false} TupleOrder(a: seq<nat>, b: seq<nat>)
    ensures TupleAtMost(a, b) || TupleAtMost(b, a)
    ensures TupleAtMost(a, b) && TupleAtMost(b, a) ==> a == b
    ensures a <= b ==> TupleAtMost(a, b)
    decreases |a|
  {
    if a != [] && b != [] && a[0] == b[0] {
      TupleOrder(a[1..], b[1..]);
      assert a == [a[0]] + a[1..] && b == [b[0]] + b[1..];
      if a <= b { assert a[1..] <= b[1..]; }
    }
  }
}
