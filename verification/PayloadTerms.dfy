/**
  A valid release payload in terms of its members: which names, texts and numbers stand where, which
  version may be the minimum of which release, and what every entry of the two lists says.
 */
module PayloadTerms {
  import opened Wrappers
  import opened JsonValue
  import opened Names
  import opened Paths
  import opened StableSorting
  import opened Characters
  import opened Sums
  import opened ManifestPayload
  import ArtifactLock
  import ArchivePaths
  import LockTerms

  // ---------- versions

  /** A dotted version and its numbers, each written in decimal digits. */
  ghost predicate IsVersion(text: string, numbers: seq<nat>) {
    exists parts :: CutInto(text, '.', parts) && |parts| == |numbers|
      && forall i | 0 <= i < |parts| :: parts[i] != "" && AllDigits(parts[i]) && DecimalValue(parts[i]) == numbers[i]
  }

  /** `a` is a prefix of `b`, or smaller at the first number where they differ. */
  ghost predicate NotAbove(a: seq<nat>, b: seq<nat>) {
    a <= b || exists k :: LessAt(a, b, k)
  }

  predicate LessAt(a: seq<nat>, b: seq<nat>, k: int) {
    0 <= k < |a| && k < |b| && a[..k] == b[..k] && a[k] < b[k]
  }

  lemma VersionExactly(text: string, numbers: seq<nat>)
    ensures NumericVersion(String(text)) == Some(numbers) <==> IsVersion(text, numbers)
  {
    hide Split, CutInto, DecimalValue, AllDigits;
    var parts := Split(text, '.');
    forall other ensures CutInto(text, '.', other) <==> other == parts { SplitExactly(text, '.', other); }
    if |parts| == |numbers|
      && forall i | 0 <= i < |parts| :: parts[i] != "" && AllDigits(parts[i]) && DecimalValue(parts[i]) == numbers[i]
    {
      assert VersionParts(parts) && Numbers(parts) == numbers;
      assert IsVersion(text, numbers);
    }
    if NumericVersion(String(text)) == Some(numbers) {
      assert VersionParts(parts) && numbers == Numbers(parts);
      assert IsVersion(text, numbers);
    }
  }

  lemma {:induction false} TupleAtMostExactly(a: seq<nat>, b: seq<nat>)
    ensures TupleAtMost(a, b) <==> NotAbove(a, b)
    decreases |a|
  {
    if a != [] && b != [] {
      forall k | LessAt(a, b, k) ensures a[0] <= b[0] { LessHead(a, b, k); }
      var s, t := a[1..], b[1..];
      if a[0] == b[0] {
        TupleAtMostExactly(s, t);
        assert a == [a[0]] + s && b == [b[0]] + t;
        assert a <= b <==> s <= t;
        forall k | LessAt(s, t, k) ensures LessAt(a, b, k + 1) {
          assert a[..k + 1] == [a[0]] + s[..k] && b[..k + 1] == [b[0]] + t[..k];
        }
        forall k | LessAt(a, b, k) ensures LessAt(s, t, k - 1) {
          assert s[..k - 1] == a[..k][1..] && t[..k - 1] == b[..k][1..];
        }
      } else if a[0] < b[0] {
        assert LessAt(a, b, 0);
      }
    }
  }

  lemma LessHead(a: seq<nat>, b: seq<nat>, k: int)
    requires LessAt(a, b, k)
    ensures a[0] <= b[0]
  {
    assert a[..k] == b[..k];
    if k > 0 { assert a[..k][0] == a[0] && b[..k][0] == b[0]; }
  }

  // ---------- names and paths

  predicate SmallOrDigit(c: char) {
    'a' <= c <= 'z' || '0' <= c <= '9'
  }

  /** Small letters, digits and the characters of `more`, beginning with a letter or digit. */
  predicate NameText(text: string, longest: nat, more: string) {
    && 0 < |text| <= longest && SmallOrDigit(text[0])
    && forall i | 0 <= i < |text| :: SmallOrDigit(text[i]) || text[i] in more
  }

  /** A relative path without backslash or colon, none of whose parts is `..`. */
  ghost predicate PathText(text: string) {
    && text != "" && text[0] != '/' && '\\' !in text && ':' !in text
    && forall parts | CutInto(text, '/', parts) :: ".." !in parts
  }

  lemma NameExactly(value: Json, longest: nat, more: string, extra: set<char>)
    requires forall c :: c in more <==> c in extra
    ensures NameShape(value, longest, extra) <==> value.String? && NameText(value.s, longest, more)
  {
  }

  lemma PathTextExactly(value: Json)
    ensures SafeArchivePath(value) <==> value.String? && PathText(value.s)
  {
    hide Split, CutInto, Filter;
    if value.String? && value.s != "" {
      var text := value.s;
      var pieces, parts := Split(text, '/'), ArtifactLock.PosixParts(text);
      forall other ensures CutInto(text, '/', other) <==> other == pieces { SplitExactly(text, '/', other); }
      LockTerms.PosixPartsKept(text);
      FilterMembers(pieces, LockTerms.Kept);
      ArchivePaths.ColonsAndRoots(text);
      assert forall part :: part in parts <==> part in pieces && part != "" && part != ".";
      if SafeArchivePath(value) {
        forall i | 0 <= i < |pieces| ensures pieces[i] != ".." && ':' !in pieces[i] {
          if pieces[i] in parts { var k :| 0 <= k < |parts| && parts[k] == pieces[i]; }
        }
      }
      if PathText(text) {
        forall k | 0 <= k < |parts| ensures parts[k] != ".." && ':' !in parts[k] {
          assert parts[k] in pieces;
        }
      }
    }
  }

  // ---------- entries

  /** An entry of these members names a path, a size and a digest. */
  ghost predicate EntrySays(item: Json, names: set<string>, path: string, size: int) {
    && HasExactly(item, names)
    && Member(item, "archive_path", String(path)) && PathText(path)
    && Member(item, "size", Int(size)) && size >= 0
    && exists digest :: Member(item, "sha256", String(digest)) && |digest| == 64 && Drawn(digest, "0123456789abcdef")
  }

  ghost predicate ArtifactSays(item: Json, role: string, path: string) {
    && (exists size :: EntrySays(item, {"role", "archive_path", "size", "sha256"}, path, size))
    && Member(item, "role", String(role)) && NameText(role, 64, "_")
  }

  ghost predicate Distinct(texts: seq<string>) {
    forall i, j | 0 <= i < j < |texts| :: texts[i] != texts[j]
  }

  /** 1 to 256 artifacts, no role and no path twice. */
  ghost predicate ArtifactsSay(value: Json, roles: seq<string>, paths: seq<string>) {
    && value.Array? && 0 < |value.items| <= 256 && |roles| == |paths| == |value.items|
    && (forall i | 0 <= i < |value.items| :: ArtifactSays(value.items[i], roles[i], paths[i]))
    && Distinct(roles) && Distinct(paths)
  }

  lemma EntryExactly(item: Json, names: set<string>, path: string, size: int)
    ensures EntrySays(item, names, path, size)
       <==> && item.Object? && SizedHashEntry(item, names)
            && Get(item, "archive_path") == String(path) && Get(item, "size") == Int(size)
  {
    hide Get, Member, PathText, SafeArchivePath, HasExactly, Keys, Digest;
    ExactIsObject(item, names);
    if item.Object? {
      KeysExactly(item, names);
      MembersGot(item, "archive_path");
      MembersGot(item, "size");
      MembersGot(item, "sha256");
      PathTextExactly(Get(item, "archive_path"));
      DigestExactly(Get(item, "sha256"));
    }
  }

  lemma ArtifactExactly(item: Json, role: string, path: string)
    ensures ArtifactSays(item, role, path)
       <==> ArtifactItem(item) && Get(item, "role") == String(role) && Get(item, "archive_path") == String(path)
  {
    hide Get, Member, EntrySays, SizedHashEntry, NameShape, NameText;
    forall size ensures EntrySays(item, {"role", "archive_path", "size", "sha256"}, path, size)
      <==> && item.Object? && SizedHashEntry(item, ARTIFACT_FIELDS)
           && Get(item, "archive_path") == String(path) && Get(item, "size") == Int(size)
    {
      EntryExactly(item, {"role", "archive_path", "size", "sha256"}, path, size);
    }
    if item.Object? {
      MembersGot(item, "role");
      NameExactly(Get(item, "role"), 64, "_", {'_'});
      if SizedHashEntry(item, ARTIFACT_FIELDS) { EntryHasSize(item, ARTIFACT_FIELDS); }
    }
  }

  lemma EntryHasSize(item: Json, names: set<string>)
    requires item.Object? && SizedHashEntry(item, names)
    ensures exists size :: Get(item, "size") == Int(size)
    ensures exists path :: Get(item, "archive_path") == String(path)
  {
    hide Get;
    assert Get(item, "size") == Int(Get(item, "size").i);
    assert Get(item, "archive_path") == String(Get(item, "archive_path").s);
  }

  lemma ArtifactsExactly(value: Json)
    ensures ValidArtifacts(value) <==> exists roles, paths :: ArtifactsSay(value, roles, paths)
  {
    hide Get, ArtifactSays, ArtifactItem;
    if ValidArtifacts(value) {
      var n := |value.items|;
      forall i | 0 <= i < n
        ensures value.items[i].Object?
        ensures Get(value.items[i], "role").String? && Get(value.items[i], "archive_path").String?
      {
        ItemTexts(value.items[i]);
      }
      var roles := seq(n, i requires 0 <= i < n => Get(value.items[i], "role").s);
      var paths := seq(n, i requires 0 <= i < n => Get(value.items[i], "archive_path").s);
      forall i | 0 <= i < n ensures ArtifactSays(value.items[i], roles[i], paths[i]) {
        ArtifactExactly(value.items[i], roles[i], paths[i]);
      }
      assert ArtifactsSay(value, roles, paths);
    }
    if roles, paths :| ArtifactsSay(value, roles, paths) {
      forall i | 0 <= i < |value.items|
        ensures value.items[i].Object? && ArtifactItem(value.items[i])
        ensures Get(value.items[i], "role") == String(roles[i])
        ensures Get(value.items[i], "archive_path") == String(paths[i])
      {
        ArtifactExactly(value.items[i], roles[i], paths[i]);
        ItemIsObjectToo(value.items[i]);
      }
    }
  }

  lemma ItemIsObjectToo(item: Json)
    ensures ArtifactItem(item) ==> item.Object?
  {
  }

  lemma ItemTexts(item: Json)
    requires ArtifactItem(item)
    ensures item.Object? && Get(item, "role").String? && Get(item, "archive_path").String?
  {
    hide Get;
  }

  // ---------- evidence sources

  /** The text without its trailing slashes. */
  predicate Stem(text: string, stem: string) {
    && stem <= text && (stem == "" || stem[|stem| - 1] != '/')
    && forall i | |stem| <= i < |text| :: text[i] == '/'
  }

  ghost predicate Under(root: string, path: string) {
    exists stem :: Stem(root, stem) && stem + "/" <= path
  }

  ghost predicate FilesSay(files: seq<Json>, root: string, paths: seq<string>, sizes: seq<int>) {
    && |paths| == |sizes| == |files|
    && (forall i | 0 <= i < |files| ::
          EntrySays(files[i], {"archive_path", "size", "sha256"}, paths[i], sizes[i]) && Under(root, paths[i]))
    && Distinct(paths)
  }

  /** At most 4096 files under one root, no path twice, with their number and the sum of their sizes. */
  ghost predicate SourcesSay(value: Json, root: string, files: seq<Json>, paths: seq<string>, sizes: seq<int>) {
    && HasExactly(value, {"role", "archive_path", "file_count", "size", "files"})
    && Member(value, "role", String("device_evidence_sources"))
    && Member(value, "archive_path", String(root)) && PathText(root)
    && Member(value, "files", Array(files)) && |files| <= 4096
    && Member(value, "file_count", Int(|files|))
    && Member(value, "size", Int(Sum(sizes)))
    && FilesSay(files, root, paths, sizes)
  }

  lemma {:induction false} DirectoryPrefixExactly(root: string, stem: string)
    ensures Stem(root, stem) <==> DirectoryPrefix(root) == stem + "/"
    decreases |root|
  {
    if root != "" && root[|root| - 1] == '/' {
      var init := root[..|root| - 1];
      DirectoryPrefixExactly(init, stem);
      assert root == init + "/";
      if Stem(root, stem) {
        assert stem == root[..|stem|];
        assert stem <= init;
      }
    } else {
      if Stem(root, stem) { assert |stem| == |root|; }
      if root + "/" == stem + "/" {
        assert (root + "/")[..|root|] == root && (stem + "/")[..|stem|] == stem;
      }
    }
  }

  lemma UnderExactly(root: string, path: string)
    ensures Under(root, path) <==> DirectoryPrefix(root) <= path
  {
    hide DirectoryPrefix, Stem;
    forall stem ensures Stem(root, stem) <==> DirectoryPrefix(root) == stem + "/" {
      DirectoryPrefixExactly(root, stem);
    }
    PrefixEnds(root);
  }

  lemma {:induction false} PrefixEnds(root: string)
    ensures exists stem :: DirectoryPrefix(root) == stem + "/"
    decreases |root|
  {
    if root != "" && root[|root| - 1] == '/' {
      PrefixEnds(root[..|root| - 1]);
    } else {
      assert DirectoryPrefix(root) == root + "/";
    }
  }

  lemma {:induction false} TotalIsSum(files: seq<Json>, sizes: seq<int>)
    requires |files| == |sizes|
    requires forall i | 0 <= i < |files| :: files[i].Object? && Get(files[i], "size") == Int(sizes[i])
    ensures TotalSize(files) == Sum(sizes)
  {
    hide Get;
    if files != [] {
      var last := |files| - 1;
      TotalIsSum(files[..last], sizes[..last]);
      SumSplits(sizes[..last], sizes[last]);
      assert sizes == sizes[..last] + [sizes[last]];
    }
  }

  lemma FileExactly(item: Json, root: string, path: string, size: int)
    ensures EntrySays(item, {"archive_path", "size", "sha256"}, path, size) && Under(root, path)
       <==> && item.Object? && EvidenceFile(item, DirectoryPrefix(root))
            && Get(item, "archive_path") == String(path) && Get(item, "size") == Int(size)
  {
    hide Get, SizedHashEntry, DirectoryPrefix, EntrySays, Under;
    EntryExactly(item, {"archive_path", "size", "sha256"}, path, size);
    UnderExactly(root, path);
  }

  lemma SourcesHeader(value: Json, root: string, files: seq<Json>, total: int)
    ensures && HasExactly(value, {"role", "archive_path", "file_count", "size", "files"})
            && Member(value, "role", String("device_evidence_sources"))
            && Member(value, "archive_path", String(root)) && PathText(root)
            && Member(value, "files", Array(files)) && |files| <= 4096
            && Member(value, "file_count", Int(|files|))
            && Member(value, "size", Int(total)) && total >= 0
       <==> && value.Object? && EvidenceHeader(value) && Get(value, "archive_path") == String(root)
            && Get(value, "files") == Array(files) && Get(value, "size") == Int(total)
  {
    hide Get, Member, PathText, SafeArchivePath, HasExactly, Keys;
    ExactIsObject(value, {"role", "archive_path", "file_count", "size", "files"});
    if value.Object? {
      KeysExactly(value, {"role", "archive_path", "file_count", "size", "files"});
      MembersGot(value, "role");
      MembersGot(value, "archive_path");
      MembersGot(value, "file_count");
      MembersGot(value, "size");
      MemberGot(value, "files", Array(files));
      PathTextExactly(String(root));
    }
  }

  lemma SourcesExactly(value: Json)
    ensures ValidEvidenceSources(value)
       <==> exists root, files, paths, sizes :: SourcesSay(value, root, files, paths, sizes)
  {
    hide SourcesSay, ValidEvidenceSources;
    if ValidEvidenceSources(value) { ValidSourcesSay(value); }
    if root, files, paths, sizes :| SourcesSay(value, root, files, paths, sizes) {
      SayingSourcesValid(value, root, files, paths, sizes);
    }
  }

  lemma ValidSourcesSay(value: Json)
    requires ValidEvidenceSources(value)
    ensures exists root, files, paths, sizes :: SourcesSay(value, root, files, paths, sizes)
  {
    hide Get, Member, HasExactly, PathText, EvidenceFile, DirectoryPrefix, EntrySays, Under, Keys, SafeArchivePath;
    var files := Get(value, "files").items;
    SourcesRoot(value);
    var root, n := Get(value, "archive_path").s, |files|;
    forall i | 0 <= i < n
      ensures files[i].Object? && Get(files[i], "archive_path").String? && Get(files[i], "size").Int?
    {
      FileTexts(files[i], DirectoryPrefix(root));
    }
    var paths := seq(n, i requires 0 <= i < n => Get(files[i], "archive_path").s);
    var sizes := seq(n, i requires 0 <= i < n => Get(files[i], "size").i);
    forall i | 0 <= i < n
      ensures EntrySays(files[i], {"archive_path", "size", "sha256"}, paths[i], sizes[i]) && Under(root, paths[i])
    {
      FileExactly(files[i], root, paths[i], sizes[i]);
    }
    TotalIsSum(files, sizes);
    SourcesHeader(value, root, files, Sum(sizes));
    assert SourcesSay(value, root, files, paths, sizes);
  }

  lemma SourcesRoot(value: Json)
    requires EvidenceHeader(value)
    ensures value.Object? && Get(value, "archive_path").String? && Get(value, "files").Array?
  {
    hide Get;
  }

  lemma FileTexts(item: Json, prefix: string)
    requires EvidenceFile(item, prefix)
    ensures item.Object? && Get(item, "archive_path").String? && Get(item, "size").Int?
  {
    hide Get;
  }

  lemma SayingSourcesValid(value: Json, root: string, files: seq<Json>, paths: seq<string>, sizes: seq<int>)
    requires SourcesSay(value, root, files, paths, sizes)
    ensures ValidEvidenceSources(value)
  {
    hide Get, Member, HasExactly, PathText, EvidenceFile, DirectoryPrefix, EntrySays, Under, Keys, SafeArchivePath,
         EvidenceHeader;
    forall i | 0 <= i < |files|
      ensures files[i].Object? && EvidenceFile(files[i], DirectoryPrefix(root)) && sizes[i] >= 0
      ensures Get(files[i], "archive_path") == String(paths[i]) && Get(files[i], "size") == Int(sizes[i])
    {
      FileExactly(files[i], root, paths[i], sizes[i]);
      SizeNotNegative(files[i], {"archive_path", "size", "sha256"}, paths[i], sizes[i]);
    }
    TotalIsSum(files, sizes);
    SumNotNegative(sizes);
    SourcesHeader(value, root, files, Sum(sizes));
  }

  lemma SizeNotNegative(item: Json, names: set<string>, path: string, size: int)
    requires EntrySays(item, names, path, size)
    ensures size >= 0
  {
  }

  // ---------- the payload

  /** The members beside the two lists. */
  ghost predicate HeaderSays(payload: Json, isTime: string -> bool, channel: string, release: seq<nat>,
                             minimum: seq<nat>, published: string) {
    && HasExactly(payload, {"schema", "ok", "channel", "release_version", "bundle_sequence", "published_at",
                            "min_supported_version", "revocation_epoch", "artifacts", "evidence_sources"})
    && Member(payload, "schema", String("visionforge-publishable-release-bundle-v2"))
    && Member(payload, "ok", Bool(true))
    && Member(payload, "channel", String(channel)) && NameText(channel, 32, "._-")
    && VersionMember(payload, "release_version", release)
    && VersionMember(payload, "min_supported_version", minimum)
    && NotAbove(minimum, release)
    && NumberMember(payload, "bundle_sequence", 1) && NumberMember(payload, "revocation_epoch", 0)
    && Member(payload, "published_at", String(published)) && EndsWithZ(published) && isTime(published)
  }

  predicate EndsWithZ(text: string) {
    text != "" && text[|text| - 1] == 'Z'
  }

  ghost predicate NumberMember(payload: Json, key: string, least: int) {
    exists number :: Member(payload, key, Int(number)) && number >= least
  }

  ghost predicate VersionMember(payload: Json, key: string, numbers: seq<nat>) {
    exists text :: Member(payload, key, String(text)) && IsVersion(text, numbers)
  }

  /** A payload in order, read as its members. */
  datatype Reading = Reading(channel: string, release: seq<nat>, minimum: seq<nat>, published: string,
                             artifacts: Json, roles: seq<string>, paths: seq<string>,
                             sources: Json, root: string, files: seq<Json>, filePaths: seq<string>, sizes: seq<int>)

  ghost predicate PayloadSays(payload: Json, isTime: string -> bool, r: Reading) {
    && HeaderSays(payload, isTime, r.channel, r.release, r.minimum, r.published)
    && Member(payload, "artifacts", r.artifacts) && ArtifactsSay(r.artifacts, r.roles, r.paths)
    && Member(payload, "evidence_sources", r.sources)
    && SourcesSay(r.sources, r.root, r.files, r.filePaths, r.sizes)
  }

  lemma VersionMemberExactly(payload: Json, key: string, numbers: seq<nat>)
    requires payload.Object?
    ensures VersionMember(payload, key, numbers) <==> NumericVersion(Get(payload, key)) == Some(numbers)
  {
    hide Get, Member, IsVersion;
    MembersGot(payload, key);
    var value := Get(payload, key);
    if value.String? { VersionExactly(value.s, numbers); }
    VersionIsText(value);
    if NumericVersion(value) == Some(numbers) { assert Member(payload, key, String(value.s)); }
  }

  lemma NumberMemberExactly(payload: Json, key: string, least: int)
    requires payload.Object?
    ensures NumberMember(payload, key, least) <==> IntAtLeast(Get(payload, key), least)
  {
    hide Get, Member;
    MembersGot(payload, key);
    if IntAtLeast(Get(payload, key), least) { assert Member(payload, key, Int(Get(payload, key).i)); }
  }

  lemma VersionIsText(value: Json)
    ensures NumericVersion(value).Some? ==> value.String?
  {
  }

  lemma HeaderExactly(payload: Json, isTime: string -> bool)
    ensures PayloadHeader(payload, isTime)
       <==> exists channel, release, minimum, published ::
              HeaderSays(payload, isTime, channel, release, minimum, published)
  {
    hide HeaderSays, PayloadHeader;
    if PayloadHeader(payload, isTime) { HeaderReads(payload, isTime); }
    if channel, release, minimum, published :| HeaderSays(payload, isTime, channel, release, minimum, published) {
      SayingHeader(payload, isTime, channel, release, minimum, published);
    }
  }

  lemma HeaderTexts(payload: Json)
    requires payload.Object?
    ensures Member(payload, "schema", String("visionforge-publishable-release-bundle-v2"))
       <==> Get(payload, "schema") == String(PAYLOAD_SCHEMA)
    ensures Member(payload, "ok", Bool(true)) <==> Get(payload, "ok") == Bool(true)
    ensures HasExactly(payload, {"schema", "ok", "channel", "release_version", "bundle_sequence", "published_at",
                                 "min_supported_version", "revocation_epoch", "artifacts", "evidence_sources"})
       <==> Keys(payload.fields) == PAYLOAD_FIELDS
  {
    hide Get, Member, HasExactly, Keys;
    MembersGot(payload, "schema");
    MemberGot(payload, "ok", Bool(true));
    KeysExactly(payload, {"schema", "ok", "channel", "release_version", "bundle_sequence", "published_at",
                          "min_supported_version", "revocation_epoch", "artifacts", "evidence_sources"});
  }

  lemma HeaderReads(payload: Json, isTime: string -> bool)
    requires PayloadHeader(payload, isTime)
    ensures exists channel, release, minimum, published ::
              HeaderSays(payload, isTime, channel, release, minimum, published)
  {
    hide Get, Member, HasExactly, Keys, NumericVersion, TupleAtMost, NotAbove, NameShape, NameText, NumberMember,
         IntAtLeast, VersionMember;
    HeaderTexts(payload);
    MembersGot(payload, "channel");
    NameExactly(Get(payload, "channel"), 32, "._-", {'.', '_', '-'});
    var release := NumericVersion(Get(payload, "release_version")).value;
    var minimum := NumericVersion(Get(payload, "min_supported_version")).value;
    VersionMemberExactly(payload, "release_version", release);
    VersionMemberExactly(payload, "min_supported_version", minimum);
    TupleAtMostExactly(minimum, release);
    NumberMemberExactly(payload, "bundle_sequence", 1);
    NumberMemberExactly(payload, "revocation_epoch", 0);
    MembersGot(payload, "published_at");
    assert HeaderSays(payload, isTime, Get(payload, "channel").s, release, minimum, Get(payload, "published_at").s);
  }

  lemma SayingHeader(payload: Json, isTime: string -> bool, channel: string, release: seq<nat>, minimum: seq<nat>,
                     published: string)
    requires HeaderSays(payload, isTime, channel, release, minimum, published)
    ensures PayloadHeader(payload, isTime) && payload.Object?
  {
    hide Get, Member, HasExactly, Keys, NumericVersion, TupleAtMost, NotAbove, NameShape, NameText, VersionMember,
         NumberMember, IntAtLeast;
    ExactIsObject(payload, {"schema", "ok", "channel", "release_version", "bundle_sequence", "published_at",
                            "min_supported_version", "revocation_epoch", "artifacts", "evidence_sources"});
    HeaderTexts(payload);
    MembersGot(payload, "channel");
    NameExactly(Get(payload, "channel"), 32, "._-", {'.', '_', '-'});
    VersionMemberExactly(payload, "release_version", release);
    VersionMemberExactly(payload, "min_supported_version", minimum);
    TupleAtMostExactly(minimum, release);
    NumberMemberExactly(payload, "bundle_sequence", 1);
    NumberMemberExactly(payload, "revocation_epoch", 0);
    MembersGot(payload, "published_at");
  }

  /** The validator passes exactly the payloads whose members say all this. */
  lemma PayloadExactly(payload: Json, isTime: string -> bool)
    ensures ValidPayload(payload, isTime) <==> exists r :: PayloadSays(payload, isTime, r)
  {
    hide PayloadHeader, ValidArtifacts, ValidEvidenceSources, HeaderSays, ArtifactsSay, SourcesSay, Get, Member;
    HeaderExactly(payload, isTime);
    if ValidPayload(payload, isTime) {
      var channel, release, minimum, published :| HeaderSays(payload, isTime, channel, release, minimum, published);
      SayingHeader(payload, isTime, channel, release, minimum, published);
      var artifacts, sources := Get(payload, "artifacts"), Get(payload, "evidence_sources");
      ListMembers(payload, isTime, artifacts, sources);
      ArtifactsExactly(artifacts);
      SourcesExactly(sources);
      var roles, paths :| ArtifactsSay(artifacts, roles, paths);
      var root, files, filePaths, sizes :| SourcesSay(sources, root, files, filePaths, sizes);
      var reading :=
        Reading(channel, release, minimum, published, artifacts, roles, paths, sources, root, files, filePaths, sizes);
      assert PayloadSays(payload, isTime, reading);
    }
    if r :| PayloadSays(payload, isTime, r) {
      SayingHeader(payload, isTime, r.channel, r.release, r.minimum, r.published);
      ListMembers(payload, isTime, r.artifacts, r.sources);
      ArtifactsExactly(r.artifacts);
      SourcesExactly(r.sources);
    }
  }

  lemma ListMembers(payload: Json, isTime: string -> bool, artifacts: Json, sources: Json)
    requires payload.Object? && PayloadHeader(payload, isTime)
    ensures Member(payload, "artifacts", artifacts) <==> Get(payload, "artifacts") == artifacts
    ensures Member(payload, "evidence_sources", sources) <==> Get(payload, "evidence_sources") == sources
  {
    hide Member, Get, NumericVersion, TupleAtMost, NameShape, Keys;
    assert Keys(payload.fields) == PAYLOAD_FIELDS;
    MemberIsGet(payload, "artifacts", artifacts);
    MemberIsGet(payload, "evidence_sources", sources);
  }

  /** A payload whose minimum lies above its release is refused, whatever else it says. */
  lemma RollbackRefused(payload: Json, isTime: string -> bool, release: seq<nat>, minimum: seq<nat>, k: int)
    requires payload.Object?
    requires VersionMember(payload, "release_version", release)
    requires VersionMember(payload, "min_supported_version", minimum)
    requires LessAt(release, minimum, k) || release < minimum
    ensures !ValidPayload(payload, isTime)
  {
    hide VersionMember, NumericVersion, TupleAtMost, NameShape, Get, ValidArtifacts, ValidEvidenceSources, NotAbove,
         LessAt;
    VersionMemberExactly(payload, "release_version", release);
    VersionMemberExactly(payload, "min_supported_version", minimum);
    TupleAtMostExactly(minimum, release);
    AboveIsNotBelow(release, minimum, k);
  }

  lemma AboveIsNotBelow(a: seq<nat>, b: seq<nat>, k: int)
    requires LessAt(a, b, k) || a < b
    ensures !NotAbove(b, a)
  {
    TupleAtMostExactly(a, b);
    TupleAtMostExactly(b, a);
    TupleOrder(a, b);
  }
}
