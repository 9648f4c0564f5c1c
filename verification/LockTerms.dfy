/**
  What a lock must say to load, in terms of its JSON: which texts are paths, which header and which
  rows are in order, and that no target of a loaded lock leaves the places artifacts may go to.
 */
module LockTerms {
  import opened Wrappers
  import opened StableSorting
  import opened Picking
  import opened Paths
  import opened Characters
  import opened JsonValue
  import opened ArtifactLock
  import opened ArchivePaths

  // ---------- paths

  predicate Kept(part: string) {
    part != "" && part != "."
  }

  /** A relative path of these parts: no backslash, no NUL, no leading slash, no part `..`; its parts
      are what lies between the slashes, without the empty ones and those that are one dot. */
  ghost predicate NamesPath(text: string, parts: Path) {
    && text != "" && '\\' !in text && '\0' !in text && text[0] != '/'
    && exists pieces :: CutInto(text, '/', pieces) && ".." !in pieces && Picked(pieces, parts, Kept)
  }

  lemma StrictExactly(text: string, parts: Path)
    ensures StrictRelativePath(text) == Some(parts) <==> NamesPath(text, parts)
  {
    hide Split, Filter, CutInto, Picked;
    var pieces := Split(text, '/');
    PosixPartsPicked(text, parts);
    forall other | CutInto(text, '/', other) ensures other == pieces { SplitExactly(text, '/', other); }
    SplitExactly(text, '/', pieces);
    assert ".." in PosixParts(text) <==> ".." in pieces by {
      FilterMembers(pieces, Kept);
      PosixPartsKept(text);
    }
  }

  lemma PosixPartsKept(text: string)
    ensures PosixParts(text) == Filter(Split(text, '/'), Kept)
  {
    hide Split;
    FilterAlike(Split(text, '/'), (part: string) => part != "" && part != ".", Kept);
  }

  lemma PosixPartsPicked(text: string, parts: Path)
    ensures PosixParts(text) == parts <==> Picked(Split(text, '/'), parts, Kept)
  {
    PosixPartsKept(text);
    hide Split, Filter, Picked;
    FilterPicks(Split(text, '/'), parts, Kept);
  }

  /** The places artifacts may go to. */
  const PLACES: set<Path> := {["assets", "qnn"], ["assets", "portable_models"], ["jniLibs", "arm64-v8a"]}

  predicate UnderPlace(target: Path) {
    |target| >= 2 && target[..2] in PLACES
  }

  lemma TargetExactly(target: Path)
    ensures TargetAllowed(target) <==> UnderPlace(target)
  {
    if UnderPlace(target) {
      assert IsPrefix(ALLOWED_PREFIXES[0], target) <==> target[..2] == ["assets", "qnn"];
      assert IsPrefix(ALLOWED_PREFIXES[1], target) <==> target[..2] == ["assets", "portable_models"];
      assert IsPrefix(ALLOWED_PREFIXES[2], target) <==> target[..2] == ["jniLibs", "arm64-v8a"];
    }
  }

  // ---------- the header

  function Texts(texts: seq<string>): Json {
    Array(seq(|texts|, i requires 0 <= i < |texts| => String(texts[i])))
  }

  /** A member that is missing, null, false or zero. */
  ghost predicate Unset(value: Json, key: string) {
    forall x | Member(value, key, x) :: x == Null || x == Bool(false) || x == Int(0)
  }

  /** The lock names its schema, forbids plaintext in a release, and allows it to `variants`: to owner
      only when that is approved by name. */
  ghost predicate HeaderSays(payload: Json, variants: seq<string>) {
    && Member(payload, "schema", String("visionforge-android-private-artifacts-lock-v1"))
    && exists header :: Member(payload, "policy", header) && header.Object? && PolicySays(header, variants)
  }

  ghost predicate PolicySays(header: Json, variants: seq<string>) {
    && Member(header, "public_source_tree_must_not_contain_locked_bytes", Bool(true))
    && Member(header, "release_requires_encrypted_session_delivery", Bool(true))
    && Member(header, "release_plaintext_allowed", Bool(false))
    && Member(header, "source_root_environment", String("VISIONFORGE_ANDROID_PRIVATE_ARTIFACT_ROOT"))
    && Member(header, "plaintext_allowed_variants", Texts(variants))
    && ((variants == ["debug", "qa"] && Unset(header, "owner_private_release_plaintext_allowed"))
        || (variants == ["debug", "qa", "owner"]
            && Member(header, "owner_private_release_plaintext_allowed", Bool(true))))
  }

  /** The rows of the lock, at least one. */
  ghost predicate RowsListed(payload: Json, items: seq<Json>) {
    Member(payload, "artifacts", Array(items)) && items != []
  }

  lemma UnsetExactly(value: Json, key: string)
    requires value.Object?
    ensures Unset(value, key) <==> NoneOrFalse(Get(value, key))
  {
    hide Find, Keys, Member;
    var x := Get(value, key);
    MemberIsGet(value, key, x);
    FoundExactly(value.fields, key);
    forall y | Member(value, key, y) ensures y == x { MemberIsGet(value, key, y); }
  }

  lemma HeaderVariantsExactly(header: Json, variants: seq<string>)
    requires header.Object?
    ensures HeaderVariants(header) == Some(variants)
       <==> && Get(header, "plaintext_allowed_variants") == Texts(variants)
            && ((variants == ["debug", "qa"] && NoneOrFalse(Get(header, "owner_private_release_plaintext_allowed")))
                || (variants == ["debug", "qa", "owner"]
                    && Get(header, "owner_private_release_plaintext_allowed") == Bool(true)))
  {
    hide Get, NoneOrFalse;
    assert Texts(["debug", "qa"]).items == [String("debug"), String("qa")];
    assert Texts(["debug", "qa", "owner"]).items == [String("debug"), String("qa"), String("owner")];
    assert ["debug", "qa"] != ["debug", "qa", "owner"];
  }

  lemma PolicyExactly(header: Json, variants: seq<string>)
    requires header.Object?
    ensures PolicySays(header, variants)
       <==> && Get(header, "public_source_tree_must_not_contain_locked_bytes") == Bool(true)
            && Get(header, "release_requires_encrypted_session_delivery") == Bool(true)
            && Get(header, "release_plaintext_allowed") == Bool(false)
            && Get(header, "source_root_environment") == String(ROOT_VARIABLE)
            && HeaderVariants(header) == Some(variants)
  {
    hide Get, Member, HeaderVariants, Unset, NoneOrFalse, Texts;
    HeaderVariantsExactly(header, variants);
    MemberGot(header, "public_source_tree_must_not_contain_locked_bytes", Bool(true));
    MemberGot(header, "release_requires_encrypted_session_delivery", Bool(true));
    MemberGot(header, "release_plaintext_allowed", Bool(false));
    MemberGot(header, "source_root_environment", String("VISIONFORGE_ANDROID_PRIVATE_ARTIFACT_ROOT"));
    TextsIsList(variants);
    MemberGot(header, "plaintext_allowed_variants", Texts(variants));
    MemberGot(header, "owner_private_release_plaintext_allowed", Bool(true));
    UnsetExactly(header, "owner_private_release_plaintext_allowed");
  }

  lemma TextsIsList(texts: seq<string>)
    ensures Texts(texts).Array?
  {
  }

  lemma HeaderExactly(payload: Json, lowerOrDigit: char -> bool, variants: seq<string>)
    ensures LockPolicy(payload, lowerOrDigit) == Some(Policy(variants, lowerOrDigit))
       <==> HeaderSays(payload, variants) && exists items :: RowsListed(payload, items)
  {
    hide Get, Member, HeaderVariants, PolicySays;
    if payload.Object? {
      MemberGot(payload, "schema", String("visionforge-android-private-artifacts-lock-v1"));
      var header, rows := Get(payload, "policy"), Get(payload, "artifacts");
      forall x: Json | x.Object? ensures Member(payload, "policy", x) <==> x == header {
        MemberGot(payload, "policy", x);
      }
      forall items ensures Member(payload, "artifacts", Array(items)) <==> Array(items) == rows {
        MemberGot(payload, "artifacts", Array(items));
      }
      if header.Object? { PolicyExactly(header, variants); }
      if rows.Array? && rows.items != [] { assert RowsListed(payload, rows.items); }
    } else {
      NoMember(payload);
    }
  }

  // ---------- the rows

  /** A member that is a relative path of these parts. */
  ghost predicate PathMember(item: Json, key: string, parts: Path) {
    exists text :: Member(item, key, String(text)) && NamesPath(text, parts)
  }

  ghost predicate Mentions(item: Json, key: string) {
    exists x :: Member(item, key, x)
  }

  /** The row describes this artifact, and its every field is in order. */
  ghost predicate RowSays(item: Json, a: Artifact, variants: seq<string>, lowerOrDigit: char -> bool) {
    && Member(item, "id", String(a.id)) && IdInOrder(a.id, lowerOrDigit)
    && Member(item, "kind", String(a.kind))
    && a.kind in {"vendor_runtime", "model_weight_library", "portable_model_weight"}
    && PathMember(item, "source_path", a.source)
    && PathMember(item, "target_path", a.target) && UnderPlace(a.target)
    && Member(item, "size", Int(a.size)) && 0 < a.size <= 1073741824
    && Member(item, "sha256", String(a.sha256)) && |a.sha256| == 64 && Drawn(a.sha256, "0123456789abcdef")
    && Member(item, "allowed_variants", Texts(variants)) && a.variants == variants
    && Member(item, "license_review_required", Bool(true))
    && Member(item, "public_repository_allowed", Bool(a.publicAllowed))
    && (if a.publicAllowed then StoredPublicly(item, a) else NotPublic(item))
  }

  predicate IdInOrder(id: string, lowerOrDigit: char -> bool) {
    0 < |id| <= 120 && forall i | 0 <= i < |id| :: lowerOrDigit(id[i]) || id[i] in {'_', '-'}
  }

  /** Only a weight library the user trained, stored with Git LFS where its target says, may be public. */
  ghost predicate StoredPublicly(item: Json, a: Artifact) {
    && a.kind == "model_weight_library"
    && Member(item, "provenance", String("user_trained"))
    && Member(item, "repository_storage", String("git_lfs"))
    && PathMember(item, "repository_path", ["android_inference_benchmark", "app", "src", "main"] + a.target)
  }

  ghost predicate NotPublic(item: Json) {
    !Mentions(item, "provenance") && !Mentions(item, "repository_storage") && !Mentions(item, "repository_path")
  }

  /** A row read and found valid, and the artifact it makes. */
  ghost predicate RowLoads(item: Json, row: Row, a: Artifact, policy: Policy) {
    && RowOf(item) == Some(row) && RowValid(row, policy)
    && a == Artifact(row.id, row.kind, StrictRelativePath(row.source).value, StrictRelativePath(row.target).value,
                     row.size, row.sha256, row.variants, row.publication.allowed)
  }

  lemma TextExactly(item: Json, key: string, text: string)
    requires item.Object?
    ensures Member(item, key, String(text)) <==> TextOf(Get(item, key)) == Some(text)
  {
    hide Get, Member;
    MemberGot(item, key, String(text));
  }

  lemma PathExactly(item: Json, key: string, parts: Path)
    requires item.Object?
    ensures PathMember(item, key, parts)
       <==> TextOf(Get(item, key)).Some? && StrictRelativePath(TextOf(Get(item, key)).value) == Some(parts)
  {
    hide Get, Member, NamesPath, StrictRelativePath;
    forall text ensures Member(item, key, String(text)) <==> TextOf(Get(item, key)) == Some(text) {
      TextExactly(item, key, text);
    }
    forall text ensures NamesPath(text, parts) <==> StrictRelativePath(text) == Some(parts) {
      StrictExactly(text, parts);
    }
  }

  lemma MentionsExactly(item: Json, key: string)
    requires item.Object?
    ensures Mentions(item, key) <==> Find(item.fields, key).Some?
  {
    hide Find, Keys, LastField, Member;
    FoundExactly(item.fields, key);
    MemberIsGet(item, key, Get(item, key));
    forall x | Member(item, key, x) ensures key in Keys(item.fields) {
      MemberIsGet(item, key, x);
    }
  }

  lemma {:induction false} TextsExactly(items: seq<Json>, texts: seq<string>)
    ensures TextsOf(items) == Some(texts) <==> Array(items) == Texts(texts)
  {
    if items == [] {
      assert |Texts(texts).items| == |texts|;
    } else {
      var last := |items| - 1;
      if TextsOf(items) == Some(texts) {
        TextsExactly(items[..last], TextsOf(items[..last]).value);
        assert items == items[..last] + [items[last]];
      }
      if Array(items) == Texts(texts) {
        TextsExactly(items[..last], texts[..last]);
        assert items[..last] == Texts(texts[..last]).items;
        assert texts == texts[..last] + [texts[last]];
        assert items[last] == Texts(texts).items[last];
      }
    }
  }

  lemma VariantsExactly(item: Json, key: string, texts: seq<string>)
    requires item.Object?
    ensures Member(item, key, Texts(texts)) <==> Get(item, key).Array? && TextsOf(Get(item, key).items) == Some(texts)
  {
    hide Get, Member, TextsOf, Texts;
    TextsIsList(texts);
    MemberGot(item, key, Texts(texts));
    if Get(item, key).Array? { TextsExactly(Get(item, key).items, texts); }
  }

  lemma PublicationExactly(item: Json, a: Artifact, row: Row)
    requires item.Object? && row.publication == PublicationOf(item, a.publicAllowed) && row.kind == a.kind
    ensures PublicationValid(row, a.target)
       <==> if a.publicAllowed then StoredPublicly(item, a) else NotPublic(item)
  {
    hide Get, Find, Member, Mentions, PathMember, StrictRelativePath;
    MemberGot(item, "provenance", String("user_trained"));
    MemberGot(item, "repository_storage", String("git_lfs"));
    PathExactly(item, "repository_path", REPOSITORY + a.target);
    MentionsExactly(item, "provenance");
    MentionsExactly(item, "repository_storage");
    MentionsExactly(item, "repository_path");
  }

  /** The fields of a row that are read one by one, as the row holds them. */
  lemma RowOfExactly(item: Json, row: Row)
    requires item.Object?
    ensures RowOf(item) == Some(row)
       <==> && TextOf(Get(item, "id")) == Some(row.id)
            && TextOf(Get(item, "kind")) == Some(row.kind)
            && TextOf(Get(item, "source_path")) == Some(row.source)
            && TextOf(Get(item, "target_path")) == Some(row.target)
            && Get(item, "size") == Int(row.size)
            && TextOf(Get(item, "sha256")) == Some(row.sha256)
            && Get(item, "allowed_variants").Array?
            && TextsOf(Get(item, "allowed_variants").items) == Some(row.variants)
            && row.licenseReview == (Get(item, "license_review_required") == Bool(true))
            && Get(item, "public_repository_allowed").Bool?
            && row.publication == PublicationOf(item, Get(item, "public_repository_allowed").b)
  {
    hide Get, TextOf, TextsOf, PublicationOf;
  }

  lemma LoadedRowSays(item: Json, row: Row, a: Artifact, policy: Policy)
    requires RowLoads(item, row, a, policy)
    ensures RowSays(item, a, policy.variants, policy.lowerOrDigit)
  {
    hide Get, Find, Member, TextOf, TextsOf, PublicationOf, PublicationValid, PathMember, StoredPublicly, NotPublic,
         StrictRelativePath, TargetAllowed, UnderPlace, Texts, Drawn, RowOf;
    RowIsObject(item);
    RowOfExactly(item, row);
    AllowedSame(item, row);
    ScalarsExactly(item, a);
    VariantsExactly(item, "allowed_variants", row.variants);
    PathExactly(item, "source_path", a.source);
    PathExactly(item, "target_path", a.target);
    TargetExactly(a.target);
    DigestExactly(String(a.sha256));
    PublicationExactly(item, a, row);
  }

  lemma RowIsObject(item: Json)
    requires RowOf(item).Some?
    ensures item.Object?
  {
  }

  lemma AllowedSame(item: Json, row: Row)
    requires item.Object?
    ensures Get(item, "public_repository_allowed").Bool? ==>
      PublicationOf(item, Get(item, "public_repository_allowed").b).allowed == Get(item, "public_repository_allowed").b
  {
  }

  lemma ScalarsExactly(item: Json, a: Artifact)
    requires item.Object?
    ensures Member(item, "id", String(a.id)) <==> TextOf(Get(item, "id")) == Some(a.id)
    ensures Member(item, "kind", String(a.kind)) <==> TextOf(Get(item, "kind")) == Some(a.kind)
    ensures Member(item, "sha256", String(a.sha256)) <==> TextOf(Get(item, "sha256")) == Some(a.sha256)
    ensures Member(item, "size", Int(a.size)) <==> Get(item, "size") == Int(a.size)
    ensures Member(item, "license_review_required", Bool(true)) <==> Get(item, "license_review_required") == Bool(true)
    ensures Member(item, "public_repository_allowed", Bool(a.publicAllowed))
       <==> Get(item, "public_repository_allowed") == Bool(a.publicAllowed)
  {
    hide Get, Member, TextOf;
    TextExactly(item, "id", a.id);
    TextExactly(item, "kind", a.kind);
    TextExactly(item, "sha256", a.sha256);
    MemberGot(item, "size", Int(a.size));
    MemberGot(item, "license_review_required", Bool(true));
    MemberGot(item, "public_repository_allowed", Bool(a.publicAllowed));
  }

  lemma SayingRowLoads(item: Json, a: Artifact, policy: Policy) returns (row: Row)
    requires RowSays(item, a, policy.variants, policy.lowerOrDigit)
    ensures RowLoads(item, row, a, policy)
  {
    hide Get, Find, Member, TextOf, TextsOf, PublicationOf, PublicationValid, PathMember, StoredPublicly, NotPublic,
         StrictRelativePath, TargetAllowed, UnderPlace, Texts, Drawn, RowOf;
    SayingIsObject(item, a, policy);
    ScalarsExactly(item, a);
    VariantsExactly(item, "allowed_variants", policy.variants);
    PathExactly(item, "source_path", a.source);
    PathExactly(item, "target_path", a.target);
    var source, target := TextOf(Get(item, "source_path")).value, TextOf(Get(item, "target_path")).value;
    row := Row(a.id, a.kind, source, target, a.size, a.sha256, a.variants, true,
               PublicationOf(item, a.publicAllowed));
    RowOfExactly(item, row);
    AllowedSame(item, row);
    TargetExactly(a.target);
    DigestExactly(String(a.sha256));
    PublicationExactly(item, a, row);
  }

  lemma SayingIsObject(item: Json, a: Artifact, policy: Policy)
    requires RowSays(item, a, policy.variants, policy.lowerOrDigit)
    ensures item.Object?
  {
  }

  // ---------- the lock

  ghost predicate RowsSay(items: seq<Json>, artifacts: seq<Artifact>, variants: seq<string>,
                          lowerOrDigit: char -> bool) {
    && |artifacts| == |items|
    && forall i | 0 <= i < |items| :: RowSays(items[i], artifacts[i], variants, lowerOrDigit)
  }

  ghost predicate NoneTwice(artifacts: seq<Artifact>) {
    forall i, j | 0 <= i < j < |artifacts| ::
      artifacts[i].id != artifacts[j].id && artifacts[i].source != artifacts[j].source
      && artifacts[i].target != artifacts[j].target
  }

  /** The lock lists exactly these artifacts, in order, under one header. */
  ghost predicate LockSays(payload: Json, artifacts: seq<Artifact>, variants: seq<string>, items: seq<Json>,
                           lowerOrDigit: char -> bool) {
    && HeaderSays(payload, variants) && RowsListed(payload, items)
    && RowsSay(items, artifacts, variants, lowerOrDigit) && NoneTwice(artifacts)
  }

  /** The lock loads, as these artifacts. */
  ghost predicate Loads(payload: Json, lowerOrDigit: char -> bool, rows: seq<Row>, artifacts: seq<Artifact>) {
    LockAccepted(payload, lowerOrDigit, rows)
    && artifacts == ArtifactsOf(rows, LockPolicy(payload, lowerOrDigit).value, |rows|)
  }

  /** A lock loads as some artifacts exactly when it says so. */
  lemma LoadsExactly(payload: Json, lowerOrDigit: char -> bool, artifacts: seq<Artifact>)
    ensures (exists rows :: Loads(payload, lowerOrDigit, rows, artifacts))
       <==> exists variants, items :: LockSays(payload, artifacts, variants, items, lowerOrDigit)
  {
    hide LockAccepted, LockSays, ArtifactsOf, LockPolicy;
    if rows :| Loads(payload, lowerOrDigit, rows, artifacts) {
      LoadedSays(payload, lowerOrDigit, rows, artifacts);
    }
    if variants, items :| LockSays(payload, artifacts, variants, items, lowerOrDigit) {
      SayingLoads(payload, lowerOrDigit, artifacts, variants, items);
    }
  }

  lemma LoadedSays(payload: Json, lowerOrDigit: char -> bool, rows: seq<Row>, artifacts: seq<Artifact>)
    requires Loads(payload, lowerOrDigit, rows, artifacts)
    ensures exists variants, items :: LockSays(payload, artifacts, variants, items, lowerOrDigit)
  {
    hide RowOf, RowValid, RowSays, HeaderSays, RowsListed, LockPolicy, Get, Member;
    var policy := LockPolicy(payload, lowerOrDigit).value;
    HeaderHasRows(payload, lowerOrDigit);
    PolicyKeepsLetters(payload, lowerOrDigit);
    HeaderExactly(payload, lowerOrDigit, policy.variants);
    var items :| RowsListed(payload, items);
    ListedItems(payload, items);
    forall i | 0 <= i < |items| ensures RowSays(items[i], artifacts[i], policy.variants, lowerOrDigit) {
      assert rows[..|rows|][i] == rows[i];
      ValidParts(rows[i], policy);
      LoadedRowSays(items[i], rows[i], artifacts[i], policy);
    }
    assert LockSays(payload, artifacts, policy.variants, items, lowerOrDigit);
  }

  lemma PolicyKeepsLetters(payload: Json, lowerOrDigit: char -> bool)
    requires LockPolicy(payload, lowerOrDigit).Some?
    ensures LockPolicy(payload, lowerOrDigit).value.lowerOrDigit == lowerOrDigit
  {
    hide Get, HeaderVariants;
  }

  lemma ListedItems(payload: Json, items: seq<Json>)
    requires payload.Object? && RowsListed(payload, items)
    ensures Get(payload, "artifacts") == Array(items)
  {
    hide Get, Member;
    MemberGot(payload, "artifacts", Array(items));
  }

  lemma SayingLoads(payload: Json, lowerOrDigit: char -> bool, artifacts: seq<Artifact>, variants: seq<string>,
                    items: seq<Json>)
    requires LockSays(payload, artifacts, variants, items, lowerOrDigit)
    ensures exists rows :: Loads(payload, lowerOrDigit, rows, artifacts)
  {
    hide RowOf, RowValid, RowSays, HeaderSays, RowsListed, LockPolicy, Get, Member, RowLoads;
    var policy := Policy(variants, lowerOrDigit);
    HeaderExactly(payload, lowerOrDigit, variants);
    HeaderHasRows(payload, lowerOrDigit);
    ListedItems(payload, items);
    forall i | 0 <= i < |items| ensures SomeRowLoads(items[i], artifacts[i], policy) {
      var row := SayingRowLoads(items[i], artifacts[i], policy);
    }
    var rows := LoadedRows(items, artifacts, policy);
    AllRowsLoad(items, rows, artifacts, policy);
    assert Loads(payload, lowerOrDigit, rows, artifacts);
  }

  ghost predicate SomeRowLoads(item: Json, a: Artifact, policy: Policy) {
    exists row :: RowLoads(item, row, a, policy)
  }

  ghost function LoadedRows(items: seq<Json>, artifacts: seq<Artifact>, policy: Policy): (rows: seq<Row>)
    requires |artifacts| == |items|
    requires forall i | 0 <= i < |items| :: SomeRowLoads(items[i], artifacts[i], policy)
    ensures |rows| == |items| && forall i | 0 <= i < |items| :: RowLoads(items[i], rows[i], artifacts[i], policy)
  {
    hide RowLoads;
    seq(|items|, i requires 0 <= i < |items| =>
      assert SomeRowLoads(items[i], artifacts[i], policy);
      var row :| RowLoads(items[i], row, artifacts[i], policy); row)
  }

  lemma AllRowsLoad(items: seq<Json>, rows: seq<Row>, artifacts: seq<Artifact>, policy: Policy)
    requires |rows| == |items| == |artifacts| && NoneTwice(artifacts)
    requires forall i | 0 <= i < |items| :: RowLoads(items[i], rows[i], artifacts[i], policy)
    ensures RowsAre(items, rows) && LockValid(rows, policy) && artifacts == ArtifactsOf(rows, policy, |rows|)
  {
    hide RowOf, RowValid;
    assert rows[..|rows|] == rows;
    forall i | 0 <= i < |items|
      ensures RowOf(items[i]) == Some(rows[i]) && RowValid(rows[i], policy)
      ensures StrictRelativePath(rows[i].source).Some? && StrictRelativePath(rows[i].target).Some?
      ensures artifacts[i] == ArtifactOf(rows[i])
    {
      assert RowLoads(items[i], rows[i], artifacts[i], policy);
      ValidParts(rows[i], policy);
    }
    assert artifacts == ArtifactsOf(rows, policy, |rows|);
  }

  // ---------- where artifacts go

  /** Behind any root, the target of a loaded artifact stays under one of the allowed places, and its
      source under the root: nothing climbs. */
  lemma TargetsStayInside(payload: Json, lowerOrDigit: char -> bool, rows: seq<Row>, artifacts: seq<Artifact>, i: nat,
                          root: Path)
    requires Loads(payload, lowerOrDigit, rows, artifacts) && i < |artifacts|
    ensures var target, source := artifacts[i].target, artifacts[i].source;
      && Normalize(root + target) == Normalize(root) + target
      && Normalize(root + source) == Normalize(root) + source
      && exists place <- PLACES :: Normalize(root + place) <= Normalize(root + target)
  {
    hide LockAccepted, LockSays, ArtifactsOf, LockPolicy, Normalize, RowsListed, HeaderSays;
    LoadedSays(payload, lowerOrDigit, rows, artifacts);
    var variants, items :| LockSays(payload, artifacts, variants, items, lowerOrDigit);
    SaidTarget(payload, artifacts, variants, items, lowerOrDigit, i);
    var target, source := artifacts[i].target, artifacts[i].source;
    PlainPartsStay(root, target);
    PlainPartsStay(root, source);
    PlainPartsStay(root, target[..2]);
    assert target[..2] in PLACES;
  }

  lemma SaidTarget(payload: Json, artifacts: seq<Artifact>, variants: seq<string>, items: seq<Json>,
                   lowerOrDigit: char -> bool, i: nat)
    requires LockSays(payload, artifacts, variants, items, lowerOrDigit) && i < |artifacts|
    ensures UnderPlace(artifacts[i].target)
    ensures forall k | 0 <= k < |artifacts[i].target| :: PlainPart(artifacts[i].target[k])
    ensures forall k | 0 <= k < |artifacts[i].source| :: PlainPart(artifacts[i].source[k])
  {
    hide Member, UnderPlace, NamesPath;
    assert RowSays(items[i], artifacts[i], variants, lowerOrDigit);
    var t :| Member(items[i], "target_path", String(t)) && NamesPath(t, artifacts[i].target);
    var s :| Member(items[i], "source_path", String(s)) && NamesPath(s, artifacts[i].source);
    PathIsPlain(t, artifacts[i].target);
    PathIsPlain(s, artifacts[i].source);
  }

  lemma PathIsPlain(text: string, parts: Path)
    requires NamesPath(text, parts)
    ensures forall k | 0 <= k < |parts| :: PlainPart(parts[k])
  {
    hide CutInto, Filter, Picked;
    var pieces :| CutInto(text, '/', pieces) && ".." !in pieces && Picked(pieces, parts, Kept);
    FilterPicks(pieces, parts, Kept);
    FilterMembers(pieces, Kept);
    forall k | 0 <= k < |parts| ensures PlainPart(parts[k]) {
      assert parts[k] in parts;
    }
  }
}
