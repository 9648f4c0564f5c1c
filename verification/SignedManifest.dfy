/** Signing a release payload and verifying the envelope, tools/formal_release_manifest_security.py.
    The signature scheme is abstract: section 5.1 of RFC 8032 is represented by its laws. */
module SignedManifest {
  import opened Wrappers
  import opened JsonValue
  import opened JsonText
  import opened Base64
  import opened Utf8
  import opened ManifestPayload
  import Characters

  const ENVELOPE_SCHEMA := "visionforge-publishable-release-manifest-envelope-v1"

  const ALGORITHM := "Ed25519"

  const MAXIMUM_PAYLOAD_BYTES: nat := 384 * 1024

  const ENVELOPE_FIELDS: set<string> := {"schema", "algorithm", "key_id", "payload_b64", "signature_b64"}

  type Bytes = seq<Byte>

  type Envelope = map<string, Json>

  /** A signature scheme on keys written as bytes. `keyId` is the hexadecimal SHA-256 of the public key. */
  datatype Scheme = Scheme(sign: (Bytes, Bytes) -> Bytes, verify: (Bytes, Bytes, Bytes) -> bool,
                           public: Bytes -> Bytes, keyId: Bytes -> string)

  ghost predicate Lawful(s: Scheme) {
    && (forall key, message :: |s.sign(key, message)| == 64 && s.verify(s.public(key), s.sign(key, message), message))
    && (forall public :: Characters.LowerHex64(s.keyId(public)))
  }

  /** `canonical_json_bytes`. */
  function CanonicalBytes(v: Json): Option<Bytes> {
    var encoded := ToBytes(Print(v));
    if |encoded| > MAXIMUM_PAYLOAD_BYTES then None else Some(encoded)
  }

  /** `parse_json_object`. */
  function ParseObject(raw: Bytes, maximum: nat): Option<Json> {
    if |raw| > maximum then None
    else
      match FromBytes(raw)
      case None => None
      case Some(text) =>
        match Parse(text)
        case None => None
        case Some(v) => if v.Object? then Some(v) else None
  }

  ghost function Signed(payload: Json, key: Bytes, s: Scheme, isTime: string -> bool): Option<Envelope> {
    if !ValidPayload(payload, isTime) then None
    else
      match CanonicalBytes(payload)
      case None => None
      case Some(bytes) => Some(EnvelopeOf(bytes, key, s))
  }

  function EnvelopeOf(bytes: Bytes, key: Bytes, s: Scheme): Envelope {
    SealedBy(bytes, s.sign(key, bytes), s.keyId(s.public(key)))
  }

  function SealedBy(bytes: Bytes, signature: Bytes, keyId: string): Envelope {
    map["schema" := String(ENVELOPE_SCHEMA), "algorithm" := String(ALGORITHM), "key_id" := String(keyId),
        "payload_b64" := String(Encode(bytes)), "signature_b64" := String(Encode(signature))]
  }

  /** `_strict_b64decode` on a field of any type. */
  function FieldBytes(e: Envelope, key: string, maximum: nat): Option<Bytes> {
    if key in e && e[key].String? then
      match StrictDecode(e[key].s, maximum) case Ok(bytes) => Some(bytes) case Err(_) => None
    else None
  }

  /** The checks before the payload is looked at: the payload bytes, if the signature on them holds. */
  function OpenEnvelope(e: Envelope, public: Bytes, s: Scheme): Option<Bytes> {
    if e.Keys != ENVELOPE_FIELDS || e["schema"] != String(ENVELOPE_SCHEMA) then None
    else if e["algorithm"] != String(ALGORITHM) then None
    else if !Digest(e["key_id"]) || e["key_id"] != String(s.keyId(public)) then None
    else
      match FieldBytes(e, "payload_b64", MAXIMUM_PAYLOAD_BYTES)
      case None => None
      case Some(payload) =>
        match FieldBytes(e, "signature_b64", 64)
        case None => None
        case Some(signature) =>
          if |signature| == 64 && s.verify(public, signature, payload) then Some(payload) else None
  }

  ghost function Verified(e: Envelope, public: Bytes, s: Scheme, isTime: string -> bool): Option<Json> {
    match OpenEnvelope(e, public, s)
    case None => None
    case Some(bytes) =>
      match ParseObject(bytes, MAXIMUM_PAYLOAD_BYTES)
      case None => None
      case Some(payload) =>
        if Some(bytes) == CanonicalBytes(payload) && ValidPayload(payload, isTime) then Some(payload) else None
  }

  method SignManifestPayload(payload: Json, key: Bytes, s: Scheme, isTime: string -> bool) returns (r: Option<Envelope>)
    ensures r == Signed(payload, key, s, isTime)
  {
    hide EnvelopeOf, CanonicalBytes;
    var valid := ValidatePayload(payload, isTime);
    if !valid {
      return None;
    }
    var bytes := CanonicalBytes(payload);
    if bytes.None? {
      return None;
    }
    r := Some(EnvelopeOf(bytes.value, key, s));
  }

  method VerifyManifestEnvelope(e: Envelope, public: Bytes, s: Scheme, isTime: string -> bool) returns (r: Option<Json>)
    ensures r == Verified(e, public, s, isTime)
  {
    hide OpenEnvelope, ParseObject, CanonicalBytes;
    var bytes := OpenEnvelope(e, public, s);
    if bytes.None? {
      return None;
    }
    var payload := ParseObject(bytes.value, MAXIMUM_PAYLOAD_BYTES);
    if payload.None? || Some(bytes.value) != CanonicalBytes(payload.value) {
      return None;
    }
    var valid := ValidatePayload(payload.value, isTime);
    r := if valid then payload else None;
  }

  // ---------- laws

  lemma SealedKeys(bytes: Bytes, signature: Bytes, keyId: string)
    ensures SealedBy(bytes, signature, keyId).Keys == ENVELOPE_FIELDS
  {
    hide Encode;
  }

  /** An envelope opens to some bytes exactly when it seals them, under the key's name, with a signature
      that verifies. */
  lemma OpensExactly(e: Envelope, public: Bytes, s: Scheme, bytes: Bytes)
    ensures OpenEnvelope(e, public, s) == Some(bytes) <==>
      && Characters.LowerHex64(s.keyId(public)) && 0 < |bytes| <= 393216
      && exists signature :: Seals(e, public, s, bytes, signature)
  {
    hide Encode, StrictDecode, Characters.LowerHex64;
    if OpenEnvelope(e, public, s) == Some(bytes) {
      var signature := FieldBytes(e, "signature_b64", 64).value;
      StrictDecodeExactly(e["payload_b64"].s, MAXIMUM_PAYLOAD_BYTES, bytes);
      StrictDecodeExactly(e["signature_b64"].s, 64, signature);
      SealedKeys(bytes, signature, s.keyId(public));
      assert Seals(e, public, s, bytes, signature);
    }
    if 0 < |bytes| <= MAXIMUM_PAYLOAD_BYTES && exists signature :: Seals(e, public, s, bytes, signature) {
      var signature :| Seals(e, public, s, bytes, signature);
      StrictDecodeExactly(Encode(bytes), MAXIMUM_PAYLOAD_BYTES, bytes);
      StrictDecodeExactly(Encode(signature), 64, signature);
      SealedKeys(bytes, signature, s.keyId(public));
    }
  }

  ghost predicate Seals(e: Envelope, public: Bytes, s: Scheme, bytes: Bytes, signature: Bytes) {
    && |signature| == 64 && s.verify(public, signature, bytes)
    && e == map["schema" := String("visionforge-publishable-release-manifest-envelope-v1"),
                "algorithm" := String("Ed25519"), "key_id" := String(s.keyId(public)),
                "payload_b64" := String(Encode(bytes)), "signature_b64" := String(Encode(signature))]
  }

  /** A parsed payload is canonical exactly when it is the one the bytes print. */
  lemma CanonicalExactly(bytes: Bytes, payload: Json)
    ensures ParseObject(bytes, MAXIMUM_PAYLOAD_BYTES) == Some(payload) && CanonicalBytes(payload) == Some(bytes)
      <==> payload.Object? && Plain(payload) && CanonicalBytes(payload) == Some(bytes)
  {
    hide Print, Parse, ToBytes, FromBytes, Plain;
    if ParseObject(bytes, MAXIMUM_PAYLOAD_BYTES) == Some(payload) {
      ParsePlain(FromBytes(bytes).value);
    }
    if Plain(payload) && CanonicalBytes(payload) == Some(bytes) {
      ParsePrint(payload);
      DecodeEncodeText(Print(payload));
    }
  }

  /** The canonical bytes are those of the printed value, at most 384 KiB of them. */
  lemma CanonicalBytesExactly(payload: Json, bytes: Bytes)
    ensures CanonicalBytes(payload) == Some(bytes) <==> bytes == ToBytes(Print(payload)) && |bytes| <= 393216
  {
    hide Print, ToBytes;
  }

  lemma PayloadIsObject(payload: Json, isTime: string -> bool)
    requires ValidPayload(payload, isTime)
    ensures payload.Object?
  {
  }

  lemma NotEmpty(v: Json)
    requires Plain(v)
    ensures ToBytes(Print(v)) != []
  {
    hide Print;
    PrintStarts(v);
  }

  // ---------- valid payloads hold no float

  /** Every object in the value is a dictionary, listed by rising keys. */
  ghost predicate Dictionaries(v: Json)
    decreases v
  {
    match v
    case Array(items) => forall i :: 0 <= i < |items| ==> Dictionaries(items[i])
    case Object(fields) => Sorted(fields) && forall i :: 0 <= i < |fields| ==> Dictionaries(fields[i].value)
    case _ => true
  }

  lemma {:induction false} PlainDictionaries(v: Json)
    requires Plain(v)
    ensures Dictionaries(v)
    decreases v
  {
    match v
    case Array(items) =>
      forall i | 0 <= i < |items| ensures Dictionaries(items[i]) { PlainDictionaries(items[i]); }
    case Object(fields) =>
      forall i | 0 <= i < |fields| ensures Dictionaries(fields[i].value) { PlainDictionaries(fields[i].value); }
    case _ =>
  }

  lemma {:induction false} FindAt(fields: seq<Field>, i: nat)
    requires i < |fields| && Sorted(fields)
    ensures Find(fields, fields[i].key) == Some(fields[i].value)
  {
    if i < |fields| - 1 {
      BeforeTrichotomy(fields[i].key, fields[|fields| - 1].key);
      FindAt(fields[..|fields| - 1], i);
    }
  }

  lemma {:induction false} FoundDictionaries(fields: seq<Field>, key: string)
    requires forall i :: 0 <= i < |fields| ==> Dictionaries(fields[i].value)
    ensures Find(fields, key).Some? ==> Dictionaries(Find(fields, key).value)
  {
    hide Dictionaries;
    if fields != [] { FoundDictionaries(fields[..|fields| - 1], key); }
  }

  lemma GetDictionaries(v: Json, key: string)
    requires v.Object? && Dictionaries(v)
    ensures Dictionaries(Get(v, key))
  {
    FoundDictionaries(v.fields, key);
  }

  /** An object whose members are plain is plain. */
  lemma MembersPlain(v: Json)
    requires v.Object? && Dictionaries(v) && forall key :: key in Keys(v.fields) ==> Plain(Get(v, key))
    ensures Plain(v)
  {
    hide Dictionaries, Sorted;
    SortedFields(v);
    forall i | 0 <= i < |v.fields| ensures Plain(v.fields[i].value) {
      FindAt(v.fields, i);
      assert v.fields[i] in v.fields && v.fields[i].key in Keys(v.fields);
    }
  }

  lemma SortedFields(v: Json)
    requires v.Object? && Dictionaries(v)
    ensures Sorted(v.fields)
  {
  }

  lemma EntryPlain(item: Json, fields: set<string>)
    requires SizedHashEntry(item, fields) && Dictionaries(item)
    requires fields == ARTIFACT_FIELDS || fields == EVIDENCE_FILE_FIELDS
    requires "role" in fields ==> Get(item, "role").String?
    ensures Plain(item)
  {
    hide Dictionaries, Get, SafeArchivePath, JsonValue.Digest;
    DigestIsText(Get(item, "sha256"));
    PathIsText(Get(item, "archive_path"));
    forall key | key in Keys(item.fields) ensures Plain(Get(item, key)) {
      assert key == "role" || key == "archive_path" || key == "size" || key == "sha256";
    }
    MembersPlain(item);
  }

  lemma DigestIsText(value: Json)
    requires JsonValue.Digest(value)
    ensures value.String?
  {
  }

  lemma PathIsText(value: Json)
    requires SafeArchivePath(value)
    ensures value.String?
  {
  }

  lemma ArtifactsPlain(value: Json)
    requires ValidArtifacts(value) && Dictionaries(value)
    ensures Plain(value)
  {
    hide Get, SizedHashEntry;
    forall i | 0 <= i < |value.items| ensures Plain(value.items[i]) {
      EntryPlain(value.items[i], ARTIFACT_FIELDS);
    }
  }

  lemma FilesPlain(files: Json, prefix: string)
    requires files.Array? && Dictionaries(files)
    requires forall i :: 0 <= i < |files.items| ==> EvidenceFile(files.items[i], prefix)
    ensures Plain(files)
  {
    hide Get, SizedHashEntry;
    forall i | 0 <= i < |files.items| ensures Plain(files.items[i]) {
      assert EvidenceFile(files.items[i], prefix);
      NoRole();
      EntryPlain(files.items[i], EVIDENCE_FILE_FIELDS);
    }
  }

  lemma NoRole()
    ensures "role" !in EVIDENCE_FILE_FIELDS
  {
    assert "role"[0] != "archive_path"[0] && "role"[0] != "size"[0] && "role"[0] != "sha256"[0];
  }

  lemma SourcesPlain(value: Json)
    requires ValidEvidenceSources(value) && Dictionaries(value)
    ensures Plain(value)
  {
    hide Dictionaries, Get, SafeArchivePath, EvidenceFile, DirectoryPrefix;
    GetDictionaries(value, "files");
    PathIsText(Get(value, "archive_path"));
    FilesPlain(Get(value, "files"), DirectoryPrefix(Get(value, "archive_path").s));
    forall key | key in Keys(value.fields) ensures Plain(Get(value, key)) {
      assert key == "role" || key == "archive_path" || key == "file_count" || key == "size" || key == "files";
    }
    MembersPlain(value);
  }

  /** What the validator accepts is plain once its objects are dictionaries: every leaf has a checked type. */
  lemma ValidIsPlain(payload: Json, isTime: string -> bool)
    requires ValidPayload(payload, isTime) && Dictionaries(payload)
    ensures Plain(payload)
  {
    hide Dictionaries, Get, ValidArtifacts, ValidEvidenceSources, NumericVersion, TupleAtMost;
    GetDictionaries(payload, "artifacts");
    GetDictionaries(payload, "evidence_sources");
    ArtifactsPlain(Get(payload, "artifacts"));
    SourcesPlain(Get(payload, "evidence_sources"));
    VersionIsText(Get(payload, "release_version"));
    VersionIsText(Get(payload, "min_supported_version"));
    forall key | key in Keys(payload.fields) ensures Plain(Get(payload, key)) {
      assert key in PAYLOAD_FIELDS;
    }
    MembersPlain(payload);
  }

  lemma VersionIsText(value: Json)
    requires NumericVersion(value).Some?
    ensures value.String?
  {
  }

  // ---------- what is accepted

  /** An envelope is accepted as a payload exactly when the payload is valid and the envelope seals its
      canonical bytes. So each payload has exactly one accepted byte string. */
  lemma VerifiedExactly(e: Envelope, public: Bytes, s: Scheme, isTime: string -> bool, payload: Json)
    ensures Verified(e, public, s, isTime) == Some(payload) <==>
      && ValidPayload(payload, isTime) && Dictionaries(payload)
      && CanonicalBytes(payload).Some? && Characters.LowerHex64(s.keyId(public))
      && exists signature :: Seals(e, public, s, CanonicalBytes(payload).value, signature)
  {
    hide ParseObject, OpenEnvelope, ValidPayload, Plain, Dictionaries, Seals, Print, ToBytes, Characters.LowerHex64;
    var inside := OpenEnvelope(e, public, s);
    if inside.Some? {
      OpensExactly(e, public, s, inside.value);
      CanonicalExactly(inside.value, payload);
    }
    if ValidPayload(payload, isTime) { PayloadIsObject(payload, isTime); }
    if ValidPayload(payload, isTime) && Dictionaries(payload) { ValidIsPlain(payload, isTime); }
    if Plain(payload) { PlainDictionaries(payload); }
    if Plain(payload) && CanonicalBytes(payload).Some? {
      NotEmpty(payload);
      OpensExactly(e, public, s, CanonicalBytes(payload).value);
    }
  }

  /** Signing then verifying with the key's public half returns the payload. */
  lemma VerifySigned(payload: Json, key: Bytes, s: Scheme, isTime: string -> bool)
    requires Lawful(s) && Dictionaries(payload) && Signed(payload, key, s, isTime).Some?
    ensures Verified(Signed(payload, key, s, isTime).value, s.public(key), s, isTime) == Some(payload)
  {
    hide Print, ToBytes, Encode, ValidPayload, Dictionaries, Verified, Characters.LowerHex64;
    var e, bytes := Signed(payload, key, s, isTime).value, CanonicalBytes(payload).value;
    assert Seals(e, s.public(key), s, bytes, s.sign(key, bytes));
    VerifiedExactly(e, s.public(key), s, isTime, payload);
  }
}
