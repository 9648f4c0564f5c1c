/** Which archive-local paths are accepted, and why they cannot leave the archive root,
    tools/dual_machine_cryptographic_evidence.py. */
module ArchivePaths {
  import opened Wrappers
  import opened Paths
  import opened JsonValue

  const MAX_PATH_LENGTH: nat := 1024

  predicate PlainPart(part: string) {
    part != "" && part != "." && part != ".."
  }

  /** `_validate_archive_path`: the parts, or the code of the first test that fails. A Windows drive
      is any second character `:`; roots and shares start with a separator and are refused before. */
  function ValidateArchivePath(value: Json): Result<seq<string>, string> {
    if !value.String? then Err("path_type")
    else
      var text := value.s;
      if text == "" || |text| > MAX_PATH_LENGTH then Err("path_invalid")
      else if '\0' in text || '\\' in text then Err("path_invalid")
      else if text[0] == '/' then Err("path_absolute")
      else if |text| >= 2 && text[1] == ':' then Err("path_absolute")
      else
        var parts := Split(text, '/');
        if exists i :: 0 <= i < |parts| && !PlainPart(parts[i]) then Err("path_traversal")
        else if exists i :: 0 <= i < |parts| && ':' in parts[i] then Err("path_invalid")
        else Ok(parts)
  }

  /** `os.path.abspath` on the parts of an absolute path: `..` climbs, `.` and empty parts vanish. */
  function Normalize(parts: seq<string>): seq<string> {
    if parts == [] then []
    else
      var before, last := Normalize(parts[..|parts| - 1]), parts[|parts| - 1];
      if last == "" || last == "." then before
      else if last == ".." then (if before == [] then [] else before[..|before| - 1])
      else before + [last]
  }

  /** `os.path.commonpath` of two absolute normalized paths. */
  function CommonPath(a: seq<string>, b: seq<string>): seq<string> {
    if a == [] || b == [] || a[0] != b[0] then [] else [a[0]] + CommonPath(a[1..], b[1..])
  }

  /** `_archive_path`: the re-joined text, after the check that the path stays inside the root. */
  function ArchivePath(root: seq<string>, value: Json): Result<string, string> {
    match ValidateArchivePath(value)
    case Err(code) => Err(code)
    case Ok(parts) =>
      if CommonPath(Normalize(root), Normalize(root + parts)) == Normalize(root)
        then Ok(Join(parts, '/')) else Err("path_escape")
  }

  lemma {:induction false} PlainPartsStay(root: seq<string>, parts: seq<string>)
    requires forall i :: 0 <= i < |parts| ==> PlainPart(parts[i])
    ensures Normalize(root + parts) == Normalize(root) + parts
  {
    if parts == [] {
      assert root + parts == root;
    } else {
      var init := parts[..|parts| - 1];
      assert (root + parts)[..|root + parts| - 1] == root + init;
      PlainPartsStay(root, init);
    }
  }

  lemma {:induction false} CommonWithExtension(a: seq<string>, more: seq<string>)
    ensures CommonPath(a, a + more) == a
  {
    if a != [] {
      assert (a + more)[1..] == a[1..] + more;
      CommonWithExtension(a[1..], more);
    }
  }

  /** The tests in plain words: a text of 1 to 1024 characters without NUL, backslash or colon,
      whose slash-separated parts are none of empty, `.` and `..`. */
  ghost predicate LocalPath(text: string) {
    && 0 < |text| <= 1024
    && '\0' !in text && '\\' !in text && ':' !in text
    && forall i :: 0 <= i < |Split(text, '/')| ==> Split(text, '/')[i] !in {"", ".", ".."}
  }

  lemma {:induction false} JoinedHas(parts: seq<string>, sep: char, c: char)
    requires c != sep
    ensures c in Join(parts, sep) <==> exists i :: 0 <= i < |parts| && c in parts[i]
  {
    if |parts| == 1 {
      assert c in parts[0] <==> exists i :: 0 <= i < |parts| && c in parts[i];
    } else if |parts| > 1 {
      var init, last := parts[..|parts| - 1], parts[|parts| - 1];
      JoinedHas(init, sep, c);
      assert c in Join(parts, sep) <==> c in Join(init, sep) || c in last;
      if exists i :: 0 <= i < |init| && c in init[i] {
        var i :| 0 <= i < |init| && c in init[i];
        assert c in parts[i];
      }
    }
  }

  lemma {:induction false} LeadingSeparator(text: string, sep: char)
    requires text != "" && text[0] == sep
    ensures Split(text, sep)[0] == ""
  {
    var init := text[..|text| - 1];
    if init == [] {
      assert Split(text, sep) == [""] + [""];
    } else {
      LeadingSeparator(init, sep);
      assert |Split(init, sep)| > 1 by { SeparatorCounts(init, sep); }
    }
  }

  lemma {:induction false} SeparatorCounts(text: string, sep: char)
    requires sep in text
    ensures |Split(text, sep)| > 1
  {
    var init, last := text[..|text| - 1], text[|text| - 1];
    assert text == init + [last];
    if last != sep { SeparatorCounts(init, sep); }
  }

  /** The validator's tests, in the order it makes them, leave exactly the local paths. */
  lemma LocalPathsPass(text: string)
    ensures ValidateArchivePath(String(text)).Ok? <==> LocalPath(text)
    ensures var r := ValidateArchivePath(String(text));
      r.Ok? ==> r.value == Split(text, '/') && Join(r.value, '/') == text
  {
    hide Split, Join;
    if text != "" {
      JoinSplit(text, '/');
      ColonsAndRoots(text);
    }
  }

  lemma ColonsAndRoots(text: string)
    requires text != ""
    ensures var parts := Split(text, '/');
      && (':' in text <==> exists i :: 0 <= i < |parts| && ':' in parts[i])
      && (text[0] == '/' ==> !PlainPart(parts[0]))
  {
    hide Split, Join;
    JoinSplit(text, '/');
    JoinedHas(Split(text, '/'), '/', ':');
    if text[0] == '/' { LeadingSeparator(text, '/'); }
  }

  /** Exactly the local paths are accepted. Each re-joins to itself, names a place strictly under the
      root, and so the escape test behind it never fires. */
  lemma AcceptedPaths(root: seq<string>, value: Json)
    ensures ArchivePath(root, value).Ok? <==> value.String? && LocalPath(value.s)
    ensures ArchivePath(root, value) != Err("path_escape")
    ensures ArchivePath(root, value).Ok? ==>
      && ArchivePath(root, value).value == value.s
      && Normalize(root + Split(value.s, '/')) == Normalize(root) + Split(value.s, '/')
  {
    if value.String? {
      LocalPathsPass(value.s);
      if LocalPath(value.s) {
        PlainPartsStay(root, Split(value.s, '/'));
        CommonWithExtension(Normalize(root), Split(value.s, '/'));
      }
    }
  }
}
