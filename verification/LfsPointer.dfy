/** Git LFS pointers: printed by tools/verify_no_plaintext_model_assets.py, parsed by
    tools/check_private_artifact_source_boundary.py. Files are texts with one character per byte. */
module LfsPointer {
  import opened Wrappers
  import opened Names
  import ArtifactLock
  import Characters

  /** `_canonical_lfs_pointer` */
  function Print(size: nat, digest: string): string {
    ArtifactLock.LFS_PREFIX + "\n" + ("oid sha256:" + digest) + "\n" + ("size " + Decimal(size)) + "\n"
  }

  predicate Ascii(data: string) {
    forall i :: 0 <= i < |data| ==> data[i] < '\U{0080}'
  }

  /** `text.replace("\r\n", "\n")` */
  function Unix(text: string): string {
    if |text| < 2 then text
    else if text[0] == '\r' && text[1] == '\n' then "\n" + Unix(text[2..])
    else [text[0]] + Unix(text[1..])
  }

  /** The line boundaries of `str.splitlines` below 128. */
  predicate Breaks(c: char) {
    var u := c as int;
    10 <= u <= 13 || 28 <= u <= 30
  }

  function LineLength(text: string): (n: nat)
    ensures n <= |text|
  {
    if text == "" || Breaks(text[0]) then 0 else 1 + LineLength(text[1..])
  }

  /** `text.splitlines()`: a carriage return and a newline end a line together. */
  function SplitLines(text: string): seq<string>
    decreases |text|
  {
    if text == "" then []
    else
      var n := LineLength(text);
      var width := if n + 1 < |text| && text[n] == '\r' && text[n + 1] == '\n' then 2 else 1;
      [text[..n]] + (if n + width <= |text| then SplitLines(text[n + width..]) else [])
  }

  /** `_parse_lfs_pointer`: the digest and the size. */
  function Parse(data: string): Option<(string, nat)> {
    if !Ascii(data) then None
    else
      var lines := SplitLines(Unix(data));
      if |lines| != 3 || lines[0] != ArtifactLock.LFS_PREFIX then None
      else if !("oid sha256:" <= lines[1]) || !("size " <= lines[2]) then None
      else
        var digest, size := lines[1][11..], lines[2][5..];
        if !Characters.LowerHex64(digest) || size == "" || !AllDigits(size) || size[0] == '0' then None
        else Some((digest, DecimalValue(size)))
  }

  function PointerLines(size: nat, digest: string): seq<string> {
    [ArtifactLock.LFS_PREFIX, "oid sha256:" + digest, "size " + Decimal(size)]
  }

  /** A pointer names a digest and size exactly when its three lines print them: the line ends, and
      whether the last line has one, are all that is free. */
  lemma ParseExactly(data: string, size: nat, digest: string)
    ensures Parse(data) == Some((digest, size)) <==>
      && Ascii(data) && Characters.LowerHex64(digest) && size > 0
      && SplitLines(Unix(data)) == PointerLines(size, digest)
  {
    hide SplitLines, Unix, Ascii, Decimal, DecimalValue, Characters.LowerHex64;
    var lines := SplitLines(Unix(data));
    DecimalRoundTrip(size);
    if Parse(data) == Some((digest, size)) {
      var text := lines[2][5..];
      DecimalOnto(text);
      DecimalRoundTrip(size);
      assert lines[1] == "oid sha256:" + digest && lines[2] == "size " + text;
      assert lines == [lines[0], lines[1], lines[2]];
    }
    if lines == PointerLines(size, digest) {
      assert lines[1][11..] == digest && lines[2][5..] == Decimal(size);
    }
  }

  // ---------- line ends

  ghost predicate OneLine(text: string) {
    forall i :: 0 <= i < |text| ==> !Breaks(text[i])
  }

  lemma {:induction false} LineLengthOf(line: string, rest: string)
    requires OneLine(line)
    ensures LineLength(line + "\n" + rest) == |line|
  {
    var text := line + "\n" + rest;
    if line == "" {
      assert text[0] == '\n';
    } else {
      assert text[0] == line[0] && text[1..] == line[1..] + "\n" + rest;
      LineLengthOf(line[1..], rest);
    }
  }

  lemma FirstLine(line: string, rest: string)
    requires OneLine(line)
    ensures SplitLines(line + "\n" + rest) == [line] + SplitLines(rest)
  {
    var text := line + "\n" + rest;
    LineLengthOf(line, rest);
    assert text[..|line|] == line && text[|line|] == '\n' && text[|line| + 1..] == rest;
  }

  lemma ThreeLines(a: string, b: string, c: string)
    requires OneLine(a) && OneLine(b) && OneLine(c)
    ensures SplitLines(a + "\n" + b + "\n" + c + "\n") == [a, b, c]
  {
    hide SplitLines;
    assert a + "\n" + b + "\n" + c + "\n" == a + "\n" + (b + "\n" + (c + "\n" + ""));
    FirstLine(a, b + "\n" + (c + "\n" + ""));
    FirstLine(b, c + "\n" + "");
    FirstLine(c, "");
    NoLines();
  }

  lemma NoLines()
    ensures SplitLines("") == []
  {
  }

  /** The same text with carriage returns before its newlines. */
  function Windows(text: string): string {
    if text == "" then "" else (if text[0] == '\n' then "\r\n" else [text[0]]) + Windows(text[1..])
  }

  lemma {:induction false} UnixUndoesWindows(text: string)
    requires '\r' !in text
    ensures Unix(Windows(text)) == text
  {
    if text != "" {
      var rest := Windows(text[1..]);
      UnixUndoesWindows(text[1..]);
      if text[0] == '\n' {
        assert Windows(text) == ['\r', '\n'] + rest;
        assert Windows(text)[2..] == rest;
      } else {
        assert Windows(text) == [text[0]] + rest;
        assert Windows(text)[1..] == rest;
        if rest != "" {
          assert Unix(Windows(text)) == [text[0]] + Unix(rest);
        } else {
          assert Windows(text[1..]) == "" ==> text[1..] == "";
        }
      }
    }
  }

  lemma {:induction false} UnixKeeps(text: string)
    requires '\r' !in text
    ensures Unix(text) == text
  {
    if |text| >= 2 { UnixKeeps(text[1..]); }
  }

  lemma {:induction false} WindowsAscii(text: string)
    requires Ascii(text)
    ensures Ascii(Windows(text))
  {
    if text != "" {
      WindowsAscii(text[1..]);
      Plain(if text[0] == '\n' then "\r\n" else [text[0]], Windows(text[1..]));
    }
  }

  // ---------- across the two tools

  lemma HexIsPlain(digest: string)
    requires Characters.LowerHex64(digest)
    ensures Ascii(digest) && OneLine(digest)
  {
  }

  lemma DigitsArePlain(digits: string)
    requires AllDigits(digits)
    ensures Ascii(digits) && OneLine(digits)
  {
  }

  lemma Plain(a: string, b: string)
    ensures Ascii(a + b) <==> Ascii(a) && Ascii(b)
    ensures OneLine(a + b) <==> OneLine(a) && OneLine(b)
  {
    var ab := a + b;
    assert forall i :: 0 <= i < |a| ==> ab[i] == a[i];
    assert forall i :: 0 <= i < |b| ==> ab[|a| + i] == b[i];
    assert forall i :: |a| <= i < |ab| ==> ab[i] == b[i - |a|];
  }

  lemma Constants()
    ensures Ascii(ArtifactLock.LFS_PREFIX) && OneLine(ArtifactLock.LFS_PREFIX) && Ascii("oid sha256:")
      && OneLine("oid sha256:")
    ensures Ascii("size ") && OneLine("size ") && Ascii("\n")
  {
    hide Ascii, OneLine;
    VersionIsPlain();
    ShortConstants();
  }

  lemma ShortConstants()
    ensures Ascii("oid sha256:") && OneLine("oid sha256:")
    ensures Ascii("size ") && OneLine("size ") && Ascii("\n")
  {
  }

  lemma VersionIsPlain()
    ensures Ascii(ArtifactLock.LFS_PREFIX) && OneLine(ArtifactLock.LFS_PREFIX)
  {
    hide Ascii, OneLine;
    var a, b, c := "version https:", "//git-lfs.github", ".com/spec/v1";
    assert ArtifactLock.LFS_PREFIX == a + b + c;
    VersionParts();
    Plain(a, b);
    Plain(a + b, c);
  }

  lemma VersionParts()
    ensures Ascii("version https:") && OneLine("version https:")
    ensures Ascii("//git-lfs.github") && OneLine("//git-lfs.github")
    ensures Ascii(".com/spec/v1") && OneLine(".com/spec/v1")
  {
  }

  lemma PrintedLines(size: nat, digest: string)
    requires Characters.LowerHex64(digest)
    ensures Ascii(Print(size, digest)) && '\r' !in Print(size, digest)
    ensures SplitLines(Print(size, digest)) == PointerLines(size, digest)
  {
    hide SplitLines, Decimal, Ascii, OneLine;
    Constants();
    HexIsPlain(digest);
    DecimalRoundTrip(size);
    DigitsArePlain(Decimal(size));
    var a, b, c := ArtifactLock.LFS_PREFIX, "oid sha256:" + digest, "size " + Decimal(size);
    Plain("oid sha256:", digest);
    Plain("size ", Decimal(size));
    ThreeLines(a, b, c);
    Plain(a, "\n");
    Plain(a + "\n", b);
    Plain(a + "\n" + b, "\n");
    Plain(a + "\n" + b + "\n", c);
    Plain(a + "\n" + b + "\n" + c, "\n");
    NoReturn(a);
    NoReturn(b);
    NoReturn(c);
  }

  lemma NoReturn(line: string)
    requires OneLine(line)
    ensures '\r' !in line
  {
  }

  /** What one tool prints the other reads back, also with CRLF line ends, for every lower-case digest
      and exactly the positive sizes. */
  lemma ParsePrint(size: nat, digest: string)
    requires Characters.LowerHex64(digest)
    ensures Parse(Print(size, digest)) == (if size > 0 then Some((digest, size)) else None)
    ensures Parse(Windows(Print(size, digest))) == Parse(Print(size, digest))
  {
    hide Parse, Print, SplitLines, Windows, Unix, Ascii, Characters.LowerHex64;
    var text := Print(size, digest);
    PrintedLines(size, digest);
    UnixKeeps(text);
    UnixUndoesWindows(text);
    WindowsAscii(text);
    ParseExactly(text, size, digest);
    ParseExactly(Windows(text), size, digest);
    if size == 0 {
      ZeroRefused(text, digest);
      ZeroRefused(Windows(text), digest);
    }
  }

  lemma ZeroRefused(data: string, digest: string)
    requires SplitLines(Unix(data)) == PointerLines(0, digest)
    ensures Parse(data) == None
  {
    hide SplitLines, Unix;
    var lines := SplitLines(Unix(data));
    assert lines[2] == "size 0" && lines[2][5..] == "0";
  }

  /** A pointer file holds exactly the printed bytes for one size and digest at most. */
  lemma PrintedPointersDiffer(size1: nat, digest1: string, size2: nat, digest2: string)
    requires Characters.LowerHex64(digest1) && Characters.LowerHex64(digest2) && size1 > 0 && size2 > 0
    requires Print(size1, digest1) == Print(size2, digest2)
    ensures size1 == size2 && digest1 == digest2
  {
    hide Parse, Print;
    ParsePrint(size1, digest1);
    ParsePrint(size2, digest2);
  }
}
