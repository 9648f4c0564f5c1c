/** Which bytes a file may hold to be read as a Git LFS pointer. */
module LfsBytes {
  import opened Wrappers
  import opened Names
  import opened LfsPointer
  import Characters

  /** What ends a line: one of seven control characters, a carriage return and a newline, or two carriage
      returns and a newline, of which the reader makes a carriage return and a newline first. */
  const ENDS: set<string> := {"\n", "\U{0B}", "\U{0C}", "\r", "\U{1C}", "\U{1D}", "\U{1E}", "\r\n", "\r\r\n"}

  /** Three lines: the version, the digest in 64 small hexadecimal digits, and the positive size in decimal
      without leading zeros. Only the last line may lack its end. */
  ghost predicate PointerFile(data: string, size: nat, digest: string) {
    exists e1, e2, e3 :: PointerWith(data, size, digest, e1, e2, e3)
  }

  ghost predicate PointerWith(data: string, size: nat, digest: string, e1: string, e2: string, e3: string) {
    && e1 in ENDS && e2 in ENDS && (e3 in ENDS || e3 == "")
    && size > 0 && Characters.LowerHex64(digest)
    && data == "version https://git-lfs.github.com/spec/v1" + e1 + "oid sha256:" + digest + e2
               + "size " + Decimal(size) + e3
  }

  /** How long the end at the head of a text is. */
  function EndWidth(s: string): nat
    requires s != ""
  {
    if |s| >= 3 && s[0] == '\r' && s[1] == '\r' && s[2] == '\n' then 3
    else if |s| >= 2 && s[0] == '\r' && s[1] == '\n' then 2
    else 1
  }

  predicate StartsPair(s: string) {
    |s| >= 2 && s[0] == '\r' && s[1] == '\n'
  }

  lemma UnixStep(s: string)
    requires s != "" && !StartsPair(s)
    ensures Unix(s) == [s[0]] + Unix(s[1..])
  {
    if |s| == 1 { assert s[1..] == "" && s == [s[0]]; }
  }

  lemma UnixPair(s: string)
    requires StartsPair(s)
    ensures Unix(s) == "\n" + Unix(s[2..])
  {
  }

  lemma OneLineTail(line: string)
    requires OneLine(line) && line != ""
    ensures OneLine(line[1..]) && !Breaks(line[0])
  {
  }

  lemma {:induction false} UnixLine(line: string, t: string)
    requires OneLine(line)
    ensures Unix(line + t) == line + Unix(t)
  {
    hide Unix;
    var data := line + t;
    if line == "" {
      assert data == t;
    } else {
      OneLineTail(line);
      UnixStep(data);
      assert data[1..] == line[1..] + t;
      UnixLine(line[1..], t);
    }
  }

  lemma UnixHead(s: string)
    requires s != "" && Breaks(s[0])
    ensures var t, w := Unix(s), EndWidth(s);
      && t != "" && Breaks(t[0]) && w <= |s|
      && (if StartsPair(t) then Unix(s[w..]) == t[2..] else Unix(s[w..]) == t[1..])
  {
    hide Unix;
    if StartsPair(s) {
      UnixPair(s);
    } else {
      UnixStep(s);
      var rest := s[1..];
      if rest == "" {
        UnixNothing();
      } else if StartsPair(rest) {
        UnixPair(rest);
        assert rest[2..] == s[3..];
      } else {
        UnixStep(rest);
      }
    }
  }

  /** Every text is a first line and what ends it. */
  lemma {:induction false} FirstBreak(text: string) returns (line: string, t: string)
    ensures text == line + t && OneLine(line) && (t != "" ==> Breaks(t[0]))
  {
    if text == "" || Breaks(text[0]) {
      line, t := "", text;
    } else {
      line, t := FirstBreak(text[1..]);
      LongerLine(text[0], line);
      line := [text[0]] + line;
    }
  }

  lemma LongerLine(c: char, line: string)
    requires !Breaks(c) && OneLine(line)
    ensures OneLine([c] + line)
  {
  }

  lemma {:induction false} LineLengthIs(line: string, t: string)
    requires OneLine(line) && (t != "" ==> Breaks(t[0]))
    ensures LineLength(line + t) == |line|
  {
    if line == "" {
      assert line + t == t;
    } else {
      OneLineTail(line);
      assert (line + t)[1..] == line[1..] + t;
      LineLengthIs(line[1..], t);
    }
  }

  /** The lines of a text that begins with one line and its end. */
  lemma BrokenLine(line: string, t: string)
    requires OneLine(line) && t != "" && Breaks(t[0])
    ensures EndWidth(t) <= |t| && t[..EndWidth(t)] in ENDS
    ensures SplitLines(Unix(line + t)) == [line] + SplitLines(Unix(t[EndWidth(t)..]))
  {
    hide Unix, SplitLines, EndWidth, OneLine, ENDS;
    UnixLine(line, t);
    UnixHead(t);
    EndInEnds(t);
    LinesHead(line, Unix(t));
  }

  lemma WholeLine(line: string)
    requires line != "" && OneLine(line)
    ensures SplitLines(Unix(line)) == [line]
  {
    UnixLine(line, "");
    UnixNothing();
    LinesWhole(line);
    hide *;
    assert line + "" == line;
  }

  lemma UnixNothing()
    ensures Unix("") == ""
  {
  }

  lemma EndInEnds(s: string)
    requires s != "" && Breaks(s[0])
    ensures EndWidth(s) <= |s| && s[..EndWidth(s)] in ENDS
  {
    var end := s[..EndWidth(s)];
    if |end| == 3 {
      assert end == "\r\r\n";
    } else if |end| == 2 {
      assert end == "\r\n";
    } else {
      assert end == [s[0]];
    }
  }

  lemma LinesHead(line: string, t: string)
    requires OneLine(line) && t != "" && Breaks(t[0])
    ensures var rest := if StartsPair(t) then t[2..] else t[1..];
      SplitLines(line + t) == [line] + SplitLines(rest)
  {
    var text := line + t;
    LineLengthIs(line, t);
    assert text[..|line|] == line && text[|line|] == t[0] && text[|line| + 1..] == t[1..];
    if |t| >= 2 { assert text[|line| + 1] == t[1] && text[|line| + 2..] == t[2..]; }
  }

  lemma LinesWhole(line: string)
    requires line != "" && OneLine(line)
    ensures SplitLines(line) == [line]
  {
    assert line[..|line|] == line && line + "" == line;
    LineLengthIs(line, "");
  }

  /** The first line of a file, the end behind it and the rest, whose lines follow. */
  lemma NextLine(data: string) returns (end: string, rest: string)
    requires SplitLines(Unix(data)) != []
    ensures var lines := SplitLines(Unix(data));
      && data == lines[0] + (end + rest)
      && (end in ENDS || end == rest == "")
      && SplitLines(Unix(rest)) == lines[1..]
  {
    hide Unix, SplitLines, EndWidth, OneLine, ENDS, Breaks;
    UnixNothing();
    NoLines();
    var line, t := FirstBreak(data);
    if t == "" {
      assert line == data;
      WholeLine(line);
      end, rest := "", "";
      assert data == data + "" + "";
    } else {
      BrokenLine(line, t);
      end, rest := t[..EndWidth(t)], t[EndWidth(t)..];
      assert t == end + rest;
    }
  }

  lemma LineBefore(line: string, end: string, rest: string)
    requires OneLine(line) && end in ENDS && (rest != "" ==> !Breaks(rest[0]))
    ensures SplitLines(Unix(line + (end + rest))) == [line] + SplitLines(Unix(rest))
  {
    EndMeasured(end, rest);
    hide Unix, SplitLines, EndWidth, OneLine, ENDS, Breaks;
    BrokenLine(line, end + rest);
    assert (end + rest)[|end|..] == rest;
  }

  lemma EndMeasured(end: string, rest: string)
    requires end in ENDS && (rest != "" ==> !Breaks(rest[0]))
    ensures end + rest != "" && Breaks((end + rest)[0]) && EndWidth(end + rest) == |end|
  {
    if |end| == 1 && rest != "" { assert (end + rest)[1] == rest[0]; }
    if |end| == 2 && rest != "" { assert (end + rest)[2] == rest[0]; }
  }

  lemma LastLine(line: string, end: string)
    requires line != "" && OneLine(line) && (end in ENDS || end == "")
    ensures SplitLines(Unix(line + end)) == [line]
  {
    hide Unix, SplitLines, EndWidth, OneLine, ENDS, Breaks;
    if end == "" {
      WholeLine(line);
      assert line + end == line;
    } else {
      LineBefore(line, end, "");
      UnixNothing();
      NoLines();
      assert line + (end + "") == line + end;
    }
  }

  /** A file is read as the pointer of a digest and a size exactly when it holds these bytes. */
  lemma BytesExactly(data: string, size: nat, digest: string)
    ensures Parse(data) == Some((digest, size)) <==> PointerFile(data, size, digest)
  {
    hide Parse, PointerFile;
    if Parse(data) == Some((digest, size)) { ParsedIsPointer(data, size, digest); }
    if PointerFile(data, size, digest) { PointerIsParsed(data, size, digest); }
  }

  lemma ParsedIsPointer(data: string, size: nat, digest: string)
    requires Parse(data) == Some((digest, size))
    ensures PointerFile(data, size, digest)
  {
    ParseExactly(data, size, digest);
    hide Parse, Unix, SplitLines, ENDS, Ascii, Characters.LowerHex64, Decimal;
    var e1, d1 := NextLine(data);
    NoLines();
    UnixNothing();
    var e2, d2 := NextLine(d1);
    var e3, d3 := NextLine(d2);
    if d3 != "" { SomeLine(d3); }
    assert data == "version https://git-lfs.github.com/spec/v1" + e1 + "oid sha256:" + digest + e2
                   + "size " + Decimal(size) + e3;
    assert PointerWith(data, size, digest, e1, e2, e3);
  }

  lemma SomeLine(data: string)
    requires data != ""
    ensures SplitLines(Unix(data)) != []
  {
    hide Unix, SplitLines, EndWidth, OneLine, ENDS, Breaks;
    var line, t := FirstBreak(data);
    if t == "" { assert line == data; WholeLine(line); } else { BrokenLine(line, t); }
  }

  lemma PointerIsParsed(data: string, size: nat, digest: string)
    requires PointerFile(data, size, digest)
    ensures Parse(data) == Some((digest, size))
  {
    hide Parse, Unix, SplitLines, ENDS, Ascii, OneLine, Characters.LowerHex64, Decimal;
    var e1, e2, e3 :| PointerWith(data, size, digest, e1, e2, e3);
    var lines := PointerLines(size, digest);
    PointerLinesPlain(size, digest);
    var tail := lines[2] + e3;
    var rest := lines[1] + (e2 + tail);
    assert data == lines[0] + (e1 + rest);
    LineBefore(lines[0], e1, rest);
    LineBefore(lines[1], e2, tail);
    LastLine(lines[2], e3);
    EndsPlain(e1);
    EndsPlain(e2);
    EndsPlain(e3);
    Plain(lines[2], e3);
    Plain(e2, tail);
    Plain(lines[1], e2 + tail);
    Plain(e1, rest);
    Plain(lines[0], e1 + rest);
    ParseExactly(data, size, digest);
  }

  lemma EndsPlain(end: string)
    requires end in ENDS || end == ""
    ensures Ascii(end)
  {
  }

  lemma PointerLinesPlain(size: nat, digest: string)
    requires Characters.LowerHex64(digest)
    ensures var lines := PointerLines(size, digest);
      && (forall k | 0 <= k < 3 :: Ascii(lines[k]) && OneLine(lines[k]) && lines[k] != "")
      && !Breaks(lines[1][0]) && !Breaks(lines[2][0])
  {
    hide Ascii, OneLine, Decimal, Characters.LowerHex64;
    Constants();
    HexIsPlain(digest);
    DecimalRoundTrip(size);
    DigitsArePlain(Decimal(size));
    Plain("oid sha256:", digest);
    Plain("size ", Decimal(size));
  }

  /** The pointer that is printed, newline for newline. */
  lemma PrintedBytes(size: nat, digest: string)
    ensures Print(size, digest)
         == "version https://git-lfs.github.com/spec/v1\noid sha256:" + digest + "\nsize " + Decimal(size) + "\n"
  {
    var a, b, c := "version https://git-lfs.github.com/spec/v1", "oid sha256:", "size ";
    assert a + "\n" + b == "version https://git-lfs.github.com/spec/v1\noid sha256:";
    assert "\n" + c == "\nsize ";
    var n := Decimal(size);
    hide *;
    Regroup(a, b, digest, c, n);
  }

  lemma Regroup(a: string, b: string, digest: string, c: string, n: string)
    ensures a + "\n" + (b + digest) + "\n" + (c + n) + "\n" == a + "\n" + b + digest + ("\n" + c) + n + "\n"
  {
  }
}
