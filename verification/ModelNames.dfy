/** Which file names and archive entry names the model scan refuses or reads, said by what they consist of. */
module ModelNames {
  import opened Wrappers
  import opened SourceTree
  import opened LockedBytes
  import ArtifactLock
  import LockTerms
  import PayloadTerms

  /** A letter in either case. */
  predicate EitherCase(c: char, letter: char) {
    c == letter || ('a' <= letter <= 'z' && c as int == letter as int - 32)
  }

  /** As a case-insensitive pattern has it: the dotted, dotless and long letters and the Kelvin sign too. */
  predicate AnyCase(c: char, letter: char) {
    || EitherCase(c, letter)
    || (letter == 'i' && c in {'\U{0130}', '\U{0131}'})
    || (letter == 's' && c == '\U{017F}')
    || (letter == 'k' && c == '\U{212A}')
  }

  /** Any name whose last five characters are `.onnx`, in either case. */
  ghost predicate OnnxFile(name: string) {
    exists stem, end :: name == stem + end && IsOnnx(end)
  }

  ghost predicate IsOnnx(end: string) {
    && |end| == 5 && end[0] == '.'
    && EitherCase(end[1], 'o') && EitherCase(end[2], 'n') && EitherCase(end[3], 'n') && EitherCase(end[4], 'x')
  }

  ghost predicate Reads(text: string, word: string) {
    |text| == |word| && forall i | 0 <= i < |word| :: AnyCase(text[i], word[i])
  }

  /** Letters, digits, underscore, dot and hyphen. */
  predicate Inner(c: char) {
    || '0' <= c <= '9' || c in {'_', '.', '-', '\U{0130}', '\U{0131}', '\U{017F}', '\U{212A}'}
    || 'a' <= c <= 'z' || 'A' <= c <= 'Z'
  }

  /** One of four beginnings, anything of such characters, and `w8a16.so`. */
  ghost predicate LibraryFile(name: string) {
    exists head, middle, tail :: LibraryParts(name, head, middle, tail)
  }

  ghost predicate LibraryParts(name: string, head: string, middle: string, tail: string) {
    && name == head + middle + tail
    && (Reads(head, "libcs2") || Reads(head, "libdelta") || Reads(head, "libow2") || Reads(head, "libvalorant"))
    && (forall i | 0 <= i < |middle| :: Inner(middle[i]))
    && Reads(tail, "w8a16.so")
  }

  lemma FoldExactly(c: char, letter: char)
    requires 'a' <= letter <= 'z' || '0' <= letter <= '9' || letter == '.'
    ensures Fold(c) == letter <==> AnyCase(c, letter)
    ensures NameChar(Fold(c)) <==> Inner(c)
  {
  }

  ghost predicate PlainWord(word: string) {
    forall i | 0 <= i < |word| :: 'a' <= word[i] <= 'z' || '0' <= word[i] <= '9' || word[i] == '.'
  }

  lemma ReadsExactly(text: string, word: string)
    requires PlainWord(word)
    ensures Reads(text, word) <==> FoldAll(text) == word
  {
    hide Fold, AnyCase;
    if |text| == |word| {
      forall i | 0 <= i < |word| ensures Fold(text[i]) == word[i] <==> AnyCase(text[i], word[i]) {
        FoldExactly(text[i], word[i]);
      }
      if FoldAll(text) == word {
        forall i | 0 <= i < |word| ensures AnyCase(text[i], word[i]) { assert FoldAll(text)[i] == Fold(text[i]); }
      }
    }
  }

  lemma WordsPlain()
    ensures PlainWord("w8a16.so") && forall start | start in LIBRARY_STARTS :: PlainWord(start)
  {
  }

  lemma LibraryExactly(name: string)
    ensures ModelLibrary(name) <==> LibraryFile(name)
  {
    hide Fold, AnyCase, Reads, Inner, PlainWord, NameChar;
    WordsPlain();
    if ModelLibrary(name) {
      var folded := FoldAll(name);
      var start :| start in LIBRARY_STARTS && start <= folded && |start| + 8 <= |folded| && EndsWith(folded, "w8a16.so")
        && forall i | |start| <= i < |folded| - 8 :: NameChar(folded[i]);
      LibraryCut(name, start);
    }
    if head, middle, tail :| LibraryParts(name, head, middle, tail) {
      LibraryJoined(name, head, middle, tail);
    }
  }

  lemma FoldSlice(name: string, i: nat, j: nat)
    requires i <= j <= |name|
    ensures FoldAll(name[i..j]) == FoldAll(name)[i..j]
  {
    hide Fold;
  }

  lemma LibraryCut(name: string, start: string)
    requires start in LIBRARY_STARTS && start <= FoldAll(name) && |start| + 8 <= |name|
    requires EndsWith(FoldAll(name), "w8a16.so")
    requires forall i | |start| <= i < |name| - 8 :: NameChar(FoldAll(name)[i])
    ensures LibraryFile(name)
  {
    hide Fold, AnyCase, Reads, Inner, PlainWord, NameChar;
    WordsPlain();
    var n, m := |start|, |name| - 8;
    var head, middle, tail := name[..n], name[n..m], name[m..];
    FoldSlice(name, 0, n);
    FoldSlice(name, m, |name|);
    assert FoldAll(name)[0..n] == start && name[0..n] == head && name[m..|name|] == tail;
    ReadsExactly(head, start);
    ReadsExactly(tail, "w8a16.so");
    forall i | 0 <= i < |middle| ensures Inner(middle[i]) {
      assert FoldAll(name)[n + i] == Fold(name[n + i]) && middle[i] == name[n + i];
      FoldExactly(middle[i], 'a');
    }
    assert name == head + middle + tail;
    assert LibraryParts(name, head, middle, tail);
  }

  lemma LibraryJoined(name: string, head: string, middle: string, tail: string)
    requires LibraryParts(name, head, middle, tail)
    ensures ModelLibrary(name)
  {
    hide Reads, Inner;
    var start := KnownStart(name, head, middle, tail);
    LibraryFolds(name, head, middle, tail, start);
  }

  lemma KnownStart(name: string, head: string, middle: string, tail: string) returns (start: string)
    requires LibraryParts(name, head, middle, tail)
    ensures start in LIBRARY_STARTS && Reads(head, start)
  {
    hide Reads, Inner;
    start := if Reads(head, "libcs2") then "libcs2" else if Reads(head, "libdelta") then "libdelta"
             else if Reads(head, "libow2") then "libow2" else "libvalorant";
  }

  lemma LibraryFolds(name: string, head: string, middle: string, tail: string, start: string)
    requires start in LIBRARY_STARTS && Reads(head, start) && Reads(tail, "w8a16.so") && name == head + middle + tail
    requires forall i | 0 <= i < |middle| :: Inner(middle[i])
    ensures ModelLibrary(name)
  {
    WordsPlain();
    hide Fold, AnyCase, Reads, Inner, PlainWord, NameChar, LIBRARY_STARTS;
    ReadsExactly(head, start);
    ReadsExactly(tail, "w8a16.so");
    var n, m := |head|, |head| + |middle|;
    assert name[0..n] == head && name[n..m] == middle && name[m..|name|] == tail;
    FoldSlice(name, 0, n);
    FoldSlice(name, m, |name|);
    forall i | n <= i < |name| - 8 ensures NameChar(FoldAll(name)[i]) {
      assert middle[i - n] == name[i];
      FoldExactly(name[i], 'a');
    }
  }

  lemma OnnxExactly(name: string)
    ensures OnnxName(name) <==> OnnxFile(name)
  {
    if OnnxName(name) {
      var n := |name| - 5;
      OnnxEnd(name, name[..n], name[n..]);
    }
    if stem, end :| name == stem + end && IsOnnx(end) { OnnxEnd(name, stem, end); }
  }

  lemma OnnxEnd(name: string, stem: string, end: string)
    requires name == stem + end && |end| == 5
    ensures OnnxName(name) <==> IsOnnx(end)
  {
    var n := |stem|;
    assert name[n] == end[0] && name[n + 1] == end[1] && name[n + 2] == end[2] && name[n + 3] == end[3]
      && name[n + 4] == end[4];
    hide OnnxFile;
    LowerIs(end[1], 'o');
    LowerIs(end[2], 'n');
    LowerIs(end[3], 'n');
    LowerIs(end[4], 'x');
    hide Lower, EitherCase;
  }

  lemma LowerIs(c: char, letter: char)
    requires 'a' <= letter <= 'z'
    ensures Lower(c) == letter <==> EitherCase(c, letter)
  {
  }

  /** A name is refused exactly when it is that of a model or of a model's library. */
  lemma RefusedExactly(path: Path)
    ensures NameRefused(path) <==> path != [] && (OnnxFile(path[|path| - 1]) || LibraryFile(path[|path| - 1]))
  {
    hide OnnxFile, OnnxName, ModelLibrary, LibraryFile;
    var name := if path == [] then "" else path[|path| - 1];
    OnnxExactly(name);
    LibraryExactly(name);
    if path == [] { NoName(); }
  }

  lemma NoName()
    ensures !OnnxName("") && !ModelLibrary("")
  {
  }

  // ---------- archive entries

  lemma {:induction false} StemExactly(name: string, stem: string)
    ensures WithoutSlashes(name) == stem <==> PayloadTerms.Stem(name, stem)
    decreases |name|
  {
    if name != "" && name[|name| - 1] == '/' {
      var init := name[..|name| - 1];
      StemExactly(init, stem);
      assert name == init + "/";
      if PayloadTerms.Stem(name, stem) {
        assert stem == name[..|stem|];
        assert stem <= init;
      }
    } else {
      if PayloadTerms.Stem(name, stem) { assert |stem| == |name|; }
    }
  }

  /** The path of an entry is that of its name without the slashes at its end; a slash there marks a folder. */
  lemma EntryPathExactly(m: Member, path: Path)
    ensures PathOf(m) == Some(path)
       <==> exists stem :: PayloadTerms.Stem(m.name, stem) && LockTerms.NamesPath(stem, path)
    ensures IsFolder(m) <==> !PayloadTerms.Stem(m.name, m.name)
  {
    hide ArtifactLock.StrictRelativePath, LockTerms.NamesPath;
    var own := WithoutSlashes(m.name);
    StemExactly(m.name, own);
    LockTerms.StrictExactly(own, path);
    forall stem | PayloadTerms.Stem(m.name, stem) ensures stem == own { StemExactly(m.name, stem); }
  }
}
