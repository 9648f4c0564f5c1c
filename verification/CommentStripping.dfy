/** Blanking the comments of C-like sources, tools/verify_dual_machine_release_readiness.py.
    The substitution scans left to right: at each position one alternative of the pattern can
    start, chosen by the first two characters, and a match is consumed whole. */
module CommentStripping {

  predicate IsQuote(c: char) {
    c == '"' || c == '\''
  }

  predicate EndsLine(c: char) {
    c == '\r' || c == '\n'
  }

  // ---------- the three kinds of match

  /** `(?:\\.|[^q\\])*q` on the text behind an opening quote: the length of its match, 0 for none. */
  function QuoteClose(q: char, s: string): (n: nat)
    ensures n <= |s|
  {
    if s == "" then 0
    else if s[0] == q then 1
    else
      var step := if s[0] == '\\' then 2 else 1;
      if |s| < step then 0
      else
        var n := QuoteClose(q, s[step..]);
        if n == 0 then 0 else step + n
  }

  /** `[^\r\n]*` */
  function LineRest(s: string): (n: nat)
    ensures n <= |s|
    ensures n < |s| ==> EndsLine(s[n])
  {
    if s == "" || EndsLine(s[0]) then 0 else 1 + LineRest(s[1..])
  }

  /** `.*?\*` followed by a slash: the length of the shortest match, 0 for none. */
  function BlockClose(s: string): (n: nat)
    ensures n <= |s|
    ensures n > 0 ==> s[n - 1] == '/'
  {
    if |s| < 2 then 0
    else if s[0] == '*' && s[1] == '/' then 2
    else
      var n := BlockClose(s[1..]);
      if n == 0 then 0 else 1 + n
  }

  datatype Kind = Code | Literal | Comment

  /** What the scan meets at the head of a text, and how far it reaches: an opening that does not
      close is one character of code. */
  function Head(s: string): (r: (Kind, nat))
    requires s != ""
    ensures 0 < r.1 <= |s|
  {
    if IsQuote(s[0]) then
      var n := QuoteClose(s[0], s[1..]);
      if n == 0 then (Code, 1) else (Literal, 1 + n)
    else if |s| >= 2 && s[0] == '/' && s[1] == '/' then (Comment, 2 + LineRest(s[2..]))
    else if |s| >= 2 && s[0] == '/' && s[1] == '*' then
      var n := BlockClose(s[2..]);
      if n == 0 then (Code, 1) else (Comment, 2 + n)
    else (Code, 1)
  }

  function BlankChar(c: char): char {
    if c == '\n' then '\n' else ' '
  }

  /** `_replace_comment_with_whitespace` on a comment. */
  function Blank(s: string): (r: string)
    ensures |r| == |s|
  {
    seq(|s|, i requires 0 <= i < |s| => BlankChar(s[i]))
  }

  /** `_code_without_comments` for the C-like suffixes. */
  function Strip(s: string): string {
    if s == "" then ""
    else
      var (kind, n) := Head(s);
      (if kind == Comment then Blank(s[..n]) else s[..n]) + Strip(s[n..])
  }

  /** The kind of every character. */
  ghost function Kinds(s: string): (r: seq<Kind>)
    ensures |r| == |s|
  {
    if s == "" then []
    else
      var (kind, n) := Head(s);
      seq(n, _ => kind) + Kinds(s[n..])
  }

  // ---------- the matches are those of the pattern

  /** The bodies of string literals: no bare quote, every backslash with its character. */
  ghost predicate LiteralBody(q: char, s: string) {
    s == "" ||
    (if s[0] == '\\' then |s| >= 2 && LiteralBody(q, s[2..]) else s[0] != q && LiteralBody(q, s[1..]))
  }

  /** A literal ends at the only place where its body can end, so backtracking changes nothing. */
  lemma {:induction false} QuoteCloseExactly(q: char, s: string, n: nat)
    requires q != '\\' && 0 < n <= |s|
    ensures QuoteClose(q, s) == n <==> LiteralBody(q, s[..n - 1]) && s[n - 1] == q
  {
    var body := s[..n - 1];
    if s[0] == q {
      if n > 1 { assert body[0] == q; }
    } else if s[0] == '\\' {
      if n == 1 {
      } else if n == 2 {
        assert body == ['\\'];
      } else {
        assert body[2..] == s[2..][..n - 3];
        QuoteCloseExactly(q, s[2..], n - 2);
      }
    } else if n > 1 {
      assert body[1..] == s[1..][..n - 2];
      QuoteCloseExactly(q, s[1..], n - 1);
    }
  }

  ghost predicate ClosesBlockAt(s: string, i: int) {
    0 <= i < |s| - 1 && s[i] == '*' && s[i + 1] == '/'
  }

  /** A block comment ends at the first terminator behind its opening. */
  lemma {:induction false} BlockCloseExactly(s: string)
    ensures BlockClose(s) == 0 <==> forall i :: !ClosesBlockAt(s, i)
    ensures BlockClose(s) > 0 ==> ClosesBlockAt(s, BlockClose(s) - 2)
    ensures forall i :: ClosesBlockAt(s, i) ==> i >= BlockClose(s) - 2
  {
    if |s| >= 2 {
      if s[0] == '*' && s[1] == '/' {
        assert ClosesBlockAt(s, 0);
      } else {
        var tail := s[1..];
        BlockCloseExactly(tail);
        assert forall i :: ClosesBlockAt(s, i) ==> ClosesBlockAt(tail, i - 1);
        assert forall i :: ClosesBlockAt(tail, i) ==> ClosesBlockAt(s, i + 1);
      }
    }
  }

  // ---------- position by position

  /** Comments turn into blanks, their newlines stay, and nothing else changes or moves. */
  lemma {:induction false} StripPointwise(s: string)
    ensures |Strip(s)| == |s|
    ensures forall i :: 0 <= i < |s| ==>
      Strip(s)[i] == if Kinds(s)[i] == Comment then BlankChar(s[i]) else s[i]
  {
    hide Head;
    if s != "" {
      StripPointwise(s[Head(s).1..]);
    }
  }

  /** Length and every newline position are kept. */
  lemma LayoutKept(s: string)
    ensures |Strip(s)| == |s|
    ensures forall i :: 0 <= i < |s| ==> (Strip(s)[i] == '\n' <==> s[i] == '\n')
  {
    StripPointwise(s);
  }

  ghost predicate OccursAt(word: string, s: string, i: nat) {
    i + |word| <= |s| && forall k :: 0 <= k < |word| ==> s[i + k] == word[k]
  }

  ghost predicate OutsideComments(kinds: seq<Kind>, i: nat, n: nat) {
    i + n <= |kinds| && forall k :: i <= k < i + n ==> kinds[k] != Comment
  }

  lemma FoundOutside(word: string, s: string, kinds: seq<Kind>, t: string, i: nat)
    requires |s| == |kinds| == |t|
    requires forall k :: 0 <= k < |s| ==> t[k] == if kinds[k] == Comment then BlankChar(s[k]) else s[k]
    requires ' ' !in word && '\n' !in word
    ensures OccursAt(word, t, i) <==> OccursAt(word, s, i) && OutsideComments(kinds, i, |word|)
  {
    if OccursAt(word, t, i) {
      forall k | i <= k < i + |word| ensures s[k] == word[k - i] && kinds[k] != Comment {
        assert t[i + (k - i)] == word[k - i] && word[k - i] in word;
      }
    }
    if OccursAt(word, s, i) && OutsideComments(kinds, i, |word|) {
      forall k | 0 <= k < |word| ensures t[i + k] == word[k] {
        assert kinds[i + k] != Comment;
      }
    }
  }

  /** A word without blanks is found in the stripped text exactly where the source has it outside
      every comment. */
  lemma FoundIffOutsideComments(word: string, s: string, i: nat)
    requires ' ' !in word && '\n' !in word
    ensures OccursAt(word, Strip(s), i) <==>
      OccursAt(word, s, i) && OutsideComments(Kinds(s), i, |word|)
  {
    StripPointwise(s);
    FoundOutside(word, s, Kinds(s), Strip(s), i);
  }

  // ---------- scanning for a quote, one character at a time

  /** Whether an unescaped `q` follows, with `escaped` telling whether the first character is. */
  predicate Quoted(q: char, s: string, escaped: bool) {
    s != "" &&
    (if escaped then Quoted(q, s[1..], false) else s[0] == q || Quoted(q, s[1..], s[0] == '\\'))
  }

  /** Whether the scan leaves the character behind the text escaped. */
  function Escapes(s: string, escaped: bool): bool {
    if s == "" then escaped else Escapes(s[1..], !escaped && s[0] == '\\')
  }

  lemma {:induction false} QuotedAsClose(q: char, s: string)
    requires q != '\\'
    ensures Quoted(q, s, false) <==> QuoteClose(q, s) > 0
  {
    if s != "" && s[0] != q {
      if s[0] != '\\' {
        QuotedAsClose(q, s[1..]);
      } else if |s| >= 2 {
        assert s[1..][1..] == s[2..];
        QuotedAsClose(q, s[2..]);
      }
    }
  }

  lemma {:induction false} QuotedAppend(q: char, a: string, b: string, escaped: bool)
    ensures Quoted(q, a + b, escaped) <==> Quoted(q, a, escaped) || Quoted(q, b, Escapes(a, escaped))
  {
    if a == "" {
      assert a + b == b;
    } else {
      assert (a + b)[1..] == a[1..] + b && (a + b)[0] == a[0];
      QuotedAppend(q, a[1..], b, !escaped && a[0] == '\\');
    }
  }

  lemma {:induction false} BlankNotQuoted(q: char, s: string, escaped: bool)
    requires IsQuote(q)
    ensures !Quoted(q, Blank(s), escaped)
    ensures s != "" ==> !Escapes(Blank(s), escaped)
  {
    if s != "" {
      assert Blank(s)[1..] == Blank(s[1..]);
      assert Blank(s)[0] == BlankChar(s[0]);
      BlankNotQuoted(q, s[1..], false);
      if |s| == 1 { assert Blank(s[1..]) == ""; }
    }
  }

  lemma {:induction false} EscapesByLast(s: string, escaped: bool)
    requires s != "" && s[|s| - 1] != '\\'
    ensures !Escapes(s, escaped)
  {
    if |s| > 1 {
      assert s[1..][|s[1..]| - 1] == s[|s| - 1];
      EscapesByLast(s[1..], !escaped && s[0] == '\\');
    }
  }

  /** The scans of a text and of its stripped form may disagree on the escape only before a line end,
      where it no longer matters. */
  ghost predicate InStep(s: string, before: bool, after: bool) {
    before == after || s == "" || EndsLine(s[0])
  }

  /** Behind a comment the two scans are in step: a block comment ends with a slash and a line
      comment before a line end. */
  lemma InStepBehindComment(s: string, escaped: bool)
    requires s != "" && Head(s).0 == Comment
    ensures InStep(s[Head(s).1..], Escapes(s[..Head(s).1], escaped), false)
  {
    hide Escapes;
    var n := Head(s).1;
    if s[1] == '*' {
      assert s[n - 1] == s[2..][n - 3];
      EscapesByLast(s[..n], escaped);
    } else if n < |s| {
      assert s[n] == s[2..][n - 2];
    }
  }

  /** Stripping opens no string: where no quote could close one, none can afterwards. */
  lemma {:induction false} StaysUnquoted(q: char, s: string, before: bool, after: bool)
    requires IsQuote(q) && InStep(s, before, after) && !Quoted(q, s, before)
    ensures !Quoted(q, Strip(s), after)
  {
    hide Head, Blank;
    if s != "" {
      var (kind, n) := Head(s);
      var first, rest := s[..n], s[n..];
      assert s == first + rest;
      QuotedAppend(q, first, rest, before);
      if kind == Comment {
        CommentHead(s);
        assert before == after;
        InStepBehindComment(s, before);
        BlankNotQuoted(q, first, after);
        StaysUnquoted(q, rest, Escapes(first, before), false);
        QuotedAppend(q, Blank(first), Strip(rest), after);
      } else {
        SameScan(q, first, before, after);
        StaysUnquoted(q, rest, Escapes(first, before), Escapes(first, after));
        QuotedAppend(q, first, Strip(rest), after);
      }
    }
  }

  lemma CommentHead(s: string)
    requires s != "" && Head(s).0 == Comment
    ensures s[0] == '/' && Head(s).1 >= 2
  {
  }

  lemma SameScan(q: char, s: string, before: bool, after: bool)
    requires IsQuote(q) && s != "" && InStep(s, before, after)
    ensures Quoted(q, s, before) <==> Quoted(q, s, after)
    ensures Escapes(s, before) == Escapes(s, after)
  {
  }

  // ---------- stripping and the kinds

  function Uncomment(kind: Kind): Kind {
    if kind == Comment then Code else kind
  }

  function UncommentAll(kinds: seq<Kind>): (r: seq<Kind>)
    ensures |r| == |kinds|
  {
    seq(|kinds|, i requires 0 <= i < |kinds| => Uncomment(kinds[i]))
  }

  lemma {:induction false} LiteralIsLocal(q: char, s: string, rest: string)
    requires QuoteClose(q, s) == |s| > 0
    ensures QuoteClose(q, s + rest) == |s|
  {
    if s[0] != q {
      var step := if s[0] == '\\' then 2 else 1;
      assert (s + rest)[step..] == s[step..] + rest && (s + rest)[0] == s[0];
      LiteralIsLocal(q, s[step..], rest);
    }
  }

  lemma {:induction false} QuoteClosePrefix(q: char, s: string)
    requires QuoteClose(q, s) > 0
    ensures QuoteClose(q, s[..QuoteClose(q, s)]) == QuoteClose(q, s)
  {
    var n := QuoteClose(q, s);
    assert s[..n][0] == s[0];
    if s[0] != q {
      var step := if s[0] == '\\' then 2 else 1;
      assert s[..n][step..] == s[step..][..n - step];
      QuoteClosePrefix(q, s[step..]);
    }
  }

  /** A block comment left open stays open: stripping brings no new `*` or slash. */
  lemma StaysOpen(s: string)
    requires BlockClose(s) == 0
    ensures BlockClose(Strip(s)) == 0
  {
    StripPointwise(s);
    BlockCloseExactly(s);
    BlockCloseExactly(Strip(s));
    var t := Strip(s);
    forall i | ClosesBlockAt(t, i) ensures ClosesBlockAt(s, i) {
      assert t[i] == s[i] && t[i + 1] == s[i + 1];
    }
  }

  /** The stripped text starts with the same literal or code character. */
  lemma HeadKept(s: string)
    requires s != "" && Head(s).0 != Comment
    ensures Strip(s) != "" && Head(Strip(s)) == Head(s)
  {
    hide Blank;
    var (kind, n) := Head(s);
    var t, rest := Strip(s), s[n..];
    assert t == s[..n] + Strip(rest) && t[0] == s[0];
    if IsQuote(s[0]) {
      if kind == Literal {
        LiteralHeadKept(s);
      } else {
        QuotedAsClose(s[0], rest);
        StaysUnquoted(s[0], rest, false, false);
        QuotedAsClose(s[0], Strip(rest));
        assert t[1..] == Strip(rest);
      }
    } else if s[0] == '/' {
      SlashKept(s);
    }
  }

  lemma LiteralHeadKept(s: string)
    requires s != "" && Head(s).0 == Literal
    ensures Strip(s) != "" && Head(Strip(s)) == Head(s)
  {
    hide Strip, Head, QuoteClose;
    var n, q := Head(s).1, s[0];
    LiteralShape(s);
    StripGoesOn(s);
    QuoteClosePrefix(q, s[1..]);
    LiteralCut(s, n, Strip(s[n..]));
    LiteralIsLocal(q, s[1..n], Strip(s[n..]));
    LiteralStarts(Strip(s), n);
  }

  lemma LiteralShape(s: string)
    requires s != "" && Head(s).0 == Literal
    ensures IsQuote(s[0]) && Head(s).1 == 1 + QuoteClose(s[0], s[1..]) && QuoteClose(s[0], s[1..]) > 0
  {
    hide BlockClose, QuoteClose;
  }

  lemma LiteralStarts(s: string, n: nat)
    requires s != "" && IsQuote(s[0]) && n > 1 && QuoteClose(s[0], s[1..]) == n - 1
    ensures Head(s) == (Literal, n)
  {
    hide BlockClose, QuoteClose;
  }

  lemma LiteralCut(s: string, n: nat, rest: string)
    requires 1 < n <= |s|
    ensures s[1..n] == s[1..][..n - 1]
    ensures var t := s[..n] + rest; t != "" && t[0] == s[0] && t[1..] == s[1..n] + rest
  {
  }

  lemma StripGoesOn(s: string)
    requires s != "" && Head(s).0 != Comment
    ensures Strip(s) == s[..Head(s).1] + Strip(s[Head(s).1..])
  {
    hide Head, Blank;
  }

  lemma SlashKept(s: string)
    requires s != "" && s[0] == '/' && Head(s).0 != Comment
    ensures Strip(s) != "" && Head(Strip(s)) == Head(s)
  {
    var rest := s[1..];
    assert Strip(s) == ['/'] + Strip(rest);
    if rest != "" {
      CodeStart(rest);
      if rest[0] == '*' {
        assert s[2..] == rest[1..];
        StaysOpen(rest[1..]);
        assert Strip(s)[2..] == Strip(rest[1..]);
      }
    }
  }

  lemma CodeStart(s: string)
    requires s != "" && s[0] != '/'
    ensures Strip(s) != "" && Strip(s)[0] == s[0]
    ensures s[0] == '*' ==> Strip(s) == ['*'] + Strip(s[1..])
  {
    var (kind, n) := Head(s);
    assert Strip(s) == s[..n] + Strip(s[n..]);
    assert s[..n][0] == s[0];
    if s[0] == '*' { assert s[..1] == ['*']; }
  }

  lemma {:induction false} BlanksAreCode(s: string, rest: string)
    ensures Kinds(Blank(s) + rest) == seq(|s|, _ => Code) + Kinds(rest)
  {
    if s == "" {
      assert Blank(s) + rest == rest;
    } else {
      var t := Blank(s) + rest;
      assert t[0] == BlankChar(s[0]) && t[1..] == Blank(s[1..]) + rest;
      BlanksAreCode(s[1..], rest);
    }
  }

  /** Each string literal is a literal of the stripped text at the same place; what was a comment is
      code, and code stays code. */
  lemma {:induction false} KindsKept(s: string)
    ensures Kinds(Strip(s)) == UncommentAll(Kinds(s))
  {
    hide Head, Blank;
    if s != "" {
      var (kind, n) := Head(s);
      var first, rest := s[..n], s[n..];
      KindsKept(rest);
      if kind == Comment {
        BlanksAreCode(first, Strip(rest));
      } else {
        HeadKept(s);
        assert Strip(s)[n..] == Strip(rest);
      }
    }
  }

  /** No comment is left, so stripping again changes nothing. */
  lemma StripIdempotent(s: string)
    ensures Comment !in Kinds(Strip(s))
    ensures Strip(Strip(s)) == Strip(s)
  {
    KindsKept(s);
    StripPointwise(Strip(s));
  }

  /** Every string literal is a literal of the stripped text, at the same place and letter by letter. */
  lemma LiteralsKept(s: string, i: nat)
    requires i < |s|
    ensures |Strip(s)| == |s|
    ensures Kinds(Strip(s))[i] == Literal <==> Kinds(s)[i] == Literal
    ensures Kinds(s)[i] == Literal ==> Strip(s)[i] == s[i]
  {
    KindsKept(s);
    StripPointwise(s);
  }
}
