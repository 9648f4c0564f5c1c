/** A C-like source as the tokens the pattern takes from left to right, said without the scan. */
module CommentTokens {
  import opened CommentStripping

  // ---------- the alternatives of the pattern

  /** A quote, characters or escaped characters other than it, and the same quote. */
  ghost predicate IsLiteral(m: string) {
    && |m| >= 2 && m[0] in {'"', '\''} && m[|m| - 1] == m[0]
    && LiteralBody(m[0], m[1..|m| - 1])
  }

  /** Two slashes and the rest of the line: what follows is a line end or nothing. */
  ghost predicate IsLineComment(m: string, after: string) {
    && |m| >= 2 && m[0] == '/' && m[1] == '/'
    && (forall i | 2 <= i < |m| :: m[i] != '\r' && m[i] != '\n')
    && (after == "" || after[0] == '\r' || after[0] == '\n')
  }

  /** From a slash and star to the first star and slash behind them. */
  ghost predicate IsBlockComment(m: string) {
    && |m| >= 4 && m[0] == '/' && m[1] == '*' && m[|m| - 2] == '*' && m[|m| - 1] == '/'
    && forall i | 2 <= i < |m| - 2 :: !(m[i] == '*' && m[i + 1] == '/')
  }

  ghost predicate IsToken(kind: Kind, m: string, after: string) {
    match kind
    case Literal => IsLiteral(m)
    case Comment => IsLineComment(m, after) || IsBlockComment(m)
    case Code => |m| == 1 && forall n | 0 < n <= |m + after| :: !Opens((m + after)[..n], (m + after)[n..])
  }

  /** A literal or comment, which takes precedence over code. */
  ghost predicate Opens(m: string, after: string) {
    IsLiteral(m) || IsLineComment(m, after) || IsBlockComment(m)
  }

  // ---------- one token

  lemma LiteralAt(s: string, n: nat)
    requires s != "" && IsQuote(s[0]) && 0 < n <= |s|
    ensures IsLiteral(s[..n]) <==> QuoteClose(s[0], s[1..]) > 0 && n == 1 + QuoteClose(s[0], s[1..])
  {
    if n > 1 {
      QuoteCloseExactly(s[0], s[1..], n - 1);
      assert s[1..][..n - 2] == s[..n][1..n - 1];
      assert s[1..][n - 2] == s[n - 1];
    }
  }

  lemma {:induction false} LineRestExactly(s: string, n: nat)
    requires n <= |s|
    ensures LineRest(s) == n <==> (forall i | 0 <= i < n :: !EndsLine(s[i])) && (n < |s| ==> EndsLine(s[n]))
  {
    if s != "" && n > 0 {
      LineRestExactly(s[1..], n - 1);
      assert forall i | 0 < i < n :: s[i] == s[1..][i - 1];
    }
  }

  lemma LineCommentAt(s: string, n: nat)
    requires |s| >= 2 && s[0] == '/' && s[1] == '/' && 0 < n <= |s|
    ensures IsLineComment(s[..n], s[n..]) <==> n == 2 + LineRest(s[2..])
  {
    if n >= 2 {
      LineRestExactly(s[2..], n - 2);
      assert forall i | 2 <= i < n :: s[..n][i] == s[2..][i - 2];
      if IsLineComment(s[..n], s[n..]) {
        forall i | 0 <= i < n - 2 ensures !EndsLine(s[2..][i]) { assert s[..n][i + 2] == s[2..][i]; }
      }
    }
  }

  lemma BlockCommentAt(s: string, n: nat)
    requires |s| >= 2 && s[0] == '/' && s[1] == '*' && 0 < n <= |s|
    ensures IsBlockComment(s[..n]) <==> BlockClose(s[2..]) > 0 && n == 2 + BlockClose(s[2..])
  {
    var m, body := s[..n], s[2..];
    BlockCloseExactly(body);
    if n >= 4 {
      assert forall i | 2 <= i < n :: m[i] == body[i - 2];
      if IsBlockComment(m) {
        assert ClosesBlockAt(body, n - 4);
        forall i | 0 <= i < n - 4 ensures !ClosesBlockAt(body, i) {
          assert m[i + 2] == body[i] && m[i + 3] == body[i + 1];
        }
      }
      if n == 2 + BlockClose(body) {
        forall i | 2 <= i < n - 2 ensures !(m[i] == '*' && m[i + 1] == '/') {
          assert !ClosesBlockAt(body, i - 2);
        }
      }
    }
  }

  lemma OpensExactly(s: string, n: nat)
    requires 0 < n <= |s|
    ensures Opens(s[..n], s[n..]) <==> Head(s).0 != Code && Head(s).1 == n
  {
    hide IsLiteral, IsLineComment, IsBlockComment, QuoteClose, LineRest, BlockClose;
    OpeningOf(s, n);
    if IsQuote(s[0]) {
      LiteralAt(s, n);
    } else if |s| >= 2 && s[0] == '/' && s[1] == '/' {
      LineCommentAt(s, n);
    } else if |s| >= 2 && s[0] == '/' && s[1] == '*' {
      BlockCommentAt(s, n);
    }
  }

  /** The first two characters choose the alternative. */
  lemma OpeningOf(s: string, n: nat)
    requires 0 < n <= |s|
    ensures IsLiteral(s[..n]) ==> IsQuote(s[0])
    ensures IsLineComment(s[..n], s[n..]) ==> |s| >= 2 && s[0] == '/' && s[1] == '/'
    ensures IsBlockComment(s[..n]) ==> |s| >= 2 && s[0] == '/' && s[1] == '*'
  {
    hide LiteralBody;
  }

  /** The scan's head is the token there, and the only one. */
  lemma HeadExactly(s: string, kind: Kind, n: nat)
    requires 0 < n <= |s|
    ensures Head(s) == (kind, n) <==> IsToken(kind, s[..n], s[n..])
  {
    hide IsLiteral, IsLineComment, IsBlockComment, Head, Opens;
    assert s[..n] + s[n..] == s;
    HeadKind(s);
    forall k | 0 < k <= |s| ensures Opens(s[..k], s[k..]) <==> Head(s).0 != Code && Head(s).1 == k {
      OpensExactly(s, k);
    }
    KindsOfOpening(s, n);
    if kind == Code && IsToken(kind, s[..n], s[n..]) {
      assert !Opens(s[..Head(s).1], s[Head(s).1..]);
    }
  }

  lemma HeadKind(s: string)
    requires s != ""
    ensures Head(s).0 == Code ==> Head(s).1 == 1
    ensures Head(s).0 == Literal <==> IsQuote(s[0]) && Head(s).0 != Code
  {
    hide QuoteClose, LineRest, BlockClose;
  }

  lemma KindsOfOpening(s: string, n: nat)
    requires 0 < n <= |s|
    ensures Opens(s[..n], s[n..]) <==> IsLiteral(s[..n]) || IsLineComment(s[..n], s[n..]) || IsBlockComment(s[..n])
    ensures IsLiteral(s[..n]) ==> IsQuote(s[0])
    ensures IsLineComment(s[..n], s[n..]) || IsBlockComment(s[..n]) ==> !IsQuote(s[0])
  {
    hide LiteralBody;
  }

  // ---------- the whole source

  datatype Token = Token(kind: Kind, text: string)

  function Joined(tokens: seq<Token>): string {
    if tokens == [] then "" else tokens[0].text + Joined(tokens[1..])
  }

  /** Every token is one where it stands, given all that follows. */
  ghost predicate Tokens(tokens: seq<Token>) {
    forall k | 0 <= k < |tokens| ::
      tokens[k].text != "" && IsToken(tokens[k].kind, tokens[k].text, Joined(tokens[k + 1..]))
  }

  function KindsOf(tokens: seq<Token>): seq<Kind> {
    if tokens == [] then [] else seq(|tokens[0].text|, _ => tokens[0].kind) + KindsOf(tokens[1..])
  }

  /** The kinds of a source are those of its tokens; so any two ways to cut it into tokens agree. */
  lemma {:induction false} KindsExactly(tokens: seq<Token>)
    requires Tokens(tokens)
    ensures Kinds(Joined(tokens)) == KindsOf(tokens)
  {
    hide Head, IsToken;
    if tokens != [] {
      var s, first, rest := Joined(tokens), tokens[0], tokens[1..];
      var n := |first.text|;
      forall k | 0 <= k < |rest|
        ensures rest[k].text != "" && IsToken(rest[k].kind, rest[k].text, Joined(rest[k + 1..]))
      {
        assert rest[k] == tokens[k + 1] && rest[k + 1..] == tokens[k + 1 + 1..];
      }
      KindsExactly(rest);
      assert s[..n] == first.text && s[n..] == Joined(rest);
      HeadExactly(s, first.kind, n);
    }
  }

  /** Every source is cut into tokens. */
  lemma {:induction false} TokensExist(s: string) returns (tokens: seq<Token>)
    ensures Tokens(tokens) && Joined(tokens) == s
    decreases |s|
  {
    hide Head, IsToken;
    if s == "" {
      tokens := [];
    } else {
      var (kind, n) := Head(s);
      var rest := TokensExist(s[n..]);
      tokens := [Token(kind, s[..n])] + rest;
      HeadExactly(s, kind, n);
      assert tokens[1..] == rest;
      forall k | 0 <= k < |tokens|
        ensures tokens[k].text != "" && IsToken(tokens[k].kind, tokens[k].text, Joined(tokens[k + 1..]))
      {
        if k > 0 { assert tokens[k] == rest[k - 1] && tokens[k + 1..] == rest[k - 1 + 1..]; }
      }
    }
  }

  /** What stripping leaves of a source, character by character. */
  lemma StrippedExactly(tokens: seq<Token>, i: nat)
    requires Tokens(tokens) && i < |Joined(tokens)|
    ensures |Strip(Joined(tokens))| == |Joined(tokens)| == |KindsOf(tokens)|
    ensures var c := Joined(tokens)[i];
      Strip(Joined(tokens))[i] == if KindsOf(tokens)[i] == Comment && c != '\n' then ' ' else c
  {
    hide Tokens, Kinds, Strip;
    KindsExactly(tokens);
    StripPointwise(Joined(tokens));
  }
}
