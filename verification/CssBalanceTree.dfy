/**
 The balance scan on structured text: strings, comments, url() tokens and blocks,
 defined by their characters.  Structured text is balanced; with a brace too many,
 a brace too few, an open string or an open comment it is not.
 */
module CssBalanceTree {
  import opened Options
  import opened Ascii
  import opened CssBalance

  datatype Tokens =
    | End
    | Char(c: char, rest: Tokens)
    | Str(quote: char, body: string, rest: Tokens)
    | Comment(body: string, rest: Tokens)
    | Url(word: string, gap: string, body: string, rest: Tokens)
    | Call(word: string, gap: string, rest: Tokens)
    | Block(inner: Tokens, rest: Tokens)

  function Text(t: Tokens): string {
    match t
    case End => ""
    case Char(c, rest) => [c] + Text(rest)
    case Str(quote, body, rest) => ([quote] + body + [quote]) + Text(rest)
    case Comment(body, rest) => ("/*" + body + "*/") + Text(rest)
    case Url(word, gap, body, rest) => (word + "(" + gap + body + ")") + Text(rest)
    case Call(word, gap, rest) => (word + "(") + (gap + Text(rest))
    case Block(inner, rest) => "{" + (Text(inner) + ("}" + Text(rest)))
  }

  /** Escape pairs, and characters other than a backslash, the quote and a newline; a pair may escape a newline. */
  predicate StringBody(x: string, quote: char) {
    if x == "" then true
    else if x[0] == '\\' then |x| >= 2 && x[1] != '\r' && StringBody(x[2..], quote)
    else x[0] != quote && x[0] != '\n' && x[0] != '\r' && x[0] as int != 12 && StringBody(x[1..], quote)
  }

  predicate UrlBody(x: string) {
    if x == "" then true
    else if x[0] == '\\' then |x| >= 2 && UrlBody(x[2..])
    else x[0] != ')' && UrlBody(x[1..])
  }

  predicate NoStarSlash(x: string) {
    forall k :: 0 <= k < |x| - 1 ==> x[k] != '*' || x[k + 1] != '/'
  }

  predicate Blank(x: string) {
    forall k :: 0 <= k < |x| ==> x[k] == ' ' || 9 <= x[k] as int <= 13
  }

  predicate UrlWord(w: string) {
    |w| == 3 && (w[0] == 'u' || w[0] == 'U') && (w[1] == 'r' || w[1] == 'R') && (w[2] == 'l' || w[2] == 'L')
  }

  predicate NameChar(c: char) {
    'a' <= c <= 'z' || 'A' <= c <= 'Z' || '0' <= c <= '9' || c == '-' || c == '_' || c == '\\' || c as int >= 0x80
  }

  /** The structure stands for its text after the character `prev`; a "url(" is written as such. */
  predicate Fits(prev: char, t: Tokens)
    decreases t
  {
    match t
    case End => true
    case Char(c, rest) =>
      && c !in "\\'\"{}" && (c == '/' ==> Text(rest) == "" || Text(rest)[0] != '*')
      && (c == '(' ==> prev != 'l' && prev != 'L') && Fits(c, rest)
    case Str(quote, body, rest) =>
      (quote == '"' || quote == '\'') && StringBody(body, quote) && Fits(quote, rest)
    case Comment(body, rest) => NoStarSlash(body + "*") && Fits('/', rest)
    case Url(word, gap, body, rest) =>
      && !NameChar(prev) && UrlWord(word) && Blank(gap) && UrlBody(body)
      && (body != "" ==> !IsSpace(body[0]) && body[0] != '"' && body[0] != '\'') && Fits(')', rest)
    case Call(word, gap, rest) =>
      && !NameChar(prev) && UrlWord(word) && Blank(gap) && rest.Str? && Fits(' ', rest)
    case Block(inner, rest) => Fits('{', inner) && Fits('}', rest)
  }

  // ---- text at a place ------------------------------------------------------------------------

  ghost predicate Reads(s: string, i: nat, x: string) {
    i + |x| <= |s| && forall k :: 0 <= k < |x| ==> s[i + k] == x[k]
  }

  lemma ReadsSplit(s: string, i: nat, x: string, y: string)
    requires Reads(s, i, x + y)
    ensures Reads(s, i, x) && Reads(s, i + |x|, y)
  {
    forall k | 0 <= k < |x| ensures s[i + k] == x[k] { assert s[i + k] == (x + y)[k]; }
    forall k | 0 <= k < |y| ensures s[i + |x| + k] == y[k] { assert s[i + (|x| + k)] == (x + y)[|x| + k]; }
  }

  // ---- tokens ---------------------------------------------------------------------------------

  lemma {:induction false} StringEndIs(s: string, i: nat, body: string, quote: char)
    requires (quote == '"' || quote == '\'') && StringBody(body, quote) && Reads(s, i, body + [quote])
    ensures StringEnd(s, i, quote) == Some(i + |body| + 1)
    decreases |body|
  {
    assert s[i + 0] == (body + [quote])[0];
    if body != "" {
      var n := if body[0] == '\\' then 2 else 1;
      assert body + [quote] == body[..n] + (body[n..] + [quote]);
      assert n == 2 ==> s[i + 1] == (body + [quote])[1];
      ReadsSplit(s, i, body[..n], body[n..] + [quote]);
      StringEndIs(s, i + n, body[n..], quote);
    }
  }

  lemma {:induction false} UrlEndIs(s: string, i: nat, body: string)
    requires UrlBody(body) && Reads(s, i, body + ")")
    ensures RawUrlEnd(s, i) == i + |body|
    decreases |body|
  {
    assert s[i + 0] == (body + ")")[0];
    if body != "" {
      var n := if body[0] == '\\' then 2 else 1;
      assert body + ")" == body[..n] + (body[n..] + ")");
      ReadsSplit(s, i, body[..n], body[n..] + ")");
      UrlEndIs(s, i + n, body[n..]);
    }
  }

  lemma {:induction false} SkipIs(s: string, i: nat, gap: string)
    requires Reads(s, i, gap) && Blank(gap) && (i + |gap| < |s| ==> !IsSpace(s[i + |gap|]))
    ensures SkipSpace(s, i) == i + |gap|
    decreases |gap|
  {
    if gap != "" {
      assert s[i + 0] == gap[0];
      assert gap == gap[..1] + gap[1..];
      ReadsSplit(s, i, gap[..1], gap[1..]);
      SkipIs(s, i + 1, gap[1..]);
    }
  }

  /** A comment ends at the first "*" "/" after its start. */
  lemma {:induction false} CommentEndIs(s: string, i: nat, body: string)
    requires NoStarSlash(body + "*") && Reads(s, i, body + "*/")
    ensures CommentEnd(s, i) == Some(i + |body| + 2)
    decreases |body|
  {
    var x := body + "*/";
    assert s[i + 0] == x[0] && s[i + 1] == x[1];
    if body != "" {
      var y := body + "*";
      assert y[0] == x[0] && y[1] == (if |body| > 1 then x[1] else '*');
      assert x == body[..1] + (body[1..] + "*/");
      ReadsSplit(s, i, body[..1], body[1..] + "*/");
      assert forall k :: 0 <= k < |body[1..] + "*"| ==> (body[1..] + "*")[k] == y[k + 1];
      CommentEndIs(s, i + 1, body[1..]);
    }
  }

  /** The character before `i`, or a blank at the start. */
  function Before(s: string, i: nat): char
    requires i <= |s|
  {
    if i == 0 then ' ' else s[i - 1]
  }

  lemma UrlStarts(s: string, i: nat, word: string)
    requires i <= |s| && UrlWord(word) && Reads(s, i, word + "(") && !NameChar(Before(s, i))
    ensures UrlTokenAt(s, i)
  {
    var x := word + "(";
    assert s[i + 0] == x[0] && s[i + 1] == x[1] && s[i + 2] == x[2] && s[i + 3] == x[3];
  }

  /** What lies ahead of the scan. */
  ghost predicate Ahead(s: string, i: nat, t: Tokens) {
    && Reads(s, i, Text(t)) && Fits(Before(s, i), t)
    && (i + |Text(t)| < |s| ==> s[i + |Text(t)|] in "{}\"'/")
  }

  lemma AheadRest(s: string, i: nat, x: string, rest: Tokens)
    requires Reads(s, i, x + Text(rest)) && x != "" && Fits(x[|x| - 1], rest)
    requires i + |x + Text(rest)| < |s| ==> s[i + |x + Text(rest)|] in "{}\"'/"
    ensures Ahead(s, i + |x|, rest)
  {
    hide Fits;
    ReadsSplit(s, i, x, Text(rest));
    assert s[i + (|x| - 1)] == x[|x| - 1];
  }

  lemma LetterAhead(s: string, i: nat, t: Tokens)
    requires Ahead(s, i, t) && i < |s| && s[i] in "rRlL"
    ensures t.Char? && Ahead(s, i + 1, t.rest)
  {
    hide StringBody, UrlBody, NoStarSlash;
    assert Text(t) != "" ==> s[i + 0] == Text(t)[0];
    if t.Char? { AheadRest(s, i, [t.c], t.rest); }
  }

  lemma ParenAhead(s: string, i: nat, t: Tokens)
    requires Ahead(s, i, t) && i < |s| && s[i] == '('
    ensures Before(s, i) != 'l' && Before(s, i) != 'L'
  {
    hide StringBody, UrlBody, NoStarSlash;
    assert Text(t) != "" ==> s[i + 0] == Text(t)[0];
  }

  lemma CharAhead(s: string, i: nat, t: Tokens)
    requires Ahead(s, i, t) && t.Char?
    ensures i < |s| && s[i] == t.c && Ahead(s, i + 1, t.rest) && !UrlTokenAt(s, i)
    ensures t.c !in "\\'\"{}" && (t.c == '/' && i + 1 < |s| ==> s[i + 1] != '*')
  {
    hide StringBody, UrlBody, NoStarSlash;
    assert s[i + 0] == Text(t)[0];
    AheadRest(s, i, [t.c], t.rest);
    if UrlTokenAt(s, i) {
      LetterAhead(s, i + 1, t.rest);
      LetterAhead(s, i + 2, t.rest.rest);
      ParenAhead(s, i + 3, t.rest.rest.rest);
    }
    assert Text(t.rest) != "" ==> s[i + 1 + 0] == Text(t.rest)[0];
  }

  lemma WalkNext(s: string, i: nat, depth: nat, n: nat)
    requires i < |s| && Next(s, i) == Some(n) && s[i] != '{' && s[i] != '}'
    ensures WalkTo(s, i, depth, 0, |s|) == WalkTo(s, n, depth, 0, |s|)
  {
    hide Next;
  }

  lemma CharWalk(s: string, i: nat, depth: nat, t: Tokens)
    requires Ahead(s, i, t) && t.Char?
    ensures i < |s| && WalkTo(s, i, depth, 0, |s|) == WalkTo(s, i + 1, depth, 0, |s|)
  {
    hide WalkTo, Ahead;
    CharAhead(s, i, t);
    WalkNext(s, i, depth, i + 1);
  }

  lemma StringWalk(s: string, i: nat, depth: nat, quote: char, body: string)
    requires (quote == '"' || quote == '\'') && StringBody(body, quote) && Reads(s, i, [quote] + body + [quote])
    ensures WalkTo(s, i, depth, 0, |s|) == WalkTo(s, i + |body| + 2, depth, 0, |s|)
  {
    hide WalkTo, StringBody;
    assert [quote] + body + [quote] == [quote] + (body + [quote]);
    ReadsSplit(s, i, [quote], body + [quote]);
    assert s[i + 0] == [quote][0];
    StringEndIs(s, i + 1, body, quote);
    WalkNext(s, i, depth, i + |body| + 2);
  }

  lemma CommentWalk(s: string, i: nat, depth: nat, body: string)
    requires NoStarSlash(body + "*") && Reads(s, i, "/*" + body + "*/")
    ensures WalkTo(s, i, depth, 0, |s|) == WalkTo(s, i + |body| + 4, depth, 0, |s|)
  {
    hide WalkTo, NoStarSlash;
    assert "/*" + body + "*/" == "/*" + (body + "*/");
    ReadsSplit(s, i, "/*", body + "*/");
    assert s[i + 0] == "/*"[0] && s[i + 1] == "/*"[1];
    CommentEndIs(s, i + 2, body);
    WalkNext(s, i, depth, i + |body| + 4);
  }

  lemma UrlWalk(s: string, i: nat, depth: nat, word: string, gap: string, body: string)
    requires i <= |s| && !NameChar(Before(s, i)) && UrlWord(word) && Blank(gap) && UrlBody(body)
    requires body != "" ==> !IsSpace(body[0]) && body[0] != '"' && body[0] != '\''
    requires Reads(s, i, word + "(" + gap + body + ")")
    ensures WalkTo(s, i, depth, 0, |s|) == WalkTo(s, i + 5 + |gap| + |body|, depth, 0, |s|)
  {
    hide WalkTo, UrlBody, UrlTokenAt;
    assert word + "(" + gap + body + ")" == (word + "(") + (gap + (body + ")"));
    ReadsSplit(s, i, word + "(", gap + (body + ")"));
    ReadsSplit(s, i + 4, gap, body + ")");
    UrlStarts(s, i, word);
    assert s[i + 0] == (word + "(")[0];
    assert s[i + 4 + |gap| + 0] == (body + ")")[0];
    SkipIs(s, i + 4, gap);
    UrlEndIs(s, i + 4 + |gap|, body);
    WalkNext(s, i, depth, i + 5 + |gap| + |body|);
  }

  /** A "url(" before a string is passed over like a character, and the blanks after it one by one. */
  lemma CallWalk(s: string, i: nat, depth: nat, word: string, gap: string)
    requires i <= |s| && !NameChar(Before(s, i)) && UrlWord(word) && Blank(gap) && Reads(s, i, (word + "(") + gap)
    requires i + 4 + |gap| < |s| && (s[i + 4 + |gap|] == '"' || s[i + 4 + |gap|] == '\'')
    ensures WalkTo(s, i, depth, 0, |s|) == WalkTo(s, i + 4 + |gap|, depth, 0, |s|)
  {
    hide WalkTo, UrlTokenAt;
    ReadsSplit(s, i, word + "(", gap);
    UrlStarts(s, i, word);
    assert s[i + 0] == (word + "(")[0];
    SkipIs(s, i + 4, gap);
    WalkNext(s, i, depth, i + 4);
    GapWalk(s, i + 4, depth, gap);
  }

  lemma {:induction false} GapWalk(s: string, i: nat, depth: nat, gap: string)
    requires Reads(s, i, gap) && Blank(gap)
    ensures WalkTo(s, i, depth, 0, |s|) == WalkTo(s, i + |gap|, depth, 0, |s|)
    decreases |gap|
  {
    hide WalkTo;
    if gap != "" {
      assert s[i + 0] == gap[0];
      WalkNext(s, i, depth, i + 1);
      assert gap == gap[..1] + gap[1..];
      ReadsSplit(s, i, gap[..1], gap[1..]);
      GapWalk(s, i + 1, depth, gap[1..]);
    }
  }

  lemma BraceWalk(s: string, i: nat, depth: nat)
    requires i < |s|
    ensures s[i] == '{' ==> WalkTo(s, i, depth, 0, |s|) == WalkTo(s, i + 1, depth + 1, 0, |s|)
    ensures s[i] == '}' && depth > 0 ==> WalkTo(s, i, depth, 0, |s|) == WalkTo(s, i + 1, depth - 1, 0, |s|)
    ensures s[i] == '}' && depth == 0 ==> WalkTo(s, i, depth, 0, |s|) == None
  {}

  /** Structured text is passed over at the depth it starts at. */
  lemma {:induction false} TokensWalk(s: string, i: nat, depth: nat, t: Tokens)
    requires Ahead(s, i, t)
    ensures WalkTo(s, i, depth, 0, |s|) == WalkTo(s, i + |Text(t)|, depth, 0, |s|)
    decreases t, 2
  {
    hide WalkTo, Ahead;
    if !t.End? {
      var x := FirstWalk(s, i, depth, t);
      TokensWalk(s, i + |x|, depth, t.rest);
    }
  }

  lemma {:induction false} FirstWalk(s: string, i: nat, depth: nat, t: Tokens) returns (x: string)
    requires Ahead(s, i, t) && !t.End?
    ensures Text(t) == x + Text(t.rest) && WalkTo(s, i, depth, 0, |s|) == WalkTo(s, i + |x|, depth, 0, |s|)
    ensures Ahead(s, i + |x|, t.rest)
    decreases t, 1
  {
    hide WalkTo, StringBody, UrlBody, NoStarSlash, NameChar;
    match t
    case Char(c, rest) =>
      x := [c];
      CharWalk(s, i, depth, t);
      AheadRest(s, i, x, rest);
    case Str(quote, body, rest) =>
      x := [quote] + body + [quote];
      ReadsSplit(s, i, x, Text(rest));
      StringWalk(s, i, depth, quote, body);
      AheadRest(s, i, x, rest);
    case Comment(body, rest) =>
      x := "/*" + body + "*/";
      ReadsSplit(s, i, x, Text(rest));
      CommentWalk(s, i, depth, body);
      AheadRest(s, i, x, rest);
    case Url(word, gap, body, rest) =>
      x := UrlCase(s, i, depth, t);
    case Call(word, gap, rest) =>
      x := CallCase(s, i, depth, t);
    case Block(inner, rest) =>
      x := BlockWalk(s, i, depth, t);
  }

  lemma UrlCase(s: string, i: nat, depth: nat, t: Tokens) returns (x: string)
    requires Ahead(s, i, t) && t.Url?
    ensures Text(t) == x + Text(t.rest) && WalkTo(s, i, depth, 0, |s|) == WalkTo(s, i + |x|, depth, 0, |s|)
    ensures Ahead(s, i + |x|, t.rest)
  {
    hide WalkTo, UrlBody, NameChar, Reads;
    x := t.word + "(" + t.gap + t.body + ")";
    ReadsSplit(s, i, x, Text(t.rest));
    InBounds(s, i, x);
    UrlWalk(s, i, depth, t.word, t.gap, t.body);
    AheadRest(s, i, x, t.rest);
  }

  lemma InBounds(s: string, i: nat, x: string)
    requires Reads(s, i, x)
    ensures i + |x| <= |s|
  {}

  lemma QuoteOf(prev: char, t: Tokens)
    requires t.Str? && Fits(prev, t)
    ensures t.quote == '"' || t.quote == '\''
  {}

  lemma CallCase(s: string, i: nat, depth: nat, t: Tokens) returns (x: string)
    requires Ahead(s, i, t) && t.Call?
    ensures Text(t) == x + Text(t.rest) && WalkTo(s, i, depth, 0, |s|) == WalkTo(s, i + |x|, depth, 0, |s|)
    ensures Ahead(s, i + |x|, t.rest)
  {
    hide WalkTo, StringBody, NameChar;
    var rest := t.rest;
    x := (t.word + "(") + t.gap;
    assert Text(t) == x + Text(rest);
    ReadsSplit(s, i, x, Text(rest));
    assert s[i + |x| + 0] == Text(rest)[0] == rest.quote;
    QuoteOf(' ', rest);
    CallWalk(s, i, depth, t.word, t.gap);
    StringAnywhere(s, i, x, rest);
  }

  /** A string stands for itself whatever comes before it. */
  lemma StringAnywhere(s: string, i: nat, x: string, rest: Tokens)
    requires Reads(s, i, x + Text(rest)) && x != "" && rest.Str? && Fits(' ', rest)
    requires i + |x + Text(rest)| < |s| ==> s[i + |x + Text(rest)|] in "{}\"'/"
    ensures Ahead(s, i + |x|, rest)
  {
    hide StringBody;
    AheadRest(s, i, x, rest);
  }

  lemma {:induction false} BlockWalk(s: string, i: nat, depth: nat, t: Tokens) returns (x: string)
    requires Ahead(s, i, t) && t.Block?
    ensures Text(t) == x + Text(t.rest) && WalkTo(s, i, depth, 0, |s|) == WalkTo(s, i + |x|, depth, 0, |s|)
    ensures Ahead(s, i + |x|, t.rest)
    decreases t, 0
  {
    hide WalkTo;
    var inner, rest := Text(t.inner), Text(t.rest);
    x := "{" + inner + "}";
    assert Text(t) == "{" + (inner + ("}" + rest)) == ("{" + inner) + ("}" + rest) == x + rest;
    ReadsSplit(s, i, "{" + inner, "}" + rest);
    ReadsSplit(s, i, "{", inner);
    assert s[i + 0] == "{"[0] && s[i + 1 + |inner| + 0] == ("}" + rest)[0];
    BraceWalk(s, i, depth);
    assert Ahead(s, i + 1, t.inner);
    TokensWalk(s, i + 1, depth + 1, t.inner);
    BraceWalk(s, i + 1 + |inner|, depth + 1);
    AheadRest(s, i, x, t.rest);
  }

  // ---- what is balanced ---------------------------------------------------------------------------

  lemma Whole(t: Tokens, more: string)
    requires Fits(' ', t) && (more != "" ==> more[0] in "{}\"'/")
    ensures Ahead(Text(t) + more, 0, t)
  {}

  /** Structured text is balanced. */
  lemma TreeIsBalanced(t: Tokens)
    requires Fits(' ', t)
    ensures Balanced(Text(t))
  {
    hide WalkTo, Fits;
    Whole(t, "");
    assert Text(t) + "" == Text(t);
    TokensWalk(Text(t), 0, 0, t);
    assert WalkTo(Text(t), |Text(t)|, 0, 0, |Text(t)|) == Some(0) by { AtEnd(Text(t), 0); }
  }

  lemma AtEnd(s: string, depth: nat)
    ensures WalkTo(s, |s|, depth, 0, |s|) == Some(depth)
  {}

  /** With a closing brace too many it is not, whatever follows. */
  lemma ExtraBrace(t: Tokens, rest: string)
    requires Fits(' ', t)
    ensures !Balanced(Text(t) + ("}" + rest))
  {
    hide WalkTo, Fits;
    var s := Text(t) + ("}" + rest);
    Whole(t, "}" + rest);
    TokensWalk(s, 0, 0, t);
    assert s[|Text(t)|] == '}';
    BraceWalk(s, |Text(t)|, 0);
  }

  /** Nor with a brace that is not closed. */
  lemma MissingBrace(t: Tokens, u: Tokens)
    requires Fits(' ', t) && Fits('{', u)
    ensures !Balanced(Text(t) + ("{" + Text(u)))
  {
    hide WalkTo, Fits;
    var s, n := Text(t) + ("{" + Text(u)), |Text(t)|;
    Whole(t, "{" + Text(u));
    TokensWalk(s, 0, 0, t);
    assert s[n] == '{';
    BraceWalk(s, n, 0);
    assert Ahead(s, n + 1, u) by { InnerAhead(s, n, u); }
    TokensWalk(s, n + 1, 1, u);
    AtEnd(s, 1);
  }

  lemma InnerAhead(s: string, n: nat, u: Tokens)
    requires n < |s| && s[n..] == "{" + Text(u) && Fits('{', u)
    ensures Ahead(s, n + 1, u)
  {
    hide Fits;
    assert s[n] == s[n..][0];
    forall k | 0 <= k < |Text(u)| ensures s[n + 1 + k] == Text(u)[k] { assert s[n..][1 + k] == Text(u)[k]; }
  }

  /** Nor with a string that no quote ends, or that a bare newline breaks. */
  lemma OpenString(t: Tokens, quote: char, body: string, rest: string)
    requires Fits(' ', t) && (quote == '"' || quote == '\'') && quote !in body && '\\' !in body
    requires rest == "" || rest[0] == '\n'
    ensures !Balanced(Text(t) + ([quote] + body + rest))
  {
    hide WalkTo, Fits;
    var more := [quote] + body + rest;
    var s, n := Text(t) + more, |Text(t)|;
    Whole(t, more);
    TokensWalk(s, 0, 0, t);
    assert s[n] == quote;
    forall k | n + 1 <= k < n + 1 + |body| ensures s[k] != quote && s[k] != '\\' {
      assert s[k] == body[k - n - 1] && s[k] in body;
    }
    assert rest != "" ==> s[n + 1 + |body|] == rest[0];
    NeverEnds(s, n + 1, quote, n + 1 + |body|);
    assert WalkTo(s, n, 0, 0, |s|) == None by { Broken(s, n); }
  }

  lemma {:induction false} NeverEnds(s: string, i: nat, quote: char, end: nat)
    requires i <= end <= |s| && (quote == '"' || quote == '\'')
    requires forall k :: i <= k < end ==> s[k] != quote && s[k] != '\\'
    requires end == |s| || s[end] == '\n'
    ensures StringEnd(s, i, quote) == None
    decreases end - i
  {
    if i < end { NeverEnds(s, i + 1, quote, end); }
  }

  lemma Broken(s: string, i: nat)
    requires i < |s| && IsQuote(s[i]) && StringEnd(s, i + 1, s[i]) == None
    ensures WalkTo(s, i, 0, 0, |s|) == None
  {}

  /** Nor with a comment that is not ended. */
  lemma OpenComment(t: Tokens, body: string)
    requires Fits(' ', t) && NoStarSlash(body)
    ensures !Balanced(Text(t) + ("/*" + body))
  {
    hide WalkTo, Fits;
    var more := "/*" + body;
    var s, n := Text(t) + more, |Text(t)|;
    Whole(t, more);
    TokensWalk(s, 0, 0, t);
    assert s[n] == '/' && s[n + 1] == '*';
    assert forall k :: n + 2 <= k < |s| ==> s[k] == body[k - n - 2];
    NoEnd(s, n + 2);
    assert WalkTo(s, n, 0, 0, |s|) == None by { OpenEnded(s, n); }
  }

  lemma {:induction false} NoEnd(s: string, i: nat)
    requires i <= |s| && forall k :: i <= k < |s| - 1 ==> s[k] != '*' || s[k + 1] != '/'
    ensures CommentEnd(s, i) == None
    decreases |s| - i
  {
    if i + 1 < |s| { NoEnd(s, i + 1); }
  }

  lemma OpenEnded(s: string, i: nat)
    requires i + 1 < |s| && s[i] == '/' && s[i + 1] == '*' && CommentEnd(s, i + 2) == None
    ensures WalkTo(s, i, 0, 0, |s|) == None
  {}

  // ---- escapes -------------------------------------------------------------------------------------

  /** An escaped character, a brace or a quote among them, has no structural meaning. */
  lemma EscapedIsPlain(c: char)
    requires !IsHexDigit(c)
    ensures Balanced(['\\', c])
  {
    var s := ['\\', c];
    assert IdentStart(s, 0, 0) == Some(0);
    assert !IsUrlName(s, 2, "" + [LowerChar(c)]);
    assert Next(s, 0) == Some(2);
    assert WalkTo(s, 2, 0, 0, 2) == Some(0);
  }
}
