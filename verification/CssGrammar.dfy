/**
 CSS text as a structure: characters, escape pairs, strings, url() tokens and
 matched brackets.  The text of a structure is what the scanners are given, and
 the structure says what they have to make of it.
 */
module CssGrammar {
  import opened CssChars
  import opened CssLexemes

  datatype Bits =
    | End
    | Char(c: char, rest: Bits)
    | Escape(c: char, rest: Bits)
    | Str(quote: char, body: string, rest: Bits)
    | Url(word: string, body: string, rest: Bits)
    | Nest(open: char, inner: Bits, close: char, rest: Bits)

  function Text(b: Bits): string {
    match b
    case End => ""
    case Char(c, rest) => [c] + Text(rest)
    case Escape(c, rest) => ['\\', c] + Text(rest)
    case Str(quote, body, rest) => ([quote] + body + [quote]) + Text(rest)
    case Url(word, body, rest) => (word + "(" + body + ")") + Text(rest)
    case Nest(open, inner, close, rest) => ([open] + Text(inner) + [close]) + Text(rest)
  }

  predicate Matching(open: char, close: char) {
    (open == '(' && close == ')') || (open == '[' && close == ']') || (open == '{' && close == '}')
  }

  /** A quote comes first, past whitespace. */
  predicate QuoteFirst(x: string) {
    x != "" && if IsBlank(x[0]) then QuoteFirst(x[1..]) else x[0] == '"' || x[0] == '\''
  }

  /**
   The structure stands for its own text after `pre`.  A ';' is content only inside
   brackets (`deep`), a '{' only where `braces` says so, and a ':' only when no
   custom-property value starts there.
   */
  predicate Fits(custom: string -> bool, pre: string, b: Bits, deep: bool, braces: bool)
    decreases b
  {
    match b
    case End => true
    case Char(c, rest) =>
      && c !in "\\'\"()[]{}" && (c == ';' ==> deep) && (c == ':' ==> !custom(pre))
      && Fits(custom, pre + [c], rest, deep, braces)
    case Escape(c, rest) => Fits(custom, pre + ['\\', c], rest, deep, braces)
    case Str(quote, body, rest) =>
      && (quote == '"' || quote == '\'') && Body(body, quote)
      && Fits(custom, pre + ([quote] + body + [quote]), rest, deep, braces)
    case Url(word, body, rest) =>
      && |word| == 3 && EndsInUrl(word) && Body(body, ')') && !QuoteFirst(body + ")")
      && Fits(custom, pre + (word + "(" + body + ")"), rest, deep, braces)
    case Nest(open, inner, close, rest) =>
      && Matching(open, close) && (open == '{' ==> braces)
      && (open == '(' && EndsInUrl(pre) ==> QuoteFirst(Text(inner) + [close]))
      && Fits(custom, pre + [open], inner, true, braces)
      && Fits(custom, pre + ([open] + Text(inner) + [close]), rest, deep, braces)
  }

  /** Nowhere does a custom-property value start: a ':' is just a character. */
  predicate Never(r: string) { false }

  /** No ':' outside brackets. */
  predicate NoColon(b: Bits) {
    match b
    case End => true
    case Char(c, rest) => c != ':' && NoColon(rest)
    case Escape(c, rest) => NoColon(rest)
    case Str(quote, body, rest) => NoColon(rest)
    case Url(word, body, rest) => NoColon(rest)
    case Nest(open, inner, close, rest) => NoColon(rest)
  }

  // ---- text at a place ------------------------------------------------------------------------

  /** `x` stands in `s` at `i`. */
  ghost predicate Reads(s: string, i: nat, x: string) {
    i + |x| <= |s| && forall k :: 0 <= k < |x| ==> s[i + k] == x[k]
  }

  lemma ReadsSplit(s: string, i: nat, x: string, y: string)
    requires Reads(s, i, x + y)
    ensures Reads(s, i, x) && Reads(s, i + |x|, y)
  {
    forall k | 0 <= k < |x| ensures s[i + k] == x[k] {
      assert s[i + k] == (x + y)[k];
    }
    forall k | 0 <= k < |y| ensures s[i + |x| + k] == y[k] {
      assert s[i + (|x| + k)] == (x + y)[|x| + k];
    }
  }

  lemma ReadsSlice(s: string, i: nat, x: string)
    requires Reads(s, i, x)
    ensures s[i..i + |x|] == x
  {}

  /** Looking ahead sees a quote exactly when the text, which is not all whitespace, has one first. */
  lemma {:induction false} QuoteAheadIs(s: string, i: nat, x: string)
    requires Reads(s, i, x) && exists k :: 0 <= k < |x| && !IsCssWhitespace(x[k])
    ensures QuoteAhead(s, i) == QuoteFirst(x)
    decreases |x|
  {
    assert s[i] == x[0];
    if IsCssWhitespace(x[0]) {
      assert x == [x[0]] + x[1..];
      ReadsSplit(s, i, [x[0]], x[1..]);
      var k :| 0 <= k < |x| && !IsCssWhitespace(x[k]);
      assert x[1..][k - 1] == x[k];
      QuoteAheadIs(s, i + 1, x[1..]);
    }
  }

  /** A string or url() body is passed over to its closing character. */
  lemma CloseEndReads(s: string, i: nat, body: string, close: char)
    requires close != '\\' && Body(body, close) && Reads(s, i, body + [close])
    ensures CloseEnd(s, i, close) == i + |body| + 1
  {
    ReadsSplit(s, i, body, [close]);
    assert s[i + |body| + 0] == [close][0];
    CloseEndOf(s, i, body, close);
  }

  lemma UrlWordEnds(pre: string, word: string)
    requires |word| == 3 && EndsInUrl(word)
    ensures EndsInUrl(pre + word)
  {}
}
