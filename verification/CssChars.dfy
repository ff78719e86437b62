/**
 Character classes and look-ahead helpers shared by the CSS scanners.  A CSS
 text is a `string`; the scanners only distinguish the byte values below 0x80,
 so every statement holds of all strings, byte strings included.
 */
module CssChars {
  import opened Ascii

  /** Where a phase's scanner stands: plain text, a string, or an unquoted url(). */
  datatype Lex = Normal | InSingle | InDouble | InUrl

  /**
   A scanner's place in the text, with its position inside a custom-property
   value: `customUrl` inside an unquoted url() of it, `customDepth` open brackets.
   */
  datatype Context = Context(lex: Lex, inCustom: bool, customUrl: bool, customDepth: nat)

  /** The character ends the custom-property value the scanner is in. */
  predicate EndsCustom(cx: Context, c: char) {
    !cx.customUrl && cx.customDepth == 0 && (c == ';' || c == '}')
  }

  /**
   The context after `c`, read inside a custom-property value after `r` was
   emitted; `quoted` says that a quote follows past whitespace.
   */
  function AfterCustomChar(cx: Context, r: string, c: char, quoted: bool): Context {
    if cx.customUrl then cx.(customUrl := c != ')')
    else if c == '\'' then cx.(lex := InSingle)
    else if c == '"' then cx.(lex := InDouble)
    else if c == '(' && EndsWithUrl(r) && !quoted then cx.(customUrl := true)
    else if c == '{' || c == '(' || c == '[' then cx.(customDepth := cx.customDepth + 1)
    else if cx.customDepth > 0 && (c == '}' || c == ')' || c == ']') then cx.(customDepth := cx.customDepth - 1)
    else cx
  }

  predicate IsCssWhitespace(c: char) {
    c == ' ' || c == '\t' || c == '\n' || c == '\r' || c as int == 12
  }

  /** `lower` matched as written or shifted down by 32, exactly as the source does it. */
  predicate CiMatch(c: char, lower: char) {
    c == lower || c as int == lower as int - 32
  }

  /** Letters, digits, underscore and every non-ASCII byte. */
  predicate IsIdentChar(c: char) {
    'a' <= c <= 'z' || 'A' <= c <= 'Z' || '0' <= c <= '9' || c == '_' || c as int >= 0x80
  }

  predicate IsNameChar(c: char) {
    IsIdentChar(c) || c == '-'
  }

  /** `r` ends in "url", in any letter case. */
  predicate EndsWithUrl(r: string) {
    |r| >= 3 && CiMatch(r[|r| - 3], 'u') && CiMatch(r[|r| - 2], 'r') && CiMatch(r[|r| - 1], 'l')
  }

  /** First position at or after `i` that is not CSS whitespace, or the end. */
  function SkipSpace(s: string, i: nat): (j: nat)
    requires i <= |s|
    ensures i <= j <= |s|
    ensures forall k :: i <= k < j ==> IsCssWhitespace(s[k])
    ensures j < |s| ==> !IsCssWhitespace(s[j])
    decreases |s| - i
  {
    if i < |s| && IsCssWhitespace(s[i]) then SkipSpace(s, i + 1) else i
  }

  /** The first character at or after `i` that is not whitespace exists and is a quote. */
  predicate QuoteAhead(s: string, i: nat)
    requires i <= |s|
  {
    var j := SkipSpace(s, i);
    j < |s| && IsQuote(s[j])
  }

  /** Looking ahead, one character at a time. */
  lemma QuoteAheadNext(s: string, i: nat)
    requires i < |s|
    ensures QuoteAhead(s, i) == if IsCssWhitespace(s[i]) then QuoteAhead(s, i + 1) else IsQuote(s[i])
  {}

  lemma QuoteAheadNever(s: string)
    ensures !QuoteAhead(s, |s|)
  {}

  /** A slice and its first character. */
  lemma FirstOfSlice(s: string, i: nat, e: nat, rest: string)
    requires i < e <= |s|
    ensures [s[i]] + (s[i + 1..e] + rest) == s[i..e] + rest
  {
    assert s[i..e] == [s[i]] + s[i + 1..e];
  }

  /** An unquoted url() token starts at `i`. */
  predicate UrlAt(s: string, i: nat) {
    && i + 3 < |s|
    && CiMatch(s[i], 'u') && CiMatch(s[i + 1], 'r') && CiMatch(s[i + 2], 'l') && s[i + 3] == '('
    && !QuoteAhead(s, i + 4)
  }

  /** The position after the `close` that ends a string or url() whose body goes on at `j`, or the end of `s`. */
  function CloseEnd(s: string, j: nat, close: char): (end: nat)
    requires j <= |s|
    ensures j <= end <= |s|
    decreases |s| - j
  {
    if j == |s| then j
    else if s[j] == '\\' && j + 1 < |s| then CloseEnd(s, j + 2, close)
    else if s[j] == close then j + 1
    else CloseEnd(s, j + 1, close)
  }
}
