/**
 The structural balance scan that decides whether a sheet may be embedded in
 another one, and the @media wrapper built on it.
 */
module CssBalance {
  import opened Options
  import opened Ascii

  // ---- characters -----------------------------------------------------------------

  predicate IsSpace(c: char) {
    c == ' ' || 9 <= c as int <= 13
  }

  predicate IsCssNewline(c: char) {
    c == '\n' || c == '\r' || c as int == 12
  }

  /** Characters that continue an identifier. */
  predicate IsIdentContinue(c: char) {
    || 'a' <= c <= 'z' || 'A' <= c <= 'Z' || '0' <= c <= '9'
    || c == '-' || c == '_' || c == '\\' || c as int >= 0x80
  }

  /** A character that ends every token: what the wrapper puts around embedded text. */
  ghost predicate Breaks(c: char) {
    c == '@' || c == '{' || c == '}'
  }

  // ---- tokens -----------------------------------------------------------------------

  function SkipSpace(s: string, i: nat): (j: nat)
    requires i <= |s|
    ensures i <= j <= |s|
    decreases |s| - i
  {
    if i < |s| && IsSpace(s[i]) then SkipSpace(s, i + 1) else i
  }

  /** The unescaped ')' at or after `p`, or the end. */
  function RawUrlEnd(s: string, p: nat): (q: nat)
    requires p <= |s|
    ensures p <= q <= |s|
    decreases |s| - p
  {
    if p == |s| || s[p] == ')' then p
    else if s[p] == '\\' && p + 1 < |s| then RawUrlEnd(s, p + 2)
    else RawUrlEnd(s, p + 1)
  }

  /** The position after the first "*" "/" at or after `p`. */
  function CommentEnd(s: string, p: nat): (r: Option<nat>)
    ensures r.Some? ==> p < r.value <= |s|
    decreases |s| - p
  {
    if p + 1 >= |s| then None
    else if s[p] == '*' && s[p + 1] == '/' then Some(p + 2)
    else CommentEnd(s, p + 1)
  }

  /** The position after the closing quote; none when the string is unterminated or broken by a newline. */
  function StringEnd(s: string, p: nat, quote: char): (r: Option<nat>)
    ensures r.Some? ==> p < r.value <= |s|
    decreases |s| - p
  {
    if p >= |s| then None
    else if s[p] == quote then Some(p + 1)
    else if IsCssNewline(s[p]) then None
    else if s[p] == '\\' && p + 1 < |s| then
      StringEnd(s, p + (if s[p + 1] == '\r' && p + 2 < |s| && s[p + 2] == '\n' then 3 else 2), quote)
    else StringEnd(s, p + 1, quote)
  }

  // ---- an identifier spelled with escapes ------------------------------------------------

  /** Start of the identifier around `esc`, walking back from `i`; none once it is too long to be "url". */
  function IdentStart(s: string, esc: nat, i: nat): (r: Option<nat>)
    requires i <= esc <= |s|
    ensures r.Some? ==> r.value <= i
    decreases i
  {
    if i > 0 && IsIdentContinue(s[i - 1]) then
      if esc - i >= 27 then None else IdentStart(s, esc, i - 1)
    else Some(i)
  }

  function HexEnd(s: string, i: nat, left: nat): (j: nat)
    requires i <= |s|
    ensures i <= j <= |s|
    decreases left
  {
    if i < |s| && left > 0 && IsHexDigit(s[i]) then HexEnd(s, i + 1, left - 1) else i
  }

  function HexValue(s: string): nat {
    if s == "" then 0
    else
      var c := s[|s| - 1];
      16 * HexValue(s[..|s| - 1])
      + (if '0' <= c <= '9' then (c - '0') as nat else if 'a' <= c <= 'f' then (c - 'a') as nat + 10
         else if 'A' <= c <= 'F' then (c - 'A') as nat + 10 else 0)
  }

  /** The position after the one whitespace a hex escape takes with it. */
  function AfterHexSpace(s: string, i: nat): (j: nat)
    requires i <= |s|
    ensures i <= j <= |s|
  {
    if i < |s| && IsSpace(s[i]) then
      if s[i] == '\r' && i + 1 < |s| && s[i + 1] == '\n' then i + 2 else i + 1
    else i
  }

  /** Decoding on from `i` with `name` so far, the identifier is "url" and a '(' follows it. */
  predicate IsUrlName(s: string, i: nat, name: string)
    decreases |s| - i
  {
    if i < |s| && IsIdentContinue(s[i]) && |name| < 8 then
      if s[i] != '\\' then IsUrlName(s, i + 1, name + [LowerChar(s[i])])
      else if i + 1 >= |s| then false
      else if IsHexDigit(s[i + 1]) then
        var h := HexEnd(s, i + 1, 6);
        var code := HexValue(s[i + 1..h]);
        IsUrlName(s, AfterHexSpace(s, h), name + [if code < 0x80 then LowerChar(code as char) else '?'])
      else IsUrlName(s, i + 2, name + [LowerChar(s[i + 1])])
    else name == "url" && i < |s| && s[i] == '('
  }

  /** The identifier holding the escape at `esc` spells "url" and opens a function. */
  predicate EscapedIdentIsUrlFunction(s: string, esc: nat)
    requires esc <= |s|
  {
    var start := IdentStart(s, esc, esc);
    start.Some? && IsUrlName(s, start.value, "")
  }

  // ---- the scan ---------------------------------------------------------------------------

  predicate UrlTokenAt(s: string, pos: nat)
    requires pos < |s|
  {
    && LowerChar(s[pos]) == 'u' && pos + 3 < |s|
    && (pos == 0 || !IsIdentContinue(s[pos - 1]))
    && LowerChar(s[pos + 1]) == 'r' && LowerChar(s[pos + 2]) == 'l' && s[pos + 3] == '('
  }

  /** Where scanning goes on after the token at `pos`; none for a token that never ends. */
  function Next(s: string, pos: nat): (r: Option<nat>)
    requires pos < |s|
    ensures r.Some? ==> pos < r.value <= |s|
  {
    var c := s[pos];
    if UrlTokenAt(s, pos) then
      var p := SkipSpace(s, pos + 4);
      if p < |s| && IsQuote(s[p]) then Some(pos + 4)
      else
        var q := RawUrlEnd(s, p);
        if q == |s| then None else Some(q + 1)
    else if c == '/' && pos + 1 < |s| && s[pos + 1] == '*' then CommentEnd(s, pos + 2)
    else if IsQuote(c) then StringEnd(s, pos + 1, c)
    else if c == '\\' then
      if pos + 1 >= |s| || EscapedIdentIsUrlFunction(s, pos) then None else Some(pos + 2)
    else Some(pos + 1)
  }

  /**
   The brace depth on reaching `stop`, scanning from `pos` at `depth`; none when
   a token is broken, jumps over `stop`, or a '}' would go below `floor`.
   */
  function WalkTo(s: string, pos: nat, depth: nat, floor: nat, stop: nat): (r: Option<nat>)
    requires stop <= |s|
    decreases |s| - pos
  {
    if pos == stop then Some(depth)
    else if pos > stop then None
    else match Next(s, pos)
      case None => None
      case Some(n) =>
        if s[pos] == '{' then WalkTo(s, n, depth + 1, floor, stop)
        else if s[pos] == '}' then if depth <= floor then None else WalkTo(s, n, depth - 1, floor, stop)
        else WalkTo(s, n, depth, floor, stop)
  }

  predicate Balanced(s: string) {
    WalkTo(s, 0, 0, 0, |s|) == Some(0)
  }

  method IsStructurallyBalanced(css: string) returns (ok: bool)
    ensures ok == Balanced(css)
  {
    hide Next;
    var pos, depth := 0, 0;
    while pos < |css|
      invariant 0 <= pos <= |css| && 0 <= depth
      invariant WalkTo(css, pos, depth, 0, |css|) == WalkTo(css, 0, 0, 0, |css|)
      decreases |css| - pos
    {
      var n := Next(css, pos);
      if n.None? { return false; }
      if css[pos] == '{' { depth := depth + 1; }
      if css[pos] == '}' {
        if depth == 0 { return false; }
        depth := depth - 1;
      }
      pos := n.value;
    }
    return depth == 0;
  }
}
