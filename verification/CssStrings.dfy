/**
 Writing a URL as a CSS string and reading it back (sections 4.3.5 to 4.3.7 of
 CSS Syntax Level 3).  The readers are specified on the text that remains: they
 return the decoded value and what follows it.
 */
module CssStrings {
  import opened Options
  import opened Ascii
  import opened CssBalance

  // ---- the writer -------------------------------------------------------------------

  function EscapedChar(c: char, quote: char): string {
    if c == quote || c == '\\' then ['\\', c]
    else if c == '\n' then "\\A "
    else if c == '\r' then "\\D "
    else if c as int == 12 then "\\C "
    else [c]
  }

  function Escaped(value: string, quote: char): string {
    if value == "" then "" else EscapedChar(value[0], quote) + Escaped(value[1..], quote)
  }

  function Quoted(value: string, quote: char): string {
    [quote] + Escaped(value, quote) + [quote]
  }

  method AppendCssQuotedString(out: string, value: string, quote: char) returns (extended: string)
    ensures extended == out + Quoted(value, quote)
  {
    extended := out + [quote];
    for i := 0 to |value|
      invariant extended + Escaped(value[i..], quote) == out + [quote] + Escaped(value, quote)
    {
      assert value[i..][0] == value[i] && value[i..][1..] == value[i + 1..];
      assert extended + (EscapedChar(value[i], quote) + Escaped(value[i + 1..], quote))
          == (extended + EscapedChar(value[i], quote)) + Escaped(value[i + 1..], quote);
      extended := extended + EscapedChar(value[i], quote);
    }
    assert extended + "" == extended;
    extended := extended + [quote];
  }

  // ---- the readers --------------------------------------------------------------------

  /** A byte that continues a UTF-8 sequence. */
  predicate IsContinuation(c: char) {
    0x80 <= c as int < 0xC0
  }

  /** Length of the run of continuation bytes `t` starts with. */
  function Continuations(t: string): (n: nat)
    ensures n <= |t|
  {
    if t != "" && IsContinuation(t[0]) then 1 + Continuations(t[1..]) else 0
  }

  /** The bytes of the UTF-8 encoding of a code point. */
  function Utf8(cp: nat): string
    requires cp < 0x110000
  {
    if cp < 0x80 then [cp as char]
    else if cp < 0x800 then [(0xC0 + cp / 64) as char, (0x80 + cp % 64) as char]
    else if cp < 0x10000 then [(0xE0 + cp / 4096) as char, (0x80 + cp / 64 % 64) as char, (0x80 + cp % 64) as char]
    else [(0xF0 + cp / 262144) as char, (0x80 + cp / 4096 % 64) as char, (0x80 + cp / 64 % 64) as char,
          (0x80 + cp % 64) as char]
  }

  /** Zero, surrogates and out-of-range values denote the replacement character. */
  function CodePoint(cp: nat): (r: nat)
    ensures r < 0x110000
  {
    if cp == 0 || 0xD800 <= cp <= 0xDFFF || cp > 0x10FFFF then 0xFFFD else cp
  }

  datatype Read = Read(value: string, rest: string)

  /** What follows the one whitespace a hex escape takes with it. */
  function AfterHex(t: string, i: nat): (j: nat)
    requires i <= |t|
    ensures i <= j <= |t|
  {
    if i < |t| && t[i] == '\r' && i + 1 < |t| && t[i + 1] == '\n' then i + 2
    else if i < |t| && (t[i] == ' ' || t[i] == '\t' || IsCssNewline(t[i])) then i + 1
    else i
  }

  /** The code point an escape denotes; `t` is what follows the backslash. */
  function ConsumeEscape(t: string): (r: Read)
    ensures |r.rest| <= |t|
  {
    if t == "" then Read(Utf8(0xFFFD), "")
    else if !IsHexDigit(t[0]) then
      var j := 1 + Continuations(t[1..]);
      Read(t[..j], t[j..])
    else
      var h := HexEnd(t, 0, 6);
      Read(Utf8(CodePoint(HexValue(t[..h]))), t[AfterHex(t, h)..])
  }

  /** The value of a string whose content goes on with `t`, none when it is unterminated. */
  function ReadString(t: string, quote: char): (r: Option<Read>)
    ensures r.Some? ==> |r.value.rest| < |t|
    decreases |t|
  {
    if t == "" then None
    else if t[0] == quote then Some(Read("", t[1..]))
    else if t[0] != '\\' then Prefixed([t[0]], ReadString(t[1..], quote))
    else if |t| == 1 then None
    else if IsCssNewline(t[1]) then
      ReadString(t[if t[1] == '\r' && |t| > 2 && t[2] == '\n' then 3 else 2..], quote)
    else
      var e := ConsumeEscape(t[1..]);
      Prefixed(e.value, ReadString(e.rest, quote))
  }

  function Prefixed(front: string, r: Option<Read>): Option<Read> {
    if r.None? then None else Some(Read(front + r.value.value, r.value.rest))
  }

  /** Reads the quoted string at `pos`: its value and the position after the closing quote. */
  method ExtractQuotedString(css: string, pos: nat) returns (value: Option<string>, after: nat)
    ensures match value
            case None => pos >= |css| || !IsQuote(css[pos]) || ReadString(css[pos + 1..], css[pos]).None?
            case Some(v) =>
              && pos < |css| && IsQuote(css[pos])
              && after <= |css| && ReadString(css[pos + 1..], css[pos]) == Some(Read(v, css[after..]))
  {
    hide ConsumeEscape;
    after := pos;
    if pos >= |css| || !IsQuote(css[pos]) { return None, after; }
    var quote := css[pos];
    var rest, result := css[pos + 1..], "";
    PrefixedEmpty(ReadString(rest, quote));
    while rest != "" && rest[0] != quote
      invariant |rest| <= |css| && rest == css[|css| - |rest|..]
      invariant Prefixed(result, ReadString(rest, quote)) == ReadString(css[pos + 1..], quote)
      decreases |rest|
    {
      ghost var was, before := rest, result;
      if rest[0] == '\\' {
        if |rest| == 1 { return None, |css|; }
        if IsCssNewline(rest[1]) {
          rest := rest[if rest[1] == '\r' && |rest| > 2 && rest[2] == '\n' then 3 else 2..];
        } else {
          var e := ConsumeEscape(rest[1..]);
          EscapeRest(rest[1..]);
          result, rest := result + e.value, e.rest;
        }
      } else {
        result, rest := result + [rest[0]], rest[1..];
      }
      PrefixedTwice(before, result[|before|..], ReadString(rest, quote));
      assert result == before + result[|before|..];
    }
    if rest == "" { return None, |css|; }
    after := |css| - |rest| + 1;
    assert css[after..] == rest[1..];
    assert result + "" == result;
    return Some(result), after;
  }

  lemma PrefixedTwice(a: string, b: string, r: Option<Read>)
    ensures Prefixed(a, Prefixed(b, r)) == Prefixed(a + b, r)
  {
    if r.Some? { assert a + (b + r.value.value) == (a + b) + r.value.value; }
  }

  lemma PrefixedEmpty(r: Option<Read>)
    ensures Prefixed("", r) == r
  {
    if r.Some? { assert "" + r.value.value == r.value.value; }
  }

  lemma EscapeRest(t: string)
    ensures var e := ConsumeEscape(t); e.rest == t[|t| - |e.rest|..]
  {}

  // ---- inverse ----------------------------------------------------------------------------

  /** The written content of `value`, its closing quote and what follows. */
  function Body(value: string, quote: char, rest: string): string {
    if value == "" then [quote] + rest else EscapedChar(value[0], quote) + Body(value[1..], quote, rest)
  }

  lemma BodyIsEscaped(value: string, quote: char, rest: string)
    ensures Body(value, quote, rest) == Escaped(value, quote) + [quote] + rest
  {
    if value != "" {
      var tail := Escaped(value[1..], quote);
      var first := EscapedChar(value[0], quote);
      assert first + (tail + [quote] + rest) == (first + tail) + [quote] + rest;
    }
  }

  /** A run of continuation bytes ends where the first other byte stands. */
  lemma {:induction false} ContinuationsOf(run: string, t: string)
    requires forall c | c in run :: IsContinuation(c)
    requires t == "" || !IsContinuation(t[0])
    ensures Continuations(run + t) == |run|
  {
    if run == "" {
      assert run + t == t;
    } else {
      assert (run + t)[1..] == run[1..] + t;
      ContinuationsOf(run[1..], t);
    }
  }

  lemma BodyOfContinuation(c: char, value: string, quote: char, rest: string)
    requires IsQuote(quote) && IsContinuation(c)
    ensures Body([c] + value, quote, rest) == [c] + Body(value, quote, rest)
  {
    assert ([c] + value)[1..] == value;
  }

  /** Continuation bytes are written as they are. */
  lemma {:induction false} BodyOfContinuations(run: string, value: string, quote: char, rest: string)
    requires IsQuote(quote) && forall c | c in run :: IsContinuation(c)
    ensures Body(run + value, quote, rest) == run + Body(value, quote, rest)
  {
    hide Body;
    if run == "" {
      assert run + value == value;
    } else {
      BodyOfContinuations(run[1..], value, quote, rest);
      BodyOfContinuation(run[0], run[1..] + value, quote, rest);
      assert [run[0]] + (run[1..] + value) == run + value;
      assert [run[0]] + (run[1..] + Body(value, quote, rest)) == run + Body(value, quote, rest);
    }
  }

  /** Splits off the run of continuation bytes a value starts with. */
  lemma {:induction false} SplitContinuations(value: string) returns (run: string, after: string)
    ensures value == run + after && |run| == Continuations(value)
    ensures forall c | c in run :: IsContinuation(c)
    ensures after == "" || !IsContinuation(after[0])
  {
    if value != "" && IsContinuation(value[0]) {
      run, after := SplitContinuations(value[1..]);
      run := [value[0]] + run;
    } else {
      run, after := "", value;
    }
  }

  /** The written form never starts with a continuation byte where the value does not. */
  lemma BodyStart(value: string, quote: char, rest: string)
    requires IsQuote(quote) && (value == "" || !IsContinuation(value[0]))
    ensures Body(value, quote, rest) != "" && !IsContinuation(Body(value, quote, rest)[0])
  {
    if value != "" {
      assert Body(value, quote, rest)[0] == EscapedChar(value[0], quote)[0];
    }
  }

  /** An escaped newline reads back as the newline, whatever comes next. */
  lemma HexNewline(c: char, u: string)
    requires IsCssNewline(c)
    ensures ConsumeEscape(EscapedChar(c, '"')[1..] + u) == Read([c], u)
  {
    var d := EscapedChar(c, '"')[1];
    var t := [d, ' '] + u;
    assert EscapedChar(c, '"')[1..] + u == t;
    assert HexEnd(t, 0, 6) == 1 by { assert HexEnd(t, 1, 5) == 1; }
    assert t[..1] == [d];
    assert HexValue([d]) == c as nat by { assert [d][..0] == ""; }
    assert AfterHex(t, 1) == 2;
    assert t[2..] == u;
  }

  /** An escaped quote or backslash takes the continuation bytes after it along. */
  lemma PairWithContinuations(c: char, run: string, t: string)
    requires c == '"' || c == '\'' || c == '\\'
    requires forall c | c in run :: IsContinuation(c)
    requires t != "" && !IsContinuation(t[0])
    ensures ConsumeEscape([c] + run + t) == Read([c] + run, t)
  {
    hide Continuations;
    var u := [c] + run + t;
    assert u[1..] == run + t;
    ContinuationsOf(run, t);
    assert u[..1 + |run|] == [c] + run;
    assert u[1 + |run|..] == t;
  }

  /** Reading what was written returns the value and stops right after the closing quote. */
  lemma {:induction false} ReadOfBody(value: string, quote: char, rest: string)
    requires IsQuote(quote)
    ensures ReadString(Body(value, quote, rest), quote) == Some(Read(value, rest))
    decreases |value|, 1
  {
    if value == "" {
      assert Body(value, quote, rest)[1..] == rest;
    } else if value[0] == quote || value[0] == '\\' {
      ReadOfPair(value, quote, rest);
    } else {
      ReadOfPlain(value, quote, rest);
    }
  }

  /** One step of the reader over an escape. */
  lemma ReadEscape(c: char, u: string, quote: char, decoded: string, t: string)
    requires IsQuote(quote) && !IsCssNewline(c) && ConsumeEscape([c] + u) == Read(decoded, t)
    ensures ReadString(['\\', c] + u, quote) == Prefixed(decoded, ReadString(t, quote))
  {
    hide ConsumeEscape;
    assert (['\\', c] + u)[1..] == [c] + u;
  }

  lemma {:induction false} ReadOfPair(value: string, quote: char, rest: string)
    requires IsQuote(quote) && value != "" && (value[0] == quote || value[0] == '\\')
    ensures ReadString(Body(value, quote, rest), quote) == Some(Read(value, rest))
    decreases |value|, 0
  {
    hide ConsumeEscape, Continuations, ReadString;
    var c := value[0];
    var run, after := SplitContinuations(value[1..]);
    var t := Body(after, quote, rest);
    BodyOfContinuations(run, after, quote, rest);
    BodyStart(after, quote, rest);
    PairWithContinuations(c, run, t);
    assert [c] + (run + t) == [c] + run + t;
    ReadOfBody(after, quote, rest);
    assert Body(value, quote, rest) == ['\\', c] + (run + t);
    ReadEscape(c, run + t, quote, [c] + run, t);
    assert value == [c] + run + after;
  }

  lemma {:induction false} ReadOfPlain(value: string, quote: char, rest: string)
    requires IsQuote(quote) && value != "" && value[0] != quote && value[0] != '\\'
    ensures ReadString(Body(value, quote, rest), quote) == Some(Read(value, rest))
    decreases |value|, 0
  {
    hide ReadString, EscapedChar;
    var c, u := value[0], Body(value[1..], quote, rest);
    ReadOfBody(value[1..], quote, rest);
    assert [c] + value[1..] == value;
    if IsCssNewline(c) {
      ReadNewline(c, u, quote);
    } else {
      ReadPlainChar(c, u, quote);
    }
  }

  lemma ReadPlainChar(c: char, u: string, quote: char)
    requires c != quote && c != '\\' && !IsCssNewline(c)
    ensures ReadString(EscapedChar(c, quote) + u, quote) == Prefixed([c], ReadString(u, quote))
  {
    hide ConsumeEscape;
    assert EscapedChar(c, quote) == [c] && ([c] + u)[1..] == u;
  }

  lemma ReadNewline(c: char, u: string, quote: char)
    requires IsQuote(quote) && IsCssNewline(c)
    ensures ReadString(EscapedChar(c, quote) + u, quote) == Prefixed([c], ReadString(u, quote))
  {
    hide ConsumeEscape;
    var t := EscapedChar(c, quote) + u;
    assert t[1..] == EscapedChar(c, '"')[1..] + u;
    HexNewline(c, u);
  }

  /** Extraction after quoting is the identity, for every value, quote and surrounding text. */
  lemma QuotedRoundTrip(before: string, value: string, quote: char, rest: string)
    requires IsQuote(quote)
    ensures var css := before + Quoted(value, quote) + rest;
            && css[|before|] == quote
            && ReadString(css[|before| + 1..], quote) == Some(Read(value, rest))
  {
    var css := before + Quoted(value, quote) + rest;
    BodyIsEscaped(value, quote, rest);
    assert css[|before| + 1..] == Escaped(value, quote) + [quote] + rest;
    ReadOfBody(value, quote, rest);
  }

  /** A quoted string read and written again, as a rebase of its URL to the same place does. */
  function Rewritten(text: string): (r: string)
    requires text != "" && IsQuote(text[0])
    ensures r != "" && r[0] == text[0]
  {
    match ReadString(text[1..], text[0])
    case None => text
    case Some(read) => Quoted(read.value, text[0]) + read.rest
  }

  /** Rewriting once gives the normal form: repeated rewriting never adds escapes. */
  lemma RewrittenTwice(text: string)
    requires text != "" && IsQuote(text[0])
    ensures Rewritten(Rewritten(text)) == Rewritten(text)
  {
    hide ReadString;
    var read := ReadString(text[1..], text[0]);
    if read.Some? {
      QuotedRoundTrip("", read.value.value, text[0], read.value.rest);
      assert "" + Quoted(read.value.value, text[0]) + read.value.rest == Rewritten(text);
    }
  }
}
