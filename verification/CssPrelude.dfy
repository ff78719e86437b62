/**
 The import prelude under the balance scan: in a balanced sheet whose prelude has
 blanks and imports only, the scan stands between tokens, outside every brace, where
 an import begins and where it ends.
 */
module CssPrelude {
  import opened Options
  import opened Ascii
  import opened CssBalance
  import opened CssEmbed
  import opened CssSeams
  import opened CssStrings
  import opened CssImports

  // ---- passing over text ------------------------------------------------------------------

  /** The scan of `t` goes over all but `u` at depth 0, and then reads `u` as it does alone. */
  ghost predicate Passes(t: string, u: string) {
    && Remains(u, t) && WalkTo(t, 0, 0, 0, |t| - |u|) == Some(0)
    && (u == "" || Detached(t[..|t| - |u|], u))
  }

  lemma Splits(t: string, u: string)
    requires Remains(u, t)
    ensures t == t[..|t| - |u|] + u
  {}

  lemma PassesTwice(t: string, u: string, v: string)
    requires Passes(t, u) && Passes(u, v)
    ensures Passes(t, v)
  {
    hide WalkTo, Remains;
    RemainsTwice(v, u, t);
    Splits(t, u);
    Splits(u, v);
    Splits(t, v);
    var a, b := t[..|t| - |u|], u[..|u| - |v|];
    assert t[..|t| - |v|] == a + b by { PrefixTwice(t, u, v); }
    if u != "" {
      WalkAfter(a, u, 0, 0, 0, |b|);
      WalkOn(t, 0, 0, 0, |a|, |a| + |b|);
    }
    if b == "" { assert a + b == a && u == v; }
  }

  lemma PrefixTwice(t: string, u: string, v: string)
    requires Remains(u, t) && Remains(v, u)
    ensures t[..|t| - |v|] == t[..|t| - |u|] + u[..|u| - |v|]
  {}

  lemma PassedIsBalanced(t: string, u: string)
    requires Balanced(t) && Passes(t, u)
    ensures Balanced(u)
  {
    hide WalkTo, Remains;
    Splits(t, u);
    var a := t[..|t| - |u|];
    if u == "" {
      NothingIsBalanced();
    } else {
      WalkOn(t, 0, 0, 0, |a|, |t|);
      WalkAfter(a, u, 0, 0, 0, |u|);
    }
  }

  lemma PassesNothing(t: string)
    ensures Passes(t, t)
  {}

  /** One token, that ends in a character no identifier continues, or before one. */
  lemma PassesToken(t: string, n: nat)
    requires 0 < n <= |t| && Next(t, 0) == Some(n) && t[0] != '{' && t[0] != '}'
    requires !IsIdentContinue(t[n - 1]) || n == |t| || !IsIdentContinue(t[n])
    ensures Passes(t, t[n..])
  {
    hide Next;
    assert t[..|t| - |t[n..]|] == t[..n];
    assert WalkTo(t, n, 0, 0, n) == Some(0);
    assert WalkTo(t, 0, 0, 0, n) == Some(0);
  }

  lemma {:induction false} PassesSpace(t: string)
    ensures Passes(t, AfterSpace(t))
  {
    hide Passes;
    if t != "" && IsSpace(t[0]) {
      SpaceToken(t);
      PassesSpace(t[1..]);
      PassesTwice(t, t[1..], AfterSpace(t));
    } else {
      PassesNothing(t);
    }
  }

  lemma SpaceToken(t: string)
    requires t != "" && IsSpace(t[0])
    ensures Passes(t, t[1..])
  {
    PassesToken(t, 1);
  }

  lemma CommentToken(t: string, end: nat)
    requires |t| > 1 && t[0] == '/' && t[1] == '*' && CommentEnd(t, 2) == Some(end)
    ensures Passes(t, t[end..])
  {
    CommentCloses(t, 2);
    PassesToken(t, end);
  }

  /** In a balanced text every comment ends, so blanks are passed over. */
  lemma {:induction false} PassesBlank(t: string)
    requires Balanced(t)
    ensures Passes(t, AfterBlank(t))
    decreases |t|
  {
    hide Passes;
    if t == "" {
      PassesNothing(t);
    } else if IsSpace(t[0]) {
      SpaceToken(t);
      PassedIsBalanced(t, t[1..]);
      PassesBlank(t[1..]);
      PassesTwice(t, t[1..], AfterBlank(t));
    } else if |t| > 1 && t[0] == '/' && t[1] == '*' {
      var end := CommentEnd(t, 2);
      CommentToken(t, end.value);
      PassedIsBalanced(t, t[end.value..]);
      PassesBlank(t[end.value..]);
      PassesTwice(t, t[end.value..], AfterBlank(t));
    } else {
      PassesNothing(t);
    }
  }

  // ---- strings -------------------------------------------------------------------------------

  predicate PlainInString(c: char, quote: char) {
    c != quote && c != '\\' && !IsCssNewline(c)
  }

  lemma {:induction false} ContinuationBytes(t: string)
    ensures forall k | 0 <= k < Continuations(t) :: IsContinuation(t[k])
  {
    if t != "" && IsContinuation(t[0]) { ContinuationBytes(t[1..]); }
  }

  /** After the first character of an escape come characters that are plain in a string, or a newline. */
  lemma EscapeTail(t: string, quote: char)
    requires t != "" && IsQuote(quote)
    ensures var j := |t| - |ConsumeEscape(t).rest|;
            1 <= j <= |t| && forall i | 1 <= i < j :: PlainInString(t[i], quote) || IsCssNewline(t[i])
  {
    if IsHexDigit(t[0]) {
      HexDigits(t, 0, 6);
    } else {
      ContinuationBytes(t[1..]);
      forall i | 1 <= i < 1 + Continuations(t[1..]) ensures PlainInString(t[i], quote) { assert t[i] == t[1..][i - 1]; }
    }
  }

  /** One step of the reader of a string. */
  lemma StringStep(t: string, quote: char)
    requires ReadString(t, quote).Some?
    ensures t != "" && (t[0] == quote ==> ReadString(t, quote).value.rest == t[1..])
    ensures t[0] != quote ==>
              && (t[0] == '\\' ==> |t| > 1)
              && var next := if t[0] != '\\' then t[1..]
                             else if IsCssNewline(t[1]) then
                               t[if t[1] == '\r' && |t| > 2 && t[2] == '\n' then 3 else 2..]
                             else ConsumeEscape(t[1..]).rest;
                 ReadString(next, quote).Some? && ReadString(next, quote).value.rest == ReadString(t, quote).value.rest
  {
    hide ConsumeEscape;
  }

  /** One step of the scan of a string. */
  lemma StringEndStep(s: string, p: nat, quote: char)
    requires p < |s| && s[p] != quote && StringEnd(s, p, quote).Some?
    ensures s[p] != '\\' ==> StringEnd(s, p, quote) == StringEnd(s, p + 1, quote)
    ensures s[p] == '\\' && p + 1 < |s| && IsCssNewline(s[p + 1]) ==>
              StringEnd(s, p, quote)
              == StringEnd(s, p + (if s[p + 1] == '\r' && p + 2 < |s| && s[p + 2] == '\n' then 3 else 2), quote)
  {}

  /** The two readers of a string agree on where it ends, unless a newline breaks it. */
  lemma {:induction false} StringsAgree(s: string, p: nat, quote: char)
    requires p <= |s| && IsQuote(quote) && ReadString(s[p..], quote).Some? && StringEnd(s, p, quote).Some?
    ensures StringEnd(s, p, quote) == Some(|s| - |ReadString(s[p..], quote).value.rest|)
    decreases |s| - p
  {
    hide ConsumeEscape, ReadString, StringEnd;
    var t := s[p..];
    StringStep(t, quote);
    assert t[0] == s[p];
    if t[0] == quote {
      assert StringEnd(s, p, quote) == Some(p + 1) by { StringEndsHere(s, p, quote); }
    } else {
      StringEndStep(s, p, quote);
      if t[0] != '\\' {
        assert t[1..] == s[p + 1..];
        StringsAgree(s, p + 1, quote);
      } else if IsCssNewline(t[1]) {
        var n := if t[1] == '\r' && |t| > 2 && t[2] == '\n' then 3 else 2;
        assert t[n..] == s[p + n..];
        StringsAgree(s, p + n, quote);
      } else {
        var q := EscapePassed(s, p, quote);
        StringsAgree(s, q, quote);
      }
    }
  }

  lemma StringEndsHere(s: string, p: nat, quote: char)
    requires p < |s| && s[p] == quote
    ensures StringEnd(s, p, quote) == Some(p + 1)
  {}

  /** Where the escape at `p` ends. */
  lemma EscapePassed(s: string, p: nat, quote: char) returns (q: nat)
    requires p + 1 < |s| && s[p] == '\\' && !IsCssNewline(s[p + 1]) && IsQuote(quote) && StringEnd(s, p, quote).Some?
    ensures p + 2 <= q <= |s| && ConsumeEscape(s[p..][1..]).rest == s[q..]
    ensures StringEnd(s, p, quote) == StringEnd(s, q, quote)
  {
    hide ConsumeEscape, StringEnd;
    var t := s[p..][1..];
    assert t == s[p + 1..];
    var e := ConsumeEscape(t);
    EscapeRemains(t);
    EscapeTail(t, quote);
    q := |s| - |e.rest|;
    assert e.rest == s[q..];
    EscapeSkips(s, p, q, quote);
  }

  lemma EscapeSkips(s: string, p: nat, q: nat, quote: char)
    requires p + 2 <= q <= |s| && s[p] == '\\' && !IsCssNewline(s[p + 1]) && IsQuote(quote)
    requires var t := s[p + 1..]; forall i | 1 <= i < q - p - 1 :: PlainInString(t[i], quote) || IsCssNewline(t[i])
    requires StringEnd(s, p, quote).Some?
    ensures StringEnd(s, p, quote) == StringEnd(s, q, quote)
  {
    forall i | p + 2 <= i < q ensures PlainInString(s[i], quote) || IsCssNewline(s[i]) {
      assert s[p + 1..][i - p - 1] == s[i];
    }
    NoNewlineInside(s, p + 2, q, quote);
  }

  /** A string that ends has no bare newline on the way. */
  lemma {:induction false} NoNewlineInside(s: string, p: nat, q: nat, quote: char)
    requires p <= q <= |s| && StringEnd(s, p, quote).Some? && IsQuote(quote)
    requires forall i | p <= i < q :: PlainInString(s[i], quote) || IsCssNewline(s[i])
    ensures StringEnd(s, p, quote) == StringEnd(s, q, quote)
    decreases q - p
  {
    if p < q { NoNewlineInside(s, p + 1, q, quote); }
  }

  lemma {:induction false} StringCloses(s: string, p: nat, quote: char)
    requires StringEnd(s, p, quote).Some?
    ensures s[StringEnd(s, p, quote).value - 1] == quote
    decreases |s| - p
  {
    if s[p] == quote {
    } else if s[p] == '\\' && p + 1 < |s| {
      StringCloses(s, p + (if s[p + 1] == '\r' && p + 2 < |s| && s[p + 2] == '\n' then 3 else 2), quote);
    } else {
      StringCloses(s, p + 1, quote);
    }
  }

  lemma FirstToken(t: string)
    requires Balanced(t) && t != ""
    ensures Next(t, 0).Some?
  {
    hide Next;
  }

  lemma PassesString(u: string)
    requires Balanced(u) && u != "" && IsQuote(u[0]) && ReadString(u[1..], u[0]).Some?
    ensures Passes(u, ReadString(u[1..], u[0]).value.rest)
  {
    hide ReadString, StringEnd, Passes;
    FirstToken(u);
    var end := StringEnd(u, 1, u[0]);
    assert Next(u, 0) == end by { QuoteToken(u); }
    StringsAgree(u, 1, u[0]);
    StringCloses(u, 1, u[0]);
    var rest := ReadString(u[1..], u[0]).value.rest;
    ReadStringRemains(u[1..], u[0]);
    RemainsFrom(u, 1);
    RemainsTwice(rest, u[1..], u);
    PassesToken(u, end.value);
    RemainsIs(rest, u);
  }

  lemma QuoteToken(u: string)
    requires u != "" && IsQuote(u[0])
    ensures Next(u, 0) == StringEnd(u, 1, u[0])
  {
    hide StringEnd;
  }

  // ---- url(...) -------------------------------------------------------------------------------

  lemma {:induction false} RawSkips(s: string, p: nat, q: nat)
    requires p <= q <= |s| && forall i | p <= i < q :: s[i] != ')' && s[i] != '\\'
    ensures RawUrlEnd(s, p) == RawUrlEnd(s, q)
    decreases q - p
  {
    if p < q { RawSkips(s, p + 1, q); }
  }

  /** One step of the reader of an unquoted URL. */
  lemma RawUrlStep(t: string)
    requires ReadRawUrl(t).Some?
    ensures var rest := ReadRawUrl(t).value.rest;
            if t == "" || t[0] == ')' || IsSpace(t[0]) then rest == t
            else
              && (t[0] == '\\' ==> |t| > 1)
              && var next := ReadRawUrl(if t[0] == '\\' then ConsumeEscape(t[1..]).rest else t[1..]);
                 next.Some? && next.value.rest == rest
  {
    hide ConsumeEscape;
  }

  /** Both readers of an unquoted URL come to the same place. */
  lemma {:induction false} RawUrlsAgree(s: string, p: nat)
    requires p <= |s| && ReadRawUrl(s[p..]).Some?
    ensures RawUrlEnd(s, p) == RawUrlEnd(s, |s| - |ReadRawUrl(s[p..]).value.rest|)
    decreases |s| - p
  {
    hide ConsumeEscape, ReadRawUrl, RawUrlEnd;
    var t := s[p..];
    RawUrlStep(t);
    if t == "" || t[0] == ')' || IsSpace(t[0]) {
      assert |s| - |t| == p;
    } else if t[0] == '\\' {
      var q := RawEscapePassed(s, p);
      RawUrlsAgree(s, q);
    } else {
      assert t[1..] == s[p + 1..];
      RawSkips(s, p, p + 1);
      RawUrlsAgree(s, p + 1);
    }
  }

  lemma RawEscapePassed(s: string, p: nat) returns (q: nat)
    requires p + 1 < |s| && s[p] == '\\'
    ensures p + 2 <= q <= |s| && ConsumeEscape(s[p..][1..]).rest == s[q..] && RawUrlEnd(s, p) == RawUrlEnd(s, q)
  {
    hide ConsumeEscape, RawUrlEnd;
    var t := s[p..][1..];
    assert t == s[p + 1..];
    EscapeRemains(t);
    EscapeTail(t, '"');
    q := |s| - |ConsumeEscape(t).rest|;
    RawEscapeSkips(s, p, q);
  }

  lemma RawEscapeSkips(s: string, p: nat, q: nat)
    requires p + 2 <= q <= |s| && s[p] == '\\'
    requires var j, t := q - p - 1, s[p + 1..]; j == |t| - |ConsumeEscape(t).rest|
    ensures RawUrlEnd(s, p) == RawUrlEnd(s, q)
  {
    var t := s[p + 1..];
    forall i | p + 2 <= i < q ensures s[i] != ')' && s[i] != '\\' {
      assert s[i] == t[i - p - 1];
      EscapeBytes(t, i - p - 1);
    }
    RawSkips(s, p + 2, q);
  }

  lemma EscapeBytes(t: string, i: nat)
    requires t != "" && 1 <= i < |t| - |ConsumeEscape(t).rest|
    ensures t[i] != ')' && t[i] != '\\'
  {
    if IsHexDigit(t[0]) {
      HexDigits(t, 0, 6);
    } else {
      ContinuationBytes(t[1..]);
      assert t[i] == t[1..][i - 1];
    }
  }

  lemma {:induction false} SkipIsAfter(s: string, i: nat)
    requires i <= |s|
    ensures AfterSpace(s[i..]) == s[SkipSpace(s, i)..]
    decreases |s| - i
  {
    if i < |s| && IsSpace(s[i]) {
      assert s[i..][1..] == s[i + 1..];
      SkipIsAfter(s, i + 1);
    }
  }

  lemma {:induction false} SpacesAreSpaces(s: string, i: nat)
    requires i <= |s|
    ensures forall k | i <= k < SkipSpace(s, i) :: IsSpace(s[k])
    decreases |s| - i
  {
    if i < |s| && IsSpace(s[i]) { SpacesAreSpaces(s, i + 1); }
  }

  lemma UrlStarts(t: string)
    requires StartsWithCi(t, "url(")
    ensures |t| >= 4 && UrlTokenAt(t, 0)
  {
    assert LowerChar(t[0]) == 'u' && LowerChar(t[1]) == 'r' && LowerChar(t[2]) == 'l' && LowerChar(t[3]) == '(';
  }

  lemma PassesUrl(t: string)
    requires Balanced(t) && ReadUrlFunction(t).Some?
    ensures Passes(t, ReadUrlFunction(t).value.rest)
  {
    hide Passes, ReadString, ReadRawUrl, AfterSpace, SkipSpace, RawUrlEnd, StringEnd;
    UrlStarts(t);
    var u := AfterSpace(t[4..]);
    SkipIsAfter(t, 4);
    FirstToken(t);
    if u != "" && IsQuote(u[0]) {
      PassesQuotedUrl(t, u);
    } else {
      PassesRawUrl(t, u);
    }
  }

  lemma PassesQuotedUrl(t: string, u: string)
    requires Balanced(t) && ReadUrlFunction(t).Some? && u == AfterSpace(t[4..]) && u != "" && IsQuote(u[0])
    ensures Passes(t, ReadUrlFunction(t).value.rest)
  {
    hide Passes, ReadString, ReadRawUrl, AfterSpace, SkipSpace, RawUrlEnd, StringEnd, UrlTokenAt;
    UrlStarts(t);
    SkipIsAfter(t, 4);
    assert Next(t, 0) == Some(4);
    assert t[3] == '(' by { assert LowerChar(t[3]) == '('; }
    PassesToken(t, 4);
    PassedIsBalanced(t, t[4..]);
    PassesSpace(t[4..]);
    PassesTwice(t, t[4..], u);
    PassedIsBalanced(t, u);
    PassesString(u);
    var inner := ReadString(u[1..], u[0]).value.rest;
    PassesTwice(t, u, inner);
    PassesSpace(inner);
    var after := AfterSpace(inner);
    PassesTwice(t, inner, after);
    CloseToken(after);
    PassesTwice(t, after, after[1..]);
  }

  lemma CloseToken(t: string)
    requires t != "" && (t[0] == ')' || t[0] == ';' || t[0] == '@')
    ensures Passes(t, t[1..])
  {
    PassesToken(t, 1);
  }

  lemma PassesRawUrl(t: string, u: string)
    requires Balanced(t) && ReadUrlFunction(t).Some? && u == AfterSpace(t[4..]) && !(u != "" && IsQuote(u[0]))
    ensures Passes(t, ReadUrlFunction(t).value.rest)
  {
    hide Passes, ReadString, ReadRawUrl, AfterSpace, SkipSpace, RawUrlEnd, StringEnd, UrlTokenAt, Balanced;
    UrlStarts(t);
    SkipIsAfter(t, 4);
    var p := SkipSpace(t, 4);
    var r := RawUrlStops(t, p);
    assert t[p..] == u;
    assert Next(t, 0) == Some(r + 1);
    PassesToken(t, r + 1);
    assert t[r..][1..] == t[r + 1..];
  }

  /** Where an unquoted URL and the whitespace after it end. */
  lemma RawUrlStops(t: string, p: nat) returns (r: nat)
    requires p <= |t| && ReadRawUrl(t[p..]).Some?
    requires var after := AfterSpace(ReadRawUrl(t[p..]).value.rest); after != "" && after[0] == ')'
    ensures r < |t| && t[r] == ')' && RawUrlEnd(t, p) == r
    ensures AfterSpace(ReadRawUrl(t[p..]).value.rest) == t[r..]
  {
    hide ReadRawUrl, AfterSpace, SkipSpace, RawUrlEnd, Remains;
    var u := t[p..];
    var inner := ReadRawUrl(u).value.rest;
    ReadRawUrlRemains(u);
    RemainsFrom(t, p);
    RemainsTwice(inner, u, t);
    RemainsIs(inner, t);
    var q := |t| - |inner|;
    RawUrlsAgree(t, p);
    SkipIsAfter(t, q);
    r := SkipSpace(t, q);
    forall i | q <= i < r ensures t[i] != ')' && t[i] != '\\' { SpacesAreSpaces(t, q); }
    RawSkips(t, q, r);
    RawStops(t, r);
  }

  lemma RawStops(s: string, r: nat)
    requires r < |s| && s[r] == ')'
    ensures RawUrlEnd(s, r) == r
  {}

  // ---- import statements ----------------------------------------------------------------------

  lemma PassesKeyword(u: string)
    requires |u| > 7 && AtKeyword(u, "@import")
    ensures Passes(u, u[7..])
  {
    hide WalkTo;
    var word := "@import";
    forall i | 0 <= i < 7 ensures PlainToken(u[i]) { assert LowerChar(u[i]) == word[i]; }
    PlainRun(u, 0, 7);
    assert u[..|u| - |u[7..]|] == u[..7];
  }

  lemma {:induction false} TrimmedIsHarmless(raw: string)
    requires SafeFrom(TrimmedEnd(raw), 0, 0)
    ensures Harmless(raw)
    decreases |raw|
  {
    if raw != "" && IsSpace(raw[|raw| - 1]) {
      var front := raw[..|raw| - 1];
      TrimmedIsHarmless(front);
      forall i | 0 <= i < |raw| ensures HarmlessAt(raw, i) {
        if i < |front| {
          assert HarmlessAt(front, i) && raw[i] == front[i];
          if raw[i] == '(' {
            var j :| i < j < |front| && front[j] == ')';
            assert raw[j] == ')';
          }
        }
      }
    } else {
      SafeIsHarmless(raw, 0, 0);
    }
  }

  /** The condition of an import, written without comments, up to its ';'. */
  lemma PassesCondition(after: string, rest: string)
    requires Remains(rest, after) && rest != "" && rest[0] == ';'
    requires SafeFrom(TrimmedEnd(after[..|after| - |rest|]), 0, 0)
    ensures Passes(after, rest)
  {
    hide WalkTo, TrimmedEnd, SafeFrom, Harmless;
    var raw := after[..|after| - |rest|];
    Splits(after, rest);
    TrimmedIsHarmless(raw);
    HarmlessWalk(raw, 0, 0, 0);
    WalkBefore(raw, rest, 0, 0, 0);
  }

  /** What follows the URL of the import `u` starts with, and the blanks after it. */
  function AfterUrl(u: string): Option<string>
    requires |u| > 7
  {
    var v := AfterSpace(u[7..]);
    var url := if v == "" then None
               else if LowerChar(v[0]) == 'u' then ReadUrlFunction(v)
               else if IsQuote(v[0]) then ReadString(v[1..], v[0])
               else None;
    if url.None? then None else Some(AfterBlank(url.value.rest))
  }

  /** The condition of the import, if it has one, is written without comments. */
  ghost predicate BareCondition(u: string)
    requires |u| > 7
  {
    var after := AfterUrl(u);
    after.Some? && after.value != "" && after.value[0] != ';' ==>
      var s := ScanAtStatement(after.value);
      s.rest.Some? ==> |s.rest.value| <= |after.value|
                       && after.value[..|after.value| - |s.rest.value|] == s.text
  }

  lemma PassesToCondition(u: string)
    requires Balanced(u) && |u| > 7 && AtKeyword(u, "@import") && AfterUrl(u).Some?
    ensures Passes(u, AfterUrl(u).value)
  {
    hide Passes, ReadString, ReadUrlFunction, AfterSpace, AfterBlank, Balanced, AtKeyword;
    var v := AfterSpace(u[7..]);
    PassesKeyword(u);
    PassesSpace(u[7..]);
    PassesTwice(u, u[7..], v);
    PassedIsBalanced(u, v);
    var url := if LowerChar(v[0]) == 'u' then ReadUrlFunction(v) else ReadString(v[1..], v[0]);
    var rest := url.value.rest;
    if LowerChar(v[0]) == 'u' { PassesUrl(v); } else { PassesString(v); }
    PassesTwice(u, v, rest);
    PassedIsBalanced(u, rest);
    PassesBlank(rest);
    PassesTwice(u, rest, AfterBlank(rest));
  }

  /** The scan passes over an import statement. */
  lemma PassesImport(u: string)
    requires Balanced(u) && |u| > 7 && AtKeyword(u, "@import") && ReadImport(u).Some? && BareCondition(u)
    requires ReadImport(u).value.media == "" || SafeFrom(ReadImport(u).value.media, 0, 0)
    ensures Passes(u, ReadImport(u).value.rest)
  {
    hide Passes, ReadString, ReadUrlFunction, AfterSpace, AfterBlank, Balanced, AtKeyword, ScanAtStatement, TrimmedEnd,
      SafeFrom;
    PassesToCondition(u);
    var after := AfterUrl(u).value;
    if after[0] == ';' {
      CloseToken(after);
      PassesTwice(u, after, after[1..]);
    } else {
      var s := ScanAtStatement(after);
      var rest := s.rest.value;
      ScanRemains(after);
      NothingIsSafe();
      PassesCondition(after, rest);
      PassesTwice(u, after, rest);
      CloseToken(rest);
      PassesTwice(u, rest, rest[1..]);
    }
  }

  lemma NothingIsSafe()
    ensures SafeFrom("", 0, 0)
  {}

  // ---- the prelude ----------------------------------------------------------------------------

  /** Blanks are sealed. */
  lemma {:induction false} BlankIsSealed(t: string)
    requires Balanced(t)
    ensures Sealed(t[..|t| - |AfterBlank(t)|])
    decreases |t|
  {
    hide Balanced, Sealed, CommentEnd;
    if t != "" && IsSpace(t[0]) {
      SpaceToken(t);
      BlankGoesOn(t, 1);
    } else if |t| > 1 && t[0] == '/' && t[1] == '*' {
      assert CommentEnd(t, 2).Some? by { CommentIsClosed(t); }
      var end := CommentEnd(t, 2).value;
      CommentToken(t, end);
      BlankGoesOn(t, end);
    } else {
      assert t[..|t| - |AfterBlank(t)|] == "";
      assert Sealed("") by { NothingIsSealed(); }
    }
  }

  lemma CommentIsClosed(t: string)
    requires Balanced(t) && |t| > 1 && t[0] == '/' && t[1] == '*'
    ensures CommentEnd(t, 2).Some?
  {
    hide CommentEnd;
    FirstToken(t);
  }

  /** One blank and then more of them. */
  lemma {:induction false} BlankGoesOn(t: string, n: nat)
    requires Balanced(t) && 0 < n <= |t| && Passes(t, t[n..]) && AfterBlank(t) == AfterBlank(t[n..])
    requires (n == 1 && IsSpace(t[0])) || (|t| > 1 && t[0] == '/' && t[1] == '*' && CommentEnd(t, 2) == Some(n))
    ensures Sealed(t[..|t| - |AfterBlank(t)|])
    decreases |t|, 0
  {
    hide Balanced, Sealed, CommentEnd, Passes, AfterBlank;
    var first, rest := t[..n], t[n..];
    PassedIsBalanced(t, rest);
    BlankIsSealed(rest);
    OneBlank(t, n);
    var more := rest[..|rest| - |AfterBlank(rest)|];
    SealedTwice(first, more);
    assert t[..|t| - |AfterBlank(t)|] == first + more;
  }

  lemma OneBlank(t: string, n: nat)
    requires 0 < n <= |t|
    requires (n == 1 && IsSpace(t[0])) || (|t| > 1 && t[0] == '/' && t[1] == '*' && CommentEnd(t, 2) == Some(n))
    ensures Balanced(t[..n]) && Sealed(t[..n])
  {
    var first := t[..n];
    if t[0] == '/' {
      assert t == first + t[n..];
      CommentEndWithin(first, t[n..], 2);
      assert first[..0] == "" && first[0..] == first && first[n..] == "";
      assert Lid(first, n);
      assert SealedAt(first, 0, n);
      assert Next(first, 0) == Some(n);
    } else {
      SpacesPass(first, 0, 0, 0, 1);
      assert Spaces(first);
    }
  }

  /** Nothing but blanks and imports before the imports end, and conditions without comments. */
  ghost predicate PlainPrelude(t: string)
    decreases |t|
  {
    var u := AfterBlank(t);
    match NextItem(u)
    case Harvested(found) => BareCondition(u) && PlainPrelude(found.rest)
    case Skipped(_) => false
    case Over => true
  }

  ghost predicate PlainSheet(css: string) {
    !Charset(AfterBlank(css)) && PlainPrelude(css)
  }

  /** Where the imports stand: between tokens, outside every brace, with sealed stretches before them. */
  ghost predicate Stand(css: string, imports: seq<Import>, from: nat) {
    if imports == [] then true
    else
      && from <= imports[0].start && Between(css, imports[0].start) && Between(css, imports[0].end)
      && Sealed(css[from..imports[0].start]) && Stand(css, imports[1..], imports[0].end)
  }

  ghost predicate SafeMedia(imports: seq<Import>) {
    forall imp | imp in imports :: imp.media == "" || SafeFrom(imp.media, 0, 0)
  }

  lemma {:induction false} HarvestStands(css: string, t: string)
    requires Balanced(css) && Passes(css, t) && PlainPrelude(t) && |t| <= |css| && SafeMedia(Harvest(t, |css|))
    ensures Stand(css, Harvest(t, |css|), |css| - |t|)
    decreases |t|
  {
    hide Balanced, Passes, NextItem, AfterBlank, Between, Sealed, SafeMedia, BareCondition;
    match NextItem(AfterBlank(t))
    case Harvested(found) =>
      var rest := Harvest(found.rest, |css|);
      var imp := Import(found.url, found.media, |css| - |AfterBlank(t)|, |css| - |found.rest|);
      assert ([imp] + rest)[1..] == rest;
      SafeFirst(imp, rest);
      OneStands(css, t);
      HarvestStands(css, found.rest);
    case Over =>
  }

  lemma SafeFirst(imp: Import, rest: seq<Import>)
    requires SafeMedia([imp] + rest)
    ensures (imp.media == "" || SafeFrom(imp.media, 0, 0)) && SafeMedia(rest)
  {
    hide SafeFrom;
    assert imp in [imp] + rest;
    assert forall i | i in rest :: i in [imp] + rest;
  }

  /** The first import of the rest of a prelude. */
  lemma OneStands(css: string, t: string)
    requires Balanced(css) && Passes(css, t) && |t| <= |css| && PlainPrelude(t) && NextItem(AfterBlank(t)).Harvested?
    requires var m := NextItem(AfterBlank(t)).found.media; m == "" || SafeFrom(m, 0, 0)
    ensures var u, rest := AfterBlank(t), NextItem(AfterBlank(t)).found.rest;
            && Passes(css, rest) && |rest| < |u| <= |t|
            && Between(css, |css| - |u|) && Between(css, |css| - |rest|)
            && Sealed(css[|css| - |t|..|css| - |u|])
  {
    hide Balanced, Passes, NextItem, AfterBlank, Between, Sealed, SafeFrom, BareCondition;
    var u := AfterBlank(t);
    var rest := NextItem(u).found.rest;
    PassedIsBalanced(css, t);
    HarvestedIsLong(u);
    PassesBlank(t);
    PassedIsBalanced(t, u);
    PassesTwice(css, t, u);
    HarvestedPasses(u);
    PassesTwice(css, u, rest);
    PassedIsBetween(css, u);
    PassedIsBetween(css, rest);
    BlankIsSealed(t);
    GapIs(css, t, u);
  }

  lemma HarvestedIsLong(u: string)
    requires NextItem(u).Harvested?
    ensures |u| > 7
  {}

  lemma HarvestedPasses(u: string)
    requires Balanced(u) && NextItem(u).Harvested? && |u| > 7 && BareCondition(u)
    requires var m := NextItem(u).found.media; m == "" || SafeFrom(m, 0, 0)
    ensures Passes(u, NextItem(u).found.rest)
  {
    hide Balanced, Passes, ReadImport, BareCondition, SafeFrom, AtKeyword, ScanAtStatement;
    PassesImport(u);
  }

  lemma PassedIsBetween(css: string, u: string)
    requires Passes(css, u)
    ensures |u| <= |css| && Between(css, |css| - |u|)
  {}

  lemma GapIs(css: string, t: string, u: string)
    requires Passes(css, t) && Passes(t, u)
    ensures |u| <= |t| <= |css| && css[|css| - |t|..|css| - |u|] == t[..|t| - |u|]
  {
    hide WalkTo;
  }

  /** In a balanced sheet with a plain prelude every import stands where it can be cut out. */
  lemma PlainStands(css: string)
    requires Balanced(css) && PlainSheet(css) && SafeMedia(Imports(css))
    ensures Stand(css, Imports(css), 0)
  {
    hide Balanced, AfterBlank, NextItem, Stand, SafeMedia, PlainPrelude;
    AfterBlankTwice(css);
    assert Harvest(css, |css|) == Harvest(AfterBlank(css), |css|);
    PassesNothing(css);
    HarvestStands(css, css);
  }
}
