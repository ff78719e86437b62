/**
 The import prelude of a sheet: which @import statements are harvested, and
 whether a live one is left behind.  The scanners are specified on the text that
 remains, so that a prelude means the same wherever it stands.
 */
module CssImports {
  import opened Options
  import opened Ascii
  import opened CssBalance
  import opened CssStrings

  datatype Import = Import(url: string, media: string, start: nat, end: nat)

  // ---- scanners ---------------------------------------------------------------------

  /** `t` is what remains of `whole` from some position on. */
  predicate Remains(t: string, whole: string) {
    |t| <= |whole| && t == whole[|whole| - |t|..]
  }

  lemma RemainsTwice(a: string, b: string, c: string)
    requires Remains(a, b) && Remains(b, c)
    ensures Remains(a, c)
  {
    assert c[|c| - |b|..][|b| - |a|..] == c[|c| - |a|..];
  }

  function AfterSpace(t: string): (r: string)
    ensures |r| <= |t|
  {
    if t != "" && IsSpace(t[0]) then AfterSpace(t[1..]) else t
  }

  /** What follows leading whitespace and comments; nothing after an unterminated comment. */
  function AfterBlank(t: string): (r: string)
    ensures |r| <= |t|
    decreases |t|
  {
    if t == "" then t
    else if IsSpace(t[0]) then AfterBlank(t[1..])
    else if |t| > 1 && t[0] == '/' && t[1] == '*' then
      match CommentEnd(t, 2)
      case None => ""
      case Some(end) => AfterBlank(t[end..])
    else t
  }

  predicate StartsWithCi(t: string, lower: string) {
    |lower| <= |t| && forall i | 0 <= i < |lower| :: LowerChar(t[i]) == lower[i]
  }

  /** An at-keyword, not extended by identifier characters into another one. */
  predicate AtKeyword(t: string, lower: string) {
    StartsWithCi(t, lower) && (|t| == |lower| || !IsIdentContinue(t[|lower|]))
  }

  predicate Charset(t: string) {
    "@charset" <= t && (|t| == 8 || !IsIdentContinue(t[8]))
  }

  /** An at-statement: the text from its ';' on, if any, its prelude, and whether a '{' stands in it. */
  datatype Statement = Statement(rest: Option<string>, text: string, brace: bool)

  /** Position of the closing quote of the string whose content starts at `i`. */
  function ClosingQuote(t: string, i: nat, quote: char): (r: Option<nat>)
    ensures r.Some? ==> i <= r.value < |t|
    decreases |t| - i
  {
    if i >= |t| then None
    else if t[i] == quote then Some(i)
    else if t[i] == '\\' && i + 1 < |t| then ClosingQuote(t, i + 2, quote)
    else ClosingQuote(t, i + 1, quote)
  }

  function Extended(piece: string, brace: bool, s: Statement): Statement {
    s.(text := piece + s.text, brace := brace || s.brace)
  }

  function ScanAtStatement(t: string): (s: Statement)
    ensures s.rest.Some? ==> 0 < |s.rest.value| <= |t| && s.rest.value[0] == ';'
    decreases |t|
  {
    if t == "" then Statement(None, "", false)
    else if t[0] == '/' && |t| > 1 && t[1] == '*' then
      match CommentEnd(t, 2)
      case None => Statement(None, "", false)
      case Some(end) => Extended(" ", false, ScanAtStatement(t[end..]))
    else if IsQuote(t[0]) then
      match ClosingQuote(t, 1, t[0])
      case None => Statement(None, t, false)
      case Some(end) => Extended(t[..end + 1], false, ScanAtStatement(t[end + 1..]))
    else if t[0] == '\\' then
      var n := if |t| > 1 then 2 else 1;
      Extended(t[..n], false, ScanAtStatement(t[n..]))
    else if t[0] == ';' then Statement(Some(t), "", false)
    else Extended([t[0]], t[0] == '{', ScanAtStatement(t[1..]))
  }

  // ---- the URL of an import -------------------------------------------------------------

  /** An unquoted url token up to whitespace or ')'; none at a bad escape. */
  function ReadRawUrl(t: string): (r: Option<Read>)
    ensures r.Some? ==> |r.value.rest| <= |t|
    decreases |t|
  {
    if t == "" || t[0] == ')' || IsSpace(t[0]) then Some(Read("", t))
    else if t[0] == '\\' then
      if |t| == 1 || IsCssNewline(t[1]) then None
      else
        var e := ConsumeEscape(t[1..]);
        Prefixed(e.value, ReadRawUrl(e.rest))
    else Prefixed([t[0]], ReadRawUrl(t[1..]))
  }

  /** The URL of a url(...) function and what follows it. */
  function ReadUrlFunction(t: string): (r: Option<Read>)
    ensures r.Some? ==> |r.value.rest| < |t|
  {
    if !StartsWithCi(t, "url(") then None
    else
      var u := AfterSpace(t[4..]);
      var inner := if u != "" && IsQuote(u[0]) then ReadString(u[1..], u[0]) else ReadRawUrl(u);
      if inner.None? then None
      else
        var after := AfterSpace(inner.value.rest);
        if after != "" && after[0] == ')' then Some(Read(inner.value.value, after[1..])) else None
  }

  // ---- the prelude ------------------------------------------------------------------------

  function TrimmedEnd(s: string): string {
    if s != "" && IsSpace(s[|s| - 1]) then TrimmedEnd(s[..|s| - 1]) else s
  }

  /** An @import statement: URL, condition, and what follows its ';'. */
  datatype ImportText = ImportText(url: string, media: string, rest: string)

  /** The statement at the "@import" keyword `t` starts with; none when its form is not understood. */
  function ReadImport(t: string): (r: Option<ImportText>)
    requires |t| > 7
    ensures r.Some? ==> |r.value.rest| < |t|
  {
    var u := AfterSpace(t[7..]);
    var url := if u == "" then None
               else if LowerChar(u[0]) == 'u' then ReadUrlFunction(u)
               else if IsQuote(u[0]) then ReadString(u[1..], u[0])
               else None;
    if url.None? then None
    else
      var after := AfterBlank(url.value.rest);
      if after == "" then None
      else if after[0] == ';' then Some(ImportText(url.value.value, "", after[1..]))
      else
        var s := ScanAtStatement(after);
        if s.rest.None? then None else Some(ImportText(url.value.value, TrimmedEnd(s.text), s.rest.value[1..]))
  }

  /** One step through the prelude at `u`: a harvested import, a skipped @layer statement, or its end. */
  datatype Item = Harvested(found: ImportText) | Skipped(rest: string) | Over

  function NextItem(u: string): (r: Item)
    ensures r.Harvested? ==> |r.found.rest| < |u|
    ensures r.Skipped? ==> |r.rest| < |u|
  {
    if u == "" || u[0] != '@' || |u| <= 7 then Over
    else if AtKeyword(u, "@layer") then
      var s := ScanAtStatement(u[6..]);
      if s.rest.None? || s.brace then Over else Skipped(s.rest.value[1..])
    else if !AtKeyword(u, "@import") then Over
    else match ReadImport(u)
      case None => Over
      case Some(found) => Harvested(found)
  }

  /** The imports harvested from `t`, the last `|t|` characters of a sheet of length `size`. */
  function Harvest(t: string, size: nat): seq<Import>
    requires |t| <= size
    decreases |t|
  {
    var u := AfterBlank(t);
    match NextItem(u)
    case Harvested(found) =>
      [Import(found.url, found.media, size - |u|, size - |found.rest|)] + Harvest(found.rest, size)
    case Skipped(rest) => Harvest(rest, size)
    case Over => []
  }

  /** The construct at which harvesting stops. */
  function StopsAt(t: string): string
    decreases |t|
  {
    var u := AfterBlank(t);
    match NextItem(u)
    case Harvested(found) => StopsAt(found.rest)
    case Skipped(rest) => StopsAt(rest)
    case Over => u
  }

  /** What follows a leading @charset statement. */
  function AfterCharset(css: string): (t: string)
    ensures |t| <= |css|
  {
    var t := AfterBlank(css);
    if !Charset(t) then t
    else
      var s := ScanAtStatement(t[8..]);
      if s.rest.Some? then s.rest.value[1..] else t
  }

  function Imports(css: string): seq<Import> {
    Harvest(AfterCharset(css), |css|)
  }

  method ExtractImports(css: string) returns (imports: seq<Import>)
    ensures imports == Imports(css)
  {
    hide NextItem, AfterBlank, AfterCharset;
    imports := [];
    var rest := AfterCharset(css);
    while true
      invariant |rest| <= |css|
      invariant imports + Harvest(rest, |css|) == Imports(css)
      decreases |rest|
    {
      var u := AfterBlank(rest);
      var item := NextItem(u);
      match item
      case Harvested(found) =>
        var one := Import(found.url, found.media, |css| - |u|, |css| - |found.rest|);
        assert imports + ([one] + Harvest(found.rest, |css|)) == imports + [one] + Harvest(found.rest, |css|);
        imports, rest := imports + [one], found.rest;
      case Skipped(after) => rest := after;
      case Over =>
        assert imports + [] == imports;
        return;
    }
  }

  // ---- a live import left behind ---------------------------------------------------------

  /** End of the identifier at `i`; an escape takes the next character along. */
  function IdentEnd(t: string, i: nat): (j: nat)
    ensures i <= j
    decreases |t| - i
  {
    if i < |t| && IsIdentContinue(t[i]) then IdentEnd(t, if t[i] == '\\' then i + 2 else i + 1) else i
  }

  /** The at-statement at `u` after its keyword. */
  function SkipKeyword(u: string): (r: string)
    requires u != ""
    ensures |r| < |u|
  {
    if AtKeyword(u, "@layer") then u[6..]
    else
      var i := IdentEnd(u, 1);
      if i <= |u| then u[i..] else ""
  }

  predicate LiveFrom(u: string)
    decreases |u|
  {
    && u != "" && u[0] == '@'
    && (AtKeyword(u, "@import")
        || var s := ScanAtStatement(SkipKeyword(u));
           s.rest.Some? && !s.brace && LiveFrom(AfterBlank(s.rest.value[1..])))
  }

  /** A live @import follows within the statement prelude of `css`. */
  predicate LiveImport(css: string) {
    var t := AfterBlank(css);
    if !Charset(t) then LiveFrom(t)
    else
      var s := ScanAtStatement(t[8..]);
      s.rest.Some? && LiveFrom(AfterBlank(s.rest.value[1..]))
  }

  method RemainderStartsWithImport(css: string) returns (live: bool)
    ensures live == LiveImport(css)
  {
    hide ScanAtStatement, AfterBlank, SkipKeyword, AtKeyword;
    var u := AfterBlank(css);
    if Charset(u) {
      var s := ScanAtStatement(u[8..]);
      if s.rest.None? { return false; }
      u := AfterBlank(s.rest.value[1..]);
    }
    while u != "" && u[0] == '@'
      invariant LiveFrom(u) == LiveImport(css)
      decreases |u|
    {
      if AtKeyword(u, "@import") { return true; }
      var s := ScanAtStatement(SkipKeyword(u));
      if s.rest.None? || s.brace { return false; }
      u := AfterBlank(s.rest.value[1..]);
    }
    return false;
  }

  // ---- scanners return what remains ------------------------------------------------------

  lemma RemainsFrom(t: string, i: nat)
    requires i <= |t|
    ensures Remains(t[i..], t)
  {}

  lemma {:induction false} AfterSpaceRemains(t: string)
    ensures Remains(AfterSpace(t), t)
  {
    if t != "" && IsSpace(t[0]) {
      AfterSpaceRemains(t[1..]);
      RemainsTwice(AfterSpace(t), t[1..], t);
    }
  }

  lemma {:induction false} AfterBlankRemains(t: string)
    ensures Remains(AfterBlank(t), t)
    decreases |t|
  {
    if t == "" {
    } else if IsSpace(t[0]) {
      AfterBlankRemains(t[1..]);
      RemainsTwice(AfterBlank(t), t[1..], t);
    } else if |t| > 1 && t[0] == '/' && t[1] == '*' {
      var end := CommentEnd(t, 2);
      if end.Some? {
        AfterBlankRemains(t[end.value..]);
        RemainsTwice(AfterBlank(t), t[end.value..], t);
      }
    }
  }

  lemma {:induction false} AfterBlankTwice(t: string)
    ensures AfterBlank(AfterBlank(t)) == AfterBlank(t)
    decreases |t|
  {
    if t == "" {
    } else if IsSpace(t[0]) {
      AfterBlankTwice(t[1..]);
    } else if |t| > 1 && t[0] == '/' && t[1] == '*' {
      var end := CommentEnd(t, 2);
      if end.Some? { AfterBlankTwice(t[end.value..]); }
    }
  }

  lemma {:induction false} ScanRemains(t: string)
    ensures var rest := ScanAtStatement(t).rest; rest.Some? ==> Remains(rest.value, t)
    decreases |t|
  {
    var rest := ScanAtStatement(t).rest;
    if rest.Some? && t[0] != ';' {
      var n := if t[0] == '/' && |t| > 1 && t[1] == '*' then CommentEnd(t, 2).value
               else if IsQuote(t[0]) then ClosingQuote(t, 1, t[0]).value + 1
               else if t[0] == '\\' && |t| > 1 then 2 else 1;
      assert rest == ScanAtStatement(t[n..]).rest;
      ScanRemains(t[n..]);
      RemainsTwice(rest.value, t[n..], t);
    }
  }

  lemma EscapeRemains(t: string)
    ensures Remains(ConsumeEscape(t).rest, t)
  {
    EscapeRest(t);
  }

  lemma {:induction false} ReadStringRemains(t: string, quote: char)
    ensures var r := ReadString(t, quote); r.Some? ==> Remains(r.value.rest, t)
    decreases |t|
  {
    hide ConsumeEscape;
    var r := ReadString(t, quote);
    if r.Some? && t[0] != quote {
      var u := t[1..];
      if t[0] == '\\' {
        if IsCssNewline(t[1]) {
          u := t[if t[1] == '\r' && |t| > 2 && t[2] == '\n' then 3 else 2..];
        } else {
          u := ConsumeEscape(t[1..]).rest;
          EscapeRemains(t[1..]);
          RemainsTwice(u, t[1..], t);
        }
      }
      ReadStringRemains(u, quote);
      RemainsTwice(r.value.rest, u, t);
    }
  }

  lemma {:induction false} ReadRawUrlRemains(t: string)
    ensures var r := ReadRawUrl(t); r.Some? ==> Remains(r.value.rest, t)
    decreases |t|
  {
    hide ConsumeEscape;
    var r := ReadRawUrl(t);
    if r.Some? && t != "" && t[0] != ')' && !IsSpace(t[0]) {
      var u := t[1..];
      if t[0] == '\\' {
        u := ConsumeEscape(t[1..]).rest;
        EscapeRemains(t[1..]);
        RemainsTwice(u, t[1..], t);
      }
      ReadRawUrlRemains(u);
      RemainsTwice(r.value.rest, u, t);
    }
  }

  lemma ReadUrlRemains(t: string)
    ensures var r := ReadUrlFunction(t); r.Some? ==> Remains(r.value.rest, t)
  {
    hide AfterSpace, ReadString, ReadRawUrl, Remains;
    var r := ReadUrlFunction(t);
    if r.Some? {
      var u := AfterSpace(t[4..]);
      AfterSpaceRemains(t[4..]);
      RemainsFrom(t, 4);
      RemainsTwice(u, t[4..], t);
      var inner := ReadRawUrl(u);
      if u != "" && IsQuote(u[0]) {
        inner := ReadString(u[1..], u[0]);
        ReadStringRemains(u[1..], u[0]);
        RemainsFrom(u, 1);
        RemainsTwice(inner.value.rest, u[1..], u);
      } else {
        ReadRawUrlRemains(u);
      }
      RemainsTwice(inner.value.rest, u, t);
      var after := AfterSpace(inner.value.rest);
      AfterSpaceRemains(inner.value.rest);
      RemainsTwice(after, inner.value.rest, t);
      RemainsFrom(after, 1);
      RemainsTwice(after[1..], after, t);
    }
  }

  lemma ReadImportRemains(t: string)
    requires |t| > 7
    ensures var r := ReadImport(t);
            r.Some? ==> Remains(r.value.rest, t) && t[|t| - |r.value.rest| - 1] == ';'
  {
    hide AfterSpace, ReadString, ReadUrlFunction, AfterBlank, ScanAtStatement, Remains, TrimmedEnd;
    var r := ReadImport(t);
    if r.Some? {
      var u := AfterSpace(t[7..]);
      AfterSpaceRemains(t[7..]);
      RemainsFrom(t, 7);
      RemainsTwice(u, t[7..], t);
      var url := if LowerChar(u[0]) == 'u' then ReadUrlFunction(u) else ReadString(u[1..], u[0]);
      ReadUrlRemains(u);
      ReadStringRemains(u[1..], u[0]);
      RemainsFrom(u, 1);
      if LowerChar(u[0]) != 'u' { RemainsTwice(url.value.rest, u[1..], u); }
      RemainsTwice(url.value.rest, u, t);
      var after := AfterBlank(url.value.rest);
      AfterBlankRemains(url.value.rest);
      RemainsTwice(after, url.value.rest, t);
      var end := if after[0] == ';' then after else ScanAtStatement(after).rest.value;
      if after[0] != ';' {
        ScanRemains(after);
        RemainsTwice(end, after, t);
      }
      RemainsFrom(end, 1);
      RemainsTwice(end[1..], end, t);
      RemainsAt(end, t);
    }
  }

  lemma RemainsAt(u: string, t: string)
    requires Remains(u, t) && u != ""
    ensures |u| <= |t| && t[|t| - |u|] == u[0]
  {}

  // ---- the harvest -----------------------------------------------------------------------

  /** From position `from` on, the imports follow one another inside a sheet of length `size`. */
  predicate Ordered(imports: seq<Import>, from: nat, size: nat)
    ensures Ordered(imports, from, size) ==> from <= size
  {
    if imports == [] then from <= size
    else from <= imports[0].start < imports[0].end && Ordered(imports[1..], imports[0].end, size)
  }

  lemma {:induction false} OrderedEarlier(imports: seq<Import>, from: nat, later: nat, size: nat)
    requires from <= later && Ordered(imports, later, size)
    ensures Ordered(imports, from, size)
  {}

  lemma {:induction false} HarvestOrdered(t: string, size: nat)
    requires |t| <= size
    ensures Ordered(Harvest(t, size), size - |t|, size)
    decreases |t|
  {
    hide NextItem, AfterBlank;
    var u := AfterBlank(t);
    match NextItem(u)
    case Harvested(found) => HarvestOrdered(found.rest, size);
    case Skipped(rest) =>
      HarvestOrdered(rest, size);
      OrderedEarlier(Harvest(rest, size), size - |t|, size - |rest|, size);
    case Over =>
  }

  lemma ImportsOrdered(css: string)
    ensures Ordered(Imports(css), 0, |css|)
  {
    HarvestOrdered(AfterCharset(css), |css|);
    OrderedEarlier(Imports(css), 0, |css| - |AfterCharset(css)|, |css|);
  }

  /** Position after the last import. */
  function LastEnd(imports: seq<Import>, from: nat): nat {
    if imports == [] then from else LastEnd(imports[1..], imports[0].end)
  }

  /** An import statement begins with '@' and ends with ';'. */
  ghost predicate Shaped(css: string, imp: Import) {
    imp.start < imp.end <= |css| && css[imp.start] == '@' && css[imp.end - 1] == ';'
  }

  lemma {:induction false} HarvestShape(css: string, t: string)
    requires Remains(t, css)
    ensures forall imp | imp in Harvest(t, |css|) :: Shaped(css, imp)
    decreases |t|
  {
    hide AfterBlank, NextItem, Remains, Shaped;
    var u := AfterBlank(t);
    AfterBlankRemains(t);
    RemainsTwice(u, t, css);
    ItemRemains(u);
    match NextItem(u)
    case Harvested(found) =>
      RemainsTwice(found.rest, u, css);
      HarvestShape(css, found.rest);
      ItemShape(css, u);
    case Skipped(rest) =>
      RemainsTwice(rest, u, css);
      HarvestShape(css, rest);
    case Over =>
  }

  lemma ItemShape(css: string, u: string)
    requires Remains(u, css) && NextItem(u).Harvested?
    ensures var found := NextItem(u).found;
            |found.rest| <= |css| && Shaped(css, Import(found.url, found.media, |css| - |u|, |css| - |found.rest|))
  {
    hide ReadImport, ScanAtStatement, AtKeyword;
    ReadImportRemains(u);
  }

  lemma ImportsShaped(css: string)
    ensures forall imp | imp in Imports(css) :: Shaped(css, imp)
  {
    hide Harvest, Shaped, Remains, AfterBlank, ScanAtStatement;
    CharsetRemains(css);
    HarvestShape(css, AfterCharset(css));
  }

  lemma CharsetRemains(css: string)
    ensures Remains(AfterCharset(css), css)
  {
    hide AfterBlank, ScanAtStatement, Remains;
    var t := AfterBlank(css);
    AfterBlankRemains(css);
    if Charset(t) && ScanAtStatement(t[8..]).rest.Some? {
      var s := ScanAtStatement(t[8..]).rest.value;
      ScanRemains(t[8..]);
      RemainsFrom(t, 8);
      RemainsTwice(s, t[8..], t);
      RemainsFrom(s, 1);
      RemainsTwice(s[1..], s, t);
      RemainsTwice(s[1..], t, css);
    }
  }

  lemma LiveLayer(u: string)
    requires NextItem(u).Skipped? && LiveFrom(AfterBlank(NextItem(u).rest))
    ensures LiveFrom(u)
  {
    hide AfterBlank, ScanAtStatement, ReadImport;
  }

  /** An @import at which the harvest stops is live for the search from the last harvested import on. */
  lemma {:induction false} StopIsLive(css: string, t: string)
    requires Remains(t, css) && AtKeyword(StopsAt(t), "@import")
    ensures var imports := Harvest(t, |css|);
            if imports == [] then LiveFrom(AfterBlank(t))
            else LastEnd(imports, 0) <= |css| && LiveFrom(AfterBlank(css[LastEnd(imports, 0)..]))
    decreases |t|
  {
    hide AfterBlank, NextItem, LiveFrom, Remains, AtKeyword;
    var u := AfterBlank(t);
    AfterBlankRemains(t);
    RemainsTwice(u, t, css);
    ItemRemains(u);
    match NextItem(u)
    case Harvested(found) =>
      RemainsTwice(found.rest, u, css);
      StopIsLive(css, found.rest);
      assert css[|css| - |found.rest|..] == found.rest by { RemainsIs(found.rest, css); }
    case Skipped(rest) =>
      RemainsTwice(rest, u, css);
      StopIsLive(css, rest);
      if Harvest(rest, |css|) == [] { LiveLayer(u); }
    case Over => assert LiveFrom(u) by { KeywordIsLive(u); }
  }

  lemma RemainsIs(t: string, css: string)
    requires Remains(t, css)
    ensures |t| <= |css| && css[|css| - |t|..] == t
  {}

  lemma KeywordIsLive(u: string)
    requires AtKeyword(u, "@import")
    ensures LiveFrom(u)
  {}

  lemma ItemRemains(u: string)
    ensures match NextItem(u)
            case Harvested(found) => Remains(found.rest, u)
            case Skipped(rest) => Remains(rest, u)
            case Over => true
  {
    hide ReadImport, ScanAtStatement, Remains;
    match NextItem(u)
    case Harvested(found) => ReadImportRemains(u);
    case Skipped(rest) =>
      var s := ScanAtStatement(u[6..]).rest.value;
      ScanRemains(u[6..]);
      RemainsFrom(u, 6);
      RemainsTwice(s, u[6..], u);
      RemainsFrom(s, 1);
      RemainsTwice(rest, s, u);
    case Over =>
  }

  lemma CharsetIdent(u: string)
    requires Charset(u)
    ensures IdentEnd(u, 1) == 8 && !AtKeyword(u, "@layer") && !AtKeyword(u, "@import")
  {
    assert IdentEnd(u, 8) == 8;
    assert u[1] == 'c' && u[2] == 'h' && u[3] == 'a' && u[4] == 'r' && u[5] == 's' && u[6] == 'e' && u[7] == 't';
    assert IdentEnd(u, 6) == 8;
    assert IdentEnd(u, 4) == 8;
    assert IdentEnd(u, 2) == 8;
    assert LowerChar(u[1]) == 'c';
  }

  /** A statement that looks like @charset hides nothing from the search. */
  lemma LiveWhole(css: string)
    requires LiveFrom(AfterBlank(css))
    ensures LiveImport(css)
  {
    hide AfterBlank, ScanAtStatement, IdentEnd, AtKeyword;
    var u := AfterBlank(css);
    if Charset(u) {
      CharsetIdent(u);
      assert SkipKeyword(u) == u[8..];
    }
  }

  /**
   Every import form the harvest cannot read is caught: when it stops at an
   @import, the text after the last harvested import holds a live one.
   */
  lemma UnharvestedIsLive(css: string)
    requires AtKeyword(StopsAt(AfterCharset(css)), "@import")
    ensures LastEnd(Imports(css), 0) <= |css|
    ensures LiveImport(css[LastEnd(Imports(css), 0)..])
  {
    hide AfterBlank, Harvest, StopsAt, LiveFrom, ScanAtStatement, Remains, AtKeyword;
    var t := AfterBlank(css);
    AfterBlankRemains(css);
    var after := AfterCharset(css);
    CharsetRemains(css);
    StopIsLive(css, after);
    if Imports(css) == [] {
      assert css[0..] == css;
      AfterBlankTwice(css);
      if after == t { LiveWhole(css); }
    } else {
      LiveWhole(css[LastEnd(Imports(css), 0)..]);
    }
  }
}
