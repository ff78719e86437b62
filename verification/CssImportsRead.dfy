/**
 What the import prelude of a sheet says is what is harvested from it: a list of
 @import statements, with URLs written in any of three forms and conditions, is
 read back as those URLs and conditions, in order.
 */
module CssImportsRead {
  import opened Options
  import opened Ascii
  import opened CssBalance
  import opened CssStrings
  import opened CssImports

  // ---- writing a URL without quotes -----------------------------------------------------------

  /** Characters that cannot stand in a url() unescaped. */
  predicate Special(c: char) {
    c == ')' || c == '(' || c == '"' || c == '\'' || c == '\\' || c == ' ' || c == '\t' || c as int == 11
  }

  function UrlChar(c: char): string {
    if Special(c) then ['\\', c]
    else if c == '\n' then "\\A " else if c == '\r' then "\\D " else if c as int == 12 then "\\C "
    else [c]
  }

  /** The body of a url(), its ')' and what follows. */
  function UrlText(url: string, rest: string): string {
    if url == "" then ")" + rest else UrlChar(url[0]) + UrlText(url[1..], rest)
  }

  lemma {:induction false} UrlOfContinuations(run: string, url: string, rest: string)
    requires forall c | c in run :: IsContinuation(c)
    ensures UrlText(run + url, rest) == run + UrlText(url, rest)
    decreases |run|
  {
    if run == "" {
      assert run + url == url;
    } else {
      UrlOfContinuations(run[1..], url, rest);
      assert (run + url)[1..] == run[1..] + url && (run + url)[0] == run[0];
      assert run[0] in run;
      assert [run[0]] + (run[1..] + UrlText(url, rest)) == run + UrlText(url, rest);
    }
  }

  lemma UrlStart(url: string, rest: string)
    ensures UrlText(url, rest) != ""
    ensures url == "" || !IsContinuation(url[0]) ==> !IsContinuation(UrlText(url, rest)[0])
    ensures !IsSpace(UrlText(url, rest)[0]) && !IsQuote(UrlText(url, rest)[0])
  {
    if url != "" { assert UrlText(url, rest)[0] == UrlChar(url[0])[0]; }
  }

  lemma SpecialWithContinuations(c: char, run: string, t: string)
    requires Special(c) && (forall c | c in run :: IsContinuation(c)) && t != "" && !IsContinuation(t[0])
    ensures ConsumeEscape([c] + run + t) == Read([c] + run, t)
  {
    hide Continuations;
    var u := [c] + run + t;
    assert u[1..] == run + t;
    ContinuationsOf(run, t);
    assert u[..1 + |run|] == [c] + run;
    assert u[1 + |run|..] == t;
  }

  lemma RawEscape(c: char, u: string, decoded: string, t: string)
    requires !IsCssNewline(c) && ConsumeEscape([c] + u) == Read(decoded, t)
    ensures ReadRawUrl(['\\', c] + u) == Prefixed(decoded, ReadRawUrl(t))
  {
    hide ConsumeEscape;
    assert (['\\', c] + u)[1..] == [c] + u;
  }

  lemma RawPlain(c: char, u: string)
    requires c != ')' && c != '\\' && !IsSpace(c)
    ensures ReadRawUrl([c] + u) == Prefixed([c], ReadRawUrl(u))
  {
    assert ([c] + u)[1..] == u;
  }

  lemma RawNewline(c: char, u: string)
    requires IsCssNewline(c)
    ensures ReadRawUrl(UrlChar(c) + u) == Prefixed([c], ReadRawUrl(u))
  {
    hide ConsumeEscape, ReadRawUrl;
    HexNewline(c, u);
    var d := EscapedChar(c, '"')[1];
    assert EscapedChar(c, '"')[1..] + u == [d] + (" " + u);
    assert UrlChar(c) + u == ['\\', d] + (" " + u);
    RawEscape(d, " " + u, [c], u);
  }

  /** Reading an escaped url() body returns the URL and stops at the ')'. */
  lemma {:induction false} ReadOfUrl(url: string, rest: string)
    ensures ReadRawUrl(UrlText(url, rest)) == Some(Read(url, ")" + rest))
    decreases |url|
  {
    hide ReadRawUrl;
    if url == "" {
      assert ReadRawUrl(")" + rest) == Some(Read("", ")" + rest)) by { RawEnds(rest); }
    } else if Special(url[0]) {
      ReadOfSpecial(url, rest);
    } else {
      var c, u := url[0], UrlText(url[1..], rest);
      ReadOfUrl(url[1..], rest);
      assert [c] + url[1..] == url;
      if IsCssNewline(c) { RawNewline(c, u); } else { RawPlain(c, u); }
    }
  }

  lemma RawEnds(rest: string)
    ensures ReadRawUrl(")" + rest) == Some(Read("", ")" + rest))
  {}

  lemma SpecialText(c: char, run: string, after: string, rest: string)
    requires Special(c) && forall c | c in run :: IsContinuation(c)
    ensures UrlText([c] + run + after, rest) == ['\\', c] + (run + UrlText(after, rest))
  {
    UrlOfContinuations(run, after, rest);
    var url := [c] + run + after;
    assert url[0] == c && url[1..] == run + after;
  }

  lemma {:induction false} ReadOfSpecial(url: string, rest: string)
    requires url != "" && Special(url[0])
    ensures ReadRawUrl(UrlText(url, rest)) == Some(Read(url, ")" + rest))
    decreases |url|, 0
  {
    hide ConsumeEscape, Continuations, ReadRawUrl, UrlText, IsContinuation, Special;
    var c := url[0];
    var run, after := SplitContinuations(url[1..]);
    var t := UrlText(after, rest);
    UrlStart(after, rest);
    SpecialWithContinuations(c, run, t);
    assert [c] + (run + t) == [c] + run + t;
    ReadOfUrl(after, rest);
    assert url == [c] + run + after;
    SpecialText(c, run, after, rest);
    assert !IsCssNewline(c) by { SpecialIsNoNewline(c); }
    RawEscape(c, run + t, [c] + run, t);
    assert ([c] + run) + after == url;
  }

  lemma SpecialIsNoNewline(c: char)
    requires Special(c)
    ensures !IsCssNewline(c)
  {}

  // ---- statements -------------------------------------------------------------------------------

  /** The three ways to write where a sheet is: a string, a string in url(), and url() without a string. */
  datatype Form = InQuotes(quote: char) | InUrl(quote: char) | Bare

  datatype Entry =
    | Sheet(form: Form, url: string, media: string, gap: string)
    | Layer(names: string, gap: string)

  /** A condition or a list of names: text with nothing in it that a scanner has to read as more than characters. */
  predicate IsPlain(x: string) {
    forall k :: 0 <= k < |x| ==> x[k] != ';' && x[k] != '"' && x[k] != '\'' && x[k] != '\\' && x[k] != '/'
  }

  predicate Blank(x: string) {
    forall k :: 0 <= k < |x| ==> x[k] == ' ' || 9 <= x[k] as int <= 13
  }

  predicate Fits(e: Entry) {
    && Blank(e.gap)
    && match e
       case Sheet(form, url, media, gap) =>
         && (form.Bare? || IsQuote(form.quote)) && IsPlain(media)
         && (media != "" ==> !IsSpace(media[0]) && !IsSpace(media[|media| - 1]))
       case Layer(names, gap) => IsPlain(names) && '{' !in names
  }

  /** The URL as it is written, and what follows. */
  function UrlThen(form: Form, url: string, rest: string): string {
    match form
    case InQuotes(quote) => [quote] + Body(url, quote, rest)
    case InUrl(quote) => "url(" + ([quote] + Body(url, quote, ")" + rest))
    case Bare => "url(" + UrlText(url, rest)
  }

  function MediaThen(media: string, rest: string): string {
    if media == "" then ";" + rest else " " + (media + (";" + rest))
  }

  /** The statement and what follows it. */
  function EntryThen(e: Entry, rest: string): string {
    match e
    case Sheet(form, url, media, gap) => "@import " + UrlThen(form, url, MediaThen(media, gap + rest))
    case Layer(names, gap) => "@layer " + (names + (";" + (gap + rest)))
  }

  function SheetText(es: seq<Entry>, tail: string): string {
    if es == [] then tail else EntryThen(es[0], SheetText(es[1..], tail))
  }

  /** Text at which the prelude is over: the end, or neither blank nor an at-rule. */
  predicate PreludeOver(tail: string) {
    tail == "" || (!IsSpace(tail[0]) && tail[0] != '/' && tail[0] != '@')
  }

  // ---- reading them back ------------------------------------------------------------------------

  lemma {:induction false} BlankSkipped(gap: string, t: string)
    requires Blank(gap)
    ensures AfterBlank(gap + t) == AfterBlank(t)
    decreases |gap|
  {
    if gap == "" {
      assert gap + t == t;
    } else {
      BlankSkipped(gap[1..], t);
      assert (gap + t)[1..] == gap[1..] + t;
    }
  }

  /** Plain text is scanned to its ';'. */
  lemma {:induction false} PlainScanned(x: string, rest: string)
    requires IsPlain(x)
    ensures ScanAtStatement(x + (";" + rest)) == Statement(Some(";" + rest), x, '{' in x)
    decreases |x|
  {
    var t := x + (";" + rest);
    if x == "" {
      assert t == ";" + rest;
    } else {
      PlainScanned(x[1..], rest);
      assert t[0] == x[0] && t[1..] == x[1..] + (";" + rest);
      assert x == [x[0]] + x[1..];
    }
  }

  lemma TrimmedAlready(x: string)
    requires x != "" ==> !IsSpace(x[|x| - 1])
    ensures TrimmedEnd(x) == x
  {}

  lemma UrlIsRead(form: Form, url: string, rest: string)
    requires form.Bare? || IsQuote(form.quote)
    ensures var t := UrlThen(form, url, rest);
            && t != "" && !IsSpace(t[0])
            && (form.InQuotes? ==> IsQuote(t[0]) && ReadString(t[1..], t[0]) == Some(Read(url, rest)))
            && (!form.InQuotes? ==> t[0] == 'u' && ReadUrlFunction(t) == Some(Read(url, rest)))
  {
    hide ReadString, ReadRawUrl, Body, UrlText;
    var t := UrlThen(form, url, rest);
    match form
    case InQuotes(quote) =>
      ReadOfBody(url, quote, rest);
      assert t[1..] == Body(url, quote, rest);
    case InUrl(quote) =>
      ReadOfBody(url, quote, ")" + rest);
      var u := [quote] + Body(url, quote, ")" + rest);
      CallIsRead(u, t, url, rest);
      assert u[1..] == Body(url, quote, ")" + rest);
    case Bare =>
      ReadOfUrl(url, rest);
      UrlStart(url, rest);
      CallIsRead(UrlText(url, rest), t, url, rest);
  }

  /** A url() whose content is read to its ')'. */
  lemma CallIsRead(u: string, t: string, url: string, rest: string)
    requires t == "url(" + u && u != "" && !IsSpace(u[0])
    requires (if IsQuote(u[0]) then ReadString(u[1..], u[0]) else ReadRawUrl(u)) == Some(Read(url, ")" + rest))
    ensures ReadUrlFunction(t) == Some(Read(url, rest))
  {
    hide ReadString, ReadRawUrl;
    assert t[4..] == u;
    assert AfterSpace(u) == u;
    assert AfterSpace(")" + rest) == ")" + rest;
    assert (")" + rest)[1..] == rest;
  }

  /** What comes after a URL: the ';', or a condition up to it. */
  lemma MediaIsRead(media: string, rest: string)
    requires IsPlain(media) && (media != "" ==> !IsSpace(media[0]) && !IsSpace(media[|media| - 1]))
    ensures var after := AfterBlank(MediaThen(media, rest));
            && after != ""
            && (media == "" ==> after[0] == ';' && after[1..] == rest)
            && (media != "" ==> after[0] != ';' && ScanAtStatement(after).rest == Some(";" + rest)
                                && TrimmedEnd(ScanAtStatement(after).text) == media)
  {
    if media == "" {
      assert AfterBlank(";" + rest) == ";" + rest;
    } else {
      var t := media + (";" + rest);
      BlankSkipped(" ", t);
      assert t[0] == media[0];
      assert AfterBlank(t) == t;
      PlainScanned(media, rest);
      TrimmedAlready(media);
    }
  }

  lemma SheetIsRead(e: Entry, rest: string)
    requires e.Sheet? && Fits(e)
    ensures NextItem(EntryThen(e, rest)) == Harvested(ImportText(e.url, e.media, e.gap + rest))
  {
    hide ReadString, ReadUrlFunction, AfterBlank, ScanAtStatement, TrimmedEnd, UrlThen, MediaThen, AtKeyword;
    var more := MediaThen(e.media, e.gap + rest);
    var u := UrlThen(e.form, e.url, more);
    var t := "@import " + u;
    UrlIsRead(e.form, e.url, more);
    MediaIsRead(e.media, e.gap + rest);
    assert t[7..] == " " + u;
    assert AfterSpace(t[7..]) == u by { SpaceSkipped(u); }
    assert (";" + (e.gap + rest))[1..] == e.gap + rest;
    KeywordIs(u);
    assert ReadImport(t) == Some(ImportText(e.url, e.media, e.gap + rest));
  }

  lemma SpaceSkipped(u: string)
    requires u != "" && !IsSpace(u[0])
    ensures AfterSpace(" " + u) == u
  {
    assert (" " + u)[1..] == u;
  }

  lemma KeywordIs(u: string)
    ensures var t := "@import " + u; AtKeyword(t, "@import") && !AtKeyword(t, "@layer") && t[0] == '@' && |t| > 7
  {
    var t := "@import " + u;
    assert t[1] == 'i';
    assert "@layer"[1] == 'l';
  }

  lemma LayerIsSkipped(e: Entry, rest: string)
    requires e.Layer? && Fits(e)
    ensures NextItem(EntryThen(e, rest)) == Skipped(e.gap + rest)
  {
    var x := " " + e.names;
    var t := EntryThen(e, rest);
    assert t[6..] == x + (";" + (e.gap + rest));
    PlainScanned(x, e.gap + rest);
    assert (";" + (e.gap + rest))[1..] == e.gap + rest;
    assert StartsWithCi(t, "@layer");
  }

  lemma StatementStarts(e: Entry, rest: string)
    ensures var t := EntryThen(e, rest); t != "" && t[0] == '@' && AfterBlank(t) == t
  {}

  // ---- the whole prelude --------------------------------------------------------------------------

  /** The imports a list of statements makes, at their places in a text of length `size` that ends with it. */
  function Listed(es: seq<Entry>, tail: string, size: nat): seq<Import>
    requires (forall e :: e in es ==> Fits(e)) && |SheetText(es, tail)| <= size
  {
    if es == [] then []
    else
      var e, rest := es[0], SheetText(es[1..], tail);
      Shorter(e, rest);
      (if e.Sheet? then [Import(e.url, e.media, size - |EntryThen(e, rest)|, size - |e.gap + rest|)] else [])
      + Listed(es[1..], tail, size)
  }

  /** One statement, and what is harvested after it. */
  lemma HarvestNext(e: Entry, rest: string, size: nat)
    requires Fits(e) && |e.gap + rest| < |EntryThen(e, rest)| <= size
    ensures Harvest(EntryThen(e, rest), size)
            == (if e.Sheet? then [Import(e.url, e.media, size - |EntryThen(e, rest)|, size - |e.gap + rest|)] else [])
               + Harvest(rest, size)
  {
    hide NextItem, EntryThen;
    StatementStarts(e, rest);
    if e.Sheet? { SheetIsRead(e, rest); } else { LayerIsSkipped(e, rest); }
    GapHarvested(e.gap, rest, size);
  }

  lemma {:induction false} HarvestIsListed(es: seq<Entry>, tail: string, size: nat)
    requires (forall e :: e in es ==> Fits(e)) && PreludeOver(tail) && |SheetText(es, tail)| <= size
    ensures Harvest(SheetText(es, tail), size) == Listed(es, tail, size)
    decreases |es|
  {
    hide EntryThen, Harvest, Fits, PreludeOver;
    if es == [] {
      NothingHarvested(tail, size);
    } else {
      var e, rest := es[0], SheetText(es[1..], tail);
      assert e in es && forall e' :: e' in es[1..] ==> e' in es;
      Shorter(e, rest);
      HarvestNext(e, rest, size);
      HarvestIsListed(es[1..], tail, size);
    }
  }

  lemma NothingHarvested(tail: string, size: nat)
    requires PreludeOver(tail) && |tail| <= size
    ensures Harvest(tail, size) == []
  {
    hide NextItem;
    TailIsOver(tail);
  }

  lemma Shorter(e: Entry, rest: string)
    requires Fits(e)
    ensures |e.gap + rest| < |EntryThen(e, rest)|
  {
    hide NextItem;
    if e.Sheet? { SheetIsRead(e, rest); } else { LayerIsSkipped(e, rest); }
  }

  lemma GapHarvested(gap: string, t: string, size: nat)
    requires Blank(gap) && |gap + t| <= size
    ensures Harvest(gap + t, size) == Harvest(t, size)
  {
    hide NextItem;
    BlankSkipped(gap, t);
  }

  lemma TailIsOver(tail: string)
    requires PreludeOver(tail)
    ensures AfterBlank(tail) == tail && NextItem(tail).Over?
  {}

  /** The imports of a sheet are those its prelude lists: URL, condition and place. */
  lemma ImportsAreListed(es: seq<Entry>, tail: string)
    requires (forall e :: e in es ==> Fits(e)) && PreludeOver(tail)
    ensures Imports(SheetText(es, tail)) == Listed(es, tail, |SheetText(es, tail)|)
  {
    hide NextItem;
    HarvestIsListed(es, tail, |SheetText(es, tail)|);
    NoCharset(es, tail);
  }

  lemma NoCharset(es: seq<Entry>, tail: string)
    requires PreludeOver(tail)
    ensures var t := SheetText(es, tail); AfterBlank(t) == t && !Charset(t)
  {
    hide UrlThen, MediaThen;
    if es == [] {
      TailIsOver(tail);
    } else {
      StatementStarts(es[0], SheetText(es[1..], tail));
      assert SheetText(es, tail)[1] == 'i' || SheetText(es, tail)[1] == 'l';
    }
  }

  /** So they are after a @charset statement. */
  lemma ListedAfterCharset(name: string, es: seq<Entry>, tail: string)
    requires IsPlain(name) && (forall e :: e in es ==> Fits(e)) && PreludeOver(tail)
    ensures var css := "@charset " + ("\"" + (name + ("\";" + SheetText(es, tail))));
            Imports(css) == Listed(es, tail, |css|)
  {
    hide NextItem, ScanAtStatement, AfterBlank;
    var t := SheetText(es, tail);
    var quoted := "\"" + (name + ("\";" + t));
    var css := "@charset " + quoted;
    HarvestIsListed(es, tail, |css|);
    assert AfterBlank(css) == css by { AtStarts(css); }
    assert css[8..] == " " + quoted;
    CharsetScanned(name, t);
    assert (";" + t)[1..] == t;
  }

  lemma AtStarts(t: string)
    requires t != "" && t[0] == '@'
    ensures AfterBlank(t) == t
  {}

  lemma {:induction false} QuoteCloses(t: string, i: nat, n: nat)
    requires i <= n < |t| && t[n] == '"' && forall k :: i <= k < n ==> t[k] != '"' && t[k] != '\\'
    ensures ClosingQuote(t, i, '"') == Some(n)
    decreases n - i
  {
    if i < n { QuoteCloses(t, i + 1, n); }
  }

  lemma CharsetScanned(name: string, t: string)
    requires IsPlain(name)
    ensures ScanAtStatement(" " + ("\"" + (name + ("\";" + t)))).rest == Some(";" + t)
  {
    var quoted := "\"" + (name + ("\";" + t));
    QuoteCloses(quoted, 1, 1 + |name|);
    assert quoted[|name| + 2..] == ";" + t;
    assert (" " + quoted)[1..] == quoted;
    assert ScanAtStatement(";" + t).rest == Some(";" + t);
    assert ScanAtStatement(quoted).rest == Some(";" + t);
  }

  // ---- a live import left behind ------------------------------------------------------------------

  /** An at-rule without a block. */
  datatype AtRule = AtRule(name: string, text: string, gap: string)

  /** Letters, digits, '-', '_', characters beyond ASCII, and escape pairs. */
  predicate IsName(x: string) {
    if x == "" then true
    else if x[0] == '\\' then |x| >= 2 && IsName(x[2..])
    else
      && (|| 'a' <= x[0] <= 'z' || 'A' <= x[0] <= 'Z' || '0' <= x[0] <= '9'
          || x[0] == '-' || x[0] == '_' || x[0] as int >= 0x80)
      && IsName(x[1..])
  }

  predicate RuleFits(r: AtRule) {
    && r.name != "" && IsName(r.name)
    && !Spells(r.name, "charset") && IsPlain(r.text) && '{' !in r.text && Blank(r.gap)
  }

  predicate Spells(x: string, word: string) {
    |x| == |word| && forall k :: 0 <= k < |x| ==> LowerChar(x[k]) == word[k]
  }

  function RuleThen(r: AtRule, rest: string): string {
    "@" + (r.name + (" " + (r.text + (";" + (r.gap + rest)))))
  }

  function RulesText(rs: seq<AtRule>, tail: string): string {
    if rs == [] then tail else RuleThen(rs[0], RulesText(rs[1..], tail))
  }

  /** Before its first escape a name goes on with a character of a name. */
  lemma {:induction false} NameGoesOn(x: string, n: nat)
    requires IsName(x) && n < |x| && forall k :: 0 <= k < n ==> x[k] != '\\'
    ensures IsIdentContinue(x[n])
    decreases n
  {
    if n > 0 {
      assert x[0] != '\\';
      NameGoesOn(x[1..], n - 1);
    }
  }

  /** The keyword at the start of an at-rule is its name. */
  lemma KeywordIff(name: string, t: string, word: string)
    requires IsName(name) && (forall k :: 0 <= k < |word| ==> 'a' <= word[k] <= 'z')
    ensures AtKeyword("@" + (name + (" " + t)), "@" + word) <==> Spells(name, word)
  {
    var u := "@" + (name + (" " + t));
    assert forall k :: 0 <= k < |name| ==> u[k + 1] == name[k];
    assert u[|name| + 1] == ' ' && LowerChar(' ') == ' ';
    if AtKeyword(u, "@" + word) {
      forall i | 0 <= i < |word| ensures LowerChar(u[i + 1]) == word[i] {
        assert LowerChar(u[i + 1]) == ("@" + word)[i + 1];
      }
      if |word| < |name| {
        forall k | 0 <= k < |word| ensures name[k] != '\\' { assert LowerChar(name[k]) == word[k]; }
        NameGoesOn(name, |word|);
      }
    }
    if Spells(name, word) {
      forall i | 0 <= i < |word| + 1 ensures LowerChar(u[i]) == ("@" + word)[i] {
        if i > 0 { assert LowerChar(name[i - 1]) == word[i - 1]; }
      }
    }
  }

  lemma {:induction false} NameEnds(u: string, i: nat, x: string)
    requires IsName(x) && i + |x| < |u| && u[i + |x|] == ' ' && forall k :: 0 <= k < |x| ==> u[i + k] == x[k]
    ensures IdentEnd(u, i) == i + |x|
    decreases |x|
  {
    if x != "" {
      var n := if x[0] == '\\' then 2 else 1;
      assert u[i + 0] == x[0];
      forall k | 0 <= k < |x| - n ensures u[i + n + k] == x[n..][k] { assert u[i + (n + k)] == x[n + k]; }
      NameEnds(u, i + n, x[n..]);
    }
  }

  lemma NameSkipped(name: string, t: string)
    requires IsName(name) && name != ""
    ensures SkipKeyword("@" + (name + (" " + t))) == " " + t
  {
    hide IsName, IdentEnd, AtKeyword;
    var u := "@" + (name + (" " + t));
    forall k | 0 <= k < |name| ensures u[1 + k] == name[k] {}
    NameEnds(u, 1, name);
    KeywordIff(name, t, "layer");
    assert "@" + "layer" == "@layer";
    assert u[1 + |name|..] == " " + t;
    if Spells(name, "layer") { assert u[6..] == " " + t; }
  }

  lemma KeywordSkipped(r: AtRule, rest: string)
    requires RuleFits(r)
    ensures var u := RuleThen(r, rest);
            u != "" && u[0] == '@' && SkipKeyword(u) == " " + (r.text + (";" + (r.gap + rest)))
  {
    hide SkipKeyword, IsName, IsPlain, Blank, Spells;
    NameSkipped(r.name, r.text + (";" + (r.gap + rest)));
  }

  /** What is live from a rule on. */
  lemma LiveNext(r: AtRule, rest: string)
    requires RuleFits(r)
    ensures LiveFrom(RuleThen(r, rest)) <==> Spells(r.name, "import") || LiveFrom(AfterBlank(rest))
  {
    hide AfterBlank, SkipKeyword, ScanAtStatement;
    KeywordSkipped(r, rest);
    KeywordIff(r.name, r.text + (";" + (r.gap + rest)), "import");
    assert "@" + "import" == "@import";
    var x := " " + r.text;
    assert " " + (r.text + (";" + (r.gap + rest))) == x + (";" + (r.gap + rest));
    PlainScanned(x, r.gap + rest);
    assert (";" + (r.gap + rest))[1..] == r.gap + rest;
    BlankSkipped(r.gap, rest);
  }

  lemma {:induction false} LiveInRules(rs: seq<AtRule>, tail: string)
    requires (forall r :: r in rs ==> RuleFits(r)) && PreludeOver(tail)
    ensures LiveFrom(AfterBlank(RulesText(rs, tail))) <==> exists r :: r in rs && Spells(r.name, "import")
    decreases |rs|
  {
    hide LiveFrom, AfterBlank, NextItem;
    if rs == [] {
      TailIsOver(tail);
      assert !LiveFrom(tail) by { NothingLive(tail); }
    } else {
      var r, rest := rs[0], RulesText(rs[1..], tail);
      assert r in rs && forall q :: q in rs <==> q == r || q in rs[1..];
      assert AfterBlank(RuleThen(r, rest)) == RuleThen(r, rest) by { AtStarts(RuleThen(r, rest)); }
      LiveNext(r, rest);
      LiveInRules(rs[1..], tail);
    }
  }

  lemma NothingLive(tail: string)
    requires PreludeOver(tail)
    ensures !LiveFrom(tail)
  {}

  /** An import is live exactly when one of the statements before the first other rule is an import. */
  lemma LiveIff(rs: seq<AtRule>, tail: string)
    requires (forall r :: r in rs ==> RuleFits(r)) && PreludeOver(tail)
    ensures LiveImport(RulesText(rs, tail)) <==> exists r :: r in rs && Spells(r.name, "import")
  {
    hide LiveFrom, AfterBlank, NextItem;
    LiveInRules(rs, tail);
    if rs == [] {
      TailIsOver(tail);
      assert !Charset(tail);
    } else {
      var r, rest := rs[0], RulesText(rs[1..], tail);
      assert r in rs;
      assert AfterBlank(RuleThen(r, rest)) == RuleThen(r, rest) by { AtStarts(RuleThen(r, rest)); }
      assert !Charset(RuleThen(r, rest)) by { NotCharset(r, rest); }
    }
  }

  lemma NotCharset(r: AtRule, rest: string)
    requires RuleFits(r)
    ensures !Charset(RuleThen(r, rest))
  {
    var u := RuleThen(r, rest);
    KeywordIff(r.name, r.text + (";" + (r.gap + rest)), "charset");
    assert "@" + "charset" == "@charset";
    if "@charset" <= u { assert forall k :: 0 <= k < 8 ==> u[k] == "@charset"[k]; }
  }
}
