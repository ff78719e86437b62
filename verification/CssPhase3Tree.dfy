/**
 Phase 3 on structured text.  For every sheet built of statements, custom
 properties and blocks, the phase returns the same sheet with the semicolons at the
 end of each block left out, and nothing else changed.
 */
module CssPhase3Tree {
  import opened Options
  import opened CssChars
  import opened CssLexemes
  import opened CssGrammar
  import opened CssPhase3

  // ---- whole lexemes ----------------------------------------------------------------------------

  /** The state after `x` was copied. */
  function Moved(st: State, x: string): State {
    st.(i := st.i + |x|, r := st.r + x)
  }

  lemma MovedTwice(st: State, x: string, y: string)
    ensures Moved(Moved(st, x), y) == Moved(st, x + y)
  {
    assert st.r + x + y == st.r + (x + y);
  }

  lemma CopyIsMoved(s: string, st: State, x: string)
    requires Valid(st) && x != "" && Reads(s, st.i, x)
    ensures Copy(s, st, |x|) == Moved(st, x)
  {
    ReadsSlice(s, st.i, x);
  }

  /** In a string or url() that ends with `close`. */
  predicate Inside(st: State, close: char) {
    match st.cx.lex
    case InSingle => close == '\''
    case InDouble => close == '"'
    case InUrl => close == ')'
    case Normal => false
  }

  /** One character or escape pair of it. */
  lemma BodyTurn(custom: string -> bool, s: string, st: State, x: string, close: char)
    requires Valid(st) && Inside(st, close) && Reads(s, st.i, x) && x != ""
    requires if x[0] == '\\' then |x| == 2 else |x| == 1
    ensures Step(custom, s, st) == Moved(st, x).(cx := if x[0] == close then st.cx.(lex := Normal) else st.cx)
  {
    hide Trims, StepNormal;
    assert s[st.i + 0] == x[0];
    CopyIsMoved(s, st, x);
  }

  /** What is left of a string or url() is copied to its closing character. */
  lemma {:induction false} BodyRuns(custom: string -> bool, s: string, st: State, body: string, close: char)
    requires Valid(st) && Inside(st, close) && Body(body, close) && Reads(s, st.i, body + [close])
    ensures Run(custom, s, st) == Run(custom, s, Moved(st, body + [close]).(cx := st.cx.(lex := Normal)))
    decreases |body|
  {
    hide Step, Run, Reads;
    InBounds(s, st.i, body + [close]);
    RunNext(custom, s, st);
    if body == "" {
      assert body + [close] == [close];
      BodyTurn(custom, s, st, [close], close);
    } else {
      var n := if body[0] == '\\' then 2 else 1;
      var x := body[..n];
      assert body + [close] == x + (body[n..] + [close]);
      ReadsSplit(s, st.i, x, body[n..] + [close]);
      BodyTurn(custom, s, st, x, close);
      BodyRuns(custom, s, Moved(st, x), body[n..], close);
      MovedTwice(st, x, body[n..] + [close]);
    }
  }

  lemma InBounds(s: string, i: nat, x: string)
    requires Reads(s, i, x)
    ensures i + |x| <= |s|
  {}

  /** In plain text, or in a custom-property value outside its url(). */
  ghost predicate Outside(st: State) {
    Valid(st) && st.cx.lex.Normal? && !(st.cx.inCustom && st.cx.customUrl)
  }

  lemma QuoteTurn(custom: string -> bool, s: string, st: State, quote: char)
    requires Outside(st) && (quote == '"' || quote == '\'') && Reads(s, st.i, [quote])
    ensures Step(custom, s, st) == Moved(st, [quote]).(cx := st.cx.(lex := if quote == '"' then InDouble else InSingle))
  {
    hide ReachesBrace, QuoteAhead, EndsWithUrl, StepStructure;
    assert s[st.i + 0] == [quote][0];
    CopyIsMoved(s, st, [quote]);
  }

  /** A string is copied and leaves the scanner where it was. */
  lemma StringRuns(custom: string -> bool, s: string, st: State, quote: char, body: string)
    requires Outside(st) && (quote == '"' || quote == '\'') && Body(body, quote)
    requires Reads(s, st.i, [quote] + body + [quote])
    ensures Run(custom, s, st) == Run(custom, s, Moved(st, [quote] + body + [quote]))
  {
    hide Body, Step, Run;
    assert [quote] + body + [quote] == [quote] + (body + [quote]);
    ReadsSplit(s, st.i, [quote], body + [quote]);
    QuoteTurn(custom, s, st, quote);
    var n := Step(custom, s, st);
    RunNext(custom, s, st);
    BodyRuns(custom, s, n, body, quote);
    MovedTwice(st, [quote], body + [quote]);
  }

  lemma PairTurn(custom: string -> bool, s: string, st: State, c: char)
    requires Outside(st) && Reads(s, st.i, ['\\', c])
    ensures Step(custom, s, st) == Moved(st, ['\\', c])
  {
    assert s[st.i + 0] == ['\\', c][0];
    CopyIsMoved(s, st, ['\\', c]);
  }

  // ---- structure outside custom-property values ----------------------------------------------------

  /** In plain text outside custom-property values. */
  ghost predicate Standing(st: State) {
    Valid(st) && st.cx.lex.Normal? && !st.cx.inCustom && !st.cx.customUrl
  }

  predicate Deep(st: State) {
    st.parens > 0 || st.groups > 0
  }

  lemma CharTurn(custom: string -> bool, s: string, st: State, c: char)
    requires Standing(st) && Reads(s, st.i, [c]) && c !in "\\'\"()[]{}"
    requires c == ';' ==> Deep(st)
    requires c == ':' ==> !custom(st.r) && (Deep(st) || st.seg.colon >= 0)
    ensures Step(custom, s, st) == Moved(st, [c])
  {
    hide ReachesBrace, QuoteAhead, EndsWithUrl;
    assert s[st.i + 0] == [c][0];
    CopyIsMoved(s, st, [c]);
  }

  /** A '(' or '[' that opens no url(). */
  lemma OpenTurn(custom: string -> bool, s: string, st: State, c: char)
    requires Standing(st) && Reads(s, st.i, [c]) && (c == '(' || c == '[')
    requires c == '(' && EndsInUrl(st.r) ==> QuoteAhead(s, st.i + 1)
    ensures Step(custom, s, st) == Moved(st, [c]).(parens := if st.groups > 0 then st.parens else st.parens + 1)
  {
    hide ReachesBrace, QuoteAhead;
    EndsInUrlIff(st.r);
    assert s[st.i + 0] == [c][0];
    CopyIsMoved(s, st, [c]);
  }

  lemma CloseTurn(custom: string -> bool, s: string, st: State, c: char)
    requires Standing(st) && Reads(s, st.i, [c]) && (c == ')' || c == ']') && Deep(st)
    ensures Step(custom, s, st) == Moved(st, [c]).(parens := if st.groups > 0 then st.parens else st.parens - 1)
  {
    hide ReachesBrace, QuoteAhead, EndsWithUrl;
    assert s[st.i + 0] == [c][0];
    CopyIsMoved(s, st, [c]);
  }

  /** The segment read so far is a property's name and ':'. */
  ghost predicate InDeclaration(st: State) {
    Valid(st) && st.seg.colon >= 0 && GroupVerdict(st.r, st.seg, st.blocks == 0) == Group
  }

  lemma OpenGroupTurn(custom: string -> bool, s: string, st: State)
    requires Standing(st) && Reads(s, st.i, "{") && (st.groups > 0 || InDeclaration(st))
    ensures Step(custom, s, st) == Moved(st, "{").(groups := st.groups + 1,
                seg := if st.groups > 0 then st.seg else st.seg.(verdict := Group))
  {
    hide ReachesBrace, QuoteAhead, EndsWithUrl, GroupVerdict;
    assert s[st.i + 0] == "{"[0];
    CopyIsMoved(s, st, "{");
  }

  lemma CloseGroupTurn(custom: string -> bool, s: string, st: State)
    requires Standing(st) && Reads(s, st.i, "}") && st.groups > 0
    ensures Step(custom, s, st) == Moved(st, "}").(groups := st.groups - 1)
  {
    hide ReachesBrace, QuoteAhead, EndsWithUrl, GroupVerdict;
    assert s[st.i + 0] == "}"[0];
    CopyIsMoved(s, st, "}");
  }

  lemma UrlTurn(custom: string -> bool, s: string, st: State)
    requires Standing(st) && Reads(s, st.i, "(") && EndsInUrl(st.r) && !QuoteAhead(s, st.i + 1)
    ensures Step(custom, s, st) == Moved(st, "(").(cx := st.cx.(lex := InUrl))
  {
    hide ReachesBrace, QuoteAhead, StepStructure;
    EndsInUrlIff(st.r);
    assert s[st.i + 0] == "("[0];
    CopyIsMoved(s, st, "(");
  }

  /** `x` was copied; a value group at most settled that the segment is a declaration. */
  ghost predicate Carried(st: State, n: State, x: string, braces: bool) {
    && Valid(n) && n == Moved(st, x).(seg := n.seg)
    && (n.seg == st.seg || (braces && n.seg == st.seg.(verdict := Group)))
  }

  lemma CarriedTwice(st: State, m: State, n: State, x: string, y: string, braces: bool)
    requires Carried(st, m, x, braces) && Carried(m, n, y, braces)
    ensures Carried(st, n, x + y, braces)
  {
    MovedTwice(st, x, y);
  }

  lemma DeclarationKept(st: State, n: State)
    requires InDeclaration(st) && Valid(n) && st.r <= n.r && n.blocks == st.blocks
    requires n.seg == st.seg || n.seg == st.seg.(verdict := Group)
    ensures InDeclaration(n)
  {
    assert n.r[n.seg.begin..n.seg.colon] == st.r[st.seg.begin..st.seg.colon];
  }

  /** Text that stands for its structure, to be read by the scanner in state `st`. */
  ghost predicate Ready(custom: string -> bool, s: string, st: State, b: Bits, braces: bool) {
    && Standing(st) && Reads(s, st.i, Text(b)) && Fits(custom, st.r, b, Deep(st), braces)
    && (Deep(st) || st.seg.colon >= 0 || NoColon(b))
    && (braces ==> st.groups > 0 || InDeclaration(st))
  }

  /** The rest of the structure, once its first part was copied. */
  lemma ReadyRest(custom: string -> bool, s: string, st: State, n: State, x: string, rest: Bits, braces: bool)
    requires Standing(st) && Carried(st, n, x, braces) && Reads(s, st.i, x + Text(rest))
    requires Fits(custom, st.r + x, rest, Deep(st), braces)
    requires Deep(st) || st.seg.colon >= 0 || NoColon(rest)
    requires braces ==> st.groups > 0 || InDeclaration(st)
    ensures Ready(custom, s, n, rest, braces)
  {
    hide Fits, NoColon, InDeclaration;
    ReadsSplit(s, st.i, x, Text(rest));
    if braces && st.groups == 0 { DeclarationKept(st, n); }
  }

  /** Structured text is copied whole. */
  lemma {:induction false} BitsRun(custom: string -> bool, s: string, st: State, b: Bits, braces: bool)
    returns (n: State)
    requires Ready(custom, s, st, b, braces)
    ensures Carried(st, n, Text(b), braces) && Run(custom, s, st) == Run(custom, s, n)
    decreases b, 2
  {
    hide Step, Run, Ready, Carried, Valid, Deep, Reads;
    if b.End? {
      n := st;
      assert Carried(st, n, "", braces) by { NothingCarried(custom, s, st, b, braces); }
    } else {
      var x, m := FirstBit(custom, s, st, b, braces);
      n := BitsRun(custom, s, m, b.rest, braces);
      CarriedTwice(st, m, n, x, Text(b.rest), braces);
    }
  }

  lemma NothingCarried(custom: string -> bool, s: string, st: State, b: Bits, braces: bool)
    requires Ready(custom, s, st, b, braces)
    ensures Carried(st, st, "", braces)
  {
    assert st.r + "" == st.r;
  }

  lemma {:induction false} FirstBit(custom: string -> bool, s: string, st: State, b: Bits, braces: bool)
    returns (x: string, m: State)
    requires Ready(custom, s, st, b, braces) && !b.End?
    ensures Text(b) == x + Text(b.rest) && Carried(st, m, x, braces) && Run(custom, s, st) == Run(custom, s, m)
    ensures Ready(custom, s, m, b.rest, braces)
    decreases b, 1
  {
    hide Step, Run;
    match b
    case Char(c, rest) =>
      x := [c];
      ReadsSplit(s, st.i, x, Text(rest));
      CharTurn(custom, s, st, c);
      m := Moved(st, x);
      RunNext(custom, s, st);
      ReadyRest(custom, s, st, m, x, rest, braces);
    case Escape(c, rest) =>
      x := ['\\', c];
      ReadsSplit(s, st.i, x, Text(rest));
      PairTurn(custom, s, st, c);
      m := Moved(st, x);
      RunNext(custom, s, st);
      ReadyRest(custom, s, st, m, x, rest, braces);
    case Str(quote, body, rest) =>
      x := [quote] + body + [quote];
      ReadsSplit(s, st.i, x, Text(rest));
      StringRuns(custom, s, st, quote, body);
      m := Moved(st, x);
      ReadyRest(custom, s, st, m, x, rest, braces);
    case Url(word, body, rest) =>
      x := word + "(" + body + ")";
      ReadsSplit(s, st.i, x, Text(rest));
      UrlRuns(custom, s, st, word, body);
      m := Moved(st, x);
      ReadyRest(custom, s, st, m, x, rest, braces);
    case Nest(open, inner, close, rest) =>
      x := [open] + Text(inner) + [close];
      m := NestRuns(custom, s, st, b, braces);
      ReadyRest(custom, s, st, m, x, rest, braces);
  }

  lemma CharRuns(custom: string -> bool, s: string, st: State, c: char)
    requires Standing(st) && Reads(s, st.i, [c]) && c !in "\\'\"()[]{};:"
    ensures Run(custom, s, st) == Run(custom, s, Moved(st, [c])) && Standing(Moved(st, [c]))
  {
    hide Step, Run;
    CharTurn(custom, s, st, c);
    RunNext(custom, s, st);
  }

  lemma UrlLetters(word: string)
    requires |word| == 3 && EndsInUrl(word)
    ensures forall k :: 0 <= k < 3 ==> word[k] !in "\\'\"()[]{};:"
  {}

  lemma WordRuns(custom: string -> bool, s: string, st: State, word: string)
    requires Standing(st) && |word| == 3 && EndsInUrl(word) && Reads(s, st.i, word)
    ensures Run(custom, s, st) == Run(custom, s, Moved(st, word))
  {
    hide Run, Reads, EndsInUrl, Standing;
    UrlLetters(word);
    var a, b, c := [word[0]], [word[1]], [word[2]];
    assert word == a + (b + c);
    ReadsSplit(s, st.i, a, b + c);
    ReadsSplit(s, st.i + 1, b, c);
    CharRuns(custom, s, st, word[0]);
    CharRuns(custom, s, Moved(st, a), word[1]);
    MovedTwice(st, a, b);
    CharRuns(custom, s, Moved(st, a + b), word[2]);
    MovedTwice(st, a + b, c);
    assert a + b + c == word;
  }

  lemma UrlOpens(custom: string -> bool, s: string, st: State)
    requires Standing(st) && EndsInUrl(st.r) && Reads(s, st.i, "(") && !QuoteAhead(s, st.i + 1)
    ensures Run(custom, s, st) == Run(custom, s, Moved(st, "(").(cx := st.cx.(lex := InUrl)))
  {
    hide Step, Run, QuoteAhead, EndsInUrl;
    UrlTurn(custom, s, st);
    RunNext(custom, s, st);
  }

  lemma UrlBodyRuns(custom: string -> bool, s: string, st: State, body: string)
    requires Standing(st) && EndsInUrl(st.r) && Body(body, ')') && !QuoteFirst(body + ")")
    requires Reads(s, st.i, "(" + (body + ")"))
    ensures Run(custom, s, st) == Run(custom, s, Moved(st, "(" + (body + ")")))
  {
    hide Run, Body, QuoteFirst, QuoteAhead, Reads, EndsInUrl;
    ReadsSplit(s, st.i, "(", body + ")");
    assert (body + ")")[|body|] == ')';
    QuoteAheadIs(s, st.i + 1, body + ")");
    UrlOpens(custom, s, st);
    BodyRuns(custom, s, Moved(st, "(").(cx := st.cx.(lex := InUrl)), body, ')');
    MovedTwice(st, "(", body + ")");
  }

  /** A url() that is not a string is copied whole. */
  lemma UrlRuns(custom: string -> bool, s: string, st: State, word: string, body: string)
    requires Standing(st) && |word| == 3 && EndsInUrl(word) && Body(body, ')') && !QuoteFirst(body + ")")
    requires Reads(s, st.i, word + "(" + body + ")")
    ensures Run(custom, s, st) == Run(custom, s, Moved(st, word + "(" + body + ")"))
  {
    hide Run, Body, QuoteFirst, EndsInUrl;
    var call := "(" + (body + ")");
    assert word + "(" + body + ")" == word + call;
    ReadsSplit(s, st.i, word, call);
    WordRuns(custom, s, st, word);
    UrlWordEnds(st.r, word);
    UrlBodyRuns(custom, s, Moved(st, word), body);
    MovedTwice(st, word, call);
  }

  /** Matched brackets are copied with all they hold. */
  lemma {:induction false} NestRuns(custom: string -> bool, s: string, st: State, b: Bits, braces: bool)
    returns (n: State)
    requires b.Nest? && Ready(custom, s, st, b, braces)
    ensures Carried(st, n, [b.open] + Text(b.inner) + [b.close], braces) && Run(custom, s, st) == Run(custom, s, n)
    decreases b, 0
  {
    hide Step, Run, Fits;
    var open, inner, close := [b.open], b.inner, [b.close];
    var m := NestOpens(custom, s, st, b, braces);
    var k := BitsRun(custom, s, m, inner, braces);
    n := NestCloses(custom, s, st, b, m, k, braces);
  }

  /** The state just inside a bracket. */
  ghost predicate Entered(st: State, m: State, open: char, braces: bool) {
    if open == '{' then
      m == Moved(st, "{").(groups := st.groups + 1, seg := if st.groups > 0 then st.seg else st.seg.(verdict := Group))
    else m == Moved(st, [open]).(parens := if st.groups > 0 then st.parens else st.parens + 1)
  }

  lemma NestParts(custom: string -> bool, s: string, st: State, b: Bits, braces: bool)
    requires b.Nest? && Ready(custom, s, st, b, braces)
    ensures Standing(st) && Matching(b.open, b.close) && (b.open == '{' ==> braces)
    ensures Reads(s, st.i, [b.open]) && Reads(s, st.i + 1, Text(b.inner) + [b.close])
    ensures Reads(s, st.i + 1, Text(b.inner)) && Reads(s, st.i + 1 + |Text(b.inner)|, [b.close])
  {
    hide QuoteFirst, InDeclaration;
    var open, inner, close := [b.open], Text(b.inner), [b.close];
    ReadsSplit(s, st.i, open + inner + close, Text(b.rest));
    assert open + inner + close == open + (inner + close);
    ReadsSplit(s, st.i, open, inner + close);
    ReadsSplit(s, st.i + 1, inner, close);
  }

  /** What the structure promises inside a bracket, and of a '(' after "url". */
  lemma NestFits(custom: string -> bool, s: string, st: State, b: Bits, braces: bool)
    requires b.Nest? && Ready(custom, s, st, b, braces)
    ensures Fits(custom, st.r + [b.open], b.inner, true, braces) && (braces ==> st.groups > 0 || InDeclaration(st))
    ensures b.open == '(' && EndsInUrl(st.r) ==> QuoteFirst(Text(b.inner) + [b.close])
  {
    hide QuoteFirst, InDeclaration, EndsInUrl;
  }

  lemma NestOpens(custom: string -> bool, s: string, st: State, b: Bits, braces: bool) returns (m: State)
    requires b.Nest? && Ready(custom, s, st, b, braces)
    ensures Entered(st, m, b.open, braces) && Ready(custom, s, m, b.inner, braces)
    ensures Run(custom, s, st) == Run(custom, s, m)
  {
    hide Step, Run, QuoteFirst, GroupVerdict, Fits, Text, Reads, EndsInUrl, QuoteAhead;
    NestParts(custom, s, st, b, braces);
    NestFits(custom, s, st, b, braces);
    var inner := Text(b.inner);
    assert (inner + [b.close])[|inner|] == b.close;
    QuoteAheadIs(s, st.i + 1, inner + [b.close]);
    if b.open == '{' {
      OpenGroupTurn(custom, s, st);
    } else {
      OpenTurn(custom, s, st, b.open);
    }
    m := Step(custom, s, st);
    InBounds(s, st.i, [b.open]);
    RunNext(custom, s, st);
    if braces && st.groups == 0 { DeclarationKept(st, m); }
  }

  /** The state just outside a bracket. */
  ghost predicate Leaves(k: State, n: State, close: char) {
    && n == Moved(k, [close]).(groups := n.groups, parens := n.parens)
    && if close == '}' then n.groups + 1 == k.groups && n.parens == k.parens
       else n.groups == k.groups && n.parens + (if k.groups > 0 then 0 else 1) == k.parens
  }

  lemma BracketCloses(custom: string -> bool, s: string, k: State, close: char) returns (n: State)
    requires Standing(k) && Reads(s, k.i, [close]) && close in ")]}" && Deep(k) && (close == '}' ==> k.groups > 0)
    ensures Leaves(k, n, close) && Valid(n) && Run(custom, s, k) == Run(custom, s, n)
  {
    hide Step, Run;
    if close == '}' {
      CloseGroupTurn(custom, s, k);
    } else {
      CloseTurn(custom, s, k, close);
    }
    RunNext(custom, s, k);
    n := Step(custom, s, k);
  }

  /** In and out again leaves the depths as they were. */
  lemma NestCarried(st: State, m: State, k: State, n: State, open: char, close: char, inner: string, braces: bool)
    requires Entered(st, m, open, braces) && Carried(m, k, inner, braces) && Leaves(k, n, close) && Valid(n)
    requires Matching(open, close) && (open == '{' ==> braces)
    ensures Carried(st, n, [open] + inner + [close], braces)
  {
    hide Valid;
    assert st.r + [open] + inner + [close] == st.r + ([open] + inner + [close]);
  }

  lemma InsideIsDeep(st: State, m: State, k: State, open: char, close: char, inner: string, braces: bool)
    requires Standing(st) && Entered(st, m, open, braces) && Carried(m, k, inner, braces) && Matching(open, close)
    ensures Standing(k) && Deep(k) && close in ")]}" && (close == '}' ==> k.groups > 0) && k.i == st.i + 1 + |inner|
  {
    hide Valid;
    assert Valid(k);
  }

  lemma NestCloses(custom: string -> bool, s: string, st: State, b: Bits, m: State, k: State, braces: bool)
    returns (n: State)
    requires b.Nest? && Ready(custom, s, st, b, braces) && Entered(st, m, b.open, braces)
    requires Carried(m, k, Text(b.inner), braces)
    ensures Carried(st, n, [b.open] + Text(b.inner) + [b.close], braces) && Run(custom, s, k) == Run(custom, s, n)
  {
    hide Run, Ready, Text, Entered, Carried, Standing, Deep, Reads;
    NestParts(custom, s, st, b, braces);
    InsideIsDeep(st, m, k, b.open, b.close, Text(b.inner), braces);
    n := BracketCloses(custom, s, k, b.close);
    NestCarried(st, m, k, n, b.open, b.close, Text(b.inner), braces);
  }

  // ---- custom-property values --------------------------------------------------------------------

  /** In a custom-property value, outside its strings and url() tokens. */
  ghost predicate InValue(st: State) {
    Valid(st) && st.cx.lex.Normal? && st.cx.inCustom && !st.cx.customUrl
  }

  lemma ValueCharTurn(custom: string -> bool, s: string, st: State, c: char)
    requires InValue(st) && Reads(s, st.i, [c]) && c !in "\\'\"()[]{}" && (c == ';' ==> st.cx.customDepth > 0)
    ensures Step(custom, s, st) == Moved(st, [c])
  {
    hide QuoteAhead, EndsWithUrl, StepPlain, ReachesBrace;
    assert s[st.i + 0] == [c][0];
    CopyIsMoved(s, st, [c]);
  }

  lemma ValueOpenTurn(custom: string -> bool, s: string, st: State, c: char)
    requires InValue(st) && Reads(s, st.i, [c]) && c in "([{"
    ensures Step(custom, s, st)
            == if c == '(' && EndsInUrl(st.r) && !QuoteAhead(s, st.i + 1)
               then Moved(st, [c]).(cx := st.cx.(customUrl := true))
               else Moved(st, [c]).(cx := st.cx.(customDepth := st.cx.customDepth + 1))
  {
    hide QuoteAhead, StepPlain, ReachesBrace;
    EndsInUrlIff(st.r);
    assert s[st.i + 0] == [c][0];
    CopyIsMoved(s, st, [c]);
  }

  lemma ValueCloseTurn(custom: string -> bool, s: string, st: State, c: char)
    requires InValue(st) && Reads(s, st.i, [c]) && c in ")]}" && st.cx.customDepth > 0
    ensures Step(custom, s, st) == Moved(st, [c]).(cx := st.cx.(customDepth := st.cx.customDepth - 1))
  {
    hide QuoteAhead, EndsWithUrl, StepPlain, ReachesBrace;
    assert s[st.i + 0] == [c][0];
    CopyIsMoved(s, st, [c]);
  }

  /** One character or escape pair of a url() inside the value. */
  lemma ValueUrlTurn(custom: string -> bool, s: string, st: State, x: string)
    requires Valid(st) && st.cx.lex.Normal? && st.cx.inCustom && st.cx.customUrl && Reads(s, st.i, x) && x != ""
    requires if x[0] == '\\' then |x| == 2 else |x| == 1
    ensures Step(custom, s, st) == Moved(st, x).(cx := st.cx.(customUrl := x[0] != ')'))
  {
    hide QuoteAhead, EndsWithUrl, StepPlain, ReachesBrace;
    assert s[st.i + 0] == x[0];
    CopyIsMoved(s, st, x);
  }

  lemma {:induction false} ValueUrlRuns(custom: string -> bool, s: string, st: State, body: string)
    requires Valid(st) && st.cx.lex.Normal? && st.cx.inCustom && st.cx.customUrl
    requires Body(body, ')') && Reads(s, st.i, body + ")")
    ensures Run(custom, s, st) == Run(custom, s, Moved(st, body + ")").(cx := st.cx.(customUrl := false)))
    decreases |body|
  {
    hide Step, Run;
    RunNext(custom, s, st);
    if body == "" {
      assert body + ")" == ")";
      ValueUrlTurn(custom, s, st, ")");
    } else {
      var n := if body[0] == '\\' then 2 else 1;
      var x := body[..n];
      assert body + ")" == x + (body[n..] + ")");
      ReadsSplit(s, st.i, x, body[n..] + ")");
      ValueUrlTurn(custom, s, st, x);
      ValueUrlRuns(custom, s, Moved(st, x), body[n..]);
      MovedTwice(st, x, body[n..] + ")");
    }
  }

  lemma ValueUrlOpens(custom: string -> bool, s: string, st: State)
    requires InValue(st) && EndsInUrl(st.r) && Reads(s, st.i, "(") && !QuoteAhead(s, st.i + 1)
    ensures Run(custom, s, st) == Run(custom, s, Moved(st, "(").(cx := st.cx.(customUrl := true)))
  {
    hide Step, Run, QuoteAhead, EndsInUrl;
    ValueOpenTurn(custom, s, st, '(');
    RunNext(custom, s, st);
  }

  lemma ValueUrlBody(custom: string -> bool, s: string, st: State, body: string)
    requires InValue(st) && EndsInUrl(st.r) && Body(body, ')') && !QuoteFirst(body + ")")
    requires Reads(s, st.i, "(" + (body + ")"))
    ensures Run(custom, s, st) == Run(custom, s, Moved(st, "(" + (body + ")")))
  {
    hide Run, Body, QuoteFirst, QuoteAhead, Reads, EndsInUrl;
    ReadsSplit(s, st.i, "(", body + ")");
    assert (body + ")")[|body|] == ')';
    QuoteAheadIs(s, st.i + 1, body + ")");
    ValueUrlOpens(custom, s, st);
    ValueUrlRuns(custom, s, Moved(st, "(").(cx := st.cx.(customUrl := true)), body);
    MovedTwice(st, "(", body + ")");
  }

  lemma ValueUrlCall(custom: string -> bool, s: string, st: State, word: string, body: string)
    requires InValue(st) && |word| == 3 && EndsInUrl(word) && Body(body, ')') && !QuoteFirst(body + ")")
    requires Reads(s, st.i, word + "(" + body + ")")
    ensures Run(custom, s, st) == Run(custom, s, Moved(st, word + "(" + body + ")"))
  {
    hide Run, Body, QuoteFirst, EndsInUrl;
    var call := "(" + (body + ")");
    assert word + "(" + body + ")" == word + call;
    ReadsSplit(s, st.i, word, call);
    ValueWordRuns(custom, s, st, word);
    UrlWordEnds(st.r, word);
    ValueUrlBody(custom, s, Moved(st, word), body);
    MovedTwice(st, word, call);
  }

  lemma ValueCharRuns(custom: string -> bool, s: string, st: State, c: char)
    requires InValue(st) && Reads(s, st.i, [c]) && c !in "\\'\"()[]{};:"
    ensures Run(custom, s, st) == Run(custom, s, Moved(st, [c])) && InValue(Moved(st, [c]))
  {
    hide Step, Run;
    ValueCharTurn(custom, s, st, c);
    RunNext(custom, s, st);
  }

  lemma ValueWordRuns(custom: string -> bool, s: string, st: State, word: string)
    requires InValue(st) && |word| == 3 && EndsInUrl(word) && Reads(s, st.i, word)
    ensures Run(custom, s, st) == Run(custom, s, Moved(st, word))
  {
    hide Run, Reads, EndsInUrl, InValue;
    UrlLetters(word);
    var a, b, c := [word[0]], [word[1]], [word[2]];
    assert word == a + (b + c);
    ReadsSplit(s, st.i, a, b + c);
    ReadsSplit(s, st.i + 1, b, c);
    ValueCharRuns(custom, s, st, word[0]);
    ValueCharRuns(custom, s, Moved(st, a), word[1]);
    MovedTwice(st, a, b);
    ValueCharRuns(custom, s, Moved(st, a + b), word[2]);
    MovedTwice(st, a + b, c);
    assert a + b + c == word;
  }

  ghost predicate ReadyValue(s: string, st: State, b: Bits) {
    InValue(st) && Reads(s, st.i, Text(b)) && Fits(Never, st.r, b, st.cx.customDepth > 0, true)
  }

  /** A custom-property value is copied whole, a ';' inside its brackets included. */
  lemma {:induction false} ValueRuns(custom: string -> bool, s: string, st: State, b: Bits)
    requires ReadyValue(s, st, b)
    ensures Run(custom, s, st) == Run(custom, s, Moved(st, Text(b)))
    decreases b, 2
  {
    hide Step, Run, Fits, Reads;
    if b.End? {
      assert st.r + "" == st.r;
    } else {
      var x := FirstOfValue(custom, s, st, b);
      ValueRuns(custom, s, Moved(st, x), b.rest);
      MovedTwice(st, x, Text(b.rest));
    }
  }

  /** What the scanner stands at in a value, and what it stands at after the first part `x`. */
  lemma ValueAdvance(s: string, st: State, b: Bits, x: string)
    requires ReadyValue(s, st, b) && !b.End? && Text(b) == x + Text(b.rest)
    requires Fits(Never, st.r + x, b.rest, st.cx.customDepth > 0, true)
    ensures Reads(s, st.i, x) && ReadyValue(s, Moved(st, x), b.rest)
  {
    hide Fits, Text;
    ReadsSplit(s, st.i, x, Text(b.rest));
  }

  lemma ValueFits(s: string, st: State, b: Bits)
    requires ReadyValue(s, st, b)
    ensures InValue(st) && Fits(Never, st.r, b, st.cx.customDepth > 0, true)
  {}

  lemma {:induction false} FirstOfValue(custom: string -> bool, s: string, st: State, b: Bits) returns (x: string)
    requires ReadyValue(s, st, b) && !b.End?
    ensures Text(b) == x + Text(b.rest) && Run(custom, s, st) == Run(custom, s, Moved(st, x))
    ensures ReadyValue(s, Moved(st, x), b.rest)
    decreases b, 1
  {
    hide Step, Run, QuoteFirst, Body, ReadyValue, Moved;
    ValueFits(s, st, b);
    match b
    case Char(c, rest) =>
      x := [c];
      ValueAdvance(s, st, b, x);
      ValueCharTurn(custom, s, st, c);
      RunNext(custom, s, st);
    case Escape(c, rest) =>
      x := ['\\', c];
      ValueAdvance(s, st, b, x);
      PairTurn(custom, s, st, c);
      RunNext(custom, s, st);
    case Str(quote, body, rest) =>
      x := [quote] + body + [quote];
      ValueAdvance(s, st, b, x);
      StringRuns(custom, s, st, quote, body);
    case Url(word, body, rest) =>
      x := word + "(" + body + ")";
      ValueAdvance(s, st, b, x);
      ValueUrlCall(custom, s, st, word, body);
    case Nest(open, inner, close, rest) =>
      x := [open] + Text(inner) + [close];
      ValueAdvance(s, st, b, x);
      ValueNestRuns(custom, s, st, b);
  }

  lemma ValueCloseRuns(custom: string -> bool, s: string, st: State, c: char)
    requires InValue(st) && Reads(s, st.i, [c]) && c in ")]}" && st.cx.customDepth > 0
    ensures Run(custom, s, st) == Run(custom, s, Moved(st, [c]).(cx := st.cx.(customDepth := st.cx.customDepth - 1)))
  {
    hide Step, Run;
    ValueCloseTurn(custom, s, st, c);
    RunNext(custom, s, st);
  }

  lemma {:induction false} ValueNestRuns(custom: string -> bool, s: string, st: State, b: Bits)
    requires b.Nest? && ReadyValue(s, st, b)
    ensures Run(custom, s, st) == Run(custom, s, Moved(st, [b.open] + Text(b.inner) + [b.close]))
    decreases b, 0
  {
    hide Run, QuoteFirst, Text, Fits, Reads, QuoteAhead;
    var open, inner, close := [b.open], Text(b.inner), [b.close];
    var m := ValueNestOpens(custom, s, st, b);
    ValueRuns(custom, s, m, b.inner);
    ValueCloseRuns(custom, s, Moved(m, inner), b.close);
    MovedTwice(st, open, inner);
    MovedTwice(st, open + inner, close);
  }

  lemma ValueNestOpens(custom: string -> bool, s: string, st: State, b: Bits) returns (m: State)
    requires b.Nest? && ReadyValue(s, st, b)
    ensures m == Moved(st, [b.open]).(cx := st.cx.(customDepth := st.cx.customDepth + 1))
    ensures ReadyValue(s, m, b.inner) && Run(custom, s, st) == Run(custom, s, m)
    ensures b.close in ")]}" && Reads(s, m.i + |Text(b.inner)|, [b.close])
  {
    hide Step, Run, QuoteFirst, Text, QuoteAhead, Reads;
    var open, inner, close := [b.open], Text(b.inner), [b.close];
    TextOfNest(b);
    ReadsSplit(s, st.i, open + inner + close, Text(b.rest));
    assert open + inner + close == open + (inner + close);
    ReadsSplit(s, st.i, open, inner + close);
    ReadsSplit(s, st.i + 1, inner, close);
    assert (inner + close)[|inner|] == b.close;
    QuoteAheadIs(s, st.i + 1, inner + close);
    ValueOpenTurn(custom, s, st, b.open);
    m := Step(custom, s, st);
    InBounds(s, st.i, open);
    RunNext(custom, s, st);
  }

  lemma TextOfNest(b: Bits)
    requires b.Nest?
    ensures Text(b) == [b.open] + Text(b.inner) + [b.close] + Text(b.rest)
  {}

  // ---- sheets ------------------------------------------------------------------------------------

  /**
   The content of a sheet or block.  A `gap` is whitespace and semicolons.  A
   segment is a `head` without ':' and, after a ':', a `tail`.
   */
  datatype Items =
    | Done(gap: string)
    | Statement(gap: string, head: Bits, tail: Option<Bits>, next: Items)
    | Property(gap: string, head: Bits, value: Bits, next: Items)
    | Rule(gap: string, head: Bits, tail: Option<Bits>, inner: Items, next: Items)

  function SegmentText(head: Bits, tail: Option<Bits>): string {
    match tail
    case None => Text(head)
    case Some(t) => Text(head) + ":" + Text(t)
  }

  function ItemsText(it: Items): string {
    match it
    case Done(gap) => gap
    case Statement(gap, head, tail, next) => gap + SegmentText(head, tail) + ItemsText(next)
    case Property(gap, head, value, next) => gap + (Text(head) + ":" + Text(value)) + ItemsText(next)
    case Rule(gap, head, tail, inner, next) =>
      gap + SegmentText(head, tail) + ("{" + ItemsText(inner) + "}") + ItemsText(next)
  }

  function WithoutSemicolons(gap: string): string {
    if gap == "" then "" else (if gap[0] == ';' then "" else [gap[0]]) + WithoutSemicolons(gap[1..])
  }

  /** The same content without the semicolons at the end of each block. */
  function Trimmed(it: Items, inBlock: bool): Items {
    match it
    case Done(gap) => if inBlock then Done(WithoutSemicolons(gap)) else it
    case Statement(gap, head, tail, next) => Statement(gap, head, tail, Trimmed(next, inBlock))
    case Property(gap, head, value, next) => Property(gap, head, value, Trimmed(next, inBlock))
    case Rule(gap, head, tail, inner, next) => Rule(gap, head, tail, Trimmed(inner, true), Trimmed(next, inBlock))
  }

  predicate IsGap(gap: string) {
    forall k :: 0 <= k < |gap| ==> IsBlank(gap[k]) || gap[k] == ';'
  }

  /** The gap after a statement starts with the ';' that ends it. */
  predicate GapFits(gap: string, after: bool) {
    IsGap(gap) && (after ==> gap != "" && gap[0] == ';')
  }

  /** A name that makes a declaration: name characters, escapes and whitespace, and at top level "--" first. */
  predicate IsPropertyName(h: string, top: bool) {
    && h != ""
    && (forall k :: 0 <= k < |h| ==>
          || 'a' <= h[k] <= 'z' || 'A' <= h[k] <= 'Z' || '0' <= h[k] <= '9' || h[k] == '_' || h[k] == '-'
          || h[k] as int >= 0x80 || h[k] == '\\' || IsBlank(h[k]))
    && (top ==> "--" <= h)
  }

  predicate Begins(x: string) {
    x != "" && !IsBlank(x[0]) && x[0] != ';' && x[0] != '}'
  }

  predicate SegmentFits(custom: string -> bool, pre: string, head: Bits, tail: Option<Bits>, braces: bool) {
    && Fits(custom, pre, head, false, false) && NoColon(head)
    && (tail.Some? ==> !custom(pre + Text(head)) && Fits(custom, pre + Text(head) + ":", tail.value, false, braces))
  }

  /** The content stands for its own text, after the output `pre`; `after` says that a statement comes before it. */
  predicate Proper(custom: string -> bool, pre: string, it: Items, top: bool, after: bool)
    decreases it
  {
    match it
    case Done(gap) => IsGap(gap) && (after && gap != "" ==> gap[0] == ';')
    case Statement(gap, head, tail, next) =>
      && GapFits(gap, after) && Begins(SegmentText(head, tail))
      && SegmentFits(custom, pre + gap, head, tail, IsPropertyName(Text(head), top))
      && Proper(custom, pre + gap + SegmentText(head, tail), next, top, true)
    case Property(gap, head, value, next) =>
      && GapFits(gap, after) && Begins(Text(head) + ":")
      && Fits(custom, pre + gap, head, false, false) && NoColon(head) && custom(pre + gap + Text(head))
      && Fits(Never, pre + gap + Text(head) + ":", value, false, true)
      && Proper(custom, pre + gap + (Text(head) + ":" + Text(value)), next, top, true)
    case Rule(gap, head, tail, inner, next) =>
      && GapFits(gap, after) && Begins(SegmentText(head, tail) + "{")
      && SegmentFits(custom, pre + gap, head, tail, false) && (tail.Some? ==> !IsPropertyName(Text(head), top))
      && var open := pre + gap + SegmentText(head, tail) + "{";
      && Proper(custom, open, inner, false, false)
      && Proper(custom, open + ItemsText(Trimmed(inner, true)) + "}", next, top, false)
  }

  // ---- gaps --------------------------------------------------------------------------------------

  /** Between items, or at the end of one. */
  ghost predicate Resting(st: State) {
    && Valid(st) && st.cx.lex.Normal? && !st.cx.customUrl && st.parens == 0 && st.groups == 0
    && (st.cx.inCustom ==> st.cx.customDepth == 0)
  }

  predicate AllBlank(x: string) {
    forall k :: 0 <= k < |x| ==> IsCssWhitespace(x[k])
  }

  /** At the start of an item: nothing but whitespace in the segment so far. */
  ghost predicate Seated(st: State) {
    Resting(st) && !st.cx.inCustom && st.seg == Fresh(st.seg.begin) && AllBlank(st.r[st.seg.begin..])
  }

  lemma SemicolonTurn(custom: string -> bool, s: string, st: State)
    requires Resting(st) && st.i < |s| && s[st.i] == ';'
    ensures var n := st.(cx := st.cx.(inCustom := false));
            Step(custom, s, st) == if ReachesBrace(s, st.i + 1) then n.(i := st.i + 1, seg := Fresh(|st.r|))
                                   else Moved(n, ";").(seg := Fresh(|st.r| + 1))
  {
    hide ReachesBrace;
    assert s[st.i..st.i + 1] == ";";
  }

  lemma SpaceTurn(custom: string -> bool, s: string, st: State)
    requires Resting(st) && st.i < |s| && IsCssWhitespace(s[st.i])
    ensures Step(custom, s, st) == Moved(st, [s[st.i]])
  {
    SpaceIsCopied(custom, s, st);
    assert s[st.i..st.i + 1] == [s[st.i]];
  }

  /** A gap leads to a brace exactly when one stands after it. */
  lemma {:induction false} GapReaches(s: string, i: nat, gap: string)
    requires Reads(s, i, gap) && IsGap(gap)
    requires var e := i + |gap|; e == |s| || !(IsCssWhitespace(s[e]) || s[e] == ';')
    ensures ReachesBrace(s, i) == (i + |gap| < |s| && s[i + |gap|] == '}')
    decreases |gap|
  {
    if gap == "" {
      if i == |s| { BraceNever(s); }
    } else {
      BraceNext(s, i);
      assert s[i + 0] == gap[0];
      assert gap == [gap[0]] + gap[1..];
      ReadsSplit(s, i, [gap[0]], gap[1..]);
      GapReaches(s, i + 1, gap[1..]);
    }
  }

  /** Whitespace at the start of an item leaves the scanner there. */
  lemma StaysSeated(st: State, c: char)
    requires Seated(st) && IsCssWhitespace(c)
    ensures Seated(Moved(st, [c]))
  {
    var m := Moved(st, [c]);
    assert m.r[m.seg.begin..] == st.r[st.seg.begin..] + [c];
  }

  lemma SemicolonRuns(custom: string -> bool, s: string, st: State) returns (m: State)
    requires Resting(st) && st.i < |s| && s[st.i] == ';' && !ReachesBrace(s, st.i + 1)
    ensures m == Moved(st, ";").(cx := st.cx.(inCustom := false), seg := m.seg) && Seated(m)
    ensures Run(custom, s, st) == Run(custom, s, m)
  {
    hide Step, Run, ReachesBrace;
    SemicolonTurn(custom, s, st);
    RunNext(custom, s, st);
    m := Step(custom, s, st);
    assert m.r[m.seg.begin..] == "";
  }

  lemma SpaceRuns(custom: string -> bool, s: string, st: State)
    requires Seated(st) && st.i < |s| && IsCssWhitespace(s[st.i])
    ensures Seated(Moved(st, [s[st.i]])) && Run(custom, s, st) == Run(custom, s, Moved(st, [s[st.i]]))
  {
    hide Step, Run;
    SpaceTurn(custom, s, st);
    RunNext(custom, s, st);
    StaysSeated(st, s[st.i]);
  }

  lemma GapSplits(s: string, i: nat, c: char, rest: string)
    requires Reads(s, i, [c] + rest) && IsGap([c] + rest)
    ensures i < |s| && s[i] == c && (c == ';' || IsCssWhitespace(c)) && Reads(s, i + 1, rest) && IsGap(rest)
  {
    assert s[i + 0] == ([c] + rest)[0] == c;
    ReadsSplit(s, i, [c], rest);
    assert forall k :: 0 <= k < |rest| ==> rest[k] == ([c] + rest)[k + 1];
  }

  /** One character of a gap that no brace follows. */
  lemma GapTurn(custom: string -> bool, s: string, st: State, c: char, rest: string, after: bool) returns (m: State)
    requires Resting(st) && Reads(s, st.i, [c] + rest) && IsGap([c] + rest)
    requires if after then c == ';' else Seated(st)
    requires var e := st.i + 1 + |rest|; e == |s| || !(IsCssWhitespace(s[e]) || s[e] == ';' || s[e] == '}')
    ensures m == Moved(st, [c]).(cx := st.cx.(inCustom := false), seg := m.seg) && Seated(m)
    ensures Run(custom, s, st) == Run(custom, s, m) && Reads(s, m.i, rest) && IsGap(rest)
  {
    hide Run, ReachesBrace, Reads, IsGap, AllBlank, Valid;
    GapSplits(s, st.i, c, rest);
    if c == ';' {
      GapReaches(s, st.i + 1, rest);
      m := SemicolonRuns(custom, s, st);
    } else {
      SpaceRuns(custom, s, st);
      m := Moved(st, [c]);
    }
  }

  /** A gap that no brace follows is copied, and the next item starts after it. */
  lemma {:induction false} GapRuns(custom: string -> bool, s: string, st: State, gap: string, after: bool)
    returns (n: State)
    requires Resting(st) && Reads(s, st.i, gap) && IsGap(gap) && (after && gap != "" ==> gap[0] == ';')
    requires after || Seated(st)
    requires var e := st.i + |gap|; e == |s| || !(IsCssWhitespace(s[e]) || s[e] == ';' || s[e] == '}')
    ensures n == Moved(st, gap).(cx := n.cx, seg := n.seg) && n.cx == st.cx.(inCustom := n.cx.inCustom) && Resting(n)
    ensures Run(custom, s, st) == Run(custom, s, n)
    ensures !after || gap != "" ==> Seated(n)
    decreases |gap|
  {
    hide Run, AllBlank, IsGap, Reads, Valid;
    if gap == "" {
      n := st;
      assert st.r + "" == st.r;
    } else {
      assert gap == [gap[0]] + gap[1..];
      var m := GapTurn(custom, s, st, gap[0], gap[1..], after);
      n := GapRuns(custom, s, m, gap[1..], false);
      assert st.r + [gap[0]] + gap[1..] == st.r + gap;
    }
  }

  /** One character of a gap before a closing brace. */
  lemma LastGapTurn(custom: string -> bool, s: string, st: State, c: char, rest: string) returns (m: State)
    requires Resting(st) && Reads(s, st.i, [c] + rest) && IsGap([c] + rest)
    requires var e := st.i + 1 + |rest|; e < |s| && s[e] == '}'
    ensures m == st.(i := st.i + 1, r := st.r + if c == ';' then "" else [c], cx := m.cx, seg := m.seg)
    ensures m.cx == st.cx.(inCustom := m.cx.inCustom) && Resting(m)
    ensures Run(custom, s, st) == Run(custom, s, m) && Reads(s, m.i, rest) && IsGap(rest)
  {
    hide Step, Run, ReachesBrace, Reads, IsGap;
    GapSplits(s, st.i, c, rest);
    RunNext(custom, s, st);
    m := Step(custom, s, st);
    if c == ';' {
      GapReaches(s, st.i + 1, rest);
      SemicolonTurn(custom, s, st);
      assert st.r + "" == st.r;
    } else {
      SpaceTurn(custom, s, st);
    }
  }

  /** Of the gap before a closing brace only the whitespace is copied. */
  lemma {:induction false} LastGapRuns(custom: string -> bool, s: string, st: State, gap: string) returns (n: State)
    requires Resting(st) && Reads(s, st.i, gap) && IsGap(gap)
    requires var e := st.i + |gap|; e < |s| && s[e] == '}'
    ensures n == st.(i := st.i + |gap|, r := st.r + WithoutSemicolons(gap), cx := n.cx, seg := n.seg)
    ensures n.cx == st.cx.(inCustom := n.cx.inCustom) && Resting(n)
    ensures Run(custom, s, st) == Run(custom, s, n)
    decreases |gap|
  {
    hide Run, IsGap, Reads, Valid;
    if gap == "" {
      n := st;
      assert st.r + "" == st.r;
    } else {
      assert gap == [gap[0]] + gap[1..];
      var m := LastGapTurn(custom, s, st, gap[0], gap[1..]);
      n := LastGapRuns(custom, s, m, gap[1..]);
      var kept := if gap[0] == ';' then "" else [gap[0]];
      assert st.r + kept + WithoutSemicolons(gap[1..]) == st.r + (kept + WithoutSemicolons(gap[1..]));
    }
  }

  // ---- segments ----------------------------------------------------------------------------------

  lemma {:induction false} SkipBlank(blank: string, h: string, i: nat)
    requires AllBlank(blank) && (h != "" ==> !IsCssWhitespace(h[0])) && i <= |blank|
    ensures SkipSpace(blank + h, i) == |blank|
    decreases |blank| - i
  {
    var x := blank + h;
    if i < |blank| {
      assert x[i] == blank[i];
      SkipBlank(blank, h, i + 1);
    } else if h != "" {
      assert x[i] == h[0];
    }
  }

  /** The scanner takes a name for a property's exactly when it is one. */
  lemma NamesIff(blank: string, h: string, top: bool)
    requires AllBlank(blank) && (h != "" ==> !IsCssWhitespace(h[0]))
    ensures NamesProperty(blank + h, top) <==> IsPropertyName(h, top)
  {
    SkipBlank(blank, h, 0);
    var x, b := blank + h, |blank|;
    assert forall k :: 0 <= k < |h| ==> x[b + k] == h[k];
    if NamesProperty(x, top) {
      assert forall k :: 0 <= k < |h| ==> h[k] == x[b + k];
      if top { assert "--" == h[..2]; }
    }
    if IsPropertyName(h, top) {
      forall k | b <= k < |x| ensures IsNameChar(x[k]) || x[k] == '\\' || IsCssWhitespace(x[k]) {
        assert x[k] == h[k - b];
      }
      if top { assert h[..2] == "--"; }
    }
  }

  lemma ColonTurn(custom: string -> bool, s: string, st: State)
    requires Resting(st) && !st.cx.inCustom && st.seg.colon == -1 && Reads(s, st.i, ":")
    ensures Step(custom, s, st)
            == if custom(st.r) then Moved(st, ":").(cx := st.cx.(inCustom := true, customDepth := 0))
               else Moved(st, ":").(seg := st.seg.(colon := |st.r|))
  {
    hide ReachesBrace;
    assert s[st.i + 0] == ":"[0];
    CopyIsMoved(s, st, ":");
  }

  /** A segment is copied; what its head names decides whether braces belong to it. */
  lemma SegmentRuns(custom: string -> bool, s: string, st: State, head: Bits, tail: Option<Bits>, braces: bool)
    returns (n: State)
    requires Seated(st) && Reads(s, st.i, SegmentText(head, tail)) && SegmentFits(custom, st.r, head, tail, braces)
    requires Text(head) != "" ==> !IsCssWhitespace(Text(head)[0])
    requires braces ==> IsPropertyName(Text(head), st.blocks == 0)
    ensures n == Moved(st, SegmentText(head, tail)).(seg := n.seg) && Resting(n)
    ensures Run(custom, s, st) == Run(custom, s, n)
    ensures tail.None? ==> n.seg == st.seg
    ensures tail.Some? && !braces ==> n.seg == st.seg.(colon := |st.r| + |Text(head)|)
  {
    hide Step, Run, Fits, Reads, NoColon, AllBlank, IsPropertyName, GroupVerdict;
    var h := Text(head);
    var more := if tail.Some? then ":" + Text(tail.value) else "";
    assert SegmentText(head, tail) == h + more;
    HeadRuns(custom, s, st, head, more);
    if tail.None? {
      n := Moved(st, h);
    } else {
      n := TailRuns(custom, s, st, head, tail.value, braces);
    }
  }

  /** A ':' that starts no custom-property value is noted in the segment. */
  lemma ColonIsNoted(custom: string -> bool, s: string, st: State) returns (n: State)
    requires Resting(st) && !st.cx.inCustom && st.seg.colon == -1 && Reads(s, st.i, ":") && !custom(st.r)
    ensures n == Moved(st, ":").(seg := st.seg.(colon := |st.r|)) && Resting(n)
    ensures Run(custom, s, st) == Run(custom, s, n)
  {
    hide Step, Run;
    ColonTurn(custom, s, st);
    RunNext(custom, s, st);
    n := Step(custom, s, st);
  }

  /** The tail of a segment, once the scanner stands after its ':'. */
  lemma TailFits(custom: string -> bool, s: string, st: State, head: Bits, tail: Bits, braces: bool, k: State)
    requires Seated(st) && SegmentFits(custom, st.r, head, Some(tail), braces) && Resting(k)
    requires k == Moved(Moved(st, Text(head)), ":").(seg := st.seg.(colon := |st.r| + |Text(head)|))
    requires Text(head) != "" ==> !IsCssWhitespace(Text(head)[0])
    requires braces ==> IsPropertyName(Text(head), st.blocks == 0)
    requires Reads(s, k.i, Text(tail))
    ensures Ready(custom, s, k, tail, braces)
  {
    hide Fits, Reads, NoColon, AllBlank, IsPropertyName, Text, InDeclaration;
    if braces { DeclarationStarts(st, Text(head), k); }
  }

  lemma TailRuns(custom: string -> bool, s: string, st: State, head: Bits, tail: Bits, braces: bool) returns (n: State)
    requires Seated(st) && Reads(s, st.i, Text(head) + ":" + Text(tail))
    requires SegmentFits(custom, st.r, head, Some(tail), braces)
    requires Text(head) != "" ==> !IsCssWhitespace(Text(head)[0])
    requires braces ==> IsPropertyName(Text(head), st.blocks == 0)
    ensures n == Moved(st, Text(head) + ":" + Text(tail)).(seg := n.seg) && Resting(n)
    ensures Run(custom, s, Moved(st, Text(head))) == Run(custom, s, n)
    ensures !braces ==> n.seg == st.seg.(colon := |st.r| + |Text(head)|)
  {
    hide Run, Fits, Reads, NoColon, AllBlank, IsPropertyName, Ready, Text;
    var h, t := Text(head), Text(tail);
    ReadsSplit(s, st.i, h + ":", t);
    ReadsSplit(s, st.i, h, ":");
    var k := ColonIsNoted(custom, s, Moved(st, h));
    TailFits(custom, s, st, head, tail, braces, k);
    n := BitsRun(custom, s, k, tail, braces);
    MovedTwice(st, h, ":");
    MovedTwice(st, h + ":", t);
  }

  lemma HeadRuns(custom: string -> bool, s: string, st: State, head: Bits, more: string)
    requires Seated(st) && Reads(s, st.i, Text(head) + more) && Fits(custom, st.r, head, false, false) && NoColon(head)
    ensures Run(custom, s, st) == Run(custom, s, Moved(st, Text(head)))
  {
    hide Run, Step, AllBlank;
    ReadsSplit(s, st.i, Text(head), more);
    var n := BitsRun(custom, s, st, head, false);
  }

  /** After a property's name and ':' the scanner is in a declaration. */
  lemma DeclarationStarts(st: State, h: string, k: State)
    requires Seated(st) && IsPropertyName(h, st.blocks == 0) && (h != "" ==> !IsCssWhitespace(h[0]))
    requires k == Moved(Moved(st, h), ":").(seg := st.seg.(colon := |st.r| + |h|))
    ensures InDeclaration(k)
  {
    hide IsPropertyName, NamesProperty;
    var blank := st.r[st.seg.begin..];
    NamesIff(blank, h, st.blocks == 0);
    assert k.r[k.seg.begin..k.seg.colon] == blank + h;
  }

  lemma OpenBlockTurn(custom: string -> bool, s: string, st: State)
    requires Resting(st) && !st.cx.inCustom && Reads(s, st.i, "{")
    requires GroupVerdict(st.r, st.seg, st.blocks == 0) == Block
    ensures Step(custom, s, st) == Moved(st, "{").(blocks := st.blocks + 1, seg := Fresh(|st.r| + 1))
  {
    hide ReachesBrace, QuoteAhead, EndsWithUrl, GroupVerdict;
    assert s[st.i + 0] == "{"[0];
    CopyIsMoved(s, st, "{");
  }

  lemma CloseBlockTurn(custom: string -> bool, s: string, st: State)
    requires Resting(st) && Reads(s, st.i, "}") && st.blocks > 0
    ensures Step(custom, s, st)
            == Moved(st, "}").(cx := st.cx.(inCustom := false), blocks := st.blocks - 1, seg := Fresh(|st.r| + 1))
  {
    hide ReachesBrace, QuoteAhead, EndsWithUrl, GroupVerdict;
    assert s[st.i + 0] == "}"[0];
    CopyIsMoved(s, st, "}");
  }

  /** A '{' after a segment that is no declaration opens a block. */
  lemma VerdictIsBlock(st: State, n: State, head: Bits, tail: Option<Bits>)
    requires Seated(st) && Valid(n) && n == Moved(st, SegmentText(head, tail)).(seg := n.seg)
    requires Text(head) != "" ==> !IsCssWhitespace(Text(head)[0])
    requires if tail.None? then n.seg == st.seg
             else n.seg == st.seg.(colon := |st.r| + |Text(head)|) && !IsPropertyName(Text(head), st.blocks == 0)
    ensures GroupVerdict(n.r, n.seg, n.blocks == 0) == Block
  {
    hide IsPropertyName, NamesProperty, AllBlank, Text;
    if tail.Some? {
      var blank, h := st.r[st.seg.begin..], Text(head);
      NamesIff(blank, h, st.blocks == 0);
      assert n.r[n.seg.begin..n.seg.colon] == blank + h;
    }
  }

  // ---- the whole sheet -----------------------------------------------------------------------------

  /** The content `it` lies before the scanner, up to the '}' of its block or the end of the sheet. */
  ghost predicate Ahead(custom: string -> bool, s: string, st: State, it: Items, after: bool) {
    && Resting(st) && (after || Seated(st))
    && Reads(s, st.i, ItemsText(it)) && Proper(custom, st.r, it, st.blocks == 0, after)
    && var e := st.i + |ItemsText(it)|;
       if st.blocks == 0 then e == |s| else e < |s| && s[e] == '}'
  }

  /** The scanner went over `x` and emitted `y`. */
  ghost predicate Went(st: State, n: State, x: string, y: string) {
    Resting(n) && n == st.(i := st.i + |x|, r := st.r + y, cx := n.cx, seg := n.seg)
  }

  lemma WentTwice(st: State, m: State, n: State, x: string, y: string, x': string, y': string)
    requires Went(st, m, x, y) && Went(m, n, x', y')
    ensures Went(st, n, x + x', y + y')
  {
    assert st.r + y + y' == st.r + (y + y');
  }

  lemma AheadRest(custom: string -> bool, s: string, st: State, m: State, x: string, y: string, it: Items, after: bool)
    requires Went(st, m, x, y) && (after || Seated(m)) && Reads(s, st.i, x + ItemsText(it))
    requires Proper(custom, st.r + y, it, st.blocks == 0, after)
    requires var e := st.i + |x + ItemsText(it)|; if st.blocks == 0 then e == |s| else e < |s| && s[e] == '}'
    ensures Ahead(custom, s, m, it, after)
  {
    hide Proper, AllBlank;
    ReadsSplit(s, st.i, x, ItemsText(it));
  }

  /** The gap before an item. */
  lemma GapBefore(custom: string -> bool, s: string, st: State, gap: string, x: string, after: bool) returns (m: State)
    requires Resting(st) && (after || Seated(st)) && GapFits(gap, after) && Begins(x) && Reads(s, st.i, gap + x)
    ensures Seated(m) && Went(st, m, gap, gap) && Run(custom, s, st) == Run(custom, s, m) && Reads(s, m.i, x)
  {
    hide Run, AllBlank, IsGap;
    ReadsSplit(s, st.i, gap, x);
    assert s[st.i + |gap| + 0] == x[0];
    m := GapRuns(custom, s, st, gap, after);
  }

  lemma {:induction false} ItemsRun(custom: string -> bool, s: string, st: State, it: Items, after: bool)
    returns (n: State)
    requires Ahead(custom, s, st, it, after)
    ensures Went(st, n, ItemsText(it), ItemsText(Trimmed(it, st.blocks > 0))) && Run(custom, s, st) == Run(custom, s, n)
    decreases it, 1
  {
    hide Run, Ahead, Went, Seated;
    if it.Done? {
      n := DoneRuns(custom, s, st, it, after);
    } else {
      var x, y, m := ItemRuns(custom, s, st, it, after);
      n := ItemsRun(custom, s, m, it.next, !it.Rule?);
      BlocksKept(st, m, x, y);
      WentTwice(st, m, n, x, y, ItemsText(it.next), ItemsText(Trimmed(it.next, st.blocks > 0)));
    }
  }

  lemma BlocksKept(st: State, m: State, x: string, y: string)
    requires Went(st, m, x, y)
    ensures m.blocks == st.blocks
  {}

  lemma DoneRuns(custom: string -> bool, s: string, st: State, it: Items, after: bool) returns (n: State)
    requires it.Done? && Ahead(custom, s, st, it, after)
    ensures Went(st, n, it.gap, ItemsText(Trimmed(it, st.blocks > 0))) && Run(custom, s, st) == Run(custom, s, n)
  {
    hide Run, AllBlank, IsGap;
    if st.blocks > 0 {
      n := LastGapRuns(custom, s, st, it.gap);
    } else {
      n := GapRuns(custom, s, st, it.gap, after);
    }
  }

  /** One item, and the content after it. */
  lemma {:induction false} ItemRuns(custom: string -> bool, s: string, st: State, it: Items, after: bool)
    returns (x: string, y: string, m: State)
    requires !it.Done? && Ahead(custom, s, st, it, after)
    ensures ItemsText(it) == x + ItemsText(it.next)
    ensures ItemsText(Trimmed(it, st.blocks > 0)) == y + ItemsText(Trimmed(it.next, st.blocks > 0))
    ensures Went(st, m, x, y) && Run(custom, s, st) == Run(custom, s, m)
    ensures Ahead(custom, s, m, it.next, !it.Rule?)
    decreases it, 0
  {
    hide Run, Ahead, Went, Seated, Proper;
    match it
    case Statement(gap, head, tail, next) =>
      x := gap + SegmentText(head, tail);
      y := x;
      m := StatementRuns(custom, s, st, it, after);
    case Property(gap, head, value, next) =>
      x := gap + (Text(head) + ":" + Text(value));
      y := x;
      m := PropertyRuns(custom, s, st, it, after);
    case Rule(gap, head, tail, inner, next) =>
      x := gap + SegmentText(head, tail) + ("{" + ItemsText(inner) + "}");
      y := gap + SegmentText(head, tail) + ("{" + ItemsText(Trimmed(inner, true)) + "}");
      m := RuleRuns(custom, s, st, it, after);
  }

  lemma StatementRuns(custom: string -> bool, s: string, st: State, it: Items, after: bool) returns (n: State)
    requires it.Statement? && Ahead(custom, s, st, it, after)
    ensures var x := it.gap + SegmentText(it.head, it.tail);
            Went(st, n, x, x) && Run(custom, s, st) == Run(custom, s, n) && Ahead(custom, s, n, it.next, true)
  {
    hide Run, Text, SegmentFits, IsPropertyName, Seated, IsGap;
    var gap, seg, rest := it.gap, SegmentText(it.head, it.tail), ItemsText(it.next);
    ReadsSplit(s, st.i, gap + seg, rest);
    var m := GapBefore(custom, s, st, gap, seg, after);
    HeadStarts(it.head, it.tail, "");
    n := SegmentRuns(custom, s, m, it.head, it.tail, IsPropertyName(Text(it.head), st.blocks == 0));
    WentTwice(st, m, n, gap, gap, seg, seg);
    AheadRest(custom, s, st, n, gap + seg, gap + seg, it.next, true);
  }

  lemma HeadStarts(head: Bits, tail: Option<Bits>, more: string)
    requires Begins(SegmentText(head, tail) + more)
    ensures Text(head) != "" ==> !IsCssWhitespace(Text(head)[0])
  {}

  lemma ColonEntersValue(custom: string -> bool, s: string, st: State) returns (n: State)
    requires Resting(st) && !st.cx.inCustom && st.seg.colon == -1 && Reads(s, st.i, ":") && custom(st.r)
    ensures n == Moved(st, ":").(cx := st.cx.(inCustom := true, customDepth := 0)) && InValue(n)
    ensures Run(custom, s, st) == Run(custom, s, n)
  {
    hide Step, Run;
    ColonTurn(custom, s, st);
    RunNext(custom, s, st);
    n := Step(custom, s, st);
  }

  /** A custom property from its name on. */
  lemma CustomRuns(custom: string -> bool, s: string, st: State, head: Bits, value: Bits) returns (n: State)
    requires Seated(st) && Reads(s, st.i, Text(head) + ":" + Text(value))
    requires Fits(custom, st.r, head, false, false) && NoColon(head) && custom(st.r + Text(head))
    requires Fits(Never, st.r + Text(head) + ":", value, false, true)
    ensures n == Moved(st, Text(head) + ":" + Text(value)).(cx := n.cx) && Resting(n)
    ensures Run(custom, s, st) == Run(custom, s, n)
  {
    hide Run, Text, Fits, NoColon, Reads, AllBlank;
    var h, v := Text(head), Text(value);
    ReadsSplit(s, st.i, h + ":", v);
    HeadRuns(custom, s, st, head, ":");
    ReadsSplit(s, st.i, h, ":");
    var q := ColonEntersValue(custom, s, Moved(st, h));
    ValueRuns(custom, s, q, value);
    n := Moved(q, v);
    MovedTwice(st, h, ":");
    MovedTwice(st, h + ":", v);
  }

  lemma PropertyRuns(custom: string -> bool, s: string, st: State, it: Items, after: bool) returns (n: State)
    requires it.Property? && Ahead(custom, s, st, it, after)
    ensures var x := it.gap + (Text(it.head) + ":" + Text(it.value));
            Went(st, n, x, x) && Run(custom, s, st) == Run(custom, s, n) && Ahead(custom, s, n, it.next, true)
  {
    hide Run, Text, Fits, NoColon, IsGap, Reads, AllBlank;
    var gap, h, v, rest := it.gap, Text(it.head), Text(it.value), ItemsText(it.next);
    var x := h + ":" + v;
    ReadsSplit(s, st.i, gap + x, rest);
    assert x[0] == (h + ":")[0];
    var m := GapBefore(custom, s, st, gap, x, after);
    n := CustomRuns(custom, s, m, it.head, it.value);
    WentTwice(st, m, n, gap, gap, x, x);
    assert st.r + (gap + x) == st.r + gap + x;
    AheadRest(custom, s, st, n, gap + x, gap + x, it.next, true);
  }

  /** A block: its segment, its content without the last semicolons, and its closing brace. */
  lemma {:induction false} RuleRuns(custom: string -> bool, s: string, st: State, it: Items, after: bool)
    returns (n: State)
    requires it.Rule? && Ahead(custom, s, st, it, after)
    ensures var a := it.gap + SegmentText(it.head, it.tail);
            && Went(st, n, a + ("{" + ItemsText(it.inner) + "}"), a + ("{" + ItemsText(Trimmed(it.inner, true)) + "}"))
            && Run(custom, s, st) == Run(custom, s, n) && Ahead(custom, s, n, it.next, false)
    decreases it.inner, 2
  {
    hide Run, Ahead, Seated, Proper;
    var m := BlockOpens(custom, s, st, it, after);
    var k := ItemsRun(custom, s, m, it.inner, false);
    n := BlockCloses(custom, s, st, it, after, m, k);
  }

  /** The state at the start of a block's content. */
  ghost predicate Entering(st: State, m: State, it: Items)
    requires it.Rule?
  {
    var a := it.gap + SegmentText(it.head, it.tail) + "{";
    Seated(m) && m == st.(i := st.i + |a|, r := st.r + a, cx := m.cx, seg := m.seg, blocks := st.blocks + 1)
  }

  /** The parts of a rule at their places. */
  lemma RuleReads(s: string, i: nat, it: Items)
    requires it.Rule? && Reads(s, i, ItemsText(it))
    ensures var a, inner := it.gap + (SegmentText(it.head, it.tail) + "{"), ItemsText(it.inner);
            Reads(s, i, a) && Reads(s, i + |a|, inner) && Reads(s, i + |a| + |inner|, "}")
  {
    hide Reads, Text, SegmentText;
    var gap, seg, inner, rest := it.gap, SegmentText(it.head, it.tail), ItemsText(it.inner), ItemsText(it.next);
    var a := gap + (seg + "{");
    ReadsSplit(s, i, gap + seg + ("{" + inner + "}"), rest);
    assert gap + seg + ("{" + inner + "}") == a + (inner + "}");
    ReadsSplit(s, i, a, inner + "}");
    ReadsSplit(s, i + |a|, inner, "}");
  }

  lemma BlockStarts(custom: string -> bool, s: string, st: State) returns (n: State)
    requires Resting(st) && !st.cx.inCustom && Reads(s, st.i, "{")
    requires GroupVerdict(st.r, st.seg, st.blocks == 0) == Block
    ensures n == Moved(st, "{").(blocks := st.blocks + 1, seg := n.seg) && Seated(n)
    ensures Run(custom, s, st) == Run(custom, s, n)
  {
    hide Run, Step, GroupVerdict;
    OpenBlockTurn(custom, s, st);
    RunNext(custom, s, st);
    n := Step(custom, s, st);
    assert n.r[n.seg.begin..] == "";
  }

  /** What a rule that stands for its text promises of its parts. */
  lemma RuleFits(custom: string -> bool, s: string, st: State, it: Items, after: bool)
    requires it.Rule? && Ahead(custom, s, st, it, after)
    ensures var seg := SegmentText(it.head, it.tail);
            && Resting(st) && (after || Seated(st)) && GapFits(it.gap, after) && Begins(seg + "{")
            && SegmentFits(custom, st.r + it.gap, it.head, it.tail, false)
            && (it.tail.Some? ==> !IsPropertyName(Text(it.head), st.blocks == 0))
            && Proper(custom, st.r + it.gap + seg + "{", it.inner, false, false)
  {
    hide Text, SegmentText, SegmentFits, IsPropertyName, GapFits, Reads, Begins, Resting, Seated, Trimmed;
  }

  lemma BlockOpens(custom: string -> bool, s: string, st: State, it: Items, after: bool) returns (n: State)
    requires it.Rule? && Ahead(custom, s, st, it, after)
    ensures Entering(st, n, it) && Run(custom, s, st) == Run(custom, s, n) && Ahead(custom, s, n, it.inner, false)
  {
    hide Run, Text, SegmentFits, IsPropertyName, GapFits, Reads, GroupVerdict, SegmentText, Begins, Proper,
      Valid, AllBlank;
    var gap, seg, inner := it.gap, SegmentText(it.head, it.tail), ItemsText(it.inner);
    RuleFits(custom, s, st, it, after);
    RuleReads(s, st.i, it);
    BraceAt(s, st.i + |gap + (seg + "{")| + |inner|);
    var m := GapBefore(custom, s, st, gap, seg + "{", after);
    ReadsSplit(s, m.i, seg, "{");
    var k := RuleSegment(custom, s, m, it);
    n := BlockStarts(custom, s, k);
    assert st.r + gap + seg + "{" == st.r + (gap + seg + "{");
  }

  lemma RuleSegment(custom: string -> bool, s: string, st: State, it: Items) returns (n: State)
    requires it.Rule? && Seated(st) && Begins(SegmentText(it.head, it.tail) + "{")
    requires SegmentFits(custom, st.r, it.head, it.tail, false) && Reads(s, st.i, SegmentText(it.head, it.tail))
    requires it.tail.Some? ==> !IsPropertyName(Text(it.head), st.blocks == 0)
    ensures n == Moved(st, SegmentText(it.head, it.tail)).(seg := n.seg) && Resting(n) && !n.cx.inCustom
    ensures GroupVerdict(n.r, n.seg, n.blocks == 0) == Block && Run(custom, s, st) == Run(custom, s, n)
  {
    hide Run, Text, SegmentFits, IsPropertyName, Reads, GroupVerdict;
    HeadStarts(it.head, it.tail, "{");
    n := SegmentRuns(custom, s, st, it.head, it.tail, false);
    VerdictIsBlock(st, n, it.head, it.tail);
  }

  lemma BraceAt(s: string, i: nat)
    requires Reads(s, i, "}")
    ensures i < |s| && s[i] == '}'
  {
    assert s[i + 0] == "}"[0];
  }

  /** What comes after a rule. */
  lemma RuleRest(custom: string -> bool, s: string, st: State, it: Items, after: bool)
    requires it.Rule? && Ahead(custom, s, st, it, after)
    ensures var a, rest := it.gap + SegmentText(it.head, it.tail), ItemsText(it.next);
            var x, y := a + ("{" + ItemsText(it.inner) + "}"), a + ("{" + ItemsText(Trimmed(it.inner, true)) + "}");
            && Reads(s, st.i, x + rest) && Proper(custom, st.r + y, it.next, st.blocks == 0, false)
            && var e := st.i + |x + rest|; if st.blocks == 0 then e == |s| else e < |s| && s[e] == '}'
  {
    hide Text, SegmentText, SegmentFits, IsPropertyName, IsGap, Reads, Begins, Resting, Seated, Trimmed;
    var gap, seg, kept := it.gap, SegmentText(it.head, it.tail), ItemsText(Trimmed(it.inner, true));
    assert st.r + gap + seg + "{" + kept + "}" == st.r + (gap + seg + ("{" + kept + "}"));
  }

  lemma BlockEnds(custom: string -> bool, s: string, st: State) returns (n: State)
    requires Resting(st) && Reads(s, st.i, "}") && st.blocks > 0
    ensures n == Moved(st, "}").(cx := n.cx, blocks := st.blocks - 1, seg := n.seg) && Seated(n)
    ensures Run(custom, s, st) == Run(custom, s, n)
  {
    hide Run, Step;
    CloseBlockTurn(custom, s, st);
    RunNext(custom, s, st);
    n := Step(custom, s, st);
    assert n.r[n.seg.begin..] == "";
  }

  lemma BlockCloses(custom: string -> bool, s: string, st: State, it: Items, after: bool, m: State, k: State)
    returns (n: State)
    requires it.Rule? && Ahead(custom, s, st, it, after) && Entering(st, m, it)
    requires Went(m, k, ItemsText(it.inner), ItemsText(Trimmed(it.inner, true)))
    ensures var a := it.gap + SegmentText(it.head, it.tail);
            && Went(st, n, a + ("{" + ItemsText(it.inner) + "}"), a + ("{" + ItemsText(Trimmed(it.inner, true)) + "}"))
            && Run(custom, s, k) == Run(custom, s, n) && Ahead(custom, s, n, it.next, false)
  {
    hide Run, Text, SegmentText, ItemsText, Proper, Ahead, Reads, Valid, AllBlank, Trimmed;
    RuleRest(custom, s, st, it, after);
    var a, rest := it.gap + SegmentText(it.head, it.tail), ItemsText(it.next);
    var inner, kept := ItemsText(it.inner), ItemsText(Trimmed(it.inner, true));
    var x, y := a + ("{" + inner + "}"), a + ("{" + kept + "}");
    ReadsSplit(s, st.i, x, rest);
    assert x == (a + "{" + inner) + "}";
    ReadsSplit(s, st.i, a + "{" + inner, "}");
    n := BlockEnds(custom, s, k);
    assert st.r + (a + "{") + kept + "}" == st.r + y;
    AheadRest(custom, s, st, n, x, y, it.next, false);
  }

  /** Phase 3 leaves out the semicolons at the end of each block, and changes nothing else. */
  lemma Phase3TrimsBlocks(custom: string -> bool, it: Items)
    requires Proper(custom, "", it, true, false)
    ensures Run(custom, ItemsText(it), START) == ItemsText(Trimmed(it, false))
  {
    hide Proper, ItemsText, Trimmed, Step;
    var s := ItemsText(it);
    assert START.r[START.seg.begin..] == "";
    assert Seated(START);
    var n := ItemsRun(custom, s, START, it, false);
    assert "" + ItemsText(Trimmed(it, false)) == ItemsText(Trimmed(it, false));
  }
}
