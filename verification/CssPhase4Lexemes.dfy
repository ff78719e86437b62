/**
 Phase 4 lexeme by lexeme.  The character-level scanner is proved equal, on every
 text, to a reading in whole lexemes: escape pairs, strings, url() tokens and
 custom-property values are copied, and of the rest a `0` is left out exactly where
 a number can start and a '.' follows.
 */
module CssPhase4Lexemes {
  import opened Ascii
  import opened CssChars
  import opened CssLexemes
  import opened CssPhase4

  /** Where the custom-property value that goes on at `i`, `depth` brackets deep and after `r`, ends. */
  function ValueEnd(s: string, i: nat, r: string, depth: nat): (e: nat)
    requires i <= |s|
    ensures i <= e <= |s|
    ensures e < |s| ==> s[e] == ';' || s[e] == '}'
    decreases |s| - i
  {
    if i == |s| then i
    else if s[i] == '\\' then if i + 1 < |s| then ValueEnd(s, i + 2, r + s[i..i + 2], depth) else |s|
    else if s[i] == '\'' || s[i] == '"' then
      var e := CloseEnd(s, i + 1, s[i]);
      ValueEnd(s, e, r + s[i..e], depth)
    else if s[i] == '(' && EndsInUrl(r) && !QuoteAhead(s, i + 1) then
      var e := CloseEnd(s, i + 1, ')');
      ValueEnd(s, e, r + s[i..e], depth)
    else if s[i] in "([{" then ValueEnd(s, i + 1, r + [s[i]], depth + 1)
    else if s[i] in ")]}" && depth > 0 then ValueEnd(s, i + 1, r + [s[i]], depth - 1)
    else if (s[i] == ';' || s[i] == '}') && depth == 0 then i
    else ValueEnd(s, i + 1, r + [s[i]], depth)
  }

  /** What becomes of `s` from `i` on, after `r`. */
  ghost function ByLexeme(custom: string -> bool, s: string, i: nat, r: string): string
    requires i <= |s|
    decreases |s| - i
  {
    if i == |s| then r
    else if s[i] == '\\' then if i + 1 < |s| then ByLexeme(custom, s, i + 2, r + s[i..i + 2]) else r + "\\"
    else if s[i] == '\'' || s[i] == '"' then
      var e := CloseEnd(s, i + 1, s[i]);
      ByLexeme(custom, s, e, r + s[i..e])
    else if s[i] == '(' && EndsInUrl(r) then
      var j := SkipSpace(s, i + 1);
      if j < |s| && (s[j] == '\'' || s[j] == '"') then ByLexeme(custom, s, j, r + "(")
      else
        var e := CloseEnd(s, j, ')');
        ByLexeme(custom, s, e, r + "(" + s[j..e])
    else if s[i] == ':' && custom(r) then
      var e := ValueEnd(s, i + 1, r + ":", 0);
      ByLexeme(custom, s, e, r + s[i..e])
    else if s[i] == '0' && i + 1 < |s| && s[i + 1] == '.' && NumberCanStart(r) then ByLexeme(custom, s, i + 1, r)
    else ByLexeme(custom, s, i + 1, r + [s[i]])
  }

  // ---- where a number can start ---------------------------------------------------------------

  /** A backslash run is even exactly when the text before it is whole. */
  lemma {:induction false} EvenRunIffWhole(r: string, pos: nat)
    requires pos <= |r|
    ensures BackslashRun(r, pos) % 2 == 0 <==> Whole(r[..pos])
    decreases pos
  {
    if pos > 0 {
      EvenRunIffWhole(r, pos - 1);
      WholeOneMore(r[..pos - 1], r[pos - 1]);
      assert r[..pos] == r[..pos - 1] + [r[pos - 1]];
    }
  }

  lemma {:induction false} HexRunIs(r: string, pos: nat, k: nat)
    requires k < pos <= |r| && !IsHexDigit(r[k]) && forall m :: k < m < pos ==> IsHexDigit(r[m])
    ensures HexRun(r, pos) == pos - 1 - k
    decreases pos
  {
    if k < pos - 1 { HexRunIs(r, pos - 1, k); }
  }

  lemma {:induction false} HexRunHex(r: string, pos: nat)
    requires pos <= |r|
    ensures forall m :: pos - HexRun(r, pos) <= m < pos ==> IsHexDigit(r[m])
    decreases pos
  {
    if pos > 0 && IsHexDigit(r[pos - 1]) { HexRunHex(r, pos - 1); }
  }

  lemma {:induction false} OddRunIsBackslash(r: string, pos: nat)
    requires pos <= |r| && BackslashRun(r, pos) % 2 != 0
    ensures pos > 0 && r[pos - 1] == '\\' && Whole(r[..pos - 1])
  {
    EvenRunIffWhole(r, pos - 1);
  }

  /** The whitespace at the end of `r` ends a hexadecimal escape. */
  ghost predicate EndsHexEscape(r: string, pos: nat)
    requires pos < |r|
  {
    var h := HexRun(r, pos);
    && IsCssWhitespace(r[pos]) && 1 <= h <= 6 && h + 1 <= pos && r[pos - 1 - h] == '\\'
    && BackslashRun(r, pos - 1 - h) % 2 == 0
  }

  lemma EscapeIsFound(r: string, k: nat)
    requires k + 2 <= |r| && EscapeFrom(r, k)
    ensures BackslashRun(r, |r| - 1) % 2 != 0 || EndsHexEscape(r, |r| - 1)
  {
    EvenRunIffWhole(r, k);
    if k + 2 < |r| {
      HexRunIs(r, |r| - 1, k);
    }
  }

  /** Looking back over the emitted text finds identifier content exactly where it ends in a name. */
  lemma ContentIff(r: string)
    requires r != ""
    ensures IsIdentContentAt(r, |r| - 1) <==> EndsInName(r)
  {
    var last := |r| - 1;
    if BackslashRun(r, last) % 2 != 0 {
      OddRunIsBackslash(r, last);
      assert EscapeFrom(r, last - 1);
    } else if EndsHexEscape(r, last) {
      var k := last - 1 - HexRun(r, last);
      HexRunHex(r, last);
      EvenRunIffWhole(r, k);
      assert EscapeFrom(r, k);
    }
    if EndsInEscape(r) {
      var k: nat :| k + 2 <= |r| && EscapeFrom(r, k);
      EscapeIsFound(r, k);
    }
  }

  lemma {:induction false} RunOfPrefix(r: string, n: nat, pos: nat)
    requires pos <= n <= |r|
    ensures BackslashRun(r[..n], pos) == BackslashRun(r, pos) && HexRun(r[..n], pos) == HexRun(r, pos)
    decreases pos
  {
    if pos > 0 { RunOfPrefix(r, n, pos - 1); }
  }

  lemma ContentOfPrefix(r: string, pos: nat)
    requires pos < |r|
    ensures IsIdentContentAt(r, pos) == IsIdentContentAt(r[..pos + 1], pos)
  {
    RunOfPrefix(r, pos + 1, pos);
    var h := HexRun(r, pos);
    if h + 1 <= pos { RunOfPrefix(r, pos + 1, pos - 1 - h); }
  }

  /** The scanner keeps a `0` exactly where no number can start. */
  lemma KeepsZeroIff(r: string)
    ensures KeepsZero(r) <==> !NumberCanStart(r)
  {
    hide IsIdentContentAt, EndsInName;
    if r != "" {
      ContentIff(r);
      if |r| >= 2 {
        ContentOfPrefix(r, |r| - 2);
        ContentIff(r[..|r| - 1]);
      }
    }
  }

  // ---- whole lexemes --------------------------------------------------------------------------

  /** The state after `s` up to `e` was copied, in plain text again. */
  function CopiedTo(s: string, st: State, e: nat): State
    requires st.i <= e <= |s|
  {
    st.(i := e, r := st.r + s[st.i..e], cx := st.cx.(lex := Normal))
  }

  /** Copying in two goes. */
  lemma CopiedTwice(s: string, st: State, n: State, e: nat)
    requires st.i < |s| && Copies(s, st, n) && n.i <= e <= |s|
    ensures n.r + s[n.i..e] == st.r + s[st.i..e]
  {
    assert s[st.i..n.i] + s[n.i..e] == s[st.i..e];
    assert (st.r + s[st.i..n.i]) + s[n.i..e] == st.r + (s[st.i..n.i] + s[n.i..e]);
  }

  /** One turn in a string or a url() token copies, and goes on to the same end or stands just past it. */
  ghost predicate StaysOrCloses(s: string, st: State, n: State, close: char, closed: Context)
    requires st.i < |s|
  {
    && Copies(s, st, n)
    && (if n.cx == st.cx then CloseEnd(s, n.i, close) == CloseEnd(s, st.i, close)
        else n.cx == closed && n.i == CloseEnd(s, st.i, close))
  }

  lemma StringTurn(s: string, st: State, quote: char)
    requires st.i < |s| && !st.cx.lex.Normal?
    ensures StaysOrCloses(s, st, StepString(s, st, quote), quote, st.cx.(lex := Normal))
  {}

  lemma UrlTurn(s: string, st: State)
    requires st.i < |s| && !st.cx.lex.Normal?
    ensures StaysOrCloses(s, st, StepUrl(s, st), ')', st.cx.(lex := Normal))
  {}

  /** Nothing is left to copy once the end is reached. */
  lemma CopiedNothing(s: string, st: State)
    requires st.i <= |s|
    ensures CopiedTo(s, st, st.i) == st.(cx := st.cx.(lex := Normal))
  {
    assert st.r + s[st.i..st.i] == st.r;
  }

  lemma CopiedFrom(s: string, st: State, n: State, e: nat)
    requires st.i < |s| && Copies(s, st, n) && n.i <= e <= |s| && n.cx.(lex := Normal) == st.cx.(lex := Normal)
    ensures CopiedTo(s, st, e) == CopiedTo(s, n, e)
  {
    CopiedTwice(s, st, n, e);
  }

  lemma {:induction false} StringRuns(custom: string -> bool, s: string, st: State, quote: char)
    requires st.i <= |s| && (if quote == '"' then st.cx.lex.InDouble? else quote == '\'' && st.cx.lex.InSingle?)
    ensures Run(custom, s, st) == Run(custom, s, CopiedTo(s, st, CloseEnd(s, st.i, quote)))
    decreases |s| - st.i
  {
    hide StepPlain, StepCustom, StepUrl, StepString, CopiedTo, CloseEnd;
    if st.i == |s| {
      CopiedNothing(s, st);
    } else {
      var n := StepString(s, st, quote);
      StringTurn(s, st, quote);
      assert Run(custom, s, st) == Run(custom, s, n);
      CopiedFrom(s, st, n, CloseEnd(s, st.i, quote));
      if n.cx == st.cx {
        StringRuns(custom, s, n, quote);
      } else {
        CopiedNothing(s, n);
      }
    }
  }

  lemma {:induction false} UrlRuns(custom: string -> bool, s: string, st: State)
    requires st.i <= |s| && st.cx.lex.InUrl?
    ensures Run(custom, s, st) == Run(custom, s, CopiedTo(s, st, CloseEnd(s, st.i, ')')))
    decreases |s| - st.i
  {
    hide StepPlain, StepCustom, StepUrl, StepString, CopiedTo, CloseEnd;
    if st.i == |s| {
      CopiedNothing(s, st);
    } else {
      var n := StepUrl(s, st);
      UrlTurn(s, st);
      assert Run(custom, s, st) == Run(custom, s, n);
      CopiedFrom(s, st, n, CloseEnd(s, st.i, ')'));
      if n.cx == st.cx {
        UrlRuns(custom, s, n);
      } else {
        CopiedNothing(s, n);
      }
    }
  }

  /** In a custom-property value, outside its strings. */
  ghost predicate InValue(st: State) {
    st.cx.lex.Normal? && st.cx.inCustom
  }

  lemma ValueUrlTurn(custom: string -> bool, s: string, st: State)
    requires st.i < |s| && InValue(st) && st.cx.customUrl
    ensures StaysOrCloses(s, st, Step(custom, s, st), ')', st.cx.(customUrl := false))
  {
    hide StepPlain, QuoteAhead, EndsWithUrl;
  }

  lemma {:induction false} ValueUrlRuns(custom: string -> bool, s: string, st: State)
    requires st.i <= |s| && InValue(st) && st.cx.customUrl
    ensures var n := CopiedTo(s, st, CloseEnd(s, st.i, ')'));
            Run(custom, s, st) == Run(custom, s, n.(cx := n.cx.(customUrl := false)))
    decreases |s| - st.i
  {
    hide Step, CloseEnd;
    var e := CloseEnd(s, st.i, ')');
    if st.i == |s| {
      CopiedNothing(s, st);
    } else {
      var n := Step(custom, s, st);
      ValueUrlTurn(custom, s, st);
      CopiedTwice(s, st, n, e);
      if n.cx == st.cx {
        ValueUrlRuns(custom, s, n);
      } else {
        CopiedNothing(s, n);
      }
    }
  }

  /** How one character of a custom-property value, escapes apart, moves the state. */
  function AfterValueChar(cx: Context, c: char, rawUrl: bool): Context {
    if c == '\'' then cx.(lex := InSingle)
    else if c == '"' then cx.(lex := InDouble)
    else if c == '(' && rawUrl then cx.(customUrl := true)
    else if c in "([{" then cx.(customDepth := cx.customDepth + 1)
    else if c in ")]}" && cx.customDepth > 0 then cx.(customDepth := cx.customDepth - 1)
    else cx
  }

  lemma ValueChar(cx: Context, r: string, c: char, quoted: bool)
    requires !cx.customUrl && !EndsCustom(cx, c)
    ensures AfterCustomChar(cx, r, c, quoted) == AfterValueChar(cx, c, EndsInUrl(r) && !quoted)
  {
    hide EndsWithUrl, EndsInUrl;
    EndsInUrlIff(r);
  }

  /** The value stops at a character exactly where the scanner leaves it. */
  lemma ValueGoesOn(s: string, i: nat, r: string, cx: Context)
    requires i < |s| && !cx.customUrl
    ensures ValueEnd(s, i, r, cx.customDepth) == i <==> EndsCustom(cx, s[i])
  {
    hide EndsInUrl, QuoteAhead, CloseEnd;
  }

  /** One turn inside a custom-property value. */
  lemma ValueStep(custom: string -> bool, s: string, st: State)
    requires st.i < |s| && InValue(st) && !st.cx.customUrl && ValueEnd(s, st.i, st.r, st.cx.customDepth) > st.i
    ensures var rawUrl := EndsInUrl(st.r) && !QuoteAhead(s, st.i + 1);
            Step(custom, s, st) == if s[st.i] == '\\' && st.i + 1 < |s| then Copy(s, st, 2)
                                   else Copy(s, st.(cx := AfterValueChar(st.cx, s[st.i], rawUrl)), 1)
  {
    hide QuoteAhead, StepPlain, AfterCustomChar, AfterValueChar, EndsInUrl, EndsCustom, ValueEnd, Copy, Copies,
      Advances;
    ValueGoesOn(s, st.i, st.r, st.cx);
    ValueChar(st.cx, st.r, s[st.i], QuoteAhead(s, st.i + 1));
  }

  /** The lexeme at `i` is a url() token. */
  predicate RawUrlAt(s: string, i: nat, r: string)
    requires i < |s|
  {
    s[i] == '(' && EndsInUrl(r) && !QuoteAhead(s, i + 1)
  }

  /** Where the lexeme of a custom-property value at `i` ends. */
  function LexemeEnd(s: string, i: nat, r: string): (e: nat)
    requires i < |s|
    ensures i < e <= |s|
  {
    if s[i] == '\\' && i + 1 < |s| then i + 2
    else if s[i] == '\'' || s[i] == '"' then CloseEnd(s, i + 1, s[i])
    else if RawUrlAt(s, i, r) then CloseEnd(s, i + 1, ')')
    else i + 1
  }

  /** The value goes on after its first lexeme. */
  lemma ValueEndNext(s: string, i: nat, r: string, cx: Context)
    requires i < |s| && !cx.customUrl && ValueEnd(s, i, r, cx.customDepth) > i
    ensures var e := LexemeEnd(s, i, r);
            var depth := AfterValueChar(cx, s[i], EndsInUrl(r) && !QuoteAhead(s, i + 1)).customDepth;
            ValueEnd(s, i, r, cx.customDepth) == ValueEnd(s, e, r + s[i..e], depth)
  {
    hide EndsInUrl, QuoteAhead, CloseEnd;
    assert s[i..i + 1] == [s[i]];
  }

  /** A turn at a custom-property value, and the turns that finish the string or the url() it opens. */
  lemma ValueLexeme(custom: string -> bool, s: string, st: State) returns (n: State)
    requires st.i < |s| && InValue(st) && !st.cx.customUrl && ValueEnd(s, st.i, st.r, st.cx.customDepth) > st.i
    ensures InValue(n) && !n.cx.customUrl && n.i == LexemeEnd(s, st.i, st.r) && Copies(s, st, n)
    ensures n.cx.customDepth
         == AfterValueChar(st.cx, s[st.i], EndsInUrl(st.r) && !QuoteAhead(s, st.i + 1)).customDepth
    ensures Run(custom, s, st) == Run(custom, s, n)
  {
    hide Step, Run, QuoteAhead, EndsInUrl, ValueEnd, CloseEnd, NumberCanStart;
    var c := s[st.i];
    n := Step(custom, s, st);
    RunNext(custom, s, st);
    ValueStep(custom, s, st);
    if c == '\'' || c == '"' {
      StringRuns(custom, s, n, c);
      CopiedTwice(s, st, n, CloseEnd(s, n.i, c));
      n := CopiedTo(s, n, CloseEnd(s, n.i, c));
    } else if RawUrlAt(s, st.i, st.r) {
      ValueUrlRuns(custom, s, n);
      CopiedTwice(s, st, n, CloseEnd(s, n.i, ')'));
      n := CopiedTo(s, n, CloseEnd(s, n.i, ')'));
      n := n.(cx := n.cx.(customUrl := false));
    }
  }

  /** A custom-property value is copied, and plain text goes on at its end. */
  lemma {:induction false} ValueRuns(custom: string -> bool, s: string, st: State) returns (n: State)
    requires st.i <= |s| && InValue(st) && !st.cx.customUrl
    ensures var e := ValueEnd(s, st.i, st.r, st.cx.customDepth);
            && n.i == e && n.r == st.r + s[st.i..e] && Plain(n) && !n.cx.customUrl
            && Run(custom, s, st) == Run(custom, s, n)
    decreases |s| - st.i
  {
    hide Step, ValueEnd, LexemeEnd, AfterValueChar, EndsInUrl, QuoteAhead;
    var e := ValueEnd(s, st.i, st.r, st.cx.customDepth);
    if st.i == e {
      n := st.(cx := st.cx.(inCustom := false));
      assert st.r + s[st.i..e] == st.r;
      if e < |s| { ValueCloses(custom, s, st); }
    } else {
      ValueEndNext(s, st.i, st.r, st.cx);
      var m := ValueLexeme(custom, s, st);
      CopiedTwice(s, st, m, e);
      n := ValueRuns(custom, s, m);
    }
  }

  lemma ValueCloses(custom: string -> bool, s: string, st: State)
    requires st.i < |s| && InValue(st) && !st.cx.customUrl && ValueEnd(s, st.i, st.r, st.cx.customDepth) == st.i
    ensures Step(custom, s, st) == Step(custom, s, st.(cx := st.cx.(inCustom := false)))
  {
    hide QuoteAhead, StepPlain, AfterCustomChar, ValueEnd, Copy, Copies, Advances;
    ValueGoesOn(s, st.i, st.r, st.cx);
  }

  /** The lexeme at a place in plain text, and the state after it. */
  lemma PlainLexeme(custom: string -> bool, s: string, st: State) returns (n: State)
    requires st.i < |s| && Plain(st) && !st.cx.customUrl
    ensures st.i < n.i <= |s| && Plain(n) && !n.cx.customUrl
    ensures Run(custom, s, st) == Run(custom, s, n)
    ensures ByLexeme(custom, s, st.i, st.r) == ByLexeme(custom, s, n.i, n.r)
  {
    hide Step, Run, KeepsZero, NumberCanStart, StateAt, EndsWithUrl, EndsInUrl, ValueEnd;
    EndsInUrlIff(st.r);
    KeepsZeroIff(st.r);
    var c := s[st.i];
    n := Step(custom, s, st);
    RunNext(custom, s, st);
    PlainStep(custom, s, st);
    if c == '\\' {
    } else if c == '\'' || c == '"' {
      var e := CloseEnd(s, st.i + 1, c);
      StringRuns(custom, s, n, c);
      CopiedTwice(s, st, n, e);
      n := CopiedTo(s, n, e);
    } else if c == '(' && EndsInUrl(st.r) {
      TurnOpensUrl(custom, s, st);
      if n.cx.lex.InUrl? {
        var e := CloseEnd(s, n.i, ')');
        UrlRuns(custom, s, n);
        n := CopiedTo(s, n, e);
      }
    } else if c == ':' && custom(st.r) {
      var e := ValueEnd(s, st.i + 1, st.r + ":", 0);
      var m := ValueRuns(custom, s, n);
      CopiedTwice(s, st, n, e);
      n := m;
    }
  }

  /** One turn in plain text. */
  lemma PlainStep(custom: string -> bool, s: string, st: State)
    requires st.i < |s| && Plain(st)
    ensures !OpensUrl(s, st.r, st.i) ==>
            var c, n := s[st.i], Step(custom, s, st);
            if c == '\\' && st.i + 1 < |s| then n == Copy(s, st, 2)
            else if c == '\'' then n == Copy(s, st, 1).(cx := st.cx.(lex := InSingle))
            else if c == '"' then n == Copy(s, st, 1).(cx := st.cx.(lex := InDouble))
            else if c == ':' && custom(st.r) then n == Copy(s, st, 1).(cx := st.cx.(inCustom := true, customDepth := 0))
            else if DropsZero(s, st.r, st.i) then n == st.(i := st.i + 1)
            else n == Copy(s, st, 1)
    ensures s[st.i..st.i + 1] == [s[st.i]]
  {
    hide KeepsZero, EndsWithUrl;
  }

  lemma {:induction false} RunIsByLexeme(custom: string -> bool, s: string, st: State)
    requires st.i <= |s| && Plain(st) && !st.cx.customUrl
    ensures Run(custom, s, st) == ByLexeme(custom, s, st.i, st.r)
    decreases |s| - st.i
  {
    hide Step;
    if st.i < |s| {
      var n := PlainLexeme(custom, s, st);
      RunIsByLexeme(custom, s, n);
    }
  }

  /** Phase 4 is the reading in lexemes, on every text. */
  lemma Phase4IsByLexeme(custom: string -> bool, s: string)
    ensures Run(custom, s, START) == ByLexeme(custom, s, 0, "")
  {
    RunIsByLexeme(custom, s, START);
  }

  /** In plain text a string is copied: a quote, a body of escape pairs and characters other than it, and the quote. */
  lemma StringIsCopied(custom: string -> bool, s: string, i: nat, r: string, quote: char, body: string)
    requires (quote == '"' || quote == '\'') && Body(body, quote) && OccursAt(s, [quote] + body + [quote], i)
    ensures ByLexeme(custom, s, i, r) == ByLexeme(custom, s, i + |body| + 2, r + [quote] + body + [quote])
  {
    hide NumberCanStart, SkipSpace, ValueEnd, EndsInUrl, CloseEnd;
    var x := [quote] + body + [quote];
    Occurs(s, i, x);
    forall k | 0 <= k < |body| ensures s[i + 1 + k] == body[k] {
      assert x[1 + k] == body[k];
    }
    CloseEndOf(s, i + 1, body, quote);
    assert r + x == r + [quote] + body + [quote];
  }

  lemma Occurs(s: string, i: nat, x: string)
    requires OccursAt(s, x, i)
    ensures i + |x| <= |s| && forall k :: 0 <= k < |x| ==> s[i + k] == x[k]
  {
    forall k | 0 <= k < |x| ensures s[i + k] == x[k] {
      assert s[i..i + |x|][k] == x[k];
    }
  }

  /** So is a url() that is not a string: a body of escape pairs and characters other than ')', up to the ')'. */
  lemma UrlIsCopied(custom: string -> bool, s: string, i: nat, r: string, body: string)
    requires EndsInUrl(r) && Body(body, ')') && OccursAt(s, "(" + body + ")", i)
    requires body != "" ==> body[0] != '"' && body[0] != '\'' && !IsBlank(body[0])
    ensures ByLexeme(custom, s, i, r) == ByLexeme(custom, s, i + |body| + 2, r + "(" + body + ")")
  {
    hide NumberCanStart, ValueEnd, EndsInUrl, CloseEnd;
    var x := "(" + body + ")";
    Occurs(s, i, x);
    assert s[i] == x[0] && s[i + 1] == x[1];
    forall k | 0 <= k < |body| ensures s[i + 1 + k] == body[k] {
      assert x[1 + k] == body[k];
    }
    CloseEndOf(s, i + 1, body, ')');
    assert SkipSpace(s, i + 1) == i + 1;
    assert s[i + 1..i + |x|] == body + ")";
    assert r + "(" + (body + ")") == r + "(" + body + ")";
  }
}
