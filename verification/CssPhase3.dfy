/**
 Phase 3 of the CSS minifier: drop the semicolons in front of a closing brace.
 As in Phase 4, `custom` stands for AtCustomPropertyColon and is arbitrary.
 */
module CssPhase3 {
  import opened CssChars

  datatype Verdict = Unknown | Group | Block

  /** The current declaration-like segment: its start in the output and its first ':', if any. */
  datatype Segment = Segment(begin: nat, colon: int, verdict: Verdict)

  datatype State = State(i: nat, r: string, cx: Context, parens: nat, blocks: nat, groups: nat, seg: Segment)

  const START := State(0, "", Context(Normal, false, false, 0), 0, 0, 0, Fresh(0))

  function Fresh(begin: nat): Segment {
    Segment(begin, -1, Unknown)
  }

  ghost predicate Valid(st: State) {
    st.seg.begin <= |st.r| && (st.seg.colon == -1 || st.seg.begin <= st.seg.colon < |st.r|)
  }

  /**
   A '{' after this pre-colon text opens a brace group of a declaration value:
   the text names a property, a custom one when outside every block.
   */
  predicate NamesProperty(pre: string, topLevel: bool) {
    var b := SkipSpace(pre, 0);
    && b < |pre|
    && (forall k :: b <= k < |pre| ==> IsNameChar(pre[k]) || pre[k] == '\\' || IsCssWhitespace(pre[k]))
    && (topLevel ==> b + 2 <= |pre| && pre[b] == '-' && pre[b + 1] == '-')
  }

  function GroupVerdict(r: string, seg: Segment, topLevel: bool): Verdict
    requires seg.colon == -1 || seg.begin <= seg.colon < |r|
  {
    if !seg.verdict.Unknown? then seg.verdict
    else if seg.colon >= 0 && NamesProperty(r[seg.begin..seg.colon], topLevel) then Group
    else Block
  }

  /** First position at or after `j` that is neither whitespace nor ';', or the end. */
  function SkipSemis(s: string, j: nat): (k: nat)
    requires j <= |s|
    ensures j <= k <= |s|
    ensures forall m :: j <= m < k ==> IsCssWhitespace(s[m]) || s[m] == ';'
    ensures k < |s| ==> !IsCssWhitespace(s[k]) && s[k] != ';'
    decreases |s| - j
  {
    if j < |s| && (IsCssWhitespace(s[j]) || s[j] == ';') then SkipSemis(s, j + 1) else j
  }

  predicate ReachesBrace(s: string, j: nat)
    requires j <= |s|
  {
    var k := SkipSemis(s, j);
    k < |s| && s[k] == '}'
  }

  /** The scanner stands at a ';' that ends a declaration and leads to a '}'. */
  predicate Trims(s: string, st: State)
    requires st.i < |s|
  {
    && s[st.i] == ';'
    && st.cx.lex.Normal?
    && (st.cx.inCustom ==> EndsCustom(st.cx, ';'))
    && st.parens == 0 && st.groups == 0
    && ReachesBrace(s, st.i + 1)
  }

  ghost predicate Copies(s: string, st: State, n: State)
    requires st.i < |s|
  {
    st.i < n.i <= |s| && n.r == st.r + s[st.i..n.i] && Valid(n)
  }

  function Copy(s: string, st: State, n: nat): (t: State)
    requires Valid(st) && 0 < n && st.i + n <= |s|
    ensures Copies(s, st, t)
  {
    st.(i := st.i + n, r := st.r + s[st.i..st.i + n])
  }

  function StepQuoted(s: string, st: State, close: char): (n: State)
    requires Valid(st) && st.i < |s|
    ensures Copies(s, st, n)
  {
    if s[st.i] == '\\' && st.i + 1 < |s| then Copy(s, st, 2)
    else Copy(s, if s[st.i] == close then st.(cx := st.cx.(lex := Normal)) else st, 1)
  }

  /** A '{' outside value groups: it opens a group of the value, or a block. */
  function StepOpenBrace(s: string, st: State): (n: State)
    requires Valid(st) && st.i < |s|
    ensures Copies(s, st, n)
  {
    var verdict := GroupVerdict(st.r, st.seg, st.blocks == 0);
    if verdict == Group then Copy(s, st.(groups := st.groups + 1, seg := st.seg.(verdict := verdict)), 1)
    else Copy(s, st, 1).(blocks := st.blocks + 1, seg := Fresh(|st.r| + 1))
  }

  function StepStructure(s: string, st: State): (n: State)
    requires Valid(st) && st.i < |s|
    ensures !(s[st.i] == ';' && st.parens == 0 && st.groups == 0 && ReachesBrace(s, st.i + 1)) ==> Copies(s, st, n)
  {
    var c := s[st.i];
    if st.groups > 0 then
      var groups := if c == '{' then st.groups + 1 else if c == '}' then st.groups - 1 else st.groups;
      Copy(s, st.(groups := groups), 1)
    else if c == ':' && st.parens == 0 && st.seg.colon == -1 then
      Copy(s, st, 1).(seg := st.seg.(colon := |st.r|))
    else if c == '{' then StepOpenBrace(s, st)
    else if c == ';' && st.parens == 0 then
      if ReachesBrace(s, st.i + 1) then st.(i := st.i + 1, seg := Fresh(|st.r|))
      else Copy(s, st, 1).(seg := Fresh(|st.r| + 1))
    else if c == '}' then
      Copy(s, st, 1).(blocks := if st.blocks > 0 then st.blocks - 1 else 0, seg := Fresh(|st.r| + 1))
    else if c == '(' || c == '[' then Copy(s, st.(parens := st.parens + 1), 1)
    else if st.parens > 0 && (c == ')' || c == ']') then Copy(s, st.(parens := st.parens - 1), 1)
    else Copy(s, st, 1)
  }

  function StepPlain(custom: string -> bool, s: string, st: State): (n: State)
    requires Valid(st) && st.i < |s|
    ensures !(s[st.i] == ';' && st.parens == 0 && st.groups == 0 && ReachesBrace(s, st.i + 1)) ==> Copies(s, st, n)
  {
    var c := s[st.i];
    if c == '\'' then Copy(s, st.(cx := st.cx.(lex := InSingle)), 1)
    else if c == '"' then Copy(s, st.(cx := st.cx.(lex := InDouble)), 1)
    else if c == '(' && EndsWithUrl(st.r) && !QuoteAhead(s, st.i + 1) then Copy(s, st.(cx := st.cx.(lex := InUrl)), 1)
    else if c == ':' && custom(st.r) then Copy(s, st.(cx := st.cx.(inCustom := true, customDepth := 0)), 1)
    else StepStructure(s, st)
  }

  function StepNormal(custom: string -> bool, s: string, st: State): (n: State)
    requires Valid(st) && st.i < |s| && st.cx.lex.Normal?
    ensures if Trims(s, st) then n == st.(i := st.i + 1, cx := st.cx.(inCustom := false), seg := Fresh(|st.r|))
            else Copies(s, st, n)
  {
    if s[st.i] == '\\' && st.i + 1 < |s| then Copy(s, st, 2)
    else if !st.cx.inCustom then StepPlain(custom, s, st)
    else if EndsCustom(st.cx, s[st.i]) then StepPlain(custom, s, st.(cx := st.cx.(inCustom := false)))
    else Copy(s, st.(cx := AfterCustomChar(st.cx, st.r, s[st.i], QuoteAhead(s, st.i + 1))), 1)
  }

  /** One turn of the scanner's loop: it drops a trimmed ';' and copies everything else. */
  function Step(custom: string -> bool, s: string, st: State): (n: State)
    requires Valid(st) && st.i < |s|
    ensures Valid(n)
    ensures if Trims(s, st) then n == st.(i := st.i + 1, cx := st.cx.(inCustom := false), seg := Fresh(|st.r|))
            else Copies(s, st, n)
  {
    match st.cx.lex
    case InSingle => StepQuoted(s, st, '\'')
    case InDouble => StepQuoted(s, st, '"')
    case InUrl => StepQuoted(s, st, ')')
    case Normal => StepNormal(custom, s, st)
  }

  function Run(custom: string -> bool, s: string, st: State): (out: string)
    requires Valid(st) && st.i <= |s|
    ensures st.r <= out
    decreases |s| - st.i
  {
    if st.i == |s| then st.r else Run(custom, s, Step(custom, s, st))
  }

  method Phase3(custom: string -> bool, input: string) returns (r: string)
    ensures r == Run(custom, input, START)
  {
    hide Step;
    var st := START;
    while st.i < |input|
      invariant Valid(st) && st.i <= |input|
      invariant Run(custom, input, st) == Run(custom, input, START)
    {
      st := Step(custom, input, st);
    }
    r := st.r;
  }

  // ---- what is deleted -----------------------------------------------------

  /** The state whose turn consumes position `d`. */
  ghost function StateAt(custom: string -> bool, s: string, st: State, d: nat): (at: State)
    requires Valid(st) && st.i <= d < |s|
    ensures Valid(at) && at.i <= d < Step(custom, s, at).i
    decreases |s| - st.i
  {
    var n := Step(custom, s, st);
    if d < n.i then st else StateAt(custom, s, n, d)
  }

  ghost predicate Drops(custom: string -> bool, s: string, st: State, d: nat)
    requires Valid(st) && st.i <= d < |s|
  {
    Trims(s, StateAt(custom, s, st, d))
  }

  /** `s` from `i` on, without the dropped positions. */
  ghost function Kept(custom: string -> bool, s: string, st: State, i: nat): string
    requires Valid(st) && st.i <= i <= |s|
    decreases |s| - i
  {
    if i == |s| then "" else (if Drops(custom, s, st, i) then "" else [s[i]]) + Kept(custom, s, st, i + 1)
  }

  lemma {:induction false} KeptLater(custom: string -> bool, s: string, st: State, i: nat)
    requires Valid(st) && st.i < |s| && Step(custom, s, st).i <= i <= |s|
    ensures Kept(custom, s, st, i) == Kept(custom, s, Step(custom, s, st), i)
    decreases |s| - i
  {
    hide Step, Trims;
    if i < |s| {
      KeptLater(custom, s, st, i + 1);
    }
  }

  lemma {:induction false} KeptTurn(custom: string -> bool, s: string, st: State, i: nat)
    requires Valid(st) && st.i < |s| && st.i <= i <= Step(custom, s, st).i
    ensures var n := Step(custom, s, st);
            Kept(custom, s, st, i) == (if Trims(s, st) then "" else s[i..n.i]) + Kept(custom, s, n, n.i)
    decreases |s| - i
  {
    hide Step, Trims, Run, Kept, StateAt, Drops;
    var n := Step(custom, s, st);
    if i == n.i {
      KeptLater(custom, s, st, i);
      assert s[i..i] == "";
      assert "" + Kept(custom, s, n, i) == Kept(custom, s, n, i);
    } else {
      KeptTurn(custom, s, st, i + 1);
      KeptOne(custom, s, st, i);
      if Trims(s, st) {
        assert "" + Kept(custom, s, st, i + 1) == Kept(custom, s, st, i + 1);
      } else {
        FirstOfSlice(s, i, n.i, Kept(custom, s, n, n.i));
      }
    }
  }

  lemma KeptOne(custom: string -> bool, s: string, st: State, i: nat)
    requires Valid(st) && st.i < |s| && st.i <= i < Step(custom, s, st).i
    ensures Kept(custom, s, st, i) == (if Trims(s, st) then "" else [s[i]]) + Kept(custom, s, st, i + 1)
  {
    hide Step, Trims, Run;
    assert StateAt(custom, s, st, i) == st;
  }

  /** The output is the input with exactly the dropped positions taken out. */
  lemma {:induction false} OutputIsInputWithoutDrops(custom: string -> bool, s: string, st: State)
    requires Valid(st) && st.i <= |s|
    ensures Run(custom, s, st) == st.r + Kept(custom, s, st, st.i)
    decreases |s| - st.i
  {
    hide Step, Trims, Kept;
    if st.i == |s| {
      assert Kept(custom, s, st, st.i) == "" by { KeptNone(custom, s, st); }
    } else {
      var n := Step(custom, s, st);
      OutputIsInputWithoutDrops(custom, s, n);
      KeptTurn(custom, s, st, st.i);
      var emitted, rest := if Trims(s, st) then "" else s[st.i..n.i], Kept(custom, s, n, n.i);
      assert n.r == st.r + emitted;
      assert (st.r + emitted) + rest == st.r + (emitted + rest);
    }
  }

  lemma KeptNone(custom: string -> bool, s: string, st: State)
    requires Valid(st) && st.i == |s|
    ensures Kept(custom, s, st, st.i) == ""
  {}

  /**
   Only a ';' is dropped, one that reaches a '}' past whitespace and ';'; never
   inside a string, a url(), a custom-property value, a value group or parentheses.
   */
  lemma DropsOnlyTrailingSemicolons(custom: string -> bool, s: string, d: nat)
    requires d < |s| && Drops(custom, s, START, d)
    ensures s[d] == ';'
    ensures var close := SkipSemis(s, d + 1);
            && close < |s| && s[close] == '}'
            && forall k :: d < k < close ==> IsCssWhitespace(s[k]) || s[k] == ';'
    ensures var at := StateAt(custom, s, START, d);
            && at.i == d && at.cx.lex.Normal? && at.parens == 0 && at.groups == 0
            && (at.cx.inCustom ==> EndsCustom(at.cx, s[d]))
  {
    hide Step;
  }

  // ---- a second run changes nothing ----------------------------------------

  /** The scanner of the output, at the place this state's scanner of the input has emitted up to. */
  function Again(st: State): State {
    st.(i := |st.r|)
  }

  lemma NextEmitted(custom: string -> bool, s: string, st: State)
    requires Valid(st) && st.i < |s| && !Trims(s, st)
    ensures var out := Run(custom, s, st);
            |st.r| < |out| && out[|st.r|] == s[st.i] && Step(custom, s, st).r <= out
  {
    hide Step, Trims;
    var n := Step(custom, s, st);
    assert n.r <= Run(custom, s, n);
  }

  lemma SpaceIsCopied(custom: string -> bool, s: string, st: State)
    requires Valid(st) && st.i < |s| && IsCssWhitespace(s[st.i]) && (st.cx.lex.Normal? || st.cx.lex.InUrl?)
    ensures Step(custom, s, st) == Copy(s, st, 1) && !Trims(s, st)
  {}

  /** Outside strings, values, groups and parentheses. */
  ghost predicate AtTop(st: State) {
    Valid(st) && st.cx.lex.Normal? && !st.cx.inCustom && st.parens == 0 && st.groups == 0
  }

  lemma SemiAtTop(custom: string -> bool, s: string, st: State)
    requires AtTop(st) && st.i < |s| && s[st.i] == ';'
    ensures var n := Step(custom, s, st);
            && AtTop(n) && n.i == st.i + 1
            && Trims(s, st) == ReachesBrace(s, st.i) == ReachesBrace(s, st.i + 1)
            && n.r == if Trims(s, st) then st.r else st.r + ";"
  {}

  ghost predicate ClosesAfterSpace(t: string, j: nat)
    requires j <= |t|
  {
    var k := SkipSpace(t, j);
    k < |t| && t[k] == '}'
  }

  /** What follows a trimmed ';' in the output is whitespace and then the '}'. */
  lemma {:induction false} TrimmedTail(custom: string -> bool, s: string, st: State)
    requires AtTop(st) && st.i <= |s| && ReachesBrace(s, st.i)
    ensures ClosesAfterSpace(Run(custom, s, st), |st.r|)
    decreases |s| - st.i
  {
    hide Step;
    if IsCssWhitespace(s[st.i]) {
      SpaceIsCopied(custom, s, st);
      NextEmitted(custom, s, st);
      TrimmedTail(custom, s, Copy(s, st, 1));
    } else if s[st.i] == ';' {
      SemiAtTop(custom, s, st);
      TrimmedTail(custom, s, Step(custom, s, st));
    } else {
      NextEmitted(custom, s, st);
    }
  }

  /** After a kept ';' the output, too, does not lead to a '}'. */
  lemma {:induction false} KeptTail(custom: string -> bool, s: string, st: State)
    requires AtTop(st) && st.i <= |s| && !ReachesBrace(s, st.i)
    ensures !ReachesBrace(Run(custom, s, st), |st.r|)
    decreases |s| - st.i
  {
    hide Step, ReachesBrace, Run;
    var out := Run(custom, s, st);
    RunNext(custom, s, st);
    if st.i == |s| {
      BraceNever(out);
    } else {
      BraceNext(s, st.i);
      if IsCssWhitespace(s[st.i]) {
        SpaceIsCopied(custom, s, st);
      } else if s[st.i] == ';' {
        SemiAtTop(custom, s, st);
      }
      NextEmitted(custom, s, st);
      BraceNext(out, |st.r|);
      if IsCssWhitespace(s[st.i]) || s[st.i] == ';' { KeptTail(custom, s, Step(custom, s, st)); }
    }
  }

  lemma BraceNext(s: string, i: nat)
    requires i < |s|
    ensures ReachesBrace(s, i)
            == if IsCssWhitespace(s[i]) || s[i] == ';' then ReachesBrace(s, i + 1) else s[i] == '}'
  {}

  lemma BraceNever(s: string)
    ensures !ReachesBrace(s, |s|)
  {}

  lemma RunNext(custom: string -> bool, s: string, st: State)
    requires Valid(st) && st.i <= |s|
    ensures Run(custom, s, st) == if st.i == |s| then st.r else Run(custom, s, Step(custom, s, st))
  {
    hide Step;
  }

  /** Output look-ahead past whitespace sees a quote exactly when the input's does. */
  lemma {:induction false} QuoteAheadKept(custom: string -> bool, s: string, st: State)
    requires Valid(st) && st.i <= |s| && (st.cx.lex.Normal? || st.cx.lex.InUrl?)
    ensures QuoteAhead(s, st.i) == QuoteAhead(Run(custom, s, st), |st.r|)
    decreases |s| - st.i
  {
    hide Step, QuoteAhead, Run, ReachesBrace, ClosesAfterSpace;
    var out := Run(custom, s, st);
    RunNext(custom, s, st);
    if st.i == |s| {
      QuoteAheadNever(s);
      QuoteAheadNever(out);
    } else {
      QuoteAheadNext(s, st.i);
      if Trims(s, st) {
        TrimmedTail(custom, s, Step(custom, s, st));
        ClosingIsNoQuote(out, |st.r|);
      } else {
        NextEmitted(custom, s, st);
        QuoteAheadNext(out, |st.r|);
        if IsCssWhitespace(s[st.i]) {
          SpaceIsCopied(custom, s, st);
          QuoteAheadKept(custom, s, Copy(s, st, 1));
        }
      }
    }
  }

  lemma ClosingIsNoQuote(t: string, j: nat)
    requires j <= |t| && ClosesAfterSpace(t, j)
    ensures !QuoteAhead(t, j)
  {}

  /** `t` continues what the turn to `n` has emitted, and ends with it at the end of the input. */
  ghost predicate Continues(s: string, n: State, t: string) {
    n.i <= |s| && n.r <= t && (n.i == |s| ==> t == n.r)
  }

  lemma QuotedTurnAgain(s: string, t: string, st: State, close: char)
    requires Valid(st) && st.i < |s|
    requires Continues(s, StepQuoted(s, st, close), t)
    ensures |st.r| < |t| && StepQuoted(t, Again(st), close) == Again(StepQuoted(s, st, close))
  {
    assert t[|st.r|] == s[st.i];
  }

  lemma StructureTurnAgain(s: string, t: string, st: State)
    requires Valid(st) && st.i < |s| && |st.r| < |t| && t[|st.r|] == s[st.i]
    requires s[st.i] == ';' && st.parens == 0 && st.groups == 0 ==>
               !ReachesBrace(s, st.i + 1) && !ReachesBrace(t, |st.r| + 1)
    ensures StepStructure(t, Again(st)) == Again(StepStructure(s, st))
  {
    hide ReachesBrace, GroupVerdict;
    assert t[|st.r|..|st.r| + 1] == s[st.i..st.i + 1];
  }

  lemma NormalTurnAgain(custom: string -> bool, s: string, t: string, st: State)
    requires Valid(st) && st.i < |s| && st.cx.lex.Normal? && !Trims(s, st)
    requires Continues(s, StepNormal(custom, s, st), t)
    requires |st.r| < |t| && t[|st.r|] == s[st.i]
    requires !Trims(t, Again(st))
    requires s[st.i] == '(' ==> QuoteAhead(s, st.i + 1) == QuoteAhead(t, |st.r| + 1)
    ensures StepNormal(custom, t, Again(st)) == Again(StepNormal(custom, s, st))
  {
    hide ReachesBrace, QuoteAhead, StepPlain, AfterCustomChar, EndsCustom;
    if s[st.i] == '\\' && st.i + 1 < |s| {
      assert t[|st.r|..|st.r| + 2] == s[st.i..st.i + 2];
    } else {
      assert t[|st.r|..|st.r| + 1] == s[st.i..st.i + 1];
      assert s[st.i] == '\\' ==> |t| == |st.r| + 1;
      if !st.cx.inCustom {
        PlainTurnAgain(custom, s, t, st);
      } else if EndsCustom(st.cx, s[st.i]) {
        PlainTurnAgain(custom, s, t, st.(cx := st.cx.(inCustom := false)));
      } else {
        CustomTurnAgain(s, t, st);
      }
    }
  }

  lemma PlainTurnAgain(custom: string -> bool, s: string, t: string, st: State)
    requires Valid(st) && st.i < |s| && |st.r| < |t| && t[|st.r|] == s[st.i]
    requires s[st.i] == ';' && st.parens == 0 && st.groups == 0 ==>
               !ReachesBrace(s, st.i + 1) && !ReachesBrace(t, |st.r| + 1)
    requires s[st.i] == '(' ==> QuoteAhead(s, st.i + 1) == QuoteAhead(t, |st.r| + 1)
    ensures StepPlain(custom, t, Again(st)) == Again(StepPlain(custom, s, st))
  {
    hide ReachesBrace, QuoteAhead, EndsWithUrl, StepStructure;
    assert t[|st.r|..|st.r| + 1] == s[st.i..st.i + 1];
    StructureTurnAgain(s, t, st);
  }

  lemma CustomTurnAgain(s: string, t: string, st: State)
    requires Valid(st) && st.i < |s| && |st.r| < |t| && t[|st.r|] == s[st.i]
    requires s[st.i] == '(' ==> QuoteAhead(s, st.i + 1) == QuoteAhead(t, |st.r| + 1)
    ensures AfterCustomChar(st.cx, st.r, s[st.i], QuoteAhead(s, st.i + 1))
         == AfterCustomChar(st.cx, st.r, t[|st.r|], QuoteAhead(t, |st.r| + 1))
  {
    hide QuoteAhead, EndsWithUrl;
  }

  /**
   Two scanners at the same place just before whitespace and a '}' agree from
   the '}' on, whatever the segment and whether or not a custom value ended.
   */
  ghost predicate SameUpToBrace(a: State, b: State) {
    && AtTop(a) && Valid(b)
    && b.cx == a.cx.(inCustom := b.cx.inCustom)
    && (b.cx.inCustom ==> EndsCustom(b.cx, '}'))
    && b == a.(cx := b.cx, seg := b.seg)
  }

  lemma BraceJoins(custom: string -> bool, t: string, a: State, b: State)
    requires SameUpToBrace(a, b) && a.i < |t| && t[a.i] == '}'
    ensures Step(custom, t, a) == Step(custom, t, b)
  {}

  lemma {:induction false} JoinAtBrace(custom: string -> bool, t: string, a: State, b: State)
    requires SameUpToBrace(a, b) && a.i <= |t| && ClosesAfterSpace(t, a.i)
    ensures Run(custom, t, a) == Run(custom, t, b)
    decreases |t| - a.i
  {
    hide Step;
    if IsCssWhitespace(t[a.i]) {
      SpaceIsCopied(custom, t, a);
      SpaceIsCopied(custom, t, b);
      JoinAtBrace(custom, t, Copy(t, a, 1), Copy(t, b, 1));
    } else {
      BraceJoins(custom, t, a, b);
    }
  }

  /** Dropping a ';' leaves a second run where the first one is, as far as it matters. */
  lemma TrimAgain(custom: string -> bool, s: string, st: State)
    requires Valid(st) && st.i < |s| && Trims(s, st)
    ensures var out := Run(custom, s, st);
            Run(custom, out, Again(Step(custom, s, st))) == Run(custom, out, Again(st))
  {
    hide Step;
    var n := Step(custom, s, st);
    TrimmedTail(custom, s, n);
    JoinAtBrace(custom, Run(custom, s, st), Again(n), Again(st));
  }

  lemma KeptSemicolonStays(custom: string -> bool, s: string, st: State)
    requires Valid(st) && st.i < |s| && st.cx.lex.Normal? && !Trims(s, st)
    ensures var out := Run(custom, s, st);
            |st.r| < |out| && !Trims(out, Again(st))
  {
    hide Step;
    NextEmitted(custom, s, st);
    if s[st.i] == ';' && (st.cx.inCustom ==> EndsCustom(st.cx, ';')) && st.parens == 0 && st.groups == 0 {
      TopSemi(custom, s, st);
      KeptTail(custom, s, Step(custom, s, st));
    }
  }

  lemma TopSemi(custom: string -> bool, s: string, st: State)
    requires Valid(st) && st.i < |s| && st.cx.lex.Normal? && !Trims(s, st) && s[st.i] == ';'
    requires (st.cx.inCustom ==> EndsCustom(st.cx, ';')) && st.parens == 0 && st.groups == 0
    ensures var n := Step(custom, s, st);
            AtTop(n) && n.i == st.i + 1 && n.r == st.r + ";" && !ReachesBrace(s, n.i)
  {}

  lemma ParenKeepsLex(custom: string -> bool, s: string, st: State)
    requires Valid(st) && st.i < |s| && st.cx.lex.Normal? && s[st.i] == '('
    ensures var n := Step(custom, s, st);
            (n.cx.lex.Normal? || n.cx.lex.InUrl?) && n.i == st.i + 1 && |n.r| == |st.r| + 1
  {}

  /** One turn over the output repeats the turn over the input that emitted it. */
  lemma TurnAgain(custom: string -> bool, s: string, st: State)
    requires Valid(st) && st.i < |s| && !Trims(s, st)
    ensures var out := Run(custom, s, st);
            |st.r| < |out| && Step(custom, out, Again(st)) == Again(Step(custom, s, st))
  {
    hide StepQuoted, StepNormal, QuoteAhead, ReachesBrace;
    var out := Run(custom, s, st);
    var n := Step(custom, s, st);
    NextEmitted(custom, s, st);
    assert Continues(s, n, out);
    match st.cx.lex
    case InSingle => QuotedTurnAgain(s, out, st, '\'');
    case InDouble => QuotedTurnAgain(s, out, st, '"');
    case InUrl => QuotedTurnAgain(s, out, st, ')');
    case Normal =>
      if s[st.i] == '(' {
        ParenKeepsLex(custom, s, st);
        QuoteAheadKept(custom, s, n);
      }
      KeptSemicolonStays(custom, s, st);
      NormalTurnAgain(custom, s, out, st);
  }

  lemma {:induction false} RunAgain(custom: string -> bool, s: string, st: State)
    requires Valid(st) && st.i <= |s|
    ensures var out := Run(custom, s, st); Run(custom, out, Again(st)) == out
    decreases |s| - st.i
  {
    hide Step, Trims;
    if st.i < |s| {
      RunAgain(custom, s, Step(custom, s, st));
      if Trims(s, st) {
        TrimAgain(custom, s, st);
      } else {
        TurnAgain(custom, s, st);
      }
    }
  }

  /** Phase 3 is idempotent on every text. */
  lemma Phase3Idempotent(custom: string -> bool, s: string)
    ensures var out := Run(custom, s, START); Run(custom, out, START) == out
  {
    RunAgain(custom, s, START);
  }

  /** A run that drops a position is shorter than its input. */
  lemma {:induction false} DropShortens(custom: string -> bool, s: string, st: State, i: nat, d: nat)
    requires Valid(st) && st.i <= i <= d < |s| && Drops(custom, s, st, d)
    ensures |Kept(custom, s, st, i)| < |s| - i
    decreases |s| - i
  {
    hide Step, Trims;
    if i < d {
      DropShortens(custom, s, st, i + 1, d);
    } else {
      KeptIsShort(custom, s, st, i + 1);
    }
  }

  lemma KeptIsShort(custom: string -> bool, s: string, st: State, i: nat)
    requires Valid(st) && st.i <= i <= |s|
    ensures |Kept(custom, s, st, i)| <= |s| - i
    decreases |s| - i
  {
    hide Step, Trims;
  }

  /** The output has no ';' left to trim: Phase 3 drops every one of them. */
  lemma NothingLeftToTrim(custom: string -> bool, s: string, d: nat)
    requires d < |Run(custom, s, START)|
    ensures var out := Run(custom, s, START); !Trims(out, StateAt(custom, out, START, d))
  {
    hide Step, Trims;
    var out := Run(custom, s, START);
    Phase3Idempotent(custom, s);
    OutputIsInputWithoutDrops(custom, out, START);
    if Drops(custom, out, START, d) {
      DropShortens(custom, out, START, 0, d);
    }
  }
}
