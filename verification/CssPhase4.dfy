/**
 Phase 4 of the CSS minifier: drop the `0` of a decimal that starts a number.
 `custom` stands for AtCustomPropertyColon, the test of whether a ':' about to
 be emitted follows a custom-property name; everything below holds for every
 such test.
 */
module CssPhase4 {
  import opened Ascii
  import opened CssChars

  datatype State = State(i: nat, r: string, cx: Context)

  const START := State(0, "", Context(Normal, false, false, 0))

  /** Length of the backslash run that ends just before `pos`. */
  function BackslashRun(r: string, pos: nat): (n: nat)
    requires pos <= |r|
    ensures n <= pos
  {
    if pos > 0 && r[pos - 1] == '\\' then 1 + BackslashRun(r, pos - 1) else 0
  }

  function HexRun(r: string, pos: nat): (n: nat)
    requires pos <= |r|
    ensures n <= pos
  {
    if pos > 0 && IsHexDigit(r[pos - 1]) then 1 + HexRun(r, pos - 1) else 0
  }

  /** The character at `pos` is identifier content, escapes included. */
  predicate IsIdentContentAt(r: string, pos: nat)
    requires pos < |r|
  {
    || IsIdentChar(r[pos])
    || BackslashRun(r, pos) % 2 != 0
    || (&& IsCssWhitespace(r[pos])
        && var h := HexRun(r, pos);
        && 1 <= h <= 6
        && h + 1 <= pos
        && r[pos - 1 - h] == '\\'
        && BackslashRun(r, pos - 1 - h) % 2 == 0)
  }

  /** What has been emitted so far forbids dropping a `0` emitted next. */
  predicate KeepsZero(r: string) {
    && r != ""
    && var last := |r| - 1;
    || IsIdentContentAt(r, last)
    || (r[last] == '-' && last >= 1 && (r[last - 1] == '-' || IsIdentContentAt(r, last - 1)))
    || r[last] == '.'
  }

  /** A `0` here is the integer part of a decimal that starts a number. */
  predicate DropsZero(s: string, r: string, i: nat)
    requires i < |s|
  {
    s[i] == '0' && i + 1 < |s| && s[i + 1] == '.' && !KeepsZero(r)
  }

  predicate OpensUrl(s: string, r: string, i: nat)
    requires i < |s|
  {
    s[i] == '(' && EndsWithUrl(r)
  }

  /** A turn moves forward and emits a prefix of the text it consumes. */
  ghost predicate Advances(s: string, st: State, n: State)
    requires st.i < |s|
  {
    var e := |n.r| - |st.r|;
    st.i < n.i <= |s| && 0 <= e <= n.i - st.i && n.r == st.r + s[st.i..st.i + e]
  }

  /** A turn that copies all it consumes. */
  ghost predicate Copies(s: string, st: State, n: State)
    requires st.i < |s|
  {
    st.i < n.i <= |s| && n.r == st.r + s[st.i..n.i]
  }

  function Copy(s: string, st: State, n: nat): (t: State)
    requires 0 < n && st.i + n <= |s|
    ensures Copies(s, st, t)
  {
    st.(i := st.i + n, r := st.r + s[st.i..st.i + n])
  }

  function StepString(s: string, st: State, quote: char): (n: State)
    requires st.i < |s|
    ensures Copies(s, st, n)
  {
    if s[st.i] == '\\' && st.i + 1 < |s| then Copy(s, st, 2)
    else Copy(s, if s[st.i] == quote then st.(cx := st.cx.(lex := Normal)) else st, 1)
  }

  function StepUrl(s: string, st: State): (n: State)
    requires st.i < |s|
    ensures Copies(s, st, n)
  {
    if s[st.i] == ')' then Copy(s, st.(cx := st.cx.(lex := Normal)), 1)
    else if s[st.i] == '\\' && st.i + 1 < |s| then Copy(s, st, 2)
    else Copy(s, st, 1)
  }

  /** Inside a custom-property value: an opaque token stream up to its ';' or '}'. */
  function StepCustom(custom: string -> bool, s: string, st: State): (n: State)
    requires st.i < |s|
    ensures Copies(s, st, n)
  {
    if EndsCustom(st.cx, s[st.i]) then StepPlain(custom, s, st.(cx := st.cx.(inCustom := false)))
    else Copy(s, st.(cx := AfterCustomChar(st.cx, st.r, s[st.i], QuoteAhead(s, st.i + 1))), 1)
  }

  function StepPlain(custom: string -> bool, s: string, st: State): (n: State)
    requires st.i < |s|
    ensures Advances(s, st, n)
    ensures !DropsZero(s, st.r, st.i) && !OpensUrl(s, st.r, st.i) ==> Copies(s, st, n)
  {
    var c := s[st.i];
    if c == '\'' then Copy(s, st.(cx := st.cx.(lex := InSingle)), 1)
    else if c == '"' then Copy(s, st.(cx := st.cx.(lex := InDouble)), 1)
    else if OpensUrl(s, st.r, st.i) then
      var j := SkipSpace(s, st.i + 1);
      State(j, st.r + [c], st.cx.(lex := if j < |s| && IsQuote(s[j]) then Normal else InUrl))
    else if c == ':' && custom(st.r) then Copy(s, st.(cx := st.cx.(inCustom := true, customDepth := 0)), 1)
    else if DropsZero(s, st.r, st.i) then st.(i := st.i + 1)
    else Copy(s, st, 1)
  }

  /** One turn of the scanner's loop. */
  function Step(custom: string -> bool, s: string, st: State): (n: State)
    requires st.i < |s|
    ensures Advances(s, st, n)
  {
    match st.cx.lex
    case InSingle => StepString(s, st, '\'')
    case InDouble => StepString(s, st, '"')
    case InUrl => StepUrl(s, st)
    case Normal =>
      if s[st.i] == '\\' && st.i + 1 < |s| then Copy(s, st, 2)
      else if st.cx.inCustom then StepCustom(custom, s, st)
      else StepPlain(custom, s, st)
  }

  /** The output once the scanner in state `st` has run to the end of `s`. */
  function Run(custom: string -> bool, s: string, st: State): (out: string)
    requires st.i <= |s|
    ensures st.r <= out
    decreases |s| - st.i
  {
    if st.i == |s| then st.r else Run(custom, s, Step(custom, s, st))
  }

  method Phase4(custom: string -> bool, input: string) returns (r: string)
    ensures r == Run(custom, input, START)
  {
    var st := START;
    while st.i < |input|
      invariant st.i <= |input|
      invariant Run(custom, input, st) == Run(custom, input, START)
    {
      st := Step(custom, input, st);
    }
    r := st.r;
  }

  // ---- what is deleted -----------------------------------------------------

  /** The state whose turn consumes position `d`. */
  ghost function StateAt(custom: string -> bool, s: string, st: State, d: nat): (at: State)
    requires st.i <= d < |s|
    ensures at.i <= d < |s| && d < Step(custom, s, at).i
    decreases |s| - st.i
  {
    var n := Step(custom, s, st);
    if d < n.i then st else StateAt(custom, s, n, d)
  }

  /** The turn that consumes position `d` does not emit it. */
  ghost predicate Drops(custom: string -> bool, s: string, st: State, d: nat)
    requires st.i <= d < |s|
  {
    var at := StateAt(custom, s, st, d);
    d >= at.i + |Step(custom, s, at).r| - |at.r|
  }

  /** `s` from `i` on, without the dropped positions. */
  ghost function Kept(custom: string -> bool, s: string, st: State, i: nat): string
    requires st.i <= i <= |s|
    decreases |s| - i
  {
    if i == |s| then "" else (if Drops(custom, s, st, i) then "" else [s[i]]) + Kept(custom, s, st, i + 1)
  }

  /** From the next turn on, the two states drop the same positions. */
  lemma {:induction false} KeptLater(custom: string -> bool, s: string, st: State, i: nat)
    requires st.i < |s| && Step(custom, s, st).i <= i <= |s|
    ensures Kept(custom, s, st, i) == Kept(custom, s, Step(custom, s, st), i)
    decreases |s| - i
  {
    hide Step;
    if i < |s| {
      KeptLater(custom, s, st, i + 1);
    }
  }

  lemma {:induction false} KeptTurn(custom: string -> bool, s: string, st: State, i: nat)
    requires st.i < |s| && st.i <= i <= Step(custom, s, st).i
    ensures var n := Step(custom, s, st);
            var e := st.i + |n.r| - |st.r|;
            Kept(custom, s, st, i) == (if i <= e then s[i..e] else "") + Kept(custom, s, n, n.i)
    decreases |s| - i
  {
    hide Step, Kept, StateAt, Drops;
    var n := Step(custom, s, st);
    var e, rest := st.i + |n.r| - |st.r|, Kept(custom, s, n, n.i);
    assert "" + rest == rest;
    if i == n.i {
      KeptLater(custom, s, st, i);
      assert i <= e ==> s[i..e] == "";
    } else {
      KeptTurn(custom, s, st, i + 1);
      KeptOne(custom, s, st, i);
      assert "" + Kept(custom, s, st, i + 1) == Kept(custom, s, st, i + 1);
      if i < e {
        FirstOfSlice(s, i, e, rest);
      } else {
        assert i == e ==> s[i..e] == "";
      }
    }
  }

  lemma KeptOne(custom: string -> bool, s: string, st: State, i: nat)
    requires st.i < |s| && st.i <= i < Step(custom, s, st).i
    ensures var e := st.i + |Step(custom, s, st).r| - |st.r|;
            Kept(custom, s, st, i) == (if i < e then [s[i]] else "") + Kept(custom, s, st, i + 1)
  {
    hide Step;
    assert StateAt(custom, s, st, i) == st;
  }

  /** The output is the input with exactly the dropped positions taken out. */
  lemma {:induction false} OutputIsInputWithoutDrops(custom: string -> bool, s: string, st: State)
    requires st.i <= |s|
    ensures Run(custom, s, st) == st.r + Kept(custom, s, st, st.i)
    decreases |s| - st.i
  {
    hide Step, Kept;
    if st.i == |s| {
      assert Kept(custom, s, st, st.i) == "" by { KeptNone(custom, s, st); }
    } else {
      var n := Step(custom, s, st);
      OutputIsInputWithoutDrops(custom, s, n);
      KeptTurn(custom, s, st, st.i);
      var emitted, rest := s[st.i..st.i + |n.r| - |st.r|], Kept(custom, s, n, n.i);
      assert n.r == st.r + emitted;
      assert (st.r + emitted) + rest == st.r + (emitted + rest);
    }
  }

  lemma KeptNone(custom: string -> bool, s: string, st: State)
    requires st.i == |s|
    ensures Kept(custom, s, st, st.i) == ""
  {}

  ghost predicate Plain(st: State) {
    st.cx.lex.Normal? && !st.cx.inCustom
  }

  /** Only plain text is ever skipped, and only the two redundant spellings of it. */
  lemma TurnCopies(custom: string -> bool, s: string, st: State)
    requires st.i < |s|
    requires !Plain(st) || (!DropsZero(s, st.r, st.i) && !OpensUrl(s, st.r, st.i))
    ensures Copies(s, st, Step(custom, s, st))
  {
    hide StepString, StepUrl, StepCustom, StepPlain, Copy, KeepsZero, EndsWithUrl;
  }

  lemma TurnDropsZero(custom: string -> bool, s: string, st: State)
    requires st.i < |s| && Plain(st) && DropsZero(s, st.r, st.i)
    ensures Step(custom, s, st) == st.(i := st.i + 1)
  {
    hide Copy, KeepsZero, EndsWithUrl;
  }

  lemma TurnOpensUrl(custom: string -> bool, s: string, st: State)
    requires st.i < |s| && Plain(st) && OpensUrl(s, st.r, st.i)
    ensures var j := SkipSpace(s, st.i + 1);
            Step(custom, s, st)
            == State(j, st.r + "(", st.cx.(lex := if j < |s| && IsQuote(s[j]) then Normal else InUrl))
  {
    hide Copy, KeepsZero, EndsWithUrl, SkipSpace;
  }

  lemma TurnSkips(custom: string -> bool, s: string, st: State)
    requires st.i < |s|
    ensures var n := Step(custom, s, st);
            if Plain(st) && DropsZero(s, st.r, st.i) then n == st.(i := st.i + 1)
            else if Plain(st) && OpensUrl(s, st.r, st.i) then n.i == SkipSpace(s, st.i + 1) && n.r == st.r + "("
            else Copies(s, st, n)
  {
    hide Step, KeepsZero, EndsWithUrl;
    if Plain(st) && DropsZero(s, st.r, st.i) {
      TurnDropsZero(custom, s, st);
    } else if Plain(st) && OpensUrl(s, st.r, st.i) {
      TurnOpensUrl(custom, s, st);
    } else {
      TurnCopies(custom, s, st);
    }
  }

  /** `d` is the redundant zero of a decimal, or whitespace right after an opening "url(". */
  ghost predicate Redundant(s: string, at: State, d: nat)
    requires at.i <= d < |s|
  {
    || (at.i == d && DropsZero(s, at.r, d))
    || (at.i < d && OpensUrl(s, at.r, at.i) && forall k :: at.i < k <= d ==> IsCssWhitespace(s[k]))
  }

  /** Nothing inside a string, a url() or a custom-property value is dropped. */
  lemma DropsOnlyRedundant(custom: string -> bool, s: string, d: nat)
    requires d < |s| && Drops(custom, s, START, d)
    ensures var at := StateAt(custom, s, START, d);
            Plain(at) && Redundant(s, at, d)
  {
    hide Step;
    TurnSkips(custom, s, StateAt(custom, s, START, d));
  }

  // ---- a second run changes nothing ----------------------------------------

  /** The next character of the output is the current one, or the '.' after a dropped zero. */
  lemma NextEmitted(custom: string -> bool, s: string, st: State)
    requires st.i < |s|
    ensures var out := Run(custom, s, st);
            |st.r| < |out| && out[|st.r|] == if Plain(st) && DropsZero(s, st.r, st.i) then '.' else s[st.i]
  {
    hide Step, Run, KeepsZero, EndsWithUrl, SkipSpace;
    TurnSkips(custom, s, st);
    var n := Step(custom, s, st);
    RunNext(custom, s, st);
    if n.r == st.r {
      RunNext(custom, s, n);
      TurnSkips(custom, s, n);
      assert Step(custom, s, n).r <= Run(custom, s, n);
    } else {
      assert n.r <= Run(custom, s, n) && n.r[|st.r|] == s[st.i];
    }
  }

  lemma RunNext(custom: string -> bool, s: string, st: State)
    requires st.i < |s|
    ensures Run(custom, s, st) == Run(custom, s, Step(custom, s, st))
  {
    hide Step;
  }

  lemma SpaceIsCopied(custom: string -> bool, s: string, st: State)
    requires st.i < |s| && IsCssWhitespace(s[st.i]) && (st.cx.lex.Normal? || st.cx.lex.InUrl?)
    ensures Step(custom, s, st) == Copy(s, st, 1)
  {}

  /** Output look-ahead past whitespace sees a quote exactly when the input's does. */
  lemma {:induction false} QuoteAheadKept(custom: string -> bool, s: string, st: State)
    requires st.i <= |s| && (st.cx.lex.Normal? || st.cx.lex.InUrl?)
    ensures QuoteAhead(s, st.i) == QuoteAhead(Run(custom, s, st), |st.r|)
    decreases |s| - st.i
  {
    hide Step, KeepsZero, EndsWithUrl;
    if st.i < |s| {
      if IsCssWhitespace(s[st.i]) {
        SpaceIsCopied(custom, s, st);
        QuoteAheadKept(custom, s, Copy(s, st, 1));
      } else {
        NextEmitted(custom, s, st);
      }
    }
  }

  /** The scanner of the output, at the place this state's scanner of the input has emitted up to. */
  function Again(st: State): State {
    st.(i := |st.r|)
  }

  /** `t` continues what the turn to `n` has emitted, and ends with it at the end of the input. */
  ghost predicate Continues(s: string, n: State, t: string) {
    n.i <= |s| && n.r <= t && (n.i == |s| ==> t == n.r)
  }

  lemma StringTurnAgain(s: string, t: string, st: State, quote: char)
    requires st.i < |s|
    requires var n := StepString(s, st, quote); Continues(s, n, t)
    ensures |st.r| < |t| && StepString(t, Again(st), quote) == Again(StepString(s, st, quote))
  {
    assert t[|st.r|] == s[st.i];
  }

  lemma UrlTurnAgain(s: string, t: string, st: State)
    requires st.i < |s|
    requires var n := StepUrl(s, st); Continues(s, n, t)
    ensures |st.r| < |t| && StepUrl(t, Again(st)) == Again(StepUrl(s, st))
  {
    assert t[|st.r|] == s[st.i];
  }

  lemma CustomTurnAgain(custom: string -> bool, s: string, t: string, st: State)
    requires st.i < |s| && st.cx.lex.Normal?
    requires Continues(s, StepCustom(custom, s, st), t)
    requires |st.r| < |t| && (s[st.i] == '(' ==> QuoteAhead(s, st.i + 1) == QuoteAhead(t, |st.r| + 1))
    ensures StepCustom(custom, t, Again(st)) == Again(StepCustom(custom, s, st))
  {
    assert t[|st.r|] == s[st.i];
  }

  lemma PlainTurnAgain(custom: string -> bool, s: string, t: string, st: State)
    requires st.i < |s| && st.cx.lex.Normal? && !DropsZero(s, st.r, st.i)
    requires var n := StepPlain(custom, s, st);
             && Continues(s, n, t)
             && (n.i < |s| && OpensUrl(s, st.r, st.i) ==> |n.r| < |t| && t[|n.r|] == s[n.i])
    requires |st.r| < |t| && !DropsZero(t, st.r, |st.r|)
    ensures StepPlain(custom, t, Again(st)) == Again(StepPlain(custom, s, st))
  {
    hide KeepsZero, EndsWithUrl, SkipSpace;
    assert t[|st.r|] == s[st.i];
    assert t[|st.r|..|st.r| + 1] == s[st.i..st.i + 1];
    if OpensUrl(s, st.r, st.i) { NothingToSkip(s, t, st.i + 1, |st.r| + 1); }
  }

  /** Whitespace that was skipped is not there to be skipped again. */
  lemma NothingToSkip(s: string, t: string, i: nat, k: nat)
    requires i <= |s| && k <= |t|
    requires var j := SkipSpace(s, i); if j < |s| then k < |t| && t[k] == s[j] else k == |t|
    ensures SkipSpace(t, k) == k
  {}

  lemma RunContinues(custom: string -> bool, s: string, st: State)
    requires st.i <= |s|
    ensures Continues(s, st, Run(custom, s, st))
  {}

  /** A zero the first run keeps is one a second run keeps: nothing is dropped right after a `0`. */
  lemma KeptZeroStays(custom: string -> bool, s: string, st: State)
    requires st.i < |s| && Plain(st) && s[st.i] == '0' && !DropsZero(s, st.r, st.i)
    ensures var out := Run(custom, s, st);
            |st.r| < |out| && !DropsZero(out, st.r, |st.r|)
  {
    hide Step, EndsWithUrl;
    TurnCopies(custom, s, st);
    var n := Step(custom, s, st);
    assert n.i == st.i + 1 && n.r == st.r + "0" by { TurnOnZero(custom, s, st); }
    RunContinues(custom, s, n);
    if n.i < |s| {
      assert IsIdentContentAt(n.r, |n.r| - 1);
      NextEmitted(custom, s, n);
    }
  }

  lemma TurnOnZero(custom: string -> bool, s: string, st: State)
    requires st.i < |s| && Plain(st) && s[st.i] == '0' && !DropsZero(s, st.r, st.i)
    ensures Step(custom, s, st) == Copy(s, st, 1)
  {}

  lemma CustomParen(custom: string -> bool, s: string, st: State)
    requires st.i < |s| && st.cx.lex.Normal? && st.cx.inCustom && s[st.i] == '('
    ensures var n := Step(custom, s, st); n.cx.lex.Normal? && n.i == st.i + 1 && |n.r| == |st.r| + 1
  {}

  /** One turn over the output repeats the turn over the input that emitted it. */
  lemma TurnAgain(custom: string -> bool, s: string, st: State)
    requires st.i < |s| && !(Plain(st) && DropsZero(s, st.r, st.i))
    ensures var out := Run(custom, s, st);
            |st.r| < |out| && Step(custom, out, Again(st)) == Again(Step(custom, s, st))
  {
    hide StepString, StepUrl, StepCustom, StepPlain, KeepsZero, EndsWithUrl, QuoteAhead, Run;
    var out := Run(custom, s, st);
    NextEmitted(custom, s, st);
    RunNext(custom, s, st);
    RunContinues(custom, s, Step(custom, s, st));
    match st.cx.lex
    case InSingle => StringTurnAgain(s, out, st, '\'');
    case InDouble => StringTurnAgain(s, out, st, '"');
    case InUrl => UrlTurnAgain(s, out, st);
    case Normal =>
      if s[st.i] == '\\' && st.i + 1 < |s| {
        assert out[|st.r|..|st.r| + 2] == s[st.i..st.i + 2];
      } else if st.cx.inCustom {
        InCustomAgain(custom, s, st);
      } else {
        InPlainAgain(custom, s, st);
      }
  }

  lemma InCustomAgain(custom: string -> bool, s: string, st: State)
    requires st.i < |s| && st.cx.lex.Normal? && st.cx.inCustom && !(s[st.i] == '\\' && st.i + 1 < |s|)
    ensures var out := Run(custom, s, st);
            |st.r| < |out| && StepCustom(custom, out, Again(st)) == Again(StepCustom(custom, s, st))
  {
    hide StepCustom, KeepsZero, EndsWithUrl, QuoteAhead, Run;
    var n := Step(custom, s, st);
    NextEmitted(custom, s, st);
    RunNext(custom, s, st);
    RunContinues(custom, s, n);
    if s[st.i] == '(' {
      CustomParen(custom, s, st);
      QuoteAheadKept(custom, s, n);
    }
    CustomTurnAgain(custom, s, Run(custom, s, st), st);
  }

  lemma InPlainAgain(custom: string -> bool, s: string, st: State)
    requires st.i < |s| && Plain(st) && !DropsZero(s, st.r, st.i) && !(s[st.i] == '\\' && st.i + 1 < |s|)
    ensures var out := Run(custom, s, st);
            |st.r| < |out| && StepPlain(custom, out, Again(st)) == Again(StepPlain(custom, s, st))
  {
    hide StepPlain, KeepsZero, EndsWithUrl, Run;
    var n := Step(custom, s, st);
    NextEmitted(custom, s, st);
    RunNext(custom, s, st);
    RunContinues(custom, s, n);
    if s[st.i] == '0' { KeptZeroStays(custom, s, st); }
    if OpensUrl(s, st.r, st.i) && n.i < |s| {
      TurnOpensUrl(custom, s, st);
      NextEmitted(custom, s, n);
    }
    PlainTurnAgain(custom, s, Run(custom, s, st), st);
  }

  lemma {:induction false} RunAgain(custom: string -> bool, s: string, st: State)
    requires st.i <= |s|
    ensures var out := Run(custom, s, st); Run(custom, out, Again(st)) == out
    decreases |s| - st.i
  {
    hide Step, KeepsZero;
    if st.i < |s| {
      RunAgain(custom, s, Step(custom, s, st));
      if Plain(st) && DropsZero(s, st.r, st.i) {
        TurnDropsZero(custom, s, st);
      } else {
        TurnAgain(custom, s, st);
      }
    }
  }

  /** Phase 4 is idempotent on every text. */
  lemma Phase4Idempotent(custom: string -> bool, s: string)
    ensures var out := Run(custom, s, START); Run(custom, out, START) == out
  {
    RunAgain(custom, s, START);
  }

  /** A run that drops a position is shorter than its input. */
  lemma {:induction false} DropShortens(custom: string -> bool, s: string, st: State, i: nat, d: nat)
    requires st.i <= i <= d < |s| && Drops(custom, s, st, d)
    ensures |Kept(custom, s, st, i)| < |s| - i
    decreases |s| - i
  {
    hide Step, KeepsZero;
    if i < d {
      DropShortens(custom, s, st, i + 1, d);
    } else {
      KeptIsShort(custom, s, st, i + 1);
    }
  }

  lemma KeptIsShort(custom: string -> bool, s: string, st: State, i: nat)
    requires st.i <= i <= |s|
    ensures |Kept(custom, s, st, i)| <= |s| - i
    decreases |s| - i
  {
    hide Step, KeepsZero;
  }

  /** The output has no redundant zero left: Phase 4 drops every one of them. */
  lemma NoRedundantZeroLeft(custom: string -> bool, s: string, d: nat)
    requires d < |Run(custom, s, START)|
    ensures var out := Run(custom, s, START);
            var at := StateAt(custom, out, START, d);
            !(Plain(at) && at.i == d && DropsZero(out, at.r, d))
  {
    hide Step, KeepsZero;
    var out := Run(custom, s, START);
    Phase4Idempotent(custom, s);
    OutputIsInputWithoutDrops(custom, out, START);
    var at := StateAt(custom, out, START, d);
    if Plain(at) && at.i == d && DropsZero(out, at.r, d) {
      TurnDropsZero(custom, out, at);
      DropShortens(custom, out, START, 0, d);
    }
  }
}
