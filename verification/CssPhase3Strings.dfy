/**
 What Phase 3 drops lies outside the strings of its input, on every text.
 */
module CssPhase3Strings {
  import opened CssChars
  import opened CssLexemes
  import opened CssGrammar
  import opened CssPhase3

  /** Between two turns of the run from `st`, a position belongs to the later one. */
  lemma {:induction false} StateAtLater(custom: string -> bool, s: string, st: State, i: nat, d: nat)
    requires Valid(st) && st.i <= i <= d < |s|
    ensures StateAt(custom, s, st, d) == StateAt(custom, s, StateAt(custom, s, st, i), d)
    decreases |s| - st.i
  {
    hide Step, Trims;
    var n := Step(custom, s, st);
    if n.i <= i {
      StateAtLater(custom, s, n, i, d);
    }
  }

  /** Inside a string or a url() token nothing is dropped before its end. */
  lemma {:induction false} NothingDroppedInside(custom: string -> bool, s: string, st: State, close: char, d: nat)
    requires Valid(st) && st.i <= d < |s| && d < CloseEnd(s, st.i, close)
    requires match st.cx.lex case InSingle => close == '\'' case InDouble => close == '"' case InUrl => close == ')'
             case Normal => false
    ensures !Drops(custom, s, st, d)
    decreases |s| - st.i
  {
    hide StepNormal;
    var n := Step(custom, s, st);
    if n.i <= d {
      NothingDroppedInside(custom, s, n, close, d);
    }
  }

  /** The run of the scanner over `s` stands at `i` in plain text. */
  ghost predicate PlainAt(custom: string -> bool, s: string, i: nat)
    requires i < |s|
  {
    var at := StateAt(custom, s, START, i);
    at.i == i && at.cx.lex.Normal? && !(at.cx.inCustom && at.cx.customUrl)
  }

  /** The turn at a quote in plain text enters the string. */
  lemma QuoteEnters(custom: string -> bool, s: string, st: State)
    requires Valid(st) && st.i < |s| && st.cx.lex.Normal? && !(st.cx.inCustom && st.cx.customUrl)
    requires s[st.i] == '"' || s[st.i] == '\''
    ensures !Trims(s, st) && Step(custom, s, st).i == st.i + 1
    ensures Step(custom, s, st).cx.lex == if s[st.i] == '"' then InDouble else InSingle
  {
    hide StepStructure, ReachesBrace, QuoteAhead, EndsWithUrl;
  }

  /** No dropped position lies in a string: a quote, a body of escape pairs and other characters, and the quote. */
  lemma NothingDroppedInString(custom: string -> bool, s: string, i: nat, quote: char, body: string, d: nat)
    requires (quote == '"' || quote == '\'') && Body(body, quote) && Reads(s, i, [quote] + body + [quote])
    requires i <= d < i + |body| + 2 && PlainAt(custom, s, i)
    ensures !Drops(custom, s, START, d)
  {
    hide Step, Trims, Body, CloseEnd;
    assert [quote] + body + [quote] == [quote] + (body + [quote]);
    ReadsSplit(s, i, [quote], body + [quote]);
    assert s[i + 0] == [quote][0];
    CloseEndReads(s, i + 1, body, quote);
    var st := StateAt(custom, s, START, i);
    StateAtLater(custom, s, START, i, d);
    QuoteEnters(custom, s, st);
    var n := Step(custom, s, st);
    if n.i <= d {
      NothingDroppedInside(custom, s, n, quote, d);
    }
  }
}
