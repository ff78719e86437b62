/**
 What Phase 4 drops, said of the input alone: in plain text a `0` goes exactly when
 a '.' follows it and a number can start after the text before it.
 */
module CssPhase4Input {
  import opened Ascii
  import opened CssChars
  import opened CssLexemes
  import opened CssPhase4
  import opened CssPhase4Lexemes

  // ---- the emitted text ends like the text read -------------------------------------------------

  /**
   What was emitted from `p` on is what was read from `q` on.  Before that
   everything was emitted, or a `0` was dropped in front of the '.' at `q`, or
   whitespace after a '('.
   */
  ghost predicate SameFrom(s: string, st: State, p: nat, q: nat) {
    && p <= |st.r| && q <= st.i <= |s| && st.r[p..] == s[q..st.i]
    && (|| p == q == 0
        || (0 < q < st.i && s[q] == '.' && s[q - 1] == '0' && (p > 0 ==> st.r[p - 1] != '\\'))
        || (0 < q < st.i && 0 < p && st.r[p - 1] == '(' && IsCssWhitespace(s[q - 1])))
    && (p + 1 == |st.r| && p > 0 && Plain(st) ==> st.r[p] != '-')
  }

  ghost predicate Aligned(s: string, st: State) {
    exists p: nat, q: nat :: SameFrom(s, st, p, q)
  }

  /** The run stands at the '.' of a zero just dropped. */
  ghost predicate AtDot(s: string, st: State) {
    && 0 < st.i < |s| && s[st.i - 1] == '0' && s[st.i] == '.' && Plain(st)
    && (st.r != "" ==> st.r[|st.r| - 1] != '\\')
  }

  /** The run stands after the whitespace that follows "url(". */
  ghost predicate AtUrl(s: string, st: State) {
    && 0 < st.i <= |s| && IsCssWhitespace(s[st.i - 1]) && st.r != "" && st.r[|st.r| - 1] == '('
    && (st.i == |s| || IsQuote(s[st.i]) || st.cx.lex.InUrl?)
  }

  ghost predicate Kempt(s: string, st: State) {
    && st.i <= |s|
    && (st.i < |s| ==> Whole(st.r))
    && (Aligned(s, st) || AtDot(s, st) || AtUrl(s, st))
  }

  lemma AlignedOneMore(s: string, st: State, n: State)
    requires st.i < |s| && Aligned(s, st) && Copies(s, st, n)
    ensures Aligned(s, n)
  {
    var p: nat, q: nat :| SameFrom(s, st, p, q);
    assert n.r[p..] == st.r[p..] + s[st.i..n.i];
    assert s[q..st.i] + s[st.i..n.i] == s[q..n.i];
    assert p > 0 ==> n.r[p - 1] == st.r[p - 1] && p < |st.r|;
    assert SameFrom(s, n, p, q);
  }

  /** A turn that copies emits an escape pair or one character. */
  lemma TurnEmits(custom: string -> bool, s: string, st: State)
    requires st.i < |s| && !(Plain(st) && OpensUrl(s, st.r, st.i)) && !(Plain(st) && DropsZero(s, st.r, st.i))
    ensures var n := Step(custom, s, st);
            && Copies(s, st, n)
            && n.i == st.i + (if s[st.i] == '\\' && st.i + 1 < |s| then 2 else 1)
            && (st.cx.lex.InUrl? && Plain(n) ==> s[st.i] == ')')
  {
    hide KeepsZero, EndsWithUrl, QuoteAhead, SkipSpace;
  }

  lemma EmittedIsWhole(s: string, r: string, i: nat, n: nat)
    requires i < n <= |s| && Whole(r)
    requires if s[i] == '\\' then n == i + 2 else n == i + 1
    ensures Whole(r + s[i..n])
  {
    assert s[i..n][n - i..] == "";
    WholeConcat(r, s[i..n]);
  }

  lemma DroppedAfter(r: string)
    requires Whole(r) && !KeepsZero(r) && r != ""
    ensures r[|r| - 1] != '\\'
  {
    EvenRunIffWhole(r, |r|);
    assert r[..|r|] == r;
  }

  lemma KemptTurn(custom: string -> bool, s: string, st: State)
    requires st.i < |s| && Kempt(s, st)
    ensures Kempt(s, Step(custom, s, st))
  {
    hide Step, KeepsZero, EndsWithUrl, QuoteAhead, Aligned, Whole, SkipSpace;
    var n := Step(custom, s, st);
    if Plain(st) && DropsZero(s, st.r, st.i) {
      TurnDropsZero(custom, s, st);
      if st.r != "" { DroppedAfter(st.r); }
    } else if Plain(st) && OpensUrl(s, st.r, st.i) {
      TurnOpensUrl(custom, s, st);
      EmittedIsWhole(s, st.r, st.i, st.i + 1);
      UrlOpens(s, st, n);
    } else {
      TurnEmits(custom, s, st);
      if n.i < |s| { EmittedIsWhole(s, st.r, st.i, n.i); }
      if AtDot(s, st) || AtUrl(s, st) {
        assert n.r[|st.r|..] == s[st.i..n.i];
        assert SameFrom(s, n, |st.r|, st.i);
        AlignedFrom(s, n, |st.r|, st.i);
      } else {
        AlignedOneMore(s, st, n);
      }
    }
  }

  lemma AlignedFrom(s: string, st: State, p: nat, q: nat)
    requires SameFrom(s, st, p, q)
    ensures Aligned(s, st)
  {}

  lemma UrlOpens(s: string, st: State, n: State)
    requires st.i < |s| && s[st.i] == '(' && Aligned(s, st)
    requires n.i == SkipSpace(s, st.i + 1) && n.r == st.r + "("
    requires n.i == |s| || IsQuote(s[n.i]) || n.cx.lex.InUrl?
    ensures Aligned(s, n) || AtUrl(s, n)
  {
    assert s[st.i..st.i + 1] == "(";
    if n.i == st.i + 1 { AlignedOneMore(s, st, n); }
  }

  lemma {:induction false} KemptAt(custom: string -> bool, s: string, st: State, d: nat)
    requires st.i <= d < |s| && Kempt(s, st)
    ensures Kempt(s, StateAt(custom, s, st, d))
    decreases |s| - st.i
  {
    hide Step, Kempt;
    KemptTurn(custom, s, st);
    var n := Step(custom, s, st);
    if d >= n.i { KemptAt(custom, s, n, d); }
  }

  lemma KemptStart(s: string)
    ensures Kempt(s, START)
  {
    assert SameFrom(s, START, 0, 0);
  }

  // ---- looking back over the input --------------------------------------------------------------

  /** Looking back from the same place, the two texts show the same runs. */
  lemma {:induction false} BackslashesAligned(s: string, st: State, p: nat, q: nat, k: nat)
    requires SameFrom(s, st, p, q) && p + k <= |st.r|
    ensures BackslashRun(st.r, p + k) == BackslashRun(s, q + k)
    decreases k
  {
    if k > 0 {
      BackslashesAligned(s, st, p, q, k - 1);
      assert st.r[p..][k - 1] == s[q..st.i][k - 1];
    }
  }

  lemma {:induction false} HexAligned(s: string, st: State, p: nat, q: nat, k: nat)
    requires SameFrom(s, st, p, q) && p + k <= |st.r| && (k == 0 ==> q == st.i || s[q] != '.')
    ensures HexRun(st.r, p + k) == HexRun(s, q + k) <= k
    decreases k
  {
    if k > 0 {
      assert st.r[p..][k - 1] == s[q..st.i][k - 1];
      if IsHexDigit(st.r[p + k - 1]) { HexAligned(s, st, p, q, k - 1); }
    }
  }

  lemma ContentAligned(s: string, st: State, p: nat, q: nat, k: nat)
    requires SameFrom(s, st, p, q) && p + k < |st.r|
    ensures IsIdentContentAt(st.r, p + k) == IsIdentContentAt(s, q + k)
  {
    hide SameFrom;
    BackslashesAligned(s, st, p, q, k);
    SameAt(s, st, p, q, k);
    if IsCssWhitespace(st.r[p + k]) {
      assert k == 0 ==> s[q] != '.';
      HexAligned(s, st, p, q, k);
      var h := HexRun(st.r, p + k);
      if h < k {
        SameAt(s, st, p, q, k - 1 - h);
        BackslashesAligned(s, st, p, q, k - 1 - h);
      } else {
        NoEscapeBefore(s, st, p, q);
      }
    }
  }

  lemma SameAt(s: string, st: State, p: nat, q: nat, k: nat)
    requires SameFrom(s, st, p, q) && p + k < |st.r|
    ensures q + k < st.i <= |s| && st.r[p + k] == s[q + k]
  {
    assert st.r[p..][k] == s[q..st.i][k];
  }

  lemma NoEscapeBefore(s: string, st: State, p: nat, q: nat)
    requires SameFrom(s, st, p, q)
    ensures (p > 0 ==> st.r[p - 1] != '\\') && (q > 0 ==> q <= |s| && s[q - 1] != '\\')
  {}

  lemma KeepsAligned(s: string, st: State)
    requires Aligned(s, st) && Plain(st)
    ensures KeepsZero(st.r) == KeepsZero(s[..st.i])
  {
    hide IsIdentContentAt, SameFrom;
    var p: nat, q: nat :| SameFrom(s, st, p, q);
    Sizes(s, st, p, q);
    var t := s[..st.i];
    if st.r != "" {
      var k := |st.r| - 1 - p;
      SameAt(s, st, p, q, k);
      ContentAligned(s, st, p, q, k);
      ContentOfPrefix(s, st.i - 1);
      if k > 0 {
        SameAt(s, st, p, q, k - 1);
        ContentAligned(s, st, p, q, k - 1);
        ContentOfPrefix(s, st.i - 2);
        ContentOfPrefix(t, st.i - 2);
        assert t[..st.i - 1] == s[..st.i - 1];
      }
    }
  }

  lemma Sizes(s: string, st: State, p: nat, q: nat)
    requires SameFrom(s, st, p, q)
    ensures p <= |st.r| && q <= st.i <= |s| && |st.r| - p == st.i - q
    ensures p == 0 && |st.r| == p ==> st.i == 0
    ensures (p > 0 ==> p < |st.r|) && (p == 0 && q > 0 ==> q < st.i)
    ensures p + 1 == |st.r| && Plain(st) ==> (if p > 0 || q > 0 then st.r[p] != '-' else st.i == 1)
  {
    assert |st.r[p..]| == |s[q..st.i]|;
    if p + 1 == |st.r| { SameAt(s, st, p, q, 0); }
  }

  // ---- what is dropped ----------------------------------------------------------------------------

  /** In plain text a `0` is dropped exactly where a number can start and a '.' follows. */
  lemma ZeroIsDroppedIff(custom: string -> bool, s: string, d: nat)
    requires d < |s| && s[d] == '0'
    requires var at := StateAt(custom, s, START, d); Plain(at) && at.i == d
    ensures Drops(custom, s, START, d) <==> d + 1 < |s| && s[d + 1] == '.' && NumberCanStart(s[..d])
  {
    hide Step, KeepsZero, NumberCanStart, EndsWithUrl, Aligned, Whole;
    var at := StateAt(custom, s, START, d);
    KemptStart(s);
    KemptAt(custom, s, START, d);
    TurnSkips(custom, s, at);
    KeepsAligned(s, at);
    KeepsZeroIff(s[..d]);
  }

  /** Nothing is dropped but such a `0`, and whitespace right after "url(". */
  lemma DroppedOnInput(custom: string -> bool, s: string, d: nat)
    requires d < |s| && Drops(custom, s, START, d)
    ensures || (s[d] == '0' && d + 1 < |s| && s[d + 1] == '.' && NumberCanStart(s[..d]))
            || (exists k :: 0 <= k < d && s[k] == '(' && forall j :: k < j <= d ==> IsBlank(s[j]))
  {
    hide Step, KeepsZero, NumberCanStart, EndsWithUrl, StateAt;
    DropsOnlyRedundant(custom, s, d);
    var at := StateAt(custom, s, START, d);
    if at.i == d {
      ZeroIsDroppedIff(custom, s, d);
    } else {
      assert s[at.i] == '(';
    }
  }

  /** No digit, letter, `_`, non-ASCII byte or '.' stands before it, so it is a number's whole integer part. */
  lemma DroppedStandsAlone(custom: string -> bool, s: string, d: nat)
    requires 0 < d < |s| && s[d] == '0' && Drops(custom, s, START, d)
    ensures var c := s[d - 1];
            && !('0' <= c <= '9') && !('a' <= c <= 'z') && !('A' <= c <= 'Z') && c != '_' && c as int < 0x80 && c != '.'
            && (c == '-' && d > 1 ==> s[d - 2] != '-' && !IsIdentChar(s[d - 2]))
  {
    hide Step, EndsInEscape, StateAt, Drops;
    DroppedOnInput(custom, s, d);
    var t := s[..d];
    assert t[d - 1] == s[d - 1];
    assert s[d] == '0' && NumberCanStart(t);
    if d > 1 { assert t[..d - 1][d - 2] == s[d - 2] == t[d - 2]; }
  }

  /** At the start of `t`, or after whitespace or one of ":,(+" that no escape takes in. */
  predicate Separated(t: string) {
    || t == ""
    || var c, before := t[|t| - 1], if |t| > 1 then t[|t| - 2] else ' ';
       (c in ":,(+" && before != '\\') || (IsBlank(c) && before != '\\' && !IsHexDigit(before))
  }

  lemma NoEscapeAtEnd(t: string)
    requires t != "" && (|t| > 1 ==> t[|t| - 2] != '\\')
    requires IsCssWhitespace(t[|t| - 1]) && |t| > 1 ==> !IsHexDigit(t[|t| - 2])
    ensures !EndsInEscape(t)
  {}

  lemma SeparatedStarts(t: string)
    requires Separated(t)
    ensures NumberCanStart(t) && NumberCanStart(t + "-")
  {
    hide EndsInEscape;
    if t != "" { NoEscapeAtEnd(t); }
    NoEscapeAtEnd(t + "-");
    assert (t + "-")[..|t|] == t;
  }

  /** In plain text a `0` before a '.' is dropped after a separator, and after a separator and a '-'. */
  lemma SeparatedZeroIsDropped(custom: string -> bool, s: string, d: nat)
    requires d + 1 < |s| && s[d] == '0' && s[d + 1] == '.'
    requires var at := StateAt(custom, s, START, d); Plain(at) && at.i == d
    requires Separated(s[..d]) || (d > 0 && s[d - 1] == '-' && Separated(s[..d - 1]))
    ensures Drops(custom, s, START, d)
  {
    hide Step, NumberCanStart, Separated, StateAt, Drops;
    if Separated(s[..d]) {
      SeparatedStarts(s[..d]);
    } else {
      SeparatedStarts(s[..d - 1]);
      assert s[..d] == s[..d - 1] + "-";
    }
    ZeroIsDroppedIff(custom, s, d);
  }
}
