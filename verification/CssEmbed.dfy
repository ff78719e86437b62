/**
 Embedding a balanced sheet: the scan of a concatenation is the concatenation of
 the scans, provided the seam is a character that ends every token, or a newline
 that ends the text.
 */
module CssEmbed {
  import opened Options
  import opened Ascii
  import opened CssBalance

  // ---- text before the seam -------------------------------------------------------

  /** A character that no token before it takes in or looks past. */
  predicate Stops(c: char) {
    !IsIdentContinue(c) && !IsSpace(c) && c != '(' && c != '*'
  }

  /** Whitespace ends the text, unless an escape can take it in. */
  predicate SpaceStops(a: string, c: char) {
    IsSpace(c) && (a == "" || (!IsIdentContinue(a[|a| - 1]) && !IsSpace(a[|a| - 1])))
  }

  ghost predicate Seam(a: string, b: string) {
    b == "\n" || (b != "" && (Stops(b[0]) || SpaceStops(a, b[0])))
  }

  lemma {:induction false} SkipSpaceBefore(a: string, b: string, i: nat)
    requires i <= |a| && SkipSpace(a, i) < |a|
    ensures SkipSpace(a + b, i) == SkipSpace(a, i)
    decreases |a| - i
  {
    if i < |a| && IsSpace(a[i]) { SkipSpaceBefore(a, b, i + 1); }
  }

  lemma {:induction false} RawUrlEndBefore(a: string, b: string, p: nat)
    requires p <= |a| && RawUrlEnd(a, p) < |a|
    ensures RawUrlEnd(a + b, p) == RawUrlEnd(a, p)
    decreases |a| - p
  {
    if a[p] == ')' {
    } else if a[p] == '\\' && p + 1 < |a| {
      RawUrlEndBefore(a, b, p + 2);
    } else {
      RawUrlEndBefore(a, b, p + 1);
    }
  }

  lemma {:induction false} CommentEndBefore(a: string, b: string, p: nat)
    requires CommentEnd(a, p).Some?
    ensures CommentEnd(a + b, p) == CommentEnd(a, p)
    decreases |a| - p
  {
    if !(a[p] == '*' && a[p + 1] == '/') { CommentEndBefore(a, b, p + 1); }
  }

  lemma {:induction false} StringEndBefore(a: string, b: string, p: nat, quote: char)
    requires StringEnd(a, p, quote).Some?
    ensures StringEnd(a + b, p, quote) == StringEnd(a, p, quote)
    decreases |a| - p
  {
    if a[p] == quote {
    } else if a[p] == '\\' && p + 1 < |a| {
      StringEndBefore(a, b, p + (if a[p + 1] == '\r' && p + 2 < |a| && a[p + 2] == '\n' then 3 else 2), quote);
    } else {
      StringEndBefore(a, b, p + 1, quote);
    }
  }

  lemma {:induction false} IdentStartBefore(a: string, b: string, esc: nat, i: nat)
    requires i <= esc <= |a|
    ensures IdentStart(a + b, esc, i) == IdentStart(a, esc, i)
    decreases i
  {
    if i > 0 && IsIdentContinue(a[i - 1]) && esc - i < 27 { IdentStartBefore(a, b, esc, i - 1); }
  }

  lemma {:induction false} HexEndBefore(a: string, b: string, i: nat, left: nat)
    requires i <= |a| && Seam(a, b)
    ensures HexEnd(a + b, i, left) == HexEnd(a, i, left)
    decreases left
  {
    if i < |a| && left > 0 && IsHexDigit(a[i]) { HexEndBefore(a, b, i + 1, left - 1); }
  }

  lemma {:induction false} HexDigits(s: string, i: nat, left: nat)
    requires i <= |s|
    ensures forall k | i <= k < HexEnd(s, i, left) :: IsHexDigit(s[k])
    decreases left
  {
    if i < |s| && left > 0 && IsHexDigit(s[i]) { HexDigits(s, i + 1, left - 1); }
  }

  lemma AfterHexSpaceBefore(a: string, b: string, h: nat)
    requires 0 < h <= |a| && IsHexDigit(a[h - 1]) && Seam(a, b)
    ensures AfterHexSpace(a + b, h) == AfterHexSpace(a, h) || AfterHexSpace(a + b, h) == |a + b|
  {}

  lemma HexGoesOn(s: string, i: nat, left: nat)
    requires i < |s| && left > 0 && IsHexDigit(s[i])
    ensures HexEnd(s, i, left) > i
  {}

  /** A name that already holds a character outside "url" stays another name. */
  lemma {:induction false} OtherName(s: string, i: nat, name: string, k: nat)
    requires k < |name| && name[k] != 'u' && name[k] != 'r' && name[k] != 'l'
    ensures !IsUrlName(s, i, name)
    decreases |s| - i
  {
    if i < |s| && IsIdentContinue(s[i]) && |name| < 8 {
      if s[i] != '\\' {
        OtherName(s, i + 1, name + [LowerChar(s[i])], k);
      } else if i + 1 < |s| {
        if IsHexDigit(s[i + 1]) {
          var h := HexEnd(s, i + 1, 6);
          var code := HexValue(s[i + 1..h]);
          OtherName(s, AfterHexSpace(s, h), name + [if code < 0x80 then LowerChar(code as char) else '?'], k);
        } else {
          OtherName(s, i + 2, name + [LowerChar(s[i + 1])], k);
        }
      }
    }
  }

  lemma {:induction false} IsUrlNameBefore(a: string, b: string, i: nat, name: string)
    requires i <= |a| && Seam(a, b) && !IsUrlName(a, i, name)
    ensures !IsUrlName(a + b, i, name)
    decreases |a| - i
  {
    hide HexValue, HexEnd, AfterHexSpace;
    var s := a + b;
    if i < |a| && IsIdentContinue(a[i]) && |name| < 8 {
      if a[i] != '\\' {
        IsUrlNameBefore(a, b, i + 1, name + [LowerChar(a[i])]);
      } else if i + 1 == |a| {
        OtherName(s, i + 2, name + [b[0]], |name|);
      } else if IsHexDigit(a[i + 1]) {
        var h := HexEnd(a, i + 1, 6);
        HexEndBefore(a, b, i + 1, 6);
        HexDigits(a, i + 1, 6);
        assert h > i + 1 by { HexGoesOn(a, i + 1, 6); }
        AfterHexSpaceBefore(a, b, h);
        assert s[i + 1..h] == a[i + 1..h];
        var code := HexValue(a[i + 1..h]);
        IsUrlNameBefore(a, b, AfterHexSpace(a, h), name + [if code < 0x80 then LowerChar(code as char) else '?']);
      } else {
        IsUrlNameBefore(a, b, i + 2, name + [LowerChar(a[i + 1])]);
      }
    }
  }

  lemma EscapeBefore(a: string, b: string, pos: nat)
    requires pos <= |a| && Seam(a, b) && !EscapedIdentIsUrlFunction(a, pos)
    ensures !EscapedIdentIsUrlFunction(a + b, pos)
  {
    hide IdentStart, IsUrlName;
    IdentStartBefore(a, b, pos, pos);
    var start := IdentStart(a, pos, pos);
    if start.Some? { IsUrlNameBefore(a, b, start.value, ""); }
  }

  lemma UrlTokenBefore(a: string, b: string, pos: nat)
    requires pos < |a| && Seam(a, b)
    ensures UrlTokenAt(a + b, pos) == UrlTokenAt(a, pos)
  {}

  /** A token that ends inside `a` is the same token in `a + b`. */
  lemma NextBefore(a: string, b: string, pos: nat)
    requires pos < |a| && Seam(a, b) && Next(a, pos).Some?
    ensures Next(a + b, pos) == Next(a, pos)
  {
    hide SkipSpace, RawUrlEnd, CommentEnd, StringEnd, EscapedIdentIsUrlFunction, UrlTokenAt;
    UrlTokenBefore(a, b, pos);
    if UrlTokenAt(a, pos) {
      assert pos + 4 <= |a| by { UrlTokenFits(a, pos); }
      SkipSpaceBefore(a, b, pos + 4);
      var p := SkipSpace(a, pos + 4);
      if !(p < |a| && IsQuote(a[p])) { RawUrlEndBefore(a, b, p); }
    } else if a[pos] == '/' && pos + 1 < |a| && a[pos + 1] == '*' {
      CommentEndBefore(a, b, pos + 2);
    } else if IsQuote(a[pos]) {
      StringEndBefore(a, b, pos + 1, a[pos]);
    } else if a[pos] == '\\' {
      EscapeBefore(a, b, pos);
    }
  }

  lemma UrlTokenFits(s: string, pos: nat)
    requires pos < |s| && UrlTokenAt(s, pos)
    ensures pos + 4 <= |s|
  {}

  lemma {:induction false} WalkBefore(a: string, b: string, pos: nat, depth: nat, floor: nat)
    requires pos <= |a| && Seam(a, b) && WalkTo(a, pos, depth, floor, |a|).Some?
    ensures WalkTo(a + b, pos, depth, floor, |a|) == WalkTo(a, pos, depth, floor, |a|)
    decreases |a| - pos
  {
    hide Next;
    if pos < |a| {
      NextBefore(a, b, pos);
      var n := Next(a, pos).value;
      WalkBefore(a, b, n, if a[pos] == '{' then depth + 1 else if a[pos] == '}' then depth - 1 else depth, floor);
    }
  }

  // ---- tokens that end before the seam -------------------------------------------------

  lemma {:induction false} SkipSpaceRuns(a: string, b: string, i: nat)
    requires i <= |a| && SkipSpace(a, i) == |a| && b != "" && !IsSpace(b[0])
    ensures SkipSpace(a + b, i) == |a|
    decreases |a| - i
  {
    if i < |a| { SkipSpaceRuns(a, b, i + 1); }
  }

  lemma {:induction false} RawUrlEndWithin(a: string, b: string, p: nat)
    requires p <= |a| && RawUrlEnd(a + b, p) < |a|
    ensures RawUrlEnd(a, p) == RawUrlEnd(a + b, p)
    decreases |a| - p
  {
    if p < |a| && a[p] != ')' { RawUrlEndWithin(a, b, if a[p] == '\\' && p + 1 < |a + b| then p + 2 else p + 1); }
  }

  lemma {:induction false} CommentEndWithin(a: string, b: string, p: nat)
    requires CommentEnd(a + b, p).Some? && CommentEnd(a + b, p).value <= |a|
    ensures CommentEnd(a, p) == CommentEnd(a + b, p)
    decreases |a| - p
  {
    if !((a + b)[p] == '*' && (a + b)[p + 1] == '/') { CommentEndWithin(a, b, p + 1); }
  }

  lemma {:induction false} StringEndWithin(a: string, b: string, p: nat, quote: char)
    requires StringEnd(a + b, p, quote).Some? && StringEnd(a + b, p, quote).value <= |a|
    ensures StringEnd(a, p, quote) == StringEnd(a + b, p, quote)
    decreases |a| - p
  {
    var s := a + b;
    if s[p] != quote {
      var n := if s[p] != '\\' || p + 1 >= |s| then 1
               else if s[p + 1] == '\r' && p + 2 < |s| && s[p + 2] == '\n' then 3 else 2;
      StringEndWithin(a, b, p + n, quote);
    }
  }

  lemma {:induction false} IsUrlNameWithin(a: string, b: string, i: nat, name: string)
    requires i <= |a| && b != "" && Breaks(b[0]) && IsUrlName(a, i, name)
    ensures IsUrlName(a + b, i, name)
    decreases |a| - i
  {
    hide HexValue, HexEnd, AfterHexSpace;
    var s := a + b;
    if i < |a| && IsIdentContinue(a[i]) && |name| < 8 {
      if a[i] != '\\' {
        IsUrlNameWithin(a, b, i + 1, name + [LowerChar(a[i])]);
      } else if IsHexDigit(a[i + 1]) {
        var h := HexEnd(a, i + 1, 6);
        HexEndBefore(a, b, i + 1, 6);
        BreakIsNoHexSpace(a, b, h);
        assert s[i + 1..h] == a[i + 1..h];
        var code := HexValue(a[i + 1..h]);
        IsUrlNameWithin(a, b, AfterHexSpace(a, h), name + [if code < 0x80 then LowerChar(code as char) else '?']);
      } else {
        IsUrlNameWithin(a, b, i + 2, name + [LowerChar(a[i + 1])]);
      }
    }
  }

  lemma BreakIsNoHexSpace(a: string, b: string, h: nat)
    requires h <= |a| && b != "" && Breaks(b[0])
    ensures AfterHexSpace(a + b, h) == AfterHexSpace(a, h)
  {}

  lemma EscapeWithin(a: string, b: string, pos: nat)
    requires pos <= |a| && b != "" && Breaks(b[0]) && !EscapedIdentIsUrlFunction(a + b, pos)
    ensures !EscapedIdentIsUrlFunction(a, pos)
  {
    hide IdentStart, IsUrlName;
    IdentStartBefore(a, b, pos, pos);
    var start := IdentStart(a, pos, pos);
    if start.Some? && IsUrlName(a, start.value, "") { IsUrlNameWithin(a, b, start.value, ""); }
  }

  /** A token of `a + b` that ends inside `a` is a token of `a`. */
  lemma NextWithin(a: string, b: string, pos: nat)
    requires pos < |a| && b != "" && Breaks(b[0]) && Next(a + b, pos).Some? && Next(a + b, pos).value <= |a|
    ensures Next(a, pos) == Next(a + b, pos)
  {
    hide SkipSpace, RawUrlEnd, CommentEnd, StringEnd, EscapedIdentIsUrlFunction, UrlTokenAt;
    UrlTokenBefore(a, b, pos);
    if UrlTokenAt(a, pos) {
      assert pos + 4 <= |a| by { UrlTokenFits(a, pos); }
      var p := SkipSpace(a, pos + 4);
      if p == |a| {
        SkipSpaceRuns(a, b, pos + 4);
      } else {
        SkipSpaceBefore(a, b, pos + 4);
        if !IsQuote(a[p]) { RawUrlEndWithin(a, b, p); }
      }
    } else if a[pos] == '/' && pos + 1 < |a| && a[pos + 1] == '*' {
      CommentEndWithin(a, b, pos + 2);
    } else if IsQuote(a[pos]) {
      StringEndWithin(a, b, pos + 1, a[pos]);
    } else if a[pos] == '\\' {
      EscapeWithin(a, b, pos);
    }
  }

  /** A walk of `a + b` that stops inside `a` is a walk of `a`. */
  lemma {:induction false} WalkWithin(a: string, b: string, pos: nat, depth: nat, floor: nat, stop: nat)
    requires pos <= |a| && stop <= |a| && b != "" && Breaks(b[0]) && WalkTo(a + b, pos, depth, floor, stop).Some?
    ensures WalkTo(a, pos, depth, floor, stop) == WalkTo(a + b, pos, depth, floor, stop)
    decreases |a| - pos
  {
    hide Next;
    if pos < stop {
      var n := Next(a + b, pos).value;
      assert n <= stop;
      NextWithin(a, b, pos);
      var inner := if a[pos] == '{' then depth + 1 else if a[pos] == '}' then depth - 1 else depth;
      WalkWithin(a, b, n, inner, floor, stop);
    }
  }

  // ---- text after the seam -----------------------------------------------------------

  /** What comes before does not run on into what follows. */
  ghost predicate Ended(a: string) {
    a == "" || !IsIdentContinue(a[|a| - 1])
  }

  ghost predicate Detached(a: string, b: string) {
    Ended(a) || (b != "" && !IsIdentContinue(b[0]))
  }

  lemma {:induction false} SkipSpaceAfter(a: string, b: string, i: nat)
    requires i <= |b|
    ensures SkipSpace(a + b, |a| + i) == |a| + SkipSpace(b, i)
    decreases |b| - i
  {
    if i < |b| && IsSpace(b[i]) { SkipSpaceAfter(a, b, i + 1); }
  }

  lemma {:induction false} RawUrlEndAfter(a: string, b: string, p: nat)
    requires p <= |b|
    ensures RawUrlEnd(a + b, |a| + p) == |a| + RawUrlEnd(b, p)
    decreases |b| - p
  {
    if p == |b| || b[p] == ')' {
    } else if b[p] == '\\' && p + 1 < |b| {
      RawUrlEndAfter(a, b, p + 2);
    } else {
      RawUrlEndAfter(a, b, p + 1);
    }
  }

  function Moved(r: Option<nat>, n: nat): Option<nat> {
    if r.Some? then Some(r.value + n) else None
  }

  lemma {:induction false} CommentEndAfter(a: string, b: string, p: nat)
    ensures CommentEnd(a + b, |a| + p) == Moved(CommentEnd(b, p), |a|)
    decreases |b| - p
  {
    if p + 1 < |b| && !(b[p] == '*' && b[p + 1] == '/') { CommentEndAfter(a, b, p + 1); }
  }

  lemma {:induction false} StringEndAfter(a: string, b: string, p: nat, quote: char)
    ensures StringEnd(a + b, |a| + p, quote) == Moved(StringEnd(b, p, quote), |a|)
    decreases |b| - p
  {
    if p >= |b| || b[p] == quote || IsCssNewline(b[p]) {
    } else if b[p] == '\\' && p + 1 < |b| {
      StringEndAfter(a, b, p + (if b[p + 1] == '\r' && p + 2 < |b| && b[p + 2] == '\n' then 3 else 2), quote);
    } else {
      StringEndAfter(a, b, p + 1, quote);
    }
  }

  lemma {:induction false} IdentStartAfter(a: string, b: string, esc: nat, i: nat)
    requires i <= esc <= |b| && Detached(a, b) && (i > 0 || Ended(a))
    ensures IdentStart(a + b, |a| + esc, |a| + i) == Moved(IdentStart(b, esc, i), |a|)
    decreases i
  {
    if i > 0 && IsIdentContinue(b[i - 1]) && esc - i < 27 { IdentStartAfter(a, b, esc, i - 1); }
  }

  lemma {:induction false} HexEndAfter(a: string, b: string, i: nat, left: nat)
    requires i <= |b|
    ensures HexEnd(a + b, |a| + i, left) == |a| + HexEnd(b, i, left)
    decreases left
  {
    if i < |b| && left > 0 && IsHexDigit(b[i]) { HexEndAfter(a, b, i + 1, left - 1); }
  }

  lemma HexEscapeAfter(a: string, b: string, i: nat)
    requires i < |b|
    ensures var s, h := a + b, HexEnd(b, i + 1, 6);
            && HexEnd(s, |a| + i + 1, 6) == |a| + h
            && s[|a| + i + 1..|a| + h] == b[i + 1..h]
            && AfterHexSpace(s, |a| + h) == |a| + AfterHexSpace(b, h)
  {
    hide HexEnd;
    HexEndAfter(a, b, i + 1, 6);
  }

  lemma {:induction false} IsUrlNameAfter(a: string, b: string, i: nat, name: string)
    requires i <= |b|
    ensures IsUrlName(a + b, |a| + i, name) == IsUrlName(b, i, name)
    decreases |b| - i
  {
    hide HexValue, HexEnd, AfterHexSpace;
    var s := a + b;
    if i < |b| && IsIdentContinue(b[i]) && |name| < 8 {
      if b[i] != '\\' {
        IsUrlNameAfter(a, b, i + 1, name + [LowerChar(b[i])]);
      } else if i + 1 < |b| {
        if IsHexDigit(b[i + 1]) {
          HexEscapeAfter(a, b, i);
          var h := HexEnd(b, i + 1, 6);
          var code := HexValue(b[i + 1..h]);
          IsUrlNameAfter(a, b, AfterHexSpace(b, h), name + [if code < 0x80 then LowerChar(code as char) else '?']);
        } else {
          IsUrlNameAfter(a, b, i + 2, name + [LowerChar(b[i + 1])]);
        }
      }
    }
  }

  lemma NextAfter(a: string, b: string, pos: nat)
    requires pos < |b| && Detached(a, b)
    ensures Next(a + b, |a| + pos) == Moved(Next(b, pos), |a|)
  {
    hide SkipSpace, RawUrlEnd, CommentEnd, StringEnd, IdentStart, IsUrlName;
    if UrlTokenAt(b, pos) {
      SkipSpaceAfter(a, b, pos + 4);
      RawUrlEndAfter(a, b, SkipSpace(b, pos + 4));
    } else if IsQuote(b[pos]) {
      StringEndAfter(a, b, pos + 1, b[pos]);
    } else if b[pos] == '\\' {
      IdentStartAfter(a, b, pos, pos);
      var start := IdentStart(b, pos, pos);
      if start.Some? { IsUrlNameAfter(a, b, start.value, ""); }
    } else {
      CommentEndAfter(a, b, pos + 2);
    }
  }

  lemma {:induction false} WalkAfter(a: string, b: string, pos: nat, depth: nat, floor: nat, stop: nat)
    requires pos <= |b| && stop <= |b| && Detached(a, b)
    ensures WalkTo(a + b, |a| + pos, depth, floor, |a| + stop) == WalkTo(b, pos, depth, floor, stop)
    decreases |b| - pos
  {
    hide Next;
    if pos < stop {
      NextAfter(a, b, pos);
      var n := Next(b, pos);
      if n.Some? {
        if b[pos] == '{' {
          WalkAfter(a, b, n.value, depth + 1, floor, stop);
        } else if b[pos] == '}' {
          if depth > floor { WalkAfter(a, b, n.value, depth - 1, floor, stop); }
        } else {
          WalkAfter(a, b, n.value, depth, floor, stop);
        }
      }
    }
  }

  // ---- the media scope ------------------------------------------------------------------

  predicate IsUnsafeMediaChar(c: char) {
    c == '{' || c == '}' || c == ';' || c == '<' || c == '>' || c == '\\' || c == '\'' || c == '"' || c == '@'
  }

  predicate OpensComment(m: string, i: nat)
    requires i < |m|
  {
    m[i] == '/' && i + 1 < |m| && m[i + 1] == '*'
  }

  /** From `i` on with `depth` parentheses open, the media value is safe to write in an @media prelude. */
  predicate SafeFrom(m: string, i: nat, depth: nat)
    requires i <= |m|
    decreases |m| - i
  {
    if i == |m| then depth == 0
    else
      && !IsUnsafeMediaChar(m[i]) && !OpensComment(m, i)
      && if m[i] == '(' then SafeFrom(m, i + 1, depth + 1)
         else if m[i] == ')' then depth > 0 && SafeFrom(m, i + 1, depth - 1)
         else SafeFrom(m, i + 1, depth)
  }

  method IsSafeMediaValue(media: string) returns (safe: bool)
    ensures safe == SafeFrom(media, 0, 0)
  {
    var depth := 0;
    for i := 0 to |media|
      invariant depth >= 0 && SafeFrom(media, i, depth) == SafeFrom(media, 0, 0)
    {
      if IsUnsafeMediaChar(media[i]) || OpensComment(media, i) { return false; }
      if media[i] == '(' { depth := depth + 1; }
      if media[i] == ')' {
        if depth == 0 { return false; }
        depth := depth - 1;
      }
    }
    return depth == 0;
  }

  predicate IsMediaSpace(c: char) {
    c == ' ' || c == '\t' || IsCssNewline(c)
  }

  function Trimmed(m: string): string {
    if m != "" && IsMediaSpace(m[0]) then Trimmed(m[1..])
    else if m != "" && IsMediaSpace(m[|m| - 1]) then Trimmed(m[..|m| - 1])
    else m
  }

  predicate EqualsIgnoreCase(m: string, lower: string) {
    |m| == |lower| && forall i :: 0 <= i < |m| ==> LowerChar(m[i]) == lower[i]
  }

  /** "" when the rules apply on every screen, the media query otherwise, none when it cannot be written safely. */
  function CombinedSheetMediaScope(media: string): (scope: Option<string>)
    ensures scope.Some? && scope.value != "" ==> SafeFrom(scope.value, 0, 0)
  {
    var m := Trimmed(media);
    if m == "" || EqualsIgnoreCase(m, "all") || EqualsIgnoreCase(m, "screen") then Some("")
    else if !SafeFrom(m, 0, 0) then None
    else Some(m)
  }

  /** What `out` becomes when the sheet is appended under `scope`. */
  method AppendMediaScopedCss(scope: string, css: string, out: string) returns (ok: bool, extended: string)
    ensures ok == (scope == "" || Balanced(css))
    ensures extended
         == if !ok then out else if scope == "" then out + css else out + "@media " + scope + "{" + css + "}"
  {
    if scope == "" { return true, out + css; }
    var balanced := IsStructurallyBalanced(css);
    if !balanced { return false, out; }
    return true, out + "@media " + scope + "{" + css + "}";
  }

  /** In a safe media value every character is harmless and every '(' is closed later on. */
  ghost predicate Harmless(m: string) {
    forall i :: 0 <= i < |m| ==> HarmlessAt(m, i)
  }

  ghost predicate HarmlessAt(m: string, i: nat)
    requires i < |m|
  {
    !IsUnsafeMediaChar(m[i]) && !OpensComment(m, i) && (m[i] == '(' ==> exists j :: i < j < |m| && m[j] == ')')
  }

  lemma {:induction false} OpenIsClosed(m: string, i: nat, depth: nat)
    requires i <= |m| && SafeFrom(m, i, depth) && depth > 0
    ensures exists j :: i <= j < |m| && m[j] == ')'
    decreases |m| - i
  {
    if m[i] != ')' {
      OpenIsClosed(m, i + 1, if m[i] == '(' then depth + 1 else depth);
    }
  }

  lemma {:induction false} SafeIsHarmless(m: string, i: nat, depth: nat)
    requires i <= |m| && SafeFrom(m, i, depth)
    ensures forall k :: i <= k < |m| ==> HarmlessAt(m, k)
    decreases |m| - i
  {
    if i < |m| {
      var after := if m[i] == '(' then depth + 1 else if m[i] == ')' then depth - 1 else depth;
      if m[i] == '(' { OpenIsClosed(m, i + 1, after); }
      SafeIsHarmless(m, i + 1, after);
    }
  }

  lemma {:induction false} FindsClose(m: string, p: nat, j: nat)
    requires p <= j < |m| && m[j] == ')' && forall k :: p <= k < |m| ==> m[k] != '\\'
    ensures RawUrlEnd(m, p) <= j
    decreases j - p
  {
    if m[p] != ')' { FindsClose(m, p + 1, j); }
  }

  lemma {:induction false} SkipSpaceStops(m: string, p: nat, j: nat)
    requires p <= j < |m| && m[j] == ')'
    ensures SkipSpace(m, p) <= j
    decreases j - p
  {
    if IsSpace(m[p]) { SkipSpaceStops(m, p + 1, j); }
  }

  lemma HarmlessNext(m: string, pos: nat)
    requires Harmless(m) && pos < |m|
    ensures Next(m, pos).Some? && m[pos] != '{' && m[pos] != '}'
  {
    assert HarmlessAt(m, pos);
    if UrlTokenAt(m, pos) {
      assert HarmlessAt(m, pos + 3);
      var j :| pos + 3 < j < |m| && m[j] == ')';
      SkipSpaceStops(m, pos + 4, j);
      var p := SkipSpace(m, pos + 4);
      assert HarmlessAt(m, p);
      forall k | p <= k < |m| ensures m[k] != '\\' { assert HarmlessAt(m, k); }
      FindsClose(m, p, j);
    }
  }

  /** Scanning a harmless text ends exactly at its end, at the depth it began with. */
  lemma {:induction false} HarmlessWalk(m: string, pos: nat, depth: nat, floor: nat)
    requires Harmless(m) && pos <= |m|
    ensures WalkTo(m, pos, depth, floor, |m|) == Some(depth)
    decreases |m| - pos
  {
    hide Next, Harmless;
    if pos < |m| {
      HarmlessNext(m, pos);
      HarmlessWalk(m, Next(m, pos).value, depth, floor);
    }
  }

  lemma PreludeIsHarmless(scope: string)
    requires SafeFrom(scope, 0, 0)
    ensures Harmless("media " + scope)
  {
    var m := "media " + scope;
    SafeIsHarmless(scope, 0, 0);
    forall i | 0 <= i < |m| ensures HarmlessAt(m, i) {
      if i >= 6 {
        assert HarmlessAt(scope, i - 6);
        assert m[i] == scope[i - 6];
        if m[i] == '(' {
          var j :| i - 6 < j < |scope| && scope[j] == ')';
          assert m[j + 6] == ')';
        }
      }
    }
  }

  // ---- the wrapper -----------------------------------------------------------------------

  lemma {:induction false} WalkOn(s: string, pos: nat, depth: nat, floor: nat, mid: nat, stop: nat)
    requires mid <= stop <= |s| && WalkTo(s, pos, depth, floor, mid).Some?
    ensures WalkTo(s, pos, depth, floor, stop) == WalkTo(s, mid, WalkTo(s, pos, depth, floor, mid).value, floor, stop)
    decreases |s| - pos
  {
    hide Next;
    if pos < mid {
      var n := Next(s, pos).value;
      WalkOn(s, n, if s[pos] == '{' then depth + 1 else if s[pos] == '}' then depth - 1 else depth, floor, mid, stop);
    }
  }

  /** A walk may be lifted by one level, floor and all, and its floor may be lowered. */
  lemma {:induction false} WalkDeeper(s: string, pos: nat, depth: nat, floor: nat, stop: nat)
    requires stop <= |s| && WalkTo(s, pos, depth, floor, stop).Some?
    ensures WalkTo(s, pos, depth + 1, floor + 1, stop) == Some(WalkTo(s, pos, depth, floor, stop).value + 1)
    ensures WalkTo(s, pos, depth + 1, floor, stop) == Some(WalkTo(s, pos, depth, floor, stop).value + 1)
    decreases |s| - pos
  {
    hide Next;
    if pos < stop {
      var n := Next(s, pos).value;
      WalkDeeper(s, n, if s[pos] == '{' then depth + 1 else if s[pos] == '}' then depth - 1 else depth, floor, stop);
    }
  }

  lemma BreakIsOneToken(s: string, pos: nat)
    requires pos < |s| && Breaks(s[pos])
    ensures Next(s, pos) == Some(pos + 1)
  {}

  /** Inside "media <scope>{<css>}": the '{' is met at `floor`'s level and only the last '}' closes it. */
  lemma WrapperBody(scope: string, css: string, floor: nat)
    requires SafeFrom(scope, 0, 0) && Balanced(css) && floor <= 1
    ensures var m, b := "media " + scope, "media " + scope + "{" + css + "}";
            && WalkTo(b, 0, 0, 0, |m|) == Some(0)
            && WalkTo(b, |m| + 1, 1, floor, |b| - 1) == Some(1)
  {
    hide Next, WalkTo, Harmless, SafeFrom;
    var m := "media " + scope;
    var b := m + "{" + css + "}";
    PreludeIsHarmless(scope);
    HarmlessWalk(m, 0, 0, 0);
    assert b == m + ("{" + css + "}");
    WalkBefore(m, "{" + css + "}", 0, 0, 0);
    WalkDeeper(css, 0, 0, 0, |css|);
    WalkBefore(css, "}", 0, 1, floor);
    assert b == (m + "{") + (css + "}");
    WalkAfter(m + "{", css + "}", 0, 1, floor, |css|);
  }

  /**
   A wrapper around a balanced sheet.  The scan meets the wrapper's '{' at depth 0;
   from there to the last character the depth never falls below 1, so only that
   last '}' closes the wrapper.
   */
  lemma SafeWrapper(out: string, scope: string, css: string)
    requires Balanced(out) && Balanced(css) && SafeFrom(scope, 0, 0)
    ensures var r := out + "@media " + scope + "{" + css + "}";
            var open, close := |out + "@media " + scope|, |r| - 1;
            && Balanced(r)
            && r[open] == '{' && r[close] == '}'
            && WalkTo(r, 0, 0, 0, open) == Some(0)
            && WalkTo(r, open + 1, 1, 1, close) == Some(1)
  {
    hide Next, WalkTo, SafeFrom;
    var m := "media " + scope;
    var b := m + "{" + css + "}";
    var a := out + "@";
    var r := out + "@media " + scope + "{" + css + "}";
    var open, close := |out + "@media " + scope|, |r| - 1;
    assert r == a + b == out + ("@" + b);
    WalkBefore(out, "@" + b, 0, 0, 0);
    WrapperBody(scope, css, 0);
    WrapperBody(scope, css, 1);
    WalkAfter(a, b, 0, 0, 0, |m|);
    WalkAfter(a, b, |m| + 1, 1, 1, |b| - 1);
    WalkAfter(a, b, |m| + 1, 1, 0, |b| - 1);
    assert open == |a| + |m|;
    StepAt(r, |out|, 0, open);
    WalkOn(r, 0, 0, 0, |out|, open);
    WalkOn(r, 0, 0, 0, open, |r|);
    StepOpen(r, open, 0, |r|);
    WalkOn(r, open + 1, 1, 0, close, |r|);
    StepClose(r, close, 1, |r|);
  }

  /** Safe embedding: appending a balanced sheet under a non-empty scope keeps `out` balanced and the sheet inside. */
  lemma SafeEmbedding(out: string, media: string, css: string)
    requires Balanced(out) && Balanced(css)
    requires CombinedSheetMediaScope(media).Some? && CombinedSheetMediaScope(media).value != ""
    ensures var scope := CombinedSheetMediaScope(media).value;
            var r := out + "@media " + scope + "{" + css + "}";
            var open, close := |out + "@media " + scope|, |r| - 1;
            && Balanced(r)
            && r[open] == '{' && r[close] == '}'
            && WalkTo(r, 0, 0, 0, open) == Some(0)
            && WalkTo(r, open + 1, 1, 1, close) == Some(1)
  {
    hide Balanced, WalkTo, SafeFrom;
    SafeWrapper(out, CombinedSheetMediaScope(media).value, css);
  }

  // ---- newlines around a sheet ---------------------------------------------------------------

  lemma NewlineIsOneToken(s: string, pos: nat)
    requires pos < |s| && s[pos] == '\n'
    ensures Next(s, pos) == Some(pos + 1)
  {}

  lemma NewlineBefore(css: string)
    requires Balanced(css)
    ensures Balanced(css + "\n")
  {
    hide Next;
    WalkBefore(css, "\n", 0, 0, 0);
    WalkOn(css + "\n", 0, 0, 0, |css|, |css| + 1);
    NewlineIsOneToken(css + "\n", |css|);
  }

  lemma NewlineAfter(css: string)
    requires Balanced(css + "\n")
    ensures Balanced("\n" + (css + "\n"))
  {
    hide Next;
    WalkAfter("\n", css + "\n", 0, 0, 0, |css| + 1);
    NewlineIsOneToken("\n" + (css + "\n"), 0);
  }

  /** A newline at the end changes nothing about the scan of a balanced text up to a point. */
  lemma NewlineKept(r: string, open: nat, close: nat)
    requires Balanced(r) && open < close < |r|
    requires WalkTo(r, 0, 0, 0, open) == Some(0) && r[open] == '{' && WalkTo(r, open + 1, 1, 1, close) == Some(1)
    ensures Balanced(r + "\n")
    ensures WalkTo(r + "\n", 0, 0, 0, open) == Some(0) && WalkTo(r + "\n", open + 1, 1, 1, close) == Some(1)
  {
    hide Next;
    NewlineBefore(r);
    WalkToBefore(r, "\n", 0, 0, 0, open);
    WalkToBefore(r, "\n", open + 1, 1, 1, close);
  }

  /** A walk that stops inside `a` is the same walk in `a + b`. */
  lemma {:induction false} WalkToBefore(a: string, b: string, pos: nat, depth: nat, floor: nat, stop: nat)
    requires pos <= |a| && stop <= |a| && Seam(a, b) && WalkTo(a, pos, depth, floor, stop).Some?
    ensures WalkTo(a + b, pos, depth, floor, stop) == WalkTo(a, pos, depth, floor, stop)
    decreases |a| - pos
  {
    hide Next;
    if pos < stop {
      NextBefore(a, b, pos);
      var n := Next(a, pos).value;
      var inner := if a[pos] == '{' then depth + 1 else if a[pos] == '}' then depth - 1 else depth;
      WalkToBefore(a, b, n, inner, floor, stop);
    }
  }

  lemma {:induction false} SpaceStaysSafe(m: string, i: nat, depth: nat)
    requires i <= |m| && SafeFrom(m, i, depth)
    ensures SafeFrom(m + " ", i, depth)
    decreases |m| - i
  {
    if i < |m| {
      SpaceStaysSafe(m, i + 1, if m[i] == '(' then depth + 1 else if m[i] == ')' then depth - 1 else depth);
    }
  }

  lemma StepAt(s: string, pos: nat, depth: nat, stop: nat)
    requires pos < stop <= |s| && s[pos] == '@'
    ensures WalkTo(s, pos, depth, 0, stop) == WalkTo(s, pos + 1, depth, 0, stop)
  {
    hide Next;
    BreakIsOneToken(s, pos);
  }

  lemma StepOpen(s: string, pos: nat, depth: nat, stop: nat)
    requires pos < stop <= |s| && s[pos] == '{'
    ensures WalkTo(s, pos, depth, 0, stop) == WalkTo(s, pos + 1, depth + 1, 0, stop)
  {
    hide Next;
    BreakIsOneToken(s, pos);
  }

  lemma StepClose(s: string, pos: nat, depth: nat, stop: nat)
    requires pos + 1 == stop <= |s| && s[pos] == '}' && depth > 0
    ensures WalkTo(s, pos, depth, 0, stop) == Some(depth - 1)
  {
    hide Next;
    BreakIsOneToken(s, pos);
  }
}
