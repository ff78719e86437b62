/**
 The value gate of the shorthand collapse: which longhand values may be moved
 into a shorthand.  A value the gate admits is an `Atom`: text that cannot be
 read as more than one component, nor open or close anything around it.
 */
module CssValues {
  import opened Ascii
  import opened CssChars
  import opened CssKeywords

  datatype ValueClass = Length | LengthAuto | LineWidth | LineStyle | Color | Overflow

  predicate EqualsCI(a: string, b: string) {
    |a| == |b| && forall i :: 0 <= i < |a| ==> CiMatch(a[i], b[i])
  }

  predicate InSetCI(v: string, words: set<string>) {
    exists w :: w in words && EqualsCI(v, w)
  }

  function DigitsEnd(v: string, i: nat): (j: nat)
    requires i <= |v|
    ensures i <= j <= |v|
    ensures forall k :: i <= k < j ==> IsDigit(v[k])
    decreases |v| - i
  {
    if i < |v| && IsDigit(v[i]) then DigitsEnd(v, i + 1) else i
  }

  /** Length of the CSS number `v` starts with, 0 when it starts with none. */
  function NumberLength(v: string): (n: nat)
    ensures n <= |v|
    ensures forall k :: 0 <= k < n ==> IsDigit(v[k]) || v[k] == '.' || v[k] == '+' || v[k] == '-'
  {
    var sign := if |v| > 0 && (v[0] == '+' || v[0] == '-') then 1 else 0;
    var whole := DigitsEnd(v, sign);
    var end := if whole < |v| && v[whole] == '.' then DigitsEnd(v, whole + 1) else whole;
    var digits := if whole < end then end - sign - 1 else whole - sign;
    if digits == 0 then 0 else end
  }

  predicate IsLengthValue(v: string, allowPercent: bool, allowNegative: bool) {
    var n := NumberLength(v);
    var unit := v[n..];
    && n > 0
    && (v[0] == '-' ==> allowNegative)
    && (if unit == "" then forall k :: 0 <= k < n && IsDigit(v[k]) ==> v[k] == '0'
        else if unit == "%" then allowPercent
        else InSetCI(unit, LENGTH_UNITS))
  }

  predicate IsHexColorValue(v: string) {
    && |v| in {4, 5, 7, 9} && v[0] == '#'
    && forall i :: 1 <= i < |v| ==> IsHexDigit(v[i])
  }

  // ---- rgb(), rgba(), hsl(), hsla() ------------------------------------------

  function SplitCommas(s: string): (parts: seq<string>)
    ensures |parts| > 0
  {
    if s == "" then [""]
    else
      var rest := SplitCommas(s[1..]);
      if s[0] == ',' then [""] + rest else [[s[0]] + rest[0]] + rest[1..]
  }

  function TrimSpaces(s: string): string {
    if s != "" && s[0] == ' ' then TrimSpaces(s[1..])
    else if s != "" && s[|s| - 1] == ' ' then TrimSpaces(s[..|s| - 1])
    else s
  }

  predicate IsPlainNumber(s: string) {
    && (exists i :: 0 <= i < |s| && IsDigit(s[i]))
    && (forall i :: 0 <= i < |s| ==> IsDigit(s[i]) || s[i] == '.')
    && (forall i, j :: 0 <= i < j < |s| ==> s[i] != '.' || s[j] != '.')
  }

  predicate EndsInPercent(s: string) {
    s != "" && s[|s| - 1] == '%'
  }

  predicate IsColorComponent(s: string) {
    var t := TrimSpaces(s);
    IsPlainNumber(if EndsInPercent(t) then t[..|t| - 1] else t)
  }

  predicate IsColorArguments(inner: string, hsl: bool) {
    var parts := SplitCommas(inner);
    && (|parts| == 3 || |parts| == 4)
    && (forall k :: 0 <= k < |parts| ==> IsColorComponent(parts[k]))
    && var percent := seq(|parts|, k requires 0 <= k < |parts| => EndsInPercent(TrimSpaces(parts[k])));
    if hsl then !percent[0] && percent[1] && percent[2]
    else percent[0] == percent[1] == percent[2]
  }

  predicate IsColorChar(c: char) {
    IsDigit(c) || c == ',' || c == '.' || c == '%' || c == ' '
  }

  /** `v` is `fn`, in any letter case, then arguments, then a closing parenthesis. */
  predicate IsColorCall(v: string, fn: string, hsl: bool)
    requires |fn| > 0
  {
    && |v| > |fn| && v[|v| - 1] == ')'
    && var inner := v[|fn|..|v| - 1];
    && (forall i :: 0 <= i < |inner| ==> IsColorChar(inner[i]))
    && IsColorArguments(inner, hsl)
  }

  predicate StartsCI(v: string, fn: string) {
    |v| > |fn| && EqualsCI(v[..|fn|], fn)
  }

  predicate IsFunctionalColorValue(v: string) {
    if StartsCI(v, "rgba(") then IsColorCall(v, "rgba(", false)
    else if StartsCI(v, "rgb(") then IsColorCall(v, "rgb(", false)
    else if StartsCI(v, "hsla(") then IsColorCall(v, "hsla(", true)
    else StartsCI(v, "hsl(") && IsColorCall(v, "hsl(", true)
  }

  predicate IsFamilyLegalValue(v: string, cls: ValueClass) {
    match cls
    case Length => IsLengthValue(v, true, false)
    case LengthAuto => EqualsCI(v, "auto") || IsLengthValue(v, true, true)
    case LineWidth => InSetCI(v, LINE_WIDTHS) || IsLengthValue(v, false, false)
    case LineStyle => InSetCI(v, LINE_STYLES)
    case Color => IsHexColorValue(v) || InSetCI(v, COLORS) || IsFunctionalColorValue(v)
    case Overflow => InSetCI(v, OVERFLOWS)
  }

  // ---- hazards -----------------------------------------------------------------

  predicate HasUnsafeValue(v: string) {
    Contains(v, "var(") || Contains(v, "!important") || v in {"inherit", "initial", "unset", "revert", "revert-layer"}
  }

  predicate CanRemoveSpaceBefore(c: char) {
    c == '{' || c == '}' || c == ';' || c == ',' || c == '>' || c == '+' || c == '~'
  }

  predicate CanRemoveSpaceAfter(c: char) {
    CanRemoveSpaceBefore(c) || c == ':'
  }

  /** From `i` on, parentheses and brackets each balance against these depths; braces never occur. */
  predicate BalancedFrom(v: string, i: nat, parens: nat, brackets: nat)
    requires i <= |v|
    decreases |v| - i
  {
    if i == |v| then parens == 0 && brackets == 0
    else
      var c := v[i];
      if c == '\\' && i + 1 < |v| then BalancedFrom(v, i + 2, parens, brackets)
      else if IsQuote(c) then BalancedFrom(v, CloseEnd(v, i + 1, c), parens, brackets)
      else if UrlAt(v, i) then BalancedFrom(v, CloseEnd(v, i + 4, ')'), parens, brackets)
      else if c == '{' || c == '}' then false
      else if c == '(' then BalancedFrom(v, i + 1, parens + 1, brackets)
      else if c == ')' then parens > 0 && BalancedFrom(v, i + 1, parens - 1, brackets)
      else if c == '[' then BalancedFrom(v, i + 1, parens, brackets + 1)
      else if c == ']' then brackets > 0 && BalancedFrom(v, i + 1, parens, brackets - 1)
      else BalancedFrom(v, i + 1, parens, brackets)
  }

  /** All the conditions under which a longhand value may join a shorthand. */
  predicate Collapsible(v: string, cls: ValueClass) {
    && v != ""
    && !HasUnsafeValue(v)
    && var first, last := v[0], v[|v| - 1];
    && !CanRemoveSpaceAfter(last) && !CanRemoveSpaceBefore(first) && first != '!'
    && !IsCssWhitespace(first) && !IsCssWhitespace(last)
    && BalancedFrom(v, 0, 0, 0)
    && first != '*' && first != '/' && last != '*' && last != '/'
    && IsFamilyLegalValue(v, cls)
  }

  // ---- admitted values are atoms -------------------------------------------------

  /** A character no CSS scanner gives a structural meaning to. */
  ghost predicate Inert(c: char) {
    && c != '\'' && c != '"' && c != '\\' && c != ';' && c != ':'
    && c != '(' && c != ')' && c != '[' && c != ']' && c != '{' && c != '}'
  }

  ghost predicate Plain(v: string) {
    forall i :: 0 <= i < |v| ==> Inert(v[i]) && v[i] != ' '
  }

  /** One function call: a plain name that is not "url", then inert arguments. */
  ghost predicate IsCall(v: string, open: nat) {
    && 3 <= open < |v| - 1
    && Plain(v[..open]) && v[open] == '(' && !CiMatch(v[open - 2], 'r')
    && v[|v| - 1] == ')'
    && forall i :: open < i < |v| - 1 ==> Inert(v[i])
  }

  ghost predicate Atom(v: string) {
    v != "" && (Plain(v) || exists open :: IsCall(v, open))
  }

  lemma WordIsPlain(v: string, w: string)
    requires EqualsCI(v, w) && Letters(w)
    ensures Plain(v)
  {}

  lemma KeywordIsPlain(v: string, words: set<string>)
    requires InSetCI(v, words) && AllLetters(words)
    ensures Plain(v)
  {
    var w :| w in words && EqualsCI(v, w);
    WordIsPlain(v, w);
  }

  lemma LengthIsPlain(v: string, allowPercent: bool, allowNegative: bool)
    requires IsLengthValue(v, allowPercent, allowNegative)
    ensures Plain(v)
  {
    hide NumberLength, LENGTH_UNITS;
    var n := NumberLength(v);
    var unit := v[n..];
    assert Plain(unit) by {
      if unit != "" && unit != "%" {
        LengthUnitsLetters();
        KeywordIsPlain(unit, LENGTH_UNITS);
      }
    }
    assert v == v[..n] + unit;
  }

  /** A stray closing parenthesis after inert text is never balanced. */
  lemma {:induction false} InertThenClose(v: string, i: nat)
    requires i < |v| && v[|v| - 1] == ')' && forall k :: i <= k < |v| - 1 ==> Inert(v[k])
    ensures !BalancedFrom(v, i, 0, 0)
    decreases |v| - i
  {
    if i < |v| - 1 {
      InertThenClose(v, i + 1);
    }
  }

  lemma ArgumentsAreInert(v: string, fn: string, hsl: bool)
    requires |fn| > 0 && IsColorCall(v, fn, hsl)
    ensures forall i :: |fn| <= i < |v| - 1 ==> Inert(v[i])
  {
    hide IsColorArguments;
    forall i | |fn| <= i < |v| - 1 ensures Inert(v[i]) {
      assert IsColorChar(v[|fn|..|v| - 1][i - |fn|]);
    }
  }

  lemma StartMatches(v: string, fn: string)
    requires StartsCI(v, fn)
    ensures forall i :: 0 <= i < |fn| ==> CiMatch(v[i], fn[i])
  {
    forall i | 0 <= i < |fn| ensures CiMatch(v[i], fn[i]) {
      assert v[..|fn|][i] == v[i];
    }
  }

  /** Balance is what tells the '(' of a colour function from the control byte that also matches it. */
  lemma CallOpens(v: string, fn: string, hsl: bool)
    requires fn in {"rgba(", "rgb(", "hsla(", "hsl("}
    requires StartsCI(v, fn) && IsColorCall(v, fn, hsl) && BalancedFrom(v, 0, 0, 0)
    ensures v[|fn| - 1] == '(' && (forall i :: 0 <= i < |fn| ==> CiMatch(v[i], fn[i]))
    ensures forall i :: |fn| <= i < |v| - 1 ==> Inert(v[i])
  {
    hide IsColorArguments, BalancedFrom, StartsCI;
    ArgumentsAreInert(v, fn, hsl);
    StartMatches(v, fn);
    if v[|fn| - 1] != '(' {
      InertThenClose(v, 0);
    }
  }

  lemma ColorCallIsAtom(v: string, fn: string, hsl: bool)
    requires fn in {"rgba(", "rgb(", "hsla(", "hsl("}
    requires StartsCI(v, fn) && IsColorCall(v, fn, hsl) && BalancedFrom(v, 0, 0, 0)
    ensures Atom(v)
  {
    hide IsColorArguments, BalancedFrom;
    CallOpens(v, fn, hsl);
    assert IsCall(v, |fn| - 1);
  }

  /** A value the gate admits is an atom. */
  lemma CollapsibleIsAtom(v: string, cls: ValueClass)
    requires Collapsible(v, cls)
    ensures Atom(v)
  {
    hide IsLengthValue, IsFunctionalColorValue, BalancedFrom, HasUnsafeValue, COLORS;
    match cls
    case Length => LengthIsPlain(v, true, false);
    case LengthAuto =>
      if EqualsCI(v, "auto") { WordIsPlain(v, "auto"); } else { LengthIsPlain(v, true, true); }
    case LineWidth =>
      if InSetCI(v, LINE_WIDTHS) {
        LineWidthsLetters();
        KeywordIsPlain(v, LINE_WIDTHS);
      } else {
        LengthIsPlain(v, false, false);
      }
    case LineStyle =>
      LineStylesLetters();
      KeywordIsPlain(v, LINE_STYLES);
    case Color =>
      ColorIsAtom(v);
    case Overflow =>
      OverflowsLetters();
      KeywordIsPlain(v, OVERFLOWS);
  }

  lemma ColorIsAtom(v: string)
    requires IsHexColorValue(v) || InSetCI(v, COLORS) || IsFunctionalColorValue(v)
    requires v != "" && BalancedFrom(v, 0, 0, 0)
    ensures Atom(v)
  {
    hide IsColorCall, BalancedFrom, COLORS;
    if IsHexColorValue(v) {
    } else if InSetCI(v, COLORS) {
      ColorsLetters();
      KeywordIsPlain(v, COLORS);
    } else if StartsCI(v, "rgba(") {
      ColorCallIsAtom(v, "rgba(", false);
    } else if StartsCI(v, "rgb(") {
      ColorCallIsAtom(v, "rgb(", false);
    } else if StartsCI(v, "hsla(") {
      ColorCallIsAtom(v, "hsla(", true);
    } else {
      ColorCallIsAtom(v, "hsl(", true);
    }
  }
}
