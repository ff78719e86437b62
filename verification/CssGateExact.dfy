/**
 The condition for a longhand value to join a shorthand, in full: it is a value of
 its class, with numbers that end in a dot among them, and does not start with '+'.
 The checks for nesting, hazards and ends refuse nothing else.
 */
module CssGateExact {
  import opened Ascii
  import opened CssChars
  import opened CssKeywords
  import opened CssValues
  import opened CssValueGrammar

  predicate IsLetter(c: char) {
    'a' <= c <= 'z' || 'A' <= c <= 'Z'
  }

  /** A character of a number, a unit, a keyword or a hexadecimal colour. */
  predicate Tame(c: char) {
    IsLetter(c) || '0' <= c <= '9' || c == '.' || c == '%' || c == '#' || c == '+' || c == '-'
  }

  predicate AllTame(v: string) {
    forall k :: 0 <= k < |v| ==> Tame(v[k])
  }

  /** A colour function: its name, which does not end in "url" or "var", and digits and separators in parentheses. */
  predicate TameCall(v: string, open: nat) {
    && 3 <= open < |v| - 1 && v[open] == '(' && v[|v| - 1] == ')'
    && (forall k :: 0 <= k < open ==> IsLetter(v[k]))
    && LowerChar(v[open - 3]) != 'u' && LowerChar(v[open - 3]) != 'v'
    && (forall k :: open < k < |v| - 1 ==> IsColorChar(v[k]))
  }

  // ---- what the other checks say of such text -----------------------------------------------------

  lemma {:induction false} TameIsBalanced(v: string, i: nat)
    requires i <= |v| && AllTame(v)
    ensures BalancedFrom(v, i, 0, 0)
    decreases |v| - i
  {
    if i < |v| {
      assert !UrlAt(v, i) by { NoUrlIn(v, i); }
      TameIsBalanced(v, i + 1);
    }
  }

  lemma NoUrlIn(v: string, i: nat)
    requires i < |v| && AllTame(v)
    ensures !UrlAt(v, i)
  {}

  lemma {:induction false} CallIsBalanced(v: string, open: nat, i: nat)
    requires TameCall(v, open) && i <= |v|
    ensures BalancedFrom(v, i, if open < i < |v| then 1 else 0, 0)
    decreases |v| - i
  {
    if i < |v| {
      assert !UrlAt(v, i) by { NoUrlInCall(v, open, i); }
      CallIsBalanced(v, open, i + 1);
    }
  }

  lemma NoUrlInCall(v: string, open: nat, i: nat)
    requires i < |v| && TameCall(v, open)
    ensures !UrlAt(v, i)
  {
    if i + 3 < |v| && v[i + 3] == '(' {
      assert i + 3 == open;
    }
  }

  /** The keywords every property accepts. */
  predicate Wide(v: string) {
    v in {"inherit", "initial", "unset", "revert", "revert-layer"}
  }

  lemma NoVarIn(v: string, open: nat)
    requires AllTame(v) || TameCall(v, open)
    ensures !Contains(v, "var(") && !Contains(v, "!important")
  {
    forall i | 0 <= i <= |v| ensures !OccursAt(v, "var(", i) && !OccursAt(v, "!important", i) {
      SeenAt(v, "var(", 0, i);
      SeenAt(v, "var(", 3, i);
      SeenAt(v, "!important", 0, i);
    }
  }

  lemma SeenAt(v: string, part: string, k: nat, i: nat)
    requires k < |part|
    ensures OccursAt(v, part, i) ==> i + k < |v| && v[i + k] == part[k]
  {
    assert OccursAt(v, part, i) ==> v[i..i + |part|][k] == part[k];
  }

  // ---- legal values are such text --------------------------------------------------------------------

  lemma NumberIsTame(t: string, negative: bool)
    requires Signed(t, negative, true)
    ensures t != "" && AllTame(t) && !IsLetter(t[0]) && t[|t| - 1] != '+'
  {
    var x := if Unsigned(t, true) then t else t[1..];
    UnsignedIsTame(x);
    assert x != t ==> forall k :: 1 <= k < |t| ==> t[k] == x[k - 1];
  }

  lemma UnsignedIsTame(t: string)
    requires Unsigned(t, true)
    ensures t != "" && forall k :: 0 <= k < |t| ==> '0' <= t[k] <= '9' || t[k] == '.'
  {
    if k: nat :| DotAt(t, k) {
      forall m | 0 <= m < |t| ensures '0' <= t[m] <= '9' || t[m] == '.' {
        if m < k { assert t[m] == t[..k][m]; } else if m > k { assert t[m] == t[k + 1..][m - k - 1]; }
      }
    } else if Dotted(t) {
      assert forall m :: 0 <= m < |t| - 1 ==> t[m] == t[..|t| - 1][m];
    }
  }

  lemma WordIsTame(v: string, w: string)
    requires Spells(v, w) && Letters(w)
    ensures forall k :: 0 <= k < |v| ==> IsLetter(v[k])
  {
    forall k | 0 <= k < |v| ensures IsLetter(v[k]) { assert LowerChar(v[k]) == w[k]; }
  }

  lemma UnitIsTame(u: string)
    requires u == "" || u == "%" || exists w :: UnitName(w) && Spells(u, w)
    ensures AllTame(u) && (u != "" ==> u[|u| - 1] != '+')
  {
    hide UnitName, Spells, Letters;
    if w :| UnitName(w) && Spells(u, w) {
      UnitsAre(w);
      LengthUnitsLetters();
      WordIsTame(u, w);
    }
  }

  lemma TameBoth(t: string, u: string)
    requires t != "" && AllTame(t) && AllTame(u) && t[|t| - 1] != '+' && (u != "" ==> u[|u| - 1] != '+')
    ensures var v := t + u; AllTame(v) && v[0] == t[0] && v[|v| - 1] != '+'
  {}

  lemma LengthIsTame(v: string, percent: bool, negative: bool)
    requires IsLength(v, percent, negative, true)
    ensures v != "" && AllTame(v) && !IsLetter(v[0]) && v[|v| - 1] != '+'
  {
    hide UnitName, Signed, Spells, AllTame;
    var n: nat :| LengthAt(v, n, percent, negative, true);
    NumberIsTame(v[..n], negative);
    UnitIsTame(v[n..]);
    TameBoth(v[..n], v[n..]);
    assert v == v[..n] + v[n..];
  }

  lemma {:induction false} KeywordIsTame(v: string, words: set<string>)
    requires AllLetters(words) && exists w :: w in words && Spells(v, w)
    ensures AllTame(v) && (v != "" ==> v[|v| - 1] != '+')
  {
    hide Letters, Spells;
    var w :| w in words && Spells(v, w);
    WordIsTame(v, w);
  }

  lemma CallIsTame(v: string, name: string, hsl: bool, parts: seq<Part>)
    requires name in {"rgba", "rgb", "hsla", "hsl"} && ColorCall(v, name, hsl, true, parts)
    ensures TameCall(v, |name|)
  {
    hide IsColorArguments, ColorCall, StartsCI;
    CallIsAdmitted(v, name, hsl, parts);
    assert LowerChar(v[|name| - 3]) == name[|name| - 3];
    forall k | 0 <= k < |name| ensures IsLetter(v[k]) { assert LowerChar(v[k]) == name[k]; }
    forall k | |name| < k < |v| - 1 ensures IsColorChar(v[k]) {
      assert IsColorChar(v[|name| + 1..|v| - 1][k - |name| - 1]);
    }
  }

  /** A legal value is tame text or a call of tame text, and none of the keywords every property accepts. */
  ghost predicate Shaped(v: string) {
    v != "" && !Wide(v) && ((AllTame(v) && v[|v| - 1] != '+') || exists open :: TameCall(v, open))
  }

  lemma CallIsShaped(v: string, open: nat)
    requires TameCall(v, open)
    ensures Shaped(v)
  {
    assert v[open] == '(';
  }

  lemma SignIsNotWide(v: string)
    requires v != "" && !IsLetter(v[0])
    ensures !Wide(v)
  {}

  lemma ApartIsNotWide(v: string, w: string)
    requires Spells(v, w) && Apart(w)
    ensures v != "" && !Wide(v)
  {
    assert LowerChar(v[0]) == w[0];
  }

  lemma ListedIsShaped(v: string, words: set<string>)
    requires AllLetters(words) && AllApart(words) && exists w :: w in words && Spells(v, w)
    ensures Shaped(v)
  {
    hide Wide, Letters, Spells, Apart;
    var w :| w in words && Spells(v, w);
    KeywordIsTame(v, words);
    ApartIsNotWide(v, w);
  }

  lemma LengthIsShaped(v: string, percent: bool, negative: bool)
    requires IsLength(v, percent, negative, true)
    ensures Shaped(v)
  {
    hide IsLength, Wide;
    LengthIsTame(v, percent, negative);
    SignIsNotWide(v);
  }

  lemma ColorIsShaped(v: string)
    requires Legal(v, Color, true)
    ensures Shaped(v)
  {
    hide FunctionColor, COLORS, Spells, Wide;
    if HexColor(v) {
      SignIsNotWide(v);
    } else if FunctionColor(v, true) {
      FunctionIsShaped(v);
    } else {
      ColorsLetters();
      ColorsApart();
      ListedIsShaped(v, COLORS);
    }
  }

  lemma FunctionIsShaped(v: string)
    requires FunctionColor(v, true)
    ensures Shaped(v)
  {
    hide ColorCall, TameCall, Shaped;
    if parts :| ColorCall(v, "rgb", false, true, parts) {
      CallIsTame(v, "rgb", false, parts);
      CallIsShaped(v, 3);
    } else if parts :| ColorCall(v, "rgba", false, true, parts) {
      CallIsTame(v, "rgba", false, parts);
      CallIsShaped(v, 4);
    } else if parts :| ColorCall(v, "hsl", true, true, parts) {
      CallIsTame(v, "hsl", true, parts);
      CallIsShaped(v, 3);
    } else {
      var parts :| ColorCall(v, "hsla", true, true, parts);
      CallIsTame(v, "hsla", true, parts);
      CallIsShaped(v, 4);
    }
  }

  lemma LegalIsShaped(v: string, cls: ValueClass)
    requires Legal(v, cls, true)
    ensures Shaped(v)
  {
    hide IsLength, InSetCI, FunctionColor, COLORS, LineWidthName, LineStyleName, OverflowName, LINE_WIDTHS, LINE_STYLES,
      OVERFLOWS, Spells, Shaped;
    LineWidthsLetters();
    LineStylesLetters();
    OverflowsLetters();
    LineWidthsApart();
    LineStylesApart();
    OverflowsApart();
    match cls
    case Length => LengthIsShaped(v, true, false);
    case LengthAuto =>
      if Spells(v, "auto") { AutoIsShaped(v); } else { LengthIsShaped(v, true, true); }
    case LineWidth =>
      if w :| LineWidthName(w) && Spells(v, w) {
        LineWidthsAre(w);
        ListedIsShaped(v, LINE_WIDTHS);
      } else {
        LengthIsShaped(v, false, false);
      }
    case LineStyle =>
      var w :| LineStyleName(w) && Spells(v, w);
      LineStylesAre(w);
      ListedIsShaped(v, LINE_STYLES);
    case Color => ColorIsShaped(v);
    case Overflow =>
      var w :| OverflowName(w) && Spells(v, w);
      OverflowsAre(w);
      ListedIsShaped(v, OVERFLOWS);
  }

  lemma AutoIsShaped(v: string)
    requires Spells(v, "auto")
    ensures Shaped(v)
  {
    WordIsTame(v, "auto");
    assert LowerChar(v[0]) == 'a';
  }

  /** A character that no check on the ends of a value refuses. */
  predicate GoodEnd(c: char) {
    && !CanRemoveSpaceBefore(c) && !CanRemoveSpaceAfter(c) && c != '!' && c != '*' && c != '/' && !IsCssWhitespace(c)
  }

  lemma TameEnds(c: char)
    requires (Tame(c) && c != '+') || c == ')'
    ensures GoodEnd(c)
  {}

  /** The checks besides the value class pass for every shaped value that does not start with '+'. */
  lemma ShapedPasses(v: string)
    requires Shaped(v) && v[0] != '+'
    ensures BalancedFrom(v, 0, 0, 0) && !HasUnsafeValue(v) && GoodEnd(v[0]) && GoodEnd(v[|v| - 1])
  {
    hide BalancedFrom, Contains, GoodEnd;
    if AllTame(v) && v[|v| - 1] != '+' {
      TameIsBalanced(v, 0);
      NoVarIn(v, 0);
    } else {
      var open: nat :| TameCall(v, open);
      CallIsBalanced(v, open, 0);
      NoVarIn(v, open);
      assert IsLetter(v[0]);
    }
    TameEnds(v[0]);
    TameEnds(v[|v| - 1]);
  }

  /** A value may join a shorthand exactly when it is one of its class and does not start with '+'. */
  lemma CollapsibleIff(v: string, cls: ValueClass)
    ensures Collapsible(v, cls) <==> v != "" && v[0] != '+' && Legal(v, cls, true)
  {
    hide BalancedFrom, HasUnsafeValue, IsFamilyLegalValue, Legal, Shaped;
    if v != "" && v[0] != '+' && Legal(v, cls, true) {
      LegalIsShaped(v, cls);
      ShapedPasses(v);
      GateIsGrammar(v, cls);
    }
    if Collapsible(v, cls) {
      GateIsGrammar(v, cls);
    }
  }
}
