/**
 The value classes of the collapsed families as CSS writes them, character by
 character, and the value gate measured against them.  The gate admits a value
 exactly when it is one of these, or would be if CSS let a number end in a dot.
 */
module CssValueGrammar {
  import opened Ascii
  import opened CssChars
  import opened CssKeywords
  import opened CssValues

  // ---- numbers ------------------------------------------------------------------------------

  predicate Digits(d: string) {
    forall k :: 0 <= k < |d| ==> '0' <= d[k] <= '9'
  }

  /** A '.' with digits before it, if any, and digits after it: `k` is its position. */
  predicate DotAt(t: string, k: nat) {
    k < |t| - 1 && t[k] == '.' && Digits(t[..k]) && Digits(t[k + 1..])
  }

  /** A number without sign and exponent, as section 4.3.12 of CSS Syntax Level 3 reads it. */
  ghost predicate Decimal(t: string) {
    (t != "" && Digits(t)) || exists k :: DotAt(t, k)
  }

  /** What CSS does not read as a number: digits and a '.' at the end. */
  predicate Dotted(t: string) {
    |t| >= 2 && t[|t| - 1] == '.' && Digits(t[..|t| - 1])
  }

  /** A number; `dots` lets it end in a dot. */
  ghost predicate Unsigned(t: string, dots: bool) {
    Decimal(t) || (dots && Dotted(t))
  }

  ghost predicate Signed(t: string, negative: bool, dots: bool) {
    || Unsigned(t, dots)
    || (t != "" && (t[0] == '+' || (t[0] == '-' && negative)) && Unsigned(t[1..], dots))
  }

  // ---- units and keywords ---------------------------------------------------------------------

  /** `v` spells the lower-case word `w`, in any letter case. */
  predicate Spells(v: string, w: string) {
    |v| == |w| && forall k :: 0 <= k < |v| ==> LowerChar(v[k]) == w[k]
  }

  predicate FontUnit(w: string) {
    w in ["em", "ex", "ch", "ic", "lh", "cap"]
  }

  predicate ViewportUnit(w: string) {
    w in ["vw", "vh", "vi", "vb", "vmin", "vmax"]
  }

  /** The units of length of CSS Values Level 4 and, for "cq", of CSS Conditional Level 5. */
  predicate UnitName(w: string) {
    || w in ["cm", "mm", "q", "in", "pt", "pc", "px"]
    || FontUnit(w) || ("r" <= w && FontUnit(w[1..]))
    || ViewportUnit(w) || (("s" <= w || "l" <= w || "d" <= w) && ViewportUnit(w[1..]))
    || ("cq" <= w && w[2..] in ["w", "h", "i", "b", "min", "max"])
  }

  predicate LineWidthName(w: string) {
    w in ["thin", "medium", "thick"]
  }

  predicate LineStyleName(w: string) {
    w in ["none", "hidden", "dotted", "dashed", "solid", "double", "groove", "ridge", "inset", "outset"]
  }

  predicate OverflowName(w: string) {
    w in ["visible", "hidden", "clip", "scroll", "auto"]
  }

  /** A number and its unit, split at `n`: a length, a percentage, or a zero without unit. */
  ghost predicate LengthAt(v: string, n: nat, percent: bool, negative: bool, dots: bool) {
    && 0 < n <= |v| && Signed(v[..n], negative, dots)
    && (|| (n == |v| && forall k :: 0 <= k < n ==> !('1' <= v[k] <= '9'))
        || (v[n..] == "%" && percent)
        || (exists w :: UnitName(w) && Spells(v[n..], w)))
  }

  ghost predicate IsLength(v: string, percent: bool, negative: bool, dots: bool) {
    exists n :: LengthAt(v, n, percent, negative, dots)
  }

  // ---- colours --------------------------------------------------------------------------------

  /** '#' and three, four, six or eight hexadecimal digits. */
  predicate HexColor(v: string) {
    && v != "" && v[0] == '#' && (|v| == 4 || |v| == 5 || |v| == 7 || |v| == 9)
    && forall k :: 0 < k < |v| ==> '0' <= v[k] <= '9' || 'a' <= v[k] <= 'f' || 'A' <= v[k] <= 'F'
  }

  predicate Spaces(x: string) {
    forall k :: 0 <= k < |x| ==> x[k] == ' '
  }

  datatype Part = Part(before: string, number: string, percent: bool, after: string)
  {
    function Text(): string { before + Core() + after }
    function Core(): string { if percent then number + "%" else number }
    ghost predicate Fits(dots: bool) { Spaces(before) && Spaces(after) && Unsigned(number, dots) }
  }

  function Joined(words: seq<string>): string {
    if |words| == 0 then "" else if |words| == 1 then words[0] else words[0] + "," + Joined(words[1..])
  }

  function Texts(parts: seq<Part>): (words: seq<string>)
    ensures |words| == |parts| && forall k :: 0 <= k < |parts| ==> words[k] == parts[k].Text()
  {
    seq(|parts|, k requires 0 <= k < |parts| => parts[k].Text())
  }

  /** Three components, perhaps an alpha: rgb() has numbers or percentages alike, hsl() a hue and two percentages. */
  ghost predicate Arguments(parts: seq<Part>, hsl: bool, dots: bool) {
    && 3 <= |parts| <= 4 && (forall k :: 0 <= k < |parts| ==> parts[k].Fits(dots))
    && if hsl then !parts[0].percent && parts[1].percent && parts[2].percent
       else parts[0].percent == parts[1].percent == parts[2].percent
  }

  ghost predicate ColorCall(v: string, name: string, hsl: bool, dots: bool, parts: seq<Part>) {
    && |v| > |name| && Spells(v[..|name|], name)
    && v[|name|..] == "(" + Joined(Texts(parts)) + ")" && Arguments(parts, hsl, dots)
  }

  ghost predicate FunctionColor(v: string, dots: bool) {
    || (exists parts :: ColorCall(v, "rgb", false, dots, parts))
    || (exists parts :: ColorCall(v, "rgba", false, dots, parts))
    || (exists parts :: ColorCall(v, "hsl", true, dots, parts))
    || (exists parts :: ColorCall(v, "hsla", true, dots, parts))
  }

  /** The value is one of its class; `dots` lets numbers end in a dot, which CSS does not. */
  ghost predicate Legal(v: string, cls: ValueClass, dots: bool) {
    match cls
    case Length => IsLength(v, true, false, dots)
    case LengthAuto => Spells(v, "auto") || IsLength(v, true, true, dots)
    case LineWidth => (exists w :: LineWidthName(w) && Spells(v, w)) || IsLength(v, false, false, dots)
    case LineStyle => exists w :: LineStyleName(w) && Spells(v, w)
    case Color => HexColor(v) || (exists w :: w in COLORS && Spells(v, w)) || FunctionColor(v, dots)
    case Overflow => exists w :: OverflowName(w) && Spells(v, w)
  }

  // ---- keywords ---------------------------------------------------------------------------------

  lemma SpellsIff(v: string, w: string)
    requires Letters(w)
    ensures EqualsCI(v, w) <==> Spells(v, w)
  {}

  lemma {:induction false} KeywordIff(v: string, words: set<string>)
    requires AllLetters(words)
    ensures InSetCI(v, words) <==> exists w :: w in words && Spells(v, w)
  {
    if InSetCI(v, words) {
      var w :| w in words && EqualsCI(v, w);
      SpellsIff(v, w);
    }
    if w :| w in words && Spells(v, w) {
      SpellsIff(v, w);
    }
  }

  lemma LineWidthsAre(w: string) ensures w in LINE_WIDTHS <==> LineWidthName(w) {}
  lemma LineStylesAre(w: string) ensures w in LINE_STYLES <==> LineStyleName(w) {}
  lemma OverflowsAre(w: string) ensures w in OVERFLOWS <==> OverflowName(w) {}

  lemma Units0Are(w: string) requires w in UNITS_0 ensures UnitName(w) {}
  lemma Units1Are(w: string) requires w in UNITS_1 ensures UnitName(w) {}
  lemma Units2Are(w: string) requires w in UNITS_2 ensures UnitName(w) {}

  lemma UnitsAre(w: string)
    ensures w in LENGTH_UNITS <==> UnitName(w)
  {
    if w in UNITS_0 { Units0Are(w); }
    if w in UNITS_1 { Units1Are(w); }
    if w in UNITS_2 { Units2Are(w); }
    if UnitName(w) { UnitsListed(w); }
  }

  lemma FontUnits(u: string)
    requires FontUnit(u)
    ensures u in UNITS_0 && "r" + u in UNITS_0
  {
    assert "r" + "em" == "rem" && "r" + "ex" == "rex" && "r" + "ch" == "rch";
    assert "r" + "ic" == "ric" && "r" + "lh" == "rlh" && "r" + "cap" == "rcap";
  }

  lemma ViewportUnits(u: string)
    requires ViewportUnit(u)
    ensures u in UNITS_0 && "s" + u in UNITS_0 + UNITS_1
  {
    assert "s" + "vw" == "svw" && "s" + "vh" == "svh" && "s" + "vi" == "svi" && "s" + "vb" == "svb";
    assert "s" + "vmin" == "svmin" && "s" + "vmax" == "svmax";
  }

  lemma LargeUnits(u: string)
    requires ViewportUnit(u)
    ensures "l" + u in UNITS_1 && "d" + u in UNITS_1
  {
    assert "l" + "vw" == "lvw" && "l" + "vh" == "lvh" && "l" + "vi" == "lvi" && "l" + "vb" == "lvb";
    assert "l" + "vmin" == "lvmin" && "l" + "vmax" == "lvmax" && "d" + "vw" == "dvw" && "d" + "vh" == "dvh";
    assert "d" + "vi" == "dvi" && "d" + "vb" == "dvb" && "d" + "vmin" == "dvmin" && "d" + "vmax" == "dvmax";
  }

  lemma ContainerUnits(u: string)
    requires u in ["w", "h", "i", "b", "min", "max"]
    ensures "cq" + u in UNITS_1 + UNITS_2
  {
    assert "cq" + "w" == "cqw" && "cq" + "h" == "cqh" && "cq" + "i" == "cqi" && "cq" + "b" == "cqb";
    assert "cq" + "min" == "cqmin" && "cq" + "max" == "cqmax";
  }

  lemma AbsoluteUnits(w: string)
    requires w in ["cm", "mm", "q", "in", "pt", "pc", "px"]
    ensures w in UNITS_2
  {}

  lemma UnitsListed(w: string)
    requires UnitName(w)
    ensures w in LENGTH_UNITS
  {
    hide FontUnit, ViewportUnit, UNITS_0, UNITS_1, UNITS_2;
    assert w != "" ==> w == [w[0]] + w[1..];
    if w in ["cm", "mm", "q", "in", "pt", "pc", "px"] {
      AbsoluteUnits(w);
    } else if FontUnit(w) {
      FontUnits(w);
    } else if "r" <= w && FontUnit(w[1..]) {
      FontUnits(w[1..]);
    } else if ViewportUnit(w) {
      ViewportUnits(w);
    } else if "cq" <= w && w[2..] in ["w", "h", "i", "b", "min", "max"] {
      ContainerUnits(w[2..]);
      assert w == "cq" + w[2..];
    } else {
      ViewportUnits(w[1..]);
      LargeUnits(w[1..]);
    }
  }

  // ---- lengths ----------------------------------------------------------------------------------

  lemma {:induction false} DigitsTo(v: string, i: nat, j: nat)
    requires i <= j <= |v| && (forall k :: i <= k < j ==> IsDigit(v[k])) && (j < |v| ==> !IsDigit(v[j]))
    ensures DigitsEnd(v, i) == j
    decreases j - i
  {
    if i < j { DigitsTo(v, i + 1, j); }
  }

  /** Digits from `i` to `n`, perhaps with one '.' among them at `dot`. */
  ghost predicate NumberSpan(v: string, i: nat, n: nat, dot: nat) {
    && i <= dot <= n <= |v| && (forall k :: i <= k < n && k != dot ==> IsDigit(v[k]))
    && (if dot < n then v[dot] == '.' && n - i >= 2 else n > i)
  }

  lemma SpanIff(v: string, i: nat, n: nat)
    requires i <= n <= |v|
    ensures Unsigned(v[i..n], true) <==> exists dot :: NumberSpan(v, i, n, dot)
  {
    var t := v[i..n];
    assert forall k :: 0 <= k < |t| ==> t[k] == v[i + k];
    if t != "" && Digits(t) {
      assert forall k :: i <= k < n ==> v[k] == t[k - i];
      assert NumberSpan(v, i, n, n);
    }
    if k :| DotAt(t, k) { SpanOfDot(v, i, n, k); }
    if Dotted(t) {
      var k := n - 1 - i;
      assert t[k + 1..] == "";
      forall m | i <= m < n && m != n - 1 ensures IsDigit(v[m]) {
        assert t[..k][m - i] == v[m];
      }
      assert NumberSpan(v, i, n, n - 1);
    }
    if dot: nat :| NumberSpan(v, i, n, dot) { SpanIsNumber(v, i, n, dot); }
  }

  lemma SpanOfDot(v: string, i: nat, n: nat, k: nat)
    requires i <= n <= |v| && DotAt(v[i..n], k)
    ensures NumberSpan(v, i, n, i + k)
  {
    var t := v[i..n];
    forall m | i <= m < n && m != i + k ensures IsDigit(v[m]) {
      assert v[m] == t[m - i];
      if m < i + k { assert t[..k][m - i] == t[m - i]; } else { assert t[k + 1..][m - i - k - 1] == t[m - i]; }
    }
  }

  lemma SpanIsNumber(v: string, i: nat, n: nat, dot: nat)
    requires NumberSpan(v, i, n, dot)
    ensures Unsigned(v[i..n], true)
  {
    var t := v[i..n];
    var k := dot - i;
    assert forall m :: 0 <= m < |t| ==> t[m] == v[i + m];
    if dot == n {
      assert Digits(t);
    } else if dot == n - 1 {
      assert t[|t| - 1] == '.' && Digits(t[..|t| - 1]);
    } else {
      assert Digits(t[..k]) && Digits(t[k + 1..]);
      assert DotAt(t, k);
    }
  }

  lemma NumberIs(v: string, i: nat, n: nat, dot: nat)
    requires i == (if v != "" && (v[0] == '+' || v[0] == '-') then 1 else 0) && NumberSpan(v, i, n, dot)
    requires n < |v| ==> !IsDigit(v[n]) && v[n] != '.'
    ensures NumberLength(v) == n
  {
    if dot < n {
      DigitsTo(v, i, dot);
      DigitsTo(v, dot + 1, n);
    } else {
      DigitsTo(v, i, n);
    }
  }

  lemma NumberSpans(v: string)
    requires NumberLength(v) > 0
    ensures var i := if v[0] == '+' || v[0] == '-' then 1 else 0;
            i <= NumberLength(v) && exists dot :: NumberSpan(v, i, NumberLength(v), dot)
  {
    var i, n := if v[0] == '+' || v[0] == '-' then 1 else 0, NumberLength(v);
    var whole := DigitsEnd(v, i);
    assert NumberSpan(v, i, n, if whole < n then whole else n);
  }

  /** A signed number, as the place where its digits start. */
  lemma SignedIff(v: string, n: nat, negative: bool)
    requires 0 < n <= |v|
    ensures Signed(v[..n], negative, true)
            <==> var i := if v[0] == '+' || v[0] == '-' then 1 else 0;
                 (v[0] == '-' ==> negative) && exists dot :: NumberSpan(v, i, n, dot)
  {
    var i := if v[0] == '+' || v[0] == '-' then 1 else 0;
    assert v[..n][0] == v[0] && v[..n] == v[0..n] && v[..n][1..] == v[1..n];
    SpanIff(v, 0, n);
    SpanIff(v, 1, n);
    if i == 1 {
      assert forall dot :: !NumberSpan(v, 0, n, dot);
    }
  }

  lemma UnitIsNoDigit(u: string)
    requires u == "%" || exists w :: UnitName(w) && Spells(u, w)
    ensures u != "" && !IsDigit(u[0]) && u[0] != '.'
    ensures (exists w :: UnitName(w) && Spells(u, w)) ==> u != "%"
  {
    hide UnitName;
    if exists w :: UnitName(w) && Spells(u, w) {
      var w :| UnitName(w) && Spells(u, w);
      UnitsAre(w);
      LengthUnitsLetters();
      assert w != "" by { UnitIsNotEmpty(w); }
    }
  }

  lemma UnitIsNotEmpty(w: string)
    requires UnitName(w)
    ensures w != ""
  {}

  lemma UnitIff(u: string)
    ensures InSetCI(u, LENGTH_UNITS) <==> exists w :: UnitName(w) && Spells(u, w)
  {
    hide UnitName, LENGTH_UNITS, InSetCI;
    LengthUnitsLetters();
    KeywordIff(u, LENGTH_UNITS);
    if w :| w in LENGTH_UNITS && Spells(u, w) { UnitsAre(w); }
    if w :| UnitName(w) && Spells(u, w) { UnitsAre(w); }
  }

  lemma LengthGateIff(v: string, percent: bool, negative: bool)
    ensures IsLengthValue(v, percent, negative) <==> IsLength(v, percent, negative, true)
  {
    hide UnitName, InSetCI, NumberLength, Spells, LENGTH_UNITS, NumberSpan, Signed;
    if IsLengthValue(v, percent, negative) {
      var n := NumberLength(v);
      NumberSpans(v);
      SignedIff(v, n, negative);
      UnitIff(v[n..]);
      assert LengthAt(v, n, percent, negative, true);
    }
    if n: nat :| LengthAt(v, n, percent, negative, true) { LengthIsAdmitted(v, n, percent, negative); }
  }

  lemma LengthIsAdmitted(v: string, n: nat, percent: bool, negative: bool)
    requires LengthAt(v, n, percent, negative, true)
    ensures IsLengthValue(v, percent, negative)
  {
    hide UnitName, InSetCI, NumberLength, Spells, LENGTH_UNITS, NumberSpan, Signed;
    SignedIff(v, n, negative);
    var i := if v[0] == '+' || v[0] == '-' then 1 else 0;
    var dot: nat :| NumberSpan(v, i, n, dot);
    var unit := v[n..];
    if n < |v| { UnitIsNoDigit(unit); }
    NumberIs(v, i, n, dot);
    UnitIff(unit);
    assert NumberLength(v) == n && (v[0] == '-' ==> negative);
    if n == |v| {
      assert unit == "";
      if exists w :: UnitName(w) && Spells(unit, w) { UnitIsNoDigit(unit); }
    }
  }

  // ---- colour functions ---------------------------------------------------------------------------

  lemma {:induction false} SplitFirst(x: string, rest: string)
    requires ',' !in x
    ensures SplitCommas(x + "," + rest) == [x] + SplitCommas(rest) && SplitCommas(x) == [x]
    decreases |x|
  {
    var s := x + "," + rest;
    if x == "" {
      assert s[0] == ',' && s[1..] == rest;
    } else {
      SplitFirst(x[1..], rest);
      assert s[0] == x[0] && s[1..] == x[1..] + "," + rest;
      assert x[0] in x;
      assert ([x[1..]] + SplitCommas(rest))[1..] == SplitCommas(rest);
      assert [x[0]] + x[1..] == x;
    }
  }

  lemma {:induction false} SplitOfJoined(words: seq<string>)
    requires words != [] && forall k :: 0 <= k < |words| ==> ',' !in words[k]
    ensures SplitCommas(Joined(words)) == words
    decreases |words|
  {
    if |words| == 1 {
      SplitFirst(words[0], "");
    } else {
      SplitFirst(words[0], Joined(words[1..]));
      SplitOfJoined(words[1..]);
    }
  }

  lemma {:induction false} JoinedOfSplit(s: string)
    ensures Joined(SplitCommas(s)) == s
    decreases |s|
  {
    if s != "" {
      JoinedOfSplit(s[1..]);
      var rest := SplitCommas(s[1..]);
      if s[0] == ',' {
        assert ([""] + rest)[1..] == rest;
        assert "" + "," + s[1..] == s;
      } else {
        var all := [[s[0]] + rest[0]] + rest[1..];
        assert all[1..] == rest[1..];
        assert Joined(all) == [s[0]] + Joined(rest);
      }
    }
  }

  lemma PadBoth(s: string, a: string, t: string, b: string)
    requires Spaces(a) && Spaces(b)
    ensures s != "" && s[0] == ' ' && s[1..] == a + t + b ==> s == (" " + a) + t + b && Spaces(" " + a)
    ensures s != "" && s[|s| - 1] == ' ' && s[..|s| - 1] == a + t + b ==> s == a + t + (b + " ") && Spaces(b + " ")
  {
    assert s != "" && s[0] == ' ' ==> s == " " + s[1..];
    assert s != "" && s[|s| - 1] == ' ' ==> s == s[..|s| - 1] + " ";
    assert " " + (a + t + b) == (" " + a) + t + b && (a + t + b) + " " == a + t + (b + " ");
  }

  lemma {:induction false} TrimSplits(s: string) returns (a: string, b: string)
    ensures s == a + TrimSpaces(s) + b && Spaces(a) && Spaces(b)
    ensures var t := TrimSpaces(s); t != "" ==> t[0] != ' ' && t[|t| - 1] != ' '
    decreases |s|
  {
    hide Spaces;
    if s != "" && s[0] == ' ' {
      var front: string;
      front, b := TrimSplits(s[1..]);
      a := " " + front;
      PadBoth(s, front, TrimSpaces(s), b);
    } else if s != "" && s[|s| - 1] == ' ' {
      var back: string;
      a, back := TrimSplits(s[..|s| - 1]);
      b := back + " ";
      PadBoth(s, a, TrimSpaces(s), back);
    } else {
      a, b := "", "";
      assert Spaces("") by { NoSpaces(); }
      assert "" + s + "" == s;
    }
  }

  lemma NoSpaces()
    ensures Spaces("")
  {}

  lemma {:induction false} TrimOf(a: string, t: string, b: string)
    requires Spaces(a) && Spaces(b) && t != "" && t[0] != ' ' && t[|t| - 1] != ' '
    ensures TrimSpaces(a + t + b) == t
    decreases |a| + |b|
  {
    var s := a + t + b;
    if a != "" {
      TrimOf(a[1..], t, b);
      assert s[0] == ' ' && s[1..] == a[1..] + t + b;
    } else if b != "" {
      TrimOf(a, t, b[..|b| - 1]);
      assert s[|s| - 1] == ' ' && s[..|s| - 1] == a + t + b[..|b| - 1] && s[0] == t[0];
    } else {
      assert s == t;
    }
  }

  lemma PlainNumberIff(t: string)
    ensures IsPlainNumber(t) <==> Unsigned(t, true)
  {
    assert t[0..|t|] == t;
    SpanIff(t, 0, |t|);
    if IsPlainNumber(t) {
      if dot: nat :| dot < |t| && t[dot] == '.' {
        assert NumberSpan(t, 0, |t|, dot);
      } else {
        assert NumberSpan(t, 0, |t|, |t|);
      }
    }
    if dot: nat :| NumberSpan(t, 0, |t|, dot) {
      assert IsDigit(t[if dot == 0 then 1 else 0]);
    }
  }

  lemma NumberEnds(t: string)
    requires Unsigned(t, true)
    ensures t != "" && forall k :: 0 <= k < |t| ==> IsDigit(t[k]) || t[k] == '.'
  {
    PlainNumberIff(t);
  }

  /** A component the gate admits, taken apart. */
  lemma PartOf(s: string) returns (p: Part)
    requires IsColorComponent(s)
    ensures p.Text() == s && p.Fits(true) && p.percent == EndsInPercent(TrimSpaces(s))
  {
    hide Unsigned, TrimSpaces, IsPlainNumber;
    var a, b := TrimSplits(s);
    var t := TrimSpaces(s);
    var percent := EndsInPercent(t);
    p := Part(a, if percent then t[..|t| - 1] else t, percent, b);
    PlainNumberIff(p.number);
    assert percent ==> t[..|t| - 1] + "%" == t;
  }

  lemma PartIsAdmitted(p: Part)
    requires p.Fits(true)
    ensures IsColorComponent(p.Text()) && EndsInPercent(TrimSpaces(p.Text())) == p.percent
    ensures forall k :: 0 <= k < |p.Text()| ==> IsColorChar(p.Text()[k]) && p.Text()[k] != ','
  {
    hide TrimSpaces, IsPlainNumber;
    NumberEnds(p.number);
    PlainNumberIff(p.number);
    TrimOf(p.before, p.Core(), p.after);
    assert p.percent ==> p.Core()[..|p.Core()| - 1] == p.number;
  }

  lemma {:induction false} JoinedChars(words: seq<string>)
    requires forall k :: 0 <= k < |words| ==> forall m :: 0 <= m < |words[k]| ==> IsColorChar(words[k][m])
    ensures forall m :: 0 <= m < |Joined(words)| ==> IsColorChar(Joined(words)[m])
    decreases |words|
  {
    if |words| > 1 { JoinedChars(words[1..]); }
  }

  lemma ArgumentsOf(inner: string, hsl: bool) returns (parts: seq<Part>)
    requires IsColorArguments(inner, hsl)
    ensures Joined(Texts(parts)) == inner && Arguments(parts, hsl, true)
  {
    hide IsColorComponent, TrimSpaces, Unsigned;
    var words := SplitCommas(inner);
    var a := PartOf(words[0]);
    var b := PartOf(words[1]);
    var c := PartOf(words[2]);
    parts := [a, b, c];
    if |words| == 4 {
      var d := PartOf(words[3]);
      parts := [a, b, c, d];
    }
    assert Texts(parts) == words;
    JoinedOfSplit(inner);
  }

  lemma ArgumentsAreAdmitted(parts: seq<Part>, hsl: bool)
    requires Arguments(parts, hsl, true)
    ensures var inner := Joined(Texts(parts));
            IsColorArguments(inner, hsl) && forall m :: 0 <= m < |inner| ==> IsColorChar(inner[m])
  {
    hide TrimSpaces, Unsigned, IsColorComponent, Joined;
    var words := Texts(parts);
    forall k | 0 <= k < |parts|
      ensures IsColorComponent(words[k]) && EndsInPercent(TrimSpaces(words[k])) == parts[k].percent && ',' !in words[k]
      ensures forall m :: 0 <= m < |words[k]| ==> IsColorChar(words[k][m])
    {
      PartIsAdmitted(parts[k]);
    }
    SplitOfJoined(words);
    JoinedChars(words);
  }

  lemma CallOf(v: string, name: string, hsl: bool)
    requires name in {"rgba", "rgb", "hsla", "hsl"}
    requires StartsCI(v, name + "(") && IsColorCall(v, name + "(", hsl) && BalancedFrom(v, 0, 0, 0)
    ensures exists parts :: ColorCall(v, name, hsl, true, parts)
  {
    hide IsColorArguments, BalancedFrom, Arguments, Joined;
    var fn, n := name + "(", |name|;
    assert "rgba" + "(" == "rgba(" && "rgb" + "(" == "rgb(" && "hsla" + "(" == "hsla(" && "hsl" + "(" == "hsl(";
    CallOpens(v, fn, hsl);
    var inner := v[n + 1..|v| - 1];
    var parts := ArgumentsOf(inner, hsl);
    assert v[n..] == "(" + inner + ")";
    forall k | 0 <= k < n ensures LowerChar(v[k]) == name[k] {
      assert CiMatch(v[k], fn[k]) && fn[k] == name[k] && 'a' <= name[k] <= 'z';
    }
    assert ColorCall(v, name, hsl, true, parts);
  }

  lemma CallIsAdmitted(v: string, name: string, hsl: bool, parts: seq<Part>)
    requires name in {"rgba", "rgb", "hsla", "hsl"} && ColorCall(v, name, hsl, true, parts)
    ensures StartsCI(v, name + "(") && IsColorCall(v, name + "(", hsl)
    ensures v[|name|] == '(' && forall k :: 0 <= k < |name| ==> LowerChar(v[k]) == name[k]
  {
    hide IsColorArguments, Arguments, Joined;
    var fn, n, inner := name + "(", |name|, Joined(Texts(parts));
    ArgumentsAreAdmitted(parts, hsl);
    forall k | 0 <= k < n ensures LowerChar(v[k]) == name[k] && CiMatch(v[k], fn[k]) {
      assert v[..n][k] == v[k] && 'a' <= name[k] <= 'z';
    }
    assert v[n] == v[n..][0] == '(';
    assert inner != "" by { if inner == "" { assert SplitCommas(inner) == [""]; EmptyArguments(hsl); } }
    assert v == v[..n] + v[n..];
    assert v[n + 1..|v| - 1] == inner;
    assert v[|v| - 1] == ')';
    forall k | 0 <= k < |fn| ensures CiMatch(v[..|fn|][k], fn[k]) {}
  }

  lemma EmptyArguments(hsl: bool)
    ensures !IsColorArguments("", hsl)
  {
    assert SplitCommas("") == [""];
  }

  lemma FunctionIff(v: string)
    requires BalancedFrom(v, 0, 0, 0)
    ensures IsFunctionalColorValue(v) <==> FunctionColor(v, true)
  {
    hide IsColorCall, BalancedFrom, ColorCall;
    assert "rgb" + "(" == "rgb(" && "rgba" + "(" == "rgba(" && "hsl" + "(" == "hsl(" && "hsla" + "(" == "hsla(";
    if IsFunctionalColorValue(v) {
      if StartsCI(v, "rgba(") { CallOf(v, "rgba", false); }
      else if StartsCI(v, "rgb(") { CallOf(v, "rgb", false); }
      else if StartsCI(v, "hsla(") { CallOf(v, "hsla", true); }
      else { CallOf(v, "hsl", true); }
    }
    if parts :| ColorCall(v, "rgba", false, true, parts) { CallIsAdmitted(v, "rgba", false, parts); }
    if parts :| ColorCall(v, "rgb", false, true, parts) {
      CallIsAdmitted(v, "rgb", false, parts);
      NotCalled(v, "rgba(", 3);
    }
    if parts :| ColorCall(v, "hsla", true, true, parts) {
      CallIsAdmitted(v, "hsla", true, parts);
      NotCalled(v, "rgba(", 0);
      NotCalled(v, "rgb(", 0);
    }
    if parts :| ColorCall(v, "hsl", true, true, parts) {
      CallIsAdmitted(v, "hsl", true, parts);
      NotCalled(v, "rgba(", 0);
      NotCalled(v, "rgb(", 0);
      NotCalled(v, "hsla(", 3);
    }
  }

  lemma NotCalled(v: string, fn: string, k: nat)
    requires k < |v| && k < |fn| && !CiMatch(v[k], fn[k])
    ensures !StartsCI(v, fn)
  {
    assert |fn| <= |v| ==> v[..|fn|][k] == v[k];
  }

  // ---- the gate is the grammar ----------------------------------------------------------------------

  lemma NamedIff(v: string)
    ensures InSetCI(v, LINE_WIDTHS) <==> exists w :: LineWidthName(w) && Spells(v, w)
    ensures InSetCI(v, LINE_STYLES) <==> exists w :: LineStyleName(w) && Spells(v, w)
    ensures InSetCI(v, OVERFLOWS) <==> exists w :: OverflowName(w) && Spells(v, w)
  {
    hide LineWidthName, LineStyleName, OverflowName, LINE_WIDTHS, LINE_STYLES, OVERFLOWS, InSetCI;
    LineWidthsLetters();
    LineStylesLetters();
    OverflowsLetters();
    KeywordIff(v, LINE_WIDTHS);
    KeywordIff(v, LINE_STYLES);
    KeywordIff(v, OVERFLOWS);
    forall w ensures w in LINE_WIDTHS <==> LineWidthName(w) { LineWidthsAre(w); }
    forall w ensures w in LINE_STYLES <==> LineStyleName(w) { LineStylesAre(w); }
    forall w ensures w in OVERFLOWS <==> OverflowName(w) { OverflowsAre(w); }
  }

  /** The gate admits exactly the values of the class, with numbers that end in a dot among them. */
  lemma GateIsGrammar(v: string, cls: ValueClass)
    requires BalancedFrom(v, 0, 0, 0)
    ensures IsFamilyLegalValue(v, cls) <==> Legal(v, cls, true)
  {
    hide BalancedFrom, IsLengthValue, IsLength, InSetCI, IsFunctionalColorValue, FunctionColor, COLORS,
      LineWidthName, LineStyleName, OverflowName, LINE_WIDTHS, LINE_STYLES, OVERFLOWS;
    match cls
    case Length => LengthGateIff(v, true, false);
    case LengthAuto =>
      LengthGateIff(v, true, true);
      SpellsIff(v, "auto");
    case LineWidth =>
      LengthGateIff(v, false, false);
      NamedIff(v);
    case LineStyle => NamedIff(v);
    case Color =>
      ColorsLetters();
      KeywordIff(v, COLORS);
      FunctionIff(v);
      HexIff(v);
    case Overflow => NamedIff(v);
  }

  lemma HexIff(v: string)
    ensures IsHexColorValue(v) <==> HexColor(v)
  {}

  // ---- without dots at the end of numbers it is CSS --------------------------------------------------

  /** A '.' that no digit follows. */
  predicate TrailingDot(v: string) {
    exists i :: 0 <= i < |v| && v[i] == '.' && (i + 1 == |v| || !IsDigit(v[i + 1]))
  }

  lemma LengthWithoutDot(v: string, percent: bool, negative: bool)
    requires IsLength(v, percent, negative, true) && !TrailingDot(v)
    ensures IsLength(v, percent, negative, false)
  {
    hide UnitName, Spells, Decimal;
    var n: nat :| LengthAt(v, n, percent, negative, true);
    var t := v[..n];
    if n < |v| { UnitIsNoDigit(v[n..]); }
    assert t[|t| - 1] == v[n - 1];
    assert v[n - 1] != '.';
    assert LengthAt(v, n, percent, negative, false);
  }

  lemma DotWithin(a: string, x: string, b: string)
    requires TrailingDot(x) && (b != "" ==> !IsDigit(b[0]))
    ensures TrailingDot(a + x + b)
  {
    var i :| 0 <= i < |x| && x[i] == '.' && (i + 1 == |x| || !IsDigit(x[i + 1]));
    var s := a + x + b;
    assert s[|a| + i] == '.' && (|a| + i + 1 == |s| || !IsDigit(s[|a| + i + 1]));
  }

  lemma {:induction false} DotInJoined(words: seq<string>, k: nat)
    requires k < |words| && TrailingDot(words[k])
    ensures TrailingDot(Joined(words))
    decreases |words|
  {
    hide TrailingDot;
    if |words| > 1 {
      var rest := Joined(words[1..]);
      if k == 0 {
        DotWithin("", words[0], "," + rest);
        assert "" + words[0] + ("," + rest) == words[0] + "," + rest;
      } else {
        DotInJoined(words[1..], k - 1);
        DotWithin(words[0] + ",", rest, "");
        assert words[0] + "," + rest + "" == words[0] + "," + rest;
      }
    }
  }

  lemma DotInPart(p: Part)
    requires p.Fits(true) && !p.Fits(false)
    ensures TrailingDot(p.Text())
  {
    hide Decimal, TrailingDot;
    var end := (if p.percent then "%" else "") + p.after;
    assert TrailingDot(p.number) by { DottedTrails(p.number); }
    DotWithin(p.before, p.number, end);
    assert p.before + p.number + end == p.Text();
  }

  lemma DottedTrails(t: string)
    requires Dotted(t)
    ensures TrailingDot(t)
  {}

  lemma CallWithoutDot(v: string, name: string, hsl: bool, parts: seq<Part>)
    requires ColorCall(v, name, hsl, true, parts) && !TrailingDot(v)
    ensures ColorCall(v, name, hsl, false, parts)
  {
    hide TrailingDot, Unsigned, Joined;
    var words, n := Texts(parts), |name|;
    assert v == v[..n] + v[n..] == v[..n] + "(" + Joined(words) + ")";
    forall k | 0 <= k < |parts| ensures parts[k].Fits(false) {
      if !parts[k].Fits(false) {
        DotInPart(parts[k]);
        DotInJoined(words, k);
        DotWithin(v[..n] + "(", Joined(words), ")");
      }
    }
  }

  /** A value of the class in which no number ends in a dot is one in CSS. */
  lemma LegalWithoutDot(v: string, cls: ValueClass)
    requires Legal(v, cls, true) && !TrailingDot(v)
    ensures Legal(v, cls, false)
  {
    hide IsLength, ColorCall, TrailingDot, COLORS, LineWidthName, LineStyleName, OverflowName;
    match cls
    case Length => LengthWithoutDot(v, true, false);
    case LengthAuto => if !Spells(v, "auto") { LengthWithoutDot(v, true, true); }
    case LineWidth =>
      if !exists w :: LineWidthName(w) && Spells(v, w) { LengthWithoutDot(v, false, false); }
    case LineStyle =>
    case Color =>
      if parts :| ColorCall(v, "rgb", false, true, parts) { CallWithoutDot(v, "rgb", false, parts); }
      if parts :| ColorCall(v, "rgba", false, true, parts) { CallWithoutDot(v, "rgba", false, parts); }
      if parts :| ColorCall(v, "hsl", true, true, parts) { CallWithoutDot(v, "hsl", true, parts); }
      if parts :| ColorCall(v, "hsla", true, true, parts) { CallWithoutDot(v, "hsla", true, parts); }
    case Overflow =>
  }
}
