/**
 The keyword tables of the shorthand value gate.  They are kept in groups small
 enough that "every word is made of lower-case letters" is immediate for each.
 */
module CssKeywords {

  predicate Letters(w: string) {
    forall i :: 0 <= i < |w| ==> 'a' <= w[i] <= 'z'
  }

  /** Every word is made of lower-case letters. */
  ghost predicate AllLetters(words: set<string>) {
    forall w :: w in words ==> Letters(w)
  }

  const LINE_WIDTHS: set<string> := {
    "thin", "medium", "thick"
  }

  const LINE_STYLES: set<string> := {
    "none", "hidden", "dotted", "dashed", "solid", "double", "groove", "ridge", "inset", "outset"
  }

  const OVERFLOWS: set<string> := {
    "visible", "hidden", "clip", "scroll", "auto"
  }

  const UNITS_0: set<string> := {
    "em", "rem", "ex", "rex", "ch", "rch", "ic", "ric", "lh", "rlh", "cap", "rcap", "vw", "vh", "vi", "vb", "vmin",
    "vmax", "svw", "svh", "svi", "svb"
  }

  const UNITS_1: set<string> := {
    "svmin", "svmax", "lvw", "lvh", "lvi", "lvb", "lvmin", "lvmax", "dvw", "dvh", "dvi", "dvb", "dvmin", "dvmax",
    "cqw", "cqh"
  }

  const UNITS_2: set<string> := {
    "cqi", "cqb", "cqmin", "cqmax", "cm", "mm", "q", "in", "pt", "pc", "px"
  }

  const LENGTH_UNITS := UNITS_0 + UNITS_1 + UNITS_2

  const COLORS_0: set<string> := {
    "currentcolor", "transparent", "aliceblue", "antiquewhite", "aqua", "aquamarine", "azure"
  }
  const COLORS_1: set<string> := {
    "beige", "bisque", "black", "blanchedalmond", "blue", "blueviolet", "brown", "burlywood"
  }
  const COLORS_2: set<string> := {
    "cadetblue", "chartreuse", "chocolate", "coral", "cornflowerblue", "cornsilk", "crimson"
  }
  const COLORS_3: set<string> := {
    "cyan", "darkblue", "darkcyan", "darkgoldenrod", "darkgray", "darkgreen", "darkgrey"
  }
  const COLORS_4: set<string> := {
    "darkkhaki", "darkmagenta", "darkolivegreen", "darkorange", "darkorchid", "darkred"
  }
  const COLORS_5: set<string> := {
    "darksalmon", "darkseagreen", "darkslateblue", "darkslategray", "darkslategrey"
  }
  const COLORS_6: set<string> := {
    "darkturquoise", "darkviolet", "deeppink", "deepskyblue", "dimgray", "dimgrey"
  }
  const COLORS_7: set<string> := {
    "dodgerblue", "firebrick", "floralwhite", "forestgreen", "fuchsia", "gainsboro"
  }
  const COLORS_8: set<string> := {
    "ghostwhite", "gold", "goldenrod", "gray", "green", "greenyellow", "grey", "honeydew", "hotpink"
  }
  const COLORS_9: set<string> := {
    "indianred", "indigo", "ivory", "khaki", "lavender", "lavenderblush", "lawngreen"
  }
  const COLORS_10: set<string> := {
    "lemonchiffon", "lightblue", "lightcoral", "lightcyan", "lightgoldenrodyellow"
  }
  const COLORS_11: set<string> := {
    "lightgray", "lightgreen", "lightgrey", "lightpink", "lightsalmon", "lightseagreen"
  }
  const COLORS_12: set<string> := {
    "lightskyblue", "lightslategray", "lightslategrey", "lightsteelblue"
  }
  const COLORS_13: set<string> := {
    "lightyellow", "lime", "limegreen", "linen", "magenta", "maroon", "mediumaquamarine"
  }
  const COLORS_14: set<string> := {
    "mediumblue", "mediumorchid", "mediumpurple", "mediumseagreen", "mediumslateblue"
  }
  const COLORS_15: set<string> := {
    "mediumspringgreen", "mediumturquoise", "mediumvioletred", "midnightblue"
  }
  const COLORS_16: set<string> := {
    "mintcream", "mistyrose", "moccasin", "navajowhite", "navy", "oldlace", "olive", "olivedrab"
  }
  const COLORS_17: set<string> := {
    "orange", "orangered", "orchid", "palegoldenrod", "palegreen", "paleturquoise"
  }
  const COLORS_18: set<string> := {
    "palevioletred", "papayawhip", "peachpuff", "peru", "pink", "plum", "powderblue", "purple"
  }
  const COLORS_19: set<string> := {
    "rebeccapurple", "red", "rosybrown", "royalblue", "saddlebrown", "salmon", "sandybrown"
  }
  const COLORS_20: set<string> := {
    "seagreen", "seashell", "sienna", "silver", "skyblue", "slateblue", "slategray", "slategrey"
  }
  const COLORS_21: set<string> := {
    "snow", "springgreen", "steelblue", "tan", "teal", "thistle", "tomato", "turquoise", "violet", "wheat"
  }
  const COLORS_22: set<string> := {
    "white", "whitesmoke", "yellow", "yellowgreen"
  }

  const COLORS :=
    COLORS_0 + COLORS_1 + COLORS_2 + COLORS_3 + COLORS_4 + COLORS_5 + COLORS_6 + COLORS_7 + COLORS_8 +
    COLORS_9 + COLORS_10 + COLORS_11 + COLORS_12 + COLORS_13 + COLORS_14 + COLORS_15 + COLORS_16 + COLORS_17 +
    COLORS_18 + COLORS_19 + COLORS_20 + COLORS_21 + COLORS_22

  lemma LineWidthsLetters() ensures AllLetters(LINE_WIDTHS) {}
  lemma LineStylesLetters() ensures AllLetters(LINE_STYLES) {}
  lemma OverflowsLetters() ensures AllLetters(OVERFLOWS) {}
  lemma Units0Letters() ensures AllLetters(UNITS_0) {}
  lemma Units1Letters() ensures AllLetters(UNITS_1) {}
  lemma Units2Letters() ensures AllLetters(UNITS_2) {}
  lemma Colors0Letters() ensures AllLetters(COLORS_0) {}
  lemma Colors1Letters() ensures AllLetters(COLORS_1) {}
  lemma Colors2Letters() ensures AllLetters(COLORS_2) {}
  lemma Colors3Letters() ensures AllLetters(COLORS_3) {}
  lemma Colors4Letters() ensures AllLetters(COLORS_4) {}
  lemma Colors5Letters() ensures AllLetters(COLORS_5) {}
  lemma Colors6Letters() ensures AllLetters(COLORS_6) {}
  lemma Colors7Letters() ensures AllLetters(COLORS_7) {}
  lemma Colors8Letters() ensures AllLetters(COLORS_8) {}
  lemma Colors9Letters() ensures AllLetters(COLORS_9) {}
  lemma Colors10Letters() ensures AllLetters(COLORS_10) {}
  lemma Colors11Letters() ensures AllLetters(COLORS_11) {}
  lemma Colors12Letters() ensures AllLetters(COLORS_12) {}
  lemma Colors13Letters() ensures AllLetters(COLORS_13) {}
  lemma Colors14Letters() ensures AllLetters(COLORS_14) {}
  lemma Colors15Letters() ensures AllLetters(COLORS_15) {}
  lemma Colors16Letters() ensures AllLetters(COLORS_16) {}
  lemma Colors17Letters() ensures AllLetters(COLORS_17) {}
  lemma Colors18Letters() ensures AllLetters(COLORS_18) {}
  lemma Colors19Letters() ensures AllLetters(COLORS_19) {}
  lemma Colors20Letters() ensures AllLetters(COLORS_20) {}
  lemma Colors21Letters() ensures AllLetters(COLORS_21) {}
  lemma Colors22Letters() ensures AllLetters(COLORS_22) {}

  lemma LengthUnitsLetters()
    ensures AllLetters(LENGTH_UNITS)
  {
    Units0Letters(); Units1Letters(); Units2Letters();
  }

  lemma ColorsLetters()
    ensures AllLetters(COLORS)
  {
    Colors0Letters(); Colors1Letters(); Colors2Letters(); Colors3Letters(); Colors4Letters(); Colors5Letters();
    Colors6Letters(); Colors7Letters(); Colors8Letters(); Colors9Letters(); Colors10Letters();
    Colors11Letters(); Colors12Letters(); Colors13Letters(); Colors14Letters(); Colors15Letters();
    Colors16Letters(); Colors17Letters(); Colors18Letters(); Colors19Letters(); Colors20Letters();
    Colors21Letters(); Colors22Letters();
  }

  /** A word unlike `inherit`, `initial`, `unset`, `revert` and `revert-layer`. */
  predicate Apart(w: string) {
    w != "" && w[0] != 'u' && (w[0] == 'i' ==> |w| != 7) && (w[0] == 'r' ==> |w| != 6 && |w| != 12)
  }

  ghost predicate AllApart(words: set<string>) {
    forall w :: w in words ==> Apart(w)
  }

  lemma LineWidthsApart() ensures AllApart(LINE_WIDTHS) {}
  lemma LineStylesApart() ensures AllApart(LINE_STYLES) {}
  lemma OverflowsApart() ensures AllApart(OVERFLOWS) {}
  lemma Colors0Apart() ensures AllApart(COLORS_0) {}
  lemma Colors1Apart() ensures AllApart(COLORS_1) {}
  lemma Colors2Apart() ensures AllApart(COLORS_2) {}
  lemma Colors3Apart() ensures AllApart(COLORS_3) {}
  lemma Colors4Apart() ensures AllApart(COLORS_4) {}
  lemma Colors5Apart() ensures AllApart(COLORS_5) {}
  lemma Colors6Apart() ensures AllApart(COLORS_6) {}
  lemma Colors7Apart() ensures AllApart(COLORS_7) {}
  lemma Colors8Apart() ensures AllApart(COLORS_8) {}
  lemma Colors9Apart() ensures AllApart(COLORS_9) {}
  lemma Colors10Apart() ensures AllApart(COLORS_10) {}
  lemma Colors11Apart() ensures AllApart(COLORS_11) {}
  lemma Colors12Apart() ensures AllApart(COLORS_12) {}
  lemma Colors13Apart() ensures AllApart(COLORS_13) {}
  lemma Colors14Apart() ensures AllApart(COLORS_14) {}
  lemma Colors15Apart() ensures AllApart(COLORS_15) {}
  lemma Colors16Apart() ensures AllApart(COLORS_16) {}
  lemma Colors17Apart() ensures AllApart(COLORS_17) {}
  lemma Colors18Apart() ensures AllApart(COLORS_18) {}
  lemma Colors19Apart() ensures AllApart(COLORS_19) {}
  lemma Colors20Apart() ensures AllApart(COLORS_20) {}
  lemma Colors21Apart() ensures AllApart(COLORS_21) {}
  lemma Colors22Apart() ensures AllApart(COLORS_22) {}

  lemma ColorsApart()
    ensures AllApart(COLORS)
  {
    Colors0Apart(); Colors1Apart(); Colors2Apart(); Colors3Apart(); Colors4Apart(); Colors5Apart();
    Colors6Apart(); Colors7Apart(); Colors8Apart(); Colors9Apart(); Colors10Apart(); Colors11Apart();
    Colors12Apart(); Colors13Apart(); Colors14Apart(); Colors15Apart(); Colors16Apart(); Colors17Apart();
    Colors18Apart(); Colors19Apart(); Colors20Apart(); Colors21Apart(); Colors22Apart();
  }
}
