/**
 A value the gate admits and CSS does not: a number that ends in a dot.  Among
 legal longhands it costs one declaration; in the shorthand it costs the family.
 */
module CssCollapseExample {
  import opened Options
  import opened Ascii
  import opened CssKeywords
  import opened CssValues
  import opened CssDecls
  import opened CssCollapse
  import opened CssShorthand
  import opened CssCollapseMeaning

  // ---- which numbers ------------------------------------------------------------------------

  /** A number without exponent as section 4.3.12 of CSS Syntax Level 3 reads it: a '.' needs a digit after it. */
  predicate IsCssNumber(t: string) {
    var sign := if t != "" && (t[0] == '+' || t[0] == '-') then 1 else 0;
    var whole := DigitsEnd(t, sign);
    if whole == |t| then whole > sign
    else t[whole] == '.' && whole + 1 < |t| && DigitsEnd(t, whole + 1) == |t|
  }

  lemma {:induction false} DigitsEndOf(v: string, n: nat, i: nat)
    requires i <= n <= |v| && DigitsEnd(v, i) <= n
    ensures DigitsEnd(v[..n], i) == DigitsEnd(v, i)
    decreases n - i
  {
    if i < n && IsDigit(v[i]) { DigitsEndOf(v, n, i + 1); }
  }

  /** The number the gate reads is a CSS number exactly when it does not end in a dot. */
  lemma GateNumberIff(v: string)
    requires NumberLength(v) > 0
    ensures IsCssNumber(v[..NumberLength(v)]) <==> v[NumberLength(v) - 1] != '.'
  {
    var n := NumberLength(v);
    var sign := if v[0] == '+' || v[0] == '-' then 1 else 0;
    var whole := DigitsEnd(v, sign);
    DigitsEndOf(v, n, sign);
    if whole < n { DigitsEndOf(v, n, whole + 1); }
    assert v[..n][0] == v[0];
    assert whole < n ==> v[..n][whole] == v[whole];
  }

  // ---- one block ----------------------------------------------------------------------------

  const DOT := "1.px"
  const TWO := "2px"

  const TEXTS := ["padding-top:" + DOT, "padding-right:" + TWO, "padding-bottom:" + TWO, "padding-left:" + TWO]
  const VALUES := [DOT, TWO, TWO, TWO]

  lemma Px()
    ensures InSetCI("px", LENGTH_UNITS)
  {
    assert "px" in LENGTH_UNITS && EqualsCI("px", "px");
  }

  lemma NumbersOf()
    ensures NumberLength(DOT) == 2 && NumberLength(TWO) == 1
  {
    assert DigitsEnd(DOT, 1) == 1 && DigitsEnd(DOT, 2) == 2 && DigitsEnd(TWO, 1) == 1;
  }

  lemma AreLengths()
    ensures IsLengthValue(DOT, true, false) && IsLengthValue(TWO, true, false)
  {
    hide InSetCI, NumberLength;
    NumbersOf();
    Px();
    assert DOT[2..] == "px" && TWO[1..] == "px";
  }

  lemma NotUnsafe(v: string)
    requires v == DOT || v == TWO
    ensures !HasUnsafeValue(v)
  {
    forall i: nat | i <= |v| ensures !OccursAt(v, "var(", i) && !OccursAt(v, "!important", i) {
      assert i + 4 <= |v| ==> v[i..i + 4][0] == v[i];
    }
  }

  lemma AreNested()
    ensures BalancedFrom(DOT, 0, 0, 0) && BalancedFrom(TWO, 0, 0, 0)
  {
    assert BalancedFrom(DOT, 4, 0, 0) && BalancedFrom(TWO, 3, 0, 0);
    assert BalancedFrom(DOT, 3, 0, 0) && BalancedFrom(TWO, 2, 0, 0);
    assert BalancedFrom(DOT, 2, 0, 0) && BalancedFrom(TWO, 1, 0, 0);
    assert BalancedFrom(DOT, 1, 0, 0);
  }

  lemma LengthIsLegal(v: string)
    requires IsLengthValue(v, true, false)
    ensures IsFamilyLegalValue(v, Length)
  {
    hide IsLengthValue;
  }

  lemma IsCollapsible(v: string)
    requires v == DOT || v == TWO
    ensures Collapsible(v, Length)
  {
    hide HasUnsafeValue, IsFamilyLegalValue, IsLengthValue, BalancedFrom;
    NotUnsafe(v);
    AreNested();
    AreLengths();
    LengthIsLegal(v);
  }

  lemma AreCollapsible()
    ensures Collapsible(DOT, Length) && Collapsible(TWO, Length) && AllCollapsible(Padding, VALUES)
  {
    hide Collapsible;
    IsCollapsible(DOT);
    IsCollapsible(TWO);
  }

  /** A longhand of the block as it is read. */
  lemma PieceIs(name: string, v: string)
    requires Plain(name) && name != "" && (v == DOT || v == TWO)
    ensures var text := name + ":" + v; Closed(text) && Of(text) == Decl(name, v, text)
  {
    hide Collapsible, Atom, Closed, Of, Plain;
    AreCollapsible();
    CollapsibleIsAtom(v, Length);
    assert Spaced([v]) == v;
    TextIsClosed(name, [v]);
  }

  lemma LonghandsArePlain()
    ensures forall name | name in Padding.Longhands() :: Plain(name) && name != ""
  {}

  lemma BlockIs()
    ensures Pieces(TEXTS)
    ensures var ds := DeclsOf(TEXTS);
            forall k | 0 <= k < 4 :: ds[k].prop == Padding.Longhands()[k] && ds[k].value == VALUES[k]
  {
    hide Closed, Whole, Of, Plain;
    LonghandsArePlain();
    var names := Padding.Longhands();
    forall k | 0 <= k < 4 ensures Closed(TEXTS[k]) && Of(TEXTS[k]) == Decl(names[k], VALUES[k], TEXTS[k]) {
      assert names[k] in names;
      PieceIs(names[k], VALUES[k]);
      assert TEXTS[k] == names[k] + ":" + VALUES[k] by { TextAt(k); }
    }
    ClosedIsWhole(TEXTS[3]);
  }

  lemma TextAt(k: nat)
    requires k < 4
    ensures TEXTS[k] == Padding.Longhands()[k] + ":" + VALUES[k]
  {
    assert "padding-top:" == "padding-top" + ":" && "padding-right:" == "padding-right" + ":";
    assert "padding-bottom:" == "padding-bottom" + ":" && "padding-left:" == "padding-left" + ":";
  }

  lemma HitIs()
    ensures FirstHit(DeclsOf(TEXTS), FAMILIES) == Some(Hit(Padding, VALUES))
  {
    hide Collapsible, Filled, Of;
    var ds := DeclsOf(TEXTS);
    BlockIs();
    AreCollapsible();
    CompleteIs();
    CompleteIsCollapsed(ds, Padding);
    var vs := TryCollapse(ds, Padding).value;
    ValuesAre(vs);
    assert FAMILIES[0] == Padding;
  }

  lemma SlotIs(k: nat)
    requires k < 4
    ensures Slot(Padding.Longhands(), Padding.Longhands()[k], 0) == k
  {
    LonghandsDistinct(Padding);
  }

  lemma CompleteIs()
    ensures Complete(DeclsOf(TEXTS), Padding)
  {
    hide Collapsible, Slot;
    BlockIs();
    AreCollapsible();
    LonghandsDistinct(Padding);
    var ds, names := DeclsOf(TEXTS), Padding.Longhands();
    forall d | 0 <= d < 4
      ensures ds[d].prop in names && Collapsible(ds[d].value, Padding.Class(Slot(names, ds[d].prop, 0)))
    {
      SlotIs(d);
    }
  }

  lemma ValuesAre(vs: seq<string>)
    requires TryCollapse(DeclsOf(TEXTS), Padding) == Some(vs)
    ensures vs == VALUES
  {
    hide Filled, Collapsible, Slot;
    var ds := DeclsOf(TEXTS);
    BlockIs();
    var w := ds[..4];
    assert w == ds;
    AllSlots(w, Padding.Longhands());
    forall k | 0 <= k < 4 ensures vs[k] == VALUES[k] {
      FilledSound(w, Padding.Longhands(), 4, k);
      SlotIs(k);
    }
  }

  /**
   On this block a browser that follows the syntax, and so rejects the first value
   only, is given no padding at all by the collapsed form, and three sides before.
   */
  lemma TrailingDotLosesTheFamily(b: Browser)
    requires !b.accepts("padding-top", DOT) && b.accepts("padding-right", TWO)
    ensures var block := Join(TEXTS);
            && CollapseBlockSpec(block) == "padding:1.px 2px 2px"
            && History(b, ParseDecls(block), "padding-right") == [TWO]
            && forall prop :: prop in Padding.Longhands() ==>
                 History(b, ParseDecls(CollapseBlockSpec(block)), prop) == []
  {
    hide Of, History, FirstHit, ParseDecls, Pieces, Collapsed, FAMILIES;
    var block, ds := Join(TEXTS), DeclsOf(TEXTS);
    BlockIs();
    ParseOfJoin(TEXTS);
    HitIs();
    CollapsedIs();
    ReparsedBlock(block);
    HistoryBefore(b);
    forall prop | prop in Padding.Longhands() ensures History(b, ParseDecls(CollapseBlockSpec(block)), prop) == [] {
      HistoryAfter(b, prop);
    }
  }

  lemma TextIs()
    ensures ShorthandText(Padding, VALUES) == "padding:1.px 2px 2px"
  {
    var ws := [DOT, TWO, TWO];
    assert Words(BoxModel, VALUES) == ws;
    assert ws[1..] == [TWO, TWO] && ws[1..][1..] == [TWO];
    assert Spaced([TWO]) == TWO && Spaced([TWO, TWO]) == "2px 2px" && Spaced(ws) == "1.px 2px 2px";
  }

  lemma CollapsedIs()
    ensures Collapsed(DeclsOf(TEXTS)) == ["padding:1.px 2px 2px"]
    ensures ParseDecls(Join(TEXTS)) == DeclsOf(TEXTS) && CollapseBlockSpec(Join(TEXTS)) == "padding:1.px 2px 2px"
  {
    hide FirstHit, Of, ParseDecls, Pieces, ShorthandText, FAMILIES;
    var ds := DeclsOf(TEXTS);
    BlockIs();
    ParseOfJoin(TEXTS);
    HitIs();
    TextIs();
    assert ds[4..] == [] && Collapsed([]) == [];
    assert ["padding:1.px 2px 2px"] + [] == ["padding:1.px 2px 2px"];
    assert Join(["padding:1.px 2px 2px"]) == "padding:1.px 2px 2px";
  }

  lemma HistoryBefore(b: Browser)
    requires b.accepts("padding-right", TWO)
    ensures History(b, ParseDecls(Join(TEXTS)), "padding-right") == [TWO]
  {
    hide Of, FirstHit, ParseDecls, Pieces, Collapsed, FAMILIES, AllEffects, Given, SlotValues, AllCollapsible;
    var ds := DeclsOf(TEXTS);
    CollapsedIs();
    HitIs();
    HitSound(ds, FAMILIES);
    assert ds[..4] == ds;
    SlotIs(1);
    WindowGives(b, ds, Padding, VALUES, "padding-right");
  }

  lemma HistoryAfter(b: Browser, prop: string)
    requires !b.accepts("padding-top", DOT) && prop in Padding.Longhands()
    ensures History(b, ParseDecls(CollapseBlockSpec(Join(TEXTS))), prop) == []
  {
    hide Of, FirstHit, ParseDecls, Pieces, Collapsed, FAMILIES, SlotValues, Effects, ShorthandText, CollapseBlockSpec,
      AllEffects, Collapsible, AllCollapsible, Join;
    var text := "padding:1.px 2px 2px";
    CollapsedIs();
    assert ParseDecls(CollapseBlockSpec(Join(TEXTS))) == DeclsOf([text]) by { ReparsedBlock(Join(TEXTS)); }
    assert DeclsOf([text]) == [Of(text)];
    OneEffect(b, Of(text));
    NoEffect(b);
  }

  lemma NoEffect(b: Browser)
    requires !b.accepts("padding-top", DOT)
    ensures Effects(b, Of("padding:1.px 2px 2px")) == []
  {
    hide Of, Effects, ShorthandText, Collapsible, AllCollapsible;
    AreCollapsible();
    TextIs();
    ShorthandMeans(b, Padding, VALUES);
    assert Padding.Longhands()[0] == "padding-top" && VALUES[0] == DOT;
  }

  lemma OneEffect(b: Browser, d: Decl)
    ensures AllEffects(b, [d]) == Effects(b, d)
  {
    hide Effects;
    assert [d][1..] == [] && AllEffects(b, []) == [];
    assert Effects(b, d) + [] == Effects(b, d);
  }
}
