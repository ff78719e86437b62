/**
 The collapse against CSS itself: which longhands a shorthand sets, by name, and
 which values each property takes, by its grammar.
 */
module CssCollapseCss {
  import opened Options
  import opened CssValues
  import opened CssValueGrammar
  import opened CssDecls
  import opened CssCollapse
  import opened CssCollapseMeaning

  // ---- what a shorthand sets --------------------------------------------------------------------

  /** Top, right, bottom, left; a missing side is the one opposite it, a missing right side the top. */
  function Sides(name: string, parts: seq<string>): seq<Assignment>
    requires 1 <= |parts| <= 4
  {
    var top := parts[0];
    var right := if |parts| > 1 then parts[1] else top;
    var bottom := if |parts| > 2 then parts[2] else top;
    var left := if |parts| > 3 then parts[3] else right;
    [(name + "-top", top), (name + "-right", right), (name + "-bottom", bottom), (name + "-left", left)]
  }

  /** What the shorthand `prop` with these components sets, as CSS defines it. */
  function Sets(prop: string, parts: seq<string>): Option<seq<Assignment>> {
    if prop == "padding" || prop == "margin" then
      if 1 <= |parts| <= 4 then Some(Sides(prop, parts)) else None
    else if prop in ["border-top", "border-right", "border-bottom", "border-left"] then
      if |parts| == 3 then
        Some([(prop + "-width", parts[0]), (prop + "-style", parts[1]), (prop + "-color", parts[2])])
      else None
    else if prop == "overflow" then
      if |parts| == 1 then Some([("overflow-x", parts[0]), ("overflow-y", parts[0])])
      else if |parts| == 2 then Some([("overflow-x", parts[0]), ("overflow-y", parts[1])])
      else None
    else None
  }

  lemma BoxNames(f: Family)
    requires f.Kind().BoxModel?
    ensures f.Shorthand() == "padding" || f.Shorthand() == "margin"
    ensures var n := f.Shorthand(); f.Longhands() == [n + "-top", n + "-right", n + "-bottom", n + "-left"]
  {
    assert "padding" + "-top" == "padding-top" && "padding" + "-right" == "padding-right";
    assert "padding" + "-bottom" == "padding-bottom" && "padding" + "-left" == "padding-left";
    assert "margin" + "-top" == "margin-top" && "margin" + "-right" == "margin-right";
    assert "margin" + "-bottom" == "margin-bottom" && "margin" + "-left" == "margin-left";
  }

  /** Every family spreads its shorthand as CSS does. */
  lemma ShorthandSets(f: Family, parts: seq<string>)
    ensures Sets(f.Shorthand(), parts)
            == match Spread(f.Kind(), parts) case None => None case Some(vs) => Some(Zip(f.Longhands(), vs))
  {
    match f.Kind()
    case BoxModel => BoxSets(f, parts);
    case BorderSide => BorderSets(f, parts);
    case OverflowPair => OverflowSets(parts);
  }

  lemma BoxSets(f: Family, parts: seq<string>)
    requires f.Kind().BoxModel?
    ensures Sets(f.Shorthand(), parts)
            == match Spread(f.Kind(), parts) case None => None case Some(vs) => Some(Zip(f.Longhands(), vs))
  {
    hide Zip, f.Shorthand, f.Longhands;
    BoxNames(f);
    if 1 <= |parts| <= 4 {
      assert Zip(f.Longhands(), Spread(f.Kind(), parts).value) == Sides(f.Shorthand(), parts);
    }
  }

  lemma BorderSets(f: Family, parts: seq<string>)
    requires f.Kind().BorderSide?
    ensures Sets(f.Shorthand(), parts)
            == match Spread(f.Kind(), parts) case None => None case Some(vs) => Some(Zip(f.Longhands(), vs))
  {
    hide Zip, f.Shorthand, f.Longhands;
    BorderNames(f);
    if |parts| == 3 {
      var n := f.Shorthand();
      assert Zip(f.Longhands(), parts)
          == [(n + "-width", parts[0]), (n + "-style", parts[1]), (n + "-color", parts[2])];
    }
  }

  lemma OverflowSets(parts: seq<string>)
    ensures Sets("overflow", parts)
            == match Spread(OverflowPair, parts)
               case None => None
               case Some(vs) => Some(Zip(["overflow-x", "overflow-y"], vs))
  {
    hide Zip;
    if 1 <= |parts| <= 2 {
      assert Zip(["overflow-x", "overflow-y"], Spread(OverflowPair, parts).value)
          == [("overflow-x", parts[0]), ("overflow-y", parts[|parts| - 1])];
    }
  }

  lemma BorderNames(f: Family)
    requires f.Kind().BorderSide?
    ensures f.Shorthand() in ["border-top", "border-right", "border-bottom", "border-left"]
    ensures f.Longhands() == [f.Shorthand() + "-width", f.Shorthand() + "-style", f.Shorthand() + "-color"]
  {
    assert "border-top" + "-width" == "border-top-width" && "border-top" + "-style" == "border-top-style";
    assert "border-top" + "-color" == "border-top-color" && "border-right" + "-width" == "border-right-width";
    assert "border-right" + "-style" == "border-right-style" && "border-right" + "-color" == "border-right-color";
    assert "border-bottom" + "-width" == "border-bottom-width" && "border-bottom" + "-style" == "border-bottom-style";
    assert "border-bottom" + "-color" == "border-bottom-color" && "border-left" + "-width" == "border-left-width";
    assert "border-left" + "-style" == "border-left-style" && "border-left" + "-color" == "border-left-color";
  }

  // ---- which values a property takes --------------------------------------------------------------

  /** The value class of a longhand, by its name. */
  function ClassOf(prop: string): Option<ValueClass> {
    if prop in ["padding-top", "padding-right", "padding-bottom", "padding-left"] then Some(Length)
    else if prop in ["margin-top", "margin-right", "margin-bottom", "margin-left"] then Some(LengthAuto)
    else if prop in ["border-top-width", "border-right-width", "border-bottom-width", "border-left-width"] then
      Some(LineWidth)
    else if prop in ["border-top-style", "border-right-style", "border-bottom-style", "border-left-style"] then
      Some(LineStyle)
    else if prop in ["border-top-color", "border-right-color", "border-bottom-color", "border-left-color"] then
      Some(Color)
    else if prop in ["overflow-x", "overflow-y"] then Some(Overflow)
    else None
  }

  lemma FamilyClasses(f: Family, l: nat)
    requires l < f.Count()
    ensures ClassOf(f.Longhands()[l]) == Some(f.Class(l))
  {
    match f.Kind()
    case BoxModel =>
    case OverflowPair =>
    case BorderSide => BorderClasses(f, l);
  }

  lemma BorderClasses(f: Family, l: nat)
    requires f.Kind().BorderSide? && l < 3
    ensures ClassOf(f.Longhands()[l]) == Some(if l == 0 then LineWidth else if l == 1 then LineStyle else Color)
  {
    hide ClassOf;
    if l == 0 { WidthClass(f); } else if l == 1 { StyleClass(f); } else { ColorClass(f); }
  }

  lemma WidthClass(f: Family)
    requires f.Kind().BorderSide?
    ensures ClassOf(f.Longhands()[0]) == Some(LineWidth)
  {}

  lemma StyleClass(f: Family)
    requires f.Kind().BorderSide?
    ensures ClassOf(f.Longhands()[1]) == Some(LineStyle)
  {}

  lemma ColorClass(f: Family)
    requires f.Kind().BorderSide?
    ensures ClassOf(f.Longhands()[2]) == Some(Color)
  {}

  /** The browser accepts every value that is legal for its property. */
  ghost predicate FollowsGrammar(b: Browser) {
    forall prop: string, v: string ::
      ClassOf(prop).Some? && Legal(v, ClassOf(prop).value, false) ==> b.accepts(prop, v)
  }

  predicate NoTrailingDots(ds: seq<Decl>) {
    forall k :: 0 <= k < |ds| ==> !TrailingDot(ds[k].value)
  }

  /** What is admitted and has no number that ends in a dot is legal. */
  lemma AdmittedIsCss(v: string, cls: ValueClass)
    requires Collapsible(v, cls) && !TrailingDot(v)
    ensures Legal(v, cls, false)
  {
    hide Legal, IsFamilyLegalValue, TrailingDot, HasUnsafeValue, BalancedFrom;
    GateIsGrammar(v, cls);
    LegalWithoutDot(v, cls);
  }

  lemma HitIsCss(b: Browser, ds: seq<Decl>)
    requires FollowsGrammar(b) && NoTrailingDots(ds) && FirstHit(ds, FAMILIES).Some?
    ensures Uniform(b, FirstHit(ds, FAMILIES).value)
  {
    hide Collapsible, Legal, TrailingDot, FAMILIES, ClassOf, Filled;
    HitSound(ds, FAMILIES);
    var hit := FirstHit(ds, FAMILIES).value;
    var f, vs := hit.family, hit.values;
    var w := ds[..f.Count()];
    AllSlots(w, f.Longhands());
    forall l | 0 <= l < |vs| ensures b.accepts(f.Longhands()[l], vs[l]) {
      var e := Filler(w, f.Longhands(), |w|, l);
      assert w[e] == ds[e];
      AdmittedIsCss(vs[l], f.Class(l));
      FamilyClasses(f, l);
    }
  }

  /** Such a browser takes the values that are collapsed together all alike. */
  lemma {:induction false} GrammarIsUniform(b: Browser, ds: seq<Decl>)
    requires FollowsGrammar(b) && NoTrailingDots(ds)
    ensures AllUniform(b, ds)
    decreases |ds|
  {
    hide FirstHit, FollowsGrammar, FAMILIES, Uniform, TrailingDot;
    if ds != [] {
      match FirstHit(ds, FAMILIES)
      case Some(hit) =>
        HitText(ds);
        HitIsCss(b, ds);
        GrammarIsUniform(b, ds[hit.family.Count()..]);
      case None => GrammarIsUniform(b, ds[1..]);
    }
  }

  /** For a browser that follows the grammar, a block without such numbers keeps its meaning. */
  lemma CollapseKeepsCss(b: Browser, block: string, prop: string)
    requires FollowsGrammar(b) && NoTrailingDots(ParseDecls(block))
    ensures History(b, ParseDecls(CollapseBlockSpec(block)), prop) == History(b, ParseDecls(block), prop)
  {
    hide ParseDecls, History, AllUniform, FollowsGrammar, NoTrailingDots, CollapseBlockSpec;
    GrammarIsUniform(b, ParseDecls(block));
    CollapsePreservesMeaning(b, block);
  }
}
