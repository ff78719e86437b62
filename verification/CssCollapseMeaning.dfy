/**
 Exactly when the shorthand collapse preserves what a block means.  It reaches a
 fixed point in one run and never grows the block.
 */
module CssCollapseMeaning {
  import opened Options
  import opened CssValues
  import opened CssDecls
  import opened CssCollapse
  import opened CssShorthand

  // ---- what a browser makes of a block -------------------------------------------

  type Assignment = (string, string)

  /**
   A browser: which values it accepts for a longhand, and what any declaration
   outside the collapsed families (or with a shorthand value of another shape)
   assigns.  Both are arbitrary.
   */
  datatype Browser = Browser(accepts: (string, string) -> bool, other: Decl -> seq<Assignment>)

  predicate IsLonghand(prop: string) {
    exists f: Family :: prop in f.Longhands()
  }

  function NamedBy(prop: string): Option<Family> {
    if prop == Padding.Shorthand() then Some(Padding)
    else if prop == Margin.Shorthand() then Some(Margin)
    else if prop == BorderTop.Shorthand() then Some(BorderTop)
    else if prop == BorderRight.Shorthand() then Some(BorderRight)
    else if prop == BorderBottom.Shorthand() then Some(BorderBottom)
    else if prop == BorderLeft.Shorthand() then Some(BorderLeft)
    else if prop == OverflowXY.Shorthand() then Some(OverflowXY)
    else None
  }

  /** The longhand values a shorthand with these components stands for. */
  function Spread(kind: Kind, parts: seq<string>): (r: Option<seq<string>>)
    ensures r.Some? ==> |r.value| == match kind case BoxModel => 4 case BorderSide => 3 case OverflowPair => 2
  {
    match kind
    case BoxModel =>
      if |parts| == 1 then Some([parts[0], parts[0], parts[0], parts[0]])
      else if |parts| == 2 then Some([parts[0], parts[1], parts[0], parts[1]])
      else if |parts| == 3 then Some([parts[0], parts[1], parts[2], parts[1]])
      else if |parts| == 4 then Some(parts)
      else None
    case BorderSide => if |parts| == 3 then Some(parts) else None
    case OverflowPair =>
      if |parts| == 1 then Some([parts[0], parts[0]])
      else if |parts| == 2 then Some(parts)
      else None
  }

  function Zip(names: seq<string>, vs: seq<string>): (r: seq<Assignment>)
    requires |names| == |vs|
    ensures |r| == |names| && forall k :: 0 <= k < |r| ==> r[k] == (names[k], vs[k])
  {
    if names == [] then [] else [(names[0], vs[0])] + Zip(names[1..], vs[1..])
  }

  predicate AcceptsAll(b: Browser, names: seq<string>, vs: seq<string>)
    requires |names| == |vs|
  {
    forall l :: 0 <= l < |names| ==> b.accepts(names[l], vs[l])
  }

  /** A rejected longhand is dropped alone; one rejected component drops a whole shorthand. */
  function Effects(b: Browser, d: Decl): seq<Assignment> {
    if IsLonghand(d.prop) then
      if b.accepts(d.prop, d.value) then [(d.prop, d.value)] else []
    else match NamedBy(d.prop)
      case None => b.other(d)
      case Some(f) =>
        match Spread(f.Kind(), Components(d.value))
        case None => b.other(d)
        case Some(vs) => if AcceptsAll(b, f.Longhands(), vs) then Zip(f.Longhands(), vs) else []
  }

  function AllEffects(b: Browser, ds: seq<Decl>): seq<Assignment> {
    if ds == [] then [] else Effects(b, ds[0]) + AllEffects(b, ds[1..])
  }

  /** The values given to `prop`, in order. */
  function Given(given: seq<Assignment>, prop: string): seq<string> {
    if given == [] then []
    else (if given[0].0 == prop then [given[0].1] else []) + Given(given[1..], prop)
  }

  /** Every value a block gives `prop`, in order; its last element is the last-wins value. */
  function History(b: Browser, ds: seq<Decl>, prop: string): seq<string> {
    Given(AllEffects(b, ds), prop)
  }

  // ---- the family table --------------------------------------------------------------

  lemma LonghandsDistinct(f: Family)
    ensures forall i, j :: 0 <= i < j < f.Count() ==> f.Longhands()[i] != f.Longhands()[j]
  {}

  lemma ShorthandIsNoLonghand(f: Family)
    ensures !IsLonghand(f.Shorthand())
  {}

  lemma ShorthandNamesItsFamily(f: Family)
    ensures NamedBy(f.Shorthand()) == Some(f)
  {}

  lemma ShorthandIsPlain(f: Family)
    ensures Plain(f.Shorthand()) && f.Shorthand() != ""
  {}

  lemma SpreadOfWords(kind: Kind, vs: seq<string>)
    requires |vs| == match kind case BoxModel => 4 case BorderSide => 3 case OverflowPair => 2
    ensures var ws := Words(kind, vs);
            && ws != [] && Spread(kind, ws) == Some(vs)
            && forall k :: 0 <= k < |ws| ==> ws[k] in vs
  {
    assert kind.BoxModel? ==> vs == [vs[0], vs[1], vs[2], vs[3]];
    assert kind.OverflowPair? ==> vs == [vs[0], vs[1]];
  }

  // ---- the emitted shorthand means the values it was made from -------------------------

  lemma WordsAreAtoms(f: Family, vs: seq<string>)
    requires |vs| == f.Count() && AllCollapsible(f, vs)
    ensures var ws := Words(f.Kind(), vs);
            && ws != [] && Spread(f.Kind(), ws) == Some(vs)
            && forall k :: 0 <= k < |ws| ==> Atom(ws[k])
  {
    hide Collapsible, Atom, Words, Spread;
    SpreadOfWords(f.Kind(), vs);
    forall v | v in vs ensures Atom(v) {
      var l: nat :| l < |vs| && vs[l] == v;
      CollapsibleIsAtom(v, f.Class(l));
    }
  }

  /** The shorthand is read back as one declaration of its family, with the values it was made from. */
  lemma ShorthandIsRead(f: Family, vs: seq<string>)
    requires |vs| == f.Count() && AllCollapsible(f, vs)
    ensures var text := ShorthandText(f, vs);
            && Closed(text) && Of(text).raw == text && Of(text).prop == f.Shorthand()
            && Spread(f.Kind(), Components(Of(text).value)) == Some(vs)
  {
    hide Words, Spread, Components, Spaced, Atom, Closed, Of, Plain, AllCollapsible;
    var ws := Words(f.Kind(), vs);
    WordsAreAtoms(f, vs);
    ShorthandIsPlain(f);
    TextIsClosed(f.Shorthand(), ws);
    ComponentsOfSpaced(ws);
  }

  /** It assigns each longhand its value, or nothing at all. */
  lemma ShorthandMeans(b: Browser, f: Family, vs: seq<string>)
    requires |vs| == f.Count() && AllCollapsible(f, vs)
    ensures Effects(b, Of(ShorthandText(f, vs)))
         == if AcceptsAll(b, f.Longhands(), vs) then Zip(f.Longhands(), vs) else []
  {
    hide Spread, Components, IsLonghand, NamedBy, Closed, Of, AllCollapsible, AcceptsAll, ShorthandText;
    ShorthandIsRead(f, vs);
    ShorthandIsNoLonghand(f);
    ShorthandNamesItsFamily(f);
  }

  // ---- so do the declarations it replaces ------------------------------------------------

  /** Each declaration of a filled window has its own slot, which holds its value. */
  lemma {:induction false} FilledSound(w: seq<Decl>, names: seq<string>, d: nat, e: nat)
    requires e < d <= |w| && Filled(w, names, d).Some?
    ensures var m, l := Filled(w, names, d).value, Slot(names, w[e].prop, 0);
            l < |names| && l in m && m[l] == w[e].value
    ensures forall e' :: e < e' < d ==> w[e'].prop != w[e].prop
  {
    if e < d - 1 {
      FilledSound(w, names, d - 1, e);
    }
  }

  /** The declaration that filled slot `l`. */
  lemma {:induction false} Filler(w: seq<Decl>, names: seq<string>, d: nat, l: nat) returns (e: nat)
    requires d <= |w| && Filled(w, names, d).Some? && l in Filled(w, names, d).value
    ensures e < d && w[e].prop == names[l] && w[e].value == Filled(w, names, d).value[l]
  {
    if l in Filled(w, names, d - 1).value {
      e := Filler(w, names, d - 1, l);
    } else {
      e := d - 1;
    }
  }

  ghost predicate DistinctKeys(given: seq<Assignment>) {
    forall i, j :: 0 <= i < j < |given| ==> given[i].0 != given[j].0
  }

  lemma GivenNone(given: seq<Assignment>, prop: string)
    requires forall i :: 0 <= i < |given| ==> given[i].0 != prop
    ensures Given(given, prop) == []
  {}

  lemma {:induction false} GivenOnce(given: seq<Assignment>, k: nat)
    requires k < |given| && DistinctKeys(given)
    ensures Given(given, given[k].0) == [given[k].1]
  {
    var rest := given[1..];
    assert DistinctKeys(rest);
    if k == 0 {
      GivenNone(rest, given[0].0);
    } else {
      GivenOnce(rest, k - 1);
      assert given[k] == rest[k - 1];
    }
  }

  /** Declarations of longhands, each at most once. */
  ghost predicate LonghandsOnce(w: seq<Decl>) {
    && (forall d :: 0 <= d < |w| ==> IsLonghand(w[d].prop))
    && forall d, e :: 0 <= d < e < |w| ==> w[d].prop != w[e].prop
  }

  lemma {:induction false} WindowNone(b: Browser, w: seq<Decl>, prop: string)
    requires LonghandsOnce(w) && forall d :: 0 <= d < |w| ==> w[d].prop != prop
    ensures Given(AllEffects(b, w), prop) == []
  {
    hide IsLonghand;
    if w != [] {
      WindowNone(b, w[1..], prop);
      GivenConcat(Effects(b, w[0]), AllEffects(b, w[1..]), prop);
    }
  }

  /** A longhand of the window is given its value if the browser accepts it, and nothing otherwise. */
  lemma {:induction false} WindowOnce(b: Browser, w: seq<Decl>, k: nat)
    requires LonghandsOnce(w) && k < |w|
    ensures Given(AllEffects(b, w), w[k].prop) == if b.accepts(w[k].prop, w[k].value) then [w[k].value] else []
  {
    hide IsLonghand;
    var rest := w[1..];
    assert LonghandsOnce(rest);
    GivenConcat(Effects(b, w[0]), AllEffects(b, rest), w[k].prop);
    if k == 0 {
      WindowNone(b, rest, w[0].prop);
    } else {
      WindowOnce(b, rest, k - 1);
      assert w[k] == rest[k - 1];
    }
  }

  /** What a window that fills the longhands of a family gives a property. */
  lemma WindowGives(b: Browser, w: seq<Decl>, f: Family, vs: seq<string>, prop: string)
    requires |w| == f.Count() && SlotValues(w, f.Longhands()) == Some(vs)
    ensures var l := Slot(f.Longhands(), prop, 0);
            Given(AllEffects(b, w), prop) == if l < f.Count() && b.accepts(prop, vs[l]) then [vs[l]] else []
  {
    hide Filled, Given, AllEffects, IsLonghand;
    var names := f.Longhands();
    AllSlots(w, names);
    forall d | 0 <= d < |w|
      ensures IsLonghand(w[d].prop) && w[d].prop in names && forall e :: d < e < |w| ==> w[e].prop != w[d].prop
    {
      FilledSound(w, names, |w|, d);
      NamesLonghand(f, Slot(names, w[d].prop, 0));
    }
    var l := Slot(names, prop, 0);
    if l < |names| {
      var d := Filler(w, names, |w|, l);
      WindowOnce(b, w, d);
    } else {
      WindowNone(b, w, prop);
    }
  }

  lemma ZipGives(f: Family, vs: seq<string>, prop: string)
    requires |vs| == f.Count()
    ensures var l := Slot(f.Longhands(), prop, 0);
            Given(Zip(f.Longhands(), vs), prop) == if l < f.Count() then [vs[l]] else []
  {
    hide Given, Zip;
    LonghandsDistinct(f);
    var l, zs := Slot(f.Longhands(), prop, 0), Zip(f.Longhands(), vs);
    if l < f.Count() { GivenOnce(zs, l); } else { GivenNone(zs, prop); }
  }

  lemma NamesLonghand(f: Family, l: nat)
    requires l < f.Count()
    ensures IsLonghand(f.Longhands()[l])
  {}

  // ---- exactly when a window collapses ------------------------------------------------------

  /** Declarations of distinct longhands fill distinct slots. */
  lemma {:induction false} FilledComplete(w: seq<Decl>, names: seq<string>, d: nat)
    requires d <= |w| && forall e :: 0 <= e < d ==> w[e].prop in names
    requires forall e, e' :: 0 <= e < e' < d ==> w[e].prop != w[e'].prop
    ensures Filled(w, names, d).Some?
  {
    if d > 0 {
      FilledComplete(w, names, d - 1);
      var l := Slot(names, w[d - 1].prop, 0);
      if l in Filled(w, names, d - 1).value {
        var e := Filler(w, names, d - 1, l);
      }
    }
  }

  /** The front declarations are the longhands of the family, each once and in any order, with admitted values. */
  ghost predicate Complete(ds: seq<Decl>, f: Family) {
    var n, names := f.Count(), f.Longhands();
    && n <= |ds|
    && (forall d :: 0 <= d < n ==>
          ds[d].prop in names && Collapsible(ds[d].value, f.Class(Slot(names, ds[d].prop, 0))))
    && (forall d, e :: 0 <= d < e < n ==> ds[d].prop != ds[e].prop)
  }

  lemma CollapsedIsComplete(ds: seq<Decl>, f: Family)
    requires TryCollapse(ds, f).Some?
    ensures Complete(ds, f)
  {
    hide Filled, Collapsible;
    var n, names := f.Count(), f.Longhands();
    var w := ds[..n];
    forall d | 0 <= d < n
      ensures ds[d].prop in names && Collapsible(ds[d].value, f.Class(Slot(names, ds[d].prop, 0)))
      ensures forall e :: d < e < n ==> ds[e].prop != ds[d].prop
    {
      FilledSound(w, names, n, d);
      assert forall e :: d < e < n ==> w[e].prop == ds[e].prop;
    }
  }

  lemma CompleteIsCollapsed(ds: seq<Decl>, f: Family)
    requires Complete(ds, f)
    ensures TryCollapse(ds, f).Some?
  {
    hide Filled, Collapsible;
    var n, names := f.Count(), f.Longhands();
    var w := ds[..n];
    FilledComplete(w, names, n);
    AllSlots(w, names);
    LonghandsDistinct(f);
    var vs := SlotValues(w, names).value;
    forall l: nat | l < n ensures Collapsible(vs[l], f.Class(l)) {
      var d := Filler(w, names, n, l);
      FilledSound(w, names, n, d);
      assert Slot(names, ds[d].prop, 0) == l;
    }
  }

  /** A family collapses the front declarations if and only if they are complete. */
  lemma CollapsesExactlyWhen(ds: seq<Decl>, f: Family)
    ensures TryCollapse(ds, f).Some? <==> Complete(ds, f)
  {
    hide TryCollapse, Complete;
    if TryCollapse(ds, f).Some? { CollapsedIsComplete(ds, f); }
    if Complete(ds, f) { CompleteIsCollapsed(ds, f); }
  }

  // ---- whole blocks ------------------------------------------------------------------------

  /** Declarations as a block is split into them. */
  ghost predicate Parsed(ds: seq<Decl>) {
    Pieces(Raws(ds)) && forall k :: 0 <= k < |ds| ==> ds[k] == Of(ds[k].raw)
  }

  lemma BlockIsParsed(block: string)
    ensures Parsed(ParseDecls(block))
  {
    hide Pieces, Of;
    ParseGivesPieces(block);
  }

  lemma ParsedSuffix(ds: seq<Decl>, k: nat)
    requires Parsed(ds) && k <= |ds|
    ensures Parsed(ds[k..])
  {
    hide Closed, Whole, Of;
  }

  lemma {:induction false} HitSound(ds: seq<Decl>, families: seq<Family>)
    ensures match FirstHit(ds, families)
            case Some(hit) => TryCollapse(ds, hit.family) == Some(hit.values)
            case None => forall f :: f in families ==> TryCollapse(ds, f).None?
  {
    hide TryCollapse;
    if families != [] {
      HitSound(ds, families[1..]);
    }
  }

  /** What the front of a block collapses to is one declaration of the shorthand. */
  lemma HitText(ds: seq<Decl>)
    requires FirstHit(ds, FAMILIES).Some?
    ensures var hit := FirstHit(ds, FAMILIES).value;
            var n, text := hit.family.Count(), ShorthandText(hit.family, hit.values);
            && 0 < n <= |ds|
            && Closed(text) && Of(text).raw == text && Of(text).prop == hit.family.Shorthand()
  {
    hide SlotValues, AllCollapsible, Closed, Of, FAMILIES, Spread, Components;
    HitSound(ds, FAMILIES);
    var hit := FirstHit(ds, FAMILIES).value;
    ShorthandIsRead(hit.family, hit.values);
  }

  predicate RejectsAll(b: Browser, names: seq<string>, vs: seq<string>)
    requires |names| == |vs|
  {
    forall l :: 0 <= l < |names| ==> !b.accepts(names[l], vs[l])
  }

  /** The browser accepts all the values that are collapsed together, or none of them. */
  predicate Uniform(b: Browser, hit: Hit)
    requires |hit.values| == hit.family.Count()
  {
    AcceptsAll(b, hit.family.Longhands(), hit.values) || RejectsAll(b, hit.family.Longhands(), hit.values)
  }

  /** What the shorthand gives is what the window gives, provided the browser is uniform; else some property loses. */
  lemma HitMeans(b: Browser, ds: seq<Decl>, prop: string)
    requires FirstHit(ds, FAMILIES).Some?
    ensures var hit := FirstHit(ds, FAMILIES).value;
            var short := Given(Effects(b, Of(ShorthandText(hit.family, hit.values))), prop);
            var long := Given(AllEffects(b, ds[..hit.family.Count()]), prop);
            |short| <= |long| && (Uniform(b, hit) ==> short == long)
  {
    hide SlotValues, AllCollapsible, Given, Effects, AllEffects, Closed, Of, FAMILIES, AcceptsAll, RejectsAll, Zip;
    HitSound(ds, FAMILIES);
    var hit := FirstHit(ds, FAMILIES).value;
    var f, vs := hit.family, hit.values;
    var names := f.Longhands();
    ShorthandMeans(b, f, vs);
    WindowGives(b, ds[..f.Count()], f, vs, prop);
    ZipGives(f, vs, prop);
    GivenNone([], prop);
    var l := Slot(names, prop, 0);
    if l < f.Count() { AcceptedOrRejected(b, names, vs, l); }
  }

  lemma AcceptedOrRejected(b: Browser, names: seq<string>, vs: seq<string>, l: nat)
    requires |names| == |vs| && l < |names|
    ensures AcceptsAll(b, names, vs) ==> b.accepts(names[l], vs[l])
    ensures RejectsAll(b, names, vs) ==> !b.accepts(names[l], vs[l])
  {}

  /** A window with accepted and rejected values loses one that was accepted. */
  lemma MixedLoses(b: Browser, ds: seq<Decl>) returns (prop: string)
    requires FirstHit(ds, FAMILIES).Some? && !Uniform(b, FirstHit(ds, FAMILIES).value)
    ensures var hit := FirstHit(ds, FAMILIES).value;
            |Given(Effects(b, Of(ShorthandText(hit.family, hit.values))), prop)|
            < |Given(AllEffects(b, ds[..hit.family.Count()]), prop)|
  {
    hide SlotValues, AllCollapsible, Given, Effects, AllEffects, Closed, Of, FAMILIES, AcceptsAll, Zip;
    HitSound(ds, FAMILIES);
    var hit := FirstHit(ds, FAMILIES).value;
    var f, vs := hit.family, hit.values;
    var names := f.Longhands();
    var l: nat :| l < |names| && b.accepts(names[l], vs[l]);
    prop := names[l];
    LonghandsDistinct(f);
    ShorthandMeans(b, f, vs);
    WindowGives(b, ds[..f.Count()], f, vs, prop);
    GivenNone([], prop);
  }

  lemma {:induction false} GivenConcat(x: seq<Assignment>, y: seq<Assignment>, prop: string)
    ensures Given(x + y, prop) == Given(x, prop) + Given(y, prop)
  {
    if x == [] {
      assert x + y == y;
    } else {
      assert (x + y)[1..] == x[1..] + y;
      GivenConcat(x[1..], y, prop);
    }
  }

  lemma {:induction false} EffectsConcat(b: Browser, x: seq<Decl>, y: seq<Decl>)
    ensures AllEffects(b, x + y) == AllEffects(b, x) + AllEffects(b, y)
  {
    hide Effects;
    if x == [] {
      assert x + y == y;
    } else {
      EffectsConcat(b, x[1..], y);
      assert (x + y)[1..] == x[1..] + y;
    }
  }

  /** The declarations after the first `n` are given what they were, in front of whatever the first `n` give. */
  lemma HistorySplit(b: Browser, ds: seq<Decl>, n: nat, prop: string)
    requires n <= |ds|
    ensures History(b, ds, prop) == Given(AllEffects(b, ds[..n]), prop) + History(b, ds[n..], prop)
  {
    hide Effects, AllEffects, Given;
    assert ds == ds[..n] + ds[n..];
    EffectsConcat(b, ds[..n], ds[n..]);
    GivenConcat(AllEffects(b, ds[..n]), AllEffects(b, ds[n..]), prop);
  }

  lemma HistoryCons(b: Browser, d: Decl, ds: seq<Decl>, prop: string)
    ensures History(b, [d] + ds, prop) == Given(Effects(b, d), prop) + History(b, ds, prop)
  {
    hide Effects, Given;
    assert ([d] + ds)[1..] == ds;
    GivenConcat(Effects(b, d), AllEffects(b, ds), prop);
  }

  /** Every window that is collapsed has values the browser accepts together or rejects together. */
  predicate AllUniform(b: Browser, ds: seq<Decl>)
    decreases |ds|
  {
    if ds == [] then true
    else match FirstHit(ds, FAMILIES)
      case Some(hit) => Uniform(b, hit) && AllUniform(b, ds[hit.family.Count()..])
      case None => AllUniform(b, ds[1..])
  }

  /** How a block and its collapsed form go on after their first piece. */
  lemma CollapsedHistory(b: Browser, ds: seq<Decl>, prop: string)
    requires Parsed(ds) && ds != []
    ensures match FirstHit(ds, FAMILIES)
            case Some(hit) =>
              var n, text := hit.family.Count(), ShorthandText(hit.family, hit.values);
              && Parsed(ds[n..])
              && History(b, ds, prop) == Given(AllEffects(b, ds[..n]), prop) + History(b, ds[n..], prop)
              && History(b, DeclsOf(Collapsed(ds)), prop)
                 == Given(Effects(b, Of(text)), prop) + History(b, DeclsOf(Collapsed(ds[n..])), prop)
            case None =>
              && Parsed(ds[1..])
              && History(b, ds, prop) == Given(Effects(b, ds[0]), prop) + History(b, ds[1..], prop)
              && History(b, DeclsOf(Collapsed(ds)), prop)
                 == Given(Effects(b, ds[0]), prop) + History(b, DeclsOf(Collapsed(ds[1..])), prop)
  {
    hide Of, History, FirstHit, ShorthandText, Pieces, Effects, AllEffects, Given;
    match FirstHit(ds, FAMILIES)
    case Some(hit) =>
      var n := hit.family.Count();
      ParsedSuffix(ds, n);
      HistorySplit(b, ds, n, prop);
      HistoryCons(b, Of(ShorthandText(hit.family, hit.values)), DeclsOf(Collapsed(ds[n..])), prop);
    case None =>
      ParsedSuffix(ds, 1);
      HistoryCons(b, ds[0], ds[1..], prop);
      HistoryCons(b, ds[0], DeclsOf(Collapsed(ds[1..])), prop);
      assert ds == [ds[0]] + ds[1..];
  }

  /** Collapsing never gives a property more; it gives the same where every window is uniform. */
  lemma {:induction false} CollapsedMeans(b: Browser, ds: seq<Decl>, prop: string)
    requires Parsed(ds)
    ensures |History(b, DeclsOf(Collapsed(ds)), prop)| <= |History(b, ds, prop)|
    ensures AllUniform(b, ds) ==> History(b, DeclsOf(Collapsed(ds)), prop) == History(b, ds, prop)
    decreases |ds|
  {
    hide Of, History, FirstHit, ShorthandText, Pieces, Collapsed, Effects, AllEffects, Given, Uniform, FAMILIES;
    if ds == [] {
      NothingCollapsed();
    } else {
      CollapsedHistory(b, ds, prop);
      match FirstHit(ds, FAMILIES)
      case Some(hit) =>
        HitText(ds);
        HitMeans(b, ds, prop);
        CollapsedMeans(b, ds[hit.family.Count()..], prop);
      case None => CollapsedMeans(b, ds[1..], prop);
    }
  }

  lemma NothingCollapsed()
    ensures DeclsOf(Collapsed([])) == []
  {}

  /** One mixed window makes some property lose a value for good. */
  lemma {:induction false} MixedBlockLoses(b: Browser, ds: seq<Decl>) returns (prop: string)
    requires Parsed(ds) && !AllUniform(b, ds)
    ensures |History(b, DeclsOf(Collapsed(ds)), prop)| < |History(b, ds, prop)|
    decreases |ds|
  {
    hide Of, History, FirstHit, ShorthandText, Pieces, Collapsed, Effects, AllEffects, Given, Uniform, FAMILIES;
    match FirstHit(ds, FAMILIES)
    case Some(hit) =>
      var n := hit.family.Count();
      HitText(ds);
      if Uniform(b, hit) {
        ParsedSuffix(ds, n);
        prop := MixedBlockLoses(b, ds[n..]);
        HitMeans(b, ds, prop);
      } else {
        prop := MixedLoses(b, ds);
        ParsedSuffix(ds, n);
        CollapsedMeans(b, ds[n..], prop);
      }
      CollapsedHistory(b, ds, prop);
    case None =>
      ParsedSuffix(ds, 1);
      prop := MixedBlockLoses(b, ds[1..]);
      CollapsedHistory(b, ds, prop);
  }

  lemma ConsPieces(p: string, ps: seq<string>)
    requires Pieces(ps) && Whole(p) && (ps != [] ==> Closed(p))
    ensures Pieces([p] + ps)
  {
    hide Closed, Whole;
  }

  lemma {:induction false} CollapsedPieces(ds: seq<Decl>)
    requires Parsed(ds)
    ensures Pieces(Collapsed(ds)) && (Collapsed(ds) == [] <==> ds == [])
    decreases |ds|
  {
    hide Of, FirstHit, ShorthandText, Closed, Whole, Pieces;
    if ds == [] {
      NoPieces();
    } else {
      match FirstHit(ds, FAMILIES)
      case Some(hit) =>
        var n, text := hit.family.Count(), ShorthandText(hit.family, hit.values);
        HitText(ds);
        ClosedIsWhole(text);
        ParsedSuffix(ds, n);
        CollapsedPieces(ds[n..]);
        ConsPieces(text, Collapsed(ds[n..]));
      case None =>
        ParsedSuffix(ds, 1);
        CollapsedPieces(ds[1..]);
        FirstRaw(ds);
        ConsPieces(ds[0].raw, Collapsed(ds[1..]));
    }
  }

  lemma FirstRaw(ds: seq<Decl>)
    requires Parsed(ds) && ds != []
    ensures Whole(ds[0].raw) && (|ds| > 1 ==> Closed(ds[0].raw))
  {
    hide Closed, Whole, Of;
    var ps := Raws(ds);
    assert ps[0] == ds[0].raw;
    if |ds| > 1 {
      ClosedIsWhole(ps[0]);
    }
  }

  // ---- a second run finds nothing more to collapse -------------------------------------------

  /** A collapse needs longhands only, and looks no further than its window. */
  lemma TryNeedsLonghands(ds: seq<Decl>, f: Family)
    requires TryCollapse(ds, f).Some?
    ensures forall d :: 0 <= d < f.Count() ==> IsLonghand(ds[d].prop)
  {
    hide Filled, Collapsible, IsLonghand;
    var w := ds[..f.Count()];
    forall d | 0 <= d < f.Count() ensures IsLonghand(ds[d].prop) {
      FilledSound(w, f.Longhands(), |w|, d);
      NamesLonghand(f, Slot(f.Longhands(), w[d].prop, 0));
    }
  }

  lemma TryIsLocal(ds: seq<Decl>, es: seq<Decl>, f: Family)
    requires f.Count() <= |ds| && f.Count() <= |es| && ds[..f.Count()] == es[..f.Count()]
    ensures TryCollapse(ds, f) == TryCollapse(es, f)
  {
    hide SlotValues, AllCollapsible;
  }

  lemma FrontLonghandWasThere(ds: seq<Decl>)
    requires Parsed(ds) && Collapsed(ds) != [] && IsLonghand(DeclsOf(Collapsed(ds))[0].prop)
    ensures ds != [] && DeclsOf(Collapsed(ds)) == [ds[0]] + DeclsOf(Collapsed(ds[1..]))
  {
    hide Of, FirstHit, ShorthandText, Closed, IsLonghand, Pieces;
    match FirstHit(ds, FAMILIES)
    case Some(hit) =>
      HitText(ds);
      ShorthandIsNoLonghand(hit.family);
    case None =>
  }

  /** Longhands at the front of a collapsed block were there, side by side, before. */
  lemma {:induction false} LonghandsWereThere(ds: seq<Decl>, k: nat)
    requires Parsed(ds)
    requires var es := DeclsOf(Collapsed(ds)); k <= |es| && forall d :: 0 <= d < k ==> IsLonghand(es[d].prop)
    ensures k <= |ds| && ds[..k] == DeclsOf(Collapsed(ds))[..k]
    decreases |ds|
  {
    hide Of, Collapsed, IsLonghand, Parsed, DeclsOf;
    if k > 0 {
      var es := DeclsOf(Collapsed(ds));
      FrontLonghandWasThere(ds);
      ParsedSuffix(ds, 1);
      var rest := DeclsOf(Collapsed(ds[1..]));
      assert es[..k] == [ds[0]] + rest[..k - 1];
      forall d | 0 <= d < k - 1 ensures IsLonghand(rest[d].prop) { assert rest[d] == es[d + 1]; }
      LonghandsWereThere(ds[1..], k - 1);
      assert ds[..k] == [ds[0]] + ds[1..][..k - 1];
    }
  }

  /** Behind a declaration that could not be collapsed, a collapsed rest offers nothing new. */
  lemma StaysApart(ds: seq<Decl>, f: Family)
    requires ds != [] && Parsed(ds) && TryCollapse(ds, f).None?
    ensures TryCollapse([ds[0]] + DeclsOf(Collapsed(ds[1..])), f).None?
  {
    hide Of, Collapsed, IsLonghand, Pieces, SlotValues, AllCollapsible;
    var rest := DeclsOf(Collapsed(ds[1..]));
    var es := [ds[0]] + rest;
    if TryCollapse(es, f).Some? {
      TryNeedsLonghands(es, f);
      ParsedSuffix(ds, 1);
      var k := f.Count() - 1;
      forall d | 0 <= d < k ensures IsLonghand(rest[d].prop) { assert rest[d] == es[d + 1]; }
      LonghandsWereThere(ds[1..], k);
      assert es[..f.Count()] == [ds[0]] + rest[..k];
      assert ds[..f.Count()] == [ds[0]] + ds[1..][..k];
      TryIsLocal(ds, es, f);
    }
  }

  lemma NoHit(ds: seq<Decl>, families: seq<Family>)
    requires forall f :: f in families ==> TryCollapse(ds, f).None?
    ensures FirstHit(ds, families).None?
  {
    hide TryCollapse;
  }

  lemma {:induction false} CollapsedIsFixed(ds: seq<Decl>)
    requires Parsed(ds)
    ensures Collapsed(DeclsOf(Collapsed(ds))) == Collapsed(ds)
    decreases |ds|
  {
    hide Of, FirstHit, ShorthandText, Closed, Whole, Pieces, TryCollapse, IsLonghand, FAMILIES;
    if ds != [] {
      match FirstHit(ds, FAMILIES)
      case Some(hit) =>
        var n, text := hit.family.Count(), ShorthandText(hit.family, hit.values);
        HitText(ds);
        ParsedSuffix(ds, n);
        CollapsedIsFixed(ds[n..]);
        var es := [Of(text)] + DeclsOf(Collapsed(ds[n..]));
        assert DeclsOf(Collapsed(ds)) == es;
        forall f | f in FAMILIES ensures TryCollapse(es, f).None? {
          if TryCollapse(es, f).Some? {
            TryNeedsLonghands(es, f);
            ShorthandIsNoLonghand(hit.family);
          }
        }
        NoHit(es, FAMILIES);
        assert es[1..] == DeclsOf(Collapsed(ds[n..]));
      case None =>
        ParsedSuffix(ds, 1);
        CollapsedIsFixed(ds[1..]);
        var es := [ds[0]] + DeclsOf(Collapsed(ds[1..]));
        assert DeclsOf(Collapsed(ds)) == es;
        HitSound(ds, FAMILIES);
        forall f | f in FAMILIES ensures TryCollapse(es, f).None? {
          StaysApart(ds, f);
        }
        NoHit(es, FAMILIES);
        assert es[1..] == DeclsOf(Collapsed(ds[1..]));
    }
  }

  // ---- never longer -----------------------------------------------------------------------------

  /** Total length of the values in slots below `n`. */
  ghost function SlotsLength(m: map<nat, string>, n: nat): nat {
    if n == 0 then 0 else (if n - 1 in m then |m[n - 1]| else 0) + SlotsLength(m, n - 1)
  }

  lemma {:induction false} FillOne(m: map<nat, string>, l: nat, v: string, n: nat)
    requires l !in m
    ensures SlotsLength(m[l := v], n) == SlotsLength(m, n) + if l < n then |v| else 0
  {
    if n > 0 { FillOne(m, l, v, n - 1); }
  }

  ghost function ValuesLength(w: seq<Decl>, d: nat): nat
    requires d <= |w|
  {
    if d == 0 then 0 else |w[d - 1].value| + ValuesLength(w, d - 1)
  }

  lemma {:induction false} FilledLength(w: seq<Decl>, names: seq<string>, d: nat)
    requires d <= |w| && Filled(w, names, d).Some?
    ensures SlotsLength(Filled(w, names, d).value, |names|) == ValuesLength(w, d)
  {
    if d == 0 {
      NothingFilled(|names|);
    } else {
      FilledLength(w, names, d - 1);
      FillOne(Filled(w, names, d - 1).value, Slot(names, w[d - 1].prop, 0), w[d - 1].value, |names|);
    }
  }

  lemma NothingFilled(n: nat)
    ensures SlotsLength(map[], n) == 0
  {}

  ghost function TotalLength(vs: seq<string>): nat {
    if vs == [] then 0 else |vs[0]| + TotalLength(vs[1..])
  }

  lemma TotalSnoc(vs: seq<string>, v: string)
    ensures TotalLength(vs + [v]) == TotalLength(vs) + |v|
  {
    if vs != [] { assert (vs + [v])[1..] == vs[1..] + [v]; }
  }

  lemma {:induction false} SlotsTotal(m: map<nat, string>, vs: seq<string>)
    requires forall l :: 0 <= l < |vs| ==> l in m && m[l] == vs[l]
    ensures SlotsLength(m, |vs|) == TotalLength(vs)
  {
    if vs != [] {
      var front := vs[..|vs| - 1];
      SlotsTotal(m, front);
      TotalSnoc(front, vs[|vs| - 1]);
      assert vs == front + [vs[|vs| - 1]];
    }
  }

  lemma SpacedLength(ws: seq<string>)
    requires ws != []
    ensures |Spaced(ws)| == TotalLength(ws) + |ws| - 1
  {}

  /** Leaving out repeated values only shortens the list. */
  lemma WordsLength(kind: Kind, vs: seq<string>)
    requires |vs| == match kind case BoxModel => 4 case BorderSide => 3 case OverflowPair => 2
    ensures var ws := Words(kind, vs); ws != [] && |ws| <= |vs| && TotalLength(ws) <= TotalLength(vs)
  {
    var ws := Words(kind, vs);
    if ws != vs {
      assert ws <= vs;
      TotalPrefix(ws, vs);
    }
  }

  lemma {:induction false} TotalPrefix(ws: seq<string>, vs: seq<string>)
    requires ws <= vs
    ensures TotalLength(ws) <= TotalLength(vs)
  {
    if ws != [] { TotalPrefix(ws[1..], vs[1..]); }
  }

  /** Length of a run of declarations joined with ';'. */
  lemma {:induction false} JoinedLength(w: seq<Decl>, d: nat)
    requires Parsed(w) && d <= |w| && forall e :: 0 <= e < d ==> w[e].prop != ""
    ensures d > 0 ==> |Join(Raws(w[..d]))| >= ValuesLength(w, d) + d - 1 + d + |w[0].prop|
    decreases d
  {
    hide Scan, Pieces;
    if d == 1 {
      assert Raws(w[..1]) == [w[0].raw];
      RawLength(w[0].raw);
    } else if d > 1 {
      JoinedLength(w, d - 1);
      assert Raws(w[..d]) == Raws(w[..d - 1]) + [w[d - 1].raw];
      JoinSnoc(Raws(w[..d - 1]), w[d - 1].raw);
      RawLength(w[d - 1].raw);
    }
  }

  lemma RawLength(raw: string)
    requires Of(raw).prop != ""
    ensures |raw| == |Of(raw).prop| + 1 + |Of(raw).value|
  {}

  lemma JoinSnoc(ps: seq<string>, p: string)
    requires ps != []
    ensures |Join(ps + [p])| == |Join(ps)| + 1 + |p|
  {
    if |ps| == 1 {
      assert (ps + [p])[1..] == [p];
    } else {
      assert (ps + [p])[1..] == ps[1..] + [p];
    }
  }

  lemma LonghandIsLonger(f: Family, l: nat)
    requires l < f.Count()
    ensures |f.Shorthand()| < |f.Longhands()[l]|
  {}

  lemma HitShortens(ds: seq<Decl>)
    requires Parsed(ds) && FirstHit(ds, FAMILIES).Some?
    ensures var hit := FirstHit(ds, FAMILIES).value;
            |ShorthandText(hit.family, hit.values)| <= |Join(Raws(ds[..hit.family.Count()]))|
  {
    hide AllCollapsible, Filled, Words, Spaced, Pieces, Of, FAMILIES;
    HitSound(ds, FAMILIES);
    var hit := FirstHit(ds, FAMILIES).value;
    var f, vs := hit.family, hit.values;
    var n, names := f.Count(), f.Longhands();
    var w := ds[..n];
    AllSlots(w, names);
    var m := Filled(w, names, n).value;
    FilledLength(w, names, n);
    SlotsTotal(m, vs);
    WordsLength(f.Kind(), vs);
    SpacedLength(Words(f.Kind(), vs));
    forall e | 0 <= e < n ensures w[e].prop != "" {
      FilledSound(w, names, n, e);
      LonghandIsLonger(f, Slot(names, w[e].prop, 0));
    }
    FilledSound(w, names, n, 0);
    LonghandIsLonger(f, Slot(names, w[0].prop, 0));
    ParsedPrefix(ds, n);
    JoinedLength(w, n);
    assert w[..n] == w;
  }

  lemma ParsedPrefix(ds: seq<Decl>, n: nat)
    requires Parsed(ds) && n <= |ds|
    ensures Parsed(ds[..n])
  {
    hide Closed, Whole, Of;
    var ps := Raws(ds[..n]);
    if 0 < n < |ds| {
      assert Raws(ds)[n - 1] == ps[n - 1];
      ClosedIsWhole(ps[n - 1]);
    }
  }

  lemma {:induction false} JoinConcat(x: seq<string>, y: seq<string>)
    requires x != [] && y != []
    ensures |Join(x + y)| == |Join(x)| + 1 + |Join(y)|
  {
    if |x| == 1 {
      assert (x + y)[1..] == y;
    } else {
      assert (x + y)[1..] == x[1..] + y;
      JoinConcat(x[1..], y);
    }
  }

  lemma ConsLength(p: string, ps: seq<string>)
    ensures |Join([p] + ps)| == |p| + if ps == [] then 0 else 1 + |Join(ps)|
  {}

  lemma RawsConcat(x: seq<Decl>, y: seq<Decl>)
    ensures Raws(x + y) == Raws(x) + Raws(y)
  {
    assert forall k :: 0 <= k < |x + y| ==> Raws(x + y)[k] == (Raws(x) + Raws(y))[k];
  }

  lemma {:induction false} SplitLength(ds: seq<Decl>, n: nat)
    requires 0 < n <= |ds|
    ensures |Join(Raws(ds))| == |Join(Raws(ds[..n]))| + if n == |ds| then 0 else 1 + |Join(Raws(ds[n..]))|
  {
    hide Join, Raws;
    if n == |ds| {
      assert ds[..n] == ds;
    } else {
      RawsConcat(ds[..n], ds[n..]);
      assert ds == ds[..n] + ds[n..];
      JoinConcat(Raws(ds[..n]), Raws(ds[n..]));
    }
  }

  lemma {:induction false} CollapsedIsShort(ds: seq<Decl>)
    requires Parsed(ds)
    ensures |Join(Collapsed(ds))| <= |Join(Raws(ds))|
    decreases |ds|
  {
    hide FirstHit, ShorthandText, Parsed, Of, Join, Raws;
    if ds != [] {
      match FirstHit(ds, FAMILIES)
      case Some(hit) =>
        var n, text := hit.family.Count(), ShorthandText(hit.family, hit.values);
        HitText(ds);
        HitShortens(ds);
        ParsedSuffix(ds, n);
        CollapsedIsShort(ds[n..]);
        CollapsedPieces(ds[n..]);
        SplitLength(ds, n);
        ConsLength(text, Collapsed(ds[n..]));
      case None =>
        ParsedSuffix(ds, 1);
        CollapsedIsShort(ds[1..]);
        CollapsedPieces(ds[1..]);
        SplitLength(ds, 1);
        ConsLength(ds[0].raw, Collapsed(ds[1..]));
        assert Join(Raws(ds[..1])) == ds[0].raw by { OneRaw(ds[0]); assert ds[..1] == [ds[0]]; }
    }
  }

  lemma OneRaw(d: Decl)
    ensures Join(Raws([d])) == d.raw
  {}

  // ---- the three results ---------------------------------------------------------------------------

  /** What is parsed back from a collapsed block. */
  lemma ReparsedBlock(block: string)
    requires ParseDecls(block) != []
    ensures ParseDecls(CollapseBlockSpec(block)) == DeclsOf(Collapsed(ParseDecls(block))) != []
  {
    hide Collapsed, ParseDecls, Pieces, Of;
    BlockIsParsed(block);
    CollapsedPieces(ParseDecls(block));
    ParseOfJoin(Collapsed(ParseDecls(block)));
  }

  /**
   For every browser: the collapsed block gives every property the same values in
   the same order, exactly when the browser accepts or rejects together the values
   that are collapsed together.
   */
  lemma CollapsePreservesMeaning(b: Browser, block: string)
    ensures (forall prop ::
               History(b, ParseDecls(CollapseBlockSpec(block)), prop) == History(b, ParseDecls(block), prop))
            <==> AllUniform(b, ParseDecls(block))
  {
    hide Collapsed, ParseDecls, History, DeclsOf, AllUniform;
    var ds := ParseDecls(block);
    if ds == [] {
      assert AllUniform(b, ds) by { NothingMixed(b); }
    } else {
      ReparsedBlock(block);
      BlockIsParsed(block);
      if AllUniform(b, ds) {
        forall prop ensures History(b, ParseDecls(CollapseBlockSpec(block)), prop) == History(b, ds, prop) {
          CollapsedMeans(b, ds, prop);
        }
      } else {
        var prop := MixedBlockLoses(b, ds);
        assert History(b, ParseDecls(CollapseBlockSpec(block)), prop) != History(b, ds, prop);
      }
    }
  }

  /** The browser accepts whatever the value gate recognises as legal. */
  ghost predicate AcceptsLegal(b: Browser) {
    forall f: Family, l: nat, v: string ::
      l < f.Count() && IsFamilyLegalValue(v, f.Class(l)) ==> b.accepts(f.Longhands()[l], v)
  }

  /** For such a browser the condition is met by every block. */
  lemma {:induction false} LegalIsUniform(b: Browser, ds: seq<Decl>)
    requires AcceptsLegal(b)
    ensures AllUniform(b, ds)
    decreases |ds|
  {
    hide FirstHit, AcceptsLegal, FAMILIES, Uniform;
    if ds != [] {
      match FirstHit(ds, FAMILIES)
      case Some(hit) =>
        HitText(ds);
        LegalHit(b, ds);
        LegalIsUniform(b, ds[hit.family.Count()..]);
      case None => LegalIsUniform(b, ds[1..]);
    }
  }

  lemma LegalHit(b: Browser, ds: seq<Decl>)
    requires AcceptsLegal(b) && FirstHit(ds, FAMILIES).Some?
    ensures Uniform(b, FirstHit(ds, FAMILIES).value)
  {
    hide SlotValues, Collapsible, IsFamilyLegalValue, FAMILIES;
    HitSound(ds, FAMILIES);
    var hit := FirstHit(ds, FAMILIES).value;
    var f, vs := hit.family, hit.values;
    forall l | 0 <= l < |vs| ensures b.accepts(f.Longhands()[l], vs[l]) {
      AdmittedIsLegal(vs[l], f.Class(l));
    }
  }

  lemma AdmittedIsLegal(v: string, cls: ValueClass)
    requires Collapsible(v, cls)
    ensures IsFamilyLegalValue(v, cls)
  {}

  lemma NothingMixed(b: Browser)
    ensures AllUniform(b, [])
  {}

  /** Collapsing a collapsed block changes nothing. */
  lemma CollapseIsIdempotent(block: string)
    ensures CollapseBlockSpec(CollapseBlockSpec(block)) == CollapseBlockSpec(block)
  {
    hide Collapsed, ParseDecls, DeclsOf;
    if ParseDecls(block) != [] {
      ReparsedBlock(block);
      BlockIsParsed(block);
      CollapsedIsFixed(ParseDecls(block));
    }
  }

  lemma CollapseNeverGrows(block: string)
    ensures |CollapseBlockSpec(block)| <= |block|
  {
    hide Collapsed, ParseDecls, DeclsOf;
    BlockIsParsed(block);
    ParseGivesPieces(block);
    CollapsedIsShort(ParseDecls(block));
  }
}
