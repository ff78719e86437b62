/**
 The longhand-to-shorthand collapse of a declaration block.  Its meaning is
 given by what a browser assigns: for every property, the sequence of values a
 block gives it, in order.  Any cascade rule, last-wins included, is a function
 of those sequences.
 */
module CssCollapse {
  import opened Options
  import opened CssValues
  import opened CssDecls

  datatype Kind = BoxModel | BorderSide | OverflowPair

  datatype Family = Padding | Margin | BorderTop | BorderRight | BorderBottom | BorderLeft | OverflowXY {

    function Shorthand(): string {
      match this
      case Padding => "padding"
      case Margin => "margin"
      case BorderTop => "border-top"
      case BorderRight => "border-right"
      case BorderBottom => "border-bottom"
      case BorderLeft => "border-left"
      case OverflowXY => "overflow"
    }

    function Longhands(): seq<string> {
      match this
      case Padding => ["padding-top", "padding-right", "padding-bottom", "padding-left"]
      case Margin => ["margin-top", "margin-right", "margin-bottom", "margin-left"]
      case BorderTop => ["border-top-width", "border-top-style", "border-top-color"]
      case BorderRight => ["border-right-width", "border-right-style", "border-right-color"]
      case BorderBottom => ["border-bottom-width", "border-bottom-style", "border-bottom-color"]
      case BorderLeft => ["border-left-width", "border-left-style", "border-left-color"]
      case OverflowXY => ["overflow-x", "overflow-y"]
    }

    function Kind(): Kind {
      match this
      case Padding => BoxModel
      case Margin => BoxModel
      case OverflowXY => OverflowPair
      case _ => BorderSide
    }

    function Class(l: nat): ValueClass {
      match this
      case Padding => Length
      case Margin => LengthAuto
      case OverflowXY => Overflow
      case _ => if l == 0 then LineWidth else if l == 1 then LineStyle else Color
    }

    function Count(): (n: nat)
      ensures n == |Longhands()|
    {
      match Kind()
      case BoxModel => 4
      case BorderSide => 3
      case OverflowPair => 2
    }
  }

  const FAMILIES: seq<Family> := [Padding, Margin, BorderTop, BorderRight, BorderBottom, BorderLeft, OverflowXY]

  // ---- the collapse -------------------------------------------------------------

  /** The words written after the shorthand's colon. */
  function Words(kind: Kind, vs: seq<string>): seq<string>
    requires kind.BoxModel? ==> |vs| == 4
    requires kind.OverflowPair? ==> |vs| == 2
  {
    match kind
    case BoxModel =>
      if vs[0] == vs[1] && vs[1] == vs[2] && vs[2] == vs[3] then [vs[0]]
      else if vs[0] == vs[2] && vs[1] == vs[3] then [vs[0], vs[1]]
      else if vs[1] == vs[3] then [vs[0], vs[1], vs[2]]
      else vs
    case BorderSide => vs
    case OverflowPair => if vs[0] != vs[1] then vs else [vs[0]]
  }

  function Spaced(ws: seq<string>): string {
    if |ws| == 0 then "" else if |ws| == 1 then ws[0] else ws[0] + " " + Spaced(ws[1..])
  }

  /** The slot of longhand `prop` from `l` on, or the number of longhands. */
  function Slot(names: seq<string>, prop: string, l: nat): (k: nat)
    requires l <= |names|
    ensures l <= k <= |names|
    ensures k < |names| ==> names[k] == prop
    ensures forall j :: l <= j < k ==> names[j] != prop
    decreases |names| - l
  {
    if l < |names| && names[l] != prop then Slot(names, prop, l + 1) else l
  }

  /** The values of the first `d` declarations by longhand slot, when they fill distinct slots. */
  function Filled(w: seq<Decl>, names: seq<string>, d: nat): (r: Option<map<nat, string>>)
    requires d <= |w|
    ensures r.Some? ==> |r.value| == d && forall l :: l in r.value ==> l < |names|
  {
    if d == 0 then Some(map[])
    else match Filled(w, names, d - 1)
      case None => None
      case Some(m) =>
        var l := Slot(names, w[d - 1].prop, 0);
        if l == |names| || l in m then None else Some(m[l := w[d - 1].value])
  }

  lemma SameSize(a: set<nat>, n: nat)
    requires forall x :: x in a ==> x < n
    requires |a| == n
    ensures forall x: nat :: x < n ==> x in a
  {
    if n > 0 {
      var b := a - {n - 1};
      if n - 1 !in a {
        assert b == a;
        Bounded(a, n - 1);
      }
      SameSize(b, n - 1);
    }
  }

  lemma Bounded(a: set<nat>, n: nat)
    requires forall x :: x in a ==> x < n
    ensures |a| <= n
  {
    if n > 0 {
      Bounded(a - {n - 1}, n - 1);
    }
  }

  /** As many declarations as longhands, in distinct slots, fill every slot. */
  lemma AllSlots(w: seq<Decl>, names: seq<string>)
    requires |w| == |names| && Filled(w, names, |w|).Some?
    ensures forall l :: 0 <= l < |names| ==> l in Filled(w, names, |w|).value
  {
    SameSize(Filled(w, names, |w|).value.Keys, |w|);
  }

  /** The window's values in longhand order, when the window is the family exactly once. */
  function SlotValues(w: seq<Decl>, names: seq<string>): (r: Option<seq<string>>)
    requires |w| == |names|
    ensures r.Some? ==> |r.value| == |names|
  {
    match Filled(w, names, |w|)
    case None => None
    case Some(m) =>
      AllSlots(w, names);
      Some(seq(|names|, l requires 0 <= l < |names| => m[l]))
  }

  predicate AllCollapsible(f: Family, vs: seq<string>) {
    forall l :: 0 <= l < |vs| ==> Collapsible(vs[l], f.Class(l))
  }

  function ShorthandText(f: Family, vs: seq<string>): string
    requires |vs| == f.Count()
  {
    f.Shorthand() + ":" + Spaced(Words(f.Kind(), vs))
  }

  /** The values the first declarations give family `f`, when they may be collapsed. */
  function TryCollapse(ds: seq<Decl>, f: Family): (r: Option<seq<string>>)
    ensures r.Some? ==> |r.value| == f.Count() <= |ds| && AllCollapsible(f, r.value)
  {
    if |ds| < f.Count() then None
    else match SlotValues(ds[..f.Count()], f.Longhands())
      case None => None
      case Some(vs) => if AllCollapsible(f, vs) then Some(vs) else None
  }

  datatype Hit = Hit(family: Family, values: seq<string>)

  /** The first of `families` that collapses the front of `ds`. */
  function FirstHit(ds: seq<Decl>, families: seq<Family>): (r: Option<Hit>)
    ensures r.Some? ==> |r.value.values| == r.value.family.Count() <= |ds|
  {
    if families == [] then None
    else match TryCollapse(ds, families[0])
      case Some(vs) => Some(Hit(families[0], vs))
      case None => FirstHit(ds, families[1..])
  }

  function Collapsed(ds: seq<Decl>): seq<string>
    decreases |ds|
  {
    if ds == [] then []
    else match FirstHit(ds, FAMILIES)
      case Some(hit) => [ShorthandText(hit.family, hit.values)] + Collapsed(ds[hit.family.Count()..])
      case None => [ds[0].raw] + Collapsed(ds[1..])
  }

  function CollapseBlockSpec(block: string): string {
    var ds := ParseDecls(block);
    if ds == [] then block else Join(Collapsed(ds))
  }

  // ---- the source's loops --------------------------------------------------------

  /** `text` appended to `out`, a ';' between them when `out` is not empty. */
  function Appended(out: string, text: string): string {
    (if out == "" then "" else out + ";") + text
  }

  /** The slots filled so far, as the source keeps them: a value and a flag per longhand. */
  ghost predicate Keeps(values: seq<string>, matched: seq<bool>, m: map<nat, string>) {
    && |values| == |matched|
    && (forall l :: l in m ==> l < |matched|)
    && forall l :: 0 <= l < |matched| ==> (matched[l] <==> l in m) && (matched[l] ==> values[l] == m[l])
  }

  lemma KeepsOneMore(values: seq<string>, matched: seq<bool>, m: map<nat, string>, l: nat, v: string)
    requires Keeps(values, matched, m) && l < |matched|
    ensures Keeps(values[l := v], matched[l := true], m[l := v])
  {}

  lemma KeepsNone(values: seq<string>, matched: seq<bool>)
    requires |values| == |matched| && forall l | 0 <= l < |matched| :: !matched[l]
    ensures Keeps(values, matched, map[])
  {}

  lemma KeepsAt(values: seq<string>, matched: seq<bool>, m: map<nat, string>, l: nat)
    requires Keeps(values, matched, m) && l < |matched|
    ensures matched[l] <==> l in m
  {}

  lemma FilledNone(w: seq<Decl>, names: seq<string>)
    ensures Filled(w, names, 0) == Some(map[])
  {}

  lemma FilledNext(w: seq<Decl>, names: seq<string>, d: nat, m: map<nat, string>)
    requires d < |w| && Filled(w, names, d) == Some(m)
    ensures var l := Slot(names, w[d].prop, 0);
            Filled(w, names, d + 1) == if l == |names| || l in m then None else Some(m[l := w[d].value])
  {
    hide Slot;
  }

  lemma KeepsAll(w: seq<Decl>, names: seq<string>, values: seq<string>, matched: seq<bool>)
    requires |w| == |names| == |values| && Filled(w, names, |w|).Some?
    requires Keeps(values, matched, Filled(w, names, |w|).value)
    ensures SlotValues(w, names) == Some(values)
  {
    hide Filled;
    AllSlots(w, names);
    var expected := SlotValues(w, names).value;
    assert forall l :: 0 <= l < |names| ==> expected[l] == values[l];
    assert expected == values;
  }

  /** Assigns each declaration of the window to the longhand it names, each longhand once. */
  method MatchLonghands(w: seq<Decl>, names: seq<string>) returns (r: Option<seq<string>>)
    requires |w| == |names|
    ensures r == SlotValues(w, names)
  {
    hide Keeps, Filled, Slot, SlotValues;
    var n := |names|;
    var values, matched := seq(n, _ => ""), seq(n, _ => false);
    FilledNone(w, names);
    KeepsNone(values, matched);
    ghost var m: map<nat, string> := map[];
    for d := 0 to n
      invariant Filled(w, names, d) == Some(m)
      invariant |values| == |matched| == n && Keeps(values, matched, m)
    {
      var l := FindSlot(names, w[d].prop);
      FilledNext(w, names, d, m);
      if l < n { KeepsAt(values, matched, m, l); }
      if l == n || matched[l] {
        FilledFails(w, names, d + 1, n);
        NoValues(w, names);
        return None;
      }
      KeepsOneMore(values, matched, m, l, w[d].value);
      values, matched, m := values[l := w[d].value], matched[l := true], m[l := w[d].value];
    }
    KeepsAll(w, names, values, matched);
    return Some(values);
  }

  lemma NoValues(w: seq<Decl>, names: seq<string>)
    requires |w| == |names| && Filled(w, names, |w|).None?
    ensures SlotValues(w, names) == None
  {
    hide Filled;
  }

  method TryCollapseFamily(ds: seq<Decl>, family: Family, out: string) returns (consumed: nat, extended: string)
    ensures match TryCollapse(ds, family)
            case None => consumed == 0 && extended == out
            case Some(vs) =>
              consumed == family.Count() && extended == Appended(out, ShorthandText(family, vs))
  {
    hide Collapsible, ShorthandText, SlotValues;
    if |ds| < family.Count() { return 0, out; }
    var matched := MatchLonghands(ds[..family.Count()], family.Longhands());
    if matched.None? { return 0, out; }
    var values := matched.value;
    for l := 0 to |values|
      invariant forall k :: 0 <= k < l ==> Collapsible(values[k], family.Class(k))
    {
      if !Collapsible(values[l], family.Class(l)) { return 0, out; }
    }
    return family.Count(), Appended(out, ShorthandText(family, values));
  }

  method FindSlot(names: seq<string>, prop: string) returns (l: nat)
    ensures l == Slot(names, prop, 0)
  {
    l := 0;
    while l < |names| && names[l] != prop
      invariant l <= |names| && Slot(names, prop, l) == Slot(names, prop, 0)
    {
      l := l + 1;
    }
  }

  lemma FilledFails(w: seq<Decl>, names: seq<string>, d: nat, n: nat)
    requires d <= n <= |w| && Filled(w, names, d).None?
    ensures Filled(w, names, n).None?
  {}

  /** The first family that takes the front declarations, tried in table order. */
  method TryFamilies(ds: seq<Decl>, out: string) returns (consumed: nat, extended: string)
    ensures match FirstHit(ds, FAMILIES)
            case None => consumed == 0 && extended == out
            case Some(hit) =>
              && consumed == hit.family.Count()
              && extended == Appended(out, ShorthandText(hit.family, hit.values))
  {
    hide TryCollapse, ShorthandText, FAMILIES;
    var k := 0;
    while k < |FAMILIES|
      invariant k <= |FAMILIES| && FirstHit(ds, FAMILIES[k..]) == FirstHit(ds, FAMILIES)
    {
      assert FAMILIES[k..][0] == FAMILIES[k] && FAMILIES[k..][1..] == FAMILIES[k + 1..];
      consumed, extended := TryCollapseFamily(ds, FAMILIES[k], out);
      if consumed > 0 { return; }
      k := k + 1;
    }
    return 0, out;
  }

  /** Joining piece by piece, as the source appends them. */
  lemma {:induction false} AppendJoin(ps: seq<string>, p: string)
    requires forall k :: 0 <= k < |ps| ==> ps[k] != ""
    ensures Join(ps + [p]) == Appended(Join(ps), p)
    ensures ps != [] ==> Join(ps) != ""
  {
    if |ps| == 1 {
      assert (ps + [p])[1..] == [p];
    } else if |ps| > 1 {
      AppendJoin(ps[1..], p);
      assert (ps + [p])[1..] == ps[1..] + [p];
      assert ps[0] + ";" + (Join(ps[1..]) + ";" + p) == (ps[0] + ";" + Join(ps[1..])) + ";" + p;
    }
  }

  /** The pieces of the declarations from `i` on: the next one, then the rest. */
  lemma NextPiece(ds: seq<Decl>, i: nat)
    requires i < |ds|
    ensures match FirstHit(ds[i..], FAMILIES)
            case None => Collapsed(ds[i..]) == [ds[i].raw] + Collapsed(ds[i + 1..])
            case Some(hit) =>
              var n := hit.family.Count();
              i + n <= |ds|
              && Collapsed(ds[i..]) == [ShorthandText(hit.family, hit.values)] + Collapsed(ds[i + n..])
  {
    hide FirstHit, ShorthandText;
    assert ds[i..][1..] == ds[i + 1..];
    match FirstHit(ds[i..], FAMILIES)
    case None =>
    case Some(hit) => assert ds[i..][hit.family.Count()..] == ds[i + hit.family.Count()..];
  }

  method CollapseBlock(block: string) returns (result: string)
    ensures result == CollapseBlockSpec(block)
  {
    hide ParseDecls, FirstHit, ShorthandText, Join, Collapsed, Appended;
    var ds := ParseBlockDecls(block);
    if ds == [] { return block; }
    result := "";
    var i := 0;
    ghost var done: seq<string> := [];
    NoneJoined();
    RawsNonEmpty(block);
    assert ds[0..] == ds && [] + Collapsed(ds) == Collapsed(ds);
    while i < |ds|
      invariant i <= |ds| && done + Collapsed(ds[i..]) == Collapsed(ds)
      invariant forall k :: 0 <= k < |done| ==> done[k] != ""
      invariant result == Join(done)
    {
      NextPiece(ds, i);
      var consumed, extended := TryFamilies(ds[i..], result);
      ghost var piece;
      ghost var rest;
      if consumed == 0 {
        piece, rest := ds[i].raw, Collapsed(ds[i + 1..]);
        result, i := Appended(result, ds[i].raw), i + 1;
      } else {
        ghost var hit := FirstHit(ds[i..], FAMILIES).value;
        piece, rest := ShorthandText(hit.family, hit.values), Collapsed(ds[i + consumed..]);
        ShorthandTextNonEmpty(hit.family, hit.values);
        result, i := extended, i + consumed;
      }
      AppendJoin(done, piece);
      assert done + ([piece] + rest) == (done + [piece]) + rest;
      done := done + [piece];
    }
    assert ds[i..] == [];
    NoneCollapsed();
    assert done + [] == done;
  }

  lemma NoneCollapsed()
    ensures Collapsed([]) == []
  {}

  lemma NoneJoined()
    ensures Join([]) == ""
  {}

  lemma ShorthandTextNonEmpty(f: Family, vs: seq<string>)
    requires |vs| == f.Count()
    ensures ShorthandText(f, vs) != ""
  {}

  lemma {:induction false} RawsNonEmpty(s: string)
    ensures forall k :: 0 <= k < |ParseDecls(s)| ==> ParseDecls(s)[k].raw != ""
    decreases |s|
  {
    hide Scan;
    if s != "" {
      var e := Scan(s, FRONT);
      RawsNonEmpty(if e.end < |s| then s[e.end + 1..] else "");
    }
  }
}
