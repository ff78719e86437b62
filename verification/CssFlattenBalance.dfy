/**
 When the flattened text is balanced and every condition covers its whole sheet:
 when no two texts that flattening puts side by side join into one token.
 */
module CssFlattenBalance {
  import opened Options
  import opened CssBalance
  import opened CssEmbed
  import opened CssSeams
  import opened CssPrelude
  import opened CssImports
  import opened CssFlatten
  import opened CssFlattenText

  // ---- the condition ----------------------------------------------------------------------

  /** Rebasing the URLs of a balanced sheet leaves it balanced. */
  ghost predicate KeepsBalance(web: Web) {
    forall css, from, to :: Balanced(css) ==> Balanced(web.rebase(css, from, to))
  }

  /** What an import is replaced with. */
  function Inlay(web: Web, sheet: Sheet, imp: Import, slots: Slots): string {
    if !slots.Child? then ""
    else
      var key := Target(web, sheet.key, imp);
      Wrapped(imp.media,
              web.rebase(Render(web, Sheet(slots.css, key), Imports(slots.css), slots.inner, 0), key.0, sheet.key.0))
  }

  function After(web: Web, sheet: Sheet, imports: seq<Import>, slots: Slots): string
    requires imports != [] && !slots.Nil?
  {
    Render(web, sheet, imports[1..], slots.rest, imports[0].end)
  }

  lemma RenderIs(web: Web, sheet: Sheet, imports: seq<Import>, slots: Slots, from: nat)
    requires imports != [] && !slots.Nil?
    ensures Render(web, sheet, imports, slots, from)
         == Cut(sheet.css, from, imports[0].start)
            + (Inlay(web, sheet, imports[0], slots) + After(web, sheet, imports, slots))
  {
    hide Imports, Target, Wrapped, Cut;
  }

  /**
   Every import stands between tokens of its sheet, and no text that is put side by
   side with another joins it: what stands before an import with what replaces it,
   and a sheet inlined without condition with what follows it.
   */
  ghost predicate Apart(web: Web, sheet: Sheet, imports: seq<Import>, slots: Slots, from: nat)
    decreases slots
  {
    if imports == [] || slots.Nil? then true
    else
      var imp, gap := imports[0], Cut(sheet.css, from, imports[0].start);
      var inlay, after := Inlay(web, sheet, imp, slots), After(web, sheet, imports, slots);
      && Between(sheet.css, imp.start) && Between(sheet.css, imp.end)
      && Joins(gap, inlay + after)
      && (slots.Child? && imp.media == "" ==> Joins(inlay, after))
      && (slots.Child? ==>
            Apart(web, Sheet(slots.css, Target(web, sheet.key, imp)), Imports(slots.css), slots.inner, 0))
      && Apart(web, sheet, imports[1..], slots.rest, imp.end)
  }

  /** The sheets inlined are balanced and all conditions safe, as the flattener checks. */
  ghost predicate Checked(imports: seq<Import>, slots: Slots)
    decreases slots
  {
    if slots.Nil? then imports == []
    else
      && imports != [] && (imports[0].media == "" || SafeFrom(imports[0].media, 0, 0))
      && (slots.Child? ==> Balanced(slots.css) && Checked(Imports(slots.css), slots.inner))
      && Checked(imports[1..], slots.rest)
  }

  // ---- the flattened text is balanced --------------------------------------------------------

  ghost predicate AllShaped(css: string, imports: seq<Import>) {
    forall imp | imp in imports :: Shaped(css, imp)
  }

  /** Where a stretch of the sheet may begin. */
  ghost predicate Starts(css: string, from: nat) {
    from <= |css| && Between(css, from) && (from == 0 || css[from - 1] == ';')
  }

  lemma {:induction false} RenderIsBalanced(web: Web, sheet: Sheet, imports: seq<Import>, slots: Slots, from: nat)
    requires KeepsBalance(web) && Balanced(sheet.css) && Starts(sheet.css, from)
    requires AllShaped(sheet.css, imports) && Ordered(imports, from, |sheet.css|)
    requires Checked(imports, slots) && Apart(web, sheet, imports, slots, from)
    ensures Balanced(Render(web, sheet, imports, slots, from))
    decreases slots, 2
  {
    hide Balanced, Joins, Imports, Between, Inlay, After, Render, Shaped, KeepsBalance, SafeFrom;
    if imports == [] || slots.Nil? {
      RestIsBalanced(sheet.css, from);
      NothingLeft(web, sheet, imports, slots, from);
    } else {
      var imp, gap := imports[0], Cut(sheet.css, from, imports[0].start);
      var inlay, after := Inlay(web, sheet, imp, slots), After(web, sheet, imports, slots);
      assert imp in imports;
      StartsAfter(sheet.css, imp);
      RenderIsBalanced(web, sheet, imports[1..], slots.rest, imp.end);
      assert Balanced(after) by { AfterIs(web, sheet, imports, slots); }
      assert Balanced(gap) by { CutIsBalanced(sheet.css, from, imp); }
      InlayIsBalanced(web, sheet, imports, slots);
      assert Balanced(inlay + after) by { InlayJoins(web, sheet, imports, slots); }
      JoinIsBalanced(gap, inlay + after);
      RenderIs(web, sheet, imports, slots, from);
    }
  }

  lemma AfterIs(web: Web, sheet: Sheet, imports: seq<Import>, slots: Slots)
    requires imports != [] && !slots.Nil?
    ensures After(web, sheet, imports, slots) == Render(web, sheet, imports[1..], slots.rest, imports[0].end)
  {
    hide Render;
  }

  lemma NothingLeft(web: Web, sheet: Sheet, imports: seq<Import>, slots: Slots, from: nat)
    requires (imports == [] || slots.Nil?) && from <= |sheet.css|
    ensures Render(web, sheet, imports, slots, from) == sheet.css[from..]
  {
    assert sheet.css[from..|sheet.css|] == sheet.css[from..];
  }

  lemma StartsAfter(css: string, imp: Import)
    requires Shaped(css, imp) && Between(css, imp.end)
    ensures Starts(css, imp.end)
  {}

  lemma CutIsBalanced(css: string, from: nat, imp: Import)
    requires Starts(css, from) && Shaped(css, imp) && from <= imp.start && Between(css, imp.start)
    ensures Balanced(Cut(css, from, imp.start))
  {
    hide Between, Balanced;
    GapIsBalanced(css, from, imp.start);
  }

  /** What replaces an import is balanced. */
  lemma {:induction false} InlayIsBalanced(web: Web, sheet: Sheet, imports: seq<Import>, slots: Slots)
    requires imports != [] && !slots.Nil? && KeepsBalance(web) && Checked(imports, slots)
    requires slots.Child? ==>
               Apart(web, Sheet(slots.css, Target(web, sheet.key, imports[0])), Imports(slots.css), slots.inner, 0)
    ensures Balanced(Inlay(web, sheet, imports[0], slots))
    decreases slots, 1
  {
    hide Balanced, Imports, SafeFrom, Apart, Wrapped, Target;
    if slots.Child? {
      var text := RebasedIsBalanced(web, sheet, imports[0], slots);
      WrappedIsBalanced(imports[0].media, text);
    } else {
      assert Balanced("") by { NothingIsBalanced(); }
    }
  }

  lemma StartsAtZero(css: string)
    ensures Starts(css, 0)
  {}

  lemma WrappedIsBalanced(media: string, text: string)
    requires Balanced(text) && (media == "" || SafeFrom(media, 0, 0))
    ensures Balanced(Wrapped(media, text))
  {
    hide Balanced, SafeFrom;
    if media != "" {
      NothingIsBalanced();
      BlockIsContained("", media, text);
      assert "" + Wrapped(media, text) == Wrapped(media, text);
    }
  }

  /** An inlined sheet does not join what follows: by the condition, or by the end of its block. */
  lemma InlayJoins(web: Web, sheet: Sheet, imports: seq<Import>, slots: Slots)
    requires imports != [] && !slots.Nil? && KeepsBalance(web)
    requires Checked(imports, slots) && Balanced(Inlay(web, sheet, imports[0], slots))
    requires Balanced(After(web, sheet, imports, slots))
    requires slots.Child? ==>
               Apart(web, Sheet(slots.css, Target(web, sheet.key, imports[0])), Imports(slots.css), slots.inner, 0)
    requires slots.Child? && imports[0].media == "" ==>
               Joins(Inlay(web, sheet, imports[0], slots), After(web, sheet, imports, slots))
    ensures var inlay, after := Inlay(web, sheet, imports[0], slots), After(web, sheet, imports, slots);
            Joins(inlay, after) && Balanced(inlay + after)
    decreases slots, 1
  {
    hide Balanced, After, Imports, Render, Apart, SafeFrom, Wrapped, Target, Sealed;
    var inlay, after := Inlay(web, sheet, imports[0], slots), After(web, sheet, imports, slots);
    if !slots.Child? {
      assert Sealed("") by { NothingIsSealed(); }
    } else if imports[0].media != "" {
      var text := RebasedIsBalanced(web, sheet, imports[0], slots);
      BlockIsSealed(imports[0].media, text);
    }
    JoinIsBalanced(inlay, after);
  }

  lemma RebasedIsBalanced(web: Web, sheet: Sheet, imp: Import, slots: Slots) returns (text: string)
    requires slots.Child? && KeepsBalance(web)
    requires Balanced(slots.css) && Checked(Imports(slots.css), slots.inner)
    requires Apart(web, Sheet(slots.css, Target(web, sheet.key, imp)), Imports(slots.css), slots.inner, 0)
    ensures Inlay(web, sheet, imp, slots) == Wrapped(imp.media, text) && Balanced(text)
    decreases slots, 0
  {
    hide Balanced, Imports, Between, Render, Shaped, Apart, Checked, Wrapped, Target;
    var key := Target(web, sheet.key, imp);
    var child := Sheet(slots.css, key);
    ImportsShaped(slots.css);
    ImportsOrdered(slots.css);
    StartsAtZero(slots.css);
    RenderIsBalanced(web, child, Imports(slots.css), slots.inner, 0);
    text := web.rebase(Render(web, child, Imports(slots.css), slots.inner, 0), key.0, sheet.key.0);
  }

  /** An @media block is sealed by its last brace. */
  lemma BlockIsSealed(media: string, text: string)
    requires Balanced(text) && media != "" && SafeFrom(media, 0, 0)
    ensures Sealed(Wrapped(media, text))
  {
    hide SafeFrom, Wrapped, Balanced, WalkTo, Sealed;
    var front := BlockFront(media, text);
    SealedByBrace(front);
  }

  /** A block up to its last brace. */
  lemma BlockFront(media: string, text: string) returns (front: string)
    requires Balanced(text) && media != "" && SafeFrom(media, 0, 0)
    ensures Wrapped(media, text) == front + "}\n" && WalkTo(front, 0, 0, 0, |front|) == Some(1)
    ensures |"@media " + media| + 1 < |front|
  {
    hide SafeFrom, Wrapped, Balanced, WalkTo;
    NothingIsBalanced();
    var r := BlockWalks("", media, text);
    front := r[..|r| - 1];
    assert r == front + "}";
    assert "" + Wrapped(media, text) == Wrapped(media, text);
    assert front + "}" + "\n" == front + "}\n";
    StepInto(r, |"" + "@media " + media| + 1, |r| - 1);
    WalkWithin(front, "}", 0, 0, 0, |front|);
  }

  lemma SealedByBrace(front: string)
    requires WalkTo(front, 0, 0, 0, |front|).Some?
    ensures Sealed(front + "}\n")
  {
    hide WalkTo, Lid;
    var w, k := front + "}\n", |front|;
    assert w[..k] == front && w[k..] == "}\n";
    LidOfBrace();
    assert SealedAt(w, k, 1);
  }

  lemma LidOfBrace()
    ensures Lid("}\n", 1)
  {
    assert "}\n"[1..] == "\n";
  }

  /** Through the opening brace of a block to its closing one. */
  lemma StepInto(r: string, open: nat, close: nat)
    requires open < close <= |r| && r[open] == '{'
    requires WalkTo(r, 0, 0, 0, open) == Some(0) && WalkTo(r, open + 1, 1, 1, close) == Some(1)
    ensures WalkTo(r, 0, 0, 0, close) == Some(1)
  {
    hide Next;
    WalkOn(r, 0, 0, 0, open, close);
    StepOpen(r, open, 0, close);
    LowerFloor(r, open + 1, 1, 1, 0, close);
  }

  lemma {:induction false} LowerFloor(s: string, pos: nat, depth: nat, floor: nat, lower: nat, stop: nat)
    requires stop <= |s| && lower <= floor && WalkTo(s, pos, depth, floor, stop).Some?
    ensures WalkTo(s, pos, depth, lower, stop) == WalkTo(s, pos, depth, floor, stop)
    decreases |s| - pos
  {
    hide Next;
    if pos < stop {
      var n := Next(s, pos).value;
      var inner := if s[pos] == '{' then depth + 1 else if s[pos] == '}' then depth - 1 else depth;
      LowerFloor(s, n, inner, floor, lower, stop);
    }
  }

  // ---- every condition covers its whole sheet ----------------------------------------------

  /** A block whose '{' the scan meets outside every brace, and that nothing before its '}' leaves. */
  ghost predicate Holds(whole: string, open: nat, close: nat) {
    && open < close < |whole| && whole[open] == '{' && whole[close] == '}'
    && WalkTo(whole, 0, 0, 0, open) == Some(0) && WalkTo(whole, open + 1, 1, 1, close) == Some(1)
  }

  /** In `whole`, from position `at` on, the block of every import with a condition holds, and so inside the sheets. */
  ghost predicate Contained(
    web: Web, whole: string, sheet: Sheet, imports: seq<Import>, slots: Slots, from: nat, at: nat)
    decreases slots
  {
    if imports == [] || slots.Nil? then true
    else
      var imp, inlay := imports[0], Inlay(web, sheet, imports[0], slots);
      var start := at + |Cut(sheet.css, from, imp.start)|;
      && (slots.Child? && imp.media != "" ==>
            |inlay| > 2 && Holds(whole, start + |"@media " + imp.media| + 1, start + |inlay| - 2))
      && (slots.Child? ==>
            var child := Sheet(slots.css, Target(web, sheet.key, imp));
            Contained(web, Render(web, child, Imports(slots.css), slots.inner, 0),
                      child, Imports(slots.css), slots.inner, 0, 0))
      && Contained(web, whole, sheet, imports[1..], slots.rest, imp.end, start + |inlay|)
  }

  /** What follows the '}' of a block does not change that the block holds. */
  lemma HoldsBefore(front: string, open: nat, after: string)
    requires open < |front| && Holds(front + "}\n", open, |front|)
    ensures Holds(front + "}\n" + after, open, |front|)
  {
    hide WalkTo;
    assert Stops('}');
    var tail := "}\n" + after;
    assert front + "}\n" + after == front + tail;
    WalkWithin(front, "}\n", 0, 0, 0, open);
    WalkWithin(front, "}\n", open + 1, 1, 1, |front|);
    assert tail[0] == '}';
    WalkToBefore(front, tail, 0, 0, 0, open);
    WalkToBefore(front, tail, open + 1, 1, 1, |front|);
  }

  /** A block holds whatever follows it. */
  lemma BlockHolds(media: string, text: string, after: string)
    requires Balanced(text) && media != "" && SafeFrom(media, 0, 0)
    ensures var w := Wrapped(media, text);
            |w| > 2 && w[0] == '@' && Holds(w + after, |"@media " + media| + 1, |w| - 2)
  {
    hide SafeFrom, Wrapped, Balanced, WalkTo;
    var w, open := Wrapped(media, text), |"@media " + media| + 1;
    var front := BlockFront(media, text);
    NothingIsBalanced();
    BlockIsContained("", media, text);
    assert "" + w == w && "" + "@media " + media == "@media " + media;
    assert Holds(front + "}\n", open, |front|);
    HoldsBefore(front, open, after);
    BlockBegins(media, text);
  }

  lemma BlockBegins(media: string, text: string)
    requires media != ""
    ensures Wrapped(media, text)[0] == '@'
  {}

  /** A block that holds in a text holds in a longer one that the scan enters at the text's beginning. */
  lemma HoldsFurther(a: string, b: string, open: nat, close: nat)
    requires Holds(b, open, close) && WalkTo(a + b, 0, 0, 0, |a|) == Some(0) && Detached(a, b)
    ensures Holds(a + b, |a| + open, |a| + close)
  {
    hide WalkTo;
    WalkAfter(a, b, 0, 0, 0, open);
    WalkAfter(a, b, open + 1, 1, 1, close);
    WalkOn(a + b, 0, 0, 0, |a|, |a| + open);
  }

  /** The scan of `a + b` enters `b` at its beginning, and `b` reads as it does alone. */
  ghost predicate Enters(a: string, b: string) {
    WalkTo(a + b, 0, 0, 0, |a|) == Some(0) && (b == "" || Detached(a, b))
  }

  lemma EntersFurther(a: string, b: string, c: string)
    requires Enters(a, b + c) && Enters(b, c)
    ensures Enters(a + b, c)
  {
    hide WalkTo;
    assert a + (b + c) == (a + b) + c;
    if b + c == "" {
      assert a + b == a;
    } else {
      WalkAfter(a, b + c, 0, 0, 0, |b|);
      WalkOn(a + (b + c), 0, 0, 0, |a|, |a + b|);
    }
    if b == "" { assert a + b == a && b + c == c; }
  }

  lemma {:induction false} RenderContains(
    web: Web, before: string, sheet: Sheet, imports: seq<Import>, slots: Slots, from: nat)
    requires KeepsBalance(web) && Balanced(sheet.css) && Starts(sheet.css, from)
    requires AllShaped(sheet.css, imports) && Ordered(imports, from, |sheet.css|)
    requires Checked(imports, slots) && Apart(web, sheet, imports, slots, from)
    requires Enters(before, Render(web, sheet, imports, slots, from))
    ensures Contained(web, before + Render(web, sheet, imports, slots, from), sheet, imports, slots, from, |before|)
    decreases slots, 1
  {
    hide Balanced, Joins, Imports, Between, Inlay, After, Render, Shaped, KeepsBalance, SafeFrom, Enters, Holds, Target,
      Wrapped;
    if imports != [] && !slots.Nil? {
      var imp, gap := imports[0], Cut(sheet.css, from, imports[0].start);
      var inlay, after := Inlay(web, sheet, imp, slots), After(web, sheet, imports, slots);
      assert imp in imports;
      RenderIs(web, sheet, imports, slots, from);
      StartsAfter(sheet.css, imp);
      PartsEnter(web, sheet, imports, slots, from);
      EntersFurther(before, gap, inlay + after);
      var mid := before + gap;
      EntersFurther(mid, inlay, after);
      AfterIs(web, sheet, imports, slots);
      RenderContains(web, mid + inlay, sheet, imports[1..], slots.rest, imp.end);
      assert (mid + inlay) + after == before + Render(web, sheet, imports, slots, from);
      assert mid + (inlay + after) == before + Render(web, sheet, imports, slots, from);
      if slots.Child? {
        ChildContains(web, sheet, imp, slots);
        if imp.media != "" { InlayHolds(web, mid, sheet, imp, slots, after); }
      }
    }
  }

  /** Seams of one import. */
  lemma PartsEnter(web: Web, sheet: Sheet, imports: seq<Import>, slots: Slots, from: nat)
    requires imports != [] && !slots.Nil? && KeepsBalance(web) && Balanced(sheet.css) && Starts(sheet.css, from)
    requires AllShaped(sheet.css, imports) && Ordered(imports, from, |sheet.css|)
    requires Checked(imports, slots) && Apart(web, sheet, imports, slots, from)
    ensures var gap := Cut(sheet.css, from, imports[0].start);
            var inlay, after := Inlay(web, sheet, imports[0], slots), After(web, sheet, imports, slots);
            Enters(gap, inlay + after) && Enters(inlay, after)
  {
    hide Balanced, Joins, Imports, Between, Inlay, After, Render, Shaped, KeepsBalance, SafeFrom, WalkTo;
    var imp, gap := imports[0], Cut(sheet.css, from, imports[0].start);
    var inlay, after := Inlay(web, sheet, imp, slots), After(web, sheet, imports, slots);
    assert imp in imports;
    StartsAfter(sheet.css, imp);
    RenderIsBalanced(web, sheet, imports[1..], slots.rest, imp.end);
    AfterIs(web, sheet, imports, slots);
    CutIsBalanced(sheet.css, from, imp);
    InlayIsBalanced(web, sheet, imports, slots);
    InlayJoins(web, sheet, imports, slots);
    JoinIsBalanced(gap, inlay + after);
    JoinIsBalanced(inlay, after);
  }

  lemma InlayHolds(web: Web, mid: string, sheet: Sheet, imp: Import, slots: Slots, after: string)
    requires slots.Child? && KeepsBalance(web) && imp.media != "" && SafeFrom(imp.media, 0, 0)
    requires Balanced(slots.css) && Checked(Imports(slots.css), slots.inner)
    requires Apart(web, Sheet(slots.css, Target(web, sheet.key, imp)), Imports(slots.css), slots.inner, 0)
    requires Enters(mid, Inlay(web, sheet, imp, slots) + after)
    ensures var inlay := Inlay(web, sheet, imp, slots);
            |inlay| > 2 && Holds(mid + (inlay + after), |mid| + |"@media " + imp.media| + 1, |mid| + |inlay| - 2)
  {
    hide Balanced, Imports, SafeFrom, Apart, Checked, Wrapped, Target, WalkTo, Inlay, Holds;
    assert Stops('@');
    var text := RebasedIsBalanced(web, sheet, imp, slots);
    var inlay := Inlay(web, sheet, imp, slots);
    BlockHolds(imp.media, text, after);
    assert (inlay + after)[0] == '@';
    HoldsFurther(mid, inlay + after, |"@media " + imp.media| + 1, |inlay| - 2);
  }

  lemma {:induction false} ChildContains(web: Web, sheet: Sheet, imp: Import, slots: Slots)
    requires slots.Child? && KeepsBalance(web)
    requires Balanced(slots.css) && Checked(Imports(slots.css), slots.inner)
    requires Apart(web, Sheet(slots.css, Target(web, sheet.key, imp)), Imports(slots.css), slots.inner, 0)
    ensures var child := Sheet(slots.css, Target(web, sheet.key, imp));
            Contained(web, Render(web, child, Imports(slots.css), slots.inner, 0),
                      child, Imports(slots.css), slots.inner, 0, 0)
    decreases slots, 0
  {
    hide Balanced, Imports, Between, Render, Shaped, Apart, Checked, Wrapped, Target, Contained, KeepsBalance, WalkTo;
    var child := Sheet(slots.css, Target(web, sheet.key, imp));
    ImportsShaped(slots.css);
    ImportsOrdered(slots.css);
    StartsAtZero(slots.css);
    var text := Render(web, child, Imports(slots.css), slots.inner, 0);
    NothingEnters(text);
    RenderContains(web, "", child, Imports(slots.css), slots.inner, 0);
    assert "" + text == text;
  }

  lemma NothingEnters(text: string)
    ensures Enters("", text)
  {}

  // ---- over every import graph ---------------------------------------------------------------

  lemma {:induction false} FlattenChecks(web: Web, sheet: Sheet, depth: int, m: Memory, slots: Slots)
    requires !Flatten(web, None, sheet, depth, m).result.Skipped()
    requires FirstOccurrences(web, sheet.key, Imports(sheet.css), slots, m.visited)
    ensures Checked(Imports(sheet.css), slots)
    decreases if depth < 0 then 0 else depth, |Imports(sheet.css)| + 1
  {
    hide Imports, LiveImport, Inline, Keys, Target;
    if Imports(sheet.css) != [] && depth > 0 {
      ImportsOrdered(sheet.css);
      InlineChecks(web, sheet, depth, Imports(sheet.css), Part(0, "", 0), m, slots);
    }
  }

  lemma {:induction false} InlineChecks(
    web: Web, sheet: Sheet, depth: int, todo: seq<Import>, part: Part, m: Memory, slots: Slots)
    requires depth > 0 && Ordered(todo, part.from, |sheet.css|)
    requires !Inline(web, None, sheet, depth, todo, part, m).result.Skipped()
    requires FirstOccurrences(web, sheet.key, todo, slots, m.visited)
    ensures Checked(todo, slots)
    decreases depth, |todo|
  {
    hide Imports, LiveImport, Target, Wrapped, Flatten, InlineOne, Render, Balanced, SafeFrom;
    if todo != [] {
      OneGoes(web, None, sheet, depth, todo[0], part, m);
      OneChecks(web, sheet, depth, todo[0], part, m);
      var step := InlineOne(web, None, sheet, depth, todo[0], part, m);
      var key := Target(web, sheet.key, todo[0]);
      if key !in m.visited {
        var child, m' := Sheet(web.lookup(key).value, key), Entered(m, key);
        FlattenChecks(web, child, depth - 1, m', slots.inner);
        InlinedText(web, child, depth - 1, m', slots.inner);
      }
      InlineChecks(web, sheet, depth, todo[1..], step.part, step.memory, slots.rest);
    }
  }

  lemma OneChecks(web: Web, sheet: Sheet, depth: int, imp: Import, part: Part, m: Memory)
    requires depth > 0 && part.from <= imp.start <= |sheet.css|
    requires InlineOne(web, None, sheet, depth, imp, part, m).Go?
    ensures imp.media == "" || SafeFrom(imp.media, 0, 0)
    ensures var key := Target(web, sheet.key, imp);
            key !in m.visited ==> web.lookup(key).Some? && Balanced(web.lookup(key).value)
  {
    hide Flatten, SafeFrom, Balanced, Target, Wrapped, NonMediaCondition;
  }

  /**
   For every import graph: if rebasing keeps sheets balanced, the root is balanced
   and no texts join, the flattened text is balanced, and at every import with a
   condition, at any depth, the condition covers exactly the sheet inlined.
   */
  lemma FlattenIsBalanced(web: Web, cap: Option<nat>, css: string, url: string, depth: int) returns (slots: Slots)
    requires !Root(web, cap, css, url, depth).result.Skipped() && KeepsBalance(web) && Balanced(css)
    ensures var root, text := Sheet(css, (url, "")), Root(web, cap, css, url, depth).result.css;
            && FirstOccurrences(web, root.key, Imports(css), slots, {root.key})
            && text == Render(web, root, Imports(css), slots, 0)
            && (Apart(web, root, Imports(css), slots, 0) ==>
                  Balanced(text) && Contained(web, text, root, Imports(css), slots, 0, 0))
  {
    hide Flatten, Imports, Render, Keys, FirstOccurrences, Balanced, Apart, Checked, Contained, Shaped, Between,
      KeepsBalance;
    var root, m := Sheet(css, (url, "")), Memory({(url, "")}, []);
    slots := FlattenRenders(web, cap, root, depth, m);
    CapOnlySkips(web, cap, root, depth, m);
    FlattenChecks(web, root, depth, m, slots);
    ImportsShaped(css);
    ImportsOrdered(css);
    StartsAtZero(css);
    var text := Render(web, root, Imports(css), slots, 0);
    assert "" + text == text;
    if Apart(web, root, Imports(css), slots, 0) {
      RenderIsBalanced(web, root, Imports(css), slots, 0);
      NothingEnters(text);
      RenderContains(web, "", root, Imports(css), slots, 0);
    }
  }

  // ---- sheets with a plain prelude -------------------------------------------------------------

  /** Every sheet inlined has nothing but imports and blanks before its rules. */
  ghost predicate AllPlain(slots: Slots) {
    match slots
    case Nil => true
    case Repeat(rest) => AllPlain(rest)
    case Child(css, inner, rest) => PlainSheet(css) && AllPlain(inner) && AllPlain(rest)
  }

  /**
   A sheet inlined without a condition ends in a token that nothing can continue, or
   what follows it in the text begins with a character that continues nothing.
   */
  ghost predicate Followed(web: Web, sheet: Sheet, imports: seq<Import>, slots: Slots)
    decreases slots
  {
    if imports == [] || slots.Nil? then true
    else
      && (slots.Child? && imports[0].media == "" ==>
            Joins(Inlay(web, sheet, imports[0], slots), After(web, sheet, imports, slots)))
      && (slots.Child? ==>
            Followed(web, Sheet(slots.css, Target(web, sheet.key, imports[0])), Imports(slots.css), slots.inner))
      && Followed(web, sheet, imports[1..], slots.rest)
  }

  lemma {:induction false} CheckedIsSafe(imports: seq<Import>, slots: Slots)
    requires Checked(imports, slots)
    ensures SafeMedia(imports)
    decreases slots
  {
    hide SafeFrom, Balanced, Imports;
    if !slots.Nil? {
      CheckedIsSafe(imports[1..], slots.rest);
      assert imports == [imports[0]] + imports[1..];
    }
  }

  lemma {:induction false} PlainIsApart(web: Web, sheet: Sheet, imports: seq<Import>, slots: Slots, from: nat)
    requires Stand(sheet.css, imports, from) && Checked(imports, slots) && AllPlain(slots)
    requires Followed(web, sheet, imports, slots) && Ordered(imports, from, |sheet.css|)
    ensures Apart(web, sheet, imports, slots, from)
    decreases slots
  {
    hide SafeFrom, Balanced, Imports, Between, Inlay, After, Target, Sealed, PlainSheet;
    if imports != [] && !slots.Nil? {
      PlainIsApart(web, sheet, imports[1..], slots.rest, imports[0].end);
      if slots.Child? {
        var child := Sheet(slots.css, Target(web, sheet.key, imports[0]));
        CheckedIsSafe(Imports(slots.css), slots.inner);
        PlainStands(slots.css);
        ImportsOrdered(slots.css);
        PlainIsApart(web, child, Imports(slots.css), slots.inner, 0);
      }
    }
  }

  /**
   For every import graph of sheets with a plain prelude: if rebasing keeps sheets
   balanced and the root is balanced, and every sheet inlined without a condition is
   followed by something that does not continue it, the flattened text is balanced
   and every condition covers exactly the sheet inlined under it.
   */
  lemma PlainFlattenIsBalanced(web: Web, cap: Option<nat>, css: string, url: string, depth: int) returns (slots: Slots)
    requires !Root(web, cap, css, url, depth).result.Skipped() && KeepsBalance(web) && Balanced(css) && PlainSheet(css)
    ensures var root, text := Sheet(css, (url, "")), Root(web, cap, css, url, depth).result.css;
            && FirstOccurrences(web, root.key, Imports(css), slots, {root.key})
            && text == Render(web, root, Imports(css), slots, 0)
            && (AllPlain(slots) && Followed(web, root, Imports(css), slots) ==>
                  Balanced(text) && Contained(web, text, root, Imports(css), slots, 0, 0))
  {
    hide Flatten, Imports, Render, Keys, FirstOccurrences, Balanced, Apart, Checked, Contained, KeepsBalance,
      PlainSheet, Followed, Stand, SafeMedia;
    var root, m := Sheet(css, (url, "")), Memory({(url, "")}, []);
    slots := FlattenIsBalanced(web, cap, css, url, depth);
    CapOnlySkips(web, cap, root, depth, m);
    FlattenChecks(web, root, depth, m, slots);
    CheckedIsSafe(Imports(css), slots);
    PlainStands(css);
    ImportsOrdered(css);
    if AllPlain(slots) && Followed(web, root, Imports(css), slots) { PlainIsApart(web, root, Imports(css), slots, 0); }
  }
}
