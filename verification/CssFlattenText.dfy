/**
 What the flattened text is: the sheet with each import replaced by its own
 flattened text at its first occurrence in document order, and by nothing after.
 */
module CssFlattenText {
  import opened Options
  import opened CssBalance
  import opened CssEmbed
  import opened CssImports
  import opened CssFlatten
  import Run = CssFlattenRun

  /** For the imports of a sheet in order: a repeat, or the sheet inlined there with its own imports. */
  datatype Slots = Nil | Repeat(rest: Slots) | Child(css: string, inner: Slots, rest: Slots)

  function Cut(css: string, from: nat, to: nat): string {
    if from <= to <= |css| then css[from..to] else ""
  }

  /** The text of a sheet from position `from` on, its remaining imports filled by `slots`. */
  function Render(web: Web, sheet: Sheet, imports: seq<Import>, slots: Slots, from: nat): string
    decreases slots
  {
    if imports == [] || slots.Nil? then Cut(sheet.css, from, |sheet.css|)
    else
      var imp := imports[0];
      var key := Target(web, sheet.key, imp);
      Cut(sheet.css, from, imp.start)
      + (if slots.Repeat? then ""
         else Wrapped(imp.media, web.rebase(
                Render(web, Sheet(slots.css, key), Imports(slots.css), slots.inner, 0), key.0, sheet.key.0)))
      + Render(web, sheet, imports[1..], slots.rest, imp.end)
  }

  /** The keys inlined, in document order. */
  function Keys(web: Web, key: Key, imports: seq<Import>, slots: Slots): seq<Key>
    decreases slots
  {
    if imports == [] || slots.Nil? then []
    else if slots.Repeat? then Keys(web, key, imports[1..], slots.rest)
    else
      var target := Target(web, key, imports[0]);
      [target] + Keys(web, target, Imports(slots.css), slots.inner) + Keys(web, key, imports[1..], slots.rest)
  }

  function SetOf(keys: seq<Key>): set<Key> {
    set k | k in keys
  }

  /** Each import is inlined exactly when its key has not been seen before it. */
  ghost predicate FirstOccurrences(web: Web, key: Key, imports: seq<Import>, slots: Slots, seen: set<Key>)
    decreases slots
  {
    match slots
    case Nil => imports == []
    case Repeat(rest) =>
      && imports != [] && Target(web, key, imports[0]) in seen
      && FirstOccurrences(web, key, imports[1..], rest, seen)
    case Child(css, inner, rest) =>
      && imports != []
      && var target := Target(web, key, imports[0]);
         && target !in seen && web.lookup(target) == Some(css)
         && FirstOccurrences(web, target, Imports(css), inner, seen + {target})
         && FirstOccurrences(web, key, imports[1..], rest,
                             seen + {target} + SetOf(Keys(web, target, Imports(css), inner)))
  }

  /** Number of import statements in the inlined sheets. */
  function Statements(slots: Slots): nat {
    match slots
    case Nil => 0
    case Repeat(rest) => 1 + Statements(rest)
    case Child(_, inner, rest) => 1 + Statements(inner) + Statements(rest)
  }

  ghost predicate Adds(m: Memory, after: Memory, keys: seq<Key>) {
    after.visited == m.visited + SetOf(keys) && after.lookups == m.lookups + keys
  }

  /** Filling `todo` with `slots` turns `part` into the outcome. */
  ghost predicate Renders(web: Web, sheet: Sheet, todo: seq<Import>, part: Part, m: Memory, slots: Slots, o: Outcome) {
    && FirstOccurrences(web, sheet.key, todo, slots, m.visited)
    && o.result.css == part.out + Render(web, sheet, todo, slots, part.from)
    && o.result.resolved == part.resolved + Statements(slots)
    && Adds(m, o.memory, Keys(web, sheet.key, todo, slots))
  }

  lemma {:induction false} FlattenRenders(web: Web, cap: Option<nat>, sheet: Sheet, depth: int, m: Memory)
    returns (slots: Slots)
    requires !Flatten(web, cap, sheet, depth, m).result.Skipped()
    ensures Renders(web, sheet, Imports(sheet.css), Part(0, "", 0), m, slots, Flatten(web, cap, sheet, depth, m))
    decreases if depth < 0 then 0 else depth, |Imports(sheet.css)| + 1
  {
    hide Imports, LiveImport, Inline, Renders;
    if Imports(sheet.css) == [] {
      slots := Nil;
      NothingToRender(web, sheet, Part(0, "", 0), m, Flatten(web, cap, sheet, depth, m));
    } else {
      ImportsOrdered(sheet.css);
      slots := InlineRenders(web, cap, sheet, depth, Imports(sheet.css), Part(0, "", 0), m);
    }
  }

  lemma NothingToRender(web: Web, sheet: Sheet, part: Part, m: Memory, o: Outcome)
    requires part.from <= |sheet.css| && o.memory == m
    requires o.result.css == part.out + sheet.css[part.from..] && o.result.resolved == part.resolved
    ensures Renders(web, sheet, [], part, m, Nil, o)
  {
    assert sheet.css[part.from..|sheet.css|] == sheet.css[part.from..];
    assert m.lookups + [] == m.lookups;
  }

  lemma {:induction false} InlineRenders(
    web: Web, cap: Option<nat>, sheet: Sheet, depth: int, todo: seq<Import>, part: Part, m: Memory)
    returns (slots: Slots)
    requires depth > 0 && Ordered(todo, part.from, |sheet.css|)
    requires !Inline(web, cap, sheet, depth, todo, part, m).result.Skipped()
    ensures Renders(web, sheet, todo, part, m, slots, Inline(web, cap, sheet, depth, todo, part, m))
    decreases depth, |todo|
  {
    hide Imports, LiveImport, Target, Wrapped, Flatten, Renders, InlineOne;
    var o := Inline(web, cap, sheet, depth, todo, part, m);
    if todo == [] {
      slots := Nil;
      NothingToRender(web, sheet, part, m, o);
    } else {
      OneGoes(web, cap, sheet, depth, todo[0], part, m);
      var step := InlineOne(web, cap, sheet, depth, todo[0], part, m);
      var rest := InlineRenders(web, cap, sheet, depth, todo[1..], step.part, step.memory);
      var key := Target(web, sheet.key, todo[0]);
      if key in m.visited {
        slots := Repeat(rest);
        RepeatRenders(web, sheet, todo, part, m, rest, o);
      } else {
        var child := Sheet(web.lookup(key).value, key);
        var inner := FlattenRenders(web, cap, child, depth - 1, Entered(m, key));
        slots := Child(child.css, inner, rest);
        var sub := Flatten(web, cap, child, depth - 1, Entered(m, key));
        ChildRenders(web, sheet, todo, part, m, child, sub, inner, rest, o);
      }
    }
  }

  /** An import that does not end the sheet is a repeat, or its sheet was flattened. */
  lemma OneGoes(web: Web, cap: Option<nat>, sheet: Sheet, depth: int, imp: Import, part: Part, m: Memory)
    requires depth > 0 && part.from <= imp.start <= |sheet.css|
    ensures match InlineOne(web, cap, sheet, depth, imp, part, m)
            case Stop(o) => o.result.Skipped()
            case Go(next, after) =>
              var key := Target(web, sheet.key, imp);
              var out := part.out + Cut(sheet.css, part.from, imp.start);
              if key in m.visited then next == Part(imp.end, out, part.resolved + 1) && after == m
              else
                && web.lookup(key).Some?
                && var sub := Flatten(web, cap, Sheet(web.lookup(key).value, key), depth - 1, Entered(m, key));
                   && !sub.result.Skipped() && after == sub.memory
                   && next == Part(imp.end, out + Wrapped(imp.media, web.rebase(sub.result.css, key.0, sheet.key.0)),
                                   part.resolved + 1 + sub.result.resolved)
  {
    hide Flatten, SafeFrom, Balanced, Target, Wrapped, NonMediaCondition;
  }

  lemma RepeatRenders(web: Web, sheet: Sheet, todo: seq<Import>, part: Part, m: Memory, rest: Slots, o: Outcome)
    requires todo != [] && Target(web, sheet.key, todo[0]) in m.visited
    requires Renders(web, sheet, todo[1..],
                     Part(todo[0].end, part.out + Cut(sheet.css, part.from, todo[0].start), part.resolved + 1),
                     m, rest, o)
    ensures Renders(web, sheet, todo, part, m, Repeat(rest), o)
  {
    hide Imports, Target, Wrapped, Cut;
    var gap, after := Cut(sheet.css, part.from, todo[0].start), Render(web, sheet, todo[1..], rest, todo[0].end);
    assert (part.out + gap) + after == part.out + (gap + "" + after);
  }

  lemma ChildRenders(
    web: Web, sheet: Sheet, todo: seq<Import>, part: Part, m: Memory, child: Sheet, sub: Outcome, inner: Slots,
    rest: Slots, o: Outcome)
    requires todo != [] && child.key == Target(web, sheet.key, todo[0]) && child.key !in m.visited
             && web.lookup(child.key) == Some(child.css)
    requires Renders(web, child, Imports(child.css), Part(0, "", 0), Entered(m, child.key), inner, sub)
    requires Renders(web, sheet, todo[1..],
                     Part(todo[0].end,
                          part.out + Cut(sheet.css, part.from, todo[0].start)
                          + Wrapped(todo[0].media, web.rebase(sub.result.css, child.key.0, sheet.key.0)),
                          part.resolved + 1 + sub.result.resolved), sub.memory, rest, o)
    ensures Renders(web, sheet, todo, part, m, Child(child.css, inner, rest), o)
  {
    hide Imports, Target, Wrapped, Cut;
    var slots := Child(child.css, inner, rest);
    var gap, after := Cut(sheet.css, part.from, todo[0].start), Render(web, sheet, todo[1..], rest, todo[0].end);
    var text := Render(web, child, Imports(child.css), inner, 0);
    assert sub.result.css == text;
    var block := Wrapped(todo[0].media, web.rebase(text, child.key.0, sheet.key.0));
    assert part.out + gap + block + after == part.out + (gap + block + after);
    var below := Keys(web, child.key, Imports(child.css), inner);
    var beside := Keys(web, sheet.key, todo[1..], rest);
    assert sub.memory.visited == m.visited + {child.key} + SetOf(below);
    assert FirstOccurrences(web, sheet.key, todo, slots, m.visited);
    AddsChild(m, child.key, sub.memory, below, o.memory, beside);
  }

  lemma AddsChild(m: Memory, key: Key, sub: Memory, below: seq<Key>, after: Memory, beside: seq<Key>)
    requires Adds(Entered(m, key), sub, below) && Adds(sub, after, beside)
    ensures Adds(m, after, [key] + below + beside)
  {
    assert m.lookups + [key] + below + beside == m.lookups + ([key] + below + beside);
  }

  // ---- the text depends on the import graph only ------------------------------------------

  lemma {:induction false} FirstOccurrencesUnique(
    web: Web, key: Key, imports: seq<Import>, a: Slots, b: Slots, seen: set<Key>)
    requires FirstOccurrences(web, key, imports, a, seen) && FirstOccurrences(web, key, imports, b, seen)
    ensures a == b
    decreases a
  {
    hide Imports, Target;
    match a
    case Nil =>
    case Repeat(rest) => FirstOccurrencesUnique(web, key, imports[1..], rest, b.rest, seen);
    case Child(css, inner, rest) =>
      var target := Target(web, key, imports[0]);
      FirstOccurrencesUnique(web, target, Imports(css), inner, b.inner, seen + {target});
      FirstOccurrencesUnique(web, key, imports[1..], rest, b.rest,
                             seen + {target} + SetOf(Keys(web, target, Imports(css), inner)));
  }

  /** Two runs that are not skipped give the same text and the same lookups, whatever their depth and cap. */
  lemma TextIsCanonical(
    web: Web, css: string, url: string, cap: Option<nat>, depth: int, cap': Option<nat>, depth': int)
    requires !Root(web, cap, css, url, depth).result.Skipped() && !Root(web, cap', css, url, depth').result.Skipped()
    ensures Root(web, cap, css, url, depth) == Root(web, cap', css, url, depth')
  {
    hide Flatten, Imports, Render, Keys, FirstOccurrences;
    var root, m := Sheet(css, (url, "")), Memory({(url, "")}, []);
    var a := FlattenRenders(web, cap, root, depth, m);
    var b := FlattenRenders(web, cap', root, depth', m);
    FirstOccurrencesUnique(web, root.key, Imports(css), a, b, m.visited);
    Run.FlattenIsAllOrNothing(web, cap, root, depth, m);
    Run.FlattenIsAllOrNothing(web, cap', root, depth', m);
  }

  // ---- the size cap only skips ----------------------------------------------------------------

  /** The capped outcome is the uncapped one, or the sheet was skipped as unresolved. */
  ghost predicate SameOrSkipped(capped: Outcome, free: Outcome) {
    capped == free || (capped.result.skippedUnresolved && !capped.result.skippedNonMedia)
  }

  lemma {:induction false} CapOnlySkips(web: Web, cap: Option<nat>, sheet: Sheet, depth: int, m: Memory)
    ensures SameOrSkipped(Flatten(web, cap, sheet, depth, m), Flatten(web, None, sheet, depth, m))
    decreases if depth < 0 then 0 else depth, |Imports(sheet.css)| + 1
  {
    hide Imports, LiveImport, Inline;
    if Imports(sheet.css) != [] && depth > 0 {
      ImportsOrdered(sheet.css);
      InlineCapOnlySkips(web, cap, sheet, depth, Imports(sheet.css), Part(0, "", 0), m);
    }
  }

  lemma {:induction false} InlineCapOnlySkips(
    web: Web, cap: Option<nat>, sheet: Sheet, depth: int, todo: seq<Import>, part: Part, m: Memory)
    requires depth > 0 && Ordered(todo, part.from, |sheet.css|)
    ensures SameOrSkipped(Inline(web, cap, sheet, depth, todo, part, m), Inline(web, None, sheet, depth, todo, part, m))
    decreases depth, |todo|
  {
    hide Imports, LiveImport, InlineOne;
    if todo != [] {
      var step := InlineOne(web, cap, sheet, depth, todo[0], part, m);
      OneCapOnlySkips(web, cap, sheet, depth, todo[0], part, m);
      if step.Go? { InlineCapOnlySkips(web, cap, sheet, depth, todo[1..], step.part, step.memory); }
    }
  }

  lemma {:induction false} OneCapOnlySkips(
    web: Web, cap: Option<nat>, sheet: Sheet, depth: int, imp: Import, part: Part, m: Memory)
    requires depth > 0 && part.from <= imp.start <= |sheet.css|
    ensures var step := InlineOne(web, cap, sheet, depth, imp, part, m);
            || step == InlineOne(web, None, sheet, depth, imp, part, m)
            || (step.Stop? && step.outcome.result.skippedUnresolved && !step.outcome.result.skippedNonMedia)
    decreases depth, 0
  {
    hide Flatten, SafeFrom, Balanced, Target, Wrapped, NonMediaCondition;
    var key := Target(web, sheet.key, imp);
    if web.lookup(key).Some? { CapOnlySkips(web, cap, Sheet(web.lookup(key).value, key), depth - 1, Entered(m, key)); }
  }

  /**
   Filling the imports one after the other, no inlined sheet makes the text so far
   pass the cap; `out` is the text up to position `from`.
   */
  ghost predicate Within(
    web: Web, cap: Option<nat>, sheet: Sheet, imports: seq<Import>, slots: Slots, out: string, from: nat)
    decreases slots
  {
    if imports == [] || slots.Nil? then true
    else
      var imp := imports[0];
      var key, gap := Target(web, sheet.key, imp), out + Cut(sheet.css, from, imp.start);
      if slots.Repeat? then Within(web, cap, sheet, imports[1..], slots.rest, gap, imp.end)
      else
        var child := Sheet(slots.css, key);
        var inner := Render(web, child, Imports(slots.css), slots.inner, 0);
        var text := gap + Wrapped(imp.media, web.rebase(inner, key.0, sheet.key.0));
        && Within(web, cap, child, Imports(slots.css), slots.inner, "", 0)
        && Fits(cap, text)
        && Within(web, cap, sheet, imports[1..], slots.rest, text, imp.end)
  }

  /**
   Exactly when the size cap skips a sheet that could be flattened: when, at some
   import of some sheet inlined, the text of that sheet so far passes the cap.
   */
  lemma {:induction false} CapSkipsIff(web: Web, cap: Option<nat>, sheet: Sheet, depth: int, m: Memory, slots: Slots)
    requires !Flatten(web, None, sheet, depth, m).result.Skipped()
    requires FirstOccurrences(web, sheet.key, Imports(sheet.css), slots, m.visited)
    ensures Flatten(web, cap, sheet, depth, m).result.Skipped()
            <==> !Within(web, cap, sheet, Imports(sheet.css), slots, "", 0)
    decreases if depth < 0 then 0 else depth, |Imports(sheet.css)| + 1
  {
    hide Imports, LiveImport, Inline, FirstOccurrences;
    if Imports(sheet.css) != [] && depth > 0 {
      ImportsOrdered(sheet.css);
      InlineCapSkipsIff(web, cap, sheet, depth, Imports(sheet.css), Part(0, "", 0), m, slots);
    }
  }

  lemma {:induction false} InlineCapSkipsIff(
    web: Web, cap: Option<nat>, sheet: Sheet, depth: int, todo: seq<Import>, part: Part, m: Memory, slots: Slots)
    requires depth > 0 && Ordered(todo, part.from, |sheet.css|)
    requires !Inline(web, None, sheet, depth, todo, part, m).result.Skipped()
    requires FirstOccurrences(web, sheet.key, todo, slots, m.visited)
    ensures Inline(web, cap, sheet, depth, todo, part, m).result.Skipped()
            <==> !Within(web, cap, sheet, todo, slots, part.out, part.from)
    decreases depth, |todo|
  {
    hide Imports, LiveImport, Target, Wrapped, Flatten, InlineOne, Render;
    if todo != [] {
      OneGoes(web, None, sheet, depth, todo[0], part, m);
      OneCapped(web, cap, sheet, depth, todo[0], part, m);
      var free := InlineOne(web, None, sheet, depth, todo[0], part, m);
      var key := Target(web, sheet.key, todo[0]);
      if key in m.visited {
        InlineCapSkipsIff(web, cap, sheet, depth, todo[1..], free.part, free.memory, slots.rest);
      } else {
        var child, m' := Sheet(web.lookup(key).value, key), Entered(m, key);
        CapSkipsIff(web, cap, child, depth - 1, m', slots.inner);
        CapOnlySkips(web, cap, child, depth - 1, m');
        InlinedText(web, child, depth - 1, m', slots.inner);
        InlineCapSkipsIff(web, cap, sheet, depth, todo[1..], free.part, free.memory, slots.rest);
      }
    }
  }

  /** What flattening a sheet adds, in terms of its slots. */
  lemma InlinedText(web: Web, child: Sheet, depth: int, m: Memory, slots: Slots)
    requires !Flatten(web, None, child, depth, m).result.Skipped()
    requires FirstOccurrences(web, child.key, Imports(child.css), slots, m.visited)
    ensures var o := Flatten(web, None, child, depth, m);
            && o.result.css == Render(web, child, Imports(child.css), slots, 0)
            && o.memory.visited == m.visited + SetOf(Keys(web, child.key, Imports(child.css), slots))
  {
    hide Flatten, Imports, Render, Keys, FirstOccurrences;
    var own := FlattenRenders(web, None, child, depth, m);
    FirstOccurrencesUnique(web, child.key, Imports(child.css), own, slots, m.visited);
  }

  /** What the cap does at one import that can be inlined. */
  lemma OneCapped(web: Web, cap: Option<nat>, sheet: Sheet, depth: int, imp: Import, part: Part, m: Memory)
    requires depth > 0 && part.from <= imp.start <= |sheet.css|
    requires InlineOne(web, None, sheet, depth, imp, part, m).Go?
    ensures var key := Target(web, sheet.key, imp);
            var step := InlineOne(web, cap, sheet, depth, imp, part, m);
            var free := InlineOne(web, None, sheet, depth, imp, part, m);
            && (step.Stop? ==> step.outcome.result.Skipped())
            && (key in m.visited ==> step == free)
            && (key !in m.visited ==>
                  && web.lookup(key).Some?
                  && var sub := Flatten(web, cap, Sheet(web.lookup(key).value, key), depth - 1, Entered(m, key));
                     && (sub.result.Skipped() ==> step.Stop?)
                     && (!sub.result.Skipped() ==> if Fits(cap, free.part.out) then step == free else step.Stop?))
  {
    hide Flatten, SafeFrom, Balanced, Target, Wrapped, NonMediaCondition;
    var key := Target(web, sheet.key, imp);
    if key !in m.visited && web.lookup(key).Some? {
      CapOnlySkips(web, cap, Sheet(web.lookup(key).value, key), depth - 1, Entered(m, key));
    }
  }

  /** Every skipped run has a cause: a defect of a reachable sheet, too deep a chain of imports, or the cap. */
  lemma SkipHasCause(web: Web, cap: Option<nat>, css: string, url: string, depth: int)
    returns (path: seq<Key>, cause: Option<Run.Cause>, slots: Slots)
    requires Root(web, cap, css, url, depth).result.Skipped()
    ensures var root := Sheet(css, (url, ""));
            match cause
            case Some(c) =>
              && Run.Path(web, root, path) && Run.Explains(web, root, path[|path| - 1], c)
              && (c.TooDeep? ==> |path| - 1 == if depth < 0 then 0 else depth)
              && (Root(web, cap, css, url, depth).result.skippedNonMedia ==> c.NonMediaImport?)
              && (c.NonMediaImport? && cap == None ==> Root(web, cap, css, url, depth).result.skippedNonMedia)
            case None =>
              && !Root(web, cap, css, url, depth).result.skippedNonMedia
              && FirstOccurrences(web, root.key, Imports(css), slots, {root.key})
              && !Within(web, cap, root, Imports(css), slots, "", 0)
  {
    hide Flatten, Imports, Render, Keys, FirstOccurrences, Within, Run.Path, Run.Explains;
    var root, m := Sheet(css, (url, "")), Memory({(url, "")}, []);
    path, cause, slots := [], None, Nil;
    CapOnlySkips(web, cap, root, depth, m);
    if Root(web, None, css, url, depth).result.Skipped() {
      var c;
      path, c := Run.FailureHasCause(web, css, url, depth);
      cause := Some(c);
    } else {
      slots := FlattenRenders(web, None, root, depth, m);
      CapSkipsIff(web, cap, root, depth, m, slots);
    }
  }

  // ---- a condition holds for the whole inlined sheet ----------------------------------------

  /**
   A balanced sheet inlined under a condition cannot leave its @media block.  The
   scan meets the block's '{' at depth 0; from there to the '}' that is written
   last the depth never falls below 1; and the text stays balanced.
   */
  lemma BlockIsContained(out: string, media: string, css: string)
    requires Balanced(out) && Balanced(css) && media != "" && SafeFrom(media, 0, 0)
    ensures var r := out + Wrapped(media, css);
            var open, close := |out + "@media " + media| + 1, |r| - 2;
            && Balanced(r)
            && r[open] == '{' && r[close] == '}'
            && WalkTo(r, 0, 0, 0, open) == Some(0)
            && WalkTo(r, open + 1, 1, 1, close) == Some(1)
  {
    hide Balanced, WalkTo, SafeFrom, Wrapped;
    var r := BlockWalks(out, media, css);
    assert out + Wrapped(media, css) == r + "\n";
    NewlineKept(r, |out + "@media " + media| + 1, |r| - 1);
  }

  /** The block without its last newline. */
  lemma BlockWalks(out: string, media: string, css: string) returns (r: string)
    requires Balanced(out) && Balanced(css) && media != "" && SafeFrom(media, 0, 0)
    ensures out + Wrapped(media, css) == r + "\n"
    ensures var open, close := |out + "@media " + media| + 1, |r| - 1;
            && open < close && Balanced(r) && r[open] == '{' && r[close] == '}'
            && WalkTo(r, 0, 0, 0, open) == Some(0) && WalkTo(r, open + 1, 1, 1, close) == Some(1)
  {
    hide Balanced, WalkTo, SafeFrom, Wrapped;
    var scope, body := media + " ", "\n" + (css + "\n");
    SpaceStaysSafe(media, 0, 0);
    NewlineBefore(css);
    NewlineAfter(css);
    SafeWrapper(out, scope, body);
    r := out + "@media " + scope + "{" + body + "}";
    BlockText(out, media, css);
    assert |out + "@media " + media| + 1 == |out + "@media " + scope|;
  }

  lemma BlockText(out: string, media: string, css: string)
    requires media != ""
    ensures out + Wrapped(media, css) == out + "@media " + (media + " ") + "{" + ("\n" + (css + "\n")) + "}" + "\n"
  {
    var open, close := " {\n", "\n}\n";
    assert open == " " + "{" + "\n" && close == "\n" + "}" + "\n";
    assert out + ("@media " + media + open + css + close)
        == out + "@media " + (media + " ") + "{" + ("\n" + (css + "\n")) + "}" + "\n";
  }

  // ---- media keys ------------------------------------------------------------------------------

  /** The condition key of nested imports, outermost first. */
  function MediaKeyOf(conditions: seq<string>): string {
    if conditions == [] then "" else MediaKey(MediaKeyOf(conditions[..|conditions| - 1]), conditions[|conditions| - 1])
  }

  ghost predicate Condition(media: string) {
    media != "" && SafeFrom(media, 0, 0)
  }

  lemma {:induction false} SafeHasNoSemicolon(media: string, i: nat, depth: nat)
    requires i <= |media| && SafeFrom(media, i, depth)
    ensures ';' !in media[i..]
    decreases |media| - i
  {
    if i < |media| {
      var next := if media[i] == '(' then depth + 1 else if media[i] == ')' then depth - 1 else depth;
      SafeHasNoSemicolon(media, i + 1, next);
      assert media[i..] == [media[i]] + media[i + 1..];
    }
  }

  /** Two joins agree only if their last parts and what precedes them do. */
  lemma LastPart(a: string, x: string, b: string, y: string)
    requires a + ";" + x == b + ";" + y && ';' !in x && ';' !in y
    ensures a == b && x == y
  {
    var s, t := a + ";" + x, b + ";" + y;
    assert s[|a|] == ';' && t[|b|] == ';';
    forall i | |a| < i < |s| ensures s[i] != ';' { assert s[i] == x[i - |a| - 1]; }
    forall i | |b| < i < |t| ensures t[i] != ';' { assert t[i] == y[i - |b| - 1]; }
    assert a == s[..|a|] && b == t[..|b|];
    assert x == s[|a| + 1..] && y == t[|b| + 1..];
  }

  lemma {:induction false} MediaKeyNotEmpty(conditions: seq<string>)
    requires forall c | c in conditions :: Condition(c)
    ensures MediaKeyOf(conditions) == "" <==> conditions == []
  {
    if conditions != [] { assert Condition(conditions[|conditions| - 1]); }
  }

  lemma {:induction false} MediaKeyInjective(a: seq<string>, b: seq<string>)
    requires forall c | c in a :: Condition(c)
    requires forall c | c in b :: Condition(c)
    requires MediaKeyOf(a) == MediaKeyOf(b)
    ensures a == b
    decreases |a|
  {
    hide Condition;
    MediaKeyNotEmpty(a);
    MediaKeyNotEmpty(b);
    if a != [] && b != [] {
      var a', x, b', y := a[..|a| - 1], a[|a| - 1], b[..|b| - 1], b[|b| - 1];
      SafeCondition(x);
      SafeCondition(y);
      MediaKeyNotEmpty(a');
      MediaKeyNotEmpty(b');
      if a' == [] || b' == [] {
        assert a' == b' && x == y by { OnePart(MediaKeyOf(a'), x, MediaKeyOf(b'), y); }
      } else {
        LastPart(MediaKeyOf(a'), x, MediaKeyOf(b'), y);
        MediaKeyInjective(a', b');
      }
      assert a == a' + [x] && b == b' + [y];
    }
  }

  lemma SafeCondition(x: string)
    requires Condition(x)
    ensures x != "" && ';' !in x
  {
    SafeHasNoSemicolon(x, 0, 0);
    assert x[0..] == x;
  }

  /** A single condition is no join. */
  lemma OnePart(a: string, x: string, b: string, y: string)
    requires a == "" || b == ""
    requires x != "" && y != "" && ';' !in x && ';' !in y && MediaKey(a, x) == MediaKey(b, y)
    ensures a == b && x == y
  {
    assert (a + ";" + x)[|a|] == ';' && (b + ";" + y)[|b|] == ';';
  }
}
