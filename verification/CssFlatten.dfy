/**
 Flattening @import: every import of a sheet is replaced by the imported sheet,
 recursively, or the sheet is served as it was.  Looking a sheet up, resolving a
 URL and rebasing the URLs of an inlined sheet are arbitrary.
 */
module CssFlatten {
  import opened Options
  import opened CssBalance
  import opened CssEmbed
  import opened CssImports

  /** A URL under the media conditions it is inlined under, joined by ';'. */
  type Key = (string, string)

  datatype Sheet = Sheet(css: string, key: Key)

  datatype Web = Web(lookup: Key -> Option<string>, resolve: (string, string) -> string,
                     rebase: (string, string, string) -> string)

  datatype FlattenResult = FlattenResult(
    css: string, resolved: nat, unresolved: nat, skippedNonMedia: bool, skippedUnresolved: bool)
  {
    predicate Skipped() { skippedNonMedia || skippedUnresolved }
  }

  const MAX_FLATTENED_SIZE := 1024 * 1024

  /** The keys inlined so far and the lookups made, in order. */
  datatype Memory = Memory(visited: set<Key>, lookups: seq<Key>)

  datatype Outcome = Outcome(result: FlattenResult, memory: Memory)

  /** The text written for a sheet up to position `from`, and the imports counted in it. */
  datatype Part = Part(from: nat, out: string, resolved: nat)

  predicate NonMediaCondition(media: string) {
    || (StartsWithCi(media, "layer")
        && (|media| == 5 || media[5] == '(' || media[5] == '/' || IsSpace(media[5])))
    || (StartsWithCi(media, "supports") && |media| > 8 && media[8] == '(')
  }

  function MediaKey(context: string, media: string): string {
    if media == "" then context else if context == "" then media else context + ";" + media
  }

  function Target(web: Web, importer: Key, imp: Import): Key {
    (web.resolve(importer.0, imp.url), MediaKey(importer.1, imp.media))
  }

  function Wrapped(media: string, css: string): string {
    if media == "" then css else "@media " + media + " {\n" + css + "\n}\n"
  }

  function Original(css: string, m: Memory): Outcome {
    Outcome(FlattenResult(css, 0, 1, false, true), m)
  }

  function NonMedia(css: string, m: Memory): Outcome {
    Outcome(FlattenResult(css, 0, 0, true, false), m)
  }

  function Sighted(m: Memory, key: Key): Memory {
    Memory(m.visited, m.lookups + [key])
  }

  function Entered(m: Memory, key: Key): Memory {
    Memory(m.visited + {key}, m.lookups + [key])
  }

  predicate Fits(cap: Option<nat>, text: string) {
    cap.Some? ==> |text| <= cap.value
  }

  /** Flattens a sheet; `cap`, if any, is the size the text may not pass. */
  function Flatten(web: Web, cap: Option<nat>, sheet: Sheet, depth: int, m: Memory): Outcome
    decreases if depth < 0 then 0 else depth, |Imports(sheet.css)| + 1
  {
    var imports := Imports(sheet.css);
    if imports == [] then
      var live := LiveImport(sheet.css);
      Outcome(FlattenResult(sheet.css, 0, if live then 1 else 0, false, live), m)
    else if depth <= 0 then
      Outcome(FlattenResult(sheet.css, 0, |imports|, false, true), m)
    else
      ImportsOrdered(sheet.css);
      Inline(web, cap, sheet, depth, imports, Part(0, "", 0), m)
  }

  /** Replaces the imports `todo` of a sheet. */
  function Inline(
    web: Web, cap: Option<nat>, sheet: Sheet, depth: int, todo: seq<Import>, part: Part, m: Memory): Outcome
    requires depth > 0 && Ordered(todo, part.from, |sheet.css|)
    decreases depth, |todo|
  {
    if todo == [] then
      var rest := sheet.css[part.from..];
      if LiveImport(rest) then Original(sheet.css, m)
      else Outcome(FlattenResult(part.out + rest, part.resolved, 0, false, false), m)
    else match InlineOne(web, cap, sheet, depth, todo[0], part, m)
      case Stop(outcome) => outcome
      case Go(next, m') => Inline(web, cap, sheet, depth, todo[1..], next, m')
  }

  /** What one import leads to: the end of the sheet, or the text with the import replaced. */
  datatype Step = Stop(outcome: Outcome) | Go(part: Part, memory: Memory)

  function InlineOne(
    web: Web, cap: Option<nat>, sheet: Sheet, depth: int, imp: Import, part: Part, m: Memory): (step: Step)
    requires depth > 0 && part.from <= imp.start <= |sheet.css|
    ensures step.Go? ==> step.part.from == imp.end
    decreases depth, 0
  {
    if imp.media != "" && NonMediaCondition(imp.media) then Stop(NonMedia(sheet.css, m))
    else if imp.media != "" && !SafeFrom(imp.media, 0, 0) then Stop(Original(sheet.css, m))
    else
      var out := part.out + sheet.css[part.from..imp.start];
      var key := Target(web, sheet.key, imp);
      if key in m.visited then Go(Part(imp.end, out, part.resolved + 1), m)
      else match web.lookup(key)
        case None => Stop(Original(sheet.css, Sighted(m, key)))
        case Some(child) =>
          if !Balanced(child) then Stop(Original(sheet.css, Sighted(m, key)))
          else
            var sub := Flatten(web, cap, Sheet(child, key), depth - 1, Entered(m, key));
            if sub.result.skippedNonMedia then Stop(NonMedia(sheet.css, sub.memory))
            else if sub.result.skippedUnresolved then Stop(Original(sheet.css, sub.memory))
            else
              var text := out + Wrapped(imp.media, web.rebase(sub.result.css, key.0, sheet.key.0));
              if !Fits(cap, text) then Stop(Original(sheet.css, sub.memory))
              else Go(Part(imp.end, text, part.resolved + 1 + sub.result.resolved), sub.memory)
  }

  /** The flattener proper: `visited` is shared by the whole run. */
  class Flattener {
    const web: Web
    var visited: set<Key>
    ghost var lookups: seq<Key>

    constructor (web: Web, url: string)
      ensures this.web == web && visited == {(url, "")} && lookups == []
    {
      this.web := web;
      visited := {(url, "")};
      lookups := [];
    }

    ghost function Remembered(): Memory
      reads this
    {
      Memory(visited, lookups)
    }

    method FlattenRecursive(css: string, key: Key, depth: int) returns (result: FlattenResult)
      modifies this
      ensures Outcome(result, Remembered())
           == Flatten(web, Some(MAX_FLATTENED_SIZE), Sheet(css, key), depth, old(Remembered()))
      decreases if depth < 0 then 0 else depth, 1
    {
      hide Imports, LiveImport, InlineOne;
      ghost var sheet, cap := Sheet(css, key), Some(MAX_FLATTENED_SIZE);
      var imports := ExtractImports(css);
      if imports == [] {
        var live := RemainderStartsWithImport(css);
        return FlattenResult(css, 0, if live then 1 else 0, false, live);
      }
      if depth <= 0 {
        return FlattenResult(css, 0, |imports|, false, true);
      }
      ImportsOrdered(css);
      var part := Part(0, "", 0);
      assert imports[0..] == imports;
      for i := 0 to |imports|
        invariant Ordered(imports[i..], part.from, |css|)
        invariant Inline(web, cap, sheet, depth, imports[i..], part, Remembered())
               == Flatten(web, cap, sheet, depth, old(Remembered()))
      {
        assert imports[i..][0] == imports[i] && imports[i..][1..] == imports[i + 1..];
        var stop, next := Replace(css, key, depth, imports[i], part);
        if stop.Some? { return stop.value; }
        part := next;
      }
      assert imports[|imports|..] == [];
      var live := RemainderStartsWithImport(css[part.from..]);
      if live { return FlattenResult(css, 0, 1, false, true); }
      return FlattenResult(part.out + css[part.from..], part.resolved, 0, false, false);
    }

    /** One turn of the loop: replaces an import, or stops with the result for the sheet. */
    method Replace(css: string, key: Key, depth: int, imp: Import, part: Part)
      returns (stop: Option<FlattenResult>, next: Part)
      requires depth > 0 && part.from <= imp.start <= |css|
      modifies this
      ensures InlineOne(web, Some(MAX_FLATTENED_SIZE), Sheet(css, key), depth, imp, part, old(Remembered()))
           == if stop.Some? then Stop(Outcome(stop.value, Remembered())) else Go(next, Remembered())
      decreases depth, 0
    {
      hide SafeFrom, Balanced, NonMediaCondition, Wrapped, Target, Flatten;
      next := part;
      if imp.media != "" && NonMediaCondition(imp.media) {
        return Some(FlattenResult(css, 0, 0, true, false)), next;
      }
      var original := Some(FlattenResult(css, 0, 1, false, true));
      if imp.media != "" {
        var safe := IsSafeMediaValue(imp.media);
        if !safe { return original, next; }
      }
      var out := part.out + css[part.from..imp.start];
      var target := Target(web, key, imp);
      if target in visited {
        return None, Part(imp.end, out, part.resolved + 1);
      }
      var child := web.lookup(target);
      lookups := lookups + [target];
      if child.None? { return original, next; }
      var balanced := IsStructurallyBalanced(child.value);
      if !balanced { return original, next; }
      visited := visited + {target};
      var sub := FlattenRecursive(child.value, target, depth - 1);
      if sub.skippedNonMedia { return Some(FlattenResult(css, 0, 0, true, false)), next; }
      if sub.skippedUnresolved { return original, next; }
      out := out + Wrapped(imp.media, web.rebase(sub.css, target.0, key.0));
      if |out| > MAX_FLATTENED_SIZE { return original, next; }
      return None, Part(imp.end, out, part.resolved + 1 + sub.resolved);
    }
  }

  /** A whole run: the root sheet counts as inlined under no condition. */
  function Root(web: Web, cap: Option<nat>, css: string, url: string, depth: int): Outcome {
    Flatten(web, cap, Sheet(css, (url, "")), depth, Memory({(url, "")}, []))
  }

  method FlattenImports(web: Web, css: string, url: string, depth: int) returns (result: FlattenResult)
    ensures result == Root(web, Some(1048576), css, url, depth).result
  {
    var f := new Flattener(web, url);
    result := f.FlattenRecursive(css, (url, ""), depth);
  }
}
