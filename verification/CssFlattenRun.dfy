/**
 What flattening guarantees over every import graph: it is all or nothing, looks
 every key up at most once, and succeeds only when everything reachable from the
 root could be inlined.
 */
module CssFlattenRun {
  import opened Options
  import opened CssBalance
  import opened CssEmbed
  import opened CssImports
  import opened CssFlatten

  // ---- all or nothing ---------------------------------------------------------------

  /** A skipped sheet is the input unchanged; otherwise every import was resolved. */
  ghost predicate AllOrNothing(css: string, r: FlattenResult) {
    if r.Skipped() then
      && r.css == css && r.resolved == 0
      && r.skippedNonMedia != r.skippedUnresolved
      && (r.unresolved > 0 <==> r.skippedUnresolved)
    else r.unresolved == 0 && r.resolved >= |Imports(css)|
  }

  lemma {:induction false} InlineIsAllOrNothing(
    web: Web, cap: Option<nat>, sheet: Sheet, depth: int, todo: seq<Import>, part: Part, m: Memory)
    requires depth > 0 && Ordered(todo, part.from, |sheet.css|)
    requires part.resolved + |todo| >= |Imports(sheet.css)|
    ensures AllOrNothing(sheet.css, Inline(web, cap, sheet, depth, todo, part, m).result)
    decreases |todo|
  {
    hide Imports, LiveImport, Flatten, SafeFrom, Balanced, Target, Wrapped, NonMediaCondition;
    if todo != [] {
      var step := InlineOne(web, cap, sheet, depth, todo[0], part, m);
      if step.Go? { InlineIsAllOrNothing(web, cap, sheet, depth, todo[1..], step.part, step.memory); }
    }
  }

  lemma FlattenIsAllOrNothing(web: Web, cap: Option<nat>, sheet: Sheet, depth: int, m: Memory)
    ensures AllOrNothing(sheet.css, Flatten(web, cap, sheet, depth, m).result)
  {
    hide Imports, LiveImport, Inline;
    if Imports(sheet.css) != [] && depth > 0 {
      ImportsOrdered(sheet.css);
      InlineIsAllOrNothing(web, cap, sheet, depth, Imports(sheet.css), Part(0, "", 0), m);
    }
  }

  // ---- what one import leads to -----------------------------------------------------------

  /** The import can be re-emitted as an @media block. */
  ghost predicate GoodMedia(imp: Import) {
    imp.media == "" || (!NonMediaCondition(imp.media) && SafeFrom(imp.media, 0, 0))
  }

  /** The import is followed into the sheet it names. */
  ghost predicate Descends(web: Web, sheet: Sheet, imp: Import, m: Memory) {
    var key := Target(web, sheet.key, imp);
    GoodMedia(imp) && key !in m.visited && web.lookup(key).Some? && Balanced(web.lookup(key).value)
  }

  // ---- one lookup per key -----------------------------------------------------------

  ghost predicate Distinct(keys: seq<Key>) {
    forall i, j | 0 <= i < j < |keys| :: keys[i] != keys[j]
  }

  ghost predicate Remembers(m: Memory) {
    Distinct(m.lookups) && forall k | k in m.lookups :: k in m.visited
  }

  /** What a run adds to its memory: lookups of keys not visited before, and only looked-up keys. */
  ghost predicate Grows(m: Memory, after: Memory) {
    && m.visited <= after.visited && m.lookups <= after.lookups && Distinct(after.lookups)
    && (forall k | k in after.visited :: k in m.visited || k in after.lookups)
    && (forall i | |m.lookups| <= i < |after.lookups| :: after.lookups[i] !in m.visited)
  }

  lemma SightedGrows(m: Memory, key: Key)
    requires Remembers(m) && key !in m.visited
    ensures Grows(m, Sighted(m, key)) && Grows(m, Entered(m, key)) && Remembers(Entered(m, key))
  {
    var after := Sighted(m, key).lookups;
    forall i, j | 0 <= i < j < |after| ensures after[i] != after[j] {
      assert after[i] in m.lookups;
    }
    forall k | k in after ensures k in m.visited + {key} {}
  }

  lemma GrowsSelf(m: Memory)
    requires Remembers(m)
    ensures Grows(m, m)
  {}

  lemma GrowsTwice(a: Memory, b: Memory, c: Memory)
    requires Grows(a, b) && Grows(b, c)
    ensures Grows(a, c)
  {
    forall k | k in c.visited ensures k in a.visited || k in c.lookups {
      if k !in c.lookups { assert k !in b.lookups by { InPrefix(b.lookups, c.lookups, k); } }
    }
    forall i | |a.lookups| <= i < |c.lookups| ensures c.lookups[i] !in a.visited {
      if i < |b.lookups| { assert c.lookups[i] == b.lookups[i]; }
    }
  }

  lemma InPrefix(a: seq<Key>, b: seq<Key>, k: Key)
    requires a <= b && k !in b
    ensures k !in a
  {}

  lemma {:induction false} FlattenLooksUpOnce(web: Web, cap: Option<nat>, sheet: Sheet, depth: int, m: Memory)
    requires Remembers(m)
    ensures var o := Flatten(web, cap, sheet, depth, m);
            Grows(m, o.memory) && (!o.result.Skipped() ==> Remembers(o.memory))
    decreases if depth < 0 then 0 else depth, |Imports(sheet.css)| + 1
  {
    hide Imports, LiveImport, Inline;
    if Imports(sheet.css) != [] && depth > 0 {
      ImportsOrdered(sheet.css);
      InlineLooksUpOnce(web, cap, sheet, depth, Imports(sheet.css), Part(0, "", 0), m);
    }
  }

  lemma {:induction false} InlineLooksUpOnce(
    web: Web, cap: Option<nat>, sheet: Sheet, depth: int, todo: seq<Import>, part: Part, m: Memory)
    requires depth > 0 && Ordered(todo, part.from, |sheet.css|) && Remembers(m)
    ensures var o := Inline(web, cap, sheet, depth, todo, part, m);
            Grows(m, o.memory) && (!o.result.Skipped() ==> Remembers(o.memory))
    decreases depth, |todo|
  {
    hide Imports, LiveImport, InlineOne, Grows, Remembers;
    if todo == [] {
      GrowsSelf(m);
    } else {
      var step := InlineOne(web, cap, sheet, depth, todo[0], part, m);
      OneLooksUpOnce(web, cap, sheet, depth, todo[0], part, m);
      if step.Go? {
        InlineLooksUpOnce(web, cap, sheet, depth, todo[1..], step.part, step.memory);
        GrowsTwice(m, step.memory, Inline(web, cap, sheet, depth, todo, part, m).memory);
      }
    }
  }

  lemma {:induction false} OneLooksUpOnce(
    web: Web, cap: Option<nat>, sheet: Sheet, depth: int, imp: Import, part: Part, m: Memory)
    requires depth > 0 && part.from <= imp.start <= |sheet.css| && Remembers(m)
    ensures match InlineOne(web, cap, sheet, depth, imp, part, m)
            case Stop(o) => Grows(m, o.memory) && o.result.Skipped()
            case Go(_, after) => Grows(m, after) && Remembers(after)
    decreases depth, 0
  {
    hide Flatten, Grows, Remembers, SafeFrom, Balanced, Target, Wrapped, NonMediaCondition, Fits, Sighted, Entered;
    GrowsSelf(m);
    var key := Target(web, sheet.key, imp);
    if Descends(web, sheet, imp, m) {
      SightedGrows(m, key);
      var child := Sheet(web.lookup(key).value, key);
      FlattenLooksUpOnce(web, cap, child, depth - 1, Entered(m, key));
      GrowsTwice(m, Entered(m, key), Flatten(web, cap, child, depth - 1, Entered(m, key)).memory);
    } else if key !in m.visited {
      SightedGrows(m, key);
    }
  }

  // ---- the import graph -------------------------------------------------------------------

  /** The sheet behind a key: the root is given, the others are looked up. */
  ghost function Content(web: Web, root: Sheet, k: Key): Option<string> {
    if k == root.key then Some(root.css) else web.lookup(k)
  }

  ghost predicate Edge(web: Web, root: Sheet, a: Key, b: Key) {
    Content(web, root, a).Some? && exists imp :: imp in Imports(Content(web, root, a).value) && Target(web, a, imp) == b
  }

  ghost predicate Path(web: Web, root: Sheet, p: seq<Key>) {
    && p != [] && p[0] == root.key
    && forall i | 0 <= i < |p| - 1 :: Edge(web, root, p[i], p[i + 1])
  }

  ghost predicate Reaches(web: Web, root: Sheet, p: seq<Key>, k: Key) {
    Path(web, root, p) && p[|p| - 1] == k
  }

  ghost predicate Reachable(web: Web, root: Sheet, k: Key) {
    exists p :: Reaches(web, root, p, k)
  }

  lemma Extend(web: Web, root: Sheet, p: seq<Key>, sheet: Sheet, imp: Import)
    requires Reaches(web, root, p, sheet.key) && Content(web, root, sheet.key) == Some(sheet.css)
    requires imp in Imports(sheet.css)
    ensures Reaches(web, root, p + [Target(web, sheet.key, imp)], Target(web, sheet.key, imp))
  {
    hide Imports, Target, Content;
    var key := Target(web, sheet.key, imp);
    var q := p + [key];
    assert Edge(web, root, sheet.key, key);
    forall i | 0 <= i < |q| - 1 ensures Edge(web, root, q[i], q[i + 1]) {
      if i < |p| - 1 {
        assert q[i] == p[i] && q[i + 1] == p[i + 1];
      }
    }
  }

  // ---- success: everything reachable was inlined ---------------------------------------------

  function Tail(css: string): string {
    var end := LastEnd(Imports(css), 0);
    if end <= |css| then css[end..] else ""
  }

  ghost predicate Inlined(web: Web, k: Key, imp: Import, done: set<Key>) {
    GoodMedia(imp) && Target(web, k, imp) in done
  }

  /** The sheet of `k` exists, may be embedded, and each of its imports was inlined. */
  ghost predicate Clean(web: Web, root: Sheet, k: Key, done: set<Key>) {
    && Content(web, root, k).Some?
    && var css := Content(web, root, k).value;
       && (k != root.key ==> Balanced(css))
       && (forall imp | imp in Imports(css) :: Inlined(web, k, imp, done))
       && !LiveImport(Tail(css))
  }

  /** Every key but those still being worked on is clean. */
  ghost predicate Closed(web: Web, root: Sheet, done: set<Key>, open: set<Key>) {
    forall k | k in done :: k in open || Clean(web, root, k, done)
  }

  lemma CleanGrows(web: Web, root: Sheet, k: Key, done: set<Key>, more: set<Key>)
    requires Clean(web, root, k, done) && done <= more
    ensures Clean(web, root, k, more)
  {
    hide Imports, LiveImport, Balanced, Tail, GoodMedia, Target;
    var css := Content(web, root, k).value;
    forall imp | imp in Imports(css) ensures Inlined(web, k, imp, more) {
      assert Inlined(web, k, imp, done);
    }
  }

  lemma ClosedEntered(web: Web, root: Sheet, done: set<Key>, open: set<Key>, key: Key)
    requires Closed(web, root, done, open)
    ensures Closed(web, root, done + {key}, open + {key})
  {
    hide Clean;
    forall k | k in done + {key} ensures k in open + {key} || Clean(web, root, k, done + {key}) {
      if k != key && k !in open { CleanGrows(web, root, k, done, done + {key}); }
    }
  }

  /** All imports of the sheet but `todo` are inlined. */
  ghost predicate Pending(web: Web, sheet: Sheet, todo: seq<Import>, done: set<Key>) {
    forall imp | imp in Imports(sheet.css) :: imp in todo || Inlined(web, sheet.key, imp, done)
  }

  lemma PendingAfter(web: Web, sheet: Sheet, todo: seq<Import>, done: set<Key>, more: set<Key>)
    requires todo != [] && Pending(web, sheet, todo, done) && done <= more && Inlined(web, sheet.key, todo[0], more)
    ensures Pending(web, sheet, todo[1..], more)
  {
    hide Imports, Target, GoodMedia;
    forall imp | imp in Imports(sheet.css) ensures imp in todo[1..] || Inlined(web, sheet.key, imp, more) {
      if imp !in todo[1..] && imp != todo[0] {
        assert imp !in todo by { assert todo == [todo[0]] + todo[1..]; }
        assert Inlined(web, sheet.key, imp, done);
      }
    }
  }

  lemma {:induction false} FlattenCloses(
    web: Web, cap: Option<nat>, root: Sheet, sheet: Sheet, depth: int, m: Memory, open: set<Key>)
    requires root.key in m.visited && Content(web, root, sheet.key) == Some(sheet.css)
    requires sheet.key == root.key || Balanced(sheet.css)
    requires Closed(web, root, m.visited, open + {sheet.key})
    ensures var o := Flatten(web, cap, sheet, depth, m);
            !o.result.Skipped() ==> m.visited <= o.memory.visited && Closed(web, root, o.memory.visited, open)
    decreases if depth < 0 then 0 else depth, |Imports(sheet.css)| + 1
  {
    hide Imports, LiveImport, Inline, Clean, Balanced;
    var o := Flatten(web, cap, sheet, depth, m);
    var imports := Imports(sheet.css);
    if imports == [] {
      if !o.result.Skipped() { Finish(web, root, sheet, Part(0, "", 0), m, open); }
    } else if depth > 0 {
      ImportsOrdered(sheet.css);
      InlineCloses(web, cap, root, sheet, depth, imports, Part(0, "", 0), m, open);
    }
  }

  /** The last import done, the sheet itself is clean. */
  lemma Finish(web: Web, root: Sheet, sheet: Sheet, part: Part, m: Memory, open: set<Key>)
    requires Content(web, root, sheet.key) == Some(sheet.css) && (sheet.key == root.key || Balanced(sheet.css))
    requires Closed(web, root, m.visited, open + {sheet.key}) && Pending(web, sheet, [], m.visited)
    requires part.from == LastEnd(Imports(sheet.css), 0) <= |sheet.css| && !LiveImport(sheet.css[part.from..])
    ensures Closed(web, root, m.visited, open)
  {
    hide Imports, LiveImport, Balanced, Inlined;
    assert Clean(web, root, sheet.key, m.visited);
  }

  lemma {:induction false} InlineCloses(
    web: Web, cap: Option<nat>, root: Sheet, sheet: Sheet, depth: int, todo: seq<Import>, part: Part, m: Memory,
    open: set<Key>)
    requires depth > 0 && Ordered(todo, part.from, |sheet.css|)
    requires root.key in m.visited && Content(web, root, sheet.key) == Some(sheet.css)
    requires sheet.key == root.key || Balanced(sheet.css)
    requires Closed(web, root, m.visited, open + {sheet.key}) && Pending(web, sheet, todo, m.visited)
    requires LastEnd(todo, part.from) == LastEnd(Imports(sheet.css), 0)
    ensures var o := Inline(web, cap, sheet, depth, todo, part, m);
            !o.result.Skipped() ==> m.visited <= o.memory.visited && Closed(web, root, o.memory.visited, open)
    decreases depth, |todo|
  {
    hide Imports, LiveImport, InlineOne, Closed, Pending, Balanced, Content;
    var o := Inline(web, cap, sheet, depth, todo, part, m);
    if o.result.Skipped() {
    } else if todo == [] {
      Finish(web, root, sheet, part, m, open);
    } else {
      var step := InlineOne(web, cap, sheet, depth, todo[0], part, m);
      OneCloses(web, cap, root, sheet, depth, todo[0], part, m, open);
      if step.Go? {
        PendingAfter(web, sheet, todo, m.visited, step.memory.visited);
        InlineCloses(web, cap, root, sheet, depth, todo[1..], step.part, step.memory, open);
      }
    }
  }

  lemma {:induction false} OneCloses(
    web: Web, cap: Option<nat>, root: Sheet, sheet: Sheet, depth: int, imp: Import, part: Part, m: Memory,
    open: set<Key>)
    requires depth > 0 && part.from <= imp.start <= |sheet.css|
    requires root.key in m.visited
    requires Closed(web, root, m.visited, open + {sheet.key})
    ensures match InlineOne(web, cap, sheet, depth, imp, part, m)
            case Stop(o) => o.result.Skipped()
            case Go(_, after) =>
              && m.visited <= after.visited && Inlined(web, sheet.key, imp, after.visited)
              && Closed(web, root, after.visited, open + {sheet.key})
    decreases depth, 0
  {
    hide Flatten, Closed, SafeFrom, Balanced, Target, Wrapped, NonMediaCondition, Fits;
    var key := Target(web, sheet.key, imp);
    if Descends(web, sheet, imp, m) {
      ClosedEntered(web, root, m.visited, open + {sheet.key}, key);
      FlattenCloses(web, cap, root, Sheet(web.lookup(key).value, key), depth - 1, Entered(m, key), open + {sheet.key});
    }
  }

  // ---- nothing else was inlined ---------------------------------------------------------------

  ghost predicate AllReachable(web: Web, root: Sheet, done: set<Key>) {
    forall k | k in done :: Reachable(web, root, k)
  }

  lemma {:induction false} FlattenStaysReachable(
    web: Web, cap: Option<nat>, root: Sheet, sheet: Sheet, depth: int, m: Memory)
    requires root.key in m.visited && sheet.key in m.visited && Content(web, root, sheet.key) == Some(sheet.css)
    requires AllReachable(web, root, m.visited)
    ensures var after := Flatten(web, cap, sheet, depth, m).memory;
            m.visited <= after.visited && AllReachable(web, root, after.visited)
    decreases if depth < 0 then 0 else depth, |Imports(sheet.css)| + 1
  {
    hide Imports, LiveImport, Inline, AllReachable;
    if Imports(sheet.css) != [] && depth > 0 {
      ImportsOrdered(sheet.css);
      InlineStaysReachable(web, cap, root, sheet, depth, Imports(sheet.css), Part(0, "", 0), m);
    }
  }

  lemma {:induction false} InlineStaysReachable(
    web: Web, cap: Option<nat>, root: Sheet, sheet: Sheet, depth: int, todo: seq<Import>, part: Part, m: Memory)
    requires depth > 0 && Ordered(todo, part.from, |sheet.css|)
    requires forall imp | imp in todo :: imp in Imports(sheet.css)
    requires root.key in m.visited && sheet.key in m.visited && Content(web, root, sheet.key) == Some(sheet.css)
    requires AllReachable(web, root, m.visited)
    ensures var after := Inline(web, cap, sheet, depth, todo, part, m).memory;
            m.visited <= after.visited && AllReachable(web, root, after.visited)
    decreases depth, |todo|
  {
    hide Imports, LiveImport, InlineOne, AllReachable, Content;
    if todo != [] {
      var step := InlineOne(web, cap, sheet, depth, todo[0], part, m);
      OneStaysReachable(web, cap, root, sheet, depth, todo[0], part, m);
      if step.Go? { InlineStaysReachable(web, cap, root, sheet, depth, todo[1..], step.part, step.memory); }
    }
  }

  lemma {:induction false} OneStaysReachable(
    web: Web, cap: Option<nat>, root: Sheet, sheet: Sheet, depth: int, imp: Import, part: Part, m: Memory)
    requires depth > 0 && part.from <= imp.start <= |sheet.css| && imp in Imports(sheet.css)
    requires root.key in m.visited && sheet.key in m.visited && Content(web, root, sheet.key) == Some(sheet.css)
    requires AllReachable(web, root, m.visited)
    ensures var step := InlineOne(web, cap, sheet, depth, imp, part, m);
            var after := if step.Go? then step.memory else step.outcome.memory;
            m.visited <= after.visited && AllReachable(web, root, after.visited)
    decreases depth, 0
  {
    hide Flatten, Reachable, SafeFrom, Balanced, Target, Wrapped, NonMediaCondition, Fits, Imports;
    var key := Target(web, sheet.key, imp);
    if Descends(web, sheet, imp, m) {
      TargetReachable(web, root, sheet, imp);
      FlattenStaysReachable(web, cap, root, Sheet(web.lookup(key).value, key), depth - 1, Entered(m, key));
    }
  }

  lemma TargetReachable(web: Web, root: Sheet, sheet: Sheet, imp: Import)
    requires Reachable(web, root, sheet.key) && Content(web, root, sheet.key) == Some(sheet.css)
    requires imp in Imports(sheet.css)
    ensures Reachable(web, root, Target(web, sheet.key, imp))
  {
    hide Reaches, Imports, Target;
    var p :| Reaches(web, root, p, sheet.key);
    Extend(web, root, p, sheet, imp);
  }

  /** A closed set that holds the root holds every key on a path. */
  lemma {:induction false} PathInside(web: Web, root: Sheet, done: set<Key>, p: seq<Key>)
    requires Closed(web, root, done, {}) && root.key in done && Path(web, root, p)
    ensures p[|p| - 1] in done
    decreases |p|
  {
    hide Imports, LiveImport, Balanced, Tail, GoodMedia, Target;
    if |p| > 1 {
      var q := p[..|p| - 1];
      assert Path(web, root, q) by {
        forall i | 0 <= i < |q| - 1 ensures Edge(web, root, q[i], q[i + 1]) {
          assert q[i] == p[i] && q[i + 1] == p[i + 1];
        }
      }
      PathInside(web, root, done, q);
      var a, b := p[|p| - 2], p[|p| - 1];
      assert Edge(web, root, a, b);
      assert Clean(web, root, a, done);
      var imp :| imp in Imports(Content(web, root, a).value) && Target(web, a, imp) == b;
      assert Inlined(web, a, imp, done);
    }
  }

  /**
   A run that is not skipped inlined exactly the sheets reachable from the root,
   and every one of them is cached, balanced, free of unharvested imports, and
   imports only under conditions an @media block can carry.  So a failure at any
   depth reaches the root.
   */
  lemma SuccessIsComplete(web: Web, cap: Option<nat>, css: string, url: string, depth: int, k: Key)
    requires !Root(web, cap, css, url, depth).result.Skipped()
    ensures var root, done := Sheet(css, (url, "")), Root(web, cap, css, url, depth).memory.visited;
            && (k in done <==> Reachable(web, root, k))
            && (Reachable(web, root, k) ==> Clean(web, root, k, done))
  {
    hide Flatten, Clean, Imports, Path;
    var root := Sheet(css, (url, ""));
    var m := Memory({root.key}, []);
    var done := Root(web, cap, css, url, depth).memory.visited;
    FlattenCloses(web, cap, root, root, depth, m, {});
    assert Reachable(web, root, root.key) by { SelfReachable(web, root); }
    FlattenStaysReachable(web, cap, root, root, depth, m);
    if Reachable(web, root, k) {
      var p :| Reaches(web, root, p, k);
      PathInside(web, root, done, p);
    }
  }

  lemma SelfReachable(web: Web, root: Sheet)
    ensures Reachable(web, root, root.key)
  {
    assert Reaches(web, root, [root.key], root.key);
  }

  /** Over a whole run no key is looked up twice, and the root never. */
  lemma LooksUpOnce(web: Web, cap: Option<nat>, css: string, url: string, depth: int)
    ensures var m := Root(web, cap, css, url, depth).memory;
            && Distinct(m.lookups) && (url, "") !in m.lookups
            && (!Root(web, cap, css, url, depth).result.Skipped() ==>
                  m.visited == {(url, "")} + set k | k in m.lookups)
  {
    hide Flatten;
    var start := Memory({(url, "")}, []);
    FlattenLooksUpOnce(web, cap, Sheet(css, (url, "")), depth, start);
    assert Remembers(start);
  }

  // ---- failure: some reachable sheet is to blame ------------------------------------------------

  datatype Cause = NonMediaImport(imp: Import) | UnsafeImport(imp: Import) | MissingImport(imp: Import)
    | UnbalancedImport(imp: Import) | UnharvestedImport | TooDeep

  /** What is wrong with the sheet of `k`. */
  ghost predicate Explains(web: Web, root: Sheet, k: Key, cause: Cause) {
    && Content(web, root, k).Some?
    && var css := Content(web, root, k).value;
       match cause
       case NonMediaImport(imp) => imp in Imports(css) && imp.media != "" && NonMediaCondition(imp.media)
       case UnsafeImport(imp) => imp in Imports(css) && !SafeFrom(imp.media, 0, 0)
       case MissingImport(imp) => imp in Imports(css) && Content(web, root, Target(web, k, imp)).None?
       case UnbalancedImport(imp) =>
         imp in Imports(css)
         && var child := Content(web, root, Target(web, k, imp)); child.Some? && !Balanced(child.value)
       case UnharvestedImport => LiveImport(Tail(css))
       case TooDeep => Imports(css) != []
  }

  /** The path leads to a sheet that explains the result; too deep means `depth` imports further on. */
  ghost predicate Blames(
    web: Web, root: Sheet, p: seq<Key>, depth: int, path: seq<Key>, cause: Cause, r: FlattenResult) {
    && Path(web, root, path) && Explains(web, root, path[|path| - 1], cause)
    && (r.skippedNonMedia <==> cause.NonMediaImport?)
    && (cause.TooDeep? ==> |path| == |p| + if depth < 0 then 0 else depth)
  }

  lemma {:induction false} FlattenBlames(web: Web, root: Sheet, sheet: Sheet, depth: int, m: Memory, p: seq<Key>)
    returns (path: seq<Key>, cause: Cause)
    requires Remembers(m) && root.key in m.visited && Content(web, root, sheet.key) == Some(sheet.css)
    requires Reaches(web, root, p, sheet.key)
    requires Flatten(web, None, sheet, depth, m).result.Skipped()
    ensures Blames(web, root, p, depth, path, cause, Flatten(web, None, sheet, depth, m).result)
    decreases if depth < 0 then 0 else depth, |Imports(sheet.css)| + 1
  {
    hide Imports, LiveImport, Inline, Path;
    path := p;
    if Imports(sheet.css) == [] {
      cause := UnharvestedImport;
      assert Tail(sheet.css) == sheet.css;
    } else if depth <= 0 {
      cause := TooDeep;
    } else {
      ImportsOrdered(sheet.css);
      path, cause := InlineBlames(web, root, sheet, depth, Imports(sheet.css), Part(0, "", 0), m, p);
    }
  }

  lemma {:induction false} InlineBlames(
    web: Web, root: Sheet, sheet: Sheet, depth: int, todo: seq<Import>, part: Part, m: Memory, p: seq<Key>)
    returns (path: seq<Key>, cause: Cause)
    requires depth > 0 && Ordered(todo, part.from, |sheet.css|)
    requires forall imp | imp in todo :: imp in Imports(sheet.css)
    requires LastEnd(todo, part.from) == LastEnd(Imports(sheet.css), 0)
    requires Remembers(m) && root.key in m.visited && Content(web, root, sheet.key) == Some(sheet.css)
    requires Reaches(web, root, p, sheet.key)
    requires Inline(web, None, sheet, depth, todo, part, m).result.Skipped()
    ensures Blames(web, root, p, depth, path, cause, Inline(web, None, sheet, depth, todo, part, m).result)
    decreases depth, |todo|
  {
    hide Imports, LiveImport, InlineOne, Content, Path, Blames, Remembers;
    if todo == [] {
      path, cause := p, UnharvestedImport;
      assert LiveImport(Tail(sheet.css));
      BlamesHere(web, root, sheet, depth, p, cause, Inline(web, None, sheet, depth, todo, part, m).result);
    } else {
      var step := InlineOne(web, None, sheet, depth, todo[0], part, m);
      if step.Stop? {
        path, cause := OneBlames(web, root, sheet, depth, todo[0], part, m, p);
      } else {
        OneLooksUpOnce(web, None, sheet, depth, todo[0], part, m);
        path, cause := InlineBlames(web, root, sheet, depth, todo[1..], step.part, step.memory, p);
      }
    }
  }

  lemma BlamesHere(web: Web, root: Sheet, sheet: Sheet, depth: int, p: seq<Key>, cause: Cause, r: FlattenResult)
    requires Reaches(web, root, p, sheet.key) && Explains(web, root, sheet.key, cause)
    requires r.skippedNonMedia <==> cause.NonMediaImport?
    requires !cause.TooDeep?
    ensures Blames(web, root, p, depth, p, cause, r)
  {}

  lemma {:induction false} OneBlames(
    web: Web, root: Sheet, sheet: Sheet, depth: int, imp: Import, part: Part, m: Memory, p: seq<Key>)
    returns (path: seq<Key>, cause: Cause)
    requires depth > 0 && part.from <= imp.start <= |sheet.css| && imp in Imports(sheet.css)
    requires Remembers(m) && root.key in m.visited && Content(web, root, sheet.key) == Some(sheet.css)
    requires Reaches(web, root, p, sheet.key)
    requires InlineOne(web, None, sheet, depth, imp, part, m).Stop?
    ensures Blames(web, root, p, depth, path, cause, InlineOne(web, None, sheet, depth, imp, part, m).outcome.result)
    decreases depth, 0
  {
    hide Flatten, SafeFrom, Balanced, Target, Wrapped, NonMediaCondition, Path, Imports, Remembers, Grows;
    var key := Target(web, sheet.key, imp);
    path := p;
    if imp.media != "" && NonMediaCondition(imp.media) {
      cause := NonMediaImport(imp);
    } else if imp.media != "" && !SafeFrom(imp.media, 0, 0) {
      cause := UnsafeImport(imp);
    } else if web.lookup(key).None? {
      cause := MissingImport(imp);
    } else if !Balanced(web.lookup(key).value) {
      cause := UnbalancedImport(imp);
    } else {
      Extend(web, root, p, sheet, imp);
      SightedGrows(m, key);
      path, cause := FlattenBlames(web, root, Sheet(web.lookup(key).value, key), depth - 1, Entered(m, key), p + [key]);
    }
  }

  /**
   A run skipped for another reason than the size cap found a reachable sheet with
   a defect, of the kind its flag says, or an import chain of the full depth.
   */
  lemma FailureHasCause(web: Web, css: string, url: string, depth: int) returns (path: seq<Key>, cause: Cause)
    requires Root(web, None, css, url, depth).result.Skipped()
    ensures var root := Sheet(css, (url, ""));
            && Path(web, root, path) && Explains(web, root, path[|path| - 1], cause)
            && (Root(web, None, css, url, depth).result.skippedNonMedia <==> cause.NonMediaImport?)
            && (cause.TooDeep? ==> |path| - 1 == if depth < 0 then 0 else depth)
  {
    hide Flatten, Path, Explains;
    var root := Sheet(css, (url, ""));
    assert Reaches(web, root, [root.key], root.key) by { RootPath(web, root); }
    path, cause := FlattenBlames(web, root, root, depth, Memory({root.key}, []), [root.key]);
  }

  lemma RootPath(web: Web, root: Sheet)
    ensures Reaches(web, root, [root.key], root.key)
  {}
}
