/**
 Three balanced sheets whose flattening is not: the last one ends in '/', what
 follows its import begins with '*', and the block around both has no end.
 */
module CssFlattenExample {
  import opened Options
  import opened Ascii
  import opened CssBalance
  import opened CssEmbed
  import opened CssStrings
  import opened CssImports
  import opened CssFlatten
  import opened CssFlattenText
  import opened CssSeams

  const ROOT := "@import \"c\" x;"
  const OUTER := "@import \"g\";*"
  const INNER := "/"
  const FLAT := "@media x {\n/*\n}\n"

  const WEB := Web(
    (key: Key) => if key.0 == "c" then Some(OUTER) else if key.0 == "g" then Some(INNER) else None,
    (importer: string, url: string) => url,
    (css: string, from: string, to: string) => css)

  // ---- the imports of the sheets -------------------------------------------------------------

  lemma ReadOne(c: char, rest: string)
    requires c != '"' && c != '\\'
    ensures ReadString([c] + "\"" + rest, '"') == Some(Read([c], rest))
  {
    var t := [c] + "\"" + rest;
    assert t[1..] == "\"" + rest && t[1..][1..] == rest;
    assert ReadString(t[1..], '"') == Some(Read("", rest));
    assert t[0] == c && [t[0]] + "" == [c];
  }

  lemma IsImport(t: string)
    requires |t| > 7 && t[..7] == "@import" && t[7] == ' '
    ensures AtKeyword(t, "@import") && !AtKeyword(t, "@layer") && !Charset(t) && AfterBlank(t) == t && t[0] == '@'
  {
    var word := "@import";
    forall i | 0 <= i < 7 ensures t[i] == word[i] { assert t[..7][i] == t[i]; }
    assert LowerChar(t[1]) == 'i';
    assert t[1] == 'i';
  }

  lemma OuterImports()
    ensures Imports(OUTER) == [Import("g", "", 0, 12)]
  {
    hide AfterSpace, ReadString, ScanAtStatement, AfterBlank, AtKeyword;
    var u := "\"g\";*";
    assert OUTER[7..] == " " + u && OUTER[..7] == "@import";
    IsImport(OUTER);
    assert AfterSpace(OUTER[7..]) == u by { SpaceThen(u); }
    assert u[1..] == ['g'] + "\"" + ";*";
    ReadOne('g', ";*");
    assert AfterBlank(";*") == ";*" && AfterBlank("*") == "*" by { NoBlank(";*"); NoBlank("*"); }
    assert ";*"[1..] == "*";
    assert ReadImport(OUTER) == Some(ImportText("g", "", "*"));
    assert Harvest("*", 13) == [];
    assert [Import("g", "", 0, 12)] + [] == [Import("g", "", 0, 12)];
  }

  lemma SpaceThen(u: string)
    requires u != "" && !IsSpace(u[0])
    ensures AfterSpace(" " + u) == u && AfterBlank(" " + u) == AfterBlank(u) && AfterSpace(u) == u
  {
    assert (" " + u)[1..] == u;
  }

  lemma NoBlank(t: string)
    requires t != "" && !IsSpace(t[0]) && t[0] != '/'
    ensures AfterBlank(t) == t
  {}

  lemma Condition()
    ensures ScanAtStatement("x;") == Statement(Some(";"), "x", false) && TrimmedEnd("x") == "x"
  {
    assert "x;"[1..] == ";" && ScanAtStatement(";") == Statement(Some(";"), "", false);
  }

  lemma RootImports()
    ensures Imports(ROOT) == [Import("c", "x", 0, 14)]
  {
    hide AfterSpace, ReadString, ScanAtStatement, AfterBlank, AtKeyword, TrimmedEnd;
    var u := "\"c\" x;";
    assert ROOT[7..] == " " + u && ROOT[..7] == "@import";
    IsImport(ROOT);
    assert AfterSpace(ROOT[7..]) == u by { SpaceThen(u); }
    assert u[1..] == ['c'] + "\"" + " x;";
    ReadOne('c', " x;");
    assert AfterBlank(" x;") == "x;" by { assert " x;" == " " + "x;"; SpaceThen("x;"); NoBlank("x;"); }
    Condition();
    assert ";"[1..] == "";
    assert ReadImport(ROOT) == Some(ImportText("c", "x", ""));
    assert Harvest("", 14) == [] by { assert AfterBlank("") == "" by { BlankNothing(); } }
    assert [Import("c", "x", 0, 14)] + [] == [Import("c", "x", 0, 14)];
  }

  lemma BlankNothing()
    ensures AfterBlank("") == ""
  {}

  lemma NoImports(t: string)
    requires t == "/" || t == "*" || t == ""
    ensures Imports(t) == [] && !LiveImport(t)
  {
    assert AfterBlank(t) == t;
  }

  // ---- the sheets are balanced ----------------------------------------------------------------

  lemma InnerIsBalanced()
    ensures Balanced(INNER)
  {
    assert Next(INNER, 0) == Some(1);
  }

  lemma QuotedToken(s: string, p: nat)
    requires p + 2 < |s| && s[p] == '"' && s[p + 1] != '"' && s[p + 1] != '\\' && !IsCssNewline(s[p + 1])
    requires s[p + 2] == '"'
    ensures Next(s, p) == Some(p + 3)
  {
    assert StringEnd(s, p + 2, '"') == Some(p + 3);
    assert StringEnd(s, p + 1, '"') == Some(p + 3);
  }

  /** A sheet that is plain up to its string, and plain after it. */
  lemma StatementIsBalanced(s: string)
    requires |s| > 11 && s[8] == '"' && s[9] != '"' && s[9] != '\\' && !IsCssNewline(s[9]) && s[10] == '"'
    requires forall i | 0 <= i < 8 :: PlainToken(s[i])
    requires forall i | 11 <= i < |s| :: PlainToken(s[i])
    ensures Balanced(s)
  {
    hide Next;
    PlainRun(s, 0, 8);
    WalkOn(s, 0, 0, 0, 8, |s|);
    QuotedToken(s, 8);
    PlainRun(s, 11, |s|);
  }

  lemma SheetsAreBalanced()
    ensures Balanced(ROOT) && Balanced(OUTER) && Balanced(INNER)
  {
    hide Balanced;
    StatementIsBalanced(ROOT);
    StatementIsBalanced(OUTER);
    InnerIsBalanced();
  }

  // ---- the flattened text is not -----------------------------------------------------------------

  lemma FlattenInner(m: Memory, depth: int)
    ensures var o := Flatten(WEB, None, Sheet(INNER, ("g", "x")), depth, m);
            o == Outcome(FlattenResult(INNER, 0, 0, false, false), m)
  {
    hide Imports, LiveImport, Inline;
    NoImports(INNER);
  }

  lemma FlattenOuter(m: Memory)
    requires m == Memory({("", ""), ("c", "x")}, [("c", "x")])
    ensures var o := Flatten(WEB, None, Sheet(OUTER, ("c", "x")), 2, m);
            o.result == FlattenResult("/*", 1, 0, false, false)
  {
    hide Imports, LiveImport, InlineOne;
    var sheet, imp, key := Sheet(OUTER, ("c", "x")), Import("g", "", 0, 12), ("g", "x");
    OuterImports();
    ImportsOrdered(OUTER);
    var step := InlineOne(WEB, None, sheet, 2, imp, Part(0, "", 0), m);
    OuterStep(m);
    assert [imp][1..] == [];
    assert OUTER[12..] == "*";
    NoImports("*");
    assert "/" + "*" == "/*";
  }

  lemma OuterStep(m: Memory)
    requires m == Memory({("", ""), ("c", "x")}, [("c", "x")])
    ensures InlineOne(WEB, None, Sheet(OUTER, ("c", "x")), 2, Import("g", "", 0, 12), Part(0, "", 0), m)
         == Go(Part(12, "/", 1), Entered(m, ("g", "x")))
  {
    hide Flatten, Balanced;
    SheetsAreBalanced();
    FlattenInner(Entered(m, ("g", "x")), 1);
    assert OUTER[0..0] == "" && "" + "" == "" && "" + INNER == INNER;
    assert MediaKey("x", "") == "x";
  }

  lemma RootStep()
    ensures var m := Memory({("", "")}, []);
            var step := InlineOne(WEB, None, Sheet(ROOT, ("", "")), 3, Import("c", "x", 0, 14), Part(0, "", 0), m);
            step.Go? && step.part == Part(14, FLAT, 2)
  {
    hide Flatten, Balanced;
    var m := Memory({("", "")}, []);
    SheetsAreBalanced();
    assert Entered(m, ("c", "x")) == Memory({("", ""), ("c", "x")}, [("c", "x")]);
    FlattenOuter(Entered(m, ("c", "x")));
    assert ROOT[0..0] == "" && "" + "" == "";
    assert SafeFrom("x", 1, 0) && SafeFrom("x", 0, 0);
    assert Wrapped("x", "/*") == FLAT;
    assert "" + FLAT == FLAT;
  }

  lemma {:induction false} NoCommentEnd(s: string, p: nat)
    requires forall i | p <= i < |s| - 1 :: s[i] != '*' || s[i + 1] != '/'
    ensures CommentEnd(s, p) == None
    decreases |s| - p
  {
    if p + 1 < |s| { NoCommentEnd(s, p + 1); }
  }

  lemma FlatIsOpen()
    ensures !Balanced(FLAT)
  {
    hide Next;
    assert FLAT[9] == '{' && FLAT[10] == '\n' && FLAT[11] == '/' && FLAT[12] == '*';
    PlainRun(FLAT, 0, 9);
    WalkOn(FLAT, 0, 0, 0, 9, |FLAT|);
    BreakIsOneToken(FLAT, 9);
    NewlineIsOneToken(FLAT, 10);
    assert Next(FLAT, 11) == None by { NoCommentEnd(FLAT, 13); OpenComment(FLAT, 11); }
  }

  lemma OpenComment(s: string, p: nat)
    requires p + 1 < |s| && s[p] == '/' && s[p + 1] == '*'
    ensures Next(s, p) == CommentEnd(s, p + 2)
  {}

  /** The sheets are balanced and rebasing changes nothing, yet the text ends inside a comment inside its block. */
  lemma BlockMayStayOpen()
    ensures Balanced(ROOT) && Balanced(OUTER) && Balanced(INNER)
    ensures var r := Root(WEB, None, ROOT, "", 3).result;
            !r.Skipped() && r.css == FLAT && !Balanced(r.css)
  {
    hide Imports, LiveImport, InlineOne, Balanced;
    var root, imp := Sheet(ROOT, ("", "")), Import("c", "x", 0, 14);
    SheetsAreBalanced();
    RootImports();
    ImportsOrdered(ROOT);
    RootStep();
    assert [imp][1..] == [];
    assert ROOT[14..] == "" && FLAT + "" == FLAT;
    NoImports("");
    FlatIsOpen();
  }
}
