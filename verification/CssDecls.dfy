/**
 ParseBlockDecls: splitting a block into declarations at its top-level ';'.
 The specification reads one declaration off the front of a text (`Scan`); the
 main fact is that this reading is local, so declarations can be cut out and
 joined with ';' again without changing how any of them is read.
 */
module CssDecls {
  import opened CssChars

  datatype Decl = Decl(prop: string, value: string, raw: string)

  // ---- nesting of (...) and [...] ---------------------------------------------

  /** The stack after `c`, read outside strings, url() and escapes. */
  function FedStack(stack: string, c: char): string {
    if c == '(' || c == '[' then stack + "("
    else if c == ')' || c == ']' then
      if stack != "" && stack[|stack| - 1] == '(' then stack[..|stack| - 1] else stack
    else if stack == "" then stack
    else if c == '{' then stack + "{"
    else if c == '}' && stack[|stack| - 1] == '{' then stack[..|stack| - 1]
    else stack
  }

  /** `c` is bookkeeping or content of an open block rather than structure. */
  predicate FedIsContent(stack: string, c: char) {
    stack != "" || c == '(' || c == '[' || c == ')' || c == ']'
  }

  class ValueNest {
    var stack: string

    constructor ()
      ensures stack == ""
    {
      stack := "";
    }

    method Feed(c: char) returns (content: bool)
      modifies this
      ensures stack == FedStack(old(stack), c) && content == FedIsContent(old(stack), c)
    {
      if stack == "" && c != '(' && c != '[' && c != ')' && c != ']' {
        return false;
      }
      if c == '(' || c == '[' {
        stack := stack + "(";
        return true;
      }
      if c == ')' || c == ']' {
        if stack != "" && stack[|stack| - 1] == '(' {
          stack := stack[..|stack| - 1];
        }
        return true;
      }
      if c == '{' {
        stack := stack + "{";
      } else if c == '}' && stack[|stack| - 1] == '{' {
        stack := stack[..|stack| - 1];
      }
      return true;
    }
  }

  // ---- one declaration --------------------------------------------------------

  datatype Reader = Reader(i: nat, lex: Lex, stack: string, colon: int)

  const FRONT := Reader(0, Normal, "", -1)

  /** Where a declaration ends, and its first top-level ':' (-1 for none). */
  datatype Extent = Extent(end: nat, colon: int)

  /** The reader stands at the ';' that ends the declaration. */
  predicate Stops(s: string, rd: Reader)
    requires rd.i < |s|
  {
    s[rd.i] == ';' && rd.lex.Normal? && rd.stack == ""
  }

  function Next(s: string, rd: Reader): (n: Reader)
    requires rd.i < |s|
    ensures rd.i < n.i <= |s|
    ensures -1 <= rd.colon < rd.i ==> -1 <= n.colon < n.i
  {
    var c := s[rd.i];
    if !rd.lex.Normal? then
      if c == '\\' && rd.i + 1 < |s| then rd.(i := rd.i + 2)
      else if c == (if rd.lex.InSingle? then '\'' else '"') then rd.(i := rd.i + 1, lex := Normal)
      else rd.(i := rd.i + 1)
    else if UrlAt(s, rd.i) then rd.(i := CloseEnd(s, rd.i + 4, ')'))
    else if c == '\\' && rd.i + 1 < |s| then rd.(i := rd.i + 2)
    else if c == '\'' then rd.(i := rd.i + 1, lex := InSingle)
    else if c == '"' then rd.(i := rd.i + 1, lex := InDouble)
    else if FedIsContent(rd.stack, c) then rd.(i := rd.i + 1, stack := FedStack(rd.stack, c))
    else if c == ':' && rd.colon == -1 then rd.(i := rd.i + 1, colon := rd.i)
    else rd.(i := rd.i + 1)
  }

  function Scan(s: string, rd: Reader): (e: Extent)
    requires rd.i <= |s| && -1 <= rd.colon < rd.i
    ensures rd.i <= e.end <= |s| && -1 <= e.colon < e.end
    ensures e.end < |s| ==> s[e.end] == ';'
    decreases |s| - rd.i
  {
    if rd.i == |s| || Stops(s, rd) then Extent(rd.i, rd.colon) else Scan(s, Next(s, rd))
  }

  function DeclOf(raw: string, colon: int): Decl
    requires colon < |raw|
  {
    if colon > 0 then Decl(raw[..colon], raw[colon + 1..], raw) else Decl("", "", raw)
  }

  function ParseDecls(s: string): seq<Decl>
    decreases |s|
  {
    if s == "" then []
    else
      var e := Scan(s, FRONT);
      (if e.end == 0 then [] else [DeclOf(s[..e.end], e.colon)])
      + ParseDecls(if e.end < |s| then s[e.end + 1..] else "")
  }

  /** The inner loop: from the front of `rest` to the next top-level ';' or the end. */
  method ReadDecl(rest: string) returns (end: nat, colon: int)
    ensures Extent(end, colon) == Scan(rest, FRONT)
  {
    var i, lex, stopped := 0, Normal, false;
    colon := -1;
    var nest := new ValueNest();
    while i < |rest| && !stopped
      invariant 0 <= i <= |rest| && -1 <= colon < i
      invariant stopped ==> i < |rest| && Stops(rest, Reader(i, lex, nest.stack, colon))
      invariant Scan(rest, Reader(i, lex, nest.stack, colon)) == Scan(rest, FRONT)
      decreases |rest| - i, !stopped
    {
      hide UrlAt, CloseEnd;
      var c := rest[i];
      ghost var rd := Reader(i, lex, nest.stack, colon);
      if lex.Normal? && UrlAt(rest, i) {
        i := CloseEnd(rest, i + 4, ')');
      } else if c == '\\' && i + 1 < |rest| {
        i := i + 2;
      } else if !lex.Normal? {
        if c == (if lex.InSingle? then '\'' else '"') { lex := Normal; }
        i := i + 1;
      } else if c == '\'' {
        lex, i := InSingle, i + 1;
      } else if c == '"' {
        lex, i := InDouble, i + 1;
      } else {
        var content := nest.Feed(c);
        if !content && c == ';' {
          stopped := true;
        } else {
          if !content && c == ':' && colon == -1 { colon := i; }
          i := i + 1;
        }
      }
      assert !stopped ==> Reader(i, lex, nest.stack, colon) == Next(rest, rd);
    }
    end := i;
  }

  method ParseBlockDecls(block: string) returns (decls: seq<Decl>)
    ensures decls == ParseDecls(block)
  {
    hide Scan;
    decls := [];
    var rest := block;
    while rest != ""
      invariant decls + ParseDecls(rest) == ParseDecls(block)
      decreases |rest|
    {
      var end, colon := ReadDecl(rest);
      var found := if end > 0 then [DeclOf(rest[..end], colon)] else [];
      ghost var tail := ParseDecls(if end < |rest| then rest[end + 1..] else "");
      assert ParseDecls(rest) == found + tail;
      assert decls + (found + tail) == (decls + found) + tail;
      decls := decls + found;
      rest := if end < |rest| then rest[end + 1..] else "";
    }
  }

  // ---- reading is local ---------------------------------------------------------

  /** The two texts agree up to `k`, where one has a ';' and the other has one or ends. */
  ghost predicate AgreeTo(s: string, u: string, k: nat) {
    && k < |s| && s[k] == ';'
    && k <= |u| && (k < |u| ==> u[k] == ';')
    && forall i :: 0 <= i < k ==> s[i] == u[i]
  }

  lemma {:induction false} QuoteAheadLocal(s: string, u: string, i: nat, k: nat)
    requires AgreeTo(s, u, k) && i <= k
    ensures QuoteAhead(s, i) == QuoteAhead(u, i)
    decreases k - i
  {
    if i < k && IsCssWhitespace(s[i]) {
      QuoteAheadLocal(s, u, i + 1, k);
    }
  }

  lemma UrlAtLocal(s: string, u: string, i: nat, k: nat)
    requires AgreeTo(s, u, k) && i <= k
    ensures UrlAt(s, i) == UrlAt(u, i)
    ensures UrlAt(s, i) ==> i + 3 < k
  {
    hide QuoteAhead;
    if i + 3 < k {
      QuoteAheadLocal(s, u, i + 4, k);
    }
  }

  lemma {:induction false} UrlEndLocal(s: string, u: string, j: nat, k: nat)
    requires AgreeTo(s, u, k) && j <= k && CloseEnd(s, j, ')') <= k
    ensures CloseEnd(u, j, ')') == CloseEnd(s, j, ')')
    decreases k - j
  {
    if j < k {
      if s[j] == '\\' && j + 1 < |s| {
        UrlEndLocal(s, u, j + 2, k);
      } else if s[j] != ')' {
        UrlEndLocal(s, u, j + 1, k);
      }
    }
  }

  lemma NextLocal(s: string, u: string, rd: Reader, k: nat)
    requires AgreeTo(s, u, k) && rd.i < k && Next(s, rd).i <= k
    ensures Next(u, rd) == Next(s, rd)
  {
    hide UrlAt, CloseEnd, FedStack, FedIsContent;
    UrlAtLocal(s, u, rd.i, k);
    if rd.lex.Normal? && UrlAt(s, rd.i) {
      UrlEndLocal(s, u, rd.i + 4, k);
    }
  }

  /** A declaration that ends at a ';' is read the same way whatever follows, a missing ';' included. */
  lemma {:induction false} ScanLocal(s: string, u: string, rd: Reader)
    requires rd.i <= |s| && -1 <= rd.colon < rd.i
    requires AgreeTo(s, u, Scan(s, rd).end)
    ensures Scan(u, rd) == Scan(s, rd)
    decreases |s| - rd.i
  {
    hide Next;
    if !Stops(s, rd) {
      var n := Next(s, rd);
      NextLocal(s, u, rd, Scan(s, rd).end);
      ScanLocal(s, u, n);
    }
  }

  // ---- cutting and joining --------------------------------------------------------

  /** A non-empty text that is one declaration, also when a ';' follows it. */
  ghost predicate Closed(p: string) {
    p != "" && Scan(p + ";", FRONT).end == |p|
  }

  /** A non-empty text that is one declaration when it comes last. */
  ghost predicate Whole(p: string) {
    p != "" && Scan(p, FRONT).end == |p|
  }

  function Of(p: string): Decl {
    DeclOf(p, Scan(p, FRONT).colon)
  }

  lemma ClosedIsWhole(p: string)
    requires Closed(p)
    ensures Whole(p) && Scan(p, FRONT) == Scan(p + ";", FRONT)
  {
    hide Scan;
    ScanLocal(p + ";", p, FRONT);
  }

  lemma ClosedThen(p: string, rest: string)
    requires Closed(p)
    ensures Scan(p + ";" + rest, FRONT) == Scan(p, FRONT)
  {
    hide Scan;
    ScanLocal(p + ";", p + ";" + rest, FRONT);
    ClosedIsWhole(p);
  }

  ghost predicate Pieces(ps: seq<string>) {
    && (forall k :: 0 <= k < |ps| - 1 ==> Closed(ps[k]))
    && (|ps| > 0 ==> Whole(ps[|ps| - 1]))
  }

  function Join(ps: seq<string>): string {
    if |ps| == 0 then "" else if |ps| == 1 then ps[0] else ps[0] + ";" + Join(ps[1..])
  }

  function DeclsOf(ps: seq<string>): (ds: seq<Decl>)
    ensures |ds| == |ps| && forall k :: 0 <= k < |ds| ==> ds[k] == Of(ps[k])
  {
    if ps == [] then [] else [Of(ps[0])] + DeclsOf(ps[1..])
  }

  function Raws(ds: seq<Decl>): (ps: seq<string>)
    ensures |ps| == |ds| && forall k :: 0 <= k < |ds| ==> ps[k] == ds[k].raw
  {
    if ds == [] then [] else [ds[0].raw] + Raws(ds[1..])
  }

  /** Declarations joined with ';' are read back one by one. */
  lemma {:induction false} ParseOfJoin(ps: seq<string>)
    requires Pieces(ps)
    ensures ParseDecls(Join(ps)) == DeclsOf(ps)
  {
    hide Scan;
    if |ps| == 1 {
      assert ps[0][..|ps[0]|] == ps[0];
    } else if |ps| > 1 {
      var s := Join(ps);
      ClosedThen(ps[0], Join(ps[1..]));
      ClosedIsWhole(ps[0]);
      assert s[..|ps[0]|] == ps[0] && s[|ps[0]| + 1..] == Join(ps[1..]);
      ParseOfJoin(ps[1..]);
    }
  }

  /** The first piece of a block, in front of the pieces of what follows it. */
  lemma FirstPiece(p: string, ds: seq<Decl>)
    requires Whole(p) && (ds != [] ==> Closed(p))
    requires Pieces(Raws(ds)) && ds == DeclsOf(Raws(ds))
    ensures var all := [Of(p)] + ds;
            && Raws(all) == [p] + Raws(ds)
            && Pieces(Raws(all)) && all == DeclsOf(Raws(all))
            && |Join(Raws(all))| == if ds == [] then |p| else |p| + 1 + |Join(Raws(ds))|
  {
    hide Scan, Closed, Whole, Of;
    var all := [Of(p)] + ds;
    assert Of(p).raw == p by { RawOf(p); }
    assert Raws(all) == [p] + Raws(ds);
    assert ([p] + Raws(ds))[1..] == Raws(ds);
  }

  lemma RawOf(p: string)
    ensures Of(p).raw == p
  {}

  /** What a block is split into are pieces, and joining them is never longer than the block. */
  lemma {:induction false} ParseGivesPieces(s: string)
    ensures var ds := ParseDecls(s);
            Pieces(Raws(ds)) && ds == DeclsOf(Raws(ds)) && |Join(Raws(ds))| <= |s|
    decreases |s|
  {
    hide Scan, Pieces, DeclsOf, Raws, Join;
    if s == "" {
      NoPieces();
    } else {
      var e := Scan(s, FRONT);
      var p := s[..e.end];
      var rest := if e.end < |s| then s[e.end + 1..] else "";
      ParseGivesPieces(rest);
      if e.end > 0 {
        if e.end < |s| {
          ScanLocal(s, p + ";", FRONT);
          ClosedIsWhole(p);
        } else {
          assert p == s;
        }
        FirstPiece(p, ParseDecls(rest));
        assert ParseDecls(s) == [Of(p)] + ParseDecls(rest);
      } else {
        assert ParseDecls(s) == ParseDecls(rest);
      }
    }
  }

  lemma NoPieces()
    ensures Pieces(Raws([])) && DeclsOf(Raws([])) == [] && Join(Raws([])) == ""
  {}
}
