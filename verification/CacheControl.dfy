/** The origin's Cache-Control state: parsing a header line into flags and lifetimes. */
module CacheControl {
  import opened Options
  import opened Ascii
  import opened HttpText

  datatype Flag =
    | NoCache | MustRevalidate | NoStore | Private | Public | Immutable | SMaxagePresent | ProxyRevalidate
    | NoTransform | HeaderPresent | PrivateQualified | PrivateBare | NoCacheQualified | NoCacheBare

  datatype Origin = Origin(flags: set<Flag>, maxAge: nat, sMaxage: nat)

  const MAX32 := 0xFFFF_FFFF

  // ---- delta-seconds --------------------------------------------------------------------

  /** Reads on from `i` with `acc` so far, saturating. */
  function Saturating(s: string, i: nat, acc: nat): (n: nat)
    requires i <= |s| && acc <= MAX32
    ensures n <= MAX32
    decreases |s| - i
  {
    if i == |s| then acc
    else if !IsDigit(s[i]) then 0
    else
      var next := acc * 10 + (s[i] - '0') as nat;
      if next > MAX32 then MAX32 else Saturating(s, i + 1, next)
  }

  function Unquoted(s: string): string {
    var a := if s != "" && s[0] == '"' then s[1..] else s;
    if a != "" && a[|a| - 1] == '"' then a[..|a| - 1] else a
  }

  function Seconds(s: string): (n: nat)
    ensures n <= MAX32
  {
    var v := Trim(Unquoted(Trim(s)));
    if v == "" then 0 else Saturating(v, 0, 0)
  }

  method ParseCacheControlSeconds(s: string) returns (n: nat)
    ensures n == Seconds(s)
  {
    var v := TrimOws(s);
    v := TrimOws(Unquoted(v));
    if v == "" { return 0; }
    n := 0;
    for i := 0 to |v|
      invariant n <= MAX32 && Saturating(v, i, n) == Saturating(v, 0, 0)
    {
      if !IsDigit(v[i]) { return 0; }
      n := n * 10 + (v[i] - '0') as nat;
      if n > MAX32 { return MAX32; }
    }
  }

  // ---- directives --------------------------------------------------------------------------

  /** The table of directives that set a flag. */
  function FlagNamed(name: string): Option<Flag> {
    if name == "no-cache" then Some(NoCache)
    else if name == "must-revalidate" then Some(MustRevalidate)
    else if name == "proxy-revalidate" then Some(ProxyRevalidate)
    else if name == "no-store" then Some(NoStore)
    else if name == "private" then Some(Private)
    else if name == "public" then Some(Public)
    else if name == "immutable" then Some(Immutable)
    else if name == "no-transform" then Some(NoTransform)
    else None
  }

  /** An argument makes `private` and `no-cache` the qualified form, even an empty one. */
  function FormFlags(f: Flag, hasArgument: bool): set<Flag> {
    if f == Private then {Private, if hasArgument then PrivateQualified else PrivateBare}
    else if f == NoCache then {NoCache, if hasArgument then NoCacheQualified else NoCacheBare}
    else {f}
  }

  /** What one directive, already trimmed, adds. */
  function Apply(token: string, o: Origin): Origin {
    if token == "" then o
    else
      var eq := Find(token, '=', 0);
      var name := Lower(if eq < |token| then Trim(token[..eq]) else token);
      var value := if eq < |token| then token[eq + 1..] else "";
      match FlagNamed(name)
      case Some(f) => o.(flags := o.flags + FormFlags(f, eq < |token|))
      case None =>
        if name == "max-age" then o.(maxAge := Seconds(value))
        else if name == "s-maxage" then o.(sMaxage := Seconds(value), flags := o.flags + {SMaxagePresent})
        else o
  }

  function ApplyAll(val: string, o: Origin): Origin
    decreases |val|
  {
    if val == "" then o
    else
      var comma := Find(val, ',', 0);
      ApplyAll(if comma < |val| then val[comma + 1..] else "", Apply(Trim(val[..comma]), o))
  }

  /** One header line, added to what earlier lines said. */
  function Accumulated(line: string, o: Origin): Origin {
    ApplyAll(line, o.(flags := o.flags + {HeaderPresent}))
  }

  method AccumulateOriginCacheControl(line: string, start: Origin) returns (o: Origin)
    ensures o == Accumulated(line, start)
  {
    hide Apply, Trim;
    o := start.(flags := start.flags + {HeaderPresent});
    var val := line;
    while val != ""
      invariant ApplyAll(val, o) == Accumulated(line, start)
      decreases |val|
    {
      var comma := Find(val, ',', 0);
      var token := TrimOws(val[..comma]);
      o := Apply(token, o);
      val := if comma < |val| then val[comma + 1..] else "";
    }
  }

  // ---- a list of plain directives -----------------------------------------------------------

  /** A directive as written: nothing to trim and no comma in it. */
  ghost predicate Plain(token: string) {
    Solid(token) && ',' !in token
  }

  function CommaJoined(tokens: seq<string>): string {
    if tokens == [] then "" else if |tokens| == 1 then tokens[0] else tokens[0] + ", " + CommaJoined(tokens[1..])
  }

  function Fold(tokens: seq<string>, o: Origin): Origin
    decreases |tokens|
  {
    if tokens == [] then o else Fold(tokens[1..], Apply(tokens[0], o))
  }

  lemma ApplyFirst(val: string, token: string, rest: string, o: Origin)
    requires val != ""
    requires var comma := Find(val, ',', 0);
             Trim(val[..comma]) == token && rest == if comma < |val| then val[comma + 1..] else ""
    ensures ApplyAll(val, o) == ApplyAll(rest, Apply(token, o))
  {}

  /** Whitespace in front of a list is trimmed with its first directive. */
  lemma {:induction false} ListParses(tokens: seq<string>, space: string, o: Origin)
    requires forall t | t in tokens :: Plain(t)
    requires Blank(space) && (tokens == [] ==> space == "")
    ensures ApplyAll(space + CommaJoined(tokens), o) == Fold(tokens, o)
    decreases |tokens|
  {
    hide Apply, ApplyAll, Trim, Find, Plain, Blank;
    if tokens == [] {
      ApplyNone(o);
      assert space + CommaJoined(tokens) == "";
    } else {
      var t := tokens[0];
      assert t in tokens;
      if |tokens| == 1 {
        assert tokens[1..] == [];
        LastParses(space, t, o);
      } else {
        var more := CommaJoined(tokens[1..]);
        assert Blank(" ") by { OneSpaceIsBlank(); }
        ListParses(tokens[1..], " ", Apply(t, o));
        FrontParses(space, t, more, o);
      }
    }
  }

  lemma OneSpaceIsBlank()
    ensures Blank(" ")
  {}

  lemma LastParses(space: string, t: string, o: Origin)
    requires Plain(t) && Blank(space)
    ensures ApplyAll(space + t, o) == Apply(t, o)
  {
    hide Apply, ApplyAll, Trim, Find, Plain, Blank;
    assert space + t == space + t + "";
    FirstToken(space, t, "", false);
    ApplyFirst(space + t, t, "", o);
    ApplyNone(Apply(t, o));
  }

  lemma FrontParses(space: string, t: string, more: string, o: Origin)
    requires Plain(t) && Blank(space)
    ensures ApplyAll(space + (t + ", " + more), o) == ApplyAll(" " + more, Apply(t, o))
  {
    hide Apply, ApplyAll, Trim, Find, Plain, Blank;
    var val, rest := space + (t + ", " + more), " " + more;
    assert val == space + t + ("," + rest);
    FirstToken(space, t, rest, true);
    ApplyFirst(val, t, rest, o);
  }

  lemma ApplyNone(o: Origin)
    ensures ApplyAll("", o) == o
  {}

  lemma FirstToken(space: string, t: string, rest: string, more: bool)
    requires Plain(t) && Blank(space)
    ensures var val := space + t + (if more then "," + rest else "");
            && val != "" && Find(val, ',', 0) == |space| + |t| && Trim(val[..|space| + |t|]) == t
            && (more ==> |space| + |t| < |val| && val[|space| + |t| + 1..] == rest)
  {
    var val := space + t + (if more then "," + rest else "");
    forall j | 0 <= j < |space| + |t| ensures val[j] != ',' {
      if j < |space| {
        assert val[j] == space[j] && space[j] in space;
      } else {
        assert val[j] == t[j - |space|];
      }
    }
    FindIn(val, ',', |space| + |t|, 0);
    assert val[..|space| + |t|] == space + t + "";
    TrimPadded(space, t, "");
  }
}
