/**
 The explicit lifetime of a stored response: the parser that keeps the last value
 and the counters that look for repeats together compute what the directives say.
 */
module HtmlLifetime {
  import opened Options
  import opened HttpText
  import opened CacheControl
  import opened Sidecar
  import opened HtmlStore

  // ---- the parser in terms of directives ---------------------------------------------------

  function Value(d: Directive): string {
    if d.value.Some? then d.value.value else ""
  }

  function Obey(d: Directive, o: Origin): Origin {
    match FlagNamed(d.name)
    case Some(f) => o.(flags := o.flags + FormFlags(f, d.value.Some?))
    case None =>
      if d.name == "max-age" then o.(maxAge := Seconds(Value(d)))
      else if d.name == "s-maxage" then o.(sMaxage := Seconds(Value(d)), flags := o.flags + {SMaxagePresent})
      else o
  }

  function ObeyAll(ds: seq<Directive>, o: Origin): Origin
    decreases |ds|
  {
    if ds == [] then o else ObeyAll(ds[1..], Obey(ds[0], o))
  }

  lemma FindAfterBlank(a: string, t: string, b: string)
    requires Blank(a) && Blank(b)
    ensures var s, k := a + t + b, Find(t, '=', 0);
            Find(s, '=', 0) == if k < |t| then |a| + k else |s|
  {
    var s, k := a + t + b, Find(t, '=', 0);
    var to := if k < |t| then |a| + k else |s|;
    forall j | 0 <= j < to ensures s[j] != '=' {
      if j < |a| {
        assert s[j] == a[j] && a[j] in a;
      } else if j < |a| + |t| {
        assert s[j] == t[j - |a|];
      } else {
        assert s[j] == b[j - |a| - |t|] && b[j - |a| - |t|] in b;
      }
    }
    if k < |t| { assert s[|a| + k] == t[k]; }
    FindIn(s, '=', to, 0);
  }

  /** Whitespace around an element changes neither its name nor the number it gives. */
  lemma DirectiveTrimmed(token: string)
    ensures var d, e := DirectiveOf(token), DirectiveOf(Trim(token));
            d.name == e.name && d.value.Some? == e.value.Some? && Trim(Value(d)) == Trim(Value(e))
  {
    hide Trim, Lower;
    var a, b := TrimSplit(token);
    var t := Trim(token);
    FindAfterBlank(a, t, b);
    var k := Find(t, '=', 0);
    TrimAround("", t, "");
    if k < |t| {
      assert token[..|a| + k] == a + t[..k];
      TrimAround(a, t[..k], "");
      assert token[|a| + k + 1..] == t[k + 1..] + b;
      TrimAround("", t[k + 1..], b);
    } else {
      assert Trim(t) == t by { TrimTwice(t); }
    }
  }

  lemma TrimTwice(t: string)
    requires t == "" || Solid(t)
    ensures Trim(t) == t
  {}

  lemma ApplyIsObey(t: string, o: Origin)
    requires t == "" || Solid(t)
    ensures Apply(t, o) == Obey(DirectiveOf(t), o)
  {
    hide Seconds, Trim, Find, Lower;
    TrimTwice(t);
    if t == "" { assert Lower("") == ""; }
  }

  lemma SecondsOfTrimmed(a: string, b: string)
    requires Trim(a) == Trim(b)
    ensures Seconds(a) == Seconds(b)
  {}

  lemma ObeyAllNext(d: Directive, ds: seq<Directive>, o: Origin)
    ensures ObeyAll([d] + ds, o) == ObeyAll(ds, Obey(d, o))
  {
    hide Obey;
    assert ([d] + ds)[1..] == ds;
  }

  /** The text after the first comma. */
  function AfterComma(line: string): (rest: string)
    ensures line != "" ==> |rest| < |line|
  {
    var comma := Find(line, ',', 0);
    if comma < |line| then line[comma + 1..] else ""
  }

  lemma FirstElement(line: string, o: Origin)
    requires line != ""
    ensures var token := line[..Find(line, ',', 0)];
            && Directives(line) == [DirectiveOf(token)] + Directives(AfterComma(line))
            && ApplyAll(line, o) == ApplyAll(AfterComma(line), Apply(Trim(token), o))
  {
    hide Apply, Trim, DirectiveOf;
  }

  lemma {:induction false} ApplyAllIsObeyAll(line: string, o: Origin)
    ensures ApplyAll(line, o) == ObeyAll(Directives(line), o)
    decreases |line|
  {
    hide Apply, Obey, Trim, DirectiveOf, AfterComma;
    if line != "" {
      hide ObeyAll, ApplyAll, Directives;
      var token, rest := line[..Find(line, ',', 0)], AfterComma(line);
      FirstElement(line, o);
      ElementObeys(token, o);
      ApplyAllIsObeyAll(rest, Apply(Trim(token), o));
      ObeyAllNext(DirectiveOf(token), Directives(rest), o);
    }
  }

  lemma ElementObeys(token: string, o: Origin)
    ensures Apply(Trim(token), o) == Obey(DirectiveOf(token), o)
  {
    hide Apply, Trim, DirectiveOf, FlagNamed, Seconds;
    var a, b := TrimSplit(token);
    ApplyIsObey(Trim(token), o);
    DirectiveTrimmed(token);
    SecondsOfTrimmed(Value(DirectiveOf(token)), Value(DirectiveOf(Trim(token))));
  }

  // ---- what the directives of all lines say --------------------------------------------------

  function AllDirectives(lines: seq<string>): seq<Directive> {
    if lines == [] then [] else Directives(lines[0]) + AllDirectives(lines[1..])
  }

  /** The values given for a directive, in order. */
  function Values(ds: seq<Directive>, name: string): seq<string> {
    if ds == [] then [] else (if ds[0].name == name then [Value(ds[0])] else []) + Values(ds[1..], name)
  }

  /** The lifetime as the directives state it: exactly one value counts, several conflict. */
  function StatedLifetime(headers: seq<Field>, now: nat): Lifetime {
    var ds := AllDirectives(Lines(headers, "cache-control"));
    var shared, own := Values(ds, "s-maxage"), Values(ds, "max-age");
    var seconds :=
      if |shared| > 1 || |own| > 1 then 0
      else if |shared| == 1 then Seconds(shared[0])
      else if |own| == 1 then Seconds(own[0])
      else if Named(headers, "expires") then ExpiresLifetime(headers, now)
      else 0;
    Lifetime(seconds, shared != [] || own != [] || Named(headers, "expires"),
             seconds == 0 || Values(ds, "no-cache") != [])
  }

  lemma {:induction false} ValuesAppend(a: seq<Directive>, b: seq<Directive>, name: string)
    ensures Values(a + b, name) == Values(a, name) + Values(b, name)
  {
    if a == [] {
      assert a + b == b;
    } else {
      assert (a + b)[1..] == a[1..] + b;
      ValuesAppend(a[1..], b, name);
    }
  }

  lemma {:induction false} OccurrencesAreValues(ds: seq<Directive>, name: string)
    ensures Occurrences(ds, name) == |Values(ds, name)|
  {
    if ds != [] { OccurrencesAreValues(ds[1..], name); }
  }

  function LastOr(values: seq<string>, n: nat): nat {
    if values == [] then n else Seconds(values[|values| - 1])
  }

  /** The directive a flag records, by its name in section 5.2.2 of RFC 9111 and in RFC 8246. */
  function DirectiveName(f: Flag): string {
    match f
    case NoCache => "no-cache" case MustRevalidate => "must-revalidate" case NoStore => "no-store"
    case Private => "private" case Public => "public" case Immutable => "immutable"
    case ProxyRevalidate => "proxy-revalidate" case NoTransform => "no-transform" case SMaxagePresent => "s-maxage"
    case _ => ""
  }

  /** The parser keeps the last value of each lifetime, and a flag for what occurred. */
  ghost predicate Keeps(ds: seq<Directive>, o: Origin, r: Origin) {
    && r.maxAge == LastOr(Values(ds, "max-age"), o.maxAge)
    && r.sMaxage == LastOr(Values(ds, "s-maxage"), o.sMaxage)
    && (forall f: Flag | DirectiveName(f) != "" ::
          f in r.flags <==> f in o.flags || Values(ds, DirectiveName(f)) != [])
  }

  lemma OneKept(d: Directive, o: Origin)
    ensures Keeps([d], o, Obey(d, o))
  {
    hide Seconds, Values, FlagNamed, DirectiveName;
    OneValue(d, "max-age");
    OneValue(d, "s-maxage");
    NamesOfFlags(d.name);
    forall f: Flag | DirectiveName(f) != ""
      ensures f in Obey(d, o).flags <==> f in o.flags || Values([d], DirectiveName(f)) != []
    {
      OneValue(d, DirectiveName(f));
      FlagIsNamed(d.name, f);
      FormsAreUnnamed();
    }
  }

  lemma OneValue(d: Directive, name: string)
    ensures Values([d], name) == if d.name == name then [Value(d)] else []
  {
    assert [d][1..] == [] && Values([], name) == [];
  }

  lemma NamesOfFlags(name: string)
    ensures name == "max-age" || name == "s-maxage" ==> FlagNamed(name) == None
    ensures DirectiveName(SMaxagePresent) == "s-maxage"
  {}

  /** The table gives a flag to its directive and to no other. */
  lemma FlagIsNamed(name: string, f: Flag)
    requires DirectiveName(f) != ""
    ensures f != SMaxagePresent ==> (FlagNamed(name) == Some(f) <==> name == DirectiveName(f))
    ensures FlagNamed(name) != Some(SMaxagePresent)
  {}

  lemma FormsAreUnnamed()
    ensures DirectiveName(PrivateQualified) == DirectiveName(PrivateBare) == DirectiveName(NoCacheQualified) == ""
    ensures DirectiveName(NoCacheBare) == ""
  {}

  lemma KeepsTwice(a: seq<Directive>, b: seq<Directive>, o: Origin, r: Origin, q: Origin)
    requires Keeps(a, o, r) && Keeps(b, r, q)
    ensures Keeps(a + b, o, q)
  {
    hide Seconds, Values;
    ValuesAppend(a, b, "max-age");
    ValuesAppend(a, b, "s-maxage");
    forall f: Flag | DirectiveName(f) != ""
      ensures f in q.flags <==> f in o.flags || Values(a + b, DirectiveName(f)) != []
    {
      ValuesAppend(a, b, DirectiveName(f));
    }
  }

  lemma {:induction false} AllKept(ds: seq<Directive>, o: Origin)
    ensures Keeps(ds, o, ObeyAll(ds, o))
    decreases |ds|
  {
    hide Obey, Keeps;
    if ds == [] {
      assert Keeps(ds, o, o) by { NoneKept(o); }
    } else {
      OneKept(ds[0], o);
      AllKept(ds[1..], Obey(ds[0], o));
      KeepsTwice([ds[0]], ds[1..], o, Obey(ds[0], o), ObeyAll(ds, o));
      assert [ds[0]] + ds[1..] == ds;
    }
  }

  lemma NoneKept(o: Origin)
    ensures Keeps([], o, o)
  {}

  /** All lines together. */
  ghost predicate KeepsLines(ds: seq<Directive>, start: CcRead, r: CcRead) {
    && Keeps(ds, start.cc, r.cc)
    && r.maxAges == start.maxAges + |Values(ds, "max-age")|
    && r.sMaxages == start.sMaxages + |Values(ds, "s-maxage")|
  }

  lemma LineKept(r: CcRead, line: string)
    ensures KeepsLines(Directives(line), r, ReadLine(r, line))
  {
    hide Directives, Values, Occurrences, ApplyAll, ObeyAll, ValidSMaxage;
    var ds := Directives(line);
    var o := r.cc.(flags := r.cc.flags + {HeaderPresent});
    ApplyAllIsObeyAll(line, o);
    AllKept(ds, o);
    OccurrencesAreValues(ds, "max-age");
    OccurrencesAreValues(ds, "s-maxage");
  }

  lemma {:induction false} LinesKept(r: CcRead, lines: seq<string>)
    ensures KeepsLines(AllDirectives(lines), r, ReadLines(r, lines))
    decreases |lines|
  {
    hide ReadLine, Keeps, Directives;
    if lines == [] {
      NoneKept(r.cc);
    } else {
      var ds, more := Directives(lines[0]), AllDirectives(lines[1..]);
      var s := ReadLine(r, lines[0]);
      LineKept(r, lines[0]);
      LinesKept(s, lines[1..]);
      KeepsTwice(ds, more, r.cc, s.cc, ReadLines(s, lines[1..]).cc);
      ValuesAppend(ds, more, "max-age");
      ValuesAppend(ds, more, "s-maxage");
    }
  }

  /** The lifetime the store rules use is the one the directives state. */
  lemma LifetimeIsStated(headers: seq<Field>, now: nat)
    ensures LifetimeOf(headers, ReadCc(headers), now) == StatedLifetime(headers, now)
  {
    hide ReadLines, AllDirectives, Values, Seconds, ExpiresLifetime, Lines;
    LinesKept(CcRead(Origin({}, 0, 0), 0, 0, false), Lines(headers, "cache-control"));
    assert DirectiveName(SMaxagePresent) == "s-maxage" && DirectiveName(NoCache) == "no-cache";
  }

  /** The lines set a flag exactly when its directive occurs in one of them. */
  lemma FlagsAreStated(headers: seq<Field>, f: Flag)
    requires DirectiveName(f) != ""
    ensures f in ReadCc(headers).cc.flags
            <==> Values(AllDirectives(Lines(headers, "cache-control")), DirectiveName(f)) != []
  {
    hide ReadLines, AllDirectives, Values, Lines;
    LinesKept(CcRead(Origin({}, 0, 0), 0, 0, false), Lines(headers, "cache-control"));
  }

  // ---- with and without an argument -------------------------------------------------------------

  /** The directive whose form a flag records. */
  function FormName(f: Flag): string {
    match f
    case PrivateQualified => "private" case PrivateBare => "private"
    case NoCacheQualified => "no-cache" case NoCacheBare => "no-cache"
    case _ => ""
  }

  /** The directive is given, with an argument or without. */
  ghost predicate Given(ds: seq<Directive>, name: string, argument: bool) {
    exists d :: d in ds && d.name == name && d.value.Some? == argument
  }

  lemma GivenBoth(a: seq<Directive>, b: seq<Directive>, name: string, argument: bool)
    ensures Given(a + b, name, argument) <==> Given(a, name, argument) || Given(b, name, argument)
  {}

  lemma FormObeyed(d: Directive, o: Origin, f: Flag)
    requires FormName(f) != ""
    ensures f in Obey(d, o).flags
            <==> f in o.flags || Given([d], FormName(f), f == PrivateQualified || f == NoCacheQualified)
  {
    hide Seconds, FlagNamed;
    FlagIsNamed(d.name, Private);
    FlagIsNamed(d.name, NoCache);
    FormIsNoDirective(d.name);
  }

  /** No directive sets a form but these two. */
  lemma FormIsNoDirective(name: string)
    ensures FlagNamed(name) != Some(PrivateQualified) && FlagNamed(name) != Some(PrivateBare)
    ensures FlagNamed(name) != Some(NoCacheQualified) && FlagNamed(name) != Some(NoCacheBare)
    ensures DirectiveName(Private) == "private" && DirectiveName(NoCache) == "no-cache"
  {}

  lemma {:induction false} FormsObeyed(ds: seq<Directive>, o: Origin, f: Flag)
    requires FormName(f) != ""
    ensures f in ObeyAll(ds, o).flags
            <==> f in o.flags || Given(ds, FormName(f), f == PrivateQualified || f == NoCacheQualified)
    decreases |ds|
  {
    hide Obey;
    if ds != [] {
      FormObeyed(ds[0], o, f);
      FormsObeyed(ds[1..], Obey(ds[0], o), f);
      assert [ds[0]] + ds[1..] == ds;
      GivenBoth([ds[0]], ds[1..], FormName(f), f == PrivateQualified || f == NoCacheQualified);
    }
  }

  lemma {:induction false} FormsOfLines(r: CcRead, lines: seq<string>, f: Flag)
    requires FormName(f) != ""
    ensures f in ReadLines(r, lines).cc.flags
            <==> || f in r.cc.flags
                 || Given(AllDirectives(lines), FormName(f), f == PrivateQualified || f == NoCacheQualified)
    decreases |lines|
  {
    hide Directives, Given, ApplyAll, ObeyAll, ValidSMaxage, Occurrences, FormName;
    if lines == [] {
      assert !Given([], FormName(f), f == PrivateQualified || f == NoCacheQualified) by { GivenNowhere(f); }
    } else {
      var ds, o := Directives(lines[0]), r.cc.(flags := r.cc.flags + {HeaderPresent});
      ApplyAllIsObeyAll(lines[0], o);
      FormsObeyed(ds, o, f);
      FormsOfLines(ReadLine(r, lines[0]), lines[1..], f);
      GivenBoth(ds, AllDirectives(lines[1..]), FormName(f), f == PrivateQualified || f == NoCacheQualified);
      assert f != HeaderPresent by { HeaderIsNoForm(); }
    }
  }

  lemma GivenNowhere(f: Flag)
    ensures !Given([], FormName(f), f == PrivateQualified || f == NoCacheQualified)
  {}

  lemma HeaderIsNoForm()
    ensures FormName(HeaderPresent) == ""
  {}

  /** An argument, even an empty one, makes `private` and `no-cache` the qualified form; both forms may be given. */
  lemma FormsAreStated(headers: seq<Field>, f: Flag)
    requires FormName(f) != ""
    ensures f in ReadCc(headers).cc.flags
            <==> Given(AllDirectives(Lines(headers, "cache-control")), FormName(f),
                       f == PrivateQualified || f == NoCacheQualified)
  {
    hide ReadLines, AllDirectives, Lines, Given, FormName;
    FormsOfLines(CcRead(Origin({}, 0, 0), 0, 0, false), Lines(headers, "cache-control"), f);
  }
}
