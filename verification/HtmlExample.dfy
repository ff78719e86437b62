/**
 A response without validators that is admitted for its explicit lifetime: once it
 is stale, a request is told to validate an entry that offers nothing to validate with.
 */
module HtmlExample {
  import opened Options
  import opened HttpText
  import opened CacheControl
  import S = Sidecar
  import opened HtmlStore
  import opened HtmlServe
  import opened HtmlLifetime

  const TYPE := S.Field("content-type", "text/html")
  const CONTROL := S.Field("cache-control", "max-age=60")
  const PAGE := Response(200, [TYPE, CONTROL], 0, true, "")
  const GET := Request("GET", "/", false, false, false, false)

  lemma Names()
    ensures Lower("content-type") == "content-type" && Lower("cache-control") == "cache-control"
  {
    hide Lower;
    LowerAlready("content-type");
    LowerAlready("cache-control");
  }

  /** The lines of a name in the two headers. */
  lemma LinesOfPage(name: string)
    ensures Lines(PAGE.headers, name)
         == (if name == "content-type" then ["text/html"] else [])
         + (if name == "cache-control" then ["max-age=60"] else [])
  {
    hide Lower;
    Names();
    var h := PAGE.headers;
    assert h[1..] == [CONTROL] && h[1..][1..] == [];
    assert Lines(h[1..], name) == (if name == "cache-control" then ["max-age=60"] else []) + [];
  }

  lemma PageIsHtml()
    ensures IsHtml(PAGE.headers) && IsIdentity(PAGE.headers)
  {
    hide Lower;
    LinesOfPage("content-type");
    Names();
    FindIn("text/html", ';', 9, 0);
    assert "text/html"[..9] == "text/html";
    assert Trim("text/html") == "text/html" by { TrimTwice("text/html"); }
    LowerAlready("text/html");
    forall f | f in PAGE.headers ensures Lower(f.name) == "content-encoding" ==> Lower(Trim(f.value)) == "identity" {
      assert f == TYPE || f == CONTROL;
    }
  }

  lemma PageIsSwapEligible()
    ensures S.Classified(PAGE.headers).verdict == S.SwapEligible
  {
    hide S.TallyOf, S.Classified, S.VaryFrom, S.EncodedSize;
    var h := PAGE.headers;
    TallyOfPage();
    S.SwapEligibleIff(h);
    forall r ensures !S.Refused(h, r) { S.ReasonsOfLines(h, r); }
  }

  lemma TallyOfPage()
    ensures S.TallyOf(PAGE.headers) == S.Tally([], {}, "", false)
  {
    hide Lower;
    Names();
    var h := PAGE.headers;
    assert h[..1] == [TYPE] && h[..1][..0] == [];
    assert S.Decide(TYPE) == S.Elsewhere && !S.CountsForVary(TYPE);
    assert S.Decide(CONTROL) == S.Elsewhere && !S.CountsForVary(CONTROL);
    assert S.TallyOf([TYPE]) == S.Tally([], {}, "", false);
  }

  const SIXTY := Directive("max-age", Some("60"))

  lemma PageDirectives()
    ensures AllDirectives(Lines(PAGE.headers, "cache-control")) == [SIXTY]
  {
    hide Directives, Lines;
    LinesOfPage("cache-control");
    DirectivesOfPage();
    var lines := ["max-age=60"];
    assert lines[1..] == [] && AllDirectives([]) == [];
    assert AllDirectives(lines) == [SIXTY] + [];
  }

  lemma ValuesOfOne(d: Directive, name: string)
    ensures Values([d], name) == if d.name == name then [Value(d)] else []
  {
    assert [d][1..] == [];
  }

  lemma PageLifetime(now: nat)
    ensures StatedLifetime(PAGE.headers, now) == Lifetime(60, true, false)
  {
    hide Seconds, AllDirectives, Lines, Values, ExpiresLifetime, Named;
    PageDirectives();
    ValuesOfOne(SIXTY, "s-maxage");
    ValuesOfOne(SIXTY, "max-age");
    ValuesOfOne(SIXTY, "no-cache");
    Sixty();
  }

  lemma DirectivesOfPage()
    ensures Directives("max-age=60") == [Directive("max-age", Some("60"))]
  {
    hide Lower;
    var s := "max-age=60";
    FindIn(s, ',', 10, 0);
    FindIn(s, '=', 7, 0);
    assert s[..10] == s && s[..7] == "max-age" && s[8..] == "60";
    TrimTwice("max-age");
    LowerAlready("max-age");
    assert Directives("") == [];
  }

  lemma Sixty()
    ensures Seconds("60") == 60
  {
    TrimTwice("60");
    assert Saturating("60", 2, 60) == 60;
    assert Saturating("60", 1, 6) == 60;
  }

  lemma PageHasNoValidators()
    ensures !HasValidators(PAGE.headers)
  {
    hide Lower;
    Names();
    forall f | f in PAGE.headers ensures Lower(f.name) != "etag" && Lower(f.name) != "last-modified" {
      assert f == TYPE || f == CONTROL;
    }
  }

  lemma NotNamed(name: string)
    requires name != "content-type" && name != "cache-control"
    ensures !Named(PAGE.headers, name) && Lines(PAGE.headers, name) == []
  {
    hide Lines;
    LinesOfPage(name);
  }

  lemma RootIsSafe()
    ensures KeySafe("/")
  {}

  lemma PageIsStored(now: nat, signal: (string, bool) -> bool)
    requires !signal("", false)
    ensures ClassifyHtmlForStore(GET, PAGE, Policy(ServeCachedHtml, 0, now), signal).Stores()
  {
    hide Lines, Named, ReadCc, IsHtml, IsIdentity, S.Classified, LifetimeOf, HasValidators, VaryAdmitted, KeySafe,
      ClassifyHtmlForStore, StatedLifetime, ExplicitShared;
    var p := Policy(ServeCachedHtml, 0, now);
    RootIsSafe();
    NotNamed("content-range");
    NotNamed("set-cookie");
    NotNamed("set-cookie2");
    NotNamed("vary");
    PageIsHtml();
    PageIsSwapEligible();
    LifetimeIsStated(PAGE.headers, now);
    PageLifetime(now);
    PageFlags();
    NoVary();
    StoresIffAdmissible(GET, PAGE, p, signal);
  }

  lemma NoVary()
    ensures VaryAdmitted([])
  {}

  lemma PageFlags()
    ensures var fs := ReadCc(PAGE.headers).cc.flags; Private !in fs && NoStore !in fs
  {
    hide Lines, ReadLine;
    LinesOfPage("cache-control");
    var start := CcRead(Origin({}, 0, 0), 0, 0, false);
    var lines := ["max-age=60"];
    assert Lines(PAGE.headers, "cache-control") == lines && lines[1..] == [];
    assert ReadLines(ReadLine(start, lines[0]), []) == ReadLine(start, lines[0]);
    LineFlags(start);
  }

  lemma LineFlags(start: CcRead)
    ensures ReadLine(start, "max-age=60").cc.flags == start.cc.flags + {HeaderPresent}
  {
    hide Occurrences, ValidSMaxage, Directives, ApplyAll, Obey;
    var o := start.cc.(flags := start.cc.flags + {HeaderPresent});
    ApplyAllIsObeyAll("max-age=60", o);
    DirectivesOfPage();
    assert [SIXTY][1..] == [];
    assert ObeyAll([], Obey(SIXTY, o)) == Obey(SIXTY, o);
    assert Obey(SIXTY, o).flags == o.flags by { SixtyFlags(o); }
  }

  lemma SixtyFlags(o: Origin)
    ensures Obey(SIXTY, o).flags == o.flags
  {}

  /** Ten minutes later the entry is stale: the answer is to validate, and there is no validator. */
  lemma StaleMayLackValidator(signal: (string, bool) -> bool) returns (run: seq<Event>)
    requires !signal("", false)
    ensures |run| == 2 && Timed(run) && run[1].Serve? && run[0].Receive?
    ensures AnswerAt(run, 1, signal).action == Validate && AnswerAt(run, 1, signal).reason == Stale
    ensures EntryAfter(run, 1, signal) == Some(EntryOf(run[0], signal)) && !HasValidators(run[0].r.headers)
  {
    hide ClassifyHtmlForStore, StatedLifetime, HasValidators, ReadCc, ExplicitShared, Admissible;
    var p := Policy(ServeCachedHtml, 0, 1000);
    var ask := Ask(ServeCachedHtml, false, false, false, false, false, false, false, -1, -1, 1600);
    var found := Found(false, false, false, false, false, false, false, 0);
    run := [Receive(GET, PAGE, p, 0), Serve(ask, found)];
    PageIsStored(1000, signal);
    VerdictOfAdmitted(GET, PAGE, p, signal);
    PageLifetime(1000);
    PageHasNoValidators();
    assert EntryAfter(run, 1, signal) == Some(Entry(GET, PAGE, p, 0, ClassifyHtmlForStore(GET, PAGE, p, signal)));
  }
}
