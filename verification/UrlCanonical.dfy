/** What the normal form of a URL guarantees. */
module UrlCanonical {
  import opened Options
  import opened HttpText
  import opened UrlNormalizer
  import opened UrlCacheKey

  /** A path, maybe with query and fragment, whose encodings are well formed. */
  predicate IsPathUrl(url: string) {
    url != "" && url[0] == '/' && WellFormed(url)
  }

  lemma NoAuthority(url: string)
    requires url != "" && url[0] == '/'
    ensures WithoutAuthority(url) == url
  {
    FindIn(url, '/', 0, 0);
  }

  /** Path and query, as the normalization reads them. */
  function PathOf(url: string): string { SplitQuery(WithoutFragment(url)).path }

  function QueryOf(url: string): Option<string> { SplitQuery(WithoutFragment(url)).query }

  lemma PartsAreClean(url: string)
    requires IsPathUrl(url)
    ensures WithoutAuthority(url) == url
    ensures var path := PathOf(url); path != "" && path[0] == '/' && WellFormed(path) && '?' !in path && '#' !in path
    ensures QueryOf(url).Some? ==> WellFormed(QueryOf(url).value) && '#' !in QueryOf(url).value
  {
    hide WellFormed;
    NoAuthority(url);
    var h := Find(url, '#', 0);
    var bare := WithoutFragment(url);
    if h < |url| {
      assert url == bare + ['#'] + url[h + 1..];
      WellFormedAround(bare, '#', url[h + 1..]);
    } else {
      assert bare == url;
    }
    var q := Find(bare, '?', 0);
    if q < |bare| {
      assert bare == bare[..q] + ['?'] + bare[q + 1..];
      WellFormedAround(bare[..q], '?', bare[q + 1..]);
    }
  }

  lemma CleanPath(path: string)
    requires path != "" && path[0] == '/' && WellFormed(path) && '?' !in path && '#' !in path
    ensures var n := Percent(path); n != "" && n[0] == '/' && Normal(n) && Percent(n) == n && '?' !in n && '#' !in n
  {
    PercentIsNormal(path);
    NormalIsFixed(Percent(path));
    PercentKeepsOut(path, '?');
    PercentKeepsOut(path, '#');
  }

  /** How a normalized URL is read again. */
  lemma ReadAgain(path: string, query: string, more: bool)
    requires path != "" && path[0] == '/' && '?' !in path && '#' !in path && '#' !in query
    ensures var r := if more then path + "?" + query else path;
            && WithoutAuthority(r) == r && WithoutFragment(r) == r
            && SplitQuery(r) == Split(path, if more then Some(query) else None)
  {
    var r := if more then path + "?" + query else path;
    NoAuthority(r);
    FindIn(r, '#', |r|, 0);
    FindIn(r, '?', |path|, 0);
    assert r[..|r|] == r;
  }

  /** The parameters that remain of a URL's query. */
  function Remaining(query: string, config: Config): seq<Param> {
    Kept(Params(Percent(query)), config.stripParams)
  }

  lemma RemainingAreNormal(query: string, config: Config)
    requires WellFormed(query) && '#' !in query
    ensures forall p | p in Remaining(query, config) ::
              IsParam(p) && Normal(Text(p)) && '#' !in Text(p) && p.key !in config.stripParams
  {
    hide IsParam, Normal, Text, Params, Percent, Kept;
    PercentIsNormal(query);
    PercentKeepsOut(query, '#');
    ParamsAreParams(Percent(query));
    KeptMembers(Params(Percent(query)), config.stripParams);
  }

  /** The normal form of a query: strictly sorted, and read back as it is. */
  lemma QueryIsFixed(query: string, config: Config, s: seq<Param>)
    requires WellFormed(query) && '#' !in query && SortOf(s, Remaining(query, config))
    ensures var u := Unique(s);
            Strict(u) && Percent(Joined(u)) == Joined(u) && Params(Joined(u)) == u && Kept(u, config.stripParams) == u
            && '#' !in Joined(u)
  {
    hide IsParam, Normal, Text, Params, Percent, Kept, Remaining, Strict, Sorted, Unique, Joined;
    var u := Unique(s);
    UniqueIsStrict(s);
    RemainingAreNormal(query, config);
    forall p | p in u ensures p in Remaining(query, config) {
      assert p in multiset(s);
    }
    JoinedIsNormal(u);
    NormalIsFixed(Joined(u));
    JoinedParses(u);
    JoinedKeepsOut(u, '#');
    KeptAll(u, config.stripParams);
  }

  /** Scheme and host do not matter. */
  lemma AuthorityDoesNotMatter(url: string, config: Config, r: string)
    requires IsPathUrl(WithoutAuthority(url))
    ensures NormalizesTo(url, config, r) <==> NormalizesTo(WithoutAuthority(url), config, r)
  {
    hide WithoutAuthority, WithoutFragment, SplitQuery, Percent, Params, Kept, SortOf, Unique, StripsQuery, WellFormed;
    NoAuthority(WithoutAuthority(url));
  }

  /**
   Normalizing twice gives the same as normalizing once, whatever sort is used each
   time, and a URL with scheme and host has the normal forms of its path.
   */
  lemma NormalizeIsIdempotent(url: string, config: Config, r: string, r2: string)
    requires IsPathUrl(WithoutAuthority(url)) && NormalizesTo(url, config, r)
    ensures NormalizesTo(r, config, r2) ==> r2 == r
    ensures NormalizesTo(WithoutAuthority(url), config, r)
  {
    hide WithoutAuthority, NormalizesTo, IsPathUrl;
    AuthorityDoesNotMatter(url, config, r);
    if NormalizesTo(r, config, r2) { PathIsIdempotent(WithoutAuthority(url), config, r, r2); }
  }

  lemma PathIsIdempotent(url: string, config: Config, r: string, r2: string)
    requires IsPathUrl(url) && NormalizesTo(url, config, r) && NormalizesTo(r, config, r2)
    ensures r2 == r
  {
    hide WithoutAuthority, WithoutFragment, SplitQuery, Percent, Params, Kept, SortOf, Unique, StripsQuery, WellFormed;
    PartsAreClean(url);
    var path := Percent(PathOf(url));
    CleanPath(PathOf(url));
    if QueryOf(url).None? || StripsQuery(config, path) {
      ReadAgain(path, "", false);
    } else {
      var query := QueryOf(url).value;
      var s :| SortOf(s, Remaining(query, config)) && r == Assembled(path, Unique(s));
      QueryIsFixed(query, config, s);
      var u := Unique(s);
      ReadAgain(path, Joined(u), u != []);
      if u != [] {
        var s2 :| SortOf(s2, Kept(Params(Percent(Joined(u))), config.stripParams)) && r2 == Assembled(path, Unique(s2));
        SortOfStrict(s2, u);
      }
    }
  }

  // ---- the order of the parameters --------------------------------------------------------------

  /** Parameter texts as they stand in a query. */
  ghost predicate AreTexts(texts: seq<string>) {
    forall t | t in texts :: WellFormed(t) && '&' !in t && '#' !in t
  }

  function Amp(texts: seq<string>): string {
    if texts == [] then "" else if |texts| == 1 then texts[0] else texts[0] + "&" + Amp(texts[1..])
  }

  lemma {:induction false} AmpIsClean(texts: seq<string>)
    requires AreTexts(texts)
    ensures WellFormed(Amp(texts)) && '#' !in Amp(texts)
    decreases |texts|
  {
    hide WellFormed;
    if texts == [] {
      assert WellFormed("") by { WellFormedNothing(); }
    } else {
      assert texts[0] in texts;
      if |texts| > 1 {
        AmpIsClean(texts[1..]);
        WellFormedAround(texts[0], '&', Amp(texts[1..]));
      }
    }
  }

  lemma WellFormedNothing()
    ensures WellFormed("")
  {}

  /** The parameter a text gives, if any. */
  ghost predicate Gives(t: string, p: Param) {
    t != "" && p == ParamOf(Percent(t))
  }

  lemma PercentEmpty(t: string)
    ensures Percent(t) == "" <==> t == ""
  {}

  lemma {:induction false} ParamsOfAmp(texts: seq<string>, p: Param)
    requires AreTexts(texts)
    ensures p in Params(Percent(Amp(texts))) <==> exists t :: t in texts && Gives(t, p)
    decreases |texts|
  {
    hide WellFormed, Percent, ParamOf, First, Rest, Params;
    if texts == [] {
      ParamsOfNothing();
    } else {
      var t, more := texts[0], |texts| > 1;
      assert t in texts;
      var rest := texts[1..];
      assert texts == [t] + rest;
      ParamsOfAmp(rest, p);
      PercentKeepsOut(t, '&');
      PercentEmpty(t);
      if more { PercentAround(t, '&', Amp(rest)); }
      ParamsOfFirst(Percent(t), more, Percent(Amp(rest)));
      ParamsOfNothing();
      assert p in Params(Percent(Amp(texts))) <==> Gives(t, p) || p in Params(Percent(Amp(rest)));
    }
  }

  lemma ParamsOfNothing()
    ensures Percent("") == "" && Params("") == []
  {}

  lemma ParamsOfFirst(text: string, more: bool, rest: string)
    requires '&' !in text
    ensures Params(if more then text + "&" + rest else text) == OneParam(text) + if more then Params(rest) else []
  {
    hide ParamOf;
    if text != "" {
      FirstOfJoined(text, more, rest);
    } else if more {
      var q := text + "&" + rest;
      FindIn(q, '&', 0, 0);
      assert First(q) == "" && Rest(q) == rest;
    }
  }

  /** Sorts of the same parameters without clash lead to the same list. */
  lemma SameParamsSameList(a: seq<Param>, b: seq<Param>, s: seq<Param>, t: seq<Param>)
    requires NoClash(a) && (forall p :: p in a <==> p in b) && SortOf(s, a) && SortOf(t, b)
    ensures Unique(s) == Unique(t)
  {
    hide Before, Same, Strict, Sorted, Unique;
    forall p ensures (p in s <==> p in a) && (p in t <==> p in b) {
      assert (p in multiset(s) <==> p in multiset(a)) && (p in multiset(t) <==> p in multiset(b));
    }
    assert NoClash(s) && NoClash(t);
    UniqueIsStrict(s);
    UniqueIsStrict(t);
    UniqueKeepsAll(s);
    UniqueKeepsAll(t);
    StrictIsUnique(Unique(s), Unique(t));
  }

  /**
   Queries with the same parameters, in any order and with any repeats, have the
   same normal form, unless a key occurs both as `k` and as `k=`.
   */
  lemma OrderDoesNotMatter(
    url: string, url2: string, path: string, a: seq<string>, b: seq<string>, config: Config, r: string, r2: string)
    requires WithoutAuthority(url) == path + "?" + Amp(a) && WithoutAuthority(url2) == path + "?" + Amp(b)
    requires IsPathUrl(path) && '?' !in path && '#' !in path && AreTexts(a) && AreTexts(b)
    requires forall t :: t in a <==> t in b
    requires NoClash(Remaining(Amp(a), config))
    requires NormalizesTo(url, config, r) && NormalizesTo(url2, config, r2)
    ensures r == r2
  {
    hide WithoutAuthority, WithoutFragment, SplitQuery, Percent, Params, Kept, SortOf, Unique, StripsQuery, WellFormed,
      Amp, NoClash, AreTexts, Gives;
    AmpIsClean(a);
    AmpIsClean(b);
    ReadAgain(path, Amp(a), true);
    ReadAgain(path, Amp(b), true);
    if !StripsQuery(config, Percent(path)) {
      var s :| SortOf(s, Remaining(Amp(a), config)) && r == Assembled(Percent(path), Unique(s));
      var t :| SortOf(t, Remaining(Amp(b), config)) && r2 == Assembled(Percent(path), Unique(t));
      forall p ensures p in Remaining(Amp(a), config) <==> p in Remaining(Amp(b), config) {
        ParamsOfAmp(a, p);
        ParamsOfAmp(b, p);
        KeptMembers(Params(Percent(Amp(a))), config.stripParams);
        KeptMembers(Params(Percent(Amp(b))), config.stripParams);
      }
      SameParamsSameList(Remaining(Amp(a), config), Remaining(Amp(b), config), s, t);
    }
  }

  // ---- exactly when the normal form is unique -----------------------------------------------------------

  /** Everything in front of `p` precedes it strictly. */
  ghost predicate LeadsItsClass(s: seq<Param>, p: Param) {
    exists i :: 0 <= i < |s| && s[i] == p && forall j | 0 <= j < i :: Before(s[j], p)
  }

  /** Where an insertion sort puts `x`. */
  lemma {:induction false} Place(s: seq<Param>, x: Param) returns (k: nat)
    ensures k <= |s| && (k == 0 || !Before(x, s[k - 1])) && forall y | y in s[k..] :: Before(x, y)
    decreases |s|
  {
    if s == [] || !Before(x, s[|s| - 1]) {
      k := |s|;
    } else {
      k := Place(s[..|s| - 1], x);
      assert s[k..] == s[..|s| - 1][k..] + [s[|s| - 1]];
    }
  }

  lemma {:induction false} SortWithLeader(p: Param, rest: seq<Param>) returns (s: seq<Param>)
    ensures SortOf(s, [p] + rest) && LeadsItsClass(s, p)
    decreases |rest|
  {
    hide Before, Same, Sorted, LeadsItsClass;
    if rest == [] {
      s := [p];
      assert [p] + rest == [p];
      SortedOne(p);
    } else {
      var front, x := rest[..|rest| - 1], rest[|rest| - 1];
      var t := SortWithLeader(p, front);
      var k := Place(t, x);
      SortedParts(t, k);
      InsertedIsSorted(t[..k], x, t[k..]);
      s := t[..k] + [x] + t[k..];
      InsertedMultiset(t, k, x, [p] + front);
      assert [p] + rest == [p] + front + [x];
      LeaderStays(t, k, x, p);
    }
  }

  lemma InsertedMultiset(t: seq<Param>, k: nat, x: Param, params: seq<Param>)
    requires k <= |t| && multiset(t) == multiset(params)
    ensures multiset(t[..k] + [x] + t[k..]) == multiset(params + [x])
  {
    assert t == t[..k] + t[k..];
  }

  lemma SortedOne(p: Param)
    ensures Sorted([p]) && LeadsItsClass([p], p)
  {
    assert [p][0] == p;
  }

  lemma LeaderStays(t: seq<Param>, k: nat, x: Param, p: Param)
    requires LeadsItsClass(t, p) && k <= |t| && forall y | y in t[k..] :: Before(x, y)
    ensures LeadsItsClass(t[..k] + [x] + t[k..], p)
  {
    hide Before;
    var s := t[..k] + [x] + t[k..];
    var i :| 0 <= i < |t| && t[i] == p && forall j | 0 <= j < i :: Before(t[j], p);
    if i < k {
      assert s[i] == p;
      forall j | 0 <= j < i ensures Before(s[j], p) { assert s[j] == t[j]; }
    } else {
      assert t[k..][i - k] == p && p in t[k..] && s[i + 1] == p;
      forall j | 0 <= j < i + 1 ensures Before(s[j], p) {
        if j < k { assert s[j] == t[j]; } else if j > k { assert s[j] == t[j - 1]; }
      }
    }
  }

  lemma {:induction false} LeaderIsKept(s: seq<Param>, i: nat)
    requires i < |s| && forall j | 0 <= j < i :: Before(s[j], s[i])
    ensures s[i] in Unique(s)
    decreases |s|
  {
    hide Before, Same;
    if |s| > 1 {
      var front := s[..|s| - 1];
      if i < |s| - 1 {
        LeaderIsKept(front, i);
      } else {
        UniqueMembers(front);
        var top := Unique(front)[|Unique(front)| - 1];
        assert top in front;
        var k :| 0 <= k < |front| && front[k] == top;
        assert Before(s[k], s[i]);
        BeforeIsOrder(top, s[i], top);
      }
    }
  }

  /** A sort in which `p` stands for its class. */
  lemma SortKeeping(params: seq<Param>, p: Param) returns (s: seq<Param>)
    requires p in params
    ensures SortOf(s, params) && p in Unique(s)
  {
    hide Before, Same, Sorted, Unique;
    var i :| 0 <= i < |params| && params[i] == p;
    var rest := params[..i] + params[i + 1..];
    assert params == params[..i] + [p] + params[i + 1..];
    s := SortWithLeader(p, rest);
    assert multiset([p] + rest) == multiset(params);
    var k :| 0 <= k < |s| && s[k] == p && forall j | 0 <= j < k :: Before(s[j], p);
    LeaderIsKept(s, k);
  }

  lemma DifferentLists(a: seq<Param>, b: seq<Param>, path: string)
    requires a != b && (forall p | p in a :: IsParam(p)) && (forall p | p in b :: IsParam(p))
    ensures a != [] && b != [] ==> Assembled(path, a) != Assembled(path, b)
  {
    hide IsParam, Params, Joined;
    JoinedParses(a);
    JoinedParses(b);
    if a != [] && b != [] {
      assert Assembled(path, a)[|path| + 1..] == Joined(a);
      assert Assembled(path, b)[|path| + 1..] == Joined(b);
    }
  }

  /** Every sort leads to the same text. */
  ghost predicate OneNormalForm(url: string, config: Config) {
    forall r, r2 | NormalizesTo(url, config, r) && NormalizesTo(url, config, r2) :: r == r2
  }

  /** A URL has one normal form exactly if no remaining key occurs both as `k` and as `k=`. */
  lemma UniqueIffNoClash(url: string, path: string, query: string, config: Config)
    requires WithoutAuthority(url) == path + "?" + query
    requires IsPathUrl(path) && '?' !in path && '#' !in path && WellFormed(query) && '#' !in query
    requires !StripsQuery(config, Percent(path))
    ensures OneNormalForm(url, config) <==> NoClash(Remaining(query, config))
  {
    hide WithoutAuthority, WithoutFragment, SplitQuery, Percent, Params, Kept, SortOf, Unique, StripsQuery, WellFormed,
      IsParam, Same, Before, Assembled;
    var all, np := Remaining(query, config), Percent(path);
    ReadAgain(path, query, true);
    if NoClash(all) {
      forall r, r2 | NormalizesTo(url, config, r) && NormalizesTo(url, config, r2) ensures r == r2 {
        var s :| SortOf(s, all) && r == Assembled(np, Unique(s));
        var t :| SortOf(t, all) && r2 == Assembled(np, Unique(t));
        SameParamsSameList(all, all, s, t);
      }
    } else {
      var p, q :| p in all && q in all && Same(p, q) && p != q;
      var s, t := ClashGivesTwo(query, config, np, p, q);
      assert NormalizesTo(url, config, Assembled(np, Unique(s))) && NormalizesTo(url, config, Assembled(np, Unique(t)));
    }
  }

  lemma ClashGivesTwo(query: string, config: Config, np: string, p: Param, q: Param)
    returns (s: seq<Param>, t: seq<Param>)
    requires WellFormed(query) && '#' !in query
    requires var all := Remaining(query, config); p in all && q in all && Same(p, q) && p != q
    ensures SortOf(s, Remaining(query, config)) && SortOf(t, Remaining(query, config))
    ensures Assembled(np, Unique(s)) != Assembled(np, Unique(t))
  {
    hide Params, Kept, Unique, WellFormed, IsParam, Same, Before, Assembled, Remaining;
    var all := Remaining(query, config);
    s := SortKeeping(all, p);
    t := SortKeeping(all, q);
    RemainingAreNormal(query, config);
    UniqueMembers(s);
    UniqueMembers(t);
    forall x | x in Unique(s) ensures IsParam(x) { assert x in multiset(s); }
    forall x | x in Unique(t) ensures IsParam(x) { assert x in multiset(t); }
    UniqueIsStrict(s);
    StrictHasNoClash(Unique(s));
    DifferentLists(Unique(s), Unique(t), np);
  }
}
