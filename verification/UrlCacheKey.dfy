/** The whole normalization: sorting is any sort, so its result is stated as a relation. */
module UrlCacheKey {
  import opened Options
  import opened HttpText
  import opened UrlNormalizer

  datatype Config = Config(stripExtensions: set<string>, stripParams: set<string>)

  // ---- order ----------------------------------------------------------------------------------

  predicate Less(a: string, b: string) {
    b != "" && (a == "" || a[0] < b[0] || (a[0] == b[0] && Less(a[1..], b[1..])))
  }

  lemma {:induction false} LessIsOrder(a: string, b: string, c: string)
    ensures !Less(a, a)
    ensures Less(a, b) && Less(b, c) ==> Less(a, c)
    ensures a == b || Less(a, b) || Less(b, a)
  {
    if a != "" {
      LessIsOrder(a[1..], if b != "" then b[1..] else "", if c != "" then c[1..] else "");
      if b != "" && a[0] == b[0] { assert a[1..] == b[1..] ==> a == b; }
    }
  }

  /** By key, then by value. */
  predicate Before(p: Param, q: Param) {
    Less(p.key, q.key) || (p.key == q.key && Less(p.value, q.value))
  }

  /** The sort and the removal of repeats do not look at the '='. */
  predicate Same(p: Param, q: Param) {
    p.key == q.key && p.value == q.value
  }

  lemma BeforeIsOrder(p: Param, q: Param, r: Param)
    ensures !Before(p, p)
    ensures Before(p, q) && Before(q, r) ==> Before(p, r)
    ensures Same(p, q) || Before(p, q) || Before(q, p)
    ensures Before(p, q) ==> !Before(q, p) && !Same(p, q)
    ensures Same(p, q) && Before(q, r) ==> Before(p, r)
    ensures Before(p, q) && Same(q, r) ==> Before(p, r)
  {
    hide Less;
    LessIsOrder(p.key, q.key, r.key);
    LessIsOrder(p.value, q.value, r.value);
    LessIsOrder(p.key, q.key, p.key);
    LessIsOrder(p.value, q.value, p.value);
    LessIsOrder(q.key, p.key, q.key);
    LessIsOrder(q.value, p.value, q.value);
  }

  ghost predicate Sorted(s: seq<Param>) {
    forall i, j | 0 <= i < j < |s| :: !Before(s[j], s[i])
  }

  ghost predicate SortOf(s: seq<Param>, params: seq<Param>) {
    multiset(s) == multiset(params) && Sorted(s)
  }

  ghost predicate Strict(s: seq<Param>) {
    forall i, j | 0 <= i < j < |s| :: Before(s[i], s[j])
  }

  /** Drops each parameter that repeats the one kept before it. */
  function Unique(s: seq<Param>): (r: seq<Param>)
    ensures s != [] ==> r != [] && Same(r[|r| - 1], s[|s| - 1])
    ensures |r| <= |s|
  {
    if |s| <= 1 then s
    else
      var front, last := Unique(s[..|s| - 1]), s[|s| - 1];
      if Same(front[|front| - 1], last) then front else front + [last]
  }

  lemma {:induction false} UniqueIsStrict(s: seq<Param>)
    requires Sorted(s)
    ensures Strict(Unique(s))
    ensures forall p | p in Unique(s) :: p in s
    decreases |s|
  {
    hide Before, Same;
    if |s| > 1 {
      var shorter, last := s[..|s| - 1], s[|s| - 1];
      assert Sorted(shorter) by {
        forall i, j | 0 <= i < j < |shorter| ensures !Before(shorter[j], shorter[i]) { assert !Before(s[j], s[i]); }
      }
      UniqueIsStrict(shorter);
      var front := Unique(shorter);
      var top := front[|front| - 1];
      assert top in front && top in shorter;
      var k :| 0 <= k < |shorter| && shorter[k] == top;
      assert s[k] == top;
      BeforeIsOrder(top, last, last);
      if !Same(top, last) {
        assert Before(top, last) by { assert !Before(s[|s| - 1], s[k]); }
        forall i, j | 0 <= i < j < |front + [last]| ensures Before((front + [last])[i], (front + [last])[j]) {
          if j == |front| {
            if i < |front| - 1 { assert Before(front[i], top); }
            BeforeIsOrder(front[i], top, last);
          }
        }
      }
    }
  }

  /** No parameter occurs both with and without an '=' before an empty value. */
  ghost predicate NoClash(params: seq<Param>) {
    forall p, q | p in params && q in params && Same(p, q) :: p == q
  }

  lemma {:induction false} UniqueKeepsAll(s: seq<Param>)
    requires NoClash(s)
    ensures forall p | p in s :: p in Unique(s)
    decreases |s|
  {
    hide Same;
    if |s| > 1 {
      var shorter, last := s[..|s| - 1], s[|s| - 1];
      assert forall p | p in shorter :: p in s;
      UniqueKeepsAll(shorter);
      var front := Unique(shorter);
      var top := front[|front| - 1];
      UniqueMembers(shorter);
      assert top in s && last in s;
      forall p | p in s ensures p in Unique(s) {
        if p !in shorter { assert p == last; }
      }
    }
  }

  lemma {:induction false} UniqueMembers(s: seq<Param>)
    ensures forall p | p in Unique(s) :: p in s
    decreases |s|
  {
    hide Same;
    if |s| > 1 { UniqueMembers(s[..|s| - 1]); }
  }

  /** A strictly sorted list is determined by its elements. */
  lemma {:induction false} StrictIsUnique(a: seq<Param>, b: seq<Param>)
    requires Strict(a) && Strict(b) && forall p :: p in a <==> p in b
    ensures a == b
    decreases |a|
  {
    hide Before;
    assert b != [] ==> b[0] in b;
    if a != [] {
      assert a[0] in a;
      var x, y := a[|a| - 1], b[|b| - 1];
      assert x in b && y in a;
      LastIsGreatest(a, y);
      LastIsGreatest(b, x);
      BeforeIsOrder(x, y, x);
      var a', b' := a[..|a| - 1], b[..|b| - 1];
      assert a == a' + [x] && b == b' + [y];
      forall p ensures p in a' <==> p in b' {
        LastOnce(a, p);
        LastOnce(b, p);
      }
      StrictIsUnique(a', b');
    }
  }

  lemma LastIsGreatest(a: seq<Param>, p: Param)
    requires Strict(a) && p in a
    ensures p == a[|a| - 1] || Before(p, a[|a| - 1])
  {}

  lemma LastOnce(a: seq<Param>, p: Param)
    requires Strict(a) && a != []
    ensures p in a[..|a| - 1] <==> p in a && p != a[|a| - 1]
  {
    var front, x := a[..|a| - 1], a[|a| - 1];
    if p in front {
      var i :| 0 <= i < |front| && front[i] == p;
      assert a[i] == p && Before(a[i], x);
      BeforeIsOrder(x, x, x);
    }
    if p in a && p != x {
      var i :| 0 <= i < |a| && a[i] == p;
      assert front[i] == p;
    }
  }

  /** Sorting a strictly sorted list changes nothing. */
  lemma SortOfStrict(s: seq<Param>, t: seq<Param>)
    requires Strict(t) && SortOf(s, t)
    ensures Unique(s) == t
  {
    hide Before, Same;
    forall p ensures p in s <==> p in t {
      assert p in multiset(s) <==> p in multiset(t);
    }
    StrictHasNoClash(t);
    assert NoClash(s);
    UniqueIsStrict(s);
    UniqueKeepsAll(s);
    StrictIsUnique(Unique(s), t);
  }

  lemma StrictHasNoClash(t: seq<Param>)
    requires Strict(t)
    ensures NoClash(t)
  {
    hide Before, Same;
    forall p, q | p in t && q in t && Same(p, q) ensures p == q {
      var i :| 0 <= i < |t| && t[i] == p;
      var j :| 0 <= j < |t| && t[j] == q;
      BeforeIsOrder(p, q, p);
      BeforeIsOrder(q, p, q);
    }
  }

  // ---- sorting and filtering ---------------------------------------------------------------------

  lemma NotBeforeEarlier(a: seq<Param>, p: Param, i: nat)
    requires Sorted(a) && i < |a| && !Before(p, a[|a| - 1])
    ensures !Before(p, a[i])
  {
    hide Before, Same;
    var last := a[|a| - 1];
    if i < |a| - 1 {
      assert !Before(last, a[i]);
      BeforeIsOrder(a[i], last, last);
      BeforeIsOrder(p, a[i], last);
    }
  }

  lemma InsertedIsSorted(a: seq<Param>, p: Param, b: seq<Param>)
    requires Sorted(a + b) && Sorted(a) && Sorted(b) && (a == [] || !Before(p, a[|a| - 1]))
             && forall x | x in b :: Before(p, x)
    ensures Sorted(a + [p] + b)
  {
    hide Before, Same;
    var r, s, k := a + [p] + b, a + b, |a|;
    forall i, j | 0 <= i < j < |r| ensures !Before(r[j], r[i]) {
      if i == k {
        assert r[j] in b;
        BeforeIsOrder(p, r[j], p);
      } else if j == k {
        NotBeforeEarlier(a, p, i);
      } else {
        var i', j' := if i < k then i else i - 1, if j < k then j else j - 1;
        assert r[i] == s[i'] && r[j] == s[j'] && !Before(s[j'], s[i']);
      }
    }
  }

  lemma SortedParts(s: seq<Param>, k: nat)
    requires Sorted(s) && k <= |s|
    ensures Sorted(s[..k]) && Sorted(s[k..]) && s[..k] + s[k..] == s
  {
    hide Before;
    forall i, j | 0 <= i < j < |s| - k ensures !Before(s[k..][j], s[k..][i]) { assert !Before(s[k + j], s[k + i]); }
  }

  /** Puts a parameter behind the last one it does not precede. */
  method Insert(s: seq<Param>, p: Param) returns (r: seq<Param>)
    requires Sorted(s)
    ensures Sorted(r) && multiset(r) == multiset(s) + multiset{p}
  {
    hide Before, Sorted;
    var k := |s|;
    while k > 0 && Before(p, s[k - 1])
      invariant 0 <= k <= |s| && forall x | x in s[k..] :: Before(p, x)
    {
      assert s[k - 1..] == [s[k - 1]] + s[k..];
      k := k - 1;
    }
    SortedParts(s, k);
    InsertedIsSorted(s[..k], p, s[k..]);
    r := s[..k] + [p] + s[k..];
    assert multiset(s) == multiset(s[..k]) + multiset(s[k..]);
  }

  method Sort(params: seq<Param>) returns (s: seq<Param>)
    ensures SortOf(s, params)
  {
    s := [];
    for i := 0 to |params|
      invariant Sorted(s) && multiset(s) == multiset(params[..i])
    {
      assert params[..i + 1] == params[..i] + [params[i]];
      s := Insert(s, params[i]);
    }
    assert params[..|params|] == params;
  }

  function Kept(params: seq<Param>, strip: set<string>): seq<Param> {
    if params == [] then []
    else (if params[0].key in strip then [] else [params[0]]) + Kept(params[1..], strip)
  }

  lemma {:induction false} KeptMembers(params: seq<Param>, strip: set<string>)
    ensures forall p :: p in Kept(params, strip) <==> p in params && p.key !in strip
  {
    if params != [] { KeptMembers(params[1..], strip); }
  }

  lemma {:induction false} KeptAll(params: seq<Param>, strip: set<string>)
    requires forall p | p in params :: p.key !in strip
    ensures Kept(params, strip) == params
  {
    if params != [] {
      assert params[0] in params;
      KeptAll(params[1..], strip);
    }
  }

  // ---- splitting the URL ------------------------------------------------------------------------------

  /** Position of "://", or the length. */
  function SchemeEnd(url: string, i: nat): nat
    decreases |url| - i
  {
    if i + 3 > |url| then |url| else if url[i..i + 3] == "://" then i else SchemeEnd(url, i + 1)
  }

  /** The part from the path on, when the URL names a scheme and an authority. */
  function WithoutAuthority(url: string): string {
    var slash, scheme := Find(url, '/', 0), SchemeEnd(url, 0);
    if scheme + 3 <= |url| && (slash == |url| || scheme < slash) then
      var path := Find(url, '/', scheme + 3);
      if path < |url| then url[path..] else "/"
    else url
  }

  /** Without the fragment. */
  function WithoutFragment(url: string): string {
    url[..Find(url, '#', 0)]
  }

  datatype Split = Split(path: string, query: Option<string>)

  function SplitQuery(url: string): Split {
    var q := Find(url, '?', 0);
    if q < |url| then Split(url[..q], Some(url[q + 1..])) else Split(url, None)
  }

  function LastOf(s: string, c: char, i: nat): (k: int)
    requires i <= |s|
    ensures -1 <= k < i
    decreases i
  {
    if i == 0 then -1 else if s[i - 1] == c then i - 1 else LastOf(s, c, i - 1)
  }

  /** The extension of the last path segment, with its dot. */
  function Extension(url: string): string {
    var p := url[..Find(url, '?', 0)];
    var path := p[..Find(p, '#', 0)];
    var segment := path[LastOf(path, '/', |path|) + 1..];
    var dot := LastOf(segment, '.', |segment|);
    if dot < 0 || dot == |segment| - 1 then "" else Lower(segment[dot..])
  }

  predicate StripsQuery(config: Config, path: string) {
    Extension(path) != "" && Extension(path) in config.stripExtensions
  }

  function Assembled(path: string, params: seq<Param>): string {
    if params == [] then path else path + "?" + Joined(params)
  }

  /** `r` is a result of normalizing `url`: some sort of the parameters leads to it. */
  ghost predicate NormalizesTo(url: string, config: Config, r: string) {
    var split := SplitQuery(WithoutFragment(WithoutAuthority(url)));
    var path := Percent(split.path);
    if split.query.None? || StripsQuery(config, path) then r == path
    else
      var kept := Kept(Params(Percent(split.query.value)), config.stripParams);
      exists s :: SortOf(s, kept) && r == Assembled(path, Unique(s))
  }

  method NormalizeCacheUrl(url: string, config: Config) returns (r: string)
    ensures NormalizesTo(url, config, r)
  {
    hide Percent, Params, Unique, Extension, Joined, WithoutAuthority, WithoutFragment, SortOf, Kept;
    var split := SplitQuery(WithoutFragment(WithoutAuthority(url)));
    var path := NormalizePercentEncoding(split.path);
    if split.query.None? { return path; }
    var query := NormalizePercentEncoding(split.query.value);
    if StripsQuery(config, path) { return path; }
    var params := ParseQueryParams(query);
    var s := Sort(Kept(params, config.stripParams));
    r := Assembled(path, Unique(s));
  }
}
