/**
 Cache keys of URLs given by their parts: which part of a URL ends up where, which
 percent encodings are undone, and in which order parameters stand.
 */
module UrlParts {
  import opened Options
  import opened Ascii
  import opened HttpText
  import opened UrlNormalizer
  import opened UrlCacheKey
  import opened UrlCanonical

  // ---- parts of a URL ---------------------------------------------------------------------------

  datatype Origin = Origin(scheme: string, host: string)

  datatype Url = Url(origin: Option<Origin>, path: string, query: Option<string>, fragment: Option<string>)
  {
    function Text(): string {
      (if origin.Some? then origin.value.scheme + "://" + origin.value.host else "") + Local()
    }

    /** From the path on. */
    function Local(): string { Resource() + (if fragment.Some? then "#" + fragment.value else "") }

    function Resource(): string { path + (if query.Some? then "?" + query.value else "") }

    predicate Fits() {
      && (origin.Some? ==> '/' !in origin.value.scheme && ':' !in origin.value.scheme && '/' !in origin.value.host)
      && path != "" && path[0] == '/' && '?' !in path && '#' !in path
      && (query.Some? ==> '#' !in query.value)
    }
  }

  lemma {:induction false} SchemeEndIs(url: string, k: nat, i: nat)
    requires i <= k && k + 3 <= |url| && url[k..k + 3] == "://" && forall j :: i <= j < k ==> url[j] != ':'
    ensures SchemeEnd(url, i) == k
    decreases k - i
  {
    if i < k {
      assert url[i..i + 3][0] == url[i];
      SchemeEndIs(url, k, i + 1);
    }
  }

  /** A scheme and a host are dropped; a URL that is nothing else stands for "/". */
  lemma AuthorityIsDropped(scheme: string, host: string, path: string)
    requires '/' !in scheme && ':' !in scheme && '/' !in host && (path != "" ==> path[0] == '/')
    ensures WithoutAuthority(scheme + "://" + host + path) == if path == "" then "/" else path
  {
    var url, k := scheme + "://" + host + path, |scheme|;
    assert forall j :: 0 <= j < k ==> url[j] == scheme[j] && url[j] in scheme;
    assert url[k..k + 3] == "://";
    SchemeEndIs(url, k, 0);
    FindIn(url, '/', k + 1, 0);
    forall j | k + 3 <= j < k + 3 + |host| ensures url[j] != '/' {
      assert url[j] == host[j - k - 3] && url[j] in host;
    }
    FindIn(url, '/', k + 3 + |host|, k + 3);
    assert url[k + 3 + |host|..] == path;
  }

  /** The first `c` stands where `a` ends. */
  lemma FoundAfter(a: string, c: char, b: string)
    requires c !in a && (b != "" ==> b[0] == c)
    ensures Find(a + b, c, 0) == |a| && (a + b)[..|a|] == a
  {
    var s := a + b;
    forall j | 0 <= j < |a| ensures s[j] != c { assert s[j] == a[j] && a[j] in a; }
    FindIn(s, c, |a|, 0);
  }

  lemma AuthorityIsFound(u: Url)
    requires u.Fits()
    ensures WithoutAuthority(u.Text()) == u.Local()
  {
    hide WithoutAuthority;
    var local := u.Local();
    assert local != "" && local[0] == u.path[0];
    if u.origin.Some? {
      AuthorityIsDropped(u.origin.value.scheme, u.origin.value.host, local);
    } else {
      assert u.Text() == local;
      NoAuthority(local);
    }
  }

  lemma PartsAreFound(u: Url)
    requires u.Fits()
    ensures SplitQuery(WithoutFragment(WithoutAuthority(u.Text()))) == Split(u.path, u.query)
  {
    hide WithoutAuthority, Find;
    AuthorityIsFound(u);
    var after, more := if u.fragment.Some? then "#" + u.fragment.value else "",
                       if u.query.Some? then "?" + u.query.value else "";
    assert '#' !in u.Resource();
    FoundAfter(u.Resource(), '#', after);
    FoundAfter(u.path, '?', more);
    assert u.query.Some? ==> u.Resource()[|u.path| + 1..] == u.query.value;
  }

  /** The key made of a path and a query: what is kept of the parameters, sorted and without repeats. */
  ghost predicate KeyIs(path: string, query: Option<string>, config: Config, r: string) {
    if query.None? || StripsQuery(config, Percent(path)) then r == Percent(path)
    else exists s :: SortOf(s, Kept(Params(Percent(query.value)), config.stripParams))
                     && r == Assembled(Percent(path), Unique(s))
  }

  /** The key of a URL is that of its path and query, whatever its scheme, host and fragment. */
  lemma KeyOfParts(u: Url, config: Config, r: string)
    requires u.Fits()
    ensures NormalizesTo(u.Text(), config, r) <==> KeyIs(u.path, u.query, config, r)
  {
    hide WithoutAuthority, WithoutFragment, SplitQuery, Percent, Params, Kept, StripsQuery, Assembled;
    PartsAreFound(u);
  }

  /** So a scheme and a host never change the key. */
  lemma FullUrlNormalizes(scheme: string, host: string, path: string, config: Config, r: string)
    requires '/' !in scheme && ':' !in scheme && '/' !in host && (path != "" ==> path[0] == '/')
    ensures NormalizesTo(scheme + "://" + host + path, config, r)
            <==> NormalizesTo(if path == "" then "/" else path, config, r)
  {
    hide WithoutAuthority, WithoutFragment, SplitQuery, Percent, Params, Kept, SortOf, Unique, StripsQuery;
    AuthorityIsDropped(scheme, host, path);
    NoAuthority(if path == "" then "/" else path);
  }

  // ---- the extension ------------------------------------------------------------------------------

  lemma {:induction false} LastOfIs(s: string, c: char, k: int, i: nat)
    requires i <= |s| && -1 <= k < i && (k >= 0 ==> s[k] == c) && forall j :: k < j < i ==> s[j] != c
    ensures LastOf(s, c, i) == k
    decreases i
  {
    if i > 0 && s[i - 1] != c { LastOfIs(s, c, k, i - 1); }
  }

  lemma LastAfter(a: string, c: char, b: string)
    requires c !in b
    ensures var s := a + [c] + b; LastOf(s, c, |s|) == |a| && s[|a| + 1..] == b && s[|a|..] == [c] + b
  {
    var s := a + [c] + b;
    forall j | |a| < j < |s| ensures s[j] != c { assert s[j] == b[j - |a| - 1] && s[j] in b; }
    LastOfIs(s, c, |a|, |s|);
  }

  lemma SegmentIs(dir: string, segment: string)
    requires '?' !in dir && '#' !in dir && '?' !in segment && '#' !in segment && '/' !in segment
    ensures var dot := LastOf(segment, '.', |segment|);
            Extension(dir + "/" + segment) == if dot < 0 || dot == |segment| - 1 then "" else Lower(segment[dot..])
  {
    hide Find, LastOf, Lower;
    var url := dir + "/" + segment;
    assert '?' !in url && '#' !in url;
    FoundAfter(url, '?', "");
    FoundAfter(url, '#', "");
    assert url + "" == url && url[..|url|] == url;
    LastAfter(dir, '/', segment);
  }

  /** The extension is what follows the last dot of the last segment, in lower case. */
  lemma ExtensionIs(dir: string, name: string, ext: string)
    requires '?' !in dir && '#' !in dir && '?' !in name && '#' !in name && '/' !in name
    requires ext != "" && '?' !in ext && '#' !in ext && '/' !in ext && '.' !in ext
    ensures Extension(dir + "/" + (name + "." + ext)) == "." + Lower(ext)
  {
    hide Extension, LastOf;
    SegmentIs(dir, name + "." + ext);
    LastAfter(name, '.', ext);
    assert ("." + ext)[1..] == ext;
  }

  /** The query is dropped exactly for paths whose extension is configured, dot included. */
  lemma StripsWhen(dir: string, name: string, ext: string, config: Config)
    requires '?' !in dir && '#' !in dir && '?' !in name && '#' !in name && '/' !in name
    requires ext != "" && '?' !in ext && '#' !in ext && '/' !in ext && '.' !in ext
    ensures StripsQuery(config, dir + "/" + (name + "." + ext)) <==> "." + Lower(ext) in config.stripExtensions
  {
    hide Extension;
    ExtensionIs(dir, name, ext);
  }

  /** A last segment without a dot, or that ends in its last one, has no extension, and its query stays. */
  lemma NoExtension(dir: string, segment: string, config: Config)
    requires '?' !in dir && '#' !in dir && '?' !in segment && '#' !in segment && '/' !in segment
    requires '.' !in segment || segment[|segment| - 1] == '.'
    ensures Extension(dir + "/" + segment) == "" && !StripsQuery(config, dir + "/" + segment)
  {
    hide Extension, LastOf;
    SegmentIs(dir, segment);
    if '.' !in segment {
      forall j | 0 <= j < |segment| ensures segment[j] != '.' { assert segment[j] in segment; }
      LastOfIs(segment, '.', -1, |segment|);
    } else {
      LastOfIs(segment, '.', |segment| - 1, |segment|);
    }
  }

  // ---- percent encodings -----------------------------------------------------------------------------

  const UPPER := "0123456789ABCDEF"
  const LOWER := "0123456789abcdef"

  /** The digit stands for `v`, in either case. */
  predicate DigitFor(c: char, v: nat)
    requires v < 16
  {
    c == UPPER[v] || c == LOWER[v]
  }

  lemma DigitIs(c: char, v: nat)
    requires v < 16 && DigitFor(c, v)
    ensures IsHexDigit(c) && HexValue(c) == v && UpperHex(v) == UPPER[v]
  {}

  /** An encoded letter, digit, '-', '.', '_' or '~' is written out; any other byte stays encoded, in upper case. */
  lemma EncodingBecomes(hi: char, lo: char, byte: nat, rest: string)
    requires byte < 256 && DigitFor(hi, byte / 16) && DigitFor(lo, byte % 16)
    ensures var c := byte as char;
            Percent(['%', hi, lo] + rest)
            == (if 'a' <= c <= 'z' || 'A' <= c <= 'Z' || '0' <= c <= '9' || c in "-._~" then [c]
                else ['%', UPPER[byte / 16], UPPER[byte % 16]])
               + Percent(rest)
  {
    hide DigitFor;
    DigitIs(hi, byte / 16);
    DigitIs(lo, byte % 16);
    assert (['%', hi, lo] + rest)[3..] == rest;
  }

  // ---- the order of parameters ----------------------------------------------------------------------------

  /** `a` and `b` agree up to `k`, where `a` ends or has the smaller character. */
  predicate DiffersAt(a: string, b: string, k: nat) {
    k < |b| && k <= |a| && a[..k] == b[..k] && (k == |a| || a[k] < b[k])
  }

  lemma {:induction false} LessIff(a: string, b: string)
    ensures Less(a, b) <==> exists k :: DiffersAt(a, b, k)
  {
    if a != "" && b != "" && a[0] == b[0] {
      LessIff(a[1..], b[1..]);
      if k: nat :| DiffersAt(a[1..], b[1..], k) {
        assert a[..k + 1] == [a[0]] + a[1..][..k] && b[..k + 1] == [b[0]] + b[1..][..k];
        assert DiffersAt(a, b, k + 1);
      }
      if k: nat :| DiffersAt(a, b, k) && k > 0 {
        assert a[1..][..k - 1] == a[..k][1..] && b[1..][..k - 1] == b[..k][1..];
        assert DiffersAt(a[1..], b[1..], k - 1);
      }
    } else if Less(a, b) {
      assert a[..0] == b[..0];
      assert DiffersAt(a, b, 0);
    } else if a != "" && b != "" {
      assert forall k: nat :: 0 < k <= |a| && k <= |b| ==> a[..k][0] == a[0] && b[..k][0] == b[0];
    }
  }
}
