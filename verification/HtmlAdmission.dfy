/** What a stored response is, said of the request and of the header lines themselves. */
module HtmlAdmission {
  import opened Ascii
  import opened HttpText
  import opened CacheControl
  import opened Sidecar
  import opened SidecarMeaning
  import opened HtmlStore
  import HtmlLifetime
  import opened HtmlExpires

  /** A path without query, fragment, parameters or encodings, and not one the optimizer produced. */
  predicate PlainPath(path: string) {
    && path != "" && path[0] == '/'
    && '?' !in path && '#' !in path && ';' !in path && '%' !in path
    && forall k :: 0 <= k <= |path| ==> !OccursAt(path, ".pagespeed.", k)
  }

  /** A media type and perhaps parameters after a ';', with blanks around the type. */
  ghost predicate HtmlType(value: string, a: string, t: string, b: string, rest: string) {
    && value == a + t + b + rest && Blank(a) && Blank(b) && Lower(t) == "text/html"
    && (rest != "" ==> rest[0] == ';')
  }

  ghost predicate SaysHtml(value: string) {
    exists a, t, b, rest :: HtmlType(value, a, t, b, rest)
  }

  ghost predicate Absent(headers: seq<Field>, name: string) {
    forall i :: 0 <= i < |headers| ==> Lower(headers[i].name) != name
  }

  ghost predicate Directed(headers: seq<Field>, name: string) {
    HtmlLifetime.Values(HtmlLifetime.AllDirectives(Lines(headers, "cache-control")), name) != []
  }

  lemma PathIff(path: string)
    ensures KeySafe(path) <==> PlainPath(path)
  {
    if PlainPath(path) {
      forall i | 0 <= i < |path| ensures path[i] != '?' && path[i] != '%' && path[i] != '#' && path[i] != ';' {
        assert path[i] in path;
      }
    }
  }

  lemma TypeIsRead(value: string, a: string, t: string, b: string, rest: string)
    requires HtmlType(value, a, t, b, rest)
    ensures Lower(Trim(value[..Find(value, ';', 0)])) == "text/html"
  {
    hide Trim;
    var k := |a + t + b|;
    assert forall j :: 0 <= j < |t| ==> Lower(t)[j] == LowerChar(t[j]);
    assert Solid(t) && ';' !in t by { HtmlWord(t); }
    forall j | 0 <= j < k ensures value[j] != ';' {
      if j < |a| { assert value[j] in a; }
      else if j < |a| + |t| { assert value[j] == t[j - |a|] && value[j] in t; }
      else { assert value[j] == b[j - |a| - |t|] && value[j] in b; }
    }
    FindIn(value, ';', k, 0);
    assert value[..k] == a + t + b;
    TrimPadded(a, t, b);
  }

  lemma HtmlWord(t: string)
    requires Lower(t) == "text/html"
    ensures Solid(t) && ';' !in t
  {
    assert |t| == 9;
    assert LowerChar(t[0]) == 't' && LowerChar(t[8]) == 'l';
    forall j | 0 <= j < 9 ensures t[j] != ';' { assert LowerChar(t[j]) == "text/html"[j]; }
  }

  lemma TypeIff(value: string)
    ensures Lower(Trim(value[..Find(value, ';', 0)])) == "text/html" <==> SaysHtml(value)
  {
    hide Trim;
    var k := Find(value, ';', 0);
    if Lower(Trim(value[..k])) == "text/html" {
      var a, b := TrimSplit(value[..k]);
      var t, rest := Trim(value[..k]), value[k..];
      assert HtmlType(value, a, t, b, rest);
    }
    if a, t, b, rest :| HtmlType(value, a, t, b, rest) { TypeIsRead(value, a, t, b, rest); }
  }

  lemma NamedIff(headers: seq<Field>, name: string)
    ensures !Named(headers, name) <==> Absent(headers, name)
  {
    if !Named(headers, name) { NoneLeft(headers, name); }
    if Absent(headers, name) { NoLines(headers, name); }
  }

  lemma HtmlIff(headers: seq<Field>)
    ensures IsHtml(headers) <==> exists value :: Only(headers, "content-type", value) && SaysHtml(value)
  {
    hide Only, SaysHtml, Trim, Find, Lower;
    var types := Lines(headers, "content-type");
    if |types| == 1 {
      OnlyOne(headers, "content-type");
      TypeIff(types[0]);
    }
    if value :| Only(headers, "content-type", value) && SaysHtml(value) {
      OnlyLine(headers, "content-type", value);
      TypeIff(value);
    }
  }

  /** Digits, with blanks around them. */
  ghost predicate IsNumber(value: string, a: string, d: string, b: string) {
    value == a + d + b && Blank(a) && Blank(b) && d != "" && forall k :: 0 <= k < |d| ==> '0' <= d[k] <= '9'
  }

  lemma {:induction false} DigitsIff(s: string)
    ensures ParseDigits(s).Some? <==> forall k :: 0 <= k < |s| ==> '0' <= s[k] <= '9'
  {
    if s != "" {
      DigitsIff(s[..|s| - 1]);
    }
  }

  lemma NumberIff(value: string)
    ensures IsDeltaSeconds(value) <==> Numeric(value)
  {
    hide Trim, ParseDigits;
    DigitsIff(Trim(value));
    if IsDeltaSeconds(value) {
      var a, b := TrimSplit(value);
      assert IsNumber(value, a, Trim(value), b);
    }
    if a, d, b :| IsNumber(value, a, d, b) {
      TrimPadded(a, d, b);
    }
  }

  /** An s-maxage with a number. */
  ghost predicate SharedIn(ds: seq<Directive>) {
    exists d :: d in ds && d.name == "s-maxage" && d.value.Some? && Numeric(d.value.value)
  }

  ghost predicate Numeric(value: string) {
    exists a, d, b :: IsNumber(value, a, d, b)
  }

  ghost predicate SharedNumber(headers: seq<Field>) {
    SharedIn(HtmlLifetime.AllDirectives(Lines(headers, "cache-control")))
  }

  lemma {:induction false} SharedOfLines(r: CcRead, lines: seq<string>)
    ensures ReadLines(r, lines).validSMaxage <==> r.validSMaxage || SharedIn(HtmlLifetime.AllDirectives(lines))
    decreases |lines|
  {
    hide Directives, ValidSMaxage, IsDeltaSeconds, Numeric, Accumulated, Occurrences;
    if lines != [] {
      var ds := Directives(lines[0]);
      forall value: string ensures IsDeltaSeconds(value) <==> Numeric(value) { NumberIff(value); }
      ValidSMaxageMeans(ds);
      SharedOfLines(ReadLine(r, lines[0]), lines[1..]);
      var more := HtmlLifetime.AllDirectives(lines[1..]);
      assert HtmlLifetime.AllDirectives(lines) == ds + more;
      assert SharedIn(ds + more) <==> SharedIn(ds) || SharedIn(more);
    }
  }

  /** Declared public, or shareable for a number of seconds. */
  lemma SharedIff(headers: seq<Field>)
    ensures ExplicitShared(ReadCc(headers)) <==> Directed(headers, "public") || SharedNumber(headers)
  {
    hide ReadLines, HtmlLifetime.AllDirectives, HtmlLifetime.Values, Lines, Numeric;
    HtmlLifetime.FlagsAreStated(headers, Public);
    SharedOfLines(CcRead(Origin({}, 0, 0), 0, 0, false), Lines(headers, "cache-control"));
    assert HtmlLifetime.DirectiveName(Public) == "public";
  }

  predicate IsEncoding(m: string) {
    m == "" || Lower(m) == "accept-encoding"
  }

  lemma {:induction false} MembersOf(val: string)
    ensures VaryMembers(val) <==> forall m :: m in ListMembers(val) ==> IsEncoding(m)
    decreases |val|
  {
    hide Trim;
    if val != "" {
      var comma := Find(val, ',', 0);
      var rest := if comma < |val| then val[comma + 1..] else "";
      MembersOf(rest);
      var first, more := Trim(val[..comma]), ListMembers(rest);
      assert ListMembers(val) == [first] + more;
      assert forall m :: m in [first] + more <==> m == first || m in more;
      assert VaryMembers(val) == (IsEncoding(first) && VaryMembers(rest));
    }
  }

  /** Every member of every Vary line is Accept-Encoding. */
  ghost predicate VariesOnEncodingOnly(headers: seq<Field>) {
    forall line, m :: line in Lines(headers, "vary") && m in ListMembers(line) ==> IsEncoding(m)
  }

  lemma VaryIff(headers: seq<Field>)
    ensures VaryAdmitted(Lines(headers, "vary")) <==> VariesOnEncodingOnly(headers)
  {
    hide VaryMembers, ListMembers, IsEncoding, Lines;
    forall line | line in Lines(headers, "vary")
      ensures VaryMembers(line) <==> forall m :: m in ListMembers(line) ==> IsEncoding(m)
    {
      MembersOf(line);
    }
  }

  /** An entity tag or a modification date that is not blank. */
  ghost predicate CanValidate(headers: seq<Field>) {
    exists i :: 0 <= i < |headers| && Validator(headers[i])
  }

  predicate Validator(f: Field) {
    && (Lower(f.name) == "etag" || Lower(f.name) == "last-modified")
    && exists j :: 0 <= j < |f.value| && f.value[j] !in " \t"
  }

  lemma ValidatorIff(f: Field)
    ensures (exists j :: 0 <= j < |f.value| && f.value[j] !in " \t") <==> Trim(f.value) != ""
  {
    hide Trim;
    var a, b := TrimSplit(f.value);
    var t := Trim(f.value);
    if t != "" {
      assert f.value[|a|] == t[0] && !IsOws(t[0]);
    } else {
      assert f.value == a + b;
      forall j | 0 <= j < |f.value| ensures f.value[j] in " \t" {
        assert f.value[j] in a || f.value[j] in b;
      }
    }
  }

  lemma ValidatorsIff(headers: seq<Field>)
    ensures HasValidators(headers) <==> CanValidate(headers)
  {
    hide Trim, Lower;
    forall f: Field ensures (exists j :: 0 <= j < |f.value| && f.value[j] !in " \t") <==> Trim(f.value) != "" {
      ValidatorIff(f);
    }
    if HasValidators(headers) {
      var f :| f in headers && (Lower(f.name) == "etag" || Lower(f.name) == "last-modified") && Trim(f.value) != "";
      var i :| 0 <= i < |headers| && headers[i] == f;
      assert Validator(headers[i]);
    }
    if CanValidate(headers) {
      var i :| 0 <= i < |headers| && Validator(headers[i]);
      assert headers[i] in headers;
    }
  }

  /** What is demanded of the headers, apart from their lifetime. */
  ghost predicate HeadersFit(headers: seq<Field>) {
    && Absent(headers, "content-range") && Absent(headers, "set-cookie") && Absent(headers, "set-cookie2")
    && (exists value :: Only(headers, "content-type", value) && SaysHtml(value))
    && (forall i :: 0 <= i < |headers| && Lower(headers[i].name) == "content-encoding" ==>
          Lower(Trim(headers[i].value)) == "identity")
    && !Directed(headers, "private") && !Directed(headers, "no-store")
    && VariesOnEncodingOnly(headers) && (forall i :: 0 <= i < |headers| ==> Passes(headers[i]))
  }

  /** Exactly what may be stored. */
  lemma StoredIff(q: Request, r: Response, p: Policy, signal: (string, bool) -> bool)
    ensures var h := r.headers;
            var life := HtmlLifetime.StatedLifetime(h, p.now);
            ClassifyHtmlForStore(q, r, p, signal).Stores()
            <==> && (p.mode == ServeVariants || p.mode == ServeCachedHtml)
                 && q.verb == "GET" && PlainPath(q.path) && !q.hasAuthorization && !q.authenticated && !q.noStore
                 && (q.hasCookie ==> Directed(h, "public") || SharedNumber(h))
                 && r.status == 200 && r.complete && HeadersFit(h) && Classified(h).verdict == SwapEligible
                 && (CanValidate(h) || (life.isExplicit && !life.needsValidation))
                 && r.bodyBytes <= p.maxBody && r.bodyBytes <= 16777216
                 && (|r.prefix| >= r.bodyBytes || |r.prefix| >= 65536) && !signal(r.prefix, r.bodyBytes > 65536)
  {
    hide ClassifyHtmlForStore, Named, KeySafe, IsHtml, IsIdentity, ReadCc, LifetimeOf, ExplicitShared, VaryAdmitted,
      Classified, HasValidators, Lines, HtmlLifetime.StatedLifetime, Directed, SharedNumber, CanValidate, Passes,
      PlainPath, VariesOnEncodingOnly, Only, SaysHtml, Absent;
    StoresIffAdmissible(q, r, p, signal);
    HtmlLifetime.LifetimeIsStated(r.headers, p.now);
    PathIff(q.path);
    SharedIff(r.headers);
    ValidatorsIff(r.headers);
    HeadersIff(r.headers);
  }

  lemma HeadersIff(headers: seq<Field>)
    ensures (&& !Named(headers, "content-range") && IsHtml(headers) && IsIdentity(headers)
             && !Named(headers, "set-cookie") && !Named(headers, "set-cookie2")
             && Private !in ReadCc(headers).cc.flags && NoStore !in ReadCc(headers).cc.flags
             && VaryAdmitted(Lines(headers, "vary")) && Classified(headers).verdict == SwapEligible)
            <==> HeadersFit(headers) && Classified(headers).verdict == SwapEligible
  {
    hide Named, IsHtml, ReadCc, VaryAdmitted, Classified, Lines, Directed, Passes, VariesOnEncodingOnly, Only, SaysHtml,
      Absent, Lower, Trim, VaryLinesCovered, Allowlisted, BlockSize;
    NamedIff(headers, "content-range");
    NamedIff(headers, "set-cookie");
    NamedIff(headers, "set-cookie2");
    HtmlIff(headers);
    VaryIff(headers);
    EligibleIff(headers);
    assert Private in ReadCc(headers).cc.flags <==> Directed(headers, "private") by { DirectedIff(headers, Private); }
    assert NoStore in ReadCc(headers).cc.flags <==> Directed(headers, "no-store") by { DirectedIff(headers, NoStore); }
    assert IsIdentity(headers) <==> forall i :: 0 <= i < |headers| && Lower(headers[i].name) == "content-encoding" ==>
          Lower(Trim(headers[i].value)) == "identity";
  }

  lemma DirectedIff(headers: seq<Field>, f: Flag)
    requires HtmlLifetime.DirectiveName(f) != ""
    ensures f in ReadCc(headers).cc.flags <==> Directed(headers, HtmlLifetime.DirectiveName(f))
    ensures HtmlLifetime.DirectiveName(Private) == "private" && HtmlLifetime.DirectiveName(NoStore) == "no-store"
  {
    hide ReadCc, HtmlLifetime.Values, HtmlLifetime.AllDirectives, Lines;
    HtmlLifetime.FlagsAreStated(headers, f);
  }
}
