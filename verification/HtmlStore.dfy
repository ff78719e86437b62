/**
 Which HTML responses may be stored (section 3 of RFC 9111, with stricter rules
 of its own), and the explicit lifetime an admitted response carries.
 */
module HtmlStore {
  import opened Options
  import opened Ascii
  import opened HttpText
  import opened CacheControl
  import opened Sidecar
  import opened HttpDate

  datatype Mode = Off | ReportOnly | ServeVariants | ServeCachedHtml

  datatype Action = Refuse | Store | StoreNoNotify | WouldStore | WouldStoreNoNotify

  datatype Reason =
    | Admitted | BadMethod | BadStatus | Incomplete | AuthRequest | CookieRequest | SetCookie | IsPrivate | IsNoStore
    | NoLifetime | VaryRefused | HeadersRefused | CspNonce | PreloadNonce | ContentType | Encoding | TooBig | BadUrl
    | PersonalisationSignal | IsNoTransform | ModeOff

  datatype Request = Request(
    verb: string, path: string, hasAuthorization: bool, authenticated: bool, hasCookie: bool, noStore: bool)

  datatype Response = Response(status: int, headers: seq<Field>, bodyBytes: nat, complete: bool, prefix: string)

  datatype Policy = Policy(mode: Mode, maxBody: nat, now: nat)

  const HARD_MAX_BODY := 16 * 1024 * 1024
  const SCAN_BYTES := 64 * 1024
  const REWRITTEN_MARKER := ".pagespeed."

  // ---- headers -----------------------------------------------------------------------------

  /** The lines with a name, in order. */
  function Lines(headers: seq<Field>, name: string): seq<string> {
    if headers == [] then []
    else (if Lower(headers[0].name) == name then [headers[0].value] else []) + Lines(headers[1..], name)
  }

  method CountHeader(headers: seq<Field>, name: string) returns (n: nat)
    ensures n == |Lines(headers, name)|
  {
    n := 0;
    for i := 0 to |headers|
      invariant n + |Lines(headers[i..], name)| == |Lines(headers, name)|
    {
      assert headers[i..][0] == headers[i] && headers[i..][1..] == headers[i + 1..];
      if Lower(headers[i].name) == name { n := n + 1; }
    }
  }

  // ---- Cache-Control directives ----------------------------------------------------------------

  datatype Directive = Directive(name: string, value: Option<string>)

  /** A list element split at its first '='. */
  function DirectiveOf(token: string): Directive {
    var eq := Find(token, '=', 0);
    if eq < |token| then Directive(Lower(Trim(token[..eq])), Some(token[eq + 1..]))
    else Directive(Lower(Trim(token)), None)
  }

  function Directives(line: string): seq<Directive>
    decreases |line|
  {
    if line == "" then []
    else
      var comma := Find(line, ',', 0);
      [DirectiveOf(line[..comma])] + Directives(if comma < |line| then line[comma + 1..] else "")
  }

  /** How often a directive occurs. */
  function Occurrences(ds: seq<Directive>, name: string): nat {
    if ds == [] then 0 else (if ds[0].name == name then 1 else 0) + Occurrences(ds[1..], name)
  }

  method CountDirective(line: string, name: string) returns (n: nat)
    ensures n == Occurrences(Directives(line), name)
  {
    hide Trim;
    n := 0;
    var rest := line;
    while rest != ""
      invariant n + Occurrences(Directives(rest), name) == Occurrences(Directives(line), name)
      decreases |rest|
    {
      var comma := Find(rest, ',', 0);
      var token := rest[..comma];
      var eq := Find(token, '=', 0);
      var word := TrimOws(if eq < |token| then token[..eq] else token);
      ghost var tail := Directives(if comma < |rest| then rest[comma + 1..] else "");
      assert ([DirectiveOf(token)] + tail)[1..] == tail;
      if Lower(word) == name { n := n + 1; }
      rest := if comma < |rest| then rest[comma + 1..] else "";
    }
  }

  predicate IsDeltaSeconds(value: string) {
    Trim(value) != "" && ParseDigits(Trim(value)).Some?
  }

  /** An s-maxage with a number: the one form that makes a response shareable. */
  predicate ValidSMaxage(ds: seq<Directive>) {
    ds != [] && ((ds[0].name == "s-maxage" && ds[0].value.Some? && IsDeltaSeconds(ds[0].value.value))
                 || ValidSMaxage(ds[1..]))
  }

  lemma {:induction false} ValidSMaxageMeans(ds: seq<Directive>)
    ensures ValidSMaxage(ds)
            <==> exists d :: d in ds && d.name == "s-maxage" && d.value.Some? && IsDeltaSeconds(d.value.value)
  {
    hide IsDeltaSeconds;
    if ds != [] {
      ValidSMaxageMeans(ds[1..]);
      assert ds == [ds[0]] + ds[1..];
    }
  }

  method HasValidSMaxage(line: string) returns (valid: bool)
    ensures valid == ValidSMaxage(Directives(line))
    ensures valid <==> exists d :: d in Directives(line) && d.name == "s-maxage" && d.value.Some?
                                   && IsDeltaSeconds(d.value.value)
  {
    hide Trim, IsDeltaSeconds;
    var rest := line;
    while rest != ""
      invariant ValidSMaxage(Directives(rest)) == ValidSMaxage(Directives(line))
      decreases |rest|
    {
      var comma := Find(rest, ',', 0);
      var d := DirectiveOf(rest[..comma]);
      ghost var tail := Directives(if comma < |rest| then rest[comma + 1..] else "");
      assert ([d] + tail)[1..] == tail;
      if d.name == "s-maxage" && d.value.Some? && IsDeltaSeconds(d.value.value) {
        ValidSMaxageMeans(Directives(line));
        return true;
      }
      rest := if comma < |rest| then rest[comma + 1..] else "";
    }
    ValidSMaxageMeans(Directives(line));
    return false;
  }

  /** What all Cache-Control lines say together. */
  datatype CcRead = CcRead(cc: Origin, maxAges: nat, sMaxages: nat, validSMaxage: bool)

  function ReadLine(r: CcRead, line: string): CcRead {
    var ds := Directives(line);
    CcRead(Accumulated(line, r.cc), r.maxAges + Occurrences(ds, "max-age"), r.sMaxages + Occurrences(ds, "s-maxage"),
           r.validSMaxage || ValidSMaxage(ds))
  }

  function ReadLines(r: CcRead, lines: seq<string>): CcRead
    decreases |lines|
  {
    if lines == [] then r else ReadLines(ReadLine(r, lines[0]), lines[1..])
  }

  function ReadCc(headers: seq<Field>): CcRead {
    ReadLines(CcRead(Origin({}, 0, 0), 0, 0, false), Lines(headers, "cache-control"))
  }

  method ReadCacheControl(headers: seq<Field>) returns (r: CcRead)
    ensures r == ReadCc(headers)
  {
    hide Accumulated, Occurrences, ValidSMaxage, Directives;
    r := CcRead(Origin({}, 0, 0), 0, 0, false);
    assert headers[0..] == headers;
    for i := 0 to |headers|
      invariant ReadLines(r, Lines(headers[i..], "cache-control")) == ReadCc(headers)
    {
      assert headers[i..][0] == headers[i] && headers[i..][1..] == headers[i + 1..];
      if Lower(headers[i].name) == "cache-control" {
        var line := headers[i].value;
        ghost var rest := Lines(headers[i + 1..], "cache-control");
        assert ([line] + rest)[0] == line && ([line] + rest)[1..] == rest;
        var cc := AccumulateOriginCacheControl(line, r.cc);
        var m := CountDirective(line, "max-age");
        var s := CountDirective(line, "s-maxage");
        var valid := HasValidSMaxage(line);
        r := CcRead(cc, r.maxAges + m, r.sMaxages + s, r.validSMaxage || valid);
      } else {
        assert [] + Lines(headers[i + 1..], "cache-control") == Lines(headers[i + 1..], "cache-control");
      }
    }
  }

  // ---- the rules ------------------------------------------------------------------------------------

  datatype Verdict = Verdict(
    action: Action, reason: Reason, lifetime: nat, lifetimeExplicit: bool, needsValidation: bool,
    hasValidators: bool, explicitShared: bool)
  {
    predicate Stores() { action == Store || action == StoreNoNotify }
  }

  /** A path the cache key holds unchanged, and not one the optimizer produced. */
  predicate KeySafe(path: string) {
    && path != "" && path[0] == '/'
    && (forall i | 0 <= i < |path| :: path[i] != '?' && path[i] != '%' && path[i] != '#' && path[i] != ';')
    && !Contains(path, REWRITTEN_MARKER)
  }

  predicate IsHtml(headers: seq<Field>) {
    var types := Lines(headers, "content-type");
    |types| == 1 && Lower(Trim(types[0][..Find(types[0], ';', 0)])) == "text/html"
  }

  predicate IsIdentity(headers: seq<Field>) {
    forall f | f in headers :: Lower(f.name) == "content-encoding" ==> Lower(Trim(f.value)) == "identity"
  }

  predicate Named(headers: seq<Field>, name: string) {
    Lines(headers, name) != []
  }

  /** Rules 1 to 6: what is decided before Cache-Control is read. */
  function FirstRefusal(q: Request, r: Response): Option<Reason> {
    if q.verb != "GET" then Some(BadMethod)
    else if r.status != 200 then Some(BadStatus)
    else if !r.complete || Named(r.headers, "content-range") then Some(Incomplete)
    else if !KeySafe(q.path) then Some(BadUrl)
    else if !IsHtml(r.headers) then Some(ContentType)
    else if !IsIdentity(r.headers) then Some(Encoding)
    else if q.hasAuthorization || q.authenticated then Some(AuthRequest)
    else if q.noStore then Some(IsNoStore)
    else if Named(r.headers, "set-cookie") || Named(r.headers, "set-cookie2") then Some(SetCookie)
    else None
  }

  predicate ExplicitShared(read: CcRead) {
    Public in read.cc.flags || read.validSMaxage
  }

  /** Every Vary member is Accept-Encoding. */
  predicate VaryAdmitted(lines: seq<string>) {
    forall line | line in lines :: VaryMembers(line)
  }

  predicate VaryMembers(val: string)
    decreases |val|
  {
    if val == "" then true
    else
      var comma := Find(val, ',', 0);
      var token := Trim(val[..comma]);
      (token == "" || Lower(token) == "accept-encoding") && VaryMembers(if comma < |val| then val[comma + 1..] else "")
  }

  /** The Vary lines as one list. */
  function JoinedVary(lines: seq<string>): string {
    if lines == [] then ""
    else
      var front := JoinedVary(lines[..|lines| - 1]);
      if front == "" then lines[|lines| - 1] else front + ", " + lines[|lines| - 1]
  }

  /** Rules 7 to 10. */
  function SecondRefusal(q: Request, r: Response, read: CcRead): Option<Reason> {
    if Private in read.cc.flags then Some(IsPrivate)
    else if NoStore in read.cc.flags then Some(IsNoStore)
    else if q.hasCookie && !ExplicitShared(read) then Some(CookieRequest)
    else if !VaryMembers(JoinedVary(Lines(r.headers, "vary"))) then Some(VaryRefused)
    else
      var c := Classified(r.headers);
      if c.verdict == NeverOptimized then Some(if NonceCsp in c.reasons then CspNonce else PreloadNonce)
      else if c.verdict == FallThrough then Some(HeadersRefused)
      else None
  }

  function Saturate32(v: int): (n: nat)
    ensures n <= MAX32
  {
    if v <= 0 then 0 else if v > MAX32 then MAX32 else v
  }

  /** The lifetime an Expires line gives: repeated or unreadable lines mean already expired. */
  function ExpiresLifetime(headers: seq<Field>, now: nat): nat {
    var dates, expires := Lines(headers, "date"), Lines(headers, "expires");
    var dated := if |dates| == 1 then ParseHttpDateSeconds(dates[0], now) else None;
    var date := if dated.Some? then dated.value else now;
    if |expires| == 1 && ParseHttpDateSeconds(expires[0], now).Some?
    then Saturate32(ParseHttpDateSeconds(expires[0], now).value - date)
    else 0
  }

  datatype Lifetime = Lifetime(seconds: nat, isExplicit: bool, needsValidation: bool)

  /** Rule 11: explicit freshness, never heuristic; conflicting lifetimes are stale. */
  function LifetimeOf(headers: seq<Field>, read: CcRead, now: nat): Lifetime {
    var (seconds, isExplicit) :=
      if SMaxagePresent in read.cc.flags then (read.cc.sMaxage, true)
      else if read.maxAges > 0 then (read.cc.maxAge, true)
      else if Named(headers, "expires") then (ExpiresLifetime(headers, now), true)
      else (0, false);
    var conflicting := read.maxAges > 1 || read.sMaxages > 1;
    var s := if conflicting then 0 else seconds;
    Lifetime(s, isExplicit, s == 0 || NoCache in read.cc.flags || conflicting)
  }

  predicate HasValidators(headers: seq<Field>) {
    exists f :: f in headers && (Lower(f.name) == "etag" || Lower(f.name) == "last-modified") && Trim(f.value) != ""
  }

  /** Rules 12 and 13; `signal` stands for the personalisation scan. */
  function LastRefusal(r: Response, p: Policy, signal: (string, bool) -> bool): Option<Reason> {
    if r.bodyBytes > (if p.maxBody < HARD_MAX_BODY then p.maxBody else HARD_MAX_BODY) then Some(TooBig)
    else if |r.prefix| < (if r.bodyBytes < SCAN_BYTES then r.bodyBytes else SCAN_BYTES) then Some(Incomplete)
    else if signal(r.prefix, r.bodyBytes > SCAN_BYTES) then Some(PersonalisationSignal)
    else None
  }

  function Refused(reason: Reason): Verdict {
    Verdict(Action.Refuse, reason, 0, false, false, false, false)
  }

  function StoreRules(q: Request, r: Response, p: Policy, signal: (string, bool) -> bool): Verdict {
    var first := FirstRefusal(q, r);
    if first.Some? then Refused(first.value)
    else
      var read := ReadCc(r.headers);
      var shared := ExplicitShared(read);
      var second := SecondRefusal(q, r, read);
      if second.Some? then Refused(second.value).(explicitShared := shared)
      else
        var life := LifetimeOf(r.headers, read, p.now);
        var v := Verdict(Action.Refuse, NoLifetime, life.seconds, life.isExplicit, life.needsValidation,
                         HasValidators(r.headers), shared);
        if !v.hasValidators && (!life.isExplicit || life.needsValidation) then v
        else
          var last := LastRefusal(r, p, signal);
          if last.Some? then v.(reason := last.value)
          else if NoTransform in read.cc.flags then v.(action := StoreNoNotify, reason := IsNoTransform)
          else v.(action := Store, reason := Admitted)
  }

  /** Report-only never writes. */
  function ClassifyHtmlForStore(q: Request, r: Response, p: Policy, signal: (string, bool) -> bool): Verdict {
    if p.mode == Off then Refused(ModeOff)
    else
      var v := StoreRules(q, r, p, signal);
      if p.mode != ReportOnly then v
      else if v.action == Store then v.(action := WouldStore)
      else if v.action == StoreNoNotify then v.(action := WouldStoreNoNotify)
      else v
  }

  // ---- what admission means --------------------------------------------------------------------------

  /** Everything the rules demand of a stored response. */
  ghost predicate Admissible(q: Request, r: Response, p: Policy, signal: (string, bool) -> bool) {
    var read := ReadCc(r.headers);
    var life := LifetimeOf(r.headers, read, p.now);
    && (p.mode == ServeVariants || p.mode == ServeCachedHtml)
    && q.verb == "GET" && r.status == 200 && r.complete && !Named(r.headers, "content-range")
    && KeySafe(q.path) && IsHtml(r.headers) && IsIdentity(r.headers)
    && !q.hasAuthorization && !q.authenticated && !q.noStore
    && !Named(r.headers, "set-cookie") && !Named(r.headers, "set-cookie2")
    && Private !in read.cc.flags && NoStore !in read.cc.flags
    && (q.hasCookie ==> ExplicitShared(read))
    && VaryAdmitted(Lines(r.headers, "vary")) && Classified(r.headers).verdict == SwapEligible
    && (HasValidators(r.headers) || (life.isExplicit && !life.needsValidation))
    && r.bodyBytes <= p.maxBody && r.bodyBytes <= HARD_MAX_BODY
    && (|r.prefix| >= r.bodyBytes || |r.prefix| >= SCAN_BYTES)
    && !signal(r.prefix, r.bodyBytes > SCAN_BYTES)
  }

  lemma {:induction false} VaryAfter(a: string, b: string)
    ensures VaryMembers(a + "," + b) == (VaryMembers(a) && VaryMembers(b))
    decreases |a|
  {
    hide Trim;
    var val := a + "," + b;
    var comma := Find(a, ',', 0);
    FindIn(val, ',', comma, 0);
    assert val[..comma] == a[..comma];
    if comma < |a| {
      assert val[comma + 1..] == a[comma + 1..] + "," + b;
      VaryAfter(a[comma + 1..], b);
    } else {
      assert val[comma + 1..] == b && a[..comma] == a;
      if a == "" { assert Trim("") == "" by { TrimNothing(); } }
    }
  }

  lemma TrimNothing()
    ensures Trim("") == ""
  {}

  /** Leading whitespace belongs to the first member. */
  lemma VaryIndented(b: string)
    ensures VaryMembers(" " + b) == VaryMembers(b)
  {
    hide TrimEnd;
    var val := " " + b;
    var comma := Find(b, ',', 0);
    FindIn(val, ',', comma + 1, 0);
    assert val[..comma + 1] == " " + b[..comma];
    assert TrimStart(" " + b[..comma]) == TrimStart(b[..comma]) by { assert (" " + b[..comma])[1..] == b[..comma]; }
    if comma < |b| { assert val[comma + 2..] == b[comma + 1..]; }
    if b == "" { TrimNothing(); }
  }

  lemma {:induction false} VaryJoined(lines: seq<string>)
    ensures VaryMembers(JoinedVary(lines)) == VaryAdmitted(lines)
    decreases |lines|
  {
    hide VaryMembers;
    if lines == [] {
      assert VaryMembers("") by { VaryNone(); }
    } else {
      var front, last := lines[..|lines| - 1], lines[|lines| - 1];
      VaryJoined(front);
      assert lines == front + [last];
      VaryNone();
      assert JoinedVary(front) + ", " + last == JoinedVary(front) + "," + (" " + last);
      VaryAfter(JoinedVary(front), " " + last);
      VaryIndented(last);
    }
  }

  lemma VaryNone()
    ensures VaryMembers("")
  {}

  /** Exactly the admissible responses are stored, whatever the order of the rules. */
  lemma StoresIffAdmissible(q: Request, r: Response, p: Policy, signal: (string, bool) -> bool)
    ensures ClassifyHtmlForStore(q, r, p, signal).Stores() <==> Admissible(q, r, p, signal)
  {
    hide Named, KeySafe, IsHtml, IsIdentity, ReadCc, LifetimeOf, ExplicitShared, VaryAdmitted, VaryMembers, JoinedVary,
      Classified, HasValidators, Lines;
    VaryJoined(Lines(r.headers, "vary"));
  }
}
