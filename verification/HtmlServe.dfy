/**
 Serving stored HTML (section 4.2 of RFC 9111), and what holds over every run of
 stores, purges and requests.
 */
module HtmlServe {
  import opened Options
  import opened CacheControl
  import opened HtmlStore
  import HtmlLifetime

  datatype Action = FallThrough | ServeHtml | ServeMarkdown | Validate

  datatype Reason =
    | Fresh | ModeOff | AuthRequest | CookieRequest | ClientNoCache | NeedsValidation | Stale | HeadersNotReproducible
    | SidecarMissing | Purged | Absent | BindingStale | ParentStale

  datatype Ask = Ask(
    mode: Mode, wantsMarkdown: bool, hasAuthorization: bool, authenticated: bool, hasCookie: bool,
    hasCacheControl: bool, noCache: bool, pragmaNoCache: bool, maxAge: int, minFresh: int, now: nat)

  /** What is known about the stored entry. */
  datatype Facts = Facts(
    present: bool, storedAt: nat, ageAtStore: nat, lifetime: nat, needsValidation: bool, explicitShared: bool,
    headersNotReproducible: bool, sidecarRequired: bool, sidecarPresent: bool, purged: bool,
    validated: bool, variantPresent: bool, bindingLive: bool, renderTtl: nat)

  datatype ServeVerdict = ServeVerdict(action: Action, reason: Reason, enforce: bool, age: nat)
  {
    predicate Serves() { action == ServeHtml || action == ServeMarkdown }
  }

  function Min(a: int, b: int): int { if a < b then a else b }

  /** Time since the origin generated or confirmed the response. */
  function TrueAge(a: Ask, f: Facts): nat {
    f.ageAtStore + if a.now > f.storedAt then a.now - f.storedAt else 0
  }

  /** The reason not to use the entry that is found before its freshness is looked at. */
  function Barred(a: Ask, f: Facts): Option<Reason> {
    if a.mode == Off || a.mode == ReportOnly then Some(Reason.ModeOff)
    else if !f.present then Some(Absent)
    else if a.hasAuthorization || a.authenticated then Some(Reason.AuthRequest)
    else if a.hasCookie && !f.explicitShared then Some(Reason.CookieRequest)
    else if a.noCache || (a.pragmaNoCache && !a.hasCacheControl) then Some(ClientNoCache)
    else if f.purged then Some(Purged)
    else if f.headersNotReproducible then Some(HeadersNotReproducible)
    else if f.sidecarRequired && !f.sidecarPresent then Some(SidecarMissing)
    else None
  }

  predicate MustValidate(f: Facts) {
    f.needsValidation || f.lifetime == 0
  }

  predicate IsFresh(a: Ask, f: Facts, age: nat) {
    && !MustValidate(f) && age < f.lifetime
    && !(a.maxAge >= 0 && age > a.maxAge)
    && !(a.minFresh >= 0 && (a.minFresh > f.lifetime || age > f.lifetime - a.minFresh))
  }

  function ClassifyHtmlForServe(a: Ask, f: Facts): ServeVerdict {
    var enforce := a.mode == ServeVariants || a.mode == ServeCachedHtml;
    var age := if (a.mode == Off || a.mode == ReportOnly) || !f.present then 0 else Saturate32(TrueAge(a, f));
    var cachedHtml := a.mode == ServeCachedHtml;
    var barred := Barred(a, f);
    if barred.Some? then ServeVerdict(FallThrough, barred.value, enforce, age)
    else
      var validated := cachedHtml && f.validated;
      if !IsFresh(a, f, age) && !validated then
        ServeVerdict(if cachedHtml then Validate else FallThrough,
                     if a.wantsMarkdown then ParentStale else if MustValidate(f) then NeedsValidation else Stale,
                     enforce, age)
      else if a.wantsMarkdown then
        if !f.variantPresent then ServeVerdict(FallThrough, Absent, enforce, age)
        else if !f.bindingLive then ServeVerdict(FallThrough, BindingStale, enforce, age)
        else
          var bound := if validated then f.renderTtl else Min(f.lifetime, f.renderTtl);
          if age >= bound then ServeVerdict(FallThrough, ParentStale, enforce, age)
          else ServeVerdict(ServeMarkdown, Fresh, enforce, age)
      else if cachedHtml then ServeVerdict(ServeHtml, Fresh, enforce, age)
      else ServeVerdict(FallThrough, Reason.ModeOff, enforce, age)
  }

  // ---- one request ----------------------------------------------------------------------------

  /** The facts are numbers the source keeps in 32 bits. */
  predicate Is32(f: Facts) {
    f.storedAt <= MAX32 && f.ageAtStore <= MAX32 && f.lifetime <= MAX32 && f.renderTtl <= MAX32
  }

  /** The time from one reading of the clock to another, none if the clock went back. */
  function Elapsed(from: nat, to: nat): nat {
    if to <= from then 0 else to - from
  }

  /** Fresh by the true age, and as fresh as the client asks. */
  predicate TrulyFresh(a: Ask, f: Facts) {
    var age := f.ageAtStore + Elapsed(f.storedAt, a.now);
    && !f.needsValidation && age < f.lifetime
    && (a.maxAge >= 0 ==> age <= a.maxAge)
    && (a.minFresh >= 0 ==> age + a.minFresh <= f.lifetime)
  }

  /** The client and the entry allow the entry to be used at all. */
  predicate Usable(a: Ask, f: Facts) {
    && f.present && !f.purged && !a.hasAuthorization && !a.authenticated
    && (a.hasCookie ==> f.explicitShared)
    && !a.noCache && (a.pragmaNoCache ==> a.hasCacheControl)
    && !f.headersNotReproducible && (f.sidecarRequired ==> f.sidecarPresent)
  }

  /** Saturation of the age never makes an entry look fresher than it is. */
  lemma FreshIsTrulyFresh(a: Ask, f: Facts)
    requires Is32(f)
    ensures IsFresh(a, f, Saturate32(TrueAge(a, f))) <==> TrulyFresh(a, f)
  {}

  /** HTML is served exactly to usable requests for an entry that is truly fresh or was confirmed in this request. */
  lemma ServesHtmlIff(a: Ask, f: Facts)
    requires Is32(f)
    ensures ClassifyHtmlForServe(a, f).action == ServeHtml
            <==> && a.mode == ServeCachedHtml && !a.wantsMarkdown && Usable(a, f)
                 && (TrulyFresh(a, f) || f.validated)
    ensures ClassifyHtmlForServe(a, f).Serves() ==> ClassifyHtmlForServe(a, f).enforce
  {
    hide TrulyFresh, IsFresh;
    FreshIsTrulyFresh(a, f);
  }

  /** A Markdown copy needs, besides, a live binding and an age below its own bound. */
  lemma ServesMarkdownIff(a: Ask, f: Facts)
    requires Is32(f)
    ensures ClassifyHtmlForServe(a, f).action == ServeMarkdown
            <==> && (a.mode == ServeCachedHtml || a.mode == ServeVariants) && a.wantsMarkdown && Usable(a, f)
                 && (TrulyFresh(a, f) || (a.mode == ServeCachedHtml && f.validated))
                 && f.variantPresent && f.bindingLive && TrueAge(a, f) < f.renderTtl
                 && (!(a.mode == ServeCachedHtml && f.validated) ==> TrueAge(a, f) < f.lifetime)
  {
    hide IsFresh;
    FreshIsTrulyFresh(a, f);
  }

  /** A front end is told to validate exactly for usable requests that find the entry neither fresh nor confirmed. */
  lemma ValidateIff(a: Ask, f: Facts)
    requires Is32(f)
    ensures ClassifyHtmlForServe(a, f).action == Validate
            <==> a.mode == ServeCachedHtml && Usable(a, f) && !TrulyFresh(a, f) && !f.validated
  {
    hide TrulyFresh, IsFresh;
    FreshIsTrulyFresh(a, f);
  }

  // ---- runs ---------------------------------------------------------------------------------------

  /** A stored entry with the exchange it came from. */
  datatype Entry = Entry(q: Request, r: Response, p: Policy, age: nat, verdict: HtmlStore.Verdict)

  /** What a request finds besides the entry; `confirmed` is a 304 the origin gave in this request. */
  datatype Found = Found(
    headersNotReproducible: bool, sidecarRequired: bool, sidecarPresent: bool, purged: bool, confirmed: bool,
    variantPresent: bool, bindingLive: bool, renderTtl: nat)

  datatype Event =
    | Receive(q: Request, r: Response, p: Policy, age: nat)
    | Serve(ask: Ask, found: Found)
    | Drop(at: nat)

  function Time(e: Event): nat {
    match e
    case Receive(_, _, p, _) => p.now
    case Serve(ask, _) => ask.now
    case Drop(at) => at
  }

  ghost predicate Timed(run: seq<Event>) {
    forall i, j | 0 <= i < j < |run| :: Time(run[i]) <= Time(run[j])
  }

  /** The entry of the key after the first `k` events. */
  function EntryAfter(run: seq<Event>, k: nat, signal: (string, bool) -> bool): Option<Entry>
    requires k <= |run|
  {
    if k == 0 then None
    else match run[k - 1]
      case Receive(q, r, p, age) =>
        var v := ClassifyHtmlForStore(q, r, p, signal);
        if v.Stores() then Some(Entry(q, r, p, age, v)) else EntryAfter(run, k - 1, signal)
      case Serve(_, _) => EntryAfter(run, k - 1, signal)
      case Drop(_) => None
  }

  function FactsOf(e: Option<Entry>, found: Found): Facts {
    if e.None? then Facts(false, 0, 0, 0, false, false, false, false, false, false, false, false, false, 0)
    else
      var v := e.value.verdict;
      Facts(true, e.value.p.now, e.value.age, v.lifetime, v.needsValidation, v.explicitShared,
            found.headersNotReproducible, found.sidecarRequired, found.sidecarPresent, found.purged,
            found.confirmed, found.variantPresent, found.bindingLive, found.renderTtl)
  }

  /** The answer to the request at `k`. */
  function AnswerAt(run: seq<Event>, k: nat, signal: (string, bool) -> bool): ServeVerdict
    requires k < |run| && run[k].Serve?
  {
    ClassifyHtmlForServe(run[k].ask, FactsOf(EntryAfter(run, k, signal), run[k].found))
  }

  /** The event leaves the stored entry as it is. */
  predicate Leaves(e: Event, signal: (string, bool) -> bool) {
    && !e.Drop?
    && (e.Receive? ==> !ClassifyHtmlForStore(e.q, e.r, e.p, signal).Stores())
  }

  /** The exchange received at `j` was stored, and nothing dropped or replaced it before `k`. */
  ghost predicate Sources(run: seq<Event>, j: nat, k: nat, signal: (string, bool) -> bool) {
    && j < k <= |run| && run[j].Receive?
    && ClassifyHtmlForStore(run[j].q, run[j].r, run[j].p, signal).Stores()
    && forall i | j < i < k :: Leaves(run[i], signal)
  }

  function EntryOf(e: Event, signal: (string, bool) -> bool): Entry
    requires e.Receive?
  {
    Entry(e.q, e.r, e.p, e.age, ClassifyHtmlForStore(e.q, e.r, e.p, signal))
  }

  /** An entry comes from the exchange that was stored last. */
  lemma {:induction false} EntryHasSource(run: seq<Event>, k: nat, signal: (string, bool) -> bool) returns (j: nat)
    requires k <= |run| && EntryAfter(run, k, signal).Some?
    ensures Sources(run, j, k, signal) && EntryAfter(run, k, signal) == Some(EntryOf(run[j], signal))
  {
    hide ClassifyHtmlForStore;
    match run[k - 1]
    case Receive(q, r, p, age) =>
      if ClassifyHtmlForStore(q, r, p, signal).Stores() {
        j := k - 1;
      } else {
        j := EntryHasSource(run, k - 1, signal);
      }
    case Serve(_, _) => j := EntryHasSource(run, k - 1, signal);
  }

  lemma {:induction false} SourceIsEntry(run: seq<Event>, j: nat, k: nat, signal: (string, bool) -> bool)
    requires Sources(run, j, k, signal)
    ensures EntryAfter(run, k, signal) == Some(EntryOf(run[j], signal))
    decreases k
  {
    hide ClassifyHtmlForStore;
    if j < k - 1 {
      assert Leaves(run[k - 1], signal);
      SourceIsEntry(run, j, k - 1, signal);
    }
  }

  /** What the stored verdict says of an admitted response. */
  lemma VerdictOfAdmitted(q: Request, r: Response, p: Policy, signal: (string, bool) -> bool)
    requires ClassifyHtmlForStore(q, r, p, signal).Stores()
    ensures var v, life := ClassifyHtmlForStore(q, r, p, signal), HtmlLifetime.StatedLifetime(r.headers, p.now);
            && Admissible(q, r, p, signal)
            && v.lifetime == life.seconds && v.lifetimeExplicit == life.isExplicit
            && v.needsValidation == life.needsValidation
            && v.hasValidators == HasValidators(r.headers) && v.explicitShared == ExplicitShared(ReadCc(r.headers))
            && (v.needsValidation ==> v.hasValidators)
  {
    hide FirstRefusal, SecondRefusal, LastRefusal, Admissible, ReadCc, LifetimeOf, HtmlLifetime.StatedLifetime,
      HasValidators, ExplicitShared;
    StoresIffAdmissible(q, r, p, signal);
    HtmlLifetime.LifetimeIsStated(r.headers, p.now);
  }

  lemma ExplicitWhenPositive(r: Response, p: Policy)
    ensures var life := HtmlLifetime.StatedLifetime(r.headers, p.now);
            life.seconds > 0 ==> life.isExplicit && life.seconds <= MAX32
  {
    hide HtmlLifetime.AllDirectives, HtmlLifetime.Values, Lines;
  }

  /**
   Whatever is served is the exchange that was stored last and neither dropped nor
   replaced since.  It is either younger than the lifetime the origin stated for it
   or was confirmed by the origin in this very request; a request with a cookie gets
   shareable responses only.
   */
  lemma ServedIsSafe(run: seq<Event>, k: nat, signal: (string, bool) -> bool) returns (j: nat)
    requires Timed(run) && k < |run| && run[k].Serve? && AnswerAt(run, k, signal).Serves()
    requires forall i | 0 <= i < |run| :: Bounded32(run[i])
    ensures Sources(run, j, k, signal) && EntryAfter(run, k, signal) == Some(EntryOf(run[j], signal))
    ensures var src, a := run[j], run[k].ask;
            var life := HtmlLifetime.StatedLifetime(src.r.headers, src.p.now);
            && Admissible(src.q, src.r, src.p, signal)
            && ((a.mode == ServeCachedHtml && run[k].found.confirmed)
                || (life.isExplicit && !life.needsValidation && src.p.now <= a.now
                    && src.age + (a.now - src.p.now) < life.seconds))
            && (a.hasCookie ==> ExplicitShared(ReadCc(src.r.headers)))
            && !a.hasAuthorization && !a.authenticated
  {
    hide Admissible, HtmlLifetime.StatedLifetime, ReadCc, ExplicitShared, ClassifyHtmlForStore, EntryAfter;
    var e := EntryAfter(run, k, signal);
    var a := run[k].ask;
    if e.None? { assert false; }
    j := EntryHasSource(run, k, signal);
    var src := run[j];
    VerdictOfAdmitted(src.q, src.r, src.p, signal);
    ExplicitWhenPositive(src.r, src.p);
    assert Bounded32(run[j]) && Bounded32(run[k]);
    assert Time(run[j]) <= Time(run[k]);
    var f := FactsOf(e, run[k].found);
    FreshIsTrulyFresh(a, f);
  }

  /** Ages and times are 32-bit numbers. */
  predicate Bounded32(e: Event) {
    Time(e) <= MAX32 && (e.Receive? ==> e.age <= MAX32) && (e.Serve? ==> e.found.renderTtl <= MAX32)
  }

  /** An entry that must be validated before every use, whatever is asked for, has a validator. */
  lemma NeedsValidationHasValidator(run: seq<Event>, k: nat, found: Found, signal: (string, bool) -> bool)
    requires k <= |run| && EntryAfter(run, k, signal).Some?
    ensures var e := EntryAfter(run, k, signal);
            MustValidate(FactsOf(e, found)) ==> HasValidators(e.value.r.headers)
  {
    hide Admissible, HtmlLifetime.StatedLifetime, ReadCc, ExplicitShared, ClassifyHtmlForStore, EntryAfter,
      HasValidators;
    var j := EntryHasSource(run, k, signal);
    VerdictOfAdmitted(run[j].q, run[j].r, run[j].p, signal);
    PositiveUnlessValidated(run[j].r, run[j].p);
  }

  lemma PositiveUnlessValidated(r: Response, p: Policy)
    ensures var life := HtmlLifetime.StatedLifetime(r.headers, p.now); life.seconds == 0 ==> life.needsValidation
  {
    hide HtmlLifetime.AllDirectives, HtmlLifetime.Values, Lines;
  }
}
