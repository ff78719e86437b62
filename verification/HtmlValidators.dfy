/**
 When a stored entry is sure to have a validator: exactly when it must be validated
 before use.  Any other entry may have come without one, and the answers to requests
 would have been the same.
 */
module HtmlValidators {
  import opened Options
  import opened HttpText
  import S = Sidecar
  import opened HtmlStore
  import opened HtmlServe
  import HtmlLifetime

  predicate IsValidator(f: S.Field) {
    Lower(f.name) == "etag" || Lower(f.name) == "last-modified"
  }

  /** The header lines without ETag and Last-Modified. */
  function Bare(headers: seq<S.Field>): seq<S.Field> {
    if headers == [] then []
    else Bare(headers[..|headers| - 1]) + if IsValidator(headers[|headers| - 1]) then [] else [headers[|headers| - 1]]
  }

  function BareResponse(r: Response): Response {
    r.(headers := Bare(r.headers))
  }

  lemma {:induction false} BareMembers(h: seq<S.Field>)
    ensures forall f :: f in Bare(h) <==> f in h && !IsValidator(f)
    decreases |h|
  {
    hide IsValidator;
    if h != [] {
      BareMembers(h[..|h| - 1]);
      assert h == h[..|h| - 1] + [h[|h| - 1]];
    }
  }

  lemma BareHasNone(h: seq<S.Field>)
    ensures !HasValidators(Bare(h))
  {
    hide Bare;
    BareMembers(h);
  }

  lemma {:induction false} LinesAppend(a: seq<S.Field>, b: seq<S.Field>, name: string)
    ensures Lines(a + b, name) == Lines(a, name) + Lines(b, name)
    decreases |a|
  {
    hide Lower;
    if a == [] {
      assert a + b == b;
    } else {
      assert (a + b)[1..] == a[1..] + b;
      LinesAppend(a[1..], b, name);
    }
  }

  /** All other lines stay. */
  lemma {:induction false} BareLines(h: seq<S.Field>, name: string)
    requires name != "etag" && name != "last-modified"
    ensures Lines(Bare(h), name) == Lines(h, name)
    decreases |h|
  {
    hide Lower, Lines;
    if h != [] {
      var front, last := h[..|h| - 1], [h[|h| - 1]];
      BareLines(front, name);
      assert h == front + last;
      LinesAppend(front, last, name);
      LinesAppend(Bare(front), if IsValidator(last[0]) then [] else last, name);
      OneLine(last[0], name);
    }
  }

  lemma OneLine(f: S.Field, name: string)
    requires name != "etag" && name != "last-modified"
    ensures Lines([f], name) == if Lower(f.name) == name then [f.value] else []
    ensures IsValidator(f) ==> Lines([f], name) == Lines([], name)
  {
    hide Lower;
    assert [f][1..] == [];
  }

  /** What is read from the lines does not change. */
  lemma BareReads(r: Response, now: nat)
    ensures var h, b := r.headers, Bare(r.headers);
            && ReadCc(b) == ReadCc(h) && LifetimeOf(b, ReadCc(b), now) == LifetimeOf(h, ReadCc(h), now)
            && HtmlLifetime.StatedLifetime(b, now) == HtmlLifetime.StatedLifetime(h, now)
  {
    hide Bare, Lines, ReadLines, HtmlLifetime.StatedLifetime;
    var h := r.headers;
    BareLines(h, "cache-control");
    BareLines(h, "expires");
    BareLines(h, "date");
    HtmlLifetime.LifetimeIsStated(h, now);
    HtmlLifetime.LifetimeIsStated(Bare(h), now);
  }

  /** The sidecar carries neither line, and refuses neither but for its syntax. */
  lemma {:induction false} BareTally(h: seq<S.Field>)
    ensures var t, b := S.TallyOf(h), S.TallyOf(Bare(h));
            b.carried == t.carried && b.reasons <= t.reasons && b.vary == t.vary && b.sawVary == t.sawVary
    decreases |h|
  {
    hide S.Counted, IsValidator;
    if h != [] {
      var front, last := h[..|h| - 1], h[|h| - 1];
      BareTally(front);
      var t, b := S.TallyOf(front), S.TallyOf(Bare(front));
      if IsValidator(last) {
        assert Bare(front) + [] == Bare(front);
        ValidatorCounts(t, last);
      } else {
        var more := Bare(front) + [last];
        assert more[..|more| - 1] == Bare(front);
        OtherCounts(t, b, last);
      }
    }
  }

  lemma ValidatorCounts(t: S.Tally, f: S.Field)
    requires IsValidator(f)
    ensures var u := S.Counted(t, f);
            u.carried == t.carried && t.reasons <= u.reasons && u.vary == t.vary && u.sawVary == t.sawVary
  {
    hide Lower, S.CspNonceFrom, S.LinkNonceFrom, S.IsFieldName, S.IsStorable;
  }

  lemma OtherCounts(t: S.Tally, b: S.Tally, f: S.Field)
    requires b.carried == t.carried && b.reasons <= t.reasons && b.vary == t.vary && b.sawVary == t.sawVary
    ensures var u, c := S.Counted(t, f), S.Counted(b, f);
            c.carried == u.carried && c.reasons <= u.reasons && c.vary == u.vary && c.sawVary == u.sawVary
  {
    hide S.Decide, S.CountsForVary;
  }

  lemma BareIsSwapEligible(h: seq<S.Field>)
    requires S.Classified(h).verdict == S.SwapEligible
    ensures S.Classified(Bare(h)).verdict == S.SwapEligible
  {
    hide Bare, S.TallyOf, S.VaryFrom, S.EncodedSize, S.EncodedFields;
    BareTally(h);
  }

  /** Without its validators an admissible response with a lifetime of its own is still admissible. */
  lemma BareIsAdmissible(q: Request, r: Response, p: Policy, signal: (string, bool) -> bool)
    requires Admissible(q, r, p, signal)
    requires var life := LifetimeOf(r.headers, ReadCc(r.headers), p.now); life.isExplicit && !life.needsValidation
    ensures Admissible(q, BareResponse(r), p, signal)
  {
    hide Bare, Lines, ReadCc, LifetimeOf, HasValidators, VaryAdmitted, KeySafe, ExplicitShared, S.Classified, Lower;
    var h := r.headers;
    BareReads(r, p.now);
    BareLines(h, "content-range");
    BareLines(h, "content-type");
    BareLines(h, "set-cookie");
    BareLines(h, "set-cookie2");
    BareLines(h, "vary");
    BareIsSwapEligible(h);
    BareMembers(h);
  }

  /** Every admissible response that differs in its validator lines at most has a validator. */
  ghost predicate SureOfValidator(e: Entry, signal: (string, bool) -> bool) {
    forall h | Bare(h) == Bare(e.r.headers) && Admissible(e.q, e.r.(headers := h), e.p, signal) :: HasValidators(h)
  }

  lemma {:induction false} BareTwice(h: seq<S.Field>)
    ensures Bare(Bare(h)) == Bare(h)
    decreases |h|
  {
    hide IsValidator;
    if h != [] {
      var front, last := h[..|h| - 1], h[|h| - 1];
      BareTwice(front);
      if IsValidator(last) {
        assert Bare(h) == Bare(front);
      } else {
        assert Bare(h)[..|Bare(h)| - 1] == Bare(front);
      }
    }
  }

  /** What the store rules and the entry's facts say of its lifetime is one thing. */
  lemma EntryLifetime(run: seq<Event>, j: nat, k: nat, found: Found, signal: (string, bool) -> bool)
    requires Sources(run, j, k, signal)
    ensures var e := EntryOf(run[j], signal);
            var life := LifetimeOf(e.r.headers, ReadCc(e.r.headers), e.p.now);
            && Admissible(e.q, e.r, e.p, signal)
            && (MustValidate(FactsOf(Some(e), found)) <==> !life.isExplicit || life.needsValidation)
  {
    hide Admissible, LifetimeOf, HtmlLifetime.StatedLifetime, ReadCc, ExplicitShared, ClassifyHtmlForStore,
      HasValidators;
    var src := run[j];
    VerdictOfAdmitted(src.q, src.r, src.p, signal);
    ExplicitWhenPositive(src.r, src.p);
    PositiveUnlessValidated(src.r, src.p);
    HtmlLifetime.LifetimeIsStated(src.r.headers, src.p.now);
  }

  /** A validator is guaranteed exactly when the entry must be validated before use. */
  lemma ValidatorIffMustValidate(run: seq<Event>, k: nat, found: Found, signal: (string, bool) -> bool)
    requires k <= |run| && EntryAfter(run, k, signal).Some?
    ensures var e := EntryAfter(run, k, signal);
            SureOfValidator(e.value, signal) <==> MustValidate(FactsOf(e, found))
  {
    hide Admissible, Bare, LifetimeOf, HtmlLifetime.StatedLifetime, ReadCc, EntryAfter, ClassifyHtmlForStore,
      HasValidators;
    var j := EntryHasSource(run, k, signal);
    var e := EntryOf(run[j], signal);
    EntryLifetime(run, j, k, found, signal);
    if MustValidate(FactsOf(Some(e), found)) {
      forall h | Bare(h) == Bare(e.r.headers) && Admissible(e.q, e.r.(headers := h), e.p, signal)
        ensures HasValidators(h)
      {
        SameBareNeedsValidator(e, h, signal);
      }
    } else {
      BareIsAdmissible(e.q, e.r, e.p, signal);
      BareTwice(e.r.headers);
      BareHasNone(e.r.headers);
    }
  }

  lemma SameBareNeedsValidator(e: Entry, h: seq<S.Field>, signal: (string, bool) -> bool)
    requires Bare(h) == Bare(e.r.headers) && Admissible(e.q, e.r.(headers := h), e.p, signal)
    requires var life := LifetimeOf(e.r.headers, ReadCc(e.r.headers), e.p.now); !life.isExplicit || life.needsValidation
    ensures HasValidators(h)
  {
    hide Bare, Lines, ReadCc, LifetimeOf, HtmlLifetime.StatedLifetime, HasValidators, VaryAdmitted, KeySafe,
      ExplicitShared, S.Classified, IsHtml, IsIdentity;
    BareReads(e.r, e.p.now);
    BareReads(e.r.(headers := h), e.p.now);
  }

  /**
   In every run: had the entry at `k`, if it need not be validated, come without
   its validators, it would have been stored all the same and every request it
   answers would be answered as before, the stale ones with Validate.
   */
  lemma UnsureEntryMayLackValidator(run: seq<Event>, k: nat, signal: (string, bool) -> bool)
    returns (j: nat, bare: seq<Event>)
    requires k < |run| && run[k].Serve? && EntryAfter(run, k, signal).Some?
    requires !MustValidate(FactsOf(EntryAfter(run, k, signal), run[k].found))
    ensures Sources(run, j, k, signal)
    ensures bare == run[j := Receive(run[j].q, BareResponse(run[j].r), run[j].p, run[j].age)]
    ensures EntryAfter(bare, k, signal) == Some(EntryOf(bare[j], signal)) && !HasValidators(bare[j].r.headers)
    ensures AnswerAt(bare, k, signal) == AnswerAt(run, k, signal)
  {
    hide Admissible, Bare, LifetimeOf, HtmlLifetime.StatedLifetime, ReadCc, EntryAfter, ClassifyHtmlForStore,
      HasValidators, ExplicitShared, ClassifyHtmlForServe;
    j := EntryHasSource(run, k, signal);
    var src := run[j];
    bare := run[j := Receive(src.q, BareResponse(src.r), src.p, src.age)];
    EntryLifetime(run, j, k, run[k].found, signal);
    BareIsAdmissible(src.q, src.r, src.p, signal);
    StoresIffAdmissible(src.q, BareResponse(src.r), src.p, signal);
    forall i | j < i < k ensures Leaves(bare[i], signal) { assert Leaves(run[i], signal); }
    SourceIsEntry(bare, j, k, signal);
    BareHasNone(src.r.headers);
    VerdictOfAdmitted(src.q, src.r, src.p, signal);
    VerdictOfAdmitted(src.q, BareResponse(src.r), src.p, signal);
    BareReads(src.r, src.p.now);
  }

  /** A usable entry that is past its lifetime and not confirmed in the request is to be validated. */
  lemma StaleIsValidated(run: seq<Event>, k: nat, signal: (string, bool) -> bool)
    requires k < |run| && run[k].Serve? && EntryAfter(run, k, signal).Some?
    requires forall i | 0 <= i < |run| :: Bounded32(run[i])
    requires var a, f := run[k].ask, FactsOf(EntryAfter(run, k, signal), run[k].found);
             a.mode == ServeCachedHtml && Usable(a, f) && !f.validated && f.lifetime <= TrueAge(a, f)
    ensures AnswerAt(run, k, signal).action == Validate
  {
    hide EntryAfter, ClassifyHtmlForStore, ClassifyHtmlForServe, Admissible, HtmlLifetime.StatedLifetime, HasValidators,
      Usable, ReadCc, ExplicitShared;
    var j := EntryHasSource(run, k, signal);
    VerdictOfAdmitted(run[j].q, run[j].r, run[j].p, signal);
    ExplicitWhenPositive(run[j].r, run[j].p);
    assert Bounded32(run[j]) && Bounded32(run[k]);
    ValidateIff(run[k].ask, FactsOf(EntryAfter(run, k, signal), run[k].found));
  }
}
