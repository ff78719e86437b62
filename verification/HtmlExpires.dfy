/**
 Freshness from an Expires line, said of the dates it and the Date line print
 (sections 5.3 of RFC 9111 and 5.6.7 of RFC 9110).
 */
module HtmlExpires {
  import opened Options
  import opened HttpText
  import opened HttpDate
  import opened Sidecar
  import opened HtmlStore
  import HtmlLifetime
  import opened HtmlServe

  // ---- header lines -----------------------------------------------------------------------------

  /** Exactly one header has this name, in any letter case, and this is its value. */
  ghost predicate Only(headers: seq<Field>, name: string, value: string) {
    exists k :: 0 <= k < |headers| && OnlyAt(headers, name, value, k)
  }

  ghost predicate OnlyAt(headers: seq<Field>, name: string, value: string, k: nat)
    requires k < |headers|
  {
    && Lower(headers[k].name) == name && headers[k].value == value
    && forall i :: 0 <= i < |headers| && i != k ==> Lower(headers[i].name) != name
  }

  lemma {:induction false} NoLines(headers: seq<Field>, name: string)
    requires forall i :: 0 <= i < |headers| ==> Lower(headers[i].name) != name
    ensures Lines(headers, name) == []
  {
    if headers != [] { NoLines(headers[1..], name); }
  }

  lemma {:induction false} OneLine(headers: seq<Field>, name: string, value: string, k: nat)
    requires k < |headers| && OnlyAt(headers, name, value, k)
    ensures Lines(headers, name) == [value]
    decreases |headers|
  {
    var rest := headers[1..];
    if k == 0 {
      NoLines(rest, name);
    } else {
      assert OnlyAt(rest, name, value, k - 1);
      OneLine(rest, name, value, k - 1);
    }
  }

  lemma OnlyLine(headers: seq<Field>, name: string, value: string)
    requires Only(headers, name, value)
    ensures Lines(headers, name) == [value]
  {
    var k :| 0 <= k < |headers| && OnlyAt(headers, name, value, k);
    OneLine(headers, name, value, k);
  }

  // ---- dates ------------------------------------------------------------------------------------

  /** The value prints moment `t` in one of the three formats, two-digit years near `now`. */
  ghost predicate Prints(value: string, form: Form, t: Moment, now: nat) {
    IsMoment(t) && (form == Rfc850 ==> InWindow(t, now)) && Trim(value) == Printed(form, t)
  }

  lemma PrintedIsRead(value: string, form: Form, t: Moment, now: nat)
    requires Prints(value, form, t, now)
    ensures ParseHttpDateSeconds(value, now) == Some(Instant(t))
  {
    hide Printed, ParseMoment, Instant, Trim;
    var a, b := TrimSplit(value);
    PrintThenParse(form, t, now, a, b);
  }

  lemma ReadIsPrinted(value: string, now: nat)
    requires now < 0x1_0000_0000 && ParseHttpDateSeconds(value, now).Some?
    ensures exists form, t :: Prints(value, form, t, now)
  {
    hide Printed, ParseMoment, Instant, Trim;
    var form, t := ParseThenPrint(value, now);
    assert Prints(value, form, t, now);
  }

  lemma UnprintedIsUnread(value: string, now: nat)
    requires now < 0x1_0000_0000 && forall form, t :: !Prints(value, form, t, now)
    ensures ParseHttpDateSeconds(value, now).None?
  {
    hide Prints, ParseHttpDateSeconds;
    if ParseHttpDateSeconds(value, now).Some? { ReadIsPrinted(value, now); }
  }

  /** The moment of generation: what the one Date line prints, or else the time of receipt. */
  ghost predicate Generated(headers: seq<Field>, now: nat, d: int) {
    || (exists value, form, t :: Only(headers, "date", value) && Prints(value, form, t, now) && d == Instant(t))
    || (d == now && forall value, form, t :: Only(headers, "date", value) ==> !Prints(value, form, t, now))
  }

  /** The Date line the lifetime is counted from. */
  lemma DateIsRead(headers: seq<Field>, now: nat, d: int)
    requires now < 0x1_0000_0000 && Generated(headers, now, d)
    ensures var dates := Lines(headers, "date");
            d == if |dates| == 1 && ParseHttpDateSeconds(dates[0], now).Some?
                 then ParseHttpDateSeconds(dates[0], now).value else now
  {
    hide ParseHttpDateSeconds, Printed, Trim, Instant, Lines, InWindow;
    var dates := Lines(headers, "date");
    if value, form, t :| Only(headers, "date", value) && Prints(value, form, t, now) && d == Instant(t) {
      OnlyLine(headers, "date", value);
      PrintedIsRead(value, form, t, now);
    } else if |dates| == 1 {
      OnlyOne(headers, "date");
      UnprintedIsUnread(dates[0], now);
    }
  }

  lemma {:induction false} OnlyOne(headers: seq<Field>, name: string)
    requires |Lines(headers, name)| == 1
    ensures Only(headers, name, Lines(headers, name)[0])
    decreases |headers|
  {
    var rest := headers[1..];
    if Lower(headers[0].name) == name {
      NoneLeft(rest, name);
      assert OnlyAt(headers, name, Lines(headers, name)[0], 0);
    } else {
      OnlyOne(rest, name);
      var k :| 0 <= k < |rest| && OnlyAt(rest, name, Lines(rest, name)[0], k);
      assert Lines(headers, name) == Lines(rest, name);
      forall i | 0 <= i < |headers| && i != k + 1 ensures Lower(headers[i].name) != name {
        if i > 0 { assert headers[i] == rest[i - 1]; }
      }
      assert OnlyAt(headers, name, Lines(headers, name)[0], k + 1);
    }
  }

  lemma {:induction false} NoneLeft(headers: seq<Field>, name: string)
    requires Lines(headers, name) == []
    ensures forall i :: 0 <= i < |headers| ==> Lower(headers[i].name) != name
  {
    if headers != [] { NoneLeft(headers[1..], name); }
  }

  // ---- the lifetime -------------------------------------------------------------------------------

  /** No max-age and no s-maxage in any Cache-Control line. */
  ghost predicate ExpiresAlone(headers: seq<Field>) {
    var ds := HtmlLifetime.AllDirectives(Lines(headers, "cache-control"));
    forall d :: d in ds ==> d.name != "max-age" && d.name != "s-maxage"
  }

  lemma {:induction false} NoValues(ds: seq<Directive>, name: string)
    requires forall d :: d in ds ==> d.name != name
    ensures HtmlLifetime.Values(ds, name) == []
  {
    if ds != [] {
      assert ds[0] in ds && forall d :: d in ds[1..] ==> d in ds;
      NoValues(ds[1..], name);
    }
  }

  lemma AloneIsUsed(headers: seq<Field>, now: nat)
    requires ExpiresAlone(headers) && Lines(headers, "expires") != []
    ensures HtmlLifetime.StatedLifetime(headers, now).seconds == ExpiresLifetime(headers, now)
    ensures HtmlLifetime.StatedLifetime(headers, now).isExplicit
  {
    hide ExpiresLifetime, HtmlLifetime.Values, Lines, HtmlLifetime.AllDirectives;
    var ds := HtmlLifetime.AllDirectives(Lines(headers, "cache-control"));
    NoValues(ds, "max-age");
    NoValues(ds, "s-maxage");
  }

  /** The time from generation to the Expires date, no less than 0 and cut at 32 bits. */
  function Span(from: int, to: int): nat {
    if to <= from then 0 else if to - from > 4294967295 then 4294967295 else to - from
  }

  /** A response with an Expires date and no max-age is fresh for the time from its generation to that date. */
  lemma ExpiresMeans(headers: seq<Field>, now: nat, value: string, form: Form, e: Moment, d: int)
    requires now < 0x1_0000_0000 && ExpiresAlone(headers)
    requires Only(headers, "expires", value) && Prints(value, form, e, now) && Generated(headers, now, d)
    ensures LifetimeOf(headers, ReadCc(headers), now).seconds == Span(d, Instant(e))
    ensures LifetimeOf(headers, ReadCc(headers), now).isExplicit
  {
    hide HtmlLifetime.StatedLifetime, ParseHttpDateSeconds, Prints, Instant, LifetimeOf, ReadCc, Generated,
      ExpiresAlone, Lines;
    OnlyLine(headers, "expires", value);
    PrintedIsRead(value, form, e, now);
    DateIsRead(headers, now, d);
    AloneIsUsed(headers, now);
    HtmlLifetime.LifetimeIsStated(headers, now);
  }

  /** One that says Expires and gives no single readable date has already expired. */
  lemma BadExpiresIsStale(headers: seq<Field>, now: nat)
    requires now < 0x1_0000_0000 && ExpiresAlone(headers)
    requires exists k :: 0 <= k < |headers| && Lower(headers[k].name) == "expires"
    requires forall value, form, t :: Only(headers, "expires", value) ==> !Prints(value, form, t, now)
    ensures var life := LifetimeOf(headers, ReadCc(headers), now);
            life.seconds == 0 && life.isExplicit && life.needsValidation
  {
    hide HtmlLifetime.StatedLifetime, ParseHttpDateSeconds, Prints, LifetimeOf, ReadCc, ExpiresAlone, Lines;
    var lines := Lines(headers, "expires");
    if lines == [] { NoneLeft(headers, "expires"); }
    if |lines| == 1 {
      OnlyOne(headers, "expires");
      UnprintedIsUnread(lines[0], now);
    }
    AloneIsUsed(headers, now);
    HtmlLifetime.LifetimeIsStated(headers, now);
    PositiveUnlessValidated(Response(200, headers, 0, true, ""), Policy(Off, 0, now));
  }

  /** Whatever is served on an Expires date alone, unconfirmed, is younger than the time to that date. */
  lemma ServedBeforeItExpires(run: seq<Event>, k: nat, signal: (string, bool) -> bool,
                              value: string, form: Form, e: Moment, d: int)
    returns (j: nat)
    requires Timed(run) && k < |run| && run[k].Serve? && AnswerAt(run, k, signal).Serves() && !run[k].found.confirmed
    requires forall i | 0 <= i < |run| :: Bounded32(run[i])
    ensures Sources(run, j, k, signal)
    ensures var src := run[j];
            var headers, now := src.r.headers, src.p.now;
            ExpiresAlone(headers) && Only(headers, "expires", value) && Prints(value, form, e, now)
            && Generated(headers, now, d) ==>
              now <= run[k].ask.now && src.age + (run[k].ask.now - now) < Instant(e) - d
  {
    hide HtmlLifetime.StatedLifetime, Prints, Generated, ExpiresAlone, Only, Instant, AnswerAt, LifetimeOf, Leaves,
      Admissible, ReadCc;
    j := ServedIsSafe(run, k, signal);
    var src := run[j];
    assert Bounded32(src);
    if ExpiresAlone(src.r.headers) && Only(src.r.headers, "expires", value) && Prints(value, form, e, src.p.now)
       && Generated(src.r.headers, src.p.now, d) {
      ExpiresMeans(src.r.headers, src.p.now, value, form, e, d);
      HtmlLifetime.LifetimeIsStated(src.r.headers, src.p.now);
    }
  }
}
