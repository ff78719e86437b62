/** Building a Cache-Control header value in a caller's buffer. */
module CacheControlWriter {
  import opened HttpText
  import opened CacheControl

  datatype Mode = Safe | Aggressive

  datatype Input = Input(
    mode: Mode, flags: set<Flag>, effectiveMaxAge: nat, originMaxAge: nat,
    synthesizeSwr: bool, shared: bool, relayNoCache: bool, forward: bool)

  const STALE_WINDOW := 86400

  function Decimal(n: nat): (s: string)
    ensures s != ""
  {
    if n < 10 then [Digit(n)] else Decimal(n / 10) + [Digit(n % 10)]
  }

  /** Serving stale would break the origin's directives; two of them bind shared caches only. */
  predicate RevalidationRequired(flags: set<Flag>, shared: bool) {
    || NoCache in flags || MustRevalidate in flags
    || (shared && (ProxyRevalidate in flags || SMaxagePresent in flags))
  }

  // ---- the directives, in order ---------------------------------------------------------

  /** What a directive means to a parser. */
  datatype Effect = Sets(flags: set<Flag>) | MaxAge(age: nat) | SMaxage(sAge: nat) | Nothing

  /** A directive, whether it applies, and the room asked for it. */
  datatype Want = Want(on: bool, text: string, room: nat, effect: Effect)

  function WantPublic(i: Input): Want {
    Want(i.mode == Aggressive && Public in i.flags && Private !in i.flags && NoStore !in i.flags,
         "public", 6, Sets({Public}))
  }

  function WantNoStore(i: Input): Want {
    Want(i.forward && NoStore in i.flags, "no-store", 8, Sets({NoStore}))
  }

  /** The bare form was seen, or the metadata does not know forms. */
  predicate Blanket(flags: set<Flag>, f: Flag, bare: Flag, qualified: Flag) {
    f in flags && (bare in flags || qualified !in flags)
  }

  function WantPrivate(i: Input): Want {
    Want(i.forward && Blanket(i.flags, Private, PrivateBare, PrivateQualified),
         "private", 7, Sets({Private, PrivateBare}))
  }

  function WantNoCache(i: Input): Want {
    Want((i.relayNoCache || i.forward) && Blanket(i.flags, NoCache, NoCacheBare, NoCacheQualified),
         "no-cache", 8, Sets({NoCache, NoCacheBare}))
  }

  function WantMustRevalidate(i: Input): Want {
    Want((i.mode == Safe && !i.forward) || MustRevalidate in i.flags, "must-revalidate", 16, Sets({MustRevalidate}))
  }

  function WantProxyRevalidate(i: Input): Want {
    Want(ProxyRevalidate in i.flags, "proxy-revalidate", 17, Sets({ProxyRevalidate}))
  }

  function WantNoTransform(i: Input): Want {
    Want(NoTransform in i.flags, "no-transform", 12, Sets({NoTransform}))
  }

  function WantSMaxage(i: Input): Want {
    Want(SMaxagePresent in i.flags, "s-maxage=" + Decimal(i.effectiveMaxAge), 19, SMaxage(i.effectiveMaxAge))
  }

  /** A lifetime says nothing under a forwarded `no-store`; beside `s-maxage` it is the origin's own. */
  function WantMaxAge(i: Input): Want {
    var age := if SMaxagePresent in i.flags then i.originMaxAge else i.effectiveMaxAge;
    Want(!(i.forward && NoStore in i.flags)
         && (SMaxagePresent in i.flags ==> i.originMaxAge > 0 || HeaderPresent in i.flags),
         "max-age=" + Decimal(age), 18, MaxAge(age))
  }

  function WantSwr(i: Input): Want {
    var swr := if i.effectiveMaxAge < STALE_WINDOW then i.effectiveMaxAge else STALE_WINDOW;
    Want(i.mode == Aggressive && i.synthesizeSwr && !RevalidationRequired(i.flags, i.shared) && !i.forward && swr > 0,
         "stale-while-revalidate=" + Decimal(swr), 34, Nothing)
  }

  function WantStaleIfError(i: Input): Want {
    Want(i.mode == Aggressive && !RevalidationRequired(i.flags, i.shared) && !i.forward,
         "stale-if-error=86400", 20, Nothing)
  }

  function Wants(i: Input): (w: seq<Want>)
    ensures |w| == 11
  {
    [WantPublic(i), WantNoStore(i), WantPrivate(i), WantNoCache(i), WantMustRevalidate(i), WantProxyRevalidate(i),
     WantNoTransform(i), WantSMaxage(i), WantMaxAge(i), WantSwr(i), WantStaleIfError(i)]
  }

  // ---- what fits --------------------------------------------------------------------------

  /** The directive, its separator and a NUL fit behind `len` characters. */
  predicate Fits(capacity: nat, len: nat, room: nat) {
    len + (if len > 0 then 2 else 0) + room + 1 <= capacity
  }

  function Texts(ws: seq<Want>): seq<string> {
    if ws == [] then [] else [ws[0].text] + Texts(ws[1..])
  }

  function Line(ws: seq<Want>): string {
    CommaJoined(Texts(ws))
  }

  /** The directives written: each one that applies and still fits as a whole. */
  function Kept(ws: seq<Want>, capacity: nat): seq<Want> {
    if ws == [] then []
    else
      var before, w := Kept(ws[..|ws| - 1], capacity), ws[|ws| - 1];
      if w.on && Fits(capacity, |Line(before)|, w.room) then before + [w] else before
  }

  lemma {:induction false} TextsAppend(a: seq<Want>, w: Want)
    ensures Texts(a + [w]) == Texts(a) + [w.text]
  {
    if a == [] {
      assert a + [w] == [w];
    } else {
      assert (a + [w])[1..] == a[1..] + [w];
      TextsAppend(a[1..], w);
    }
  }

  lemma {:induction false} CommaJoinedAppend(a: seq<string>, t: string)
    ensures CommaJoined(a + [t]) == if a == [] then t else CommaJoined(a) + ", " + t
  {
    if a == [] {
      assert a + [t] == [t];
    } else {
      assert (a + [t])[1..] == a[1..] + [t];
      CommaJoinedAppend(a[1..], t);
      if |a| > 1 {
        assert a[0] + ", " + (CommaJoined(a[1..]) + ", " + t) == (a[0] + ", " + CommaJoined(a[1..])) + ", " + t;
      } else {
        assert a[1..] == [];
      }
    }
  }

  /** One more directive. */
  lemma LineAppend(ws: seq<Want>, w: Want)
    ensures Line(ws + [w]) == if ws == [] then w.text else Line(ws) + ", " + w.text
  {
    TextsAppend(ws, w);
    CommaJoinedAppend(Texts(ws), w.text);
  }

  // ---- the writer --------------------------------------------------------------------------

  /** Texts are not empty and no longer than the room asked for. */
  ghost predicate Sized(w: Want) {
    0 < |w.text| <= w.room
  }

  class Writer {
    const buf: array<char>
    var p: nat
    ghost var written: seq<Want>

    constructor (buf: array<char>)
      ensures this.buf == buf && p == 0 && written == []
    {
      this.buf := buf;
      p := 0;
      written := [];
    }

    ghost predicate Valid()
      reads this, buf
    {
      && p <= buf.Length && buf[..p] == Line(written)
      && (p == 0 <==> written == []) && (written != [] ==> p < buf.Length)
    }

    method Put(text: string)
      requires p + |text| <= buf.Length
      modifies this`p, buf
      ensures p == old(p) + |text| && buf[..p] == old(buf[..p]) + text
    {
      for i := 0 to |text|
        invariant p == old(p) && buf[..p + i] == old(buf[..p]) + text[..i]
      {
        buf[p + i] := text[i];
        assert buf[..p + i + 1] == buf[..p + i] + [text[i]];
        assert text[..i + 1] == text[..i] + [text[i]];
      }
      p := p + |text|;
      assert text[..|text|] == text;
    }

    /** Writes a directive that applies, if it fits as a whole. */
    method Emit(w: Want) returns (emitted: bool)
      requires Valid() && Sized(w)
      modifies this, buf
      ensures Valid() && emitted == (w.on && Fits(buf.Length, old(p), w.room))
      ensures written == if emitted then old(written) + [w] else old(written)
    {
      hide Line;
      emitted := w.on && Fits(buf.Length, p, w.room);
      if emitted {
        LineAppend(written, w);
        if p > 0 { Put(", "); }
        Put(w.text);
        written := written + [w];
      }
    }
  }

  /** The ages are 32-bit numbers. */
  predicate IsInput(i: Input) {
    i.effectiveMaxAge <= MAX32 && i.originMaxAge <= MAX32
  }

  lemma {:induction false} DecimalLength(n: nat, k: nat, bound: nat)
    requires k > 0 && n < bound && bound == Power10(k)
    ensures |Decimal(n)| <= k
    decreases k
  {
    assert Power10(0) == 1;
    if n >= 10 { DecimalLength(n / 10, k - 1, Power10(k - 1)); }
  }

  function Power10(k: nat): nat {
    if k == 0 then 1 else 10 * Power10(k - 1)
  }

  lemma Decimal32(n: nat)
    requires n <= MAX32
    ensures |Decimal(n)| <= 10
    ensures n <= STALE_WINDOW ==> |Decimal(n)| <= 5
  {
    assert Power10(5) == 100000 by { assert Power10(3) == 1000; }
    assert Power10(10) == 10000000000 by { assert Power10(7) == 10000000; assert Power10(9) == 1000000000; }
    DecimalLength(n, 10, 10000000000);
    if n <= STALE_WINDOW { DecimalLength(n, 5, 100000); }
  }

  lemma WantsAreSized(i: Input, k: nat)
    requires IsInput(i) && k < 11
    ensures Sized(Wants(i)[k])
  {
    hide Decimal;
    Decimal32(i.effectiveMaxAge);
    Decimal32(i.originMaxAge);
    Decimal32(if i.effectiveMaxAge < STALE_WINDOW then i.effectiveMaxAge else STALE_WINDOW);
  }

  /** The next directive of the list. */
  lemma KeptNext(ws: seq<Want>, k: nat, capacity: nat)
    requires k < |ws|
    ensures var before, w := Kept(ws[..k], capacity), ws[k];
            Kept(ws[..k + 1], capacity)
            == if w.on && Fits(capacity, |Line(before)|, w.room) then before + [w] else before
  {
    var front := ws[..k + 1];
    assert front[..|front| - 1] == ws[..k] && front[|front| - 1] == ws[k];
  }

  datatype Output = Output(len: nat, finalMaxAge: nat)

  predicate MaxAgeKept(i: Input, capacity: nat) {
    WantMaxAge(i).on && Fits(capacity, |Line(Kept(Wants(i)[..8], capacity))|, WantMaxAge(i).room)
  }

  /** The max-age the age of the response is measured against. */
  function FinalMaxAge(i: Input, capacity: nat): nat {
    if SMaxagePresent in i.flags && MaxAgeKept(i, capacity) then i.originMaxAge else i.effectiveMaxAge
  }

  method Emitted(w: Writer, ghost ws: seq<Want>, k: nat, want: Want) returns (emitted: bool)
    requires w.Valid() && k < |ws| && want == ws[k] && Sized(want) && w.written == Kept(ws[..k], w.buf.Length)
    modifies w, w.buf
    ensures w.Valid() && w.written == Kept(ws[..k + 1], w.buf.Length)
    ensures emitted == (want.on && Fits(w.buf.Length, |Line(Kept(ws[..k], w.buf.Length))|, want.room))
  {
    hide Kept, Line;
    KeptNext(ws, k, w.buf.Length);
    emitted := w.Emit(want);
  }

  method WriteRestrictions(w: Writer, i: Input)
    requires IsInput(i) && w.Valid() && w.written == Kept(Wants(i)[..0], w.buf.Length)
    modifies w, w.buf
    ensures w.Valid() && w.written == Kept(Wants(i)[..7], w.buf.Length)
  {
    hide *;
    ghost var ws := Wants(i);
    WantsAre(i);
    forall k: nat | k < 11 ensures Sized(ws[k]) { WantsAreSized(i, k); }
    var e := Emitted(w, ws, 0, WantPublic(i));
    e := Emitted(w, ws, 1, WantNoStore(i));
    e := Emitted(w, ws, 2, WantPrivate(i));
    e := Emitted(w, ws, 3, WantNoCache(i));
    e := Emitted(w, ws, 4, WantMustRevalidate(i));
    e := Emitted(w, ws, 5, WantProxyRevalidate(i));
    e := Emitted(w, ws, 6, WantNoTransform(i));
  }

  method WriteLifetimes(w: Writer, i: Input) returns (lifetime: bool)
    requires IsInput(i) && w.Valid() && w.written == Kept(Wants(i)[..7], w.buf.Length)
    modifies w, w.buf
    ensures w.Valid() && w.written == Kept(Wants(i)[..11], w.buf.Length)
    ensures lifetime == MaxAgeKept(i, w.buf.Length)
  {
    hide Kept, Line, Wants, Sized, Fits, IsInput, Writer.Valid, WantPublic, WantNoStore, WantPrivate, WantNoCache,
      WantMustRevalidate, WantProxyRevalidate, WantNoTransform, WantSMaxage, WantMaxAge, WantSwr, WantStaleIfError;
    ghost var ws := Wants(i);
    WantsAre(i);
    forall k: nat | k < 11 ensures Sized(ws[k]) { WantsAreSized(i, k); }
    var e := Emitted(w, ws, 7, WantSMaxage(i));
    lifetime := Emitted(w, ws, 8, WantMaxAge(i));
    e := Emitted(w, ws, 9, WantSwr(i));
    e := Emitted(w, ws, 10, WantStaleIfError(i));
  }

  method BuildCacheControlHeader(i: Input, buf: array<char>) returns (out: Output)
    requires IsInput(i)
    modifies buf
    ensures buf.Length == 0 ==> out == Output(0, 0)
    ensures buf.Length > 0 ==> out.len < buf.Length && buf[..out.len] == Line(Kept(Wants(i), buf.Length))
    ensures buf.Length > 0 ==> out.finalMaxAge == FinalMaxAge(i, buf.Length)
  {
    hide Kept, Line, Wants, MaxAgeKept;
    if buf.Length == 0 { return Output(0, 0); }
    var w := new Writer(buf);
    NothingYet(Wants(i), buf.Length);
    WriteRestrictions(w, i);
    var lifetime := WriteLifetimes(w, i);
    assert Wants(i)[..11] == Wants(i);
    out := Output(w.p, if SMaxagePresent in i.flags && lifetime then i.originMaxAge else i.effectiveMaxAge);
  }

  lemma NothingYet(ws: seq<Want>, capacity: nat)
    ensures Kept(ws[..0], capacity) == [] && Line([]) == ""
  {}

  lemma WantsAre(i: Input)
    ensures var ws := Wants(i);
            && |ws| == 11 && ws[0] == WantPublic(i) && ws[1] == WantNoStore(i) && ws[2] == WantPrivate(i)
            && ws[3] == WantNoCache(i) && ws[4] == WantMustRevalidate(i) && ws[5] == WantProxyRevalidate(i)
            && ws[6] == WantNoTransform(i) && ws[7] == WantSMaxage(i) && ws[8] == WantMaxAge(i)
            && ws[9] == WantSwr(i) && ws[10] == WantStaleIfError(i)
  {}
}
