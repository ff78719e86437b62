/** What the written header line means when it is parsed again. */
module CacheControlRoundTrip {
  import opened Options
  import opened Ascii
  import opened HttpText
  import opened CacheControl
  import opened CacheControlWriter

  // ---- which directives are written -----------------------------------------------------

  /** Directives that apply. */
  function Chosen(ws: seq<Want>): seq<Want> {
    if ws == [] then []
    else Chosen(ws[..|ws| - 1]) + if ws[|ws| - 1].on then [ws[|ws| - 1]] else []
  }

  /** `a` is `b` with some elements left out. */
  ghost predicate Subsequence(a: seq<Want>, b: seq<Want>) {
    if a == [] then true
    else if b == [] then false
    else if a[|a| - 1] == b[|b| - 1] then Subsequence(a[..|a| - 1], b[..|b| - 1])
    else Subsequence(a, b[..|b| - 1])
  }

  lemma {:induction false} SubsequenceDropLast(a: seq<Want>, b: seq<Want>)
    requires a != [] && Subsequence(a, b)
    ensures Subsequence(a[..|a| - 1], b)
    decreases |b|, 0
  {
    if a[|a| - 1] == b[|b| - 1] {
      SubsequenceMore(a[..|a| - 1], b[..|b| - 1], b[|b| - 1]);
      assert b == b[..|b| - 1] + [b[|b| - 1]];
    } else {
      SubsequenceDropLast(a, b[..|b| - 1]);
      SubsequenceMore(a[..|a| - 1], b[..|b| - 1], b[|b| - 1]);
      assert b == b[..|b| - 1] + [b[|b| - 1]];
    }
  }

  lemma {:induction false} SubsequenceMore(a: seq<Want>, b: seq<Want>, x: Want)
    requires Subsequence(a, b)
    ensures Subsequence(a, b + [x])
    decreases |b|, 1
  {
    assert (b + [x])[..|b + [x]| - 1] == b;
    if a != [] && a[|a| - 1] == x { SubsequenceDropLast(a, b); }
  }

  /** Whole directives that apply, in their order, and fewer characters than the capacity. */
  lemma {:induction false} KeptAreChosen(ws: seq<Want>, capacity: nat)
    requires capacity > 0 && forall w | w in ws :: Sized(w)
    ensures Subsequence(Kept(ws, capacity), Chosen(ws))
    ensures |Line(Kept(ws, capacity))| < capacity
    decreases |ws|
  {
    hide Line;
    if ws == [] {
      NothingYet(ws, capacity);
      assert Kept(ws, capacity) == [];
    } else {
      var front, w := ws[..|ws| - 1], ws[|ws| - 1];
      assert w in ws;
      KeptAreChosen(front, capacity);
      var before := Kept(front, capacity);
      if w.on {
        if Fits(capacity, |Line(before)|, w.room) {
          LineAppend(before, w);
          assert Line(before) == "" <==> before == [] by { LineEmpty(front, capacity); }
          assert (before + [w])[..|before + [w]| - 1] == before
                 && (Chosen(front) + [w])[..|Chosen(front) + [w]| - 1] == Chosen(front);
        } else {
          SubsequenceMore(before, Chosen(front), w);
        }
      } else {
        assert Chosen(front) + [] == Chosen(front);
      }
    }
  }

  lemma {:induction false} LineEmpty(ws: seq<Want>, capacity: nat)
    requires forall w | w in ws :: Sized(w)
    ensures Line(Kept(ws, capacity)) == "" <==> Kept(ws, capacity) == []
    decreases |ws|
  {
    hide Line;
    NothingYet(ws, capacity);
    if ws != [] {
      var front, w := ws[..|ws| - 1], ws[|ws| - 1];
      assert w in ws;
      LineEmpty(front, capacity);
      LineAppend(Kept(front, capacity), w);
    }
  }

  /** Room enough for every directive and its separator. */
  function Budget(ws: seq<Want>): nat {
    if ws == [] then 0 else Budget(ws[..|ws| - 1]) + ws[|ws| - 1].room + 2
  }

  lemma {:induction false} WithinBudget(ws: seq<Want>, capacity: nat)
    requires Budget(ws) + 1 <= capacity && forall w | w in ws :: Sized(w)
    ensures Kept(ws, capacity) == Chosen(ws) && |Line(Kept(ws, capacity))| <= Budget(ws)
    decreases |ws|
  {
    hide Line;
    if ws == [] {
      NothingYet(ws, capacity);
      assert Kept(ws, capacity) == [];
    } else {
      var front, w := ws[..|ws| - 1], ws[|ws| - 1];
      assert w in ws;
      WithinBudget(front, capacity);
      LineAppend(Kept(front, capacity), w);
    }
  }

  lemma {:induction false} BudgetNext(ws: seq<Want>, k: nat)
    requires k < |ws|
    ensures Budget(ws[..k + 1]) == Budget(ws[..k]) + ws[k].room + 2
  {
    assert ws[..k + 1][..k] == ws[..k];
  }

  lemma Rooms(i: Input)
    ensures var ws := Wants(i);
            && |ws| == 11 && ws[0].room == 6 && ws[1].room == 8 && ws[2].room == 7 && ws[3].room == 8
            && ws[4].room == 16
            && ws[5].room == 17 && ws[6].room == 12 && ws[7].room == 19 && ws[8].room == 18 && ws[9].room == 34
            && ws[10].room == 20
  {
    hide Decimal;
  }

  lemma BudgetOfWants(i: Input)
    ensures Budget(Wants(i)) == 187
  {
    hide Wants, Budget;
    Rooms(i);
    var ws := Wants(i);
    NoBudget(ws);
    BudgetNext(ws, 0);
    BudgetNext(ws, 1);
    BudgetNext(ws, 2);
    BudgetNext(ws, 3);
    BudgetNext(ws, 4);
    BudgetNext(ws, 5);
    BudgetNext(ws, 6);
    BudgetNext(ws, 7);
    BudgetNext(ws, 8);
    BudgetNext(ws, 9);
    BudgetNext(ws, 10);
    assert ws[..11] == ws;
  }

  lemma NoBudget(ws: seq<Want>)
    ensures Budget(ws[..0]) == 0
  {}

  lemma AllSized(i: Input)
    requires IsInput(i)
    ensures forall w | w in Wants(i) :: Sized(w)
  {
    hide Wants, Sized;
    var ws := Wants(i);
    forall w | w in ws ensures Sized(w) {
      var k: nat :| k < |ws| && ws[k] == w;
      WantsAreSized(i, k);
    }
  }

  /** With 256 characters every directive that applies is written. */
  lemma AllFitIn256(i: Input)
    requires IsInput(i)
    ensures Kept(Wants(i), 256) == Chosen(Wants(i))
  {
    hide Kept, Chosen, Line, Wants, Sized;
    BudgetOfWants(i);
    AllSized(i);
    WithinBudget(Wants(i), 256);
  }

  // ---- what each directive means ---------------------------------------------------------------

  function Do(e: Effect, o: Origin): Origin {
    match e
    case Sets(fs) => o.(flags := o.flags + fs)
    case MaxAge(n) => o.(maxAge := n)
    case SMaxage(n) => o.(sMaxage := n, flags := o.flags + {SMaxagePresent})
    case Nothing => o
  }

  /** The text is one plain directive that parses to the effect. */
  ghost predicate Faithful(w: Want) {
    Plain(w.text) && forall o :: Apply(w.text, o) == Do(w.effect, o)
  }

  /** A directive name of the table, as it is written without an argument. */
  ghost predicate Bare(name: string, f: Flag) {
    && Plain(name) && (forall k | 0 <= k < |name| :: name[k] != '=' && !('A' <= name[k] <= 'Z'))
    && FlagNamed(name) == Some(f)
  }

  lemma BareFaithful(name: string, f: Flag, w: Want)
    requires Bare(name, f) && w.text == name && w.effect == Sets(FormFlags(f, false))
    ensures Faithful(w)
  {
    hide FlagNamed;
    LowerAlready(name);
    FindIn(name, '=', |name|, 0);
  }

  lemma BarePublic() ensures Bare("public", Public) {}

  lemma BareNoStore() ensures Bare("no-store", NoStore) {}

  lemma BarePrivate() ensures Bare("private", Private) {}

  lemma BareNoCache() ensures Bare("no-cache", NoCache) {}

  lemma BareMustRevalidate() ensures Bare("must-revalidate", MustRevalidate) {}

  lemma BareProxyRevalidate() ensures Bare("proxy-revalidate", ProxyRevalidate) {}

  lemma BareNoTransform() ensures Bare("no-transform", NoTransform) {}

  // ---- decimal numbers ------------------------------------------------------------------------

  lemma {:induction false} DecimalDigits(n: nat)
    ensures forall k | 0 <= k < |Decimal(n)| :: IsDigit(Decimal(n)[k])
  {
    if n >= 10 { DecimalDigits(n / 10); }
  }

  lemma {:induction false} SaturatingAppend(s: string, c: char, i: nat, acc: nat)
    requires i <= |s| && acc <= MAX32 && (forall k | 0 <= k < |s| :: IsDigit(s[k])) && IsDigit(c)
    requires Saturating(s, i, acc) * 10 + 9 <= MAX32
             || (Saturating(s, i, acc) < MAX32 && Saturating(s, i, acc) * 10 + (c - '0') as nat <= MAX32)
    ensures Saturating(s + [c], i, acc) == Saturating(s, i, acc) * 10 + (c - '0') as nat
    decreases |s| - i
  {
    if i < |s| {
      var next := acc * 10 + (s[i] - '0') as nat;
      assert (s + [c])[i] == s[i];
      SaturatingAppend(s, c, i + 1, next);
    } else {
      assert (s + [c])[i] == c;
      assert Saturating(s + [c], i + 1, acc * 10 + (c - '0') as nat) == acc * 10 + (c - '0') as nat;
    }
  }

  lemma {:induction false} SaturatingDecimal(n: nat)
    requires n <= MAX32
    ensures Saturating(Decimal(n), 0, 0) == n
  {
    if n < 10 {
      assert Decimal(n) == [Digit(n)];
    } else {
      SaturatingDecimal(n / 10);
      DecimalDigits(n / 10);
      SaturatingAppend(Decimal(n / 10), Digit(n % 10), 0, 0);
    }
  }

  lemma SecondsOfDecimal(n: nat)
    requires n <= MAX32
    ensures Seconds(Decimal(n)) == n
  {
    hide Decimal;
    var s := Decimal(n);
    DecimalDigits(n);
    assert IsDigit(s[0]) && IsDigit(s[|s| - 1]);
    assert "" + s + "" == s;
    TrimPadded("", s, "");
    SaturatingDecimal(n);
  }

  /** A directive `name=number`. */
  lemma ValuedParts(name: string, n: nat)
    requires Solid(name) && forall k | 0 <= k < |name| :: name[k] != '=' && name[k] != ',' && !('A' <= name[k] <= 'Z')
    ensures var t := name + "=" + Decimal(n);
            Plain(t) && Find(t, '=', 0) == |name| && t[..|name|] == name && t[|name| + 1..] == Decimal(n)
    ensures Lower(Trim(name)) == name
  {
    hide Decimal, Lower, Plain, Trim;
    var t := name + "=" + Decimal(n);
    ValuedIsPlain(name, n);
    FindIn(t, '=', |name|, 0);
    assert "" + name + "" == name;
    TrimPadded("", name, "");
    LowerAlready(name);
  }

  lemma ValuedIsPlain(name: string, n: nat)
    requires Solid(name) && forall k | 0 <= k < |name| :: name[k] != ','
    ensures Plain(name + "=" + Decimal(n))
  {
    hide Decimal;
    var t := name + "=" + Decimal(n);
    DecimalDigits(n);
    forall k | 0 <= k < |t| ensures t[k] != ',' {
      if k > |name| { assert t[k] == Decimal(n)[k - |name| - 1]; }
    }
    assert t[0] == name[0] && t[|t| - 1] == Decimal(n)[|Decimal(n)| - 1];
  }

  /** A directive name outside the table. */
  ghost predicate Valued(name: string) {
    && Solid(name) && (forall k | 0 <= k < |name| :: name[k] != '=' && name[k] != ',' && !('A' <= name[k] <= 'Z'))
    && FlagNamed(name) == None
  }

  lemma ValuedMaxAge() ensures Valued("max-age") {}

  lemma ValuedSMaxage() ensures Valued("s-maxage") {}

  lemma ValuedSwr() ensures Valued("stale-while-revalidate") {}

  lemma ValuedStaleIfError() ensures Valued("stale-if-error") {}

  lemma ValuedFaithful(name: string, n: nat, w: Want)
    requires Valued(name) && n <= MAX32 && w.text == name + "=" + Decimal(n)
    requires w.effect == if name == "max-age" then MaxAge(n) else if name == "s-maxage" then SMaxage(n) else Nothing
    ensures Faithful(w)
  {
    hide Seconds, Decimal, Lower, Trim, Find, FlagNamed, Plain;
    ValuedParts(name, n);
    SecondsOfDecimal(n);
  }

  lemma RestrictionsFaithful(i: Input)
    ensures Faithful(WantPublic(i)) && Faithful(WantNoStore(i)) && Faithful(WantPrivate(i)) && Faithful(WantNoCache(i))
  {
    hide Faithful, Blanket, Bare;
    BarePublic();
    BareNoStore();
    BarePrivate();
    BareNoCache();
    BareFaithful("public", Public, WantPublic(i));
    BareFaithful("no-store", NoStore, WantNoStore(i));
    BareFaithful("private", Private, WantPrivate(i));
    BareFaithful("no-cache", NoCache, WantNoCache(i));
  }

  lemma RevalidationsFaithful(i: Input)
    ensures Faithful(WantMustRevalidate(i)) && Faithful(WantProxyRevalidate(i)) && Faithful(WantNoTransform(i))
  {
    hide Faithful, Bare;
    BareMustRevalidate();
    BareProxyRevalidate();
    BareNoTransform();
    BareFaithful("must-revalidate", MustRevalidate, WantMustRevalidate(i));
    BareFaithful("proxy-revalidate", ProxyRevalidate, WantProxyRevalidate(i));
    BareFaithful("no-transform", NoTransform, WantNoTransform(i));
  }

  lemma WantFaithful(i: Input, k: nat)
    requires IsInput(i) && k < 11
    ensures Faithful(Wants(i)[k])
  {
    hide *;
    WantsAre(i);
    RestrictionsFaithful(i);
    RevalidationsFaithful(i);
    LifetimesFaithful(i);
  }

  lemma LifetimesFaithful(i: Input)
    requires IsInput(i)
    ensures Faithful(WantSMaxage(i)) && Faithful(WantMaxAge(i)) && Faithful(WantSwr(i)) && Faithful(WantStaleIfError(i))
  {
    hide Faithful, Valued, Decimal;
    ValuedMaxAge();
    ValuedSMaxage();
    ValuedFaithful("s-maxage", i.effectiveMaxAge, WantSMaxage(i));
    ValuedFaithful("max-age", if SMaxagePresent in i.flags then i.originMaxAge else i.effectiveMaxAge, WantMaxAge(i));
    StaleFaithful(i);
  }

  lemma StaleFaithful(i: Input)
    requires IsInput(i)
    ensures Faithful(WantSwr(i)) && Faithful(WantStaleIfError(i))
  {
    hide Faithful, Valued, Decimal;
    ValuedSwr();
    ValuedStaleIfError();
    var swr := if i.effectiveMaxAge < STALE_WINDOW then i.effectiveMaxAge else STALE_WINDOW;
    ValuedFaithful("stale-while-revalidate", swr, WantSwr(i));
    assert Decimal(86400) == "86400" by { Decimal86400(); }
    ValuedFaithful("stale-if-error", 86400, WantStaleIfError(i));
  }

  lemma Decimal86400()
    ensures Decimal(86400) == "86400"
  {
    assert Decimal(8) == "8";
    assert Decimal(86) == "86";
    assert Decimal(864) == "864";
    assert Decimal(8640) == "8640";
  }

  // ---- reading it back --------------------------------------------------------------------------

  function DoAll(ws: seq<Want>, o: Origin): Origin
    decreases |ws|
  {
    if ws == [] then o else DoAll(ws[1..], Do(ws[0].effect, o))
  }

  lemma {:induction false} FoldIsDoAll(ws: seq<Want>, o: Origin)
    requires forall w | w in ws :: Faithful(w)
    ensures Fold(Texts(ws), o) == DoAll(ws, o)
    ensures forall t | t in Texts(ws) :: Plain(t)
    decreases |ws|
  {
    hide Do, Apply, Plain;
    if ws != [] {
      assert ws[0] in ws && Faithful(ws[0]);
      assert Apply(ws[0].text, o) == Do(ws[0].effect, o);
      assert ([ws[0].text] + Texts(ws[1..]))[1..] == Texts(ws[1..]);
      FoldIsDoAll(ws[1..], Do(ws[0].effect, o));
    }
  }

  lemma {:induction false} KeptMembers(ws: seq<Want>, capacity: nat)
    ensures forall w | w in Kept(ws, capacity) :: w in ws && w.on
    decreases |ws|
  {
    hide Line, Fits;
    if ws != [] { KeptMembers(ws[..|ws| - 1], capacity); }
  }

  /** At any capacity, the line parses to exactly the directives that were written. */
  lemma ReadsBack(i: Input, capacity: nat, o: Origin)
    requires IsInput(i)
    ensures Accumulated(Line(Kept(Wants(i), capacity)), o)
         == DoAll(Kept(Wants(i), capacity), o.(flags := o.flags + {HeaderPresent}))
  {
    hide Kept, Wants, Faithful, Fold, DoAll, ApplyAll;
    var ws, kept := Wants(i), Kept(Wants(i), capacity);
    KeptMembers(ws, capacity);
    forall w | w in kept ensures Faithful(w) {
      var k: nat :| k < |ws| && ws[k] == w;
      WantFaithful(i, k);
    }
    var start := o.(flags := o.flags + {HeaderPresent});
    FoldIsDoAll(kept, start);
    ListParses(Texts(kept), "", start);
    assert "" + Line(kept) == Line(kept);
  }

  // ---- the whole line at the size callers use ----------------------------------------------------

  lemma {:induction false} DoAllAppend(ws: seq<Want>, w: Want, o: Origin)
    ensures DoAll(ws + [w], o) == Do(w.effect, DoAll(ws, o))
    decreases |ws|
  {
    hide Do;
    if ws == [] {
      assert ws + [w] == [w];
    } else {
      assert (ws + [w])[1..] == ws[1..] + [w];
      DoAllAppend(ws[1..], w, Do(ws[0].effect, o));
    }
  }

  /** The state after the first `k` directives of the list. */
  function StateAt(ws: seq<Want>, k: nat, o: Origin): Origin
    requires k <= |ws|
  {
    DoAll(Chosen(ws[..k]), o)
  }

  lemma StateNext(ws: seq<Want>, k: nat, o: Origin)
    requires k < |ws|
    ensures StateAt(ws, k + 1, o) == if ws[k].on then Do(ws[k].effect, StateAt(ws, k, o)) else StateAt(ws, k, o)
  {
    hide Do, DoAll;
    var front := ws[..k + 1];
    assert front[..k] == ws[..k] && front[k] == ws[k];
    if ws[k].on {
      DoAllAppend(Chosen(ws[..k]), ws[k], o);
    } else {
      assert Chosen(ws[..k]) + [] == Chosen(ws[..k]);
    }
  }

  lemma StateNone(ws: seq<Want>, o: Origin)
    ensures StateAt(ws, 0, o) == o
  {}

  function If(on: bool, fs: set<Flag>): set<Flag> {
    if on then fs else {}
  }

  lemma FrontFlags(i: Input, o: Origin)
    ensures StateAt(Wants(i), 3, o) == o.(flags := o.flags
              + If(WantPublic(i).on, {Public}) + If(WantNoStore(i).on, {NoStore})
              + If(WantPrivate(i).on, {Private, PrivateBare}))
  {
    hide StateAt, Wants, Decimal, Blanket;
    var ws := Wants(i);
    WantsAre(i);
    StateNone(ws, o);
    StateNext(ws, 0, o);
    StateNext(ws, 1, o);
    StateNext(ws, 2, o);
  }

  lemma FirstFlags(i: Input, o: Origin)
    ensures StateAt(Wants(i), 7, o) == o.(flags := o.flags
              + If(WantPublic(i).on, {Public}) + If(WantNoStore(i).on, {NoStore})
              + If(WantPrivate(i).on, {Private, PrivateBare})
              + If(WantNoCache(i).on, {NoCache, NoCacheBare}) + If(WantMustRevalidate(i).on, {MustRevalidate})
              + If(WantProxyRevalidate(i).on, {ProxyRevalidate}) + If(WantNoTransform(i).on, {NoTransform}))
  {
    hide StateAt, Wants, Decimal, Blanket;
    var ws := Wants(i);
    WantsAre(i);
    FrontFlags(i, o);
    StateNext(ws, 3, o);
    StateNext(ws, 4, o);
    StateNext(ws, 5, o);
    StateNext(ws, 6, o);
  }

  lemma LastFlags(i: Input, o: Origin)
    ensures var s := StateAt(Wants(i), 7, o);
            StateAt(Wants(i), 11, o) == Origin(
              s.flags + If(SMaxagePresent in i.flags, {SMaxagePresent}),
              if WantMaxAge(i).on then WantMaxAge(i).effect.age else s.maxAge,
              if SMaxagePresent in i.flags then i.effectiveMaxAge else s.sMaxage)
  {
    hide StateAt, Wants, Decimal;
    var ws := Wants(i);
    WantsAre(i);
    StateNext(ws, 7, o);
    StateNext(ws, 8, o);
    StateNext(ws, 9, o);
    StateNext(ws, 10, o);
  }

  /** The directives of the line, by the rules for each. */
  function Expected(i: Input): Origin {
    var suppressed := i.forward && NoStore in i.flags;
    var split := SMaxagePresent in i.flags;
    Origin({HeaderPresent}
             + If(i.mode == Aggressive && Public in i.flags && Private !in i.flags && NoStore !in i.flags, {Public})
             + If(i.forward && NoStore in i.flags, {NoStore})
             + If(i.forward && Private in i.flags && (PrivateBare in i.flags || PrivateQualified !in i.flags),
                  {Private, PrivateBare})
             + If((i.relayNoCache || i.forward) && NoCache in i.flags
                  && (NoCacheBare in i.flags || NoCacheQualified !in i.flags), {NoCache, NoCacheBare})
             + If((i.mode == Safe && !i.forward) || MustRevalidate in i.flags, {MustRevalidate})
             + If(ProxyRevalidate in i.flags, {ProxyRevalidate}) + If(NoTransform in i.flags, {NoTransform})
             + If(split, {SMaxagePresent}),
           if suppressed || (split && i.originMaxAge == 0 && HeaderPresent !in i.flags) then 0 else FinalMaxAge(i, 256),
           if split then i.effectiveMaxAge else 0)
  }

  /**
   In 256 characters the line states every directive that applies, and a parser
   reads exactly those back, the lifetime as the one the age is measured against.
   */
  lemma ReadsBackAt256(i: Input)
    requires IsInput(i)
    ensures Accumulated(Line(Kept(Wants(i), 256)), Origin({}, 0, 0)) == Expected(i)
  {
    hide Accumulated, Line, Kept, StateAt, Wants, Decimal, Chosen, DoAll, If, RevalidationRequired;
    var o := Origin({HeaderPresent}, 0, 0);
    ReadsBack(i, 256, Origin({}, 0, 0));
    AllFitIn256(i);
    StateWhole(i, o);
    FirstFlags(i, o);
    LastFlags(i, o);
    assert Origin({}, 0, 0).(flags := Origin({}, 0, 0).flags + {HeaderPresent}) == o;
    if WantMaxAge(i).on { MaxAgeFits(i); }
  }

  lemma StateWhole(i: Input, o: Origin)
    ensures StateAt(Wants(i), 11, o) == DoAll(Chosen(Wants(i)), o)
  {
    assert Wants(i)[..11] == Wants(i);
  }

  lemma MaxAgeFits(i: Input)
    requires IsInput(i) && WantMaxAge(i).on
    ensures MaxAgeKept(i, 256)
  {
    hide Kept, Line, Wants, Sized, Budget;
    var ws := Wants(i);
    BudgetOfWants(i);
    AllSized(i);
    Rooms(i);
    BudgetNext(ws, 8);
    BudgetNext(ws, 9);
    BudgetNext(ws, 10);
    assert ws[..11] == ws;
    forall w | w in ws[..8] ensures Sized(w) { assert w in ws; }
    WithinBudget(ws[..8], 256);
  }

  // ---- permission to serve stale -----------------------------------------------------------------

  const STALE := "stale-"

  lemma Lacks(s: string, part: string, k: nat)
    requires k < |part| && part[k] !in s
    ensures !Contains(s, part)
  {
    forall i: nat | i <= |s| ensures !OccursAt(s, part, i) {
      assert i + |part| <= |s| ==> s[i..i + |part|][k] == s[i + k] && s[i + k] in s;
    }
  }

  lemma LacksBeforeNumber(name: string, n: nat, part: string, k: nat)
    requires k < |part| && part[k] !in name && !IsDigit(part[k])
    ensures !Contains(name + Decimal(n), part)
  {
    var s := name + Decimal(n);
    DecimalDigits(n);
    forall i | 0 <= i < |s| ensures s[i] != part[k] {
      if i < |name| { assert s[i] in name; } else { assert s[i] == Decimal(n)[i - |name|]; }
    }
    Lacks(s, part, k);
  }

  lemma MustRevalidateIsNotStale()
    ensures !Contains("must-revalidate", STALE)
  {
    var s := "must-revalidate";
    forall i: nat | i <= |s| ensures !OccursAt(s, STALE, i) {
      assert i + 6 <= |s| ==> s[i..i + 6][0] == s[i] && s[i..i + 6][2] == s[i + 2];
    }
  }

  lemma WordsAreNotStale(text: string)
    requires text in {"public", "no-store", "private", "no-cache", "proxy-revalidate", "no-transform"}
    ensures !Contains(text, STALE)
  {
    hide Contains;
    if text == "no-store" {
      Lacks(text, STALE, 2);
    } else if text == "no-transform" {
      Lacks(text, STALE, 3);
    } else {
      assert 's' !in text;
      Lacks(text, STALE, 0);
    }
  }

  /** None of the other directives mentions staleness. */
  lemma NotStale(i: Input, k: nat)
    requires k < 9
    ensures !Contains(Wants(i)[k].text, STALE)
  {
    hide Contains, Decimal, Wants;
    WantsAre(i);
    if k == 4 {
      MustRevalidateIsNotStale();
    } else if k == 7 {
      LacksBeforeNumber("s-maxage=", i.effectiveMaxAge, STALE, 1);
    } else if k == 8 {
      LacksBeforeNumber("max-age=", WantMaxAge(i).effect.age, STALE, 0);
    } else {
      WordsAreNotStale(Wants(i)[k].text);
    }
  }

  /** A part without comma or space stands in a list only where it stands in an element. */
  lemma {:induction false} InElement(texts: seq<string>, part: string)
    requires part != "" && ',' !in part && ' ' !in part && forall t | t in texts :: !Contains(t, part)
    ensures !Contains(CommaJoined(texts), part)
    decreases |texts|
  {
    if |texts| > 1 {
      var t, rest := texts[0], CommaJoined(texts[1..]);
      InElement(texts[1..], part);
      assert t in texts;
      var s := t + ", " + rest;
      forall i: nat | i <= |s| ensures !OccursAt(s, part, i) {
        if OccursAt(s, part, i) { Straddles(t, rest, part, i); }
      }
    } else if texts != [] {
      assert texts[0] in texts;
    }
  }

  lemma Straddles(t: string, rest: string, part: string, i: nat)
    requires part != "" && ',' !in part && ' ' !in part && OccursAt(t + ", " + rest, part, i)
    ensures Contains(t, part) || Contains(rest, part)
  {
    var s, n := t + ", " + rest, |part|;
    assert forall j | i <= j < i + n :: s[j] == part[j - i] && s[j] in part;
    assert s[|t|] == ',' && s[|t| + 1] == ' ';
    if i + n <= |t| {
      assert s[i..i + n] == t[i..i + n];
      assert OccursAt(t, part, i);
    } else if i >= |t| + 2 {
      var j := i - |t| - 2;
      assert s[i..i + n] == rest[j..j + n];
      assert OccursAt(rest, part, j);
    }
  }

  lemma {:induction false} TextOfWant(ws: seq<Want>, t: string)
    requires t in Texts(ws)
    ensures exists w :: w in ws && w.text == t
  {
    if t == ws[0].text {
      assert ws[0] in ws;
    } else {
      TextOfWant(ws[1..], t);
    }
  }

  /** A directive that applies is left out exactly when it, its separator and a NUL do not fit behind the others. */
  lemma LeftOutIff(i: Input, k: nat, capacity: nat)
    requires k < 11
    ensures var before, w := Kept(Wants(i)[..k], capacity), Wants(i)[k];
            var separator := if before == [] then 0 else 2;
            Kept(Wants(i)[..k + 1], capacity)
            == before + if w.on && |Line(before)| + separator + w.room < capacity then [w] else []
  {
    hide Wants, Line, Texts, CommaJoined;
    var ws := Wants(i);
    var before := Kept(ws[..k], capacity);
    assert ws[..k + 1][..k] == ws[..k];
    KeptMembers(ws[..k], capacity);
    if before == [] {
      assert |Line(before)| == 0 by { EmptyLine(); }
    } else {
      assert before[0] in before;
      assert |Line(before)| > 0 by { SomeLine(i, before); }
    }
  }

  lemma EmptyLine()
    ensures Line([]) == ""
  {}

  lemma SomeLine(i: Input, ws: seq<Want>)
    requires ws != [] && forall w :: w in ws ==> w in Wants(i)
    ensures Line(ws) != ""
  {
    hide Wants, Decimal;
    assert ws[0] in ws;
    WantsHaveText(i);
  }

  lemma WantsHaveText(i: Input)
    ensures forall w :: w in Wants(i) ==> w.text != ""
  {
    hide Decimal, Blanket;
  }

  predicate MayServeStale(i: Input) {
    && i.mode == Aggressive && !i.forward && NoCache !in i.flags && MustRevalidate !in i.flags
    && (i.shared ==> ProxyRevalidate !in i.flags && SMaxagePresent !in i.flags)
  }

  /** At any capacity, the line gives no permission to serve stale under revalidation, forwarding, or in safe mode. */
  lemma NoStalePermission(i: Input, capacity: nat)
    requires !MayServeStale(i)
    ensures !Contains(Line(Kept(Wants(i), capacity)), STALE)
  {
    hide Kept, Wants, Contains;
    var kept := Kept(Wants(i), capacity);
    KeptMembers(Wants(i), capacity);
    forall t | t in Texts(kept) ensures !Contains(t, STALE) {
      TextOfWant(kept, t);
      var w :| w in kept && w.text == t;
      var k: nat :| k < 11 && Wants(i)[k] == w;
      StaleWants(i);
      NotStale(i, if k < 9 then k else 0);
    }
    InElement(Texts(kept), STALE);
  }

  lemma StaleWants(i: Input)
    ensures !MayServeStale(i) ==> !Wants(i)[9].on && !Wants(i)[10].on
    ensures MayServeStale(i) ==>
              && Wants(i)[10].on && Wants(i)[10].text == "stale-if-error=86400"
              && Wants(i)[9].on == (i.synthesizeSwr && i.effectiveMaxAge > 0)
    ensures Wants(i)[9].text == "stale-while-revalidate=" + Decimal(Window(i))
  {
    hide Decimal, Blanket;
  }

  /** The time a stale response may be used: its lifetime, and no more than a day. */
  function Window(i: Input): nat {
    if i.effectiveMaxAge < 86400 then i.effectiveMaxAge else 86400
  }

  predicate Ends(line: string, x: string) {
    |x| <= |line| && line[|line| - |x|..] == x
  }

  /** The permission, where it is given, ends the line. */
  lemma StaleEnding(i: Input)
    requires IsInput(i) && MayServeStale(i)
    ensures Ends(Line(Kept(Wants(i), 256)),
                 (if i.synthesizeSwr && i.effectiveMaxAge > 0
                  then "stale-while-revalidate=" + Decimal(Window(i)) + ", " else "")
                 + "stale-if-error=86400")
  {
    hide Kept, Wants, MayServeStale, IsInput, Line, Decimal, Chosen, Ends;
    AllFitIn256(i);
    StaleWants(i);
    var ws := Wants(i);
    ChosenLast(ws);
    var front, swr, last := Chosen(ws[..9]), ws[9], ws[10];
    if swr.on {
      LineAppend(front, swr);
      LineAppend(front + [swr], last);
      EndsBoth(Line(front + [swr]), swr.text, last.text);
      EndsAppended(Line(front), front == [], swr.text);
    } else {
      assert front + [] == front;
      LineAppend(front, last);
      EndsAppended(Line(front), front == [], last.text);
      assert "" + "stale-if-error=86400" == "stale-if-error=86400";
    }
  }

  lemma ChosenLast(ws: seq<Want>)
    requires |ws| == 11 && ws[10].on
    ensures Chosen(ws) == Chosen(ws[..9]) + (if ws[9].on then [ws[9]] else []) + [ws[10]]
  {
    assert ws[..10][..9] == ws[..9];
    assert Chosen(ws[..10]) == Chosen(ws[..9]) + if ws[9].on then [ws[9]] else [];
  }

  lemma EndsAppended(line: string, alone: bool, x: string)
    ensures Ends(if alone then x else line + ", " + x, x)
  {
    assert (line + ", " + x)[|line| + 2..] == x;
  }

  lemma EndsBoth(line: string, x: string, y: string)
    ensures Ends(line, x) ==> Ends(line + ", " + y, x + ", " + y)
  {
    if Ends(line, x) {
      var n := |line| - |x|;
      assert line == line[..n] + x;
      assert line + ", " + y == line[..n] + (x + ", " + y);
    }
  }

  /** In 256 characters the line gives that permission exactly where the rules allow it. */
  lemma StalePermissionIff(i: Input)
    requires IsInput(i)
    ensures Contains(Line(Kept(Wants(i), 256)), STALE) <==> MayServeStale(i)
  {
    hide Kept, Wants, Contains, MayServeStale, IsInput, Line, Decimal;
    if MayServeStale(i) {
      StaleEnding(i);
      StaleIsSaid(Line(Kept(Wants(i), 256)));
    } else {
      NoStalePermission(i, 256);
    }
  }

  lemma StaleIsSaid(line: string)
    requires Ends(line, "stale-if-error=86400")
    ensures Contains(line, STALE)
  {
    var at := |line| - 20;
    assert line[at..at + 6] == line[at..][..6] == STALE;
    assert OccursAt(line, STALE, at);
  }
}
