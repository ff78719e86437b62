/** Purges of storages that answer in one particular way throughout, with the exact outcome of each. */
module PurgeCases {
  import opened Options
  import opened AlternateChain
  import opened Purge

  /** Nothing is preserved. */
  predicate Nothing(id: nat) { false }

  /** A clock that ticks with every listing. */
  datatype Tick = Tick(n: nat)

  // ---- the first listing fails ----------------------------------------------------------------------

  /** A key that is not there has nothing to remove; any other error is the purge's own. */
  lemma FirstListingFails<S>(st: Storage<S>, s: S, e: CacheError, preserved: nat -> bool)
    requires st.list(s).0 == Unreadable(e)
    ensures var p := PurgeSpec(st, s, preserved);
            && p.result == (if e.NotFound? then Ok(0) else Err(e))
            && p.passes == [Enumerate(Unreadable(e))] && p.drop == []
  {
    var p := Passes(st, s, 0, None, preserved);
    assert TallyOf([]) == Tally(0, false, false);
    assert TallyOf([Enumerate(Unreadable(e))]) == Tally(0, false, false);
  }

  // ---- one entry, never gone ------------------------------------------------------------------------

  /** A chain of one entry that removals answer with `reply` and never shorten; the state counts listings. */
  function Stuck(reply: Option<CacheError>, dropped: Option<CacheError>): Storage<Tick> {
    Storage((s: Tick) => (Listed([Entry(1, 7)]), Tick(s.n + 1)),
            (s: Tick, id: nat) => (reply, s),
            (s: Tick) => (dropped, s))
  }

  lemma StuckSweep(reply: Option<CacheError>, dropped: Option<CacheError>, s: Tick)
    ensures Sweep(Stuck(reply, dropped), s, [Entry(1, 7)], Nothing) == Trail(s, [Remove(1, reply)])
    ensures TallyOf([Remove(1, reply)])
            == Tally(if reply.None? then 1 else 0, reply == Some(ChainCorrupted),
                     reply.Some? && reply != Some(ChainCorrupted) && reply != Some(AlternateNotFound))
  {
    assert [Entry(1, 7)][1..] == [];
    assert Sweep(Stuck(reply, dropped), s, [], Nothing) == Trail(s, []);
    TallyOne(Remove(1, reply));
  }

  lemma StuckConfirm(reply: Option<CacheError>, dropped: Option<CacheError>, s: Tick)
    ensures Confirm(Stuck(reply, dropped), s, 0, Nothing)
            == Confirmed(Tick(s.n + 1), [Enumerate(Listed([Entry(1, 7)]))], true)
  {
    assert [Entry(1, 7)][0].id == 1;
    assert ShowsSurvivor([Entry(1, 7)], Nothing);
  }

  lemma StuckAgain(reply: Option<CacheError>, dropped: Option<CacheError>, s: Tick)
    ensures Passes(Stuck(reply, dropped), s, 1, Some(Shape(1, 7)), Nothing)
            == Passed(Tick(s.n + 1), [Enumerate(Listed([Entry(1, 7)]))], Unwalkable)
  {
    assert ShapeOf([Entry(1, 7)]) == Shape(1, 7);
  }

  lemma StuckJudged(reply: Option<CacheError>)
    ensures Judged([Remove(1, reply)])
            == if reply == Some(ChainCorrupted) then Some(Unwalkable)
               else if reply.None? || reply == Some(AlternateNotFound) then None else Some(Finished)
  {
    TallyOne(Remove(1, reply));
  }

  lemma StuckListing(reply: Option<CacheError>, dropped: Option<CacheError>, s: Tick)
    ensures Stuck(reply, dropped).list(s) == (Listed([Entry(1, 7)]), Tick(s.n + 1))
    ensures ShapeOf([Entry(1, 7)]) == Shape(1, 7)
  {}

  lemma StuckPass(reply: Option<CacheError>, dropped: Option<CacheError>, s: Tick)
    ensures var p := Passes(Stuck(reply, dropped), s, 0, None, Nothing);
            var listed := Enumerate(Listed([Entry(1, 7)]));
            if reply == Some(ChainCorrupted) then p == Passed(Tick(s.n + 1), [listed, Remove(1, reply)], Unwalkable)
            else if reply.None? || reply == Some(AlternateNotFound) then
              p == Passed(Tick(s.n + 2), [listed, Remove(1, reply), listed], Unwalkable)
            else p == Passed(Tick(s.n + 1), [listed, Remove(1, reply)], Finished)
  {
    hide Sweep, TallyOf, Judged, Passes, ShapeOf, Stuck;
    var st := Stuck(reply, dropped);
    var listed, removal, entries := Enumerate(Listed([Entry(1, 7)])), Remove(1, reply), [Entry(1, 7)];
    StuckListing(reply, dropped, s);
    PassesNow(st, s, 0, None, Nothing);
    StuckSweep(reply, dropped, Tick(s.n + 1));
    StuckJudged(reply);
    StuckAgain(reply, dropped, Tick(s.n + 1));
    assert [listed] + [removal] == [listed, removal] && [listed] + [removal] + [listed] == [listed, removal, listed];
  }

  /**
   An entry that removals cannot take out is dropped with its key: at once when the
   chain is corrupted, after an unchanged second listing when removals claim success
   or find nothing.  After any other failure the purge ends, and nothing is dropped.
   */
  lemma StuckIsDroppedIff(reply: Option<CacheError>, dropped: Option<CacheError>)
    ensures var p := PurgeSpec(Stuck(reply, dropped), Tick(0), Nothing);
            var unlinked := if reply.None? then 1 else 0;
            if reply.None? || reply == Some(ChainCorrupted) || reply == Some(AlternateNotFound) then
              && p.drop == [Drop(dropped)]
              && p.result == if dropped.None? || dropped == Some(NotFound) then Ok(unlinked + 1) else Err(dropped.value)
            else p.drop == [] && p.result == Ok(0)
  {
    hide Passes, Confirm, Sweep;
    StuckPass(reply, dropped, Tick(0));
    StuckConfirm(reply, dropped, Tick(1));
    StuckConfirm(reply, dropped, Tick(2));
    var listed, removal := Enumerate(Listed([Entry(1, 7)])), Remove(1, reply);
    StuckTally(reply);
  }

  lemma StuckTally(reply: Option<CacheError>)
    ensures var listed, removal := Enumerate(Listed([Entry(1, 7)])), Remove(1, reply);
            && TallyOf([listed, removal]).removed == (if reply.None? then 1 else 0)
            && TallyOf([listed, removal, listed]).removed == (if reply.None? then 1 else 0)
  {
    var listed, removal := Enumerate(Listed([Entry(1, 7)])), Remove(1, reply);
    assert [listed, removal, listed][1..] == [removal, listed] && [removal, listed][1..] == [listed];
    assert [listed, removal][1..] == [removal] && [removal][1..] == [] && [listed][1..] == [];
    assert TallyOf([]) == Tally(0, false, false);
    assert TallyOf([listed]) == Tally(0, false, false);
    assert TallyOf([removal]).removed == if reply.None? then 1 else 0;
    assert TallyOf([removal, listed]).removed == if reply.None? then 1 else 0;
  }

  // ---- new entries all the time ----------------------------------------------------------------------

  /** Every listing shows one entry that was not there before. */
  function Refilled(): Storage<Tick> {
    Storage((s: Tick) => (Listed([Entry(1, s.n)]), Tick(s.n + 1)),
            (s: Tick, id: nat) => (None, s),
            (s: Tick) => (None, s))
  }

  lemma RefilledSweep(s: Tick, offset: nat)
    ensures Sweep(Refilled(), s, [Entry(1, offset)], Nothing) == Trail(s, [Remove(1, None)])
    ensures TallyOf([Remove(1, None)]) == Tally(1, false, false)
  {
    assert [Entry(1, offset)][1..] == [];
    assert Sweep(Refilled(), s, [], Nothing) == Trail(s, []);
    TallyOne(Remove(1, None));
  }

  lemma {:induction false} RefilledPasses(s: Tick, pass: nat, previous: Option<Shape>)
    requires pass <= 4 && (previous.Some? ==> previous.value.head < s.n)
    ensures var p := Passes(Refilled(), s, pass, previous, Nothing);
            && p.verdict == Finished && TallyOf(p.calls).removed == 4 - pass && Listings(p.calls) == 4 - pass
    decreases 4 - pass
  {
    hide Sweep, TallyOf, Listings;
    assert TallyOf([]).removed == 0 && Listings([]) == 0 by { NothingCounted(); }
    if pass < 4 {
      var listed := Enumerate(Listed([Entry(1, s.n)]));
      RefilledSweep(Tick(s.n + 1), s.n);
      RefilledPasses(Tick(s.n + 1), pass + 1, Some(Shape(1, s.n)));
      var rest := Passes(Refilled(), Tick(s.n + 1), pass + 1, Some(Shape(1, s.n)), Nothing);
      assert ShapeOf([Entry(1, s.n)]) == Shape(1, s.n);
      OneRound(listed, rest.calls);
    }
  }

  lemma NothingCounted()
    ensures TallyOf([]).removed == 0 && Listings([]) == 0
  {}

  lemma OneRound(listed: Call, rest: seq<Call>)
    requires listed.Enumerate?
    ensures var calls := [listed] + [Remove(1, None)] + rest;
            TallyOf(calls).removed == TallyOf(rest).removed + 1 && Listings(calls) == Listings(rest) + 1
  {
    var calls := [listed] + [Remove(1, None)] + rest;
    assert calls[1..] == [Remove(1, None)] + rest && calls[1..][1..] == rest;
  }

  /** A key that keeps filling up is left after four passes, with what four passes removed. */
  lemma FourPasses()
    ensures var p := PurgeSpec(Refilled(), Tick(0), Nothing);
            Listings(p.passes) == 4 && p.result == Ok(4) && p.drop == []
  {
    hide Passes, TallyOf, Listings;
    RefilledPasses(Tick(0), 0, None);
  }

  // ---- confirmation ------------------------------------------------------------------------------------

  /** Three unreadable listings end the search for a survivor without one. */
  lemma ThreeAttempts<S>(st: Storage<S>, s: S, e: CacheError, preserved: nat -> bool)
    requires !e.NotFound? && forall s: S :: st.list(s).0 == Unreadable(e)
    ensures var c := Confirm(st, s, 0, preserved);
            !c.survivor && c.calls == [Enumerate(Unreadable(e)), Enumerate(Unreadable(e)), Enumerate(Unreadable(e))]
  {
    var s1 := st.list(s).1;
    var s2 := st.list(s1).1;
    var s3 := st.list(s2).1;
    var c := Enumerate(Unreadable(e));
    assert Confirm(st, s3, 3, preserved) == Confirmed(s3, [], false);
    assert Confirm(st, s2, 2, preserved) == Confirmed(s3, [c] + [], false);
    assert Confirm(st, s1, 1, preserved) == Confirmed(s3, [c] + ([c] + []), false);
    assert [c] + ([c] + ([c] + [])) == [c, c, c];
  }
}
