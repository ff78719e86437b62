/**
 The purge against a storage that removes what it is told to and lists truthfully,
 but lists no more than the first `cap` nodes of a chain: when the listing of a chain
 that did change looks the same, and the whole key is dropped with what was to stay.
 */
module PurgeCapped {
  import opened Options
  import opened AlternateChain
  import opened Purge

  function Window(chain: seq<Entry>, cap: nat): seq<Entry> {
    if |chain| <= cap then chain else chain[..cap]
  }

  function Beyond(chain: seq<Entry>, cap: nat): seq<Entry> {
    if |chain| <= cap then [] else chain[cap..]
  }

  function Capped(cap: nat): Storage<seq<Entry>> {
    Storage(
      (chain: seq<Entry>) => (Listed(Window(chain, cap)), chain),
      (chain: seq<Entry>, id: nat) => if Holds(chain, id) then (None, Without(chain, id))
                                      else (Some(AlternateNotFound), chain),
      (chain: seq<Entry>) => (None, []))
  }

  /** The chain after a pass: what is listed and not preserved is gone. */
  function Round(chain: seq<Entry>, cap: nat, preserved: nat -> bool): seq<Entry> {
    Kept(Window(chain, cap), preserved) + Beyond(chain, cap)
  }

  ghost predicate DistinctOffsets(chain: seq<Entry>) {
    forall i, j | 0 <= i < j < |chain| :: chain[i].offset != chain[j].offset
  }

  /**
   The chain leads with a preserved node in one of the next `rounds` listings, and
   that listing and the one after it are full and both show something to remove.
   */
  predicate Misread(chain: seq<Entry>, cap: nat, preserved: nat -> bool, rounds: nat)
    decreases rounds
  {
    && rounds > 0 && chain != [] && ShowsSurvivor(Window(chain, cap), preserved)
    && var next := Round(chain, cap, preserved);
       if preserved(chain[0].id) then |next| >= cap && ShowsSurvivor(Window(next, cap), preserved)
       else Misread(next, cap, preserved, rounds - 1)
  }

  // ---- one pass -----------------------------------------------------------------------------

  lemma SweepStep(cap: nat, kept: seq<Entry>, rest: seq<Entry>, tail: seq<Entry>, preserved: nat -> bool)
    requires rest != [] && forall e | e in kept :: preserved(e.id)
    ensures var st := Capped(cap);
            Sweep(st, kept + rest + tail, rest, preserved)
            == if preserved(rest[0].id) then Sweep(st, kept + rest + tail, rest[1..], preserved)
               else
                 var after := Sweep(st, kept + rest[1..] + tail, rest[1..], preserved);
                 Trail(after.state, [Remove(rest[0].id, None)] + after.calls)
  {
    hide Without, Holds;
    if !preserved(rest[0].id) {
      var more := rest + tail;
      assert kept + rest + tail == kept + more && more[1..] == rest[1..] + tail;
      WithoutSkips(kept, more, preserved);
      assert kept + more[1..] == kept + rest[1..] + tail;
    }
  }

  lemma {:induction false} CappedSweep(
    cap: nat, kept: seq<Entry>, rest: seq<Entry>, tail: seq<Entry>, preserved: nat -> bool)
    requires forall e | e in kept :: preserved(e.id)
    ensures SweptClean(Sweep(Capped(cap), kept + rest + tail, rest, preserved),
                       kept + Kept(rest, preserved) + tail, |rest| - |Kept(rest, preserved)|)
    decreases |rest|
  {
    hide TallyOf, Sweep, Capped, Kept;
    KeptNext(rest, preserved);
    if rest == [] {
      SweepNothing(Capped(cap), kept + tail, preserved);
      TallyEmpty();
      assert kept + [] + tail == kept + tail;
    } else {
      var first, more := rest[0], rest[1..];
      SweepStep(cap, kept, rest, tail, preserved);
      if preserved(first.id) {
        CappedSweep(cap, kept + [first], more, tail, preserved);
        assert (kept + [first]) + more + tail == kept + rest + tail;
        assert (kept + [first]) + Kept(more, preserved) + tail == kept + Kept(rest, preserved) + tail;
      } else {
        CappedSweep(cap, kept, more, tail, preserved);
        RemovalCounts(first.id, Sweep(Capped(cap), kept + more + tail, more, preserved).calls);
      }
    }
  }

  /** A pass over a capped listing. */
  lemma SweptWindow(cap: nat, chain: seq<Entry>, preserved: nat -> bool)
    ensures var w := Window(chain, cap);
            SweptClean(Sweep(Capped(cap), chain, w, preserved), Round(chain, cap, preserved),
                       |w| - |Kept(w, preserved)|)
  {
    hide TallyOf, Sweep, Capped, Kept;
    var w, tail := Window(chain, cap), Beyond(chain, cap);
    assert [] + w + tail == chain && [] + Kept(w, preserved) + tail == Round(chain, cap, preserved);
    CappedSweep(cap, [], w, tail, preserved);
  }

  lemma {:induction false} KeptIffNoSurvivor(entries: seq<Entry>, preserved: nat -> bool)
    ensures ShowsSurvivor(entries, preserved) <==> |Kept(entries, preserved)| < |entries|
    ensures !ShowsSurvivor(entries, preserved) ==> Kept(entries, preserved) == entries
  {
    if entries != [] {
      var rest := entries[1..];
      KeptIffNoSurvivor(rest, preserved);
      if ShowsSurvivor(rest, preserved) {
        var i :| 0 <= i < |rest| && !preserved(rest[i].id);
        assert entries[i + 1] == rest[i];
      }
    }
  }

  lemma Listing(cap: nat, chain: seq<Entry>)
    ensures Capped(cap).list(chain) == (Listed(Window(chain, cap)), chain)
  {}

  // ---- when a changed chain looks unchanged ----------------------------------------------------

  lemma {:induction false} KeptOffsets(chain: seq<Entry>, preserved: nat -> bool)
    ensures forall e | e in Kept(chain, preserved) :: e in chain
    decreases |chain|
  {
    if chain != [] {
      KeptOffsets(chain[1..], preserved);
      assert chain == [chain[0]] + chain[1..];
    }
  }

  lemma {:induction false} KeptDistinct(chain: seq<Entry>, preserved: nat -> bool)
    requires DistinctOffsets(chain)
    ensures DistinctOffsets(Kept(chain, preserved))
    decreases |chain|
  {
    if chain != [] {
      var rest := chain[1..];
      KeptDistinct(rest, preserved);
      KeptOffsets(rest, preserved);
      var more := Kept(rest, preserved);
      forall e | e in more ensures e.offset != chain[0].offset {
        var i :| 0 <= i < |rest| && rest[i] == e;
        assert chain[i + 1] == e;
      }
    }
  }

  lemma RoundDistinct(chain: seq<Entry>, cap: nat, preserved: nat -> bool)
    requires DistinctOffsets(chain)
    ensures DistinctOffsets(Round(chain, cap, preserved))
    ensures forall e | e in Round(chain, cap, preserved) :: e in chain
  {
    hide Kept;
    var w, tail, kept := Window(chain, cap), Beyond(chain, cap), Kept(Window(chain, cap), preserved);
    KeptDistinct(w, preserved);
    KeptOffsets(w, preserved);
    forall e, f | e in w && f in tail ensures e.offset != f.offset {
      var i :| 0 <= i < |w| && w[i] == e;
      var j :| 0 <= j < |tail| && tail[j] == f;
      assert chain[i] == e && chain[cap + j] == f;
    }
    var next := kept + tail;
    forall i, j | 0 <= i < j < |next| ensures next[i].offset != next[j].offset {
      if i < |kept| && j >= |kept| {
        assert next[i] in kept && next[i] in w && next[j] in tail;
      }
    }
  }

  /** A head that is not preserved is gone after the round, and no other node has its offset. */
  lemma HeadAfter(chain: seq<Entry>, cap: nat, preserved: nat -> bool)
    requires DistinctOffsets(chain) && chain != [] && cap > 0
    ensures var next := Round(chain, cap, preserved);
            if preserved(chain[0].id) then next != [] && next[0] == chain[0]
            else next == [] || next[0].offset != chain[0].offset
  {
    hide DistinctOffsets;
    var w := Window(chain, cap);
    assert w != [] && w[0] == chain[0];
    KeptNext(w, preserved);
    if !preserved(chain[0].id) {
      var next := Round(chain, cap, preserved);
      assert Kept(w, preserved) == Kept(w[1..], preserved);
      if next != [] {
        KeptOffsets(w[1..], preserved);
        NextIsLater(chain, cap, preserved);
      }
    }
  }

  lemma NextIsLater(chain: seq<Entry>, cap: nat, preserved: nat -> bool)
    requires DistinctOffsets(chain) && chain != [] && cap > 0 && !preserved(chain[0].id)
    requires Round(chain, cap, preserved) != []
    ensures Round(chain, cap, preserved)[0].offset != chain[0].offset
  {
    hide Kept;
    var w, tail := Window(chain, cap), Beyond(chain, cap);
    KeptNext(w, preserved);
    KeptOffsets(w[1..], preserved);
    var head := Round(chain, cap, preserved)[0];
    if head in w[1..] {
      var i :| 0 <= i < |w[1..]| && w[1..][i] == head;
      assert chain[i + 1] == head;
    } else {
      assert head == tail[0] && chain[cap] == head;
    }
  }

  /** After a round that removed something, the listing looks as before exactly if full and led by a preserved node. */
  lemma LooksTheSameIff(chain: seq<Entry>, cap: nat, preserved: nat -> bool)
    requires DistinctOffsets(chain) && chain != [] && cap > 0 && ShowsSurvivor(Window(chain, cap), preserved)
    ensures var next := Round(chain, cap, preserved);
            ShapeOf(Window(next, cap)) == ShapeOf(Window(chain, cap))
            <==> preserved(chain[0].id) && |next| >= cap
  {
    hide DistinctOffsets, Kept, ShowsSurvivor;
    var w, next := Window(chain, cap), Round(chain, cap, preserved);
    KeptIffNoSurvivor(w, preserved);
    HeadAfter(chain, cap, preserved);
    assert |next| < |chain|;
  }

  // ---- the whole purge ----------------------------------------------------------------------------

  /** The passes end in the belief that the chain cannot be walked, with something still to be seen on it. */
  ghost predicate EndsMisread(p: Passed<seq<Entry>>, cap: nat, preserved: nat -> bool) {
    p.verdict == Unwalkable && ShowsSurvivor(Window(p.state, cap), preserved)
  }

  ghost predicate SamePreserved(a: seq<Entry>, b: seq<Entry>, preserved: nat -> bool) {
    Kept(a, preserved) == Kept(b, preserved)
  }

  lemma {:induction false} KeptAppend(a: seq<Entry>, b: seq<Entry>, preserved: nat -> bool)
    ensures Kept(a + b, preserved) == Kept(a, preserved) + Kept(b, preserved)
    decreases |a|
  {
    hide Kept;
    KeptNext(a, preserved);
    KeptNext(a + b, preserved);
    if a == [] {
      assert a + b == b && [] + Kept(b, preserved) == Kept(b, preserved);
    } else {
      assert (a + b)[1..] == a[1..] + b && (a + b)[0] == a[0];
      KeptAppend(a[1..], b, preserved);
      var rest := Kept(a[1..], preserved) + Kept(b, preserved);
      assert [a[0]] + rest == ([a[0]] + Kept(a[1..], preserved)) + Kept(b, preserved);
    }
  }

  lemma RoundKeeps(chain: seq<Entry>, cap: nat, preserved: nat -> bool)
    ensures SamePreserved(Round(chain, cap, preserved), chain, preserved)
  {
    hide Kept;
    var w, tail := Window(chain, cap), Beyond(chain, cap);
    assert chain == w + tail;
    KeptAppend(w, tail, preserved);
    KeptAppend(Kept(w, preserved), tail, preserved);
    KeptIsPreserved(w, preserved);
    KeptAll(Kept(w, preserved), preserved);
  }

  lemma {:induction false} PassesMisread(
    chain: seq<Entry>, cap: nat, pass: nat, previous: Option<Shape>, preserved: nat -> bool)
    requires cap > 0 && DistinctOffsets(chain) && pass < MAX_PASSES
    requires previous != Some(ShapeOf(Window(chain, cap)))
    ensures var p := Passes(Capped(cap), chain, pass, previous, preserved);
            && !p.verdict.Refused? && SamePreserved(p.state, chain, preserved)
            && (EndsMisread(p, cap, preserved) <==> Misread(chain, cap, preserved, MAX_PASSES - 1 - pass))
    decreases MAX_PASSES - pass
  {
    hide Sweep, TallyOf, ShapeOf, Passes, Capped, Kept, DistinctOffsets, ShowsSurvivor;
    var st, w, next := Capped(cap), Window(chain, cap), Round(chain, cap, preserved);
    Listing(cap, chain);
    PassesNow(st, chain, pass, previous, preserved);
    SweptWindow(cap, chain, preserved);
    KeptIffNoSurvivor(w, preserved);
    RoundKeeps(chain, cap, preserved);
    if ShowsSurvivor(w, preserved) {
      SurvivorStands(w, preserved);
      var seen := Some(ShapeOf(w));
      var rest := Passes(st, next, pass + 1, seen, preserved);
      if pass + 1 == MAX_PASSES {
        PassesOver(st, next, seen, preserved);
      } else {
        RoundDistinct(chain, cap, preserved);
        LooksTheSameIff(chain, cap, preserved);
        if ShapeOf(Window(next, cap)) == ShapeOf(w) {
          Listing(cap, next);
          PassesNow(st, next, pass + 1, seen, preserved);
        } else {
          PassesMisread(next, cap, pass + 1, seen, preserved);
          if preserved(chain[0].id) { ShortIsSafe(chain, cap, preserved, MAX_PASSES - 2 - pass); }
        }
      }
    } else {
      NoneToRemove(chain, cap, preserved, MAX_PASSES - 1 - pass);
      assert next == chain by { assert w + Beyond(chain, cap) == chain; }
    }
  }

  lemma SurvivorStands(w: seq<Entry>, preserved: nat -> bool)
    requires ShowsSurvivor(w, preserved)
    ensures w != []
  {}

  lemma NoneToRemove(chain: seq<Entry>, cap: nat, preserved: nat -> bool, rounds: nat)
    requires !ShowsSurvivor(Window(chain, cap), preserved)
    ensures !Misread(chain, cap, preserved, rounds)
  {
    hide ShowsSurvivor;
  }

  /** A chain that fits its listing is not misread. */
  lemma ShortIsSafe(chain: seq<Entry>, cap: nat, preserved: nat -> bool, rounds: nat)
    requires cap > 0 && chain != [] && DistinctOffsets(chain) && preserved(chain[0].id)
    requires |Round(chain, cap, preserved)| < cap
    ensures !Misread(Round(chain, cap, preserved), cap, preserved, rounds)
  {
    hide ShowsSurvivor, DistinctOffsets, Kept;
    var next := Round(chain, cap, preserved);
    HeadAfter(chain, cap, preserved);
    assert |Round(next, cap, preserved)| <= |next|;
  }

  /**
   Exactly when the purge loses what it was told to preserve: it drops the key if
   and only if the chain is misread, and otherwise every preserved entry stays.
   */
  lemma CappedPurgeIff(chain: seq<Entry>, cap: nat, preserved: nat -> bool)
    requires cap > 0 && DistinctOffsets(chain)
    ensures var p := PurgeSpec(Capped(cap), chain, preserved);
            && (p.drop != [] <==> Misread(chain, cap, preserved, MAX_PASSES - 1))
            && (if p.drop != [] then p.state == [] else SamePreserved(p.state, chain, preserved))
  {
    hide Sweep, TallyOf, ShapeOf, Passes, Capped, Kept, DistinctOffsets, ShowsSurvivor, Misread;
    PassesMisread(chain, cap, 0, None, preserved);
    var p := Passes(Capped(cap), chain, 0, None, preserved);
    Listing(cap, p.state);
    Dropping(cap, p.state);
  }

  lemma Dropping(cap: nat, chain: seq<Entry>)
    ensures Capped(cap).drop(chain) == (None, [])
  {}

  /** A preserved node before two that are not, listed two at a time: all three are dropped. */
  lemma PreservedIsLost()
    ensures var chain := [Entry(1, 10), Entry(2, 20), Entry(3, 30)];
            var preserved := (id: nat) => id == 1;
            var p := PurgeSpec(Capped(2), chain, preserved);
            p.drop != [] && p.state == []
  {
    hide Passes, Capped;
    var chain := [Entry(1, 10), Entry(2, 20), Entry(3, 30)];
    var preserved := (id: nat) => id == 1;
    assert Window(chain, 2) == [chain[0], chain[1]] && Beyond(chain, 2) == [chain[2]];
    assert [chain[0], chain[1]][1..] == [chain[1]] && [chain[1]][1..] == [];
    assert Kept([chain[1]], preserved) == [];
    assert Kept(Window(chain, 2), preserved) == [chain[0]];
    var next := Round(chain, 2, preserved);
    assert next == [chain[0], chain[2]];
    assert !preserved(Window(chain, 2)[1].id) && !preserved(Window(next, 2)[1].id);
    assert Misread(chain, 2, preserved, MAX_PASSES - 1);
    CappedPurgeIff(chain, 2, preserved);
  }
}
