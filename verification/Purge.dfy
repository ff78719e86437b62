/**
 Purging the derived alternates of a key in repeated passes over its listing,
 against a storage that may answer anything: `Storage` is any three operations
 on any state.
 */
module Purge {
  import opened Options
  import opened AlternateChain

  /** A listed alternate and the disk offset of its node. */
  datatype Entry = Entry(id: nat, offset: nat)

  datatype Listing = Listed(entries: seq<Entry>) | Unreadable(error: CacheError)

  datatype Storage<!S> = Storage(
    list: S -> (Listing, S),
    remove: (S, nat) -> (Option<CacheError>, S),
    drop: S -> (Option<CacheError>, S))

  /** A storage operation and its answer. */
  datatype Call =
    | Enumerate(reply: Listing)
    | Remove(id: nat, error: Option<CacheError>)
    | Drop(dropError: Option<CacheError>)

  datatype Result = Ok(removed: nat) | Err(error: CacheError)

  /** How progress is measured: the number of entries and the head's offset. */
  datatype Shape = Shape(entries: nat, head: nat)

  function ShapeOf(entries: seq<Entry>): Shape {
    Shape(|entries|, if entries == [] then 0 else entries[0].offset)
  }

  const MAX_PASSES := 4
  const MAX_CONFIRMATIONS := 3

  predicate Failure(c: Call) {
    c.Remove? && c.error.Some? && !c.error.value.ChainCorrupted? && !c.error.value.AlternateNotFound?
  }

  predicate Corruption(c: Call) {
    c.Remove? && c.error == Some(ChainCorrupted)
  }

  predicate Success(c: Call) {
    c.Remove? && c.error.None?
  }

  /** What a sequence of removals amounts to. */
  datatype Tally = Tally(removed: nat, corrupted: bool, failed: bool)

  function Counted(c: Call, t: Tally): Tally {
    Tally(t.removed + (if Success(c) then 1 else 0), t.corrupted || Corruption(c), t.failed || Failure(c))
  }

  function TallyOf(calls: seq<Call>): Tally {
    if calls == [] then Tally(0, false, false) else Counted(calls[0], TallyOf(calls[1..]))
  }

  lemma {:induction false} TallyAppend(a: seq<Call>, b: seq<Call>)
    ensures var x, y := TallyOf(a), TallyOf(b);
            TallyOf(a + b) == Tally(x.removed + y.removed, x.corrupted || y.corrupted, x.failed || y.failed)
  {
    if a == [] {
      assert a + b == b;
    } else {
      assert (a + b)[1..] == a[1..] + b;
      TallyAppend(a[1..], b);
    }
  }

  // ---- one pass ------------------------------------------------------------------------

  datatype Trail<S> = Trail(state: S, calls: seq<Call>)

  /** Removes every listed entry that is not preserved. */
  function Sweep<S>(st: Storage<S>, s: S, entries: seq<Entry>, preserved: nat -> bool): Trail<S> {
    if entries == [] then Trail(s, [])
    else if preserved(entries[0].id) then Sweep(st, s, entries[1..], preserved)
    else
      var (error, s') := st.remove(s, entries[0].id);
      var rest := Sweep(st, s', entries[1..], preserved);
      Trail(rest.state, [Remove(entries[0].id, error)] + rest.calls)
  }

  method SweepListing<S>(st: Storage<S>, s: S, entries: seq<Entry>, preserved: nat -> bool)
    returns (trail: Trail<S>, tally: Tally)
    ensures trail == Sweep(st, s, entries, preserved) && tally == TallyOf(trail.calls)
  {
    hide TallyOf;
    var state, calls := s, [];
    tally := Tally(0, false, false);
    assert TallyOf([]) == tally by { TallyEmpty(); }
    assert entries[0..] == entries;
    for i := 0 to |entries|
      invariant var rest := Sweep(st, state, entries[i..], preserved);
                Sweep(st, s, entries, preserved) == Trail(rest.state, calls + rest.calls)
      invariant tally == TallyOf(calls)
    {
      assert entries[i..][0] == entries[i] && entries[i..][1..] == entries[i + 1..];
      if !preserved(entries[i].id) {
        var (error, s') := st.remove(state, entries[i].id);
        var call := Remove(entries[i].id, error);
        ghost var rest := Sweep(st, s', entries[i + 1..], preserved);
        assert calls + ([call] + rest.calls) == calls + [call] + rest.calls;
        TallyAppend(calls, [call]);
        TallyOne(call);
        tally := Counted(call, tally);
        state, calls := s', calls + [call];
      }
    }
    assert calls + [] == calls;
    trail := Trail(state, calls);
  }

  lemma TallyEmpty()
    ensures TallyOf([]) == Tally(0, false, false)
  {}

  lemma TallyOne(c: Call)
    ensures TallyOf([c]) == Counted(c, Tally(0, false, false))
  {}

  // ---- the passes ------------------------------------------------------------------------

  /** How the passes end: with an error, having cleared what they could, or at a chain they cannot unlink from. */
  datatype Verdict = Refused(error: CacheError) | Finished | Unwalkable

  datatype Passed<S> = Passed(state: S, calls: seq<Call>, verdict: Verdict)

  /** What a listed, changed chain leads to once its removals are done; none to go on. */
  function Judged(calls: seq<Call>): Option<Verdict> {
    var t := TallyOf(calls);
    if calls == [] then Some(Finished)
    else if t.corrupted then Some(Unwalkable)
    else if t.failed then Some(Finished)
    else None
  }

  function Passes<S>(st: Storage<S>, s: S, pass: nat, previous: Option<Shape>, preserved: nat -> bool): Passed<S>
    decreases MAX_PASSES - pass
  {
    if pass >= MAX_PASSES then Passed(s, [], Finished)
    else
      var (reply, s1) := st.list(s);
      match reply
      case Unreadable(e) =>
        Passed(s1, [Enumerate(reply)], if pass == 0 && !e.NotFound? then Refused(e) else Finished)
      case Listed(entries) =>
        if previous == Some(ShapeOf(entries)) then Passed(s1, [Enumerate(reply)], Unwalkable)
        else
          var swept := Sweep(st, s1, entries, preserved);
          match Judged(swept.calls)
          case Some(verdict) => Passed(swept.state, [Enumerate(reply)] + swept.calls, verdict)
          case None =>
            var rest := Passes(st, swept.state, pass + 1, Some(ShapeOf(entries)), preserved);
            rest.(calls := [Enumerate(reply)] + swept.calls + rest.calls)
  }

  /** Looks for a survivor in up to `left` listings. */
  datatype Confirmed<S> = Confirmed(state: S, calls: seq<Call>, survivor: bool)

  predicate ShowsSurvivor(entries: seq<Entry>, preserved: nat -> bool) {
    exists i :: 0 <= i < |entries| && !preserved(entries[i].id)
  }

  function Confirm<S>(st: Storage<S>, s: S, attempt: nat, preserved: nat -> bool): Confirmed<S>
    decreases MAX_CONFIRMATIONS - attempt
  {
    if attempt >= MAX_CONFIRMATIONS then Confirmed(s, [], false)
    else
      var (reply, s1) := st.list(s);
      match reply
      case Listed(entries) => Confirmed(s1, [Enumerate(reply)], ShowsSurvivor(entries, preserved))
      case Unreadable(e) =>
        if e.NotFound? then Confirmed(s1, [Enumerate(reply)], false)
        else
          var rest := Confirm(st, s1, attempt + 1, preserved);
          rest.(calls := [Enumerate(reply)] + rest.calls)
  }

  /** A whole purge: the calls of its passes, of the confirmation, and of the drop. */
  datatype Purged<S> = Purged(state: S, passes: seq<Call>, confirm: seq<Call>, drop: seq<Call>, result: Result)

  function PurgeSpec<S>(st: Storage<S>, s: S, preserved: nat -> bool): Purged<S> {
    var p := Passes(st, s, 0, None, preserved);
    var removed := TallyOf(p.calls).removed;
    match p.verdict
    case Refused(e) => Purged(p.state, p.calls, [], [], Err(e))
    case Finished => Purged(p.state, p.calls, [], [], Ok(removed))
    case Unwalkable =>
      var c := Confirm(st, p.state, 0, preserved);
      if !c.survivor then Purged(c.state, p.calls, c.calls, [], Ok(removed))
      else
        var (error, s') := st.drop(c.state);
        Purged(s', p.calls, c.calls, [Drop(error)],
               if error.Some? && !error.value.NotFound? then Err(error.value) else Ok(removed + 1))
  }

  method RunPasses<S>(st: Storage<S>, start: S, preserved: nat -> bool) returns (s: S, removed: nat, verdict: Verdict)
    ensures var p := Passes(st, start, 0, None, preserved);
            s == p.state && verdict == p.verdict && removed == TallyOf(p.calls).removed
  {
    hide Sweep, TallyOf, ShapeOf, Passes;
    s, removed, verdict := start, 0, Finished;
    var previous: Option<Shape> := None;
    for pass := 0 to MAX_PASSES
      invariant verdict == Finished
      invariant var rest, all := Passes(st, s, pass, previous, preserved), Passes(st, start, 0, None, preserved);
                && rest.state == all.state && rest.verdict == all.verdict
                && removed + TallyOf(rest.calls).removed == TallyOf(all.calls).removed
    {
      var (reply, s1) := st.list(s);
      PassesNow(st, s, pass, previous, preserved);
      NothingRemoved(reply);
      s := s1;
      if reply.Unreadable? {
        return s, removed, if pass == 0 && !reply.error.NotFound? then Refused(reply.error) else Finished;
      }
      if previous == Some(ShapeOf(reply.entries)) {
        return s, removed, Unwalkable;
      }
      previous := Some(ShapeOf(reply.entries));
      var trail, tally := SweepListing(st, s, reply.entries, preserved);
      RemovedInTurn(reply, trail.calls, Passes(st, trail.state, pass + 1, previous, preserved).calls);
      removed, s := removed + tally.removed, trail.state;
      if trail.calls == [] { return; }
      if tally.corrupted { return s, removed, Unwalkable; }
      if tally.failed { return; }
    }
    PassesOver(st, s, previous, preserved);
    TallyEmpty();
  }

  lemma NothingRemoved(reply: Listing)
    ensures TallyOf([Enumerate(reply)]).removed == 0
  {
    TallyOne(Enumerate(reply));
  }

  lemma RemovedInTurn(reply: Listing, swept: seq<Call>, rest: seq<Call>)
    ensures TallyOf([Enumerate(reply)] + swept).removed == TallyOf(swept).removed
    ensures TallyOf([Enumerate(reply)] + swept + rest).removed == TallyOf(swept).removed + TallyOf(rest).removed
  {
    hide TallyOf;
    NothingRemoved(reply);
    TallyAppend([Enumerate(reply)], swept);
    TallyAppend([Enumerate(reply)] + swept, rest);
  }

  /** One pass. */
  lemma PassesNow<S>(st: Storage<S>, s: S, pass: nat, previous: Option<Shape>, preserved: nat -> bool)
    requires pass < MAX_PASSES
    ensures var (reply, s1) := st.list(s);
            Passes(st, s, pass, previous, preserved)
            == match reply
               case Unreadable(e) =>
                 Passed(s1, [Enumerate(reply)], if pass == 0 && !e.NotFound? then Refused(e) else Finished)
               case Listed(entries) =>
                 if previous == Some(ShapeOf(entries)) then Passed(s1, [Enumerate(reply)], Unwalkable)
                 else
                   var swept := Sweep(st, s1, entries, preserved);
                   if Judged(swept.calls).Some?
                   then Passed(swept.state, [Enumerate(reply)] + swept.calls, Judged(swept.calls).value)
                   else
                     var rest := Passes(st, swept.state, pass + 1, Some(ShapeOf(entries)), preserved);
                     rest.(calls := [Enumerate(reply)] + swept.calls + rest.calls)
  {
    hide Sweep, ShapeOf, Judged;
  }

  lemma PassesOver<S>(st: Storage<S>, s: S, previous: Option<Shape>, preserved: nat -> bool)
    ensures Passes(st, s, MAX_PASSES, previous, preserved) == Passed(s, [], Finished)
  {}

  method FindSurvivor<S>(st: Storage<S>, start: S, preserved: nat -> bool) returns (s: S, survivor: bool)
    ensures var c := Confirm(st, start, 0, preserved); s == c.state && survivor == c.survivor
  {
    s := start;
    for attempt := 0 to MAX_CONFIRMATIONS
      invariant var c, all := Confirm(st, s, attempt, preserved), Confirm(st, start, 0, preserved);
                c.state == all.state && c.survivor == all.survivor
    {
      var (reply, s1) := st.list(s);
      s := s1;
      if reply.Listed? {
        for i := 0 to |reply.entries|
          invariant forall j | 0 <= j < i :: preserved(reply.entries[j].id)
        {
          if !preserved(reply.entries[i].id) { return s, true; }
        }
        return s, false;
      }
      if reply.error.NotFound? { return s, false; }
    }
    survivor := false;
  }

  method RemoveAlternatesWhere<S>(st: Storage<S>, start: S, preserved: nat -> bool) returns (end: S, result: Result)
    ensures end == PurgeSpec(st, start, preserved).state && result == PurgeSpec(st, start, preserved).result
  {
    hide Passes, Confirm, TallyOf;
    var s, removed, verdict := RunPasses(st, start, preserved);
    if verdict.Refused? { return s, Err(verdict.error); }
    if verdict == Unwalkable {
      var after, survivor := FindSurvivor(st, s, preserved);
      s := after;
      if survivor {
        var (error, dropped) := st.drop(s);
        if error.Some? && !error.value.NotFound? { return dropped, Err(error.value); }
        s, removed := dropped, removed + 1;
      }
    }
    return s, Ok(removed);
  }

  // ---- the calls a purge makes ------------------------------------------------------------------

  function Listings(calls: seq<Call>): nat {
    if calls == [] then 0 else (if calls[0].Enumerate? then 1 else 0) + Listings(calls[1..])
  }

  lemma {:induction false} ListingsAppend(a: seq<Call>, b: seq<Call>)
    ensures Listings(a + b) == Listings(a) + Listings(b)
  {
    if a == [] {
      assert a + b == b;
    } else {
      assert (a + b)[1..] == a[1..] + b;
      ListingsAppend(a[1..], b);
    }
  }

  /** A sweep only removes, and only ids that are not preserved. */
  ghost predicate Removals(calls: seq<Call>, preserved: nat -> bool) {
    forall c | c in calls :: c.Remove? && !preserved(c.id)
  }

  lemma {:induction false} SweepRemoves<S>(st: Storage<S>, s: S, entries: seq<Entry>, preserved: nat -> bool)
    ensures Removals(Sweep(st, s, entries, preserved).calls, preserved)
    ensures Listings(Sweep(st, s, entries, preserved).calls) == 0
    decreases entries
  {
    if entries == [] {
    } else if preserved(entries[0].id) {
      SweepRemoves(st, s, entries[1..], preserved);
    } else {
      var (error, s') := st.remove(s, entries[0].id);
      SweepRemoves(st, s', entries[1..], preserved);
      var rest := Sweep(st, s', entries[1..], preserved).calls;
      assert ([Remove(entries[0].id, error)] + rest)[1..] == rest;
    }
  }

  lemma {:induction false} PassesAreBounded<S>(
    st: Storage<S>, s: S, pass: nat, previous: Option<Shape>, preserved: nat -> bool)
    requires pass <= MAX_PASSES
    ensures var calls := Passes(st, s, pass, previous, preserved).calls;
            && Listings(calls) <= MAX_PASSES - pass
            && forall c | c in calls && c.Remove? :: !preserved(c.id)
    decreases MAX_PASSES - pass
  {
    hide Sweep, Judged, ShapeOf;
    if pass < MAX_PASSES {
      var (reply, s1) := st.list(s);
      if reply.Listed? && previous != Some(ShapeOf(reply.entries)) {
        var swept := Sweep(st, s1, reply.entries, preserved);
        SweepRemoves(st, s1, reply.entries, preserved);
        ListingsAppend([Enumerate(reply)], swept.calls);
        if Judged(swept.calls) == None {
          var rest := Passes(st, swept.state, pass + 1, Some(ShapeOf(reply.entries)), preserved);
          PassesAreBounded(st, swept.state, pass + 1, Some(ShapeOf(reply.entries)), preserved);
          ListingsAppend([Enumerate(reply)] + swept.calls, rest.calls);
        }
      }
    }
  }

  ghost predicate EndsWithSurvivor(calls: seq<Call>, preserved: nat -> bool) {
    && calls != []
    && var last := calls[|calls| - 1];
       last.Enumerate? && last.reply.Listed? && ShowsSurvivor(last.reply.entries, preserved)
  }

  lemma {:induction false} ConfirmIsBounded<S>(st: Storage<S>, s: S, attempt: nat, preserved: nat -> bool)
    requires attempt <= MAX_CONFIRMATIONS
    ensures var c := Confirm(st, s, attempt, preserved);
            && |c.calls| <= MAX_CONFIRMATIONS - attempt
            && (c.survivor ==> EndsWithSurvivor(c.calls, preserved))
    decreases MAX_CONFIRMATIONS - attempt
  {
    hide ShowsSurvivor;
    if attempt < MAX_CONFIRMATIONS {
      var (reply, s1) := st.list(s);
      if reply.Unreadable? && !reply.error.NotFound? { ConfirmIsBounded(st, s1, attempt + 1, preserved); }
    }
  }

  /** Why the passes gave up: a corrupted chain, or a pass without failures that left the listing as it was. */
  datatype Evidence = Corrupted | Unchanged(before: seq<Call>, x: seq<Entry>, removals: seq<Call>, y: seq<Entry>)

  ghost predicate Supports(evidence: Evidence, calls: seq<Call>, preserved: nat -> bool) {
    match evidence
    case Corrupted => TallyOf(calls).corrupted
    case Unchanged(before, x, removals, y) =>
      && calls == before + [Enumerate(Listed(x))] + removals + [Enumerate(Listed(y))]
      && removals != [] && Removals(removals, preserved) && !TallyOf(removals).failed
      && ShapeOf(x) == ShapeOf(y)
  }

  lemma {:induction false} UnwalkableHasEvidence<S>(
    st: Storage<S>, s: S, pass: nat, previous: Option<Shape>, preserved: nat -> bool)
    returns (evidence: Option<Evidence>, y: seq<Entry>)
    requires Passes(st, s, pass, previous, preserved).verdict == Unwalkable
    ensures var calls := Passes(st, s, pass, previous, preserved).calls;
            match evidence
            case Some(e) => Supports(e, calls, preserved)
            case None => calls == [Enumerate(Listed(y))] && previous == Some(ShapeOf(y))
    decreases MAX_PASSES - pass
  {
    hide Sweep, ShapeOf, TallyOf, Removals;
    var (reply, s1) := st.list(s);
    y := reply.entries;
    if previous == Some(ShapeOf(y)) {
      evidence := None;
    } else {
      var swept := Sweep(st, s1, y, preserved);
      SweepRemoves(st, s1, y, preserved);
      TallyAppend([Enumerate(reply)], swept.calls);
      if Judged(swept.calls).Some? {
        evidence := Some(Corrupted);
      } else {
        var rest := Passes(st, swept.state, pass + 1, Some(ShapeOf(y)), preserved);
        var e, z := UnwalkableHasEvidence(st, swept.state, pass + 1, Some(ShapeOf(y)), preserved);
        var front := [Enumerate(reply)] + swept.calls;
        if e == None {
          evidence := Some(Unchanged([], y, swept.calls, z));
          assert front + rest.calls == [] + [Enumerate(Listed(y))] + swept.calls + [Enumerate(Listed(z))];
        } else {
          evidence := Some(Prepended(front, e.value));
          PrependedSupports(front, e.value, rest.calls, preserved);
        }
      }
    }
  }

  function Prepended(front: seq<Call>, e: Evidence): Evidence {
    if e.Corrupted? then e else e.(before := front + e.before)
  }

  lemma PrependedSupports(front: seq<Call>, e: Evidence, calls: seq<Call>, preserved: nat -> bool)
    requires Supports(e, calls, preserved)
    ensures Supports(Prepended(front, e), front + calls, preserved)
  {
    hide ShapeOf, Removals, TallyOf;
    TallyAppend(front, calls);
    if e.Unchanged? {
      assert front + (e.before + [Enumerate(Listed(e.x))] + e.removals + [Enumerate(Listed(e.y))])
          == (front + e.before) + [Enumerate(Listed(e.x))] + e.removals + [Enumerate(Listed(e.y))];
    }
  }

  /**
   Against every storage: at most four pass listings and three confirming ones,
   and nothing preserved is removed on its own.
   */
  lemma PurgeIsBounded<S>(st: Storage<S>, s: S, preserved: nat -> bool)
    ensures var p := PurgeSpec(st, s, preserved);
            && Listings(p.passes) <= 4 && |p.confirm| <= 3 && |p.drop| <= 1
            && (forall c | c in p.passes && c.Remove? :: !preserved(c.id))
            && (p.result.Ok? ==> p.result.removed == TallyOf(p.passes).removed + |p.drop|)
  {
    hide Passes, Confirm, TallyOf;
    PassesAreBounded(st, s, 0, None, preserved);
    ConfirmIsBounded(st, Passes(st, s, 0, None, preserved).state, 0, preserved);
  }

  /** The whole key is dropped only on evidence, and only right after a listing that shows a survivor. */
  lemma DropNeedsEvidence<S>(st: Storage<S>, s: S, preserved: nat -> bool) returns (evidence: Evidence)
    requires PurgeSpec(st, s, preserved).drop != []
    ensures var p := PurgeSpec(st, s, preserved);
            && Supports(evidence, p.passes, preserved)
            && EndsWithSurvivor(p.confirm, preserved)
  {
    hide Passes, Confirm, TallyOf, Supports, ShowsSurvivor;
    var e, _ := UnwalkableHasEvidence(st, s, 0, None, preserved);
    evidence := e.value;
    ConfirmIsBounded(st, Passes(st, s, 0, None, preserved).state, 0, preserved);
  }

  // ---- a storage that does what it is asked ------------------------------------------------------

  function Without(chain: seq<Entry>, id: nat): seq<Entry> {
    if chain == [] then [] else if chain[0].id == id then chain[1..] else [chain[0]] + Without(chain[1..], id)
  }

  predicate Holds(chain: seq<Entry>, id: nat) {
    exists i :: 0 <= i < |chain| && chain[i].id == id
  }

  /** Listings are complete and removals succeed; an empty key is listed as empty or reported as not found. */
  function Faithful(reportsEmpty: bool): Storage<seq<Entry>> {
    Storage(
      (chain: seq<Entry>) => (if chain == [] && reportsEmpty then Unreadable(NotFound) else Listed(chain), chain),
      (chain: seq<Entry>, id: nat) => if Holds(chain, id) then (None, Without(chain, id))
                                      else (Some(AlternateNotFound), chain),
      (chain: seq<Entry>) => (None, []))
  }

  function Kept(chain: seq<Entry>, preserved: nat -> bool): (kept: seq<Entry>)
    ensures |kept| <= |chain|
  {
    if chain == [] then [] else (if preserved(chain[0].id) then [chain[0]] else []) + Kept(chain[1..], preserved)
  }

  /** The first node with an id that is not preserved stands after the kept ones. */
  lemma {:induction false} WithoutSkips(kept: seq<Entry>, rest: seq<Entry>, preserved: nat -> bool)
    requires forall e | e in kept :: preserved(e.id)
    requires rest != [] && !preserved(rest[0].id)
    ensures Holds(kept + rest, rest[0].id) && Without(kept + rest, rest[0].id) == kept + rest[1..]
    decreases |kept|
  {
    var all := kept + rest;
    assert all[|kept|] == rest[0];
    if kept == [] {
      assert all == rest && kept + rest[1..] == rest[1..];
    } else {
      assert kept[0] in kept;
      assert all[1..] == kept[1..] + rest;
      WithoutSkips(kept[1..], rest, preserved);
      assert [kept[0]] + (kept[1..] + rest[1..]) == kept + rest[1..];
    }
  }

  /** Everything that was to be removed was, one call each, and the rest is left in order. */
  ghost predicate SweptClean(swept: Trail<seq<Entry>>, left: seq<Entry>, gone: nat) {
    swept.state == left && |swept.calls| == gone && TallyOf(swept.calls) == Tally(gone, false, false)
  }

  lemma {:induction false} FaithfulSweep(empty: bool, kept: seq<Entry>, rest: seq<Entry>, preserved: nat -> bool)
    requires forall e | e in kept :: preserved(e.id)
    ensures SweptClean(Sweep(Faithful(empty), kept + rest, rest, preserved),
                       kept + Kept(rest, preserved), |rest| - |Kept(rest, preserved)|)
    decreases |rest|
  {
    hide TallyOf, Sweep, Faithful, Kept;
    KeptNext(rest, preserved);
    if rest == [] {
      SweepNothing(Faithful(empty), kept, preserved);
      TallyEmpty();
      assert kept + [] == kept;
    } else {
      var first, more := rest[0], rest[1..];
      FaithfulSweepNext(empty, kept, rest, preserved);
      if preserved(first.id) {
        FaithfulSweep(empty, kept + [first], more, preserved);
        assert (kept + [first]) + more == kept + rest;
        assert (kept + [first]) + Kept(more, preserved) == kept + Kept(rest, preserved);
      } else {
        FaithfulSweep(empty, kept, more, preserved);
        RemovalCounts(first.id, Sweep(Faithful(empty), kept + more, more, preserved).calls);
      }
    }
  }

  lemma KeptNext(rest: seq<Entry>, preserved: nat -> bool)
    ensures Kept(rest, preserved)
            == if rest == [] then []
               else if preserved(rest[0].id) then [rest[0]] + Kept(rest[1..], preserved) else Kept(rest[1..], preserved)
  {}

  lemma SweepNothing<S>(st: Storage<S>, s: S, preserved: nat -> bool)
    ensures Sweep(st, s, [], preserved) == Trail(s, [])
  {}

  /** A sweep of a faithful storage passes over what is preserved and takes out the rest. */
  lemma FaithfulSweepNext(empty: bool, kept: seq<Entry>, rest: seq<Entry>, preserved: nat -> bool)
    requires rest != [] && forall e | e in kept :: preserved(e.id)
    ensures var st := Faithful(empty);
            Sweep(st, kept + rest, rest, preserved)
            == if preserved(rest[0].id) then Sweep(st, kept + rest, rest[1..], preserved)
               else
                 var after := Sweep(st, kept + rest[1..], rest[1..], preserved);
                 Trail(after.state, [Remove(rest[0].id, None)] + after.calls)
  {
    hide Without, Holds;
    if !preserved(rest[0].id) { WithoutSkips(kept, rest, preserved); }
  }

  lemma RemovalCounts(id: nat, after: seq<Call>)
    ensures var t := TallyOf(after);
            TallyOf([Remove(id, None)] + after) == Tally(t.removed + 1, t.corrupted, t.failed)
  {
    TallyOne(Remove(id, None));
    TallyAppend([Remove(id, None)], after);
  }

  lemma {:induction false} KeptAll(chain: seq<Entry>, preserved: nat -> bool)
    requires forall e | e in chain :: preserved(e.id)
    ensures Kept(chain, preserved) == chain
  {
    if chain != [] {
      assert chain[0] in chain;
      KeptAll(chain[1..], preserved);
    }
  }

  lemma {:induction false} KeptIsPreserved(chain: seq<Entry>, preserved: nat -> bool)
    ensures forall e | e in Kept(chain, preserved) :: preserved(e.id)
    ensures Kept(chain, preserved) == chain || |Kept(chain, preserved)| < |chain|
  {
    if chain != [] { KeptIsPreserved(chain[1..], preserved); }
  }

  /** A pass over nothing but preserved entries is the last. */
  lemma LastPass(empty: bool, chain: seq<Entry>, pass: nat, previous: Option<Shape>, preserved: nat -> bool)
    requires pass < MAX_PASSES && (forall e | e in chain :: preserved(e.id)) && previous != Some(ShapeOf(chain))
    ensures var p := Passes(Faithful(empty), chain, pass, previous, preserved);
            p.state == chain && p.verdict == Finished && TallyOf(p.calls).removed == 0
  {
    hide Sweep, TallyOf, ShapeOf, Passes, Faithful, Kept;
    var st := Faithful(empty);
    var reply := FaithfulList(empty, chain);
    PassesNow(st, chain, pass, previous, preserved);
    NothingRemoved(reply);
    if reply.Listed? {
      FaithfulSweep(empty, [], chain, preserved);
      KeptAll(chain, preserved);
      assert [] + chain == chain;
      var calls := Sweep(st, chain, chain, preserved).calls;
      assert calls == [] && [Enumerate(reply)] + calls == [Enumerate(reply)];
    }
  }

  lemma FaithfulList(empty: bool, chain: seq<Entry>) returns (reply: Listing)
    ensures Faithful(empty).list(chain) == (reply, chain)
    ensures reply == Listed(chain) || (chain == [] && reply == Unreadable(NotFound))
  {
    reply := Faithful(empty).list(chain).0;
  }

  /** On such a storage exactly the preserved nodes remain, in order, and nothing is dropped. */
  lemma PurgeKeepsThePreserved(empty: bool, chain: seq<Entry>, preserved: nat -> bool)
    ensures var p := PurgeSpec(Faithful(empty), chain, preserved);
            && p.state == Kept(chain, preserved) && p.drop == []
            && p.result == Ok(|chain| - |Kept(chain, preserved)|)
  {
    hide Sweep, TallyOf, Faithful, Confirm, Kept;
    KeptIsPreserved(chain, preserved);
    var kept := Kept(chain, preserved);
    if kept == chain {
      LastPass(empty, chain, 0, None, preserved);
    } else {
      FirstPass(empty, chain, preserved);
    }
  }

  lemma FirstPass(empty: bool, chain: seq<Entry>, preserved: nat -> bool)
    requires |Kept(chain, preserved)| < |chain|
    ensures var p := Passes(Faithful(empty), chain, 0, None, preserved);
            && p.state == Kept(chain, preserved) && p.verdict == Finished
            && TallyOf(p.calls).removed == |chain| - |Kept(chain, preserved)|
  {
    hide Sweep, TallyOf, Kept, Passes, Faithful;
    var st, kept := Faithful(empty), Kept(chain, preserved);
    KeptIsPreserved(chain, preserved);
    var reply := FaithfulList(empty, chain);
    PassesNow(st, chain, 0, None, preserved);
    FaithfulSweep(empty, [], chain, preserved);
    assert [] + chain == chain && [] + kept == kept;
    var swept := Sweep(st, chain, chain, preserved);
    assert Judged(swept.calls) == None;
    LastPass(empty, kept, 1, Some(ShapeOf(chain)), preserved);
    RemovedInTurn(reply, swept.calls, Passes(st, kept, 1, Some(ShapeOf(chain)), preserved).calls);
  }

  // ---- who is preserved --------------------------------------------------------------------------

  const ORIGINAL_CONTENT := 0x0C
  const HEADERS_SIDECAR := 0x6C

  function Members(ids: seq<nat>): nat -> bool {
    (id: nat) => id in ids
  }

  /** The durable original dies with the family: a call that would keep it changes nothing. */
  method RemoveAlternatesExcept<S>(st: Storage<S>, start: S, preserve: seq<nat>) returns (end: S, result: Result)
    ensures if ORIGINAL_CONTENT in preserve then end == start && result == Err(InvalidArgument)
            else var p := PurgeSpec(st, start, Members(preserve)); end == p.state && result == p.result
  {
    for i := 0 to |preserve|
      invariant ORIGINAL_CONTENT !in preserve[..i]
    {
      if preserve[i] == ORIGINAL_CONTENT { return start, Err(InvalidArgument); }
    }
    end, result := RemoveAlternatesWhere(st, start, Members(preserve));
  }

  /** The inputs of a family: the original, the header sidecar, and a front end's own identity recording. */
  predicate IsInput(identity: nat, keepIdentity: bool, id: nat) {
    id == ORIGINAL_CONTENT || id == HEADERS_SIDECAR || (keepIdentity && id == identity)
  }

  function Inputs(identity: nat, keepIdentity: bool): nat -> bool {
    (id: nat) => IsInput(identity, keepIdentity, id)
  }

  method RemoveDerivedAlternates<S>(st: Storage<S>, start: S, identity: nat, recorded: Option<bool>)
    returns (end: S, result: Result)
    ensures var keep := recorded == Some(false);
            var p := PurgeSpec(st, start, Inputs(identity, keep)); end == p.state && result == p.result
  {
    // `recorded` is the worker-processed flag of the stored identity entry, none when it cannot be read.
    var keep := recorded.Some? && !recorded.value;
    end, result := RemoveAlternatesWhere(st, start, Inputs(identity, keep));
  }

  lemma {:induction false} KeptMembers(chain: seq<Entry>, preserved: nat -> bool, e: Entry)
    ensures e in Kept(chain, preserved) <==> e in chain && preserved(e.id)
  {
    if chain != [] { KeptMembers(chain[1..], preserved, e); }
  }

  /** After a purge of the derived entries, an entry is left exactly if it is one of the inputs. */
  lemma DerivedArePurged(empty: bool, chain: seq<Entry>, identity: nat, recorded: Option<bool>, e: Entry)
    ensures var keep := recorded == Some(false);
            e in PurgeSpec(Faithful(empty), chain, Inputs(identity, keep)).state
            <==> e in chain && (e.id == 0x0C || e.id == 0x6C || (keep && e.id == identity))
  {
    hide PurgeSpec, Kept;
    var keep := recorded == Some(false);
    PurgeKeepsThePreserved(empty, chain, Inputs(identity, keep));
    KeptMembers(chain, Inputs(identity, keep), e);
  }
}
