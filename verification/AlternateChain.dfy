/**
 Re-recording a sentinel: the chain of one cache key, and the protocol by which
 writers of one sentinel id replace its entry.  Unlinking and writing are two
 storage operations, so writers of the same id interleave between them.
 */
module AlternateChain {
  import opened Options

  datatype CacheError = NotFound | AlternateNotFound | ChainCorrupted | InvalidArgument | OtherError(code: nat)

  /** A linked alternate; the newest stands first.  `stamp` tells entries apart. */
  datatype Node = Node(id: nat, stamp: nat)

  /** The error leaves the entry linked, as far as the caller can tell. */
  predicate UnlinkLeftEntryLinked(e: CacheError) {
    !(e.NotFound? || e.AlternateNotFound?)
  }

  // ---- the chain ----------------------------------------------------------------------

  function Count(chain: seq<Node>, id: nat): nat {
    if chain == [] then 0 else (if chain[0].id == id then 1 else 0) + Count(chain[1..], id)
  }

  /** Removing an alternate unlinks the first node with its id. */
  function Unlinked(chain: seq<Node>, id: nat): seq<Node> {
    if chain == [] then [] else if chain[0].id == id then chain[1..] else [chain[0]] + Unlinked(chain[1..], id)
  }

  /** What an exact-id read is answered with. */
  function Read(chain: seq<Node>, id: nat): Option<Node> {
    if chain == [] then None else if chain[0].id == id then Some(chain[0]) else Read(chain[1..], id)
  }

  /** The nodes of all other ids. */
  function Others(chain: seq<Node>, id: nat): seq<Node> {
    if chain == [] then [] else (if chain[0].id == id then [] else [chain[0]]) + Others(chain[1..], id)
  }

  /** The stamps under one id, newest first. */
  function Stamps(chain: seq<Node>, id: nat): seq<nat> {
    if chain == [] then [] else (if chain[0].id == id then [chain[0].stamp] else []) + Stamps(chain[1..], id)
  }

  lemma {:induction false} UnlinkedCounts(chain: seq<Node>, id: nat)
    ensures Count(Unlinked(chain, id), id) == if Count(chain, id) == 0 then 0 else Count(chain, id) - 1
    ensures Others(Unlinked(chain, id), id) == Others(chain, id)
    ensures Stamps(Unlinked(chain, id), id) == if Stamps(chain, id) == [] then [] else Stamps(chain, id)[1..]
  {
    if chain != [] && chain[0].id != id {
      UnlinkedCounts(chain[1..], id);
      assert Unlinked(chain, id)[1..] == Unlinked(chain[1..], id);
    }
  }

  lemma {:induction false} ReadIsNewest(chain: seq<Node>, id: nat)
    ensures |Stamps(chain, id)| == Count(chain, id)
    ensures Read(chain, id) == if Stamps(chain, id) == [] then None else Some(Node(id, Stamps(chain, id)[0]))
  {
    if chain != [] && chain[0].id != id { ReadIsNewest(chain[1..], id); }
    if chain != [] { ReadIsNewest(chain[1..], id); }
  }

  // ---- the protocol --------------------------------------------------------------------

  /** What the storage does with an unlink request, and what it answers. */
  datatype Reply = Removed | NothingThere | Failed(gone: bool)

  predicate Removes(reply: Reply) {
    reply == Removed || reply == Failed(true)
  }

  datatype Event =
    | Unlink(writer: nat, reply: Reply)
    | Commit(writer: nat)
    | Abandon(writer: nat)
    | OtherWrite(node: Node)
    | OtherRemove(other: nat)

  /**
   One key.  `pending` are the writers of the sentinel between unlink and commit,
   `peak` the most there ever were, `failures` the unlinks answered "still linked"
   and `stuck` those of them that did leave the node, `clock` the stamp of the
   latest commit.
   */
  datatype State = State(chain: seq<Node>, pending: set<nat>, peak: nat, failures: nat, stuck: nat, clock: nat)

  function Max(a: nat, b: nat): nat {
    if a < b then b else a
  }

  /** The storage answers truthfully: it removes or misses a node only if it is there or not. */
  predicate Enabled(s: State, id: nat, e: Event) {
    match e
    case Unlink(w, reply) =>
      && w !in s.pending
      && (Removes(reply) ==> Count(s.chain, id) > 0)
      && (reply == NothingThere ==> Count(s.chain, id) == 0)
    case Commit(w) => w in s.pending
    case Abandon(w) => w in s.pending
    case OtherWrite(node) => node.id != id
    case OtherRemove(other) => other != id
  }

  function Apply(s: State, id: nat, e: Event): State {
    match e
    case Unlink(w, reply) =>
      var p := s.pending + {w};
      s.(chain := if Removes(reply) then Unlinked(s.chain, id) else s.chain,
         pending := p, peak := Max(s.peak, |p|),
         failures := s.failures + (if reply.Failed? then 1 else 0),
         stuck := s.stuck + if reply == Failed(false) then 1 else 0)
    case Commit(w) =>
      s.(chain := [Node(id, s.clock + 1)] + s.chain, pending := s.pending - {w}, clock := s.clock + 1)
    case Abandon(w) => s.(pending := s.pending - {w})
    case OtherWrite(node) => s.(chain := [node] + s.chain)
    case OtherRemove(other) => s.(chain := Unlinked(s.chain, other))
  }

  /** Every event of the run is possible when its turn comes. */
  ghost predicate Runs(s: State, id: nat, run: seq<Event>)
    decreases |run|
  {
    run != [] ==> Enabled(s, id, run[0]) && Runs(Apply(s, id, run[0]), id, run[1..])
  }

  function After(s: State, id: nat, run: seq<Event>): State
    decreases |run|
  {
    if run == [] then s else After(Apply(s, id, run[0]), id, run[1..])
  }

  /** A key at rest. */
  predicate Fresh(s: State) {
    s.pending == {} && s.peak == 0 && s.failures == 0 && s.stuck == 0
  }

  lemma {:induction false} OtherUnlinked(chain: seq<Node>, other: nat, id: nat)
    requires other != id
    ensures Count(Unlinked(chain, other), id) == Count(chain, id)
    ensures Stamps(Unlinked(chain, other), id) == Stamps(chain, id)
  {
    if chain != [] && chain[0].id != other {
      OtherUnlinked(chain[1..], other, id);
      assert Unlinked(chain, other)[1..] == Unlinked(chain[1..], other);
    }
  }

  // ---- how many nodes there can be -----------------------------------------------------------

  ghost predicate Bounded(s: State, id: nat, initial: nat) {
    && |s.pending| <= s.peak
    && Count(s.chain, id) + |s.pending| <= Max(initial, s.peak) + s.stuck
  }

  lemma StepBounded(s: State, id: nat, e: Event, initial: nat)
    requires Bounded(s, id, initial) && Enabled(s, id, e)
    ensures Bounded(Apply(s, id, e), id, initial)
  {
    match e
    case Unlink(w, reply) => UnlinkedCounts(s.chain, id);
    case Commit(w) =>
      assert ([Node(id, s.clock + 1)] + s.chain)[1..] == s.chain;
    case Abandon(w) =>
    case OtherWrite(node) =>
      assert ([node] + s.chain)[1..] == s.chain;
    case OtherRemove(other) => OtherUnlinked(s.chain, other, id);
  }

  lemma {:induction false} RunBounded(s: State, id: nat, run: seq<Event>, initial: nat)
    requires Bounded(s, id, initial) && Runs(s, id, run)
    ensures Bounded(After(s, id, run), id, initial)
    decreases |run|
  {
    if run != [] {
      StepBounded(s, id, run[0], initial);
      RunBounded(Apply(s, id, run[0]), id, run[1..], initial);
    }
  }

  /** The unlinks of a run that failed and left their node. */
  function LeftBehind(run: seq<Event>): nat {
    if run == [] then 0
    else (if run[0].Unlink? && run[0].reply == Failed(false) then 1 else 0) + LeftBehind(run[1..])
  }

  /** The most writers under way at any point of a run. */
  function MostPending(s: State, id: nat, run: seq<Event>): nat
    decreases |run|
  {
    if run == [] then |s.pending| else Max(|s.pending|, MostPending(Apply(s, id, run[0]), id, run[1..]))
  }

  lemma StepCounts(s: State, id: nat, e: Event)
    requires |s.pending| <= s.peak
    ensures var t := Apply(s, id, e);
            && t.stuck == s.stuck + (if e.Unlink? && e.reply == Failed(false) then 1 else 0)
            && t.peak == Max(s.peak, |t.pending|) && |t.pending| <= t.peak
  {}

  /** The counters of the state count what happened. */
  lemma {:induction false} CountersCount(s: State, id: nat, run: seq<Event>)
    requires |s.pending| <= s.peak
    ensures After(s, id, run).stuck == s.stuck + LeftBehind(run)
    ensures After(s, id, run).peak == Max(s.peak, MostPending(s, id, run))
    decreases |run|
  {
    hide Apply;
    if run != [] {
      StepCounts(s, id, run[0]);
      CountersCount(Apply(s, id, run[0]), id, run[1..]);
    }
  }

  /**
   Over every interleaving, linked nodes plus writers under way stay within the
   initial nodes or the most writers ever under way, plus the unlinks that failed
   and left their node.
   */
  lemma NodesAreBounded(s: State, id: nat, run: seq<Event>)
    requires Fresh(s) && Runs(s, id, run)
    ensures var t := After(s, id, run);
            Count(t.chain, id) + |t.pending| <= Max(Count(s.chain, id), MostPending(s, id, run)) + LeftBehind(run)
  {
    RunBounded(s, id, run, Count(s.chain, id));
    CountersCount(s, id, run);
  }

  // ---- what a read sees --------------------------------------------------------------------

  /** Newer nodes stand before older ones, and none is newer than the latest commit. */
  ghost predicate NewestFirst(stamps: seq<nat>, clock: nat) {
    && (forall i | 0 <= i < |stamps| :: stamps[i] <= clock)
    && (forall i, j | 0 <= i < j < |stamps| :: stamps[j] < stamps[i])
  }

  lemma StepNewestFirst(s: State, id: nat, e: Event)
    requires NewestFirst(Stamps(s.chain, id), s.clock) && Enabled(s, id, e)
    ensures var t := Apply(s, id, e); NewestFirst(Stamps(t.chain, id), t.clock)
  {
    match e
    case Unlink(w, reply) => UnlinkedCounts(s.chain, id);
    case Commit(w) =>
      assert ([Node(id, s.clock + 1)] + s.chain)[1..] == s.chain;
    case Abandon(w) =>
    case OtherWrite(node) =>
      assert ([node] + s.chain)[1..] == s.chain;
    case OtherRemove(other) => OtherUnlinked(s.chain, other, id);
  }

  /** Under every interleaving a read is answered with the newest entry still linked. */
  lemma {:induction false} ReadsTheNewest(s: State, id: nat, run: seq<Event>)
    requires NewestFirst(Stamps(s.chain, id), s.clock) && Runs(s, id, run)
    ensures var t := After(s, id, run);
            && NewestFirst(Stamps(t.chain, id), t.clock)
            && match Read(t.chain, id)
               case None => Stamps(t.chain, id) == []
               case Some(node) =>
                 node.stamp in Stamps(t.chain, id) && forall x | x in Stamps(t.chain, id) :: x <= node.stamp
    decreases |run|
  {
    if run != [] {
      StepNewestFirst(s, id, run[0]);
      ReadsTheNewest(Apply(s, id, run[0]), id, run[1..]);
    } else {
      ReadIsNewest(s.chain, id);
    }
  }

  /** A node under the id is the entry committed last. */
  ghost predicate Current(s: State, id: nat) {
    Stamps(s.chain, id) != [] ==> Stamps(s.chain, id)[0] == s.clock
  }

  /** A read is answered with the entry committed last, or with a miss. */
  ghost predicate ReadIsLast(s: State, id: nat) {
    Read(s.chain, id) == None || Read(s.chain, id) == Some(Node(id, s.clock))
  }

  /** An unlink that takes a node while others stand behind it. */
  predicate Uncovers(s: State, id: nat, e: Event) {
    e.Unlink? && Removes(e.reply) && Count(s.chain, id) > 1
  }

  lemma StepCurrent(s: State, id: nat, e: Event)
    requires NewestFirst(Stamps(s.chain, id), s.clock) && Current(s, id) && Enabled(s, id, e)
    ensures Current(Apply(s, id, e), id) <==> !Uncovers(s, id, e)
  {
    ReadIsNewest(s.chain, id);
    match e
    case Unlink(w, reply) => UnlinkedCounts(s.chain, id);
    case Commit(w) =>
      assert ([Node(id, s.clock + 1)] + s.chain)[1..] == s.chain;
    case Abandon(w) =>
    case OtherWrite(node) =>
      assert ([node] + s.chain)[1..] == s.chain;
    case OtherRemove(other) => OtherUnlinked(s.chain, other, id);
  }

  lemma CurrentIsLast(s: State, id: nat)
    ensures Current(s, id) <==> ReadIsLast(s, id)
  {
    ReadIsNewest(s.chain, id);
  }

  /**
   Exactly when reads are never answered with a superseded entry: at every point of
   the run a read sees the entry committed last or a miss, if and only if no unlink
   of the run takes a node from a chain that holds more than one.
   */
  lemma {:induction false} AlwaysLastIff(s: State, id: nat, run: seq<Event>)
    requires NewestFirst(Stamps(s.chain, id), s.clock) && Current(s, id) && Runs(s, id, run)
    ensures (forall k | 0 <= k <= |run| :: ReadIsLast(After(s, id, run[..k]), id))
            <==> (forall k | 0 <= k < |run| :: !Uncovers(After(s, id, run[..k]), id, run[k]))
    decreases |run|
  {
    hide Current, ReadIsLast, Uncovers, NewestFirst, Apply, Enabled;
    CurrentIsLast(s, id);
    if run != [] {
      var t, rest := Apply(s, id, run[0]), run[1..];
      StepCurrent(s, id, run[0]);
      CurrentIsLast(t, id);
      assert run[..0] == [] && run[..1][1..] == [];
      assert After(s, id, run[..1]) == t;
      forall k | 0 <= k <= |rest| ensures After(s, id, run[..k + 1]) == After(t, id, rest[..k]) {
        assert run[..k + 1][1..] == rest[..k];
      }
      if !Uncovers(s, id, run[0]) {
        StepNewestFirst(s, id, run[0]);
        AlwaysLastIff(t, id, rest);
        Shifted(s, t, id, run);
      } else {
        assert !ReadIsLast(After(s, id, run[..1]), id);
        assert Uncovers(After(s, id, run[..0]), id, run[0]);
      }
    }
  }

  /** What holds along the rest of a run and at its start holds along the run. */
  lemma Shifted(s: State, t: State, id: nat, run: seq<Event>)
    requires run != [] && (forall k | 0 <= k < |run| :: After(s, id, run[..k + 1]) == After(t, id, run[1..][..k]))
    requires ReadIsLast(After(s, id, run[..0]), id) && !Uncovers(After(s, id, run[..0]), id, run[0])
    ensures (forall k | 0 <= k <= |run| :: ReadIsLast(After(s, id, run[..k]), id))
            <==> forall k | 0 <= k < |run| :: ReadIsLast(After(t, id, run[1..][..k]), id)
    ensures (forall k | 0 <= k < |run| :: !Uncovers(After(s, id, run[..k]), id, run[k]))
            <==> forall k | 0 <= k < |run| - 1 :: !Uncovers(After(t, id, run[1..][..k]), id, run[1..][k])
  {
    hide ReadIsLast, Uncovers, After;
    forall k | 0 <= k < |run| ensures After(t, id, run[1..][..k]) == After(s, id, run[..k + 1]) {}
    if forall k | 0 <= k < |run| :: ReadIsLast(After(t, id, run[1..][..k]), id) {
      forall k | 0 <= k <= |run| ensures ReadIsLast(After(s, id, run[..k]), id) {
        if k > 0 { assert ReadIsLast(After(t, id, run[1..][..k - 1]), id); }
      }
    }
    if forall k | 0 <= k < |run| - 1 :: !Uncovers(After(t, id, run[1..][..k]), id, run[1..][k]) {
      forall k | 0 <= k < |run| ensures !Uncovers(After(s, id, run[..k]), id, run[k]) {
        if k > 0 { assert !Uncovers(After(t, id, run[1..][..k - 1]), id, run[1..][k - 1]); }
      }
    }
    if forall k | 0 <= k < |run| :: !Uncovers(After(s, id, run[..k]), id, run[k]) {
      forall k | 0 <= k < |run| - 1 ensures !Uncovers(After(t, id, run[1..][..k]), id, run[1..][k]) {
        assert !Uncovers(After(s, id, run[..k + 1]), id, run[k + 1]);
      }
    }
  }

  lemma {:induction false} PeakGrows(s: State, id: nat, run: seq<Event>)
    ensures s.peak <= After(s, id, run).peak && s.stuck <= After(s, id, run).stuck
    decreases |run|
  {
    if run != [] { PeakGrows(Apply(s, id, run[0]), id, run[1..]); }
  }

  lemma {:induction false} StaysCurrent(s: State, id: nat, run: seq<Event>)
    requires Bounded(s, id, 1) && NewestFirst(Stamps(s.chain, id), s.clock) && Current(s, id) && Runs(s, id, run)
    requires After(s, id, run).peak <= 1 && After(s, id, run).stuck == 0
    ensures Current(After(s, id, run), id)
    decreases |run|
  {
    if run != [] {
      PeakGrows(s, id, run);
      StepBounded(s, id, run[0], 1);
      StepCurrent(s, id, run[0]);
      StepNewestFirst(s, id, run[0]);
      StaysCurrent(Apply(s, id, run[0]), id, run[1..]);
    }
  }

  /**
   From at most one node, with one writer at a time and no unlink that left its
   node, there is at most one node, and a read sees the entry committed last or a miss.
   */
  lemma OneWriterReplaces(s: State, id: nat, run: seq<Event>)
    requires Fresh(s) && Count(s.chain, id) <= 1 && Current(s, id) && Runs(s, id, run)
    requires After(s, id, run).peak <= 1 && After(s, id, run).stuck == 0
    ensures var t := After(s, id, run);
            && Count(t.chain, id) + |t.pending| <= 1
            && ReadIsLast(t, id)
  {
    RunBounded(s, id, run, 1);
    ReadIsNewest(s.chain, id);
    StaysCurrent(s, id, run);
    CurrentIsLast(After(s, id, run), id);
  }

  // ---- other ids ------------------------------------------------------------------------------

  function OtherEvents(run: seq<Event>): seq<Event> {
    if run == [] then []
    else (if run[0].OtherWrite? || run[0].OtherRemove? then [run[0]] else []) + OtherEvents(run[1..])
  }

  lemma {:induction false} OthersOfUnlinked(chain: seq<Node>, id: nat, other: nat)
    requires other != id
    ensures Others(Unlinked(chain, other), id) == Unlinked(Others(chain, id), other)
  {
    if chain != [] {
      var rest := Others(chain[1..], id);
      OthersOfUnlinked(chain[1..], id, other);
      if chain[0].id == other {
        assert ([chain[0]] + rest)[1..] == rest;
      } else {
        assert ([chain[0]] + Unlinked(chain[1..], other))[1..] == Unlinked(chain[1..], other);
        if chain[0].id != id {
          assert ([chain[0]] + rest)[1..] == rest;
        } else {
          assert [] + rest == rest;
        }
      }
    }
  }

  /** Writers of the sentinel neither lose nor reorder anything stored under other ids. */
  lemma {:induction false} OthersUntouched(s: State, t: State, id: nat, run: seq<Event>)
    requires Others(s.chain, id) == Others(t.chain, id) && Runs(s, id, run)
    ensures Others(After(s, id, run).chain, id) == Others(After(t, id, OtherEvents(run)).chain, id)
    decreases |run|
  {
    if run != [] {
      var e := run[0];
      var s' := Apply(s, id, e);
      if e.OtherWrite? || e.OtherRemove? {
        var t' := Apply(t, id, e);
        assert ([e] + OtherEvents(run[1..]))[1..] == OtherEvents(run[1..]);
        if e.OtherWrite? {
          assert s'.chain[1..] == s.chain && t'.chain[1..] == t.chain;
        } else {
          OthersOfUnlinked(s.chain, id, e.other);
          OthersOfUnlinked(t.chain, id, e.other);
        }
        OthersUntouched(s', t', id, run[1..]);
      } else {
        UnlinkedCounts(s.chain, id);
        if e.Commit? { assert s'.chain[1..] == s.chain; }
        assert [] + OtherEvents(run[1..]) == OtherEvents(run[1..]);
        OthersUntouched(s', t, id, run[1..]);
      }
    }
  }

  // ---- concurrent writers ----------------------------------------------------------------------

  ghost function Writers(k: nat): (ws: set<nat>)
    ensures |ws| == k && forall w | w in ws :: w < k
  {
    if k == 0 then {} else Writers(k - 1) + {k - 1}
  }

  /** Writers `k` up to `n` find nothing to unlink. */
  lemma {:induction false} Arrivals(s: State, id: nat, k: nat, n: nat) returns (run: seq<Event>)
    requires k <= n && Count(s.chain, id) == 0 && s.pending == Writers(k) && s.peak == k
    ensures Runs(s, id, run) && After(s, id, run) == s.(pending := Writers(n), peak := n)
    decreases n - k
  {
    if k == n {
      run := [];
    } else {
      var e := Unlink(k, NothingThere);
      assert Writers(k + 1) == Writers(k) + {k};
      var rest := Arrivals(Apply(s, id, e), id, k + 1, n);
      run := [e] + rest;
      assert run[1..] == rest;
    }
  }

  /** Then each of them commits. */
  lemma {:induction false} Departures(s: State, id: nat, k: nat) returns (run: seq<Event>)
    requires s.pending == Writers(k)
    ensures Runs(s, id, run)
    ensures var t := After(s, id, run);
            && t.pending == {} && t.peak == s.peak && t.failures == s.failures && t.stuck == s.stuck
            && Count(t.chain, id) == Count(s.chain, id) + k
    decreases k
  {
    if k == 0 {
      run := [];
    } else {
      var e := Commit(k - 1);
      var t := Apply(s, id, e);
      assert t.pending == Writers(k - 1);
      assert t.chain[1..] == s.chain;
      var rest := Departures(t, id, k - 1);
      run := [e] + rest;
      assert run[1..] == rest;
    }
  }

  lemma {:induction false} RunTwice(s: State, id: nat, a: seq<Event>, b: seq<Event>)
    requires Runs(s, id, a) && Runs(After(s, id, a), id, b)
    ensures Runs(s, id, a + b) && After(s, id, a + b) == After(After(s, id, a), id, b)
    decreases |a|
  {
    if a == [] {
      assert a + b == b;
    } else {
      assert (a + b)[1..] == a[1..] + b;
      RunTwice(Apply(s, id, a[0]), id, a[1..], b);
    }
  }

  /** The bound is reached: `k` concurrent writers leave `k` nodes, without any failed unlink. */
  lemma BoundIsTight(id: nat, k: nat) returns (s: State, run: seq<Event>)
    ensures Fresh(s) && Count(s.chain, id) == 0 && Runs(s, id, run)
    ensures var t := After(s, id, run);
            t.pending == {} && t.peak == k && t.failures == 0 && t.stuck == 0 && Count(t.chain, id) == k
  {
    s := State([], {}, 0, 0, 0, 0);
    var a := Arrivals(s, id, 0, k);
    var t := After(s, id, a);
    var b := Departures(t, id, k);
    RunTwice(s, id, a, b);
    run := a + b;
  }

  /** One writer at a time, none of which fails to unlink or gives up. */
  ghost predicate Serial(s: State, id: nat, run: seq<Event>)
    decreases |run|
  {
    run != [] ==>
      && (run[0].Unlink? ==> s.pending == {} && !run[0].reply.Failed?)
      && !run[0].Abandon?
      && Serial(Apply(s, id, run[0]), id, run[1..])
  }

  /**
   Unlink one, write one is a fixed point: on every run of writers one at a time,
   the nodes and the writer under way together stay as many as they were.
   */
  lemma {:induction false} DepthRatchets(s: State, id: nat, run: seq<Event>)
    requires Runs(s, id, run) && Serial(s, id, run) && Count(s.chain, id) + |s.pending| > 0
    ensures var t := After(s, id, run); Count(t.chain, id) + |t.pending| == Count(s.chain, id) + |s.pending|
    decreases |run|
  {
    if run != [] {
      var t := Apply(s, id, run[0]);
      match run[0] {
        case Unlink(w, reply) => UnlinkedCounts(s.chain, id);
        case Commit(w) => assert t.chain[1..] == s.chain;
        case OtherWrite(node) => assert t.chain[1..] == s.chain;
        case OtherRemove(other) => OtherUnlinked(s.chain, other, id);
      }
      DepthRatchets(t, id, run[1..]);
    }
  }

  /** Such runs exist, for any writers in any number. */
  lemma {:induction false} SerialWriters(s: State, id: nat, writers: seq<nat>) returns (run: seq<Event>)
    requires s.pending == {} && Count(s.chain, id) > 0
    ensures Runs(s, id, run) && Serial(s, id, run)
    ensures After(s, id, run).pending == {} && After(s, id, run).clock == s.clock + |writers|
    decreases |writers|
  {
    if writers == [] {
      run := [];
    } else {
      var w := writers[0];
      var a := Apply(s, id, Unlink(w, Removed));
      UnlinkedCounts(s.chain, id);
      var b := Apply(a, id, Commit(w));
      assert b.chain[1..] == a.chain;
      var rest := SerialWriters(b, id, writers[1..]);
      run := [Unlink(w, Removed), Commit(w)] + rest;
      assert run[1..] == [Commit(w)] + rest && run[1..][1..] == rest;
    }
  }

  /** With two writers under way at once, a later unlink can bring back an entry that was superseded. */
  lemma ConcurrentWritersResurrect(id: nat) returns (run: seq<Event>)
    ensures var s := State([], {}, 0, 0, 0, 0);
            && Runs(s, id, run) && After(s, id, run).failures == 0 && After(s, id, run).peak == 2
            && Read(After(s, id, run).chain, id) == Some(Node(id, 1)) && After(s, id, run).clock == 2
  {
    var s0 := State([], {}, 0, 0, 0, 0);
    var s1 := Apply(s0, id, Unlink(1, NothingThere));
    var s2 := Apply(s1, id, Unlink(2, NothingThere));
    assert s1.pending == {1} && s2.pending == {1, 2};
    var s3 := Apply(s2, id, Commit(1));
    var s4 := Apply(s3, id, Commit(2));
    assert s4.chain == [Node(id, 2), Node(id, 1)] && s4.pending == {};
    var s5 := Apply(s4, id, Unlink(1, Removed));
    assert s5.chain == [Node(id, 1)];
    run := [Unlink(1, NothingThere), Unlink(2, NothingThere), Commit(1), Commit(2), Unlink(1, Removed)];
    assert run[1..][1..][1..][1..] == [Unlink(1, Removed)];
    assert Runs(s4, id, [Unlink(1, Removed)]) && After(s4, id, [Unlink(1, Removed)]) == s5;
    assert run[1..][1..][1..] == [Commit(2), Unlink(1, Removed)];
    assert Runs(s3, id, run[1..][1..][1..]);
    assert run[1..][1..] == [Commit(1), Commit(2), Unlink(1, Removed)];
    assert Runs(s2, id, run[1..][1..]);
    assert run[1..] == [Unlink(2, NothingThere), Commit(1), Commit(2), Unlink(1, Removed)];
    assert Runs(s1, id, run[1..]);
  }

  // ---- the writer's side ------------------------------------------------------------------------

  /** The storage's answer to an unlink, as the writer receives it. */
  function Answer(reply: Reply, code: nat): Option<CacheError> {
    match reply
    case Removed => None
    case NothingThere => Some(AlternateNotFound)
    case Failed(_) => Some(OtherError(code))
  }

  /** One key with the counters of the class; `model` follows the protocol. */
  class SentinelSlot {
    const id: nat
    var chain: seq<Node>
    var unlinkFailed: nat
    var supersededObserved: nat
    ghost var model: State

    constructor (id: nat)
      ensures this.id == id && chain == [] && unlinkFailed == 0 && supersededObserved == 0
      ensures model == State([], {}, 0, 0, 0, 0) && Valid()
    {
      this.id := id;
      chain, unlinkFailed, supersededObserved := [], 0, 0;
      model := State([], {}, 0, 0, 0, 0);
    }

    ghost predicate Valid()
      reads this
    {
      model.chain == chain && model.failures == unlinkFailed
    }

    /** A key without alternates has no nodes; after another listing error the depth is not known. */
    method CountChainNodes(listError: Option<CacheError>) returns (nodes: Option<nat>)
      ensures nodes == match listError
                       case None => Some(Count(chain, id))
                       case Some(e) => if e.NotFound? || e.AlternateNotFound? then Some(0) else None
    {
      if listError.Some? {
        return if listError.value.NotFound? || listError.value.AlternateNotFound? then Some(0) else None;
      }
      var n := 0;
      for i := 0 to |chain|
        invariant n + Count(chain[i..], id) == Count(chain, id)
      {
        assert chain[i..][0] == chain[i] && chain[i..][1..] == chain[i + 1..];
        if chain[i].id == id { n := n + 1; }
      }
      return Some(n);
    }

    /** The storage operation: it searches the chain for the first node with the id. */
    method RemoveAlternate(reply: Reply, code: nat) returns (error: Option<CacheError>)
      modifies this`chain
      ensures error == Answer(reply, code)
      ensures chain == if Removes(reply) then Unlinked(old(chain), id) else old(chain)
    {
      error := Answer(reply, code);
      if !Removes(reply) { return; }
      var before, rest := [], chain;
      while rest != [] && rest[0].id != id
        invariant before + rest == chain
        invariant Unlinked(chain, id) == before + Unlinked(rest, id)
        decreases |rest|
      {
        assert before + ([rest[0]] + Unlinked(rest[1..], id)) == before + [rest[0]] + Unlinked(rest[1..], id);
        before, rest := before + [rest[0]], rest[1..];
      }
      chain := if rest == [] then before else before + rest[1..];
      assert rest == [] ==> before + [] == before;
    }

    /**
     Counts what arrived, unlinks, and leaves the writer ready to commit.  As long as
     chains can be listed, every store that may bring back a superseded entry is
     counted as having found more than one node.
     */
    method WriteSentinel(writer: nat, listError: Option<CacheError>, reply: Reply, code: nat)
      requires Valid() && Enabled(model, id, Unlink(writer, reply))
      modifies this
      ensures Valid() && model == Apply(old(model), id, Unlink(writer, reply))
      ensures supersededObserved
           == old(supersededObserved) + if listError.None? && Count(old(chain), id) > 1 then 1 else 0
      ensures listError.None? && Uncovers(old(model), id, Unlink(writer, reply))
              ==> supersededObserved > old(supersededObserved)
    {
      var nodes := CountChainNodes(listError);
      if nodes.Some? && nodes.value > 1 { supersededObserved := supersededObserved + 1; }
      var error := RemoveAlternate(reply, code);
      if error.Some? && UnlinkLeftEntryLinked(error.value) { unlinkFailed := unlinkFailed + 1; }
      model := Apply(model, id, Unlink(writer, reply));
    }

    /** Closing the handle links the entry, stamped as the next one, in front. */
    method Close(writer: nat, stamp: nat)
      requires Valid() && Enabled(model, id, Commit(writer)) && stamp == model.clock + 1
      modifies this`chain, this`model
      ensures Valid() && model == Apply(old(model), id, Commit(writer))
    {
      model := Apply(model, id, Commit(writer));
      chain := [Node(id, stamp)] + chain;
    }
  }
}
