/** Choosing the stored variant that fits a client best. */
module Selector {
  import opened Options

  type Id = x: int | 0 <= x < 256

  const ORIGINAL_CONTENT: Id := 0x0C
  const AGENT_MARKDOWN: Id := 0x7C
  const SVG := 3
  const MARKDOWN_SCORE := 100000
  const SAVE_DATA_PENALTY := 980

  // ---- the fields of a capability mask ----------------------------------------------------

  function Format(mask: nat): nat { mask % 4 }

  function Viewport(mask: nat): nat { mask / 4 % 4 }

  function Density(mask: nat): nat { mask / 16 % 2 }

  function SaveData(mask: nat): nat { mask / 32 % 2 }

  function Encoding(mask: nat): nat { mask / 64 % 4 }

  /** Ids no client mask can name: bookkeeping entries, not variants. */
  predicate IsSentinel(id: Id) {
    Viewport(id) == 3
  }

  // ---- the score -------------------------------------------------------------------------------

  predicate FormatAdmitted(client: nat, stored: nat) {
    Format(stored) == SVG || Format(stored) == Format(client) || Format(stored) == 0
  }

  predicate EncodingAdmitted(client: nat, stored: nat) {
    Encoding(stored) == Encoding(client) || Encoding(stored) == 0
  }

  method ScoreAlternate(client: nat, stored: nat) returns (score: nat)
    ensures score == Score(client, stored)
  {
    if Viewport(stored) == 3 { return 0; }
    var s: int := 0;
    var svg := Format(stored) == SVG;
    if svg {
      s := 1200;
    } else if Format(client) == Format(stored) {
      s := 1000;
    } else if Format(stored) == 0 {
      s := 100;
    } else {
      return 0;
    }
    if svg || Viewport(client) == Viewport(stored) { s := s + 2000; }
    if svg || Density(client) == Density(stored) { s := s + 40; }
    if svg && SaveData(client) == 1 {
      s := s + 50;
    } else if SaveData(client) == SaveData(stored) {
      s := s + 20;
    } else if !svg && SaveData(stored) == 1 {
      s := s - SAVE_DATA_PENALTY;
    }
    if Encoding(client) == Encoding(stored) {
      s := s + 60;
    } else if Encoding(stored) == 0 {
      s := s + 5;
    } else {
      return 0;
    }
    return if s > 0 then s else 1;
  }

  /** The sum of the points per dimension; zero for what the client may not get. */
  function Score(client: nat, stored: nat): nat {
    if Viewport(stored) == 3 || !FormatAdmitted(client, stored) || !EncodingAdmitted(client, stored) then 0
    else
      var s := Points(client, stored);
      if s > 0 then s else 1
  }

  function Points(client: nat, stored: nat): int {
    var svg := Format(stored) == SVG;
    (if svg then 1200 else if Format(client) == Format(stored) then 1000 else 100)
    + (if svg || Viewport(client) == Viewport(stored) then 2000 else 0)
    + (if svg || Density(client) == Density(stored) then 40 else 0)
    + (if svg && SaveData(client) == 1 then 50
       else if SaveData(client) == SaveData(stored) then 20
       else if !svg && SaveData(stored) == 1 then -SAVE_DATA_PENALTY else 0)
    + (if Encoding(client) == Encoding(stored) then 60 else 5)
  }

  // ---- the selection ------------------------------------------------------------------------------

  /** How much an alternate is wanted; an entitled agent wants its Markdown most. */
  function Rank(client: nat, agent: bool, id: Id): nat {
    if IsSentinel(id) then (if id == AGENT_MARKDOWN && agent then MARKDOWN_SCORE else 0) else Score(client, id)
  }

  /** `a` is preferred to `b`: by rank, then format, then the id itself. */
  predicate Beats(client: nat, agent: bool, a: Id, b: Id) {
    var ra, rb := Rank(client, agent, a), Rank(client, agent, b);
    ra > rb || (ra == rb && (Format(a) > Format(b) || (Format(a) == Format(b) && a > b)))
  }

  /** The id every other candidate yields to. */
  ghost predicate Best(client: nat, agent: bool, ids: seq<Id>, best: Id) {
    && best in ids && Rank(client, agent, best) > 0
    && forall b | b in ids && b != best :: Beats(client, agent, best, b)
  }

  ghost predicate NoCandidate(client: nat, agent: bool, ids: seq<Id>) {
    forall b | b in ids :: Rank(client, agent, b) == 0
  }

  lemma ScoreIsSmall(client: nat, stored: nat)
    ensures Score(client, stored) < MARKDOWN_SCORE
  {}

  /** One more alternate: it replaces the best one exactly if it beats it. */
  lemma BestOfMore(client: nat, agent: bool, ids: seq<Id>, prior: Id, id: Id)
    requires Best(client, agent, ids, prior)
    ensures Best(client, agent, ids + [id], if Beats(client, agent, id, prior) then id else prior)
  {
    hide Rank, Format;
  }

  lemma FirstCandidate(client: nat, agent: bool, ids: seq<Id>, id: Id)
    requires NoCandidate(client, agent, ids)
    ensures if Rank(client, agent, id) > 0 then Best(client, agent, ids + [id], id)
            else NoCandidate(client, agent, ids + [id])
  {
    hide Rank, Format;
  }

  method Select(client: nat, agent: bool, ids: seq<Id>) returns (best: Option<nat>)
    ensures match best
            case None => NoCandidate(client, agent, ids)
            case Some(k) => k < |ids| && Best(client, agent, ids, ids[k])
  {
    hide Score, IsSentinel, Format, Best, NoCandidate;
    best := None;
    var bestScore, bestMask: Id := 0, 0;
    assert NoCandidate(client, agent, ids[..0]) by { Nobody(client, agent); }
    for i := 0 to |ids|
      invariant match best
                case None => bestScore == 0 && NoCandidate(client, agent, ids[..i])
                case Some(k) =>
                  && k < i && Best(client, agent, ids[..i], ids[k])
                  && bestScore == Rank(client, agent, ids[k]) && bestScore > 0
                  && (!IsSentinel(ids[k]) ==> bestMask == ids[k])
    {
      var id := ids[i];
      assert ids[..i + 1] == ids[..i] + [id];
      ScoreIsSmall(client, id);
      if best.Some? {
        BestOfMore(client, agent, ids[..i], ids[best.value], id);
        ScoreIsSmall(client, ids[best.value]);
      } else {
        FirstCandidate(client, agent, ids[..i], id);
      }
      if IsSentinel(id) {
        SentinelIds();
        if id != ORIGINAL_CONTENT && agent && id == AGENT_MARKDOWN && MARKDOWN_SCORE > bestScore {
          bestScore, best := MARKDOWN_SCORE, Some(i);
        }
      } else {
        var score := ScoreAlternate(client, id);
        var wins := score > bestScore;
        if !wins && best.Some? && score == bestScore {
          wins := Format(id) > Format(bestMask) || (Format(id) == Format(bestMask) && id > bestMask);
        }
        if wins { bestScore, best, bestMask := score, Some(i), id; }
      }
    }
    assert ids[..|ids|] == ids;
  }

  lemma Nobody(client: nat, agent: bool)
    ensures NoCandidate(client, agent, [])
  {}

  lemma SentinelIds()
    ensures IsSentinel(ORIGINAL_CONTENT) && IsSentinel(AGENT_MARKDOWN)
  {}

  // ---- what is guaranteed -----------------------------------------------------------------------------

  /** There is one best id at most, so the order of the list does not matter. */
  lemma OneBest(client: nat, agent: bool, a: seq<Id>, b: seq<Id>, x: Id, y: Id)
    requires multiset(a) == multiset(b) && Best(client, agent, a, x) && Best(client, agent, b, y)
    ensures x == y
  {
    hide Rank, Format;
    assert x in multiset(a) && y in multiset(b);
    assert x in multiset(b) && y in multiset(a);
    assert x != y ==> Beats(client, agent, x, y) && Beats(client, agent, y, x);
  }

  lemma SameCandidates(client: nat, agent: bool, a: seq<Id>, b: seq<Id>, x: Id)
    requires multiset(a) == multiset(b) && NoCandidate(client, agent, a)
    ensures !Best(client, agent, b, x)
  {
    if x in b {
      assert x in multiset(b);
      assert x in multiset(a);
    }
  }

  /** Two listings of the same alternates, in any order, lead to the same id or both to none. */
  method SelectsRegardlessOfOrder(client: nat, agent: bool, a: seq<Id>, b: seq<Id>)
    returns (x: Option<nat>, y: Option<nat>)
    requires multiset(a) == multiset(b)
    ensures match (x, y)
            case (None, None) => true
            case (Some(i), Some(j)) => i < |a| && j < |b| && a[i] == b[j]
            case _ => false
  {
    x := Select(client, agent, a);
    y := Select(client, agent, b);
    if x.Some? && y.Some? {
      OneBest(client, agent, a, b, a[x.value], b[y.value]);
    } else if x.Some? {
      SameCandidates(client, agent, b, a, a[x.value]);
    } else if y.Some? {
      SameCandidates(client, agent, a, b, b[y.value]);
    }
  }

  /** What a client gets it can decode; bookkeeping entries are never served, Markdown only to agents. */
  lemma SelectedIsAdmissible(client: nat, agent: bool, ids: seq<Id>, best: Id)
    requires Best(client, agent, ids, best)
    ensures best != ORIGINAL_CONTENT
    ensures IsSentinel(best) ==> best == AGENT_MARKDOWN && agent
    ensures !IsSentinel(best) ==> Format(best) in {0, 3, Format(client)} && Encoding(best) in {0, Encoding(client)}
    ensures agent && AGENT_MARKDOWN in ids ==> best == AGENT_MARKDOWN
  {
    ScoreIsSmall(client, best);
    assert agent && AGENT_MARKDOWN in ids && best != AGENT_MARKDOWN ==> Beats(client, agent, best, AGENT_MARKDOWN);
  }

  /** A variant the client may get at all. */
  predicate Admissible(client: nat, id: Id) {
    !IsSentinel(id) && Format(id) in {0, 3, Format(client)} && Encoding(id) in {0, Encoding(client)}
  }

  lemma AdmissibleIsCandidate(client: nat, agent: bool, id: Id)
    requires !IsSentinel(id)
    ensures Admissible(client, id) <==> Rank(client, agent, id) > 0
  {}

  predicate FitsViewport(client: nat, id: Id) {
    Format(id) == SVG || Viewport(id) == Viewport(client)
  }

  /** The size class outweighs all other dimensions together. */
  lemma ViewportDominates(client: nat, a: Id, b: Id)
    requires Admissible(client, a) && FitsViewport(client, a) && Admissible(client, b) && !FitsViewport(client, b)
    ensures Score(client, a) > Score(client, b)
  {}

  /** Wherever an admissible variant of the client's size exists, a variant of that size, or an SVG, is selected. */
  lemma SelectedFitsViewport(client: nat, agent: bool, ids: seq<Id>, best: Id, other: Id)
    requires Best(client, agent, ids, best) && !IsSentinel(best)
    requires other in ids && Admissible(client, other) && FitsViewport(client, other)
    ensures FitsViewport(client, best)
  {
    hide Score, FitsViewport, IsSentinel, FormatAdmitted, EncodingAdmitted, Format;
    AdmissibleIsCandidate(client, agent, best);
    if !FitsViewport(client, best) { ViewportDominates(client, other, best); }
    assert best != other ==> Beats(client, agent, best, other);
  }

  /** Reduced quality the client did not ask for. */
  predicate Reduced(client: nat, id: Id) {
    Format(id) != SVG && SaveData(client) == 0 && SaveData(id) == 1
  }

  lemma NormalDominates(client: nat, a: Id, b: Id)
    requires Admissible(client, a) && FitsViewport(client, a) && !Reduced(client, a)
    requires Admissible(client, b) && Reduced(client, b)
    ensures Score(client, a) > Score(client, b)
  {}

  /** A reduced raster variant is never selected over a normal admissible one at the client's size. */
  lemma ReducedNeverWins(client: nat, agent: bool, ids: seq<Id>, best: Id, other: Id)
    requires Best(client, agent, ids, best) && !IsSentinel(best)
    requires other in ids && Admissible(client, other) && FitsViewport(client, other) && !Reduced(client, other)
    ensures !Reduced(client, best)
  {
    hide Score, FitsViewport, IsSentinel, FormatAdmitted, EncodingAdmitted, Format, Reduced;
    AdmissibleIsCandidate(client, agent, best);
    if Reduced(client, best) { NormalDominates(client, other, best); }
    assert best != other ==> Beats(client, agent, best, other);
  }

  // ---- the order of preference, without points ----------------------------------------------------------

  lemma Quarters(low: nat, above: nat)
    requires low < 4
    ensures (low + 4 * above) / 4 == above && (low + 4 * above) % 4 == low
  {}

  lemma Halves(low: nat, above: nat)
    requires low < 2
    ensures (low + 2 * above) / 2 == above && (low + 2 * above) % 2 == low
  {}

  lemma Shifts(mask: nat)
    ensures mask / 16 == mask / 4 / 4 && mask / 32 == mask / 16 / 2 && mask / 64 == mask / 32 / 2
  {}

  /** The fields of a mask are its bits from the lowest up: format, size class, density, Save-Data, encoding. */
  lemma MaskFields(format: nat, viewport: nat, density: nat, saveData: nat, encoding: nat, high: nat)
    requires format < 4 && viewport < 4 && density < 2 && saveData < 2 && encoding < 4
    ensures var mask := format + 4 * viewport + 16 * density + 32 * saveData + 64 * encoding + 256 * high;
            && Format(mask) == format && Viewport(mask) == viewport && Density(mask) == density
            && SaveData(mask) == saveData && Encoding(mask) == encoding
  {
    var d := encoding + 4 * high;
    var c := saveData + 2 * d;
    var b := density + 2 * c;
    var a := viewport + 4 * b;
    var mask := format + 4 * a;
    Quarters(format, a);
    Quarters(viewport, b);
    Halves(density, c);
    Halves(saveData, d);
    Quarters(encoding, high);
    Shifts(mask);
  }

  /** What counts for a variant, most important first. */
  datatype Merit = Merit(tier: nat, exact: bool, matches: nat, encoding: bool, density: bool)

  /**
   An SVG comes before every raster; a raster of the client's size before one of
   another size, and of each the reduced ones the client did not ask for last.  Then
   the client's format comes before the original one.  Then it counts how many of
   encoding, density and Save-Data match; encoding before density before Save-Data.
   */
  function MeritOf(client: nat, id: Id): Merit {
    var svg, fits, reduced := Format(id) == 3, Viewport(id) == Viewport(client), Reduced(client, id);
    var tier := if svg then 5 else if fits && !reduced then 4 else if fits then 3 else if !reduced then 2 else 1;
    var exact := svg || Format(id) == Format(client);
    var encoding, density := Encoding(id) == Encoding(client), svg || Density(id) == Density(client);
    var saveData := SaveData(id) == SaveData(client) || (svg && SaveData(client) == 1);
    var matches := (if encoding then 1 else 0) + (if density then 1 else 0) + (if saveData then 1 else 0);
    if tier == 1 && !exact then Merit(1, false, 0, false, false) else Merit(tier, exact, matches, encoding, density)
  }

  predicate Better(a: Merit, b: Merit) {
    || a.tier > b.tier
    || (a.tier == b.tier
        && (|| (a.exact && !b.exact)
            || (a.exact == b.exact
                && (|| a.matches > b.matches
                    || (a.matches == b.matches
                        && ((a.encoding && !b.encoding) || (a.encoding == b.encoding && a.density && !b.density)))))))
  }

  /** Points compare as merits do, and only variants of one format have the same points. */
  lemma MeritDecides(client: nat, a: Id, b: Id)
    requires Admissible(client, a) && Admissible(client, b)
    ensures Score(client, a) > Score(client, b) <==> Better(MeritOf(client, a), MeritOf(client, b))
    ensures Score(client, a) == Score(client, b) ==> Format(a) == Format(b)
  {
    hide Format, Viewport, Density, SaveData, Encoding;
    DataBit(client);
    DataBit(a);
    DataBit(b);
  }

  lemma DataBit(mask: nat)
    ensures SaveData(mask) == 0 || SaveData(mask) == 1
  {}

  /** The variant selected has the greatest merit, and of equal ones the greatest id. */
  lemma SelectedByMerit(client: nat, agent: bool, ids: seq<Id>, best: Id, other: Id)
    requires Best(client, agent, ids, best) && !IsSentinel(best) && other in ids && Admissible(client, other)
    ensures other == best || Better(MeritOf(client, best), MeritOf(client, other))
            || (!Better(MeritOf(client, other), MeritOf(client, best)) && best > other)
  {
    hide Score, IsSentinel, FormatAdmitted, EncodingAdmitted, Format, MeritOf, Better;
    AdmissibleIsCandidate(client, agent, best);
    AdmissibleIsCandidate(client, agent, other);
    MeritDecides(client, best, other);
    MeritDecides(client, other, best);
    assert best != other ==> Beats(client, agent, best, other);
  }
}
