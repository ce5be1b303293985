/**
 * The score store of a round: a round is a sequence of holes, each hole a map
 * from player name to that player's dots on the hole. The store builds a
 * zeroed round, rebuilds a round for a new hole count and roster while
 * keeping what was recorded, and adds a delta to one cell, clamping at 0.
 */
module Scores {
  import opened Dots

  /** A round: one HoleScores per hole, hole 0 first. */
  type GameScores = seq<HoleScores>

  /** The players of a roster as a set (a roster may in principle repeat a name). */
  function PlayerSet(players: seq<string>): set<string> {
    set p | p in players
  }

  /** The value of a cell, with a missing entry read as 0 (the `?? 0` of the store). */
  function Cell(hole: HoleScores, p: string): (v: int)
    ensures NonNegativeHole(hole) ==> v >= 0
    ensures AllZero(hole) ==> v == 0
  {
    if p in hole then hole[p] else 0
  }

  /** The round has `holes` holes and every hole has exactly the roster as its keys. */
  ghost predicate Shaped(scores: GameScores, holes: nat, players: seq<string>) {
    && |scores| == holes
    && forall i :: 0 <= i < |scores| ==> scores[i].Keys == PlayerSet(players)
  }

  /** Every value recorded in the round is non-negative. */
  ghost predicate NonNegative(scores: GameScores) {
    forall i :: 0 <= i < |scores| ==> NonNegativeHole(scores[i])
  }

  /** A hole holding every player of the roster with 0 dots. */
  function ZeroHole(players: seq<string>): (h: HoleScores)
    ensures h.Keys == PlayerSet(players)
    ensures AllZero(h)
  {
    map p | p in players :: 0
  }

  /** A zeroed round of `holes` holes for the given roster. */
  function CreateEmptyScores(holes: nat, players: seq<string>): (r: GameScores)
    ensures Shaped(r, holes, players)
    ensures forall i, p :: 0 <= i < |r| && p in r[i] ==> r[i][p] == 0
  {
    seq(holes, _ => ZeroHole(players))
  }

  /** Hole `i` of the rebuilt round: the roster's values on the old hole `i`, 0 where absent. */
  function ReconcileHole(prev: GameScores, i: nat, players: seq<string>): (h: HoleScores)
    ensures h.Keys == PlayerSet(players)
    ensures i >= |prev| ==> h == ZeroHole(players)
    ensures i < |prev| && prev[i].Keys == PlayerSet(players) ==> h == prev[i]
  {
    var prevHole := if i < |prev| then prev[i] else map[];
    map p | p in players :: Cell(prevHole, p)
  }

  /**
   * The round rebuilt for `holes` holes and the roster `players`: a value
   * recorded for a retained player on a retained hole is carried over;
   * new players and new holes start at 0; players off the roster are dropped.
   */
  function ReconcileScores(prev: GameScores, holes: nat, players: seq<string>): (r: GameScores)
    ensures Shaped(r, holes, players)
    ensures forall i, p :: 0 <= i < |r| && i < |prev| && p in r[i] && p in prev[i] ==> r[i][p] == prev[i][p]
    ensures forall i, p :: 0 <= i < |r| && p in r[i] && (i >= |prev| || p !in prev[i]) ==> r[i][p] == 0
  {
    seq(holes, i requires 0 <= i => ReconcileHole(prev, i, players))
  }

  /** The value a cell takes when `delta` is added: the sum, clamped at 0. */
  function Clamped(current: int, delta: int): (v: int)
    ensures v >= 0
    ensures v >= current + delta
    ensures v == current + delta || v == 0
  {
    if current + delta > 0 then current + delta else 0
  }

  /**
   * The round after adding `delta` to player `player` on hole `holeIndex`.
   * Only that cell changes and it never goes below 0; an index outside the
   * round changes nothing.
   */
  function ChangedScores(scores: GameScores, holeIndex: int, player: string, delta: int): (r: GameScores)
    requires 0 <= holeIndex < |scores| ==> player in scores[holeIndex]
    ensures |r| == |scores|
    ensures !(0 <= holeIndex < |scores|) ==> r == scores
    ensures forall i :: 0 <= i < |r| && i != holeIndex ==> r[i] == scores[i]
    ensures 0 <= holeIndex < |scores| ==>
      && r[holeIndex].Keys == scores[holeIndex].Keys
      && r[holeIndex][player] == Clamped(scores[holeIndex][player], delta)
      && r[holeIndex][player] >= 0
      && forall q :: q in r[holeIndex] && q != player ==> r[holeIndex][q] == scores[holeIndex][q]
  {
    seq(|scores|, i requires 0 <= i < |scores| =>
      if i == holeIndex then scores[i][player := Clamped(scores[i][player], delta)] else scores[i])
  }

  /** Reconciling a round that already has the target shape gives it back unchanged. */
  lemma ReconcileShapedIdentity(scores: GameScores, holes: nat, players: seq<string>)
    requires Shaped(scores, holes, players)
    ensures ReconcileScores(scores, holes, players) == scores
  {
    var r := ReconcileScores(scores, holes, players);
    forall i | 0 <= i < holes
      ensures r[i] == scores[i]
    {
      assert r[i].Keys == scores[i].Keys;
    }
  }

  /** Reconciling twice with the same hole count and roster is the same as reconciling once. */
  lemma ReconcileIdempotent(prev: GameScores, holes: nat, players: seq<string>)
    ensures ReconcileScores(ReconcileScores(prev, holes, players), holes, players)
         == ReconcileScores(prev, holes, players)
  {
    ReconcileShapedIdentity(ReconcileScores(prev, holes, players), holes, players);
  }

  /** Reconciling the empty round is starting a new game. */
  lemma ReconcileEmptyIsCreate(holes: nat, players: seq<string>)
    ensures ReconcileScores([], holes, players) == CreateEmptyScores(holes, players)
  {
    var r, e := ReconcileScores([], holes, players), CreateEmptyScores(holes, players);
    forall i | 0 <= i < holes
      ensures r[i] == e[i]
    {
      assert r[i].Keys == e[i].Keys;
    }
  }

  /** A freshly created round is a fixed point of reconciliation with the same settings. */
  lemma ReconcileCreateIdentity(holes: nat, players: seq<string>)
    ensures ReconcileScores(CreateEmptyScores(holes, players), holes, players)
         == CreateEmptyScores(holes, players)
  {
    ReconcileShapedIdentity(CreateEmptyScores(holes, players), holes, players);
  }

  /** The worked example: two holes of {A:1, B:2} reconciled to three holes for [A, C]. */
  lemma ReconcileExample()
    ensures ReconcileScores([map["A" := 1, "B" := 2], map["A" := 1, "B" := 2]], 3, ["A", "C"])
         == [map["A" := 1, "C" := 0], map["A" := 1, "C" := 0], map["A" := 0, "C" := 0]]
  {
    var r := ReconcileScores([map["A" := 1, "B" := 2], map["A" := 1, "B" := 2]], 3, ["A", "C"]);
    assert PlayerSet(["A", "C"]) == {"A", "C"};
    assert r[0] == map["A" := 1, "C" := 0];
    assert r[1] == map["A" := 1, "C" := 0];
    assert r[2] == map["A" := 0, "C" := 0];
  }

  /** Creating, reconciling and changing a score all keep the round free of negative values. */
  lemma NonNegativePreserved(scores: GameScores, holes: nat, players: seq<string>, holeIndex: int, player: string, delta: int)
    requires NonNegative(scores)
    requires 0 <= holeIndex < |scores| ==> player in scores[holeIndex]
    ensures NonNegative(CreateEmptyScores(holes, players))
    ensures NonNegative(ReconcileScores(scores, holes, players))
    ensures NonNegative(ChangedScores(scores, holeIndex, player, delta))
  {
  }

  /** Changing a score keeps the round's shape. */
  lemma ChangePreservesShape(scores: GameScores, holes: nat, players: seq<string>, holeIndex: int, player: string, delta: int)
    requires Shaped(scores, holes, players)
    requires 0 <= holeIndex < |scores| ==> player in scores[holeIndex]
    ensures Shaped(ChangedScores(scores, holeIndex, player, delta), holes, players)
  {
  }

  /** The dot total of the changed hole moves by exactly the change of the cell. */
  lemma ChangeScoreTotalDots(scores: GameScores, holeIndex: int, player: string, delta: int)
    requires 0 <= holeIndex < |scores| && player in scores[holeIndex]
    ensures TotalDots(ChangedScores(scores, holeIndex, player, delta)[holeIndex])
         == TotalDots(scores[holeIndex])
            + (Clamped(scores[holeIndex][player], delta) - scores[holeIndex][player])
  {
    var h := scores[holeIndex];
    assert ChangedScores(scores, holeIndex, player, delta)[holeIndex] == h[player := Clamped(h[player], delta)];
    SetValueTotal(h, player, Clamped(h[player], delta));
  }

  /** Adding a non-negative delta never makes a complete hole incomplete. */
  lemma ChangeScoreKeepsComplete(scores: GameScores, holeIndex: int, player: string, delta: int)
    requires 0 <= holeIndex < |scores| && player in scores[holeIndex]
    requires delta >= 0 && IsHoleComplete(scores[holeIndex])
    ensures IsHoleComplete(ChangedScores(scores, holeIndex, player, delta)[holeIndex])
  {
    ChangeScoreTotalDots(scores, holeIndex, player, delta);
  }

  /** No hole of a freshly created round is complete. */
  lemma CreatedHolesIncomplete(holes: nat, players: seq<string>, i: nat)
    requires i < holes
    ensures !IsHoleComplete(CreateEmptyScores(holes, players)[i])
  {
    AllZeroTotal(CreateEmptyScores(holes, players)[i]);
  }

  /**
   * The score store. Its one piece of state is the current round, which
   * every operation replaces wholesale. No cell of the round is ever negative.
   */
  class ScoreStore {
    var scores: GameScores

    ghost predicate Valid()
      reads this
    {
      NonNegative(scores)
    }

    /** The store starts with an empty round. */
    constructor ()
      ensures Valid() && scores == []
    {
      scores := [];
    }

    /** Replace the round by a zeroed one for the given settings. */
    method StartNewGame(holes: nat, players: seq<string>)
      modifies this
      ensures Valid()
      ensures scores == CreateEmptyScores(holes, players)
      ensures Shaped(scores, holes, players)
    {
      scores := CreateEmptyScores(holes, players);
    }

    /** Rebuild the round for new settings, keeping what survives. */
    method UpdateGame(holes: nat, players: seq<string>)
      requires Valid()
      modifies this
      ensures Valid()
      ensures scores == ReconcileScores(old(scores), holes, players)
      ensures Shaped(scores, holes, players)
    {
      scores := ReconcileScores(scores, holes, players);
    }

    /** Add `delta` to one cell, clamping at 0. */
    method ChangeScore(holeIndex: int, player: string, delta: int)
      requires Valid()
      requires 0 <= holeIndex < |scores| ==> player in scores[holeIndex]
      modifies this
      ensures Valid()
      ensures scores == ChangedScores(old(scores), holeIndex, player, delta)
      ensures |scores| == |old(scores)|
    {
      scores := ChangedScores(scores, holeIndex, player, delta);
    }
  }
}
