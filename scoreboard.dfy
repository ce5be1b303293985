/**
 * What the score slider derives from a round: each player's total over all
 * holes, the final scoreboard (highest total first, ties by name), the slide
 * the slider is moved to, and when the Finish Round action is offered.
 */
module Scoreboard {
  import opened Dots
  import opened Scores

  // ---------------------------------------------------------------------
  // Totals
  // ---------------------------------------------------------------------

  /** A player's total: the holes' values added from hole 0 on, a missing entry counting 0. */
  function PlayerTotal(scores: GameScores, p: string): (t: int)
    ensures NonNegative(scores) ==> t >= 0
  {
    if |scores| == 0 then 0
    else PlayerTotal(scores[..|scores| - 1], p) + Cell(scores[|scores| - 1], p)
  }

  /** The totals table: exactly the current players as keys, each with its total. */
  function TotalScores(players: seq<string>, scores: GameScores): (totals: map<string, int>)
    ensures totals.Keys == PlayerSet(players)
    ensures forall p :: p in totals ==> totals[p] == PlayerTotal(scores, p)
  {
    map p | p in players :: PlayerTotal(scores, p)
  }

  /** The total of a round is the total of its first holes plus that of the rest. */
  lemma {:induction false} PlayerTotalAppend(a: GameScores, b: GameScores, p: string)
    ensures PlayerTotal(a + b, p) == PlayerTotal(a, p) + PlayerTotal(b, p)
    decreases |b|
  {
    if |b| == 0 {
      assert a + b == a;
    } else {
      var b' := b[..|b| - 1];
      assert (a + b)[..|a + b| - 1] == a + b';
      PlayerTotalAppend(a, b', p);
    }
  }

  /** Two rounds that agree on a player's cells give that player the same total. */
  lemma {:induction false} PlayerTotalCellwise(a: GameScores, b: GameScores, p: string)
    requires |a| == |b|
    requires forall i :: 0 <= i < |a| ==> Cell(a[i], p) == Cell(b[i], p)
    ensures PlayerTotal(a, p) == PlayerTotal(b, p)
    decreases |a|
  {
    if |a| > 0 {
      PlayerTotalCellwise(a[..|a| - 1], b[..|b| - 1], p);
    }
  }

  /** A round in which a player's cells are all 0 gives that player a total of 0. */
  lemma {:induction false} PlayerTotalZero(scores: GameScores, p: string)
    requires forall i :: 0 <= i < |scores| ==> Cell(scores[i], p) == 0
    ensures PlayerTotal(scores, p) == 0
    decreases |scores|
  {
    if |scores| > 0 {
      PlayerTotalZero(scores[..|scores| - 1], p);
    }
  }

  /** Every player of a freshly created round has a total of 0. */
  lemma CreateEmptyTotal(holes: nat, players: seq<string>, p: string)
    ensures PlayerTotal(CreateEmptyScores(holes, players), p) == 0
  {
    PlayerTotalZero(CreateEmptyScores(holes, players), p);
  }

  /**
   * Reconciling keeps a retained player's total over the holes that survive:
   * with at least as many holes as before, the total is unchanged.
   */
  lemma ReconcileKeepsTotal(prev: GameScores, holes: nat, players: seq<string>, p: string)
    requires p in players
    ensures holes >= |prev| ==> PlayerTotal(ReconcileScores(prev, holes, players), p) == PlayerTotal(prev, p)
    ensures holes < |prev| ==> PlayerTotal(ReconcileScores(prev, holes, players), p) == PlayerTotal(prev[..holes], p)
  {
    var r := ReconcileScores(prev, holes, players);
    var n := if holes < |prev| then holes else |prev|;
    assert r == r[..n] + r[n..];
    PlayerTotalAppend(r[..n], r[n..], p);
    ReconcileKeptCells(prev, holes, players, p, n);
    PlayerTotalCellwise(r[..n], prev[..n], p);
    ReconcileNewCells(prev, holes, players, p, n);
    PlayerTotalZero(r[n..], p);
    if n == |prev| {
      assert prev[..n] == prev;
    }
  }

  /** On the holes the old round already had, a retained player's cells are carried over. */
  lemma ReconcileKeptCells(prev: GameScores, holes: nat, players: seq<string>, p: string, n: nat)
    requires p in players && n <= holes && n <= |prev|
    ensures forall i :: 0 <= i < n ==>
      Cell(ReconcileScores(prev, holes, players)[..n][i], p) == Cell(prev[..n][i], p)
  {
    var r := ReconcileScores(prev, holes, players);
    forall i | 0 <= i < n
      ensures Cell(r[..n][i], p) == Cell(prev[..n][i], p)
    {
      assert r[i] == ReconcileHole(prev, i, players);
    }
  }

  /** On the holes past the old round, every cell is 0. */
  lemma ReconcileNewCells(prev: GameScores, holes: nat, players: seq<string>, p: string, n: nat)
    requires n <= holes && (n == holes || n == |prev|)
    ensures forall i :: 0 <= i < holes - n ==> Cell(ReconcileScores(prev, holes, players)[n..][i], p) == 0
  {
    var r := ReconcileScores(prev, holes, players);
    forall i | 0 <= i < holes - n
      ensures Cell(r[n..][i], p) == 0
    {
      assert r[n + i] == ReconcileHole(prev, n + i, players);
    }
  }

  /** Changing a score moves the changed player's total by the cell's change and no other total. */
  lemma ChangeScoreTotal(scores: GameScores, holeIndex: int, player: string, delta: int, q: string)
    requires 0 <= holeIndex < |scores| && player in scores[holeIndex]
    ensures PlayerTotal(ChangedScores(scores, holeIndex, player, delta), q)
         == PlayerTotal(scores, q)
            + (if q == player then Clamped(scores[holeIndex][player], delta) - scores[holeIndex][player] else 0)
  {
    var r := ChangedScores(scores, holeIndex, player, delta);
    var i := holeIndex;
    assert scores == scores[..i] + [scores[i]] + scores[i + 1..];
    assert r == r[..i] + [r[i]] + r[i + 1..];
    assert r[..i] == scores[..i];
    assert r[i + 1..] == scores[i + 1..];
    PlayerTotalSplit(scores[..i], scores[i], scores[i + 1..], q);
    PlayerTotalSplit(r[..i], r[i], r[i + 1..], q);
  }

  /** The total over a round is the total before one hole, that hole's cell, and the total after it. */
  lemma PlayerTotalSplit(a: GameScores, h: HoleScores, b: GameScores, p: string)
    ensures PlayerTotal(a + [h] + b, p) == PlayerTotal(a, p) + Cell(h, p) + PlayerTotal(b, p)
  {
    PlayerTotalAppend(a + [h], b, p);
    assert (a + [h])[..|a|] == a;
  }

  /** The worked example: holes {A:1, B:2} and {A:3, B:0} give totals {A:4, B:2}. */
  lemma TotalScoresExample()
    ensures TotalScores(["A", "B"], [map["A" := 1, "B" := 2], map["A" := 3, "B" := 0]])
         == map["A" := 4, "B" := 2]
  {
    var s := [map["A" := 1, "B" := 2], map["A" := 3, "B" := 0]];
    assert s[..1] == [map["A" := 1, "B" := 2]];
    assert s[..1][..0] == s[..0];
    assert PlayerTotal(s, "A") == 4 && PlayerTotal(s, "B") == 2;
    assert PlayerSet(["A", "B"]) == {"A", "B"};
  }

  // ---------------------------------------------------------------------
  // Totals against hole dots
  // ---------------------------------------------------------------------

  /** No name occurs twice in the roster. */
  ghost predicate Distinct(players: seq<string>) {
    forall i, j :: 0 <= i < j < |players| ==> players[i] != players[j]
  }

  /** The cells of one hole added over the roster. */
  function RosterSum(players: seq<string>, hole: HoleScores): int {
    if |players| == 0 then 0 else Cell(hole, players[0]) + RosterSum(players[1..], hole)
  }

  /** The players' totals added over the roster. */
  function SumOfTotals(players: seq<string>, scores: GameScores): int {
    if |players| == 0 then 0 else PlayerTotal(scores, players[0]) + SumOfTotals(players[1..], scores)
  }

  /** All dots recorded in the round: the holes' dot totals added up. */
  ghost function RoundDots(scores: GameScores): int {
    if |scores| == 0 then 0 else RoundDots(scores[..|scores| - 1]) + TotalDots(scores[|scores| - 1])
  }

  /** Holes that agree on the roster's cells give the same roster sum. */
  lemma {:induction false} RosterSumCellwise(players: seq<string>, h: HoleScores, g: HoleScores)
    requires forall k :: 0 <= k < |players| ==> Cell(h, players[k]) == Cell(g, players[k])
    ensures RosterSum(players, h) == RosterSum(players, g)
    decreases |players|
  {
    if |players| > 0 {
      RosterSumCellwise(players[1..], h, g);
    }
  }

  /** On a hole keyed by exactly a roster without repeats, the roster sum is the hole's dot total. */
  lemma {:induction false} RosterSumIsTotalDots(players: seq<string>, hole: HoleScores)
    requires Distinct(players)
    requires hole.Keys == PlayerSet(players)
    ensures RosterSum(players, hole) == TotalDots(hole)
    decreases |players|
  {
    if |players| == 0 {
      assert hole == map[];
    } else {
      var p := players[0];
      assert p in hole;
      TotalDotsRemove(hole, p);
      RosterTail(players, hole);
      RosterSumIsTotalDots(players[1..], hole - {p});
    }
  }

  /** Taking the first player off the roster and off the hole leaves a matching roster and hole. */
  lemma RosterTail(players: seq<string>, hole: HoleScores)
    requires Distinct(players) && |players| > 0
    requires hole.Keys == PlayerSet(players)
    ensures Distinct(players[1..])
    ensures (hole - {players[0]}).Keys == PlayerSet(players[1..])
    ensures RosterSum(players[1..], hole) == RosterSum(players[1..], hole - {players[0]})
  {
    var p := players[0];
    var rest := players[1..];
    assert PlayerSet(players) == {p} + PlayerSet(rest);
    assert forall k :: 0 <= k < |rest| ==> rest[k] != p;
    assert p !in PlayerSet(rest);
    RosterSumCellwise(rest, hole, hole - {p});
  }

  /** Adding one more hole adds its roster sum to the sum of the totals. */
  lemma {:induction false} SumOfTotalsLastHole(players: seq<string>, scores: GameScores)
    requires |scores| > 0
    ensures SumOfTotals(players, scores)
         == SumOfTotals(players, scores[..|scores| - 1]) + RosterSum(players, scores[|scores| - 1])
    decreases |players|
  {
    if |players| > 0 {
      SumOfTotalsLastHole(players[1..], scores);
    }
  }

  /** The sum of the totals is the sum, hole by hole, of the roster's cells. */
  lemma {:induction false} SumOfTotalsByHole(players: seq<string>, scores: GameScores)
    requires Distinct(players)
    requires forall i :: 0 <= i < |scores| ==> scores[i].Keys == PlayerSet(players)
    ensures SumOfTotals(players, scores) == RoundDots(scores)
    decreases |scores|
  {
    if |scores| == 0 {
      SumOfTotalsEmpty(players);
    } else {
      SumOfTotalsLastHole(players, scores);
      SumOfTotalsByHole(players, scores[..|scores| - 1]);
      RosterSumIsTotalDots(players, scores[|scores| - 1]);
    }
  }

  /** A round without holes gives a sum of totals of 0. */
  lemma {:induction false} SumOfTotalsEmpty(players: seq<string>)
    ensures SumOfTotals(players, []) == 0
    decreases |players|
  {
    if |players| > 0 {
      SumOfTotalsEmpty(players[1..]);
    }
  }

  /**
   * On a round shaped for a roster without repeats, the scoreboard's totals
   * add up to all the dots recorded on the holes.
   */
  lemma TotalsMatchHoleDots(players: seq<string>, scores: GameScores)
    requires Distinct(players)
    requires Shaped(scores, |scores|, players)
    ensures SumOfTotals(players, scores) == RoundDots(scores)
  {
    SumOfTotalsByHole(players, scores);
  }

  // ---------------------------------------------------------------------
  // Scoreboard order
  // ---------------------------------------------------------------------

  /**
   * Lexicographic order on names, character by character: a prefix comes
   * first, and otherwise the first differing character decides.
   */
  function NameLessEq(a: string, b: string): (le: bool)
    ensures |a| <= |b| && a == b[..|a|] ==> le
    ensures le && |a| > 0 ==> |b| > 0 && a[0] <= b[0]
  {
    |a| == 0 || (|b| > 0 && (a[0] < b[0] || (a[0] == b[0] && NameLessEq(a[1..], b[1..]))))
  }

  /** Every name is ordered before itself. */
  lemma {:induction false} NameReflexive(a: string)
    ensures NameLessEq(a, a)
  {
    if |a| > 0 {
      NameReflexive(a[1..]);
    }
  }

  /** Any two names are ordered one way or the other. */
  lemma {:induction false} NameTotal(a: string, b: string)
    ensures NameLessEq(a, b) || NameLessEq(b, a)
  {
    if |a| > 0 && |b| > 0 && a[0] == b[0] {
      NameTotal(a[1..], b[1..]);
    }
  }

  /** Names ordered both ways are equal; with NameReflexive, NameTotal and NameTransitive this makes NameLessEq a total order. */
  lemma {:induction false} NameAntisymmetric(a: string, b: string)
    requires NameLessEq(a, b) && NameLessEq(b, a)
    ensures a == b
  {
    if |a| > 0 && |b| > 0 {
      NameAntisymmetric(a[1..], b[1..]);
      assert a == [a[0]] + a[1..] && b == [b[0]] + b[1..];
    }
  }

  /** The name order is transitive. */
  lemma {:induction false} NameTransitive(a: string, b: string, c: string)
    requires NameLessEq(a, b) && NameLessEq(b, c)
    ensures NameLessEq(a, c)
  {
    if |a| > 0 && |b| > 0 && |c| > 0 && a[0] == b[0] && b[0] == c[0] {
      NameTransitive(a[1..], b[1..], c[1..]);
    }
  }

  /** The scoreboard comparator: `a` may stand before `b` (higher total, or equal total and name not after). */
  function RanksBefore(totals: map<string, int>, a: string, b: string): (before: bool)
    ensures Cell(totals, a) > Cell(totals, b) ==> before
    ensures before ==> Cell(totals, a) >= Cell(totals, b)
    ensures a == b ==> before
  {
    NameReflexive(a);
    Cell(totals, a) > Cell(totals, b)
    || (Cell(totals, a) == Cell(totals, b) && NameLessEq(a, b))
  }

  /** Of any two players, one ranks before the other. */
  lemma RanksTotal(totals: map<string, int>, a: string, b: string)
    ensures RanksBefore(totals, a, b) || RanksBefore(totals, b, a)
  {
    NameTotal(a, b);
  }

  /** Ranking before is transitive. */
  lemma RanksTransitive(totals: map<string, int>, a: string, b: string, c: string)
    requires RanksBefore(totals, a, b) && RanksBefore(totals, b, c)
    ensures RanksBefore(totals, a, c)
  {
    if Cell(totals, a) == Cell(totals, b) == Cell(totals, c) {
      NameTransitive(a, b, c);
    }
  }

  /** Two players that rank before each other are the same player. */
  lemma RanksAntisymmetric(totals: map<string, int>, a: string, b: string)
    requires RanksBefore(totals, a, b) && RanksBefore(totals, b, a)
    ensures a == b
  {
    NameAntisymmetric(a, b);
  }

  /** Every earlier entry ranks before every later one. */
  ghost predicate Ranked(totals: map<string, int>, s: seq<string>) {
    forall i, j :: 0 <= i < j < |s| ==> RanksBefore(totals, s[i], s[j])
  }

  /** A name that ranks before every entry of a ranked list may be put in front of it. */
  lemma ConsRanked(totals: map<string, int>, x: string, s: seq<string>)
    requires Ranked(totals, s)
    requires forall j :: 0 <= j < |s| ==> RanksBefore(totals, x, s[j])
    ensures Ranked(totals, [x] + s)
  {
    var r := [x] + s;
    forall i, j | 0 <= i < j < |r|
      ensures RanksBefore(totals, r[i], r[j])
    {
      if i == 0 {
        assert r[j] == s[j - 1];
      } else {
        assert r[i] == s[i - 1] && r[j] == s[j - 1];
      }
    }
  }

  /** A name that ranks before a ranked list's head ranks before all of it. */
  lemma BeforeHeadBeforeAll(totals: map<string, int>, x: string, s: seq<string>)
    requires Ranked(totals, s) && |s| > 0
    requires RanksBefore(totals, x, s[0])
    ensures forall j :: 0 <= j < |s| ==> RanksBefore(totals, x, s[j])
  {
    forall j | 0 < j < |s|
      ensures RanksBefore(totals, x, s[j])
    {
      RanksTransitive(totals, x, s[0], s[j]);
    }
  }

  /** Insert a name into a ranked list in front of the first entry it ranks before. */
  function Insert(totals: map<string, int>, x: string, s: seq<string>): (r: seq<string>)
    requires Ranked(totals, s)
    ensures multiset(r) == multiset(s) + multiset{x}
    ensures Ranked(totals, r)
  {
    if |s| == 0 then [x]
    else if RanksBefore(totals, x, s[0]) then
      BeforeHeadBeforeAll(totals, x, s);
      ConsRanked(totals, x, s);
      [x] + s
    else
      var rest := Insert(totals, x, s[1..]);
      InsertAfterHead(totals, x, s, rest);
      [s[0]] + rest
  }

  /** The head of a ranked list that `x` does not rank before may stay in front of `x` inserted into its tail. */
  lemma InsertAfterHead(totals: map<string, int>, x: string, s: seq<string>, rest: seq<string>)
    requires Ranked(totals, s) && |s| > 0
    requires !RanksBefore(totals, x, s[0])
    requires multiset(rest) == multiset(s[1..]) + multiset{x}
    requires Ranked(totals, rest)
    ensures Ranked(totals, [s[0]] + rest)
    ensures multiset([s[0]] + rest) == multiset(s) + multiset{x}
  {
    RanksTotal(totals, x, s[0]);
    assert s == [s[0]] + s[1..];
    forall j | 0 <= j < |rest|
      ensures RanksBefore(totals, s[0], rest[j])
    {
      assert rest[j] in multiset(rest);
      if rest[j] != x {
        assert rest[j] in multiset(s[1..]);
        var k :| 0 <= k < |s[1..]| && s[1..][k] == rest[j];
        assert s[k + 1] == rest[j];
      }
    }
    ConsRanked(totals, s[0], rest);
  }

  /** The players sorted by the scoreboard comparator (the scoreboard's copy-and-sort). */
  function SortByTotals(totals: map<string, int>, players: seq<string>): (r: seq<string>)
    ensures multiset(r) == multiset(players)
    ensures Ranked(totals, r)
  {
    if |players| == 0 then []
    else
      assert players == players[..|players| - 1] + [players[|players| - 1]];
      Insert(totals, players[|players| - 1], SortByTotals(totals, players[..|players| - 1]))
  }

  /** The head of a ranked list ranks before every entry of the list. */
  lemma HeadRanksFirst(totals: map<string, int>, s: seq<string>, x: string)
    requires Ranked(totals, s) && x in s
    ensures RanksBefore(totals, s[0], x)
  {
    var k :| 0 <= k < |s| && s[k] == x;
    if k == 0 {
      NameReflexive(x);
    }
  }

  /** Dropping the same head from two lists with equal contents leaves equal contents. */
  lemma TailsSameContents(s: seq<string>, t: seq<string>)
    requires |s| > 0 && |t| > 0 && s[0] == t[0]
    requires multiset(s) == multiset(t)
    ensures multiset(s[1..]) == multiset(t[1..])
  {
    assert s == [s[0]] + s[1..];
    assert t == [t[0]] + t[1..];
    assert multiset(s[1..]) == multiset(s) - multiset{s[0]};
    assert multiset(t[1..]) == multiset(t) - multiset{t[0]};
  }

  /**
   * Any two ranked arrangements of the same players are equal: the
   * comparator fixes the scoreboard whatever sorting algorithm is used.
   */
  lemma {:induction false} RankedUnique(totals: map<string, int>, s: seq<string>, t: seq<string>)
    requires multiset(s) == multiset(t)
    requires Ranked(totals, s) && Ranked(totals, t)
    ensures s == t
    decreases |s|
  {
    assert |s| == |multiset(s)| == |t|;
    if |s| > 0 {
      assert s[0] in multiset(t) && t[0] in multiset(s);
      HeadRanksFirst(totals, t, s[0]);
      HeadRanksFirst(totals, s, t[0]);
      RanksAntisymmetric(totals, s[0], t[0]);
      TailsSameContents(s, t);
      RankedUnique(totals, s[1..], t[1..]);
      assert s == [s[0]] + s[1..] && t == [t[0]] + t[1..];
    }
  }

  /**
   * The final scoreboard: the players, highest total first, equal totals in
   * ascending name order.
   */
  function SortedTotals(players: seq<string>, scores: GameScores): (r: seq<string>)
    ensures multiset(r) == multiset(players)
    ensures forall i, j :: 0 <= i < j < |r| ==> PlayerTotal(scores, r[i]) >= PlayerTotal(scores, r[j])
    ensures forall i, j :: 0 <= i < j < |r| && PlayerTotal(scores, r[i]) == PlayerTotal(scores, r[j])
              ==> NameLessEq(r[i], r[j])
  {
    var totals := TotalScores(players, scores);
    var r := SortByTotals(totals, players);
    assert forall k :: 0 <= k < |r| ==> r[k] in players by {
      forall k | 0 <= k < |r| ensures r[k] in players {
        assert r[k] in multiset(r);
      }
    }
    assert forall i, j :: 0 <= i < j < |r| ==> RanksBefore(totals, r[i], r[j]);
    r
  }

  /** Any arrangement of the players that respects the scoreboard order is the scoreboard. */
  lemma ScoreboardDetermined(players: seq<string>, scores: GameScores, s: seq<string>)
    requires multiset(s) == multiset(players)
    requires Ranked(TotalScores(players, scores), s)
    ensures s == SortedTotals(players, scores)
  {
    RankedUnique(TotalScores(players, scores), s, SortedTotals(players, scores));
  }

  // ---------------------------------------------------------------------
  // Slider position and the Finish Round action
  // ---------------------------------------------------------------------

  /**
   * The slide the slider is moved to: the current hole, but never past the
   * Final slide, which sits at index `holeCount` right after the last hole.
   */
  function ClampedSlide(currentHole: nat, holeCount: nat): (r: nat)
    ensures r <= holeCount && r <= currentHole
    ensures r == currentHole || r == holeCount
  {
    if currentHole < holeCount then currentHole else holeCount
  }

  /**
   * The Finish Round action is offered only while the Final slide is the
   * current one: then the slider sits on the Final slide, and on any hole
   * up to it the action is offered exactly when the slider sits there.
   */
  function FinishOffered(currentHole: nat, holeCount: nat): (offered: bool)
    ensures offered ==> ClampedSlide(currentHole, holeCount) == holeCount
    ensures currentHole <= holeCount ==> (offered <==> ClampedSlide(currentHole, holeCount) == holeCount)
  {
    currentHole == holeCount
  }
}
