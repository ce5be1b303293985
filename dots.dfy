/**
 * The hole-completeness rule of Dots: a hole's dot total is the sum of the
 * values recorded for its players, and the hole counts as complete once that
 * total reaches the three dots a hole offers (drive, on, in).
 */
module Dots {

  /** One hole of a round: player name to the dots recorded for that player. */
  type HoleScores = map<string, int>

  /** The number of dots a hole offers. */
  const DOTS_PER_HOLE: int := 3

  /** True when every value recorded on the hole is non-negative. */
  ghost predicate NonNegativeHole(h: HoleScores) {
    forall p :: p in h ==> h[p] >= 0
  }

  /** True when every value recorded on the hole is zero. */
  ghost predicate AllZero(h: HoleScores) {
    forall p :: p in h ==> h[p] == 0
  }

  /**
   * The sum of all values of the hole. The order in which the values are
   * added does not matter (see TotalDotsRemove), so the key taken first is
   * an arbitrary one.
   */
  ghost function TotalDots(h: HoleScores): (r: int)
    ensures NonNegativeHole(h) ==> r >= 0
    decreases |h.Keys|
  {
    if h.Keys == {} then 0
    else
      var k :| k in h.Keys;
      assert (h - {k}).Keys == h.Keys - {k};
      h[k] + TotalDots(h - {k})
  }

  /**
   * A hole is complete when its dot total is at least DOTS_PER_HOLE; some
   * player of a complete hole then has a positive value.
   */
  ghost function IsHoleComplete(h: HoleScores): (complete: bool)
    ensures complete ==> exists p :: p in h && h[p] > 0
  {
    NonPositiveTotal(h);
    TotalDots(h) >= DOTS_PER_HOLE
  }

  /** Any key may be taken out first: the total is that value plus the total of the rest. */
  lemma {:induction false} TotalDotsRemove(h: HoleScores, k: string)
    requires k in h
    ensures TotalDots(h) == h[k] + TotalDots(h - {k})
    decreases |h.Keys|
  {
    var j :| j in h.Keys && TotalDots(h) == h[j] + TotalDots(h - {j});
    if j != k {
      assert (h - {j}).Keys == h.Keys - {j};
      assert (h - {k}).Keys == h.Keys - {k};
      TotalDotsRemove(h - {j}, k);
      TotalDotsRemove(h - {k}, j);
      assert (h - {j}) - {k} == (h - {k}) - {j};
    }
  }

  /** A hole with no positive value has a total of at most 0. */
  lemma {:induction false} NonPositiveTotal(h: HoleScores)
    ensures (forall p :: p in h ==> h[p] <= 0) ==> TotalDots(h) <= 0
    decreases |h.Keys|
  {
    if h.Keys != {} && forall p :: p in h ==> h[p] <= 0 {
      var k :| k in h.Keys;
      TotalDotsRemove(h, k);
      assert (h - {k}).Keys == h.Keys - {k};
      NonPositiveTotal(h - {k});
    }
  }

  /** A hole with no entries has a total of 0. */
  lemma EmptyHoleTotal()
    ensures TotalDots(map[]) == 0
    ensures !IsHoleComplete(map[])
  {
  }

  /** A hole whose values are all zero has a total of 0 and is not complete. */
  lemma {:induction false} AllZeroTotal(h: HoleScores)
    requires AllZero(h)
    ensures TotalDots(h) == 0
    ensures !IsHoleComplete(h)
    decreases |h.Keys|
  {
    if h.Keys != {} {
      var k :| k in h.Keys;
      TotalDotsRemove(h, k);
      assert (h - {k}).Keys == h.Keys - {k};
      AllZeroTotal(h - {k});
    }
  }

  /** Setting one player's value to v moves the total by exactly v minus the old value. */
  lemma SetValueTotal(h: HoleScores, k: string, v: int)
    requires k in h
    ensures TotalDots(h[k := v]) == TotalDots(h) + (v - h[k])
  {
    TotalDotsRemove(h, k);
    TotalDotsRemove(h[k := v], k);
    assert h[k := v] - {k} == h - {k};
  }

  /** Raising any single value keeps a complete hole complete. */
  lemma CompleteMonotone(h: HoleScores, k: string, v: int)
    requires k in h && v >= h[k]
    requires IsHoleComplete(h)
    ensures IsHoleComplete(h[k := v])
    ensures TotalDots(h[k := v]) >= TotalDots(h)
  {
    SetValueTotal(h, k, v);
  }

  /** Adding a new player with value 0 changes neither the total nor completeness. */
  lemma AddZeroPlayer(h: HoleScores, k: string)
    requires k !in h
    ensures TotalDots(h[k := 0]) == TotalDots(h)
    ensures IsHoleComplete(h[k := 0]) <==> IsHoleComplete(h)
  {
    TotalDotsRemove(h[k := 0], k);
    assert h[k := 0] - {k} == h;
  }
}
