/** The reward tiers an opened envelope draws from, and the weighted pick
    over them. The pick stands in for `random.choices(range(4), weights)`: it
    is a deterministic function of a roll drawn uniformly from
    0 .. TotalWeight - 1, choosing the first tier whose running total of
    weights exceeds the roll, as the library's bisection over cumulative
    weights does. */
module Tiers {

  /** (name, weight, points); the name starts with the tier's colour emoji. */
  datatype Tier = Tier(name: string, weight: nat, points: nat)

  /** Large green, blue, purple and yellow circle. */
  const GREEN: char := '\U{1F7E2}'
  const BLUE: char := '\U{1F535}'
  const PURPLE: char := '\U{1F7E3}'
  const YELLOW: char := '\U{1F7E1}'

  const TIERS: seq<Tier> := [
    Tier([GREEN] + " Small Blessing", 55, 1),
    Tier([BLUE] + " Prosperity Blessing", 30, 2),
    Tier([PURPLE] + " Fortune Blessing", 12, 4),
    Tier([YELLOW] + " Dragon’s Favor", 3, 8)
  ]

  /** `tier_name.startswith(yellow circle)`: the tier grants a dragon mark. */
  predicate IsDragonName(name: string)
  {
    [YELLOW] <= name
  }

  /** Sum of the weights of the first `i` tiers. */
  function CumWeight(ts: seq<Tier>, i: nat): nat
    requires i <= |ts|
  {
    if i == 0 then 0 else CumWeight(ts, i - 1) + ts[i - 1].weight
  }

  function TotalWeight(ts: seq<Tier>): nat
  {
    CumWeight(ts, |ts|)
  }

  lemma {:induction false} CumWeightMonotone(ts: seq<Tier>, i: nat, j: nat)
    requires i <= j <= |ts|
    ensures CumWeight(ts, i) <= CumWeight(ts, j)
    decreases j - i
  {
    if i < j {
      CumWeightMonotone(ts, i, j - 1);
    }
  }

  /** The first tier at or after `i` whose running total exceeds `r`. */
  function ChooseFrom(ts: seq<Tier>, r: int, i: nat): (j: nat)
    requires i < |ts| && CumWeight(ts, i) <= r < TotalWeight(ts)
    ensures i <= j < |ts|
    ensures CumWeight(ts, j) <= r < CumWeight(ts, j + 1)
    decreases |ts| - i
  {
    if r < CumWeight(ts, i + 1) then i else ChooseFrom(ts, r, i + 1)
  }

  /** The weighted pick: the tier whose slice of the weight space holds `r`. */
  function Choose(ts: seq<Tier>, r: int): (j: nat)
    requires 0 <= r < TotalWeight(ts)
    ensures j < |ts|
    ensures CumWeight(ts, j) <= r < CumWeight(ts, j + 1)
  {
    ChooseFrom(ts, r, 0)
  }

  /** Tier `i` is picked exactly for the rolls in its own slice of the weight space. */
  lemma ChooseIff(ts: seq<Tier>, r: int, i: nat)
    requires 0 <= r < TotalWeight(ts) && i < |ts|
    ensures Choose(ts, r) == i <==> CumWeight(ts, i) <= r < CumWeight(ts, i + 1)
  {
    var j := Choose(ts, r);
    if j < i {
      CumWeightMonotone(ts, j + 1, i);
    } else if i < j {
      CumWeightMonotone(ts, i + 1, j);
    }
  }

  /** The integers in [lo, hi). */
  function Range(lo: int, hi: int): (s: set<int>)
    ensures forall r :: r in s <==> lo <= r < hi
    ensures |s| == if lo <= hi then hi - lo else 0
    decreases hi - lo
  {
    if hi <= lo then {} else Range(lo, hi - 1) + {hi - 1}
  }

  /** Of the TotalWeight equally likely rolls, exactly `weight` pick tier `i`:
      each tier is drawn with probability weight / TotalWeight. */
  lemma RollsPerTier(ts: seq<Tier>, i: nat)
    requires i < |ts|
    ensures |set r | 0 <= r < TotalWeight(ts) && Choose(ts, r) == i| == ts[i].weight
  {
    CumWeightMonotone(ts, i + 1, |ts|);
    var picked := set r | 0 <= r < TotalWeight(ts) && Choose(ts, r) == i;
    var slice := Range(CumWeight(ts, i), CumWeight(ts, i + 1));
    forall r | 0 <= r < TotalWeight(ts)
      ensures Choose(ts, r) == i <==> r in slice
    {
      ChooseIff(ts, r, i);
    }
    assert picked == slice;
  }

  /** The weights of TIERS add up to 100 and split it 55/30/12/3. */
  lemma TierTable()
    ensures TotalWeight(TIERS) == 100
    ensures CumWeight(TIERS, 1) == 55 && CumWeight(TIERS, 2) == 85 && CumWeight(TIERS, 3) == 97
  {
    assert CumWeight(TIERS, 1) == 55;
    assert CumWeight(TIERS, 2) == 85;
    assert CumWeight(TIERS, 3) == 97;
  }

  /** Whether the tier at `i` grants a dragon mark: only the last one does. */
  function TierIsDragon(i: nat): (b: bool)
    requires i < |TIERS|
    ensures b <==> i == |TIERS| - 1
  {
    assert TIERS[i].name[0] == [GREEN, BLUE, PURPLE, YELLOW][i];
    IsDragonName(TIERS[i].name)
  }

  /** The points a roll awards are the picked tier's: 1, 2, 4 or 8 for rolls
      in [0, 55), [55, 85), [85, 97) and [97, 100), and only the last range
      earns a dragon mark. */
  lemma PointsForRoll(r: int)
    requires 0 <= r < 100
    ensures TotalWeight(TIERS) == 100
    ensures TIERS[Choose(TIERS, r)].points ==
      if r < 55 then 1 else if r < 85 then 2 else if r < 97 then 4 else 8
    ensures TierIsDragon(Choose(TIERS, r)) <==> 97 <= r
  {
    TierTable();
    var i := Choose(TIERS, r);
    assert CumWeight(TIERS, 4) == 100;
    if i == 0 {
      assert r < 55;
    } else if i == 1 {
      assert 55 <= r < 85;
    } else if i == 2 {
      assert 85 <= r < 97;
    } else {
      assert 97 <= r;
    }
  }
}
