/** A food source tile: a Java `int` counter of remaining food that ants
    harvest one unit at a time, and the per-tick update that reports when the
    source is used up. */
module FoodSource {
  import opened Geometry
  import opened Outcomes

  const MinInt: int := -0x8000_0000
  const MaxInt: int := 0x7fff_ffff

  /** The values of a Java `int`. */
  type Int32 = x: int | MinInt <= x <= MaxInt

  /** Food a new source holds. */
  const InitialFood: Int32 := 200

  /** Scent every food source reports, whichever nest asks. */
  const FoodStink: real := 100.0

  datatype Source = Source(foodAmount: Int32)

  /** What one harvest leaves behind, and whether food is still left. */
  datatype Harvest = Harvest(source: Source, hasFood: bool)

  /** A freshly placed food source. */
  function New(): (s: Source)
    ensures s.foodAmount == 200
  {
    Source(InitialFood)
  }

  /** `foodAmount--` on a Java `int` (wrapping at the minimum), then report
      whether the amount left is still positive. */
  function DecreaseFoodAmount(s: Source): (h: Harvest)
    ensures s.foodAmount > MinInt ==> h.source.foodAmount == s.foodAmount - 1
    ensures s.foodAmount == MinInt ==> h.source.foodAmount == MaxInt
    ensures h.hasFood <==> h.source.foodAmount > 0
  {
    var left: Int32 := if s.foodAmount == MinInt then MaxInt else s.foodAmount - 1;
    Harvest(Source(left), left > 0)
  }

  /** The tick update: true asks the grid to remove this source. It reads the
      counter and leaves it alone (the result carries no new source). */
  function Update(s: Source): (remove: bool)
    ensures remove <==> s.foodAmount < 0
    ensures s.foodAmount == 0 ==> !remove
  {
    s.foodAmount < 0
  }

  /** The scent of a food source; the nest argument is ignored. */
  function CurrentStink(s: Source, nest: Option<Pos>): (r: real)
    ensures r == 100.0
    ensures r > 1.0
  {
    FoodStink
  }

  /** `k` harvests in a row. */
  function DecreaseTimes(s: Source, k: nat): Source
    decreases k
  {
    if k == 0 then s else DecreaseTimes(DecreaseFoodAmount(s).source, k - 1)
  }

  /** Without wrap-around, `k` harvests lower the counter by exactly `k`. */
  lemma {:induction false} DecreaseTimesLowersBy(s: Source, k: nat)
    requires s.foodAmount - k >= MinInt
    ensures DecreaseTimes(s, k).foodAmount == s.foodAmount - k
    decreases k
  {
    if k > 0 {
      DecreaseTimesLowersBy(DecreaseFoodAmount(s).source, k - 1);
    }
  }

  /** A source holding `q >= 0` units is never removed while the counter is
      still at least zero: removal is first asked for after `q + 1`
      harvests, one tick after the last unit is taken. */
  lemma RemovalFirstAfterOneMoreHarvest(q: Int32, k: nat)
    requires q >= 0
    requires k <= q + 1
    ensures Update(DecreaseTimes(Source(q), k)) <==> k == q + 1
  {
    DecreaseTimesLowersBy(Source(q), k);
  }

  /** For a new source: no removal for the first 200 harvests, removal after
      the 201st. */
  lemma NewSourceRemovedAfter201()
    ensures forall k: nat :: k <= 200 ==> !Update(DecreaseTimes(New(), k))
    ensures Update(DecreaseTimes(New(), 201))
  {
    forall k: nat | k <= 200
      ensures !Update(DecreaseTimes(New(), k))
    {
      RemovalFirstAfterOneMoreHarvest(200, k);
    }
    RemovalFirstAfterOneMoreHarvest(200, 201);
  }

  /** The off-by-one between the two reports: taking the last unit makes
      `decreaseFoodAmount` say "empty" while `update` still keeps the source. */
  lemma LastUnitLingersOneTick(s: Source)
    requires s.foodAmount == 1
    ensures !DecreaseFoodAmount(s).hasFood
    ensures !Update(DecreaseFoodAmount(s).source)
    ensures Update(DecreaseFoodAmount(DecreaseFoodAmount(s).source).source)
  {
  }

  /** Harvesting a source that sits at `Integer.MIN_VALUE` wraps it to
      `Integer.MAX_VALUE`: it reports food again and is no longer removed. */
  lemma WrapAroundRevivesSource(s: Source)
    requires s.foodAmount == MinInt
    ensures Update(s)
    ensures DecreaseFoodAmount(s).hasFood
    ensures !Update(DecreaseFoodAmount(s).source)
  {
  }
}
