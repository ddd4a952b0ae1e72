/**
 Terrain of a hex, drawn once per cell from a uniform value in [0, 1) and
 bucketed by the cumulative thresholds written 0.3, 0.6 and 0.85.
 */
module Terrain {

  datatype Terrain = Water | Grass | Forest | Mountain

  /**
   The thresholds as the script compares against them: the IEEE 754 binary64
   values of the literals 0.3, 0.6 and 0.85, each slightly below its decimal.
   */
  const Threshold03: real := 5404319552844595.0 / 18014398509481984.0
  const Threshold06: real := 5404319552844595.0 / 9007199254740992.0
  const Threshold085: real := 7656119366529843.0 / 9007199254740992.0

  /** Lower end of the draws that give `t`. */
  function Lower(t: Terrain): real {
    match t
    case Water => 0.0
    case Grass => Threshold03
    case Forest => Threshold06
    case Mountain => Threshold085
  }

  /** Upper end (exclusive) of the draws that give `t`. */
  function Upper(t: Terrain): real {
    match t
    case Water => Threshold03
    case Grass => Threshold06
    case Forest => Threshold085
    case Mountain => 1.0
  }

  predicate InBucket(t: Terrain, draw: real) {
    Lower(t) <= draw < Upper(t)
  }

  /** The first threshold the draw falls below decides; above all of them it is a mountain. */
  function Classify(draw: real): (t: Terrain)
    ensures 0.0 <= draw < 1.0 ==> InBucket(t, draw)
    ensures draw < 0.0 ==> t == Water
  {
    if draw < Threshold03 then Water
    else if draw < Threshold06 then Grass
    else if draw < Threshold085 then Forest
    else Mountain
  }

  /** For a draw in [0, 1), a terrain is chosen exactly when the draw lies in its bucket. */
  lemma ClassifyExactlyBucket(draw: real)
    requires 0.0 <= draw < 1.0
    ensures forall t :: Classify(draw) == t <==> InBucket(t, draw)
  {
  }

  /** Each threshold lies below its decimal literal by less than 2^-53. */
  lemma ThresholdsNearDecimals()
    ensures Threshold03 == 0.3 - 1.0 / 90071992547409920.0
    ensures Threshold06 == 0.6 - 1.0 / 45035996273704960.0
    ensures Threshold085 == 0.85 - 1.0 / 45035996273704960.0
  {
  }

  /**
   A draw exactly equal to a threshold lands in the higher bucket, so a draw
   equal to the double nearest 0.6 gives forest, not grass.
   */
  lemma ClassifyAtThresholds()
    ensures Classify(Threshold03) == Grass
    ensures Classify(Threshold06) == Forest
    ensures Classify(Threshold085) == Mountain
  {
  }

  /**
   The buckets tile [0, 1) in the order water, grass, forest, mountain, with
   widths within 2^-53 of 0.30, 0.30, 0.25 and 0.15: the proportions of a
   uniform draw.
   */
  lemma BucketsTileUnitInterval()
    ensures Lower(Water) == 0.0 && Upper(Mountain) == 1.0
    ensures Upper(Water) == Lower(Grass) && Upper(Grass) == Lower(Forest) && Upper(Forest) == Lower(Mountain)
    ensures Upper(Water) - Lower(Water) == 0.30 - 1.0 / 90071992547409920.0
    ensures Upper(Grass) - Lower(Grass) == 0.30 - 1.0 / 90071992547409920.0
    ensures Upper(Forest) - Lower(Forest) == 0.25
    ensures Upper(Mountain) - Lower(Mountain) == 0.15 + 1.0 / 45035996273704960.0
  {
  }
}
