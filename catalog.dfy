/**
  The destination catalog. Each record carries the columns the recommender
  reads; the interest score is the similarity between the traveller's
  interests and the destination's description, supplied from outside.
 */
module Catalog {
  import opened Region

  /** A real in [0, 1]. */
  type Fraction = r: real | 0.0 <= r <= 1.0

  /** A rating on the catalog's 0..5 scale. */
  type Stars = r: real | 0.0 <= r <= 5.0

  type PosInt = n: int | n > 0 witness 1

  datatype Destination = Destination(
    name: string,
    region: string,
    avgDailyCost: int,
    recommendedDays: PosInt,
    rating: Stars,
    interestScore: Fraction)

  /** The load-time pass over the `region` column: every region normalised,
      every other column and the row order untouched. */
  function NormalizeRegions(raw: seq<Destination>): (catalog: seq<Destination>)
    ensures |catalog| == |raw|
    ensures forall i :: 0 <= i < |raw| ==> catalog[i] == raw[i].(region := Normalize(raw[i].region))
    ensures forall i :: 0 <= i < |catalog| ==> Normalized(catalog[i].region)
  {
    seq(|raw|, i requires 0 <= i < |raw| => raw[i].(region := Normalize(raw[i].region)))
  }
}
