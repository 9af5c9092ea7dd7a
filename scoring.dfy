/**
  Per-destination scores and the explanation labels shown next to them.
  All scores are exact reals; floating-point rounding is not modelled.
 */
module Scoring {
  import opened Catalog
  import opened GroupVote

  function Abs(x: int): nat {
    if x < 0 then -x else x
  }

  /** `clip(1 - |recommended - days| / recommended, 0, 1)`: full marks exactly
      when the trip has the recommended length, nothing once it is off by a
      whole recommended length or more. */
  function DurationScore(recommended: PosInt, days: int): (s: real)
    ensures 0.0 <= s <= 1.0
    ensures s == 1.0 <==> recommended == days
    ensures s == 0.0 <==> (days <= 0 || days >= 2 * recommended)
  {
    var off, rec := Abs(recommended - days) as real, recommended as real;
    var gap := off / rec;
    RatioFacts(off, rec);
    var raw := 1.0 - gap;
    if raw < 0.0 then 0.0 else if raw > 1.0 then 1.0 else raw
  }

  lemma RatioFacts(a: real, b: real)
    requires 0.0 <= a && 0.0 < b
    ensures a / b >= 0.0
    ensures a / b == 0.0 <==> a == 0.0
    ensures a / b >= 1.0 <==> a >= b
  {
    var q := a / b;
    assert q * b == a;
    if q >= 1.0 {
      ProductSign(q - 1.0, b);
      assert (q - 1.0) * b == q * b - b;
    } else {
      ProductSign(1.0 - q, b);
      assert (1.0 - q) * b == b - q * b;
    }
  }

  lemma ProductSign(x: real, y: real)
    requires 0.0 < y
    ensures x >= 0.0 ==> x * y >= 0.0
    ensures x > 0.0 ==> x * y > 0.0
  {
  }

  lemma PenalizedBound(w: real, p: real)
    requires 0.0 <= w <= 0.9
    ensures 0.0 <= p ==> 0.0 <= w * p <= 0.9 * p
  {
    if 0.0 < p {
      ProductSign(w, p);
      ProductSign(0.9 - w, p);
      assert (0.9 - w) * p == 0.9 * p - w * p;
    }
  }

  /** `rating / 5` */
  function RatingScore(rating: Stars): (s: real)
    ensures 0.0 <= s <= 1.0
    ensures s * 5.0 == rating
  {
    rating / 5.0
  }

  /** The weights 0.45 / 0.25 / 0.20 sum to 0.90, so the weighted score of
      three sub-scores in [0, 1] never exceeds 0.9. */
  function Weighted(interest: Fraction, duration: Fraction, rating: Fraction): (w: real)
    ensures 0.0 <= w <= 0.9
    ensures w == 0.9 <==> interest == 1.0 && duration == 1.0 && rating == 1.0
  {
    0.45 * interest + 0.25 * duration + 0.20 * rating
  }

  function InterestLabel(x: real): (why: string)
    ensures why == "Strong interest match" <==> x > 0.7
    ensures why == "Moderate interest match" <==> 0.4 < x <= 0.7
    ensures why == "Low interest match" <==> x <= 0.4
  {
    if x > 0.7 then "Strong interest match"
    else if x > 0.4 then "Moderate interest match"
    else "Low interest match"
  }

  function DurationLabel(x: real): (why: string)
    ensures why == "Ideal trip length" <==> x > 0.8
    ensures why == "Acceptable duration" <==> 0.5 < x <= 0.8
    ensures why == "May feel rushed or long" <==> x <= 0.5
  {
    if x > 0.8 then "Ideal trip length"
    else if x > 0.5 then "Acceptable duration"
    else "May feel rushed or long"
  }

  function RatingLabel(x: real): (why: string)
    ensures why == "Top-rated destination" <==> x > 0.85
    ensures why == "Well-reviewed destination" <==> 0.7 < x <= 0.85
    ensures why == "Average traveler ratings" <==> x <= 0.7
  {
    if x > 0.85 then "Top-rated destination"
    else if x > 0.7 then "Well-reviewed destination"
    else "Average traveler ratings"
  }

  /** `round(x)` to an integer, halves going to the even neighbour. */
  function RoundHalfEven(x: real): (n: int)
    ensures n as real - 0.5 <= x <= n as real + 0.5
    ensures x == x.Floor as real ==> n == x.Floor
  {
    var f := x.Floor;
    var frac := x - f as real;
    if frac < 0.5 then f
    else if frac > 0.5 then f + 1
    else if f % 2 == 0 then f
    else f + 1
  }

  /** `round(vote_penalty * 100)`: 60 for a penalised row, 100 otherwise. */
  function GroupAcceptance(penalty: real): (pct: int)
    ensures penalty == MinorityPenalty ==> pct == 60
    ensures penalty == NoPenalty ==> pct == 100
  {
    RoundHalfEven(penalty * 100.0)
  }

  /** `weighted * vote_penalty`: at most 0.9 times the penalty, so 0.9 for a
      row nobody has visited and 0.54 for a penalised one. */
  function FinalScore(w: real, penalty: real): (f: real)
    requires 0.0 <= w <= 0.9
    ensures 0.0 <= penalty ==> 0.0 <= f <= 0.9 * penalty
  {
    PenalizedBound(w, penalty);
    w * penalty
  }

  datatype Scored = Scored(
    dest: Destination,
    penalty: real,
    interestScore: Fraction,
    durationScore: Fraction,
    ratingScore: Fraction,
    finalScore: real,
    whyInterest: string,
    whyDuration: string,
    whyRating: string,
    groupAcceptance: int)

  /** The derived columns of a scored row agree with its destination, its
      penalty and the trip length: each sub-score, the final score, the three
      labels and the group acceptance. */
  predicate WellScored(s: Scored, days: int) {
    && s.interestScore == s.dest.interestScore
    && s.durationScore == DurationScore(s.dest.recommendedDays, days)
    && s.ratingScore == RatingScore(s.dest.rating)
    && s.finalScore == Weighted(s.interestScore, s.durationScore, s.ratingScore) * s.penalty
    && s.whyInterest == InterestLabel(s.interestScore)
    && s.whyDuration == DurationLabel(s.durationScore)
    && s.whyRating == RatingLabel(s.ratingScore)
    && s.groupAcceptance == GroupAcceptance(s.penalty)
  }

  /** All columns of one surviving row for a trip of `days` days. */
  function ScoreRow(c: Candidate, days: int): (s: Scored)
    ensures s.dest == c.dest && s.penalty == c.penalty
    ensures WellScored(s, days)
    ensures s.durationScore == 1.0 <==> c.dest.recommendedDays == days
    ensures s.ratingScore * 5.0 == c.dest.rating
    ensures 0.0 <= c.penalty ==> 0.0 <= s.finalScore <= 0.9 * c.penalty
    ensures c.penalty == MinorityPenalty ==> s.groupAcceptance == 60
    ensures c.penalty == NoPenalty ==> s.groupAcceptance == 100
  {
    var d := c.dest;
    var interest := d.interestScore;
    var duration := DurationScore(d.recommendedDays, days);
    var rating := RatingScore(d.rating);
    var w := Weighted(interest, duration, rating);
    var final := FinalScore(w, c.penalty);
    Scored(d, c.penalty, interest, duration, rating, final,
           InterestLabel(interest), DurationLabel(duration), RatingLabel(rating),
           GroupAcceptance(c.penalty))
  }

  function ScoreAll(rows: seq<Candidate>, days: int): (scored: seq<Scored>)
    ensures |scored| == |rows|
    ensures forall i :: 0 <= i < |rows| ==> scored[i] == ScoreRow(rows[i], days)
  {
    seq(|rows|, i requires 0 <= i < |rows| => ScoreRow(rows[i], days))
  }
}
