/**
  The day-by-day plan for the chosen destination: an activity pool built from
  the traveller's interests, consumed two activities per day in round-robin
  order, with arrival on the first day and departure on the last.
 */
module Itinerary {
  import opened Text

  /** The fixed interest -> activities table; an unknown interest has none. */
  function Activities(interest: string): (acts: seq<string>)
    ensures |acts| == 0 || |acts| == 3
  {
    if interest == "Adventure" then ["trekking", "river rafting", "sunrise hike"]
    else if interest == "Nature" then ["nature walk", "waterfall visit", "scenic viewpoint"]
    else if interest == "Beach" then ["beach leisure", "sunset walk", "water sports"]
    else if interest == "Cultural" then ["heritage walk", "museum visit", "local markets"]
    else if interest == "Relaxation" then ["spa session", "café hopping", "free exploration"]
    else []
  }

  /** An interest the table has activities for. */
  predicate Known(interest: string) {
    Activities(interest) != []
  }

  /** The pool before the fallback: each interest's activities, in interest order. */
  function Pool(interests: seq<string>): seq<string>
  {
    if interests == [] then []
    else Pool(interests[..|interests| - 1]) + Activities(interests[|interests| - 1])
  }

  /** The interests the table knows, in order, duplicates kept. */
  function KnownOnly(interests: seq<string>): (known: seq<string>)
    ensures forall j :: 0 <= j < |known| ==> Known(known[j])
  {
    if interests == [] then []
    else
      var last := interests[|interests| - 1];
      KnownOnly(interests[..|interests| - 1]) + (if Known(last) then [last] else [])
  }

  /** The pool is three activities per known interest, in interest order:
      unknown interests are skipped and repeated ones repeat their activities. */
  lemma {:induction false} PoolShape(interests: seq<string>)
    ensures |Pool(interests)| == 3 * |KnownOnly(interests)|
    ensures forall j, t :: 0 <= j < |KnownOnly(interests)| && 0 <= t < 3 ==>
              Pool(interests)[3 * j + t] == Activities(KnownOnly(interests)[j])[t]
  {
    if interests != [] {
      var init := interests[..|interests| - 1];
      var last := interests[|interests| - 1];
      PoolShape(init);
      var p, k := Pool(init), KnownOnly(init);
      forall j, t | 0 <= j < |KnownOnly(interests)| && 0 <= t < 3
        ensures Pool(interests)[3 * j + t] == Activities(KnownOnly(interests)[j])[t]
      {
        if j < |k| {
          assert KnownOnly(interests)[j] == k[j];
          assert Pool(interests)[3 * j + t] == p[3 * j + t];
        } else {
          assert KnownOnly(interests)[j] == last;
          assert Pool(interests)[3 * j + t] == Activities(last)[t];
        }
      }
    }
  }

  const Fallback: seq<string> := ["local sightseeing", "leisure exploration"]

  /** The pool the days draw from: the fallback pair when no interest is known. */
  function ActivityList(interests: seq<string>): (pool: seq<string>)
    ensures |pool| > 0
    ensures KnownOnly(interests) == [] ==> pool == Fallback
    ensures KnownOnly(interests) != [] ==> pool == Pool(interests)
  {
    PoolShape(interests);
    if Pool(interests) == [] then Fallback else Pool(interests)
  }

  function Arrival(destination: string): string {
    "Arrival at " + destination
  }

  const CheckIn := "Hotel check-in"
  const Departure := "Shopping and departure"

  /** The two pool activities of day `day` (counted from 1). */
  function DayActivities(pool: seq<string>, day: nat): seq<string>
    requires |pool| > 0 && day >= 1
  {
    [pool[(2 * day - 2) % |pool|], pool[(2 * day - 1) % |pool|]]
  }

  /** The plan items of one day. */
  function Plan(destination: string, pool: seq<string>, day: nat, days: int): (p: seq<string>)
    requires |pool| > 0 && day >= 1
    ensures var open := if day == 1 then 2 else 0;
            && |p| == open + 2 + (if day == days then 1 else 0)
            && (day == 1 ==> p[..2] == [Arrival(destination), CheckIn])
            && p[open..open + 2] == DayActivities(pool, day)
            && (day == days ==> p[|p| - 1] == Departure)
  {
    (if day == 1 then [Arrival(destination), CheckIn] else [])
    + DayActivities(pool, day)
    + (if day == days then [Departure] else [])
  }

  /** One line of the itinerary: `Day {day}: ` and the plan joined with `, `. */
  function DayEntry(destination: string, pool: seq<string>, day: nat, days: int): string
    requires |pool| > 0 && day >= 1
  {
    "Day " + NatToString(day) + ": " + Join(Plan(destination, pool, day, days), ", ")
  }

  /** Every pool activity drawn in the first `days` days, in order. */
  function Drawn(pool: seq<string>, days: nat): (d: seq<string>)
    requires |pool| > 0
    ensures |d| == 2 * days
  {
    if days == 0 then [] else Drawn(pool, days - 1) + DayActivities(pool, days)
  }

  /** The days walk the pool round-robin: the i-th activity drawn is
      `pool[i % n]`, wrapping around once the pool is used up. */
  lemma {:induction false} RoundRobin(pool: seq<string>, days: nat)
    requires |pool| > 0
    ensures |Drawn(pool, days)| == 2 * days
    ensures forall i :: 0 <= i < 2 * days ==> Drawn(pool, days)[i] == pool[i % |pool|]
  {
    if days > 0 {
      RoundRobin(pool, days - 1);
    }
  }

  /** Day `day` draws the two activities at positions `2 * day - 2` and
      `2 * day - 1` of the run drawn over the whole trip. */
  lemma {:induction false} DrawnDay(pool: seq<string>, days: nat, day: nat)
    requires |pool| > 0 && 1 <= day <= days
    ensures Drawn(pool, days)[2 * day - 2..2 * day] == DayActivities(pool, day)
  {
    if day < days {
      DrawnDay(pool, days - 1, day);
      assert Drawn(pool, days)[..2 * days - 2] == Drawn(pool, days - 1);
    }
  }

  /** The two activities in the plan of day `day` are the next two of the
      round-robin run, so `pool[(2 * day - 2) % n]` and `pool[(2 * day - 1) % n]`. */
  lemma PlanDraws(destination: string, pool: seq<string>, day: nat, days: nat)
    requires |pool| > 0 && 1 <= day <= days
    ensures var p, open := Plan(destination, pool, day, days), if day == 1 then 2 else 0;
            && p[open] == Drawn(pool, days)[2 * day - 2] == pool[(2 * day - 2) % |pool|]
            && p[open + 1] == Drawn(pool, days)[2 * day - 1] == pool[(2 * day - 1) % |pool|]
  {
    DrawnDay(pool, days, day);
    RoundRobin(pool, days);
  }

  /** Day 1 opens with the arrival and the hotel check-in. */
  lemma FirstDayOpens(destination: string, pool: seq<string>, days: int)
    requires |pool| > 0
    ensures var e := DayEntry(destination, pool, 1, days);
            var head := "Day 1: " + Arrival(destination) + ", " + CheckIn + ", ";
            |head| <= |e| && e[..|head|] == head
  {
    var plan := Plan(destination, pool, 1, days);
    var rest := plan[2..];
    assert plan == [Arrival(destination)] + ([CheckIn] + rest);
    JoinCons(CheckIn, rest, ", ");
    JoinCons(Arrival(destination), [CheckIn] + rest, ", ");
    assert NatToString(1) == "1";
    var head := "Day 1: " + Arrival(destination) + ", " + CheckIn + ", ";
    assert DayEntry(destination, pool, 1, days) == head + Join(rest, ", ");
  }

  /** The last day closes with the departure. */
  lemma LastDayCloses(destination: string, pool: seq<string>, days: nat)
    requires |pool| > 0 && days >= 1
    ensures var e := DayEntry(destination, pool, days, days);
            var tail := ", " + Departure;
            |tail| <= |e| && e[|e| - |tail|..] == tail
  {
    var plan := Plan(destination, pool, days, days);
    var init := plan[..|plan| - 1];
    assert plan == init + [Departure];
    JoinSnoc(init, Departure, ", ");
  }

  /** The first loop: extend the pool interest by interest, then fall back
      to the generic pair when nothing was collected. */
  method CollectActivities(interests: seq<string>) returns (activities: seq<string>)
    ensures activities == ActivityList(interests)
  {
    activities := [];
    for i := 0 to |interests|
      invariant activities == Pool(interests[..i])
    {
      assert interests[..i + 1][..i] == interests[..i];
      activities := activities + Activities(interests[i]);
    }
    assert interests[..|interests|] == interests;
    if activities == [] {
      activities := Fallback;
    }
  }

  /** The body of the day loop up to the join: the opening pair on day 1,
      the next two pool activities from position `idx`, the departure on the
      last day. */
  method PlanDay(destination: string, activities: seq<string>, idx: nat, day: nat, days: int)
    returns (plan: seq<string>)
    requires |activities| > 0 && day >= 1 && idx == 2 * (day - 1)
    ensures plan == Plan(destination, activities, day, days)
  {
    plan := [];
    if day == 1 {
      plan := plan + [Arrival(destination), CheckIn];
    }
    plan := plan + [activities[idx % |activities|]];
    plan := plan + [activities[(idx + 1) % |activities|]];
    if day == days {
      plan := plan + [Departure];
    }
  }

  /** The itinerary of `interests` for `destination` over `days` days: one
      entry per day 1..days, so none when `days <= 0`. */
  method GenerateItinerary(destination: string, days: int, interests: seq<string>)
    returns (itinerary: seq<string>)
    ensures |itinerary| == if days > 0 then days else 0
    ensures forall k :: 0 <= k < |itinerary| ==>
              itinerary[k] == DayEntry(destination, ActivityList(interests), k + 1, days)
  {
    var activities := CollectActivities(interests);

    itinerary := [];
    var idx := 0;
    var day := 1;
    while day <= days
      invariant 1 <= day <= if days > 0 then days + 1 else 1
      invariant |itinerary| == day - 1
      invariant idx == 2 * (day - 1)
      invariant forall k :: 0 <= k < |itinerary| ==>
                  itinerary[k] == DayEntry(destination, activities, k + 1, days)
    {
      var plan := PlanDay(destination, activities, idx, day, days);
      idx := idx + 2;
      var entry := "Day " + NatToString(day) + ": " + Join(plan, ", ");
      assert entry == DayEntry(destination, activities, day, days);
      itinerary := itinerary + [entry];
      day := day + 1;
    }
  }
}
