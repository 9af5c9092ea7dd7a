/**
  `recommend_destinations`: budget filter, optional region filter, group
  votes, scoring, then the five best rows by final score. Every stage that
  empties the table returns the empty result at once.
 */
module Recommender {
  import opened Catalog
  import opened VisitedVotes
  import opened GroupVote
  import opened Scoring
  import opened Ranking
  import opened Region

  const TopN: nat := 5

  /** `df[df["avg_daily_cost"] <= budget]` */
  function WithinBudget(ds: seq<Destination>, budget: int): (r: seq<Destination>)
    ensures |r| <= |ds|
    ensures forall d :: d in r <==> d in ds && d.avgDailyCost <= budget
  {
    if ds == [] then []
    else (if ds[0].avgDailyCost <= budget then [ds[0]] else []) + WithinBudget(ds[1..], budget)
  }

  /** `df[df["region"] == region]` */
  function InRegion(ds: seq<Destination>, region: string): (r: seq<Destination>)
    ensures |r| <= |ds|
    ensures forall d :: d in r <==> d in ds && d.region == region
  {
    if ds == [] then []
    else (if ds[0].region == region then [ds[0]] else []) + InRegion(ds[1..], region)
  }

  /** The rows that reach the vote loop; an empty region filters nothing. */
  function Candidates(catalog: seq<Destination>, budget: int, region: string): (r: seq<Destination>)
    ensures |r| <= |catalog|
    ensures forall d :: d in r <==>
              d in catalog && d.avgDailyCost <= budget && (region != "" ==> d.region == region)
  {
    var affordable := WithinBudget(catalog, budget);
    if region != "" then InRegion(affordable, region) else affordable
  }

  /** The rows that leave the vote loop, with their penalties. */
  function Survivors(catalog: seq<Destination>, budget: int, votes: Votes, people: int, region: string)
    : (r: seq<Candidate>)
    ensures |r| <= |Candidates(catalog, budget, region)| <= |catalog|
  {
    ApplyVotes(Initial(Candidates(catalog, budget, region)), votes, people)
  }

  /** What survives, for any order of the votes: the destinations within the
      budget, in the region when one is given, that no majority vote names;
      each carries 0.6 exactly when a minority vote names it. */
  lemma SurvivorsSpec(catalog: seq<Destination>, budget: int, votes: Votes, people: int, region: string)
    ensures forall d :: d in Dests(Survivors(catalog, budget, votes, people, region)) <==>
              && d in catalog
              && d.avgDailyCost <= budget
              && (region != "" ==> d.region == region)
              && !Excluded(d.name, votes, people)
    ensures forall c :: c in Survivors(catalog, budget, votes, people, region) ==>
              c.penalty == if Penalized(c.dest.name, votes, people) then MinorityPenalty else NoPenalty
  {
    var rows := Initial(Candidates(catalog, budget, region));
    ApplyVotesSettles(rows, votes, people);
    forall d {
      SettleMember(rows, votes, people, d);
    }
    SettlePenalty(rows, votes, people);
  }

  /** With no candidates there is nothing left after the votes. */
  lemma NoCandidatesNoSurvivors(votes: Votes, people: int)
    ensures ApplyVotes(Initial([]), votes, people) == []
  {
    ApplyVotesSettles(Initial([]), votes, people);
  }

  /** The catalog's regions are normalised at load time, so a region filter
      that still holds a `-` or an upper-case letter matches nothing. */
  lemma UnnormalizedRegionMatchesNothing(raw: seq<Destination>, budget: int, votes: Votes, people: int,
                                         region: string, k: nat)
    requires k < |region| && (region[k] == '-' || 'A' <= region[k] <= 'Z')
    ensures Survivors(NormalizeRegions(raw), budget, votes, people, region) == []
  {
    var catalog := NormalizeRegions(raw);
    var affordable := WithinBudget(catalog, budget);
    forall d | d in affordable ensures Normalized(d.region) {
      var i :| 0 <= i < |catalog| && catalog[i] == d;
    }
    NoRegionMatch(affordable, region, k);
    NoCandidatesNoSurvivors(votes, people);
  }

  lemma {:induction false} NoRegionMatch(ds: seq<Destination>, region: string, k: nat)
    requires k < |region| && (region[k] == '-' || 'A' <= region[k] <= 'Z')
    requires forall d :: d in ds ==> Normalized(d.region)
    ensures InRegion(ds, region) == []
  {
    if ds != [] {
      assert ds[0] in ds;
      assert ds[0].region != region by {
        if |ds[0].region| == |region| {
          assert ds[0].region[k] != region[k];
        }
      }
      NoRegionMatch(ds[1..], region, k);
    }
  }

  /** A scored row comes from one of the rows that were scored. */
  lemma ScoredFrom(rows: seq<Candidate>, days: int, x: Scored)
    requires x in ScoreAll(rows, days)
    ensures exists c :: c in rows && x == ScoreRow(c, days)
  {
    var scored := ScoreAll(rows, days);
    var j :| 0 <= j < |scored| && scored[j] == x;
    assert rows[j] in rows;
  }

  /** Every scored survivor is an admissible row with the penalty its votes
      call for. */
  lemma ScoredSurvivorAdmitted(catalog: seq<Destination>, budget: int, days: int, votes: Votes,
                               people: int, region: string, x: Scored)
    requires x in ScoreAll(Survivors(catalog, budget, votes, people, region), days)
    ensures && x.dest in catalog
            && x.dest.avgDailyCost <= budget
            && (region != "" ==> x.dest.region == region)
            && !Excluded(x.dest.name, votes, people)
    ensures if Penalized(x.dest.name, votes, people)
            then x.penalty == MinorityPenalty && x.groupAcceptance == 60
            else x.penalty == NoPenalty && x.groupAcceptance == 100
    ensures WellScored(x, days)
  {
    var rows := Survivors(catalog, budget, votes, people, region);
    SurvivorsSpec(catalog, budget, votes, people, region);
    ScoredFrom(rows, days, x);
    var c :| c in rows && x == ScoreRow(c, days);
    var j :| 0 <= j < |rows| && rows[j] == c;
    assert Dests(rows)[j] == c.dest;
  }

  /** Rows of any best-five selection of the scored survivors are
      admissible rows with the penalty their votes call for. */
  lemma SelectedRowsAdmitted(catalog: seq<Destination>, budget: int, days: int, votes: Votes,
                             people: int, region: string, result: seq<Scored>)
    requires IsTopK(result, ScoreAll(Survivors(catalog, budget, votes, people, region), days), TopN)
    ensures forall k :: 0 <= k < |result| ==>
              && result[k].dest in catalog
              && result[k].dest.avgDailyCost <= budget
              && (region != "" ==> result[k].dest.region == region)
              && !Excluded(result[k].dest.name, votes, people)
    ensures forall k :: 0 <= k < |result| ==>
              if Penalized(result[k].dest.name, votes, people)
              then result[k].penalty == MinorityPenalty && result[k].groupAcceptance == 60
              else result[k].penalty == NoPenalty && result[k].groupAcceptance == 100
    ensures forall k :: 0 <= k < |result| ==> WellScored(result[k], days)
  {
    var scored := ScoreAll(Survivors(catalog, budget, votes, people, region), days);
    forall k | 0 <= k < |result| ensures result[k] in scored {
      assert result[k] in multiset(result);
    }
    forall k | 0 <= k < |result| {
      ScoredSurvivorAdmitted(catalog, budget, days, votes, people, region, result[k]);
    }
  }

  /** The whole pipeline. The result is a best-five selection of the scored
      survivors; every row in it is affordable, in the requested region, not
      voted out, and penalised exactly when a minority of the group has been
      there. */
  method Recommend(catalog: seq<Destination>, budget: int, days: int, votes: Votes, people: int,
                   region: string)
    returns (result: seq<Scored>)
    ensures IsTopK(result, ScoreAll(Survivors(catalog, budget, votes, people, region), days), TopN)
    ensures forall k :: 0 <= k < |result| ==>
              && result[k].dest in catalog
              && result[k].dest.avgDailyCost <= budget
              && (region != "" ==> result[k].dest.region == region)
              && !Excluded(result[k].dest.name, votes, people)
    ensures forall k :: 0 <= k < |result| ==>
              if Penalized(result[k].dest.name, votes, people)
              then result[k].penalty == MinorityPenalty && result[k].groupAcceptance == 60
              else result[k].penalty == NoPenalty && result[k].groupAcceptance == 100
    ensures forall k :: 0 <= k < |result| ==> WellScored(result[k], days)
  {
    var df := WithinBudget(catalog, budget);
    if df == [] {
      NoCandidatesNoSurvivors(votes, people);
      return [];
    }
    if region != "" {
      df := InRegion(df, region);
    }
    if df == [] {
      NoCandidatesNoSurvivors(votes, people);
      return [];
    }

    var rows := CastVotes(Initial(df), votes, people);
    assert rows == Survivors(catalog, budget, votes, people, region);
    if rows == [] {
      return [];
    }

    var scored := ScoreAll(rows, days);
    var ranked := SortDescending(scored);
    result := Head(ranked, TopN);
    HeadOfSortedIsTopK(ranked, scored, TopN);
    SelectedRowsAdmitted(catalog, budget, days, votes, people, region, result);
  }
}
