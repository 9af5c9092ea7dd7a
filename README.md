# Trip recommender core in Dafny

A Dafny model of the core of a small travel-recommendation web application.
Given a budget, a trip length, the size of a travelling group, an optional
region and the places group members have already visited (with how many
members visited each), the recommender:

- filters a destination catalog by budget and region;
- removes destinations a majority of the group has already seen, and
  penalises those a minority has seen;
- scores the rest on interest, trip length and rating;
- attaches three explanation labels and a group-acceptance percentage;
- returns the five best rows.

For the chosen destination it also builds a day-by-day itinerary. It draws
two activities per day, round-robin, from a pool assembled from the
traveller's interests.

The model covers three pieces of source:

- the recommender and the itinerary builder (`model/recommender.py`);
- the load-time normalisation of the catalog's `region` column;
- the two pieces of form handling that feed the recommender (`app.py`):
  - the region normalisation;
  - the parser of the `visited_votes` field (`"Goa: 3, Manali:1"`).

Modules, one per file:

| module | file | what it holds |
|---|---|---|
| `Wrappers` | `wrappers.dfy` | `Option` and `Result` |
| `Text` | `text.dfy` | the string operations the source relies on |
| `Region` | `region.dfy` | region normalisation |
| `Catalog` | `catalog.dfy` | destination records, load-time normalisation |
| `VisitedVotes` | `visited_votes.dfy` | the `visited_votes` parser |
| `GroupVote` | `group_vote.dfy` | the vote loop and its order-free closed form |
| `Scoring` | `scoring.dfy` | sub-scores, final score, labels, group acceptance |
| `Ranking` | `ranking.dfy` | descending sort and top-five selection |
| `Recommender` | `recommender.dfy` | the whole `recommend_destinations` pipeline |
| `Itinerary` | `itinerary.dfy` | `generate_itinerary` |

`Text` covers `strip`, `lower`, `replace`, `split`, `join` and `int`/`str`.

The form's model takes its source's shape:

- The two loops of `generate_itinerary`, the vote loop of
  `recommend_destinations` and the `visited_votes` loop are methods with
  `while`/`for` loops. Each is proved against a fold-shaped specification
  function, and that function's properties are proved as lemmas.
- The pure parts are functions and lemmas: filters, scores, labels, the
  sort, and string handling.
- A Python dictionary that the loop assigns into is an insertion-ordered
  sequence of distinct `(key, value)` pairs. Assigning to an existing key
  keeps its position, and a new key is appended.

The main results:

- **Vote order does not matter.** The vote loop equals a closed form,
  `GroupVote.Settle`. A destination survives exactly when no vote naming it
  reaches `people // 2 + 1`, and it carries the 0.6 penalty exactly when
  some vote naming it stays below that. So any two vote lists holding the
  same pairs give the same rows (`VoteOrderIrrelevant`).
- **The recommender's output is a best-five selection** of the scored
  survivors. Every returned row is affordable, in the requested region and
  not voted out, and its group acceptance is 60 or 100 according to its
  penalty.
- **The `visited_votes` parser** fails exactly when some item is rejected,
  and the error reported is the first one. On success the keys are
  distinct, and each key holds the count from the last item naming it.
- **The itinerary** has one entry per day. Its activities walk the pool
  round-robin, day 1 opens with arrival and check-in, and the last day
  closes with departure.
- **Region normalisation is not idempotent**: `"x-"` becomes `"x "`, and
  then `"x"`. A second pass only strips again, and it changes nothing when
  the first result has no surrounding space.

Three places where a reader might expect more than the code gives; the
model follows the code:

- One might expect normalising an already normalised region to change
  nothing. The code strips before replacing `-` by a space, so it is not
  idempotent (`Region.NormalizeNotIdempotent`).
- One might expect ties in the final score to keep catalog order. The code
  calls `sort_values` with its default, non-stable algorithm, so the
  contract leaves the order among equal scores open (`Ranking.IsTopK`).
- One might expect the percentile score to be 0 when every final score is
  0. The code divides by the maximum without a guard. The percentile column
  is not part of this model (see below).

## Model

| member | source | states |
|---|---|---|
| Text.StripShape | app.py:35 | `strip` returns the slice of its input that starts after the leading whitespace, neither starts nor ends with whitespace, and removes only whitespace on both sides |
| Text.StripNoop | app.py:35 | a string with no surrounding whitespace is unchanged by `strip` |
| Text.Lower | model/recommender.py:14 | `lower` keeps the length, maps each character through ASCII lower-casing, and leaves no upper-case letter |
| Text.Replace | model/recommender.py:14 | `replace` keeps the length and swaps exactly the occurrences of the one character |
| Text.Split | app.py:32 | `split(sep)` always returns at least one piece |
| Text.SplitPiecesFree | app.py:32 | no piece of `split(sep)` contains the separator |
| Text.JoinSplit | app.py:32 | joining the pieces of `split(sep)` with the separator gives the input back |
| Text.SplitJoin | app.py:34 | `split` of a join of separator-free pieces gives those pieces back |
| Text.SplitCount | app.py:34 | `split(sep)` has one more piece than the input has separators |
| Text.NatToString | model/recommender.py:137 | `str(n)` of a natural number is a non-empty run of digits with no leading zero |
| Text.ParseInt | app.py:35 | `int` accepts only a non-empty string, and a negative result comes only from a leading `-` |
| Text.ParseIntDigits | app.py:35 | `int` of a non-empty run of digits is its decimal value |
| Text.ParseIntAccepts | app.py:35 | `int` accepts exactly a digit or a sign followed by at least one more character, with only digits after the first character; `"x5"`, `"-"` and `"+"` are rejected |
| Text.ParseIntSigned | app.py:35 | `int` of `-` or `+` followed by digits, leading zeros allowed, is the digits' value with that sign |
| Text.ParseShowInt | app.py:35 | `int(str(n)) == n` for every integer |
| Text.ParseIntRejects | app.py:35 | `int` rejects a string with a non-digit after its first character |
| Region.Normalize | model/recommender.py:12-15 | the normalised region has no `-` and no upper-case letter, and is as long as the stripped input |
| Region.NormalizeNormalized | app.py:28 | on a string already free of `-` and upper case, normalising only strips |
| Region.NormalizeTwice | model/recommender.py:14 | normalising twice equals stripping the first result |
| Region.NormalizeNotIdempotent | model/recommender.py:14 | `"x-"` normalises to `"x "` and then to `"x"`, so normalisation is not idempotent |
| Region.NormalizeIdempotentWhenTrimmed | app.py:28 | normalisation is idempotent when its first result has no surrounding whitespace |
| Catalog.NormalizeRegions | model/recommender.py:12-15 | the load-time pass rewrites only the region of each row, keeps the row order, and leaves every region normalised |
| VisitedVotes.PutKeys | app.py:35 | dictionary assignment keeps an existing key in place and appends a new key last |
| VisitedVotes.PutLookup | app.py:35 | after `d[k] = v`, `k` maps to `v` and every other key is unchanged |
| VisitedVotes.PutKeepsDistinct | app.py:35 | dictionary assignment keeps the keys distinct |
| VisitedVotes.ParseItem | app.py:33-35 | an item is ignored exactly when it has no `:`, and a count reported as not an integer is one `int` rejects |
| VisitedVotes.ParseItemCases | app.py:33-35 | an item is skipped exactly when it has no `:`, fails to unpack exactly when it has two or more, and binds only with exactly one |
| VisitedVotes.ParseItemOneColon | app.py:34-35 | `place:votes` binds the stripped place to `int(votes.strip())`, or fails with that text when it is not an integer |
| VisitedVotes.FailurePersists | app.py:32-35 | once an item raises, the items after it are never processed and the error stands |
| VisitedVotes.ParseItemsDistinct | app.py:30-35 | a successful parse yields distinct places |
| VisitedVotes.ParseItemsLookup | app.py:30-35 | each place holds the count of the last item naming it, and a place no item names is absent |
| VisitedVotes.RejectedFails | app.py:32-35 | any rejected item makes the whole parse fail |
| VisitedVotes.FailureHasCause | app.py:32-35 | a failed parse has a rejected item |
| VisitedVotes.ParseItemsFails | app.py:32-35 | the parse fails if and only if some item is rejected |
| VisitedVotes.ParseItemsFirstError | app.py:32-35 | the error reported is that of the first rejected item |
| VisitedVotes.NoColonNoVotes | app.py:31-33 | a field without any `:` gives the empty dictionary |
| VisitedVotes.EmptyFieldNoVotes | app.py:31 | the empty default field gives the empty dictionary |
| VisitedVotes.ParseVisitedVotes | app.py:30-35 | the loop computes the left-to-right fold of the items; on success its keys are distinct and each holds its last binding |
| GroupVote.Majority | model/recommender.py:47 | `people // 2 + 1` is the least count strictly above half the group |
| GroupVote.Initial | model/recommender.py:44 | every row starts with penalty 1.0 and the row order is kept |
| GroupVote.ApplyVote | model/recommender.py:46-50 | one vote never adds rows, and below the majority it removes none |
| GroupVote.ApplyVoteEffect | model/recommender.py:46-50 | after one vote a row of the voted name remains only below the majority, then with penalty 0.6; every other row is a row of the input |
| GroupVote.ApplyVotes | model/recommender.py:45-50 | the votes, applied in dictionary order, never add rows |
| GroupVote.CastVotes | model/recommender.py:45-50 | the vote loop computes the in-order application of the votes, which equals the order-free closed form |
| GroupVote.ApplyVoteAppend | model/recommender.py:48-50 | one vote acts on each row independently |
| GroupVote.SettleSnoc | model/recommender.py:45-50 | one more vote turns the closed form for the earlier votes into the closed form for all of them |
| GroupVote.SettleNoVotes | model/recommender.py:44-45 | with no votes every row is kept unchanged |
| GroupVote.ApplyVotesSettles | model/recommender.py:43-50 | the vote loop, in dictionary order, equals the order-free closed form |
| GroupVote.SettleAgrees | model/recommender.py:45-50 | vote lists that exclude and penalise the same names leave the same rows |
| GroupVote.SameVotesSameVerdict | model/recommender.py:45-50 | exclusion and penalty depend only on which pairs are present |
| GroupVote.VoteOrderIrrelevant | model/recommender.py:45-50 | any two vote lists with the same pairs, in any order and with any repetition, leave the same rows with the same penalties |
| GroupVote.SettleMember | model/recommender.py:46-48 | a destination survives exactly when no vote naming it case-insensitively reaches the majority |
| GroupVote.SettlePenalty | model/recommender.py:44-50 | a survivor carries 0.6 exactly when some vote naming it stays below the majority, otherwise 1.0 |
| Scoring.DurationScore | model/recommender.py:65-67 | the duration score lies in [0, 1], is 1 exactly at the recommended length, and is 0 exactly when the trip is off by the recommended length or more |
| Scoring.RatingScore | model/recommender.py:68 | the rating score lies in [0, 1] and is one fifth of the rating |
| Scoring.Weighted | model/recommender.py:71-74 | the weighted score lies in [0, 0.9] and reaches 0.9 exactly when all three sub-scores are 1 |
| Scoring.FinalScore | model/recommender.py:71-75 | the final score lies between 0 and 0.9 times the vote penalty |
| Scoring.InterestLabel | model/recommender.py:83-86 | each interest label is given exactly on its score band |
| Scoring.DurationLabel | model/recommender.py:88-91 | each duration label is given exactly on its score band |
| Scoring.RatingLabel | model/recommender.py:93-96 | each rating label is given exactly on its score band |
| Scoring.RoundHalfEven | model/recommender.py:101 | rounding lands within one half of its input and leaves whole numbers alone |
| Scoring.GroupAcceptance | model/recommender.py:101 | group acceptance is 60 for a penalised row and 100 otherwise |
| Scoring.ScoreRow | model/recommender.py:64-101 | each column of a scored row is derived from its candidate (`WellScored`): interest score from the catalog, duration and rating scores, final score as the weighted sum times the penalty, the three labels of those sub-scores, and the acceptance of the penalty; duration is 1 exactly at the recommended length, rating times 5 is the catalog rating, the final score lies within 0 and 0.9 times the penalty, and acceptance is 60 or 100 |
| Scoring.ScoreAll | model/recommender.py:64-101 | every surviving row is scored, in order |
| Ranking.Insert | model/recommender.py:103 | insertion adds exactly one row to the multiset |
| Ranking.InsertSorted | model/recommender.py:103 | insertion keeps a descending sequence descending |
| Ranking.SortDescending | model/recommender.py:103 | the sort is a permutation of its input, in non-increasing final score |
| Ranking.Head | model/recommender.py:103 | `head(k)` is the prefix of length `min(k, n)` |
| Ranking.SortedCut | model/recommender.py:103 | in a descending sequence nothing after a cut outscores anything before it |
| Ranking.HeadOfSortedIsTopK | model/recommender.py:103 | the first `k` rows of a descending sort are a best-`k` selection: as many rows as allowed, drawn from the input, descending, and no row left out scores higher than a kept one |
| Recommender.WithinBudget | model/recommender.py:33 | the budget filter keeps exactly the rows whose daily cost is within the budget |
| Recommender.InRegion | model/recommender.py:39 | the region filter keeps exactly the rows of that region |
| Recommender.Candidates | model/recommender.py:33-41 | the rows reaching the vote loop are exactly the catalog rows within budget and, when a region is given, in that region |
| Recommender.Survivors | model/recommender.py:33-50 | the votes leave at most as many rows as reached them |
| Recommender.SurvivorsSpec | model/recommender.py:33-50 | the rows leaving the vote loop are the catalog rows within budget, in the region when one is given, not excluded by a majority vote, each with the penalty its votes call for |
| Recommender.NoCandidatesNoSurvivors | model/recommender.py:34-41 | an empty table stays empty through the votes |
| Recommender.NoRegionMatch | model/recommender.py:38-39 | a region filter holding a `-` or an upper-case letter matches no normalised row |
| Recommender.UnnormalizedRegionMatchesNothing | model/recommender.py:12-15 | against the load-time normalised catalog, a region filter that is not normalised leaves nothing |
| Recommender.ScoredFrom | model/recommender.py:64-101 | every scored row is the scoring of one of the surviving rows |
| Recommender.ScoredSurvivorAdmitted | model/recommender.py:33-101 | every scored survivor is affordable, in the region, not voted out, has penalty and acceptance as its votes call for, and columns derived as `ScoreRow` derives them |
| Recommender.SelectedRowsAdmitted | model/recommender.py:103 | every row of any best-five selection is admissible in that sense |
| Recommender.Recommend | model/recommender.py:28-103 | the pipeline returns a best-five selection of the scored survivors, each affordable, in the region, not voted out, with 0.6 penalty and 60 acceptance exactly when a minority vote names it, and with its scores and labels derived from its destination |
| Itinerary.Activities | model/recommender.py:109-115 | an interest has either exactly three activities or none |
| Itinerary.KnownOnly | model/recommender.py:118-119 | only interests the table knows contribute |
| Itinerary.PoolShape | model/recommender.py:117-119 | the pool is three activities per known interest, in interest order, duplicates kept |
| Itinerary.ActivityList | model/recommender.py:117-121 | the pool is never empty: the generic pair when no interest is known, the collected activities otherwise |
| Itinerary.Plan | model/recommender.py:125-135 | a day's plan is the opening pair on day 1, then that day's two activities, then the departure on the last day, and nothing else |
| Itinerary.Drawn | model/recommender.py:123-132 | `n` days draw `2n` activities |
| Itinerary.RoundRobin | model/recommender.py:123-132 | over `n` days the plan draws `2n` activities, the `i`-th being `pool[i % len(pool)]` |
| Itinerary.DrawnDay | model/recommender.py:129-132 | day `d` draws positions `2d-2` and `2d-1` of the run drawn over the trip |
| Itinerary.PlanDraws | model/recommender.py:125-132 | the two activities in day `d`'s plan are `pool[(2d-2) % n]` and `pool[(2d-1) % n]`, the next two of the round-robin run |
| Itinerary.FirstDayOpens | model/recommender.py:126-127 | day 1 reads "Day 1: Arrival at …, Hotel check-in, " before its activities |
| Itinerary.LastDayCloses | model/recommender.py:134-137 | the last day ends with ", Shopping and departure" |
| Itinerary.CollectActivities | model/recommender.py:117-121 | the first loop builds the pool, falling back to the generic pair |
| Itinerary.PlanDay | model/recommender.py:125-135 | one day's plan: opening pair on day 1, the next two activities from the running index, departure on the last day |
| Itinerary.GenerateItinerary | model/recommender.py:107-139 | one entry per day `1..days` (none when `days <= 0`), entry `k` being "Day k: " and that day's plan joined with ", " |

## Left out

- Loading the catalog from CSV (model/recommender.py:8-10) is left out. The catalog is a parameter.
- The TF-IDF interest similarity (model/recommender.py:18-24, 55-62) is left out. Each destination's `interestScore` is an input in [0, 1].
- The percentile column `final_score_pct` (model/recommender.py:78-80) is left out. It uses floating-point division by the maximum, `round(1)`, and yields NaN when the maximum is 0.
- Floating-point arithmetic is not modelled. Scores are exact reals, so results that differ only by rounding at a label threshold are not captured.
- The Flask routes are left out: request parsing of budget, days and people (app.py:24-27), template rendering, and `/update_itinerary` (app.py:46-60). `get_weather` (app.py:7-15) is left out too, since it is network I/O.
- `strip` and `lower` cover ASCII whitespace and ASCII letters only. Python's Unicode-aware versions are not modelled.
- `int()` is modelled as an optional sign followed by ASCII digits. Digit-group underscores and non-ASCII digits are not accepted.
- Text.ParseInt: does not model the interpreter's limit on decimal conversion. Since Python 3.11, and in the security releases of 3.7 to 3.10, `int()` raises `ValueError` on more than 4300 digits by default, and the limit is configurable through `sys.set_int_max_str_digits` and `PYTHONINTMAXSTRDIGITS`. The model follows unlimited conversion, so it binds such a vote count where those interpreters reject the item.
- Text.ParseIntAccepts: the accepted set has no length bound, for the same reason as `Text.ParseInt`.
- Text.ParseIntDigits: gives a value for digit runs of any length, for the same reason as `Text.ParseInt`.
- Text.ParseIntSigned: gives a value for signed digit runs of any length, for the same reason as `Text.ParseInt`.
- Text.ParseShowInt: holds for every integer, whereas `str(n)` also raises beyond 4300 digits under that limit.
- Recommend: does not state the order among rows with equal final scores, because the library sort is not stable.
- Recommend: returns scored rows with the modelled columns only, not the full table row. The `interests` argument is absent because the interest score is an input.
- Scoring.DurationScore: takes `recommended_days` as a positive integer (type `PosInt`). A zero value would make the source divide by zero.
- Itinerary.Activities: states only the table's shape. The table's contents are its definition.
