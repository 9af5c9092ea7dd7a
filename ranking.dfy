/**
  `sort_values("final_score", ascending=False).head(5)`. The library sort is
  not stable, so the order among equal scores is not specified; the contract
  only says what any such sort guarantees.
 */
module Ranking {
  import opened Scoring

  predicate Nonincreasing(s: seq<Scored>) {
    forall i, j :: 0 <= i < j < |s| ==> s[i].finalScore >= s[j].finalScore
  }

  function Insert(x: Scored, s: seq<Scored>): (r: seq<Scored>)
    ensures multiset(r) == multiset(s) + multiset{x}
  {
    if s == [] || x.finalScore >= s[0].finalScore then [x] + s
    else
      assert s == [s[0]] + s[1..];
      [s[0]] + Insert(x, s[1..])
  }

  /** Inserting into a descending sequence keeps it descending. */
  lemma {:induction false} InsertSorted(x: Scored, s: seq<Scored>)
    requires Nonincreasing(s)
    ensures Nonincreasing(Insert(x, s))
  {
    if s != [] && x.finalScore < s[0].finalScore {
      var rest := Insert(x, s[1..]);
      InsertSorted(x, s[1..]);
      assert Insert(x, s) == [s[0]] + rest;
      forall j | 0 <= j < |rest| ensures rest[j].finalScore <= s[0].finalScore {
        assert rest[j] in multiset(rest);
        if rest[j] != x {
          assert rest[j] in multiset(s[1..]);
          var i :| 0 <= i < |s[1..]| && s[1..][i] == rest[j];
          assert s[i + 1] == rest[j];
        }
      }
    }
  }

  /** A descending sort: the same rows, best score first. */
  function SortDescending(s: seq<Scored>): (r: seq<Scored>)
    ensures Nonincreasing(r)
    ensures multiset(r) == multiset(s)
  {
    if s == [] then []
    else
      assert s == [s[0]] + s[1..];
      InsertSorted(s[0], SortDescending(s[1..]));
      Insert(s[0], SortDescending(s[1..]))
  }

  /** `head(k)` */
  function Head(s: seq<Scored>, k: nat): (r: seq<Scored>)
    ensures |r| == if |s| < k then |s| else k
    ensures r == s[..|r|]
  {
    if |s| < k then s else s[..k]
  }

  /** `result` is a best-`k` selection of `all`: as many rows as allowed,
      drawn from `all`, best first, and nothing left out scores higher than
      anything kept. Ties between equal scores may fall either way. */
  ghost predicate IsTopK(result: seq<Scored>, all: seq<Scored>, k: nat) {
    && |result| == (if |all| < k then |all| else k)
    && multiset(result) <= multiset(all)
    && Nonincreasing(result)
    && forall x, j :: x in multiset(all) - multiset(result) && 0 <= j < |result| ==>
         x.finalScore <= result[j].finalScore
  }

  /** Cutting a descending sequence at `n`: both parts stay descending and
      nothing after the cut scores higher than anything before it. */
  lemma SortedCut(sorted: seq<Scored>, n: nat)
    requires Nonincreasing(sorted) && n <= |sorted|
    ensures Nonincreasing(sorted[..n])
    ensures forall x, j :: x in sorted[n..] && 0 <= j < n ==> x.finalScore <= sorted[j].finalScore
  {
    forall x, j | x in sorted[n..] && 0 <= j < n ensures x.finalScore <= sorted[j].finalScore {
      var i :| 0 <= i < |sorted[n..]| && sorted[n..][i] == x;
      assert sorted[n + i] == x;
    }
  }

  lemma MultisetCut(s: seq<Scored>, n: nat)
    requires n <= |s|
    ensures multiset(s) == multiset(s[..n]) + multiset(s[n..])
  {
    assert s == s[..n] + s[n..];
  }

  /** The first `k` rows of a descending sort are a best-`k` selection. */
  lemma HeadOfSortedIsTopK(sorted: seq<Scored>, all: seq<Scored>, k: nat)
    requires Nonincreasing(sorted) && multiset(sorted) == multiset(all)
    ensures IsTopK(Head(sorted, k), all, k)
  {
    var r := Head(sorted, k);
    var rest := sorted[|r|..];
    MultisetCut(sorted, |r|);
    assert multiset(r) <= multiset(all);
    assert multiset(all) - multiset(r) == multiset(rest);
    SortedCut(sorted, |r|);
    forall x: Scored, j | x in multiset(all) - multiset(r) && 0 <= j < |r|
      ensures x.finalScore <= r[j].finalScore
    {
      assert x in rest;
    }
  }
}
