/**
  Group voting: for each (place, votes) pair of the visited-votes dictionary,
  in order, a strict majority of the group removes the destination of that
  name (compared lower-cased), and a minority marks it with the 0.6 penalty.
 */
module GroupVote {
  import opened Text
  import opened Catalog
  import opened VisitedVotes

  datatype Candidate = Candidate(dest: Destination, penalty: real)

  const NoPenalty: real := 1.0
  const MinorityPenalty: real := 0.6

  /** `people // 2 + 1`; for the divisor 2 Dafny's Euclidean `/` is Python's floor division. */
  function Majority(people: int): (m: int)
    ensures 2 * (m - 1) <= people < 2 * m
  {
    people / 2 + 1
  }

  predicate Matches(place: string, name: string) {
    Lower(place) == Lower(name)
  }

  /** Some vote for this name reaches the majority. */
  predicate Excluded(name: string, votes: Votes, people: int) {
    exists i :: 0 <= i < |votes| && Matches(votes[i].0, name) && votes[i].1 >= Majority(people)
  }

  /** Some vote for this name stays below the majority. */
  predicate Penalized(name: string, votes: Votes, people: int) {
    exists i :: 0 <= i < |votes| && Matches(votes[i].0, name) && votes[i].1 < Majority(people)
  }

  function Dests(rows: seq<Candidate>): (ds: seq<Destination>)
    ensures |ds| == |rows| && forall i :: 0 <= i < |rows| ==> ds[i] == rows[i].dest
  {
    seq(|rows|, i requires 0 <= i < |rows| => rows[i].dest)
  }

  /** `df["vote_penalty"] = 1.0` */
  function Initial(ds: seq<Destination>): (rows: seq<Candidate>)
    ensures Dests(rows) == ds
    ensures forall c :: c in rows ==> c.penalty == NoPenalty
  {
    seq(|ds|, i requires 0 <= i < |ds| => Candidate(ds[i], NoPenalty))
  }

  /** One turn of the loop: drop the rows named `place` on a majority,
      otherwise set their penalty to 0.6. */
  function ApplyVote(rows: seq<Candidate>, place: string, n: int, people: int): (r: seq<Candidate>)
    ensures |r| <= |rows|
    ensures n < Majority(people) ==> |r| == |rows|
  {
    if rows == [] then []
    else
      var c := rows[0];
      var rest := ApplyVote(rows[1..], place, n, people);
      if !Matches(place, c.dest.name) then [c] + rest
      else if n >= Majority(people) then rest
      else [c.(penalty := MinorityPenalty)] + rest
  }

  /** The whole loop, in dictionary order. */
  function ApplyVotes(rows: seq<Candidate>, votes: Votes, people: int): (r: seq<Candidate>)
    ensures |r| <= |rows|
  {
    if votes == [] then rows
    else
      var last := votes[|votes| - 1];
      ApplyVote(ApplyVotes(rows, votes[..|votes| - 1], people), last.0, last.1, people)
  }

  /** After one vote, a row of the voted name is left only below the
      majority, and then with the 0.6 penalty; every other row is an
      unchanged row of the input. */
  lemma {:induction false} ApplyVoteEffect(rows: seq<Candidate>, place: string, n: int, people: int)
    ensures forall c :: c in ApplyVote(rows, place, n, people) ==>
              if Matches(place, c.dest.name) then n < Majority(people) && c.penalty == MinorityPenalty
              else c in rows
  {
    if rows != [] {
      ApplyVoteEffect(rows[1..], place, n, people);
    }
  }

  /** The vote loop itself, over the dictionary's pairs in order. */
  method CastVotes(rows: seq<Candidate>, votes: Votes, people: int) returns (out: seq<Candidate>)
    ensures out == ApplyVotes(rows, votes, people)
    ensures out == Settle(rows, votes, people)
  {
    out := rows;
    var i := 0;
    while i < |votes|
      invariant 0 <= i <= |votes|
      invariant out == ApplyVotes(rows, votes[..i], people)
    {
      assert votes[..i + 1][..i] == votes[..i];
      out := ApplyVote(out, votes[i].0, votes[i].1, people);
      i := i + 1;
    }
    assert votes[..i] == votes;
    ApplyVotesSettles(rows, votes, people);
  }

  function Mark(c: Candidate, votes: Votes, people: int): Candidate {
    if Penalized(c.dest.name, votes, people) then c.(penalty := MinorityPenalty) else c
  }

  /** The outcome of the loop stated without any order: the rows no majority
      vote names, those a minority vote names carrying the 0.6 penalty. */
  function Settle(rows: seq<Candidate>, votes: Votes, people: int): seq<Candidate>
  {
    if rows == [] then []
    else
      (if Excluded(rows[0].dest.name, votes, people) then [] else [Mark(rows[0], votes, people)])
      + Settle(rows[1..], votes, people)
  }

  lemma {:induction false} SettleSnoc(rows: seq<Candidate>, votes: Votes, v: (string, int), people: int)
    ensures Settle(rows, votes + [v], people) == ApplyVote(Settle(rows, votes, people), v.0, v.1, people)
  {
    var vs := votes + [v];
    if rows != [] {
      var c := rows[0];
      var name := c.dest.name;
      assert vs[|votes|] == v;
      assert forall i :: 0 <= i < |votes| ==> vs[i] == votes[i];
      assert Excluded(name, vs, people) <==>
             Excluded(name, votes, people) || (Matches(v.0, name) && v.1 >= Majority(people)) by {
        if Excluded(name, vs, people) {
          var i :| 0 <= i < |vs| && Matches(vs[i].0, name) && vs[i].1 >= Majority(people);
          if i < |votes| { assert votes[i] == vs[i]; }
        }
      }
      assert Penalized(name, vs, people) <==>
             Penalized(name, votes, people) || (Matches(v.0, name) && v.1 < Majority(people)) by {
        if Penalized(name, vs, people) {
          var i :| 0 <= i < |vs| && Matches(vs[i].0, name) && vs[i].1 < Majority(people);
          if i < |votes| { assert votes[i] == vs[i]; }
        }
      }
      SettleSnoc(rows[1..], votes, v, people);
      ApplyVoteAppend(if Excluded(name, votes, people) then [] else [Mark(c, votes, people)],
                      Settle(rows[1..], votes, people), v.0, v.1, people);
    }
  }

  lemma {:induction false} ApplyVoteAppend(a: seq<Candidate>, b: seq<Candidate>, place: string, n: int, people: int)
    ensures ApplyVote(a + b, place, n, people) == ApplyVote(a, place, n, people) + ApplyVote(b, place, n, people)
  {
    if a != [] {
      assert (a + b)[1..] == a[1..] + b;
      ApplyVoteAppend(a[1..], b, place, n, people);
    } else {
      assert a + b == b;
    }
  }

  /** The loop computes `Settle`. */
  lemma {:induction false} ApplyVotesSettles(rows: seq<Candidate>, votes: Votes, people: int)
    ensures ApplyVotes(rows, votes, people) == Settle(rows, votes, people)
  {
    if votes == [] {
      SettleNoVotes(rows, people);
    } else {
      var init := votes[..|votes| - 1];
      ApplyVotesSettles(rows, init, people);
      SettleSnoc(rows, init, votes[|votes| - 1], people);
      assert init + [votes[|votes| - 1]] == votes;
    }
  }

  lemma {:induction false} SettleNoVotes(rows: seq<Candidate>, people: int)
    ensures Settle(rows, [], people) == rows
  {
    if rows != [] {
      SettleNoVotes(rows[1..], people);
      assert rows == [rows[0]] + rows[1..];
    }
  }

  lemma {:induction false} SettleAgrees(rows: seq<Candidate>, v1: Votes, v2: Votes, people: int)
    requires forall name :: Excluded(name, v1, people) == Excluded(name, v2, people)
    requires forall name :: Penalized(name, v1, people) == Penalized(name, v2, people)
    ensures Settle(rows, v1, people) == Settle(rows, v2, people)
  {
    if rows != [] {
      SettleAgrees(rows[1..], v1, v2, people);
    }
  }

  /** The order in which the votes are visited does not matter: exclusion is
      permanent, and a penalty written on a row that is removed later (or was
      removed earlier) leaves no trace. Repeating a pair changes nothing either. */
  lemma VoteOrderIrrelevant(rows: seq<Candidate>, v1: Votes, v2: Votes, people: int)
    requires forall v :: v in v1 <==> v in v2
    ensures ApplyVotes(rows, v1, people) == ApplyVotes(rows, v2, people)
  {
    forall name ensures Excluded(name, v1, people) == Excluded(name, v2, people) {
      SameVotesSameVerdict(name, v1, v2, people);
      SameVotesSameVerdict(name, v2, v1, people);
    }
    forall name ensures Penalized(name, v1, people) == Penalized(name, v2, people) {
      SameVotesSameVerdict(name, v1, v2, people);
      SameVotesSameVerdict(name, v2, v1, people);
    }
    SettleAgrees(rows, v1, v2, people);
    ApplyVotesSettles(rows, v1, people);
    ApplyVotesSettles(rows, v2, people);
  }

  lemma SameVotesSameVerdict(name: string, v1: Votes, v2: Votes, people: int)
    requires forall v :: v in v1 ==> v in v2
    ensures Excluded(name, v1, people) ==> Excluded(name, v2, people)
    ensures Penalized(name, v1, people) ==> Penalized(name, v2, people)
  {
    if Excluded(name, v1, people) {
      var i :| 0 <= i < |v1| && Matches(v1[i].0, name) && v1[i].1 >= Majority(people);
      assert v1[i] in v2;
    }
    if Penalized(name, v1, people) {
      var i :| 0 <= i < |v1| && Matches(v1[i].0, name) && v1[i].1 < Majority(people);
      assert v1[i] in v2;
    }
  }

  /** A destination is kept exactly when no vote for its name reaches the majority. */
  lemma {:induction false} SettleMember(rows: seq<Candidate>, votes: Votes, people: int, d: Destination)
    ensures d in Dests(Settle(rows, votes, people)) <==> d in Dests(rows) && !Excluded(d.name, votes, people)
  {
    if rows != [] {
      SettleMember(rows[1..], votes, people, d);
      var c := rows[0];
      var head := if Excluded(c.dest.name, votes, people) then [] else [Mark(c, votes, people)];
      var tail := Settle(rows[1..], votes, people);
      assert Settle(rows, votes, people) == head + tail;
      DestsAppend(head, tail);
      DestsAppend([c], rows[1..]);
      assert [c] + rows[1..] == rows;
    }
  }

  lemma DestsAppend(a: seq<Candidate>, b: seq<Candidate>)
    ensures Dests(a + b) == Dests(a) + Dests(b)
  {
  }

  /** Starting from penalty 1.0, a kept row carries 0.6 exactly when some
      vote below the majority names it. */
  lemma {:induction false} SettlePenalty(rows: seq<Candidate>, votes: Votes, people: int)
    requires forall c :: c in rows ==> c.penalty == NoPenalty
    ensures forall c :: c in Settle(rows, votes, people) ==>
              c.penalty == if Penalized(c.dest.name, votes, people) then MinorityPenalty else NoPenalty
  {
    if rows != [] {
      SettlePenalty(rows[1..], votes, people);
    }
  }
}
