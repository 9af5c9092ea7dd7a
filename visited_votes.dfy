/**
  The form field `visited_votes`, e.g. "Goa: 3, Manali:1", parsed into the
  place -> votes dictionary handed to the recommender. A Python dict keeps
  insertion order and an assignment to an existing key keeps its position,
  so the dictionary is an insertion-ordered sequence of distinct keys.
 */
module VisitedVotes {
  import opened Wrappers
  import opened Text

  type Votes = seq<(string, int)>

  datatype VoteError =
    | TooManyColons(item: string)   // `place, votes = item.split(":")` cannot unpack
    | NotAnInteger(text: string)    // `int(votes.strip())` raises

  /** What one comma-separated item contributes. */
  datatype ItemOutcome = Skip | Bind(place: string, votes: int) | Reject(err: VoteError)

  predicate DistinctKeys(d: Votes) {
    forall i, j :: 0 <= i < j < |d| ==> d[i].0 != d[j].0
  }

  function Keys(d: Votes): (ks: seq<string>)
    ensures |ks| == |d| && forall i :: 0 <= i < |d| ==> ks[i] == d[i].0
  {
    if d == [] then [] else [d[0].0] + Keys(d[1..])
  }

  /** `d.get(k)` */
  function Lookup(d: Votes, k: string): Option<int> {
    if d == [] then None else if d[0].0 == k then Some(d[0].1) else Lookup(d[1..], k)
  }

  /** `d[k] = v`: overwrite in place when present, append otherwise. */
  function Put(d: Votes, k: string, v: int): Votes
  {
    if d == [] then [(k, v)]
    else if d[0].0 == k then [(k, v)] + d[1..]
    else [d[0]] + Put(d[1..], k, v)
  }

  /** An existing key keeps its position; a new key goes last. */
  lemma {:induction false} PutKeys(d: Votes, k: string, v: int)
    ensures Keys(Put(d, k, v)) == if k in Keys(d) then Keys(d) else Keys(d) + [k]
  {
    if d != [] {
      assert Keys(d) == [d[0].0] + Keys(d[1..]);
      if d[0].0 != k {
        PutKeys(d[1..], k, v);
        assert Keys(Put(d, k, v)) == [d[0].0] + Keys(Put(d[1..], k, v));
      }
    }
  }

  /** After `d[k] = v`, `k` holds `v` and every other key is unchanged. */
  lemma {:induction false} PutLookup(d: Votes, k: string, v: int, k': string)
    ensures Lookup(Put(d, k, v), k') == if k' == k then Some(v) else Lookup(d, k')
  {
    if d != [] && d[0].0 != k {
      PutLookup(d[1..], k, v, k');
    }
  }

  /** Keys stay distinct under `Put`. */
  lemma {:induction false} PutKeepsDistinct(d: Votes, k: string, v: int)
    requires DistinctKeys(d)
    ensures DistinctKeys(Put(d, k, v))
  {
    var r := Put(d, k, v);
    PutKeys(d, k, v);
    var kd, kr := Keys(d), Keys(r);
    forall i, j | 0 <= i < j < |r| ensures r[i].0 != r[j].0 {
      assert r[i].0 == kr[i] && r[j].0 == kr[j];
      if k !in kd {
        if j < |d| {
          assert kr[i] == kd[i] && kr[j] == kd[j];
        } else {
          assert kr[i] == kd[i] && kr[j] == k;
        }
      } else {
        assert kr[i] == kd[i] && kr[j] == kd[j];
      }
    }
  }

  /** The body of the loop for one item: ignored without a `:`, rejected with
      more than one `:` or a non-integer count, otherwise the stripped place
      (case kept) bound to the parsed count. */
  function ParseItem(item: string): (r: ItemOutcome)
    ensures r.Skip? <==> ':' !in item
    ensures r.Reject? && r.err.NotAnInteger? ==> ParseInt(r.err.text).None?
  {
    if ':' !in item then Skip
    else
      var parts := Split(item, ':');
      if |parts| != 2 then Reject(TooManyColons(item))
      else
        match ParseInt(Strip(parts[1]))
        case None => Reject(NotAnInteger(Strip(parts[1])))
        case Some(n) => Bind(Strip(parts[0]), n)
  }

  /** An item is skipped exactly when it has no `:`, fails to unpack exactly
      when it has two or more, and binds only when it has exactly one. */
  lemma ParseItemCases(item: string)
    ensures ParseItem(item).Skip? <==> ':' !in item
    ensures ParseItem(item) == Reject(TooManyColons(item)) <==> Count(item, ':') >= 2
    ensures ParseItem(item).Bind? ==> Count(item, ':') == 1
  {
    CountZero(item, ':');
    SplitCount(item, ':');
  }

  /** An item `place:votes` with exactly one colon. */
  lemma ParseItemOneColon(place: string, votes: string)
    requires ':' !in place && ':' !in votes
    ensures ParseInt(Strip(votes)).Some? ==>
              ParseItem(place + ":" + votes) == Bind(Strip(place), ParseInt(Strip(votes)).value)
    ensures ParseInt(Strip(votes)).None? ==>
              ParseItem(place + ":" + votes) == Reject(NotAnInteger(Strip(votes)))
  {
    var item := place + ":" + votes;
    assert Join([place, votes], [':']) == item;
    SplitJoin([place, votes], ':');
    assert item[|place|] == ':';
  }

  /** One turn of the loop on the dictionary built so far; an earlier error
      stands. */
  function Step(acc: Result<Votes, VoteError>, item: string): Result<Votes, VoteError>
  {
    match acc
    case Failure(e) => Failure(e)
    case Success(d) =>
      match ParseItem(item)
      case Skip => Success(d)
      case Bind(k, v) => Success(Put(d, k, v))
      case Reject(e) => Failure(e)
  }

  /** The dictionary after the items, folding left to right; the first
      rejected item ends the parse with its error. */
  function ParseItems(items: seq<string>): Result<Votes, VoteError>
  {
    if items == [] then Success([])
    else Step(ParseItems(items[..|items| - 1]), items[|items| - 1])
  }

  /** The whole field: items are separated by `,`. */
  function ParseVotes(raw: string): Result<Votes, VoteError>
  {
    ParseItems(Split(raw, ','))
  }

  /** The count the parse leaves for `k`: the one from the last item whose
      stripped place is `k`, if any. */
  function LastBinding(items: seq<string>, k: string): Option<int>
  {
    if items == [] then None
    else
      var o := ParseItem(items[|items| - 1]);
      if o.Bind? && o.place == k then Some(o.votes) else LastBinding(items[..|items| - 1], k)
  }

  /** An error stays an error whatever follows it. */
  lemma {:induction false} FailurePersists(items: seq<string>, i: nat, e: VoteError)
    requires i <= |items| && ParseItems(items[..i]) == Failure(e)
    ensures ParseItems(items) == Failure(e)
    decreases |items| - i
  {
    if i < |items| {
      assert items[..i + 1][..i] == items[..i];
      FailurePersists(items, i + 1, e);
    } else {
      assert items[..i] == items;
    }
  }

  /** A successful parse yields distinct keys. */
  lemma {:induction false} ParseItemsDistinct(items: seq<string>)
    requires ParseItems(items).Success?
    ensures DistinctKeys(ParseItems(items).value)
  {
    if items != [] {
      var init := items[..|items| - 1];
      var o := ParseItem(items[|items| - 1]);
      assert ParseItems(init).Success?;
      ParseItemsDistinct(init);
      var d := ParseItems(init).value;
      if o.Bind? {
        assert ParseItems(items).value == Put(d, o.place, o.votes);
        PutKeepsDistinct(d, o.place, o.votes);
      } else {
        assert ParseItems(items).value == d;
      }
    }
  }

  /** Each key holds the count of the last item naming it: later items
      overwrite earlier ones, and a key no item names is absent. */
  lemma {:induction false} ParseItemsLookup(items: seq<string>, k: string)
    requires ParseItems(items).Success?
    ensures Lookup(ParseItems(items).value, k) == LastBinding(items, k)
  {
    if items != [] {
      var init := items[..|items| - 1];
      var o := ParseItem(items[|items| - 1]);
      assert ParseItems(init).Success?;
      ParseItemsLookup(init, k);
      var d := ParseItems(init).value;
      if o.Bind? {
        assert ParseItems(items).value == Put(d, o.place, o.votes);
        PutLookup(d, o.place, o.votes, k);
      } else {
        assert ParseItems(items).value == d;
      }
    }
  }

  predicate Rejected(item: string) {
    ParseItem(item).Reject?
  }

  /** A rejected item makes the whole parse fail, wherever it stands. */
  lemma RejectedFails(items: seq<string>, i: nat)
    requires i < |items| && Rejected(items[i])
    ensures ParseItems(items).Failure?
  {
    var pre := items[..i + 1];
    assert pre[..i] == items[..i] && pre[i] == items[i];
    assert ParseItems(pre) == Step(ParseItems(items[..i]), items[i]);
    assert ParseItems(pre).Failure?;
    FailurePersists(items, i + 1, ParseItems(pre).error);
  }

  /** A failed parse has a rejected item to blame. */
  lemma {:induction false} FailureHasCause(items: seq<string>)
    requires ParseItems(items).Failure?
    ensures exists i :: 0 <= i < |items| && Rejected(items[i])
  {
    var init := items[..|items| - 1];
    var last := items[|items| - 1];
    if ParseItems(init).Failure? {
      FailureHasCause(init);
      var i :| 0 <= i < |init| && Rejected(init[i]);
      assert items[i] == init[i];
    } else {
      assert Rejected(last);
      assert items[|items| - 1] == last;
    }
  }

  /** The parse fails exactly when some item is rejected. */
  lemma ParseItemsFails(items: seq<string>)
    ensures ParseItems(items).Failure? <==> exists i :: 0 <= i < |items| && Rejected(items[i])
  {
    if ParseItems(items).Failure? {
      FailureHasCause(items);
    } else if i :| 0 <= i < |items| && Rejected(items[i]) {
      RejectedFails(items, i);
    }
  }

  /** The error reported is the one of the first rejected item. */
  lemma {:induction false} ParseItemsFirstError(items: seq<string>, i: nat)
    requires i < |items| && Rejected(items[i])
    requires forall j :: 0 <= j < i ==> !Rejected(items[j])
    ensures ParseItems(items) == Failure(ParseItem(items[i]).err)
  {
    var pre := items[..i];
    forall j | 0 <= j < |pre| ensures !Rejected(pre[j]) {
      assert pre[j] == items[j];
    }
    ParseItemsFails(pre);
    assert items[..i + 1][..i] == pre;
    FailurePersists(items, i + 1, ParseItem(items[i]).err);
  }

  /** An empty field, or one without any `:`, gives an empty dictionary. */
  lemma NoColonNoVotes(raw: string)
    requires ':' !in raw
    ensures ParseVotes(raw) == Success([])
  {
    var items := Split(raw, ',');
    JoinSplit(raw, ',');
    SplitPiecesFree(raw, ',');
    forall i | 0 <= i < |items| ensures ':' !in items[i] {
      JoinContains(items, [','], i);
    }
    NoColonItems(items);
  }

  lemma EmptyFieldNoVotes()
    ensures ParseVotes("") == Success([])
  {
    NoColonNoVotes("");
  }

  lemma {:induction false} NoColonItems(items: seq<string>)
    requires forall i :: 0 <= i < |items| ==> ':' !in items[i]
    ensures ParseItems(items) == Success([])
  {
    if items != [] {
      NoColonItems(items[..|items| - 1]);
      ParseItemCases(items[|items| - 1]);
    }
  }

  /** Every piece of a join occurs in it. */
  lemma {:induction false} JoinContains(parts: seq<string>, sep: string, i: nat)
    requires i < |parts|
    ensures forall c :: c in parts[i] ==> c in Join(parts, sep)
  {
    if |parts| > 1 {
      var j := Join(parts, sep);
      assert j == parts[0] + sep + Join(parts[1..], sep);
      if i > 0 {
        JoinContains(parts[1..], sep, i - 1);
      }
    }
  }

  /** The loop of the form handler: split on `,`, and for each item that holds
      a `:`, unpack it and store `int(votes.strip())` under `place.strip()`. */
  method ParseVisitedVotes(raw: string) returns (r: Result<Votes, VoteError>)
    ensures r == ParseVotes(raw)
    ensures r.Success? ==> DistinctKeys(r.value)
    ensures r.Success? ==> forall k :: Lookup(r.value, k) == LastBinding(Split(raw, ','), k)
  {
    var items := Split(raw, ',');
    var votes: Votes := [];
    var i := 0;
    while i < |items|
      invariant 0 <= i <= |items|
      invariant ParseItems(items[..i]) == Success(votes)
    {
      assert items[..i + 1][..i] == items[..i];
      assert ParseItems(items[..i + 1]) == Step(Success(votes), items[i]);
      match ParseItem(items[i]) {
        case Skip =>
        case Bind(place, n) =>
          votes := Put(votes, place, n);
        case Reject(e) =>
          FailurePersists(items, i + 1, e);
          return Failure(e);
      }
      i := i + 1;
    }
    assert items[..i] == items;
    r := Success(votes);
    ParseItemsDistinct(items);
    forall k ensures Lookup(votes, k) == LastBinding(items, k) {
      ParseItemsLookup(items, k);
    }
  }
}
