/**
  The string operations the source relies on, restricted to ASCII:
  `str.strip()`, `str.lower()`, `str.replace(c, d)` with one-character
  arguments, `str.split(sep)`, `sep.join(parts)`, `int(s)` and the decimal
  rendering used by f-strings.
 */
module Text {
  import opened Wrappers

  /** The ASCII characters Python's `str.isspace` accepts:
      TAB, LF, VT, FF, CR, the separators 0x1C-0x1F, and SPACE. */
  predicate IsSpace(c: char) {
    c == ' ' || (9 <= c as int <= 13) || (28 <= c as int <= 31)
  }

  predicate IsUpper(c: char) {
    'A' <= c <= 'Z'
  }

  predicate IsDigit(c: char) {
    '0' <= c <= '9'
  }

  // ---------------------------------------------------------------- strip

  /** `s.lstrip()` */
  function StripLeft(s: string): (r: string)
    ensures |r| <= |s| && r == s[|s| - |r|..]
    ensures r == [] || !IsSpace(r[0])
    ensures forall k :: 0 <= k < |s| - |r| ==> IsSpace(s[k])
  {
    if s != [] && IsSpace(s[0]) then StripLeft(s[1..]) else s
  }

  /** `s.rstrip()` */
  function StripRight(s: string): (r: string)
    ensures |r| <= |s| && r == s[..|r|]
    ensures r == [] || !IsSpace(r[|r| - 1])
    ensures forall k :: |r| <= k < |s| ==> IsSpace(s[k])
  {
    if s != [] && IsSpace(s[|s| - 1]) then StripRight(s[..|s| - 1]) else s
  }

  /** Number of characters `strip` removes at the front. */
  function StripStart(s: string): nat
  {
    |s| - |StripLeft(s)|
  }

  /** `s.strip()` */
  function Strip(s: string): string
  {
    StripRight(StripLeft(s))
  }

  /** `strip` keeps the longest slice of `s` that neither starts nor ends
      with whitespace, and removes only whitespace on both sides. */
  lemma {:induction false} StripShape(s: string)
    ensures var r, n := Strip(s), StripStart(s);
            && n + |r| <= |s|
            && r == s[n..n + |r|]
            && (r == [] || (!IsSpace(r[0]) && !IsSpace(r[|r| - 1])))
            && (forall k :: 0 <= k < n ==> IsSpace(s[k]))
            && (forall k :: n + |r| <= k < |s| ==> IsSpace(s[k]))
  {
    var l := StripLeft(s);
    var r := StripRight(l);
    assert Strip(s) == r && StripStart(s) == |s| - |l|;
    TrimmedSlice(s, l, r);
  }

  /** The shape of `strip` from its two halves: `l`, what `lstrip` leaves
      of `s`, and `r`, what `rstrip` then leaves of `l`. */
  lemma {:induction false} TrimmedSlice(s: string, l: string, r: string)
    requires |l| <= |s| && l == s[|s| - |l|..]
    requires l == [] || !IsSpace(l[0])
    requires forall k :: 0 <= k < |s| - |l| ==> IsSpace(s[k])
    requires |r| <= |l| && r == l[..|r|]
    requires r == [] || !IsSpace(r[|r| - 1])
    requires forall k :: |r| <= k < |l| ==> IsSpace(l[k])
    ensures var n := |s| - |l|;
            && n + |r| <= |s|
            && r == s[n..n + |r|]
            && (r == [] || (!IsSpace(r[0]) && !IsSpace(r[|r| - 1])))
            && (forall k :: 0 <= k < n ==> IsSpace(s[k]))
            && (forall k :: n + |r| <= k < |s| ==> IsSpace(s[k]))
  {
    var n := |s| - |l|;
    if r != [] {
      assert r[0] == l[0];
    }
    SliceOfSuffix(s, n, l, r);
    SpaceAfterSlice(s, n, l, r);
  }

  /** What `rstrip` removed from the suffix `l == s[n..]` is whitespace of `s`. */
  lemma SpaceAfterSlice(s: string, n: nat, l: string, r: string)
    requires n <= |s| && l == s[n..] && |r| <= |l|
    requires forall k :: |r| <= k < |l| ==> IsSpace(l[k])
    ensures forall k :: n + |r| <= k < |s| ==> IsSpace(s[k])
  {
    forall k | n + |r| <= k < |s| ensures IsSpace(s[k]) {
      assert s[k] == l[k - n];
    }
  }

  /** A prefix `r` of the suffix `l == s[n..]` is the slice `s[n..n + |r|]`. */
  lemma SliceOfSuffix(s: string, n: nat, l: string, r: string)
    requires n <= |s| && l == s[n..] && |r| <= |l| && r == l[..|r|]
    ensures r == s[n..n + |r|]
    ensures forall k :: n + |r| <= k < |s| ==> s[k] == l[k - n]
  {
  }

  /** A string with no surrounding whitespace is left alone by `strip`. */
  lemma StripNoop(s: string)
    requires s == [] || (!IsSpace(s[0]) && !IsSpace(s[|s| - 1]))
    ensures Strip(s) == s
  {
  }

  // ---------------------------------------------------------------- lower / replace

  function LowerChar(c: char): (l: char)
    ensures !IsUpper(l)
    ensures IsUpper(c) ==> l as int == c as int + 32
    ensures !IsUpper(c) ==> l == c
  {
    if IsUpper(c) then (c as int + 32) as char else c
  }

  /** `s.lower()` on ASCII letters. */
  function Lower(s: string): (r: string)
    ensures |r| == |s|
    ensures forall k :: 0 <= k < |s| ==> r[k] == LowerChar(s[k])
    ensures forall k :: 0 <= k < |r| ==> !IsUpper(r[k])
  {
    seq(|s|, k requires 0 <= k < |s| => LowerChar(s[k]))
  }

  /** `s.replace(a, b)` for one-character `a` and `b`. */
  function Replace(s: string, a: char, b: char): (r: string)
    ensures |r| == |s|
    ensures forall k :: 0 <= k < |s| ==> r[k] == (if s[k] == a then b else s[k])
  {
    seq(|s|, k requires 0 <= k < |s| => if s[k] == a then b else s[k])
  }

  // ---------------------------------------------------------------- split / join

  /** Number of occurrences of `c` in `s`. */
  function Count(s: string, c: char): nat
  {
    if s == [] then 0 else (if s[0] == c then 1 else 0) + Count(s[1..], c)
  }

  lemma CountZero(s: string, c: char)
    ensures Count(s, c) == 0 <==> c !in s
  {
    if s != [] {
      CountZero(s[1..], c);
      assert s == [s[0]] + s[1..];
    }
  }

  /** Index of the first `c` in `s`. */
  function IndexOf(s: string, c: char): (i: nat)
    requires c in s
    ensures i < |s| && s[i] == c && c !in s[..i]
  {
    if s[0] == c then 0 else 1 + IndexOf(s[1..], c)
  }

  /** `sep.join(parts)` */
  function Join(parts: seq<string>, sep: string): string
  {
    if parts == [] then []
    else if |parts| == 1 then parts[0]
    else parts[0] + sep + Join(parts[1..], sep)
  }

  /** `s.split(sep)` for a one-character separator. */
  function Split(s: string, sep: char): (parts: seq<string>)
    ensures |parts| >= 1
    decreases |s|
  {
    if sep !in s then [s]
    else
      var i := IndexOf(s, sep);
      [s[..i]] + Split(s[i + 1..], sep)
  }

  /** No piece holds the separator. */
  lemma {:induction false} SplitPiecesFree(s: string, sep: char)
    ensures forall k :: 0 <= k < |Split(s, sep)| ==> sep !in Split(s, sep)[k]
    decreases |s|
  {
    if sep in s {
      var i := IndexOf(s, sep);
      var rest := s[i + 1..];
      SplitPiecesFree(rest, sep);
      var tail := Split(rest, sep);
      var parts := Split(s, sep);
      assert parts == [s[..i]] + tail;
      forall k | 0 <= k < |parts| ensures sep !in parts[k] {
        if k > 0 {
          assert parts[k] == tail[k - 1];
        }
      }
    }
  }

  /** Joining the pieces with the separator gives `s` back. */
  lemma {:induction false} JoinSplit(s: string, sep: char)
    ensures Join(Split(s, sep), [sep]) == s
    decreases |s|
  {
    if sep in s {
      var i := IndexOf(s, sep);
      var rest := s[i + 1..];
      var tail := Split(rest, sep);
      assert Split(s, sep) == [s[..i]] + tail;
      JoinSplit(rest, sep);
      JoinCons(s[..i], tail, [sep]);
      assert s == s[..i] + [sep] + rest;
    } else {
      assert Split(s, sep) == [s];
    }
  }

  lemma JoinCons(p: string, tail: seq<string>, sep: string)
    requires |tail| >= 1
    ensures Join([p] + tail, sep) == p + sep + Join(tail, sep)
  {
    assert ([p] + tail)[1..] == tail;
  }

  /** Splitting the join of separator-free pieces gives the pieces back,
      so `Split` is the one decomposition `Join` inverts. */
  lemma {:induction false} SplitJoin(parts: seq<string>, sep: char)
    requires |parts| >= 1
    requires forall k :: 0 <= k < |parts| ==> sep !in parts[k]
    ensures Split(Join(parts, [sep]), sep) == parts
  {
    if |parts| > 1 {
      var p := parts[0];
      var s := Join(parts, [sep]);
      var tail := Join(parts[1..], [sep]);
      assert s == p + [sep] + tail;
      assert s[|p|] == sep;
      assert s[..|p|] == p;
      assert sep in s;
      assert IndexOf(s, sep) == |p|;
      assert s[|p| + 1..] == tail;
      SplitJoin(parts[1..], sep);
    } else {
      assert Join(parts, [sep]) == parts[0];
    }
  }

  /** The number of pieces is one more than the number of separators. */
  lemma {:induction false} SplitCount(s: string, sep: char)
    ensures |Split(s, sep)| == Count(s, sep) + 1
    decreases |s|
  {
    if sep !in s {
      CountZero(s, sep);
    } else {
      var i := IndexOf(s, sep);
      SplitCount(s[i + 1..], sep);
      CountAppend(s[..i], s[i..], sep);
      assert s == s[..i] + s[i..];
      CountZero(s[..i], sep);
      assert s[i..] == [sep] + s[i + 1..];
    }
  }

  lemma {:induction false} CountAppend(a: string, b: string, c: char)
    ensures Count(a + b, c) == Count(a, c) + Count(b, c)
  {
    if a != [] {
      assert (a + b)[1..] == a[1..] + b;
      CountAppend(a[1..], b, c);
    } else {
      assert a + b == b;
    }
  }

  /** Appending one more piece to a non-empty join adds the separator and the piece. */
  lemma {:induction false} JoinSnoc(parts: seq<string>, x: string, sep: string)
    requires parts != []
    ensures Join(parts + [x], sep) == Join(parts, sep) + sep + x
  {
    if |parts| == 1 {
      assert (parts + [x])[1..] == [x];
    } else {
      assert (parts + [x])[1..] == parts[1..] + [x];
      JoinSnoc(parts[1..], x, sep);
    }
  }

  // ---------------------------------------------------------------- integers

  function DigitChar(d: nat): char
    requires d < 10
  {
    ('0' as int + d) as char
  }

  function DigitValue(c: char): nat
    requires IsDigit(c)
  {
    c as int - '0' as int
  }

  predicate AllDigits(s: string) {
    forall k :: 0 <= k < |s| ==> IsDigit(s[k])
  }

  /** The value of a string of decimal digits, most significant first. */
  function DigitsValue(s: string): nat
    requires AllDigits(s)
  {
    if s == [] then 0 else 10 * DigitsValue(s[..|s| - 1]) + DigitValue(s[|s| - 1])
  }

  /** Decimal rendering of a natural number, as `str(n)` / `f"{n}"` print it. */
  function NatToString(n: nat): (s: string)
    ensures |s| >= 1 && AllDigits(s)
    ensures |s| > 1 ==> s[0] != '0'
  {
    if n < 10 then [DigitChar(n)] else NatToString(n / 10) + [DigitChar(n % 10)]
  }

  /** Decimal rendering of an integer, with a leading `-` when negative. */
  function IntToString(n: int): string
  {
    if n < 0 then "-" + NatToString(-n) else NatToString(n)
  }

  /** `int(s)` on an already stripped string: an optional sign followed by one
      or more ASCII digits; anything else is rejected. */
  function ParseInt(s: string): (r: Option<int>)
    ensures r.Some? ==> |s| >= 1
    ensures r.Some? && r.value < 0 ==> s[0] == '-'
  {
    var negative := |s| > 0 && s[0] == '-';
    var body := if |s| > 0 && (s[0] == '-' || s[0] == '+') then s[1..] else s;
    if body != [] && AllDigits(body) then
      Some(if negative then -(DigitsValue(body) as int) else DigitsValue(body))
    else None
  }

  lemma {:induction false} DigitsOfNat(n: nat)
    ensures DigitsValue(NatToString(n)) == n
  {
    var s := NatToString(n);
    if n >= 10 {
      DigitsOfNat(n / 10);
      assert s[..|s| - 1] == NatToString(n / 10);
    }
  }

  /** `int(str(n)) == n` */
  lemma ParseShowInt(n: int)
    ensures ParseInt(IntToString(n)) == Some(n)
  {
    if n < 0 {
      DigitsOfNat(-n);
      assert ("-" + NatToString(-n))[1..] == NatToString(-n);
    } else {
      DigitsOfNat(n);
      assert NatToString(n)[0] != '-';
    }
  }

  /** An unsigned string of digits parses to its decimal value. */
  lemma ParseIntDigits(s: string)
    requires |s| >= 1 && AllDigits(s)
    ensures ParseInt(s) == Some(DigitsValue(s))
  {
    assert IsDigit(s[0]);
  }

  /** The strings `int` accepts: a digit, or a sign followed by at least one
      more character, and digits only after the first character. */
  lemma ParseIntAccepts(s: string)
    ensures ParseInt(s).Some? <==>
              && |s| >= 1
              && (IsDigit(s[0]) || (|s| >= 2 && (s[0] == '-' || s[0] == '+')))
              && AllDigits(s[1..])
  {
  }

  /** A signed run of digits, leading zeros allowed, parses to the value of
      its digits with that sign. */
  lemma ParseIntSigned(d: string)
    requires |d| >= 1 && AllDigits(d)
    ensures ParseInt("-" + d) == Some(-(DigitsValue(d) as int))
    ensures ParseInt("+" + d) == Some(DigitsValue(d) as int)
  {
    assert ("-" + d)[1..] == d;
    assert ("+" + d)[1..] == d;
  }

  /** A non-digit anywhere after the first character makes `int` fail. */
  lemma ParseIntRejects(s: string, k: nat)
    requires 0 < k < |s| && !IsDigit(s[k])
    ensures ParseInt(s) == None
  {
    var body := if |s| > 0 && (s[0] == '-' || s[0] == '+') then s[1..] else s;
    assert body[k - (|s| - |body|)] == s[k];
  }
}
