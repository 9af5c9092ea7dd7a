/**
  Region normalisation: strip surrounding whitespace, lower-case, then turn
  every `-` into a space. The catalog's regions go through it once at load
  time and the traveller's region filter goes through the same chain before
  it reaches the recommender.
 */
module Region {
  import opened Text

  /** A region string as the recommender compares it. */
  predicate Normalized(s: string) {
    forall k :: 0 <= k < |s| ==> s[k] != '-' && !IsUpper(s[k])
  }

  /** `s.strip().lower().replace("-", " ")` */
  function Normalize(s: string): (r: string)
    ensures Normalized(r)
    ensures |r| == |Strip(s)|
  {
    var lowered := Lower(Strip(s));
    var r := Replace(lowered, '-', ' ');
    r
  }

  /** On a string that is already normalised, normalising only strips:
      lower-casing and the dash replacement have nothing left to change. */
  lemma NormalizeNormalized(n: string)
    requires Normalized(n)
    ensures Normalize(n) == Strip(n)
  {
    var t := Strip(n);
    assert Normalized(t) by {
      StripShape(n);
      forall k | 0 <= k < |t| ensures t[k] != '-' && !IsUpper(t[k]) {
        assert t[k] == n[StripStart(n) + k];
      }
    }
    assert Lower(t) == t;
    assert Replace(t, '-', ' ') == t;
  }

  /** Normalising a second time only strips again. */
  lemma NormalizeTwice(s: string)
    ensures Normalize(Normalize(s)) == Strip(Normalize(s))
  {
    NormalizeNormalized(Normalize(s));
  }

  /** Normalisation is not idempotent: the strip runs before the dash becomes
      a space, so a trailing dash leaves a trailing space that a second pass
      removes. */
  lemma NormalizeNotIdempotent()
    ensures Normalize("x-") == "x "
    ensures Normalize(Normalize("x-")) == "x"
  {
    var once := Normalize("x-");
    assert Strip("x-") == "x-";
    assert once == "x ";
    assert StripRight(once) == "x";
    assert StripLeft(once) == once;
    assert Strip(once) == "x";
    NormalizeTwice("x-");
  }

  /** It is idempotent whenever the first result carries no surrounding space,
      which is the case when no dash sits next to the stripped ends. */
  lemma NormalizeIdempotentWhenTrimmed(s: string)
    requires Normalize(s) == [] || (!IsSpace(Normalize(s)[0]) && !IsSpace(Normalize(s)[|Normalize(s)| - 1]))
    ensures Normalize(Normalize(s)) == Normalize(s)
  {
    NormalizeTwice(s);
    StripNoop(Normalize(s));
  }
}
