/**
 * A dictionary entry: a term (the key) and its explanation. The record is an
 * immutable value here; the two setters return an updated copy.
 */
module Terms {
  import JavaString

  datatype Term = Term(term: string, explanation: string) {

    /** `setTerm`: only the key changes. */
    function WithTerm(t: string): (r: Term)
      ensures r.term == t && r.explanation == explanation
    {
      this.(term := t)
    }

    /** `setExplanation`: only the explanation changes. */
    function WithExplanation(e: string): (r: Term)
      ensures r.term == term && r.explanation == e
    {
      this.(explanation := e)
    }

    /**
     * `compareTo`: the order of the keys alone, with the sign contract of
     * `Comparable` (zero exactly for equal keys).
     */
    function CompareTo(other: Term): (r: int)
      ensures r == 0 <==> term == other.term
      ensures r < 0 <==> JavaString.Less(term, other.term)
      ensures r > 0 <==> JavaString.Less(other.term, term)
    {
      JavaString.CompareTo(term, other.term)
    }

    /** `toString`: the key, a colon and a space, then the explanation. */
    function ToString(): (r: string)
      ensures |r| == |term| + 2 + |explanation|
      ensures r[..|term|] == term && r[|term|..|term| + 2] == ": " && r[|term| + 2..] == explanation
    {
      term + ": " + explanation
    }
  }

  /** Two terms with the same keys compare as the keys do, whatever their explanations. */
  lemma CompareToIgnoresExplanation(a: Term, b: Term, e1: string, e2: string)
    ensures a.WithExplanation(e1).CompareTo(b.WithExplanation(e2)) == a.CompareTo(b)
  {
  }

  lemma CompareToAntisymmetric(a: Term, b: Term)
    ensures a.CompareTo(b) == -b.CompareTo(a)
  {
    JavaString.CompareToAntisymmetric(a.term, b.term);
  }

  lemma CompareToTransitive(a: Term, b: Term, c: Term)
    requires a.CompareTo(b) < 0 && b.CompareTo(c) < 0
    ensures a.CompareTo(c) < 0
  {
    JavaString.LessTransitive(a.term, b.term, c.term);
  }

  /** The first colon of `toString` ends the key, when the key holds none. */
  lemma FirstColonEndsKey(t: Term)
    requires ':' !in t.term
    ensures JavaString.IndexOf(t.ToString(), ':') == |t.term|
  {
    var s := t.ToString();
    assert forall k :: 0 <= k < |t.term| ==> s[k] == t.term[k];
    JavaString.IndexOfAt(s, ':', |t.term|);
  }

  /** When keys hold no colon, `toString` loses nothing: the text determines the term. */
  lemma ToStringInjective(a: Term, b: Term)
    requires ':' !in a.term && ':' !in b.term
    requires a.ToString() == b.ToString()
    ensures a == b
  {
    FirstColonEndsKey(a);
    FirstColonEndsKey(b);
  }
}
