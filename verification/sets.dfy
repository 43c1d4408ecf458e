/** Facts about finite sets shared by the loops and recursions whose
    termination rests on a growing subset of a fixed universe. */
module Sets {

  /** Growing a subset of `u` strictly shrinks what is left of `u`. */
  lemma SubsetCard<T>(a: set<T>, b: set<T>, u: set<T>)
    requires a < b <= u
    ensures |u - b| < |u - a|
  {
    var x :| x in b && x !in a;
    assert u - a == (u - b) + (b - a);
    assert x in b - a;
  }

  /** Growing a subset of `u` never enlarges what is left of `u`. */
  lemma SubsetCardLe<T>(a: set<T>, b: set<T>, u: set<T>)
    requires a <= b <= u
    ensures |u - b| <= |u - a|
  {
    if a != b {
      SubsetCard(a, b, u);
    }
  }
}
