/** Identifiers of RGASS text nodes and their total order (rgass/id.go). */
module Ids {

  /** The identifier of a text node. `Length` takes no part in the order. */
  datatype ID = ID(session: int, vector: int, site: int, offset: int, length: int)

  /** The identifier every sentinel carries (Go's zero value). */
  const ZeroID: ID := ID(0, 0, 0, 0, 0)

  /** Three-way comparison: session, vector and site ascending, then offset descending. */
  function Compare(a: ID, b: ID): (r: int)
    ensures r == -1 || r == 0 || r == 1
  {
    if a.session < b.session then -1
    else if a.session > b.session then 1
    else if a.vector < b.vector then -1
    else if a.vector > b.vector then 1
    else if a.site < b.site then -1
    else if a.site > b.site then 1
    else if a.offset > b.offset then -1
    else if a.offset < b.offset then 1
    else 0
  }

  /** The key on which `Compare` is lexicographic (offset negated, length dropped). */
  function Key(a: ID): (int, int, int, int)
  {
    (a.session, a.vector, a.site, -a.offset)
  }

  /** Lexicographic strict order on keys, an independent reference for `Compare`. */
  predicate KeyLess(x: (int, int, int, int), y: (int, int, int, int))
  {
    x.0 < y.0
    || (x.0 == y.0 && x.1 < y.1)
    || (x.0 == y.0 && x.1 == y.1 && x.2 < y.2)
    || (x.0 == y.0 && x.1 == y.1 && x.2 == y.2 && x.3 < y.3)
  }

  /** `Compare` answers -1 exactly when the key of `a` is lexicographically smaller. */
  lemma CompareIsLexicographic(a: ID, b: ID)
    ensures Compare(a, b) == -1 <==> KeyLess(Key(a), Key(b))
    ensures Compare(a, b) == 1 <==> KeyLess(Key(b), Key(a))
    ensures Compare(a, b) == 0 <==> Key(a) == Key(b)
  {
  }

  /** Session, then vector, then site decide the order when they differ. */
  lemma CompareLeadingFields(a: ID, b: ID)
    ensures a.session < b.session ==> Compare(a, b) == -1
    ensures a.session == b.session && a.vector < b.vector ==> Compare(a, b) == -1
    ensures a.session == b.session && a.vector == b.vector && a.site < b.site ==> Compare(a, b) == -1
  {
  }

  /** On a session/vector/site tie the larger offset sorts first. */
  lemma OffsetDescending(a: ID, b: ID)
    requires a.session == b.session && a.vector == b.vector && a.site == b.site
    ensures a.offset > b.offset <==> Compare(a, b) == -1
    ensures a.offset < b.offset <==> Compare(a, b) == 1
  {
  }

  /** Equality under `Compare` ignores the length field. */
  lemma CompareZeroIff(a: ID, b: ID)
    ensures Compare(a, b) == 0 <==>
      a.session == b.session && a.vector == b.vector && a.site == b.site && a.offset == b.offset
    ensures Compare(a, a.(length := b.length)) == 0
  {
  }

  lemma CompareAntisymmetric(a: ID, b: ID)
    ensures Compare(a, b) == -Compare(b, a)
    ensures Compare(a, a) == 0
  {
  }

  lemma CompareTransitive(a: ID, b: ID, c: ID)
    requires Compare(a, b) == -1 && Compare(b, c) == -1
    ensures Compare(a, c) == -1
  {
  }
}
