/** The grow-only counter (gcounter/gcounter.go): one count per site, each site raising only
  * its own, and a remote count incorporated by keeping the larger of the two. The counter is
  * an object whose map the methods update in place; functions Bumped and Merged give the map
  * they leave, and the lemmas beside them state what a replica may rely on. */
module GCounters {
  import opened Sums

  /** A site's identifier (Go's `id`, a string). */
  type SiteID = string

  /** The counts after gcounter.go Increment at site `id`: a missing entry counts as zero. */
  function Bumped(vals: map<SiteID, int>, id: SiteID): map<SiteID, int>
  {
    vals[id := Get(vals, id) + 1]
  }

  /** The counts after gcounter.go Incorporate of count `val` for site `id`: the entry is
    * replaced only when it is smaller (a missing entry counting as zero). */
  function Merged(vals: map<SiteID, int>, id: SiteID, val: int): map<SiteID, int>
  {
    if Get(vals, id) < val then vals[id := val] else vals
  }

  /** No site's count is smaller in `n` than in `m`. */
  ghost predicate Grows(m: map<SiteID, int>, n: map<SiteID, int>)
  {
    forall x :: Get(m, x) <= Get(n, x)
  }

  /** Increment raises the own site's count by exactly one and no other, so the value rises
    * by exactly one. */
  lemma IncrementEffect(vals: map<SiteID, int>, id: SiteID)
    ensures Get(Bumped(vals, id), id) == Get(vals, id) + 1
    ensures forall x :: x != id ==> Get(Bumped(vals, id), x) == Get(vals, x)
    ensures Grows(vals, Bumped(vals, id))
    ensures Sum(Bumped(vals, id)) == Sum(vals) + 1
  {
    SumUpdate(vals, id, Get(vals, id) + 1);
  }

  /** Incorporate leaves the larger of the local and the remote count for the site, every
    * other site as it was, and never lowers the value. */
  lemma MergeEffect(vals: map<SiteID, int>, id: SiteID, val: int)
    ensures Get(Merged(vals, id, val), id) == if Get(vals, id) < val then val else Get(vals, id)
    ensures forall x :: x != id ==> Get(Merged(vals, id, val), x) == Get(vals, x)
    ensures Grows(vals, Merged(vals, id, val))
    ensures Sum(vals) <= Sum(Merged(vals, id, val))
  {
    SumUpdate(vals, id, val);
  }

  /** Incorporating the same count twice is incorporating it once. */
  lemma MergeIdempotent(vals: map<SiteID, int>, id: SiteID, val: int)
    ensures Merged(Merged(vals, id, val), id, val) == Merged(vals, id, val)
  {
  }

  /** Two incorporations, for the same site or for different ones, give the same counts in
    * either order. */
  lemma MergeCommute(vals: map<SiteID, int>, i: SiteID, v: int, j: SiteID, w: int)
    ensures Merged(Merged(vals, i, v), j, w) == Merged(Merged(vals, j, w), i, v)
  {
    if i != j {
      if Get(vals, i) < v && Get(vals, j) < w {
        assert vals[i := v][j := w] == vals[j := w][i := v];
      }
    }
  }

  /** The run of the package's test: one local increment at site "A", then counts 2 and 1
    * from site "B" and 3 from site "C", give the value 6. */
  lemma IncorporateExample()
    ensures Sum(Merged(Merged(Merged(Bumped(map[], "A"), "B", 2), "B", 1), "C", 3)) == 6
  {
    var m := Merged(Merged(Merged(Bumped(map[], "A"), "B", 2), "B", 1), "C", 3);
    assert m == map["A" := 1, "B" := 2, "C" := 3];
    SumUpdate(map["A" := 1], "B", 2);
    SumUpdate(map["A" := 1, "B" := 2], "C", 3);
    SumUpdate(map[], "A", 1);
  }

  /** gcounter.go GCounter: the site's own identifier and the count of every site heard of. */
  class GCounter {
    const id: SiteID
    var vals: map<SiteID, int>

    /** gcounter.go NewGCounter: no counts yet, so the value is zero. */
    constructor (gid: SiteID)
      ensures id == gid && vals == map[] && Sum(vals) == 0
    {
      id := gid;
      vals := map[];
    }

    /** gcounter.go Increment. */
    method Increment()
      modifies this
      ensures vals == Bumped(old(vals), id)
    {
      vals := vals[id := Get(vals, id) + 1];
    }

    /** gcounter.go Incorporate of count `val` heard from site `from`. */
    method Incorporate(from: SiteID, val: int)
      modifies this
      ensures vals == Merged(old(vals), from, val)
    {
      var existing := Get(vals, from);
      if existing < val {
        vals := vals[from := val];
      }
    }

    /** gcounter.go Value: the counts added up, visiting the sites in any order. */
    method Value() returns (sum: int)
      ensures sum == Sum(vals)
    {
      sum := 0;
      var rest := vals;
      while |rest| > 0
        invariant sum + Sum(rest) == Sum(vals)
        decreases |rest|
      {
        var k :| k in rest;
        SumRemove(rest, k);
        RemoveSize(rest, k);
        sum := sum + rest[k];
        rest := rest - {k};
      }
    }
  }
}
