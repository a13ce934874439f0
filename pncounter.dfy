/** The increment/decrement counter (pncounter/pncounter.go): every site known holds a
  * two-element array, a positive and a negative component, that the methods update in
  * place. Functions on the entries taken as values (Counts) give what each operation leaves,
  * and the lemmas beside them state what a replica may rely on. The package offers no way to
  * create an entry, and every operation other than Value dereferences the entry it touches, so
  * each of them requires that entry to be present. */
module PNCounters {
  import opened Sums

  /** A site's identifier (Go's `id`, a string). */
  type SiteID = string

  /** The two components of one site's entry, as values. */
  datatype Entry = Entry(pos: int, neg: int)

  function Max(a: int, b: int): int
  {
    if a < b then b else a
  }

  /** The counts after pncounter.go Increment at site `id`: the positive component becomes 1,
    * whatever it was. */
  function Incremented(m: map<SiteID, Entry>, id: SiteID): map<SiteID, Entry>
    requires id in m
  {
    m[id := m[id].(pos := 1)]
  }

  /** The counts after pncounter.go Decrement at site `id`. */
  function Decremented(m: map<SiteID, Entry>, id: SiteID): map<SiteID, Entry>
    requires id in m
  {
    m[id := m[id].(neg := m[id].neg + 1)]
  }

  /** The counts after pncounter.go Incorporate of entry `e` from site `id`: each component
    * keeps the larger of the local and the remote value. */
  function Merged(m: map<SiteID, Entry>, id: SiteID, e: Entry): map<SiteID, Entry>
    requires id in m
  {
    m[id := Entry(Max(m[id].pos, e.pos), Max(m[id].neg, e.neg))]
  }

  /** What each site contributes to the value: its positive minus its negative component. */
  function Nets(m: map<SiteID, Entry>): map<SiteID, int>
  {
    map k | k in m :: m[k].pos - m[k].neg
  }

  function Positives(m: map<SiteID, Entry>): map<SiteID, int>
  {
    map k | k in m :: m[k].pos
  }

  function Negatives(m: map<SiteID, Entry>): map<SiteID, int>
  {
    map k | k in m :: m[k].neg
  }

  /** The value of the counter with entries `m`. */
  ghost function Net(m: map<SiteID, Entry>): int
  {
    Sum(Nets(m))
  }

  /** Taking one site out of the entries takes its contribution out of the value. */
  lemma NetRemove(m: map<SiteID, Entry>, k: SiteID)
    requires k in m
    ensures Net(m) == m[k].pos - m[k].neg + Net(m - {k})
  {
    SumRemove(Nets(m), k);
    assert Nets(m) - {k} == Nets(m - {k});
  }

  /** The value is the sum of the positive components minus the sum of the negative ones. */
  lemma {:induction false} NetSplit(m: map<SiteID, Entry>)
    ensures Net(m) == Sum(Positives(m)) - Sum(Negatives(m))
    decreases |m|
  {
    if |m| > 0 {
      var k :| k in m;
      NetRemove(m, k);
      SumRemove(Positives(m), k);
      SumRemove(Negatives(m), k);
      assert Positives(m) - {k} == Positives(m - {k});
      assert Negatives(m) - {k} == Negatives(m - {k});
      RemoveSize(m, k);
      NetSplit(m - {k});
    } else {
      assert Nets(m) == map[] && Positives(m) == map[] && Negatives(m) == map[];
    }
  }

  /** Changing one site's entry changes the value by the difference of its contributions. */
  lemma NetUpdate(m: map<SiteID, Entry>, id: SiteID, e: Entry)
    requires id in m
    ensures Net(m[id := e]) == Net(m) - (m[id].pos - m[id].neg) + (e.pos - e.neg)
  {
    NetsUpdate(m, id, e);
    SumUpdate(Nets(m), id, e.pos - e.neg);
  }

  /** Changing one site's entry changes only that site's contribution. */
  lemma NetsUpdate(m: map<SiteID, Entry>, id: SiteID, e: Entry)
    requires id in m
    ensures Nets(m[id := e]) == Nets(m)[id := e.pos - e.neg]
  {
    var a, b := Nets(m[id := e]), Nets(m)[id := e.pos - e.neg];
    assert a.Keys == b.Keys;
    assert forall k :: k in a ==> a[k] == b[k];
  }

  /** Increment sets the own positive component to 1 and touches nothing else, so repeating
    * it changes nothing. */
  lemma IncrementEffect(m: map<SiteID, Entry>, id: SiteID)
    requires id in m
    ensures Incremented(m, id)[id] == Entry(1, m[id].neg)
    ensures forall x :: x in m && x != id ==> x in Incremented(m, id) && Incremented(m, id)[x] == m[x]
    ensures Incremented(Incremented(m, id), id) == Incremented(m, id)
    ensures Net(Incremented(m, id)) == Net(m) - m[id].pos + 1
  {
    NetUpdate(m, id, m[id].(pos := 1));
  }

  /** Decrement raises the own negative component by exactly one and touches nothing else, so
    * the value drops by exactly one. */
  lemma DecrementEffect(m: map<SiteID, Entry>, id: SiteID)
    requires id in m
    ensures Decremented(m, id)[id] == Entry(m[id].pos, m[id].neg + 1)
    ensures forall x :: x in m && x != id ==> x in Decremented(m, id) && Decremented(m, id)[x] == m[x]
    ensures Net(Decremented(m, id)) == Net(m) - 1
  {
    NetUpdate(m, id, m[id].(neg := m[id].neg + 1));
  }

  /** Incorporate keeps, component by component, the larger of the local and the remote
    * value: it never lowers a component, leaves every other site as it was and, repeated,
    * changes nothing. */
  lemma MergeEffect(m: map<SiteID, Entry>, id: SiteID, e: Entry)
    requires id in m
    ensures Merged(m, id, e)[id].pos >= m[id].pos && Merged(m, id, e)[id].pos >= e.pos
    ensures Merged(m, id, e)[id].neg >= m[id].neg && Merged(m, id, e)[id].neg >= e.neg
    ensures Merged(m, id, e)[id].pos == m[id].pos || Merged(m, id, e)[id].pos == e.pos
    ensures Merged(m, id, e)[id].neg == m[id].neg || Merged(m, id, e)[id].neg == e.neg
    ensures forall x :: x in m && x != id ==> x in Merged(m, id, e) && Merged(m, id, e)[x] == m[x]
    ensures Merged(Merged(m, id, e), id, e) == Merged(m, id, e)
  {
  }

  /** pncounter.go PNCounter: the site's own identifier and, for every site known, a
    * two-element array holding its positive and its negative component. */
  class PNCounter {
    const id: SiteID
    var vals: map<SiteID, array<int>>

    /** Every entry is a two-element array of its own. */
    ghost predicate Valid()
      reads this
    {
      && (forall k :: k in vals ==> vals[k].Length == 2)
      && (forall k, j :: k in vals && j in vals && k != j ==> vals[k] != vals[j])
    }

    /** The arrays the entries live in. */
    ghost function Arrays(): set<array<int>>
      reads this
    {
      set k | k in vals :: vals[k]
    }

    /** The entries as values. */
    ghost function Counts(): map<SiteID, Entry>
      reads this, Arrays()
      requires Valid()
    {
      map k | k in vals :: Entry(vals[k][0], vals[k][1])
    }

    /** pncounter.go NewPNCounter: no entries, so the value is zero. */
    constructor (gid: SiteID)
      ensures id == gid && vals == map[] && Valid() && Counts() == map[] && Net(Counts()) == 0
    {
      id := gid;
      vals := map[];
      new;
      assert Nets(map[]) == map[];
    }

    /** pncounter.go Increment. */
    method Increment()
      requires Valid() && id in vals
      modifies vals[id]
      ensures Valid() && Counts() == Incremented(old(Counts()), id)
    {
      vals[id][0] := 1;
    }

    /** pncounter.go Decrement. */
    method Decrement()
      requires Valid() && id in vals
      modifies vals[id]
      ensures Valid() && Counts() == Decremented(old(Counts()), id)
    {
      vals[id][1] := vals[id][1] + 1;
    }

    /** pncounter.go Incorporate of the components `e` heard from site `from`. */
    method Incorporate(from: SiteID, e: Entry)
      requires Valid() && from in vals
      modifies vals[from]
      ensures Valid() && Counts() == Merged(old(Counts()), from, e)
    {
      if e.pos > vals[from][0] {
        vals[from][0] := e.pos;
      }
      if e.neg > vals[from][1] {
        vals[from][1] := e.neg;
      }
    }

    /** pncounter.go Value: every site's positive component added and its negative one
      * subtracted, visiting the sites in any order. */
    method Value() returns (sum: int)
      requires Valid()
      ensures sum == Net(Counts())
      ensures sum == Sum(Positives(Counts())) - Sum(Negatives(Counts()))
    {
      sum := 0;
      var rest := vals;
      ghost var left := Counts();
      while |rest| > 0
        invariant rest.Keys == left.Keys
        invariant forall k :: k in rest ==> k in vals && rest[k] == vals[k]
        invariant forall k :: k in left ==> left[k] == Entry(rest[k][0], rest[k][1])
        invariant sum + Net(left) == Net(Counts())
        decreases |rest|
      {
        var k :| k in rest;
        NetRemove(left, k);
        RemoveSize(rest, k);
        sum := sum + rest[k][0];
        sum := sum - rest[k][1];
        rest := rest - {k};
        left := left - {k};
      }
      assert left == map[] && Nets(left) == map[];
      NetSplit(Counts());
    }
  }
}
