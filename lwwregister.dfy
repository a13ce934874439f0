/** The last-writer-wins register (lwwregister/lwwregister.go): a value stamped with a
  * (vector clock, site) timestamp, replaced by a local update or by a remote value whose
  * timestamp is greater. Compare is a pure function; the register is an object whose fields
  * the methods update in place, each proved to leave the state functions Updated and
  * Incorporated describe. Go's `interface{}` value becomes the type parameter `T`, its nil
  * the `None` of an option. */
module LWWRegisters {
  /** A site's identifier (Go's `ID`, an `int64`). */
  type SiteID = int

  /** The register's own option: the lwwregister package does not depend on rgass, and the
    * model keeps the two apart in the same way. */
  datatype Option<T> = None | Some(value: T)

  /** lwwregister.go Timestamp. */
  datatype Timestamp = Timestamp(id: SiteID, vec: int)

  /** lwwregister.go Timestamp.Compare: the order on (vector clock, site), the clock first;
    * -1, 0 or 1 as `t` is smaller than, equal to or greater than `o`. */
  function Compare(t: Timestamp, o: Timestamp): (r: int)
    ensures r == -1 <==> t.vec < o.vec || (t.vec == o.vec && t.id < o.id)
    ensures r == 1 <==> t.vec > o.vec || (t.vec == o.vec && t.id > o.id)
    ensures r == 0 <==> t == o
  {
    if t.vec < o.vec then -1
    else if t.vec > o.vec then 1
    else if t.id < o.id then -1
    else if t.id > o.id then 1
    else 0
  }

  /** Swapping the arguments negates the result. */
  lemma CompareAntisymmetric(t: Timestamp, o: Timestamp)
    ensures Compare(o, t) == -Compare(t, o)
  {
  }

  /** "Smaller" and "smaller or equal" are transitive. */
  lemma CompareTransitive(a: Timestamp, b: Timestamp, c: Timestamp)
    ensures Compare(a, b) == -1 && Compare(b, c) == -1 ==> Compare(a, c) == -1
    ensures Compare(a, b) != 1 && Compare(b, c) != 1 ==> Compare(a, c) != 1
  {
  }

  /** The state of a register: its vector clock, the timestamp of the value it holds and that
    * value. */
  datatype Reg<T> = Reg(vec: int, ts: Timestamp, val: Option<T>)

  /** What every operation keeps: the clock is never behind the held timestamp's, and at most
    * one ahead of it. */
  ghost predicate Inv<T>(s: Reg<T>)
  {
    s.ts.vec <= s.vec <= s.ts.vec + 1
  }

  /** The state of lwwregister.go NewRegister at site `id`. */
  function Fresh<T>(id: SiteID): Reg<T>
  {
    Reg(0, Timestamp(id, 0), None)
  }

  /** The state after lwwregister.go Update at site `id` with value `v`. */
  function Updated<T>(s: Reg<T>, id: SiteID, v: T): Reg<T>
  {
    Reg(s.vec + 1, Timestamp(id, s.vec + 1), Some(v))
  }

  /** The state after lwwregister.go Incorporate of value `v` stamped `t`. */
  function Incorporated<T>(s: Reg<T>, t: Timestamp, v: T): Reg<T>
  {
    if Compare(s.ts, t) == -1 then Reg(t.vec + 1, t, Some(v)) else s
  }

  /** A fresh register keeps the invariant, holds no value and the stamp (id, 0). */
  lemma FreshEffect<T>(id: SiteID)
    ensures Inv(Fresh<T>(id)) && Fresh<T>(id).val == None
    ensures Fresh<T>(id).ts == Timestamp(id, 0) && Fresh<T>(id).vec == 0
  {
  }

  /** An update keeps the invariant, holds the new value and stamps it with a timestamp
    * strictly greater than the one it replaces, and a clock strictly ahead. */
  lemma UpdateEffect<T>(s: Reg<T>, id: SiteID, v: T)
    requires Inv(s)
    ensures Inv(Updated(s, id, v)) && Updated(s, id, v).val == Some(v)
    ensures Updated(s, id, v).ts.id == id
    ensures Compare(s.ts, Updated(s, id, v).ts) == -1
    ensures s.vec < Updated(s, id, v).vec
  {
  }

  /** A remote value is adopted exactly when its timestamp is strictly greater than the held
    * one; otherwise nothing changes. Either way the invariant holds, the held timestamp is at
    * least the remote one and no smaller than before, and the clock does not go back. */
  lemma IncorporateEffect<T>(s: Reg<T>, t: Timestamp, v: T)
    requires Inv(s)
    ensures Compare(s.ts, t) == -1 ==> Incorporated(s, t, v) == Reg(t.vec + 1, t, Some(v))
    ensures Compare(s.ts, t) != -1 ==> Incorporated(s, t, v) == s
    ensures Inv(Incorporated(s, t, v))
    ensures Compare(Incorporated(s, t, v).ts, t) != -1
    ensures Compare(Incorporated(s, t, v).ts, s.ts) != -1
    ensures s.vec <= Incorporated(s, t, v).vec
  {
  }

  /** Incorporating the same stamped value twice is incorporating it once. */
  lemma IncorporateIdempotent<T>(s: Reg<T>, t: Timestamp, v: T)
    ensures Incorporated(Incorporated(s, t, v), t, v) == Incorporated(s, t, v)
  {
  }

  /** The run of the package's test at site 1: after a local update to 1, the value 2 stamped
    * (2, 2) wins and the value 3 stamped (3, 0) loses. */
  lemma IncorporateExample()
    ensures var r1 := Updated(Fresh<int>(1), 1, 1);
      && r1.val == Some(1)
      && Incorporated(r1, Timestamp(2, 2), 2).val == Some(2)
      && Incorporated(Incorporated(r1, Timestamp(2, 2), 2), Timestamp(3, 0), 3).val == Some(2)
  {
  }

  /** lwwregister.go LWWRegister. */
  class LWWRegister<T> {
    const id: SiteID
    var vec: int
    var ts: Timestamp
    var val: Option<T>

    /** The fields as a value of the state type the functions above work on. */
    ghost function State(): Reg<T>
      reads this
    {
      Reg(vec, ts, val)
    }

    ghost predicate Valid()
      reads this
    {
      Inv(State())
    }

    /** lwwregister.go NewRegister. */
    constructor (rid: SiteID)
      ensures id == rid && State() == Fresh(rid) && Valid()
    {
      id := rid;
      vec := 0;
      ts := Timestamp(rid, 0);
      val := None;
    }

    /** lwwregister.go Update. */
    method Update(v: T)
      requires Valid()
      modifies this
      ensures State() == Updated(old(State()), id, v) && Valid()
      ensures Compare(old(ts), ts) == -1
    {
      vec := vec + 1;
      val := Some(v);
      ts := Timestamp(id, vec);
    }

    /** lwwregister.go Incorporate of value `v` stamped `t`. */
    method Incorporate(t: Timestamp, v: T)
      requires Valid()
      modifies this
      ensures State() == Incorporated(old(State()), t, v) && Valid()
    {
      if Compare(ts, t) == -1 {
        vec := t.vec + 1;
        ts := t;
        val := Some(v);
        return;
      }
    }
  }
}
