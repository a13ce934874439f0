/** The node table and the document order as an object (rgass/model.go). The arena of node
  * records, the table and the ghost document order are fields the methods update in place;
  * every method is proved to leave exactly the state the corresponding function of module
  * Arena or Splits describes, so the properties proved about those functions carry over. */
module Models {
  import opened Ids
  import opened Nodes
  import opened Arena
  import opened Splits

  /** A sentinel record: no text, no identifier of its own (Go's zero value). */
  function Sentinel(next: int, prev: int): (n: Node)
    ensures n.sentinel && n.id == ZeroID && n.str == "" && !n.hidden && !n.split && n.list == []
    ensures n.next == next && n.prev == prev
  {
    Node(ZeroID, [], "", false, true, false, next, prev, None, 0)
  }

  /** The state of a fresh model (model.go NewModel): the head linked to the tail and the
    * head registered under the zero identifier. */
  function Initial(): St
  {
    St([Sentinel(TailIx, Nil), Sentinel(Nil, HeadIx)], [HeadIx, TailIx], map[ZeroID := HeadIx])
  }

  /** A fresh model satisfies the invariant and shows no text. */
  lemma InitialGood()
    ensures Good(Initial()) && TextSt(Initial()) == ""
  {
    InitialValid();
    InitialText();
  }

  /** The two sentinels of a fresh model are linked to each other and listed in order. */
  lemma InitialValid()
    ensures Good(Initial())
  {
    var s := Initial();
    assert Arena.Arena(s.nodes) by {
      assert ShapeAt(s.nodes, HeadIx) && ShapeAt(s.nodes, TailIx);
    }
    assert Chain(s.nodes, s.order) by {
      PairsDistinct(s.order);
      PairsLinks(s.nodes, s.order);
    }
    assert Listed(s.order, HeadIx);
  }

  /** The text of a fresh model: the head sentinel alone contributes, and it is empty. */
  lemma InitialText()
    ensures TextSt(Initial()) == ""
  {
    var s := Initial();
    assert s.order[..1] == [HeadIx] && [HeadIx][1..] == [];
    TextOfCons(s.nodes, [HeadIx]);
  }

  class Model {
    var nodes: seq<Node>
    var table: map<ID, nat>
    ghost var order: seq<nat>

    /** The fields as a value of the state type the functions of module Arena work on. */
    ghost function State(): St
      reads this
    {
      St(nodes, order, table)
    }

    ghost predicate Valid()
      reads this
    {
      Good(State())
    }

    constructor ()
      ensures State() == Initial() && Valid() && TextSt(State()) == ""
      ensures nodes[HeadIx].next == TailIx && nodes[TailIx].prev == HeadIx
      ensures table == map[ZeroID := HeadIx]
    {
      nodes := [Sentinel(TailIx, Nil), Sentinel(Nil, HeadIx)];
      table := map[ZeroID := HeadIx];
      order := [HeadIx, TailIx];
      new;
      InitialGood();
    }

    /** The node registered under `id`: it is linked, is not the tail and carries `id`. */
    function Get(id: ID): (r: Option<nat>)
      reads this
      requires Valid()
      ensures r.Some? <==> id in table
      ensures r.Some? ==> r.value in order && r.value != TailIx && r.value < |nodes| && nodes[r.value].id == id
    {
      if id in table then
        TableLinked(State(), id);
        Some(table[id])
      else None
    }

    /** The head sentinel: the first node of the document order. */
    function Head(): (r: nat)
      reads this
      requires Valid()
      ensures r < |nodes| && r == order[0] && r != order[|order| - 1]
    {
      HeadIx
    }

    /** model.go linkAfter: links the unlinked node `nw` right after the linked node `tar`. */
    method LinkAfter(tar: nat, nw: nat)
      requires Linkable(State()) && tar in order && tar != TailIx && nw < |nodes| && nw !in order
      modifies this
      ensures State() == LinkSt(old(State()), tar, nw)
    {
      ghost var i := IndexOf(order, tar);
      LinkedChain(nodes, order, i, nw);
      var nx := nodes[tar].next;
      nodes := nodes[nw := nodes[nw].(next := nx, prev := tar)];
      nodes := nodes[nx := nodes[nx].(prev := nw)];
      nodes := nodes[tar := nodes[tar].(next := nw)];
      order := order[..i + 1] + [nw] + order[i + 1..];
    }

    /** The placement scan of model.go InsertAfter: from the linked node `tar`, follows the
      * links past every successor whose identifier compares greater than `id`. */
    method ScanFrom(tar: nat, id: ID) returns (t: nat)
      requires Linkable(State()) && tar in order && tar != TailIx
      ensures t == order[Place(State(), tar, id)]
    {
      ghost var i := IndexOf(order, tar);
      assert i < |order| - 1 && order[|order| - 1] == TailIx;
      assert forall j :: 0 <= j < |order| - 1 ==> nodes[order[j]].next == order[j + 1] by {
        LinksPairs(nodes, order);
      }
      t := tar;
      ghost var g := i;
      while true
        invariant g < |order| - 1 && t == order[g]
        invariant Scan(nodes, order, g, id) == Scan(nodes, order, i, id)
        decreases |order| - g
      {
        var nx := nodes[t].next;
        if nx != TailIx && Compare(id, nodes[nx].id) == -1 {
          t, g := nx, g + 1;
        } else {
          return;
        }
      }
    }

    /** model.go InsertAfter: each new node is registered and linked after the place the
      * scan finds, starting from the target and then from the node inserted last. */
    method InsertAfter(tar: nat, ns: seq<Node>) returns (err: Option<Error>)
      requires InsertReady(State(), tar, ns)
      modifies this
      ensures State() == InsertAfterSt(old(State()), tar, ns).st
      ensures err == InsertAfterSt(old(State()), tar, ns).err
    {
      if nodes[tar].id !in table {
        return Some(NotFound);
      }
      ghost var s0 := State();
      var t, i := tar, 0;
      while i < |ns|
        invariant Linkable(State()) && t in order && t != TailIx && i <= |ns|
        invariant InsertAll(s0, tar, ns) == InsertAll(State(), t, ns[i..])
      {
        if ns[i].id in table {
          return Some(Duplicate);
        }
        ghost var s := State();
        InsertOneShape(s, t, ns[i]);
        assert InsertAll(s, t, ns[i..]) == InsertAll(InsertOne(s, t, ns[i]), |nodes|, ns[i + 1..]) by {
          assert ns[i..][0] == ns[i] && ns[i..][1..] == ns[i + 1..];
        }
        var j := ScanFrom(t, ns[i].id);
        assert j != TailIx by {
          DistinctPairs(order);
        }
        var k := |nodes|;
        ChainExtend(nodes, ns[i], order);
        nodes := nodes + [ns[i]];
        table := table[ns[i].id := k];
        LinkAfter(j, k);
        assert State() == InsertOne(s, t, ns[i]);
        t, i := k, i + 1;
      }
      return None;
    }

    /** model.go Replace: the target must be registered and only the first new identifier is
      * checked for a duplicate; then the new nodes are registered and linked one after the
      * other right after the target, which stays linked. */
    method Replace(tar: nat, cs: seq<nat>) returns (err: Option<Error>)
      requires ReplaceReady(State(), tar, cs)
      modifies this
      ensures State() == ReplaceSt(old(State()), tar, cs).st
      ensures err == ReplaceSt(old(State()), tar, cs).err
    {
      if nodes[tar].id !in table {
        return Some(NotFound);
      }
      if nodes[cs[0]].id in table {
        return Some(Duplicate);
      }
      ghost var s0 := State();
      var t, i := tar, 0;
      while i < |cs|
        invariant Linkable(State()) && t in order && t != TailIx && i <= |cs|
        invariant FreshNodes(State(), cs[i..])
        invariant AttachAll(s0, tar, cs) == AttachAll(State(), t, cs[i..])
      {
        ghost var s := State();
        var c := cs[i];
        assert c !in order && c != TailIx by {
          assert cs[i..][0] == c;
        }
        AttachEffect(s, t, c);
        FreshRest(s, Attach(s, t, c), cs[i..]);
        assert AttachAll(s, t, cs[i..]) == AttachAll(Attach(s, t, c), c, cs[i + 1..]) by {
          assert cs[i..][1..] == cs[i + 1..];
        }
        table := table[nodes[c].id := c];
        LinkAfter(t, c);
        assert State() == Attach(s, t, c);
        t, i := c, i + 1;
      }
      return None;
    }

    /** model.go FindNode: resolves a registered identifier and a position within its
      * original extent to the leaf of its split tree that holds the position. */
    method FindNode(tarID: ID, pos: int) returns (r: Result<nat>)
      requires Valid()
      requires Get(tarID).Some? && pos <= Length(nodes[Get(tarID).value]) ==>
        Descend(nodes, Get(tarID).value, pos).Some?
      ensures Get(tarID).None? ==> r == Fail(NotFound)
      ensures Get(tarID).Some? && pos > Length(nodes[Get(tarID).value]) ==> r == Fail(PositionOutsideNode)
      ensures Get(tarID).Some? && pos <= Length(nodes[Get(tarID).value]) ==>
        r == Ok(Descend(nodes, Get(tarID).value, pos).value)
    {
      var root := Get(tarID);
      if root.None? {
        return Fail(NotFound);
      }
      var k := root.value;
      if pos > Length(nodes[k]) {
        return Fail(PositionOutsideNode);
      }
      var p := pos;
      while nodes[k].split
        invariant k < |nodes| && Descend(nodes, k, p) == Descend(nodes, root.value, pos)
        decreases |nodes| - k
      {
        assert ShapeAt(nodes, k);
        var l := nodes[k].list;
        if p <= Length(nodes[l[0]]) {
          k := l[0];
        } else if p <= nodes[l[1]].id.offset + Length(nodes[l[1]]) {
          p := p - Length(nodes[l[0]]);
          k := l[1];
        } else {
          p := p - (Length(nodes[l[0]]) + Length(nodes[l[1]]));
          k := l[2];
        }
      }
      return Ok(k);
    }

    /** model.go Iter as a plain walk: the nodes from the head sentinel along the links up
      * to, not including, the tail. */
    method Iter() returns (walk: seq<nat>)
      requires Linkable(State())
      ensures walk == order[..|order| - 1]
    {
      assert forall j :: 0 <= j < |order| - 1 ==> nodes[order[j]].next == order[j + 1] by {
        LinksPairs(nodes, order);
      }
      assert forall j :: 0 <= j < |order| - 1 ==> order[j] != TailIx by {
        DistinctPairs(order);
      }
      walk := [];
      var node := HeadIx;
      ghost var i := 0;
      while node != TailIx
        invariant i < |order| && node == order[i] && walk == order[..i]
        decreases |order| - i
      {
        walk := walk + [node];
        node := nodes[node].next;
        i := i + 1;
      }
    }

    /** Writes a split into the arena: node `k` becomes the record `p` and the parts `cs` are
      * appended, unlinked (what node.go SplitTwo, SplitThree and the Delete helpers do to the
      * receiver and the records they allocate). */
    method SplitNode(k: nat, p: Node, cs: seq<Node>)
      requires k < |nodes|
      modifies this
      ensures State() == SplitAt(old(State()), k, p, cs)
    {
      nodes := nodes[k := p] + cs;
    }

    /** node.go DeleteWhole on node `k`. */
    method Hide(k: nat)
      requires k < |nodes|
      modifies this
      ensures State() == HideAt(old(State()), k)
    {
      nodes := nodes[k := DeleteWhole(nodes[k])];
    }
  }
}
