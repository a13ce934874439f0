/** The RGASS document (rgass/rgass.go) as an object that owns a model and edits it in place.
  * Every operation is proved to leave exactly the state, and report exactly the error, that
  * the function of module Edits describes; the properties proved there carry over. Each
  * operation requires that its function finishes (`Done`): the runs on which the source
  * panics, and the states this model does not cover, are excluded by the precondition. */
module Documents {
  import opened Ids
  import opened Nodes
  import opened Arena
  import opened Splits
  import opened Models
  import opened Edits

  class Rgass {
    const model: Model

    ghost predicate Valid()
      reads this, model
    {
      model.Valid()
    }

    /** rgass.go NewRGASS: a document over a fresh model, showing no text. */
    constructor ()
      ensures fresh(model) && model.State() == Initial() && Valid() && TextSt(model.State()) == ""
    {
      model := new Model();
    }

    /** A split of node `k` written into the arena, then model.go Replace of the node by its
      * parts (what rgass.go does after each SplitTwo, SplitThree or Delete helper). */
    method SplitThenReplace(k: nat, p: Node, cs: seq<Node>) returns (err: Option<Error>)
      requires Linkable(model.State()) && k < |model.nodes| && |cs| >= 1
      requires p.next == model.nodes[k].next && p.prev == model.nodes[k].prev
      requires SplitReplace(model.State(), k, p, cs).Done?
      modifies model
      ensures model.State() == SplitReplace(old(model.State()), k, p, cs).st
      ensures err == SplitReplace(old(model.State()), k, p, cs).err
    {
      var base := |model.nodes|;
      SplitAtEffect(model.State(), k, p, cs);
      model.SplitNode(k, p, cs);
      err := model.Replace(k, PartIndices(base, |cs|));
    }

    /** node.go DeletePrior, DeleteLast or SplitTwo on node `k`, then model.go Replace. A
      * rejected position leaves two zero nodes, which Replace refuses: NotFound for an
      * unregistered node, otherwise Duplicate (the zero identifier is the head's). */
    method CutTwo(k: nat, side: Side, at: int) returns (err: Option<Error>)
      requires Linkable(model.State()) && k < |model.nodes| && Cut2(model.State(), k, side, at).Done?
      modifies model
      ensures model.State() == Cut2(old(model.State()), k, side, at).st
      ensures err == Cut2(old(model.State()), k, side, at).err
    {
      var node, base := model.nodes[k], |model.nodes|;
      var c :=
        match side
        case Prior => DeletePrior(node, k, at, base, base + 1)
        case Last => DeleteLast(node, k, at, base, base + 1)
        case Neither => SplitTwo(node, k, at, base, base + 1);
      if c.Refused? {
        return Some(if node.id in model.table then Duplicate else NotFound);
      }
      err := SplitThenReplace(k, c.parts.parent, [c.parts.first, c.parts.last]);
    }

    /** node.go DeleteMiddle on node `k`, then model.go Replace. */
    method CutThree(k: nat, pos: int, delLen: int) returns (err: Option<Error>)
      requires Linkable(model.State()) && k < |model.nodes| && Cut3(model.State(), k, pos, delLen).Done?
      modifies model
      ensures model.State() == Cut3(old(model.State()), k, pos, delLen).st
      ensures err == Cut3(old(model.State()), k, pos, delLen).err
    {
      var node, base := model.nodes[k], |model.nodes|;
      var c := DeleteMiddle(node, k, pos, delLen, base, base + 1, base + 2);
      if c.Refused? {
        return Some(if node.id in model.table then Duplicate else NotFound);
      }
      err := SplitThenReplace(k, c.parts.parent, [c.parts.first, c.parts.middle, c.parts.last]);
    }

    /** rgass.go doInsert. */
    method DoInsert(k: nat, pos: int, str: string, id: ID) returns (err: Option<Error>)
      requires Valid() && k < |model.nodes| && DoInsertSt(model.State(), k, pos, str, id).Done?
      modifies model
      ensures model.State() == DoInsertSt(old(model.State()), k, pos, str, id).st
      ensures err == DoInsertSt(old(model.State()), k, pos, str, id).err
    {
      var n := NewNode(id, str);
      var node := model.nodes[k];
      if node.sentinel || pos == Length(node) {
        err := model.InsertAfter(k, [n]);
        return;
      }
      assert DoInsertSt(model.State(), k, pos, str, id) == SplitInsert(model.State(), k, pos, n);
      err := SplitInsertM(k, pos, n);
    }

    /** The split path of rgass.go doInsert: SplitTwo, Replace, then InsertAfter of the new
      * node after the first part. */
    method SplitInsertM(k: nat, pos: int, n: Node) returns (err: Option<Error>)
      requires Valid() && k < |model.nodes| && k != TailIx && LeafRecord(n)
      requires SplitInsert(model.State(), k, pos, n).Done?
      modifies model
      ensures model.State() == SplitInsert(old(model.State()), k, pos, n).st
      ensures err == SplitInsert(old(model.State()), k, pos, n).err
    {
      ghost var s := model.State();
      var base := |model.nodes|;
      var c := SplitTwo(model.nodes[k], k, pos, base, base + 1);
      Split2Neither(s, k, pos, model.nodes[k], base);
      if c.Refused? {
        return Some(c.error);
      }
      assert c.Cut?;
      SplitReplaceLinked(s, k, c.parts.parent, [c.parts.first, c.parts.last]);
      Cut2Effect(s, k, Neither, pos);
      err := CutTwo(k, Neither, pos);
      if err.Some? {
        return;
      }
      err := model.InsertAfter(base, [n]);
    }

    /** rgass.go LocalInsert. */
    method LocalInsert(tarID: ID, pos: int, str: string, id: ID) returns (err: Option<Error>)
      requires Valid() && LocalInsertSt(model.State(), tarID, pos, str, id).Done?
      modifies model
      ensures model.State() == LocalInsertSt(old(model.State()), tarID, pos, str, id).st
      ensures err == LocalInsertSt(old(model.State()), tarID, pos, str, id).err
    {
      var tar := model.Get(tarID);
      if tar.None? {
        return Some(NotFound);
      }
      err := DoInsert(tar.value, pos, str, id);
    }

    /** rgass.go RemoteInsert. */
    method RemoteInsert(tarID: ID, pos: int, str: string, id: ID) returns (err: Option<Error>)
      requires Valid() && RemoteInsertSt(model.State(), tarID, pos, str, id).Done?
      modifies model
      ensures model.State() == RemoteInsertSt(old(model.State()), tarID, pos, str, id).st
      ensures err == RemoteInsertSt(old(model.State()), tarID, pos, str, id).err
    {
      var leaf := model.FindNode(tarID, pos);
      if leaf.Fail? {
        return Some(leaf.error);
      }
      err := DoInsert(leaf.value, pos - model.nodes[leaf.value].ancestorOffset, str, id);
    }

    /** rgass.go doDelete; `fuel` bounds the depth of the split tree below node `k`. */
    method DoDelete(k: nat, pos: int, delLen: int, ghost fuel: nat) returns (err: Option<Error>)
      requires Valid() && k < |model.nodes| && k != TailIx
      requires DeleteOutcome(model.State(), k, pos, delLen, fuel).Done?
      modifies model
      ensures model.State() == DeleteOutcome(old(model.State()), k, pos, delLen, fuel).st
      ensures err == DeleteOutcome(old(model.State()), k, pos, delLen, fuel).err
      decreases fuel, 2, 0
    {
      if !model.nodes[k].split {
        err := DeleteLeafM(k, pos, delLen);
      } else {
        err := DeleteChildrenM(k, pos, delLen, fuel, ChildrenOutcome(model.State(), k, pos, delLen, fuel));
      }
    }

    /** The split case of rgass.go doDelete: the calls on the children the range covers. */
    method DeleteChildrenM(k: nat, pos: int, delLen: int, ghost fuel: nat, ghost outcome: Run)
      returns (err: Option<Error>)
      requires Valid() && k < |model.nodes| && k != TailIx && model.nodes[k].split && fuel >= 1
      requires outcome == ChildrenOutcome(model.State(), k, pos, delLen, fuel) && outcome.Done?
      modifies model
      ensures outcome == Done(model.State(), err)
      decreases fuel, 1, 0
    {
      PlanSteppable(model.State(), k, pos, delLen);
      var l := model.nodes[k].list;
      var plan := Plan(l, Lens(model.nodes, l), pos, delLen);
      if plan.None? {
        return Some(RangeExceedsNode);
      }
      err := RunStepsM(plan.value, fuel - 1);
    }

    /** The recursive calls of doDelete on a split node, made in order until one fails. */
    method RunStepsM(steps: seq<Step>, ghost fuel: nat) returns (err: Option<Error>)
      requires Valid() && Steppable(model.State(), steps) && StepsOutcome(model.State(), steps, fuel).Done?
      modifies model
      ensures model.State() == StepsOutcome(old(model.State()), steps, fuel).st
      ensures err == StepsOutcome(old(model.State()), steps, fuel).err
      decreases fuel, 3, |steps|
    {
      if steps == [] {
        return None;
      }
      err := DoDelete(steps[0].child.value, steps[0].pos, steps[0].delLen, fuel);
      if err.None? {
        err := RunStepsM(steps[1..], fuel);
      }
    }

    /** The unsplit case of rgass.go doDelete. */
    method DeleteLeafM(k: nat, pos: int, delLen: int) returns (err: Option<Error>)
      requires Valid() && k < |model.nodes| && k != TailIx && DeleteLeaf(model.State(), k, pos, delLen).Done?
      modifies model
      ensures model.State() == DeleteLeaf(old(model.State()), k, pos, delLen).st
      ensures err == DeleteLeaf(old(model.State()), k, pos, delLen).err
    {
      var len := Length(model.nodes[k]);
      if pos == 0 && delLen == len {
        model.Hide(k);
        err := None;
      } else if pos == 0 && delLen < len {
        err := CutTwo(k, Prior, delLen);
      } else if pos > 0 && pos + delLen == len {
        err := CutTwo(k, Last, pos);
      } else if pos > 0 && pos + delLen < len {
        err := CutThree(k, pos, delLen);
      } else {
        err := Some(RangeExceedsNode);
      }
    }

    /** rgass.go LocalDelete. The source tries the cases one after the other, but each tests
      * the target's length, which none changes, so at most one applies. */
    method LocalDelete(tarID: ID, pos: int, delLen: int) returns (list: seq<nat>, effectiveLen: int, err: Option<Error>)
      requires Valid() && LocalDeleteSt(model.State(), tarID, pos, delLen).run.Done?
      modifies model
      ensures var d := LocalDeleteSt(old(model.State()), tarID, pos, delLen);
        && model.State() == d.run.st && err == d.run.err
        && list == d.list && effectiveLen == d.effectiveLen
    {
      var tar := model.Get(tarID);
      if tar.None? {
        return [], delLen, Some(NotFound);
      }
      var k := tar.value;
      var len := Length(model.nodes[k]);
      list, effectiveLen, err := [k], delLen, None;
      if pos == 0 && delLen == len {
        model.Hide(k);
      } else if pos == 0 && delLen < len {
        var ignored := CutTwo(k, Prior, delLen);
      } else if pos > 0 && pos + delLen == len {
        var ignored := CutTwo(k, Last, delLen);
      } else if pos > 0 && pos + delLen < len {
        var ignored := CutThree(k, pos, delLen);
      } else if pos > 0 {
        list, effectiveLen := OverflowM(k, pos, delLen);
      }
    }

    /** The overflow case of rgass.go LocalDelete: the target loses its suffix, then the walk
      * tombstones whole successors and splits a prefix off the last node it reaches. */
    method OverflowM(k: nat, pos: int, delLen: int) returns (list: seq<nat>, effectiveLen: int)
      requires Valid() && k in model.order && k != TailIx && k < |model.nodes|
      requires pos + delLen > Length(model.nodes[k]) && Overflow(model.State(), k, pos, delLen).run.Done?
      modifies model
      ensures var d := Overflow(old(model.State()), k, pos, delLen);
        model.State() == d.run.st && list == d.list && effectiveLen == d.effectiveLen
    {
      ghost var s := model.State();
      var rem := delLen - (Length(model.nodes[k]) - pos);
      var node := model.nodes[k].next;
      OverflowStart(s, k, pos, delLen, node, rem);
      var ignored := CutTwo(k, Last, pos);
      ghost var r := Cut2(s, k, Last, pos).st;
      assert model.State() == r;
      list, effectiveLen := WalkM(node, IndexOf(r.order, node), rem, delLen, [k]);
    }

    /** The loop of the overflow case of rgass.go LocalDelete, from node `node` at position `j`
      * of the document order with `rem` characters left to delete. */
    method WalkM(node: nat, ghost j: nat, rem: int, eff: int, list: seq<nat>)
      returns (list': seq<nat>, eff': int)
      requires Valid() && j < |model.order| && node == model.order[j] && rem > 0
      requires WalkOutcome(model.State(), j, rem, eff, list).run.Done?
      modifies model
      ensures var d := WalkOutcome(old(model.State()), j, rem, eff, list);
        model.State() == d.run.st && list' == d.list && eff' == d.effectiveLen
    {
      ghost var d0 := WalkOutcome(model.State(), j, rem, eff, list);
      var node: nat, rem := node, rem;
      ghost var j: nat := j;
      list', eff' := list, eff;
      while rem > 0
        invariant rem > 0 ==> Valid() && j < |model.order| && node == model.order[j]
        invariant rem > 0 ==> WalkOutcome(model.State(), j, rem, eff', list') == d0
        invariant rem <= 0 ==> Deleted(Done(model.State(), None), list', eff') == d0
        decreases if rem > 0 then |model.order| - j else 0
      {
        node, j, rem, eff', list' := WalkTurn(node, j, rem, eff', list');
      }
    }

    /** One turn of the overflow loop of rgass.go LocalDelete: a node shorter than what
      * remains is tombstoned and the walk moves on; otherwise its prefix is split off and
      * nothing remains. */
    method WalkTurn(node: nat, ghost j: nat, rem: int, eff: int, list: seq<nat>)
      returns (node': nat, ghost j': nat, rem': int, eff': int, list': seq<nat>)
      requires Valid() && j < |model.order| && node == model.order[j] && rem > 0
      requires WalkOutcome(model.State(), j, rem, eff, list).run.Done?
      modifies model
      ensures rem' > 0 ==> Valid() && j < j' < |model.order| == |old(model.order)| && node' == model.order[j']
      ensures rem' > 0 ==> WalkOutcome(model.State(), j', rem', eff', list') == WalkOutcome(old(model.State()), j, rem, eff, list)
      ensures rem' <= 0 ==> Deleted(Done(model.State(), None), list', eff') == WalkOutcome(old(model.State()), j, rem, eff, list)
    {
      ghost var s := model.State();
      var len := Length(model.nodes[node]);
      if rem > len {
        WalkHides(s, j, rem, eff, list);
        rem' := rem - len;
        node', j', eff', list' := HideM(node, j, rem', eff, list);
        assert WalkOutcome(model.State(), j', rem', eff', list') == WalkOutcome(s, j, rem, eff, list);
      } else {
        WalkCuts(s, j, rem, eff, list);
        var ignored := CutTwo(node, Prior, rem);
        node', j', rem', eff', list' := node, j, 0, eff, list;
      }
    }

    /** One turn of the overflow loop on a node shorter than what remains to delete: the
      * node is tombstoned, the following tombstones are stepped over and counted, and the
      * first visible node joins the list. `rem` is what remains after this node. */
    method HideM(node: nat, ghost j: nat, rem: int, eff: int, list: seq<nat>)
      returns (node': nat, ghost j': nat, eff': int, list': seq<nat>)
      requires Valid() && j + 1 < |model.order| && node == model.order[j] && node != TailIx && rem > 0
      modifies model
      ensures model.State() == HideAt(old(model.State()), node) && Valid()
      ensures j < j' < |model.order| && node' == model.order[j']
      ensures WalkOutcome(model.State(), j', rem, eff', list') == SkipOutcome(HideAt(old(model.State()), node), j + 1, rem, eff, list)
    {
      ghost var s := model.State();
      HideEffect(s, node);
      HideGood(s, node);
      model.Hide(node);
      assert model.nodes[node].next == model.order[j + 1] by {
        LinksPairs(model.nodes, model.order);
      }
      node' := model.nodes[node].next;
      j', eff' := j + 1, eff;
      while model.nodes[node'].hidden
        invariant Valid() && model.State() == HideAt(s, node) && j' < |model.order| && node' == model.order[j']
        invariant SkipOutcome(model.State(), j', rem, eff', list) == SkipOutcome(HideAt(s, node), j + 1, rem, eff, list)
        invariant j < j'
        decreases |model.order| - j'
      {
        SkipStep(model.State(), j', rem, eff', list);
        eff' := eff' + Length(model.nodes[node']);
        node' := model.nodes[node'].next;
        j' := j' + 1;
      }
      list' := list + [node'];
    }

    /** rgass.go RemoteDelete. */
    method RemoteDelete(ids: seq<ID>, pos: int, delLen: int) returns (err: Option<Error>)
      requires Valid() && RemoteDeleteSt(model.State(), ids, pos, delLen).Done?
      modifies model
      ensures model.State() == RemoteDeleteSt(old(model.State()), ids, pos, delLen).st
      ensures err == RemoteDeleteSt(old(model.State()), ids, pos, delLen).err
    {
      if |ids| == 0 {
        return None;
      }
      var tar := model.Get(ids[0]);
      if tar.None? {
        return Some(NotFound);
      }
      var k := tar.value;
      if |ids| == 1 {
        err := DoDelete(k, pos, delLen, |model.nodes|);
        return;
      }
      ghost var cs := RemoteCalls(ids, pos, delLen);
      err := DeleteMany(k, ids, pos, delLen, cs, CallsFrom(model.State(), cs, 0));
    }

    /** rgass.go RemoteDelete with two or more identifiers, the first resolved to node `k`:
      * the calls `cs` (RemoteCalls), each identifier looked up right before its call, reach
      * `outcome`, the run CallsFrom describes for them. */
    method DeleteMany(k: nat, ids: seq<ID>, pos: int, delLen: int, ghost cs: seq<Call>, ghost outcome: Run)
      returns (err: Option<Error>)
      requires Valid() && |ids| >= 2 && ids[0] in model.table && model.table[ids[0]] == k && |cs| == |ids|
      requires cs[0] == Call(ids[0], pos, ids[0].length - pos)
      requires forall j :: 0 < j < |ids| - 1 ==> cs[j] == Call(ids[j], 0, ids[j].length)
      requires cs[|cs| - 1] == Call(ids[|ids| - 1], 0, LastLength(ids, pos, delLen))
      requires outcome == CallsFrom(model.State(), cs, 0) && outcome.Done?
      modifies model
      ensures outcome == Done(model.State(), err)
    {
      var sum;
      sum, err := DeleteLeading(k, ids, pos, cs);
      if err.Some? {
        return;
      }
      CallsLast(model.State(), cs);
      err := LastCall(ids[|ids| - 1], delLen - sum, cs[|cs| - 1]);
    }

    /** The first identifier of rgass.go RemoteDelete, its node losing the range from `pos`
      * to its end, then the interior ones; the lengths deleted are summed. */
    method DeleteLeading(k: nat, ids: seq<ID>, pos: int, ghost cs: seq<Call>) returns (sum: int, err: Option<Error>)
      requires Valid() && |ids| >= 2 && ids[0] in model.table && model.table[ids[0]] == k && |cs| == |ids|
      requires cs[0] == Call(ids[0], pos, ids[0].length - pos)
      requires forall j :: 0 < j < |ids| - 1 ==> cs[j] == Call(ids[j], 0, ids[j].length)
      requires CallsFrom(model.State(), cs, 0).Done?
      modifies model
      ensures err.Some? ==> err == Some(NotFound) && CallsFrom(old(model.State()), cs, 0) == Done(model.State(), err)
      ensures err.None? ==> Valid() && CallsFrom(model.State(), cs, |cs| - 1) == CallsFrom(old(model.State()), cs, 0)
      ensures err.None? ==> sum == ids[0].length - pos + SumLength(ids[1..|ids| - 1])
    {
      TableLinked(model.State(), ids[0]);
      var len := Length(model.nodes[k]);
      DeleteCall(k, pos, len - pos, cs, 0, 1);
      sum, err := DeleteInterior(ids, len - pos, cs);
    }

    /** The last identifier of rgass.go RemoteDelete: its node loses the prefix `lastLen`. */
    method LastCall(last: ID, lastLen: int, ghost c: Call) returns (err: Option<Error>)
      requires Valid() && c == Call(last, 0, lastLen) && CallOne(model.State(), c).Done?
      modifies model
      ensures CallOne(old(model.State()), c) == Done(model.State(), err)
    {
      var lastNode := model.Get(last);
      if lastNode.None? {
        return Some(NotFound);
      }
      var ignored := DoDelete(lastNode.value, 0, lastLen, |model.nodes|);
      err := None;
    }

    /** The loop over the interior identifiers of rgass.go RemoteDelete: each node loses
      * its whole extent and its length joins `sumLen`; an unknown identifier stops it. */
    method DeleteInterior(ids: seq<ID>, sumLen: int, ghost cs: seq<Call>) returns (sum: int, err: Option<Error>)
      requires Valid() && |ids| >= 2 && |cs| == |ids|
      requires forall j :: 0 < j < |ids| - 1 ==> cs[j] == Call(ids[j], 0, ids[j].length)
      requires CallsFrom(model.State(), cs, 1).Done?
      modifies model
      ensures err.Some? ==> err == Some(NotFound) && CallsFrom(old(model.State()), cs, 1) == Done(model.State(), err)
      ensures err.None? ==> Valid() && CallsFrom(model.State(), cs, |cs| - 1) == CallsFrom(old(model.State()), cs, 1)
      ensures err.None? ==> sum == sumLen + SumLength(ids[1..|ids| - 1])
    {
      ghost var s0 := model.State();
      var i := 1;
      sum := sumLen;
      while i < |ids| - 1
        invariant Valid() && 1 <= i <= |ids| - 1 && CallsFrom(model.State(), cs, i) == CallsFrom(s0, cs, 1)
        invariant sum == sumLen + SumLength(ids[1..i])
      {
        SumLengthStep(ids, i);
        var tLen;
        tLen, err := InteriorCall(ids[i], cs, i);
        if err.Some? {
          return;
        }
        sum, i := sum + tLen, i + 1;
      }
      err := None;
    }

    /** One interior identifier of rgass.go RemoteDelete: an unknown identifier stops the
      * deletion; a known one's node loses its whole extent, whose length is returned. */
    method InteriorCall(id: ID, ghost cs: seq<Call>, ghost i: nat) returns (tLen: int, err: Option<Error>)
      requires Valid() && i < |cs| && cs[i].id == id && cs[i].pos == 0 && cs[i].delLen == id.length
      requires CallsFrom(model.State(), cs, i).Done?
      modifies model
      ensures err.Some? ==> err == Some(NotFound) && CallsFrom(old(model.State()), cs, i) == Done(model.State(), err)
      ensures err.None? ==> Valid() && tLen == id.length && CallsFrom(model.State(), cs, i + 1) == CallsFrom(old(model.State()), cs, i)
    {
      var t := model.Get(id);
      if t.None? {
        return 0, Some(NotFound);
      }
      tLen := Length(model.nodes[t.value]);
      DeleteCall(t.value, 0, tLen, cs, i, i + 1);
      err := None;
    }

    /** One doDelete call of rgass.go RemoteDelete, made on node `k` that the `i`-th call's
      * identifier resolves to; its error is discarded. */
    method DeleteCall(k: nat, pos: int, delLen: int, ghost cs: seq<Call>, ghost i: nat, ghost next: nat)
      requires Valid() && i < |cs| && next == i + 1 && cs[i].pos == pos && cs[i].delLen == delLen
      requires cs[i].id in model.table && model.table[cs[i].id] == k
      requires CallsFrom(model.State(), cs, i).Done?
      modifies model
      ensures Valid() && CallsFrom(model.State(), cs, next) == CallsFrom(old(model.State()), cs, i)
    {
      TableLinked(model.State(), cs[i].id);
      var ignored := DoDelete(k, pos, delLen, |model.nodes|);
    }

    /** rgass.go Text: the text of the visible nodes from the head up to the tail. */
    method Text() returns (str: string)
      requires Valid()
      ensures str == TextSt(model.State())
    {
      var walk := model.Iter();
      str := "";
      var i := 0;
      while i < |walk|
        invariant i <= |walk| && str == TextOf(model.nodes, walk[..i])
      {
        var node := walk[i];
        assert node < |model.nodes|;
        if !model.nodes[node].hidden {
          str := str + model.nodes[node].str;
        }
        assert walk[..i + 1] == walk[..i] + [node];
        TextOfAppend(model.nodes, walk[..i], [node]);
        TextOfCons(model.nodes, [node]);
        assert [node][1..] == [];
        i := i + 1;
      }
      assert walk[..i] == walk;
    }
  }
}
