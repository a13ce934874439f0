/** The operations of rgass/rgass.go as functions on model states: what each local or remote
  * insert and delete leaves behind, including the error it reports, the Go runtime panics
  * it runs into, and the states this model does not cover. Every operation is proved to
  * keep the invariant and to grow the state (no node, table entry or link is ever lost). */
module Edits {
  import opened Ids
  import opened Nodes
  import opened Arena
  import opened Splits

  /** A run that finishes keeps the invariant and grows out of `s`. */
  ghost predicate Fine(s: St, r: Run)
  {
    r.Done? ==> Good(r.st) && Grows(s, r.st)
  }

  lemma GrowsRefl(s: St)
    ensures Grows(s, s)
  {
    assert Keeps(s.nodes, s.nodes) by {
      forall j | 0 <= j < |s.nodes| ensures Kept(s.nodes[j], s.nodes[j]) {
      }
    }
  }

  lemma FineTrans(s: St, s1: St, r: Run)
    requires Grows(s, s1) && Fine(s1, r)
    ensures Fine(s, r)
  {
    if r.Done? {
      GrowsTrans(s, s1, r.st);
    }
  }

  /** A run whose error the caller discards (rgass.go ignores what model.go Replace returns). */
  function Quiet(r: Run): (q: Run)
    ensures q.Done? <==> r.Done?
    ensures q.Done? ==> q.st == r.st && q.err.None?
    ensures !q.Done? ==> q == r
  {
    if r.Done? then Done(r.st, None) else r
  }

  /** InsertAfter of a single new leaf keeps the invariant and grows the state. */
  lemma InsertOneFine(s: St, tar: nat, n: Node)
    requires Good(s) && InsertReady(s, tar, [n]) && LeafRecord(n)
    ensures var o := InsertAfterSt(s, tar, [n]); Fine(s, Done(o.st, o.err))
  {
    var o := InsertAfterSt(s, tar, [n]);
    InsertAfterGood(s, tar, [n]);
    if s.nodes[tar].id !in s.table || n.id in s.table {
      GrowsRefl(s);
    } else {
      InsertOneGood(s, tar, n);
      InsertOneShape(s, tar, n);
      assert [n][0] == n && [n][1..] == [];
      assert InsertAll(s, tar, [n]) == InsertAll(InsertOne(s, tar, n), |s.nodes|, []);
      assert o.st == InsertOne(s, tar, n);
      ExtendsKeeps(s.nodes, o.st.nodes);
    }
  }

  /** A two-way split without tombstones followed by InsertAfter of the new node after the
    * first part (the last three steps of rgass.go doInsert). */
  function SplitInsert(s: St, k: nat, pos: int, n: Node): (r: Run)
    requires Good(s) && k < |s.nodes| && k != TailIx && LeafRecord(n)
    ensures Fine(s, r)
  {
    match Split2(s, k, Neither, pos)
    case SlicePanic => Panics
    case Refused(e) => GrowsRefl(s); Done(s, Some(e))
    case Cut(P) =>
      Split2Parts(s, k, Neither, pos);
      Cut2Good(s, k, Neither, pos);
      Cut2Effect(s, k, Neither, pos);
      SplitReplaceLinked(s, k, P.parent, [P.first, P.last]);
      var r1 := SplitReplace(s, k, P.parent, [P.first, P.last]);
      assert r1 == Cut2(s, k, Neither, pos);
      if r1.Done? && r1.err.None? then
        var o := InsertAfterSt(r1.st, |s.nodes|, [n]);
        InsertOneFine(r1.st, |s.nodes|, n);
        FineTrans(s, r1.st, Done(o.st, o.err));
        Done(o.st, o.err)
      else r1
  }

  /** rgass.go doInsert: the new node goes right after a sentinel or after a node whose end
    * `pos` designates; otherwise the node is split at `pos` and the new node goes after the
    * first part. InsertAfter on the registered tail sentinel dereferences its nil successor;
    * a tail that is no sentinel is not covered. */
  function DoInsertSt(s: St, k: nat, pos: int, str: string, id: ID): (r: Run)
    requires Good(s) && k < |s.nodes|
    ensures Fine(s, r)
  {
    var n := NewNode(id, str);
    var node := s.nodes[k];
    if node.sentinel || pos == Length(node) then
      if LinkedIfRegistered(s, k) then
        var o := InsertAfterSt(s, k, [n]);
        InsertOneFine(s, k, n);
        Done(o.st, o.err)
      else if k == TailIx then Panics
      else Unmodelled
    else if k == TailIx then Unmodelled
    else SplitInsert(s, k, pos, n)
  }

  /** rgass.go LocalInsert: the target is looked up in the table and doInsert runs on it. */
  function LocalInsertSt(s: St, tarID: ID, pos: int, str: string, id: ID): (r: Run)
    requires Good(s)
    ensures Fine(s, r)
    ensures tarID !in s.table ==> r == Done(s, Some(NotFound))
  {
    if tarID !in s.table then GrowsRefl(s); Done(s, Some(NotFound))
    else
      TableLinked(s, tarID);
      DoInsertSt(s, s.table[tarID], pos, str, id)
  }

  /** rgass.go RemoteInsert: model.go FindNode resolves the target and the position to a leaf,
    * and doInsert runs on that leaf at the position less the leaf's ancestor offset. The
    * source reads that offset before it checks the error, so an unknown target panics. */
  function RemoteInsertSt(s: St, tarID: ID, pos: int, str: string, id: ID): (r: Run)
    requires Good(s)
    ensures Fine(s, r)
    ensures tarID !in s.table ==> r == Panics
    ensures tarID in s.table && pos > Length(s.nodes[s.table[tarID]]) ==>
      r == Done(s, Some(PositionOutsideNode))
  {
    if tarID !in s.table then Panics
    else
      TableLinked(s, tarID);
      var k := s.table[tarID];
      if pos > Length(s.nodes[k]) then GrowsRefl(s); Done(s, Some(PositionOutsideNode))
      else
        match Descend(s.nodes, k, pos)
        case None => Panics
        case Some(leaf) => DoInsertSt(s, leaf, pos - s.nodes[leaf].ancestorOffset, str, id)
  }

  /** `u` is the text `t` with `v` entered at some point at or after position `lo`. */
  ghost predicate EnteredFrom(t: string, u: string, v: string, lo: int)
  {
    exists q :: 0 <= q && lo <= q <= |t| && u == t[..q] + v + t[q..]
  }

  /** How much of node `n`'s own text precedes a string doInsert enters at `pos`: all of it
    * after a sentinel or at the node's end, otherwise the first `pos` characters, none of
    * which show when the node is deleted. */
  function Lead(n: Node, pos: int): int
  {
    if n.sentinel || pos == Length(n) then |Visible(n)|
    else if n.hidden then 0
    else pos
  }

  /** A split-and-replace that succeeds acted on a linked node other than the tail. */
  lemma SplitReplaceLinkedNode(s: St, k: nat, p: Node, cs: seq<Node>)
    requires Linkable(s) && k < |s.nodes| && p.next == s.nodes[k].next && p.prev == s.nodes[k].prev
    requires p.id == s.nodes[k].id && |cs| >= 1
    requires SplitReplace(s, k, p, cs).Done? && SplitReplace(s, k, p, cs).err.None?
    ensures k in s.order && k != TailIx
  {
    SplitAtEffect(s, k, p, cs);
    var s1 := SplitAt(s, k, p, cs);
    ReplaceErrors(s1, k, PartIndices(|s.nodes|, |cs|));
  }

  /** The text of the order after a two-way split of the `i`-th node, up to and including
    * the first part: the text before the node, then the first part's. */
  lemma FirstPartText(s: St, k: nat, p: Node, f: Node, l: Node, i: nat, r: St)
    requires InRange(s.nodes, s.order) && i + 1 < |s.order| && s.order[i] == k && k < |s.nodes|
    requires k !in s.order[..i] && p.hidden
    requires r.order == s.order[..i + 1] + PartIndices(|s.nodes|, 2) + s.order[i + 1..]
    requires SameButLinks(s.nodes[k := p] + [f, l], r.nodes)
    ensures TextOf(r.nodes, r.order[..i + 2]) == TextOf(s.nodes, s.order[..i]) + Visible(f)
  {
    var b, fi := s.nodes[k := p] + [f, l], |s.nodes|;
    assert PartIndices(fi, 2) == [fi, fi + 1];
    var pre := r.order[..i + 2];
    assert pre == s.order[..i] + [k, fi];
    TextOfSameButLinks(b, r.nodes, pre);
    TextOfAppend(b, s.order[..i], [k, fi]);
    TextOfCons(b, [k, fi]);
    assert [k, fi][1..] == [fi];
    TextOfCons(b, [fi]);
    assert [fi][1..] == [];
    TextBefore(s.nodes, b, s.order, i);
  }

  /** A placement whose stop lies at or after `lo` enters the text at or after `lo`. */
  lemma EnteredFromAt(s: St, r: St, v: string, i: nat, j: nat, lo: int)
    requires i <= j && j + 1 < |s.order| && EnteredAt(s, r, v, i, j)
    requires lo <= |TextOf(s.nodes, s.order[..j + 1])|
    ensures EnteredFrom(TextSt(s), TextSt(r), v, lo)
  {
    var q := |TextOf(s.nodes, s.order[..j + 1])|;
    assert lo <= q <= |TextSt(s)|;
  }

  /** A state whose order lists the two parts of the tombstoned node `k` right after it, and
    * whose nodes differ from the split arena only in their links, shows the text of `s` when
    * the parts show the node's text; its text up to the first part is the text before the
    * node and the first part's. */
  lemma TwoPartsText(s: St, k: nat, p: Node, f: Node, l: Node, i: nat, r: St)
    requires InRange(s.nodes, s.order) && i + 1 < |s.order| && s.order[i] == k && k < |s.nodes|
    requires k !in s.order[..i] && k !in s.order[i + 1..|s.order| - 1] && p.hidden
    requires r.order == s.order[..i + 1] + PartIndices(|s.nodes|, 2) + s.order[i + 1..]
    requires SameButLinks(s.nodes[k := p] + [f, l], r.nodes)
    requires Visible(f) + Visible(l) == Visible(s.nodes[k])
    ensures TextSt(r) == TextSt(s)
    ensures TextOf(r.nodes, r.order[..i + 2]) == TextOf(s.nodes, s.order[..i]) + Visible(f)
  {
    PartsReplaceText(s.nodes, s.order, k, p, [f, l], i, r);
    TextAround(s.nodes, s.order, i);
    assert VisibleAll([f, l]) == Visible(f) + Visible(l) by {
      assert [f, l][1..] == [l] && [l][1..] == [];
      assert VisibleAll([l]) == Visible(l) + VisibleAll([]);
    }
    FirstPartText(s, k, p, f, l, i, r);
  }

  /** A two-way split-and-replace that succeeds lists the parts right after the node. */
  lemma TwoPartsPlaced(s: St, k: nat, p: Node, f: Node, l: Node)
    requires Linkable(s) && k < |s.nodes| && p.next == s.nodes[k].next && p.prev == s.nodes[k].prev
    requires p.id == s.nodes[k].id
    requires SplitReplace(s, k, p, [f, l]).Done? && SplitReplace(s, k, p, [f, l]).err.None?
    ensures k in s.order && IndexOf(s.order, k) + 1 < |s.order|
    ensures var i := IndexOf(s.order, k); var fi := |s.nodes|;
      SplitReplace(s, k, p, [f, l]).st.order == s.order[..i + 1] + [fi, fi + 1] + s.order[i + 1..]
  {
    SplitReplaceLinkedNode(s, k, p, [f, l]);
    var i := IndexOf(s.order, k);
    assert s.order[|s.order| - 1] == TailIx;
    SplitReplaceShape(s, k, p, [f, l], i);
    assert PartIndices(|s.nodes|, 2) == [|s.nodes|, |s.nodes| + 1];
  }

  /** In a distinct order with a run spliced in after position `i`, the run's first element
    * sits at position `i + 1`. */
  lemma SpliceFirst(o: seq<nat>, i: nat, x: nat, y: nat, o': seq<nat>)
    requires i + 1 < |o| && o' == o[..i + 1] + [x, y] + o[i + 1..] && Distinct(o')
    ensures x in o' && IndexOf(o', x) == i + 1 && i + 2 < |o'|
  {
    assert o'[i + 1] == x;
    IndexOfDistinct(o', i + 1);
  }

  /** A two-way split-and-replace that succeeds, whose parts show the node's text, keeps the
    * text, and the text up to the first part is the text before the node and the first
    * part's. */
  lemma TwoPartsShown(s: St, k: nat, p: Node, f: Node, l: Node)
    requires Linkable(s) && k < |s.nodes| && p.next == s.nodes[k].next && p.prev == s.nodes[k].prev
    requires p.id == s.nodes[k].id && p.hidden && Visible(f) + Visible(l) == Visible(s.nodes[k])
    requires SplitReplace(s, k, p, [f, l]).Done? && SplitReplace(s, k, p, [f, l]).err.None?
    ensures var r := SplitReplace(s, k, p, [f, l]).st;
      && k in s.order && IndexOf(s.order, k) + 2 <= |r.order|
      && TextSt(r) == TextSt(s)
      && TextOf(r.nodes, r.order[..IndexOf(s.order, k) + 2]) ==
           TextOf(s.nodes, s.order[..IndexOf(s.order, k)]) + Visible(f)
  {
    SplitReplaceLinkedNode(s, k, p, [f, l]);
    var r := SplitReplace(s, k, p, [f, l]).st;
    var i := IndexOf(s.order, k);
    assert s.order[|s.order| - 1] == TailIx;
    SplitReplaceShape(s, k, p, [f, l], i);
    TwoPartsText(s, k, p, f, l, i, r);
  }

  /** A two-way split-and-replace that succeeds, whose parts show the node's text, keeps the
    * text and lists the first part right after the node. */
  lemma TwoPartsKeep(s: St, k: nat, p: Node, f: Node, l: Node)
    requires Linkable(s) && k < |s.nodes| && p.next == s.nodes[k].next && p.prev == s.nodes[k].prev
    requires p.id == s.nodes[k].id && p.hidden && Visible(f) + Visible(l) == Visible(s.nodes[k])
    requires SplitReplace(s, k, p, [f, l]).Done? && SplitReplace(s, k, p, [f, l]).err.None?
    requires Linkable(SplitReplace(s, k, p, [f, l]).st)
    ensures var r := SplitReplace(s, k, p, [f, l]).st; var i := IndexOf(s.order, k);
      && k in s.order && |s.nodes| in r.order
      && IndexOf(r.order, |s.nodes|) == i + 1 && i + 2 < |r.order|
      && TextSt(r) == TextSt(s)
      && TextOf(r.nodes, r.order[..i + 2]) == TextOf(s.nodes, s.order[..i]) + Visible(f)
  {
    TwoPartsPlaced(s, k, p, f, l);
    var r := SplitReplace(s, k, p, [f, l]).st;
    SpliceFirst(s.order, IndexOf(s.order, k), |s.nodes|, |s.nodes| + 1, r.order);
    TwoPartsShown(s, k, p, f, l);
  }

  /** The two-way split without tombstones that doInsert makes, when it succeeds, keeps the
    * text and lists the first part right after the node, so that the text up to that part
    * is the text before the node and the first `pos` characters of the node's. */
  lemma SplitKeepsText(s: St, k: nat, pos: int)
    requires Good(s) && k < |s.nodes| && k != TailIx
    requires Cut2(s, k, Neither, pos).Done? && Cut2(s, k, Neither, pos).err.None?
    ensures var r := Cut2(s, k, Neither, pos).st; var i := IndexOf(s.order, k);
      && k in s.order && Linkable(r) && |s.nodes| in r.order && |s.nodes| != TailIx
      && IndexOf(r.order, |s.nodes|) == i + 1 && i + 2 < |r.order|
      && TextSt(r) == TextSt(s)
      && |TextOf(r.nodes, r.order[..i + 2])| ==
           |TextOf(s.nodes, s.order[..i])| + (if s.nodes[k].hidden then 0 else pos)
  {
    Split2Neither(s, k, pos, s.nodes[k], |s.nodes|);
    var P := Split2(s, k, Neither, pos).parts;
    assert Cut2(s, k, Neither, pos) == SplitReplace(s, k, P.parent, [P.first, P.last]);
    Cut2Effect(s, k, Neither, pos);
    TwoPartsKeep(s, k, P.parent, P.first, P.last);
  }

  /** The text after the split-and-insert of rgass.go doInsert: the parts show the node's
    * text, and the new node's text enters it at or after the end of the first part's. */
  lemma SplitInsertText(s: St, k: nat, pos: int, n: Node)
    requires Good(s) && k < |s.nodes| && k != TailIx && LeafRecord(n)
    requires SplitInsert(s, k, pos, n).Done? && SplitInsert(s, k, pos, n).err.None?
    ensures k in s.order
    ensures EnteredFrom(TextSt(s), TextSt(SplitInsert(s, k, pos, n).st), Visible(n),
      |TextOf(s.nodes, s.order[..IndexOf(s.order, k)])| + (if s.nodes[k].hidden then 0 else pos))
  {
    var r1 := Cut2(s, k, Neither, pos);
    assert r1.Done? && r1.err.None?;
    SplitKeepsText(s, k, pos);
    var fi := |s.nodes|;
    var i := IndexOf(s.order, k);
    var r := SplitInsert(s, k, pos, n);
    assert r.st == InsertAfterSt(r1.st, fi, [n]).st;
    InsertAfterText(r1.st, fi, n);
    var j := Place(r1.st, fi, n.id);
    PlacementText(r1.st.nodes, r1.st.order, i + 1, j);
    EnteredFromAt(r1.st, r.st, Visible(n), i + 1, j,
      |TextOf(s.nodes, s.order[..i])| + (if s.nodes[k].hidden then 0 else pos));
  }

  /** InsertAfter of one node after node `k` enters its text at or after the end of the
    * text up to and including node `k`. */
  lemma AfterNodeText(s: St, k: nat, n: Node)
    requires InsertReady(s, k, [n]) && InsertAfterSt(s, k, [n]).err.None?
    ensures k in s.order
    ensures EnteredFrom(TextSt(s), TextSt(InsertAfterSt(s, k, [n]).st), Visible(n),
      |TextOf(s.nodes, s.order[..IndexOf(s.order, k)])| + |Visible(s.nodes[k])|)
  {
    InsertAfterErrors(s, k, [n]);
    InsertAfterText(s, k, n);
    var i := IndexOf(s.order, k);
    var j := Place(s, k, n.id);
    assert s.order[..i + 1] == s.order[..i] + [k];
    TextOfAppend(s.nodes, s.order[..i], [k]);
    TextOfCons(s.nodes, [k]);
    assert [k][1..] == [];
    PlacementText(s.nodes, s.order, i, j);
    EnteredFromAt(s, InsertAfterSt(s, k, [n]).st, Visible(n), i, j,
      |TextOf(s.nodes, s.order[..i])| + |Visible(s.nodes[k])|);
  }

  /** rgass.go doInsert on success enters the new string into the text, after the text that
    * precedes the target and the target's own text up to `pos`, possibly further on past
    * nodes whose identifiers compare greater. */
  lemma DoInsertText(s: St, k: nat, pos: int, str: string, id: ID)
    requires Good(s) && k < |s.nodes|
    requires DoInsertSt(s, k, pos, str, id).Done? && DoInsertSt(s, k, pos, str, id).err.None?
    ensures k in s.order && k != TailIx
    ensures EnteredFrom(TextSt(s), TextSt(DoInsertSt(s, k, pos, str, id).st), str,
      |TextOf(s.nodes, s.order[..IndexOf(s.order, k)])| + Lead(s.nodes[k], pos))
  {
    var n := NewNode(id, str);
    var node := s.nodes[k];
    if node.sentinel || pos == Length(node) {
      assert LinkedIfRegistered(s, k);
      assert DoInsertSt(s, k, pos, str, id).st == InsertAfterSt(s, k, [n]).st;
      InsertAfterErrors(s, k, [n]);
      AfterNodeText(s, k, n);
    } else {
      SplitInsertText(s, k, pos, n);
    }
  }

  /** rgass.go LocalInsert on success enters the new string at or after the target's text
    * up to `pos`. */
  lemma LocalInsertText(s: St, tarID: ID, pos: int, str: string, id: ID)
    requires Good(s)
    requires LocalInsertSt(s, tarID, pos, str, id).Done? && LocalInsertSt(s, tarID, pos, str, id).err.None?
    ensures tarID in s.table && s.table[tarID] in s.order
    ensures var k := s.table[tarID];
      EnteredFrom(TextSt(s), TextSt(LocalInsertSt(s, tarID, pos, str, id).st), str,
        |TextOf(s.nodes, s.order[..IndexOf(s.order, k)])| + Lead(s.nodes[k], pos))
  {
    TableLinked(s, tarID);
    DoInsertText(s, s.table[tarID], pos, str, id);
  }

  /** rgass.go RemoteInsert on success enters the new string at or after the text of the
    * leaf that holds `pos`, up to `pos` less the leaf's ancestor offset. */
  lemma RemoteInsertText(s: St, tarID: ID, pos: int, str: string, id: ID)
    requires Good(s)
    requires RemoteInsertSt(s, tarID, pos, str, id).Done? && RemoteInsertSt(s, tarID, pos, str, id).err.None?
    ensures tarID in s.table && s.table[tarID] < |s.nodes| && Descend(s.nodes, s.table[tarID], pos).Some?
    ensures var leaf := Descend(s.nodes, s.table[tarID], pos).value;
      && leaf < |s.nodes| && leaf in s.order
      && EnteredFrom(TextSt(s), TextSt(RemoteInsertSt(s, tarID, pos, str, id).st), str,
           |TextOf(s.nodes, s.order[..IndexOf(s.order, leaf)])|
           + Lead(s.nodes[leaf], pos - s.nodes[leaf].ancestorOffset))
  {
    TableLinked(s, tarID);
    var leaf := Descend(s.nodes, s.table[tarID], pos).value;
    DoInsertText(s, leaf, pos - s.nodes[leaf].ancestorOffset, str, id);
  }

  /** The unsplit case of rgass.go doDelete: the four ranges a node can lose, and an error
    * for every other range. */
  function DeleteLeaf(s: St, k: nat, pos: int, delLen: int): (r: Run)
    requires Good(s) && k < |s.nodes| && k != TailIx
    ensures Fine(s, r)
    ensures r == Done(s, Some(RangeExceedsNode)) <==> pos < 0 || pos + delLen > Length(s.nodes[k])
  {
    var len := Length(s.nodes[k]);
    if pos == 0 && delLen == len then
      HideEffect(s, k);
      HideGood(s, k);
      Done(HideAt(s, k), None)
    else if pos == 0 && delLen < len then
      Cut2Good(s, k, Prior, delLen);
      Cut2Effect(s, k, Prior, delLen);
      Cut2(s, k, Prior, delLen)
    else if pos > 0 && pos + delLen == len then
      Cut2Good(s, k, Last, pos);
      Cut2Effect(s, k, Last, pos);
      Cut2(s, k, Last, pos)
    else if pos > 0 && pos + delLen < len then
      Cut3Good(s, k, pos, delLen);
      Cut3Effect(s, k, pos, delLen);
      Cut3(s, k, pos, delLen)
    else
      GrowsRefl(s);
      Done(s, Some(RangeExceedsNode))
  }

  /** rgass.go doDelete: a leaf loses the range directly; a split node passes the range on to
    * the children it covers (DeleteChildren). The recursion descends the split tree, which
    * the arena's index order makes finite; `fuel` stands for that bound. */
  function DoDeleteSt(s: St, k: nat, pos: int, delLen: int, fuel: nat): (r: Run)
    requires Good(s) && k < |s.nodes| && k != TailIx
    ensures Fine(s, r)
    decreases fuel, 2, 0
  {
    if fuel == 0 then Unmodelled
    else if !s.nodes[k].split then DeleteLeaf(s, k, pos, delLen)
    else DeleteChildren(s, k, pos, delLen, fuel)
  }

  /** One recursive doDelete call: a child (`None` for the absent third child of a two-way
    * split, a nil pointer in the source) and the range to delete from it. */
  datatype Step = Step(child: Option<nat>, pos: int, delLen: int)

  /** The recursive calls rgass.go doDelete makes on a split node with children `l` of
    * lengths `lens`, in order, for each of the six ways the range can lie across them; `None`
    * for a range that fits none of them. */
  function Plan(l: seq<nat>, lens: seq<int>, pos: int, delLen: int): (r: Option<seq<Step>>)
    requires 2 <= |l| <= 3 && |lens| == |l|
    ensures r.Some? ==> 1 <= |r.value| <= 3
    ensures r.Some? ==> forall i :: 0 <= i < |r.value| && r.value[i].child.Some? ==> r.value[i].child.value in l
    ensures r.Some? ==> r.value[0].child.Some?
    ensures r.Some? ==> forall i :: 0 < i < |r.value| ==> r.value[i].pos == 0
  {
    var c2 := if |l| == 3 then Some(l[2]) else None;
    var c0Len, c1Len := lens[0], lens[1];
    if pos <= c0Len && pos + delLen <= c0Len then
      Some([Step(Some(l[0]), pos, delLen)])
    else if pos <= c0Len && delLen - (c0Len - pos) <= c1Len then
      Some([Step(Some(l[0]), pos, c0Len - pos), Step(Some(l[1]), 0, delLen - (c0Len - pos))])
    else if pos <= c0Len then
      // c1's identifier, and so its length, is the one read before the first call
      var firstLen := c0Len - pos;
      Some([Step(Some(l[0]), pos, firstLen), Step(Some(l[1]), 0, c1Len), Step(c2, 0, delLen - firstLen - c1Len)])
    else if pos - c0Len <= c1Len && pos - c0Len + delLen <= c1Len then
      Some([Step(Some(l[1]), pos - c0Len, delLen)])
    else if pos - c0Len <= c1Len then
      var firstPos := pos - c0Len;
      Some([Step(Some(l[1]), firstPos, c1Len - firstPos), Step(c2, 0, delLen - (c1Len - firstPos))])
    else if |l| == 3 && pos > c0Len + c1Len && pos - c0Len - c1Len + delLen <= lens[2] then
      Some([Step(Some(l[2]), pos - c0Len - c1Len, delLen)])
    else None
  }

  /** The lengths of the nodes `l`. */
  function Lens(nodes: seq<Node>, l: seq<nat>): (lens: seq<int>)
    requires forall i :: 0 <= i < |l| ==> l[i] < |nodes|
    ensures |lens| == |l| && forall i :: 0 <= i < |l| ==> lens[i] == Length(nodes[l[i]])
  {
    if l == [] then [] else [Length(nodes[l[0]])] + Lens(nodes, l[1..])
  }

  /** Children that may be passed to doDelete: split parts, never a sentinel. */
  ghost predicate Steppable(s: St, steps: seq<Step>)
  {
    forall i :: 0 <= i < |steps| && steps[i].child.Some? ==> TailIx < steps[i].child.value < |s.nodes|
  }

  /** The recursive calls of a split node's doDelete, one after the other, stopping at the
    * first error (and at a nil child, where the source panics). */
  function RunSteps(s: St, steps: seq<Step>, fuel: nat): (r: Run)
    requires Good(s) && Steppable(s, steps)
    ensures Fine(s, r)
    decreases fuel, 3, |steps|
  {
    if steps == [] then GrowsRefl(s); Done(s, None)
    else if steps[0].child.None? then Panics
    else
      match DoDeleteSt(s, steps[0].child.value, steps[0].pos, steps[0].delLen, fuel)
      case Done(s1, None) =>
        var r := RunSteps(s1, steps[1..], fuel);
        FineTrans(s, s1, r);
        r
      case other => other
  }

  /** The split-node case of rgass.go doDelete: the calls Plan chooses, or an error for a
    * range that fits no case. */
  function DeleteChildren(s: St, k: nat, pos: int, delLen: int, fuel: nat): (r: Run)
    requires Good(s) && k < |s.nodes| && k != TailIx && s.nodes[k].split && fuel >= 1
    ensures Fine(s, r)
    decreases fuel, 1, 0
  {
    assert ShapeAt(s.nodes, k);
    var l := s.nodes[k].list;
    match Plan(l, Lens(s.nodes, l), pos, delLen)
    case None => GrowsRefl(s); Done(s, Some(RangeExceedsNode))
    case Some(steps) => RunSteps(s, steps, fuel - 1)
  }

  /** The children of a split node, and the calls planned on them, are split parts. */
  lemma PlanSteppable(s: St, k: nat, pos: int, delLen: int)
    requires Arena.Arena(s.nodes) && k < |s.nodes| && s.nodes[k].split
    ensures var l := s.nodes[k].list;
      && 2 <= |l| <= 3 && (forall i :: 0 <= i < |l| ==> l[i] < |s.nodes|)
      && var p := Plan(l, Lens(s.nodes, l), pos, delLen);
         p.Some? ==> Steppable(s, p.value)
  {
    assert ShapeAt(s.nodes, k);
  }

  /** What rgass.go LocalDelete returns besides the new state: the nodes the deletion touched,
    * for broadcast, and the deleted length counting the tombstones it stepped over. */
  datatype Deleted = Deleted(run: Run, list: seq<nat>, effectiveLen: int)

  /** The overflow walk of rgass.go LocalDelete at position `j` of the document order with
    * `rem` characters still to delete: a node shorter than `rem` is tombstoned whole, and the
    * node that covers the rest loses a prefix, its Replace error discarded. */
  function Walk(s: St, j: nat, rem: int, eff: int, list: seq<nat>): (d: Deleted)
    requires Good(s) && j < |s.order| && rem > 0
    ensures Fine(s, d.run) && (d.run.Done? ==> d.run.err.None?)
    ensures |d.list| >= |list| && d.list[..|list|] == list
    decreases |s.order| - j, 0
  {
    var node := s.order[j];
    var len := Length(s.nodes[node]);
    if node == TailIx then
      // the tail is tombstoned and its nil successor dereferenced, or it would be split
      if rem > len then Deleted(Panics, list, eff) else Deleted(Unmodelled, list, eff)
    else if rem > len then
      HideEffect(s, node);
      HideGood(s, node);
      assert j + 1 < |s.order| by {
        assert s.order[|s.order| - 1] == TailIx;
      }
      var d := Skip(HideAt(s, node), j + 1, rem - len, eff, list);
      FineTrans(s, HideAt(s, node), d.run);
      d
    else
      Cut2Good(s, node, Prior, rem);
      Cut2Effect(s, node, Prior, rem);
      Deleted(Quiet(Cut2(s, node, Prior, rem)), list, eff)
  }

  /** The tombstone skipping of the overflow walk: hidden successors count towards the
    * effective length, and the first visible one joins the node list. */
  function Skip(s: St, j: nat, rem: int, eff: int, list: seq<nat>): (d: Deleted)
    requires Good(s) && j < |s.order| && rem > 0
    ensures Fine(s, d.run) && (d.run.Done? ==> d.run.err.None?)
    ensures |d.list| >= |list| && d.list[..|list|] == list
    decreases |s.order| - j, 1
  {
    var node := s.order[j];
    if s.nodes[node].hidden then
      assert j + 1 < |s.order| by {
        assert s.order[|s.order| - 1] == TailIx;
      }
      Skip(s, j + 1, rem, eff + Length(s.nodes[node]), list)
    else
      var d := Walk(s, j, rem, eff, list + [node]);
      assert d.list[..|list|] == (list + [node])[..|list|];
      d
  }

  /* Walk and Skip under names that do not recurse, for the statements about one turn of
   * the walk: stated with these, such a statement does not unfold the recursion. */

  function WalkOutcome(s: St, j: nat, rem: int, eff: int, list: seq<nat>): Deleted
    requires Good(s) && j < |s.order| && rem > 0
  {
    Walk(s, j, rem, eff, list)
  }

  function SkipOutcome(s: St, j: nat, rem: int, eff: int, list: seq<nat>): Deleted
    requires Good(s) && j < |s.order| && rem > 0
  {
    Skip(s, j, rem, eff, list)
  }

  /** The successor of a linked node other than the tail is linked. */
  lemma NextLinked(s: St, k: nat)
    requires Linkable(s) && k in s.order && k != TailIx
    ensures s.nodes[k].next in s.order
  {
    var i := IndexOf(s.order, k);
    LinksPairs(s.nodes, s.order);
    assert s.order[|s.order| - 1] == TailIx;
    assert s.order[i + 1] == s.nodes[k].next;
  }

  /** The walk of the overflow case, from the node that followed the target before the
    * target lost its suffix. */
  function WalkFrom(s: St, s1: St, nx: nat, rem: int, delLen: int, k: nat): (d: Deleted)
    requires Good(s1) && Grows(s, s1) && nx in s.order && rem > 0
    ensures Fine(s, d.run) && (d.run.Done? ==> d.run.err.None?) && |d.list| >= 1 && d.list[0] == k
  {
    var d := Walk(s1, IndexOf(s1.order, nx), rem, delLen, [k]);
    FineTrans(s, s1, d.run);
    assert d.list[..1] == [k];
    d
  }

  /** One step of the overflow walk, unfolded: a node shorter than what remains is not the
    * tail, is tombstoned, and the skipping goes on from its successor. */
  lemma WalkHides(s: St, j: nat, rem: int, eff: int, list: seq<nat>)
    requires Good(s) && j < |s.order| && 0 < rem && rem > Length(s.nodes[s.order[j]]) && Walk(s, j, rem, eff, list).run.Done?
    ensures var node := s.order[j];
      && node != TailIx && node < |s.nodes|
      && j + 1 < |s.order| && s.nodes[node].next == s.order[j + 1] && Good(HideAt(s, node))
      && HideAt(s, node).order == s.order
      && Walk(s, j, rem, eff, list) == Skip(HideAt(s, node), j + 1, rem - Length(s.nodes[node]), eff, list)
  {
    var node := s.order[j];
    assert s.order[|s.order| - 1] == TailIx;
    LinksPairs(s.nodes, s.order);
    HideGood(s, node);
  }

  /** The last step of the walk, unfolded: the node reached is not the tail and a prefix of
    * the remaining length is split off it. */
  lemma WalkCuts(s: St, j: nat, rem: int, eff: int, list: seq<nat>)
    requires Good(s) && j < |s.order| && 0 < rem <= Length(s.nodes[s.order[j]]) && Walk(s, j, rem, eff, list).run.Done?
    ensures var node := s.order[j];
      && node != TailIx && node < |s.nodes| && Cut2(s, node, Prior, rem).Done?
      && Walk(s, j, rem, eff, list) == Deleted(Done(Cut2(s, node, Prior, rem).st, None), list, eff)
  {
  }

  /** One step of the tombstone skipping, unfolded. */
  lemma SkipStep(s: St, j: nat, rem: int, eff: int, list: seq<nat>)
    requires Good(s) && j < |s.order| && rem > 0 && s.nodes[s.order[j]].hidden
    ensures j + 1 < |s.order| && s.nodes[s.order[j]].next == s.order[j + 1]
    ensures Skip(s, j, rem, eff, list) == Skip(s, j + 1, rem, eff + Length(s.nodes[s.order[j]]), list)
  {
    assert s.order[|s.order| - 1] == TailIx;
    LinksPairs(s.nodes, s.order);
  }

  /** The overflow case unfolded: when it finishes, the suffix split finished, and what
    * remains is the walk from the target's old successor. */
  lemma OverflowStart(s: St, k: nat, pos: int, delLen: int, nx: nat, rem: int)
    requires Good(s) && k in s.order && k != TailIx && k < |s.nodes|
    requires pos + delLen > Length(s.nodes[k]) && Overflow(s, k, pos, delLen).run.Done?
    requires nx == s.nodes[k].next && rem == delLen - (Length(s.nodes[k]) - pos)
    ensures var r := Cut2(s, k, Last, pos);
      && r.Done? && Good(r.st) && nx in r.st.order && rem > 0
      && Overflow(s, k, pos, delLen) == WalkOutcome(r.st, IndexOf(r.st.order, nx), rem, delLen, [k])
  {
    NextLinked(s, k);
    Cut2Good(s, k, Last, pos);
    Cut2Effect(s, k, Last, pos);
  }

  /** The overflow case of rgass.go LocalDelete: the node loses its suffix from `pos` and the
    * walk goes on from the node's old successor. A rejected position leaves a zero second
    * part whose nil successor is dereferenced. */
  function Overflow(s: St, k: nat, pos: int, delLen: int): (d: Deleted)
    requires Good(s) && k in s.order && k != TailIx && k < |s.nodes|
    requires pos + delLen > Length(s.nodes[k])
    ensures Fine(s, d.run) && (d.run.Done? ==> d.run.err.None?) && |d.list| >= 1 && d.list[0] == k
  {
    var rem := delLen - (Length(s.nodes[k]) - pos);
    var nx := s.nodes[k].next;
    NextLinked(s, k);
    if !Split2(s, k, Last, pos).Cut? then Deleted(Panics, [k], delLen)
    else
      Cut2Good(s, k, Last, pos);
      Cut2Effect(s, k, Last, pos);
      match Cut2(s, k, Last, pos)
      case Done(s1, _) => WalkFrom(s, s1, nx, rem, delLen, k)
      case other => Deleted(other, [k], delLen)
  }

  /** rgass.go LocalDelete. The cases are tried in turn on the target's length, which no case
    * changes, so at most one applies; every Replace error is discarded, and the suffix case
    * passes `delLen` where the split position belongs, as the source does. */
  function LocalDeleteSt(s: St, tarID: ID, pos: int, delLen: int): (d: Deleted)
    requires Good(s)
    ensures Fine(s, d.run)
    ensures tarID !in s.table ==> d == Deleted(Done(s, Some(NotFound)), [], delLen)
    ensures tarID in s.table ==> |d.list| >= 1 && d.list[0] == s.table[tarID] && (d.run.Done? ==> d.run.err.None?)
  {
    if tarID !in s.table then GrowsRefl(s); Deleted(Done(s, Some(NotFound)), [], delLen)
    else
      TableLinked(s, tarID);
      var k := s.table[tarID];
      var len := Length(s.nodes[k]);
      if pos == 0 && delLen == len then
        HideEffect(s, k);
        HideGood(s, k);
        Deleted(Done(HideAt(s, k), None), [k], delLen)
      else if pos == 0 && delLen < len then
        Cut2Good(s, k, Prior, delLen);
        Cut2Effect(s, k, Prior, delLen);
        Deleted(Quiet(Cut2(s, k, Prior, delLen)), [k], delLen)
      else if pos > 0 && pos + delLen == len then
        Cut2Good(s, k, Last, delLen);
        Cut2Effect(s, k, Last, delLen);
        Deleted(Quiet(Cut2(s, k, Last, delLen)), [k], delLen)
      else if pos > 0 && pos + delLen < len then
        Cut3Good(s, k, pos, delLen);
        Cut3Effect(s, k, pos, delLen);
        Deleted(Quiet(Cut3(s, k, pos, delLen)), [k], delLen)
      else if pos > 0 then
        Overflow(s, k, pos, delLen)
      else
        GrowsRefl(s);
        Deleted(Done(s, None), [k], delLen)
  }

  /** One doDelete call of rgass.go RemoteDelete: the identifier whose node it deletes from
    * and the range. */
  datatype Call = Call(id: ID, pos: int, delLen: int)

  /** The sum of the lengths the identifiers record. */
  function SumLength(ids: seq<ID>): int
  {
    if ids == [] then 0 else SumLength(ids[..|ids| - 1]) + ids[|ids| - 1].length
  }

  /** One more interior identifier adds its length to the running sum. */
  lemma SumLengthStep(ids: seq<ID>, i: nat)
    requires 1 <= i < |ids|
    ensures SumLength(ids[1..i + 1]) == SumLength(ids[1..i]) + ids[i].length
  {
    assert ids[1..i + 1][..i - 1] == ids[1..i];
  }

  /** The sum of the lengths the calls delete. */
  function SumDel(cs: seq<Call>): int
  {
    if cs == [] then 0 else SumDel(cs[..|cs| - 1]) + cs[|cs| - 1].delLen
  }

  /** The calls rgass.go RemoteDelete makes for two or more identifiers: the first node loses
    * the range from `pos` to its end, each interior node its whole extent and the last node
    * the prefix that remains of `delLen`. A registered node's length is the length its
    * identifier records, so the calls depend on the identifiers alone. */
  function RemoteCalls(ids: seq<ID>, pos: int, delLen: int): (cs: seq<Call>)
    requires |ids| >= 2
    ensures |cs| == |ids|
    ensures cs[0] == Call(ids[0], pos, ids[0].length - pos)
    ensures forall i :: 0 < i < |ids| - 1 ==> cs[i] == Call(ids[i], 0, ids[i].length)
    ensures cs[|cs| - 1] ==
      Call(ids[|ids| - 1], 0, LastLength(ids, pos, delLen))
  {
    seq(|ids|, i requires 0 <= i < |ids| => RemoteCall(ids, pos, delLen, i))
  }

  /** The `i`-th call of RemoteCalls. */
  function RemoteCall(ids: seq<ID>, pos: int, delLen: int, i: nat): Call
    requires 2 <= |ids| && i < |ids|
  {
    if i == 0 then Call(ids[0], pos, ids[0].length - pos)
    else if i < |ids| - 1 then Call(ids[i], 0, ids[i].length)
    else Call(ids[i], 0, LastLength(ids, pos, delLen))
  }

  /** What remains of `delLen` for the last identifier once the first node has lost the range
    * from `pos` to its end and each interior node its whole extent. */
  function LastLength(ids: seq<ID>, pos: int, delLen: int): int
    requires |ids| >= 2
  {
    delLen - (ids[0].length - pos) - SumLength(ids[1..|ids| - 1])
  }

  /** The interior calls delete exactly the lengths of their identifiers. */
  lemma {:induction false} SumDelInterior(ids: seq<ID>, pos: int, delLen: int, n: nat)
    requires 1 <= n <= |ids| - 1
    ensures SumDel(RemoteCalls(ids, pos, delLen)[..n]) == (ids[0].length - pos) + SumLength(ids[1..n])
  {
    var cs := RemoteCalls(ids, pos, delLen);
    if n == 1 {
      assert cs[..1][..0] == [];
      assert ids[1..1] == [];
    } else {
      SumDelInterior(ids, pos, delLen, n - 1);
      assert cs[..n][..n - 1] == cs[..n - 1];
      assert ids[1..n][..n - 2] == ids[1..n - 1];
    }
  }

  /** The calls of a remote delete together delete exactly `delLen` characters. */
  lemma RemoteCallsTotal(ids: seq<ID>, pos: int, delLen: int)
    requires |ids| >= 2
    ensures SumDel(RemoteCalls(ids, pos, delLen)) == delLen
  {
    var cs := RemoteCalls(ids, pos, delLen);
    SumDelInterior(ids, pos, delLen, |ids| - 1);
    assert cs[..|cs|][..|cs| - 1] == cs[..|cs| - 1] && cs[..|cs|] == cs;
  }

  /** One call: an unknown identifier stops the deletion with NotFound; otherwise doDelete
    * runs on the identifier's node and its error is discarded. */
  function CallOne(s: St, c: Call): (r: Run)
    requires Good(s)
    ensures Fine(s, r)
    ensures c.id !in s.table <==> r == Done(s, Some(NotFound))
    ensures r.Done? && c.id in s.table ==> r.err.None?
  {
    if c.id !in s.table then GrowsRefl(s); Done(s, Some(NotFound))
    else
      TableLinked(s, c.id);
      Quiet(DoDeleteSt(s, s.table[c.id], c.pos, c.delLen, |s.nodes|))
  }

  /** The calls from the `i`-th on, made in order until one stops the deletion. */
  function CallsFrom(s: St, cs: seq<Call>, i: nat): (r: Run)
    requires Good(s) && i <= |cs|
    ensures Fine(s, r)
    ensures r.Done? ==> r.err.None? || r.err == Some(NotFound)
    decreases |cs| - i
  {
    if i == |cs| then GrowsRefl(s); Done(s, None)
    else
      match CallOne(s, cs[i])
      case Done(s1, None) =>
        var r := CallsFrom(s1, cs, i + 1);
        FineTrans(s, s1, r);
        r
      case other => other
  }

  /** The last of the calls is the last step: its outcome is the outcome of the rest. */
  lemma CallsLast(s: St, cs: seq<Call>)
    requires Good(s) && |cs| >= 1
    ensures CallsFrom(s, cs, |cs| - 1) == CallOne(s, cs[|cs| - 1])
  {
  }

  /* The outcomes of the recursive deletion functions under names that do not recurse, for
   * the postconditions of the methods that carry them out: stated with these, a postcondition
   * does not unfold the recursion further than the method's own body does. */

  function DeleteOutcome(s: St, k: nat, pos: int, delLen: int, fuel: nat): Run
    requires Good(s) && k < |s.nodes| && k != TailIx
  {
    DoDeleteSt(s, k, pos, delLen, fuel)
  }

  function ChildrenOutcome(s: St, k: nat, pos: int, delLen: int, fuel: nat): Run
    requires Good(s) && k < |s.nodes| && k != TailIx && s.nodes[k].split && fuel >= 1
  {
    DeleteChildren(s, k, pos, delLen, fuel)
  }

  function StepsOutcome(s: St, steps: seq<Step>, fuel: nat): Run
    requires Good(s) && Steppable(s, steps)
  {
    RunSteps(s, steps, fuel)
  }

  /** rgass.go RemoteDelete: nothing for no identifiers; NotFound for an unknown first
    * identifier; doDelete's own outcome for a single one; otherwise the calls RemoteCalls
    * lists, errors of doDelete discarded. */
  function RemoteDeleteSt(s: St, ids: seq<ID>, pos: int, delLen: int): (r: Run)
    requires Good(s)
    ensures Fine(s, r)
    ensures ids == [] ==> r == Done(s, None)
    ensures ids != [] && ids[0] !in s.table ==> r == Done(s, Some(NotFound))
    ensures |ids| >= 2 && r.Done? ==> r.err.None? || r.err == Some(NotFound)
  {
    if ids == [] then GrowsRefl(s); Done(s, None)
    else if ids[0] !in s.table then GrowsRefl(s); Done(s, Some(NotFound))
    else if |ids| == 1 then
      TableLinked(s, ids[0]);
      DoDeleteSt(s, s.table[ids[0]], pos, delLen, |s.nodes|)
    else CallsFrom(s, RemoteCalls(ids, pos, delLen), 0)
  }
}
