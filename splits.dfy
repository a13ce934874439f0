/** Splitting and tombstoning nodes inside a model state: the step every delete branch of
  * rgass/rgass.go takes (a node.go Delete helper that splits the node, then model.go Replace
  * of the node by its parts), and the facts every later operation relies on. */
module Splits {
  import opened Ids
  import opened Nodes
  import opened Arena

  /** How an operation ends: with a state and the error it reports; in a Go runtime panic;
    * or in a state this model does not represent (a node split a second time, or a node
    * linked through a stale pointer), where the model stops following the source. */
  datatype Run = Done(st: St, err: Option<Error>) | Panics | Unmodelled

  /** Node `y` is node `x` at a later time: identity, text, ancestry and kind never change,
    * and a tombstone or a split is never undone. */
  predicate Kept(x: Node, y: Node)
  {
    && y.id == x.id && y.str == x.str && y.ancestor == x.ancestor && y.sentinel == x.sentinel
    && y.ancestorOffset == x.ancestorOffset
    && (x.hidden ==> y.hidden)
    && (x.split ==> y.split && y.list == x.list)
  }

  /** Every node of `a` is still in `b`, kept. */
  ghost predicate Keeps(a: seq<Node>, b: seq<Node>)
  {
    |a| <= |b| && forall j :: 0 <= j < |a| ==> Kept(a[j], b[j])
  }

  /** State `r` grows out of `s`: nodes are kept, no identifier leaves the table and no node
    * leaves the document order. */
  ghost predicate Grows(s: St, r: St)
  {
    && Keeps(s.nodes, r.nodes)
    && (forall id :: id in s.table ==> id in r.table)
    && (forall x :: x in s.order ==> x in r.order)
  }

  lemma GrowsTrans(a: St, b: St, c: St)
    requires Grows(a, b) && Grows(b, c)
    ensures Grows(a, c)
  {
    forall j | 0 <= j < |a.nodes| ensures Kept(a.nodes[j], c.nodes[j]) {
      assert Kept(a.nodes[j], b.nodes[j]) && Kept(b.nodes[j], c.nodes[j]);
    }
  }

  lemma SameButLinksKeeps(a: seq<Node>, b: seq<Node>)
    requires SameButLinks(a, b)
    ensures Keeps(a, b)
  {
    forall j | 0 <= j < |a| ensures Kept(a[j], b[j]) {
      assert Unlinked(a[j]) == Unlinked(b[j]);
    }
  }

  lemma ExtendsKeeps(a: seq<Node>, b: seq<Node>)
    requires Extends(a, b)
    ensures Keeps(a, b)
  {
    forall j | 0 <= j < |a| ensures Kept(a[j], b[j]) {
      assert Unlinked(a[j]) == Unlinked(b[j]);
    }
  }

  /** A registered node is linked and is not the tail: what model.go Replace and InsertAfter
    * need of their target to link after it. */
  predicate LinkedIfRegistered(s: St, k: nat)
    requires k < |s.nodes|
  {
    s.nodes[k].id in s.table ==> k in s.order && k != TailIx
  }

  /** node.go DeleteWhole applied to node `k`. */
  function HideAt(s: St, k: nat): St
    requires k < |s.nodes|
  {
    s.(nodes := s.nodes[k := DeleteWhole(s.nodes[k])])
  }

  lemma HideEffect(s: St, k: nat)
    requires Linkable(s) && k < |s.nodes|
    ensures var r := HideAt(s, k);
      && Linkable(r) && Grows(s, r) && r.order == s.order && r.table == s.table
      && |r.nodes| == |s.nodes| && r.nodes[k].hidden
      && forall j :: 0 <= j < |s.nodes| && j != k ==> r.nodes[j] == s.nodes[j]
  {
    var r := HideAt(s, k);
    forall j | 0 <= j < |s.order| ensures r.nodes[s.order[j]].next == s.nodes[s.order[j]].next && r.nodes[s.order[j]].prev == s.nodes[s.order[j]].prev {
    }
    LinksFrame(s.nodes, r.nodes, s.order);
  }

  lemma HideGood(s: St, k: nat)
    requires Good(s) && k < |s.nodes| && k != TailIx
    ensures Good(HideAt(s, k))
  {
    HideValid(s.nodes, s.order, s.table, k);
  }

  /** The parent record `p` replaces node `k` and the parts `cs` are appended, unlinked. */
  function SplitAt(s: St, k: nat, p: Node, cs: seq<Node>): St
    requires k < |s.nodes|
  {
    s.(nodes := s.nodes[k := p] + cs)
  }

  lemma SplitAtEffect(s: St, k: nat, p: Node, cs: seq<Node>)
    requires Linkable(s) && k < |s.nodes| && p.next == s.nodes[k].next && p.prev == s.nodes[k].prev
    ensures var r := SplitAt(s, k, p, cs);
      && Linkable(r) && r.order == s.order && r.table == s.table
      && |r.nodes| == |s.nodes| + |cs|
      && forall i :: |s.nodes| <= i ==> i !in r.order
  {
    var r := SplitAt(s, k, p, cs);
    forall j | 0 <= j < |s.order| ensures r.nodes[s.order[j]].next == s.nodes[s.order[j]].next && r.nodes[s.order[j]].prev == s.nodes[s.order[j]].prev {
    }
    LinksFrame(s.nodes, r.nodes, s.order);
  }

  /** Splitting a leaf keeps it and its neighbours. */
  lemma SplitAtGrows(s: St, k: nat, p: Node, cs: seq<Node>)
    requires k < |s.nodes| && !s.nodes[k].split && Kept(s.nodes[k], p)
    ensures Grows(s, SplitAt(s, k, p, cs))
  {
  }

  /** The arena indices `cs` parts appended to an arena of `base` nodes receive. */
  function PartIndices(base: nat, count: nat): (ix: seq<nat>)
    ensures |ix| == count && forall i :: 0 <= i < count ==> ix[i] == base + i
  {
    seq(count, i => base + i)
  }

  /** The split of node `k` into the parent record `p` and the parts `cs`, then model.go
    * Replace of the node by its parts. The split happens before Replace runs, so a failing
    * Replace leaves the node tombstoned and its parts unlinked. */
  function SplitReplace(s: St, k: nat, p: Node, cs: seq<Node>): Run
    requires Linkable(s) && k < |s.nodes| && p.next == s.nodes[k].next && p.prev == s.nodes[k].prev
    requires |cs| >= 1
  {
    if s.nodes[k].split then Unmodelled
    else
      SplitAtEffect(s, k, p, cs);
      var s1 := SplitAt(s, k, p, cs);
      if !LinkedIfRegistered(s1, k) then Unmodelled
      else
        var o := ReplaceSt(s1, k, PartIndices(|s.nodes|, |cs|));
        Done(o.st, o.err)
  }

  /** Which part of a two-way split is tombstoned: the first (DeletePrior), the second
    * (DeleteLast) or neither (SplitTwo itself). */
  datatype Side = Prior | Last | Neither

  /** The two-way split of node `k` at `at`, with the tombstoning `side` asks for. */
  function Split2(s: St, k: nat, side: Side, at: int): Cut<Parts2>
    requires k < |s.nodes|
  {
    var n, fi := s.nodes[k], |s.nodes|;
    match side
    case Prior => DeletePrior(n, k, at, fi, fi + 1)
    case Last => DeleteLast(n, k, at, fi, fi + 1)
    case Neither => SplitTwo(n, k, at, fi, fi + 1)
  }

  /** The two-way split without tombstones is node.go SplitTwo on the node, its parts taking
    * the next two places of the arena. */
  lemma Split2Neither(s: St, k: nat, pos: int, n: Node, fi: nat)
    requires k < |s.nodes| && n == s.nodes[k] && fi == |s.nodes|
    ensures Split2(s, k, Neither, pos) == SplitTwo(n, k, pos, fi, fi + 1)
  {
  }

  /** node.go DeletePrior or DeleteLast of node `k` at `at`, then model.go Replace of the node
    * by the two parts. A rejected position leaves the node alone and Replace receives two
    * zero nodes: it reports NotFound for an unregistered node and otherwise Duplicate, since
    * the zero identifier is the head's. */
  function Cut2(s: St, k: nat, side: Side, at: int): Run
    requires Linkable(s) && k < |s.nodes|
  {
    match Split2(s, k, side, at)
    case SlicePanic => Panics
    case Refused(_) => Done(s, Some(if s.nodes[k].id in s.table then Duplicate else NotFound))
    case Cut(parts) => SplitReplace(s, k, parts.parent, [parts.first, parts.last])
  }

  /** The three-way split of node `k` that DeleteMiddle makes. */
  function Split3(s: St, k: nat, pos: int, delLen: int): Cut<Parts3>
    requires k < |s.nodes|
  {
    var fi := |s.nodes|;
    DeleteMiddle(s.nodes[k], k, pos, delLen, fi, fi + 1, fi + 2)
  }

  /** node.go DeleteMiddle of node `k`, then model.go Replace of the node by the three parts. */
  function Cut3(s: St, k: nat, pos: int, delLen: int): Run
    requires Linkable(s) && k < |s.nodes|
  {
    match Split3(s, k, pos, delLen)
    case SlicePanic => Panics
    case Refused(_) => Done(s, Some(if s.nodes[k].id in s.table then Duplicate else NotFound))
    case Cut(parts) => SplitReplace(s, k, parts.parent, [parts.first, parts.middle, parts.last])
  }

  /** Splicing a run into a sequence keeps every element of it. */
  lemma SpliceKeeps(o: seq<nat>, i: nat, cs: seq<nat>, o': seq<nat>)
    requires i < |o| && o' == o[..i + 1] + cs + o[i + 1..]
    ensures forall x :: x in o ==> x in o'
  {
    forall x | x in o ensures x in o' {
      var j := IndexOf(o, x);
      if j <= i { assert o'[j] == x; } else { assert o'[j + |cs|] == x; }
    }
  }

  /** Replace after a split keeps the chain, grows the state and changes nothing on failure. */
  lemma ReplaceAfterSplit(s: St, k: nat, s1: St, cs: seq<nat>)
    requires ReplaceReady(s1, k, cs) && Grows(s, s1)
    ensures var o := ReplaceSt(s1, k, cs);
      && Linkable(o.st) && Grows(s, o.st) && |o.st.nodes| == |s1.nodes|
      && (o.err.Some? ==> o.st == s1)
  {
    var o := ReplaceSt(s1, k, cs);
    ReplaceErrors(s1, k, cs);
    if o.err.None? {
      var r := o.st;
      assert Linkable(r) && |r.nodes| == |s1.nodes| && Grows(s1, r) by {
        ReplaceTableGrows(s1, k, cs);
        AttachAllEffect(s1, k, cs);
        SameButLinksKeeps(s1.nodes, r.nodes);
        SpliceKeeps(s1.order, IndexOf(s1.order, k), cs, r.order);
      }
      GrowsTrans(s, s1, r);
    }
  }

  /** A finished split-and-replace keeps the chain and grows the state. */
  lemma SplitReplaceEffect(s: St, k: nat, p: Node, cs: seq<Node>)
    requires Linkable(s) && k < |s.nodes| && p.next == s.nodes[k].next && p.prev == s.nodes[k].prev
    requires |cs| >= 1 && (!s.nodes[k].split ==> Kept(s.nodes[k], p))
    ensures var r := SplitReplace(s, k, p, cs);
      r.Done? ==> Linkable(r.st) && Grows(s, r.st) && |s.nodes| <= |r.st.nodes|
  {
    if !s.nodes[k].split {
      SplitAtEffect(s, k, p, cs);
      var s1 := SplitAt(s, k, p, cs);
      SplitAtGrows(s, k, p, cs);
      if LinkedIfRegistered(s1, k) {
        ReplaceAfterSplit(s, k, s1, PartIndices(|s.nodes|, |cs|));
      }
    }
  }

  /** A finished two-way delete keeps the chain and grows the state. */
  lemma Cut2Effect(s: St, k: nat, side: Side, at: int)
    requires Linkable(s) && k < |s.nodes|
    ensures var r := Cut2(s, k, side, at);
      r.Done? ==> Linkable(r.st) && Grows(s, r.st) && |s.nodes| <= |r.st.nodes|
  {
    var c := Split2(s, k, side, at);
    if c.Cut? {
      SplitReplaceEffect(s, k, c.parts.parent, [c.parts.first, c.parts.last]);
    }
  }

  /** A finished three-way delete keeps the chain and grows the state. */
  lemma Cut3Effect(s: St, k: nat, pos: int, delLen: int)
    requires Linkable(s) && k < |s.nodes|
    ensures var r := Cut3(s, k, pos, delLen);
      r.Done? ==> Linkable(r.st) && Grows(s, r.st) && |s.nodes| <= |r.st.nodes|
  {
    var c := Split3(s, k, pos, delLen);
    if c.Cut? {
      SplitReplaceEffect(s, k, c.parts.parent, [c.parts.first, c.parts.middle, c.parts.last]);
    }
  }

  /** The parts `cs` are the children of the node record `n` of index `k`: copies of it with
    * `k` as ancestor, whose texts concatenate to the text of `n`. */
  ghost predicate PartsOf(n: Node, k: nat, cs: seq<Node>)
  {
    && 2 <= |cs| <= 3
    && (forall i :: 0 <= i < |cs| ==> cs[i].split == n.split && cs[i].list == n.list && cs[i].ancestor == Some(k))
    && n.str == (if |cs| == 2 then cs[0].str + cs[1].str else cs[0].str + cs[1].str + cs[2].str)
  }

  lemma Split2Parts(s: St, k: nat, side: Side, at: int)
    requires k < |s.nodes| && Split2(s, k, side, at).Cut?
    ensures var P := Split2(s, k, side, at).parts;
      && PartsOf(s.nodes[k], k, [P.first, P.last])
      && P.parent == s.nodes[k].(hidden := true, split := true, list := PartIndices(|s.nodes|, 2))
  {
    assert PartIndices(|s.nodes|, 2) == [|s.nodes|, |s.nodes| + 1];
  }

  lemma Split3Parts(s: St, k: nat, pos: int, delLen: int)
    requires k < |s.nodes| && Split3(s, k, pos, delLen).Cut?
    ensures var P := Split3(s, k, pos, delLen).parts;
      && PartsOf(s.nodes[k], k, [P.first, P.middle, P.last])
      && P.parent == s.nodes[k].(hidden := true, split := true, list := PartIndices(|s.nodes|, 3))
  {
    assert PartIndices(|s.nodes|, 3) == [|s.nodes|, |s.nodes| + 1, |s.nodes| + 2];
  }

  /** The records a split of a leaf produces fit the arena. */
  lemma SplitFits(s: St, k: nat, p: Node, cs: seq<Node>)
    requires Good(s) && k < |s.nodes| && !s.nodes[k].split && PartsOf(s.nodes[k], k, cs)
    requires p == s.nodes[k].(hidden := true, split := true, list := PartIndices(|s.nodes|, |cs|))
    ensures FitParts(s.nodes, k, p, cs)
  {
    assert ShapeAt(s.nodes, k);
    assert PartIndices(|s.nodes|, |cs|) ==
      if |cs| == 2 then [|s.nodes|, |s.nodes| + 1] else [|s.nodes|, |s.nodes| + 1, |s.nodes| + 2];
  }

  /** Splitting a leaf other than the tail and replacing it by its parts keeps the
    * invariant. */
  lemma SplitReplaceGood(s: St, k: nat, p: Node, cs: seq<Node>)
    requires Good(s) && k < |s.nodes| && k != TailIx && PartsOf(s.nodes[k], k, cs)
    requires p == s.nodes[k].(hidden := true, split := true, list := PartIndices(|s.nodes|, |cs|))
    ensures var r := SplitReplace(s, k, p, cs); r.Done? ==> Good(r.st)
  {
    if !s.nodes[k].split {
      var ix := PartIndices(|s.nodes|, |cs|);
      SplitFits(s, k, p, cs);
      SplitAtEffect(s, k, p, cs);
      SplitValid(s.nodes, s.order, s.table, k, p, cs);
      var s1 := SplitAt(s, k, p, cs);
      if LinkedIfRegistered(s1, k) {
        ReplaceGood(s1, k, ix);
      }
    }
  }

  /** A finished two-way delete of a node other than the tail keeps the invariant. */
  lemma Cut2Good(s: St, k: nat, side: Side, at: int)
    requires Good(s) && k < |s.nodes| && k != TailIx
    ensures var r := Cut2(s, k, side, at); r.Done? ==> Good(r.st)
  {
    if Split2(s, k, side, at).Cut? {
      var P := Split2(s, k, side, at).parts;
      Split2Parts(s, k, side, at);
      SplitReplaceGood(s, k, P.parent, [P.first, P.last]);
    }
  }

  /** A finished three-way delete of a node other than the tail keeps the invariant. */
  lemma Cut3Good(s: St, k: nat, pos: int, delLen: int)
    requires Good(s) && k < |s.nodes| && k != TailIx
    ensures var r := Cut3(s, k, pos, delLen); r.Done? ==> Good(r.st)
  {
    var c := Split3(s, k, pos, delLen);
    if c.Cut? {
      Split3Parts(s, k, pos, delLen);
      SplitReplaceGood(s, k, c.parts.parent, [c.parts.first, c.parts.middle, c.parts.last]);
    }
  }

  /** A finished split-and-replace links the first part, which is not the tail. */
  lemma SplitReplaceLinked(s: St, k: nat, p: Node, cs: seq<Node>)
    requires Linkable(s) && k < |s.nodes| && p.next == s.nodes[k].next && p.prev == s.nodes[k].prev
    requires |cs| >= 1
    ensures var r := SplitReplace(s, k, p, cs);
      r.Done? && r.err.None? ==>
        |s.nodes| in r.st.order && |s.nodes| != TailIx && |r.st.nodes| == |s.nodes| + |cs|
  {
    assert s.order[|s.order| - 1] == TailIx;
    if !s.nodes[k].split {
      SplitAtEffect(s, k, p, cs);
      var s1 := SplitAt(s, k, p, cs);
      var ix := PartIndices(|s.nodes|, |cs|);
      if LinkedIfRegistered(s1, k) && ReplaceSt(s1, k, ix).err.None? {
        ReplaceLinks(s1, k, ix);
        var i := IndexOf(s1.order, k);
        assert ReplaceSt(s1, k, ix).st.order[i + 1] == ix[0];
      }
    }
  }

  /** The visible text of a run of node records. */
  function VisibleAll(cs: seq<Node>): string
  {
    if cs == [] then "" else Visible(cs[0]) + VisibleAll(cs[1..])
  }

  lemma {:induction false} TextOfRecords(nodes: seq<Node>, ix: seq<nat>, cs: seq<Node>)
    requires |ix| == |cs| && forall j :: 0 <= j < |ix| ==> ix[j] < |nodes| && nodes[ix[j]] == cs[j]
    ensures TextOf(nodes, ix) == VisibleAll(cs)
    decreases |ix|
  {
    if ix != [] {
      TextOfRecords(nodes, ix[1..], cs[1..]);
    }
  }

  /** The text of the nodes of `o` but the last, with `mid` shown in place of the `i`-th. */
  function Spliced(nodes: seq<Node>, o: seq<nat>, i: nat, mid: string): string
    requires i + 1 < |o|
  {
    TextOf(nodes, o[..i]) + mid + TextOf(nodes, o[i + 1..|o| - 1])
  }

  /** The text of the nodes of `o` but the last, with the records `cs` shown in place of
    * the `i`-th. */
  function WithParts(nodes: seq<Node>, o: seq<nat>, i: nat, cs: seq<Node>): string
    requires i + 1 < |o|
  {
    Spliced(nodes, o, i, VisibleAll(cs))
  }

  /** The text of an order cut around its `i`-th node. */
  lemma TextAround(nodes: seq<Node>, o: seq<nat>, i: nat)
    requires i + 1 < |o|
    ensures TextOf(nodes, o[..|o| - 1]) == Spliced(nodes, o, i, VisibleAt(nodes, o[i]))
  {
    var rest := [o[i]] + o[i + 1..|o| - 1];
    assert o[..|o| - 1] == o[..i] + rest;
    TextOfAppend(nodes, o[..i], rest);
    assert rest[1..] == o[i + 1..|o| - 1];
  }

  /** The text of nodes other than `k` does not change when only node `k` and nodes beyond
    * the arena change. */
  lemma {:induction false} TextOfExcept(a: seq<Node>, b: seq<Node>, t: seq<nat>, k: nat)
    requires k !in t && InRange(a, t) && |a| <= |b|
    requires forall x: nat :: x < |a| && x != k ==> Visible(b[x]) == Visible(a[x])
    ensures TextOf(b, t) == TextOf(a, t)
    decreases |t|
  {
    if t != [] {
      TextOfExcept(a, b, t[1..], k);
    }
  }

  /** An entry of a distinct sequence does not occur after its position. */
  lemma NotLater(o: seq<nat>, i: nat)
    requires Distinct(o) && i + 1 < |o|
    ensures o[i] !in o[i + 1..|o| - 1]
  {
    DistinctPairs(o);
  }

  lemma InRangeSlice(nodes: seq<Node>, o: seq<nat>, a: nat, b: nat)
    requires InRange(nodes, o) && a <= b <= |o|
    ensures InRange(nodes, o[a..b])
  {
    forall j | 0 <= j < b - a ensures o[a..b][j] < |nodes| {
      assert o[a..b][j] == o[a + j];
    }
  }

  /** The nodes of the order before the `i`-th show the same in both arenas. */
  lemma TextBefore(a: seq<Node>, b: seq<Node>, o: seq<nat>, i: nat)
    requires InRange(a, o) && i < |o| && o[i] !in o[..i] && |a| <= |b|
    requires forall x: nat :: x < |a| && x != o[i] ==> Visible(b[x]) == Visible(a[x])
    ensures TextOf(b, o[..i]) == TextOf(a, o[..i])
  {
    InRangeSlice(a, o, 0, i);
    TextOfExcept(a, b, o[..i], o[i]);
  }

  /** The nodes of the order after the `i`-th, up to the tail, show the same in both arenas. */
  lemma TextAfter(a: seq<Node>, b: seq<Node>, o: seq<nat>, i: nat)
    requires InRange(a, o) && i + 1 < |o| && o[i] !in o[i + 1..|o| - 1] && |a| <= |b|
    requires forall x: nat :: x < |a| && x != o[i] ==> Visible(b[x]) == Visible(a[x])
    ensures TextOf(b, o[i + 1..|o| - 1]) == TextOf(a, o[i + 1..|o| - 1])
  {
    InRangeSlice(a, o, i + 1, |o| - 1);
    TextOfExcept(a, b, o[i + 1..|o| - 1], o[i]);
  }

  lemma TextOfHiddenLast(nodes: seq<Node>, o: seq<nat>, i: nat)
    requires i < |o| && VisibleAt(nodes, o[i]) == ""
    ensures TextOf(nodes, o[..i + 1]) == TextOf(nodes, o[..i])
  {
    assert o[..i + 1] == o[..i] + [o[i]];
    TextOfAppend(nodes, o[..i], [o[i]]);
    TextOfCons(nodes, [o[i]]);
    assert [o[i]][1..] == [];
  }

  /** The text of an order into which the run `ix` was spliced after the `i`-th node, which
    * shows nothing. */
  lemma SpliceHiddenText(a: seq<Node>, b: seq<Node>, o: seq<nat>, i: nat, ix: seq<nat>, o': seq<nat>)
    requires SameButLinks(a, b) && i + 1 < |o| && VisibleAt(a, o[i]) == ""
    requires o' == o[..i + 1] + ix + o[i + 1..]
    ensures TextOf(b, o'[..|o'| - 1]) == TextOf(a, o[..i]) + TextOf(a, ix) + TextOf(a, o[i + 1..|o| - 1])
  {
    SpliceText(a, b, o, i, ix, o');
    TextOfHiddenLast(a, o, i);
  }

  /** What the arena after a split shows: the old nodes other than `k` as before, and the
    * appended parts their own text. */
  lemma PartsText(a: seq<Node>, k: nat, p: Node, cs: seq<Node>, o: seq<nat>, i: nat)
    requires InRange(a, o) && i + 1 < |o| && o[i] == k && k < |a|
    requires k !in o[..i] && k !in o[i + 1..|o| - 1]
    ensures var b := a[k := p] + cs;
      && TextOf(b, o[..i]) == TextOf(a, o[..i])
      && TextOf(b, o[i + 1..|o| - 1]) == TextOf(a, o[i + 1..|o| - 1])
      && TextOf(b, PartIndices(|a|, |cs|)) == VisibleAll(cs)
  {
    var b := a[k := p] + cs;
    TextBefore(a, b, o, i);
    TextAfter(a, b, o, i);
    TextOfRecords(b, PartIndices(|a|, |cs|), cs);
  }

  /** The text of an order that lists the parts of the tombstoned node `k` right after it,
    * over an arena that differs from the split arena only in its links. */
  lemma PartsSpliced(a: seq<Node>, o: seq<nat>, k: nat, p: Node, cs: seq<Node>, i: nat, nodes: seq<Node>, o': seq<nat>)
    requires i + 1 < |o| && o[i] == k && k < |a| && p.hidden
    requires o' == o[..i + 1] + PartIndices(|a|, |cs|) + o[i + 1..]
    requires SameButLinks(a[k := p] + cs, nodes)
    ensures var b := a[k := p] + cs;
      TextOf(nodes, o'[..|o'| - 1]) == TextOf(b, o[..i]) + TextOf(b, PartIndices(|a|, |cs|)) + TextOf(b, o[i + 1..|o| - 1])
  {
    var b := a[k := p] + cs;
    assert VisibleAt(b, o[i]) == "";
    SpliceHiddenText(b, nodes, o, i, PartIndices(|a|, |cs|), o');
  }

  /** A Replace of the tombstoned node `k` by the parts its split appended: the text of the
    * parts takes the place of the node's own text. `r` is any state whose order holds the
    * parts right after `k` and whose nodes differ from the split arena only in their links. */
  lemma PartsReplaceText(a: seq<Node>, o: seq<nat>, k: nat, p: Node, cs: seq<Node>, i: nat, r: St)
    requires InRange(a, o) && i + 1 < |o| && o[i] == k && k < |a| && p.hidden
    requires k !in o[..i] && k !in o[i + 1..|o| - 1]
    requires r.order == o[..i + 1] + PartIndices(|a|, |cs|) + o[i + 1..]
    requires SameButLinks(a[k := p] + cs, r.nodes)
    ensures TextSt(r) == WithParts(a, o, i, cs)
  {
    PartsSpliced(a, o, k, p, cs, i, r.nodes, r.order);
    PartsText(a, k, p, cs, o, i);
  }

  /** A split-and-replace of the linked node at position `i` that succeeds lists the parts
    * right after the node and changes no record but the node itself, links aside. */
  lemma SplitReplaceShape(s: St, k: nat, p: Node, cs: seq<Node>, i: nat)
    requires Linkable(s) && k < |s.nodes| && i + 1 < |s.order| && s.order[i] == k
    requires p.next == s.nodes[k].next && p.prev == s.nodes[k].prev && |cs| >= 1
    requires SplitReplace(s, k, p, cs).Done? && SplitReplace(s, k, p, cs).err.None?
    ensures var r := SplitReplace(s, k, p, cs).st;
      && r.order == s.order[..i + 1] + PartIndices(|s.nodes|, |cs|) + s.order[i + 1..]
      && SameButLinks(s.nodes[k := p] + cs, r.nodes)
      && k !in s.order[..i] && k !in s.order[i + 1..|s.order| - 1]
  {
    IndexOfDistinct(s.order, i);
    NotLater(s.order, i);
    SplitAtEffect(s, k, p, cs);
    ReplaceLinks(SplitAt(s, k, p, cs), k, PartIndices(|s.nodes|, |cs|));
  }

  /** A split-and-replace of the linked node `k` that succeeds puts the text of the parts in
    * the place of the node's own text. */
  lemma SplitReplaceDone(s: St, k: nat, p: Node, cs: seq<Node>, i: nat)
    requires Linkable(s) && k < |s.nodes| && i + 1 < |s.order| && s.order[i] == k
    requires p.next == s.nodes[k].next && p.prev == s.nodes[k].prev && p.hidden && |cs| >= 1
    requires SplitReplace(s, k, p, cs).Done? && SplitReplace(s, k, p, cs).err.None?
    ensures TextSt(SplitReplace(s, k, p, cs).st) == WithParts(s.nodes, s.order, i, cs)
  {
    var r := SplitReplace(s, k, p, cs).st;
    SplitReplaceShape(s, k, p, cs, i);
    PartsReplaceText(s.nodes, s.order, k, p, cs, i, r);
  }

  /** The text after a split-and-replace of the linked node `k`: the text of its parts takes
    * the place of the node's own text. */
  lemma SplitReplaceText(s: St, k: nat, p: Node, cs: seq<Node>)
    requires Linkable(s) && k < |s.nodes| && k in s.order && k != TailIx
    requires p.next == s.nodes[k].next && p.prev == s.nodes[k].prev && p.hidden && |cs| >= 1
    ensures var o := s.order; var i := IndexOf(o, k);
      && i + 1 < |o|
      && TextSt(s) == Spliced(s.nodes, o, i, Visible(s.nodes[k]))
      && var r := SplitReplace(s, k, p, cs);
         r.Done? && r.err.None? ==> TextSt(r.st) == WithParts(s.nodes, o, i, cs)
  {
    var o := s.order;
    var i := IndexOf(o, k);
    assert i + 1 < |o| by {
      assert o[|o| - 1] == TailIx;
    }
    TextAround(s.nodes, o, i);
    var r := SplitReplace(s, k, p, cs);
    if r.Done? && r.err.None? {
      SplitReplaceDone(s, k, p, cs, i);
    }
  }
}
