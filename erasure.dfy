/** What the deletes of rgass/rgass.go do to the document: the characters that leave the
  * text when a node loses a range (doDelete on a leaf, the cases of LocalDelete), when the
  * overflow walk of LocalDelete runs on, and, for a split node, which characters of its split
  * tree stop showing. */
module Erasure {
  import opened Ids
  import opened Nodes
  import opened Arena
  import opened Splits
  import opened Edits
  import opened Cells

  /** What node `n` shows once the range from `a` up to `b` of its text is gone. */
  function ShowsOutside(n: Node, a: int, b: int): string
    requires 0 <= a <= b <= |n.str|
  {
    if n.hidden then "" else n.str[..a] + n.str[b..]
  }

  /** What node `n` shows once its text up to `at` is gone. */
  function ShowsFrom(n: Node, at: int): string
    requires 0 <= at <= |n.str|
  {
    if n.hidden then "" else n.str[at..]
  }

  /** What node `n` shows once its text from `at` on is gone. */
  function ShowsUpTo(n: Node, at: int): string
    requires 0 <= at <= |n.str|
  {
    if n.hidden then "" else n.str[..at]
  }

  lemma VisibleTwo(f: Node, l: Node)
    ensures VisibleAll([f, l]) == Visible(f) + Visible(l)
  {
    assert [f, l][1..] == [l] && [l][1..] == [];
    assert VisibleAll([l]) == Visible(l) + VisibleAll([]);
  }

  lemma VisibleThree(f: Node, m: Node, l: Node)
    ensures VisibleAll([f, m, l]) == Visible(f) + Visible(m) + Visible(l)
  {
    assert [f, m, l][1..] == [m, l];
    VisibleTwo(m, l);
  }

  /** The parts of node.go DeletePrior show the node's text from `at` on. */
  lemma PriorParts(s: St, k: nat, at: int)
    requires k < |s.nodes| && Split2(s, k, Prior, at).Cut?
    ensures var P := Split2(s, k, Prior, at).parts;
      && 0 <= at <= |s.nodes[k].str| && at <= Length(s.nodes[k])
      && VisibleAll([P.first, P.last]) == ShowsFrom(s.nodes[k], at)
  {
    var P := Split2(s, k, Prior, at).parts;
    var n := s.nodes[k];
    VisibleTwo(P.first, P.last);
    assert P.last.str == n.str[at..] by {
      assert n.str == P.first.str + P.last.str;
    }
  }

  /** The parts of node.go DeleteLast show the node's text up to `at`. */
  lemma LastParts(s: St, k: nat, at: int)
    requires k < |s.nodes| && Split2(s, k, Last, at).Cut?
    ensures var P := Split2(s, k, Last, at).parts;
      && 0 <= at <= |s.nodes[k].str| && at <= Length(s.nodes[k])
      && VisibleAll([P.first, P.last]) == ShowsUpTo(s.nodes[k], at)
  {
    var P := Split2(s, k, Last, at).parts;
    var n := s.nodes[k];
    VisibleTwo(P.first, P.last);
    assert P.first.str == n.str[..at] by {
      assert n.str == P.first.str + P.last.str;
    }
  }

  /** The parts of node.go DeleteMiddle show the node's text but the range of `delLen`
    * characters from `pos`. */
  lemma MiddleParts(s: St, k: nat, pos: int, delLen: int)
    requires k < |s.nodes| && Split3(s, k, pos, delLen).Cut?
    ensures var P := Split3(s, k, pos, delLen).parts;
      && 0 <= pos && 0 <= delLen && pos + delLen <= |s.nodes[k].str|
      && VisibleAll([P.first, P.middle, P.last]) == ShowsOutside(s.nodes[k], pos, pos + delLen)
  {
    var P := Split3(s, k, pos, delLen).parts;
    var n := s.nodes[k];
    VisibleThree(P.first, P.middle, P.last);
    assert P.first.str == n.str[..pos] && P.last.str == n.str[pos + delLen..] by {
      assert n.str == P.first.str + P.middle.str + P.last.str;
      assert n.str[..pos] == (P.first.str + P.middle.str + P.last.str)[..pos];
    }
  }

  /** node.go DeleteWhole of the linked node `k` takes the node's text out of the document;
    * of a node that is not linked, it leaves the text as it was. */
  lemma HideText(s: St, k: nat)
    requires Linkable(s) && k < |s.nodes|
    ensures k !in s.order ==> TextSt(HideAt(s, k)) == TextSt(s)
    ensures k in s.order && k != TailIx ==> var i := IndexOf(s.order, k);
      && i + 1 < |s.order|
      && TextSt(s) == Spliced(s.nodes, s.order, i, Visible(s.nodes[k]))
      && TextSt(HideAt(s, k)) == Spliced(s.nodes, s.order, i, "")
  {
    var o, b := s.order, HideAt(s, k).nodes;
    if k !in o {
      TextOfExcept(s.nodes, b, o[..|o| - 1], k);
    } else if k != TailIx {
      var i := IndexOf(o, k);
      assert o[|o| - 1] == TailIx;
      NotLater(o, i);
      TextAround(s.nodes, o, i);
      TextAround(b, o, i);
      TextBefore(s.nodes, b, o, i);
      TextAfter(s.nodes, b, o, i);
    }
  }

  /** A split-and-replace whose Replace fails leaves the split arena: the node is tombstoned
    * and its parts are not linked, so the node's text is gone and nothing takes its place. */
  lemma RejectedText(s: St, k: nat, p: Node, cs: seq<Node>, i: nat)
    requires Linkable(s) && k < |s.nodes| && i + 1 < |s.order| && s.order[i] == k && !s.nodes[k].split
    requires p.next == s.nodes[k].next && p.prev == s.nodes[k].prev && p.hidden && |cs| >= 1
    requires SplitReplace(s, k, p, cs).Done? && SplitReplace(s, k, p, cs).err.Some?
    ensures |s.nodes| !in SplitReplace(s, k, p, cs).st.order
    ensures TextSt(SplitReplace(s, k, p, cs).st) == Spliced(s.nodes, s.order, i, "")
  {
    var o := s.order;
    RejectedState(s, k, p, cs);
    SplitAtEffect(s, k, p, cs);
    var s1 := SplitAt(s, k, p, cs);
    IndexOfDistinct(o, i);
    NotLater(o, i);
    TextAround(s1.nodes, o, i);
    TextBefore(s.nodes, s1.nodes, o, i);
    TextAfter(s.nodes, s1.nodes, o, i);
  }

  /** A split-and-replace whose Replace fails is the split arena, unchanged by Replace. */
  lemma RejectedState(s: St, k: nat, p: Node, cs: seq<Node>)
    requires Linkable(s) && k < |s.nodes| && !s.nodes[k].split
    requires p.next == s.nodes[k].next && p.prev == s.nodes[k].prev && |cs| >= 1
    requires SplitReplace(s, k, p, cs).Done? && SplitReplace(s, k, p, cs).err.Some?
    ensures SplitReplace(s, k, p, cs).st == SplitAt(s, k, p, cs)
  {
    SplitAtEffect(s, k, p, cs);
    ReplaceErrors(SplitAt(s, k, p, cs), k, PartIndices(|s.nodes|, |cs|));
  }

  /** A split-and-replace of the linked leaf `k` that finishes shows the parts in the node's
    * place when Replace links them, and nothing there when Replace rejects them. */
  lemma ReplacedText(s: St, k: nat, p: Node, cs: seq<Node>)
    requires Linkable(s) && k < |s.nodes| && k in s.order && k != TailIx && !s.nodes[k].split
    requires p.next == s.nodes[k].next && p.prev == s.nodes[k].prev && p.hidden && |cs| >= 1
    requires SplitReplace(s, k, p, cs).Done?
    ensures var r := SplitReplace(s, k, p, cs); var i := IndexOf(s.order, k);
      && i + 1 < |s.order|
      && (r.err.None? <==> |s.nodes| in r.st.order)
      && TextSt(s) == Spliced(s.nodes, s.order, i, Visible(s.nodes[k]))
      && TextSt(r.st) == Spliced(s.nodes, s.order, i, if r.err.None? then VisibleAll(cs) else "")
  {
    SplitReplaceText(s, k, p, cs);
    SplitReplaceLinked(s, k, p, cs);
    var r := SplitReplace(s, k, p, cs);
    if r.err.Some? {
      RejectedText(s, k, p, cs, IndexOf(s.order, k));
    }
  }

  /** A two-way delete of a linked node that finishes: the parts take the node's place when
    * Replace links them, nothing does when Replace rejects them. */
  lemma Cut2Text(s: St, k: nat, side: Side, at: int)
    requires Linkable(s) && k < |s.nodes| && k in s.order && k != TailIx
    requires Cut2(s, k, side, at).Done? && Split2(s, k, side, at).Cut?
    ensures var r := Cut2(s, k, side, at); var P := Split2(s, k, side, at).parts;
      var i := IndexOf(s.order, k);
      && i + 1 < |s.order|
      && (r.err.None? <==> |s.nodes| in r.st.order)
      && TextSt(s) == Spliced(s.nodes, s.order, i, Visible(s.nodes[k]))
      && TextSt(r.st) == Spliced(s.nodes, s.order, i, if r.err.None? then VisibleAll([P.first, P.last]) else "")
  {
    var P := Split2(s, k, side, at).parts;
    Split2Parts(s, k, side, at);
    ReplacedText(s, k, P.parent, [P.first, P.last]);
  }

  /** A three-way delete of a linked node that finishes, likewise. */
  lemma Cut3Text(s: St, k: nat, pos: int, delLen: int)
    requires Linkable(s) && k < |s.nodes| && k in s.order && k != TailIx
    requires Cut3(s, k, pos, delLen).Done? && Split3(s, k, pos, delLen).Cut?
    ensures var r := Cut3(s, k, pos, delLen); var P := Split3(s, k, pos, delLen).parts;
      var i := IndexOf(s.order, k);
      && i + 1 < |s.order|
      && (r.err.None? <==> |s.nodes| in r.st.order)
      && TextSt(s) == Spliced(s.nodes, s.order, i, Visible(s.nodes[k]))
      && TextSt(r.st) == Spliced(s.nodes, s.order, i,
           if r.err.None? then VisibleAll([P.first, P.middle, P.last]) else "")
  {
    var P := Split3(s, k, pos, delLen).parts;
    Split3Parts(s, k, pos, delLen);
    ReplacedText(s, k, P.parent, [P.first, P.middle, P.last]);
  }

  /** A two-way delete that succeeds acted on a linked node. */
  lemma Cut2Linked(s: St, k: nat, side: Side, at: int)
    requires Linkable(s) && k < |s.nodes|
    requires Cut2(s, k, side, at).Done? && Cut2(s, k, side, at).err.None?
    ensures Split2(s, k, side, at).Cut? && k in s.order && k != TailIx
  {
    var P := Split2(s, k, side, at).parts;
    Split2Parts(s, k, side, at);
    SplitReplaceLinkedNode(s, k, P.parent, [P.first, P.last]);
  }

  /** A three-way delete that succeeds acted on a linked node. */
  lemma Cut3Linked(s: St, k: nat, pos: int, delLen: int)
    requires Linkable(s) && k < |s.nodes|
    requires Cut3(s, k, pos, delLen).Done? && Cut3(s, k, pos, delLen).err.None?
    ensures Split3(s, k, pos, delLen).Cut? && k in s.order && k != TailIx
  {
    var P := Split3(s, k, pos, delLen).parts;
    Split3Parts(s, k, pos, delLen);
    SplitReplaceLinkedNode(s, k, P.parent, [P.first, P.middle, P.last]);
  }

  /** rgass.go doDelete on a leaf, when it succeeds: the range lies within the node (only a
    * node whose identifier records a negative length can lose a negative one, whole), and the
    * node's place in the text shows, case by case, nothing for the whole node, its text after
    * a prefix, before a suffix, or around a middle range. A node that is not linked can only
    * be tombstoned whole, which the text does not show. */
  lemma DeleteLeafText(s: St, k: nat, pos: int, delLen: int)
    requires Good(s) && k < |s.nodes| && k != TailIx
    requires DeleteLeaf(s, k, pos, delLen).Done? && DeleteLeaf(s, k, pos, delLen).err.None?
    ensures 0 <= pos && pos + delLen <= Length(s.nodes[k]) && (delLen < 0 ==> delLen == Length(s.nodes[k]))
    ensures k !in s.order ==>
      pos == 0 && delLen == Length(s.nodes[k]) && TextSt(DeleteLeaf(s, k, pos, delLen).st) == TextSt(s)
    ensures k in s.order ==>
      var n, r, i := s.nodes[k], DeleteLeaf(s, k, pos, delLen).st, IndexOf(s.order, k);
      && i + 1 < |s.order|
      && TextSt(s) == Spliced(s.nodes, s.order, i, Visible(n))
      && (pos == 0 && delLen == Length(n) ==> TextSt(r) == Spliced(s.nodes, s.order, i, ""))
      && (pos == 0 && delLen < Length(n) ==>
            delLen <= |n.str| && TextSt(r) == Spliced(s.nodes, s.order, i, ShowsFrom(n, delLen)))
      && (0 < pos && pos + delLen == Length(n) ==>
            pos <= |n.str| && TextSt(r) == Spliced(s.nodes, s.order, i, ShowsUpTo(n, pos)))
      && (0 < pos && pos + delLen < Length(n) ==>
            pos + delLen <= |n.str| && TextSt(r) == Spliced(s.nodes, s.order, i, ShowsOutside(n, pos, pos + delLen)))
  {
    GoodLinkable(s);
    var len := Length(s.nodes[k]);
    if pos == 0 && delLen == len {
      HideText(s, k);
    } else if pos == 0 && delLen < len {
      Cut2Linked(s, k, Prior, delLen);
      Cut2Text(s, k, Prior, delLen);
      PriorParts(s, k, delLen);
    } else if pos > 0 && pos + delLen == len {
      Cut2Linked(s, k, Last, pos);
      Cut2Text(s, k, Last, pos);
      LastParts(s, k, pos);
      assert 0 <= delLen;
    } else {
      Cut3Linked(s, k, pos, delLen);
      Cut3Text(s, k, pos, delLen);
      MiddleParts(s, k, pos, delLen);
    }
  }

  /** The characters of a run of node records, one after the other. */
  function CellsAll(cs: seq<Node>): seq<Cell>
  {
    if cs == [] then [] else CellsOf(cs[0]) + CellsAll(cs[1..])
  }

  lemma CellsTwo(f: Node, l: Node)
    ensures CellsAll([f, l]) == CellsOf(f) + CellsOf(l)
  {
    assert [f, l][1..] == [l] && [l][1..] == [];
    assert CellsAll([l]) == CellsOf(l) + CellsAll([]);
  }

  lemma CellsThree(f: Node, m: Node, l: Node)
    ensures CellsAll([f, m, l]) == CellsOf(f) + CellsOf(m) + CellsOf(l)
  {
    assert [f, m, l][1..] == [m, l];
    CellsTwo(m, l);
  }

  /** The parts of node.go DeletePrior hold the node's characters, those before `at` hidden. */
  lemma PriorCells(s: St, k: nat, at: int)
    requires k < |s.nodes| && Split2(s, k, Prior, at).Cut?
    ensures var P := Split2(s, k, Prior, at).parts;
      CellsAll([P.first, P.last]) == HideRange(CellsOf(s.nodes[k]), 0, at)
  {
    var P := Split2(s, k, Prior, at).parts;
    CellsTwo(P.first, P.last);
    PriorMarks(P.first.str, P.last.str, !s.nodes[k].hidden);
  }

  /** Marking two texts shown as `shown` and hiding the first one's range hides exactly it. */
  lemma PriorMarks(f: string, l: string, shown: bool)
    ensures HideRange(Mark(f + l, shown), 0, |f|) == Mark(f, false) + Mark(l, shown)
  {
    var x, y := Mark(f, shown), Mark(l, shown);
    MarkAppend(f, l, shown);
    HideSplit(x, y, 0, |f|);
    HideAll(f, shown, 0, |f|);
    HideNone(y, 0 - |x|, |f| - |x|);
    assert HideRange(x + y, 0, |f|) == Mark(f, false) + y;
  }

  /** The parts of node.go DeleteLast hold the node's characters, those from `at` on hidden. */
  lemma LastCells(s: St, k: nat, at: int)
    requires k < |s.nodes| && Split2(s, k, Last, at).Cut?
    ensures var P := Split2(s, k, Last, at).parts;
      CellsAll([P.first, P.last]) == HideRange(CellsOf(s.nodes[k]), at, |s.nodes[k].str|)
  {
    var P := Split2(s, k, Last, at).parts;
    CellsTwo(P.first, P.last);
    LastMarks(P.first.str, P.last.str, !s.nodes[k].hidden);
  }

  /** Marking two texts shown as `shown` and hiding the second one's range hides exactly it. */
  lemma LastMarks(f: string, l: string, shown: bool)
    ensures HideRange(Mark(f + l, shown), |f|, |f + l|) == Mark(f, shown) + Mark(l, false)
  {
    var x, y := Mark(f, shown), Mark(l, shown);
    MarkAppend(f, l, shown);
    HideSplit(x, y, |f|, |f + l|);
    HideNone(x, |f|, |f + l|);
    HideAll(l, shown, 0, |l|);
  }

  /** The parts of node.go DeleteMiddle hold the node's characters, the middle range hidden. */
  lemma MiddleCells(s: St, k: nat, pos: int, delLen: int)
    requires k < |s.nodes| && Split3(s, k, pos, delLen).Cut?
    ensures var P := Split3(s, k, pos, delLen).parts;
      CellsAll([P.first, P.middle, P.last]) == HideRange(CellsOf(s.nodes[k]), pos, pos + delLen)
  {
    var P := Split3(s, k, pos, delLen).parts;
    var n := s.nodes[k];
    CellsThree(P.first, P.middle, P.last);
    MiddleMarks(P.first.str, P.middle.str, P.last.str, !n.hidden);
  }

  /** Marking three texts shown as `shown` and hiding the middle one's range hides exactly it. */
  lemma MiddleMarks(f: string, m: string, l: string, shown: bool)
    ensures HideRange(Mark(f + m + l, shown), |f|, |f| + |m|) == Mark(f, shown) + Mark(m, false) + Mark(l, shown)
  {
    var x, y, z := Mark(f, shown), Mark(m, shown), Mark(l, shown);
    MarkAppend(f, m, shown);
    MarkAppend(f + m, l, shown);
    JoinAt(x, y, z, |f|, |f| + |m|, 0, |m|, -|m|, 0);
    HideNone(x, |f|, |f| + |m|);
    HideAll(m, shown, 0, |m|);
    HideNone(z, -|m|, 0);
  }

  /** An arena that holds, links aside, the split arena of leaf `k` into the parts `cs`: the
    * node's split tree holds the parts' characters, and no other old record changed. */
  lemma PartsShown(a: seq<Node>, k: nat, p: Node, cs: seq<Node>, b: seq<Node>)
    requires Forward(b) && k < |a| && SameButLinks(a[k := p] + cs, b)
    requires p.list == PartIndices(|a|, |cs|) && 2 <= |cs| <= 3
    requires forall j :: 0 <= j < |cs| ==> cs[j].list == []
    ensures Shown(b, k) == CellsAll(cs)
    ensures forall x :: 0 <= x < |a| && x != k ==> Unlinked(b[x]) == Unlinked(a[x])
  {
    var c := a[k := p] + cs;
    assert Unlinked(c[k]) == Unlinked(b[k]);
    forall j | 0 <= j < |cs| ensures Shown(b, |a| + j) == CellsOf(cs[j]) {
      assert Unlinked(c[|a| + j]) == Unlinked(b[|a| + j]);
      assert c[|a| + j] == cs[j];
    }
    forall x | 0 <= x < |a| && x != k ensures Unlinked(b[x]) == Unlinked(a[x]) {
      assert Unlinked(c[x]) == Unlinked(b[x]);
    }
    if |cs| == 2 {
      CellsTwo(cs[0], cs[1]);
      assert cs == [cs[0], cs[1]];
    } else {
      CellsThree(cs[0], cs[1], cs[2]);
      assert cs == [cs[0], cs[1], cs[2]];
    }
  }

  /** A linked node other than the tail comes before the last place of the chain. */
  lemma BeforeTail(s: St, k: nat)
    requires Linkable(s) && k in s.order && k != TailIx
    ensures IndexOf(s.order, k) + 1 < |s.order|
  {
  }

  /** A two-way delete that succeeds leaves, links aside, the arena split at leaf `k`. */
  lemma Cut2Same(s: St, k: nat, side: Side, at: int)
    requires Good(s) && k < |s.nodes| && k != TailIx
    requires Cut2(s, k, side, at).Done? && Cut2(s, k, side, at).err.None?
    ensures Split2(s, k, side, at).Cut?
    ensures var r := Cut2(s, k, side, at).st; var P := Split2(s, k, side, at).parts;
      && Good(r) && Forward(r.nodes) && |s.nodes| <= |r.nodes|
      && SameButLinks(s.nodes[k := P.parent] + [P.first, P.last], r.nodes)
      && P.parent.list == PartIndices(|s.nodes|, 2)
      && forall j :: 0 <= j < |[P.first, P.last]| ==> [P.first, P.last][j].list == []
  {
    GoodLinkable(s);
    Cut2Linked(s, k, side, at);
    Cut2Good(s, k, side, at);
    Cut2Effect(s, k, side, at);
    var P := Split2(s, k, side, at).parts;
    Split2Parts(s, k, side, at);
    var i := IndexOf(s.order, k);
    BeforeTail(s, k);
    assert ShapeAt(s.nodes, k);
    SplitReplaceShape(s, k, P.parent, [P.first, P.last], i);
  }

  /** A two-way delete that succeeds leaves node `k`'s split tree holding the parts'
    * characters and changes no other old record, links aside. */
  lemma Cut2Shown(s: St, k: nat, side: Side, at: int)
    requires Good(s) && k < |s.nodes| && k != TailIx
    requires Cut2(s, k, side, at).Done? && Cut2(s, k, side, at).err.None?
    ensures Split2(s, k, side, at).Cut?
    ensures var r := Cut2(s, k, side, at).st; var P := Split2(s, k, side, at).parts;
      && Good(r) && |s.nodes| <= |r.nodes| && Shown(r.nodes, k) == CellsAll([P.first, P.last])
      && forall x :: 0 <= x < |s.nodes| && x != k ==> Unlinked(r.nodes[x]) == Unlinked(s.nodes[x])
  {
    Cut2Same(s, k, side, at);
    var P := Split2(s, k, side, at).parts;
    PartsShown(s.nodes, k, P.parent, [P.first, P.last], Cut2(s, k, side, at).st.nodes);
  }

  /** A three-way delete that succeeds leaves, links aside, the arena split at leaf `k`. */
  lemma Cut3Same(s: St, k: nat, pos: int, delLen: int)
    requires Good(s) && k < |s.nodes| && k != TailIx
    requires Cut3(s, k, pos, delLen).Done? && Cut3(s, k, pos, delLen).err.None?
    ensures Split3(s, k, pos, delLen).Cut?
    ensures var r := Cut3(s, k, pos, delLen).st; var P := Split3(s, k, pos, delLen).parts;
      && Good(r) && Forward(r.nodes) && |s.nodes| <= |r.nodes|
      && SameButLinks(s.nodes[k := P.parent] + [P.first, P.middle, P.last], r.nodes)
      && P.parent.list == PartIndices(|s.nodes|, 3)
      && forall j :: 0 <= j < |[P.first, P.middle, P.last]| ==> [P.first, P.middle, P.last][j].list == []
  {
    GoodLinkable(s);
    Cut3Linked(s, k, pos, delLen);
    Cut3Good(s, k, pos, delLen);
    Cut3Effect(s, k, pos, delLen);
    var P := Split3(s, k, pos, delLen).parts;
    Split3Parts(s, k, pos, delLen);
    var i := IndexOf(s.order, k);
    BeforeTail(s, k);
    assert ShapeAt(s.nodes, k);
    SplitReplaceShape(s, k, P.parent, [P.first, P.middle, P.last], i);
  }

  /** A three-way delete that succeeds, likewise. */
  lemma Cut3Shown(s: St, k: nat, pos: int, delLen: int)
    requires Good(s) && k < |s.nodes| && k != TailIx
    requires Cut3(s, k, pos, delLen).Done? && Cut3(s, k, pos, delLen).err.None?
    ensures Split3(s, k, pos, delLen).Cut?
    ensures var r := Cut3(s, k, pos, delLen).st; var P := Split3(s, k, pos, delLen).parts;
      && Good(r) && |s.nodes| <= |r.nodes| && Shown(r.nodes, k) == CellsAll([P.first, P.middle, P.last])
      && forall x :: 0 <= x < |s.nodes| && x != k ==> Unlinked(r.nodes[x]) == Unlinked(s.nodes[x])
  {
    Cut3Same(s, k, pos, delLen);
    var P := Split3(s, k, pos, delLen).parts;
    PartsShown(s.nodes, k, P.parent, [P.first, P.middle, P.last], Cut3(s, k, pos, delLen).st.nodes);
  }

  /** node.go DeleteWhole of a leaf hides all its characters and changes no other record. */
  lemma HideCells(s: St, k: nat, a: int, b: int)
    requires Good(s) && k < |s.nodes| && k != TailIx && !s.nodes[k].split
    requires a == 0 && b == |s.nodes[k].str|
    ensures var r := HideAt(s, k);
      && Forward(r.nodes) && |s.nodes| <= |r.nodes|
      && Shown(r.nodes, k) == HideRange(CellsOf(s.nodes[k]), a, b)
      && forall x :: 0 <= x < |s.nodes| && x != k ==> Unlinked(r.nodes[x]) == Unlinked(s.nodes[x])
  {
    HideGood(s, k);
    assert ShapeAt(s.nodes, k);
    assert ShapeAt(HideAt(s, k).nodes, k);
    HideAll(s.nodes[k].str, !s.nodes[k].hidden, 0, |s.nodes[k].str|);
  }

  /** A delete of the first `at` characters of leaf `k` (node.go DeletePrior) that succeeds
    * hides exactly them. */
  lemma PriorCut(s: St, k: nat, at: int, a: int, b: int)
    requires Good(s) && k < |s.nodes| && k != TailIx && !s.nodes[k].split
    requires Cut2(s, k, Prior, at).Done? && Cut2(s, k, Prior, at).err.None?
    requires a == 0 && b == at
    ensures 0 <= at <= Length(s.nodes[k])
    ensures var r := Cut2(s, k, Prior, at).st;
      && Forward(r.nodes) && |s.nodes| <= |r.nodes|
      && Shown(r.nodes, k) == HideRange(CellsOf(s.nodes[k]), a, b)
      && forall x :: 0 <= x < |s.nodes| && x != k ==> Unlinked(r.nodes[x]) == Unlinked(s.nodes[x])
  {
    Cut2Shown(s, k, Prior, at);
    PriorCells(s, k, at);
  }

  /** A delete of the characters of leaf `k` from `at` on (node.go DeleteLast) that succeeds
    * hides exactly them. */
  lemma LastCut(s: St, k: nat, at: int, a: int, b: int)
    requires Good(s) && k < |s.nodes| && k != TailIx && !s.nodes[k].split
    requires Cut2(s, k, Last, at).Done? && Cut2(s, k, Last, at).err.None?
    requires a == at && b == |s.nodes[k].str|
    ensures 0 <= at <= Length(s.nodes[k])
    ensures var r := Cut2(s, k, Last, at).st;
      && Forward(r.nodes) && |s.nodes| <= |r.nodes|
      && Shown(r.nodes, k) == HideRange(CellsOf(s.nodes[k]), a, b)
      && forall x :: 0 <= x < |s.nodes| && x != k ==> Unlinked(r.nodes[x]) == Unlinked(s.nodes[x])
  {
    Cut2Shown(s, k, Last, at);
    LastCells(s, k, at);
  }

  /** A three-way delete of leaf `k` that succeeds hides the range DeleteMiddle tombstones. */
  lemma Cut3Cells(s: St, k: nat, pos: int, delLen: int)
    requires Good(s) && k < |s.nodes| && k != TailIx && !s.nodes[k].split
    requires Cut3(s, k, pos, delLen).Done? && Cut3(s, k, pos, delLen).err.None?
    ensures 0 <= pos && 0 <= delLen && pos + delLen <= |s.nodes[k].str|
    ensures var r := Cut3(s, k, pos, delLen).st;
      && Forward(r.nodes) && |s.nodes| <= |r.nodes|
      && Shown(r.nodes, k) == HideRange(CellsOf(s.nodes[k]), pos, pos + delLen)
      && forall x :: 0 <= x < |s.nodes| && x != k ==> Unlinked(r.nodes[x]) == Unlinked(s.nodes[x])
  {
    Cut3Shown(s, k, pos, delLen);
    MiddleCells(s, k, pos, delLen);
  }

  /** rgass.go doDelete on a leaf whose identifier records its text length, when it
    * succeeds: the range lies within the node, exactly the characters of the range stop
    * showing, and no other node's record changes. */
  lemma LeafCells(s: St, k: nat, pos: int, delLen: int)
    requires Good(s) && k < |s.nodes| && k != TailIx && !s.nodes[k].split
    requires |s.nodes[k].str| == Length(s.nodes[k])
    requires DeleteLeaf(s, k, pos, delLen).Done? && DeleteLeaf(s, k, pos, delLen).err.None?
    ensures 0 <= pos && 0 <= delLen && pos + delLen <= Length(s.nodes[k])
    ensures var r := DeleteLeaf(s, k, pos, delLen).st;
      && Forward(r.nodes) && |s.nodes| <= |r.nodes|
      && Shown(r.nodes, k) == HideRange(CellsOf(s.nodes[k]), pos, pos + delLen)
      && forall x :: 0 <= x < |s.nodes| && x != k ==> Unlinked(r.nodes[x]) == Unlinked(s.nodes[x])
  {
    var len := Length(s.nodes[k]);
    if pos == 0 && delLen == len {
      LeafWhole(s, k, pos, delLen);
    } else if pos == 0 && delLen < len {
      LeafPrior(s, k, pos, delLen);
    } else if pos > 0 && pos + delLen == len {
      LeafLast(s, k, pos, delLen);
    } else {
      LeafMiddle(s, k, pos, delLen);
    }
  }

  lemma LeafWhole(s: St, k: nat, pos: int, delLen: int)
    requires Good(s) && k < |s.nodes| && k != TailIx && !s.nodes[k].split
    requires |s.nodes[k].str| == Length(s.nodes[k])
    requires DeleteLeaf(s, k, pos, delLen).Done? && DeleteLeaf(s, k, pos, delLen).err.None?
    requires pos == 0 && delLen == Length(s.nodes[k])
    ensures 0 <= pos && 0 <= delLen && pos + delLen <= Length(s.nodes[k])
    ensures var r := DeleteLeaf(s, k, pos, delLen).st;
      && Forward(r.nodes) && |s.nodes| <= |r.nodes|
      && Shown(r.nodes, k) == HideRange(CellsOf(s.nodes[k]), pos, pos + delLen)
      && forall x :: 0 <= x < |s.nodes| && x != k ==> Unlinked(r.nodes[x]) == Unlinked(s.nodes[x])
  {
    assert DeleteLeaf(s, k, pos, delLen) == Done(HideAt(s, k), None);
    HideCells(s, k, pos, pos + delLen);
  }

  lemma LeafPrior(s: St, k: nat, pos: int, delLen: int)
    requires Good(s) && k < |s.nodes| && k != TailIx && !s.nodes[k].split
    requires |s.nodes[k].str| == Length(s.nodes[k])
    requires DeleteLeaf(s, k, pos, delLen).Done? && DeleteLeaf(s, k, pos, delLen).err.None?
    requires pos == 0 && delLen < Length(s.nodes[k])
    ensures 0 <= pos && 0 <= delLen && pos + delLen <= Length(s.nodes[k])
    ensures var r := DeleteLeaf(s, k, pos, delLen).st;
      && Forward(r.nodes) && |s.nodes| <= |r.nodes|
      && Shown(r.nodes, k) == HideRange(CellsOf(s.nodes[k]), pos, pos + delLen)
      && forall x :: 0 <= x < |s.nodes| && x != k ==> Unlinked(r.nodes[x]) == Unlinked(s.nodes[x])
  {
    assert DeleteLeaf(s, k, pos, delLen) == Cut2(s, k, Prior, delLen);
    PriorCut(s, k, delLen, pos, pos + delLen);
  }

  lemma LeafLast(s: St, k: nat, pos: int, delLen: int)
    requires Good(s) && k < |s.nodes| && k != TailIx && !s.nodes[k].split
    requires |s.nodes[k].str| == Length(s.nodes[k])
    requires DeleteLeaf(s, k, pos, delLen).Done? && DeleteLeaf(s, k, pos, delLen).err.None?
    requires pos > 0 && pos + delLen == Length(s.nodes[k])
    ensures 0 <= pos && 0 <= delLen && pos + delLen <= Length(s.nodes[k])
    ensures var r := DeleteLeaf(s, k, pos, delLen).st;
      && Forward(r.nodes) && |s.nodes| <= |r.nodes|
      && Shown(r.nodes, k) == HideRange(CellsOf(s.nodes[k]), pos, pos + delLen)
      && forall x :: 0 <= x < |s.nodes| && x != k ==> Unlinked(r.nodes[x]) == Unlinked(s.nodes[x])
  {
    assert DeleteLeaf(s, k, pos, delLen) == Cut2(s, k, Last, pos);
    LastCut(s, k, pos, pos, pos + delLen);
  }

  lemma LeafMiddle(s: St, k: nat, pos: int, delLen: int)
    requires Good(s) && k < |s.nodes| && k != TailIx && !s.nodes[k].split
    requires |s.nodes[k].str| == Length(s.nodes[k])
    requires DeleteLeaf(s, k, pos, delLen).Done? && DeleteLeaf(s, k, pos, delLen).err.None?
    requires pos != 0 && pos + delLen != Length(s.nodes[k])
    ensures 0 <= pos && 0 <= delLen && pos + delLen <= Length(s.nodes[k])
    ensures var r := DeleteLeaf(s, k, pos, delLen).st;
      && Forward(r.nodes) && |s.nodes| <= |r.nodes|
      && Shown(r.nodes, k) == HideRange(CellsOf(s.nodes[k]), pos, pos + delLen)
      && forall x :: 0 <= x < |s.nodes| && x != k ==> Unlinked(r.nodes[x]) == Unlinked(s.nodes[x])
  {
    assert DeleteLeaf(s, k, pos, delLen) == Cut3(s, k, pos, delLen);
    Cut3Cells(s, k, pos, delLen);
  }

  /** The index, among the children of lengths `lens` of a split node, of the child
    * rgass.go doDelete starts deleting from. */
  function FirstStep(lens: seq<int>, pos: int): nat
    requires |lens| >= 2
  {
    if pos <= lens[0] then 0 else if pos - lens[0] <= lens[1] then 1 else 2
  }

  /** The total length of the children before the `j`-th. */
  function Offset(lens: seq<int>, j: nat): int
    requires j <= |lens|
  {
    if j == 0 then 0 else Offset(lens, j - 1) + lens[j - 1]
  }

  /** The total length the calls delete. */
  function StepsLen(steps: seq<Step>): int
  {
    if steps == [] then 0 else steps[0].delLen + StepsLen(steps[1..])
  }

  /** The calls rgass.go doDelete plans on a split node follow one another over the range:
    * the first starts at `pos` within the child FirstStep names, each next one takes the next
    * child from its start, each but the last runs to the end of its child, and their lengths
    * add up to `delLen`. A call reaching past the last child has no child (a nil pointer). */
  lemma PlanCovers(l: seq<nat>, lens: seq<int>, pos: int, delLen: int)
    requires 2 <= |l| <= 3 && |lens| == |l| && Plan(l, lens, pos, delLen).Some?
    ensures var steps, c := Plan(l, lens, pos, delLen).value, FirstStep(lens, pos);
      && c < |l| && c + |steps| <= 3
      && steps[0].pos == pos - Offset(lens, c)
      && (forall i :: 0 <= i < |steps| ==> steps[i].child == (if c + i < |l| then Some(l[c + i]) else None))
      && (forall i :: 0 < i < |steps| ==> steps[i].pos == 0)
      && (forall i :: 0 <= i < |steps| - 1 ==> c + i < |l| && steps[i].pos + steps[i].delLen == lens[c + i])
      && StepsLen(steps) == delLen
  {
    var steps := Plan(l, lens, pos, delLen).value;
    assert Offset(lens, 1) == lens[0];
    assert Offset(lens, 2) == lens[0] + lens[1];
    if |steps| == 1 {
      assert steps[1..] == [];
    } else if |steps| == 2 {
      assert steps[1..][1..] == [];
    } else {
      var t := steps[1..][1..];
      assert t == [steps[2]] && t[1..] == [];
      assert StepsLen(t) == steps[2].delLen;
      assert StepsLen(steps[1..]) == steps[1].delLen + steps[2].delLen;
    }
  }

  /** The calls of a plan stay within their children: what a successful deletion shows. */
  ghost predicate StepsFit(lens: seq<int>, steps: seq<Step>, c: nat)
  {
    forall i :: 0 <= i < |steps| ==>
      c + i < |lens| && 0 <= steps[i].pos && 0 <= steps[i].delLen && steps[i].pos + steps[i].delLen <= lens[c + i]
  }

  /** Within a child of length `len`, the range from `A` to `B` hides what the call on the
    * `j`-th child hides, or nothing when no call reaches that child. */
  ghost predicate Clipped(steps: seq<Step>, c: nat, j: nat, len: int, A: int, B: int)
  {
    if c <= j < c + |steps| then
      var t := steps[j - c];
      && (t.pos == A || (t.pos <= 0 && A <= 0))
      && (t.pos + t.delLen == B || (t.pos + t.delLen >= len && B >= len))
    else B <= 0 || A >= len || B <= A
  }

  /** For calls that stay within their children, the part of the range that falls into the
    * `j`-th child is what the call on that child deletes from it, and a child no call
    * reaches loses nothing. */
  lemma PlanClips(l: seq<nat>, lens: seq<int>, pos: int, delLen: int, j: nat)
    requires 2 <= |l| <= 3 && |lens| == |l| && Plan(l, lens, pos, delLen).Some?
    requires forall t :: 0 <= t < |lens| ==> lens[t] >= 0
    requires j < |l|
    requires StepsFit(lens, Plan(l, lens, pos, delLen).value, FirstStep(lens, pos))
    ensures Clipped(Plan(l, lens, pos, delLen).value, FirstStep(lens, pos), j, lens[j],
                    pos - Offset(lens, j), pos + delLen - Offset(lens, j))
  {
    PlanCovers(l, lens, pos, delLen);
    var steps, c := Plan(l, lens, pos, delLen).value, FirstStep(lens, pos);
    assert Offset(lens, 1) == lens[0];
    assert Offset(lens, 2) == lens[0] + lens[1];
    assert |steps| >= 2 ==> StepsLen(steps) == steps[0].delLen + StepsLen(steps[1..]);
    if |steps| == 1 {
      assert steps[1..] == [];
    } else if |steps| == 2 {
      assert steps[1..][1..] == [];
    } else {
      var t := steps[1..][1..];
      assert t == [steps[2]] && t[1..] == [];
      assert StepsLen(t) == steps[2].delLen;
      assert StepsLen(steps[1..]) == steps[1].delLen + steps[2].delLen;
    }
  }

  /** Calls that stay within their children cover a range within the node. */
  lemma PlanRange(l: seq<nat>, lens: seq<int>, pos: int, delLen: int)
    requires 2 <= |l| <= 3 && |lens| == |l| && Plan(l, lens, pos, delLen).Some?
    requires forall t :: 0 <= t < |lens| ==> lens[t] >= 0
    requires StepsFit(lens, Plan(l, lens, pos, delLen).value, FirstStep(lens, pos))
    ensures 0 <= pos && 0 <= delLen && pos + delLen <= Offset(lens, |l|)
  {
    PlanCovers(l, lens, pos, delLen);
    var steps := Plan(l, lens, pos, delLen).value;
    assert Offset(lens, 1) == lens[0];
    assert Offset(lens, 2) == lens[0] + lens[1];
    if |lens| == 3 {
      assert Offset(lens, 3) == Offset(lens, 2) + lens[2];
    }
    if |steps| == 1 {
      assert steps[1..] == [];
    } else if |steps| == 2 {
      assert steps[1..][1..] == [];
    } else {
      var t := steps[1..][1..];
      assert t == [steps[2]] && t[1..] == [];
      assert StepsLen(t) == steps[2].delLen;
      assert StepsLen(steps[1..]) == steps[1].delLen + steps[2].delLen;
    }
  }

  /** In arena `b`, node `x`'s split tree holds the characters it held in arena `a` with the
    * range of `delLen` characters from `pos`, which lies within the node, no longer shown. */
  ghost predicate Erased(a: seq<Node>, b: seq<Node>, x: nat, pos: int, delLen: int)
  {
    && Forward(a) && Forward(b) && x < |a| <= |b|
    && 0 <= pos && 0 <= delLen && pos + delLen <= Length(a[x])
    && Shown(b, x) == HideRange(Shown(a, x), pos, pos + delLen)
  }

  /** Arena `b` holds the records of `a`, links aside, at every index of `a` outside `region`. */
  ghost predicate KeepsOutside(a: seq<Node>, b: seq<Node>, region: set<nat>)
  {
    |a| <= |b| && forall x :: 0 <= x < |a| && x !in region ==> Unlinked(b[x]) == Unlinked(a[x])
  }

  /** The indices of the split trees of the `n` children of `l` from the `c`-th on. */
  ghost function Within(nodes: seq<Node>, l: seq<nat>, c: nat, n: nat): set<nat>
    requires Forward(nodes) && c + n <= |l| && forall j :: c <= j < c + n ==> l[j] < |nodes|
  {
    set j, x | c <= j < c + n && x in Sub(nodes, l[j]) :: x
  }

  /** The split trees of the children of a node are disjoint from each other and leave out
    * the node. */
  lemma WithinApart(nodes: seq<Node>, k: nat, j: nat, c: nat, n: nat)
    requires Arena.Arena(nodes) && k < |nodes| && c + n <= |nodes[k].list| && j < |nodes[k].list|
    requires !(c <= j < c + n)
    ensures ShapeAt(nodes, k)
    ensures var l := nodes[k].list;
      && (forall x :: x in Within(nodes, l, c, n) ==> k < x)
      && Sub(nodes, l[j]) !! Within(nodes, l, c, n)
  {
    assert ShapeAt(nodes, k);
    var l := nodes[k].list;
    forall x | x in Within(nodes, l, c, n) ensures k < x && x !in Sub(nodes, l[j]) {
      var t :| c <= t < c + n && x in Sub(nodes, l[t]);
      ChildrenApart(nodes, k, t, j);
    }
  }

  /** Arenas whose split trees of the children from the `c`-th on agree have the same
    * indices in them. */
  lemma WithinSame(a: seq<Node>, b: seq<Node>, l: seq<nat>, c: nat, n: nat)
    requires Forward(a) && Forward(b) && c + n <= |l|
    requires forall j :: c <= j < c + n ==> l[j] < |a| && l[j] < |b| && Sub(b, l[j]) == Sub(a, l[j])
    ensures Within(b, l, c, n) == Within(a, l, c, n)
  {
  }

  /** The calls `steps` name the children of `l` in turn from the `c`-th on, a missing third
    * child as `None`. */
  ghost predicate Aimed(steps: seq<Step>, l: seq<nat>, c: nat)
  {
    forall i :: 0 <= i < |steps| ==> steps[i].child == (if c + i < |l| then Some(l[c + i]) else None)
  }

  /** Node `k` is split, `steps` are calls on its children from the `c`-th on, and the split
    * trees of those children record their text lengths. */
  ghost predicate Family(nodes: seq<Node>, k: nat, c: nat, steps: seq<Step>)
    requires Forward(nodes) && k < |nodes|
  {
    && ShapeAt(nodes, k) && nodes[k].split
    && c <= |nodes[k].list| && c + |steps| <= 3
    && Aimed(steps, nodes[k].list, c)
    && forall j :: c <= j < |nodes[k].list| ==> Sized(nodes, nodes[k].list[j])
  }

  /** After calls `steps` on the children of node `k` from the `c`-th on: they named children
    * that exist, each hid its range of its child's characters, and every record outside
    * those children's split trees stayed as it was, links aside. */
  ghost predicate StepsDone(a: seq<Node>, b: seq<Node>, k: nat, c: nat, steps: seq<Step>)
    requires Forward(a) && k < |a| && ShapeAt(a, k)
  {
    var l := a[k].list;
    && c + |steps| <= |l|
    && KeepsOutside(a, b, Within(a, l, c, |steps|))
    && forall i :: 0 <= i < |steps| ==> Erased(a, b, l[c + i], steps[i].pos, steps[i].delLen)
  }

  /** The first of the calls a split node's doDelete makes, when they all succeed: it names a
    * child and succeeds, and the rest run on the state it leaves. */
  lemma FirstCall(s: St, k: nat, c: nat, steps: seq<Step>, fuel: nat)
    requires Good(s) && k < |s.nodes| && Steppable(s, steps) && Family(s.nodes, k, c, steps) && steps != []
    requires RunSteps(s, steps, fuel).Done? && RunSteps(s, steps, fuel).err.None?
    ensures c < |s.nodes[k].list| && TailIx < s.nodes[k].list[c] < |s.nodes|
    ensures var first := DoDeleteSt(s, s.nodes[k].list[c], steps[0].pos, steps[0].delLen, fuel);
      && first.Done? && first.err.None? && |s.nodes| <= |first.st.nodes|
      && Steppable(first.st, steps[1..])
      && RunSteps(s, steps, fuel) == RunSteps(first.st, steps[1..], fuel)
  {
    assert steps[0].child.Some?;
  }

  /** A delete within the `c`-th child of node `k` leaves the node, and the split trees of its
    * later children, as they were, links aside. */
  lemma NextFamily(a: seq<Node>, b: seq<Node>, k: nat, c: nat, steps: seq<Step>)
    requires Arena.Arena(a) && Forward(b) && k < |a| && Family(a, k, c, steps) && steps != []
    requires c < |a[k].list| && KeepsOutside(a, b, Sub(a, a[k].list[c]))
    ensures var l := a[k].list;
      && Unlinked(b[k]) == Unlinked(a[k]) && Family(b, k, c + 1, steps[1..])
      && (forall j :: c < j < |l| ==>
            && Sub(b, l[j]) == Sub(a, l[j]) && Shown(b, l[j]) == Shown(a, l[j])
            && Length(b[l[j]]) == Length(a[l[j]]))
  {
    var l := a[k].list;
    var other := if c == 0 then 1 else 0;
    ChildrenApart(a, k, c, other);
    assert ShapeAt(b, k);
    forall j | c < j < |l|
      ensures && Sub(b, l[j]) == Sub(a, l[j]) && Shown(b, l[j]) == Shown(a, l[j])
              && (Sized(b, l[j]) <==> Sized(a, l[j])) && Length(b[l[j]]) == Length(a[l[j]])
    {
      ChildrenApart(a, k, c, j);
      SubFrame(a, b, l[j]);
    }
    forall i | 0 <= i < |steps[1..]| ensures steps[1..][i].child == (if c + 1 + i < |l| then Some(l[c + 1 + i]) else None) {
      assert steps[1..][i] == steps[i + 1];
    }
  }

  /** The calls on the later children of node `k` leave the split tree of its `c`-th child as
    * it was. */
  lemma BeforeChildren(b: seq<Node>, r: seq<Node>, k: nat, c: nat, n: nat)
    requires Arena.Arena(b) && Forward(r) && k < |b| && c < |b[k].list| && c + 1 + n <= |b[k].list|
    requires ShapeAt(b, k)
    requires KeepsOutside(b, r, Within(b, b[k].list, c + 1, n))
    ensures var l := b[k].list; Shown(r, l[c]) == Shown(b, l[c])
  {
    var l := b[k].list;
    WithinApart(b, k, c, c + 1, n);
    SubFrame(b, r, l[c]);
  }

  /** What the first call and the later ones did, put together. */
  lemma StepsJoin(a: seq<Node>, b: seq<Node>, r: seq<Node>, k: nat, c: nat, steps: seq<Step>)
    requires Arena.Arena(a) && Arena.Arena(b) && Forward(r) && k < |a| && ShapeAt(a, k) && steps != []
    requires c < |a[k].list| && Erased(a, b, a[k].list[c], steps[0].pos, steps[0].delLen)
    requires KeepsOutside(a, b, Sub(a, a[k].list[c]))
    requires k < |b| && ShapeAt(b, k) && b[k].list == a[k].list
    requires forall j :: c < j < |a[k].list| ==>
      Sub(b, a[k].list[j]) == Sub(a, a[k].list[j]) && Shown(b, a[k].list[j]) == Shown(a, a[k].list[j])
      && Length(b[a[k].list[j]]) == Length(a[a[k].list[j]])
    requires StepsDone(b, r, k, c + 1, steps[1..])
    ensures StepsDone(a, r, k, c, steps)
  {
    var l := a[k].list;
    var n := |steps|;
    BeforeChildren(b, r, k, c, n - 1);
    WithinSame(a, b, l, c + 1, n - 1);
    forall i | 0 <= i < n ensures Erased(a, r, l[c + i], steps[i].pos, steps[i].delLen) {
      if i > 0 {
        assert steps[1..][i - 1] == steps[i];
        assert Erased(b, r, l[c + 1 + (i - 1)], steps[1..][i - 1].pos, steps[1..][i - 1].delLen);
      }
    }
    forall x | 0 <= x < |a| && x !in Within(a, l, c, n) ensures Unlinked(r[x]) == Unlinked(a[x]) {
      assert x !in Sub(a, l[c]);
      assert x !in Within(a, l, c + 1, n - 1);
    }
  }

  /** rgass.go doDelete on node `k`, when it succeeds: exactly the range's characters of the
    * node's split tree stop showing, the range lies within the node, and every record
    * outside that split tree stays as it was, links aside. The identifiers of the tree's
    * nodes must record their text lengths, as the source's identifiers do. */
  lemma {:induction false} DoDeleteCells(s: St, k: nat, pos: int, delLen: int, fuel: nat)
    requires Good(s) && k < |s.nodes| && k != TailIx && Sized(s.nodes, k)
    requires DoDeleteSt(s, k, pos, delLen, fuel).Done? && DoDeleteSt(s, k, pos, delLen, fuel).err.None?
    ensures var r := DoDeleteSt(s, k, pos, delLen, fuel).st;
      Erased(s.nodes, r.nodes, k, pos, delLen) && KeepsOutside(s.nodes, r.nodes, Sub(s.nodes, k))
    decreases fuel, 2, 0
  {
    assert ShapeAt(s.nodes, k);
    if !s.nodes[k].split {
      LeafCells(s, k, pos, delLen);
    } else {
      ChildrenCells(s, k, pos, delLen, fuel);
    }
  }

  /** The calls a split node's doDelete plans: they exist when it succeeds, and they are calls
    * on its children, from the one the range starts in, whose trees record their lengths. */
  lemma ChildrenPlan(s: St, k: nat, pos: int, delLen: int, fuel: nat, f: nat)
    requires Good(s) && k < |s.nodes| && k != TailIx && s.nodes[k].split && fuel == f + 1 && Sized(s.nodes, k)
    requires DeleteChildren(s, k, pos, delLen, fuel).Done? && DeleteChildren(s, k, pos, delLen, fuel).err.None?
    ensures ShapeAt(s.nodes, k)
    ensures var l := s.nodes[k].list; var lens := Lens(s.nodes, l);
      && Plan(l, lens, pos, delLen).Some?
      && var steps, c := Plan(l, lens, pos, delLen).value, FirstStep(lens, pos);
      && Steppable(s, steps) && Family(s.nodes, k, c, steps)
      && ChildrenRun(s, k, pos, delLen, fuel) == StepsRun(s, steps, f)
  {
    ChildrenShape(s, k, pos, delLen, fuel);
    var l := s.nodes[k].list;
    var steps := Plan(l, Lens(s.nodes, l), pos, delLen).value;
    ChildrenSteps(s, k, pos, delLen, f, steps);
    SameChildrenFuel(s, k, pos, delLen, fuel, f);
  }

  /** Equal fuel, equal runs. */
  lemma SameChildrenFuel(s: St, k: nat, pos: int, delLen: int, fuel: nat, f: nat)
    requires Good(s) && k < |s.nodes| && k != TailIx && s.nodes[k].split && fuel == f + 1
    ensures ChildrenRun(s, k, pos, delLen, fuel) == ChildrenRun(s, k, pos, delLen, f + 1)
  {
  }

  /** The plan of a split node's doDelete that succeeds: calls on its children, from the one
    * the range starts in, whose trees record their lengths. */
  lemma ChildrenShape(s: St, k: nat, pos: int, delLen: int, fuel: nat)
    requires Good(s) && k < |s.nodes| && k != TailIx && s.nodes[k].split && fuel >= 1 && Sized(s.nodes, k)
    requires DeleteChildren(s, k, pos, delLen, fuel).Done? && DeleteChildren(s, k, pos, delLen, fuel).err.None?
    ensures ShapeAt(s.nodes, k)
    ensures var l := s.nodes[k].list; var lens := Lens(s.nodes, l);
      && Plan(l, lens, pos, delLen).Some?
      && var steps, c := Plan(l, lens, pos, delLen).value, FirstStep(lens, pos);
      && Steppable(s, steps) && Family(s.nodes, k, c, steps)
  {
    PlanFound(s, k, pos, delLen, fuel);
    PlanSteppable(s, k, pos, delLen);
    ReadyFamily(s.nodes, k, pos, delLen);
  }

  /** A split node's doDelete with a plan found runs the planned calls, with one unit less
    * of fuel. */
  lemma ChildrenSteps(s: St, k: nat, pos: int, delLen: int, f: nat, steps: seq<Step>)
    requires Good(s) && k < |s.nodes| && k != TailIx && s.nodes[k].split && ShapeAt(s.nodes, k)
    requires Plan(s.nodes[k].list, Lens(s.nodes, s.nodes[k].list), pos, delLen) == Some(steps)
    requires Steppable(s, steps)
    ensures ChildrenRun(s, k, pos, delLen, f + 1) == StepsRun(s, steps, f)
  {
    PlannedRun(s, k, pos, delLen, f + 1, steps);
  }

  /** A split node's doDelete that succeeds found a plan for its range. */
  lemma PlanFound(s: St, k: nat, pos: int, delLen: int, fuel: nat)
    requires Good(s) && k < |s.nodes| && k != TailIx && s.nodes[k].split && fuel >= 1
    requires DeleteChildren(s, k, pos, delLen, fuel).Done? && DeleteChildren(s, k, pos, delLen, fuel).err.None?
    ensures ShapeAt(s.nodes, k)
    ensures var l := s.nodes[k].list; Plan(l, Lens(s.nodes, l), pos, delLen).Some?
  {
    assert ShapeAt(s.nodes, k);
  }

  /** A split node's doDelete, and the calls it plans run in turn; neither is recursive
    * itself, so a proof about them unfolds the recursion only where it asks to. */
  ghost function ChildrenRun(s: St, k: nat, pos: int, delLen: int, fuel: nat): Run
    requires Good(s) && k < |s.nodes| && k != TailIx && s.nodes[k].split && fuel >= 1
  {
    DeleteChildren(s, k, pos, delLen, fuel)
  }

  ghost function StepsRun(s: St, steps: seq<Step>, fuel: nat): Run
    requires Good(s) && Steppable(s, steps)
  {
    RunSteps(s, steps, fuel)
  }

  /** With a plan found, a split node's doDelete is the planned calls run in turn. */
  lemma PlannedRun(s: St, k: nat, pos: int, delLen: int, fuel: nat, steps: seq<Step>)
    requires Good(s) && k < |s.nodes| && k != TailIx && s.nodes[k].split && fuel >= 1 && ShapeAt(s.nodes, k)
    requires Plan(s.nodes[k].list, Lens(s.nodes, s.nodes[k].list), pos, delLen) == Some(steps)
    requires Steppable(s, steps)
    ensures ChildrenRun(s, k, pos, delLen, fuel) == StepsRun(s, steps, fuel - 1)
  {
    PlannedSteps(s, k, pos, delLen, fuel, steps);
  }

  lemma PlannedSteps(s: St, k: nat, pos: int, delLen: int, fuel: nat, steps: seq<Step>)
    requires Good(s) && k < |s.nodes| && k != TailIx && s.nodes[k].split && fuel >= 1 && ShapeAt(s.nodes, k)
    requires Plan(s.nodes[k].list, Lens(s.nodes, s.nodes[k].list), pos, delLen) == Some(steps)
    requires Steppable(s, steps)
    ensures DeleteChildren(s, k, pos, delLen, fuel) == RunSteps(s, steps, fuel - 1)
  {
  }

  /** The calls Plan chooses for a split node whose tree records its lengths start at the
    * child the range starts in and name its children in turn. */
  lemma ReadyFamily(nodes: seq<Node>, k: nat, pos: int, delLen: int)
    requires Arena.Arena(nodes) && k < |nodes| && nodes[k].split && Sized(nodes, k)
    requires ShapeAt(nodes, k) && Plan(nodes[k].list, Lens(nodes, nodes[k].list), pos, delLen).Some?
    ensures var l := nodes[k].list; var lens := Lens(nodes, l);
      Family(nodes, k, FirstStep(lens, pos), Plan(l, lens, pos, delLen).value)
  {
    var l := nodes[k].list;
    var lens := Lens(nodes, l);
    var steps, c := Plan(l, lens, pos, delLen).value, FirstStep(lens, pos);
    PlanCovers(l, lens, pos, delLen);
    SizedChildren(nodes, k);
    assert Aimed(steps, l, c);
  }

  /** The split-node case of rgass.go doDelete, when it succeeds: the calls it plans hide
    * exactly the range's characters of the node's split tree. */
  lemma {:induction false} ChildrenCells(s: St, k: nat, pos: int, delLen: int, fuel: nat)
    requires Good(s) && k < |s.nodes| && k != TailIx && s.nodes[k].split && fuel >= 1 && Sized(s.nodes, k)
    requires DeleteChildren(s, k, pos, delLen, fuel).Done? && DeleteChildren(s, k, pos, delLen, fuel).err.None?
    ensures var r := DeleteChildren(s, k, pos, delLen, fuel).st;
      Erased(s.nodes, r.nodes, k, pos, delLen) && KeepsOutside(s.nodes, r.nodes, Sub(s.nodes, k))
    decreases fuel, 1, 0
  {
    var f := fuel - 1;
    ChildrenPlan(s, k, pos, delLen, fuel, f);
    var l := s.nodes[k].list;
    var lens := Lens(s.nodes, l);
    PlannedCells(s, k, pos, delLen, f, Plan(l, lens, pos, delLen).value, FirstStep(lens, pos));
  }

  /** The calls planned for a split node hide exactly the range's characters of its tree. */
  lemma {:induction false} PlannedCells(s: St, k: nat, pos: int, delLen: int, f: nat, steps: seq<Step>, c: nat)
    requires Good(s) && k < |s.nodes| && s.nodes[k].split && Sized(s.nodes, k)
    requires ShapeAt(s.nodes, k) && Steppable(s, steps) && Family(s.nodes, k, c, steps)
    requires Plan(s.nodes[k].list, Lens(s.nodes, s.nodes[k].list), pos, delLen) == Some(steps)
    requires c == FirstStep(Lens(s.nodes, s.nodes[k].list), pos)
    requires RunSteps(s, steps, f).Done? && RunSteps(s, steps, f).err.None?
    ensures var r := RunSteps(s, steps, f).st;
      Erased(s.nodes, r.nodes, k, pos, delLen) && KeepsOutside(s.nodes, r.nodes, Sub(s.nodes, k))
    decreases f, 4, 0
  {
    StepsCells(s, k, steps, f, c);
    ChildrenPieces(s.nodes, RunSteps(s, steps, f).st.nodes, k, pos, delLen, steps, c);
  }

  /** The split trees of the children of a node whose tree records its text lengths record
    * theirs, and each child's characters are as many as its length. */
  lemma SizedChildren(nodes: seq<Node>, k: nat)
    requires Forward(nodes) && k < |nodes| && Sized(nodes, k)
    ensures ShapeAt(nodes, k)
    ensures var l := nodes[k].list;
      && |Shown(nodes, k)| == Length(nodes[k])
      && forall j :: 0 <= j < |l| ==> Sized(nodes, l[j]) && |Shown(nodes, l[j])| == Length(nodes[l[j]]) >= 0
  {
    assert ShapeAt(nodes, k);
  }

  /** The calls of a split node's doDelete on its children, when they all succeed: each hides
    * its range of its child's characters and nothing outside those children's trees changes. */
  lemma {:induction false} StepsCells(s: St, k: nat, steps: seq<Step>, fuel: nat, c: nat)
    requires Good(s) && k < |s.nodes| && Steppable(s, steps) && Family(s.nodes, k, c, steps)
    requires RunSteps(s, steps, fuel).Done? && RunSteps(s, steps, fuel).err.None?
    ensures StepsDone(s.nodes, RunSteps(s, steps, fuel).st.nodes, k, c, steps)
    decreases fuel, 3, |steps|
  {
    if steps == [] {
      assert RunSteps(s, steps, fuel).st == s;
    } else {
      FirstCall(s, k, c, steps, fuel);
      var x := s.nodes[k].list[c];
      var s1 := DoDeleteSt(s, x, steps[0].pos, steps[0].delLen, fuel).st;
      DoDeleteCells(s, x, steps[0].pos, steps[0].delLen, fuel);
      NextFamily(s.nodes, s1.nodes, k, c, steps);
      StepsCells(s1, k, steps[1..], fuel, c + 1);
      StepsJoin(s.nodes, s1.nodes, RunSteps(s1, steps[1..], fuel).st.nodes, k, c, steps);
    }
  }

  /** The split trees of a node's children lie within the node's tree and leave out the node. */
  lemma WithinSub(nodes: seq<Node>, k: nat, c: nat, n: nat)
    requires Arena.Arena(nodes) && k < |nodes| && c + n <= |nodes[k].list|
    ensures ShapeAt(nodes, k)
    ensures Within(nodes, nodes[k].list, c, n) <= Sub(nodes, k) && k !in Within(nodes, nodes[k].list, c, n)
  {
    assert ShapeAt(nodes, k);
    var l := nodes[k].list;
    forall x | x in Within(nodes, l, c, n) ensures x in Sub(nodes, k) && x != k {
      var t :| c <= t < c + n && x in Sub(nodes, l[t]);
      assert k < l[t];
    }
  }

  /** The calls `steps` on the children of node `k` of arena `a`, from the `c`-th on, have
    * left arena `b`. */
  ghost predicate After(a: seq<Node>, b: seq<Node>, k: nat, c: nat, steps: seq<Step>)
  {
    Arena.Arena(a) && Forward(b) && k < |a| && ShapeAt(a, k) && StepsDone(a, b, k, c, steps)
  }

  /** What the calls did to the `j`-th child `x`: the call that reached it hid its range, and a
    * child no call reached shows what it showed. */
  ghost predicate Fate(a: seq<Node>, b: seq<Node>, x: nat, c: nat, steps: seq<Step>, j: nat)
    requires Forward(a) && Forward(b) && x < |a| && x < |b|
  {
    if c <= j < c + |steps| then
      var t := steps[j - c];
      Shown(b, x) == HideRange(Shown(a, x), t.pos, t.pos + t.delLen)
    else Shown(b, x) == Shown(a, x)
  }

  /** Each child of node `k` met its fate. */
  lemma ChildFate(a: seq<Node>, b: seq<Node>, k: nat, c: nat, steps: seq<Step>, j: nat)
    requires After(a, b, k, c, steps) && j < |a[k].list| && |a| <= |b|
    ensures a[k].list[j] < |a| && Fate(a, b, a[k].list[j], c, steps, j)
  {
    if c <= j < c + |steps| {
      ReachedChild(a, b, k, c, steps, j);
    } else {
      MissedChild(a, b, k, c, steps, j);
    }
  }

  /** A range clipped to the `j`-th child hides there what that child's fate hid. */
  lemma FateClipped(cs: seq<Cell>, cs': seq<Cell>, c: nat, steps: seq<Step>, j: nat, A: int, B: int)
    requires Clipped(steps, c, j, |cs|, A, B)
    requires if c <= j < c + |steps| then
        var t := steps[j - c];
        cs' == HideRange(cs, t.pos, t.pos + t.delLen)
      else cs' == cs
    ensures cs' == HideRange(cs, A, B)
  {
    if c <= j < c + |steps| {
      var t := steps[j - c];
      HideSame(cs, t.pos, t.pos + t.delLen, A, B);
    } else {
      HideNone(cs, A, B);
    }
  }

  /** Calls that each hid a range within their child stay within the children's lengths. */
  lemma StepsFitDone(a: seq<Node>, b: seq<Node>, k: nat, c: nat, steps: seq<Step>)
    requires Forward(a) && k < |a| && ShapeAt(a, k) && StepsDone(a, b, k, c, steps)
    ensures StepsFit(Lens(a, a[k].list), steps, c)
  {
    var l := a[k].list;
    var lens := Lens(a, l);
    forall i | 0 <= i < |steps|
      ensures c + i < |lens| && 0 <= steps[i].pos && 0 <= steps[i].delLen && steps[i].pos + steps[i].delLen <= lens[c + i]
    {
      assert Erased(a, b, l[c + i], steps[i].pos, steps[i].delLen);
    }
  }

  /** A child one of the calls reached shows its characters with that call's range hidden. */
  lemma ReachedChild(a: seq<Node>, b: seq<Node>, k: nat, c: nat, steps: seq<Step>, j: nat)
    requires Forward(a) && k < |a| && ShapeAt(a, k) && StepsDone(a, b, k, c, steps) && c <= j < c + |steps|
    ensures var l, t := a[k].list, steps[j - c];
      Shown(b, l[j]) == HideRange(Shown(a, l[j]), t.pos, t.pos + t.delLen)
  {
    var l := a[k].list;
    assert c + (j - c) == j;
    assert Erased(a, b, l[c + (j - c)], steps[j - c].pos, steps[j - c].delLen);
  }

  /** A child none of the calls reached shows the characters it showed. */
  lemma MissedChild(a: seq<Node>, b: seq<Node>, k: nat, c: nat, steps: seq<Step>, j: nat)
    requires Arena.Arena(a) && Forward(b) && k < |a| && j < |a[k].list| && ShapeAt(a, k)
    requires StepsDone(a, b, k, c, steps) && !(c <= j < c + |steps|)
    ensures var l := a[k].list; Shown(b, l[j]) == Shown(a, l[j])
  {
    var l := a[k].list;
    WithinApart(a, k, j, c, |steps|);
    SubFrame(a, b, l[j]);
  }

  /** The characters of a split node are its children's, in turn. */
  lemma ShownSplit(nodes: seq<Node>, k: nat)
    requires Forward(nodes) && k < |nodes| && nodes[k].list != []
    ensures ShapeAt(nodes, k)
    ensures var l := nodes[k].list;
      Shown(nodes, k) == Shown(nodes, l[0]) + Shown(nodes, l[1]) + (if |l| == 3 then Shown(nodes, l[2]) else [])
  {
    assert ShapeAt(nodes, k);
    var l := nodes[k].list;
    if |l| == 2 {
      assert Shown(nodes, l[0]) + Shown(nodes, l[1]) + [] == Shown(nodes, l[0]) + Shown(nodes, l[1]);
    }
  }

  /** Hiding a range of three pieces one after the other hides each piece's part of it. */
  lemma JoinThree(x: seq<Cell>, y: seq<Cell>, z: seq<Cell>, a: int, b: int)
    ensures HideRange(x + y + z, a, b)
         == HideRange(x, a, b) + HideRange(y, a - |x|, b - |x|) + HideRange(z, a - |x| - |y|, b - |x| - |y|)
  {
    HideSplit(x + y, z, a, b);
    HideSplit(x, y, a, b);
  }

  /** JoinThree, with the shifted ends given. */
  lemma JoinAt(x: seq<Cell>, y: seq<Cell>, z: seq<Cell>, a: int, b: int, a1: int, b1: int, a2: int, b2: int)
    requires a1 == a - |x| && b1 == b - |x| && a2 == a1 - |y| && b2 == b1 - |y|
    ensures HideRange(x + y + z, a, b) == HideRange(x, a, b) + HideRange(y, a1, b1) + HideRange(z, a2, b2)
  {
    JoinThree(x, y, z, a, b);
  }

  /** Pieces each hiding their part of a range, put together, hide the whole range. */
  lemma JoinCells(A: seq<Cell>, B: seq<Cell>, S0: seq<Cell>, S1: seq<Cell>, S2: seq<Cell>,
                  T0: seq<Cell>, T1: seq<Cell>, T2: seq<Cell>, a: int, b: int)
    requires A == S0 + S1 + S2 && B == T0 + T1 + T2
    requires T0 == HideRange(S0, a, b) && T1 == HideRange(S1, a - |S0|, b - |S0|)
    requires T2 == HideRange(S2, a - |S0| - |S1|, b - |S0| - |S1|)
    ensures B == HideRange(A, a, b)
  {
    JoinThree(S0, S1, S2, a, b);
  }

  /** Node `x`'s split tree shows in `b` its characters of `a` with the range from `A` up to `B`
    * hidden. */
  ghost predicate Piece(a: seq<Node>, b: seq<Node>, x: nat, A: int, B: int)
    requires Forward(a) && Forward(b) && x < |a| && x < |b|
  {
    Shown(b, x) == HideRange(Shown(a, x), A, B)
  }

  /** The total length of the children before the `j`-th, of three children the first two of
    * which are `L0` and `L1` long. */
  function Ahead(L0: int, L1: int, j: nat): int
  {
    if j == 0 then 0 else if j == 1 then L0 else L0 + L1
  }

  /** The `j`-th child of node `k` shows in `b` its characters of `a` with its part of the range
    * from `pos`, `delLen` long, hidden. */
  ghost predicate PieceAt(a: seq<Node>, b: seq<Node>, k: nat, pos: int, delLen: int, j: nat)
    requires Forward(a) && Forward(b) && k < |a| <= |b| && ShapeAt(a, k) && 2 <= |a[k].list| && j < |a[k].list|
  {
    var l := a[k].list;
    var off := Ahead(Length(a[l[0]]), Length(a[l[1]]), j);
    Piece(a, b, l[j], pos - off, pos + delLen - off)
  }

  /** Each child of node `k` shows in `b` its characters of `a` with its part of the range from
    * `pos`, `delLen` long, hidden. */
  ghost predicate Hid(a: seq<Node>, b: seq<Node>, k: nat, pos: int, delLen: int)
    requires Forward(a) && Forward(b) && k < |a| <= |b| && ShapeAt(a, k)
  {
    var l := a[k].list;
    && |l| >= 2 && PieceAt(a, b, k, pos, delLen, 0) && PieceAt(a, b, k, pos, delLen, 1)
    && (|l| == 3 ==> PieceAt(a, b, k, pos, delLen, 2))
  }

  /** A split node whose children each show their characters with their part of a range hidden
    * shows its characters with the whole range hidden. */
  lemma JoinPieces(a: seq<Node>, b: seq<Node>, k: nat, pos: int, delLen: int)
    requires Forward(a) && Forward(b) && k < |a| <= |b| && b[k].list == a[k].list
    requires ShapeAt(a, k) && Hid(a, b, k, pos, delLen)
    requires forall j :: 0 <= j < |a[k].list| ==> |Shown(a, a[k].list[j])| == Length(a[a[k].list[j]])
    ensures Shown(b, k) == HideRange(Shown(a, k), pos, pos + delLen)
  {
    var l := a[k].list;
    assert PieceAt(a, b, k, pos, delLen, 1);
    assert |l| == 3 ==> PieceAt(a, b, k, pos, delLen, 2);
    ShownSplit(a, k);
    ShownSplit(b, k);
    var S2 := if |l| == 3 then Shown(a, l[2]) else [];
    var T2 := if |l| == 3 then Shown(b, l[2]) else [];
    JoinCells(Shown(a, k), Shown(b, k), Shown(a, l[0]), Shown(a, l[1]), S2, Shown(b, l[0]), Shown(b, l[1]), T2, pos, pos + delLen);
  }

  /** Each of two or three children's part of the range from `pos`, `delLen` long, is what
    * the call on it deletes from it. */
  ghost predicate Clips(steps: seq<Step>, c: nat, lens: seq<int>, pos: int, delLen: int)
    requires 2 <= |lens| <= 3
  {
    && Clipped(steps, c, 0, lens[0], pos, pos + delLen)
    && Clipped(steps, c, 1, lens[1], pos - lens[0], pos + delLen - lens[0])
    && (|lens| == 3 ==>
          Clipped(steps, c, 2, lens[2], pos - lens[0] - lens[1], pos + delLen - lens[0] - lens[1]))
  }

  /** What the plan promises when its calls stayed within their children: the range lies
    * within the children, and each child's part of it is what the call on it deleted. */
  lemma PlanAll(l: seq<nat>, lens: seq<int>, pos: int, delLen: int)
    requires 2 <= |l| <= 3 && |lens| == |l| && Plan(l, lens, pos, delLen).Some?
    requires forall t :: 0 <= t < |lens| ==> lens[t] >= 0
    requires StepsFit(lens, Plan(l, lens, pos, delLen).value, FirstStep(lens, pos))
    ensures 0 <= pos && 0 <= delLen && pos + delLen <= Offset(lens, |l|)
    ensures Clips(Plan(l, lens, pos, delLen).value, FirstStep(lens, pos), lens, pos, delLen)
  {
    PlanRange(l, lens, pos, delLen);
    assert Offset(lens, 1) == lens[0];
    assert Offset(lens, 2) == lens[0] + lens[1];
    PlanClips(l, lens, pos, delLen, 0);
    PlanClips(l, lens, pos, delLen, 1);
    if |l| == 3 {
      PlanClips(l, lens, pos, delLen, 2);
    }
  }

  /** The lengths of a split node's children add up to its own, when its tree records them. */
  lemma OffsetLength(nodes: seq<Node>, k: nat)
    requires Forward(nodes) && k < |nodes| && nodes[k].split && Sized(nodes, k)
    ensures ShapeAt(nodes, k)
    ensures var l := nodes[k].list; Offset(Lens(nodes, l), |l|) == Length(nodes[k])
  {
    assert ShapeAt(nodes, k);
    var l := nodes[k].list;
    var lens := Lens(nodes, l);
    SizedChildren(nodes, k);
    ShownSplit(nodes, k);
    assert Offset(lens, 1) == lens[0];
    assert Offset(lens, 2) == lens[0] + lens[1];
    if |l| == 3 {
      assert Offset(lens, 3) == Offset(lens, 2) + lens[2];
    }
  }

  /** ChildrenCells' conclusion from the calls' effects on the children. */
  lemma ChildrenPieces(a: seq<Node>, b: seq<Node>, k: nat, pos: int, delLen: int, steps: seq<Step>, c: nat)
    requires Arena.Arena(a) && Forward(b) && k < |a| && a[k].split && ShapeAt(a, k) && Sized(a, k)
    requires Plan(a[k].list, Lens(a, a[k].list), pos, delLen) == Some(steps) && c == FirstStep(Lens(a, a[k].list), pos)
    requires StepsDone(a, b, k, c, steps)
    ensures Erased(a, b, k, pos, delLen) && KeepsOutside(a, b, Sub(a, k))
  {
    var l := a[k].list;
    var lens := Lens(a, l);
    StepsFitDone(a, b, k, c, steps);
    SizedChildren(a, k);
    PlanAll(l, lens, pos, delLen);
    OffsetLength(a, k);
    KeepsSub(a, b, k, c, steps);
    assert After(a, b, k, c, steps);
    ClipsChildren(a, k, pos, delLen, steps, c);
    ChildrenHid(a, b, k, pos, delLen, steps, c);
    JoinPieces(a, b, k, pos, delLen);
  }

  /** The `j`-th child of node `k` has as its part of the range from `pos`, `delLen` long,
    * what the call on it deletes from it. */
  ghost predicate ClipAt(a: seq<Node>, k: nat, pos: int, delLen: int, steps: seq<Step>, c: nat, j: nat)
    requires k < |a| && ShapeAt(a, k) && 2 <= |a[k].list| && j < |a[k].list|
  {
    var l := a[k].list;
    var off := Ahead(Length(a[l[0]]), Length(a[l[1]]), j);
    Clipped(steps, c, j, Length(a[l[j]]), pos - off, pos + delLen - off)
  }

  /** Each child of split node `k`, of two or three, has as its part of the range what the
    * call on it deletes from it. */
  ghost predicate ChildClips(a: seq<Node>, k: nat, pos: int, delLen: int, steps: seq<Step>, c: nat)
    requires k < |a| && ShapeAt(a, k) && a[k].split
  {
    && ClipAt(a, k, pos, delLen, steps, c, 0) && ClipAt(a, k, pos, delLen, steps, c, 1)
    && (|a[k].list| == 3 ==> ClipAt(a, k, pos, delLen, steps, c, 2))
  }

  /** After the calls, each child of node `k` shows its characters with its part of the range
    * hidden. */
  lemma ChildrenHid(a: seq<Node>, b: seq<Node>, k: nat, pos: int, delLen: int, steps: seq<Step>, c: nat)
    requires After(a, b, k, c, steps) && a[k].split && |a| <= |b|
    requires forall j :: 0 <= j < |a[k].list| ==> |Shown(a, a[k].list[j])| == Length(a[a[k].list[j]])
    requires ChildClips(a, k, pos, delLen, steps, c)
    ensures Hid(a, b, k, pos, delLen)
  {
    ChildFate(a, b, k, c, steps, 0);
    HidAt(a, b, k, pos, delLen, steps, c, 0);
    ChildFate(a, b, k, c, steps, 1);
    HidAt(a, b, k, pos, delLen, steps, c, 1);
    if |a[k].list| == 3 {
      ChildFate(a, b, k, c, steps, 2);
      HidAt(a, b, k, pos, delLen, steps, c, 2);
    }
  }

  /** The `j`-th child of node `k`, whose characters are as many as its length, shows them with
    * its part of the range hidden. */
  lemma HidAt(a: seq<Node>, b: seq<Node>, k: nat, pos: int, delLen: int, steps: seq<Step>, c: nat, j: nat)
    requires Forward(a) && Forward(b) && k < |a| <= |b| && ShapeAt(a, k) && 2 <= |a[k].list|
    requires j < |a[k].list| && |Shown(a, a[k].list[j])| == Length(a[a[k].list[j]])
    requires Fate(a, b, a[k].list[j], c, steps, j) && ClipAt(a, k, pos, delLen, steps, c, j)
    ensures PieceAt(a, b, k, pos, delLen, j)
  {
    var x := a[k].list[j];
    var off := Ahead(Length(a[a[k].list[0]]), Length(a[a[k].list[1]]), j);
    FateClipped(Shown(a, x), Shown(b, x), c, steps, j, pos - off, pos + delLen - off);
  }

  /** Clips over the children's lengths is ChildClips. */
  lemma ClipsChildren(a: seq<Node>, k: nat, pos: int, delLen: int, steps: seq<Step>, c: nat)
    requires Forward(a) && k < |a| && ShapeAt(a, k) && a[k].split
    requires Clips(steps, c, Lens(a, a[k].list), pos, delLen)
    ensures ChildClips(a, k, pos, delLen, steps, c)
  {
    var l := a[k].list;
    var lens := Lens(a, l);
    assert lens[0] == Length(a[l[0]]) && lens[1] == Length(a[l[1]]);
    assert |l| == 3 ==> lens[2] == Length(a[l[2]]);
  }

  /** Calls within the children of node `k` leave everything outside its tree as it was. */
  lemma KeepsSub(a: seq<Node>, b: seq<Node>, k: nat, c: nat, steps: seq<Step>)
    requires Arena.Arena(a) && k < |a| && ShapeAt(a, k) && StepsDone(a, b, k, c, steps)
    ensures KeepsOutside(a, b, Sub(a, k)) && |a| <= |b| && b[k].list == a[k].list
  {
    WithinSub(a, k, c, |steps|);
    assert Unlinked(b[k]) == Unlinked(a[k]);
  }

  /** rgass.go RemoteDelete with a single identifier: a successful run on its registered node,
    * whose split tree records its text lengths, hides exactly the range of `delLen`
    * characters from `pos` of that node's characters, and keeps every record outside its
    * split tree, links aside. */
  lemma RemoteDeleteOne(s: St, id: ID, pos: int, delLen: int)
    requires Good(s) && id in s.table && s.table[id] < |s.nodes| && Sized(s.nodes, s.table[id])
    requires RemoteDeleteSt(s, [id], pos, delLen).Done? && RemoteDeleteSt(s, [id], pos, delLen).err.None?
    ensures var k, r := s.table[id], RemoteDeleteSt(s, [id], pos, delLen).st;
      Erased(s.nodes, r.nodes, k, pos, delLen) && KeepsOutside(s.nodes, r.nodes, Sub(s.nodes, k))
  {
    TableLinked(s, id);
    DoDeleteCells(s, s.table[id], pos, delLen, |s.nodes|);
  }
}
