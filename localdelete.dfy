/** What rgass/rgass.go LocalDelete does to the document text. Each case of the source is
  * stated against the text before the delete: the target node shows, in its place, nothing,
  * its text after a prefix, before a suffix, or around a middle range; a split whose Replace
  * is rejected leaves nothing in the node's place; an overflowing delete takes its characters
  * out of the text from the delete position on. */
module LocalDeletes {
  import opened Ids
  import opened Nodes
  import opened Arena
  import opened Splits
  import opened Edits
  import opened Erasure
  import opened Walks

  /** The next index of the arena is not linked. */
  lemma Unborn(s: St)
    requires Linkable(s)
    ensures |s.nodes| !in s.order
  {
    assert InRange(s.nodes, s.order);
  }

  /** A two-way delete of a linked node that finishes: a position the split refuses leaves the
    * document alone; otherwise the parts show in the node's place when Replace links them,
    * and nothing does when Replace rejects them. */
  lemma Cut2Outcome(s: St, k: nat, side: Side, at: int)
    requires Linkable(s) && k < |s.nodes| && k in s.order && k != TailIx && Cut2(s, k, side, at).Done?
    ensures var r, i, c := Cut2(s, k, side, at).st, IndexOf(s.order, k), Split2(s, k, side, at);
      && i + 1 < |s.order|
      && TextSt(s) == Spliced(s.nodes, s.order, i, Visible(s.nodes[k]))
      && (!c.Cut? ==> r == s && |s.nodes| !in r.order)
      && (c.Cut? ==> TextSt(r) == Spliced(s.nodes, s.order, i,
            if |s.nodes| in r.order then VisibleAll([c.parts.first, c.parts.last]) else ""))
  {
    var i := IndexOf(s.order, k);
    NotLast(s, i);
    TextAround(s.nodes, s.order, i);
    Unborn(s);
    if Split2(s, k, side, at).Cut? {
      Cut2Text(s, k, side, at);
    }
  }

  /** A three-way delete of a linked node that finishes, likewise. */
  lemma Cut3Outcome(s: St, k: nat, pos: int, delLen: int)
    requires Linkable(s) && k < |s.nodes| && k in s.order && k != TailIx && Cut3(s, k, pos, delLen).Done?
    ensures var r, i, c := Cut3(s, k, pos, delLen).st, IndexOf(s.order, k), Split3(s, k, pos, delLen);
      && i + 1 < |s.order|
      && TextSt(s) == Spliced(s.nodes, s.order, i, Visible(s.nodes[k]))
      && (!c.Cut? ==> r == s && |s.nodes| !in r.order)
      && (c.Cut? ==> TextSt(r) == Spliced(s.nodes, s.order, i,
            if |s.nodes| in r.order then VisibleAll([c.parts.first, c.parts.middle, c.parts.last]) else ""))
  {
    var i := IndexOf(s.order, k);
    NotLast(s, i);
    TextAround(s.nodes, s.order, i);
    Unborn(s);
    if Split3(s, k, pos, delLen).Cut? {
      Cut3Text(s, k, pos, delLen);
    }
  }

  /** The prefix case (DeletePrior of `delLen`): a negative length is refused and changes
    * nothing; otherwise the node shows its text after the prefix, or nothing when Replace
    * rejects the parts. */
  lemma PriorCase(s: St, k: nat, delLen: int)
    requires Linkable(s) && k < |s.nodes| && k in s.order && k != TailIx
    requires delLen < Length(s.nodes[k]) && Cut2(s, k, Prior, delLen).Done?
    ensures var r, i, n := Cut2(s, k, Prior, delLen).st, IndexOf(s.order, k), s.nodes[k];
      && i + 1 < |s.order|
      && TextSt(s) == Spliced(s.nodes, s.order, i, Visible(n))
      && (delLen < 0 ==> r == s)
      && (0 <= delLen ==> delLen <= |n.str| && TextSt(r) == Spliced(s.nodes, s.order, i,
            if |s.nodes| in r.order then ShowsFrom(n, delLen) else ""))
  {
    Cut2Outcome(s, k, Prior, delLen);
    if 0 <= delLen {
      PriorParts(s, k, delLen);
    }
  }

  /** The suffix case. The source hands DeleteLast the deleted length `delLen` where the split
    * position `pos` belongs, so the node keeps its first `delLen` characters visible and
    * tombstones the rest; a negative length is refused and changes nothing. */
  lemma SuffixCase(s: St, k: nat, pos: int, delLen: int)
    requires Linkable(s) && k < |s.nodes| && k in s.order && k != TailIx
    requires 0 < pos && pos + delLen == Length(s.nodes[k]) && Cut2(s, k, Last, delLen).Done?
    ensures var r, i, n := Cut2(s, k, Last, delLen).st, IndexOf(s.order, k), s.nodes[k];
      && i + 1 < |s.order|
      && TextSt(s) == Spliced(s.nodes, s.order, i, Visible(n))
      && (delLen < 0 ==> r == s)
      && (0 <= delLen ==> delLen <= |n.str| && TextSt(r) == Spliced(s.nodes, s.order, i,
            if |s.nodes| in r.order then ShowsUpTo(n, delLen) else ""))
  {
    Cut2Outcome(s, k, Last, delLen);
    if 0 <= delLen {
      LastParts(s, k, delLen);
    }
  }

  /** The middle case (DeleteMiddle): the node shows its text around the deleted range, or
    * nothing when Replace rejects the parts; a negative length cannot finish unless the
    * position lies beyond the node, which the split refuses, changing nothing. */
  lemma MiddleCase(s: St, k: nat, pos: int, delLen: int)
    requires Linkable(s) && k < |s.nodes| && k in s.order && k != TailIx
    requires 0 < pos && pos + delLen < Length(s.nodes[k]) && Cut3(s, k, pos, delLen).Done?
    ensures var r, i, n := Cut3(s, k, pos, delLen).st, IndexOf(s.order, k), s.nodes[k];
      && i + 1 < |s.order|
      && TextSt(s) == Spliced(s.nodes, s.order, i, Visible(n))
      && (delLen < 0 ==> r == s)
      && (0 <= delLen ==> pos + delLen <= |n.str| && TextSt(r) == Spliced(s.nodes, s.order, i,
            if |s.nodes| in r.order then ShowsOutside(n, pos, pos + delLen) else ""))
  {
    Cut3Outcome(s, k, pos, delLen);
    if Split3(s, k, pos, delLen).Cut? {
      MiddleParts(s, k, pos, delLen);
    }
  }

  /** Linked nodes follow each other by their `next` links. */
  lemma NextAt(s: St, i: nat)
    requires Linkable(s) && i + 1 < |s.order|
    ensures s.nodes[s.order[i]].next == s.order[i + 1]
  {
    LinksPairs(s.nodes, s.order);
  }

  /** Once the parts `cs` of the tombstoned node `k` follow it, the nodes up to and with the
    * parts show what the nodes before `k` showed, then the parts' text. */
  lemma PartsBefore(a: seq<Node>, o: seq<nat>, k: nat, p: Node, cs: seq<Node>, i: nat, r: St, m: nat)
    requires InRange(a, o) && i + 1 < |o| && o[i] == k && k < |a| && p.hidden
    requires k !in o[..i] && k !in o[i + 1..|o| - 1]
    requires r.order == o[..i + 1] + PartIndices(|a|, |cs|) + o[i + 1..]
    requires SameButLinks(a[k := p] + cs, r.nodes) && m == i + 1 + |cs|
    ensures m <= |r.order| && Before(r, m) == |TextOf(a, o[..i])| + |VisibleAll(cs)|
  {
    var b := a[k := p] + cs;
    var ix := PartIndices(|a|, |cs|);
    assert r.order[..m] == o[..i + 1] + ix;
    TextOfSameButLinks(b, r.nodes, o[..i + 1] + ix);
    TextOfAppend(b, o[..i + 1], ix);
    assert VisibleAt(b, o[i]) == "";
    TextOfHiddenLast(b, o, i);
    PartsText(a, k, p, cs, o, i);
  }

  /** Where a two-way delete that Replace accepts leaves things: the parts right after the
    * tombstoned node in the order, and every record as the split made it, links aside. */
  lemma LinkedShape(s: St, k: nat, side: Side, at: int)
    requires Linkable(s) && k < |s.nodes|
    requires Cut2(s, k, side, at).Done? && Cut2(s, k, side, at).err.None?
    ensures k in s.order && k != TailIx && Split2(s, k, side, at).Cut?
    ensures var P, r, i := Split2(s, k, side, at).parts, Cut2(s, k, side, at).st, IndexOf(s.order, k);
      && i + 1 < |s.order| && P.parent.hidden
      && k !in s.order[..i] && k !in s.order[i + 1..|s.order| - 1]
      && r.order == s.order[..i + 1] + PartIndices(|s.nodes|, 2) + s.order[i + 1..]
      && SameButLinks(s.nodes[k := P.parent] + [P.first, P.last], r.nodes)
      && i + 3 <= |r.order| && Before(r, i + 3) == Before(s, i) + |VisibleAll([P.first, P.last])|
  {
    LinkedRecords(s, k, side, at);
    var P := Split2(s, k, side, at).parts;
    var i := IndexOf(s.order, k);
    PartsBefore(s.nodes, s.order, k, P.parent, [P.first, P.last], i, Cut2(s, k, side, at).st, i + 3);
  }

  /** `LinkedShape` without the text positions: the order and the records. */
  lemma LinkedRecords(s: St, k: nat, side: Side, at: int)
    requires Linkable(s) && k < |s.nodes|
    requires Cut2(s, k, side, at).Done? && Cut2(s, k, side, at).err.None?
    ensures k in s.order && k != TailIx && Split2(s, k, side, at).Cut?
    ensures var P, r, i := Split2(s, k, side, at).parts, Cut2(s, k, side, at).st, IndexOf(s.order, k);
      && i + 1 < |s.order| && P.parent.hidden
      && k !in s.order[..i] && k !in s.order[i + 1..|s.order| - 1]
      && r.order == s.order[..i + 1] + PartIndices(|s.nodes|, 2) + s.order[i + 1..]
      && SameButLinks(s.nodes[k := P.parent] + [P.first, P.last], r.nodes)
  {
    Cut2Linked(s, k, side, at);
    var P := Split2(s, k, side, at).parts;
    var i := IndexOf(s.order, k);
    NotLast(s, i);
    NotLater(s.order, i);
    Split2Parts(s, k, side, at);
    SplitReplaceShape(s, k, P.parent, [P.first, P.last], i);
  }

  lemma HeadRecords(s: St, k: nat, pos: int)
    requires Linkable(s) && k < |s.nodes|
    requires Cut2(s, k, Last, pos).Done? && Cut2(s, k, Last, pos).err.None?
    ensures k in s.order && k != TailIx
    ensures var r, i := Cut2(s, k, Last, pos).st, IndexOf(s.order, k);
      && i + 1 < |s.order|
      && |r.nodes| == |s.nodes| + 2 && |r.order| == |s.order| + 2
      && (forall t :: i + 3 <= t < |r.order| ==> r.order[t] == s.order[t - 2])
      && forall x :: 0 <= x < |s.nodes| && x != k ==> Unlinked(r.nodes[x]) == Unlinked(s.nodes[x])
  {
    LinkedRecords(s, k, Last, pos);
    var P := Split2(s, k, Last, pos).parts;
    var r := Cut2(s, k, Last, pos).st;
    KeptRecords(s.nodes, k, P.parent, [P.first, P.last], r.nodes);
    ShiftedTail(s.order, IndexOf(s.order, k), PartIndices(|s.nodes|, 2), r.order);
  }

  /** The entries after two spliced into a sequence are the old ones, shifted. */
  lemma ShiftedTail(o: seq<nat>, i: nat, ix: seq<nat>, o2: seq<nat>)
    requires i < |o| && |ix| == 2 && o2 == o[..i + 1] + ix + o[i + 1..]
    ensures |o2| == |o| + 2
    ensures forall t :: i + 3 <= t < |o2| ==> o2[t] == o[t - 2]
  {
  }

  /** An arena that differs, links aside, from `a` with node `k` replaced and `cs` appended
    * holds every other node of `a` as it was. */
  lemma KeptRecords(a: seq<Node>, k: nat, p: Node, cs: seq<Node>, b: seq<Node>)
    requires k < |a| && SameButLinks(a[k := p] + cs, b)
    ensures |b| == |a| + |cs|
    ensures forall x :: 0 <= x < |a| && x != k ==> Unlinked(b[x]) == Unlinked(a[x])
  {
    forall x | 0 <= x < |a| && x != k ensures Unlinked(b[x]) == Unlinked(a[x]) {
      assert (a[k := p] + cs)[x] == a[x];
    }
  }

  lemma HeadText(s: St, k: nat, pos: int)
    requires Linkable(s) && k < |s.nodes|
    requires Cut2(s, k, Last, pos).Done? && Cut2(s, k, Last, pos).err.None?
    ensures k in s.order && k != TailIx
    ensures var i, n := IndexOf(s.order, k), s.nodes[k];
      && i + 1 < |s.order| && 0 <= pos <= |n.str|
      && TextSt(Cut2(s, k, Last, pos).st) == Spliced(s.nodes, s.order, i, ShowsUpTo(n, pos))
  {
    Cut2Linked(s, k, Last, pos);
    Cut2Text(s, k, Last, pos);
    LastParts(s, k, pos);
  }

  lemma HeadBefore(s: St, k: nat, pos: int)
    requires Linkable(s) && k < |s.nodes|
    requires Cut2(s, k, Last, pos).Done? && Cut2(s, k, Last, pos).err.None?
    ensures k in s.order && k != TailIx
    ensures var r, i, n := Cut2(s, k, Last, pos).st, IndexOf(s.order, k), s.nodes[k];
      && i + 3 <= |r.order| && 0 <= pos <= |n.str|
      && Before(r, i + 3) == Before(s, i) + |ShowsUpTo(n, pos)|
  {
    LinkedShape(s, k, Last, pos);
    LastParts(s, k, pos);
  }

  /** Taking a suffix off the middle piece of a text of three pieces. */
  lemma CutSuffix(P: string, x: string, R: string, at: int, b: int, L: int)
    requires 0 <= at <= |x| && b == |P| && L == |x|
    ensures b + L <= |P + x + R| && P + x[..at] + R == Removed(P + x + R, b + at, L - at)
  {
    var T := P + x + R;
    assert T[..|P| + at] == P + x[..at] && T[|P| + |x|..] == R;
  }

  /** No node after the `i`-th of the order is the `i`-th again. */
  lemma NoneAfter(s: St, i: nat)
    requires Linkable(s) && i < |s.order|
    ensures forall t :: i < t < |s.order| ==> s.order[t] != s.order[i]
  {
    DistinctPairs(s.order);
  }

  /** The nodes after the overflow target keep their texts and identifiers when its parts are
    * spliced in after it. */
  lemma SizedShift(s: St, r: St, i: nat)
    requires i < |s.order| && SizedFrom(s, i + 1) && InRange(s.nodes, s.order) && |s.nodes| <= |r.nodes|
    requires |r.order| == |s.order| + 2 && forall t :: i + 3 <= t < |r.order| ==> r.order[t] == s.order[t - 2]
    requires forall t :: i < t < |s.order| ==> s.order[t] != s.order[i]
    requires forall x :: 0 <= x < |s.nodes| && x != s.order[i] ==> Unlinked(r.nodes[x]) == Unlinked(s.nodes[x])
    ensures SizedFrom(r, i + 3)
  {
    forall t | i + 3 <= t < |r.order| && r.order[t] < |r.nodes|
      ensures |r.nodes[r.order[t]].str| == Length(r.nodes[r.order[t]])
    {
      var x := s.order[t - 2];
      assert Unlinked(r.nodes[x]) == Unlinked(s.nodes[x]);
    }
  }

  /** The text after the first step of the overflow case is the old text less the target's
    * characters from `pos` on, and the walk starts right after them. */
  lemma HeadCut(s: St, k: nat, pos: int)
    requires Linkable(s) && k < |s.nodes| && !s.nodes[k].hidden && |s.nodes[k].str| == Length(s.nodes[k])
    requires Cut2(s, k, Last, pos).Done? && Cut2(s, k, Last, pos).err.None?
    ensures k in s.order && k != TailIx
    ensures var r, i, L := Cut2(s, k, Last, pos).st, IndexOf(s.order, k), Length(s.nodes[k]);
      && 0 <= pos <= L && i + 3 <= |r.order|
      && Before(s, i) + L <= |TextSt(s)|
      && TextSt(r) == Removed(TextSt(s), Before(s, i) + pos, L - pos)
      && Before(r, i + 3) == Before(s, i) + pos
  {
    HeadText(s, k, pos);
    SuffixInPlace(s, Cut2(s, k, Last, pos).st, IndexOf(s.order, k), s.nodes[k].str, pos);
    HeadBefore(s, k, pos);
  }

  /** Taking the end of the `i`-th node's text `x` from `pos` on out of the text of `s`. */
  lemma HeadCutText(s: St, r: St, i: nat, x: string, pos: int, L: int)
    requires i + 1 < |s.order| && 0 <= pos <= |x| && L == |x|
    requires var P, R := TextOf(s.nodes, s.order[..i]), TextOf(s.nodes, s.order[i + 1..|s.order| - 1]);
      TextSt(s) == P + x + R && TextSt(r) == P + x[..pos] + R
    ensures Before(s, i) + L <= |TextSt(s)| && TextSt(r) == Removed(TextSt(s), Before(s, i) + pos, L - pos)
  {
    CutSuffix(TextOf(s.nodes, s.order[..i]), x, TextOf(s.nodes, s.order[i + 1..|s.order| - 1]), pos, Before(s, i), L);
  }

  /** A state `r` showing only the first `pos` characters in the place of the `i`-th node of
    * `s`, which showed `x`: its text is that of `s` without the rest of them. */
  lemma SuffixInPlace(s: St, r: St, i: nat, x: string, pos: int)
    requires Linkable(s) && i + 1 < |s.order| && x == Visible(s.nodes[s.order[i]]) && 0 <= pos <= |x|
    requires TextSt(r) == Spliced(s.nodes, s.order, i, x[..pos])
    ensures Before(s, i) + |x| <= |TextSt(s)| && TextSt(r) == Removed(TextSt(s), Before(s, i) + pos, |x| - pos)
  {
    TextAt(s, i);
    HeadCutText(s, r, i, x, pos, |x|);
  }

  /** A walk that starts right where `a` characters were cut at `at` from a text `t` takes
    * its `rem` characters out right after them. */
  lemma WalkAfterCut(t: string, at: int, a: int, r: St, j: nat, rem: int, eff: int, list: seq<nat>)
    requires Good(r) && j < |r.order| && rem > 0 && SizedFrom(r, j)
    requires r.order[j] < |r.nodes| && !r.nodes[r.order[j]].hidden
    requires WalkOutcome(r, j, rem, eff, list).run.Done? && |r.nodes| in WalkOutcome(r, j, rem, eff, list).run.st.order
    requires 0 <= at && 0 <= a && at + a <= |t| && TextSt(r) == Removed(t, at, a) && Before(r, j) == at
    ensures at + a + rem <= |t| && TextSt(WalkOutcome(r, j, rem, eff, list).run.st) == Removed(t, at, a + rem)
  {
    var d := WalkOutcome(r, j, rem, eff, list);
    OutcomeText(r, j, rem, eff, list, d);
    CutChain(t, TextSt(r), TextSt(d.run.st), at, Before(r, j), a, rem);
  }

  /** The overflow case hands the walk a state that keeps the invariant, with the target's
    * old successor, visible and sized as before, right after the target's parts: what the
    * overflow case leaves is what that walk leaves. */
  lemma OverflowWalk(s: St, k: nat, pos: int, delLen: int)
    requires Good(s) && k in s.order && k != TailIx && k < |s.nodes|
    requires 0 < pos && pos + delLen > Length(s.nodes[k])
    requires Cut2(s, k, Last, pos).Done? && Cut2(s, k, Last, pos).err.None?
    requires SizedFrom(s, IndexOf(s.order, k) + 1)
    requires 0 <= s.nodes[k].next < |s.nodes| && !s.nodes[s.nodes[k].next].hidden
    requires Overflow(s, k, pos, delLen).run.Done?
    ensures var r, i, rem := Cut2(s, k, Last, pos).st, IndexOf(s.order, k), delLen - (Length(s.nodes[k]) - pos);
      && Good(r) && i + 3 < |r.order| && 0 < rem && |r.nodes| == |s.nodes| + 2
      && SizedFrom(r, i + 3) && r.order[i + 3] < |r.nodes| && !r.nodes[r.order[i + 3]].hidden
      && Overflow(s, k, pos, delLen) == WalkOutcome(r, i + 3, rem, delLen, [k])
  {
    var i, n := IndexOf(s.order, k), s.nodes[k];
    var nx, rem := n.next, delLen - (Length(n) - pos);
    var r := Cut2(s, k, Last, pos).st;
    OverflowAfter(s, k, pos);
    OverflowStart(s, k, pos, delLen, nx, rem);
    IndexOfDistinct(r.order, i + 3);
  }

  /** After the first step of the overflow case, the target's old successor, visible and
    * sized as before, comes right after the target's parts. */
  lemma OverflowAfter(s: St, k: nat, pos: int)
    requires Good(s) && k in s.order && k != TailIx && k < |s.nodes|
    requires Cut2(s, k, Last, pos).Done? && Cut2(s, k, Last, pos).err.None?
    requires SizedFrom(s, IndexOf(s.order, k) + 1)
    requires 0 <= s.nodes[k].next < |s.nodes| && !s.nodes[s.nodes[k].next].hidden
    ensures var r, i := Cut2(s, k, Last, pos).st, IndexOf(s.order, k);
      && i + 3 < |r.order| && |r.nodes| == |s.nodes| + 2 && r.order[i + 3] == s.nodes[k].next
      && SizedFrom(r, i + 3) && r.order[i + 3] < |r.nodes| && !r.nodes[r.order[i + 3]].hidden
  {
    var i, nx := IndexOf(s.order, k), s.nodes[k].next;
    var r := Cut2(s, k, Last, pos).st;
    GoodLinkable(s);
    HeadRecords(s, k, pos);
    NextAt(s, i);
    NoneAfter(s, i);
    SizedShift(s, r, i);
    assert Unlinked(r.nodes[nx]) == Unlinked(s.nodes[nx]);
  }

  /** Where a two-way delete that Replace rejects leaves things: the order as it was, the node
    * tombstoned in its place, and its parts in the arena but not linked. */
  lemma RefusedShape(s: St, k: nat, side: Side, at: int)
    requires Linkable(s) && k < |s.nodes|
    requires Cut2(s, k, side, at).Done? && Cut2(s, k, side, at).err.Some? && Split2(s, k, side, at).Cut?
    ensures var P, r := Split2(s, k, side, at).parts, Cut2(s, k, side, at).st;
      && P.parent.hidden && r.order == s.order
      && r.nodes == s.nodes[k := P.parent] + [P.first, P.last]
  {
    var P := Split2(s, k, side, at).parts;
    var cs := [P.first, P.last];
    Split2Parts(s, k, side, at);
    SplitAtEffect(s, k, P.parent, cs);
    ReplaceErrors(SplitAt(s, k, P.parent, cs), k, PartIndices(|s.nodes|, 2));
  }

  /** At a position equal to the target's length, the first part of DeleteLast carries the
    * target's own identifier, since an identifier includes its length, so Replace rejects the
    * parts as a duplicate: the overflow case starting at the end of a node takes that path. */
  lemma RefusedAtEnd(s: St, tarID: ID, pos: int)
    requires Good(s) && tarID in s.table && 0 <= pos == tarID.length
    requires var k := s.table[tarID]; k < |s.nodes| && !s.nodes[k].split && pos <= |s.nodes[k].str|
    ensures var k := s.table[tarID];
      && Split2(s, k, Last, pos).Cut?
      && Cut2(s, k, Last, pos).Done? && Cut2(s, k, Last, pos).err == Some(Duplicate)
  {
    TableLinked(s, tarID);
    GoodLinkable(s);
    var k := s.table[tarID];
    var n := s.nodes[k];
    var P := Split2(s, k, Last, pos).parts;
    var cs := [P.first, P.last];
    assert P.first.id == n.id;
    SplitAtEffect(s, k, P.parent, cs);
    var s1 := SplitAt(s, k, P.parent, cs);
    assert s1.nodes[|s.nodes|] == P.first;
    ReplaceErrors(s1, k, PartIndices(|s.nodes|, 2));
  }

  /** The first step of the overflow case when Replace rejects the target's parts: the target
    * is tombstoned whole, so all its characters leave the text, and the nodes before its
    * successor show what the nodes before the target showed. */
  lemma HeadRefused(s: St, k: nat, pos: int)
    requires Linkable(s) && k < |s.nodes| && k in s.order && k != TailIx
    requires !s.nodes[k].hidden && |s.nodes[k].str| == Length(s.nodes[k])
    requires Cut2(s, k, Last, pos).Done? && Cut2(s, k, Last, pos).err.Some? && Split2(s, k, Last, pos).Cut?
    ensures var r, i, L := Cut2(s, k, Last, pos).st, IndexOf(s.order, k), Length(s.nodes[k]);
      && i + 1 < |r.order| && r.order == s.order
      && Before(s, i) + L <= |TextSt(s)|
      && TextSt(r) == Removed(TextSt(s), Before(s, i), L)
      && Before(r, i + 1) == Before(s, i)
  {
    var r, i, n := Cut2(s, k, Last, pos).st, IndexOf(s.order, k), s.nodes[k];
    RefusedSpliced(s, k, pos);
    NothingInPlace(s, r, i, n.str);
    RefusedBefore(s, k, pos);
  }

  /** A state `r` showing nothing in the place of the `i`-th node of `s`, which showed `x`:
    * its text is that of `s` without those characters. */
  lemma NothingInPlace(s: St, r: St, i: nat, x: string)
    requires Linkable(s) && i + 1 < |s.order| && x == Visible(s.nodes[s.order[i]])
    requires TextSt(r) == Spliced(s.nodes, s.order, i, "")
    ensures Before(s, i) + |x| <= |TextSt(s)| && TextSt(r) == Removed(TextSt(s), Before(s, i), |x|)
  {
    TextAt(s, i);
    SplicedNothing(s.nodes, s.order, i);
    HideCutText(s, r, i, x, |x|);
  }

  /** A rejected first step of the overflow case shows nothing in the target's place. */
  lemma RefusedSpliced(s: St, k: nat, pos: int)
    requires Linkable(s) && k < |s.nodes| && k in s.order && k != TailIx
    requires Cut2(s, k, Last, pos).Done? && Cut2(s, k, Last, pos).err.Some? && Split2(s, k, Last, pos).Cut?
    ensures var i := IndexOf(s.order, k);
      i + 1 < |s.order| && s.order[i] == k && TextSt(Cut2(s, k, Last, pos).st) == Spliced(s.nodes, s.order, i, "")
  {
    Cut2Text(s, k, Last, pos);
  }

  /** Showing nothing in the place of the `i`-th node leaves what the others show. */
  lemma SplicedNothing(nodes: seq<Node>, o: seq<nat>, i: nat)
    requires i + 1 < |o|
    ensures Spliced(nodes, o, i, "") == TextOf(nodes, o[..i]) + TextOf(nodes, o[i + 1..|o| - 1])
  {
  }

  /** After a rejected first step of the overflow case, the nodes up to the tombstoned target
    * show what the nodes before it showed. */
  lemma RefusedBefore(s: St, k: nat, pos: int)
    requires Linkable(s) && k < |s.nodes| && k in s.order && k != TailIx
    requires Cut2(s, k, Last, pos).Done? && Cut2(s, k, Last, pos).err.Some? && Split2(s, k, Last, pos).Cut?
    ensures var r, i := Cut2(s, k, Last, pos).st, IndexOf(s.order, k);
      && i + 1 < |r.order| && r.order == s.order && Before(r, i + 1) == Before(s, i)
  {
    var r, i, o := Cut2(s, k, Last, pos).st, IndexOf(s.order, k), s.order;
    RefusedShape(s, k, Last, pos);
    NotLast(s, i);
    IndexOfDistinct(o, i);
    DistinctPairs(o);
    TextBefore(s.nodes, r.nodes, o, i);
    TextOfHiddenLast(r.nodes, o, i);
  }

  /** After a rejected first step of the overflow case, the target's old successor, visible
    * and sized as before, comes right after the target. */
  lemma RefusedAfter(s: St, k: nat, pos: int)
    requires Good(s) && k in s.order && k != TailIx && k < |s.nodes|
    requires Cut2(s, k, Last, pos).Done? && Cut2(s, k, Last, pos).err.Some? && Split2(s, k, Last, pos).Cut?
    requires SizedFrom(s, IndexOf(s.order, k) + 1)
    requires 0 <= s.nodes[k].next < |s.nodes| && !s.nodes[s.nodes[k].next].hidden
    ensures var r, i := Cut2(s, k, Last, pos).st, IndexOf(s.order, k);
      && i + 1 < |r.order| && r.order == s.order && |r.nodes| == |s.nodes| + 2
      && r.order[i + 1] == s.nodes[k].next && IndexOf(r.order, s.nodes[k].next) == i + 1
      && SizedFrom(r, i + 1) && r.order[i + 1] < |r.nodes| && !r.nodes[r.order[i + 1]].hidden
  {
    var i, nx := IndexOf(s.order, k), s.nodes[k].next;
    var r := Cut2(s, k, Last, pos).st;
    GoodLinkable(s);
    RefusedShape(s, k, Last, pos);
    NotLast(s, i);
    NextAt(s, i);
    NoneAfter(s, i);
    IndexOfDistinct(s.order, i + 1);
    forall t | i + 1 <= t < |r.order| && r.order[t] < |r.nodes|
      ensures |r.nodes[r.order[t]].str| == Length(r.nodes[r.order[t]])
    {
      assert r.nodes[s.order[t]] == s.nodes[s.order[t]];
    }
  }

  /** An overflow case that finishes made its first split. */
  lemma OverflowSplits(s: St, k: nat, pos: int, delLen: int)
    requires Good(s) && k in s.order && k != TailIx && k < |s.nodes|
    requires pos + delLen > Length(s.nodes[k]) && Overflow(s, k, pos, delLen).run.Done?
    ensures Split2(s, k, Last, pos).Cut?
  {
  }

  /** The overflow case when Replace rejects the target's parts hands the walk a state that
    * keeps the invariant, with the target's old successor, visible and sized as before,
    * right after the tombstoned target. */
  lemma OverflowRefusedWalk(s: St, k: nat, pos: int, delLen: int)
    requires Good(s) && k in s.order && k != TailIx && k < |s.nodes|
    requires 0 < pos && pos + delLen > Length(s.nodes[k])
    requires Cut2(s, k, Last, pos).Done? && Cut2(s, k, Last, pos).err.Some?
    requires SizedFrom(s, IndexOf(s.order, k) + 1)
    requires 0 <= s.nodes[k].next < |s.nodes| && !s.nodes[s.nodes[k].next].hidden
    requires Overflow(s, k, pos, delLen).run.Done?
    ensures Split2(s, k, Last, pos).Cut?
    ensures var r, i, rem := Cut2(s, k, Last, pos).st, IndexOf(s.order, k), delLen - (Length(s.nodes[k]) - pos);
      && Good(r) && i + 1 < |r.order| && 0 < rem && |r.nodes| == |s.nodes| + 2
      && r.order[i + 1] == s.nodes[k].next
      && SizedFrom(r, i + 1) && r.order[i + 1] < |r.nodes| && !r.nodes[r.order[i + 1]].hidden
      && Overflow(s, k, pos, delLen) == WalkOutcome(r, i + 1, rem, delLen, [k])
  {
    var nx, rem := s.nodes[k].next, delLen - (Length(s.nodes[k]) - pos);
    OverflowSplits(s, k, pos, delLen);
    RefusedAfter(s, k, pos);
    OverflowStart(s, k, pos, delLen, nx, rem);
  }

  /** What rgass.go LocalDelete does to the text when it finishes, case by case, next to the
    * text before it, where the target shows `Visible(n)` between the text before and after it:
    * deleting the whole node shows nothing in its place; a prefix, a suffix (with the deleted
    * length taken as the split position) or a middle range leaves the rest of the node showing
    * unless Replace rejects the parts; a negative length, a negative position or a delete
    * from the start longer than the node changes nothing. The overflow case is OverflowWalk,
    * HeadCut and OverflowRefusedText. */
  lemma LocalDeleteText(s: St, tarID: ID, pos: int, delLen: int)
    requires Good(s) && tarID in s.table
    ensures var k := s.table[tarID];
      k in s.order && k < |s.nodes| && (var n, i, L := s.nodes[k], IndexOf(s.order, k), Length(s.nodes[k]);
      && i + 1 < |s.order|
      && TextSt(s) == Spliced(s.nodes, s.order, i, Visible(n))
      && var d := LocalDeleteSt(s, tarID, pos, delLen);
      d.run.Done? ==> var r := d.run.st; var linked := |s.nodes| in r.order;
        && (pos == 0 && delLen == L ==> TextSt(r) == Spliced(s.nodes, s.order, i, ""))
        && (pos == 0 && delLen < L ==> if delLen < 0 then r == s else
              TextSt(r) == Spliced(s.nodes, s.order, i, if linked then ShowsFrom(n, delLen) else ""))
        && (0 < pos && pos + delLen == L ==> if delLen < 0 then r == s else
              TextSt(r) == Spliced(s.nodes, s.order, i, if linked then ShowsUpTo(n, delLen) else ""))
        && (0 < pos && pos + delLen < L ==> if delLen < 0 then r == s else
              TextSt(r) == Spliced(s.nodes, s.order, i, if linked then ShowsOutside(n, pos, pos + delLen) else ""))
        && (pos < 0 || (pos == 0 && delLen > L) ==> r == s))
  {
    TableLinked(s, tarID);
    GoodLinkable(s);
    var k := s.table[tarID];
    var n := s.nodes[k];
    var L := Length(n);
    HideText(s, k);
    if pos == 0 && delLen == L {
    } else if pos == 0 && delLen < L {
      if Cut2(s, k, Prior, delLen).Done? {
        PriorCase(s, k, delLen);
      }
    } else if pos > 0 && pos + delLen == L {
      if Cut2(s, k, Last, delLen).Done? {
        SuffixCase(s, k, pos, delLen);
      }
    } else if pos > 0 && pos + delLen < L {
      if Cut3(s, k, pos, delLen).Done? {
        MiddleCase(s, k, pos, delLen);
      }
    }
  }
}
