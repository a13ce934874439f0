/** What the overflow walk of rgass/rgass.go LocalDelete does to the document text: starting
  * at a visible node whose text is as long as its identifier records, it takes out exactly the
  * characters it was asked to, from the text position of that node on, while the tombstones it
  * passes count towards the effective length and the visible nodes after the first join the
  * node list. */
module Walks {
  import opened Ids
  import opened Nodes
  import opened Arena
  import opened Splits
  import opened Edits
  import opened Erasure

  /** The length of the text that the nodes before the `j`-th of the document order show. */
  function Before(s: St, j: nat): nat
    requires j <= |s.order|
  {
    |TextOf(s.nodes, s.order[..j])|
  }

  /** `t` with the `n` characters from position `at` taken out. */
  function Removed(t: string, at: int, n: int): (r: string)
    requires 0 <= at && 0 <= n && at + n <= |t|
    ensures |r| == |t| - n
  {
    t[..at] + t[at + n..]
  }

  /** Taking out `a` characters and then `b` more at the same place takes out `a + b`. */
  lemma CutTwice(t: string, at: int, a: int, b: int)
    requires 0 <= at && 0 <= a && 0 <= b && at + a <= |t| && at + b <= |Removed(t, at, a)|
    ensures at + a + b <= |t| && Removed(Removed(t, at, a), at, b) == Removed(t, at, a + b)
  {
    var u := Removed(t, at, a);
    assert u[..at] == t[..at];
    assert u[at + b..] == t[at + a + b..];
  }

  /** `CutTwice` for texts given by name: a text cut at the same place twice. */
  lemma CutChain(t: string, t1: string, t2: string, at: int, at1: int, a: int, b: int)
    requires 0 <= at && 0 <= a && 0 <= b && at + a <= |t| && t1 == Removed(t, at, a)
    requires at1 == at && at1 + b <= |t1| && t2 == Removed(t1, at1, b)
    ensures at + a + b <= |t| && t2 == Removed(t, at, a + b)
  {
    CutTwice(t, at, a, b);
  }

  /** The nodes of the document order from the `j`-th on hold texts as long as their
    * identifiers record, as every node the source creates does. */
  ghost predicate SizedFrom(s: St, j: nat)
  {
    forall t :: j <= t < |s.order| && s.order[t] < |s.nodes| ==>
      |s.nodes[s.order[t]].str| == Length(s.nodes[s.order[t]])
  }

  /** Tombstoning a node changes neither its text nor its identifier. */
  lemma SizedHide(s: St, j: nat, k: nat)
    requires k < |s.nodes| && SizedFrom(s, j)
    ensures SizedFrom(HideAt(s, k), j)
  {
    var s1 := HideAt(s, k);
    forall t | j <= t < |s1.order| && s1.order[t] < |s1.nodes|
      ensures |s1.nodes[s1.order[t]].str| == Length(s1.nodes[s1.order[t]])
    {
      assert s1.nodes[s1.order[t]].str == s.nodes[s.order[t]].str;
      assert s1.nodes[s1.order[t]].id == s.nodes[s.order[t]].id;
    }
  }

  /** The text around the `j`-th node of the order: what the nodes before it show, its own
    * visible text, and what the nodes after it up to the tail show. */
  lemma TextAt(s: St, j: nat)
    requires Linkable(s) && j + 1 < |s.order|
    ensures var o := s.order;
      && s.order[j] !in o[..j] && s.order[j] !in o[j + 1..|o| - 1] && o[j] < |s.nodes|
      && TextSt(s) == TextOf(s.nodes, o[..j]) + Visible(s.nodes[o[j]]) + TextOf(s.nodes, o[j + 1..|o| - 1])
  {
    var o := s.order;
    IndexOfDistinct(o, j);
    NotLater(o, j);
    TextAround(s.nodes, o, j);
  }

  /** A tombstoned node adds nothing to the text before the nodes that follow it. */
  lemma PastHidden(s: St, j: nat)
    requires Linkable(s) && j < |s.order| && s.order[j] < |s.nodes| && s.nodes[s.order[j]].hidden
    ensures Before(s, j + 1) == Before(s, j)
  {
    TextOfHiddenLast(s.nodes, s.order, j);
  }

  /** Taking the middle piece out of a text of three pieces. */
  lemma CutMiddle(P: string, x: string, R: string, T: string, T1: string)
    requires T == P + x + R && T1 == P + R
    ensures |P| + |x| <= |T| && T1 == Removed(T, |P|, |x|)
  {
    assert T[..|P|] == P && T[|P| + |x|..] == R;
  }

  /** Once the `j`-th node is tombstoned, the text is what the nodes before and after it
    * show. */
  lemma HiddenText(s: St, j: nat)
    requires Linkable(s) && j + 1 < |s.order|
    ensures var o, k := s.order, s.order[j];
      && k < |s.nodes|
      && TextSt(HideAt(s, k)) == TextOf(s.nodes, o[..j]) + TextOf(s.nodes, o[j + 1..|o| - 1])
  {
    HiddenNodes(s.nodes, s.order, j);
  }

  /** The text of the nodes of `o` but the last, once its `j`-th node is tombstoned: what
    * the nodes before and after that one show. */
  lemma HiddenNodes(a: seq<Node>, o: seq<nat>, j: nat)
    requires Distinct(o) && InRange(a, o) && j + 1 < |o|
    ensures o[j] < |a|
      && TextOf(a[o[j] := DeleteWhole(a[o[j]])], o[..|o| - 1]) == TextOf(a, o[..j]) + TextOf(a, o[j + 1..|o| - 1])
  {
    var k := o[j];
    var b := a[k := DeleteWhole(a[k])];
    DistinctPairs(o);
    assert k !in o[..j];
    NotLater(o, j);
    TextBefore(a, b, o, j);
    TextAfter(a, b, o, j);
    TextAround(b, o, j);
  }

  /** Once the `j`-th node is tombstoned, the nodes before the next one show what they
    * showed before it. */
  lemma HiddenBefore(s: St, j: nat)
    requires Linkable(s) && j + 1 < |s.order|
    ensures s.order[j] < |s.nodes| && Before(HideAt(s, s.order[j]), j + 1) == Before(s, j)
  {
    var o, k := s.order, s.order[j];
    var s1 := HideAt(s, k);
    TextAt(s, j);
    HideEffect(s, k);
    TextBefore(s.nodes, s1.nodes, o, j);
    TextOfHiddenLast(s1.nodes, o, j);
  }

  /** Tombstoning the visible `j`-th node takes its characters out of the text, at the text
    * position of the node, and the nodes before the next one still show as much. */
  lemma HideStepText(s: St, j: nat)
    requires Linkable(s) && j + 1 < |s.order|
    requires var k := s.order[j];
      k != TailIx && k < |s.nodes| && !s.nodes[k].hidden && |s.nodes[k].str| == Length(s.nodes[k])
    ensures var k := s.order[j];
      && Before(s, j) + Length(s.nodes[k]) <= |TextSt(s)|
      && TextSt(HideAt(s, k)) == Removed(TextSt(s), Before(s, j), Length(s.nodes[k]))
      && Before(HideAt(s, k), j + 1) == Before(s, j)
  {
    var k := s.order[j];
    TextAt(s, j);
    HiddenText(s, j);
    HiddenBefore(s, j);
    HideCutText(s, HideAt(s, k), j, s.nodes[k].str, Length(s.nodes[k]));
  }

  /** Taking the `j`-th node's text `x` out of the text of `s`. */
  lemma HideCutText(s: St, r: St, j: nat, x: string, L: int)
    requires j + 1 < |s.order| && L == |x|
    requires var P, R := TextOf(s.nodes, s.order[..j]), TextOf(s.nodes, s.order[j + 1..|s.order| - 1]);
      TextSt(s) == P + x + R && TextSt(r) == P + R
    ensures Before(s, j) + L <= |TextSt(s)| && TextSt(r) == Removed(TextSt(s), Before(s, j), L)
  {
    CutMiddle(TextOf(s.nodes, s.order[..j]), x, TextOf(s.nodes, s.order[j + 1..|s.order| - 1]), TextSt(s), TextSt(r));
  }

  /** A prefix cut whose second part ends up linked made its split. */
  lemma LinkedCut(s: St, k: nat, rem: int)
    requires Linkable(s) && k < |s.nodes|
    requires var r := Cut2(s, k, Prior, rem); r.Done? && |s.nodes| in r.st.order
    ensures Split2(s, k, Prior, rem).Cut?
  {
    assert |s.nodes| !in s.order;
  }

  /** The parts of a prefix cut of the `j`-th node, linked, show its text after the prefix
    * in its place. */
  lemma PrefixCutAt(s: St, j: nat, rem: int)
    requires Linkable(s) && j + 1 < |s.order| && s.order[j] != TailIx && s.order[j] < |s.nodes|
    requires var r := Cut2(s, s.order[j], Prior, rem); r.Done? && |s.nodes| in r.st.order
    ensures var o, k := s.order, s.order[j];
      && 0 <= rem <= |s.nodes[k].str|
      && TextSt(Cut2(s, k, Prior, rem).st)
         == TextOf(s.nodes, o[..j]) + ShowsFrom(s.nodes[k], rem) + TextOf(s.nodes, o[j + 1..|o| - 1])
  {
    var o, k := s.order, s.order[j];
    IndexOfDistinct(o, j);
    LinkedCut(s, k, rem);
    Cut2Text(s, k, Prior, rem);
    PriorParts(s, k, rem);
  }

  /** Taking a prefix of `rem` characters off the middle piece of a text of three pieces. */
  lemma CutPrefix(P: string, x: string, R: string, T: string, T1: string, rem: int)
    requires 0 <= rem <= |x| && T == P + x + R && T1 == P + x[rem..] + R
    ensures |P| + rem <= |T| && T1 == Removed(T, |P|, rem)
  {
    assert T[..|P|] == P && T[|P| + rem..] == x[rem..] + R;
  }

  /** Cutting a prefix of `rem` characters off the visible `j`-th node, its parts linked,
    * takes those characters out of the text at the node's text position. */
  lemma CutStepText(s: St, j: nat, rem: int)
    requires Linkable(s) && j + 1 < |s.order|
    requires var k := s.order[j];
      && k != TailIx && k < |s.nodes| && !s.nodes[k].hidden && |s.nodes[k].str| == Length(s.nodes[k])
      && 0 < rem <= Length(s.nodes[k])
    requires var r := Cut2(s, s.order[j], Prior, rem); r.Done? && |s.nodes| in r.st.order
    ensures Before(s, j) + rem <= |TextSt(s)|
    ensures TextSt(Cut2(s, s.order[j], Prior, rem).st) == Removed(TextSt(s), Before(s, j), rem)
  {
    var o, k := s.order, s.order[j];
    var n := s.nodes[k];
    TextAt(s, j);
    PrefixCutAt(s, j, rem);
    assert ShowsFrom(n, rem) == Visible(n)[rem..];
    CutPrefix(TextOf(s.nodes, o[..j]), Visible(n), TextOf(s.nodes, o[j + 1..|o| - 1]),
              TextSt(s), TextSt(Cut2(s, k, Prior, rem).st), rem);
  }

  /** A linked node other than the tail has a successor in the document order. */
  lemma NotLast(s: St, j: nat)
    requires Linkable(s) && j < |s.order| && s.order[j] != TailIx
    ensures j + 1 < |s.order|
  {
    assert s.order[|s.order| - 1] == TailIx;
  }

  /** `WalkText` for the walk named through its non-recursive wrapper. */
  lemma OutcomeText(s: St, j: nat, rem: int, eff: int, list: seq<nat>, d: Deleted)
    requires Good(s) && j < |s.order| && rem > 0 && SizedFrom(s, j)
    requires s.order[j] < |s.nodes| && !s.nodes[s.order[j]].hidden
    requires d == WalkOutcome(s, j, rem, eff, list) && d.run.Done? && |s.nodes| in d.run.st.order
    ensures Before(s, j) + rem <= |TextSt(s)|
    ensures TextSt(d.run.st) == Removed(TextSt(s), Before(s, j), rem)
  {
    WalkText(s, j, rem, eff, list);
  }

  /** The overflow walk from the visible `j`-th node, when it finishes with the parts of its
    * last cut linked: `rem` characters leave the text, from the node's text position on. */
  lemma {:induction false} WalkText(s: St, j: nat, rem: int, eff: int, list: seq<nat>)
    requires Good(s) && j < |s.order| && rem > 0 && SizedFrom(s, j)
    requires s.order[j] < |s.nodes| && !s.nodes[s.order[j]].hidden
    requires Walk(s, j, rem, eff, list).run.Done? && |s.nodes| in Walk(s, j, rem, eff, list).run.st.order
    ensures Before(s, j) + rem <= |TextSt(s)|
    ensures TextSt(Walk(s, j, rem, eff, list).run.st) == Removed(TextSt(s), Before(s, j), rem)
    decreases |s.order| - j, 1
  {
    if rem > Length(s.nodes[s.order[j]]) {
      WalkHideText(s, j, rem, eff, list);
    } else {
      WalkCutText(s, j, rem, eff, list);
    }
  }

  /** The last step of the walk: a prefix of what remains is cut off the node reached. */
  lemma WalkCutText(s: St, j: nat, rem: int, eff: int, list: seq<nat>)
    requires Good(s) && j < |s.order| && rem > 0 && SizedFrom(s, j)
    requires s.order[j] < |s.nodes| && !s.nodes[s.order[j]].hidden && rem <= Length(s.nodes[s.order[j]])
    requires Walk(s, j, rem, eff, list).run.Done? && |s.nodes| in Walk(s, j, rem, eff, list).run.st.order
    ensures Before(s, j) + rem <= |TextSt(s)|
    ensures TextSt(Walk(s, j, rem, eff, list).run.st) == Removed(TextSt(s), Before(s, j), rem)
  {
    GoodLinkable(s);
    WalkCuts(s, j, rem, eff, list);
    NotLast(s, j);
    CutStepText(s, j, rem);
  }

  /** A step of the walk over a node shorter than what remains: the node is tombstoned and
    * the rest leaves the text from the same position. */
  lemma {:induction false} WalkHideText(s: St, j: nat, rem: int, eff: int, list: seq<nat>)
    requires Good(s) && j < |s.order| && rem > 0 && SizedFrom(s, j)
    requires s.order[j] < |s.nodes| && !s.nodes[s.order[j]].hidden && rem > Length(s.nodes[s.order[j]])
    requires Walk(s, j, rem, eff, list).run.Done? && |s.nodes| in Walk(s, j, rem, eff, list).run.st.order
    ensures Before(s, j) + rem <= |TextSt(s)|
    ensures TextSt(Walk(s, j, rem, eff, list).run.st) == Removed(TextSt(s), Before(s, j), rem)
    decreases |s.order| - j, 0
  {
    var k := s.order[j];
    var len := Length(s.nodes[k]);
    var s1 := HideAt(s, k);
    HideStep(s, j, rem, eff, list);
    SkipAfterHide(TextSt(s), Before(s, j), len, rem, s1, j + 1, rem - len, eff, list);
  }

  /** The skipping that follows a tombstoned node takes its characters out of the text right
    * after the `a` characters the node showed at `at`. */
  lemma SkipAfterHide(t: string, at: int, a: int, total: int, r: St, j: nat, rem: int, eff: int, list: seq<nat>)
    requires Good(r) && j < |r.order| && rem > 0 && SizedFrom(r, j) && total == a + rem
    requires SkipOutcome(r, j, rem, eff, list).run.Done? && |r.nodes| in SkipOutcome(r, j, rem, eff, list).run.st.order
    requires 0 <= at && 0 <= a && at + a <= |t| && TextSt(r) == Removed(t, at, a) && Before(r, j) == at
    ensures at + total <= |t| && TextSt(SkipOutcome(r, j, rem, eff, list).run.st) == Removed(t, at, total)
    decreases |r.order| - j, 4
  {
    SkipOutcomeText(r, j, rem, eff, list);
    CutChain(t, TextSt(r), TextSt(SkipOutcome(r, j, rem, eff, list).run.st), at, Before(r, j), a, rem);
  }

  /** What a step of the walk over a node shorter than what remains leaves for the skipping:
    * a document whose text lacks the node's characters, at the node's text position. */
  lemma HideStep(s: St, j: nat, rem: int, eff: int, list: seq<nat>)
    requires Good(s) && j < |s.order| && rem > 0 && SizedFrom(s, j)
    requires s.order[j] < |s.nodes| && !s.nodes[s.order[j]].hidden && rem > Length(s.nodes[s.order[j]])
    requires Walk(s, j, rem, eff, list).run.Done? && |s.nodes| in Walk(s, j, rem, eff, list).run.st.order
    ensures var k := s.order[j]; var s1 := HideAt(s, k); var len := Length(s.nodes[k]);
      && Good(s1) && j + 1 < |s1.order| && |s1.nodes| == |s.nodes| && SizedFrom(s1, j + 1)
      && Before(s1, j + 1) == Before(s, j) && Before(s, j) + len <= |TextSt(s)|
      && TextSt(s1) == Removed(TextSt(s), Before(s, j), len)
      && var d := SkipOutcome(s1, j + 1, rem - len, eff, list);
      && d.run.Done? && |s1.nodes| in d.run.st.order
      && TextSt(Walk(s, j, rem, eff, list).run.st) == TextSt(d.run.st)
  {
    var k := s.order[j];
    GoodLinkable(s);
    WalkHides(s, j, rem, eff, list);
    HideStepText(s, j);
    SizedHide(s, j + 1, k);
  }

  /** `SkipText` for the outcome of the skipping, as `HideStep` hands it over. */
  lemma SkipOutcomeText(s: St, j: nat, rem: int, eff: int, list: seq<nat>)
    requires Good(s) && j < |s.order| && rem > 0 && SizedFrom(s, j)
    requires SkipOutcome(s, j, rem, eff, list).run.Done? && |s.nodes| in SkipOutcome(s, j, rem, eff, list).run.st.order
    ensures Before(s, j) + rem <= |TextSt(s)|
    ensures TextSt(SkipOutcome(s, j, rem, eff, list).run.st) == Removed(TextSt(s), Before(s, j), rem)
    decreases |s.order| - j, 3
  {
    SkipText(s, j, rem, eff, list);
  }

  /** The tombstone skipping, likewise: the tombstones it passes show nothing, so the
    * characters leave the text from the `j`-th node's text position on. */
  lemma {:induction false} SkipText(s: St, j: nat, rem: int, eff: int, list: seq<nat>)
    requires Good(s) && j < |s.order| && rem > 0 && SizedFrom(s, j)
    requires Skip(s, j, rem, eff, list).run.Done? && |s.nodes| in Skip(s, j, rem, eff, list).run.st.order
    ensures Before(s, j) + rem <= |TextSt(s)|
    ensures TextSt(Skip(s, j, rem, eff, list).run.st) == Removed(TextSt(s), Before(s, j), rem)
    decreases |s.order| - j, 2
  {
    var k := s.order[j];
    GoodLinkable(s);
    if s.nodes[k].hidden {
      SkipStep(s, j, rem, eff, list);
      PastHidden(s, j);
      SkipText(s, j + 1, rem, eff + Length(s.nodes[k]), list);
    } else {
      assert Skip(s, j, rem, eff, list) == Walk(s, j, rem, eff, list + [k]);
      WalkText(s, j, rem, eff, list + [k]);
    }
  }

  /** The summed lengths of the tombstoned nodes among `xs`. */
  ghost function HiddenLength(nodes: seq<Node>, xs: seq<nat>): int
  {
    if xs == [] then 0
    else (if xs[0] < |nodes| && nodes[xs[0]].hidden then Length(nodes[xs[0]]) else 0) + HiddenLength(nodes, xs[1..])
  }

  /** The visible nodes among `xs`, in order. */
  ghost function ShownNodes(nodes: seq<Node>, xs: seq<nat>): seq<nat>
  {
    if xs == [] then []
    else (if xs[0] < |nodes| && !nodes[xs[0]].hidden then [xs[0]] else []) + ShownNodes(nodes, xs[1..])
  }

  /** A run of the order starting at `j` tallies its first node and then the rest. */
  lemma TallyCons(nodes: seq<Node>, o: seq<nat>, j: nat, m: nat)
    requires j < m <= |o|
    ensures HiddenLength(nodes, o[j..m]) ==
      (if o[j] < |nodes| && nodes[o[j]].hidden then Length(nodes[o[j]]) else 0) + HiddenLength(nodes, o[j + 1..m])
    ensures ShownNodes(nodes, o[j..m]) ==
      (if o[j] < |nodes| && !nodes[o[j]].hidden then [o[j]] else []) + ShownNodes(nodes, o[j + 1..m])
  {
    assert o[j..m][1..] == o[j + 1..m];
  }

  /** Nodes other than `k` tally the same in two arenas that differ only at `k`. */
  lemma {:induction false} TallyFrame(a: seq<Node>, b: seq<Node>, xs: seq<nat>, k: nat)
    requires |a| == |b| && k !in xs
    requires forall x :: 0 <= x < |a| && x != k ==> b[x] == a[x]
    ensures HiddenLength(b, xs) == HiddenLength(a, xs) && ShownNodes(b, xs) == ShownNodes(a, xs)
  {
    if xs != [] {
      assert xs[0] != k;
      TallyFrame(a, b, xs[1..], k);
    }
  }

  /** The nodes of the document order from the `a`-th up to, not including, the `m`-th. */
  ghost function Stretch(s: St, a: nat, m: nat): seq<nat>
    requires a <= m <= |s.order|
  {
    s.order[a..m]
  }

  /** The nodes of the document order after the `j`-th up to, not including, the `m`-th. */
  ghost function Beyond(s: St, j: nat, m: nat): seq<nat>
    requires j < m <= |s.order|
  {
    s.order[j + 1..m]
  }

  /** What the overflow walk from the `j`-th node of the order adds to the effective length
    * and to the node list: for some stopping point, the lengths of the nodes after the first
    * that were already tombstoned, and those of them that were visible, in order. The first
    * node counts towards neither, even when it was already tombstoned. */
  lemma {:induction false} WalkTally(s: St, j: nat, rem: int, eff: int, list: seq<nat>)
    requires Good(s) && j < |s.order| && rem > 0
    ensures var d := Walk(s, j, rem, eff, list);
      exists m :: j < m <= |s.order| && d.effectiveLen == eff + HiddenLength(s.nodes, Beyond(s, j, m))
        && d.list == list + ShownNodes(s.nodes, Beyond(s, j, m))
    decreases |s.order| - j, 1
  {
    var node := s.order[j];
    if node != TailIx && rem > Length(s.nodes[node]) {
      WalkHideTally(s, j, rem, eff, list);
    } else {
      var d := Walk(s, j, rem, eff, list);
      assert d.effectiveLen == eff && d.list == list;
      assert Beyond(s, j, j + 1) == [];
    }
  }

  /** `WalkTally` when the node is tombstoned whole and the skipping goes on after it. */
  lemma {:induction false} WalkHideTally(s: St, j: nat, rem: int, eff: int, list: seq<nat>)
    requires Good(s) && j < |s.order| && rem > 0 && s.order[j] != TailIx && rem > Length(s.nodes[s.order[j]])
    ensures var d := Walk(s, j, rem, eff, list);
      exists m :: j < m <= |s.order| && d.effectiveLen == eff + HiddenLength(s.nodes, Beyond(s, j, m))
        && d.list == list + ShownNodes(s.nodes, Beyond(s, j, m))
    decreases |s.order| - j, 0
  {
    var node := s.order[j];
    var len := Length(s.nodes[node]);
    var d := Walk(s, j, rem, eff, list);
    var s1 := HideAt(s, node);
    WalkHideSkip(s, j, rem, eff, list);
    SkipTally(s1, j + 1, rem - len, eff, list);
    var m :| j + 1 <= m <= |s.order| && d.effectiveLen == eff + HiddenLength(s1.nodes, Stretch(s1, j + 1, m))
      && d.list == list + ShownNodes(s1.nodes, Stretch(s1, j + 1, m));
    HideFrame(s, j, m);
  }

  /** The walk over a node shorter than what remains goes on as the skipping after it, on a
    * document where it is tombstoned. */
  lemma WalkHideSkip(s: St, j: nat, rem: int, eff: int, list: seq<nat>)
    requires Good(s) && j < |s.order| && rem > 0 && s.order[j] != TailIx && rem > Length(s.nodes[s.order[j]])
    ensures var node := s.order[j];
      && j + 1 < |s.order| && node < |s.nodes| && Good(HideAt(s, node)) && HideAt(s, node).order == s.order
      && Walk(s, j, rem, eff, list) == Skip(HideAt(s, node), j + 1, rem - Length(s.nodes[node]), eff, list)
  {
    var node := s.order[j];
    HideEffect(s, node);
    HideGood(s, node);
    assert j + 1 < |s.order| by {
      assert s.order[|s.order| - 1] == TailIx;
    }
  }

  /** Tombstoning the `j`-th node of the order changes neither the tombstoned lengths nor the
    * visible nodes among the nodes after it. */
  lemma HideFrame(s: St, j: nat, m: nat)
    requires Distinct(s.order) && j < m <= |s.order| && s.order[j] < |s.nodes|
    ensures var s1 := HideAt(s, s.order[j]);
      && HiddenLength(s1.nodes, Stretch(s1, j + 1, m)) == HiddenLength(s.nodes, Beyond(s, j, m))
      && ShownNodes(s1.nodes, Stretch(s1, j + 1, m)) == ShownNodes(s.nodes, Beyond(s, j, m))
  {
    var node := s.order[j];
    var s1 := HideAt(s, node);
    assert node !in s.order[j + 1..m] by {
      DistinctPairs(s.order);
    }
    TallyFrame(s.nodes, s1.nodes, s.order[j + 1..m], node);
    assert Stretch(s1, j + 1, m) == Beyond(s, j, m);
  }

  /** What the tombstone skipping from the `j`-th node adds: for some stopping point, the
    * lengths of the nodes from the `j`-th on that were already tombstoned, and those of them
    * that were visible, in order. */
  lemma {:induction false} SkipTally(s: St, j: nat, rem: int, eff: int, list: seq<nat>)
    requires Good(s) && j < |s.order| && rem > 0
    ensures var d := Skip(s, j, rem, eff, list);
      exists m :: j <= m <= |s.order| && d.effectiveLen == eff + HiddenLength(s.nodes, Stretch(s, j, m))
        && d.list == list + ShownNodes(s.nodes, Stretch(s, j, m))
    decreases |s.order| - j, 3
  {
    if s.nodes[s.order[j]].hidden {
      SkipPastTally(s, j, rem, eff, list);
    } else {
      SkipStopTally(s, j, rem, eff, list);
    }
  }

  /** `SkipTally` at a tombstone: its length counts and the skipping goes on after it. */
  lemma {:induction false} SkipPastTally(s: St, j: nat, rem: int, eff: int, list: seq<nat>)
    requires Good(s) && j < |s.order| && rem > 0 && s.nodes[s.order[j]].hidden
    ensures var d := Skip(s, j, rem, eff, list);
      exists m :: j <= m <= |s.order| && d.effectiveLen == eff + HiddenLength(s.nodes, Stretch(s, j, m))
        && d.list == list + ShownNodes(s.nodes, Stretch(s, j, m))
    decreases |s.order| - j, 2
  {
    var node := s.order[j];
    var d := Skip(s, j, rem, eff, list);
    var len := Length(s.nodes[node]);
    SkipStep(s, j, rem, eff, list);
    SkipTally(s, j + 1, rem, eff + len, list);
    var m :| j + 1 <= m <= |s.order| && d.effectiveLen == eff + len + HiddenLength(s.nodes, Stretch(s, j + 1, m))
      && d.list == list + ShownNodes(s.nodes, Stretch(s, j + 1, m));
    PastTally(s, j, m, eff, list, d.effectiveLen, d.list);
  }

  /** A tombstoned `j`-th node adds its length to the tally of the nodes after it. */
  lemma PastTally(s: St, j: nat, m: nat, eff: int, list: seq<nat>, e: int, l: seq<nat>)
    requires j < m <= |s.order| && s.order[j] < |s.nodes| && s.nodes[s.order[j]].hidden
    requires e == eff + Length(s.nodes[s.order[j]]) + HiddenLength(s.nodes, Stretch(s, j + 1, m))
    requires l == list + ShownNodes(s.nodes, Stretch(s, j + 1, m))
    ensures e == eff + HiddenLength(s.nodes, Stretch(s, j, m)) && l == list + ShownNodes(s.nodes, Stretch(s, j, m))
  {
    TallyCons(s.nodes, s.order, j, m);
  }

  /** `SkipTally` at a visible node: it joins the list and the walk goes on from it. */
  lemma {:induction false} SkipStopTally(s: St, j: nat, rem: int, eff: int, list: seq<nat>)
    requires Good(s) && j < |s.order| && rem > 0 && !s.nodes[s.order[j]].hidden
    ensures var d := Skip(s, j, rem, eff, list);
      exists m :: j <= m <= |s.order| && d.effectiveLen == eff + HiddenLength(s.nodes, Stretch(s, j, m))
        && d.list == list + ShownNodes(s.nodes, Stretch(s, j, m))
    decreases |s.order| - j, 2
  {
    var node := s.order[j];
    var d := Skip(s, j, rem, eff, list);
    var w := Walk(s, j, rem, eff, list + [node]);
    SkipStops(s, j, rem, eff, list);
    WalkTally(s, j, rem, eff, list + [node]);
    var m :| j < m <= |s.order| && w.effectiveLen == eff + HiddenLength(s.nodes, Beyond(s, j, m))
      && w.list == list + [node] + ShownNodes(s.nodes, Beyond(s, j, m));
    StopTally(s, j, m, eff, list, w.effectiveLen, w.list);
  }

  /** A visible `j`-th node joins the nodes after it in the tally. */
  lemma StopTally(s: St, j: nat, m: nat, eff: int, list: seq<nat>, e: int, l: seq<nat>)
    requires j < m <= |s.order| && s.order[j] < |s.nodes| && !s.nodes[s.order[j]].hidden
    requires e == eff + HiddenLength(s.nodes, Beyond(s, j, m))
    requires l == list + [s.order[j]] + ShownNodes(s.nodes, Beyond(s, j, m))
    ensures e == eff + HiddenLength(s.nodes, Stretch(s, j, m)) && l == list + ShownNodes(s.nodes, Stretch(s, j, m))
  {
    TallyCons(s.nodes, s.order, j, m);
  }

  /** The skipping stops at a visible node, which joins the list, and the walk goes on from it. */
  lemma SkipStops(s: St, j: nat, rem: int, eff: int, list: seq<nat>)
    requires Good(s) && j < |s.order| && rem > 0 && !s.nodes[s.order[j]].hidden
    ensures Skip(s, j, rem, eff, list) == Walk(s, j, rem, eff, list + [s.order[j]])
  {
  }
}
