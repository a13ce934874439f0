/** The state of an RGASS model (rgass/model.go) as a value: the node arena, the document
  * order and the node table, the invariant they keep, and the state each model operation
  * produces. The class in module Models holds such a state and applies these steps. */
module Arena {
  import opened Ids
  import opened Nodes

  /** Arena indices of the two sentinels. */
  const HeadIx: nat := 0
  const TailIx: nat := 1

  /** No index occurs twice. Stated recursively so that the pairwise fact is brought in only
    * where a proof asks for it (`DistinctPairs`). */
  ghost predicate Distinct(s: seq<nat>)
    decreases |s|
  {
    |s| == 0 || (s[0] !in s[1..] && Distinct(s[1..]))
  }

  lemma {:induction false} DistinctPairs(s: seq<nat>)
    requires Distinct(s)
    ensures forall i, j :: 0 <= i < j < |s| ==> s[i] != s[j]
    decreases |s|
  {
    if |s| > 0 {
      DistinctPairs(s[1..]);
      forall i, j | 0 <= i < j < |s| ensures s[i] != s[j] {
        assert s[j] == s[1..][j - 1];
        if i > 0 { assert s[i] == s[1..][i - 1]; }
      }
    }
  }

  lemma {:induction false} PairsDistinct(s: seq<nat>)
    requires forall i, j :: 0 <= i < j < |s| ==> s[i] != s[j]
    ensures Distinct(s)
    decreases |s|
  {
    if |s| > 0 {
      forall i, j | 0 <= i < j < |s| - 1 ensures s[1..][i] != s[1..][j] {
        assert s[1..][i] == s[i + 1] && s[1..][j] == s[j + 1];
      }
      PairsDistinct(s[1..]);
    }
  }

  /** The position of the first occurrence of `x` in `s`. */
  function IndexOf(s: seq<nat>, x: nat): (i: nat)
    requires x in s
    ensures i < |s| && s[i] == x && x !in s[..i]
  {
    IndexFrom(s, x)
  }

  /** The recursion behind IndexOf, kept apart so that properties stated with IndexOf do not
    * unfold it. */
  function IndexFrom(s: seq<nat>, x: nat): (i: nat)
    requires x in s
    ensures i < |s| && s[i] == x && x !in s[..i]
  {
    if s[0] == x then 0
    else
      var i := 1 + IndexFrom(s[1..], x);
      assert s[..i] == [s[0]] + s[1..][..i - 1];
      i
  }

  lemma IndexOfDistinct(s: seq<nat>, i: nat)
    requires Distinct(s) && i < |s|
    ensures IndexOf(s, s[i]) == i
  {
    DistinctPairs(s);
  }

  /** The split shape of node `k`: leaf or two or three increasing children after `k`. */
  ghost predicate ShapeAt(nodes: seq<Node>, k: nat)
    requires k < |nodes|
  {
    var l := nodes[k].list;
    && (nodes[k].split <==> l != [])
    && (|l| == 0 || |l| == 2 || |l| == 3)
    && (forall i :: 0 <= i < |l| ==> k < l[i] < |nodes| && TailIx < l[i])
    && (forall i :: 0 < i < |l| ==> l[i - 1] < l[i])
    && (|l| == 2 ==> nodes[k].str == nodes[l[0]].str + nodes[l[1]].str)
    && (|l| == 3 ==> nodes[k].str == nodes[l[0]].str + nodes[l[1]].str + nodes[l[2]].str)
  }

  /** Every child index is larger than its parent's, which bounds every descent. */
  ghost predicate Forward(nodes: seq<Node>)
  {
    forall k :: 0 <= k < |nodes| ==> ShapeAt(nodes, k)
  }

  /** A child records the node it was split from, so each node has at most one parent. */
  ghost predicate Parented(nodes: seq<Node>)
  {
    forall k, i :: 0 <= k < |nodes| && 0 <= i < |nodes[k].list| ==>
      nodes[k].list[i] < |nodes| && nodes[nodes[k].list[i]].ancestor == Some(k)
  }

  ghost predicate SplitHidden(nodes: seq<Node>)
  {
    forall k :: 0 <= k < |nodes| ==> nodes[k].split ==> nodes[k].hidden
  }

  ghost predicate Arena(nodes: seq<Node>)
  {
    |nodes| >= 2 && Forward(nodes) && Parented(nodes) && SplitHidden(nodes)
  }

  /** GetAncestor of a split part names the node it was split from, which lists it as a
    * child; it is not the root of the split tree (as the field's documentation has it) once
    * that node is itself a part: then the node named has an ancestor of its own. */
  lemma AncestorIsParent(nodes: seq<Node>, k: nat, i: nat)
    requires Arena(nodes) && k < |nodes| && i < |nodes[k].list|
    ensures var c := nodes[k].list[i];
      && k < c < |nodes| && GetAncestor(nodes[c], c) == k && nodes[k].split
      && (nodes[k].ancestor.Some? ==> nodes[GetAncestor(nodes[c], c)].ancestor.Some?)
  {
    assert ShapeAt(nodes, k);
  }

  ghost predicate InRange(nodes: seq<Node>, s: seq<nat>)
  {
    forall j :: 0 <= j < |s| ==> s[j] < |nodes|
  }

  /** Consecutive entries of `order` are linked to each other, forwards by `next` and backwards
    * by `prev`. Stated recursively, like `Distinct`; `LinksPairs` gives the positional form. */
  ghost predicate Links(nodes: seq<Node>, order: seq<nat>)
    decreases |order|
  {
    |order| < 2 ||
      (&& order[0] < |nodes| && order[1] < |nodes|
       && nodes[order[0]].next == order[1] && nodes[order[1]].prev == order[0]
       && Links(nodes, order[1..]))
  }

  lemma {:induction false} LinksPairs(nodes: seq<Node>, order: seq<nat>)
    requires Links(nodes, order) && InRange(nodes, order)
    ensures forall j :: 0 <= j < |order| - 1 ==> nodes[order[j]].next == order[j + 1]
    ensures forall j :: 0 < j < |order| ==> nodes[order[j]].prev == order[j - 1]
    decreases |order|
  {
    if |order| >= 2 {
      var t := order[1..];
      LinksPairs(nodes, t);
      forall j | 0 < j < |order| - 1 ensures nodes[order[j]].next == order[j + 1] {
        assert order[j] == t[j - 1] && order[j + 1] == t[j];
      }
      forall j | 1 < j < |order| ensures nodes[order[j]].prev == order[j - 1] {
        assert order[j] == t[j - 1] && order[j - 1] == t[j - 2];
      }
    }
  }

  lemma {:induction false} PairsLinks(nodes: seq<Node>, order: seq<nat>)
    requires InRange(nodes, order)
    requires forall j :: 0 <= j < |order| - 1 ==> nodes[order[j]].next == order[j + 1]
    requires forall j :: 0 < j < |order| ==> nodes[order[j]].prev == order[j - 1]
    ensures Links(nodes, order)
    decreases |order|
  {
    if |order| >= 2 {
      var t := order[1..];
      forall j | 0 <= j < |t| - 1 ensures nodes[t[j]].next == t[j + 1] {
        assert t[j] == order[j + 1] && t[j + 1] == order[j + 2];
      }
      forall j | 0 < j < |t| ensures nodes[t[j]].prev == t[j - 1] {
        assert t[j] == order[j + 1] && t[j - 1] == order[j];
      }
      PairsLinks(nodes, t);
    }
  }

  /** Links survive any change that keeps the links of the listed nodes. */
  lemma {:induction false} LinksFrame(a: seq<Node>, b: seq<Node>, order: seq<nat>)
    requires Links(a, order) && InRange(a, order) && InRange(b, order)
    requires forall j :: 0 <= j < |order| ==> b[order[j]].next == a[order[j]].next && b[order[j]].prev == a[order[j]].prev
    ensures Links(b, order)
    decreases |order|
  {
    if |order| >= 2 {
      var t := order[1..];
      forall j | 0 <= j < |t| ensures t[j] < |b| && b[t[j]].next == a[t[j]].next && b[t[j]].prev == a[t[j]].prev {
        assert t[j] == order[j + 1];
      }
      assert b[order[0]].next == a[order[0]].next && b[order[1]].prev == a[order[1]].prev;
      LinksFrame(a, b, t);
    }
  }

  /** `order` lists the linked nodes from the head to the tail sentinel and the
    * `next`/`prev` links of those nodes agree with it. */
  ghost predicate Chain(nodes: seq<Node>, order: seq<nat>)
  {
    && |order| >= 2 && order[0] == HeadIx && order[|order| - 1] == TailIx
    && Distinct(order) && InRange(nodes, order) && Links(nodes, order)
  }

  function Unlinked(n: Node): Node
  {
    n.(next := Nil, prev := Nil)
  }

  /** The two arenas agree on everything but the document-order links. */
  ghost predicate SameButLinks(a: seq<Node>, b: seq<Node>)
  {
    |a| == |b| && forall k :: 0 <= k < |a| ==> Unlinked(a[k]) == Unlinked(b[k])
  }

  lemma SameButLinksArena(a: seq<Node>, b: seq<Node>)
    requires Arena(a) && SameButLinks(a, b)
    ensures Arena(b)
  {
    forall k | 0 <= k < |b| ensures ShapeAt(b, k) {
      assert Unlinked(a[k]) == Unlinked(b[k]);
      assert ShapeAt(a, k);
      forall i | 0 <= i < |a[k].list| ensures b[a[k].list[i]].str == a[a[k].list[i]].str {
        assert Unlinked(a[a[k].list[i]]) == Unlinked(b[a[k].list[i]]);
      }
    }
    forall k, i | 0 <= k < |b| && 0 <= i < |b[k].list|
      ensures b[k].list[i] < |b| && b[b[k].list[i]].ancestor == Some(k)
    {
      assert Unlinked(a[k]) == Unlinked(b[k]);
      assert Unlinked(a[a[k].list[i]]) == Unlinked(b[a[k].list[i]]);
    }
    forall k | 0 <= k < |b| ensures b[k].split ==> b[k].hidden {
      assert Unlinked(a[k]) == Unlinked(b[k]);
    }
  }

  /** The visible text of the nodes `s`, in that order. */
  function TextOf(nodes: seq<Node>, s: seq<nat>): string
  {
    TextFrom(nodes, s)
  }

  /** The recursion behind TextOf, kept apart so that properties stated with TextOf do not
    * unfold it. */
  function TextFrom(nodes: seq<Node>, s: seq<nat>): string
  {
    if s == [] then "" else VisibleAt(nodes, s[0]) + TextFrom(nodes, s[1..])
  }

  lemma TextOfCons(nodes: seq<Node>, s: seq<nat>)
    requires s != []
    ensures TextOf(nodes, s) == VisibleAt(nodes, s[0]) + TextOf(nodes, s[1..])
  {
  }

  /** The text node `k` contributes; an index outside the arena, which no valid order holds,
    * contributes nothing. */
  function VisibleAt(nodes: seq<Node>, k: nat): string
  {
    if k < |nodes| then Visible(nodes[k]) else ""
  }

  lemma {:induction false} TextOfAppend(nodes: seq<Node>, s: seq<nat>, t: seq<nat>)
    ensures TextOf(nodes, s + t) == TextOf(nodes, s) + TextOf(nodes, t)
  {
    if s == [] {
      assert s + t == t;
    } else {
      assert (s + t)[1..] == s[1..] + t;
      TextOfAppend(nodes, s[1..], t);
    }
  }

  lemma {:induction false} TextOfSameButLinks(a: seq<Node>, b: seq<Node>, s: seq<nat>)
    requires SameButLinks(a, b)
    ensures TextOf(a, s) == TextOf(b, s)
  {
    if s != [] {
      if s[0] < |a| { assert Unlinked(a[s[0]]) == Unlinked(b[s[0]]); }
      TextOfSameButLinks(a, b, s[1..]);
    }
  }

  /** The arena after linking `nw` between `tar` and its successor. */
  function Linked(nodes: seq<Node>, tar: nat, nw: nat): seq<Node>
    requires tar < |nodes| && nw < |nodes| && 0 <= nodes[tar].next < |nodes|
  {
    var nx := nodes[tar].next;
    var a := nodes[nw := nodes[nw].(next := nx, prev := tar)];
    var b := a[nx := a[nx].(prev := nw)];
    b[tar := b[tar].(next := nw)]
  }

  lemma LinkedArena(nodes: seq<Node>, tar: nat, nw: nat)
    requires tar < |nodes| && nw < |nodes| && 0 <= nodes[tar].next < |nodes|
    requires tar != nw && nw != nodes[tar].next && tar != nodes[tar].next
    ensures SameButLinks(nodes, Linked(nodes, tar, nw))
    ensures var n' := Linked(nodes, tar, nw);
      && n'[nw].prev == tar && n'[tar].next == nw
      && n'[nw].next == nodes[tar].next && n'[nodes[tar].next].prev == nw
  {
  }

  lemma SeqInsertAt(o: seq<nat>, i: nat, nw: nat, o': seq<nat>)
    requires i < |o| && o' == o[..i + 1] + [nw] + o[i + 1..]
    ensures |o'| == |o| + 1
    ensures forall j :: 0 <= j <= i ==> o'[j] == o[j]
    ensures o'[i + 1] == nw
    ensures forall j :: i + 1 < j < |o'| ==> o'[j] == o[j - 1]
    ensures forall x :: x in o' <==> x in o || x == nw
  {
    forall x ensures x in o' <==> x in o || x == nw {
      if x in o {
        var k := IndexOf(o, x);
        if k <= i { assert o'[k] == x; } else { assert o'[k + 1] == x; }
      }
    }
  }

  lemma InsertMembers(o: seq<nat>, i: nat, nw: nat)
    requires i < |o|
    ensures forall x :: x in o[..i + 1] + [nw] + o[i + 1..] <==> x in o || x == nw
  {
    SeqInsertAt(o, i, nw, o[..i + 1] + [nw] + o[i + 1..]);
  }

  lemma LinkedDistinct(o: seq<nat>, i: nat, nw: nat, o': seq<nat>)
    requires Distinct(o) && i < |o| && nw !in o && o' == o[..i + 1] + [nw] + o[i + 1..]
    ensures Distinct(o')
  {
    SeqInsertAt(o, i, nw, o');
    DistinctPairs(o);
    forall a, b | 0 <= a < b < |o'| ensures o'[a] != o'[b] {
      if a == i + 1 {
        assert o'[b] == o[b - 1];
      } else if b == i + 1 {
        assert o'[a] == o[a];
      } else {
        var a' := if a <= i then a else a - 1;
        var b' := if b <= i then b else b - 1;
        assert o'[a] == o[a'] && o'[b] == o[b'] && a' < b';
      }
    }
    PairsDistinct(o');
  }

  lemma LinkedChain(nodes: seq<Node>, o: seq<nat>, i: nat, nw: nat)
    requires Chain(nodes, o) && i < |o| - 1 && nw < |nodes| && nw !in o
    ensures nodes[o[i]].next == o[i + 1] && o[i] != o[i + 1]
    ensures var o' := o[..i + 1] + [nw] + o[i + 1..];
      0 <= nodes[o[i]].next < |nodes| && Chain(Linked(nodes, o[i], nw), o')
  {
    LinksPairs(nodes, o);
    DistinctPairs(o);
    var o' := o[..i + 1] + [nw] + o[i + 1..];
    assert nodes[o[i]].next == o[i + 1] && o[i] != o[i + 1] && o[i + 1] < |nodes|;
    var n' := Linked(nodes, o[i], nw);
    SeqInsertAt(o, i, nw, o');
    LinkedDistinct(o, i, nw, o');
    assert InRange(n', o') by {
      forall j | 0 <= j < |o'| ensures o'[j] < |n'| {
        if j != i + 1 { assert o'[j] in o; }
      }
    }
    LinkedNexts(nodes, o, i, nw, o');
    LinkedPrevs(nodes, o, i, nw, o');
    PairsLinks(n', o');
  }

  /** The forward links of the order after `nw` was linked after its `i`-th node. */
  lemma LinkedNexts(nodes: seq<Node>, o: seq<nat>, i: nat, nw: nat, o': seq<nat>)
    requires InRange(nodes, o) && Distinct(o) && i < |o| - 1 && nw < |nodes| && nw !in o
    requires forall j :: 0 <= j < |o| - 1 ==> nodes[o[j]].next == o[j + 1]
    requires nodes[o[i]].next == o[i + 1] && o[i] != o[i + 1]
    requires o' == o[..i + 1] + [nw] + o[i + 1..]
    ensures forall j :: 0 <= j < |o'| - 1 ==> Linked(nodes, o[i], nw)[o'[j]].next == o'[j + 1]
  {
    var n' := Linked(nodes, o[i], nw);
    SeqInsertAt(o, i, nw, o');
    DistinctPairs(o);
    forall j | 0 <= j < |o'| - 1 ensures n'[o'[j]].next == o'[j + 1] {
      if j < i {
        assert o[j] != o[i] && o[j] != nw;
      } else if j > i + 1 {
        assert o[j - 1] != o[i] && o[j - 1] != nw;
      }
    }
  }

  /** The backward links of the order after `nw` was linked after its `i`-th node. */
  lemma LinkedPrevs(nodes: seq<Node>, o: seq<nat>, i: nat, nw: nat, o': seq<nat>)
    requires InRange(nodes, o) && Distinct(o) && i < |o| - 1 && nw < |nodes| && nw !in o
    requires forall j :: 0 <= j < |o| - 1 ==> nodes[o[j]].next == o[j + 1]
    requires forall j :: 0 < j < |o| ==> nodes[o[j]].prev == o[j - 1]
    requires nodes[o[i]].next == o[i + 1] && o[i] != o[i + 1]
    requires o' == o[..i + 1] + [nw] + o[i + 1..]
    ensures forall j :: 0 < j < |o'| ==> Linked(nodes, o[i], nw)[o'[j]].prev == o'[j - 1]
  {
    var n' := Linked(nodes, o[i], nw);
    var nx := o[i + 1];
    SeqInsertAt(o, i, nw, o');
    DistinctPairs(o);
    forall j | 0 < j < |o'| ensures n'[o'[j]].prev == o'[j - 1] {
      if j <= i {
        assert o[j] != nx && o[j] != nw;
      } else if j > i + 2 {
        assert o[j - 1] != nx && o[j - 1] != nw && o[j - 1] != o[i];
      }
    }
  }

  /** Membership in the document order, stated recursively: the table clause of the model
    * invariant uses it so that it does not name a position for every table entry. */
  ghost predicate Listed(s: seq<nat>, x: nat)
    decreases |s|
  {
    |s| > 0 && (s[0] == x || Listed(s[1..], x))
  }

  lemma {:induction false} ListedIff(s: seq<nat>, x: nat)
    ensures Listed(s, x) <==> x in s
    decreases |s|
  {
    if |s| > 0 {
      ListedIff(s[1..], x);
      assert s == [s[0]] + s[1..];
    }
  }

  /** The model invariant over the arena, the document order and the table. */
  ghost predicate ValidState(nodes: seq<Node>, order: seq<nat>, table: map<ID, nat>)
  {
    && Arena(nodes)
    && Chain(nodes, order)
    && !nodes[TailIx].hidden
    && ZeroID in table
    && forall id :: id in table ==>
         Listed(order, table[id]) && table[id] != TailIx && table[id] < |nodes| && nodes[table[id]].id == id
  }

  lemma LinkedValid(nodes: seq<Node>, o: seq<nat>, table: map<ID, nat>, i: nat, nw: nat)
    requires ValidState(nodes, o, table) && i < |o| - 1 && nw < |nodes| && nw !in o
    ensures 0 <= nodes[o[i]].next < |nodes| && nodes[o[i]].next == o[i + 1]
    ensures ValidState(Linked(nodes, o[i], nw), o[..i + 1] + [nw] + o[i + 1..], table)
    ensures SameButLinks(nodes, Linked(nodes, o[i], nw))
    ensures var n' := Linked(nodes, o[i], nw);
      && n'[nw].prev == o[i] && n'[o[i]].next == nw
      && n'[nw].next == o[i + 1] && n'[o[i + 1]].prev == nw
  {
    var tar := o[i];
    var o' := o[..i + 1] + [nw] + o[i + 1..];
    DistinctPairs(o);
    LinksPairs(nodes, o);
    assert nodes[tar].next == o[i + 1] && o[i] != o[i + 1];
    LinkedChain(nodes, o, i, nw);
    LinkedArena(nodes, tar, nw);
    var n' := Linked(nodes, tar, nw);
    SameButLinksArena(nodes, n');
    SeqInsertAt(o, i, nw, o');
    assert Unlinked(nodes[TailIx]) == Unlinked(n'[TailIx]);
    forall id | id in table
      ensures Listed(o', table[id]) && table[id] < |n'| && n'[table[id]].id == id
    {
      ListedIff(o, table[id]);
      ListedIff(o', table[id]);
      assert Unlinked(nodes[table[id]]) == Unlinked(n'[table[id]]);
    }
  }

  /** A record fit to be appended as a fresh, unsplit node. */
  ghost predicate LeafRecord(n: Node)
  {
    n.list == [] && !n.split
  }

  lemma AppendLeafValid(nodes: seq<Node>, order: seq<nat>, table: map<ID, nat>, n: Node)
    requires ValidState(nodes, order, table) && LeafRecord(n)
    ensures ValidState(nodes + [n], order, table)
    ensures |nodes| !in order
  {
    var n' := nodes + [n];
    ChainExtend(nodes, n, order);
    forall k | 0 <= k < |n'| ensures ShapeAt(n', k) {
      if k < |nodes| { assert ShapeAt(nodes, k); }
    }
    assert Parented(n') by {
      forall k, i | 0 <= k < |n'| && 0 <= i < |n'[k].list|
        ensures n'[k].list[i] < |n'| && n'[n'[k].list[i]].ancestor == Some(k)
      {
        assert k < |nodes|;
      }
    }
  }

  lemma TableAddValid(nodes: seq<Node>, order: seq<nat>, table: map<ID, nat>, k: nat)
    requires ValidState(nodes, order, table) && k in order && k != TailIx
    ensures k < |nodes| && ValidState(nodes, order, table[nodes[k].id := k])
  {
    var j := IndexOf(order, k);
    assert order[j] < |nodes|;
    ListedIff(order, k);
  }

  /** The elements of `s` below `n`, in order: the indices that existed before `n`. */
  function Below(s: seq<nat>, n: nat): seq<nat>
  {
    if s == [] then [] else (if s[0] < n then [s[0]] else []) + Below(s[1..], n)
  }

  lemma {:induction false} BelowAppend(s: seq<nat>, t: seq<nat>, n: nat)
    ensures Below(s + t, n) == Below(s, n) + Below(t, n)
  {
    if s != [] {
      assert (s + t)[1..] == s[1..] + t;
      BelowAppend(s[1..], t, n);
    } else {
      assert s + t == t;
    }
  }

  lemma {:induction false} BelowAll(s: seq<nat>, n: nat)
    requires forall j :: 0 <= j < |s| ==> s[j] < n
    ensures Below(s, n) == s
  {
    if s != [] {
      BelowAll(s[1..], n);
    }
  }

  /** Inserting an index that is not below `n` leaves the old indices as they were. */
  lemma BelowInsert(s: seq<nat>, p: nat, k: nat, n: nat)
    requires p <= |s| && k >= n
    ensures Below(s[..p] + [k] + s[p..], n) == Below(s, n)
  {
    BelowAppend(s[..p] + [k], s[p..], n);
    BelowAppend(s[..p], [k], n);
    BelowAppend(s[..p], s[p..], n);
    assert s[..p] + s[p..] == s;
  }

  /** The table after registering the nodes `ks` one after the other. */
  function Register(table: map<ID, nat>, nodes: seq<Node>, ks: seq<nat>): map<ID, nat>
    requires InRange(nodes, ks)
    decreases |ks|
  {
    if ks == [] then table else Register(table[nodes[ks[0]].id := ks[0]], nodes, ks[1..])
  }

  lemma {:induction false} RegisterSnoc(table: map<ID, nat>, nodes: seq<Node>, ks: seq<nat>, k: nat)
    requires InRange(nodes, ks) && k < |nodes|
    ensures InRange(nodes, ks + [k])
    ensures Register(table, nodes, ks + [k]) == Register(table, nodes, ks)[nodes[k].id := k]
    decreases |ks|
  {
    if ks != [] {
      assert (ks + [k])[1..] == ks[1..] + [k];
      RegisterSnoc(table[nodes[ks[0]].id := ks[0]], nodes, ks[1..], k);
    }
  }

  /** Appending the children of a split of the leaf `k` keeps the invariant. */
  /** The records a split of the leaf `k` produces: the parent `p` and the children `cs`,
    * which are to be appended to the arena in order. */
  ghost predicate FitParts(nodes: seq<Node>, k: nat, p: Node, cs: seq<Node>)
    requires k < |nodes|
  {
    && 2 <= |cs| <= 3
    && p == nodes[k].(hidden := true, split := true,
                      list := if |cs| == 2 then [|nodes|, |nodes| + 1] else [|nodes|, |nodes| + 1, |nodes| + 2])
    && (forall i :: 0 <= i < |cs| ==> LeafRecord(cs[i]) && cs[i].ancestor == Some(k))
    && nodes[k].str == (if |cs| == 2 then cs[0].str + cs[1].str else cs[0].str + cs[1].str + cs[2].str)
  }

  lemma SplitShape(nodes: seq<Node>, k: nat, p: Node, cs: seq<Node>)
    requires Arena(nodes) && k < |nodes| && !nodes[k].split && FitParts(nodes, k, p, cs)
    ensures Forward(nodes[k := p] + cs)
  {
    var n' := nodes[k := p] + cs;
    assert ShapeAt(nodes, k);
    forall q | 0 <= q < |n'| ensures ShapeAt(n', q) {
      if q < |nodes| && q != k {
        assert ShapeAt(nodes, q);
        forall i | 0 <= i < |nodes[q].list| ensures n'[nodes[q].list[i]].str == nodes[nodes[q].list[i]].str {
        }
      }
    }
  }

  lemma SplitParented(nodes: seq<Node>, k: nat, p: Node, cs: seq<Node>)
    requires Arena(nodes) && k < |nodes| && !nodes[k].split && FitParts(nodes, k, p, cs)
    ensures Parented(nodes[k := p] + cs)
  {
    var n' := nodes[k := p] + cs;
    assert ShapeAt(nodes, k);
    forall q, i | 0 <= q < |n'| && 0 <= i < |n'[q].list|
      ensures n'[q].list[i] < |n'| && n'[n'[q].list[i]].ancestor == Some(q)
    {
      assert q < |nodes|;
      if q != k {
        assert ShapeAt(nodes, q);
      }
    }
  }

  lemma SplitValid(nodes: seq<Node>, order: seq<nat>, table: map<ID, nat>, k: nat, p: Node, cs: seq<Node>)
    requires ValidState(nodes, order, table) && k < |nodes| && k != TailIx && !nodes[k].split
    requires FitParts(nodes, k, p, cs)
    ensures ValidState(nodes[k := p] + cs, order, table)
    ensures forall i :: |nodes| <= i < |nodes| + |cs| ==> i !in order
  {
    var n' := nodes[k := p] + cs;
    SplitShape(nodes, k, p, cs);
    SplitParented(nodes, k, p, cs);
    assert Chain(n', order) by {
      forall j | 0 <= j < |order| ensures n'[order[j]].next == nodes[order[j]].next && n'[order[j]].prev == nodes[order[j]].prev {
        assert order[j] < |nodes|;
      }
      LinksFrame(nodes, n', order);
    }
  }

  /** The leaf that position `pos` of node `k` resolves to, following the branches of
    * FindNode; `None` where the source indexes a third child a two-way split lacks. */
  function Descend(nodes: seq<Node>, k: nat, pos: int): (r: Option<nat>)
    requires Forward(nodes) && k < |nodes|
    ensures r.Some? ==> k <= r.value < |nodes| && !nodes[r.value].split
    decreases |nodes| - k
  {
    assert ShapeAt(nodes, k);
    var n := nodes[k];
    if !n.split then Some(k)
    else
      var c0, c1 := nodes[n.list[0]], nodes[n.list[1]];
      if pos <= Length(c0) then Descend(nodes, n.list[0], pos)
      else if pos <= c1.id.offset + Length(c1) then Descend(nodes, n.list[1], pos - Length(c0))
      else if |n.list| == 3 then Descend(nodes, n.list[2], pos - (Length(c0) + Length(c1)))
      else None
  }

  /** Node `j` lies in the split tree of node `c`: its chain of ancestors reaches `c`. */
  ghost predicate Under(nodes: seq<Node>, j: nat, c: nat)
    requires j < |nodes|
    decreases j
  {
    j == c
    || (nodes[j].ancestor.Some? && nodes[j].ancestor.value < j
        && Under(nodes, nodes[j].ancestor.value, c))
  }

  /** The leaf FindNode resolves to belongs to the split tree of the node it started from. */
  lemma {:induction false} DescendUnder(nodes: seq<Node>, k: nat, pos: int)
    requires Forward(nodes) && Parented(nodes) && k < |nodes|
    requires Descend(nodes, k, pos).Some?
    ensures Under(nodes, Descend(nodes, k, pos).value, k)
    decreases |nodes| - k
  {
    assert ShapeAt(nodes, k);
    var n := nodes[k];
    if n.split {
      var c0, c1 := nodes[n.list[0]], nodes[n.list[1]];
      var i :=
        if pos <= Length(c0) then 0
        else if pos <= c1.id.offset + Length(c1) then 1
        else 2;
      var p :=
        if i == 0 then pos
        else if i == 1 then pos - Length(c0)
        else pos - (Length(c0) + Length(c1));
      var c := n.list[i];
      assert Descend(nodes, k, pos) == Descend(nodes, c, p);
      DescendUnder(nodes, c, p);
      UnderTrans(nodes, Descend(nodes, c, p).value, c, k);
    }
  }

  lemma {:induction false} UnderTrans(nodes: seq<Node>, j: nat, c: nat, k: nat)
    requires Forward(nodes) && Parented(nodes) && j < |nodes| && c < |nodes|
    requires Under(nodes, j, c) && nodes[c].ancestor == Some(k) && k < c
    ensures Under(nodes, j, k)
    decreases j
  {
    if j != c {
      UnderTrans(nodes, nodes[j].ancestor.value, c, k);
    }
  }

  /** A node of the split tree of `c` has an index no smaller than `c`. */
  lemma {:induction false} UnderAbove(nodes: seq<Node>, j: nat, c: nat)
    requires j < |nodes| && Under(nodes, j, c)
    ensures c <= j
    decreases j
  {
    if j != c {
      UnderAbove(nodes, nodes[j].ancestor.value, c);
    }
  }

  /** The arena of the FindNode test in rgass/model_test.go, with the tree linked after the head. */
  function FindNodeFixture(): (nodes: seq<Node>)
  {
    var leaf := (id: ID, s: string) => Node(id, [], s, false, false, false, Nil, Nil, None, 0);
    [ Node(ZeroID, [], "", false, true, false, 2, Nil, None, 0),
      Node(ZeroID, [], "", false, true, false, Nil, 2, None, 0),
      Node(ID(0, 0, 0, 0, 10), [3, 4, 5], "1234567890", true, false, false, 1, 0, None, 0),
      leaf(ID(0, 0, 0, 0, 2), "12"),
      Node(ID(0, 0, 0, 2, 5), [6, 7], "34567", true, false, false, Nil, Nil, None, 0),
      Node(ID(0, 0, 0, 7, 3), [8, 9], "890", true, false, false, Nil, Nil, None, 0),
      leaf(ID(0, 0, 0, 0, 1), "3"),
      leaf(ID(0, 0, 0, 1, 4), "4567"),
      leaf(ID(0, 0, 0, 0, 2), "89"),
      leaf(ID(0, 0, 0, 2, 1), "0") ]
  }

  /** The resolutions the FindNode test expects: 0 and 2 give "12", 3 gives "3", 10 gives "0". */
  lemma FindNodeFixtureResolves()
    ensures Forward(FindNodeFixture())
    ensures var nodes := FindNodeFixture();
      && Descend(nodes, 2, 0) == Some(3) && nodes[3].str == "12"
      && Descend(nodes, 2, 2) == Some(3)
      && Descend(nodes, 2, 3) == Some(6) && nodes[6].str == "3"
      && Descend(nodes, 2, 10) == Some(9) && nodes[9].str == "0"
      && 11 > Length(nodes[2])
  {
    var nodes := FindNodeFixture();
    forall k | 0 <= k < |nodes| ensures ShapeAt(nodes, k) {
    }
    assert Descend(nodes, 4, 1) == Some(6);
    assert Descend(nodes, 5, 3) == Some(9);
  }

  lemma HideValid(nodes: seq<Node>, order: seq<nat>, table: map<ID, nat>, k: nat)
    requires ValidState(nodes, order, table) && k < |nodes| && k != TailIx
    ensures ValidState(nodes[k := nodes[k].(hidden := true)], order, table)
  {
    var n' := nodes[k := nodes[k].(hidden := true)];
    forall q | 0 <= q < |n'| ensures ShapeAt(n', q) {
      assert ShapeAt(nodes, q);
      forall i | 0 <= i < |nodes[q].list| ensures n'[nodes[q].list[i]].str == nodes[nodes[q].list[i]].str {
      }
    }
    assert Chain(n', order) by {
      forall j | 0 <= j < |order| ensures n'[order[j]].next == nodes[order[j]].next && n'[order[j]].prev == nodes[order[j]].prev {
      }
      LinksFrame(nodes, n', order);
    }
  }


  /** A model state: the arena, the document order and the node table. */
  datatype St = St(nodes: seq<Node>, order: seq<nat>, table: map<ID, nat>)

  /** What an operation leaves behind: the new state and the error it reports, if any. */
  datatype Outcome = Outcome(st: St, err: Option<Error>)

  ghost predicate Good(s: St)
  {
    ValidState(s.nodes, s.order, s.table)
  }

  /** The visible text of a state: the linked nodes before the tail (rgass.go Text). */
  function TextSt(s: St): string
  {
    if s.order == [] then "" else TextOf(s.nodes, s.order[..|s.order| - 1])
  }

  /** A registered node is linked, is not the tail and carries the identifier it is
    * registered under. */
  lemma TableLinked(s: St, id: ID)
    requires Good(s) && id in s.table
    ensures s.table[id] in s.order && s.table[id] != TailIx
    ensures s.table[id] < |s.nodes| && s.nodes[s.table[id]].id == id
  {
    ListedIff(s.order, s.table[id]);
  }

  /** The part of the invariant the linking steps below need: the document order and the
    * head's registration under the zero identifier. */
  ghost predicate Linkable(s: St)
  {
    Chain(s.nodes, s.order) && ZeroID in s.table
  }

  lemma GoodLinkable(s: St)
    requires Good(s)
    ensures Linkable(s)
  {
  }

  /** The state after linking the unlinked node `nw` right after the linked node `tar`
    * (model.go linkAfter). */
  function LinkSt(s: St, tar: nat, nw: nat): St
    requires Linkable(s) && tar in s.order && tar != TailIx && nw < |s.nodes| && nw !in s.order
  {
    var i := IndexOf(s.order, tar);
    LinkedChain(s.nodes, s.order, i, nw);
    St(Linked(s.nodes, tar, nw), s.order[..i + 1] + [nw] + s.order[i + 1..], s.table)
  }

  /** Linking puts `nw` into the order right after `tar`, keeps the chain and the table, and
    * changes no node record but its links. */
  lemma LinkStEffect(s: St, tar: nat, nw: nat)
    requires Linkable(s) && tar in s.order && tar != TailIx && nw < |s.nodes| && nw !in s.order
    ensures var r := LinkSt(s, tar, nw); var i := IndexOf(s.order, tar);
      && Linkable(r) && r.table == s.table && SameButLinks(s.nodes, r.nodes)
      && i + 1 < |s.order|
      && r.order == s.order[..i + 1] + [nw] + s.order[i + 1..]
      && (forall x :: x in r.order <==> x in s.order || x == nw)
  {
    var i := IndexOf(s.order, tar);
    LinkedChain(s.nodes, s.order, i, nw);
    LinkedArena(s.nodes, tar, nw);
    InsertMembers(s.order, i, nw);
  }

  /** The links after linking: `nw` sits between `tar` and the old successor of `tar`. */
  lemma LinkStLinks(s: St, tar: nat, nw: nat)
    requires Linkable(s) && tar in s.order && tar != TailIx && nw < |s.nodes| && nw !in s.order
    ensures var r := LinkSt(s, tar, nw); var i := IndexOf(s.order, tar);
      && i + 1 < |s.order| && s.nodes[tar].next == s.order[i + 1]
      && r.nodes[nw].prev == tar && r.nodes[tar].next == nw
      && r.nodes[nw].next == s.order[i + 1] && r.nodes[s.order[i + 1]].prev == nw
  {
    var i := IndexOf(s.order, tar);
    LinkedChain(s.nodes, s.order, i, nw);
    LinkedArena(s.nodes, tar, nw);
  }

  lemma LinkStGood(s: St, tar: nat, nw: nat)
    requires Good(s) && tar in s.order && tar != TailIx && nw < |s.nodes| && nw !in s.order
    ensures Good(LinkSt(s, tar, nw))
  {
    LinkedValid(s.nodes, s.order, s.table, IndexOf(s.order, tar), nw);
  }

  /** Registers the node `nw` in the table and links it after `tar`. */
  function Attach(s: St, tar: nat, nw: nat): St
    requires Linkable(s) && tar in s.order && tar != TailIx && nw < |s.nodes| && nw !in s.order
  {
    var l := LinkSt(s, tar, nw);
    l.(table := l.table[s.nodes[nw].id := nw])
  }

  lemma AttachEffect(s: St, tar: nat, nw: nat)
    requires Linkable(s) && tar in s.order && tar != TailIx && nw < |s.nodes| && nw !in s.order
    ensures var r := Attach(s, tar, nw); var i := IndexOf(s.order, tar);
      && Linkable(r) && SameButLinks(s.nodes, r.nodes)
      && i + 1 < |s.order|
      && r.order == s.order[..i + 1] + [nw] + s.order[i + 1..]
      && r.table == s.table[s.nodes[nw].id := nw]
      && (forall x :: x in r.order <==> x in s.order || x == nw)
  {
    LinkStEffect(s, tar, nw);
  }

  lemma AttachGood(s: St, tar: nat, nw: nat)
    requires Good(s) && tar in s.order && tar != TailIx && nw < |s.nodes| && nw !in s.order
    ensures Good(Attach(s, tar, nw))
  {
    LinkStEffect(s, tar, nw);
    LinkStGood(s, tar, nw);
    var l := LinkSt(s, tar, nw);
    assert Unlinked(s.nodes[nw]) == Unlinked(l.nodes[nw]);
    TableAddValid(l.nodes, l.order, l.table, nw);
  }

  /** Appending a record to the arena keeps the chain. */
  lemma ChainExtend(nodes: seq<Node>, n: Node, order: seq<nat>)
    requires Chain(nodes, order)
    ensures Chain(nodes + [n], order) && |nodes| !in order
  {
    var b := nodes + [n];
    forall j | 0 <= j < |order| ensures b[order[j]] == nodes[order[j]] {
    }
    LinksFrame(nodes, b, order);
  }

  /** Nodes that may be linked: in the arena, not yet linked, pairwise distinct. */
  ghost predicate FreshNodes(s: St, cs: seq<nat>)
  {
    && (forall j :: 0 <= j < |cs| ==> cs[j] < |s.nodes| && cs[j] !in s.order)
    && (forall a, b :: 0 <= a < b < |cs| ==> cs[a] != cs[b])
  }

  lemma FreshRest(s: St, s': St, cs: seq<nat>)
    requires FreshNodes(s, cs) && |cs| > 0 && |s'.nodes| == |s.nodes|
    requires forall x :: x in s'.order <==> x in s.order || x == cs[0]
    ensures FreshNodes(s', cs[1..])
  {
    forall j | 0 <= j < |cs| - 1 ensures cs[1..][j] !in s'.order {
      assert cs[1..][j] == cs[j + 1] != cs[0];
    }
  }

  /** Registers and links the nodes `cs` one after the other, starting after `tar`
    * (the loop of model.go Replace). */
  function AttachAll(s: St, tar: nat, cs: seq<nat>): St
    requires Linkable(s) && tar in s.order && tar != TailIx && FreshNodes(s, cs)
  {
    AttachFrom(s, tar, cs)
  }

  /** The recursion behind AttachAll, kept apart so that properties stated with AttachAll do
    * not unfold it. */
  function AttachFrom(s: St, tar: nat, cs: seq<nat>): St
    requires Linkable(s) && tar in s.order && tar != TailIx && FreshNodes(s, cs)
    decreases |cs|
  {
    if cs == [] then s
    else
      AttachEffect(s, tar, cs[0]);
      var s' := Attach(s, tar, cs[0]);
      FreshRest(s, s', cs);
      assert s.order[|s.order| - 1] == TailIx;
      AttachFrom(s', cs[0], cs[1..])
  }

  lemma SameButLinksTrans(a: seq<Node>, b: seq<Node>, c: seq<Node>)
    requires SameButLinks(a, b) && SameButLinks(b, c)
    ensures SameButLinks(a, c)
  {
  }

  lemma {:induction false} RegisterSameButLinks(table: map<ID, nat>, a: seq<Node>, b: seq<Node>, ks: seq<nat>)
    requires SameButLinks(a, b) && InRange(a, ks)
    ensures InRange(b, ks) && Register(table, a, ks) == Register(table, b, ks)
    decreases |ks|
  {
    if ks != [] {
      assert Unlinked(a[ks[0]]) == Unlinked(b[ks[0]]);
      RegisterSameButLinks(table[a[ks[0]].id := ks[0]], a, b, ks[1..]);
    }
  }

  lemma InsertRunStep(o: seq<nat>, i: nat, cs: seq<nat>, o': seq<nat>)
    requires i < |o| && |cs| > 0 && o' == o[..i + 1] + [cs[0]] + o[i + 1..]
    ensures o[..i + 1] + cs + o[i + 1..] == o'[..i + 2] + cs[1..] + o'[i + 2..]
  {
    assert o'[..i + 2] == o[..i + 1] + [cs[0]];
    assert o'[i + 2..] == o[i + 1..];
    assert cs == [cs[0]] + cs[1..];
  }

  /** Unfolds one step of `AttachAll` and establishes what the rest of the run needs. */
  lemma AttachAllStep(s: St, tar: nat, cs: seq<nat>)
    requires Linkable(s) && tar in s.order && tar != TailIx && FreshNodes(s, cs) && cs != []
    ensures var s' := Attach(s, tar, cs[0]); var i := IndexOf(s.order, tar);
      && Linkable(s') && cs[0] in s'.order && cs[0] != TailIx && FreshNodes(s', cs[1..])
      && AttachAll(s, tar, cs) == AttachAll(s', cs[0], cs[1..])
      && SameButLinks(s.nodes, s'.nodes)
      && i + 1 < |s.order| && s'.order == s.order[..i + 1] + [cs[0]] + s.order[i + 1..]
      && s'.table == s.table[s.nodes[cs[0]].id := cs[0]]
  {
    AttachEffect(s, tar, cs[0]);
    FreshRest(s, Attach(s, tar, cs[0]), cs);
    assert s.order[|s.order| - 1] == TailIx;
  }

  /** Linking a run of nodes keeps the invariant. */
  lemma {:induction false} AttachAllGood(s: St, tar: nat, cs: seq<nat>)
    requires Good(s) && tar in s.order && tar != TailIx && FreshNodes(s, cs)
    ensures Good(AttachAll(s, tar, cs))
    decreases |cs|
  {
    if cs != [] {
      AttachAllStep(s, tar, cs);
      AttachGood(s, tar, cs[0]);
      AttachAllGood(Attach(s, tar, cs[0]), cs[0], cs[1..]);
    }
  }

  /** Linking a run of nodes keeps the chain and changes no node record but its links. */
  lemma {:induction false} AttachAllNodes(s: St, tar: nat, cs: seq<nat>)
    requires Linkable(s) && tar in s.order && tar != TailIx && FreshNodes(s, cs)
    ensures var r := AttachAll(s, tar, cs); Linkable(r) && SameButLinks(s.nodes, r.nodes)
    decreases |cs|
  {
    if cs != [] {
      AttachAllStep(s, tar, cs);
      var s' := Attach(s, tar, cs[0]);
      AttachAllNodes(s', cs[0], cs[1..]);
      SameButLinksTrans(s.nodes, s'.nodes, AttachAll(s', cs[0], cs[1..]).nodes);
    }
  }

  /** Linking a run of nodes inserts exactly that run, in order, right after the target. */
  lemma {:induction false} AttachAllOrder(s: St, tar: nat, cs: seq<nat>)
    requires Linkable(s) && tar in s.order && tar != TailIx && FreshNodes(s, cs)
    ensures var i := IndexOf(s.order, tar);
      && i + 1 < |s.order|
      && AttachAll(s, tar, cs).order == s.order[..i + 1] + cs + s.order[i + 1..]
    decreases |cs|
  {
    var i := IndexOf(s.order, tar);
    assert s.order[|s.order| - 1] == TailIx;
    if cs == [] {
      assert s.order[..i + 1] + cs + s.order[i + 1..] == s.order;
    } else {
      AttachAllStep(s, tar, cs);
      var s' := Attach(s, tar, cs[0]);
      AttachAllOrder(s', cs[0], cs[1..]);
      OrderRunStep(s.order, i, cs, s'.order, AttachAll(s', cs[0], cs[1..]).order);
    }
  }

  /** The order after a run was inserted, from the order after its first node was. */
  lemma OrderRunStep(o: seq<nat>, i: nat, cs: seq<nat>, o': seq<nat>, r: seq<nat>)
    requires i < |o| && |cs| > 0 && o' == o[..i + 1] + [cs[0]] + o[i + 1..] && Distinct(o')
    requires r == o'[..IndexOf(o', cs[0]) + 1] + cs[1..] + o'[IndexOf(o', cs[0]) + 1..]
    ensures r == o[..i + 1] + cs + o[i + 1..]
  {
    assert o'[i + 1] == cs[0];
    IndexOfDistinct(o', i + 1);
    InsertRunStep(o, i, cs, o');
  }

  /** Linking a run of nodes registers them one after the other (later entries overwrite
    * earlier ones). */
  lemma {:induction false} AttachAllTable(s: St, tar: nat, cs: seq<nat>)
    requires Linkable(s) && tar in s.order && tar != TailIx && FreshNodes(s, cs)
    ensures AttachAll(s, tar, cs).table == Register(s.table, s.nodes, cs)
    decreases |cs|
  {
    if cs != [] {
      AttachAllStep(s, tar, cs);
      var s' := Attach(s, tar, cs[0]);
      AttachAllTable(s', cs[0], cs[1..]);
      RegisterSameButLinks(s'.table, s.nodes, s'.nodes, cs[1..]);
    }
  }

  /** Linking a run of nodes inserts exactly that run, in order, right after the target,
    * registers the nodes one after the other and changes no node record but its links. */
  lemma AttachAllEffect(s: St, tar: nat, cs: seq<nat>)
    requires Linkable(s) && tar in s.order && tar != TailIx && FreshNodes(s, cs)
    ensures var r := AttachAll(s, tar, cs); var i := IndexOf(s.order, tar);
      && i + 1 < |s.order|
      && r.order == s.order[..i + 1] + cs + s.order[i + 1..]
      && r.table == Register(s.table, s.nodes, cs)
      && SameButLinks(s.nodes, r.nodes) && Linkable(r)
  {
    AttachAllNodes(s, tar, cs);
    AttachAllOrder(s, tar, cs);
    AttachAllTable(s, tar, cs);
  }

  /** The text of an order into which the run `cs` was spliced after position `i`, read in an
    * arena that differs from the old one only in links. */
  lemma SpliceText(a: seq<Node>, b: seq<Node>, o: seq<nat>, i: nat, cs: seq<nat>, o': seq<nat>)
    requires SameButLinks(a, b) && i + 1 < |o|
    requires o' == o[..i + 1] + cs + o[i + 1..]
    ensures TextOf(b, o'[..|o'| - 1]) == TextOf(a, o[..i + 1]) + TextOf(a, cs) + TextOf(a, o[i + 1..|o| - 1])
  {
    assert o'[..|o'| - 1] == o[..i + 1] + cs + o[i + 1..|o| - 1];
    TextOfAppend(a, o[..i + 1], cs);
    TextOfAppend(a, o[..i + 1] + cs, o[i + 1..|o| - 1]);
    TextOfSameButLinks(a, b, o'[..|o'| - 1]);
  }

  lemma SpliceTextSt(s: St, r: St, i: nat, cs: seq<nat>)
    requires SameButLinks(s.nodes, r.nodes)
    requires i + 1 < |s.order| && r.order == s.order[..i + 1] + cs + s.order[i + 1..]
    ensures TextSt(r) ==
      TextOf(s.nodes, s.order[..i + 1]) + TextOf(s.nodes, cs) + TextOf(s.nodes, s.order[i + 1..|s.order| - 1])
  {
    var o' := r.order;
    assert TextSt(r) == TextOf(r.nodes, o'[..|o'| - 1]);
    SpliceText(s.nodes, r.nodes, s.order, i, cs, o');
  }

  /** The visible text after linking a run of nodes: theirs, right after the target's. */
  lemma AttachAllText(s: St, tar: nat, cs: seq<nat>)
    requires Linkable(s) && tar in s.order && tar != TailIx && FreshNodes(s, cs)
    ensures var i := IndexOf(s.order, tar); var r := AttachAll(s, tar, cs);
      && i + 1 < |s.order|
      && TextSt(r) ==
           TextOf(s.nodes, s.order[..i + 1]) + TextOf(s.nodes, cs) + TextOf(s.nodes, s.order[i + 1..|s.order| - 1])
  {
    var i := IndexOf(s.order, tar);
    var r := AttachAll(s, tar, cs);
    AttachAllEffect(s, tar, cs);
    SpliceTextSt(s, r, i, cs);
  }

  /** The table after registering `ks`: earlier keys stay, every registered identifier is
    * present, and keys none of them carries keep their entry. */
  lemma {:induction false} RegisterEffect(table: map<ID, nat>, nodes: seq<Node>, ks: seq<nat>)
    requires InRange(nodes, ks)
    ensures forall id :: id in table ==> id in Register(table, nodes, ks)
    ensures forall j :: 0 <= j < |ks| ==> nodes[ks[j]].id in Register(table, nodes, ks)
    ensures forall id :: id in table && (forall j :: 0 <= j < |ks| ==> nodes[ks[j]].id != id) ==>
      Register(table, nodes, ks)[id] == table[id]
    decreases |ks|
  {
    if ks != [] {
      var t' := table[nodes[ks[0]].id := ks[0]];
      RegisterEffect(t', nodes, ks[1..]);
      var r := Register(table, nodes, ks);
      assert r == Register(t', nodes, ks[1..]);
      assert nodes[ks[0]].id in t';
      forall j | 0 <= j < |ks| ensures nodes[ks[j]].id in r {
        if j > 0 { assert ks[1..][j - 1] == ks[j]; }
      }
      forall id | id in table && (forall j :: 0 <= j < |ks| ==> nodes[ks[j]].id != id)
        ensures id in r && r[id] == table[id]
      {
        assert nodes[ks[0]].id != id;
        assert id in t' && t'[id] == table[id];
        forall j | 0 <= j < |ks| - 1 ensures nodes[ks[1..][j]].id != id {
          assert ks[1..][j] == ks[j + 1];
        }
      }
    }
  }

  /** What model.go Replace needs: the arena holds the new nodes, none of them is linked,
    * and a target whose identifier is registered is linked (it is linked after otherwise). */
  ghost predicate ReplaceReady(s: St, tar: nat, cs: seq<nat>)
  {
    && Linkable(s) && tar < |s.nodes| && |cs| >= 1 && FreshNodes(s, cs)
    && (s.nodes[tar].id in s.table ==> tar in s.order && tar != TailIx)
  }

  /** model.go Replace: the target must be registered and only the first new identifier is
    * checked for a duplicate; then the nodes are registered and linked after the target one
    * after the other. The target is not unlinked. */
  function ReplaceSt(s: St, tar: nat, cs: seq<nat>): Outcome
    requires ReplaceReady(s, tar, cs)
  {
    if s.nodes[tar].id !in s.table then Outcome(s, Some(NotFound))
    else if s.nodes[cs[0]].id in s.table then Outcome(s, Some(Duplicate))
    else Outcome(AttachAll(s, tar, cs), None)
  }

  /** Replace keeps the invariant; it fails, changing nothing, exactly when the target is
    * unregistered (NotFound) or the first new identifier is registered (Duplicate). */
  lemma ReplaceErrors(s: St, tar: nat, cs: seq<nat>)
    requires ReplaceReady(s, tar, cs)
    ensures var r := ReplaceSt(s, tar, cs);
      && (r.err.Some? <==> s.nodes[tar].id !in s.table || s.nodes[cs[0]].id in s.table)
      && (r.err.Some? ==> r.st == s)
      && (s.nodes[tar].id !in s.table ==> r.err == Some(NotFound))
      && (s.nodes[tar].id in s.table && s.nodes[cs[0]].id in s.table ==> r.err == Some(Duplicate))
  {
  }

  lemma ReplaceGood(s: St, tar: nat, cs: seq<nat>)
    requires ReplaceReady(s, tar, cs) && Good(s)
    ensures Good(ReplaceSt(s, tar, cs).st)
  {
    if s.nodes[tar].id in s.table && s.nodes[cs[0]].id !in s.table {
      AttachAllGood(s, tar, cs);
    }
  }

  /** A successful Replace links the new nodes, in order, right after the target, registers
    * them one after the other and changes no node record but its links. */
  lemma ReplaceLinks(s: St, tar: nat, cs: seq<nat>)
    requires ReplaceReady(s, tar, cs) && ReplaceSt(s, tar, cs).err.None?
    ensures var r := ReplaceSt(s, tar, cs).st; var i := IndexOf(s.order, tar);
      && i + 1 < |s.order|
      && r.order == s.order[..i + 1] + cs + s.order[i + 1..]
      && r.table == Register(s.table, s.nodes, cs)
      && SameButLinks(s.nodes, r.nodes)
  {
    AttachAllEffect(s, tar, cs);
  }

  /** After a successful Replace the text of the new nodes follows the text up to the target. */
  lemma ReplaceText(s: St, tar: nat, cs: seq<nat>)
    requires ReplaceReady(s, tar, cs) && ReplaceSt(s, tar, cs).err.None?
    ensures var i := IndexOf(s.order, tar); var r := ReplaceSt(s, tar, cs).st;
      && i + 1 < |s.order|
      && TextSt(r) == TextOf(s.nodes, s.order[..i + 1]) + TextOf(s.nodes, cs)
                      + TextOf(s.nodes, s.order[i + 1..|s.order| - 1])
  {
    assert ReplaceSt(s, tar, cs).st == AttachAll(s, tar, cs);
    AttachAllText(s, tar, cs);
  }

  /** Replace never removes a table entry, registers every new node, and changes no entry for
    * an identifier none of the new nodes carries. */
  lemma ReplaceTableGrows(s: St, tar: nat, cs: seq<nat>)
    requires ReplaceReady(s, tar, cs)
    ensures var r := ReplaceSt(s, tar, cs).st;
      && (forall id :: id in s.table ==> id in r.table)
      && (forall id :: id in s.table && (forall j :: 0 <= j < |cs| ==> s.nodes[cs[j]].id != id) ==>
            r.table[id] == s.table[id])
  {
    if s.nodes[tar].id in s.table && s.nodes[cs[0]].id !in s.table {
      AttachAllEffect(s, tar, cs);
      RegisterEffect(s.table, s.nodes, cs);
    }
  }

  /** The placement scan of model.go InsertAfter: starting after position `i` of the order,
    * skip every successor whose identifier compares greater than `id`. */
  function Scan(nodes: seq<Node>, order: seq<nat>, i: nat, id: ID): (j: nat)
    requires Chain(nodes, order) && i < |order| - 1
    ensures i <= j < |order| - 1
    decreases |order| - i
  {
    var nx := order[i + 1];
    if nx != TailIx && Compare(id, nodes[nx].id) == -1 then Scan(nodes, order, i + 1, id) else i
  }

  /** Every node the scan skips compares greater than the new identifier, and the node it
    * stops before is the tail or does not. */
  lemma {:induction false} ScanPlacement(nodes: seq<Node>, order: seq<nat>, i: nat, id: ID)
    requires Chain(nodes, order) && i < |order| - 1
    ensures var j := Scan(nodes, order, i, id);
      && (forall m :: i < m <= j ==> order[m] != TailIx && Compare(id, nodes[order[m]].id) == -1)
      && (order[j + 1] == TailIx || Compare(id, nodes[order[j + 1]].id) != -1)
    decreases |order| - i
  {
    var nx := order[i + 1];
    if nx != TailIx && Compare(id, nodes[nx].id) == -1 {
      ScanPlacement(nodes, order, i + 1, id);
    }
  }

  /** The index in the document order of the node the placement scan from `tar` stops at. */
  function Place(s: St, tar: nat, id: ID): (j: nat)
    requires Linkable(s) && tar in s.order && tar != TailIx
    ensures IndexOf(s.order, tar) <= j < |s.order| - 1
  {
    Scan(s.nodes, s.order, IndexOf(s.order, tar), id)
  }

  /** One step of model.go InsertAfter: append `n` to the arena, register it and link it after
    * the node the scan from `tar` stops at. */
  function InsertOne(s: St, tar: nat, n: Node): St
    requires Linkable(s) && tar in s.order && tar != TailIx
  {
    var j := Place(s, tar, n.id);
    ChainExtend(s.nodes, n, s.order);
    assert s.order[j] != TailIx by { DistinctPairs(s.order); }
    Attach(St(s.nodes + [n], s.order, s.table), s.order[j], |s.nodes|)
  }

  /** One insertion step keeps the invariant and links the new node. */
  lemma InsertOneGood(s: St, tar: nat, n: Node)
    requires Good(s) && tar in s.order && tar != TailIx && LeafRecord(n)
    ensures var r := InsertOne(s, tar, n);
      && Good(r) && |r.nodes| == |s.nodes| + 1
      && (forall x :: x in r.order <==> x in s.order || x == |s.nodes|)
  {
    var j := Place(s, tar, n.id);
    var s1 := St(s.nodes + [n], s.order, s.table);
    AppendLeafValid(s.nodes, s.order, s.table, n);
    assert s.order[j] != TailIx by { DistinctPairs(s.order); }
    AttachEffect(s1, s.order[j], |s.nodes|);
    AttachGood(s1, s.order[j], |s.nodes|);
    assert InsertOne(s, tar, n) == Attach(s1, s.order[j], |s.nodes|);
  }

  /** One insertion step links the new node right after the node the scan stops at and
    * registers it; no other record changes but in its links. */
  lemma InsertOneEffect(s: St, tar: nat, n: Node)
    requires Linkable(s) && tar in s.order && tar != TailIx
    ensures var r := InsertOne(s, tar, n); var k := |s.nodes|;
      var j := Place(s, tar, n.id);
      && r.order == s.order[..j + 1] + [k] + s.order[j + 1..]
      && r.table == s.table[n.id := k]
      && SameButLinks(s.nodes + [n], r.nodes) && Linkable(r)
      && (forall x :: x in r.order <==> x in s.order || x == k)
  {
    var j := Place(s, tar, n.id);
    var s1 := St(s.nodes + [n], s.order, s.table);
    ChainExtend(s.nodes, n, s.order);
    assert s.order[j] != TailIx by { DistinctPairs(s.order); }
    IndexOfDistinct(s.order, j);
    assert s1.nodes[|s.nodes|] == n;
    AttachEffect(s1, s.order[j], |s.nodes|);
  }

  /** One insertion step in the terms the insertion loop needs. */
  lemma InsertOneShape(s: St, tar: nat, n: Node)
    requires Linkable(s) && tar in s.order && tar != TailIx
    ensures var r := InsertOne(s, tar, n); var k := |s.nodes|;
      && Linkable(r) && k in r.order && k != TailIx && |r.nodes| == k + 1
      && Extends(s.nodes, r.nodes) && Unlinked(r.nodes[k]) == Unlinked(n)
      && r.table == s.table[n.id := k]
  {
    InsertOneEffect(s, tar, n);
    var r := InsertOne(s, tar, n);
    var k := |s.nodes|;
    assert Unlinked((s.nodes + [n])[k]) == Unlinked(r.nodes[k]);
    forall q | 0 <= q < k ensures Unlinked(s.nodes[q]) == Unlinked(r.nodes[q]) {
      assert Unlinked((s.nodes + [n])[q]) == Unlinked(r.nodes[q]);
    }
    ChainExtend(s.nodes, n, s.order);
  }

  lemma InsertOneSplice(s: St, tar: nat, n: Node)
    requires Linkable(s) && tar in s.order && tar != TailIx
    ensures var r := InsertOne(s, tar, n);
      var j := Place(s, tar, n.id);
      && r.order == s.order[..j + 1] + [|s.nodes|] + s.order[j + 1..]
      && SameButLinks(s.nodes + [n], r.nodes)
  {
    InsertOneEffect(s, tar, n);
  }

  /** Appending records to the arena does not change the text of nodes already in it. */
  lemma {:induction false} TextOfExtend(nodes: seq<Node>, more: seq<Node>, t: seq<nat>)
    requires InRange(nodes, t)
    ensures TextOf(nodes + more, t) == TextOf(nodes, t)
  {
    if t != [] {
      TextOfExtend(nodes, more, t[1..]);
    }
  }

  lemma AppendSpliceText(nodes: seq<Node>, n: Node, b: seq<Node>, o: seq<nat>, j: nat, o': seq<nat>)
    requires SameButLinks(nodes + [n], b) && InRange(nodes, o) && j + 1 < |o|
    requires o' == o[..j + 1] + [|nodes|] + o[j + 1..]
    ensures TextOf(b, o'[..|o'| - 1]) == TextOf(nodes, o[..j + 1]) + Visible(n)
                                        + TextOf(nodes, o[j + 1..|o| - 1])
  {
    var a := nodes + [n];
    SpliceText(a, b, o, j, [|nodes|], o');
    TextOfCons(a, [|nodes|]);
    assert [|nodes|][1..] == [];
    TextOfExtend(nodes, [n], o[..j + 1]);
    TextOfExtend(nodes, [n], o[j + 1..|o| - 1]);
  }

  lemma AppendSpliceTextSt(s: St, n: Node, r: St, j: nat)
    requires SameButLinks(s.nodes + [n], r.nodes) && InRange(s.nodes, s.order) && j + 1 < |s.order|
    requires r.order == s.order[..j + 1] + [|s.nodes|] + s.order[j + 1..]
    ensures TextSt(r) == TextOf(s.nodes, s.order[..j + 1]) + Visible(n)
                         + TextOf(s.nodes, s.order[j + 1..|s.order| - 1])
  {
    var o' := r.order;
    assert TextSt(r) == TextOf(r.nodes, o'[..|o'| - 1]);
    AppendSpliceText(s.nodes, n, r.nodes, s.order, j, o');
  }

  /** The text after one insertion step: the new node's text enters the old text at the point
    * the placement scan stops, which is at or after the end of the target's text. */
  lemma InsertOneText(s: St, tar: nat, n: Node)
    requires Linkable(s) && tar in s.order && tar != TailIx
    ensures var i := IndexOf(s.order, tar); var j := Place(s, tar, n.id);
      i <= j && j + 1 < |s.order| && EnteredAt(s, InsertOne(s, tar, n), Visible(n), i, j)
  {
    var i := IndexOf(s.order, tar);
    var j := Place(s, tar, n.id);
    var r := InsertOne(s, tar, n);
    InsertOneSplice(s, tar, n);
    AppendSpliceTextSt(s, n, r, j);
    PlacementSt(s, r, n, i, j);
  }

  /** The loop of model.go InsertAfter: each new node is inserted after the previous one,
    * stopping at the first identifier already in the table. */
  function InsertAll(s: St, tar: nat, ns: seq<Node>): Outcome
    requires Linkable(s) && tar in s.order && tar != TailIx
  {
    InsertFrom(s, tar, ns)
  }

  /** The recursion behind InsertAll, kept apart so that properties stated with InsertAll do
    * not unfold it. */
  function InsertFrom(s: St, tar: nat, ns: seq<Node>): Outcome
    requires Linkable(s) && tar in s.order && tar != TailIx
    decreases |ns|
  {
    if ns == [] then Outcome(s, None)
    else if ns[0].id in s.table then Outcome(s, Some(Duplicate))
    else
      InsertOneShape(s, tar, ns[0]);
      InsertFrom(InsertOne(s, tar, ns[0]), |s.nodes|, ns[1..])
  }

  /** The identifiers of `ns` are unregistered and pairwise distinct. */
  ghost predicate FreshIds(table: map<ID, nat>, ns: seq<Node>)
  {
    && (forall i :: 0 <= i < |ns| ==> ns[i].id !in table)
    && (forall i, j :: 0 <= i < j < |ns| ==> ns[i].id != ns[j].id)
  }

  lemma FreshIdsRest(table: map<ID, nat>, ns: seq<Node>, k: nat)
    requires |ns| > 0
    ensures FreshIds(table, ns) <==> ns[0].id !in table && FreshIds(table[ns[0].id := k], ns[1..])
  {
    var t := table[ns[0].id := k];
    if ns[0].id !in table && FreshIds(t, ns[1..]) {
      forall i | 0 <= i < |ns| ensures ns[i].id !in table {
        if i > 0 { assert ns[i] == ns[1..][i - 1]; }
      }
      forall i, j | 0 <= i < j < |ns| ensures ns[i].id != ns[j].id {
        assert ns[j] == ns[1..][j - 1];
        if i > 0 { assert ns[i] == ns[1..][i - 1]; }
      }
    }
    if FreshIds(table, ns) {
      forall i | 0 <= i < |ns| - 1 ensures ns[1..][i].id !in t {
        assert ns[1..][i] == ns[i + 1];
      }
      forall i, j | 0 <= i < j < |ns| - 1 ensures ns[1..][i].id != ns[1..][j].id {
        assert ns[1..][i] == ns[i + 1] && ns[1..][j] == ns[j + 1];
      }
    }
  }

  /** The insertion loop fails, with Duplicate, exactly when some new identifier is registered
    * or repeated. */
  lemma {:induction false} InsertAllErr(s: St, tar: nat, ns: seq<Node>)
    requires Linkable(s) && tar in s.order && tar != TailIx
    ensures var r := InsertAll(s, tar, ns);
      && (r.err.None? <==> FreshIds(s.table, ns))
      && (r.err.Some? ==> r.err == Some(Duplicate))
    decreases |ns|
  {
    if ns != [] && ns[0].id !in s.table {
      InsertOneShape(s, tar, ns[0]);
      var r1 := InsertOne(s, tar, ns[0]);
      InsertAllErr(r1, |s.nodes|, ns[1..]);
      FreshIdsRest(s.table, ns, |s.nodes|);
    }
  }

  /** `b` holds the records of `a`, up to their links, followed by more. */
  ghost predicate Extends(a: seq<Node>, b: seq<Node>)
  {
    |a| <= |b| && forall k :: 0 <= k < |a| ==> Unlinked(a[k]) == Unlinked(b[k])
  }

  lemma ExtendsTrans(a: seq<Node>, b: seq<Node>, c: seq<Node>)
    requires Extends(a, b) && Extends(b, c)
    ensures Extends(a, c)
  {
  }

  /** The insertion loop keeps the chain and changes no earlier record but its links. */
  lemma {:induction false} InsertAllNodes(s: St, tar: nat, ns: seq<Node>)
    requires Linkable(s) && tar in s.order && tar != TailIx
    ensures var r := InsertAll(s, tar, ns).st; Linkable(r) && Extends(s.nodes, r.nodes)
    decreases |ns|
  {
    if ns != [] && ns[0].id !in s.table {
      InsertOneShape(s, tar, ns[0]);
      var k := |s.nodes|;
      var r1 := InsertOne(s, tar, ns[0]);
      InsertAllNodes(r1, k, ns[1..]);
      ExtendsTrans(s.nodes, r1.nodes, InsertAll(r1, k, ns[1..]).st.nodes);
    }
  }

  /** `b` is `a` followed by records equal, up to their links, to `ns`. */
  ghost predicate Appended(a: seq<Node>, b: seq<Node>, ns: seq<Node>)
  {
    |b| == |a| + |ns| && forall i :: 0 <= i < |ns| ==> Unlinked(b[|a| + i]) == Unlinked(ns[i])
  }

  /** A successful insertion loop appends exactly the new records, in order. */
  lemma {:induction false} InsertAllRecords(s: St, tar: nat, ns: seq<Node>)
    requires Linkable(s) && tar in s.order && tar != TailIx
    ensures var r := InsertAll(s, tar, ns); r.err.None? ==> Appended(s.nodes, r.st.nodes, ns)
    decreases |ns|
  {
    if ns != [] && ns[0].id !in s.table {
      InsertOneShape(s, tar, ns[0]);
      var k := |s.nodes|;
      var r1 := InsertOne(s, tar, ns[0]);
      InsertAllRecords(r1, k, ns[1..]);
      InsertAllNodes(r1, k, ns[1..]);
      var r := InsertAll(r1, k, ns[1..]);
      assert InsertAll(s, tar, ns) == r;
      if r.err.None? {
        RecordsStep(s.nodes, r1.nodes, r.st.nodes, ns);
      }
    }
  }

  lemma RecordsStep(a: seq<Node>, b: seq<Node>, c: seq<Node>, ns: seq<Node>)
    requires |ns| > 0 && |b| == |a| + 1 && Unlinked(b[|a|]) == Unlinked(ns[0]) && Extends(b, c)
    requires Appended(b, c, ns[1..])
    ensures Appended(a, c, ns)
  {
    forall i | 0 <= i < |ns| ensures Unlinked(c[|a| + i]) == Unlinked(ns[i]) {
      if i > 0 {
        assert ns[i] == ns[1..][i - 1];
        assert Unlinked(c[|b| + (i - 1)]) == Unlinked(ns[1..][i - 1]);
      } else {
        assert Unlinked(b[|a|]) == Unlinked(c[|a|]);
      }
    }
  }

  /** The insertion loop keeps every table entry and, when it succeeds, registers the i-th new
    * node under its identifier at the i-th new arena index. */
  lemma {:induction false} InsertAllTable(s: St, tar: nat, ns: seq<Node>)
    requires Linkable(s) && tar in s.order && tar != TailIx
    ensures var r := InsertAll(s, tar, ns);
      && (forall id :: id in s.table ==> id in r.st.table && r.st.table[id] == s.table[id])
      && (r.err.None? ==> forall i :: 0 <= i < |ns| ==>
            ns[i].id in r.st.table && r.st.table[ns[i].id] == |s.nodes| + i)
    decreases |ns|
  {
    if ns != [] && ns[0].id !in s.table {
      InsertOneShape(s, tar, ns[0]);
      var k := |s.nodes|;
      var r1 := InsertOne(s, tar, ns[0]);
      InsertAllTable(r1, k, ns[1..]);
      assert InsertAll(s, tar, ns) == InsertAll(r1, k, ns[1..]);
      var r := InsertAll(r1, k, ns[1..]);
      TableRunStep(s.table, r1.table, r.st.table, ns, k, r.err.None?);
    }
  }

  /** The registrations of a run, from those of the run without its first node. */
  lemma TableRunStep(t0: map<ID, nat>, t1: map<ID, nat>, t: map<ID, nat>, ns: seq<Node>, k: nat, ok: bool)
    requires |ns| > 0 && ns[0].id !in t0 && t1 == t0[ns[0].id := k]
    requires forall id :: id in t1 ==> id in t && t[id] == t1[id]
    requires ok ==> forall i :: 0 <= i < |ns[1..]| ==> ns[1..][i].id in t && t[ns[1..][i].id] == k + 1 + i
    ensures forall id :: id in t0 ==> id in t && t[id] == t0[id]
    ensures ok ==> forall i :: 0 <= i < |ns| ==> ns[i].id in t && t[ns[i].id] == k + i
  {
    if ok {
      forall i | 0 <= i < |ns| ensures ns[i].id in t && t[ns[i].id] == k + i {
        if i > 0 { assert ns[i] == ns[1..][i - 1]; }
      }
    }
  }

  /** The insertion loop keeps the invariant. */
  lemma {:induction false} InsertAllGood(s: St, tar: nat, ns: seq<Node>)
    requires Good(s) && tar in s.order && tar != TailIx
    requires forall i :: 0 <= i < |ns| ==> LeafRecord(ns[i])
    ensures Good(InsertAll(s, tar, ns).st)
    decreases |ns|
  {
    if ns != [] && ns[0].id !in s.table {
      InsertOneGood(s, tar, ns[0]);
      InsertOneEffect(s, tar, ns[0]);
      var r1 := InsertOne(s, tar, ns[0]);
      forall i | 0 <= i < |ns| - 1 ensures LeafRecord(ns[1..][i]) {
        assert ns[1..][i] == ns[i + 1];
      }
      InsertAllGood(r1, |s.nodes|, ns[1..]);
    }
  }

  /** What model.go InsertAfter needs: fresh leaf records, and a target that is linked
    * whenever its identifier is registered. */
  ghost predicate InsertReady(s: St, tar: nat, ns: seq<Node>)
  {
    && Linkable(s) && tar < |s.nodes|
    && (s.nodes[tar].id in s.table ==> tar in s.order && tar != TailIx)
  }

  /** model.go InsertAfter. */
  function InsertAfterSt(s: St, tar: nat, ns: seq<Node>): Outcome
    requires InsertReady(s, tar, ns)
  {
    if s.nodes[tar].id !in s.table then Outcome(s, Some(NotFound)) else InsertAll(s, tar, ns)
  }

  /** InsertAfter fails with NotFound, changing nothing, exactly when the target's identifier
    * is unregistered; otherwise it fails, with Duplicate, exactly when a new identifier is
    * registered or repeated. */
  lemma InsertAfterErrors(s: St, tar: nat, ns: seq<Node>)
    requires InsertReady(s, tar, ns)
    ensures var r := InsertAfterSt(s, tar, ns);
      && (r.err == Some(NotFound) <==> s.nodes[tar].id !in s.table)
      && (r.err == Some(NotFound) ==> r.st == s)
      && (r.err.None? <==> s.nodes[tar].id in s.table && FreshIds(s.table, ns))
      && (r.err.Some? && s.nodes[tar].id in s.table ==> r.err == Some(Duplicate))
  {
    if s.nodes[tar].id in s.table {
      InsertAllErr(s, tar, ns);
    }
  }

  /** InsertAfter keeps the invariant. */
  lemma InsertAfterGood(s: St, tar: nat, ns: seq<Node>)
    requires InsertReady(s, tar, ns) && Good(s)
    requires forall i :: 0 <= i < |ns| ==> LeafRecord(ns[i])
    ensures Good(InsertAfterSt(s, tar, ns).st)
  {
    if s.nodes[tar].id in s.table {
      InsertAllGood(s, tar, ns);
    }
  }

  /** InsertAfter keeps every table entry and every record but its links; when it succeeds
    * the new nodes are appended in order and registered under their identifiers. */
  lemma InsertAfterTable(s: St, tar: nat, ns: seq<Node>)
    requires InsertReady(s, tar, ns)
    ensures var r := InsertAfterSt(s, tar, ns);
      && Linkable(r.st) && Extends(s.nodes, r.st.nodes)
      && (forall id :: id in s.table ==> id in r.st.table && r.st.table[id] == s.table[id])
      && (r.err.None? ==>
            && |r.st.nodes| == |s.nodes| + |ns|
            && forall i :: 0 <= i < |ns| ==>
                 && ns[i].id in r.st.table && r.st.table[ns[i].id] == |s.nodes| + i
                 && Unlinked(r.st.nodes[|s.nodes| + i]) == Unlinked(ns[i]))
  {
    if s.nodes[tar].id in s.table {
      InsertAllNodes(s, tar, ns);
      InsertAllTable(s, tar, ns);
      InsertAllRecords(s, tar, ns);
    }
  }

  /** `r` shows the text of `s` with `v` entered where the text of the first `j + 1` nodes
    * of the order ends, which is at or after the end of the text of the first `i + 1`. */
  ghost predicate EnteredAt(s: St, r: St, v: string, i: nat, j: nat)
    requires i <= j && j + 1 < |s.order|
  {
    var t := TextSt(s); var q := |TextOf(s.nodes, s.order[..j + 1])|;
    && |TextOf(s.nodes, s.order[..i + 1])| <= q <= |t|
    && TextSt(r) == t[..q] + v + t[q..]
  }

  lemma PlacementSt(s: St, r: St, n: Node, i: nat, j: nat)
    requires i <= j && j + 1 < |s.order|
    requires TextSt(r) == TextOf(s.nodes, s.order[..j + 1]) + Visible(n) + TextOf(s.nodes, s.order[j + 1..|s.order| - 1])
    ensures EnteredAt(s, r, Visible(n), i, j)
  {
    PlacementText(s.nodes, s.order, i, j);
  }

  /** The text of an order cut after position `j`, which lies at or after position `i`. */
  lemma PlacementText(nodes: seq<Node>, o: seq<nat>, i: nat, j: nat)
    requires i <= j && j + 1 < |o|
    ensures var a := TextOf(nodes, o[..j + 1]); var t := TextOf(nodes, o[..|o| - 1]);
      && |TextOf(nodes, o[..i + 1])| <= |a| <= |t|
      && t[..|a|] == a && t[|a|..] == TextOf(nodes, o[j + 1..|o| - 1])
  {
    var a, b := TextOf(nodes, o[..j + 1]), TextOf(nodes, o[j + 1..|o| - 1]);
    assert o[..|o| - 1] == o[..j + 1] + o[j + 1..|o| - 1];
    TextOfAppend(nodes, o[..j + 1], o[j + 1..|o| - 1]);
    assert o[..j + 1] == o[..i + 1] + o[i + 1..j + 1];
    TextOfAppend(nodes, o[..i + 1], o[i + 1..j + 1]);
    assert (a + b)[..|a|] == a && (a + b)[|a|..] == b;
  }

  /** InsertAfter with one new node: on success its text enters the old text at the scan's
    * stop, at or after the end of the target's text. */
  lemma InsertAfterText(s: St, tar: nat, n: Node)
    requires InsertReady(s, tar, [n]) && InsertAfterSt(s, tar, [n]).err.None?
    ensures var i := IndexOf(s.order, tar); var j := Place(s, tar, n.id);
      i <= j && j + 1 < |s.order| && EnteredAt(s, InsertAfterSt(s, tar, [n]).st, Visible(n), i, j)
  {
    InsertOneShape(s, tar, n);
    assert [n][0] == n && [n][1..] == [];
    assert InsertAfterSt(s, tar, [n]) == InsertAll(s, tar, [n]);
    assert n.id !in s.table;
    assert InsertAll(s, tar, [n]) == InsertAll(InsertOne(s, tar, n), |s.nodes|, []);
    InsertOneText(s, tar, n);
  }
}
