/** The characters of a node's split tree (rgass/node.go, rgass/rgass.go doDelete). A split
  * node keeps its text and hands it to its children, so the leaves under a node hold, left to
  * right, the node's characters; which of them the document shows is what a delete changes. */
module Cells {
  import opened Nodes
  import opened Arena

  /** One character of a node's text and whether the document shows it. */
  datatype Cell = Cell(ch: char, shown: bool)

  /** The characters of a single node record, shown unless it is tombstoned. */
  function CellsOf(n: Node): seq<Cell>
  {
    Mark(n.str, !n.hidden)
  }

  /** The characters of `t`, each shown or not as `shown` says. */
  function Mark(t: string, shown: bool): (r: seq<Cell>)
    ensures |r| == |t|
  {
    if t == [] then [] else [Cell(t[0], shown)] + Mark(t[1..], shown)
  }

  lemma {:induction false} MarkAppend(x: string, y: string, shown: bool)
    ensures Mark(x + y, shown) == Mark(x, shown) + Mark(y, shown)
  {
    if x != [] {
      assert (x + y)[1..] == x[1..] + y;
      MarkAppend(x[1..], y, shown);
    } else {
      assert x + y == y;
    }
  }

  /** The characters of node `k`'s split tree, left to right: the node's own for a leaf,
    * otherwise those of its children in turn. They spell the node's text. */
  ghost function Shown(nodes: seq<Node>, k: nat): (r: seq<Cell>)
    requires Forward(nodes) && k < |nodes|
    ensures |r| == |nodes[k].str|
    decreases |nodes| - k
  {
    assert ShapeAt(nodes, k);
    var l := nodes[k].list;
    if l == [] then CellsOf(nodes[k])
    else
      var a, b := Shown(nodes, l[0]), Shown(nodes, l[1]);
      if |l| == 2 then a + b else a + b + Shown(nodes, l[2])
  }

  /** The indices of node `k`'s split tree: the node and every node split off it, all of
    * them at `k` or later in the arena. */
  ghost function Sub(nodes: seq<Node>, k: nat): (r: set<nat>)
    requires Forward(nodes) && k < |nodes|
    ensures k in r
    ensures forall x :: x in r ==> k <= x < |nodes|
    decreases |nodes| - k
  {
    assert ShapeAt(nodes, k);
    var l := nodes[k].list;
    if l == [] then {k}
    else if |l| == 2 then {k} + Sub(nodes, l[0]) + Sub(nodes, l[1])
    else {k} + Sub(nodes, l[0]) + Sub(nodes, l[1]) + Sub(nodes, l[2])
  }

  /** Every node of `k`'s split tree records its text length in its identifier, as every
    * identifier the source creates for a text and every split part does. */
  ghost predicate Sized(nodes: seq<Node>, k: nat)
    requires Forward(nodes) && k < |nodes|
  {
    forall x :: x in Sub(nodes, k) ==> |nodes[x].str| == Length(nodes[x])
  }

  /** `cs` with the characters at the positions from `a` up to `b` no longer shown. */
  function HideRange(cs: seq<Cell>, a: int, b: int): (r: seq<Cell>)
    ensures |r| == |cs|
  {
    if cs == [] then []
    else [if a <= 0 < b then cs[0].(shown := false) else cs[0]] + HideRange(cs[1..], a - 1, b - 1)
  }

  /** Hiding a range of a concatenation hides the parts of it that fall in either half. */
  lemma {:induction false} HideSplit(x: seq<Cell>, y: seq<Cell>, a: int, b: int)
    ensures HideRange(x + y, a, b) == HideRange(x, a, b) + HideRange(y, a - |x|, b - |x|)
  {
    if x != [] {
      assert (x + y)[1..] == x[1..] + y;
      HideSplit(x[1..], y, a - 1, b - 1);
    } else {
      assert x + y == y;
    }
  }

  /** Two ranges that agree inside `cs` hide the same characters. */
  lemma {:induction false} HideSame(cs: seq<Cell>, a: int, b: int, a': int, b': int)
    requires a == a' || (a <= 0 && a' <= 0)
    requires b == b' || (b >= |cs| && b' >= |cs|)
    ensures HideRange(cs, a, b) == HideRange(cs, a', b')
  {
    if cs != [] {
      HideSame(cs[1..], a - 1, b - 1, a' - 1, b' - 1);
    }
  }

  /** A range that misses `cs` hides nothing. */
  lemma {:induction false} HideNone(cs: seq<Cell>, a: int, b: int)
    requires b <= 0 || a >= |cs| || b <= a
    ensures HideRange(cs, a, b) == cs
  {
    if cs != [] {
      HideNone(cs[1..], a - 1, b - 1);
      assert cs == [cs[0]] + cs[1..];
    }
  }

  /** A range that covers characters of one mark hides them all. */
  lemma {:induction false} HideAll(t: string, shown: bool, a: int, b: int)
    requires a <= 0 && |t| <= b
    ensures HideRange(Mark(t, shown), a, b) == Mark(t, false)
  {
    if t != [] {
      HideAll(t[1..], shown, a - 1, b - 1);
    }
  }

  /** Node `d`'s split tree holds the same records in both arenas, links aside, so it has the
    * same indices and the same characters in both. */
  lemma {:induction false} SubFrame(a: seq<Node>, b: seq<Node>, d: nat)
    requires Forward(a) && Forward(b) && d < |a| <= |b|
    requires forall x :: x in Sub(a, d) ==> Unlinked(b[x]) == Unlinked(a[x])
    ensures Sub(b, d) == Sub(a, d) && Shown(b, d) == Shown(a, d)
    ensures Sized(b, d) <==> Sized(a, d)
    decreases |a| - d
  {
    assert ShapeAt(a, d) && ShapeAt(b, d);
    assert Unlinked(b[d]) == Unlinked(a[d]);
    var l := a[d].list;
    assert b[d].list == l && b[d].str == a[d].str && b[d].hidden == a[d].hidden;
    if l != [] {
      SubFrame(a, b, l[0]);
      SubFrame(a, b, l[1]);
      if |l| == 3 {
        SubFrame(a, b, l[2]);
      }
    }
    assert Sub(b, d) == Sub(a, d);
    forall x | x in Sub(a, d) ensures |b[x].str| == |a[x].str| && Length(b[x]) == Length(a[x]) {
      assert Unlinked(b[x]) == Unlinked(a[x]);
    }
  }

  /** A node of `d`'s split tree other than `d` has its parent in that tree, before it. */
  lemma {:induction false} SubParent(nodes: seq<Node>, d: nat, x: nat) returns (p: nat)
    requires Forward(nodes) && Parented(nodes) && d < |nodes|
    requires x in Sub(nodes, d) && x != d
    ensures p in Sub(nodes, d) && p < x && nodes[x].ancestor == Some(p)
    decreases |nodes| - d
  {
    assert ShapeAt(nodes, d);
    var l := nodes[d].list;
    var i :| 0 <= i < |l| && x in Sub(nodes, l[i]);
    if x == l[i] {
      p := d;
    } else {
      p := SubParent(nodes, l[i], x);
    }
  }

  /** Two different children of node `k` have split trees with no index in common. */
  lemma {:induction false} SubApartAt(nodes: seq<Node>, k: nat, c: nat, e: nat, x: nat)
    requires Forward(nodes) && Parented(nodes) && k < c < |nodes| && k < e < |nodes| && c != e
    requires nodes[c].ancestor == Some(k) && nodes[e].ancestor == Some(k)
    ensures !(x in Sub(nodes, c) && x in Sub(nodes, e))
    decreases x
  {
    if x in Sub(nodes, c) && x in Sub(nodes, e) {
      if x == c {
        var p := SubParent(nodes, e, c);
      } else if x == e {
        var p := SubParent(nodes, c, e);
      } else {
        var p := SubParent(nodes, c, x);
        var q := SubParent(nodes, e, x);
        SubApartAt(nodes, k, c, e, p);
      }
    }
  }

  /** The split trees of two children of a node are disjoint and do not hold the node. */
  lemma ChildrenApart(nodes: seq<Node>, k: nat, i: nat, j: nat)
    requires Arena.Arena(nodes) && k < |nodes| && i < |nodes[k].list| && j < |nodes[k].list| && i != j
    ensures var l := nodes[k].list;
      && k < l[i] < |nodes| && k < l[j] < |nodes| && k !in Sub(nodes, l[i])
      && Sub(nodes, l[i]) !! Sub(nodes, l[j])
  {
    var l := nodes[k].list;
    assert ShapeAt(nodes, k);
    assert l[i] != l[j] by {
      forall m, n | 0 <= m < n < |l| ensures l[m] < l[n] {
        if n == m + 2 { assert l[m] < l[m + 1]; }
      }
    }
    forall x | x in Sub(nodes, l[i]) ensures x !in Sub(nodes, l[j]) {
      SubApartAt(nodes, k, l[i], l[j], x);
    }
  }
}
