/** Text nodes, their splitting and tombstoning (rgass/node.go).
  * Nodes live in an arena (see module Models) and refer to each other by index, so the
  * operations here compute new node records from old ones and the indices their children
  * will have; the arena methods in Models apply them. */
module Nodes {
  import opened Ids

  datatype Option<T> = None | Some(value: T)

  /** The error conditions of the core, one per distinct error the source returns. */
  datatype Error =
    | NotFound              // the target identifier is not in the table
    | NegativePosition      // checkPos: position below 0
    | PositionBeyondLength  // checkPos: position above the node length
    | Duplicate             // the new node's identifier is already in the table
    | PositionOutsideNode   // FindNode: position above the root's length
    | RangeExceedsNode      // doDelete: the range fits no decomposition

  datatype Result<T> = Ok(value: T) | Fail(error: Error) {
    predicate IsFailure() { Fail? }
    function PropagateFailure<U>(): Result<U> requires Fail? { Fail(error) }
    function Extract(): T requires Ok? { value }
  }

  /** A missing link (Go's nil pointer). */
  const Nil: int := -1

  /** A node record. `list` holds the arena indices of the children a split produced,
    * `next`/`prev` the document-order links and `ancestor` the node it was split from. */
  datatype Node = Node(
    id: ID,
    list: seq<nat>,
    str: string,
    split: bool,
    sentinel: bool,
    hidden: bool,
    next: int,
    prev: int,
    ancestor: Option<nat>,
    ancestorOffset: int)

  /** The node a fresh insertion creates: only identifier and text are set. */
  function NewNode(id: ID, str: string): (n: Node)
    ensures n.id == id && n.str == str && n.list == []
    ensures !n.split && !n.hidden && !n.sentinel && n.ancestor.None?
  {
    Node(id, [], str, false, false, false, Nil, Nil, None, 0)
  }

  /** The length of a node is the length recorded in its identifier. */
  function Length(n: Node): int
  {
    n.id.length
  }

  /** Tombstoning or splitting a node does not change its length. */
  lemma LengthIgnoresState(n: Node, hidden: bool, split: bool, list: seq<nat>)
    ensures Length(n.(hidden := hidden, split := split, list := list)) == Length(n)
  {
  }

  /** The text a node contributes to the document: nothing once it is tombstoned. */
  function Visible(n: Node): string
  {
    if n.hidden then "" else n.str
  }

  /** The ancestor index of node `self`, or `self` when it has none. */
  function GetAncestor(n: Node, self: nat): (r: nat)
    ensures n.ancestor.Some? ==> r == n.ancestor.value
    ensures n.ancestor.None? ==> r == self
  {
    if n.ancestor.Some? then n.ancestor.value else self
  }

  /** Validation of a split position. The length check is made last and so wins. */
  function CheckPos(n: Node, pos: int): (r: Option<Error>)
    ensures r.None? <==> 0 <= pos <= n.id.length
    ensures pos > n.id.length ==> r == Some(PositionBeyondLength)
    ensures pos < 0 <= n.id.length ==> r == Some(NegativePosition)
  {
    var err := if pos < 0 then Some(NegativePosition) else None;
    if pos > n.id.length then Some(PositionBeyondLength) else err
  }

  /** A child record: a copy of the parent with a new identifier span, text and ancestry. */
  function Child(n: Node, offset: int, length: int, str: string, parent: nat, ancestorOffset: int): Node
  {
    n.(id := n.id.(offset := offset, length := length), str := str,
       ancestor := Some(parent), ancestorOffset := ancestorOffset)
  }

  datatype Parts2 = Parts2(parent: Node, first: Node, last: Node)
  datatype Parts3 = Parts3(parent: Node, first: Node, middle: Node, last: Node)

  /** The result of a split: the parts, the position check's error (the node is left as it
    * was), or a Go runtime panic when a slice overruns the text the node actually holds. */
  datatype Cut<T> = Cut(parts: T) | Refused(error: Error) | SlicePanic

  /** Splitting node `self` in two at `pos`; its children will be the nodes `fi` and `li`. */
  function SplitTwo(n: Node, self: nat, pos: int, fi: nat, li: nat): (r: Cut<Parts2>)
    ensures r.Refused? <==> pos < 0 || pos > n.id.length
    ensures r.Refused? ==> Some(r.error) == CheckPos(n, pos)
    ensures r.SlicePanic? <==> 0 <= pos <= n.id.length && pos > |n.str|
    ensures r.Cut? ==>
      var Parts2(p, f, l) := r.parts;
      && f.str + l.str == n.str
      && |f.str| == Length(f) == pos && Length(l) == Length(n) - pos
      && f.id.session == l.id.session == n.id.session
      && f.id.vector == l.id.vector == n.id.vector
      && f.id.site == l.id.site == n.id.site
      && f.id.offset == n.id.offset && l.id.offset == n.id.offset + pos
      && f.ancestor == l.ancestor == Some(self)
      && f.ancestorOffset == n.ancestorOffset && l.ancestorOffset == n.ancestorOffset + l.id.offset
      && f.hidden == l.hidden == n.hidden
      && f.split == l.split == n.split && f.list == l.list == n.list
      && f.next == l.next == n.next && f.prev == l.prev == n.prev
      && p == n.(hidden := true, split := true, list := [fi, li])
  {
    var err := CheckPos(n, pos);
    if err.Some? then Refused(err.value)
    else if pos > |n.str| then SlicePanic
    else
      var f := Child(n, n.id.offset, pos, n.str[..pos], self, n.ancestorOffset);
      var lOffset := n.id.offset + pos;
      var l := Child(n, lOffset, n.id.length - pos, n.str[pos..], self, n.ancestorOffset + lOffset);
      Cut(Parts2(n.(hidden := true, split := true, list := [fi, li]), f, l))
  }

  /** Splitting node `self` in three at `pos` with a middle part of `delLen`. The middle slice
    * is not validated: a negative `delLen` or one that overruns the text panics. */
  function SplitThree(n: Node, self: nat, pos: int, delLen: int, fi: nat, mi: nat, li: nat): (r: Cut<Parts3>)
    ensures r.Refused? <==> pos < 0 || pos > n.id.length
    ensures r.Refused? ==> Some(r.error) == CheckPos(n, pos)
    ensures r.SlicePanic? <==> 0 <= pos <= n.id.length && !(0 <= delLen && pos + delLen <= |n.str|)
    ensures r.Cut? ==>
      var Parts3(p, f, m, l) := r.parts;
      && f.str + m.str + l.str == n.str
      && |f.str| == Length(f) == pos && |m.str| == Length(m) == delLen
      && Length(l) == Length(n) - pos - delLen
      && f.id.session == m.id.session == l.id.session == n.id.session
      && f.id.vector == m.id.vector == l.id.vector == n.id.vector
      && f.id.site == m.id.site == l.id.site == n.id.site
      && f.id.offset == n.id.offset && m.id.offset == n.id.offset + pos
      && l.id.offset == n.id.offset + pos + delLen
      && f.ancestor == m.ancestor == l.ancestor == Some(self)
      && f.ancestorOffset == n.ancestorOffset
      && m.ancestorOffset == n.ancestorOffset + m.id.offset
      && l.ancestorOffset == n.ancestorOffset + l.id.offset
      && f.hidden == m.hidden == l.hidden == n.hidden
      && f.split == m.split == l.split == n.split && f.list == m.list == l.list == n.list
      && f.next == m.next == l.next == n.next && f.prev == m.prev == l.prev == n.prev
      && p == n.(hidden := true, split := true, list := [fi, mi, li])
  {
    var err := CheckPos(n, pos);
    if err.Some? then Refused(err.value)
    else if !(0 <= delLen && pos + delLen <= |n.str|) then SlicePanic
    else
      var f := Child(n, n.id.offset, pos, n.str[..pos], self, n.ancestorOffset);
      var mOffset := f.id.offset + pos;
      var m := Child(n, mOffset, delLen, n.str[pos..pos + delLen], self, n.ancestorOffset + mOffset);
      var lOffset := mOffset + delLen;
      var l := Child(n, lOffset, n.id.length - pos - delLen, n.str[pos + delLen..], self, n.ancestorOffset + lOffset);
      Cut(Parts3(n.(hidden := true, split := true, list := [fi, mi, li]), f, m, l))
  }

  /** Tombstones the whole node and touches nothing else. */
  function DeleteWhole(n: Node): (r: Node)
    ensures r.hidden && r.(hidden := n.hidden) == n
  {
    n.(hidden := true)
  }

  /** A two-way split that tombstones the first child only. */
  function DeletePrior(n: Node, self: nat, pos: int, fi: nat, li: nat): (r: Cut<Parts2>)
    ensures r.Cut? <==> SplitTwo(n, self, pos, fi, li).Cut?
    ensures !r.Cut? ==> r == SplitTwo(n, self, pos, fi, li)
    ensures r.Cut? ==>
      var s := SplitTwo(n, self, pos, fi, li).parts;
      r.parts.first.hidden && r.parts == s.(first := s.first.(hidden := true))
  {
    match SplitTwo(n, self, pos, fi, li)
    case Cut(s) => Cut(s.(first := s.first.(hidden := true)))
    case other => other
  }

  /** A two-way split that tombstones the second child only. */
  function DeleteLast(n: Node, self: nat, pos: int, fi: nat, li: nat): (r: Cut<Parts2>)
    ensures r.Cut? <==> SplitTwo(n, self, pos, fi, li).Cut?
    ensures !r.Cut? ==> r == SplitTwo(n, self, pos, fi, li)
    ensures r.Cut? ==>
      var s := SplitTwo(n, self, pos, fi, li).parts;
      r.parts.last.hidden && r.parts == s.(last := s.last.(hidden := true))
  {
    match SplitTwo(n, self, pos, fi, li)
    case Cut(s) => Cut(s.(last := s.last.(hidden := true)))
    case other => other
  }

  /** A three-way split that tombstones the middle child only. */
  function DeleteMiddle(n: Node, self: nat, pos: int, delLen: int, fi: nat, mi: nat, li: nat): (r: Cut<Parts3>)
    ensures r.Cut? <==> SplitThree(n, self, pos, delLen, fi, mi, li).Cut?
    ensures !r.Cut? ==> r == SplitThree(n, self, pos, delLen, fi, mi, li)
    ensures r.Cut? ==>
      var s := SplitThree(n, self, pos, delLen, fi, mi, li).parts;
      r.parts.middle.hidden && r.parts == s.(middle := s.middle.(hidden := true))
  {
    match SplitThree(n, self, pos, delLen, fi, mi, li)
    case Cut(s) => Cut(s.(middle := s.middle.(hidden := true)))
    case other => other
  }
}
