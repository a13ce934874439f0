# RGASS and three state-based CRDTs, modelled in Dafny

This project models the core of a Go library of conflict-free replicated data types.

**RGASS** (replicated growable array supporting strings) is a collaborative text document.
- Text lives in nodes. Each node is identified by an `ID` (session, vector clock, site, offset, length).
- Nodes are totally ordered by `Compare`.
- The document is a doubly linked list running from a head sentinel to a tail sentinel, plus a table from identifiers to nodes.
- An insert links a new node after its target. The new node may first split the target in two.
- A delete tombstones whole nodes, or splits a node and tombstones a part of it.
- Split nodes keep their children, so a remote operation naming an old identifier can still find the leaf that now holds a position.
- The visible text is the text of the non-tombstoned nodes, from the head to the tail.

**The G-counter, the PN-counter and the LWW register** are the three small CRDTs beside it:
- The G-counter is grow-only: one count per site.
- The PN-counter is increment/decrement: a positive and a negative component per site.
- The LWW register is last-writer-wins: a value stamped with (vector clock, site).

How the model is laid out:
- **Nodes form an arena.** The node records sit in a sequence and refer to each other by index. Index 0 is the head sentinel and index 1 the tail sentinel; a nil link is -1.
- **Two modules of functions.** Module `Arena` (with `Splits`) says what each model operation does to a state (arena, ghost document order, table). Module `Edits` does the same for each document operation.
- **Runs.** A run either finishes (`Done`) with a state and an error, or runs into a Go runtime panic (`Panics`), or reaches a state the model does not cover (`Unmodelled`).
- **Invariant.** The lemmas prove that every operation keeps the model invariant `Good`:
  - The links agree with the document order.
  - Every table entry is linked.
  - The split trees are well formed.
- **Growth.** They also prove that every operation grows the state: no node, table entry or link is lost.
- **Inserted text.** A successful insert enters its string into the old text, unchanged around it. The point is at or after the end of the target's text up to the insert position; the placement scan may carry it further, past nodes whose identifiers compare greater.
- **Deleted text.** Modules `Erasure`, `Walks` and `LocalDeletes` state what a delete does to the document.
  - A delete on a leaf, and each case of LocalDelete, changes the text at the node's place only.
  - The overflow walk removes exactly the remaining length, starting at the text before the node it starts from. The effective length grows by the lengths of the tombstones it passes.
  - An overflowing delete whose position equals the target's length loses the target's whole text. DeleteLast's first part then has the target's identifier, Replace rejects the parts, and the tombstoned target stays in place with nothing after it; the walk still starts at the target's old successor.
  - For a split node, module `Cells` lays out the characters of its split tree. The delete hides exactly the characters of its range and changes nothing outside that tree.
- **Objects.** Classes `Models.Model` and `Documents.Rgass` are objects whose methods update the arena in place. Each method is proved to leave exactly the state, and to return exactly the error, that the matching function describes.
- **Counters.** The two counters are classes whose maps, and the PN-counter's two-element arrays, are updated in place. Their `Value` loops are proved equal to a sum over the map that does not depend on the order the sites are visited in.
- **Register.** The register is a class over a pure `Compare`.

## Model

| member | source | states |
|---|---|---|
| `Ids.Compare` | rgass/id.go:13-47 | the result is always -1, 0 or 1 |
| `Ids.CompareIsLexicographic` | rgass/id.go:13-47 | -1, 1 and 0 exactly when (session, vector, site, negated offset) is lexicographically smaller, greater or equal; an independent definition of the order |
| `Ids.CompareLeadingFields` | rgass/id.go:14-36 | session, then vector, then site decide the order, each ascending |
| `Ids.OffsetDescending` | rgass/id.go:38-44 | on a session/vector/site tie the larger offset compares as smaller, and the smaller one as greater |
| `Ids.CompareZeroIff` | rgass/id.go:46 | 0 exactly when session, vector, site and offset agree; the length is never consulted |
| `Ids.CompareAntisymmetric` | rgass/id.go:13-47 | swapping the arguments negates the result; an identifier compares equal to itself |
| `Ids.CompareTransitive` | rgass/id.go:13-47 | "compares smaller" is transitive |
| `Nodes.LengthIgnoresState` | rgass/node.go:57-59 | a node's length is its identifier's length, whatever its tombstone, split or children |
| `Arena.AncestorIsParent` | rgass/node.go:21-27 | GetAncestor of a split part is the node it was split from, a split node that lists it as a child; when that node is itself a part it has an ancestor of its own, so the answer is not the root of the split tree the field's comment describes |
| `Nodes.CheckPos` | rgass/node.go:127-139 | no error exactly when 0 <= pos <= length; a position beyond the length reports that error even when it is also negative |
| `Nodes.SplitTwo` | rgass/node.go:99-125 | refused exactly on a bad position (with the checkPos error, the node unchanged); panics exactly when the text is shorter than the position; otherwise the parts' texts concatenate to the node's text, with lengths pos and length - pos and offsets offset and offset + pos; they inherit session, vector, site, links and state, name the node as ancestor, get the ancestor offsets the source computes, and the node becomes a tombstoned split node listing them |
| `Nodes.SplitThree` | rgass/node.go:62-96 | the same for three parts of lengths pos, delLen and the rest; the middle slice is not validated, so a negative delLen or one that runs past the text panics |
| `Nodes.DeleteWhole` | rgass/node.go:51-54 | the node is tombstoned and nothing else changes |
| `Nodes.DeletePrior` | rgass/node.go:44-48 | SplitTwo's outcome with only the first part tombstoned |
| `Nodes.DeleteLast` | rgass/node.go:30-34 | SplitTwo's outcome with only the second part tombstoned |
| `Nodes.DeleteMiddle` | rgass/node.go:37-41 | SplitThree's outcome with only the middle part tombstoned |
| `Models.InitialGood` | rgass/model.go:15-25 | a fresh model keeps the invariant and shows no text |
| `Models.InitialValid` | rgass/model.go:15-25 | the head and tail of a fresh model are linked to each other, and only the head is registered, under the zero identifier |
| `Models.InitialText` | rgass/model.go:15-25 | a fresh model shows the empty text |
| `Models.Model.constructor` | rgass/model.go:15-25 | NewModel: head.next is the tail, tail.prev is the head, the table holds only the head under the zero identifier, and the invariant holds |
| `Models.Model.Get` | rgass/model.go:28-31 | found exactly when the identifier is in the table; the node found is linked, is not the tail and carries that identifier |
| `Models.Model.Head` | rgass/model.go:34-36 | the head sentinel is the first node of the document order and is not the tail |
| `Models.Model.LinkAfter` | rgass/model.go:134-139 | the new node enters the document order right after the target; the links stay consistent with the order; the table and every record but the links are unchanged |
| `Arena.LinkStEffect` | rgass/model.go:134-139 | linkAfter puts the node into the order right after the target and changes nothing but links |
| `Arena.LinkStGood` | rgass/model.go:134-139 | linkAfter of an unlinked node after a linked one keeps the invariant |
| `Models.Model.ScanFrom` | rgass/model.go:77-83 | the scan loop stops at the node Place designates |
| `Arena.ScanPlacement` | rgass/model.go:77-83 | every successor the scan skips compares greater than the new identifier; the node after the stop is the tail or does not compare greater |
| `Models.Model.InsertAfter` | rgass/model.go:65-88 | leaves the state and returns the error InsertAfterSt describes |
| `Arena.InsertAfterErrors` | rgass/model.go:66-73 | NotFound, changing nothing, exactly when the target is unregistered; otherwise success exactly when the new identifiers are unregistered and distinct, and Duplicate on failure |
| `Arena.InsertAfterGood` | rgass/model.go:65-88 | InsertAfter keeps the invariant |
| `Arena.InsertAfterTable` | rgass/model.go:70-86 | every table entry and every record but its links is kept; on success the new nodes are appended in order and each is registered under its identifier |
| `Arena.InsertAfterText` | rgass/model.go:65-88 | with one new node: its text enters the old text at the point the scan stops, at or after the end of the target's text |
| `Arena.InsertOneEffect` | rgass/model.go:75-85 | one insertion step links the new node right after the scan's stop and registers it; no other record changes but in its links |
| `Models.Model.Replace` | rgass/model.go:91-118 | leaves the state and returns the error ReplaceSt describes |
| `Arena.ReplaceErrors` | rgass/model.go:92-104 | fails, changing nothing, exactly when the target is unregistered (NotFound) or the first new identifier is registered (Duplicate); only the first is checked |
| `Arena.ReplaceGood` | rgass/model.go:91-118 | Replace keeps the invariant |
| `Arena.ReplaceLinks` | rgass/model.go:106-115 | on success the new nodes sit, in argument order, right after the target, which stays linked; they are registered one after the other; no record changes but its links |
| `Arena.ReplaceText` | rgass/model.go:106-115 | on success the text is the text up to the target, then the new nodes' text, then the rest |
| `Arena.ReplaceTableGrows` | rgass/model.go:106-112 | no table entry is removed, and an identifier none of the new nodes carries keeps its entry |
| `Arena.AttachAllEffect` | rgass/model.go:109-115 | the Replace loop inserts the run right after the target, in order, and registers each node |
| `Arena.AttachAllText` | rgass/model.go:109-115 | after the Replace loop the run's text follows the target's |
| `Models.Model.FindNode` | rgass/model.go:39-62 | NotFound for an unknown identifier; PositionOutsideNode for a position beyond the root's length; otherwise the leaf Descend reaches, following the source's branches with the position rebased at each level |
| `Arena.Descend` | rgass/model.go:49-59 | the node reached is a leaf of the arena |
| `Arena.DescendUnder` | rgass/model.go:49-59 | the leaf reached lies in the split tree of the node the descent started from |
| `Arena.FindNodeFixtureResolves` | rgass/model_test.go:9-44 | on the test's split tree, positions 0 and 2 resolve to "12", 3 to "3" and 10 to "0"; 11 is beyond the root's length; a boundary position goes to the earlier child |
| `Models.Model.Iter` | rgass/model.go:121-132 | the walk yields the document order from the head up to, not including, the tail |
| `Models.Model.Hide` | rgass/node.go:51-54 | DeleteWhole in the arena: node k is tombstoned, nothing else changes |
| `Splits.HideEffect` | rgass/node.go:51-54 | tombstoning keeps the order, the table and every other record |
| `Splits.HideGood` | rgass/node.go:51-54 | tombstoning a node other than the tail keeps the invariant |
| `Models.Model.SplitNode` | rgass/node.go:91-93 | the parent record is replaced and the parts are appended, unlinked |
| `Splits.SplitAtEffect` | rgass/node.go:91-93 | writing a split replaces only the parent and appends the parts |
| `Splits.Split2Parts` | rgass/node.go:99-125 | the two parts of a split are children of the node, in order, whose texts concatenate to its text |
| `Splits.Split3Parts` | rgass/node.go:62-96 | the same for three parts |
| `Splits.SplitReplaceGood` | rgass/node.go:99-125 | splitting a leaf other than the tail and replacing it by its parts keeps the invariant |
| `Splits.SplitReplaceText` | rgass/rgass.go:128-133 | the node's visible text is replaced, at its place, by the parts' text |
| `Splits.SplitReplaceEffect` | rgass/rgass.go:128-133 | a finished split-and-replace keeps the chain and grows the state |
| `Splits.Cut2Good` | rgass/node.go:30-48 | a finished DeletePrior or DeleteLast followed by Replace keeps the invariant |
| `Splits.Cut3Good` | rgass/node.go:37-41 | a finished DeleteMiddle followed by Replace keeps the invariant |
| `Documents.Rgass.constructor` | rgass/rgass.go:14-17 | NewRGASS: a fresh model that keeps the invariant and shows no text |
| `Documents.Rgass.SplitThenReplace` | rgass/rgass.go:128-133 | leaves the state and returns the error SplitReplace describes |
| `Documents.Rgass.CutTwo` | rgass/rgass.go:186-191 | DeletePrior or DeleteLast then Replace: leaves the state and returns the error Cut2 describes |
| `Documents.Rgass.CutThree` | rgass/rgass.go:192-194 | DeleteMiddle then Replace: leaves the state and returns the error Cut3 describes |
| `Edits.InsertOneFine` | rgass/rgass.go:121-125 | InsertAfter of one new leaf keeps the invariant and grows the state |
| `Edits.SplitInsert` | rgass/rgass.go:128-138 | the split path of doInsert keeps the invariant and grows the state |
| `Documents.Rgass.SplitInsertM` | rgass/rgass.go:128-138 | leaves the state and returns the error SplitInsert describes |
| `Edits.DoInsertSt` | rgass/rgass.go:117-139 | doInsert keeps the invariant and grows the state |
| `Documents.Rgass.DoInsert` | rgass/rgass.go:117-139 | leaves the state and returns the error DoInsertSt describes |
| `Edits.SplitKeepsText` | rgass/rgass.go:128-133 | the split of doInsert followed by Replace keeps the visible text and lists the first part right after the node, so the text up to it is the text before the node plus the first `pos` characters the node shows |
| `Edits.TwoPartsShown` | rgass/model.go:91-118 | Replace of a node by two parts that together show its text keeps the text, and the text up to the first part is the text before the node plus the first part's |
| `Edits.SplitInsertText` | rgass/rgass.go:128-138 | on success the split path enters the new string at or after the end of the first part's text, with the old text unchanged around it |
| `Edits.DoInsertText` | rgass/rgass.go:117-139 | on success doInsert enters the new string into the old text at a point no earlier than the text before the target plus the target's text up to `pos`: all of it after a sentinel or at the node's end, none of a deleted node |
| `Edits.LocalInsertSt` | rgass/rgass.go:35-43 | keeps the invariant and grows the state; an unregistered target gives NotFound and changes nothing |
| `Edits.LocalInsertText` | rgass/rgass.go:35-43 | a successful local insert enters the new string at or after the registered target's text up to `pos` |
| `Documents.Rgass.LocalInsert` | rgass/rgass.go:35-43 | leaves the state and returns the error LocalInsertSt describes |
| `Edits.RemoteInsertSt` | rgass/rgass.go:106-115 | keeps the invariant and grows the state; an unknown target panics, because the ancestor offset is read before the error is checked; a position beyond the root gives PositionOutsideNode and changes nothing |
| `Edits.RemoteInsertText` | rgass/rgass.go:106-115 | a successful remote insert enters the new string at or after the text of the leaf holding `pos`, up to `pos` less the leaf's ancestor offset |
| `Documents.Rgass.RemoteInsert` | rgass/rgass.go:106-115 | leaves the state and returns the error RemoteInsertSt describes |
| `Edits.DeleteLeaf` | rgass/rgass.go:180-198 | keeps the invariant and grows the state; RangeExceedsNode, changing nothing, exactly when the range starts before 0 or runs past the node |
| `Documents.Rgass.DeleteLeafM` | rgass/rgass.go:180-198 | leaves the state and returns the error DeleteLeaf describes |
| `Erasure.HideText` | rgass/node.go:51-54 | tombstoning a linked node other than the tail removes exactly its visible text, at its place in the document; tombstoning an unlinked node leaves the text as it was |
| `Erasure.Cut2Text` | rgass/rgass.go:186-191 | after DeletePrior or DeleteLast and Replace, the node's visible text is replaced at its place by the two parts' visible text when Replace linked them, and by nothing when Replace refused them; Replace succeeded exactly when the first part is linked |
| `Erasure.Cut3Text` | rgass/rgass.go:192-194 | the same for DeleteMiddle and its three parts |
| `Erasure.DeleteLeafText` | rgass/rgass.go:180-198 | a successful leaf delete had its range within the node; at the node's place the text then shows nothing for a whole delete, the text from delLen on for a prefix delete, the text up to pos for a suffix delete, and the text outside pos..pos+delLen for a middle delete; a delete on an unlinked node leaves the text unchanged |
| `Erasure.LeafCells` | rgass/rgass.go:180-198 | on a leaf whose text has its recorded length, a successful delete had 0 <= pos, 0 <= delLen, pos + delLen <= length, and exactly the characters from pos up to pos + delLen stop being shown; every other record keeps all but its links |
| `Edits.Plan` | rgass/rgass.go:200-237 | for each way the range can lie across the children, the one to three recursive calls on children of the node, the first on a present child and every later one from position 0 |
| `Erasure.PlanCovers` | rgass/rgass.go:211-237 | the planned calls are contiguous: the first starts at pos less the offset of its child, each later one at 0 on the next child, each but the last runs to the end of its child, and their lengths add up to delLen |
| `Erasure.PlanClips` | rgass/rgass.go:211-237 | when every call stays within its child, the part of the node's range that falls into each child is exactly what the call on that child deletes, and a child no call reaches loses nothing |
| `Erasure.PlanRange` | rgass/rgass.go:211-237 | calls that all stay within their children cover a range within the node: 0 <= pos, 0 <= delLen and pos + delLen is at most the children's total length |
| `Edits.Lens` | rgass/rgass.go:208-209 | the lengths of the children, one per child |
| `Edits.PlanSteppable` | rgass/rgass.go:200-206 | a split node has two or three children in the arena, and the planned calls go to them |
| `Edits.RunSteps` | rgass/rgass.go:211-236 | the recursive calls run in order, stopping at the first error; each keeps the invariant and grows the state |
| `Documents.Rgass.RunStepsM` | rgass/rgass.go:211-236 | leaves the state and returns the error RunSteps describes |
| `Erasure.StepsCells` | rgass/rgass.go:211-236 | when the calls all succeed, each named a child that exists and hid its range of that child's characters, and no record outside those children's split trees changed but in its links |
| `Edits.DeleteChildren` | rgass/rgass.go:200-239 | the split case of doDelete keeps the invariant and grows the state |
| `Documents.Rgass.DeleteChildrenM` | rgass/rgass.go:200-239 | reaches the outcome DeleteChildren describes |
| `Erasure.ChildrenCells` | rgass/rgass.go:200-239 | a successful delete on a split node had its range within the node and hides exactly the characters from pos up to pos + delLen of the node's split tree; no record outside that tree changes but in its links |
| `Edits.DoDeleteSt` | rgass/rgass.go:179-240 | doDelete keeps the invariant and grows the state |
| `Documents.Rgass.DoDelete` | rgass/rgass.go:179-240 | leaves the state and returns the error DoDeleteSt describes |
| `Erasure.DoDeleteCells` | rgass/rgass.go:179-240 | the same for doDelete on any node whose split tree records its text lengths, leaf or split |
| `Edits.Walk` | rgass/rgass.go:81-99 | the overflow walk keeps the invariant, grows the state, reports no error and only appends to the node list; its text and tally are WalkText and WalkTally |
| `Edits.Skip` | rgass/rgass.go:91-98 | the tombstone skipping keeps the invariant, grows the state and only appends to the node list; its text and tally are SkipText and SkipTally |
| `Edits.Overflow` | rgass/rgass.go:74-100 | the overflow case keeps the invariant, grows the state, reports no error and lists the target first |
| `Documents.Rgass.OverflowM` | rgass/rgass.go:74-100 | leaves the state, node list and effective length Overflow describes |
| `Documents.Rgass.WalkM` | rgass/rgass.go:81-99 | the loop leaves the state, node list and effective length Walk describes |
| `Documents.Rgass.WalkTurn` | rgass/rgass.go:82-98 | one turn of the loop: while something remains, the walk from the new position reaches the same outcome; otherwise the walk is done |
| `Documents.Rgass.HideM` | rgass/rgass.go:82-84 | the node is tombstoned and the skipping of the following tombstones is what the walk goes on with |
| `Walks.HideStepText` | rgass/rgass.go:82-84 | tombstoning a visible node of the walk removes exactly its length in characters from the text, at the position before it; the position before its successor is then that same position |
| `Walks.CutStepText` | rgass/rgass.go:85-88 | cutting the remaining prefix off the node that covers it, when Replace links the parts, removes exactly that many characters at the position before the node |
| `Walks.WalkText` | rgass/rgass.go:81-99 | a finished walk from a visible node, whose final Replace succeeded, removes exactly the remaining length in characters from the text, starting at the text before that node |
| `Walks.SkipText` | rgass/rgass.go:91-98 | the same from the tombstone skipping: the tombstones skipped show nothing, so the removal starts where the skipping started |
| `Walks.WalkTally` | rgass/rgass.go:81-99 | up to some node of the order, the walk adds to the effective length exactly the lengths of the nodes after its first that were already tombstoned, and appends to the node list exactly those that were visible, in order; the first node counts towards neither |
| `Walks.SkipTally` | rgass/rgass.go:91-98 | the same from the skipping: the tombstones from its start on add their lengths, the visible nodes are listed in order |
| `Edits.LocalDeleteSt` | rgass/rgass.go:46-103 | keeps the invariant and grows the state; an unregistered target gives NotFound and changes nothing; otherwise no error, and the node list starts with the target |
| `Documents.Rgass.LocalDelete` | rgass/rgass.go:46-103 | leaves the state, node list, effective length and error LocalDeleteSt describes |
| `LocalDeletes.Cut2Outcome` | rgass/rgass.go:60-66 | a DeletePrior or DeleteLast whose split is refused leaves the state unchanged; otherwise the node's visible text is replaced at its place by the parts' text when they were linked and by nothing otherwise |
| `LocalDeletes.Cut3Outcome` | rgass/rgass.go:70-71 | the same for DeleteMiddle and its three parts |
| `LocalDeletes.PriorCase` | rgass/rgass.go:59-62 | a prefix delete with a negative delLen changes nothing; otherwise delLen is within the text, and at the node's place the text shows its characters from delLen on, or nothing when Replace refused the parts |
| `LocalDeletes.SuffixCase` | rgass/rgass.go:64-67 | the suffix case splits at delLen, not pos (DeleteLast(delLen) where doDelete passes pos): at the node's place the text shows its first delLen characters, or nothing when Replace refused the parts; a negative delLen changes nothing |
| `LocalDeletes.MiddleCase` | rgass/rgass.go:69-72 | a middle delete with a negative delLen changes nothing; otherwise the range is within the text and at the node's place the text shows the characters outside pos..pos+delLen, or nothing when Replace refused the parts |
| `LocalDeletes.HeadCut` | rgass/rgass.go:74-77 | when Replace links the target's parts, the overflow case first removes the target's text from pos to its end, and the text before the part that follows is the text before the target plus pos characters; the rejected case is HeadRefused |
| `LocalDeletes.OverflowWalk` | rgass/rgass.go:74-99 | the overflow case is the walk from the node after the two parts with the rest of delLen, the target listed first and the effective length starting at delLen; the state it starts from keeps the invariant |
| `LocalDeletes.RefusedShape` | rgass/model.go:102-104 | a two-way delete whose parts Replace rejects leaves the document order as it was, with the target tombstoned and split in its place and the parts in the arena, unlinked |
| `LocalDeletes.RefusedAtEnd` | rgass/node.go:107-108 | at a position equal to the target's length, DeleteLast's first part carries the target's own identifier (an identifier includes its length), so Replace rejects the parts as a duplicate |
| `LocalDeletes.HeadRefused` | rgass/rgass.go:74-77 | when Replace rejects the target's parts, the overflow case's first step removes the target's whole text, not only from pos, and the text before its successor is the text before the target |
| `LocalDeletes.OverflowRefusedWalk` | rgass/rgass.go:74-99 | then the overflow case is the walk from the target's old successor, which now directly follows the tombstoned target, with the rest of delLen, the target listed first and the effective length starting at delLen; the state it starts from keeps the invariant |
| `LocalDeletes.WalkAfterCut` | rgass/rgass.go:78-99 | a walk after a removal at the same position continues it: the two removals together remove the sum of their lengths from the original text |
| `LocalDeletes.LocalDeleteText` | rgass/rgass.go:46-76 | for a registered target and a finished run: a whole delete removes the node's visible text; the prefix, suffix and middle cases leave the characters PriorCase, SuffixCase and MiddleCase name (nothing when Replace refused the parts, no change for a negative delLen); a negative pos, or pos == 0 with a delLen beyond the length, changes nothing |
| `Edits.RemoteCalls` | rgass/rgass.go:156-173 | one call per identifier: the first node loses the range from pos to its end, each interior node its whole extent, the last the prefix that remains of delLen |
| `Edits.SumDelInterior` | rgass/rgass.go:156-166 | the first and interior calls delete exactly the first node's suffix plus the interior lengths |
| `Edits.RemoteCallsTotal` | rgass/rgass.go:156-173 | the length parameters of the calls add up to delLen; the calls' errors are discarded (lines 156, 164 and 173), so this is what the calls ask for, not what they delete |
| `Edits.CallOne` | rgass/rgass.go:160-164 | NotFound, changing nothing, exactly when the identifier is unknown; otherwise doDelete's run with its error discarded; keeps the invariant and grows the state |
| `Edits.CallsFrom` | rgass/rgass.go:156-173 | the calls in order keep the invariant and grow the state; the only error is NotFound |
| `Edits.RemoteDeleteSt` | rgass/rgass.go:142-176 | keeps the invariant and grows the state; no identifiers change nothing; an unknown first identifier gives NotFound and changes nothing; with two or more, the only error is NotFound |
| `Documents.Rgass.RemoteDelete` | rgass/rgass.go:142-176 | leaves the state and returns the error RemoteDeleteSt describes |
| `Erasure.RemoteDeleteOne` | rgass/rgass.go:152-154 | with one identifier, a successful remote delete hides exactly the characters from pos up to pos + delLen of the registered node's split tree, the range lying within the node, and changes no record outside that tree but in its links |
| `Documents.Rgass.DeleteMany` | rgass/rgass.go:156-175 | the calls RemoteCalls lists, each identifier looked up just before its call, reach the outcome CallsFrom describes |
| `Documents.Rgass.DeleteLeading` | rgass/rgass.go:156-166 | the first and interior calls reach CallsFrom's outcome; the sum is the first node's suffix plus the interior lengths |
| `Documents.Rgass.DeleteInterior` | rgass/rgass.go:159-166 | the interior loop reaches CallsFrom's outcome up to the last call, and the sum grows by the interior lengths; an unknown identifier stops it with NotFound |
| `Documents.Rgass.InteriorCall` | rgass/rgass.go:160-165 | one interior identifier: NotFound if unknown, otherwise its node loses its whole extent and its length is returned |
| `Documents.Rgass.DeleteCall` | rgass/rgass.go:156 | one doDelete call with its error discarded reaches the next call's outcome |
| `Documents.Rgass.LastCall` | rgass/rgass.go:168-173 | the last identifier: NotFound if unknown, otherwise its node loses the remaining prefix |
| `Documents.Rgass.Text` | rgass/rgass.go:243-254 | the visible text of the state: the non-tombstoned nodes' text from the head up to the tail; nothing is changed |
| `Sums.SumRemove` | gcounter/gcounter.go:29-35 | any entry may be summed first: the sum does not depend on the order Go's map iteration takes |
| `Sums.SumUpdate` | gcounter/gcounter.go:24 | setting one entry changes the sum by the difference to its old value, a missing entry counting as zero |
| `GCounters.GCounter.constructor` | gcounter/gcounter.go:12-14 | a fresh counter has no entries and the value 0 |
| `GCounters.GCounter.Increment` | gcounter/gcounter.go:17-19 | the counts become Bumped of the old ones |
| `GCounters.IncrementEffect` | gcounter/gcounter.go:17-19 | only the own site's count rises, by exactly 1, so the value rises by exactly 1 and no count falls |
| `GCounters.GCounter.Incorporate` | gcounter/gcounter.go:22-26 | the counts become Merged of the old ones |
| `GCounters.MergeEffect` | gcounter/gcounter.go:22-26 | the site's count becomes the larger of the old one (missing counts as 0) and the remote one; others are unchanged; no count and not the value falls |
| `GCounters.MergeIdempotent` | gcounter/gcounter.go:23-25 | incorporating the same count twice is incorporating it once |
| `GCounters.MergeCommute` | gcounter/gcounter.go:23-25 | two incorporations, for one site or for two, commute |
| `GCounters.IncorporateExample` | gcounter/gcounter_test.go:17-27 | one increment at A, then 2 and 1 from B and 3 from C, give the value 6 |
| `GCounters.GCounter.Value` | gcounter/gcounter.go:29-35 | the loop returns the sum of all counts |
| `PNCounters.PNCounter.constructor` | pncounter/pncounter.go:12-14 | a fresh counter has no entries and the value 0 |
| `PNCounters.PNCounter.Increment` | pncounter/pncounter.go:17-19 | with the own entry present: the entries become Incremented of the old ones, each array still of its own |
| `PNCounters.IncrementEffect` | pncounter/pncounter.go:17-19 | the own positive component becomes 1 and nothing else changes; repeating it changes nothing; the value changes by 1 minus the old positive component |
| `PNCounters.PNCounter.Decrement` | pncounter/pncounter.go:22-24 | with the own entry present: the entries become Decremented of the old ones |
| `PNCounters.DecrementEffect` | pncounter/pncounter.go:22-24 | the own negative component rises by exactly 1 and nothing else changes, so the value drops by exactly 1 |
| `PNCounters.NetUpdate` | pncounter/pncounter.go:38-45 | changing one entry changes the value by the difference of its contributions |
| `PNCounters.PNCounter.Incorporate` | pncounter/pncounter.go:27-35 | with the entry present: the entries become Merged of the old ones |
| `PNCounters.MergeEffect` | pncounter/pncounter.go:28-34 | each component becomes the larger of the local and the remote one, independently; other sites are unchanged; repeating it changes nothing |
| `PNCounters.NetSplit` | pncounter/pncounter.go:38-45 | the value is the sum of the positive components minus the sum of the negative ones |
| `PNCounters.PNCounter.Value` | pncounter/pncounter.go:38-45 | the loop returns the value: the positive sum minus the negative sum |
| `LWWRegisters.Compare` | lwwregister/lwwregister.go:43-61 | -1, 1 and 0 exactly when (vector, site) is lexicographically smaller, greater or equal; 0 only for equal timestamps |
| `LWWRegisters.CompareAntisymmetric` | lwwregister/lwwregister.go:43-61 | swapping the arguments negates the result |
| `LWWRegisters.CompareTransitive` | lwwregister/lwwregister.go:43-61 | "smaller" and "smaller or equal" are transitive |
| `LWWRegisters.FreshEffect` | lwwregister/lwwregister.go:21-23 | a fresh register has clock 0, the stamp (own id, 0), no value, and keeps the invariant |
| `LWWRegisters.LWWRegister.constructor` | lwwregister/lwwregister.go:21-23 | NewRegister gives the state Fresh describes |
| `LWWRegisters.UpdateEffect` | lwwregister/lwwregister.go:26-30 | an update keeps the invariant, holds the new value under the own id, and its stamp is strictly greater than the one replaced |
| `LWWRegisters.LWWRegister.Update` | lwwregister/lwwregister.go:26-30 | the state becomes Updated of the old one and the new stamp compares greater than the old |
| `LWWRegisters.IncorporateEffect` | lwwregister/lwwregister.go:33-40 | the remote value is adopted, with clock stamp + 1, exactly when its stamp is strictly greater; otherwise nothing changes; the invariant holds, the stamp never goes back and is never below the remote one |
| `LWWRegisters.LWWRegister.Incorporate` | lwwregister/lwwregister.go:33-40 | the state becomes Incorporated of the old one, and the invariant is kept |
| `LWWRegisters.IncorporateIdempotent` | lwwregister/lwwregister.go:34 | incorporating the same stamped value twice is incorporating it once |
| `LWWRegisters.IncorporateExample` | lwwregister/lwwregister_test.go:14-27 | after a local update at site 1, the value stamped (2, 2) wins and the one stamped (3, 0) loses |

## Left out

- **Go runtime panics and uncovered states.** The model does not carry these runs on. This covers nil dereferences, a missing third child, string slices that overrun, InsertAfter on the tail, and a second split of a node that is already split.
  - The functions of `Edits` return `Panics` or `Unmodelled` for them.
  - The methods of `Documents.Rgass` require that their run finishes.
  - Splitting an already split node would copy its children list into the parts. That breaks the split-tree invariant, so it is `Unmodelled`.
- `Edits.DoDeleteSt`: the recursion of doDelete descends the split tree. It takes a `fuel` bound, the number of arena nodes, which always suffices on a valid state. The model does not prove that fact; a run that exhausted the fuel would be `Unmodelled`.
- **Unbounded integers.** All integers are unbounded. Go's `int` and `int64` overflow is not modelled: identifier fields, lengths, counter values and the register's vector clock.
- **`Model.Iter`.** It hands the nodes over a channel filled by a goroutine. The model walks the list directly.
- **The example editor under rgass/example is not part of this model.** Neither is the multi-replica convergence scenario its tests run.
- **Text.** Node text is a sequence of characters, and a node's length is the length its identifier records. The model does not relate either to bytes or runes of a Go string. Go slices text by byte offsets; the model slices the character sequence at the same offsets and panics where Go would.
- **MustGet.** It panics for an unknown identifier, which the model expresses through `Models.Model.Get` answering `None`. RGASS `Head` is `Models.Model.Head`.
- `Documents.Rgass.LocalDelete`: for an unregistered target Go returns a one-element list holding a nil pointer. The model returns the empty list.
- `Edits.LocalDeleteSt`: the model does not prove that the effective length is at least `delLen`. Node lengths are not constrained to be non-negative, so tombstones skipped could lower it.
- `Edits.DeleteLeaf`: its own contract states the invariant and the error only. Its effect on the text is `Erasure.DeleteLeafText`, and on the node's characters `Erasure.LeafCells`.
- `Edits.Plan`: its own contract states the shape of the calls. Their coverage of the range is `Erasure.PlanCovers`, `Erasure.PlanClips` and `Erasure.PlanRange`.
- `Edits.RunSteps`, `Edits.DeleteChildren` and `Edits.DoDeleteSt`: their effect is stated on the characters of the node's split tree (`Erasure.StepsCells`, `Erasure.ChildrenCells`, `Erasure.DoDeleteCells`), not as an equation on the visible text. Tying a split tree's characters to the document text would need an invariant relating every linked leaf to its root, which the model does not carry. For a leaf, `Erasure.DeleteLeafText` gives the text.
- `Erasure.DoDeleteCells`: requires that every node of the split tree records its text length in its identifier, as every identifier the library creates does; a node whose text and recorded length differ is not covered.
- `Edits.Overflow`: the text effect of the overflow case is stated in steps, not as one equation. When Replace links the target's parts, `LocalDeletes.HeadCut` removes the target's suffix and `LocalDeletes.OverflowWalk` hands over to the walk. When Replace rejects them, as it does at a position equal to the target's length (`LocalDeletes.RefusedAtEnd`), `LocalDeletes.HeadRefused` removes the target's whole text and `LocalDeletes.OverflowRefusedWalk` hands over to the walk. In both cases `LocalDeletes.WalkAfterCut` with `Walks.WalkText` joins the walk's removal to the first one. A single composed proof exceeds the solver's budget.
- `LocalDeletes.OverflowWalk` and `LocalDeletes.OverflowRefusedWalk`: require the node after the target to be visible. The source does not skip a tombstone there (rgass.go:79): a tombstoned first successor has its length deducted although it shows nothing. That case's text is not stated.
- `Walks.WalkText` and `Walks.SkipText`: state the removal only when the walk's last Replace linked its parts. When Replace refuses them, the last node loses its whole text instead.
- `Walks.WalkTally` and `Walks.SkipTally`: the stopping point is some node of the order, not named as the node where the remaining length runs out. The first node of the walk, the one after the target's parts, is never listed (rgass.go:79 and 97); WalkTally says so.
- `Edits.LocalDeleteSt` and `LocalDeletes.LocalDeleteText`: the text of the overflow case (pos > 0 and pos + delLen beyond the length) is not part of the one equation; see `Edits.Overflow`.
- `Documents.Rgass.LocalDelete`: its effect on the text is the one `LocalDeletes.LocalDeleteText` states for `Edits.LocalDeleteSt`.
- `Edits.RemoteCallsTotal`: states what the calls ask for, not what they delete. rgass.go discards each call's error (lines 156, 164 and 173).
- `Edits.CallsFrom`, `Edits.RemoteDeleteSt` and `Documents.Rgass.RemoteDelete`: with two or more identifiers, the effect on the text or on the characters is not stated. Each later call looks its node up in the state the earlier ones left, and their errors are discarded. With one identifier it is `Erasure.RemoteDeleteOne`.
- **The overflow walk past the tail.** A walk that reaches the tail sentinel dereferences its nil successor in Go. The model treats that as a panic and excludes it by precondition.
- **Replace's nil check.** model.go Replace returns early when the first new node is nil. No caller passes nil, so this branch is not modelled.
- `Edits.RemoteCalls`: the calls take each node's length from the length its identifier records. A node registered under an identifier has that identifier, so its `Length()` is the same. rgass.go reads `tarNode.Length()` after `doDelete`, which does not change it.
- **The PN-counter's entries.** The package never creates an entry, so Increment, Decrement and Incorporate require the entry they touch to be present.
  - Each entry is a two-element array of its own. The model requires that no two sites share an array; the package cannot create shared ones.
  - The package's tests expect an increment to add one. As written, Increment assigns 1, and the model follows the code.
- **Dynamic typing.** The register's `interface{}` value is a type parameter `T`. Its initial nil is `None`, and every value passed to Update or Incorporate is `Some`; a nil passed there is a value of `T`.
- **RGASS text scenarios from the tests.** The model states the general text effect of InsertAfter, Replace and a split; it does not evaluate the concrete runs of rgass_test.go ("HeWORLDllo", "test2test", "12cde" and the rest).
