# crudite, modelled in Dafny

This project models the core of crudite, an early prototype of a JSON CRDT written in Rust,
and proves properties of the model. It covers four parts.

- **The JSON document arena** (src/json/tree.rs).
  - Nodes live in a map from node numbers to nodes, and a second map sends external ids to
    node numbers.
  - Every node has an optional parent back-pointer, and a set of orphans records detached
    values.
  - The operations are the constructors, `reparent_item`, `move_to_orphan`, `object_assign`,
    `delete`, `delete_orphans`, the readers and `update`.
  - The pure parts are functions on an `Arena` value (modules `JsonNodes`, `JsonOps`,
    `JsonAssign`, `JsonSequences`, `JsonUpdate`).
  - The in-place mutators are the methods of the class `JsonTree.Tree`. Each is proved equal
    to its function.
  - The arena invariant `JsonNodes.Wf` has these parts:
    - parent links are acyclic;
    - every parent holds its child;
    - every parentless node other than the root is an orphan;
    - ids and the node counter agree with the nodes.
  - Every edit keeps the invariant.
- **The segmented text sequence** (src/tree.rs and src/tree/sequence.rs).
  - A string is a container node plus a ring of segments. Each segment holds `contents` and
    an `ids` list of `(id, offset)` entries.
  - `StringTree.Tree` is a class over the node map. Its ghost field `strings` lists each
    string's segments in order.
  - The methods insert and delete characters, link and unlink segments, split and join, look
    up ids and read the string.
  - Each is proved against `Text`, a reference model of a string as a list of cells. The
    visible text is the live cells' characters.
- **The operation log with a snapshot cache** (src/opset.rs, and its older copy src/crdt.rs).
  - Operations are kept strictly sorted.
  - The state is a fold of `apply` over them, and every cached snapshot is the fold of a
    prefix.
- **The document** (src/doc.rs).
  - Operations carry a timestamp and a list of JSON edits, and are ordered by timestamp.
  - The document's tree is the fold of those edits onto a tree with an empty object root.

Names follow the source: `Tree.ObjectAssign` is `Tree::object_assign`. Functions that only
compute carry no contract of their own. The lemmas beside them state what they mean.

## Model

| member | source | states |
|---|---|---|
| Common.InsertAt | src/opset.rs:28 | `Vec::insert`: the element lands at the index, earlier elements stay, later ones move up one, and the multiset gains exactly that element |
| Common.RemoveAt | src/tree.rs:488-494 | `String::remove`: the element at the index leaves and the others keep their order |
| Common.RemoveAtMultiset | src/tree.rs:488-494 | the removal takes exactly one occurrence of the removed element out of the multiset and leaves everything else |
| OrderedLog.CmpNat | src/doc.rs:25-28 | `Ord::cmp` on counts (the timestamp order of `DocOp`, and the key order `binary_search_by_key` uses at src/opset.rs:54): `Less`, `Equal` or `Greater` exactly as `<`, `==` and `>` |
| OrderedLog.BinarySearchBy | src/opset.rs:24-27 | `binary_search_by` on a partitioned sequence: `Found(i)` holds an `Equal` element; `NotFound(p)` has every element before `p` `Less` and every one from `p` on `Greater` |
| OrderedLog.InsertKeepsSorted | src/opset.rs:28 | inserting at the reported insertion point keeps the log strictly sorted |
| OrderedLog.SortedIsUnique | src/opset.rs:23-48 | two strictly sorted logs with the same elements are the same log |
| OrderedLog.ApplyAllStep | src/opset.rs:62-71 | replaying one more operation applies it to the state of the shorter prefix |
| OrderedLog.ApplyAllAppend | src/opset.rs:61-72 | replaying `a + b` is replaying `b` from the state that `a` reaches |
| Opset.FindInsertionPoint | src/opset.rs:24-27 | the insertion point of an operation that compares equal to nothing in the log: everything before it is `Less`, everything from it on is `Greater` |
| Opset.ReplayOrderIndependent | src/opset.rs:23-48 | the state depends only on which operations were submitted, not on their order or batching |
| Opset.PrefixSnapshots | src/opset.rs:50-51 | snapshots that cover only an unchanged prefix of the log stay correct |
| Opset.FirstBadState | src/opset.rs:53-57 | `binary_search_by_key` over the snapshot counts: the number of snapshots taken at or before the insertion point |
| Opset.KeepPrefix | src/opset.rs:58-61 | the snapshots kept by `truncate`, with the popped last one as the replay's start, satisfy the replay's invariant |
| Opset.Replay | src/opset.rs:62-72 | the replay loop leaves a correct cache: snapshots start at `(0, initial)` and have strictly increasing counts; the last count is the log's length; each snapshot is the fold of its prefix; consecutive snapshots are at least `cache_gap` apart except the last, and at most `max(cache_gap, 1)` apart |
| Opset.InsertBatch | src/opset.rs:34-44 | the insertion loop of `edit_from_iter`: the log gains exactly the batch and stays sorted; the least insertion point seen leaves the prefix before it unchanged |
| Opset.Opset.constructor | src/opset.rs:15-21 | `new`: no operations, the single snapshot `(0, initial_state)`, the given cache gap |
| Opset.Opset.State | src/opset.rs:75-81 | `state()` is the initial state with every logged operation applied in ascending order |
| Opset.Opset.Edit | src/opset.rs:23-30 | `edit` keeps the log strictly sorted, adds exactly the operation, and keeps every snapshot correct; an operation comparing equal to a logged one panics in the source and is excluded |
| Opset.Opset.EditFromIter | src/opset.rs:32-48 | `edit_from_iter` adds exactly the batch, keeps the log sorted and replays from the least insertion point, so the state is the same as repeated `edit` calls |
| Opset.Opset.Recalculate | src/opset.rs:52-73 | `recalculate` keeps the snapshots taken at or before `insert_point`, except the popped last one, as a prefix of the new cache, and leaves a correct cache |
| Crdt.CrdtReplay | src/crdt.rs:41-50 | the replay loop of the older copy leaves snapshots that are folds of their prefixes, ending at the whole log |
| Crdt.OpSetCrdt.constructor | src/crdt.rs:17-23 | `new`: no edits, the single snapshot `(0, initial_state)` |
| Crdt.OpSetCrdt.State | src/crdt.rs:53-55 | `state()` is the fold of `apply` over the sorted edits |
| Crdt.OpSetCrdt.Edit | src/crdt.rs:25-29 | `edit` keeps the edits sorted, adds exactly the edit and keeps the state equal to the fold; an equal edit panics in the source and is excluded |
| Crdt.OpSetCrdt.Recalculate | src/crdt.rs:33-51 | `recalculate` keeps the snapshots up to the insertion point, except the popped last one, and ends with a correct cache whose last count is the number of edits |
| Segments.LiveCountShape | src/tree.rs:79-81 | the number of live entries depends only on which entries are live |
| Segments.OffsetInside | src/tree.rs:79-81 | under the offset invariant, a live entry's character lies inside `contents` |
| Segments.ShiftOffsets | src/tree.rs:470-475 | the offset-moving loop moves every live offset from the given index on by the amount, and leaves ids and tombstones alone |
| Segments.FindNextOffset | src/tree.rs:409-414 | `skip(from).find_map(..).unwrap_or(len)`: the offset of the first live entry from `from` on, or the fallback when there is none |
| Segments.NextOffsetIsLiveCount | src/tree.rs:409-414 | under the offset invariant that offset is the number of live entries before `from` |
| Segments.FindId | src/tree.rs:375-385 | the search loop of `lookup_id_index` finds the index of the first entry carrying the id |
| Segments.FindInsertion | src/tree.rs:400-420 | the search loop of `lookup_insertion_point`: the entry index just past the id's entry, and the offset of the next live entry or the end of `contents` |
| Segments.InsertKeepsOffsets | src/tree.rs:467-476 | inserting a character at the looked-up offset keeps the offset invariant and inserts exactly one live cell |
| Segments.InsertedIdsDistinct | src/tree.rs:463-466 | inserting an entry under a new id keeps the segment's ids distinct |
| Segments.DeleteKeepsOffsets | src/tree.rs:486-496 | removing a live entry's character and making it a tombstone keeps the offset invariant and turns exactly that cell into a tombstone |
| Segments.DeletedIdsDistinct | src/tree.rs:486-496 | a delete keeps the ids distinct and the id set the same |
| Segments.SplitKeepsOffsets | src/tree.rs:340-357 | cutting a segment and rebasing the right half's offsets gives two segments that keep the offset invariant and together stand for the same cells |
| Segments.JoinKeepsOffsets | src/tree.rs:300-318 | appending a segment with its offsets moved up by the left contents' length keeps the offset invariant and concatenates the cells |
| Segments.JoinUndoesSplit | src/tree.rs:300-357 | joining the two halves of a split gives back the segment that was split |
| Segments.VisibleView | src/tree.rs:79-81 | under the offset invariant a segment's visible text is its `contents` |
| Text.IndexOf | src/tree.rs:366-388 | the position of the first cell with the id; none when no cell has it |
| Text.InsertionIndex | src/tree.rs:392-425 | a character appended after the string itself goes first; after a character it goes right after that character's cell; an absent anchor has no position |
| Text.InsertAfter | src/tree.rs:457-482 | insertion on cells: the new cell goes right after the anchor, ahead of what followed it |
| Text.Tombstone | src/tree.rs:484-500 | deletion on cells: the first cell with the id loses its character and keeps its id |
| Text.InsertAfterRemove | src/tree.rs:457-482 | removing the inserted cell gives back the cells before the insert |
| Text.InsertAfterFindsNew | src/tree.rs:457-482 | after an insert the anchor keeps its position and the new cell is found right after it; with a fresh id it is the only cell with that id |
| Text.InsertAfterUnique | src/tree.rs:463-466 | inserting a cell under a fresh id keeps the ids unique |
| Text.TombstoneIdempotent | src/tree.rs:484-500 | deleting a character twice is the same as deleting it once |
| Text.TombstoneKeepsAnchors | src/tree.rs:484-500 | a tombstone keeps its id, so it can still anchor an insert |
| Text.TombstoneVisible | src/tree.rs:484-500 | deleting a live character removes exactly it from the visible text |
| Text.InsertExample | src/tree.rs:559-570 | inserting `a` and `b`, then `c` after `a`, then `d` at the front gives the cells of "dacb" |
| Text.InsertExampleText | src/tree.rs:559-570 | those cells read "dacb" |
| Text.DeleteExample | src/tree.rs:543-556 | on "ab", deleting the first character reads "b", deleting it again still "b", deleting the second reads "" |
| TreeNodes.TextIsVisible | src/tree.rs:427-455 | under the offset invariant the concatenated contents of a string's segments are its visible cells |
| TreeNodes.RingsDisjoint | src/tree.rs:29-83 | the segments of two different strings are different nodes |
| TreeNodes.AddValueWf | src/tree.rs:103-136 | adding a boolean, null or empty object under a fresh number keeps the invariant |
| TreeNodes.AddStringWf | src/tree.rs:138-160 | a string whose only segment is empty and linked to it both ways keeps the invariant |
| TreeEdits.OthersFrame | src/tree.rs:457-500 | an edit confined to one string leaves every other string's ring and cells as they were |
| TreeEdits.InsertCharWf | src/tree.rs:467-480 | the segment edit of `insert_character` keeps the invariant and gives the string the new cell at the entry's position |
| TreeEdits.DeleteCharWf | src/tree.rs:486-498 | the segment edit of `delete_character` keeps the invariant and changes the string's cells in that one cell |
| RingEdits.InsertSegmentWf | src/tree.rs:243-284 | `insert_segment` links a new empty segment into the ring at the index (`next(prev(s)) = s`, `prev(next(s)) = s`, the string's start and end at the boundaries), keeps the invariant and changes no string's cells |
| RingEdits.DeleteSegmentWf | src/tree.rs:219-240 | `delete_segment` unlinks the segment, links its neighbours to each other, keeps the invariant, and drops exactly its cells from the string |
| RingEdits.DeletableOfRing | src/tree.rs:219-240 | in a ring of two or more segments every segment can be unlinked |
| SplitJoin.RemapIds | src/tree.rs:358-361 | after the remapping loop each moved id names the new segment, and every other mapping is kept |
| SplitJoin.SplitIds | src/tree.rs:340-357 | the two halves of a split hold distinct, disjoint ids that together are the original ids |
| SplitJoin.SplitStepWf | src/tree.rs:337-362 | one step of `consider_split` (a new segment after the cut one, takes the second half rebased, moved ids remapped) keeps the invariant and every string's cells |
| SplitJoin.CutPayload | src/tree.rs:337-357 | the cut is at list index `len / 2`; the kept contents end at the first live entry at or after it, or at the end |
| SplitJoin.JoinWf | src/tree.rs:289-323 | `consider_join` unlinks the right segment, remaps its ids to the left one and appends its payload with offsets moved up, keeping the invariant and every string's cells |
| Splits.CutWf | src/tree.rs:337-362 | a cut keeps the tree well formed and every string's cells; the cut segment keeps the first half of its ids and the new segment after it holds the rest |
| Splits.SplitAll | src/tree.rs:329-365 | `consider_split` as values: the segment becomes a run of segments, each at most `SPLIT_LEN` long, holding its ids in order; the cells are unchanged and other segments keep their payloads |
| Splits.SplitNoneOk | src/tree.rs:331-333 | a segment of at most `SPLIT_LEN` ids is left as it is |
| Lookups.StringText | src/tree.rs:427-455 | the text `get_string` concatenates is the string's visible characters, in order |
| Lookups.StringIdsUnique | src/tree.rs:29-83 | in a well-formed tree the cells of a string carry pairwise different ids |
| Lookups.CellPosition | src/tree.rs:366-388 | entry `i` of segment `j` is the cell that `IndexOf` finds for its id |
| Lookups.InsertCharCells | src/tree.rs:392-425 | the segment edit at the looked-up insertion point is `InsertAfter` on the string's cells |
| Lookups.DeleteCharCells | src/tree.rs:484-500 | the segment edit at the looked-up entry is `Tombstone` on the string's cells, and a tombstone is left alone |
| Balance.JoinOk | src/tree/sequence.rs:215-235 | a join keeps the tree well formed and every string's cells; the string loses the right segment and the left segment holds both id lists |
| Balance.JoinFits | src/tree/sequence.rs:212-216 | a join only merges segments that fit together, so it never leaves one that `consider_split` would cut |
| Balance.SplitEnds | src/tree/sequence.rs:241-278 | the two ends `consider_split` returns are the first and last piece of the run that replaced the segment |
| Balance.BalancedNoJoin | src/tree/sequence.rs:32-34 | in a balanced tree, where every string of two or more segments has segments of at least `JOIN_LEN` ids, `consider_join` never joins |
| Balance.BalancedGrow | src/tree/sequence.rs:47 | replacing a segment by one with at least as many ids keeps a tree balanced |
| Balance.BalancedSplit | src/tree/sequence.rs:252 | `consider_split` keeps a tree balanced: split pieces are longer than `SPLIT_LEN / 2`, which is not below `JOIN_LEN` |
| CharEdits.AnchorSegment | src/tree.rs:392-425 | `lookup_insertion_point` lands in the first segment of a string, or in the anchor's own segment, and in a segment of the anchor's string |
| CharEdits.InsertCharStep | src/tree.rs:457-482 | the segment edit of `insert_character` inserts the character after the anchor and keeps the invariant |
| CharEdits.InsertSplitKeeps | src/tree/sequence.rs:12-39 | the split after an insert keeps the invariant, the insert's cells, and the balance of a balanced tree |
| CharEdits.DeleteCharStep | src/tree.rs:484-500 | the segment edit of `delete_character` on a live entry makes a tombstone and removes its character; a tombstone stays one |
| TreeDelete.DeleteNodes | src/tree.rs:170-202 | the worklist of `delete`: the item and, for a string, every segment of its ring leave the arena, and nothing else does |
| TreeDelete.DeleteWf | src/tree.rs:170-202 | `delete` keeps the tree well formed and drops the deleted string from the listing |
| TreeDelete.DeleteKeepsCells | src/tree.rs:170-202 | every other string keeps its cells |
| TreeDelete.DeleteBalanced | src/tree.rs:170-202 | `delete` keeps a tree balanced |
| StringTree.Tree.constructor | src/tree.rs:88-95 | `new`: an arena with no nodes and the counter at zero |
| StringTree.Tree.EmptyString | src/tree.rs:97-101 | `empty_string`: a well-formed tree whose root is a string with one empty segment, whose text is "" |
| StringTree.Tree.NextId | src/tree.rs:162-166 | hands out the counter and advances it by one |
| StringTree.Tree.ConstructSimple | src/tree.rs:103-117 | a mapped id gives `DuplicateId` and changes nothing; otherwise a parentless node under the counter's number is added and named by the id |
| StringTree.Tree.ConstructBool | src/tree.rs:119-122 | `construct_bool`: as `construct_simple`, for a boolean, keeping the invariant |
| StringTree.Tree.ConstructNull | src/tree.rs:124-126 | `construct_null`: as `construct_simple`, for null, keeping the invariant |
| StringTree.Tree.ConstructObject | src/tree.rs:128-136 | `construct_object`: as `construct_simple`, for an empty object, keeping the invariant |
| StringTree.Tree.ConstructString | src/tree.rs:138-160 | `construct_string`: the segment number is drawn first, so a refused id still advances the counter; otherwise a new string with one empty segment linked to it both ways |
| StringTree.Tree.InsertSegment | src/tree.rs:243-284 | `insert_segment`: a new empty segment is linked in after the string or after a segment, as `RingEdits.InsertSegmentWf` describes |
| StringTree.Tree.DeleteSegment | src/tree.rs:219-240 | `delete_segment` of one of two or more segments: it leaves the ring and the arena, its cells leave the string, and its ids stay mapped |
| StringTree.Tree.SplitSegment | src/tree.rs:337-362 | the cut of `consider_split`, keeping the invariant and every string's cells |
| StringTree.Tree.ConsiderSplit | src/tree/sequence.rs:241-278 | `consider_split` returning its two ends: a segment over `SPLIT_LEN` ids is cut and both halves considered again; the tree is `SplitAll`'s, with its cells unchanged, and a segment of at most `SPLIT_LEN` ids gives `(segment, segment)` |
| StringTree.Tree.LookupIdIndex | src/tree.rs:366-388 | `lookup_id_index` (the same in src/tree/sequence.rs:131-153): an unknown id is `UnknownId`, an id of another kind of node `UnexpectedNodeType`; otherwise the segment and the entry carrying the id |
| StringTree.Tree.LookupInsertionPoint | src/tree.rs:392-425 | `lookup_insertion_point` (the same in src/tree/sequence.rs:157-190): for a string, its first segment at offset 0; for a character, its segment, the offset of the next live entry and the entry index after it; errors as for the id lookup |
| StringTree.Tree.GetString | src/tree.rs:427-455 | `get_string` walks the ring from the start and returns the string's visible text |
| StringTree.Tree.ConsiderJoin | src/tree/sequence.rs:195-235 | `consider_join(s, rightward)`: a no-op when the segment or the neighbour considered is the string node, or when the size thresholds fail; otherwise the pair is joined as `Balance.JoinOk` describes (src/tree.rs:289-323 is the rightward case) |
| StringTree.Tree.InsertInSegment | src/tree.rs:457-482 | the edit before the split: a taken id is `DuplicateId` (the string's own id too), an unknown anchor `UnknownId`, and an error changes nothing; otherwise the cells become `InsertAfter` of the old ones |
| StringTree.Tree.InsertAndSplit | src/tree/sequence.rs:12-31 | the edit, then `consider_split` of the edited segment, with the cells as after the edit |
| StringTree.Tree.InsertCharacter | src/tree.rs:457-482 | `insert_character`: the errors above, otherwise the string's cells are `InsertAfter` of the old cells and the tree stays well formed |
| StringTree.Tree.InsertCharacterJoined | src/tree/sequence.rs:12-39 | `insert_character` of src/tree/sequence.rs: the same cells, and in a balanced tree neither of the two joins fires, so the second never addresses a removed segment |
| StringTree.Tree.DeleteCharacter | src/tree.rs:484-500 | `delete_character` (the same in src/tree/sequence.rs:43-57): an unknown id is `UnknownId`, an id of a node that is not a segment (such as the string's own id) `UnexpectedNodeType`, and an error changes nothing; otherwise the cells become `Tombstone` of the old ones and the id stays mapped |
| StringTree.Tree.Delete | src/tree.rs:170-202 | `delete` removes a value node and, for a string, its ring, keeping the invariant and every other string's cells |
| JsonNodes.IdOf | src/json/tree.rs:181-189 | `Node::id`: the id of an object, string or array; none for a segment |
| JsonNodes.Adjacencies | src/json/tree.rs:225-233 | `(prev, next)` of a segment, `(end, start)` of a sequence container |
| JsonNodes.AdjacenciesRing | src/json/tree.rs:408-431 | in a well-formed tree a string or array and its segment name each other as both neighbours, as `construct_string` and `construct_array` link them; the neighbour of a container is a segment and the neighbour of a segment is a container |
| JsonNodes.SplitContentsInto | src/json/tree.rs:278-315 | `segment_split_contents_into(other, k)` with `other` empty: the segment keeps its first `k` elements; the ids are not touched, and the other receives the rest of the elements |
| JsonNodes.SplitContentsKeepsOrder | src/json/tree.rs:278-315 | the two parts concatenate to the original contents and ids |
| JsonNodes.OnChainIff | src/json/tree.rs:545-550 | the walk up from the target meets the item exactly when the item is some number of steps up the parent chain |
| JsonNodes.NotOwnAncestor | src/json/tree.rs:540-555 | under acyclic links no node is its own proper ancestor |
| JsonNodes.RedirectAcyclic | src/json/tree.rs:534-555 | changing one parent link to a target whose chain avoids the item keeps the links acyclic |
| JsonOps.New | src/json/tree.rs:321-329 | `new`: no nodes and no ids; the result is well formed |
| JsonOps.GetType | src/json/tree.rs:634-647 | `get_type`: `UnknownId` exactly for an unmapped id; otherwise `Object`, `String`, `Array`, `Character` or `ArrayEntry` exactly when the named node is an object, a string, an array, a string segment or an array segment |
| JsonOps.GetParent | src/json/tree.rs:649-668 | `get_parent`: `UnknownId` for an unmapped id, none for a parentless node, otherwise the id of the collection holding it |
| JsonOps.ValueToChild | src/json/tree.rs:557-572 | `value_to_child`: `Unset` gives none, a collection reference gives its node, and a collection id that names no node is `UnknownId`; nothing else fails |
| JsonOps.ChildToValue | src/json/tree.rs:574-593 | `child_to_value`: the value a slot shows, a collection by its id and kind |
| JsonOps.ValueChildRoundTrip | src/json/tree.rs:557-593 | reading back a child made from a well-typed value gives the value back |
| JsonOps.ConstructSimpleSpec | src/json/tree.rs:376-391 | a mapped id is `DuplicateId` and changes nothing; otherwise the node gets the counter's number, no parent, joins the orphans and is named by the id |
| JsonOps.ConstructSequenceSpec | src/json/tree.rs:408-458 | a new string or array: a mapped id changes nothing but the counter; otherwise a parentless orphan container whose one segment is fresh, empty and has the container as prev, next and parent |
| JsonOps.ConstructObjectKeepsWf | src/json/tree.rs:395-404 | a fresh object keeps the tree well formed |
| JsonOps.ConstructSequenceKeepsWf | src/json/tree.rs:408-458 | a fresh string or array keeps the tree well formed |
| JsonOps.ReparentSpec | src/json/tree.rs:540-555 | `reparent_item`: `NodeAlreadyHadParent` for an item with a parent or for the root; `EditWouldCauseCycle` exactly when a parentless item is the target or an ancestor of it; an error changes nothing; success attaches the item under the target, removes it from the orphans and keeps the links acyclic |
| JsonOps.MoveToOrphan | src/json/tree.rs:534-537 | `move_to_orphan`: the item loses its parent and joins the orphans, nothing else changes |
| JsonAssign.ObjectAssignErrors | src/json/tree.rs:606-631 | the errors of `object_assign` in the source's order: unknown ids, then the reparenting errors, then `UnexpectedNodeType` for a target that is not an object; every error leaves the tree as it was |
| JsonAssign.EditWouldCauseCycleFor | src/json/tree.rs:545-550 | moving a collection under one of its own descendants is `EditWouldCauseCycle` |
| JsonAssign.ObjectAssignPrior | src/json/tree.rs:618-630 | a successful `object_assign` returns the value the key held before, `Unset` when it held none |
| JsonAssign.ObjectAssignResult | src/json/tree.rs:606-631 | after success, the key holds the new child (none for `Unset`) and every other key is as it was; a well-typed value reads back as itself; an assigned collection's parent is the object; a displaced collection is a parentless orphan |
| JsonAssign.ObjectAssignKeepsWf | src/json/tree.rs:606-631 | `object_assign` keeps the tree well formed, whether it succeeds or fails |
| JsonSequences.LookupInsertionPoint | src/tree/sequence.rs:157-190 | an insertion after a sequence's own id goes before its first element; after an element it goes just past its entry; any other id is `UnexpectedNodeType` and an unknown one `UnknownId` |
| JsonSequences.LookupIdIndex | src/tree/sequence.rs:131-153 | the segment holding an element's id and the index of its entry; errors as above |
| JsonSequences.ListTarget | src/json/tree.rs:707-745 | the array that an item inserted after an anchor joins |
| JsonSequenceProps.InsertCharacterSpec | src/json/tree.rs:674-689 | `insert_character`: a taken id is `DuplicateId`, an unknown anchor `UnknownId`, an anchor that is neither a string nor a character `UnexpectedNodeType`; an error changes nothing, and success inserts the character right after the anchor in the anchor's string, keeping the tree well formed |
| JsonSequenceProps.DeleteCharacterSpec | src/json/tree.rs:693-701 | `delete_character`: an unknown id is `UnknownId`, a non-character `UnexpectedNodeType`, an error changes nothing; otherwise the character's cell becomes a tombstone (a tombstone stays one) and other strings are unchanged |
| JsonSequenceProps.InsertListItemErrors | src/json/tree.rs:707-745 | the errors of `insert_list_item` in the source's order, each leaving the tree as it was: unknown ids, an anchor of the wrong kind, the reparenting errors, a taken id |
| JsonSequenceProps.InsertListItemResult | src/json/tree.rs:707-745 | after success the item is the array's new slot right after the anchor (first for the array's own id), other arrays are unchanged, and the tree stays well formed |
| JsonSequenceProps.InsertListItemParent | src/json/tree.rs:730-740 | an inserted collection's parent is the array |
| JsonSequenceProps.InsertListItemReadBack | src/json/tree.rs:707-745 | a well-typed inserted value reads back from its slot as itself |
| JsonSequenceProps.DeleteListItemSpec | src/json/tree.rs:749-762 | `delete_list_item`: an unknown id is `UnknownId`, a non-element `UnexpectedNodeType`, an error changes nothing; otherwise the slot becomes a tombstone, its item is returned, a removed collection becomes an orphan, and other arrays are unchanged |
| JsonSequenceWf.SegEditWf | src/json/tree.rs:674-762 | a segment edit that moves a collection in or out keeps the tree well formed |
| JsonUpdate.Discard | src/json/tree.rs:337-340 | `.map(\|_\| ())` keeps success or the error and drops the value |
| JsonUpdate.UpdateKeepsWf | src/json/tree.rs:331-350 | every edit keeps the tree well formed |
| JsonUpdate.UpdateGrows | src/json/tree.rs:331-350 | no edit changes the root, moves the counter back, or loses or redirects an external id |
| JsonUpdate.UpdateErrorUnchanged | src/json/tree.rs:331-350 | a failed edit changes nothing but, for a string or array constructor, the node counter |
| JsonUpdate.UpdateAll | src/json/tree.rs:331-350 | a list of edits applied one after another keeps the tree well formed and growing |
| JsonUpdate.ClearOrphansWf | src/json/tree.rs:353-374 | clearing the orphans keeps the tree well formed when the root is the only parentless node |
| JsonUpdate.NewWithStringRoot | src/json/tree.rs:353-358 | `new_with_string_root`: a well-formed tree with no orphans whose root id names an empty, parentless string |
| JsonUpdate.NewWithObjectRoot | src/json/tree.rs:361-366 | `new_with_object_root`: a well-formed tree with no orphans whose root id names an empty, parentless object |
| JsonUpdate.NewWithArrayRoot | src/json/tree.rs:369-374 | `new_with_array_root`: a well-formed tree with no orphans whose root id names an empty, parentless array |
| JsonDelete.ReachStep | src/json/tree.rs:476-532 | a link from a node reached in `k` steps leads to one reached in `k + 1` |
| JsonDelete.ClosedGone | src/json/tree.rs:476-532 | removing a node and closing the removal removes everything reachable from it |
| JsonDelete.ClosedTrans | src/json/tree.rs:466-471 | two closed removals in a row make one |
| JsonDelete.PushSuccessors | src/json/tree.rs:489-527 | the `for` loops of `delete` push exactly a node's links: an object's items, a sequence's start, a segment's next and an array segment's collections |
| JsonDelete.UnmapOwn | src/json/tree.rs:482-488 | the `id_to_node.remove` calls unmap exactly the removed node's own ids |
| JsonDelete.DeleteFrom | src/json/tree.rs:476-532 | `delete(item)`: exactly the nodes reachable from the item are removed, the rest are untouched, and exactly the ids of removed nodes are unmapped |
| JsonTree.Tree.constructor | src/json/tree.rs:321-329 | `new` |
| JsonTree.Tree.NewWithStringRoot | src/json/tree.rs:353-358 | `new_with_string_root`, equal to `JsonUpdate.NewWithStringRoot` |
| JsonTree.Tree.NewWithObjectRoot | src/json/tree.rs:361-366 | `new_with_object_root`, equal to `JsonUpdate.NewWithObjectRoot` |
| JsonTree.Tree.NewWithArrayRoot | src/json/tree.rs:369-374 | `new_with_array_root`, equal to `JsonUpdate.NewWithArrayRoot` |
| JsonTree.Tree.NextId | src/json/tree.rs:460-464 | `next_id` hands out the counter and advances it |
| JsonTree.Tree.ConstructSimple | src/json/tree.rs:376-391 | in place, what `JsonOps.ConstructSimpleSpec` states |
| JsonTree.Tree.ConstructObject | src/json/tree.rs:395-404 | in place, `construct_object` |
| JsonTree.Tree.ConstructString | src/json/tree.rs:408-431 | in place, `construct_string` |
| JsonTree.Tree.ConstructArray | src/json/tree.rs:435-458 | in place, `construct_array` |
| JsonTree.WalkFinds | src/json/tree.rs:544-550 | the `while let` loop walks up the parent links from the target and reports the item exactly when the item is the target or one of its ancestors |
| JsonTree.Tree.ReparentItem | src/json/tree.rs:540-555 | the parent check, then the walk up from the target, with the result `JsonOps.ReparentSpec` states |
| JsonTree.Tree.MoveToOrphan | src/json/tree.rs:534-537 | in place, `move_to_orphan` |
| JsonTree.Tree.ObjectAssign | src/json/tree.rs:606-631 | in place, `object_assign` with the results `JsonAssign.ObjectAssignErrors` and `ObjectAssignResult` state |
| JsonTree.Tree.SetItem | src/json/tree.rs:618-630 | sets or removes the key and sends a displaced collection to the orphans |
| JsonTree.Tree.Delete | src/json/tree.rs:476-532 | in place, `delete` with the reachability result of `JsonDelete.DeleteFrom` |
| JsonTree.Tree.DeleteOrphans | src/json/tree.rs:466-471 | `delete_orphans` empties the orphans; exactly the nodes reachable from an old orphan are removed; every id that named one of them is now `UnknownId` |
| JsonTree.Tree.Update | src/json/tree.rs:331-350 | in place, `update` as `JsonUpdate.Update` |
| JsonFindings.ReparentAsWrittenPanics | src/json/tree.rs:540-555 | the code as written panics exactly when the item is the root and the target is not below it; otherwise it agrees with `JsonOps.Reparent` |
| JsonFindings.RootReparentPanics | src/json/tree.rs:552 | `object_assign(1, "k", Object(0))` on a root and one orphan object reaches that panic; the corrected operation says `NodeAlreadyHadParent` and changes nothing |
| JsonFindings.AssignIntoStringBreaksTree | src/json/tree.rs:612-629 | assigning an object into a string: as written, the object is attached under the string before `UnexpectedNodeType` is reported, breaking the invariant; corrected, nothing changes |
| JsonFindings.InsertTakenIdBreaksTree | src/json/tree.rs:714-745 | inserting an object into an array under a taken id: as written, the object is attached under the array before `DuplicateId` is reported, breaking the invariant; corrected, nothing changes |
| Doc.Cmp | src/doc.rs:24-29 | operations compare by timestamp alone: `Less`, `Equal` and `Greater` exactly as the timestamps are `<`, `==` and `>` |
| Doc.PartialCmpAgrees | src/doc.rs:19-23 | `partial_cmp` is always `Some(cmp)`; it is antisymmetric and equal exactly on equal timestamps |
| Doc.CmpTotalOrder | src/doc.rs:24-29 | timestamp order is a total order, as the log needs |
| Doc.SortedByTimestamp | src/opset.rs:23-30 | a log sorted by that order has strictly increasing timestamps |
| Doc.Apply | src/doc.rs:31-37 | applying an operation runs `update` on each edit in order; the tree stays well formed and growing |
| Doc.UpdateAllSnoc | src/doc.rs:33-35 | one more edit at the end is one more `update` of the tree the others left |
| Doc.FailedEditSkipped | src/doc.rs:33-35 | an edit that fails changes at most the node counter, and the edits after it still run |
| Doc.ApplyTo | src/doc.rs:31-37 | the loop over the edits, in place on a tree, gives `Apply` |
| Doc.Doc.constructor | src/doc.rs:44-48 | `Doc::new`: no operations, cache gap 10, and the tree an empty object named by `ROOT_ID` (number 0) |
| Doc.Doc.Update | src/doc.rs:50-52 | `update` adds exactly the operation and keeps timestamps strictly increasing; the tree is every operation replayed in timestamp order; a repeated timestamp compares equal and panics in the log, so it is excluded |
| Doc.Doc.UpdateFromIter | src/doc.rs:54-56 | `update_from_iter` adds exactly the batch, with the same order and tree, and the same exclusion |
| Doc.Doc.Tree | src/doc.rs:58-60 | `tree()` is the log's current state: every operation replayed in timestamp order onto the initial tree |
| Doc.SameOperationsSameTree | src/doc.rs:50-60 | two documents that received the same operations, in any order and batches, have the same tree |

## Left out

- Panics are preconditions, not behaviour. This covers the `expect`/`unwrap` on two operations that compare equal, and removing a string's only segment. It also covers deleting a segment through `delete`, and a mapped id whose node is gone.
- src/json/sequence.rs, which the JSON tree's character and list edits call, is not part of this model.
  - Those edits are modelled after src/tree/sequence.rs: a duplicate-id check, the lookup, and the edit of one segment.
  - A JSON string or array keeps the one segment its constructor made. There is no split or join on the JSON side.
  - `JsonTree.Tree.Update` applies those four edits as values (the `JsonSequences` functions): it computes the new tree and then loads it back into the object. It does not update in place.
- In `insert_list_item` and `delete_list_item`, an id of the wrong kind of node gives `UnexpectedNodeType`. How the unshown sequence code would report that is not known.
- Characters have width 1: offsets count characters, not UTF-8 bytes.
- Integers are unbounded.
  - `NodeId` and the counters are `int`/`nat`, so the `usize` counter never wraps.
  - JSON integers are unbounded, where the source has `i64`.
  - Doc timestamps are a `u64` newtype, which only bounds them.
- Persistence and O(1) cloning of `im::HashMap`/`HashSet` become plain maps and sets, and the log's `S: Clone` states are values.
- The `Operation`/`Edit` traits become a function parameter `apply`, and `Ord` becomes a comparison function `cmp` that is required to be a total order.
- Crdt.OpSetCrdt.Recalculate: only the correctness of the snapshots and the final state is stated. The caching test at src/crdt.rs:43 (`last + cache_gap > applied`) is inverted relative to src/opset.rs:64, so the spacing promised at src/crdt.rs:11-12 does not hold, and nothing is claimed about it.
- JsonTree.Tree.DeleteOrphans: the new tree is characterized by reachability and id unmapping. That it is still well formed is not stated, because `JsonNodes.Wf` speaks about orphans in a way that the removal of whole subtrees does not preserve automatically.
- JsonTree.Tree.Delete: requires that the id map agrees exactly with the nodes (JsonDelete.IdsExact). That holds in a well-formed tree (JsonDelete.WfIdsExact); the source's `unwrap` on `id_to_node.remove` needs it.
- JsonUpdate.UpdateKeepsWf: it describes `update` with the three corrections listed under Findings (`reparent_item` without the panic, `object_assign` and `insert_list_item` checking before they move the child), not the code as written. As written, src/json/tree.rs:552 panics when the root is assigned, and src/json/tree.rs:612-629 and src/json/tree.rs:714-745 return an error with the child left attached.
- JsonUpdate.UpdateErrorUnchanged: it describes `update` with the three corrections listed under Findings (`reparent_item` without the panic, `object_assign` and `insert_list_item` checking before they move the child), not the code as written. As written, src/json/tree.rs:552 panics when the root is assigned, and src/json/tree.rs:612-629 and src/json/tree.rs:714-745 return an error with the child left attached.
- JsonUpdate.UpdateAll: it describes `update` with the three corrections listed under Findings (`reparent_item` without the panic, `object_assign` and `insert_list_item` checking before they move the child), not the code as written. As written, src/json/tree.rs:552 panics when the root is assigned, and src/json/tree.rs:612-629 and src/json/tree.rs:714-745 return an error with the child left attached.
- JsonTree.Tree.Update: it describes `update` with the three corrections listed under Findings (`reparent_item` without the panic, `object_assign` and `insert_list_item` checking before they move the child), not the code as written. As written, src/json/tree.rs:552 panics when the root is assigned, and src/json/tree.rs:612-629 and src/json/tree.rs:714-745 return an error with the child left attached.
- Doc.Apply: it describes `update` with the three corrections listed under Findings (`reparent_item` without the panic, `object_assign` and `insert_list_item` checking before they move the child), not the code as written. As written, src/json/tree.rs:552 panics when the root is assigned, and src/json/tree.rs:612-629 and src/json/tree.rs:714-745 return an error with the child left attached.
- Doc.FailedEditSkipped: it describes `update` with the three corrections listed under Findings (`reparent_item` without the panic, `object_assign` and `insert_list_item` checking before they move the child), not the code as written. As written, src/json/tree.rs:552 panics when the root is assigned, and src/json/tree.rs:612-629 and src/json/tree.rs:714-745 return an error with the child left attached.
- JsonTree.Tree.ObjectAssign: it follows the corrected order. When the target is not an object, the move of the child is undone, so the error changes nothing. The order as written is JsonOps.ObjectAssignSteps (see Findings).
- StringTree.Tree.ConsiderSplit: it is called on segments only, as every caller does. The arm that returns `(segment, segment)` for a string node (src/tree/sequence.rs:243-246) is not modelled.
- In src/tree.rs, `consider_split` drops the two ends it computes. `StringTree.Tree.ConsiderSplit` returns them, as src/tree/sequence.rs does, and src/tree.rs's callers ignore them.
- src/tree/sequence.rs's `delete_character`, `insert_segment`, `delete_segment`, `lookup_id_index` and `lookup_insertion_point` do what their src/tree.rs namesakes do. Each is modelled once.
- The split in `StringTree.Tree.SplitSegment` truncates the old segment's payload after linking in the new segment; the source does it before. Both leave the same tree.
- Doc.Doc.Update and Doc.Doc.UpdateFromIter: operations with equal timestamps are excluded by their preconditions, because the log panics on them.
- src/document.rs (its `apply` is `unimplemented!()`), benches/long_string.rs (a benchmark against an API the rest of the code does not have) and the test files are not part of this model. The tests serve only as evidence for the example lemmas.

## Findings

| source | as written | input that shows it | evidently intended | confidence | as-written member | corrected member |
|---|---|---|---|---|---|---|
| src/json/tree.rs:540-555 | `reparent_item` checks the item's parent and the cycle walk, then `self.orphans.remove(&item).unwrap()`: the root has no parent and is not an orphan, so the `unwrap` panics | a tree with an object root 0 and a detached object 1; `object_assign(1, "k", Object(0))` | refuse the move with `NodeAlreadyHadParent`, since the root is already placed | high (not executed) | JsonFindings.ReparentAsWritten, JsonFindings.RootReparentPanics | JsonOps.Reparent, JsonOps.ReparentSpec |
| src/json/tree.rs:606-631 | `object_assign` calls `reparent_item` before it checks that the target is an object, so `UnexpectedNodeType` is returned with the child attached under a non-object that does not hold it | an object root, a detached string (id 1) and a detached object (id 2); `object_assign(1, "k", Object(2))` | report the error and leave the tree unchanged | high (not executed) | JsonOps.ObjectAssignSteps, JsonFindings.AssignIntoStringBreaksTree | JsonOps.ObjectAssign, JsonAssign.ObjectAssignErrors |
| src/json/tree.rs:714-745 | `insert_list_item` reparents a collection under the array before the sequence insert rejects a taken id, so `DuplicateId` is returned with the collection attached under an array that does not hold it | an array root (id 0) and a detached object (id 1); `insert_list_item(0, 1, Object(1))` | report the error and leave the tree unchanged | medium (not executed; the insert lives in the unshown src/json/sequence.rs, modelled after src/tree/sequence.rs) | JsonSequences.InsertListItemSteps, JsonFindings.InsertTakenIdBreaksTree | JsonSequences.InsertListItem, JsonSequenceProps.InsertListItemErrors |
