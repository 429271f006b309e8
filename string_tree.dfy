/**
 * The string tree of src/tree.rs: an arena of nodes in which each string value is a sentinel
 * node plus a ring of segments, and every character carries an id. Characters are inserted
 * after the character (or string) with a given id and deleted by leaving a tombstone, so that
 * the ids of deleted characters stay usable as insertion anchors.
 *
 * `Tree` keeps its fields as the source does (`next_node`, `root`, `id_to_node`, `nodes`);
 * the ghost field `strings` lists each string's segments in ring order. `Valid()` is the
 * invariant of TreeNodes, and `Elems(s)` the sequence of cells (characters and tombstones)
 * that string `s` stands for, which is what the operations are specified against.
 */
module StringTree {
  import opened Common
  import opened Segments
  import opened TreeNodes
  import opened TreeEdits
  import opened RingEdits
  import opened SplitJoin
  import opened Splits
  import opened Lookups
  import opened CharEdits
  import opened Balance
  import opened TreeDelete

  class Tree {
    var nextNode: NodeId
    var root: Id
    var idToNode: map<Id, NodeId>
    var nodes: Nodes
    ghost var strings: Strings

    ghost predicate Valid()
      reads this
    {
      Wf(nodes, idToNode, nextNode, strings)
    }

    /** The fields as one value. */
    ghost function State(): Arena
      reads this
    {
      Arena(nodes, idToNode, nextNode, strings)
    }

    /** The cells of string node `s`, in order. */
    ghost function Elems(s: NodeId): seq<Cell>
      reads this
      requires s in strings
    {
      Elements(nodes, strings[s])
    }

    /** `Tree::new`: an arena with no nodes. */
    constructor (rootId: Id)
      ensures Valid()
      ensures nextNode == 0 && root == rootId && idToNode == map[] && nodes == map[] && strings == map[]
    {
      nextNode := 0;
      root := rootId;
      idToNode := map[];
      nodes := map[];
      strings := map[];
    }

    /** `Tree::empty_string`: a tree whose root is an empty string with one empty segment. */
    static method EmptyString(rootId: Id) returns (t: Tree)
      ensures fresh(t) && t.Valid() && t.root == rootId
      ensures rootId in t.idToNode && t.idToNode[rootId] in t.strings
      ensures |t.strings[t.idToNode[rootId]]| == 1 && t.Elems(t.idToNode[rootId]) == []
      ensures Visible(t.Elems(t.idToNode[rootId])) == "" && Balanced(t.State())
    {
      t := new Tree(rootId);
      assert Balanced(t.State());
      var r := t.ConstructString(rootId);
      assert r.Ok?;
    }

    method NextId() returns (r: NodeId)
      modifies this
      ensures r == old(nextNode) && nextNode == old(nextNode) + 1
      ensures root == old(root) && idToNode == old(idToNode) && nodes == old(nodes) && strings == old(strings)
    {
      r := nextNode;
      nextNode := nextNode + 1;
    }

    /** Adds a parentless node for a new id; a mapped id is refused and nothing changes. */
    method ConstructSimple(id: Id, data: NodeData) returns (r: Result<NodeId>)
      modifies this
      ensures old(id in idToNode) ==> r == Err(DuplicateId) && unchanged(this)
      ensures old(id !in idToNode) ==>
        && r == Ok(old(nextNode)) && nextNode == old(nextNode) + 1
        && idToNode == old(idToNode)[id := r.value] && nodes == old(nodes)[r.value := Node(data, None)]
        && root == old(root) && strings == old(strings)
    {
      if id in idToNode {
        return Err(DuplicateId);
      }
      var nodeId := NextId();
      idToNode := idToNode[id := nodeId];
      nodes := nodes[nodeId := Node(data, None)];
      return Ok(nodeId);
    }

    method ConstructBool(id: Id, val: bool) returns (r: Result<()>)
      requires Valid()
      modifies this
      ensures Valid()
      ensures old(id in idToNode) ==> r == Err(DuplicateId) && unchanged(this)
      ensures old(id !in idToNode) ==>
        && r == Ok(()) && idToNode == old(idToNode)[id := old(nextNode)]
        && nodes == old(nodes)[old(nextNode) := Node(if val then True else False, None)]
        && strings == old(strings) && forall s :: s in strings ==> Elems(s) == old(Elems(s))
      ensures old(Balanced(State())) ==> Balanced(State())
    {
      if id in idToNode {
        return Err(DuplicateId);
      }
      ghost var a := State();
      AddValueWf(nodes, idToNode, nextNode, strings, id, if val then True else False);
      var n := ConstructSimple(id, if val then True else False);
      if Balanced(a) {
        BalancedExtend(a, State());
      }
      return Ok(());
    }

    method ConstructNull(id: Id, val: bool) returns (r: Result<()>)
      requires Valid()
      modifies this
      ensures Valid()
      ensures old(id in idToNode) ==> r == Err(DuplicateId) && unchanged(this)
      ensures old(id !in idToNode) ==>
        && r == Ok(()) && idToNode == old(idToNode)[id := old(nextNode)]
        && nodes == old(nodes)[old(nextNode) := Node(Null, None)]
        && strings == old(strings) && forall s :: s in strings ==> Elems(s) == old(Elems(s))
      ensures old(Balanced(State())) ==> Balanced(State())
    {
      if id in idToNode {
        return Err(DuplicateId);
      }
      ghost var a := State();
      AddValueWf(nodes, idToNode, nextNode, strings, id, Null);
      var n := ConstructSimple(id, Null);
      if Balanced(a) {
        BalancedExtend(a, State());
      }
      return Ok(());
    }

    method ConstructObject(id: Id, val: bool) returns (r: Result<()>)
      requires Valid()
      modifies this
      ensures Valid()
      ensures old(id in idToNode) ==> r == Err(DuplicateId) && unchanged(this)
      ensures old(id !in idToNode) ==>
        && r == Ok(()) && idToNode == old(idToNode)[id := old(nextNode)]
        && nodes == old(nodes)[old(nextNode) := Node(Object(map[]), None)]
        && strings == old(strings) && forall s :: s in strings ==> Elems(s) == old(Elems(s))
      ensures old(Balanced(State())) ==> Balanced(State())
    {
      if id in idToNode {
        return Err(DuplicateId);
      }
      ghost var a := State();
      AddValueWf(nodes, idToNode, nextNode, strings, id, Object(map[]));
      var n := ConstructSimple(id, Object(map[]));
      if Balanced(a) {
        BalancedExtend(a, State());
      }
      return Ok(());
    }

    /**
     * `construct_string`: the segment's number is drawn before the id is checked, so a
     * refused id still advances the counter.
     */
    method ConstructString(id: Id) returns (r: Result<()>)
      requires Valid()
      modifies this
      ensures Valid() && root == old(root)
      ensures old(id in idToNode) ==>
        && r == Err(DuplicateId) && nextNode == old(nextNode) + 1
        && nodes == old(nodes) && idToNode == old(idToNode) && strings == old(strings)
      ensures old(id !in idToNode) ==>
        && r == Ok(()) && nextNode == old(nextNode) + 2
        && idToNode == old(idToNode)[id := old(nextNode) + 1]
        && nodes == old(nodes)[old(nextNode) + 1 := Node(String(old(nextNode), old(nextNode)), None)]
                             [old(nextNode) := Node(StringSegment(old(nextNode) + 1, old(nextNode) + 1, [], []), Some(old(nextNode) + 1))]
        && strings == old(strings)[old(nextNode) + 1 := [old(nextNode)]]
        && Elems(old(nextNode) + 1) == []
        && forall s :: s in old(strings) ==> Elems(s) == old(Elems(s))
      ensures old(Balanced(State())) ==> Balanced(State())
    {
      hide Balanced, Wf;
      ghost var a := State();
      ghost var n0, i0, m0, s0 := nodes, idToNode, nextNode, strings;
      WfBelowCounter(n0, i0, m0, s0);
      var segmentId := NextId();
      var stringId := ConstructSimple(id, String(segmentId, segmentId));
      if stringId.Err? {
        CounterBumpWf(n0, i0, m0, s0);
        if Balanced(a) {
          BalancedExtend(a, State());
        }
        return Err(stringId.error);
      }
      nodes := nodes[segmentId := Node(StringSegment(stringId.value, stringId.value, [], []), Some(stringId.value))];
      strings := strings[stringId.value := [segmentId]];
      AddStringWf(n0, i0, m0, s0, id, nodes, idToNode, strings);
      if Balanced(a) {
        BalancedExtend(a, State());
      }
      return Ok(());
    }

    /**
     * `insert_segment`: a new empty segment, numbered by the counter, is linked in after
     * `appendTo`, which is the string itself (the new segment comes first) or its segment
     * `j - 1` (the new one becomes segment `j`).
     */
    method InsertSegment(appendTo: NodeId, ghost s: NodeId, ghost j: nat) returns (newId: NodeId)
      requires Valid() && s in strings && j <= |strings[s]|
      requires appendTo == if j == 0 then s else strings[s][j - 1]
      modifies this
      ensures newId == old(nextNode) && nextNode == old(nextNode) + 1
      ensures Insertable(old(nodes), appendTo) && nodes == SegmentInserted(old(nodes), appendTo, newId)
      ensures strings == old(strings)[s := InsertAt(old(strings[s]), j, newId)]
      ensures idToNode == old(idToNode) && root == old(root)
    {
      assert Insertable(nodes, appendTo) by {
        LinksOfRing(nodes, s, strings[s], j);
      }
      newId := nextNode;
      var node := nodes[appendTo];
      var next := if node.data.StringSegment? then node.data.next else node.data.start;
      var parent := if node.data.StringSegment? then node.parent else Some(appendTo);
      var updated := nodes[appendTo := LinkNext(node, newId)];
      updated := updated[newId := Node(StringSegment(appendTo, next, [], []), parent)];
      updated := updated[next := LinkPrev(updated[next], newId)];
      nextNode, nodes, strings := nextNode + 1, updated, strings[s := InsertAt(strings[s], j, newId)];
    }

    /**
     * `delete_segment`: segment `j` of string `s` leaves the arena and its neighbours are
     * linked to each other. Removing the only segment of a string panics in the source; here
     * the string must have two. The ids the segment held stay mapped to it.
     */
    method DeleteSegment(segment: NodeId, ghost s: NodeId, ghost j: nat) returns (deleted: Node)
      requires Valid() && s in strings && j < |strings[s]| && strings[s][j] == segment && |strings[s]| >= 2
      modifies this
      ensures Deletable(old(nodes), segment) && nodes == SegmentDeleted(old(nodes), segment)
      ensures deleted == old(nodes[segment])
      ensures strings == old(strings)[s := RemoveAt(old(strings[s]), j)]
      ensures idToNode == old(idToNode) && nextNode == old(nextNode) && root == old(root)
      ensures Valid()
      ensures Elems(s) == old(Elements(nodes, strings[s][..j])) + old(Elements(nodes, strings[s][j + 1..]))
      ensures OthersKept(old(nodes), nodes, old(strings), s)
    {
      ghost var n0, s0 := nodes, strings;
      assert Deletable(n0, segment) by {
        assert Ring(n0, s, s0[s]);
        DeletableOfRing(n0, s, s0[s], j);
      }
      deleted := nodes[segment];
      var oldPrev, oldNext := deleted.data.prev, deleted.data.next;
      var updated := nodes - {segment};
      updated := updated[oldPrev := LinkNext(updated[oldPrev], oldNext)];
      updated := updated[oldNext := LinkPrev(updated[oldNext], oldPrev)];
      assert updated == SegmentDeleted(n0, segment);
      DeleteSegmentWf(n0, idToNode, nextNode, s0, s, j, updated);
      nodes, strings := updated, s0[s := RemoveAt(s0[s], j)];
    }

    /**
     * The cut of `consider_split` on segment `j` of string `s`: the first half of its entries
     * (list index `m = |ids| / 2`) stays, and so do the characters before the first live entry
     * at or after `m`; a new segment linked in after it takes the rest, with its offsets
     * rebased, and the moved ids are remapped to the new segment. `Cut` is the same step on
     * values, and `CutWf` what it keeps.
     */
    method SplitSegment(segment: NodeId, ghost s: NodeId, ghost j: nat) returns (newId: NodeId)
      requires Valid() && s in strings && j < |strings[s]| && strings[s][j] == segment
      modifies this
      ensures CutPre(old(State()), s, j) && State() == Cut(old(State()), s, j)
      ensures newId == old(nextNode) && root == old(root)
    {
      hide Wf, Cut, Remapped, SegmentInserted, Shifted, LiveCount;
      ghost var a := State();
      CutReady(a, s, j);
      CutFields(a, s, j);
      ghost var n1 := SegmentInserted(a.nodes, segment, a.nextNode);
      var contents, ids := nodes[segment].data.contents, nodes[segment].data.ids;
      var splitStartVec := |ids| / 2;
      var splitStartString, newIds := CutPayload(contents, ids);
      var newString := contents[splitStartString..];
      newId := InsertSegment(segment, s, j + 1);
      assert nodes == n1 && newId == a.nextNode;
      idToNode := RemapIds(idToNode, newIds, newId);
      var left := WithPayload(nodes[segment], contents[..splitStartString], ids[..splitStartVec]);
      var right := WithPayload(nodes[newId], newString, newIds);
      ghost var r := Arena(n1[segment := left][newId := right], idToNode, nextNode, strings);
      assert r == Cut(a, s, j);
      nodes := nodes[segment := left][newId := right];
    }

    /**
     * `consider_split`, in the form of src/tree/sequence.rs that returns the first and last
     * piece (src/tree.rs drops them): a segment of more than `SPLIT_LEN` ids is cut in two and
     * both halves are considered again, left first. The tree it leaves and the run `pieces` of
     * segments that segment `j` of string `s` becomes are those of `SplitAll`.
     */
    method ConsiderSplit(segment: NodeId, ghost s: NodeId, ghost j: nat) returns (left: NodeId, right: NodeId, ghost pieces: seq<NodeId>)
      requires Valid() && s in strings && j < |strings[s]| && strings[s][j] == segment
      modifies this
      decreases LengthAt(State(), s, j)
      ensures At(old(State()), s, j) && (State(), pieces) == SplitAll(old(State()), s, j)
      ensures left == segment && right == pieces[|pieces| - 1] && root == old(root)
    {
      hide Wf, Cut, CutPre, SplitOk, SplitAll, PayloadsKept, CellsKept, SplitPieces;
      ghost var a := State();
      SplitAllUnfold(a, s, j);
      SegmentOfRing(nodes, idToNode, nextNode, strings, s, j);
      if |nodes[segment].data.ids| <= SPLIT_LEN {
        return segment, segment, [segment];
      }
      var newId := SplitSegment(segment, s, j);
      var r1; ghost var p1;
      left, r1, p1 := ConsiderSplit(segment, s, j);
      var l2; ghost var p2;
      l2, right, p2 := ConsiderSplit(newId, s, j + |p1|);
      pieces := p1 + p2;
    }

    /**
     * `lookup_id_index`: the segment an id is mapped to and the index of its entry. An unknown
     * id and an id of another kind of node are refused; that the entry is found is proved
     * from the invariant. A mapped id whose node is gone panics in the source.
     */
    method LookupIdIndex(lookupId: Id) returns (r: Result<(NodeId, nat)>)
      requires Valid() && (lookupId in idToNode ==> idToNode[lookupId] in nodes)
      ensures r == Err(UnknownId) <==> lookupId !in idToNode
      ensures r == Err(UnexpectedNodeType) <==> lookupId in idToNode && !IsSegment(nodes, idToNode[lookupId])
      ensures r != Err(DuplicateId)
      ensures r.Ok? ==>
        && r.value.0 == idToNode[lookupId] && IsSegment(nodes, r.value.0)
        && r.value.1 < |nodes[r.value.0].data.ids| && nodes[r.value.0].data.ids[r.value.1].id == lookupId
        && forall k :: 0 <= k < r.value.1 ==> nodes[r.value.0].data.ids[k].id != lookupId
    {
      hide Wf;
      if lookupId !in idToNode {
        return Err(UnknownId);
      }
      var nodeId := idToNode[lookupId];
      var node := nodes[nodeId];
      if !node.data.StringSegment? {
        return Err(UnexpectedNodeType);
      }
      IdInSegment(State(), lookupId);
      var i := FindId(node.data.ids, lookupId);
      assert i.Some?;
      return Ok((nodeId, i.value));
    }

    /**
     * `lookup_insertion_point`: where a character appended after `lookupId` goes, as
     * (segment, offset in its contents, index in its id list). For a string it is the start
     * of its first segment; for a character, the entry after the character's, at the offset
     * of the live entries before it.
     */
    method LookupInsertionPoint(lookupId: Id) returns (r: Result<(NodeId, nat, nat)>)
      requires Valid() && (lookupId in idToNode ==> idToNode[lookupId] in nodes)
      ensures r == Err(UnknownId) <==> lookupId !in idToNode
      ensures r == Err(UnexpectedNodeType) <==> lookupId in idToNode && !Anchored(State(), lookupId)
      ensures r != Err(DuplicateId)
      ensures r.Ok? && IsString(nodes, idToNode[lookupId]) ==> r.value == (nodes[idToNode[lookupId]].data.start, 0, 0)
      ensures r.Ok? && IsSegment(nodes, idToNode[lookupId]) ==>
        var ids := nodes[idToNode[lookupId]].data.ids;
        && r.value.0 == idToNode[lookupId] && 1 <= r.value.2 <= |ids| && ids[r.value.2 - 1].id == lookupId
        && r.value.1 == LiveCount(ids[..r.value.2])
    {
      hide Wf;
      if lookupId !in idToNode {
        return Err(UnknownId);
      }
      var nodeId := idToNode[lookupId];
      var node := nodes[nodeId];
      if node.data.String? {
        return Ok((node.data.start, 0, 0));
      }
      if !node.data.StringSegment? {
        return Err(UnexpectedNodeType);
      }
      AnchorSegment(State(), lookupId);
      IdInSegment(State(), lookupId);
      var p := FindInsertion(node.data.ids, |node.data.contents|, lookupId);
      assert p.Some?;
      NextOffsetIsLiveCount(node.data.contents, node.data.ids, p.value.listIndex);
      return Ok((nodeId, p.value.stringIndex, p.value.listIndex));
    }

    /**
     * `get_string`: walks the ring from the first segment back to the string node, appending
     * each segment's contents; the result is the visible text of the string. An unknown id,
     * a missing node and an id of another kind of node panic in the source.
     */
    method GetString(id: Id) returns (r: Result<string>)
      requires Valid() && id in idToNode && IsString(nodes, idToNode[id])
      ensures idToNode[id] in strings && r == Ok(Visible(Elems(idToNode[id])))
    {
      hide Wf;
      var stringNodeId := idToNode[id];
      StringOfNode(State(), stringNodeId);
      ghost var ss := strings[stringNodeId];
      var next := nodes[stringNodeId].data.start;
      var text: seq<char> := [];
      ghost var k := 0;
      while next != stringNodeId
        invariant 0 <= k <= |ss|
        invariant next == if k < |ss| then ss[k] else stringNodeId
        invariant text == TreeNodes.Text(nodes, ss[..k])
        decreases |ss| - k
      {
        assert Linked(nodes, stringNodeId, ss, k);
        var node := nodes[next];
        assert ss[..k + 1][..k] == ss[..k];
        text := text + node.data.contents;
        next := node.data.next;
        k := k + 1;
      }
      assert k < |ss| ==> Linked(nodes, stringNodeId, ss, k);
      assert ss[..k] == ss;
      StringText(nodes, idToNode, nextNode, strings, stringNodeId);
      return Ok(text);
    }

    /**
     * `consider_join(segment, rightward)` of src/tree/sequence.rs (src/tree.rs's `consider_join`
     * is the rightward one). A string node is left alone. Otherwise the pair is the segment and
     * its successor (rightward) or its predecessor and the segment, and when `JoinIndex` picks
     * it the right member is unlinked, its ids are mapped to the left one, and its ids (offsets
     * moved past the left contents) and contents are appended to the left one's: the tree
     * becomes `Join`. Any other case changes nothing.
     */
    method ConsiderJoin(segment: NodeId, rightward: bool, ghost s: NodeId, ghost j: nat)
      requires Valid() && segment in nodes
      requires IsString(nodes, segment) || (s in strings && j < |strings[s]| && strings[s][j] == segment)
      modifies this
      ensures Valid() && root == old(root)
      ensures IsString(old(nodes), segment) || JoinIndex(old(State()), s, j, rightward).None? ==> unchanged(this)
      ensures !IsString(old(nodes), segment) && JoinIndex(old(State()), s, j, rightward).Some? ==>
                && JoinPre(old(State()), s, JoinIndex(old(State()), s, j, rightward).value)
                && State() == Join(old(State()), s, JoinIndex(old(State()), s, j, rightward).value)
    {
      hide Wf, Join, Elements, OthersKept, Remapped, SegmentDeleted, Deletable, Shifted;
      if nodes[segment].data.String? {
        return;
      }
      ghost var a := State();
      Neighbours(a, s, j);
      JoinIndexOf(a, s, j, rightward);
      var node := nodes[segment];
      var left, right := if rightward then segment else node.data.prev, if rightward then node.data.next else segment;
      if nodes[left].data.String? || nodes[right].data.String? {
        return;
      }
      var leftLen, rightLen := |nodes[left].data.ids|, |nodes[right].data.ids|;
      if leftLen >= JOIN_LEN || rightLen >= JOIN_LEN || leftLen + rightLen >= SPLIT_LEN {
        return;
      }
      ghost var k := if rightward then j + 1 else j;
      JoinOk(a, s, k);
      JoinFields(a, s, k);
      var deleted := DeleteSegment(right, s, k);
      idToNode := RemapIds(idToNode, deleted.data.ids, left);
      var l := nodes[left];
      var moved := ShiftOffsets(deleted.data.ids, 0, |l.data.contents|);
      nodes := nodes[left := WithPayload(l, l.data.contents + deleted.data.contents, l.data.ids + moved)];
    }

    /**
     * The edit `insert_character` (src/tree.rs and src/tree/sequence.rs alike) makes before it
     * splits: the new character `thisId` goes right after the anchor `appendId` (a character,
     * or the string itself for the first position) in the anchor's segment, segment `j` of
     * string `s`, whose node is returned; no other node changes and the segment's id list
     * grows. A known `thisId`, an unknown anchor and an anchor that is not part of a string
     * are refused and change nothing.
     */
    method InsertInSegment(appendId: Id, thisId: Id, character: char) returns (r: Result<NodeId>, ghost s: NodeId, ghost j: nat)
      requires Valid() && (appendId in idToNode ==> idToNode[appendId] in nodes)
      modifies this
      ensures r == Err(DuplicateId) <==> old(thisId in idToNode)
      ensures r == Err(UnknownId) <==> old(thisId !in idToNode && appendId !in idToNode)
      ensures r == Err(UnexpectedNodeType) <==> old(thisId !in idToNode && appendId in idToNode && !Anchored(State(), appendId))
      ensures r.Err? ==> unchanged(this)
      ensures r.Ok? ==> old(Anchored(State(), appendId)) && Valid() && root == old(root)
      ensures r.Ok? ==> CharInserted(old(State()), State(), appendId, thisId, character)
      ensures r.Ok? ==> && At(State(), s, j) && strings[s][j] == r.value && strings == old(strings)
                        && old(IsSegment(nodes, r.value)) && IsSegment(nodes, r.value)
                        && nodes == old(nodes)[r.value := nodes[r.value]]
                        && |nodes[r.value].data.ids| >= old(|nodes[r.value].data.ids|)
    {
      hide Wf, CharInserted;
      s, j := 0, 0;
      if thisId in idToNode {
        return Err(DuplicateId), s, j;
      }
      var point := LookupInsertionPoint(appendId);
      if point.Err? {
        return Err(point.error), s, j;
      }
      var (nodeId, stringIndex, idListIndex) := point.value;
      ghost var a := State();
      AnchorSegment(a, appendId);
      s := AnchorString(a, appendId);
      j :| 0 <= j < |strings[s]| && strings[s][j] == nodeId && (IsString(nodes, idToNode[appendId]) ==> j == 0);
      SegmentOfRing(nodes, idToNode, nextNode, strings, s, j);
      var node := nodes[nodeId];
      var d := node.data;
      InsertionInside(a, appendId, s, j, idListIndex, stringIndex);
      var newIds := ShiftOffsets(d.ids, idListIndex, 1);
      newIds := InsertAt(newIds, idListIndex, Entry(thisId, Some(stringIndex)));
      var newNodes := nodes[nodeId := Node(StringSegment(d.prev, d.next, InsertAt(d.contents, stringIndex, character), newIds), node.parent)];
      InsertCharStep(a, appendId, thisId, character, s, j, idListIndex, stringIndex, newNodes);
      nodes := newNodes;
      idToNode := idToNode[thisId := nodeId];
      r := Ok(nodeId);
    }

    /**
     * What `insert_character` of src/tree.rs and of src/tree/sequence.rs share: the edit of
     * `InsertInSegment`, then `consider_split` of the edited segment, whose two ends are
     * returned with, as ghosts, the string and the index of the run of segments they bound.
     * A balanced tree stays balanced.
     */
    method InsertAndSplit(appendId: Id, thisId: Id, character: char)
      returns (r: Result<()>, left: NodeId, right: NodeId, ghost s: NodeId, ghost j: nat, ghost pieces: seq<NodeId>)
      requires Valid() && (appendId in idToNode ==> idToNode[appendId] in nodes)
      modifies this
      ensures r == Err(DuplicateId) <==> old(thisId in idToNode)
      ensures r == Err(UnknownId) <==> old(thisId !in idToNode && appendId !in idToNode)
      ensures r == Err(UnexpectedNodeType) <==> old(thisId !in idToNode && appendId in idToNode && !Anchored(State(), appendId))
      ensures r.Err? ==> unchanged(this)
      ensures r.Ok? ==> old(Anchored(State(), appendId)) && Valid() && root == old(root)
      ensures r.Ok? ==> CharInserted(old(State()), State(), appendId, thisId, character)
      ensures r.Ok? ==> && s in strings && |pieces| >= 1 && j + |pieces| <= |strings[s]|
                        && strings[s][j] == left && strings[s][j + |pieces| - 1] == right
      ensures r.Ok? && old(Balanced(State())) ==> Balanced(State())
    {
      hide Wf, CharInserted, SplitAll, SplitOk, Balanced, Anchored;
      left, right, pieces := 0, 0, [];
      ghost var a := State();
      var edited;
      edited, s, j := InsertInSegment(appendId, thisId, character);
      if edited.Err? {
        return Err(edited.error), left, right, s, j, pieces;
      }
      ghost var a1 := State();
      ghost var node' := nodes[edited.value];
      left, right, pieces := ConsiderSplit(edited.value, s, j);
      InsertSplitKeeps(a, a1, appendId, thisId, character, s, j, node', (State(), pieces));
      r := Ok(());
    }

    /**
     * `insert_character` of src/tree.rs: the insert and the split, nothing more.
     */
    method InsertCharacter(appendId: Id, thisId: Id, character: char) returns (r: Result<()>)
      requires Valid() && (appendId in idToNode ==> idToNode[appendId] in nodes)
      modifies this
      ensures r == Err(DuplicateId) <==> old(thisId in idToNode)
      ensures r == Err(UnknownId) <==> old(thisId !in idToNode && appendId !in idToNode)
      ensures r == Err(UnexpectedNodeType) <==> old(thisId !in idToNode && appendId in idToNode && !Anchored(State(), appendId))
      ensures r.Err? ==> unchanged(this)
      ensures r.Ok? ==> old(Anchored(State(), appendId)) && Valid() && root == old(root)
      ensures r.Ok? ==> CharInserted(old(State()), State(), appendId, thisId, character)
      ensures r.Ok? && old(Balanced(State())) ==> Balanced(State())
    {
      hide Wf, CharInserted, Balanced;
      var left, right;
      ghost var s, j, pieces;
      r, left, right, s, j, pieces := InsertAndSplit(appendId, thisId, character);
    }

    /**
     * `insert_character` of src/tree/sequence.rs: the insert and the split, then
     * `consider_join(left, false)` and `consider_join(right, false)` on the two ends of the
     * split. In a balanced tree neither join fires, so the second never addresses a segment
     * the first removed, and the tree stays balanced.
     */
    method InsertCharacterJoined(appendId: Id, thisId: Id, character: char) returns (r: Result<()>)
      requires Valid() && Balanced(State()) && (appendId in idToNode ==> idToNode[appendId] in nodes)
      modifies this
      ensures r == Err(DuplicateId) <==> old(thisId in idToNode)
      ensures r == Err(UnknownId) <==> old(thisId !in idToNode && appendId !in idToNode)
      ensures r == Err(UnexpectedNodeType) <==> old(thisId !in idToNode && appendId in idToNode && !Anchored(State(), appendId))
      ensures r.Err? ==> unchanged(this)
      ensures r.Ok? ==> old(Anchored(State(), appendId)) && Valid() && root == old(root)
      ensures r.Ok? ==> CharInserted(old(State()), State(), appendId, thisId, character)
      ensures Balanced(State())
    {
      hide Wf, CharInserted, Balanced;
      var left, right;
      ghost var s, j, pieces;
      r, left, right, s, j, pieces := InsertAndSplit(appendId, thisId, character);
      if r.Ok? {
        ghost var a := State();
        Neighbours(a, s, j);
        Neighbours(a, s, j + |pieces| - 1);
        BalancedNoJoin(a, s, j, false);
        ConsiderJoin(left, false, s, j);
        BalancedNoJoin(a, s, j + |pieces| - 1, false);
        ConsiderJoin(right, false, s, j + |pieces| - 1);
      }
    }

    /**
     * `delete_character`: the character `charId` becomes a tombstone; its id stays in its
     * segment's list so that it can still anchor inserts. Deleting a tombstone changes
     * nothing. An unknown id and an id of a node that is not a segment are refused.
     */
    method DeleteCharacter(charId: Id) returns (r: Result<()>)
      requires Valid() && (charId in idToNode ==> idToNode[charId] in nodes)
      modifies this
      ensures r == Err(UnknownId) <==> old(charId !in idToNode)
      ensures r == Err(UnexpectedNodeType) <==> old(charId in idToNode && !IsSegment(nodes, idToNode[charId]))
      ensures r.Err? ==> unchanged(this)
      ensures r.Ok? ==> Valid() && root == old(root) && CharDeleted(old(State()), State(), charId)
      ensures r.Ok? && old(Balanced(State())) ==> Balanced(State())
    {
      hide Wf, CharDeleted, Balanced;
      var found := LookupIdIndex(charId);
      if found.Err? {
        return Err(found.error);
      }
      var (nodeId, i) := found.value;
      ghost var a := State();
      var node := nodes[nodeId];
      var d := node.data;
      if d.ids[i].offset.Some? {
        var oldByteIndex := d.ids[i].offset.value;
        SegmentInRing(a, nodeId);
        OffsetInside(d.contents, d.ids, i);
        DeleteCanShift(d.contents, d.ids, i);
        var newIds := ShiftOffsets(d.ids[i := Entry(d.ids[i].id, None)], i, -1);
        var newNodes := nodes[nodeId := Node(StringSegment(d.prev, d.next, RemoveAt(d.contents, oldByteIndex), newIds), node.parent)];
        DeleteCharStep(a, charId, i, newNodes);
        nodes := newNodes;
        if Balanced(a) {
          BalancedGrow(a, State(), nodeId);
        }
      } else {
        DeleteCharStep(a, charId, i, nodes);
      }
      return Ok(());
    }

    /**
     * `delete(item)`: the worklist of `TreeDelete.DeleteNodes` removes a value node and, for a
     * string, every segment of its ring. Deleting a segment panics in the source, so `item`
     * is not one. The id map is left as it is: ids of removed nodes stay mapped.
     */
    method Delete(item: NodeId)
      requires Valid() && item in nodes && !nodes[item].data.StringSegment?
      modifies this
      ensures Valid() && root == old(root) && idToNode == old(idToNode) && nextNode == old(nextNode)
      ensures nodes == old(nodes) - Footprint(item, if item in old(strings) then old(strings[item]) else [])
      ensures strings == old(strings) - {item}
      ensures forall t :: t in strings ==> Elems(t) == old(Elems(t))
      ensures old(Balanced(State())) ==> Balanced(State())
    {
      hide Wf, Balanced;
      ghost var a := State();
      ghost var ss := if item in strings then strings[item] else [];
      DeleteWf(nodes, idToNode, nextNode, strings, item);
      DeleteKeepsCells(a, item);
      if Balanced(a) {
        DeleteBalanced(a, item);
      }
      var remaining := DeleteNodes(nodes, item, ss);
      nodes := remaining;
      strings := strings - {item};
    }
  }
}
