/**
 * The sequence edits of the JSON tree: `insert_character`, `delete_character`,
 * `insert_list_item` and `delete_list_item` (src/json/tree.rs:670-762). They hand the work to
 * `sequence::insert` and `sequence::delete`, which are modelled here after the string
 * sequence code of src/tree/sequence.rs: a duplicate-id check, the insertion-point or id
 * lookup, and the edit of one segment's contents and ids. A sequence keeps the one segment its
 * constructor made (there is no split or join here), so the segment an id lookup finds is
 * always the start of its container.
 */
module JsonSequences {
  import opened Common
  import opened Segments
  import opened JsonNodes
  import opened JsonOps
  import opened JsonAssign

  /** What the sequence lookups need: ids lead to their nodes and every segment is laid out. */
  ghost predicate SeqReady(t: Arena) {
    IdsMapped(t) && forall n :: n in t.nodes ==> LayoutOk(t.nodes, n)
  }

  lemma WfSeqReady(t: Arena)
    requires Wf(t)
    ensures SeqReady(t)
  {
    forall n | n in t.nodes ensures LayoutOk(t.nodes, n) {
      assert NodeOk(t, n);
    }
  }

  /** Where an edit lands: the segment, the offset in its contents, the index in its ids. */
  datatype Spot = Spot(node: NodeId, stringIndex: nat, listIndex: nat)

  predicate IsSegment(d: NodeData) {
    d.StringSegment? || d.ArraySegment?
  }

  /** The number of characters or slots a segment holds. */
  function SegmentLength(d: NodeData): nat
    requires IsSegment(d)
  {
    if d.StringSegment? then |d.contents| else |d.elements|
  }

  /** A laid-out segment of either kind satisfies the offset invariant on its length. */
  lemma SegmentOffsets(t: Arena, n: NodeId)
    requires SeqReady(t) && n in t.nodes && IsSegment(t.nodes[n].data)
    ensures OffsetsOk(Slots(SegmentLength(t.nodes[n].data)), t.nodes[n].data.ids)
    ensures DistinctIds(t.nodes[n].data.ids)
  {
    assert LayoutOk(t.nodes, n);
    var d := t.nodes[n].data;
    if d.StringSegment? {
      OffsetsOkLength(d.contents, Slots(|d.contents|), d.ids);
    }
  }

  /** A segment node answers to the ids of its entries. */
  lemma SegmentHasId(t: Arena, id: Id)
    requires SeqReady(t) && id in t.idToNode && IsSegment(t.nodes[t.idToNode[id]].data)
    ensures exists k :: 0 <= k < |t.nodes[t.idToNode[id]].data.ids| && t.nodes[t.idToNode[id]].data.ids[k].id == id
  {
    assert Owns(t.nodes[t.idToNode[id]].data, id);
  }

  /** A sequence's own id points before the first entry of its first segment. */
  lemma StartSpot(t: Arena, n: NodeId, isArray: bool)
    requires SeqReady(t) && n in t.nodes && IsSeqKind(t.nodes[n].data, isArray)
    ensures var st := t.nodes[n].data.start;
            && st in t.nodes && IsSegmentKind(t.nodes[st].data, isArray) && LiveCount(t.nodes[st].data.ids[..0]) == 0
  {
    assert LayoutOk(t.nodes, n);
    var st := t.nodes[n].data.start;
    assert t.nodes[st].data.ids[..0] == [];
  }

  /** An element's id points just past its first entry, at the live count of the entries up to it. */
  lemma AnchorSpot(t: Arena, id: Id, isArray: bool)
    requires SeqReady(t) && id in t.idToNode && IsSegmentKind(t.nodes[t.idToNode[id]].data, isArray)
    ensures var d := t.nodes[t.idToNode[id]].data;
            && FirstIndex(d.ids, id, 0).Some?
            && var li := FirstIndex(d.ids, id, 0).value + 1;
               && li <= |d.ids| && NextOffset(d.ids, li, SegmentLength(d)) == LiveCount(d.ids[..li])
               && LiveCount(d.ids[..li]) <= SegmentLength(d)
  {
    var n := t.idToNode[id];
    var d := t.nodes[n].data;
    SegmentHasId(t, id);
    var li := FirstIndex(d.ids, id, 0).value + 1;
    SegmentOffsets(t, n);
    NextOffsetIsLiveCount(Slots(SegmentLength(d)), d.ids, li);
    LiveCountMono(d.ids, li, |d.ids|);
    assert d.ids[..|d.ids|] == d.ids;
  }

  /**
   * `lookup_insertion_point`: a sequence's own id points before its first element; an
   * element's id points just past its entry, at the offset of the next live entry (or the end
   * of the contents). Any other id is of the wrong kind.
   */
  function LookupInsertionPoint(t: Arena, appendId: Id, isArray: bool): (r: Result<Spot>)
    requires SeqReady(t)
    ensures appendId !in t.idToNode ==> r == Err(UnknownId)
    ensures appendId in t.idToNode ==>
              var n := t.idToNode[appendId];
              var d := t.nodes[n].data;
              && (IsSeqKind(d, isArray) ==> r == Ok(Spot(d.start, 0, 0)))
              && (IsSegmentKind(d, isArray) ==>
                    && r.Ok? && r.value.node == n && 1 <= r.value.listIndex <= |d.ids|
                    && d.ids[r.value.listIndex - 1].id == appendId
                    && forall k :: 0 <= k < r.value.listIndex - 1 ==> d.ids[k].id != appendId)
              && (!IsSeqKind(d, isArray) && !IsSegmentKind(d, isArray) ==> r == Err(UnexpectedNodeType))
    ensures r.Ok? ==>
              var d := t.nodes[r.value.node].data;
              && r.value.node in t.nodes && IsSegmentKind(d, isArray)
              && r.value.listIndex <= |d.ids| && r.value.stringIndex == LiveCount(d.ids[..r.value.listIndex])
              && r.value.stringIndex <= SegmentLength(d)
  {
    match IdToNode(t, appendId)
    case Err(e) => Err(e)
    case Ok(n) =>
      var d := t.nodes[n].data;
      if IsSeqKind(d, isArray) then
        StartSpot(t, n, isArray);
        Ok(Spot(d.start, 0, 0))
      else if IsSegmentKind(d, isArray) then
        AnchorSpot(t, appendId, isArray);
        var li := FirstIndex(d.ids, appendId, 0).value + 1;
        Ok(Spot(n, NextOffset(d.ids, li, SegmentLength(d)), li))
      else
        Err(UnexpectedNodeType)
  }

  /** `lookup_id_index`: the segment holding an element's id and the index of its entry. */
  function LookupIdIndex(t: Arena, id: Id, isArray: bool): (r: Result<(NodeId, nat)>)
    requires SeqReady(t)
    ensures id !in t.idToNode ==> r == Err(UnknownId)
    ensures id in t.idToNode ==>
              var n := t.idToNode[id];
              && (IsSegmentKind(t.nodes[n].data, isArray) ==>
                    && r.Ok? && r.value.0 == n && r.value.1 < |t.nodes[n].data.ids|
                    && t.nodes[n].data.ids[r.value.1].id == id)
              && (!IsSegmentKind(t.nodes[n].data, isArray) ==> r == Err(UnexpectedNodeType))
  {
    match IdToNode(t, id)
    case Err(e) => Err(e)
    case Ok(n) =>
      var d := t.nodes[n].data;
      if IsSegmentKind(d, isArray) then
        SegmentHasId(t, id);
        Ok((n, FirstIndex(d.ids, id, 0).value))
      else
        Err(UnexpectedNodeType)
  }

  // ---------------------------------------------------------------------------------------
  // Characters

  /**
   * `insert_character`: a fresh id, a known anchor, then the character goes in at the lookup's
   * offset, later offsets move up one, and the new entry is mapped to the segment.
   */
  function InsertCharacter(t: Arena, appendId: Id, x: Id, ch: char): (Result<()>, Arena)
    requires Wf(t)
  {
    WfSeqReady(t);
    if x in t.idToNode then (Err(DuplicateId), t)
    else
      match LookupInsertionPoint(t, appendId, false)
      case Err(e) => (Err(e), t)
      case Ok(spot) =>
        var node := t.nodes[spot.node];
        var d := node.data;
        var d' := d.(contents := InsertAt(d.contents, spot.stringIndex, ch),
                     ids := InsertedIds(d.ids, spot.listIndex, Entry(x, Some(spot.stringIndex))));
        (Ok(()), t.(nodes := t.nodes[spot.node := node.(data := d')], idToNode := t.idToNode[x := spot.node]))
  }

  /**
   * `delete_character`: the entry of a live character loses its offset, the character leaves
   * the contents and later offsets move down one; a tombstone is left as it is.
   */
  function DeleteCharacter(t: Arena, id: Id): (Result<()>, Arena)
    requires Wf(t)
  {
    WfSeqReady(t);
    match LookupIdIndex(t, id, false)
    case Err(e) => (Err(e), t)
    case Ok((s, i)) =>
      var node := t.nodes[s];
      var d := node.data;
      if d.ids[i].offset.None? then (Ok(()), t)
      else
        SegmentOffsets(t, s);
        DeleteKeepsOffsets(Slots(|d.contents|), d.ids, i);
        var d' := d.(contents := RemoveAt(d.contents, d.ids[i].offset.value), ids := DeletedIds(d.ids, i));
        (Ok(()), t.(nodes := t.nodes[s := node.(data := d')]))
  }

  // ---------------------------------------------------------------------------------------
  // Array items

  /** The array an item inserted after `appendId` would belong to. */
  function ListTarget(t: Arena, appendId: Id): (r: Result<NodeId>)
    requires SeqReady(t)
    ensures r.Ok? ==> r.value in t.nodes && t.nodes[r.value].data.Array?
  {
    match IdToNode(t, appendId)
    case Err(e) => Err(e)
    case Ok(n) =>
      if t.nodes[n].data.Array? then Ok(n)
      else if t.nodes[n].data.ArraySegment? then
        assert LayoutOk(t.nodes, n);
        Ok(t.nodes[n].parent.value)
      else Err(UnexpectedNodeType)
  }

  /** The `sequence::insert` half of `insert_list_item`: `child` goes in as a new slot. */
  function InsertElement(t: Arena, appendId: Id, x: Id, child: Child): (Result<()>, Arena)
    requires SeqReady(t)
  {
    if x in t.idToNode then (Err(DuplicateId), t)
    else
      match LookupInsertionPoint(t, appendId, true)
      case Err(e) => (Err(e), t)
      case Ok(spot) =>
        var node := t.nodes[spot.node];
        var d := node.data;
        var d' := d.(elements := InsertAt(d.elements, spot.stringIndex, child),
                     ids := InsertedIds(d.ids, spot.listIndex, Entry(x, Some(spot.stringIndex))));
        (Ok(()), t.(nodes := t.nodes[spot.node := node.(data := d')], idToNode := t.idToNode[x := spot.node]))
  }

  /** Moving a collection under an array keeps the lookups' invariant. */
  lemma AttachKeepsSeqReady(t: Arena, c: NodeId, a: NodeId)
    requires SeqReady(t) && c in t.nodes && IsContainer(t.nodes[c].data)
    ensures SeqReady(Attach(t, c, a))
  {
    var t' := Attach(t, c, a);
    forall n | n in t'.nodes ensures LayoutOk(t'.nodes, n) {
      assert LayoutOk(t.nodes, n);
    }
  }

  /**
   * `insert_list_item` as the source orders it: an `Unset` item is a no-op, a collection is
   * reparented under the array first, and only then are the new id and the anchor checked;
   * the tree after a failed second half is the reparented one.
   */
  function InsertListItemSteps(t: Arena, appendId: Id, x: Id, value: Value): (Result<()>, Arena)
    requires Wf(t)
  {
    WfSeqReady(t);
    match ValueToChild(t, value)
    case Err(e) => (Err(e), t)
    case Ok(None) => (Ok(()), t)
    case Ok(Some(child)) =>
      if child.Collection? then
        match ListTarget(t, appendId)
        case Err(e) => (Err(e), t)
        case Ok(a) =>
          var (r, t1) := Reparent(t, child.node, a);
          if r.Err? then (Err(r.error), t1)
          else
            ReparentSpec(t, child.node, a);
            assert NodeOk(t, child.node);
            AttachKeepsSeqReady(t, child.node, a);
            InsertElement(t1, appendId, x, child)
      else
        InsertElement(t, appendId, x, child)
  }

  /** `insert_list_item`, corrected: the same results, but an error leaves the tree as it was. */
  function InsertListItem(t: Arena, appendId: Id, x: Id, value: Value): (Result<()>, Arena)
    requires Wf(t)
  {
    var (r, t') := InsertListItemSteps(t, appendId, x, value);
    if r.Err? then (r, t) else (r, t')
  }

  /** In a well-formed tree a collection in an array slot can be read back. */
  lemma ElementReadable(t: Arena, s: NodeId, k: nat)
    requires Wf(t) && s in t.nodes && t.nodes[s].data.ArraySegment? && k < |t.nodes[s].data.elements|
    ensures Readable(t, Some(t.nodes[s].data.elements[k]))
    ensures t.nodes[s].data.elements[k].Collection? ==> t.nodes[s].data.elements[k].node in t.nodes
  {
    assert NodeOk(t, s);
    var e := t.nodes[s].data.elements[k];
    if e.Collection? {
      assert ElementsOk(t.nodes, t.nodes[s].data.elements, t.nodes[s].parent.value);
      assert Owns(t.nodes[e.node].data, t.nodes[e.node].data.id);
    }
  }

  /**
   * `delete_list_item`: a live slot is removed and its entry left as a tombstone; a removed
   * collection becomes a parentless orphan; the removed value is returned (`Unset` for a
   * tombstone, which is left as it is).
   */
  function DeleteListItem(t: Arena, id: Id): (Result<Value>, Arena)
    requires Wf(t)
  {
    WfSeqReady(t);
    match LookupIdIndex(t, id, true)
    case Err(e) => (Err(e), t)
    case Ok((s, i)) =>
      var node := t.nodes[s];
      var d := node.data;
      if d.ids[i].offset.None? then (Ok(Value.Unset), t)
      else
        SegmentOffsets(t, s);
        DeleteKeepsOffsets(Slots(|d.elements|), d.ids, i);
        var off := d.ids[i].offset.value;
        var removed := d.elements[off];
        ElementReadable(t, s, off);
        var d' := d.(elements := RemoveAt(d.elements, off), ids := DeletedIds(d.ids, i));
        var t2 := t.(nodes := t.nodes[s := node.(data := d')]);
        var t3 := if removed.Collection? then MoveToOrphan(t2, removed.node) else t2;
        assert removed.Collection? ==> removed.node != s;
        assert Readable(t3, Some(removed));
        (Ok(ChildToValue(t3, Some(removed))), t3)
  }
}
