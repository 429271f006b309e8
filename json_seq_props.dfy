/**
 * What the sequence edits of src/json/tree.rs:670-762 do, stated on what a reader sees: the
 * cells of a string (characters and tombstones, in order) and the slots of an array (items
 * and tombstones, in order). Each edit reports the source's errors in the source's order,
 * leaves the tree unchanged on an error, and keeps it well formed.
 */
module JsonSequenceProps {
  import opened Common
  import opened Segments
  import Text
  import opened JsonNodes
  import opened JsonOps
  import opened JsonAssign
  import opened JsonSequences
  import opened JsonSequenceWf

  /** The container node `n` stands for: a segment's parent, or `n` itself. */
  function HomeOf(t: Arena, n: NodeId): NodeId
    requires n in t.nodes
  {
    if IsSegment(t.nodes[n].data) && t.nodes[n].parent.Some? then t.nodes[n].parent.value else n
  }

  /** The anchor of an insert after `appendId`: none when it names the sequence itself. */
  function AnchorOf(t: Arena, appendId: Id): Option<Id>
    requires appendId in t.idToNode && t.idToNode[appendId] in t.nodes
  {
    if IsContainer(t.nodes[t.idToNode[appendId]].data) then None else Some(appendId)
  }

  /** The cells of the string `n`: its segment's characters and tombstones. */
  ghost function StringCells(t: Arena, n: NodeId): seq<Cell> {
    if n in t.nodes && t.nodes[n].data.String? && t.nodes[n].data.start in t.nodes
       && t.nodes[t.nodes[n].data.start].data.StringSegment?
    then View(t.nodes[t.nodes[n].data.start].data.contents, t.nodes[t.nodes[n].data.start].data.ids)
    else []
  }

  /** An array slot as a reader sees it: its id, and its item unless it is a tombstone. */
  datatype Slot = Slot(id: Id, item: Option<Child>)

  function SlotOf(es: seq<Child>, e: Entry): Slot {
    Slot(e.id, if e.offset.Some? && e.offset.value < |es| then Some(es[e.offset.value]) else None)
  }

  /** The slots a segment stands for, in order. */
  function ElementView(es: seq<Child>, ids: seq<Entry>): (r: seq<Slot>)
    ensures |r| == |ids| && forall k :: 0 <= k < |ids| ==> r[k].id == ids[k].id
  {
    seq(|ids|, k requires 0 <= k < |ids| => SlotOf(es, ids[k]))
  }

  /** The slots of the array `n`. */
  ghost function ArraySlots(t: Arena, n: NodeId): seq<Slot> {
    if n in t.nodes && t.nodes[n].data.Array? && t.nodes[n].data.start in t.nodes
       && t.nodes[t.nodes[n].data.start].data.ArraySegment?
    then ElementView(t.nodes[t.nodes[n].data.start].data.elements, t.nodes[t.nodes[n].data.start].data.ids)
    else []
  }

  /** The position of the first slot with id `id`. */
  function SlotIndex(slots: seq<Slot>, id: Id): (r: Option<nat>)
    ensures r.Some? ==> r.value < |slots| && slots[r.value].id == id
    ensures r.Some? ==> forall k :: 0 <= k < r.value ==> slots[k].id != id
    ensures r.None? ==> forall k :: 0 <= k < |slots| ==> slots[k].id != id
  {
    if slots == [] then None
    else if slots[0].id == id then Some(0)
    else match SlotIndex(slots[1..], id)
      case None => None
      case Some(p) => Some(p + 1)
  }

  lemma {:induction false} SlotIndexAt(slots: seq<Slot>, id: Id, p: nat)
    requires p < |slots| && slots[p].id == id && forall k :: 0 <= k < p ==> slots[k].id != id
    ensures SlotIndex(slots, id) == Some(p)
  {
    if p != 0 {
      SlotIndexAt(slots[1..], id, p - 1);
    }
  }

  /** `insert_list_item` on slots: `x` goes right after the anchor (first for `None`). */
  function SlotsInsertAfter(slots: seq<Slot>, anchor: Option<Id>, x: Slot): (r: Option<seq<Slot>>)
    ensures anchor.None? ==> r == Some([x] + slots)
    ensures anchor.Some? ==> (r.None? <==> forall k :: 0 <= k < |slots| ==> slots[k].id != anchor.value)
    ensures r.Some? ==> |r.value| == |slots| + 1 && multiset(r.value) == multiset(slots) + multiset{x}
    ensures anchor.Some? && r.Some? ==>
              var p := SlotIndex(slots, anchor.value).value;
              r.value == slots[..p + 1] + [x] + slots[p + 1..]
  {
    match anchor
    case None => Some([x] + slots)
    case Some(a) =>
      match SlotIndex(slots, a)
      case None => None
      case Some(p) => Some(InsertAt(slots, p + 1, x))
  }

  /** With the anchor's first slot at `li - 1` (or no anchor and `li == 0`), the slot goes in at `li`. */
  lemma SlotsInsertAfterAt(slots: seq<Slot>, anchor: Option<Id>, x: Slot, li: nat)
    requires anchor.None? ==> li == 0
    requires anchor.Some? ==> && 1 <= li <= |slots| && slots[li - 1].id == anchor.value
                              && forall k :: 0 <= k < li - 1 ==> slots[k].id != anchor.value
    ensures li <= |slots| && SlotsInsertAfter(slots, anchor, x) == Some(InsertAt(slots, li, x))
  {
    if anchor.None? {
      assert InsertAt(slots, 0, x) == [x] + slots;
    } else {
      SlotIndexAt(slots, anchor.value, li - 1);
    }
  }

  /** `delete_list_item` on slots: the first slot with id `id` loses its item. */
  function SlotsTombstone(slots: seq<Slot>, id: Id): (r: Option<seq<Slot>>)
    ensures r.None? <==> forall k :: 0 <= k < |slots| ==> slots[k].id != id
    ensures r.Some? ==> |r.value| == |slots| && forall k :: 0 <= k < |slots| ==> r.value[k].id == slots[k].id
    ensures r.Some? ==> var p := SlotIndex(slots, id).value;
                        r.value[p].item.None? && forall k :: 0 <= k < |slots| && k != p ==> r.value[k] == slots[k]
  {
    match SlotIndex(slots, id)
    case None => None
    case Some(p) => Some(slots[p := Slot(id, None)])
  }

  // ---------------------------------------------------------------------------------------
  // Slot views of the array edits

  lemma InsertedSlotBefore(es: seq<Child>, ids: seq<Entry>, li: nat, e: Entry, child: Child, k: nat)
    requires ArrayOffsetsOk(es, ids) && k < li <= |ids| && LiveCount(ids[..li]) <= |es|
    ensures SlotOf(InsertAt(es, LiveCount(ids[..li]), child), InsertedIds(ids, li, e)[k]) == SlotOf(es, ids[k])
  {
    assert InsertedIds(ids, li, e)[k] == ids[k];
    if ids[k].offset.Some? {
      LiveCountStep(ids, k);
      LiveCountMono(ids, k + 1, li);
    }
  }

  lemma InsertedSlotAfter(es: seq<Child>, ids: seq<Entry>, li: nat, e: Entry, child: Child, k: nat)
    requires ArrayOffsetsOk(es, ids) && li < k <= |ids| && LiveCount(ids[..li]) <= |es|
    ensures SlotOf(InsertAt(es, LiveCount(ids[..li]), child), InsertedIds(ids, li, e)[k]) == SlotOf(es, ids[k - 1])
  {
    var si := LiveCount(ids[..li]);
    assert InsertedIds(ids, li, e)[k] == ShiftEntry(ids[k - 1], 1);
    if ids[k - 1].offset.Some? {
      var off := ids[k - 1].offset.value;
      LiveCountMono(ids, li, k - 1);
      OffsetInside(Slots(|es|), ids, k - 1);
      assert si <= off < |es|;
      assert InsertAt(es, si, child)[off + 1] == es[off];
    }
  }

  lemma InsertedSlot(es: seq<Child>, ids: seq<Entry>, li: nat, x: Id, child: Child, k: nat)
    requires ArrayOffsetsOk(es, ids) && li <= |ids| && k < |ids| + 1 && LiveCount(ids[..li]) <= |es|
    ensures SlotOf(InsertAt(es, LiveCount(ids[..li]), child), InsertedIds(ids, li, Entry(x, Some(LiveCount(ids[..li]))))[k])
         == InsertAt(ElementView(es, ids), li, Slot(x, Some(child)))[k]
  {
    var e := Entry(x, Some(LiveCount(ids[..li])));
    var v, sl := ElementView(es, ids), Slot(x, Some(child));
    if k < li {
      InsertedSlotBefore(es, ids, li, e, child, k);
      assert InsertAt(v, li, sl)[k] == v[k] == SlotOf(es, ids[k]);
    } else if k > li {
      InsertedSlotAfter(es, ids, li, e, child, k);
      assert InsertAt(v, li, sl)[k] == v[k - 1] == SlotOf(es, ids[k - 1]);
    } else {
      InsertedIdsAt(ids, li, e);
      assert InsertAt(v, li, sl)[k] == sl;
    }
  }

  /** Inserting an item at list index `li`, at the lookup's offset, inserts one live slot at `li`. */
  lemma InsertedSlots(es: seq<Child>, ids: seq<Entry>, li: nat, x: Id, child: Child)
    requires ArrayOffsetsOk(es, ids) && li <= |ids|
    ensures LiveCount(ids[..li]) <= |es|
    ensures ArrayOffsetsOk(InsertAt(es, LiveCount(ids[..li]), child), InsertedIds(ids, li, Entry(x, Some(LiveCount(ids[..li])))))
    ensures ElementView(InsertAt(es, LiveCount(ids[..li]), child), InsertedIds(ids, li, Entry(x, Some(LiveCount(ids[..li])))))
         == InsertAt(ElementView(es, ids), li, Slot(x, Some(child)))
  {
    var si := LiveCount(ids[..li]);
    InsertKeepsOffsets(Slots(|es|), ids, li, x, ' ');
    OffsetsOkLength(InsertAt(Slots(|es|), si, ' '), Slots(|es| + 1), InsertedIds(ids, li, Entry(x, Some(si))));
    var es' := InsertAt(es, si, child);
    var ins := InsertedIds(ids, li, Entry(x, Some(si)));
    forall k | 0 <= k < |ins| ensures ElementView(es', ins)[k] == InsertAt(ElementView(es, ids), li, Slot(x, Some(child)))[k] {
      InsertedSlot(es, ids, li, x, child, k);
    }
  }

  lemma DeletedSlot(es: seq<Child>, ids: seq<Entry>, i: nat, k: nat)
    requires ArrayOffsetsOk(es, ids) && i < |ids| && ids[i].offset.Some? && k < |ids|
    ensures ids[i].offset.value < |es|
    ensures CanShift(ids[i := Entry(ids[i].id, None)], i, -1)
    ensures SlotOf(RemoveAt(es, ids[i].offset.value), DeletedIds(ids, i)[k])
         == ElementView(es, ids)[i := Slot(ids[i].id, None)][k]
  {
    OffsetInside(Slots(|es|), ids, i);
    DeleteCanShift(Slots(|es|), ids, i);
    var off := ids[i].offset.value;
    var v := ElementView(es, ids)[i := Slot(ids[i].id, None)];
    assert |v| == |ids|;
    if k < i {
      assert DeletedIds(ids, i)[k] == ids[k] && v[k] == SlotOf(es, ids[k]);
      if ids[k].offset.Some? {
        LiveCountStep(ids, k);
        LiveCountMono(ids, k + 1, i);
        assert RemoveAt(es, off)[ids[k].offset.value] == es[ids[k].offset.value];
      }
    } else if k > i {
      assert v[k] == SlotOf(es, ids[k]);
      if ids[k].offset.Some? {
        LiveCountStep(ids, i);
        LiveCountMono(ids, i + 1, k);
        OffsetInside(Slots(|es|), ids, k);
        assert DeletedIds(ids, i)[k] == Entry(ids[k].id, Some(ids[k].offset.value - 1));
        assert RemoveAt(es, off)[ids[k].offset.value - 1] == es[ids[k].offset.value];
      } else {
        assert DeletedIds(ids, i)[k] == ids[k];
      }
    } else {
      assert DeletedIds(ids, i)[k] == Entry(ids[i].id, None) && v[k] == Slot(ids[i].id, None);
    }
  }

  /** Removing the item of the live entry at `i` turns exactly that slot into a tombstone. */
  lemma DeletedSlots(es: seq<Child>, ids: seq<Entry>, i: nat)
    requires ArrayOffsetsOk(es, ids) && i < |ids| && ids[i].offset.Some?
    ensures ids[i].offset.value < |es|
    ensures CanShift(ids[i := Entry(ids[i].id, None)], i, -1)
    ensures ArrayOffsetsOk(RemoveAt(es, ids[i].offset.value), DeletedIds(ids, i))
    ensures ElementView(RemoveAt(es, ids[i].offset.value), DeletedIds(ids, i)) == ElementView(es, ids)[i := Slot(ids[i].id, None)]
  {
    DeleteKeepsOffsets(Slots(|es|), ids, i);
    var off := ids[i].offset.value;
    OffsetsOkLength(RemoveAt(Slots(|es|), off), Slots(|es| - 1), DeletedIds(ids, i));
    var d := DeletedIds(ids, i);
    DeletedIdsAt(ids, i);
    forall k | 0 <= k < |d| ensures ElementView(RemoveAt(es, off), d)[k] == ElementView(es, ids)[i := Slot(ids[i].id, None)][k] {
      DeletedSlot(es, ids, i, k);
    }
  }

  // ---------------------------------------------------------------------------------------
  // Ids of an edited segment

  /** The ids of a segment's entries after an insert: the old ones and the inserted one. */
  lemma InsertedIdsHave(ids: seq<Entry>, li: nat, e: Entry, id: Id)
    requires li <= |ids|
    ensures var ids' := InsertedIds(ids, li, e);
            (exists k :: 0 <= k < |ids'| && ids'[k].id == id) <==> (exists k :: 0 <= k < |ids| && ids[k].id == id) || id == e.id
  {
    InsertedIdsAt(ids, li, e);
    var ids' := InsertedIds(ids, li, e);
    if k :| 0 <= k < |ids| && ids[k].id == id {
      if k < li {
        assert ids'[k].id == id;
      } else {
        assert ids'[k + 1].id == id;
      }
    }
    if k :| 0 <= k < |ids'| && ids'[k].id == id && id != e.id {
      if k < li {
        assert ids[k].id == id;
      } else {
        assert k != li && ids[k - 1].id == id;
      }
    }
    if id == e.id {
      assert ids'[li].id == id;
    }
  }

  /** The segment answers to its old ids and the inserted one. */
  lemma InsertedOwns(d: NodeData, d': NodeData, li: nat, e: Entry)
    requires IsSegment(d) && IsSegment(d') && li <= |d.ids| && d'.ids == InsertedIds(d.ids, li, e)
    ensures forall id :: Owns(d', id) <==> Owns(d, id) || id == e.id
  {
    forall id ensures Owns(d', id) <==> Owns(d, id) || id == e.id {
      InsertedIdsHave(d.ids, li, e, id);
    }
  }

  /** A tombstoned segment answers to the same ids. */
  lemma DeletedOwns(d: NodeData, d': NodeData, i: nat)
    requires IsSegment(d) && IsSegment(d') && i < |d.ids| && CanShift(d.ids[i := Entry(d.ids[i].id, None)], i, -1)
    requires d'.ids == DeletedIds(d.ids, i)
    ensures forall id :: Owns(d', id) <==> Owns(d, id)
  {
    DeletedIdsAt(d.ids, i);
    forall id ensures Owns(d', id) <==> Owns(d, id) {
      if Owns(d, id) {
        var k :| 0 <= k < |d.ids| && d.ids[k].id == id;
        assert d'.ids[k].id == id;
      }
      if Owns(d', id) {
        var k :| 0 <= k < |d'.ids| && d'.ids[k].id == id;
        assert d.ids[k].id == id;
      }
    }
  }

  /** An id no node answers to is in no segment's entries. */
  lemma FreshNotInSegment(t: Arena, s: NodeId, x: Id)
    requires Wf(t) && s in t.nodes && IsSegment(t.nodes[s].data) && x !in t.idToNode
    ensures forall k :: 0 <= k < |t.nodes[s].data.ids| ==> t.nodes[s].data.ids[k].id != x
  {
    forall k | 0 <= k < |t.nodes[s].data.ids| ensures t.nodes[s].data.ids[k].id != x {
      assert Owns(t.nodes[s].data, t.nodes[s].data.ids[k].id);
    }
  }

  // ---------------------------------------------------------------------------------------
  // Characters

  /** A character insert that passes its checks is a segment edit. */
  lemma InsertCharacterIsEdit(t: Arena, appendId: Id, x: Id, ch: char)
    requires Wf(t) && InsertCharacter(t, appendId, x, ch).0.Ok?
    ensures SeqReady(t) && LookupInsertionPoint(t, appendId, false).Ok?
    ensures var spot := LookupInsertionPoint(t, appendId, false).value;
            var s := spot.node;
            var d := t.nodes[s].data;
            var d' := d.(contents := InsertAt(d.contents, spot.stringIndex, ch),
                         ids := InsertedIds(d.ids, spot.listIndex, Entry(x, Some(spot.stringIndex))));
            && SegEditPre(t, s, d', Some(x), None, None)
            && SegEditShape(t, InsertCharacter(t, appendId, x, ch).1, s, d', Some(x), None, None)
            && View(d'.contents, d'.ids) == InsertAt(View(d.contents, d.ids), spot.listIndex, Cell(x, Some(ch)))
  {
    WfSeqReady(t);
    var spot := LookupInsertionPoint(t, appendId, false).value;
    var s := spot.node;
    var d := t.nodes[s].data;
    var e := Entry(x, Some(spot.stringIndex));
    var d' := d.(contents := InsertAt(d.contents, spot.stringIndex, ch), ids := InsertedIds(d.ids, spot.listIndex, e));
    WfNode(t, s);
    InsertKeepsOffsets(d.contents, d.ids, spot.listIndex, x, ch);
    FreshNotInSegment(t, s, x);
    InsertedIdsDistinct(d.ids, spot.listIndex, e);
    InsertedOwns(d, d', spot.listIndex, e);
  }

  /** The string an edit after `appendId` changes, and the cells it changes them to. */
  lemma InsertCharacterCells(t: Arena, appendId: Id, x: Id, ch: char)
    requires Wf(t) && InsertCharacter(t, appendId, x, ch).0.Ok?
    ensures appendId in t.idToNode && t.idToNode[appendId] in t.nodes
    ensures var n := HomeOf(t, t.idToNode[appendId]);
            var t' := InsertCharacter(t, appendId, x, ch).1;
            && n in t.nodes && t.nodes[n].data.String?
            && Text.InsertAfter(StringCells(t, n), AnchorOf(t, appendId), Cell(x, Some(ch))) == Some(StringCells(t', n))
            && forall m :: m != n ==> StringCells(t', m) == StringCells(t, m)
  {
    InsertCharacterIsEdit(t, appendId, x, ch);
    hide Wf;
    var t' := InsertCharacter(t, appendId, x, ch).1;
    var a := t.idToNode[appendId];
    var spot := LookupInsertionPoint(t, appendId, false).value;
    var s := spot.node;
    SegEditFacts(t, s, t'.nodes[s].data, Some(x), None, None);
    var n := HomeOf(t, a);
    assert n == t.nodes[s].parent.value by {
      WfNode(t, a);
    }
    var d := t.nodes[s].data;
    var cells := View(d.contents, d.ids);
    assert StringCells(t, n) == cells;
    LookupAnchor(t, appendId, false);
    CellsInsertAfterIds(d.contents, d.ids, AnchorOf(t, appendId), Cell(x, Some(ch)), spot.listIndex);
    InsertCharacterOthers(t, appendId, x, ch, n);
  }

  /** `CellsInsertAfterAt`, with the anchor located among a segment's entries. */
  lemma CellsInsertAfterIds(contents: seq<char>, ids: seq<Entry>, anchor: Option<Id>, x: Cell, li: nat)
    requires anchor.None? ==> li == 0
    requires anchor.Some? ==> && 1 <= li <= |ids| && ids[li - 1].id == anchor.value
                              && forall k :: 0 <= k < li - 1 ==> ids[k].id != anchor.value
    ensures var cells := View(contents, ids);
            li <= |cells| && Text.InsertAfter(cells, anchor, x) == Some(InsertAt(cells, li, x))
  {
    var cells := View(contents, ids);
    assert |cells| == |ids| && forall k :: 0 <= k < |ids| ==> cells[k].id == ids[k].id;
    CellsInsertAfterAt(cells, anchor, x, li);
  }

  /** With the anchor's first cell at `li - 1` (or no anchor and `li == 0`), the cell goes in at `li`. */
  lemma CellsInsertAfterAt(cells: seq<Cell>, anchor: Option<Id>, x: Cell, li: nat)
    requires anchor.None? ==> li == 0
    requires anchor.Some? ==> && 1 <= li <= |cells| && cells[li - 1].id == anchor.value
                              && forall k :: 0 <= k < li - 1 ==> cells[k].id != anchor.value
    ensures li <= |cells| && Text.InsertAfter(cells, anchor, x) == Some(InsertAt(cells, li, x))
  {
    if anchor.Some? {
      Text.IndexOfAt(cells, anchor.value, li - 1);
    }
  }

  /** An edit of one string's segment leaves every other string as it was. */
  lemma InsertCharacterOthers(t: Arena, appendId: Id, x: Id, ch: char, n: NodeId)
    requires Wf(t) && InsertCharacter(t, appendId, x, ch).0.Ok?
    requires SeqReady(t) && LookupInsertionPoint(t, appendId, false).Ok?
    requires t.nodes[LookupInsertionPoint(t, appendId, false).value.node].parent == Some(n)
    ensures forall m :: m != n ==> StringCells(InsertCharacter(t, appendId, x, ch).1, m) == StringCells(t, m)
  {
    InsertCharacterIsEdit(t, appendId, x, ch);
    var t' := InsertCharacter(t, appendId, x, ch).1;
    var s := LookupInsertionPoint(t, appendId, false).value.node;
    forall m | m != n ensures StringCells(t', m) == StringCells(t, m) {
      SegStringCellsKept(t, t', s, t'.nodes[s].data, Some(x), m);
    }
  }

  /** A character edit of segment `s` leaves the cells of every string but the one holding `s`. */
  lemma SegStringCellsKept(t: Arena, t': Arena, s: NodeId, d': NodeData, x: Option<Id>, m: NodeId)
    requires SegEditPre(t, s, d', x, None, None) && SegEditShape(t, t', s, d', x, None, None)
    requires m != t.nodes[s].parent.value
    ensures StringCells(t', m) == StringCells(t, m)
  {
    if m in t.nodes && t.nodes[m].data.String? {
      SegStartUntouched(t, t', s, d', x, None, None, m);
    }
  }

  /**
   * `insert_character`: a taken id is `DuplicateId`, an unknown anchor `UnknownId`, an anchor
   * that is neither a string nor a character `UnexpectedNodeType`; an error changes nothing.
   * Otherwise the character is the anchor's string's new cell right after the anchor (first,
   * for the string's own id), every other string is unchanged, and the tree stays well formed.
   */
  lemma InsertCharacterSpec(t: Arena, appendId: Id, x: Id, ch: char)
    requires Wf(t)
    ensures var (r, t') := InsertCharacter(t, appendId, x, ch);
            && (r.Err? ==> t' == t)
            && (x in t.idToNode ==> r == Err(DuplicateId))
            && (x !in t.idToNode && appendId !in t.idToNode ==> r == Err(UnknownId))
            && (x !in t.idToNode && appendId in t.idToNode ==>
                  var d := t.nodes[t.idToNode[appendId]].data;
                  (r.Ok? <==> d.String? || d.StringSegment?) && (!d.String? && !d.StringSegment? ==> r == Err(UnexpectedNodeType)))
            && (r.Ok? ==> Wf(t') && appendId in t.idToNode && t.idToNode[appendId] in t.nodes
                          && var n := HomeOf(t, t.idToNode[appendId]);
                             && Text.InsertAfter(StringCells(t, n), AnchorOf(t, appendId), Cell(x, Some(ch))) == Some(StringCells(t', n))
                             && (forall m :: m != n ==> StringCells(t', m) == StringCells(t, m)))
  {
    WfSeqReady(t);
    var (r, t') := InsertCharacter(t, appendId, x, ch);
    if r.Ok? {
      InsertCharacterIsEdit(t, appendId, x, ch);
      var spot := LookupInsertionPoint(t, appendId, false).value;
      SegEditWf(t, t', spot.node, t'.nodes[spot.node].data, Some(x), None, None);
      InsertCharacterCells(t, appendId, x, ch);
    }
  }

  /** A character delete of a live cell is a segment edit. */
  lemma DeleteCharacterIsEdit(t: Arena, id: Id)
    requires Wf(t)
    requires SeqReady(t) && LookupIdIndex(t, id, false).Ok?
    requires var (s, i) := LookupIdIndex(t, id, false).value; t.nodes[s].data.ids[i].offset.Some?
    ensures var (s, i) := LookupIdIndex(t, id, false).value;
            var d := t.nodes[s].data;
            && OffsetsOk(d.contents, d.ids) && d.ids[i].offset.value < |d.contents|
            && CanShift(d.ids[i := Entry(d.ids[i].id, None)], i, -1)
            && var d' := d.(contents := RemoveAt(d.contents, d.ids[i].offset.value), ids := DeletedIds(d.ids, i));
               && SegEditPre(t, s, d', None, None, None)
               && SegEditShape(t, DeleteCharacter(t, id).1, s, d', None, None, None)
               && View(d'.contents, d'.ids) == View(d.contents, d.ids)[i := Cell(id, None)]
  {
    var (s, i) := LookupIdIndex(t, id, false).value;
    var d := t.nodes[s].data;
    assert NodeOk(t, s);
    DeleteKeepsOffsets(d.contents, d.ids, i);
    var d' := d.(contents := RemoveAt(d.contents, d.ids[i].offset.value), ids := DeletedIds(d.ids, i));
    DeletedIdsDistinct(d.ids, i);
    DeletedOwns(d, d', i);
  }

  /**
   * `delete_character`: an unknown id is `UnknownId`, an id that is not a character's
   * `UnexpectedNodeType`, and an error changes nothing. Otherwise the character's cell in its
   * string becomes a tombstone (a tombstone stays one), other strings are unchanged, and the
   * tree stays well formed.
   */
  lemma DeleteCharacterSpec(t: Arena, id: Id)
    requires Wf(t)
    ensures var (r, t') := DeleteCharacter(t, id);
            && (r.Err? ==> t' == t)
            && (id !in t.idToNode ==> r == Err(UnknownId))
            && (id in t.idToNode ==>
                  var d := t.nodes[t.idToNode[id]].data;
                  (r.Ok? <==> d.StringSegment?) && (!d.StringSegment? ==> r == Err(UnexpectedNodeType)))
            && (r.Ok? ==> Wf(t') && id in t.idToNode && t.idToNode[id] in t.nodes
                          && var n := HomeOf(t, t.idToNode[id]);
                             && Text.Tombstone(StringCells(t, n), id) == Some(StringCells(t', n))
                             && (forall m :: m != n ==> StringCells(t', m) == StringCells(t, m)))
  {
    WfSeqReady(t);
    var (r, t') := DeleteCharacter(t, id);
    if r.Ok? {
      DeleteCharacterOk(t, id);
    }
  }

  /** The success case of `DeleteCharacterSpec`. */
  lemma DeleteCharacterOk(t: Arena, id: Id)
    requires Wf(t) && DeleteCharacter(t, id).0.Ok?
    ensures var t' := DeleteCharacter(t, id).1;
            && Wf(t') && id in t.idToNode && t.idToNode[id] in t.nodes
            && var n := HomeOf(t, t.idToNode[id]);
               && Text.Tombstone(StringCells(t, n), id) == Some(StringCells(t', n))
               && (forall m :: m != n ==> StringCells(t', m) == StringCells(t, m))
  {
    hide NodeOk;
    WfSeqReady(t);
    var t' := DeleteCharacter(t, id).1;
    var (s, i) := LookupIdIndex(t, id, false).value;
    var d := t.nodes[s].data;
    assert NodeOk(t, s);
    var n := t.nodes[s].parent.value;
    assert HomeOf(t, t.idToNode[id]) == n;
    assert StringCells(t, n) == View(d.contents, d.ids);
    var cells := View(d.contents, d.ids);
    assert forall k :: 0 <= k < i ==> d.ids[k].id != id by {
      assert DistinctIds(d.ids);
    }
    Text.IndexOfAt(cells, id, i);
    if d.ids[i].offset.Some? {
      DeleteCharacterIsEdit(t, id);
      var d' := t'.nodes[s].data;
      SegEditWf(t, t', s, d', None, None, None);
    } else {
      assert cells[i := Cell(id, None)] == cells;
    }
    DeleteCharacterOthers(t, id, n);
  }

  /** A deleted character leaves every other string as it was. */
  lemma DeleteCharacterOthers(t: Arena, id: Id, n: NodeId)
    requires Wf(t) && DeleteCharacter(t, id).0.Ok?
    requires SeqReady(t) && LookupIdIndex(t, id, false).Ok?
    requires t.nodes[LookupIdIndex(t, id, false).value.0].parent == Some(n)
    ensures forall m :: m != n ==> StringCells(DeleteCharacter(t, id).1, m) == StringCells(t, m)
  {
    var t' := DeleteCharacter(t, id).1;
    var (s, i) := LookupIdIndex(t, id, false).value;
    if t.nodes[s].data.ids[i].offset.Some? {
      DeleteCharacterIsEdit(t, id);
      var d' := t'.nodes[s].data;
      forall m | m != n ensures StringCells(t', m) == StringCells(t, m) {
        if m in t.nodes && t.nodes[m].data.String? {
          SegStartUntouched(t, t', s, d', None, None, None, m);
        }
      }
    }
  }

  // ---------------------------------------------------------------------------------------
  // Array items

  lemma InsertAtMembers<E>(s: seq<E>, i: nat, x: E)
    requires i <= |s|
    ensures forall y :: y in InsertAt(s, i, x) <==> y in s || y == x
  {
    forall y ensures y in InsertAt(s, i, x) <==> y in s || y == x {
      assert y in InsertAt(s, i, x) <==> y in multiset(InsertAt(s, i, x));
      assert y in s <==> y in multiset(s);
    }
  }

  /** Removing a slot's item takes out that collection and no other. */
  lemma RemoveAtMoves(es: seq<Child>, off: nat)
    requires off < |es| && ElementsDistinct(es)
    ensures ElementsDistinct(RemoveAt(es, off))
    ensures ElementsMoved(es, RemoveAt(es, off), None, CollectionIn(Some(es[off])))
  {
    var r := RemoveAt(es, off);
    forall y: NodeId ensures Child.Collection(y) in r <==> Child.Collection(y) in es && Some(y) != CollectionIn(Some(es[off])) {
      if Child.Collection(y) in r {
        var k :| 0 <= k < |r| && r[k] == Child.Collection(y);
        var j := if k < off then k else k + 1;
        assert es[j] == Child.Collection(y);
        assert Some(y) != CollectionIn(Some(es[off])) by {
          if j < off {
            assert es[j] != es[off];
          } else {
            assert es[off] != es[j];
          }
        }
      }
      if Child.Collection(y) in es && Some(y) != CollectionIn(Some(es[off])) {
        var j :| 0 <= j < |es| && es[j] == Child.Collection(y);
        assert j != off;
        if j < off {
          assert r[j] == es[j];
        } else {
          assert r[j - 1] == es[j];
        }
      }
    }
    forall i, j | 0 <= i < j < |r| && r[i].Collection? ensures r[i] != r[j] {
      var i' := if i < off then i else i + 1;
      var j' := if j < off then j else j + 1;
      assert es[i'] != es[j'];
    }
  }

  /** Inserting an item that is no collection already in the slots keeps them distinct. */
  lemma InsertAtDistinct(es: seq<Child>, si: nat, child: Child)
    requires si <= |es| && ElementsDistinct(es) && (child.Collection? ==> child !in es)
    ensures ElementsDistinct(InsertAt(es, si, child))
  {
    var r := InsertAt(es, si, child);
    forall i, j | 0 <= i < j < |r| && r[i].Collection? ensures r[i] != r[j] {
      if i == si {
        assert r[j] == es[j - 1];
      } else if j == si {
        assert r[i] == es[i];
      } else {
        var i' := if i < si then i else i - 1;
        var j' := if j < si then j else j - 1;
        assert r[i] == es[i'] && r[j] == es[j'];
      }
    }
  }

  /** Moving a collection's parent link changes no lookup. */
  lemma LookupAfterAttach(t: Arena, c: NodeId, a: NodeId, appendId: Id)
    requires SeqReady(t) && c in t.nodes && IsContainer(t.nodes[c].data)
    ensures SeqReady(Attach(t, c, a))
    ensures LookupInsertionPoint(Attach(t, c, a), appendId, true) == LookupInsertionPoint(t, appendId, true)
  {
    AttachKeepsSeqReady(t, c, a);
  }

  /** The segment an item inserted after `appendId` goes into hangs from the target array. */
  lemma ListTargetIsHome(t: Arena, appendId: Id)
    requires Wf(t) && ListTarget(t, appendId).Ok?
    ensures SeqReady(t) && LookupInsertionPoint(t, appendId, true).Ok?
    ensures var s := LookupInsertionPoint(t, appendId, true).value.node;
            s in t.nodes && t.nodes[s].parent == Some(ListTarget(t, appendId).value)
  {
    WfSeqReady(t);
    var n := t.idToNode[appendId];
    assert NodeOk(t, n);
  }

  /** A collection inserted into an array is first attached to the array, then slotted in. */
  lemma CollectionInsertUnfold(t: Arena, appendId: Id, x: Id, value: Value)
    requires Wf(t) && InsertListItem(t, appendId, x, value).0.Ok? && ValueToChild(t, value).Ok?
    requires ValueToChild(t, value).value.Some? && ValueToChild(t, value).value.value.Collection?
    ensures SeqReady(t) && ListTarget(t, appendId).Ok?
    ensures var c := ValueToChild(t, value).value.value.node;
            var a := ListTarget(t, appendId).value;
            && c in t.nodes && IsContainer(t.nodes[c].data) && Movable(t, Some(c), a)
            && SeqReady(Attach(t, c, a))
            && InsertListItem(t, appendId, x, value) == InsertElement(Attach(t, c, a), appendId, x, ValueToChild(t, value).value.value)
            && LookupInsertionPoint(Attach(t, c, a), appendId, true) == LookupInsertionPoint(t, appendId, true)
  {
    WfSeqReady(t);
    var child := ValueToChild(t, value).value.value;
    var a := ListTarget(t, appendId).value;
    ReparentSpec(t, child.node, a);
    assert NodeOk(t, child.node);
    LookupAfterAttach(t, child.node, a, appendId);
    if exists j: nat :: Up(t.nodes, Some(a), j) == Some(child.node) {
      EditWouldCauseCycleFor(t, child.node, a);
    }
  }

  /** The state a successful `InsertElement` leaves. */
  lemma InsertElementResult(t: Arena, appendId: Id, x: Id, child: Child)
    requires SeqReady(t) && InsertElement(t, appendId, x, child).0.Ok?
    ensures x !in t.idToNode && LookupInsertionPoint(t, appendId, true).Ok?
    ensures var spot := LookupInsertionPoint(t, appendId, true).value;
            var s := spot.node;
            var d := t.nodes[s].data;
            var d' := d.(elements := InsertAt(d.elements, spot.stringIndex, child),
                         ids := InsertedIds(d.ids, spot.listIndex, Entry(x, Some(spot.stringIndex))));
            && s in t.nodes && t.nodes[s].parent.Some?
            && InsertElement(t, appendId, x, child).1 == t.(nodes := t.nodes[s := Node(d', t.nodes[s].parent)], idToNode := t.idToNode[x := s])
  {
    var spot := LookupInsertionPoint(t, appendId, true).value;
    assert LayoutOk(t.nodes, spot.node);
  }

  /** Attaching `c` under the segment's container and then editing the segment is one segment edit. */
  lemma AttachEditShape(t: Arena, c: NodeId, s: NodeId, d': NodeData, x: Id)
    requires c in t.nodes && s in t.nodes && c != s && t.nodes[s].parent.Some?
    ensures var t1 := Attach(t, c, t.nodes[s].parent.value);
            SegEditShape(t, t1.(nodes := t1.nodes[s := Node(d', t1.nodes[s].parent)], idToNode := t1.idToNode[x := s]),
                         s, d', Some(x), Some(c), None)
  {
  }

  /** Editing the segment alone is one segment edit. */
  lemma PlainEditShape(t: Arena, s: NodeId, d': NodeData, x: Id)
    requires s in t.nodes
    ensures SegEditShape(t, t.(nodes := t.nodes[s := Node(d', t.nodes[s].parent)], idToNode := t.idToNode[x := s]),
                         s, d', Some(x), None, None)
  {
  }

  /** The tree after an array insert that passes its checks: one segment edit. */
  lemma InsertListItemShape(t: Arena, appendId: Id, x: Id, value: Value)
    requires Wf(t) && InsertListItem(t, appendId, x, value).0.Ok? && value != Value.Unset
    ensures SeqReady(t) && ValueToChild(t, value).Ok? && ValueToChild(t, value).value.Some?
    ensures LookupInsertionPoint(t, appendId, true).Ok? && x !in t.idToNode
    ensures var child := ValueToChild(t, value).value.value;
            var spot := LookupInsertionPoint(t, appendId, true).value;
            var s := spot.node;
            var d := t.nodes[s].data;
            var d' := d.(elements := InsertAt(d.elements, spot.stringIndex, child),
                         ids := InsertedIds(d.ids, spot.listIndex, Entry(x, Some(spot.stringIndex))));
            && s in t.nodes && t.nodes[s].parent.Some?
            && Movable(t, CollectionIn(Some(child)), t.nodes[s].parent.value)
            && SegEditShape(t, InsertListItem(t, appendId, x, value).1, s, d', Some(x), CollectionIn(Some(child)), None)
  {
    WfSeqReady(t);
    var child := ValueToChild(t, value).value.value;
    if child.Collection? {
      CollectionInsertUnfold(t, appendId, x, value);
      ListTargetIsHome(t, appendId);
      var a := ListTarget(t, appendId).value;
      InsertElementResult(Attach(t, child.node, a), appendId, x, child);
      var spot := LookupInsertionPoint(t, appendId, true).value;
      var d := t.nodes[spot.node].data;
      var d' := d.(elements := InsertAt(d.elements, spot.stringIndex, child),
                   ids := InsertedIds(d.ids, spot.listIndex, Entry(x, Some(spot.stringIndex))));
      assert spot.node != child.node;
      AttachEditShape(t, child.node, spot.node, d', x);
    } else {
      assert InsertListItem(t, appendId, x, value) == InsertElement(t, appendId, x, child);
      InsertElementResult(t, appendId, x, child);
      var spot := LookupInsertionPoint(t, appendId, true).value;
      var d := t.nodes[spot.node].data;
      var d' := d.(elements := InsertAt(d.elements, spot.stringIndex, child),
                   ids := InsertedIds(d.ids, spot.listIndex, Entry(x, Some(spot.stringIndex))));
      PlainEditShape(t, spot.node, d', x);
    }
  }

  /** An array insert that passes its checks is a segment edit, moving a collection in. */
  lemma InsertListItemIsEdit(t: Arena, appendId: Id, x: Id, value: Value)
    requires Wf(t) && InsertListItem(t, appendId, x, value).0.Ok? && value != Value.Unset
    ensures SeqReady(t) && ValueToChild(t, value).Ok? && ValueToChild(t, value).value.Some?
    ensures LookupInsertionPoint(t, appendId, true).Ok?
    ensures var child := ValueToChild(t, value).value.value;
            var spot := LookupInsertionPoint(t, appendId, true).value;
            var s := spot.node;
            var d := t.nodes[s].data;
            var d' := d.(elements := InsertAt(d.elements, spot.stringIndex, child),
                         ids := InsertedIds(d.ids, spot.listIndex, Entry(x, Some(spot.stringIndex))));
            && SegEditPre(t, s, d', Some(x), CollectionIn(Some(child)), None)
            && SegEditShape(t, InsertListItem(t, appendId, x, value).1, s, d', Some(x), CollectionIn(Some(child)), None)
            && ElementView(d'.elements, d'.ids) == InsertAt(ElementView(d.elements, d.ids), spot.listIndex, Slot(x, Some(child)))
  {
    InsertListItemShape(t, appendId, x, value);
    var child := ValueToChild(t, value).value.value;
    var spot := LookupInsertionPoint(t, appendId, true).value;
    ArrayInsertPre(t, spot.node, spot.listIndex, spot.stringIndex, x, child);
  }

  /**
   * Putting `child` in slot `li` of the array segment `s`, under the fresh id `x`, is a segment
   * edit that keeps the invariant, and its slots are the old ones with the new slot at `li`.
   */
  lemma ArrayInsertPre(t: Arena, s: NodeId, li: nat, si: nat, x: Id, child: Child)
    requires Wf(t) && s in t.nodes && t.nodes[s].data.ArraySegment? && t.nodes[s].parent.Some?
    requires li <= |t.nodes[s].data.ids| && si == LiveCount(t.nodes[s].data.ids[..li]) && si <= |t.nodes[s].data.elements|
    requires x !in t.idToNode && Movable(t, CollectionIn(Some(child)), t.nodes[s].parent.value)
    ensures var d := t.nodes[s].data;
            var d' := d.(elements := InsertAt(d.elements, si, child), ids := InsertedIds(d.ids, li, Entry(x, Some(si))));
            && SegEditPre(t, s, d', Some(x), CollectionIn(Some(child)), None)
            && ElementView(d'.elements, d'.ids) == InsertAt(ElementView(d.elements, d.ids), li, Slot(x, Some(child)))
  {
    var d := t.nodes[s].data;
    var e := Entry(x, Some(si));
    assert NodeOk(t, s);
    assert LayoutOk(t.nodes, s);
    InsertedSlots(d.elements, d.ids, li, x, child);
    var d' := d.(elements := InsertAt(d.elements, si, child), ids := InsertedIds(d.ids, li, e));
    FreshNotInSegment(t, s, x);
    InsertedIdsDistinct(d.ids, li, e);
    InsertedOwns(d, d', li, e);
    InsertAtMembers(d.elements, si, child);
    if child.Collection? {
      assert ElementsOk(t.nodes, d.elements, t.nodes[s].parent.value);
      forall i | 0 <= i < |d.elements| ensures d.elements[i] != child {
        if d.elements[i].Collection? {
          assert Attached(t.nodes, d.elements[i].node, t.nodes[s].parent.value);
        }
      }
    }
    InsertAtDistinct(d.elements, si, child);
  }

  /** The array an item inserted after an array or element id goes into. */
  lemma ListTargetHome(t: Arena, appendId: Id)
    requires Wf(t) && appendId in t.idToNode
    requires var d := t.nodes[t.idToNode[appendId]].data; d.Array? || d.ArraySegment?
    ensures SeqReady(t) && ListTarget(t, appendId) == Ok(HomeOf(t, t.idToNode[appendId]))
  {
    WfSeqReady(t);
    assert NodeOk(t, t.idToNode[appendId]);
  }

  /**
   * `insert_list_item`'s errors, in the source's order: an unknown collection is `UnknownId`
   * and `Unset` inserts nothing. A collection is checked against the anchor (`UnknownId`,
   * `UnexpectedNodeType`) and moved under the array (`NodeAlreadyHadParent`,
   * `EditWouldCauseCycle`) before the new id is checked (`DuplicateId`); a scalar has its new id
   * checked first. The insert succeeds exactly when every check passes; an error changes nothing.
   */
  lemma InsertListItemErrors(t: Arena, appendId: Id, x: Id, value: Value)
    requires Wf(t)
    ensures var (r, t') := InsertListItem(t, appendId, x, value);
            && (r.Err? ==> t' == t)
            && (ValueToChild(t, value).Err? ==> r == Err(UnknownId))
            && (value == Value.Unset ==> r == Ok(()) && t' == t)
            && (ValueToChild(t, value).Ok? && value != Value.Unset ==>
                  var child := ValueToChild(t, value).value.value;
                  var listy := appendId in t.idToNode && t.idToNode[appendId] in t.nodes
                               && (t.nodes[t.idToNode[appendId]].data.Array? || t.nodes[t.idToNode[appendId]].data.ArraySegment?);
                  && (appendId !in t.idToNode && (child.Collection? || x !in t.idToNode) ==> r == Err(UnknownId))
                  && (appendId in t.idToNode && !listy && (child.Collection? || x !in t.idToNode) ==> r == Err(UnexpectedNodeType))
                  && (!child.Collection? && x in t.idToNode ==> r == Err(DuplicateId))
                  && (child.Collection? && listy ==>
                        var c := child.node;
                        var a := HomeOf(t, t.idToNode[appendId]);
                        && c in t.nodes
                        && (t.nodes[c].parent.Some? ==> r == Err(NodeAlreadyHadParent))
                        && (t.nodes[c].parent.None? && c !in t.orphans && (forall j: nat :: Up(t.nodes, Some(a), j) != Some(c))
                            ==> r == Err(NodeAlreadyHadParent))
                        && (t.nodes[c].parent.None? && (exists j: nat :: Up(t.nodes, Some(a), j) == Some(c))
                            ==> r == Err(EditWouldCauseCycle))
                        && (Movable(t, Some(c), a) && x in t.idToNode ==> r == Err(DuplicateId)))
                  && (r.Ok? <==> && x !in t.idToNode && listy
                                 && (child.Collection? ==> Movable(t, Some(child.node), HomeOf(t, t.idToNode[appendId])))))
  {
    WfSeqReady(t);
    var (r, t') := InsertListItem(t, appendId, x, value);
    if ValueToChild(t, value).Ok? && value != Value.Unset {
      var child := ValueToChild(t, value).value.value;
      if child.Collection? && appendId in t.idToNode {
        var n := t.idToNode[appendId];
        if t.nodes[n].data.Array? || t.nodes[n].data.ArraySegment? {
          InsertListItemMoved(t, appendId, x, value, child.node, HomeOf(t, n));
        }
      } else if r.Ok? {
        InsertListItemShape(t, appendId, x, value);
      }
    }
  }

  /** `insert_list_item` of collection `c` into the array `a` that `appendId` lies in. */
  lemma InsertListItemMoved(t: Arena, appendId: Id, x: Id, value: Value, c: NodeId, a: NodeId)
    requires Wf(t) && ValueToChild(t, value) == Ok(Some(Child.Collection(c)))
    requires appendId in t.idToNode && t.idToNode[appendId] in t.nodes
    requires t.nodes[t.idToNode[appendId]].data.Array? || t.nodes[t.idToNode[appendId]].data.ArraySegment?
    requires a == HomeOf(t, t.idToNode[appendId])
    ensures var (r, t') := InsertListItem(t, appendId, x, value);
            && c in t.nodes
            && (t.nodes[c].parent.Some? ==> r == Err(NodeAlreadyHadParent))
            && (t.nodes[c].parent.None? && c !in t.orphans && (forall j: nat :: Up(t.nodes, Some(a), j) != Some(c))
                ==> r == Err(NodeAlreadyHadParent))
            && (t.nodes[c].parent.None? && (exists j: nat :: Up(t.nodes, Some(a), j) == Some(c))
                ==> r == Err(EditWouldCauseCycle))
            && (Movable(t, Some(c), a) && x in t.idToNode ==> r == Err(DuplicateId))
            && (r.Ok? <==> x !in t.idToNode && Movable(t, Some(c), a))
  {
    WfSeqReady(t);
    var (r, t') := InsertListItem(t, appendId, x, value);
    ListTargetHome(t, appendId);
    ReparentSpec(t, c, a);
    if t.nodes[c].parent.None? && exists j: nat :: Up(t.nodes, Some(a), j) == Some(c) {
      EditWouldCauseCycleFor(t, c, a);
    }
    var (r1, t1) := Reparent(t, c, a);
    if r1.Ok? {
      assert NodeOk(t, c);
      LookupAfterAttach(t, c, a, appendId);
    } else {
      assert InsertListItemSteps(t, appendId, x, value) == (Err(r1.error), t1);
    }
    if r.Ok? {
      InsertListItemShape(t, appendId, x, value);
      CollectionInsertUnfold(t, appendId, x, value);
    }
  }

  /** A successful `insert_list_item` keeps the tree well formed. */
  lemma InsertListItemKeepsWf(t: Arena, appendId: Id, x: Id, value: Value)
    requires Wf(t) && InsertListItem(t, appendId, x, value).0.Ok? && value != Value.Unset
    ensures Wf(InsertListItem(t, appendId, x, value).1)
  {
    hide InsertListItem, InsertListItemSteps, InsertElement;
    InsertListItemIsEdit(t, appendId, x, value);
    var child := ValueToChild(t, value).value.value;
    var spot := LookupInsertionPoint(t, appendId, true).value;
    var t' := InsertListItem(t, appendId, x, value).1;
    SegEditWf(t, t', spot.node, t'.nodes[spot.node].data, Some(x), CollectionIn(Some(child)), None);
  }

  /** The array a successful `insert_list_item` writes to is the home of the anchor's node. */
  lemma InsertListItemHome(t: Arena, appendId: Id, x: Id, value: Value)
    requires Wf(t) && InsertListItem(t, appendId, x, value).0.Ok? && value != Value.Unset
    ensures SeqReady(t) && ValueToChild(t, value).Ok? && ValueToChild(t, value).value.Some?
    ensures appendId in t.idToNode && t.idToNode[appendId] in t.nodes && LookupInsertionPoint(t, appendId, true).Ok?
    ensures var s := LookupInsertionPoint(t, appendId, true).value.node;
            var n := HomeOf(t, t.idToNode[appendId]);
            && s in t.nodes && t.nodes[s].parent == Some(n) && n in t.nodes && t.nodes[n].data.Array?
  {
    hide InsertListItem, InsertListItemSteps, InsertElement;
    InsertListItemIsEdit(t, appendId, x, value);
    var s := LookupInsertionPoint(t, appendId, true).value.node;
    assert NodeOk(t, s);
    assert NodeOk(t, t.idToNode[appendId]);
  }

  /** The new slot of a successful `insert_list_item` sits right after the anchor. */
  lemma InsertListItemSlots(t: Arena, appendId: Id, x: Id, value: Value)
    requires Wf(t) && InsertListItem(t, appendId, x, value).0.Ok? && value != Value.Unset
    ensures var t' := InsertListItem(t, appendId, x, value).1;
            && ValueToChild(t, value).Ok? && ValueToChild(t, value).value.Some?
            && appendId in t.idToNode && t.idToNode[appendId] in t.nodes
            && var child := ValueToChild(t, value).value.value;
               var n := HomeOf(t, t.idToNode[appendId]);
               && n in t.nodes && t.nodes[n].data.Array?
               && SlotsInsertAfter(ArraySlots(t, n), AnchorOf(t, appendId), Slot(x, Some(child))) == Some(ArraySlots(t', n))
  {
    hide InsertListItem, InsertListItemSteps, InsertElement, Wf, LookupInsertionPoint, SegEditPre, SegEditShape;
    InsertListItemHome(t, appendId, x, value);
    var t' := InsertListItem(t, appendId, x, value).1;
    InsertListItemIsEdit(t, appendId, x, value);
    var child := ValueToChild(t, value).value.value;
    var spot := LookupInsertionPoint(t, appendId, true).value;
    var s := spot.node;
    var a := t.idToNode[appendId];
    var n := HomeOf(t, a);
    SegEditFacts(t, s, t'.nodes[s].data, Some(x), CollectionIn(Some(child)), None);
    var d := t.nodes[s].data;
    var slots := ElementView(d.elements, d.ids);
    var d' := d.(elements := InsertAt(d.elements, spot.stringIndex, child),
                 ids := InsertedIds(d.ids, spot.listIndex, Entry(x, Some(spot.stringIndex))));
    var slot := Slot(x, Some(child));
    assert ArraySlots(t, n) == slots;
    assert ArraySlots(t', n) == InsertAt(slots, spot.listIndex, slot) by {
      assert t'.nodes[n] == t.nodes[n];
      assert t'.nodes[s].data == d';
    }
    LookupAnchor(t, appendId, true);
    SlotsInsertAfterIds(d.elements, d.ids, AnchorOf(t, appendId), slot, spot.listIndex);
  }

  /** `SlotsInsertAfterAt`, with the anchor located among a segment's entries. */
  lemma SlotsInsertAfterIds(es: seq<Child>, ids: seq<Entry>, anchor: Option<Id>, x: Slot, li: nat)
    requires anchor.None? ==> li == 0
    requires anchor.Some? ==> && 1 <= li <= |ids| && ids[li - 1].id == anchor.value
                              && forall k :: 0 <= k < li - 1 ==> ids[k].id != anchor.value
    ensures var slots := ElementView(es, ids);
            li <= |slots| && SlotsInsertAfter(slots, anchor, x) == Some(InsertAt(slots, li, x))
  {
    SlotsInsertAfterAt(ElementView(es, ids), anchor, x, li);
  }

  /**
   * The anchor of a lookup: none for a sequence's own id, which points at list index 0;
   * otherwise the id's first entry sits just before the list index.
   */
  lemma LookupAnchor(t: Arena, appendId: Id, isArray: bool)
    requires SeqReady(t) && LookupInsertionPoint(t, appendId, isArray).Ok?
    ensures appendId in t.idToNode && t.idToNode[appendId] in t.nodes
    ensures var spot := LookupInsertionPoint(t, appendId, isArray).value;
            var ids := t.nodes[spot.node].data.ids;
            var an := AnchorOf(t, appendId);
            && (an.None? ==> spot.listIndex == 0)
            && (an.Some? ==> && 1 <= spot.listIndex <= |ids| && ids[spot.listIndex - 1].id == an.value
                             && forall k :: 0 <= k < spot.listIndex - 1 ==> ids[k].id != an.value)
  {
  }

  /** A successful `insert_list_item` leaves every other array as it was. */
  lemma InsertListItemOthers(t: Arena, appendId: Id, x: Id, value: Value)
    requires Wf(t) && InsertListItem(t, appendId, x, value).0.Ok? && value != Value.Unset
    ensures var t' := InsertListItem(t, appendId, x, value).1;
            && appendId in t.idToNode
            && forall m :: m != HomeOf(t, t.idToNode[appendId]) ==> ArraySlots(t', m) == ArraySlots(t, m)
  {
    hide InsertListItem, InsertListItemSteps, InsertElement, Wf;
    InsertListItemHome(t, appendId, x, value);
    var t' := InsertListItem(t, appendId, x, value).1;
    InsertListItemIsEdit(t, appendId, x, value);
    var child := ValueToChild(t, value).value.value;
    var c := CollectionIn(Some(child));
    var s := LookupInsertionPoint(t, appendId, true).value.node;
    var d' := t'.nodes[s].data;
    var n := HomeOf(t, t.idToNode[appendId]);
    forall m | m != n ensures ArraySlots(t', m) == ArraySlots(t, m) {
      SegArraySlotsKept(t, t', s, d', Some(x), c, m);
    }
  }

  /** An edit of segment `s` that moves no collection out leaves the slots of every array but the one holding `s`. */
  lemma SegArraySlotsKept(t: Arena, t': Arena, s: NodeId, d': NodeData, x: Option<Id>, c: Option<NodeId>, m: NodeId)
    requires SegEditPre(t, s, d', x, c, None) && SegEditShape(t, t', s, d', x, c, None)
    requires m != t.nodes[s].parent.value
    ensures ArraySlots(t', m) == ArraySlots(t, m)
  {
    if m in t.nodes && t.nodes[m].data.Array? {
      SegStartUntouched(t, t', s, d', x, c, None, m);
      assert t'.nodes[m].data == t.nodes[m].data;
    }
  }

  /**
   * A successful `insert_list_item` of a value other than `Unset`: the item is the array's new
   * slot right after the anchor (first, for the array's own id), every other array is
   * unchanged, and the tree stays well formed.
   */
  lemma InsertListItemResult(t: Arena, appendId: Id, x: Id, value: Value)
    requires Wf(t) && InsertListItem(t, appendId, x, value).0.Ok? && value != Value.Unset
    ensures var t' := InsertListItem(t, appendId, x, value).1;
            && Wf(t') && ValueToChild(t, value).Ok? && ValueToChild(t, value).value.Some?
            && appendId in t.idToNode && t.idToNode[appendId] in t.nodes
            && var child := ValueToChild(t, value).value.value;
               var n := HomeOf(t, t.idToNode[appendId]);
               && n in t.nodes && t.nodes[n].data.Array?
               && SlotsInsertAfter(ArraySlots(t, n), AnchorOf(t, appendId), Slot(x, Some(child))) == Some(ArraySlots(t', n))
               && (forall m :: m != n ==> ArraySlots(t', m) == ArraySlots(t, m))
  {
    hide InsertListItem, InsertListItemSteps, InsertElement, Wf;
    InsertListItemKeepsWf(t, appendId, x, value);
    InsertListItemSlots(t, appendId, x, value);
    InsertListItemOthers(t, appendId, x, value);
  }

  /** A collection keeps its data and id through an edit, so it reads back the same. */
  lemma ChildToValueKept(t: Arena, t': Arena, c: Option<Child>)
    requires Readable(t, c) && t'.idToNode == t.idToNode
    requires c.Some? && c.value.Collection? ==> c.value.node in t'.nodes && t'.nodes[c.value.node].data == t.nodes[c.value.node].data
    ensures Readable(t', c) && ChildToValue(t', c) == ChildToValue(t, c)
  {
  }

  /** After a successful `insert_list_item` an inserted collection's parent is the array. */
  lemma InsertListItemParent(t: Arena, appendId: Id, x: Id, value: Value)
    requires Wf(t) && InsertListItem(t, appendId, x, value).0.Ok? && value != Value.Unset
    ensures var t' := InsertListItem(t, appendId, x, value).1;
            && Wf(t') && appendId in t.idToNode && HomeOf(t, t.idToNode[appendId]) in t.nodes
            && ((value.Object? || value.Array? || value.String?) ==>
                  GetParent(t', value.id) == Ok(Some(t.nodes[HomeOf(t, t.idToNode[appendId])].data.id)))
  {
    hide InsertListItem, InsertListItemSteps, InsertElement, Wf;
    InsertListItemKeepsWf(t, appendId, x, value);
    InsertListItemHome(t, appendId, x, value);
    var t' := InsertListItem(t, appendId, x, value).1;
    InsertListItemIsEdit(t, appendId, x, value);
    var child := ValueToChild(t, value).value.value;
    var c := CollectionIn(Some(child));
    var s := LookupInsertionPoint(t, appendId, true).value.node;
    var d' := t'.nodes[s].data;
    var n := HomeOf(t, t.idToNode[appendId]);
    if value.Object? || value.Array? || value.String? {
      SegEditFacts(t, s, d', Some(x), c, None);
      assert t'.nodes[n].data.id == t.nodes[n].data.id;
      assert t'.idToNode[value.id] == c.value;
    }
  }

  /** After a successful `insert_list_item` a well-typed value reads back from its slot as itself. */
  lemma InsertListItemReadBack(t: Arena, appendId: Id, x: Id, value: Value)
    requires Wf(t) && InsertListItem(t, appendId, x, value).0.Ok? && value != Value.Unset && WellTyped(t, value)
    ensures var t' := InsertListItem(t, appendId, x, value).1;
            && ValueToChild(t, value).Ok? && ValueToChild(t, value).value.Some?
            && Readable(t', ValueToChild(t, value).value) && ChildToValue(t', ValueToChild(t, value).value) == value
  {
    hide InsertListItem, InsertListItemSteps, InsertElement, Wf, NodeOk, SegEditPre;
    var t' := InsertListItem(t, appendId, x, value).1;
    InsertListItemIsEdit(t, appendId, x, value);
    var child := ValueToChild(t, value).value.value;
    var c := CollectionIn(Some(child));
    var s := LookupInsertionPoint(t, appendId, true).value.node;
    var d' := t'.nodes[s].data;
    ValueChildRoundTrip(t, value);
    if c.Some? {
      SegEditFacts(t, s, d', Some(x), c, None);
      assert t.nodes[c.value].data.id != x;
    }
    ReadableKept(t, t', child);
  }

  /** Removing a collection from its slot and then orphaning it is one segment edit. */
  lemma DetachEditShape(t: Arena, s: NodeId, d': NodeData, p: NodeId)
    requires s in t.nodes && p in t.nodes && p != s
    ensures SegEditShape(t, MoveToOrphan(t.(nodes := t.nodes[s := t.nodes[s].(data := d')]), p), s, d', None, None, Some(p))
  {
  }

  /** An array delete of a live slot is a segment edit, moving a removed collection out. */
  lemma DeleteListItemIsEdit(t: Arena, id: Id)
    requires Wf(t) && SeqReady(t) && LookupIdIndex(t, id, true).Ok?
    requires var (s, i) := LookupIdIndex(t, id, true).value; t.nodes[s].data.ids[i].offset.Some?
    ensures var (s, i) := LookupIdIndex(t, id, true).value;
            var d := t.nodes[s].data;
            && ArrayOffsetsOk(d.elements, d.ids) && d.ids[i].offset.value < |d.elements|
            && CanShift(d.ids[i := Entry(d.ids[i].id, None)], i, -1)
            && var off := d.ids[i].offset.value;
               var d' := d.(elements := RemoveAt(d.elements, off), ids := DeletedIds(d.ids, i));
               && SegEditPre(t, s, d', None, None, CollectionIn(Some(d.elements[off])))
               && SegEditShape(t, DeleteListItem(t, id).1, s, d', None, None, CollectionIn(Some(d.elements[off])))
               && ElementView(d'.elements, d'.ids) == ElementView(d.elements, d.ids)[i := Slot(id, None)]
               && Readable(t, Some(d.elements[off]))
               && DeleteListItem(t, id).0 == Ok(ChildToValue(t, Some(d.elements[off])))
  {
    var (s, i) := LookupIdIndex(t, id, true).value;
    ArrayDeletePre(t, s, i);
    var d := t.nodes[s].data;
    var off := d.ids[i].offset.value;
    var d' := d.(elements := RemoveAt(d.elements, off), ids := DeletedIds(d.ids, i));
    var removed := d.elements[off];
    var t2 := t.(nodes := t.nodes[s := t.nodes[s].(data := d')]);
    if removed.Collection? {
      DetachEditShape(t, s, d', removed.node);
      ChildToValueKept(t, MoveToOrphan(t2, removed.node), Some(removed));
    } else {
      ChildToValueKept(t, t2, Some(removed));
    }
  }

  /**
   * Emptying the live slot `i` of the array segment `s` is a segment edit that keeps the
   * invariant: the slot becomes a tombstone, and its item can be read and is held by the array.
   */
  lemma ArrayDeletePre(t: Arena, s: NodeId, i: nat)
    requires Wf(t) && s in t.nodes && t.nodes[s].data.ArraySegment?
    requires i < |t.nodes[s].data.ids| && t.nodes[s].data.ids[i].offset.Some?
    ensures var d := t.nodes[s].data;
            && t.nodes[s].parent.Some?
            && ArrayOffsetsOk(d.elements, d.ids) && d.ids[i].offset.value < |d.elements|
            && CanShift(d.ids[i := Entry(d.ids[i].id, None)], i, -1)
            && var off := d.ids[i].offset.value;
               var d' := d.(elements := RemoveAt(d.elements, off), ids := DeletedIds(d.ids, i));
               && SegEditPre(t, s, d', None, None, CollectionIn(Some(d.elements[off])))
               && ElementView(d'.elements, d'.ids) == ElementView(d.elements, d.ids)[i := Slot(d.ids[i].id, None)]
               && Readable(t, Some(d.elements[off]))
               && (d.elements[off].Collection? ==> Attached(t.nodes, d.elements[off].node, t.nodes[s].parent.value))
  {
    var d := t.nodes[s].data;
    assert NodeOk(t, s);
    assert LayoutOk(t.nodes, s);
    DeletedSlots(d.elements, d.ids, i);
    var off := d.ids[i].offset.value;
    var d' := d.(elements := RemoveAt(d.elements, off), ids := DeletedIds(d.ids, i));
    DeletedIdsDistinct(d.ids, i);
    DeletedOwns(d, d', i);
    assert ElementsOk(t.nodes, d.elements, t.nodes[s].parent.value);
    RemoveAtMoves(d.elements, off);
    ElementReadable(t, s, off);
  }

  /** The slot a live array element's id names, and its item, before the delete. */
  lemma DeleteListItemSlot(t: Arena, id: Id)
    requires Wf(t) && SeqReady(t) && LookupIdIndex(t, id, true).Ok?
    ensures var (s, i) := LookupIdIndex(t, id, true).value;
            var d := t.nodes[s].data;
            && id in t.idToNode && t.idToNode[id] in t.nodes && s in t.nodes
            && t.nodes[s].parent == Some(HomeOf(t, t.idToNode[id]))
            && ArraySlots(t, HomeOf(t, t.idToNode[id])) == ElementView(d.elements, d.ids)
            && SlotIndex(ArraySlots(t, HomeOf(t, t.idToNode[id])), id) == Some(i)
  {
    var (s, i) := LookupIdIndex(t, id, true).value;
    var d := t.nodes[s].data;
    assert NodeOk(t, s);
    var n := t.nodes[s].parent.value;
    assert HomeOf(t, t.idToNode[id]) == n;
    var slots := ElementView(d.elements, d.ids);
    assert ArraySlots(t, n) == slots;
    assert forall k :: 0 <= k < i ==> slots[k].id != id by {
      assert DistinctIds(d.ids);
    }
    SlotIndexAt(slots, id, i);
  }

  /** Deleting a live array element turns its slot into a tombstone and keeps the tree well formed. */
  lemma DeleteListItemLiveSlot(t: Arena, id: Id)
    requires Wf(t) && SeqReady(t) && LookupIdIndex(t, id, true).Ok?
    requires var (s, i) := LookupIdIndex(t, id, true).value; t.nodes[s].data.ids[i].offset.Some?
    ensures var (r, t') := DeleteListItem(t, id);
            && Wf(t') && id in t.idToNode && t.idToNode[id] in t.nodes
            && var n := HomeOf(t, t.idToNode[id]);
               && SlotsTombstone(ArraySlots(t, n), id) == Some(ArraySlots(t', n))
  {
    hide DeleteListItem;
    DeleteListItemSlot(t, id);
    DeleteListItemIsEdit(t, id);
    var t' := DeleteListItem(t, id).1;
    var (s, i) := LookupIdIndex(t, id, true).value;
    var d := t.nodes[s].data;
    var off := d.ids[i].offset.value;
    var p := CollectionIn(Some(d.elements[off]));
    var d' := t'.nodes[s].data;
    SegEditWf(t, t', s, d', None, None, p);
    SegEditFacts(t, s, d', None, None, p);
  }

  /** Deleting a live array element leaves every other array as it was. */
  lemma DeleteListItemLiveOthers(t: Arena, id: Id)
    requires Wf(t) && SeqReady(t) && LookupIdIndex(t, id, true).Ok?
    requires var (s, i) := LookupIdIndex(t, id, true).value; t.nodes[s].data.ids[i].offset.Some?
    ensures var t' := DeleteListItem(t, id).1;
            && id in t.idToNode
            && forall m :: m != HomeOf(t, t.idToNode[id]) ==> ArraySlots(t', m) == ArraySlots(t, m)
  {
    hide DeleteListItem, Wf;
    DeleteListItemSlot(t, id);
    DeleteListItemIsEdit(t, id);
    var t' := DeleteListItem(t, id).1;
    var (s, i) := LookupIdIndex(t, id, true).value;
    var d := t.nodes[s].data;
    var n := t.nodes[s].parent.value;
    var off := d.ids[i].offset.value;
    var p := CollectionIn(Some(d.elements[off]));
    var d' := t'.nodes[s].data;
    forall m | m != n ensures ArraySlots(t', m) == ArraySlots(t, m) {
      if m in t.nodes && t.nodes[m].data.Array? {
        SegStartUntouched(t, t', s, d', None, None, p, m);
        assert t'.nodes[m].data == t.nodes[m].data;
      }
    }
  }

  /** Deleting a live array element returns its item, and a removed collection becomes an orphan. */
  lemma DeleteListItemLiveItem(t: Arena, id: Id)
    requires Wf(t) && SeqReady(t) && LookupIdIndex(t, id, true).Ok?
    requires var (s, i) := LookupIdIndex(t, id, true).value; t.nodes[s].data.ids[i].offset.Some?
    ensures var (r, t') := DeleteListItem(t, id);
            && id in t.idToNode && t.idToNode[id] in t.nodes
            && var n := HomeOf(t, t.idToNode[id]);
               && SlotIndex(ArraySlots(t, n), id).Some?
               && var item := ArraySlots(t, n)[SlotIndex(ArraySlots(t, n), id).value].item;
                  && Readable(t, item) && r == Ok(ChildToValue(t, item))
                  && (CollectionIn(item).Some? ==>
                        var p := CollectionIn(item).value;
                        p in t'.nodes && t'.nodes[p].parent.None? && p in t'.orphans)
  {
    hide DeleteListItem, Wf;
    DeleteListItemSlot(t, id);
    DeleteListItemIsEdit(t, id);
    var t' := DeleteListItem(t, id).1;
    var (s, i) := LookupIdIndex(t, id, true).value;
    var d := t.nodes[s].data;
    var off := d.ids[i].offset.value;
    var p := CollectionIn(Some(d.elements[off]));
    var d' := t'.nodes[s].data;
    SegEditFacts(t, s, d', None, None, p);
  }

  /**
   * `delete_list_item`: an unknown id is `UnknownId`, an id that is not an array element's
   * `UnexpectedNodeType`, and an error changes nothing. Otherwise the element's slot becomes a
   * tombstone (a tombstone stays one), other arrays are unchanged, the result is the item the
   * slot held (`Unset` for a tombstone), a removed collection becomes a parentless orphan, and
   * the tree stays well formed.
   */
  lemma DeleteListItemSpec(t: Arena, id: Id)
    requires Wf(t)
    ensures var (r, t') := DeleteListItem(t, id);
            && (r.Err? ==> t' == t)
            && (id !in t.idToNode ==> r == Err(UnknownId))
            && (id in t.idToNode ==>
                  var d := t.nodes[t.idToNode[id]].data;
                  (r.Ok? <==> d.ArraySegment?) && (!d.ArraySegment? ==> r == Err(UnexpectedNodeType)))
            && (r.Ok? ==> Wf(t') && id in t.idToNode && t.idToNode[id] in t.nodes
                          && var n := HomeOf(t, t.idToNode[id]);
                             && SlotsTombstone(ArraySlots(t, n), id) == Some(ArraySlots(t', n))
                             && (forall m :: m != n ==> ArraySlots(t', m) == ArraySlots(t, m))
                             && SlotIndex(ArraySlots(t, n), id).Some?
                             && var item := ArraySlots(t, n)[SlotIndex(ArraySlots(t, n), id).value].item;
                                && Readable(t, item) && r.value == ChildToValue(t, item)
                                && (CollectionIn(item).Some? ==>
                                      var p := CollectionIn(item).value;
                                      p in t'.nodes && t'.nodes[p].parent.None? && p in t'.orphans))
  {
    WfSeqReady(t);
    var (r, t') := DeleteListItem(t, id);
    if r.Ok? {
      var (s, i) := LookupIdIndex(t, id, true).value;
      if t.nodes[s].data.ids[i].offset.Some? {
        DeleteListItemLiveSlot(t, id);
        DeleteListItemLiveOthers(t, id);
        DeleteListItemLiveItem(t, id);
      } else {
        DeleteListItemSlot(t, id);
        var d := t.nodes[s].data;
        var slots := ElementView(d.elements, d.ids);
        assert slots[i].item.None?;
        assert slots[i := Slot(id, None)] == slots;
      }
    }
  }
}
