/**
 * `insert_character` and `delete_character` of src/tree.rs on values: which string a
 * character id addresses, and what the two operations promise that string's cells, in terms
 * of `Text.InsertAfter` and `Text.Tombstone`. The step lemmas take the source's own edit of
 * one segment (and, for an insert, the `consider_split` that follows) to those promises.
 */
module CharEdits {
  import opened Common
  import opened Segments
  import opened TreeNodes
  import opened TreeEdits
  import opened Text
  import opened Lookups
  import opened Splits
  import opened SplitJoin
  import opened Balance

  /** `id` is mapped to a node that is a string or a segment: an anchor an insert accepts. */
  ghost predicate Anchored(a: Arena, id: Id) {
    id in a.idToNode && (IsString(a.nodes, a.idToNode[id]) || IsSegment(a.nodes, a.idToNode[id]))
  }

  /** The string a character anchored at `id` joins: the string itself, or the segment's parent. */
  ghost function AnchorString(a: Arena, id: Id): NodeId
    requires Anchored(a, id)
  {
    Owner(a.nodes, a.idToNode[id])
  }

  /** The anchor among the cells: none (insert first) for a string, the id for a character. */
  ghost function AnchorOf(a: Arena, id: Id): Option<Id>
    requires Anchored(a, id)
  {
    if IsString(a.nodes, a.idToNode[id]) then None else Some(id)
  }

  /**
   * `b` is `a` after inserting `Cell(x, ch)` after the anchor `anchorId`: that string's cells
   * are those of `InsertAfter`, every other string keeps its cells, and no string is added.
   */
  ghost predicate CharInserted(a: Arena, b: Arena, anchorId: Id, x: Id, ch: char)
    requires Anchored(a, anchorId)
  {
    var s := AnchorString(a, anchorId);
    && s in a.strings && b.strings.Keys == a.strings.Keys
    && InsertAfter(Elements(a.nodes, a.strings[s]), AnchorOf(a, anchorId), Cell(x, Some(ch))) == Some(Elements(b.nodes, b.strings[s]))
    && forall t :: t in a.strings && t != s ==> Elements(b.nodes, b.strings[t]) == Elements(a.nodes, a.strings[t])
  }

  /**
   * `b` is `a` after deleting the character with id `id`: its string's cells are those of
   * `Tombstone`, every other string keeps its cells, and the segment lists and the id map stay.
   */
  ghost predicate CharDeleted(a: Arena, b: Arena, id: Id)
    requires id in a.idToNode && a.idToNode[id] in a.nodes
  {
    var s := Owner(a.nodes, a.idToNode[id]);
    && s in a.strings && b.strings == a.strings && b.idToNode == a.idToNode && b.nextNode == a.nextNode
    && Tombstone(Elements(a.nodes, a.strings[s]), id) == Some(Elements(b.nodes, b.strings[s]))
    && forall t :: t in a.strings && t != s ==> Elements(b.nodes, b.strings[t]) == Elements(a.nodes, a.strings[t])
  }

  /** A segment of a well-formed tree lies in the ring of its parent, and keeps the offset invariant. */
  lemma SegmentInRing(a: Arena, n: NodeId)
    requires Wf(a.nodes, a.idToNode, a.nextNode, a.strings) && IsSegment(a.nodes, n)
    ensures Owner(a.nodes, n) in a.strings && n in a.strings[Owner(a.nodes, n)]
    ensures SegmentOk(a.nodes, a.idToNode, n)
  {
    assert InRing(a.nodes, a.strings, n);
  }

  /**
   * Where `lookup_insertion_point` lands for an anchor: the first segment of a string, or the
   * anchor's own segment, and in either case a segment of the anchor's string.
   */
  lemma AnchorSegment(a: Arena, id: Id)
    requires Wf(a.nodes, a.idToNode, a.nextNode, a.strings) && Anchored(a, id)
    ensures AnchorString(a, id) in a.strings && |a.strings[AnchorString(a, id)]| >= 1
    ensures IsString(a.nodes, a.idToNode[id]) ==>
      a.nodes[a.idToNode[id]].data.start == a.strings[AnchorString(a, id)][0]
    ensures IsSegment(a.nodes, a.idToNode[id]) ==>
      a.idToNode[id] in a.strings[AnchorString(a, id)] && SegmentOk(a.nodes, a.idToNode, a.idToNode[id])
  {
    var n := a.idToNode[id];
    if IsString(a.nodes, n) {
      assert Ring(a.nodes, n, a.strings[n]);
    } else {
      SegmentInRing(a, n);
    }
  }

  /** A string node of a well-formed tree is listed with its ring. */
  lemma StringOfNode(a: Arena, n: NodeId)
    requires Wf(a.nodes, a.idToNode, a.nextNode, a.strings) && IsString(a.nodes, n)
    ensures n in a.strings && Ring(a.nodes, n, a.strings[n])
  {
  }

  /** The insertion point `lookup_insertion_point` gives lies inside the segment's contents. */
  lemma InsertionInside(a: Arena, anchorId: Id, s: NodeId, j: nat, li: nat, si: nat)
    requires Wf(a.nodes, a.idToNode, a.nextNode, a.strings) && s in a.strings && j < |a.strings[s]|
    requires IsSegment(a.nodes, a.strings[s][j])
    requires var ids := a.nodes[a.strings[s][j]].data.ids; li <= |ids| && si == LiveCount(ids[..li])
    ensures si <= |a.nodes[a.strings[s][j]].data.contents|
  {
    var n := a.strings[s][j];
    SegmentOfRing(a.nodes, a.idToNode, a.nextNode, a.strings, s, j);
    assert SegmentOk(a.nodes, a.idToNode, n);
    var ids := a.nodes[n].data.ids;
    LiveCountMono(ids, li, |ids|);
    assert ids[..|ids|] == ids;
  }

  /**
   * The segment edit of `insert_character` at the insertion point `(n, si, li)` of the anchor,
   * with `x` mapped to `n`, inserts the character after the anchor and keeps the invariant.
   */
  lemma InsertCharStep(a: Arena, anchorId: Id, x: Id, ch: char, s: NodeId, j: nat, li: nat, si: nat, nodes': Nodes)
    requires Wf(a.nodes, a.idToNode, a.nextNode, a.strings) && Anchored(a, anchorId) && x !in a.idToNode
    requires s == AnchorString(a, anchorId) && s in a.strings && j < |a.strings[s]|
    requires IsSegment(a.nodes, a.strings[s][j])
    requires var ids := a.nodes[a.strings[s][j]].data.ids;
             && li <= |ids| && si == LiveCount(ids[..li])
             && (AnchorOf(a, anchorId).None? ==> j == 0 && li == 0)
             && (AnchorOf(a, anchorId).Some? ==> 1 <= li && ids[li - 1].id == anchorId)
    requires var n := a.strings[s][j];
             var d := a.nodes[n].data;
             si <= |d.contents| &&
             nodes' == a.nodes[n := Node(StringSegment(d.prev, d.next, InsertAt(d.contents, si, ch), InsertedIds(d.ids, li, Entry(x, Some(si)))), a.nodes[n].parent)]
    ensures Wf(nodes', a.idToNode[x := a.strings[s][j]], a.nextNode, a.strings)
    ensures CharInserted(a, Arena(nodes', a.idToNode[x := a.strings[s][j]], a.nextNode, a.strings), anchorId, x, ch)
  {
    var n := a.strings[s][j];
    var d := a.nodes[n].data;
    InsertCharCells(a.nodes, a.idToNode, a.nextNode, a.strings, s, j, d.prev, d.next, d.contents, d.ids, a.nodes[n].parent,
                    li, si, x, ch, AnchorOf(a, anchorId), nodes');
  }

  /** A `consider_split` that keeps every string's cells keeps what the insert promised. */
  lemma CharInsertedSplit(a: Arena, a1: Arena, a2: Arena, anchorId: Id, x: Id, ch: char)
    requires Anchored(a, anchorId) && CharInserted(a, a1, anchorId, x, ch)
    requires CellsKept(a1.nodes, a1.strings, a2.nodes, a2.strings) && a2.strings.Keys == a1.strings.Keys
    ensures CharInserted(a, a2, anchorId, x, ch)
  {
    var s := AnchorString(a, anchorId);
    assert s in a1.strings;
    forall t | t in a.strings && t != s
      ensures Elements(a2.nodes, a2.strings[t]) == Elements(a.nodes, a.strings[t])
    {
      assert t in a1.strings;
    }
  }

  /**
   * What the `consider_split` after an insert leaves: the invariant, the insert's promise, the
   * split's run of segments in place of the edited one, and the balance of a balanced tree.
   */
  lemma InsertSplitKeeps(a: Arena, a1: Arena, anchorId: Id, x: Id, ch: char, s: NodeId, j: nat, node': Node, r: (Arena, seq<NodeId>))
    requires Anchored(a, anchorId) && CharInserted(a, a1, anchorId, x, ch)
    requires At(a1, s, j) && r == SplitAll(a1, s, j) && a1.strings == a.strings
    requires var n := a.strings[s][j];
             && IsSegment(a.nodes, n) && a1.nodes == a.nodes[n := node'] && node'.data.StringSegment?
             && |node'.data.ids| >= |a.nodes[n].data.ids|
    ensures Wf(r.0.nodes, r.0.idToNode, r.0.nextNode, r.0.strings) && CharInserted(a, r.0, anchorId, x, ch)
    ensures s in r.0.strings && |r.1| >= 1 && j + |r.1| <= |r.0.strings[s]|
    ensures r.0.strings[s][j] == a.strings[s][j] && r.0.strings[s][j + |r.1| - 1] == r.1[|r.1| - 1]
    ensures Balanced(a) ==> Balanced(r.0)
  {
    hide Wf, CharInserted, Balanced;
    SplitOkKeeps(a1, s, j, r);
    SplitEnds(a1, s, j, r);
    CharInsertedSplit(a, a1, r.0, anchorId, x, ch);
    if Balanced(a) {
      BalancedGrow(a, a1, a.strings[s][j]);
      BalancedSplit(a1, s, j);
    }
  }

  /** An id mapped to a segment of a well-formed tree is in that segment's list. */
  lemma IdInSegment(a: Arena, id: Id)
    requires Wf(a.nodes, a.idToNode, a.nextNode, a.strings) && id in a.idToNode && IsSegment(a.nodes, a.idToNode[id])
    ensures exists k :: 0 <= k < |a.nodes[a.idToNode[id]].data.ids| && a.nodes[a.idToNode[id]].data.ids[k].id == id
  {
    assert IdOk(a.nodes, a.idToNode, a.nextNode, id);
    var ids := a.nodes[a.idToNode[id]].data.ids;
    var e :| e in ids && e.id == id;
    var k :| 0 <= k < |ids| && ids[k] == e;
  }

  /** What a `consider_split` leaves that an insert relies on: the invariant, every string's cells, the strings. */
  lemma SplitOkKeeps(a: Arena, s: NodeId, j: nat, r: (Arena, seq<NodeId>))
    requires SplitOk(a, s, j, r)
    ensures Wf(r.0.nodes, r.0.idToNode, r.0.nextNode, r.0.strings)
    ensures CellsKept(a.nodes, a.strings, r.0.nodes, r.0.strings) && r.0.strings.Keys == a.strings.Keys
  {
  }

  /**
   * The segment edit of `delete_character` at entry `i` of the segment holding `id`: a live
   * entry becomes a tombstone and its character leaves the contents, a tombstone stays one.
   */
  lemma DeleteCharStep(a: Arena, id: Id, i: nat, nodes': Nodes)
    requires Wf(a.nodes, a.idToNode, a.nextNode, a.strings) && id in a.idToNode && IsSegment(a.nodes, a.idToNode[id])
    requires var ids := a.nodes[a.idToNode[id]].data.ids;
             i < |ids| && ids[i].id == id
    requires var n := a.idToNode[id];
             var d := a.nodes[n].data;
             && (d.ids[i].offset.None? ==> nodes' == a.nodes)
             && (d.ids[i].offset.Some? ==>
                   && d.ids[i].offset.value < |d.contents| && CanShift(d.ids[i := Entry(id, None)], i, -1)
                   && nodes' == a.nodes[n := Node(StringSegment(d.prev, d.next, RemoveAt(d.contents, d.ids[i].offset.value), DeletedIds(d.ids, i)), a.nodes[n].parent)])
    ensures Wf(nodes', a.idToNode, a.nextNode, a.strings)
    ensures CharDeleted(a, Arena(nodes', a.idToNode, a.nextNode, a.strings), id)
  {
    var n := a.idToNode[id];
    var d := a.nodes[n].data;
    SegmentInRing(a, n);
    var s := Owner(a.nodes, n);
    var j :| 0 <= j < |a.strings[s]| && a.strings[s][j] == n;
    DeleteCharCells(a.nodes, a.idToNode, a.nextNode, a.strings, s, j, d.prev, d.next, d.contents, d.ids, a.nodes[n].parent, i, nodes');
  }
}
