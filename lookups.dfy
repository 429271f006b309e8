/**
 * Where the entries of a segment sit among the cells of its string, stated on values: every
 * cell carries an id mapped to the segment that holds it, so the ids of a string never repeat
 * and the entry `lookup_id_index` finds is the cell `Text.IndexOf` finds. With that, the
 * character edits of src/tree.rs act on a string's cells exactly as `Text.InsertAfter` and
 * `Text.Tombstone` say.
 */
module Lookups {
  import opened Common
  import opened Segments
  import opened TreeNodes
  import opened TreeEdits
  import opened Text

  /** The segments of `ss` are well-formed segments whose ids map to them. */
  ghost predicate AllSegmentsOk(nodes: Nodes, idToNode: map<Id, NodeId>, ss: seq<NodeId>) {
    forall k :: 0 <= k < |ss| ==> IsSegment(nodes, ss[k]) && SegmentOk(nodes, idToNode, ss[k])
  }

  /** Every cell of the segments `ss` has an id mapped to one of them. */
  lemma {:induction false} ElementsMapped(nodes: Nodes, idToNode: map<Id, NodeId>, ss: seq<NodeId>)
    requires AllSegmentsOk(nodes, idToNode, ss)
    ensures forall p :: 0 <= p < |Elements(nodes, ss)| ==>
      Elements(nodes, ss)[p].id in idToNode && idToNode[Elements(nodes, ss)[p].id] in ss
    decreases |ss|
  {
    if ss != [] {
      var init, last := ss[..|ss| - 1], ss[|ss| - 1];
      assert AllSegmentsOk(nodes, idToNode, init) by {
        forall k | 0 <= k < |init|
          ensures IsSegment(nodes, init[k]) && SegmentOk(nodes, idToNode, init[k])
        {
          assert init[k] == ss[k];
        }
      }
      ElementsMapped(nodes, idToNode, init);
      var a: seq<Cell>, b: seq<Cell> := Elements(nodes, init), Payload(nodes, last);
      assert Elements(nodes, ss) == a + b;
      assert SegmentOk(nodes, idToNode, last);
      forall p | 0 <= p < |a + b|
        ensures (a + b)[p].id in idToNode && idToNode[(a + b)[p].id] in ss
      {
        if p < |a| {
          assert (a + b)[p] == a[p];
          var q :| 0 <= q < |init| && init[q] == idToNode[a[p].id];
          assert ss[q] == init[q];
        } else {
          assert (a + b)[p] == b[p - |a|];
          assert b[p - |a|].id == nodes[last].data.ids[p - |a|].id;
        }
      }
    }
  }

  /** The cells of distinct well-formed segments never share an id. */
  lemma {:induction false} ElementsUnique(nodes: Nodes, idToNode: map<Id, NodeId>, ss: seq<NodeId>)
    requires AllSegmentsOk(nodes, idToNode, ss) && Distinct(ss)
    ensures UniqueIds(Elements(nodes, ss))
    decreases |ss|
  {
    if ss != [] {
      var init, last := ss[..|ss| - 1], ss[|ss| - 1];
      assert AllSegmentsOk(nodes, idToNode, init) by {
        forall k | 0 <= k < |init|
          ensures IsSegment(nodes, init[k]) && SegmentOk(nodes, idToNode, init[k])
        {
          assert init[k] == ss[k];
        }
      }
      assert Distinct(init) by {
        forall p, q | 0 <= p < q < |init|
          ensures init[p] != init[q]
        {
          assert init[p] == ss[p] && init[q] == ss[q];
        }
      }
      ElementsUnique(nodes, idToNode, init);
      ElementsMapped(nodes, idToNode, init);
      var a: seq<Cell>, b: seq<Cell> := Elements(nodes, init), Payload(nodes, last);
      assert Elements(nodes, ss) == a + b;
      assert SegmentOk(nodes, idToNode, last);
      var ids := nodes[last].data.ids;
      assert UniqueIds(b) by {
        forall p, q | 0 <= p < q < |b| ensures b[p].id != b[q].id {
          assert b[p].id == ids[p].id && b[q].id == ids[q].id;
        }
      }
      forall p, q | 0 <= p < |a| && 0 <= q < |b|
        ensures a[p].id != b[q].id
      {
        assert b[q].id == ids[q].id;
        var r :| 0 <= r < |init| && init[r] == idToNode[a[p].id];
        assert ss[r] == init[r];
      }
      UniqueAppend(a, b);
    }
  }

  /** Two id-unique lists whose ids never meet concatenate to an id-unique list. */
  lemma UniqueAppend(a: seq<Cell>, b: seq<Cell>)
    requires UniqueIds(a) && UniqueIds(b)
    requires forall p, q :: 0 <= p < |a| && 0 <= q < |b| ==> a[p].id != b[q].id
    ensures UniqueIds(a + b)
  {
    forall p, q | 0 <= p < q < |a + b|
      ensures (a + b)[p].id != (a + b)[q].id
    {
      if q < |a| {
        assert (a + b)[p] == a[p] && (a + b)[q] == a[q];
      } else if p < |a| {
        assert (a + b)[p] == a[p] && (a + b)[q] == b[q - |a|];
      } else {
        assert (a + b)[p] == b[p - |a|] && (a + b)[q] == b[q - |a|];
      }
    }
  }

  /** The segments of a string in a well-formed tree form its ring and are well formed. */
  lemma StringSegmentsOk(nodes: Nodes, idToNode: map<Id, NodeId>, nextNode: NodeId, strings: Strings, s: NodeId)
    requires Wf(nodes, idToNode, nextNode, strings) && s in strings
    ensures Ring(nodes, s, strings[s]) && AllSegmentsOk(nodes, idToNode, strings[s])
  {
    var ss := strings[s];
    assert Ring(nodes, s, ss);
    forall k | 0 <= k < |ss|
      ensures IsSegment(nodes, ss[k]) && SegmentOk(nodes, idToNode, ss[k])
    {
      assert Linked(nodes, s, ss, k);
    }
  }

  lemma AllSegmentsOkPrefix(nodes: Nodes, idToNode: map<Id, NodeId>, ss: seq<NodeId>, j: nat)
    requires AllSegmentsOk(nodes, idToNode, ss) && j <= |ss|
    ensures AllSegmentsOk(nodes, idToNode, ss[..j])
  {
    forall k | 0 <= k < j
      ensures IsSegment(nodes, ss[..j][k]) && SegmentOk(nodes, idToNode, ss[..j][k])
    {
      assert ss[..j][k] == ss[k];
    }
  }

  /** The text `get_string` concatenates is the string's visible characters, in order. */
  lemma StringText(nodes: Nodes, idToNode: map<Id, NodeId>, nextNode: NodeId, strings: Strings, s: NodeId)
    requires Wf(nodes, idToNode, nextNode, strings) && s in strings
    ensures TreeNodes.Text(nodes, strings[s]) == Visible(Elements(nodes, strings[s]))
  {
    var ss := strings[s];
    StringSegmentsOk(nodes, idToNode, nextNode, strings, s);
    forall k | 0 <= k < |ss|
      ensures IsSegment(nodes, ss[k]) && OffsetsOk(nodes[ss[k]].data.contents, nodes[ss[k]].data.ids)
    {
      assert SegmentOk(nodes, idToNode, ss[k]);
    }
    TextIsVisible(nodes, ss);
  }

  /** In a well-formed tree the cells of a string carry pairwise different ids. */
  lemma StringIdsUnique(nodes: Nodes, idToNode: map<Id, NodeId>, nextNode: NodeId, strings: Strings, s: NodeId)
    requires Wf(nodes, idToNode, nextNode, strings) && s in strings
    ensures UniqueIds(Elements(nodes, strings[s]))
  {
    StringSegmentsOk(nodes, idToNode, nextNode, strings, s);
    ElementsUnique(nodes, idToNode, strings[s]);
  }

  /**
   * Entry `i` of segment `j` of string `s` is the cell `IndexOf` finds for its id: the one
   * after the cells of the segments before it and the entries before it in its segment.
   */
  lemma CellPosition(nodes: Nodes, idToNode: map<Id, NodeId>, nextNode: NodeId, strings: Strings, s: NodeId, j: nat, i: nat)
    requires Wf(nodes, idToNode, nextNode, strings) && s in strings && j < |strings[s]|
    requires IsSegment(nodes, strings[s][j]) && i < |nodes[strings[s][j]].data.ids|
    ensures |Elements(nodes, strings[s][..j])| + i < |Elements(nodes, strings[s])|
    ensures Elements(nodes, strings[s])[|Elements(nodes, strings[s][..j])| + i] == Payload(nodes, strings[s][j])[i]
    ensures IndexOf(Elements(nodes, strings[s]), nodes[strings[s][j]].data.ids[i].id) == Some(|Elements(nodes, strings[s][..j])| + i)
  {
    StringSegmentsOk(nodes, idToNode, nextNode, strings, s);
    SegmentsCellPosition(nodes, idToNode, strings[s], j, i);
  }

  /** `CellPosition` for any list of distinct well-formed segments. */
  lemma SegmentsCellPosition(nodes: Nodes, idToNode: map<Id, NodeId>, ss: seq<NodeId>, j: nat, i: nat)
    requires AllSegmentsOk(nodes, idToNode, ss) && Distinct(ss) && j < |ss| && i < |nodes[ss[j]].data.ids|
    ensures && |Elements(nodes, ss[..j])| + i < |Elements(nodes, ss)|
            && Elements(nodes, ss)[|Elements(nodes, ss[..j])| + i] == Payload(nodes, ss[j])[i]
            && IndexOf(Elements(nodes, ss), nodes[ss[j]].data.ids[i].id) == Some(|Elements(nodes, ss[..j])| + i)
  {
    var n := ss[j];
    var ids := nodes[n].data.ids;
    assert SegmentOk(nodes, idToNode, n);
    var a, v, b := Elements(nodes, ss[..j]), Payload(nodes, n), Elements(nodes, ss[j + 1..]);
    var e := Elements(nodes, ss);
    assert e == a + v + b by {
      ElementsSplice(nodes, ss, j);
    }
    PrefixLacksId(nodes, idToNode, ss, j, ids[i].id);
    ViewFirstId(nodes[n].data.contents, ids, i);
    FirstWithId(a, v, b, i, ids[i].id);
    assert IndexOf(e, ids[i].id) == Some(|a| + i);
  }

  /** No cell of the segments before `ss[j]` carries an id mapped to `ss[j]`. */
  lemma PrefixLacksId(nodes: Nodes, idToNode: map<Id, NodeId>, ss: seq<NodeId>, j: nat, id: Id)
    requires AllSegmentsOk(nodes, idToNode, ss) && Distinct(ss) && j < |ss| && id in idToNode && idToNode[id] == ss[j]
    ensures forall k :: 0 <= k < |Elements(nodes, ss[..j])| ==> Elements(nodes, ss[..j])[k].id != id
  {
    var pre := ss[..j];
    AllSegmentsOkPrefix(nodes, idToNode, ss, j);
    ElementsMapped(nodes, idToNode, pre);
    forall k | 0 <= k < |Elements(nodes, pre)|
      ensures Elements(nodes, pre)[k].id != id
    {
      var q :| 0 <= q < |pre| && pre[q] == idToNode[Elements(nodes, pre)[k].id];
      assert ss[q] == pre[q] && q < j;
    }
  }

  /** In a segment without repeated ids, entry `i` is the first cell with its id. */
  lemma ViewFirstId(c: seq<char>, ids: seq<Entry>, i: nat)
    requires DistinctIds(ids) && i < |ids|
    ensures |View(c, ids)| == |ids| && View(c, ids)[i].id == ids[i].id
    ensures forall k :: 0 <= k < i ==> View(c, ids)[k].id != ids[i].id
  {
  }

  /** The first cell with `id` in `a + v + b`, when `a` has none and `v[i]` is the first in `v`. */
  lemma FirstWithId(a: seq<Cell>, v: seq<Cell>, b: seq<Cell>, i: nat, id: Id)
    requires i < |v| && v[i].id == id
    requires forall k :: 0 <= k < |a| ==> a[k].id != id
    requires forall k :: 0 <= k < i ==> v[k].id != id
    ensures |a| + i < |a + v + b| && (a + v + b)[|a| + i] == v[i]
    ensures IndexOf(a + v + b, id) == Some(|a| + i)
  {
    var cells := a + v + b;
    forall k | 0 <= k < |a| + i
      ensures cells[k].id != id
    {
      if k < |a| {
        assert cells[k] == a[k];
      } else {
        assert cells[k] == v[k - |a|];
      }
    }
    IndexOfAt(cells, id, |a| + i);
  }

  /**
   * `insert_character`'s edit of segment `j` of string `s`, stated on the string's cells: when
   * the entry index `li` is the one `lookup_insertion_point` gives for `anchor` (the first
   * entry of the first segment for the string itself, the entry after the anchor's
   * otherwise), the new cells are those of `InsertAfter`.
   */
  lemma InsertCharCells(nodes: Nodes, idToNode: map<Id, NodeId>, nextNode: NodeId, strings: Strings, s: NodeId, j: nat,
                        prev: NodeId, next: NodeId, c: seq<char>, ids: seq<Entry>, parent: Option<NodeId>,
                        li: nat, p: nat, x: Id, ch: char, anchor: Option<Id>, nodes': Nodes)
    requires Wf(nodes, idToNode, nextNode, strings) && s in strings && j < |strings[s]|
    requires strings[s][j] in nodes && nodes[strings[s][j]] == Node(StringSegment(prev, next, c, ids), parent)
    requires li <= |ids| && p == LiveCount(ids[..li]) && p <= |c| && x !in idToNode
    requires anchor.None? ==> j == 0 && li == 0
    requires anchor.Some? ==> 1 <= li && ids[li - 1].id == anchor.value
    requires nodes' == nodes[strings[s][j] := Node(StringSegment(prev, next, InsertAt(c, p, ch), InsertedIds(ids, li, Entry(x, Some(p)))), parent)]
    ensures Wf(nodes', idToNode[x := strings[s][j]], nextNode, strings)
    ensures InsertAfter(Elements(nodes, strings[s]), anchor, Cell(x, Some(ch))) == Some(Elements(nodes', strings[s]))
    ensures OthersKept(nodes, nodes', strings, s)
  {
    hide Wf, Elements, InsertAt, InsertAfter, IndexOf, Payload;
    InsertCharWf(nodes, idToNode, nextNode, strings, s, j, prev, next, c, ids, parent, li, p, x, ch, nodes');
    if anchor.Some? {
      CellPosition(nodes, idToNode, nextNode, strings, s, j, li - 1);
      assert nodes[strings[s][j]].data.ids[li - 1].id == anchor.value;
    } else {
      ElementsNone(nodes, strings[s]);
    }
    InsertCellsAt(Elements(nodes, strings[s]), Elements(nodes', strings[s]), Elements(nodes, strings[s][..j]), View(c, ids),
                  Elements(nodes, strings[s][j + 1..]), li, Cell(x, Some(ch)), anchor);
  }

  /** No segments before the first: no cells. */
  lemma ElementsNone(nodes: Nodes, ss: seq<NodeId>)
    ensures Elements(nodes, ss[..0]) == []
  {
    assert ss[..0] == [];
  }

  /** `InsertAfter` on `a + v + b` when the anchor is entry `li - 1` of `v` (or none, first). */
  lemma InsertCellsAt(e: seq<Cell>, e': seq<Cell>, a: seq<Cell>, v: seq<Cell>, b: seq<Cell>, li: nat, x: Cell, anchor: Option<Id>)
    requires li <= |v| && e == a + v + b && e' == a + InsertAt(v, li, x) + b
    requires anchor.None? ==> a == [] && li == 0
    requires anchor.Some? ==> 1 <= li && IndexOf(e, anchor.value) == Some(|a| + li - 1)
    ensures InsertAfter(e, anchor, x) == Some(e')
  {
    hide InsertAt, InsertAfter, IndexOf;
    SpliceInsert(e, e', a, v, b, li, x);
    InsertAfterAt(e, e', anchor, x, |a| + li);
  }

  /** `InsertAfter` puts the cell at `p` when `p` is just past the anchor's cell (or 0 for none). */
  lemma InsertAfterAt(cells: seq<Cell>, cells': seq<Cell>, anchor: Option<Id>, x: Cell, p: nat)
    requires p <= |cells| && cells' == InsertAt(cells, p, x)
    requires anchor.None? ==> p == 0
    requires anchor.Some? ==> 1 <= p && IndexOf(cells, anchor.value) == Some(p - 1)
    ensures InsertAfter(cells, anchor, x) == Some(cells')
  {
  }

  /**
   * `delete_character`'s edit of entry `i` of segment `j` of string `s`, stated on the
   * string's cells: a live entry loses its character, a tombstone is left alone, and either
   * way the new cells are those of `Tombstone`.
   */
  lemma DeleteCharCells(nodes: Nodes, idToNode: map<Id, NodeId>, nextNode: NodeId, strings: Strings, s: NodeId, j: nat,
                        prev: NodeId, next: NodeId, c: seq<char>, ids: seq<Entry>, parent: Option<NodeId>,
                        i: nat, nodes': Nodes)
    requires Wf(nodes, idToNode, nextNode, strings) && s in strings && j < |strings[s]|
    requires strings[s][j] in nodes && nodes[strings[s][j]] == Node(StringSegment(prev, next, c, ids), parent)
    requires i < |ids|
    requires ids[i].offset.None? ==> nodes' == nodes
    requires ids[i].offset.Some? ==>
      && ids[i].offset.value < |c| && CanShift(ids[i := Entry(ids[i].id, None)], i, -1)
      && nodes' == nodes[strings[s][j] := Node(StringSegment(prev, next, RemoveAt(c, ids[i].offset.value), DeletedIds(ids, i)), parent)]
    ensures Wf(nodes', idToNode, nextNode, strings)
    ensures Tombstone(Elements(nodes, strings[s]), ids[i].id) == Some(Elements(nodes', strings[s]))
    ensures OthersKept(nodes, nodes', strings, s)
  {
    hide Wf;
    var ss := strings[s];
    CellPosition(nodes, idToNode, nextNode, strings, s, j, i);
    var e := Elements(nodes, ss);
    var q := |Elements(nodes, ss[..j])| + i;
    if ids[i].offset.Some? {
      DeleteCharWf(nodes, idToNode, nextNode, strings, s, j, prev, next, c, ids, parent, i, nodes');
    } else {
      assert e[q] == View(c, ids)[i] == Cell(ids[i].id, None);
      assert e[q := Cell(ids[i].id, None)] == e;
    }
    TombstoneAt(e, Elements(nodes', ss), ids[i].id, q);
  }

  /** `Tombstone` rewrites the cell `IndexOf` finds. */
  lemma TombstoneAt(e: seq<Cell>, e': seq<Cell>, id: Id, q: nat)
    requires q < |e| && IndexOf(e, id) == Some(q) && e' == e[q := Cell(id, None)]
    ensures Tombstone(e, id) == Some(e')
  {
  }
}
