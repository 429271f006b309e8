/**
 * The edits the string tree of src/tree.rs makes to its node arena, each stated on values
 * with a proof that it keeps the tree invariant `Wf` and changes the elements of the strings
 * exactly as intended: a character inserted or tombstoned in one segment, a segment linked
 * into or out of a ring, a segment split in two, and two neighbours joined.
 */
module TreeEdits {
  import opened Common
  import opened Segments
  import opened TreeNodes
  import opened Text

  // ---------------------------------------------------------------------------------------
  // Frames

  /** A node with its segment payload erased: all that the ring links depend on. */
  function Shape(node: Node): Node {
    if node.data.StringSegment? then Node(StringSegment(node.data.prev, node.data.next, [], []), node.parent)
    else node
  }

  /** Two arenas that differ at most in the payload of segments. */
  ghost predicate SameShape(nodes: Nodes, nodes': Nodes) {
    nodes'.Keys == nodes.Keys && forall n :: n in nodes ==> Shape(nodes'[n]) == Shape(nodes[n])
  }

  /** Every string other than `s` stands for the same cells in `nodes'` as in `nodes`. */
  ghost predicate OthersKept(nodes: Nodes, nodes': Nodes, strings: Strings, s: NodeId) {
    forall t :: t in strings && t != s ==> Elements(nodes', strings[t]) == Elements(nodes, strings[t])
  }

  /** Every string of `strings` is still listed in `strings'` and stands for the same cells. */
  ghost predicate CellsKept(nodes: Nodes, strings: Strings, nodes': Nodes, strings': Strings) {
    forall t :: t in strings ==> t in strings' && Elements(nodes', strings'[t]) == Elements(nodes, strings[t])
  }

  /** Strings other than `s` keep their cells, and `s` keeps its cells in `ss'`: every string keeps its cells. */
  lemma CellsKeptOfOthers(nodes: Nodes, strings: Strings, nodes': Nodes, s: NodeId, ss': seq<NodeId>)
    requires s in strings && OthersKept(nodes, nodes', strings, s)
    requires Elements(nodes', ss') == Elements(nodes, strings[s])
    ensures CellsKept(nodes, strings, nodes', strings[s := ss'])
  {
  }

  /** Every segment of `nodes` is a segment of `nodes'` with the same contents and ids. */
  ghost predicate PayloadsKept(nodes: Nodes, nodes': Nodes) {
    forall n {:trigger IsSegment(nodes, n)} :: IsSegment(nodes, n) ==>
      IsSegment(nodes', n) && nodes'[n].data.contents == nodes[n].data.contents && nodes'[n].data.ids == nodes[n].data.ids
  }

  lemma ShapeRings(nodes: Nodes, nodes': Nodes, strings: Strings)
    requires Rings(nodes, strings) && SameShape(nodes, nodes')
    ensures Rings(nodes', strings)
  {
    forall s | s in strings
      ensures Ring(nodes', s, strings[s])
    {
      var ss := strings[s];
      assert Shape(nodes'[s]) == Shape(nodes[s]);
      forall j | 0 <= j < |ss|
        ensures Linked(nodes', s, ss, j)
      {
        assert Linked(nodes, s, ss, j);
        assert Shape(nodes'[ss[j]]) == Shape(nodes[ss[j]]);
      }
    }
    forall s | IsString(nodes', s)
      ensures s in strings
    {
      assert Shape(nodes'[s]) == Shape(nodes[s]);
    }
    forall n | IsSegment(nodes', n)
      ensures InRing(nodes', strings, n)
    {
      assert Shape(nodes'[n]) == Shape(nodes[n]);
      assert InRing(nodes, strings, n);
    }
  }

  /** Changing only segment payloads keeps the invariant once segments and ids are fine again. */
  lemma ShapeWf(nodes: Nodes, nodes': Nodes, idToNode: map<Id, NodeId>, idToNode': map<Id, NodeId>, nextNode: NodeId, strings: Strings)
    requires Wf(nodes, idToNode, nextNode, strings) && SameShape(nodes, nodes')
    requires forall n :: IsSegment(nodes', n) ==> SegmentOk(nodes', idToNode', n)
    requires forall id :: id in idToNode' ==> IdOk(nodes', idToNode', nextNode, id)
    ensures Wf(nodes', idToNode', nextNode, strings)
  {
    ShapeRings(nodes, nodes', strings);
    forall n | n in nodes' && nodes'[n].data.Object?
      ensures nodes'[n].data.items == map[]
    {
      assert Shape(nodes'[n]) == Shape(nodes[n]);
    }
  }

  /** When only segment `ss[j]` changes, the elements change only in that segment's part. */
  lemma ElementsChange(nodes: Nodes, nodes': Nodes, ss: seq<NodeId>, j: nat)
    requires j < |ss|
    requires forall k :: 0 <= k < |ss| && k != j ==> Payload(nodes', ss[k]) == Payload(nodes, ss[k])
    ensures Elements(nodes', ss) == Elements(nodes, ss[..j]) + Payload(nodes', ss[j]) + Elements(nodes, ss[j + 1..])
  {
    ElementsSplice(nodes', ss, j);
    var pre, post := ss[..j], ss[j + 1..];
    forall k | 0 <= k < |pre|
      ensures Payload(nodes', pre[k]) == Payload(nodes, pre[k])
    {
      assert pre[k] == ss[k];
    }
    ElementsFrame(nodes, nodes', pre);
    forall k | 0 <= k < |post|
      ensures Payload(nodes', post[k]) == Payload(nodes, post[k])
    {
      assert post[k] == ss[j + 1 + k];
    }
    ElementsFrame(nodes, nodes', post);
  }

  /**
   * An edit confined to string `s` (its sentinel, its segments and nodes that did not exist)
   * leaves every other string's ring and elements as they were.
   */
  lemma OthersFrame(nodes: Nodes, nodes': Nodes, strings: Strings, s: NodeId)
    requires Rings(nodes, strings) && s in strings
    requires forall n :: n in nodes && n != s && n !in strings[s] ==> n in nodes' && nodes'[n] == nodes[n]
    ensures forall t :: t in strings && t != s ==> Ring(nodes', t, strings[t])
    ensures forall t :: t in strings && t != s ==> Elements(nodes', strings[t]) == Elements(nodes, strings[t])
  {
    forall t | t in strings && t != s
      ensures Ring(nodes', t, strings[t])
      ensures Elements(nodes', strings[t]) == Elements(nodes, strings[t])
    {
      var tt := strings[t];
      forall k | 0 <= k < |tt|
        ensures tt[k] in nodes && tt[k] in nodes' && nodes'[tt[k]] == nodes[tt[k]]
      {
        assert Linked(nodes, t, tt, k);
        forall i | 0 <= i < |strings[s]|
          ensures tt[k] != strings[s][i]
        {
          RingsDisjoint(nodes, strings, t, s, k, i);
        }
        assert tt[k] != s by {
          RingsDisjoint(nodes, strings, t, s, k, 0);
        }
      }
      assert t != s && t !in strings[s] by {
        if t in strings[s] {
          var i :| 0 <= i < |strings[s]| && strings[s][i] == t;
          RingsDisjoint(nodes, strings, s, t, i, 0);
        }
      }
      RingFrame(nodes, nodes', t, tt);
      ElementsFrame(nodes, nodes', tt);
    }
  }

  /** Inserting into the middle part of a concatenation. */
  /** `InsertAtMiddle` for a sequence already known to be `a + v + b`. */
  lemma SpliceInsert<E>(e: seq<E>, e': seq<E>, a: seq<E>, v: seq<E>, b: seq<E>, i: nat, x: E)
    requires i <= |v| && e == a + v + b && e' == a + InsertAt(v, i, x) + b
    ensures |a| + i <= |e| && e' == InsertAt(e, |a| + i, x)
  {
    InsertAtMiddle(a, v, b, i, x);
  }

  lemma InsertAtMiddle<E>(a: seq<E>, b: seq<E>, c: seq<E>, i: nat, x: E)
    requires i <= |b|
    ensures InsertAt(a + b + c, |a| + i, x) == a + InsertAt(b, i, x) + c
  {
    var l := InsertAt(a + b + c, |a| + i, x);
    var r := a + InsertAt(b, i, x) + c;
    forall k | 0 <= k < |l|
      ensures l[k] == r[k]
    {
      if k < |a| + i {
      } else if k > |a| + i {
      }
    }
  }

  /** Updating in the middle part of a concatenation. */
  /** `UpdateMiddle` for a sequence already known to be `a + v + b`. */
  lemma SpliceUpdate<E>(e: seq<E>, e': seq<E>, a: seq<E>, v: seq<E>, b: seq<E>, i: nat, x: E)
    requires i < |v| && e == a + v + b && e' == a + v[i := x] + b
    ensures |a| + i < |e| && e' == e[|a| + i := x]
  {
    UpdateMiddle(a, v, b, i, x);
  }

  lemma UpdateMiddle<E>(a: seq<E>, b: seq<E>, c: seq<E>, i: nat, x: E)
    requires i < |b|
    ensures (a + b + c)[|a| + i := x] == a + b[i := x] + c
  {
  }
  // ---------------------------------------------------------------------------------------
  // Editing one segment

  /**
   * Replacing the payload of segment `n` keeps every segment well formed, provided the new
   * payload is, and existing id mappings are kept.
   */
  lemma ReplaceSegmentsOk(nodes: Nodes, nodes': Nodes, idToNode: map<Id, NodeId>, idToNode': map<Id, NodeId>, n: NodeId,
                          prev: NodeId, next: NodeId, c': seq<char>, ids': seq<Entry>, parent: Option<NodeId>)
    requires forall m :: IsSegment(nodes, m) ==> SegmentOk(nodes, idToNode, m)
    requires IsSegment(nodes, n) && nodes' == nodes[n := Node(StringSegment(prev, next, c', ids'), parent)]
    requires OffsetsOk(c', ids') && DistinctIds(ids')
    requires forall k :: 0 <= k < |ids'| ==> ids'[k].id in idToNode' && idToNode'[ids'[k].id] == n
    requires forall id :: id in idToNode ==> id in idToNode' && idToNode'[id] == idToNode[id]
    ensures forall m :: IsSegment(nodes', m) ==> SegmentOk(nodes', idToNode', m)
  {
    forall m | IsSegment(nodes', m) && m != n
      ensures SegmentOk(nodes', idToNode', m)
    {
      assert SegmentOk(nodes, idToNode, m);
    }
  }

  /**
   * Replacing the payload of segment `n` keeps every id mapping valid, provided the new
   * payload keeps the segment's ids and every new mapping names `n` and an id it holds.
   */
  lemma ReplaceIdsOk(nodes: Nodes, nodes': Nodes, idToNode: map<Id, NodeId>, idToNode': map<Id, NodeId>, nextNode: NodeId, n: NodeId,
                     prev: NodeId, next: NodeId, c': seq<char>, ids': seq<Entry>, parent: Option<NodeId>)
    requires forall id :: id in idToNode ==> IdOk(nodes, idToNode, nextNode, id)
    requires IsSegment(nodes, n) && n < nextNode && nodes' == nodes[n := Node(StringSegment(prev, next, c', ids'), parent)]
    requires IdsOf(nodes[n].data.ids) <= IdsOf(ids')
    requires forall id :: id in idToNode ==> id in idToNode' && idToNode'[id] == idToNode[id]
    requires forall id :: id in idToNode' && id !in idToNode ==> idToNode'[id] == n && id in IdsOf(ids')
    ensures forall id :: id in idToNode' ==> IdOk(nodes', idToNode', nextNode, id)
  {
    forall id | id in idToNode'
      ensures IdOk(nodes', idToNode', nextNode, id)
    {
      if id in idToNode {
        assert IdOk(nodes, idToNode, nextNode, id);
      }
    }
  }

  /** The ids of an id list. */
  lemma IdsOfAt(ids: seq<Entry>, id: Id)
    requires id in IdsOf(ids)
    ensures exists k :: 0 <= k < |ids| && ids[k].id == id
  {
    var e :| e in ids && e.id == id;
  }

  /** The payload `insert_character` gives a segment is well formed and holds one id more. */
  lemma InsertedSegmentOk(c: seq<char>, ids: seq<Entry>, li: nat, p: nat, x: Id, ch: char, idToNode: map<Id, NodeId>, n: NodeId)
    requires OffsetsOk(c, ids) && DistinctIds(ids) && li <= |ids| && p == LiveCount(ids[..li]) && x !in idToNode
    requires forall k :: 0 <= k < |ids| ==> ids[k].id in idToNode && idToNode[ids[k].id] == n
    ensures p <= |c|
    ensures OffsetsOk(InsertAt(c, p, ch), InsertedIds(ids, li, Entry(x, Some(p))))
    ensures DistinctIds(InsertedIds(ids, li, Entry(x, Some(p))))
    ensures forall k :: 0 <= k < |ids| + 1 ==>
      InsertedIds(ids, li, Entry(x, Some(p)))[k].id in idToNode[x := n] && idToNode[x := n][InsertedIds(ids, li, Entry(x, Some(p)))[k].id] == n
    ensures IdsOf(InsertedIds(ids, li, Entry(x, Some(p)))) == IdsOf(ids) + {x}
  {
    var e := Entry(x, Some(p));
    var ids' := InsertedIds(ids, li, e);
    InsertKeepsOffsets(c, ids, li, x, ch);
    InsertedIdsAt(ids, li, e);
    InsertedIdsDistinct(ids, li, e);
    forall k | 0 <= k < |ids'|
      ensures ids'[k].id == x || (ids'[k].id in idToNode && idToNode[ids'[k].id] == n)
    {
      if k < li {
        assert ids'[k].id == ids[k].id;
      } else if k > li {
        assert ids'[k].id == ids[k - 1].id;
      }
    }
    InsertedIdsOf(ids, li, e);
  }

  lemma InsertedIdsOf(ids: seq<Entry>, li: nat, e: Entry)
    requires li <= |ids|
    ensures IdsOf(InsertedIds(ids, li, e)) == IdsOf(ids) + {e.id}
  {
    var ids' := InsertedIds(ids, li, e);
    InsertedIdsAt(ids, li, e);
    InsertedIdsNew(ids, li, e);
    InsertedIdsOld(ids, li, e);
    assert ids'[li] in ids';
  }

  /** Every id of `InsertedIds(ids, li, e)` is an old id or `e`'s. */
  lemma InsertedIdsNew(ids: seq<Entry>, li: nat, e: Entry)
    requires li <= |ids|
    ensures IdsOf(InsertedIds(ids, li, e)) <= IdsOf(ids) + {e.id}
  {
    var ids' := InsertedIds(ids, li, e);
    InsertedIdsAt(ids, li, e);
    forall id | id in IdsOf(ids')
      ensures id in IdsOf(ids) + {e.id}
    {
      IdsOfAt(ids', id);
      var k :| 0 <= k < |ids'| && ids'[k].id == id;
      if k < li {
        assert ids[k] in ids;
      } else if k > li {
        assert ids[k - 1] in ids;
      }
    }
  }

  /** Every old id is still an id of `InsertedIds(ids, li, e)`. */
  lemma InsertedIdsOld(ids: seq<Entry>, li: nat, e: Entry)
    requires li <= |ids|
    ensures IdsOf(ids) <= IdsOf(InsertedIds(ids, li, e))
  {
    var ids' := InsertedIds(ids, li, e);
    InsertedIdsAt(ids, li, e);
    forall id | id in IdsOf(ids)
      ensures id in IdsOf(ids')
    {
      IdsOfAt(ids, id);
      var k :| 0 <= k < |ids| && ids[k].id == id;
      var k' := if k < li then k else k + 1;
      assert ids'[k'].id == id;
      assert ids'[k'] in ids';
    }
  }

  /** A payload change in segment `ss[j]` of ring `s`, seen from the elements of every string. */
  lemma ReplaceElements(nodes: Nodes, nodes': Nodes, strings: Strings, s: NodeId, j: nat,
                        prev: NodeId, next: NodeId, c': seq<char>, ids': seq<Entry>, parent: Option<NodeId>)
    requires Rings(nodes, strings) && s in strings && j < |strings[s]|
    requires nodes' == nodes[strings[s][j] := Node(StringSegment(prev, next, c', ids'), parent)]
    ensures Elements(nodes, strings[s]) ==
      Elements(nodes, strings[s][..j]) + Payload(nodes, strings[s][j]) + Elements(nodes, strings[s][j + 1..])
    ensures Elements(nodes', strings[s]) ==
      Elements(nodes, strings[s][..j]) + View(c', ids') + Elements(nodes, strings[s][j + 1..])
    ensures forall t :: t in strings && t != s ==> Elements(nodes', strings[t]) == Elements(nodes, strings[t])
  {
    var ss := strings[s];
    assert Ring(nodes, s, ss);
    forall k | 0 <= k < |ss| && k != j
      ensures Payload(nodes', ss[k]) == Payload(nodes, ss[k])
    {
      assert Distinct(ss);
    }
    ElementsChange(nodes, nodes', ss, j);
    ElementsSplice(nodes, ss, j);
    assert ss[j] in ss;
    OthersFrame(nodes, nodes', strings, s);
  }

  /**
   * `insert_character`'s edit of segment `ss[j]`: character `ch` with the new id `x` goes in
   * at entry index `li` (offset `p`, the live entries before it), and `x` is mapped to the
   * segment. The string's elements gain `Cell(x, ch)` at the matching position.
   */
  lemma InsertCharWf(nodes: Nodes, idToNode: map<Id, NodeId>, nextNode: NodeId, strings: Strings, s: NodeId, j: nat,
                     prev: NodeId, next: NodeId, c: seq<char>, ids: seq<Entry>, parent: Option<NodeId>,
                     li: nat, p: nat, x: Id, ch: char, nodes': Nodes)
    requires Wf(nodes, idToNode, nextNode, strings) && s in strings && j < |strings[s]|
    requires strings[s][j] in nodes && nodes[strings[s][j]] == Node(StringSegment(prev, next, c, ids), parent)
    requires li <= |ids| && p == LiveCount(ids[..li]) && p <= |c| && x !in idToNode
    requires nodes' == nodes[strings[s][j] := Node(StringSegment(prev, next, InsertAt(c, p, ch), InsertedIds(ids, li, Entry(x, Some(p)))), parent)]
    ensures Wf(nodes', idToNode[x := strings[s][j]], nextNode, strings)
    ensures Elements(nodes, strings[s]) == Elements(nodes, strings[s][..j]) + View(c, ids) + Elements(nodes, strings[s][j + 1..])
    ensures Elements(nodes', strings[s]) == Elements(nodes, strings[s][..j]) + InsertAt(View(c, ids), li, Cell(x, Some(ch))) + Elements(nodes, strings[s][j + 1..])
    ensures OthersKept(nodes, nodes', strings, s)
  {
    var n := strings[s][j];
    InsertCharKeepsWf(nodes, idToNode, nextNode, strings, n, prev, next, c, ids, parent, li, p, x, ch, nodes');
    InsertCharElements(nodes, strings, s, j, prev, next, c, ids, parent, li, p, x, ch, nodes');
    SpliceInsert(Elements(nodes, strings[s]), Elements(nodes', strings[s]), Elements(nodes, strings[s][..j]),
                 View(c, ids), Elements(nodes, strings[s][j + 1..]), li, Cell(x, Some(ch)));
  }

  /** The segment edit of `insert_character` keeps the tree well formed. */
  lemma InsertCharKeepsWf(nodes: Nodes, idToNode: map<Id, NodeId>, nextNode: NodeId, strings: Strings, n: NodeId,
                          prev: NodeId, next: NodeId, c: seq<char>, ids: seq<Entry>, parent: Option<NodeId>,
                          li: nat, p: nat, x: Id, ch: char, nodes': Nodes)
    requires Wf(nodes, idToNode, nextNode, strings)
    requires n in nodes && nodes[n] == Node(StringSegment(prev, next, c, ids), parent)
    requires li <= |ids| && p == LiveCount(ids[..li]) && p <= |c| && x !in idToNode
    requires nodes' == nodes[n := Node(StringSegment(prev, next, InsertAt(c, p, ch), InsertedIds(ids, li, Entry(x, Some(p)))), parent)]
    ensures Wf(nodes', idToNode[x := n], nextNode, strings) && OffsetsOk(c, ids)
  {
    assert SegmentOk(nodes, idToNode, n);
    InsertCharParts(nodes, idToNode, idToNode[x := n], nextNode, n, prev, next, c, ids, parent, li, p, x, ch, nodes');
    assert SameShape(nodes, nodes');
    ShapeWf(nodes, nodes', idToNode, idToNode[x := n], nextNode, strings);
  }

  /** The segment and id parts of the invariant after `insert_character`'s segment edit. */
  lemma InsertCharParts(nodes: Nodes, idToNode: map<Id, NodeId>, idToNode': map<Id, NodeId>, nextNode: NodeId, n: NodeId,
                        prev: NodeId, next: NodeId, c: seq<char>, ids: seq<Entry>, parent: Option<NodeId>,
                        li: nat, p: nat, x: Id, ch: char, nodes': Nodes)
    requires forall m :: IsSegment(nodes, m) ==> SegmentOk(nodes, idToNode, m)
    requires forall id :: id in idToNode ==> IdOk(nodes, idToNode, nextNode, id)
    requires n in nodes && n < nextNode && nodes[n] == Node(StringSegment(prev, next, c, ids), parent)
    requires li <= |ids| && p == LiveCount(ids[..li]) && p <= |c| && x !in idToNode
    requires nodes' == nodes[n := Node(StringSegment(prev, next, InsertAt(c, p, ch), InsertedIds(ids, li, Entry(x, Some(p)))), parent)]
    requires idToNode' == idToNode[x := n]
    ensures forall m :: IsSegment(nodes', m) ==> SegmentOk(nodes', idToNode', m)
    ensures forall id :: id in idToNode' ==> IdOk(nodes', idToNode', nextNode, id)
  {
    var c' := InsertAt(c, p, ch);
    var ids' := InsertedIds(ids, li, Entry(x, Some(p)));
    assert SegmentOk(nodes, idToNode, n);
    InsertedSegmentOk(c, ids, li, p, x, ch, idToNode, n);
    ReplaceSegmentsOk(nodes, nodes', idToNode, idToNode', n, prev, next, c', ids', parent);
    ReplaceIdsOk(nodes, nodes', idToNode, idToNode', nextNode, n, prev, next, c', ids', parent);
  }

  /** The segment edit of `delete_character` keeps the tree well formed. */
  lemma DeleteCharKeepsWf(nodes: Nodes, idToNode: map<Id, NodeId>, nextNode: NodeId, strings: Strings, n: NodeId,
                          prev: NodeId, next: NodeId, c: seq<char>, ids: seq<Entry>, parent: Option<NodeId>,
                          i: nat, nodes': Nodes)
    requires Wf(nodes, idToNode, nextNode, strings)
    requires n in nodes && nodes[n] == Node(StringSegment(prev, next, c, ids), parent)
    requires i < |ids| && ids[i].offset.Some?
    requires ids[i].offset.value < |c| && CanShift(ids[i := Entry(ids[i].id, None)], i, -1)
    requires nodes' == nodes[n := Node(StringSegment(prev, next, RemoveAt(c, ids[i].offset.value), DeletedIds(ids, i)), parent)]
    ensures Wf(nodes', idToNode, nextNode, strings) && OffsetsOk(c, ids)
  {
    var c' := RemoveAt(c, ids[i].offset.value);
    var ids' := DeletedIds(ids, i);
    assert SegmentOk(nodes, idToNode, n);
    DeletedSegmentOk(c, ids, i, idToNode, n);
    ReplaceSegmentsOk(nodes, nodes', idToNode, idToNode, n, prev, next, c', ids', parent);
    ReplaceIdsOk(nodes, nodes', idToNode, idToNode, nextNode, n, prev, next, c', ids', parent);
    assert SameShape(nodes, nodes');
    ShapeWf(nodes, nodes', idToNode, idToNode, nextNode, strings);
  }

  lemma InsertCharElements(nodes: Nodes, strings: Strings, s: NodeId, j: nat,
                           prev: NodeId, next: NodeId, c: seq<char>, ids: seq<Entry>, parent: Option<NodeId>,
                           li: nat, p: nat, x: Id, ch: char, nodes': Nodes)
    requires Rings(nodes, strings) && s in strings && j < |strings[s]|
    requires strings[s][j] in nodes && nodes[strings[s][j]] == Node(StringSegment(prev, next, c, ids), parent)
    requires OffsetsOk(c, ids) && li <= |ids| && p == LiveCount(ids[..li]) && p <= |c|
    requires nodes' == nodes[strings[s][j] := Node(StringSegment(prev, next, InsertAt(c, p, ch), InsertedIds(ids, li, Entry(x, Some(p)))), parent)]
    ensures Elements(nodes, strings[s]) == Elements(nodes, strings[s][..j]) + View(c, ids) + Elements(nodes, strings[s][j + 1..])
    ensures Elements(nodes', strings[s]) == Elements(nodes, strings[s][..j]) + InsertAt(View(c, ids), li, Cell(x, Some(ch))) + Elements(nodes, strings[s][j + 1..])
    ensures forall t :: t in strings && t != s ==> Elements(nodes', strings[t]) == Elements(nodes, strings[t])
  {
    var c' := InsertAt(c, p, ch);
    var ids' := InsertedIds(ids, li, Entry(x, Some(p)));
    ReplaceElements(nodes, nodes', strings, s, j, prev, next, c', ids', parent);
    InsertKeepsOffsets(c, ids, li, x, ch);
    var a, b := Elements(nodes, strings[s][..j]), Elements(nodes, strings[s][j + 1..]);
    var v := View(c, ids);
    assert Payload(nodes, strings[s][j]) == v;
    assert Elements(nodes, strings[s]) == a + v + b;
    assert Elements(nodes', strings[s]) == a + InsertAt(v, li, Cell(x, Some(ch))) + b;
  }

  /**
   * `delete_character`'s edit of segment `ss[j]`: the live entry `i` becomes a tombstone and
   * its character leaves `contents`. The string's elements change in that one cell.
   */
  lemma DeleteCharWf(nodes: Nodes, idToNode: map<Id, NodeId>, nextNode: NodeId, strings: Strings, s: NodeId, j: nat,
                     prev: NodeId, next: NodeId, c: seq<char>, ids: seq<Entry>, parent: Option<NodeId>,
                     i: nat, nodes': Nodes)
    requires Wf(nodes, idToNode, nextNode, strings) && s in strings && j < |strings[s]|
    requires strings[s][j] in nodes && nodes[strings[s][j]] == Node(StringSegment(prev, next, c, ids), parent)
    requires i < |ids| && ids[i].offset.Some?
    requires ids[i].offset.value < |c| && CanShift(ids[i := Entry(ids[i].id, None)], i, -1)
    requires nodes' == nodes[strings[s][j] := Node(StringSegment(prev, next, RemoveAt(c, ids[i].offset.value), DeletedIds(ids, i)), parent)]
    ensures Wf(nodes', idToNode, nextNode, strings)
    ensures |Elements(nodes, strings[s][..j])| + i < |Elements(nodes, strings[s])|
    ensures Elements(nodes', strings[s]) ==
      Elements(nodes, strings[s])[|Elements(nodes, strings[s][..j])| + i := Cell(ids[i].id, None)]
    ensures OthersKept(nodes, nodes', strings, s)
  {
    var n := strings[s][j];
    var c' := RemoveAt(c, ids[i].offset.value);
    var ids' := DeletedIds(ids, i);
    DeleteCharKeepsWf(nodes, idToNode, nextNode, strings, n, prev, next, c, ids, parent, i, nodes');
    DeleteCharElements(nodes, strings, s, j, prev, next, c, ids, parent, i, nodes');
    SpliceUpdate(Elements(nodes, strings[s]), Elements(nodes', strings[s]), Elements(nodes, strings[s][..j]),
                 View(c, ids), Elements(nodes, strings[s][j + 1..]), i, Cell(ids[i].id, None));
  }

  /** The segment facts `delete_character` needs: the tombstoned entry keeps its id. */
  lemma DeletedSegmentOk(c: seq<char>, ids: seq<Entry>, i: nat, idToNode: map<Id, NodeId>, n: NodeId)
    requires OffsetsOk(c, ids) && DistinctIds(ids) && i < |ids| && ids[i].offset.Some?
    requires forall k :: 0 <= k < |ids| ==> ids[k].id in idToNode && idToNode[ids[k].id] == n
    ensures ids[i].offset.value < |c| && CanShift(ids[i := Entry(ids[i].id, None)], i, -1)
    ensures OffsetsOk(RemoveAt(c, ids[i].offset.value), DeletedIds(ids, i))
    ensures DistinctIds(DeletedIds(ids, i))
    ensures forall k :: 0 <= k < |DeletedIds(ids, i)| ==>
      DeletedIds(ids, i)[k].id in idToNode && idToNode[DeletedIds(ids, i)[k].id] == n
    ensures IdsOf(ids) <= IdsOf(DeletedIds(ids, i))
  {
    DeleteKeepsOffsets(c, ids, i);
    DeletedIdsAt(ids, i);
    DeletedIdsDistinct(ids, i);
    var ids' := DeletedIds(ids, i);
    forall id | id in IdsOf(ids)
      ensures id in IdsOf(ids')
    {
      var e :| e in ids && e.id == id;
      var k :| 0 <= k < |ids| && ids'[k].id == e.id;
      assert ids'[k] in ids';
    }
  }

  lemma DeleteCharElements(nodes: Nodes, strings: Strings, s: NodeId, j: nat,
                           prev: NodeId, next: NodeId, c: seq<char>, ids: seq<Entry>, parent: Option<NodeId>,
                           i: nat, nodes': Nodes)
    requires Rings(nodes, strings) && s in strings && j < |strings[s]|
    requires strings[s][j] in nodes && nodes[strings[s][j]] == Node(StringSegment(prev, next, c, ids), parent)
    requires OffsetsOk(c, ids) && i < |ids| && ids[i].offset.Some?
    requires ids[i].offset.value < |c| && CanShift(ids[i := Entry(ids[i].id, None)], i, -1)
    requires nodes' == nodes[strings[s][j] := Node(StringSegment(prev, next, RemoveAt(c, ids[i].offset.value), DeletedIds(ids, i)), parent)]
    ensures Elements(nodes, strings[s]) == Elements(nodes, strings[s][..j]) + View(c, ids) + Elements(nodes, strings[s][j + 1..])
    ensures i < |View(c, ids)|
    ensures Elements(nodes', strings[s]) ==
      Elements(nodes, strings[s][..j]) + View(c, ids)[i := Cell(ids[i].id, None)] + Elements(nodes, strings[s][j + 1..])
    ensures forall t :: t in strings && t != s ==> Elements(nodes', strings[t]) == Elements(nodes, strings[t])
  {
    var c' := RemoveAt(c, ids[i].offset.value);
    var ids' := DeletedIds(ids, i);
    ReplaceElements(nodes, nodes', strings, s, j, prev, next, c', ids', parent);
    DeleteKeepsOffsets(c, ids, i);
    var a, b := Elements(nodes, strings[s][..j]), Elements(nodes, strings[s][j + 1..]);
    var v := View(c, ids);
    assert Payload(nodes, strings[s][j]) == v;
    assert Elements(nodes, strings[s]) == a + v + b;
    assert Elements(nodes', strings[s]) == a + v[i := Cell(ids[i].id, None)] + b;
  }
}
