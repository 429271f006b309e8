/**
 * The ring edits of src/tree.rs on values: linking a new empty segment into a string's ring
 * (`insert_segment`), unlinking one (`delete_segment`), and the two payload moves built on
 * them: cutting a segment in two (`consider_split`) and merging a segment into its
 * predecessor (`consider_join`). Each lemma states that the edit keeps the tree invariant and
 * how the string's list of segments and its elements change.
 */
module RingEdits {
  import opened Common
  import opened Segments
  import opened TreeNodes
  import opened TreeEdits

  // ---------------------------------------------------------------------------------------
  // Links

  /** The forward link of a ring member: a segment's `next`, a string's `start`. */
  function NextLink(node: Node): NodeId
    requires node.data.StringSegment? || node.data.String?
  {
    if node.data.StringSegment? then node.data.next else node.data.start
  }

  /** The backward link of a ring member: a segment's `prev`, a string's `end`. */
  function PrevLink(node: Node): NodeId
    requires node.data.StringSegment? || node.data.String?
  {
    if node.data.StringSegment? then node.data.prev else node.data.end
  }

  /** `node` with its forward link set to `n` (any other node is left alone). */
  function LinkNext(node: Node, n: NodeId): (r: Node)
    ensures r.parent == node.parent
    ensures r.data.StringSegment? == node.data.StringSegment? && r.data.String? == node.data.String?
    ensures (node.data.StringSegment? || node.data.String?) ==> NextLink(r) == n && PrevLink(r) == PrevLink(node)
  {
    match node.data
    case StringSegment(p, _, c, ids) => Node(StringSegment(p, n, c, ids), node.parent)
    case String(_, e) => Node(String(n, e), node.parent)
    case _ => node
  }

  /** `node` with its backward link set to `n` (any other node is left alone). */
  function LinkPrev(node: Node, n: NodeId): (r: Node)
    ensures r.parent == node.parent
    ensures r.data.StringSegment? == node.data.StringSegment? && r.data.String? == node.data.String?
    ensures (node.data.StringSegment? || node.data.String?) ==> PrevLink(r) == n && NextLink(r) == NextLink(node)
  {
    match node.data
    case StringSegment(_, q, c, ids) => Node(StringSegment(n, q, c, ids), node.parent)
    case String(s, _) => Node(String(s, n), node.parent)
    case _ => node
  }

  /** Under `Linked`, a ring member's links are its neighbours in the list. */
  lemma LinksOfRing(nodes: Nodes, s: NodeId, ss: seq<NodeId>, j: nat)
    requires Ring(nodes, s, ss) && j <= |ss|
    ensures Insertable(nodes, if j == 0 then s else ss[j - 1])
    ensures NextLink(nodes[if j == 0 then s else ss[j - 1]]) == if j == |ss| then s else ss[j]
  {
    if j > 0 {
      assert Linked(nodes, s, ss, j - 1);
    }
    if j < |ss| {
      assert Linked(nodes, s, ss, j);
    }
  }

  // ---------------------------------------------------------------------------------------
  // Linking a segment in

  /** `insert_segment(appendTo)` does not panic: `appendTo` and its follower are ring members. */
  predicate Insertable(nodes: Nodes, appendTo: NodeId) {
    && appendTo in nodes && (nodes[appendTo].data.StringSegment? || nodes[appendTo].data.String?)
    && NextLink(nodes[appendTo]) in nodes
  }

  /**
   * The arena after `insert_segment(appendTo)` with the new node number `nn`: `appendTo`'s
   * forward link and its old follower's backward link now name `nn`, and `nn` is an empty
   * segment between them whose parent is the string.
   */
  function SegmentInserted(nodes: Nodes, appendTo: NodeId, nn: NodeId): Nodes
    requires Insertable(nodes, appendTo)
  {
    var node := nodes[appendTo];
    var next := NextLink(node);
    var parent := if node.data.StringSegment? then node.parent else Some(appendTo);
    var n1 := nodes[appendTo := LinkNext(node, nn)][nn := Node(StringSegment(appendTo, next, [], []), parent)];
    n1[next := LinkPrev(n1[next], nn)]
  }

  /** The new ring `InsertAt(ss, j, nn)`, one index at a time. */
  lemma InsertedLinked(nodes: Nodes, nodes': Nodes, s: NodeId, ss: seq<NodeId>, j: nat, nn: NodeId, k: nat)
    requires Ring(nodes, s, ss) && j <= |ss| && nn !in nodes && k <= |ss|
    requires Insertable(nodes, if j == 0 then s else ss[j - 1])
    requires nodes' == SegmentInserted(nodes, if j == 0 then s else ss[j - 1], nn)
    ensures Linked(nodes', s, InsertAt(ss, j, nn), k)
  {
    var ss' := InsertAt(ss, j, nn);
    var a := if j == 0 then s else ss[j - 1];
    var b := if j == |ss| then s else ss[j];
    LinksOfRing(nodes, s, ss, j);
    if j > 0 {
      assert Linked(nodes, s, ss, j - 1);
    }
    assert a != b by {
      if j > 0 && j < |ss| {
        assert Distinct(ss);
      } else if j > 0 {
        assert Linked(nodes, s, ss, j - 1);
      } else if j < |ss| {
        assert Linked(nodes, s, ss, j);
      }
    }
    if k < j {
      assert Linked(nodes, s, ss, k);
      assert ss'[k] == ss[k];
      if k < j - 1 {
        assert Distinct(ss) && ss[k] != ss[j - 1];
        assert ss[k] != b by {
          if j < |ss| {
            assert Distinct(ss);
          }
        }
      }
    } else if k > j {
      assert Linked(nodes, s, ss, k - 1);
      assert ss'[k] == ss[k - 1];
      if k > j + 1 {
        assert Distinct(ss) && ss[k - 1] != ss[j];
        assert ss[k - 1] != a by {
          if j > 0 {
            assert Distinct(ss);
          }
        }
      }
    }
  }

  /**
   * `insert_segment` keeps the invariant: the empty segment `nn = nextNode` joins the ring of
   * `s` at index `j`, and no string's elements change.
   */
  lemma InsertSegmentWf(nodes: Nodes, idToNode: map<Id, NodeId>, nextNode: NodeId, strings: Strings, s: NodeId, j: nat, nodes': Nodes)
    requires Wf(nodes, idToNode, nextNode, strings) && s in strings && j <= |strings[s]|
    requires Insertable(nodes, if j == 0 then s else strings[s][j - 1])
    requires nodes' == SegmentInserted(nodes, if j == 0 then s else strings[s][j - 1], nextNode)
    ensures Wf(nodes', idToNode, nextNode + 1, strings[s := InsertAt(strings[s], j, nextNode)])
    ensures CellsKept(nodes, strings, nodes', strings[s := InsertAt(strings[s], j, nextNode)])
  {
    var ss := strings[s];
    var nn := nextNode;
    var ss' := InsertAt(ss, j, nn);
    assert Ring(nodes, s, ss);
    assert nn !in nodes;
    InsertedShape(nodes, nodes', s, ss, j, nn);
    InsertedRing(nodes, nodes', s, ss, j, nn);
    InsertedRings(nodes, nodes', strings, s, j, nn);
    InsertedSegmentsOk(nodes, nodes', idToNode, s, ss, nn);
    InsertedIdsOk(nodes, nodes', idToNode, s, ss, nn);
    InsertedBounds(nodes, nodes', nextNode, s, ss, nn);
    InsertedElements(nodes, nodes', s, ss, j, nn);
    OthersFrame(nodes, nodes', strings, s);
    CellsKeptOfOthers(nodes, strings, nodes', s, ss');
  }

  /** `insert_segment` adds an empty segment and moves no payload. */
  lemma InsertedPayloads(nodes: Nodes, nextNode: NodeId, strings: Strings, s: NodeId, j: nat, nodes': Nodes)
    requires Rings(nodes, strings) && (forall n :: n in nodes ==> n < nextNode) && s in strings && j <= |strings[s]|
    requires Insertable(nodes, if j == 0 then s else strings[s][j - 1])
    requires nodes' == SegmentInserted(nodes, if j == 0 then s else strings[s][j - 1], nextNode)
    ensures IsSegment(nodes', nextNode) && nodes'[nextNode].data.ids == [] && nodes'[nextNode].data.contents == []
    ensures PayloadsKept(nodes, nodes')
  {
    assert Ring(nodes, s, strings[s]);
    InsertedShape(nodes, nodes', s, strings[s], j, nextNode);
  }

  /** Everything `insert_segment` establishes, for the caller that performs it. */
  lemma InsertSegmentStep(nodes: Nodes, idToNode: map<Id, NodeId>, nextNode: NodeId, strings: Strings, s: NodeId, j: nat, nodes': Nodes)
    requires Wf(nodes, idToNode, nextNode, strings) && s in strings && j <= |strings[s]|
    requires Insertable(nodes, if j == 0 then s else strings[s][j - 1])
    requires nodes' == SegmentInserted(nodes, if j == 0 then s else strings[s][j - 1], nextNode)
    ensures Wf(nodes', idToNode, nextNode + 1, strings[s := InsertAt(strings[s], j, nextNode)])
    ensures CellsKept(nodes, strings, nodes', strings[s := InsertAt(strings[s], j, nextNode)])
    ensures PayloadsKept(nodes, nodes')
    ensures IsSegment(nodes', nextNode) && nodes'[nextNode].data.ids == [] && nodes'[nextNode].data.contents == []
  {
    InsertSegmentWf(nodes, idToNode, nextNode, strings, s, j, nodes');
    InsertedPayloads(nodes, nextNode, strings, s, j, nodes');
  }

  lemma InsertedBounds(nodes: Nodes, nodes': Nodes, nextNode: NodeId, s: NodeId, ss: seq<NodeId>, nn: NodeId)
    requires (forall n :: n in nodes ==> n < nextNode) && nn == nextNode
    requires forall n :: n in nodes && nodes[n].data.Object? ==> nodes[n].data.items == map[]
    requires LinksOnly(nodes, nodes', s, ss, nn)
    ensures forall n :: n in nodes' ==> n < nextNode + 1
    ensures forall n :: n in nodes' && nodes'[n].data.Object? ==> nodes'[n].data.items == map[]
  {
  }

  /** What `insert_segment` leaves alone: every old node keeps its kind, parent and payload. */
  ghost predicate LinksOnly(nodes: Nodes, nodes': Nodes, s: NodeId, ss: seq<NodeId>, nn: NodeId) {
    && (forall n :: n in nodes ==> n in nodes')
    && (forall n :: n in nodes' ==> n in nodes || n == nn)
    && IsSegment(nodes', nn) && nodes'[nn].parent == Some(s) && nodes'[nn].data.ids == []
    && nodes'[nn].data.contents == []
    && (forall n :: n in nodes && n != s && n !in ss ==> nodes'[n] == nodes[n])
    && (forall n :: n in nodes ==> nodes'[n].parent == nodes[n].parent)
    && (forall n :: n in nodes ==> nodes'[n].data.StringSegment? == nodes[n].data.StringSegment?)
    && (forall n :: n in nodes ==> nodes'[n].data.String? == nodes[n].data.String?)
    && (forall n :: IsSegment(nodes, n) ==>
          nodes'[n].data.contents == nodes[n].data.contents && nodes'[n].data.ids == nodes[n].data.ids)
    && (forall n :: n in nodes && nodes'[n].data.Object? ==> nodes'[n] == nodes[n])
  }

  lemma InsertedRings(nodes: Nodes, nodes': Nodes, strings: Strings, s: NodeId, j: nat, nn: NodeId)
    requires Rings(nodes, strings) && s in strings && j <= |strings[s]| && nn !in nodes
    requires LinksOnly(nodes, nodes', s, strings[s], nn)
    requires Ring(nodes', s, InsertAt(strings[s], j, nn))
    ensures Rings(nodes', strings[s := InsertAt(strings[s], j, nn)])
  {
    OthersFrame(nodes, nodes', strings, s);
    InsertedInRing(nodes, nodes', strings, s, j, nn);
  }

  lemma InsertedInRing(nodes: Nodes, nodes': Nodes, strings: Strings, s: NodeId, j: nat, nn: NodeId)
    requires forall n :: IsSegment(nodes, n) ==> InRing(nodes, strings, n)
    requires s in strings && j <= |strings[s]| && nn !in nodes
    requires LinksOnly(nodes, nodes', s, strings[s], nn)
    ensures forall n :: IsSegment(nodes', n) ==> InRing(nodes', strings[s := InsertAt(strings[s], j, nn)], n)
  {
    var ss := strings[s];
    var ss' := InsertAt(ss, j, nn);
    var strings' := strings[s := ss'];
    forall n | IsSegment(nodes', n)
      ensures InRing(nodes', strings', n)
    {
      if n != nn {
        assert InRing(nodes, strings, n);
        if nodes[n].parent.value == s {
          var k :| 0 <= k < |ss| && ss[k] == n;
          assert ss'[if k < j then k else k + 1] == n;
        }
      } else {
        assert ss'[j] == nn;
      }
    }
  }

  lemma InsertedSegmentsOk(nodes: Nodes, nodes': Nodes, idToNode: map<Id, NodeId>, s: NodeId, ss: seq<NodeId>, nn: NodeId)
    requires forall m :: IsSegment(nodes, m) ==> SegmentOk(nodes, idToNode, m)
    requires LinksOnly(nodes, nodes', s, ss, nn) && nn !in nodes
    ensures forall m :: IsSegment(nodes', m) ==> SegmentOk(nodes', idToNode, m)
  {
    forall m | IsSegment(nodes', m)
      ensures SegmentOk(nodes', idToNode, m)
    {
      if m != nn {
        assert SegmentOk(nodes, idToNode, m);
      }
    }
  }

  lemma InsertedIdsOk(nodes: Nodes, nodes': Nodes, idToNode: map<Id, NodeId>, s: NodeId, ss: seq<NodeId>, nn: NodeId)
    requires forall id :: id in idToNode ==> IdOk(nodes, idToNode, nn, id)
    requires LinksOnly(nodes, nodes', s, ss, nn) && nn !in nodes
    ensures forall id :: id in idToNode ==> IdOk(nodes', idToNode, nn + 1, id)
  {
    forall id | id in idToNode
      ensures IdOk(nodes', idToNode, nn + 1, id)
    {
      assert IdOk(nodes, idToNode, nn, id);
    }
  }

  /** Away from `nn`, `insert_segment` changes links and nothing else. */
  lemma InsertedShape(nodes: Nodes, nodes': Nodes, s: NodeId, ss: seq<NodeId>, j: nat, nn: NodeId)
    requires Ring(nodes, s, ss) && j <= |ss| && nn !in nodes
    requires Insertable(nodes, if j == 0 then s else ss[j - 1])
    requires nodes' == SegmentInserted(nodes, if j == 0 then s else ss[j - 1], nn)
    ensures LinksOnly(nodes, nodes', s, ss, nn)
  {
    LinksOfRing(nodes, s, ss, j);
    if j > 0 {
      assert Linked(nodes, s, ss, j - 1);
    }
  }

  /** The ring of `s` after `insert_segment`. */
  lemma InsertedRing(nodes: Nodes, nodes': Nodes, s: NodeId, ss: seq<NodeId>, j: nat, nn: NodeId)
    requires Ring(nodes, s, ss) && j <= |ss| && nn !in nodes
    requires Insertable(nodes, if j == 0 then s else ss[j - 1])
    requires nodes' == SegmentInserted(nodes, if j == 0 then s else ss[j - 1], nn)
    ensures Ring(nodes', s, InsertAt(ss, j, nn))
  {
    var ss' := InsertAt(ss, j, nn);
    LinksOfRing(nodes, s, ss, j);
    forall k | 0 <= k <= |ss|
      ensures Linked(nodes', s, ss', k)
    {
      InsertedLinked(nodes, nodes', s, ss, j, nn, k);
    }
    forall i, k | 0 <= i < k < |ss'|
      ensures ss'[i] != ss'[k]
    {
      assert Distinct(ss);
      if i == j || k == j {
        var o := if i == j then k else i;
        var q := if o < j then o else o - 1;
        assert ss'[o] == ss[q];
        assert Linked(nodes, s, ss, q);
      }
    }
    if j > 0 && j < |ss| {
      assert ss[j - 1] != s by {
        assert Linked(nodes, s, ss, j - 1);
      }
      assert ss[j] != s by {
        assert Linked(nodes, s, ss, j);
      }
    } else if j > 0 {
      assert ss[j - 1] != s by {
        assert Linked(nodes, s, ss, j - 1);
      }
    } else if j < |ss| {
      assert ss[j] != s by {
        assert Linked(nodes, s, ss, j);
      }
    }
  }

  /** `insert_segment` adds no elements. */
  lemma InsertedElements(nodes: Nodes, nodes': Nodes, s: NodeId, ss: seq<NodeId>, j: nat, nn: NodeId)
    requires Ring(nodes, s, ss) && j <= |ss| && nn !in nodes
    requires LinksOnly(nodes, nodes', s, ss, nn)
    ensures Elements(nodes', InsertAt(ss, j, nn)) == Elements(nodes, ss)
  {
    forall k | 0 <= k < |ss|
      ensures Payload(nodes', ss[k]) == Payload(nodes, ss[k])
    {
      assert Linked(nodes, s, ss, k);
    }
    ElementsOfInserted(nodes, nodes', ss, j, nn);
  }

  /** Elements do not see a new empty segment, nor link changes. */
  lemma ElementsOfInserted(nodes: Nodes, nodes': Nodes, ss: seq<NodeId>, j: nat, nn: NodeId)
    requires j <= |ss| && Payload(nodes', nn) == []
    requires forall k :: 0 <= k < |ss| ==> Payload(nodes', ss[k]) == Payload(nodes, ss[k])
    ensures Elements(nodes', InsertAt(ss, j, nn)) == Elements(nodes, ss)
  {
    var ss' := InsertAt(ss, j, nn);
    var pre, post := ss[..j], ss[j..];
    assert ss'[..j] == pre && ss'[j + 1..] == post;
    ElementsSplice(nodes', ss', j);
    assert Elements(nodes', ss') == Elements(nodes', pre) + Elements(nodes', post);
    assert pre + post == ss;
    ElementsAppend(nodes', pre, post);
    ElementsFrame(nodes, nodes', ss);
  }

  // ---------------------------------------------------------------------------------------
  // Unlinking a segment

  /**
   * `delete_segment(n)` does not panic: `n` is a segment whose neighbours are ring members,
   * and it is not the only segment (its neighbours differ).
   */
  predicate Deletable(nodes: Nodes, n: NodeId) {
    && IsSegment(nodes, n)
    && nodes[n].data.prev != nodes[n].data.next
    && nodes[n].data.prev != n && nodes[n].data.next != n
    && nodes[n].data.prev in nodes && nodes[n].data.next in nodes
    && (nodes[nodes[n].data.prev].data.StringSegment? || nodes[nodes[n].data.prev].data.String?)
    && (nodes[nodes[n].data.next].data.StringSegment? || nodes[nodes[n].data.next].data.String?)
  }

  /** The arena after `delete_segment(n)`: `n` is gone and its neighbours link to each other. */
  function SegmentDeleted(nodes: Nodes, n: NodeId): Nodes
    requires Deletable(nodes, n)
  {
    var p, q := nodes[n].data.prev, nodes[n].data.next;
    var n1 := nodes - {n};
    var n2 := n1[p := LinkNext(n1[p], q)];
    n2[q := LinkPrev(n2[q], p)]
  }

  /** In a ring of at least two segments, every segment can be unlinked. */
  lemma DeletableOfRing(nodes: Nodes, s: NodeId, ss: seq<NodeId>, j: nat)
    requires Ring(nodes, s, ss) && j < |ss| && |ss| >= 2
    ensures Deletable(nodes, ss[j])
    ensures nodes[ss[j]].data.prev == (if j == 0 then s else ss[j - 1])
    ensures nodes[ss[j]].data.next == (if j == |ss| - 1 then s else ss[j + 1])
  {
    assert Linked(nodes, s, ss, j);
    assert Distinct(ss);
    if j > 0 {
      assert Linked(nodes, s, ss, j - 1);
    }
    if j < |ss| - 1 {
      assert Linked(nodes, s, ss, j + 1);
    }
  }

  /** What `delete_segment` leaves alone: every other node keeps its kind, parent and payload. */
  ghost predicate UnlinkOnly(nodes: Nodes, nodes': Nodes, s: NodeId, ss: seq<NodeId>, n: NodeId) {
    && n !in nodes'
    && (forall m :: m in nodes && m != n ==> m in nodes')
    && (forall m :: m in nodes' ==> m in nodes)
    && (forall m :: m in nodes' && m != s && m !in ss ==> nodes'[m] == nodes[m])
    && (forall m :: m in nodes' ==> nodes'[m].parent == nodes[m].parent)
    && (forall m :: m in nodes' ==> nodes'[m].data.StringSegment? == nodes[m].data.StringSegment?)
    && (forall m :: m in nodes' ==> nodes'[m].data.String? == nodes[m].data.String?)
    && (forall m :: IsSegment(nodes', m) ==>
          nodes'[m].data.contents == nodes[m].data.contents && nodes'[m].data.ids == nodes[m].data.ids)
    && (forall m :: m in nodes' && nodes'[m].data.Object? ==> nodes'[m] == nodes[m])
  }

  lemma DeletedShape(nodes: Nodes, nodes': Nodes, s: NodeId, ss: seq<NodeId>, j: nat)
    requires Ring(nodes, s, ss) && j < |ss| && |ss| >= 2 && Deletable(nodes, ss[j])
    requires nodes[ss[j]].data.prev == (if j == 0 then s else ss[j - 1])
    requires nodes[ss[j]].data.next == (if j == |ss| - 1 then s else ss[j + 1])
    requires nodes' == SegmentDeleted(nodes, ss[j])
    ensures UnlinkOnly(nodes, nodes', s, ss, ss[j])
  {
  }

  /** The new ring `RemoveAt(ss, j)`, one index at a time. */
  lemma DeletedLinked(nodes: Nodes, nodes': Nodes, s: NodeId, ss: seq<NodeId>, j: nat, k: nat)
    requires Ring(nodes, s, ss) && j < |ss| && |ss| >= 2 && k < |ss| - 1 && Deletable(nodes, ss[j])
    requires nodes[ss[j]].data.prev == (if j == 0 then s else ss[j - 1])
    requires nodes[ss[j]].data.next == (if j == |ss| - 1 then s else ss[j + 1])
    requires nodes' == SegmentDeleted(nodes, ss[j])
    ensures Linked(nodes', s, RemoveAt(ss, j), k)
  {
    var ss' := RemoveAt(ss, j);
    var o := if k < j then k else k + 1;
    assert ss'[k] == ss[o];
    assert Linked(nodes, s, ss, o);
    assert Distinct(ss);
    if j > 0 {
      assert Linked(nodes, s, ss, j - 1);
    }
    if j < |ss| - 1 {
      assert Linked(nodes, s, ss, j + 1);
    }
  }

  lemma DeletedRing(nodes: Nodes, nodes': Nodes, s: NodeId, ss: seq<NodeId>, j: nat)
    requires Ring(nodes, s, ss) && j < |ss| && |ss| >= 2 && Deletable(nodes, ss[j])
    requires nodes[ss[j]].data.prev == (if j == 0 then s else ss[j - 1])
    requires nodes[ss[j]].data.next == (if j == |ss| - 1 then s else ss[j + 1])
    requires nodes' == SegmentDeleted(nodes, ss[j])
    ensures Ring(nodes', s, RemoveAt(ss, j))
  {
    var ss' := RemoveAt(ss, j);
    forall k | 0 <= k < |ss'|
      ensures Linked(nodes', s, ss', k)
    {
      DeletedLinked(nodes, nodes', s, ss, j, k);
    }
    forall i, k | 0 <= i < k < |ss'|
      ensures ss'[i] != ss'[k]
    {
      assert Distinct(ss);
      assert ss'[i] == ss[if i < j then i else i + 1];
      assert ss'[k] == ss[if k < j then k else k + 1];
    }
    assert Linked(nodes, s, ss, 0);
    assert Linked(nodes, s, ss, |ss| - 1);
    var p, q := nodes[ss[j]].data.prev, nodes[ss[j]].data.next;
    assert Distinct(ss);
    if j == 0 {
      assert ss'[0] == ss[1] && p == s && q == ss[1] && q != s;
      assert nodes'[s].data.start == q;
    } else {
      assert Linked(nodes, s, ss, j - 1);
      assert ss'[0] == ss[0] && p != s;
      assert NextLink(nodes'[s]) == NextLink(nodes[s]);
    }
    if j == |ss| - 1 {
      assert ss'[|ss'| - 1] == ss[j - 1] && q == s && p == ss[j - 1];
      assert nodes'[s].data.end == p;
    } else {
      assert Linked(nodes, s, ss, j + 1);
      assert ss'[|ss'| - 1] == ss[|ss| - 1] && q != s;
      assert PrevLink(nodes'[s]) == PrevLink(nodes[s]);
    }
  }

  lemma DeletedInRing(nodes: Nodes, nodes': Nodes, strings: Strings, s: NodeId, j: nat)
    requires forall n :: IsSegment(nodes, n) ==> InRing(nodes, strings, n)
    requires s in strings && j < |strings[s]|
    requires UnlinkOnly(nodes, nodes', s, strings[s], strings[s][j])
    ensures forall n :: IsSegment(nodes', n) ==> InRing(nodes', strings[s := RemoveAt(strings[s], j)], n)
  {
    var ss := strings[s];
    var ss' := RemoveAt(ss, j);
    var strings' := strings[s := ss'];
    forall n | IsSegment(nodes', n)
      ensures InRing(nodes', strings', n)
    {
      assert InRing(nodes, strings, n);
      if nodes[n].parent.value == s {
        var k :| 0 <= k < |ss| && ss[k] == n;
        assert k != j;
        assert ss'[if k < j then k else k - 1] == n;
      }
    }
  }

  lemma DeletedRings(nodes: Nodes, nodes': Nodes, strings: Strings, s: NodeId, j: nat)
    requires Rings(nodes, strings) && s in strings && j < |strings[s]|
    requires UnlinkOnly(nodes, nodes', s, strings[s], strings[s][j])
    requires Ring(nodes', s, RemoveAt(strings[s], j))
    ensures Rings(nodes', strings[s := RemoveAt(strings[s], j)])
  {
    OthersFrame(nodes, nodes', strings, s);
    DeletedInRing(nodes, nodes', strings, s, j);
  }

  lemma DeletedSegmentsOk(nodes: Nodes, nodes': Nodes, idToNode: map<Id, NodeId>, s: NodeId, ss: seq<NodeId>, n: NodeId)
    requires forall m :: IsSegment(nodes, m) ==> SegmentOk(nodes, idToNode, m)
    requires UnlinkOnly(nodes, nodes', s, ss, n)
    ensures forall m :: IsSegment(nodes', m) ==> SegmentOk(nodes', idToNode, m)
  {
    forall m | IsSegment(nodes', m)
      ensures SegmentOk(nodes', idToNode, m)
    {
      assert SegmentOk(nodes, idToNode, m);
    }
  }

  /** The ids of the unlinked segment are left mapped to a node that is gone, which is allowed. */
  lemma DeletedIdsOk(nodes: Nodes, nodes': Nodes, idToNode: map<Id, NodeId>, nextNode: NodeId, s: NodeId, ss: seq<NodeId>, n: NodeId)
    requires forall id :: id in idToNode ==> IdOk(nodes, idToNode, nextNode, id)
    requires UnlinkOnly(nodes, nodes', s, ss, n)
    ensures forall id :: id in idToNode ==> IdOk(nodes', idToNode, nextNode, id)
  {
    forall id | id in idToNode
      ensures IdOk(nodes', idToNode, nextNode, id)
    {
      assert IdOk(nodes, idToNode, nextNode, id);
    }
  }

  lemma DeletedBounds(nodes: Nodes, nodes': Nodes, nextNode: NodeId, s: NodeId, ss: seq<NodeId>, n: NodeId)
    requires forall m :: m in nodes ==> m < nextNode
    requires forall m :: m in nodes && nodes[m].data.Object? ==> nodes[m].data.items == map[]
    requires UnlinkOnly(nodes, nodes', s, ss, n)
    ensures forall m :: m in nodes' ==> m < nextNode
    ensures forall m :: m in nodes' && nodes'[m].data.Object? ==> nodes'[m].data.items == map[]
  {
  }

  /** Unlinking drops exactly the segment's elements. */
  lemma DeletedElements(nodes: Nodes, nodes': Nodes, s: NodeId, ss: seq<NodeId>, j: nat)
    requires Ring(nodes, s, ss) && j < |ss|
    requires UnlinkOnly(nodes, nodes', s, ss, ss[j])
    ensures Elements(nodes', RemoveAt(ss, j)) == Elements(nodes, ss[..j]) + Elements(nodes, ss[j + 1..])
  {
    var pre, post := ss[..j], ss[j + 1..];
    assert RemoveAt(ss, j) == pre + post;
    assert Distinct(ss);
    forall k | 0 <= k < |pre|
      ensures Payload(nodes', pre[k]) == Payload(nodes, pre[k])
    {
      assert pre[k] == ss[k];
      assert Linked(nodes, s, ss, k);
    }
    forall k | 0 <= k < |post|
      ensures Payload(nodes', post[k]) == Payload(nodes, post[k])
    {
      assert post[k] == ss[j + 1 + k];
      assert Linked(nodes, s, ss, j + 1 + k);
    }
    ElementsFrame(nodes, nodes', pre);
    ElementsFrame(nodes, nodes', post);
    ElementsAppend(nodes', pre, post);
  }

  /** `delete_segment` moves no payload of the segments that remain. */
  lemma DeletedPayloads(nodes: Nodes, strings: Strings, s: NodeId, j: nat, nodes': Nodes)
    requires Rings(nodes, strings) && s in strings && j < |strings[s]| && |strings[s]| >= 2
    requires Deletable(nodes, strings[s][j])
    requires nodes' == SegmentDeleted(nodes, strings[s][j])
    ensures PayloadsKept(nodes - {strings[s][j]}, nodes')
  {
    assert Ring(nodes, s, strings[s]);
    DeletableOfRing(nodes, s, strings[s], j);
    DeletedShape(nodes, nodes', s, strings[s], j);
  }

  /**
   * `delete_segment` keeps the invariant: segment `ss[j]` leaves the ring of `s` and its
   * elements leave the string; the ids it held stay mapped to the vanished node.
   */
  lemma DeleteSegmentWf(nodes: Nodes, idToNode: map<Id, NodeId>, nextNode: NodeId, strings: Strings, s: NodeId, j: nat, nodes': Nodes)
    requires Wf(nodes, idToNode, nextNode, strings) && s in strings && j < |strings[s]| && |strings[s]| >= 2
    requires Deletable(nodes, strings[s][j])
    requires nodes' == SegmentDeleted(nodes, strings[s][j])
    ensures Wf(nodes', idToNode, nextNode, strings[s := RemoveAt(strings[s], j)])
    ensures Elements(nodes', RemoveAt(strings[s], j)) == Elements(nodes, strings[s][..j]) + Elements(nodes, strings[s][j + 1..])
    ensures OthersKept(nodes, nodes', strings, s)
  {
    var ss := strings[s];
    assert Ring(nodes, s, ss);
    DeletableOfRing(nodes, s, ss, j);
    DeletedShape(nodes, nodes', s, ss, j);
    DeletedRing(nodes, nodes', s, ss, j);
    DeletedRings(nodes, nodes', strings, s, j);
    DeletedSegmentsOk(nodes, nodes', idToNode, s, ss, ss[j]);
    DeletedIdsOk(nodes, nodes', idToNode, nextNode, s, ss, ss[j]);
    DeletedBounds(nodes, nodes', nextNode, s, ss, ss[j]);
    DeletedElements(nodes, nodes', s, ss, j);
    OthersFrame(nodes, nodes', strings, s);
  }
}
