/**
 * The node arena of the string tree (src/tree.rs): node data, the ring of segments that makes
 * up a string, and the invariant that ties nodes, segments and the id map together. Every
 * mutation the tree performs has a lemma here stating that it keeps the invariant and how it
 * changes the elements of each string.
 *
 * A string node is a sentinel: its `start` and `end` name its first and last segment, the
 * first segment's `prev` and the last one's `next` name the string, and in between `prev` and
 * `next` link neighbours. The ghost map `strings` lists, for each string node, its segments in
 * order; the invariant says the links agree with that list.
 */
module TreeNodes {
  import opened Common
  import opened Segments

  /** Segments shorter than this are candidates for joining. */
  const JOIN_LEN: nat := 511
  /** Segments longer than this are split. */
  const SPLIT_LEN: nat := 1024

  datatype TreeError = UnknownId | UnexpectedNodeType | DuplicateId

  datatype Result<T> = Ok(value: T) | Err(error: TreeError)

  datatype NodeData =
    | True
    | False
    | Null
    | Object(items: map<string, NodeId>)
    | String(start: NodeId, end: NodeId)
    | StringSegment(prev: NodeId, next: NodeId, contents: seq<char>, ids: seq<Entry>)

  datatype Node = Node(data: NodeData, parent: Option<NodeId>)

  type Nodes = map<NodeId, Node>

  /** For each string node, its segments in order. */
  type Strings = map<NodeId, seq<NodeId>>

  predicate IsSegment(nodes: Nodes, n: NodeId) {
    n in nodes && nodes[n].data.StringSegment?
  }

  predicate IsString(nodes: Nodes, n: NodeId) {
    n in nodes && nodes[n].data.String?
  }

  /** The elements segment `n` stands for (none if `n` is not a segment). */
  function Payload(nodes: Nodes, n: NodeId): seq<Cell> {
    if IsSegment(nodes, n) then View(nodes[n].data.contents, nodes[n].data.ids) else []
  }

  /** The elements of a list of segments, in order. */
  function Elements(nodes: Nodes, ss: seq<NodeId>): seq<Cell> {
    if ss == [] then [] else Elements(nodes, ss[..|ss| - 1]) + Payload(nodes, ss[|ss| - 1])
  }

  /** The concatenated `contents` of a list of segments. */
  function Text(nodes: Nodes, ss: seq<NodeId>): seq<char> {
    if ss == [] then []
    else Text(nodes, ss[..|ss| - 1]) + (if IsSegment(nodes, ss[|ss| - 1]) then nodes[ss[|ss| - 1]].data.contents else [])
  }

  ghost predicate Distinct(ss: seq<NodeId>) {
    forall i, j :: 0 <= i < j < |ss| ==> ss[i] != ss[j]
  }

  function Before(s: NodeId, ss: seq<NodeId>, j: nat): NodeId
    requires j < |ss|
  {
    if j == 0 then s else ss[j - 1]
  }

  function After(s: NodeId, ss: seq<NodeId>, j: nat): NodeId
    requires j < |ss|
  {
    if j == |ss| - 1 then s else ss[j + 1]
  }

  /** Segment `ss[j]` of string `s` belongs to `s` and links to its neighbours. */
  ghost predicate Linked(nodes: Nodes, s: NodeId, ss: seq<NodeId>, j: nat)
    requires j < |ss|
  {
    && IsSegment(nodes, ss[j])
    && nodes[ss[j]].parent == Some(s)
    && nodes[ss[j]].data.prev == Before(s, ss, j)
    && nodes[ss[j]].data.next == After(s, ss, j)
  }

  /** `ss` is the ring of segments of string node `s`. */
  ghost predicate Ring(nodes: Nodes, s: NodeId, ss: seq<NodeId>) {
    && IsString(nodes, s)
    && |ss| >= 1
    && nodes[s].data.start == ss[0]
    && nodes[s].data.end == ss[|ss| - 1]
    && Distinct(ss)
    && forall j :: 0 <= j < |ss| ==> Linked(nodes, s, ss, j)
  }

  /** Segment `n` is in the ring of its parent. */
  ghost predicate InRing(nodes: Nodes, strings: Strings, n: NodeId)
    requires n in nodes
  {
    nodes[n].parent.Some? && nodes[n].parent.value in strings && n in strings[nodes[n].parent.value]
  }

  ghost predicate AllRings(nodes: Nodes, strings: Strings) {
    forall s :: s in strings ==> Ring(nodes, s, strings[s])
  }

  ghost predicate Rings(nodes: Nodes, strings: Strings) {
    && AllRings(nodes, strings)
    && (forall s :: IsString(nodes, s) ==> s in strings)
    && (forall n :: IsSegment(nodes, n) ==> InRing(nodes, strings, n))
  }

  ghost function IdsOf(ids: seq<Entry>): set<Id> {
    set e | e in ids :: e.id
  }

  /** A segment keeps the offset invariant, holds no id twice, and its ids map to it. */
  ghost predicate SegmentOk(nodes: Nodes, idToNode: map<Id, NodeId>, n: NodeId)
    requires IsSegment(nodes, n)
  {
    && OffsetsOk(nodes[n].data.contents, nodes[n].data.ids)
    && DistinctIds(nodes[n].data.ids)
    && forall k :: 0 <= k < |nodes[n].data.ids| ==>
         nodes[n].data.ids[k].id in idToNode && idToNode[nodes[n].data.ids[k].id] == n
  }

  /**
   * A mapped id names a node that was allocated; if that node is a segment, the id is in its
   * list. The node may be gone: `delete` and `delete_segment` leave id mappings behind.
   */
  ghost predicate IdOk(nodes: Nodes, idToNode: map<Id, NodeId>, nextNode: NodeId, id: Id)
    requires id in idToNode
  {
    && idToNode[id] < nextNode
    && (IsSegment(nodes, idToNode[id]) ==> id in IdsOf(nodes[idToNode[id]].data.ids))
  }

  /** The tree invariant. */
  ghost predicate Wf(nodes: Nodes, idToNode: map<Id, NodeId>, nextNode: NodeId, strings: Strings) {
    && Rings(nodes, strings)
    && (forall n :: n in nodes ==> n < nextNode)
    && (forall n :: n in nodes && nodes[n].data.Object? ==> nodes[n].data.items == map[])
    && (forall n :: IsSegment(nodes, n) ==> SegmentOk(nodes, idToNode, n))
    && (forall id :: id in idToNode ==> IdOk(nodes, idToNode, nextNode, id))
  }

  /** Every node is numbered below the counter. */
  lemma WfBelowCounter(nodes: Nodes, idToNode: map<Id, NodeId>, nextNode: NodeId, strings: Strings)
    requires Wf(nodes, idToNode, nextNode, strings)
    ensures forall n :: n in nodes ==> n < nextNode
  {
  }

  /** Drawing a node number that is not used keeps the invariant. */
  lemma CounterBumpWf(nodes: Nodes, idToNode: map<Id, NodeId>, nextNode: NodeId, strings: Strings)
    requires Wf(nodes, idToNode, nextNode, strings)
    ensures Wf(nodes, idToNode, nextNode + 1, strings)
  {
    forall id | id in idToNode ensures IdOk(nodes, idToNode, nextNode + 1, id) {
      assert IdOk(nodes, idToNode, nextNode, id);
    }
  }

  /** The string an id-mapped node belongs to: itself for a string, its parent for a segment. */
  function Owner(nodes: Nodes, n: NodeId): NodeId
    requires n in nodes
  {
    if nodes[n].data.StringSegment? && nodes[n].parent.Some? then nodes[n].parent.value else n
  }

  // ---------------------------------------------------------------------------------------
  // Elements of segment lists

  lemma {:induction false} ElementsAppend(nodes: Nodes, a: seq<NodeId>, b: seq<NodeId>)
    ensures Elements(nodes, a + b) == Elements(nodes, a) + Elements(nodes, b)
    decreases |b|
  {
    if b == [] {
      assert a + b == a;
    } else {
      assert (a + b)[..|a + b| - 1] == a + b[..|b| - 1];
      ElementsAppend(nodes, a, b[..|b| - 1]);
    }
  }

  lemma {:induction false} ElementsFrame(nodes: Nodes, nodes': Nodes, ss: seq<NodeId>)
    requires forall j :: 0 <= j < |ss| ==> Payload(nodes', ss[j]) == Payload(nodes, ss[j])
    ensures Elements(nodes', ss) == Elements(nodes, ss)
    decreases |ss|
  {
    if ss != [] {
      ElementsFrame(nodes, nodes', ss[..|ss| - 1]);
    }
  }

  lemma ElementsSplice(nodes: Nodes, ss: seq<NodeId>, k: nat)
    requires k < |ss|
    ensures Elements(nodes, ss) == Elements(nodes, ss[..k]) + Payload(nodes, ss[k]) + Elements(nodes, ss[k + 1..])
  {
    assert ss == ss[..k] + [ss[k]] + ss[k + 1..];
    ElementsAppend(nodes, ss[..k] + [ss[k]], ss[k + 1..]);
    ElementsAppend(nodes, ss[..k], [ss[k]]);
    assert [ss[k]][..0] == [];
  }

  /** Under the offset invariant the concatenated contents are the visible elements. */
  lemma {:induction false} TextIsVisible(nodes: Nodes, ss: seq<NodeId>)
    requires forall j :: 0 <= j < |ss| ==> IsSegment(nodes, ss[j]) && OffsetsOk(nodes[ss[j]].data.contents, nodes[ss[j]].data.ids)
    ensures Text(nodes, ss) == Visible(Elements(nodes, ss))
    decreases |ss|
  {
    if ss != [] {
      var last := ss[|ss| - 1];
      TextIsVisible(nodes, ss[..|ss| - 1]);
      VisibleAppend(Elements(nodes, ss[..|ss| - 1]), Payload(nodes, last));
      VisibleView(nodes[last].data.contents, nodes[last].data.ids);
    }
  }

  // ---------------------------------------------------------------------------------------
  // Frames

  /** A ring only depends on the nodes it names. */
  lemma RingFrame(nodes: Nodes, nodes': Nodes, s: NodeId, ss: seq<NodeId>)
    requires Ring(nodes, s, ss)
    requires s in nodes && s in nodes' && nodes'[s] == nodes[s]
    requires forall j :: 0 <= j < |ss| ==> ss[j] in nodes && ss[j] in nodes' && nodes'[ss[j]] == nodes[ss[j]]
    ensures Ring(nodes', s, ss)
  {
    forall j | 0 <= j < |ss|
      ensures Linked(nodes', s, ss, j)
    {
      assert Linked(nodes, s, ss, j);
    }
  }

  /** The segments of two different rings are different nodes. */
  lemma RingsDisjoint(nodes: Nodes, strings: Strings, s: NodeId, t: NodeId, i: nat, j: nat)
    requires Rings(nodes, strings) && s in strings && t in strings && s != t
    requires i < |strings[s]| && j < |strings[t]|
    ensures strings[s][i] != strings[t][j]
    ensures strings[s][i] != t
  {
    assert Linked(nodes, s, strings[s], i);
    assert Linked(nodes, t, strings[t], j);
  }

  /**
   * Adding a node under a fresh number leaves every ring as it was. The new node is not a
   * segment, or it is one whose ring is then given separately.
   */
  lemma RingsGrow(nodes: Nodes, nodes': Nodes, strings: Strings, added: NodeId)
    requires AllRings(nodes, strings) && added !in nodes
    requires forall n :: n in nodes ==> n in nodes' && nodes'[n] == nodes[n]
    ensures AllRings(nodes', strings)
  {
    forall s | s in strings
      ensures Ring(nodes', s, strings[s])
    {
      var ss := strings[s];
      forall j | 0 <= j < |ss|
        ensures ss[j] in nodes
      {
        assert Linked(nodes, s, ss, j);
      }
      RingFrame(nodes, nodes', s, ss);
    }
  }

  // ---------------------------------------------------------------------------------------
  // Constructing nodes

  /** `construct_simple` of a boolean, null or empty object keeps the invariant. */
  lemma AddValueWf(nodes: Nodes, idToNode: map<Id, NodeId>, nextNode: NodeId, strings: Strings, id: Id, d: NodeData)
    requires Wf(nodes, idToNode, nextNode, strings) && id !in idToNode
    requires d.True? || d.False? || d.Null? || d == Object(map[])
    ensures Wf(nodes[nextNode := Node(d, None)], idToNode[id := nextNode], nextNode + 1, strings)
    ensures forall s :: s in strings ==> Elements(nodes[nextNode := Node(d, None)], strings[s]) == Elements(nodes, strings[s])
  {
    var nodes' := nodes[nextNode := Node(d, None)];
    var idToNode' := idToNode[id := nextNode];
    RingsGrow(nodes, nodes', strings, nextNode);
    forall n | IsSegment(nodes', n)
      ensures InRing(nodes', strings, n)
    {
      assert InRing(nodes, strings, n);
    }
    forall n | IsSegment(nodes', n)
      ensures SegmentOk(nodes', idToNode', n)
    {
      assert SegmentOk(nodes, idToNode, n);
    }
    forall x | x in idToNode'
      ensures IdOk(nodes', idToNode', nextNode + 1, x)
    {
      if x != id {
        assert IdOk(nodes, idToNode, nextNode, x);
      }
    }
    forall s | s in strings
      ensures Elements(nodes', strings[s]) == Elements(nodes, strings[s])
    {
      forall j | 0 <= j < |strings[s]|
        ensures Payload(nodes', strings[s][j]) == Payload(nodes, strings[s][j])
      {
        assert Linked(nodes, s, strings[s], j);
      }
      ElementsFrame(nodes, nodes', strings[s]);
    }
  }

  /**
   * `construct_string`: a string node `str` whose only segment is the empty segment `seg`,
   * linked to the string both ways, keeps the invariant.
   */
  lemma AddStringWf(nodes: Nodes, idToNode: map<Id, NodeId>, nextNode: NodeId, strings: Strings, id: Id,
                    nodes': Nodes, idToNode': map<Id, NodeId>, strings': Strings)
    requires Wf(nodes, idToNode, nextNode, strings) && id !in idToNode
    requires nodes' == nodes[nextNode + 1 := Node(String(nextNode, nextNode), None)]
                            [nextNode := Node(StringSegment(nextNode + 1, nextNode + 1, [], []), Some(nextNode + 1))]
    requires idToNode' == idToNode[id := nextNode + 1] && strings' == strings[nextNode + 1 := [nextNode]]
    ensures Wf(nodes', idToNode', nextNode + 2, strings')
    ensures nextNode + 1 in strings' && Elements(nodes', strings'[nextNode + 1]) == []
    ensures forall s :: s in strings ==> s in strings' && Elements(nodes', strings'[s]) == Elements(nodes, strings[s])
  {
    var seg, str := nextNode, nextNode + 1;
    var nodes1 := nodes[str := Node(String(seg, seg), None)];
    RingsGrow(nodes, nodes1, strings, str);
    RingsGrow(nodes1, nodes', strings, seg);
    assert str !in strings;
    assert Linked(nodes', str, [seg], 0);
    forall n | IsSegment(nodes', n)
      ensures InRing(nodes', strings', n)
    {
      if n != seg {
        assert InRing(nodes, strings, n);
      }
    }
    forall n | IsSegment(nodes', n)
      ensures SegmentOk(nodes', idToNode', n)
    {
      if n != seg {
        assert SegmentOk(nodes, idToNode, n);
      }
    }
    forall x | x in idToNode'
      ensures IdOk(nodes', idToNode', nextNode + 2, x)
    {
      if x != id {
        assert IdOk(nodes, idToNode, nextNode, x);
      }
    }
    forall s | s in strings
      ensures Elements(nodes', strings[s]) == Elements(nodes, strings[s])
    {
      forall j | 0 <= j < |strings[s]|
        ensures Payload(nodes', strings[s][j]) == Payload(nodes, strings[s][j])
      {
        assert Linked(nodes, s, strings[s], j);
      }
      ElementsFrame(nodes, nodes', strings[s]);
    }
    assert Elements(nodes', [seg]) == Elements(nodes', []) + Payload(nodes', seg);
  }
}
