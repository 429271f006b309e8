/**
 * `Tree::delete` of src/tree.rs on values: the worklist that removes a value node and, for a
 * string, its whole ring of segments. The queue starts with the node; each node popped is
 * removed and pushes its successor (a string its first segment, a segment the next one), and
 * a node already removed is skipped, so the walk ends when it comes back to the string node.
 * Ids stay mapped: the id map is not touched.
 */
module TreeDelete {
  import opened Common
  import opened TreeNodes
  import opened Balance
  import opened Splits

  /** The nodes of a list, as a set. */
  ghost function Members(ss: seq<NodeId>): set<NodeId> {
    set m | m in ss
  }

  /** What `delete(item)` removes: the node and, for a string, its segments. */
  ghost function Footprint(item: NodeId, ss: seq<NodeId>): set<NodeId> {
    {item} + Members(ss)
  }

  /**
   * The loop's phases. Phase 0 has the item queued and nothing removed. For a string with
   * segments `ss`, phase `p` in `1 ..= |ss| + 1` has the string and the first `p - 1`
   * segments removed and the next ring member (the string itself at the end) queued.
   * The last phase has the queue empty and the footprint removed.
   */
  ghost function LastPhase(ss: seq<NodeId>): nat {
    if ss == [] then 1 else |ss| + 2
  }

  ghost function QueueAt(item: NodeId, ss: seq<NodeId>, p: nat): seq<NodeId> {
    if p == 0 then [item]
    else if p >= LastPhase(ss) then []
    else if p - 1 < |ss| then [ss[p - 1]]
    else [item]
  }

  ghost function RemainingAt(nodes: Nodes, item: NodeId, ss: seq<NodeId>, p: nat): Nodes {
    if p == 0 then nodes
    else if p >= LastPhase(ss) then nodes - Footprint(item, ss)
    else nodes - ({item} + Members(ss[..p - 1]))
  }

  /** What `delete(item)` may be called on: a value node that is not a segment, with a string's ring `ss`. */
  ghost predicate Deletion(nodes: Nodes, item: NodeId, ss: seq<NodeId>) {
    && item in nodes && !nodes[item].data.StringSegment?
    && (nodes[item].data.Object? ==> nodes[item].data.items == map[])
    && (IsString(nodes, item) ==> Ring(nodes, item, ss))
    && (!IsString(nodes, item) ==> ss == [])
  }

  /** One turn of the loop: the node popped, and what removing it and pushing its successor leads to. */
  lemma DeleteStep(nodes: Nodes, item: NodeId, ss: seq<NodeId>, p: nat)
    requires Deletion(nodes, item, ss) && p < LastPhase(ss)
    ensures |QueueAt(item, ss, p)| == 1
    ensures var x := QueueAt(item, ss, p)[0]; var rem := RemainingAt(nodes, item, ss, p);
            && (x !in rem ==> rem == RemainingAt(nodes, item, ss, p + 1) && QueueAt(item, ss, p + 1) == [])
            && (x in rem ==>
                  && rem - {x} == RemainingAt(nodes, item, ss, p + 1)
                  && (rem[x].data.Object? ==> rem[x].data.items == map[])
                  && QueueAt(item, ss, p + 1) == (if rem[x].data.String? then [rem[x].data.start]
                                                  else if rem[x].data.StringSegment? then [rem[x].data.next]
                                                  else []))
  {
    var rem := RemainingAt(nodes, item, ss, p);
    if p == 0 {
      assert Members(ss[..0]) == {};
      if ss == [] {
        assert Footprint(item, ss) == {item};
      }
    } else if p - 1 < |ss| {
      var x := ss[p - 1];
      assert Ring(nodes, item, ss) && Linked(nodes, item, ss, p - 1) && Distinct(ss);
      assert x !in ss[..p - 1];
      assert x in rem;
      assert ss[..p] == ss[..p - 1] + [x];
      assert Members(ss[..p]) == Members(ss[..p - 1]) + {x};
      if p < |ss| {
        assert After(item, ss, p - 1) == ss[p];
      } else {
        assert ss[..p] == ss;
      }
    } else {
      assert ss[..p - 1] == ss;
    }
  }

  /**
   * The worklist of `delete(item)`: pop a node, skip it if it is gone, otherwise remove it
   * and push its successor. Every object of the tree is empty (its items would be pushed).
   */
  method DeleteNodes(nodes: Nodes, item: NodeId, ghost ss: seq<NodeId>) returns (remaining: Nodes)
    requires Deletion(nodes, item, ss)
    ensures remaining == nodes - Footprint(item, ss)
  {
    remaining := nodes;
    var queue := [item];
    ghost var p := 0;
    while queue != []
      invariant p <= LastPhase(ss)
      invariant queue == QueueAt(item, ss, p) && remaining == RemainingAt(nodes, item, ss, p)
      decreases LastPhase(ss) - p
    {
      DeleteStep(nodes, item, ss, p);
      var x := queue[|queue| - 1];
      queue := queue[..|queue| - 1];
      if x !in remaining {
        p := p + 1;
        continue;
      }
      var node := remaining[x];
      remaining := remaining - {x};
      match node.data {
        case True =>
        case False =>
        case Null =>
        case Object(items) =>
        case String(start, _) => queue := queue + [start];
        case StringSegment(_, next, _, _) => queue := queue + [next];
      }
      p := p + 1;
    }
  }

  /** The rings of two different strings share no node, and neither holds the other string. */
  lemma RingsApart(nodes: Nodes, t: NodeId, tt: seq<NodeId>, u: NodeId, uu: seq<NodeId>)
    requires Ring(nodes, t, tt) && Ring(nodes, u, uu) && t != u
    ensures forall k :: 0 <= k < |tt| ==> tt[k] !in uu
    ensures t !in uu && u !in tt
  {
    forall k, i | 0 <= k < |tt| && 0 <= i < |uu|
      ensures tt[k] != uu[i]
    {
      assert Linked(nodes, t, tt, k) && Linked(nodes, u, uu, i);
    }
    forall i | 0 <= i < |uu|
      ensures uu[i] != t
    {
      assert Linked(nodes, u, uu, i);
    }
    forall k | 0 <= k < |tt|
      ensures tt[k] != u
    {
      assert Linked(nodes, t, tt, k);
    }
  }

  /** `delete(item)` keeps the tree well formed, with the item's string (if any) no longer listed. */
  lemma DeleteWf(nodes: Nodes, idToNode: map<Id, NodeId>, nextNode: NodeId, strings: Strings, item: NodeId)
    requires Wf(nodes, idToNode, nextNode, strings) && item in nodes && !nodes[item].data.StringSegment?
    ensures Deletion(nodes, item, if item in strings then strings[item] else [])
    ensures (item in strings) == IsString(nodes, item)
    ensures Wf(nodes - Footprint(item, if item in strings then strings[item] else []), idToNode, nextNode, strings - {item})
  {
    var ss := if item in strings then strings[item] else [];
    assert item in strings ==> Ring(nodes, item, strings[item]);
    var f := Footprint(item, ss);
    var nodes' := nodes - f;
    var strings' := strings - {item};
    forall t | t in strings'
      ensures Ring(nodes', t, strings'[t])
    {
      var tt := strings[t];
      assert Ring(nodes, t, tt);
      if item in strings {
        RingsApart(nodes, t, tt, item, ss);
      }
      forall k | 0 <= k < |tt|
        ensures Linked(nodes', t, tt, k)
      {
        assert Linked(nodes, t, tt, k);
      }
    }
    forall n | IsSegment(nodes', n)
      ensures InRing(nodes', strings', n)
    {
      assert InRing(nodes, strings, n);
      var t := nodes[n].parent.value;
      assert t != item by {
        if item in strings {
          RingsApart(nodes, t, strings[t], item, ss);
        }
      }
    }
    forall n | IsSegment(nodes', n)
      ensures SegmentOk(nodes', idToNode, n)
    {
      assert SegmentOk(nodes, idToNode, n);
    }
    forall id | id in idToNode
      ensures IdOk(nodes', idToNode, nextNode, id)
    {
      assert IdOk(nodes, idToNode, nextNode, id);
    }
  }

  /** Every string `delete` leaves keeps its cells. */
  lemma DeleteKeepsCells(a: Arena, item: NodeId)
    requires Wf(a.nodes, a.idToNode, a.nextNode, a.strings) && item in a.nodes && !a.nodes[item].data.StringSegment?
    ensures var nodes' := a.nodes - Footprint(item, if item in a.strings then a.strings[item] else []);
            forall t :: t in a.strings - {item} ==> Elements(nodes', a.strings[t]) == Elements(a.nodes, a.strings[t])
  {
    var ss := if item in a.strings then a.strings[item] else [];
    var nodes' := a.nodes - Footprint(item, ss);
    forall t | t in a.strings - {item}
      ensures Elements(nodes', a.strings[t]) == Elements(a.nodes, a.strings[t])
    {
      var tt := a.strings[t];
      assert Ring(a.nodes, t, tt);
      if item in a.strings {
        RingsApart(a.nodes, t, tt, item, ss);
      }
      forall k | 0 <= k < |tt|
        ensures Payload(nodes', tt[k]) == Payload(a.nodes, tt[k])
      {
        assert Linked(a.nodes, t, tt, k);
      }
      ElementsFrame(a.nodes, nodes', tt);
    }
  }

  /** `delete` keeps a tree balanced: every string left keeps its segments and their ids. */
  lemma DeleteBalanced(a: Arena, item: NodeId)
    requires Wf(a.nodes, a.idToNode, a.nextNode, a.strings) && Balanced(a) && item in a.nodes && !a.nodes[item].data.StringSegment?
    ensures Balanced(Arena(a.nodes - Footprint(item, if item in a.strings then a.strings[item] else []), a.idToNode, a.nextNode, a.strings - {item}))
  {
    var ss := if item in a.strings then a.strings[item] else [];
    var b := Arena(a.nodes - Footprint(item, ss), a.idToNode, a.nextNode, a.strings - {item});
    forall t, k | t in b.strings && |b.strings[t]| >= 2 && 0 <= k < |b.strings[t]|
      ensures JOIN_LEN <= LengthAt(b, t, k)
    {
      var tt := a.strings[t];
      assert Ring(a.nodes, t, tt) && Linked(a.nodes, t, tt, k);
      if item in a.strings {
        RingsApart(a.nodes, t, tt, item, ss);
      }
      assert JOIN_LEN <= LengthAt(a, t, k);
    }
  }
}
