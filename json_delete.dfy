/**
 * `delete` and `delete_orphans` of src/json/tree.rs. `delete(item)` runs a worklist: it pops a
 * node, skips it if it is already gone, removes it, unmaps the external ids it answers to, and
 * pushes what it points at (an object's collections, a sequence's first segment, a segment's
 * next node and an array segment's collections). The model states the result exactly: the
 * nodes removed are those reachable from `item` along those links, every other node is left as
 * it was, and an id stays mapped exactly when its node survives.
 */
module JsonDelete {
  import opened Common
  import opened Segments
  import opened JsonNodes

  /** The collection nodes under an object's keys. */
  ghost function ItemNodes(items: map<string, Child>): set<NodeId> {
    set k | k in items && items[k].Collection? :: items[k].node
  }

  /** The collection nodes in an array segment's slots. */
  ghost function ElementNodes(es: seq<Child>): set<NodeId> {
    set i | 0 <= i < |es| && es[i].Collection? :: es[i].node
  }

  /** What the worklist of `delete` pushes for a node it removes. */
  ghost function Successors(d: NodeData): set<NodeId> {
    match d
    case Object(items, _) => ItemNodes(items)
    case Array(start, _, _) => {start}
    case String(start, _, _) => {start}
    case StringSegment(_, next, _, _) => {next}
    case ArraySegment(_, next, elements, _) => {next} + ElementNodes(elements)
  }

  /** One more round of links from the nodes in `s`. */
  ghost function Step(nodes: Nodes, s: set<NodeId>): set<NodeId> {
    s + (set d, c | d in s && d in nodes && c in Successors(nodes[d].data) :: c)
  }

  /** The nodes reachable from `s` in at most `k` links. */
  ghost function Reach(nodes: Nodes, s: set<NodeId>, k: nat): set<NodeId>
    decreases k
  {
    if k == 0 then s else Reach(nodes, Step(nodes, s), k - 1)
  }

  /** `d` can be reached from `from` along the links `delete` follows. */
  ghost predicate Reachable(nodes: Nodes, from: NodeId, d: NodeId) {
    exists k: nat :: d in Reach(nodes, {from}, k)
  }

  /** Every node left is as it was. */
  ghost predicate Submap(nodes0: Nodes, nodes: Nodes) {
    forall n :: n in nodes ==> n in nodes0 && nodes[n] == nodes0[n]
  }

  /** Nothing a removed node pointed at is left. */
  ghost predicate Closed(nodes0: Nodes, nodes: Nodes) {
    forall d :: d in nodes0 && d !in nodes ==> forall c :: c in Successors(nodes0[d].data) ==> c !in nodes
  }

  /** The id map restricted to the ids whose node is left. */
  ghost function Unmapped(ids0: map<Id, NodeId>, nodes: Nodes): map<Id, NodeId> {
    map id | id in ids0 && ids0[id] in nodes :: ids0[id]
  }

  /**
   * The id map and the nodes agree exactly, and no segment lists an id twice: what makes every
   * `id_to_node.remove(..).unwrap()` of `delete` succeed.
   */
  ghost predicate IdsExact(nodes: Nodes, ids: map<Id, NodeId>) {
    && (forall id :: id in ids ==> ids[id] in nodes && Owns(nodes[ids[id]].data, id))
    && (forall n, id :: n in nodes && Owns(nodes[n].data, id) ==> id in ids && ids[id] == n)
    && (forall n :: n in nodes && (nodes[n].data.ArraySegment? || nodes[n].data.StringSegment?) ==> DistinctIds(nodes[n].data.ids))
  }

  lemma WfIdsExact(t: Arena)
    requires Wf(t)
    ensures IdsExact(t.nodes, t.idToNode)
  {
    hide Wf, NodeOk;
    WfParts(t);
    SegmentsIdsDistinct(t);
  }

  /** The parts of `Wf` that `IdsExact` rests on. */
  lemma WfParts(t: Arena)
    requires Wf(t)
    ensures IdsMapped(t) && IdsOwned(t) && forall n :: n in t.nodes ==> NodeOk(t, n)
  {
  }

  /** In a tree whose every node keeps its invariant, every segment has distinct ids. */
  lemma SegmentsIdsDistinct(t: Arena)
    requires forall n :: n in t.nodes ==> NodeOk(t, n)
    ensures forall n :: n in t.nodes && (t.nodes[n].data.ArraySegment? || t.nodes[n].data.StringSegment?) ==> DistinctIds(t.nodes[n].data.ids)
  {
    hide NodeOk;
    forall n | n in t.nodes && (t.nodes[n].data.ArraySegment? || t.nodes[n].data.StringSegment?)
      ensures DistinctIds(t.nodes[n].data.ids)
    {
      SegmentIdsDistinct(t, n);
    }
  }

  /** A segment that keeps its invariant has distinct ids. */
  lemma SegmentIdsDistinct(t: Arena, n: NodeId)
    requires n in t.nodes && NodeOk(t, n) && (t.nodes[n].data.ArraySegment? || t.nodes[n].data.StringSegment?)
    ensures DistinctIds(t.nodes[n].data.ids)
  {
  }

  // ---------------------------------------------------------------------------------------
  // Reachability

  /** A link from a node reached in `k` steps leads to a node reached in `k + 1`. */
  lemma {:induction false} ReachStep(nodes: Nodes, s: set<NodeId>, k: nat, x: NodeId, c: NodeId)
    requires x in Reach(nodes, s, k) && x in nodes && c in Successors(nodes[x].data)
    ensures c in Reach(nodes, s, k + 1)
    decreases k
  {
    if k == 0 {
      assert c in Step(nodes, s);
    } else {
      ReachStep(nodes, Step(nodes, s), k - 1, x, c);
    }
  }

  lemma ReachableStep(nodes: Nodes, from: NodeId, x: NodeId, c: NodeId)
    requires Reachable(nodes, from, x) && x in nodes && c in Successors(nodes[x].data)
    ensures Reachable(nodes, from, c)
  {
    var k: nat :| x in Reach(nodes, {from}, k);
    ReachStep(nodes, {from}, k, x, c);
  }

  lemma ReachableSelf(nodes: Nodes, from: NodeId)
    ensures Reachable(nodes, from, from)
  {
    assert from in Reach(nodes, {from}, 0);
  }

  /** Fewer nodes and fewer starting points reach no more. */
  lemma {:induction false} ReachSubmap(nodes0: Nodes, nodes: Nodes, s: set<NodeId>, s0: set<NodeId>, k: nat)
    requires Submap(nodes0, nodes) && s <= s0
    ensures Reach(nodes, s, k) <= Reach(nodes0, s0, k)
    decreases k
  {
    if k != 0 {
      assert Step(nodes, s) <= Step(nodes0, s0) by {
        forall c | c in Step(nodes, s) ensures c in Step(nodes0, s0) {
          if c !in s {
            var d :| d in s && d in nodes && c in Successors(nodes[d].data);
            assert nodes0[d] == nodes[d];
          }
        }
      }
      ReachSubmap(nodes0, nodes, Step(nodes, s), Step(nodes0, s0), k - 1);
    }
  }

  lemma ReachableSubmap(nodes0: Nodes, nodes: Nodes, from: NodeId, d: NodeId)
    requires Submap(nodes0, nodes) && Reachable(nodes, from, d)
    ensures Reachable(nodes0, from, d)
  {
    var k: nat :| d in Reach(nodes, {from}, k);
    ReachSubmap(nodes0, nodes, {from}, {from}, k);
  }

  /** Once a removal is closed, nothing reachable from a removed node is left. */
  lemma {:induction false} ClosedReach(nodes0: Nodes, nodes: Nodes, s: set<NodeId>, k: nat)
    requires Closed(nodes0, nodes) && Submap(nodes0, nodes)
    requires forall x :: x in s ==> x !in nodes
    ensures forall x :: x in Reach(nodes0, s, k) ==> x !in nodes
    decreases k
  {
    if k != 0 {
      forall c | c in Step(nodes0, s) ensures c !in nodes {
        if c !in s {
          var d :| d in s && d in nodes0 && c in Successors(nodes0[d].data);
        }
      }
      ClosedReach(nodes0, nodes, Step(nodes0, s), k - 1);
    }
  }

  /** Removing a node and closing the removal removes everything reachable from it. */
  lemma ClosedGone(nodes0: Nodes, nodes: Nodes, from: NodeId, d: NodeId)
    requires Closed(nodes0, nodes) && Submap(nodes0, nodes) && from !in nodes
    requires Reachable(nodes0, from, d)
    ensures d !in nodes
  {
    var k: nat :| d in Reach(nodes0, {from}, k);
    ClosedReach(nodes0, nodes, {from}, k);
  }

  /** Two closed removals in a row make one. */
  lemma ClosedTrans(n0: Nodes, n1: Nodes, n2: Nodes)
    requires Submap(n0, n1) && Submap(n1, n2) && Closed(n0, n1) && Closed(n1, n2)
    ensures Submap(n0, n2) && Closed(n0, n2)
  {
  }

  // ---------------------------------------------------------------------------------------
  // The id map

  /** Restricting twice is restricting to the second set of nodes. */
  lemma UnmappedTrans(ids0: map<Id, NodeId>, n1: Nodes, n2: Nodes)
    requires Submap(n1, n2)
    ensures Unmapped(Unmapped(ids0, n1), n2) == Unmapped(ids0, n2)
  {
    var a := Unmapped(Unmapped(ids0, n1), n2);
    var b := Unmapped(ids0, n2);
    forall id | id in ids0 && ids0[id] in n2 ensures ids0[id] in n1 {
      var n := ids0[id];
      assert n in n2 ==> n in n1 && n2[n] == n1[n];
    }
    assert a.Keys == b.Keys;
  }

  /** The restricted map agrees exactly with the nodes left. */
  lemma UnmappedExact(nodes0: Nodes, ids0: map<Id, NodeId>, nodes: Nodes)
    requires IdsExact(nodes0, ids0) && Submap(nodes0, nodes)
    ensures IdsExact(nodes, Unmapped(ids0, nodes))
  {
    var ids := Unmapped(ids0, nodes);
    forall id | id in ids ensures ids[id] in nodes && Owns(nodes[ids[id]].data, id) {
      assert id in ids0 && ids0[id] in nodes && ids[id] == ids0[id];
      assert nodes[ids0[id]] == nodes0[ids0[id]];
    }
    forall n, id | n in nodes && Owns(nodes[n].data, id) ensures id in ids && ids[id] == n {
      assert nodes[n] == nodes0[n];
    }
    forall n | n in nodes && (nodes[n].data.ArraySegment? || nodes[n].data.StringSegment?)
      ensures DistinctIds(nodes[n].data.ids)
    {
      assert nodes[n] == nodes0[n];
    }
  }

  /** Removing a node's own ids from the restricted map restricts it to the other nodes. */
  lemma UnmapStep(nodes0: Nodes, ids0: map<Id, NodeId>, nodes: Nodes, x: NodeId)
    requires IdsExact(nodes0, ids0) && Submap(nodes0, nodes) && x in nodes
    ensures forall id :: Owns(nodes[x].data, id) ==> id in Unmapped(ids0, nodes)
    ensures Unmapped(ids0, nodes - {x}) == map id | id in Unmapped(ids0, nodes) && !Owns(nodes[x].data, id) :: Unmapped(ids0, nodes)[id]
  {
    assert nodes[x] == nodes0[x];
    var a := Unmapped(ids0, nodes - {x});
    var b := map id | id in Unmapped(ids0, nodes) && !Owns(nodes[x].data, id) :: Unmapped(ids0, nodes)[id];
    forall id | id in ids0 && ids0[id] in nodes ensures ids0[id] == x <==> Owns(nodes[x].data, id) {
      assert Owns(nodes0[ids0[id]].data, id);
    }
    assert a.Keys == b.Keys;
  }

  // ---------------------------------------------------------------------------------------
  // The worklist

  /** The `for` loops of `delete` that push a removed node's links. */
  method PushSuccessors(queue: seq<NodeId>, d: NodeData) returns (queue': seq<NodeId>)
    ensures forall c :: c in queue' <==> c in queue || c in Successors(d)
    ensures |queue| <= |queue'| && queue'[..|queue|] == queue
  {
    var pushed: seq<NodeId> := [];
    match d {
    case Object(items, _) =>
      var keys := items.Keys;
      while keys != {}
        invariant keys <= items.Keys
        invariant forall c :: c in pushed <==> exists k :: k in items && k !in keys && items[k] == Child.Collection(c)
        decreases keys
      {
        var k :| k in keys;
        if items[k].Collection? {
          pushed := pushed + [items[k].node];
        }
        keys := keys - {k};
      }
    case Array(start, _, _) => pushed := [start];
    case String(start, _, _) => pushed := [start];
    case StringSegment(_, next, _, _) => pushed := [next];
    case ArraySegment(_, next, elements, _) =>
      pushed := [next];
      for i := 0 to |elements|
        invariant forall c :: c in pushed <==> c == next || exists j :: 0 <= j < i && elements[j] == Child.Collection(c)
      {
        if elements[i].Collection? {
          pushed := pushed + [elements[i].node];
        }
      }
    }
    queue' := queue + pushed;
    assert queue'[..|queue|] == queue;
  }

  /** The `id_to_node.remove(..).unwrap()` calls of `delete` for one removed node. */
  method UnmapOwn(ids: map<Id, NodeId>, d: NodeData) returns (ids': map<Id, NodeId>)
    requires forall id :: Owns(d, id) ==> id in ids
    requires (d.ArraySegment? || d.StringSegment?) ==> DistinctIds(d.ids)
    ensures ids' == map id | id in ids && !Owns(d, id) :: ids[id]
  {
    if IsContainer(d) {
      assert Owns(d, d.id);
      ids' := ids - {d.id};
    } else {
      ids' := ids;
      for k := 0 to |d.ids|
        invariant ids' == map id | id in ids && !(exists i :: 0 <= i < k && d.ids[i].id == id) :: ids[id]
      {
        assert Owns(d, d.ids[k].id);
        ids' := ids' - {d.ids[k].id};
      }
    }
  }

  /** A set with no members is empty. */
  lemma Pick(s: set<NodeId>)
    ensures s == {} || exists o :: o in s
  {
    if forall o :: o !in s {
      assert s == {};
    }
  }

  /** The loop invariant of `delete`'s worklist. */
  ghost predicate Worklist(nodes0: Nodes, ids0: map<Id, NodeId>, item: NodeId, nodes: Nodes, ids: map<Id, NodeId>, queue: seq<NodeId>) {
    && Submap(nodes0, nodes) && ids == Unmapped(ids0, nodes)
    && (item !in nodes || item in queue)
    && (forall i :: 0 <= i < |queue| ==> Reachable(nodes0, item, queue[i]))
    && (forall d :: d in nodes0 && d !in nodes ==> Reachable(nodes0, item, d))
    && (forall d :: d in nodes0 && d !in nodes ==> forall c :: c in Successors(nodes0[d].data) && c in nodes ==> c in queue)
  }

  /**
   * `delete(item)` on the node and id maps: exactly the nodes reachable from `item` are
   * removed, the rest are untouched, and exactly the ids of removed nodes are unmapped.
   */
  method DeleteFrom(nodes0: Nodes, ids0: map<Id, NodeId>, item: NodeId) returns (nodes: Nodes, ids: map<Id, NodeId>)
    requires IdsExact(nodes0, ids0)
    ensures Submap(nodes0, nodes) && Closed(nodes0, nodes) && item !in nodes
    ensures forall d :: d in nodes0 ==> (d !in nodes <==> Reachable(nodes0, item, d))
    ensures ids == Unmapped(ids0, nodes) && IdsExact(nodes, ids)
  {
    nodes, ids := nodes0, ids0;
    var queue := [item];
    ReachableSelf(nodes0, item);
    assert ids0 == Unmapped(ids0, nodes0);
    while queue != []
      invariant Worklist(nodes0, ids0, item, nodes, ids, queue)
      decreases |nodes|, |queue|
    {
      var x := queue[|queue| - 1];
      var rest := queue[..|queue| - 1];
      assert queue == rest + [x];
      if x in nodes {
        var data := nodes[x].data;
        UnmapStep(nodes0, ids0, nodes, x);
        UnmappedExact(nodes0, ids0, nodes);
        forall c | c in Successors(data) ensures Reachable(nodes0, item, c) {
          ReachableStep(nodes0, item, x, c);
        }
        var nodes' := nodes - {x};
        var ids' := UnmapOwn(ids, data);
        queue := PushSuccessors(rest, data);
        nodes, ids := nodes', ids';
      } else {
        queue := rest;
      }
    }
    forall d | d in nodes0 && Reachable(nodes0, item, d) ensures d !in nodes {
      ClosedGone(nodes0, nodes, item, d);
    }
    UnmappedExact(nodes0, ids0, nodes);
  }
}
