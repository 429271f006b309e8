/**
 * `Tree` of src/json/tree.rs as the object it is: the counter, the root id, the orphan set, the
 * id map and the node map are fields that the mutators update in place. Each mutator is proved
 * to leave the fields as the value model of JsonOps, JsonSequences and JsonUpdate says, so
 * everything proved there about the value (well-formedness, the error cases, the read-back
 * properties) holds of the object; `delete` and `delete_orphans` are specified by the
 * reachability of JsonDelete.
 */
module JsonTree {
  import opened Common
  import opened Segments
  import opened JsonNodes
  import opened JsonOps
  import opened JsonSequences
  import opened JsonUpdate
  import opened JsonDelete

  /**
   * The `while let Some(n) = next` loop of `reparent_item`: it walks up the parent links from
   * `parent` and reports whether it meets `item`, that is whether `item` is `parent` or one of
   * its ancestors.
   */
  method WalkFinds(ns: Nodes, parent: NodeId, item: NodeId) returns (found: bool)
    requires parent in ns && Terminates(ns, Some(parent))
    requires forall m :: m in ns && ns[m].parent.Some? ==> ns[m].parent.value in ns
    ensures found <==> exists j: nat :: Up(ns, Some(parent), j) == Some(item)
  {
    ghost var h := Height(ns, Some(parent));
    var next := Some(parent);
    ghost var k: nat := 0;
    while next.Some?
      invariant k <= h && next == Up(ns, Some(parent), k)
      invariant next.Some? ==> next.value in ns
      invariant forall j: nat :: j < k ==> Up(ns, Some(parent), j) != Some(item)
      decreases h - k
    {
      var cur := next.value;
      if cur == item {
        return true;
      }
      UpAdd(ns, Some(parent), k, 1);
      assert Up(ns, Some(cur), 1) == ns[cur].parent;
      assert k < h by {
        if h <= k {
          UpEnded(ns, Some(parent), h, k);
        }
      }
      forall j: nat | j < k + 1
        ensures Up(ns, Some(parent), j) != Some(item)
      {
        if j == k {
          assert Up(ns, Some(parent), j) == Some(cur);
        }
      }
      next := ns[cur].parent;
      k := k + 1;
    }
    forall j: nat ensures Up(ns, Some(parent), j) != Some(item) {
      if j >= k {
        UpEnded(ns, Some(parent), k, j);
      }
    }
    return false;
  }

  /** In a well-formed tree every parent link leads to a node. */
  lemma ParentsInNodes(t: Arena)
    requires Wf(t)
    ensures forall m :: m in t.nodes && t.nodes[m].parent.Some? ==> t.nodes[m].parent.value in t.nodes
  {
    forall m | m in t.nodes && t.nodes[m].parent.Some?
      ensures t.nodes[m].parent.value in t.nodes
    {
      assert NodeOk(t, m);
    }
  }

  class Tree {
    var nextNode: NodeId
    var root: Id
    var orphans: set<NodeId>
    var idToNode: map<Id, NodeId>
    var nodes: Nodes

    /** The fields as one value. */
    function State(): Arena
      reads this
    {
      Arena(nextNode, root, orphans, idToNode, nodes)
    }

    /** `Tree::new`: no nodes, no ids, the counter at zero. */
    constructor (rootId: Id)
      ensures State() == New(rootId)
    {
      nextNode := 0;
      root := rootId;
      orphans := {};
      idToNode := map[];
      nodes := map[];
    }

    /** `new_with_string_root`: the `unwrap` of `construct_string` cannot fail on a new tree. */
    static method NewWithStringRoot(rootId: Id) returns (t: Tree)
      ensures fresh(t) && t.State() == JsonUpdate.NewWithStringRoot(rootId)
    {
      t := new Tree(rootId);
      var r := t.ConstructString(rootId);
      assert r.Ok?;
      t.orphans := {};
    }

    /** `new_with_object_root`. */
    static method NewWithObjectRoot(rootId: Id) returns (t: Tree)
      ensures fresh(t) && t.State() == JsonUpdate.NewWithObjectRoot(rootId)
    {
      t := new Tree(rootId);
      var r := t.ConstructObject(rootId);
      assert r.Ok?;
      t.orphans := {};
    }

    /** `new_with_array_root`. */
    static method NewWithArrayRoot(rootId: Id) returns (t: Tree)
      ensures fresh(t) && t.State() == JsonUpdate.NewWithArrayRoot(rootId)
    {
      t := new Tree(rootId);
      var r := t.ConstructArray(rootId);
      assert r.Ok?;
      t.orphans := {};
    }

    /** `next_id`: hands out the counter and advances it. */
    method NextId() returns (n: NodeId)
      modifies this
      ensures n == old(nextNode) && State() == old(State()).(nextNode := n + 1)
    {
      n := nextNode;
      nextNode := nextNode + 1;
    }

    /** `construct_simple`. */
    method ConstructSimple(id: Id, data: NodeData) returns (r: Result<NodeId>)
      modifies this
      ensures (r, State()) == JsonOps.ConstructSimple(old(State()), id, data)
    {
      if id in idToNode {
        return Err(DuplicateId);
      }
      var nodeId := NextId();
      idToNode := idToNode[id := nodeId];
      orphans := orphans + {nodeId};
      nodes := nodes[nodeId := Node(data, None)];
      return Ok(nodeId);
    }

    /** `construct_object`. */
    method ConstructObject(id: Id) returns (r: Result<()>)
      modifies this
      ensures (r, State()) == JsonOps.ConstructObject(old(State()), id)
    {
      var c := ConstructSimple(id, NodeData.Object(map[], id));
      r := if c.Ok? then Ok(()) else Err(c.error);
    }

    /** `construct_string`: the segment's number is taken before the id is checked. */
    method ConstructString(id: Id) returns (r: Result<()>)
      modifies this
      ensures (r, State()) == JsonOps.ConstructString(old(State()), id)
    {
      var segmentId := NextId();
      var c := ConstructSimple(id, NodeData.String(segmentId, segmentId, id));
      if c.Err? {
        return Err(c.error);
      }
      var stringId := c.value;
      nodes := nodes[segmentId := Node(NodeData.StringSegment(stringId, stringId, [], []), Some(stringId))];
      return Ok(());
    }

    /** `construct_array`. */
    method ConstructArray(id: Id) returns (r: Result<()>)
      modifies this
      ensures (r, State()) == JsonOps.ConstructArray(old(State()), id)
    {
      var segmentId := NextId();
      var c := ConstructSimple(id, NodeData.Array(segmentId, segmentId, id));
      if c.Err? {
        return Err(c.error);
      }
      var arrayId := c.value;
      nodes := nodes[segmentId := Node(NodeData.ArraySegment(arrayId, arrayId, [], []), Some(arrayId))];
      return Ok(());
    }

    /**
     * `reparent_item`: refuse an item with a parent, then walk up from the target and refuse
     * the move if the walk meets the item. Where the source then unwraps the removal of the
     * item from the orphans (a panic on the root), the move is refused as `NodeAlreadyHadParent`.
     */
    method ReparentItem(item: NodeId, parent: NodeId) returns (r: Result<()>)
      requires Wf(State()) && item in nodes && parent in nodes
      modifies this
      ensures (r, State()) == Reparent(old(State()), item, parent)
    {
      if nodes[item].parent.Some? {
        return Err(NodeAlreadyHadParent);
      }
      ParentsInNodes(State());
      assert NodeOk(State(), parent);
      var found := WalkFinds(nodes, parent, item);
      OnChainIff(nodes, Some(parent), item, Height(nodes, Some(parent)));
      if found {
        return Err(EditWouldCauseCycle);
      }
      if item !in orphans {
        return Err(NodeAlreadyHadParent);
      }
      orphans := orphans - {item};
      nodes := nodes[item := nodes[item].(parent := Some(parent))];
      return Ok(());
    }

    /** `move_to_orphan`. */
    method MoveToOrphan(item: NodeId)
      requires item in nodes
      modifies this
      ensures State() == JsonOps.MoveToOrphan(old(State()), item)
    {
      nodes := nodes[item := nodes[item].(parent := None)];
      orphans := orphans + {item};
    }

    /**
     * `object_assign`: the child is moved under the object, then the key is set or removed and
     * a collection it held is sent to the orphans. When the target is not an object the
     * source reports `UnexpectedNodeType` with the child already moved; here the move is undone
     * first, so that a failed assignment changes nothing.
     */
    method ObjectAssign(obj: Id, key: string, value: Value) returns (r: Result<Value>)
      requires Wf(State())
      modifies this
      ensures (r, State()) == JsonOps.ObjectAssign(old(State()), obj, key, value)
    {
      hide Wf, NodeOk;
      ghost var t0 := State();
      WfIds(t0);
      var child := ValueToChild(State(), value);
      if child.Err? {
        return Err(child.error);
      }
      if obj !in idToNode {
        return Err(UnknownId);
      }
      var o := idToNode[obj];
      var c := child.value;
      if c.Some? && c.value.Collection? {
        ReparentSpec(t0, c.value.node, o);
        var moved := ReparentItem(c.value.node, o);
        if moved.Err? {
          return Err(moved.error);
        }
        if !nodes[o].data.Object? {
          AttachUndone(t0, c.value.node, o);
          nodes := nodes[c.value.node := nodes[c.value.node].(parent := None)];
          orphans := orphans + {c.value.node};
          return Err(UnexpectedNodeType);
        }
      } else if !nodes[o].data.Object? {
        return Err(UnexpectedNodeType);
      }
      assert nodes[o].data == t0.nodes[o].data;
      ItemReadable(t0, o, key);
      assert ItemAt(State(), o, key) == ItemAt(t0, o, key);
      if ItemAt(t0, o, key).Some? {
        ReadableKept(t0, State(), ItemAt(t0, o, key).value);
      }
      r := SetItem(o, key, c);
    }

    /**
     * The second half of `object_assign`, with the child already in place: `key` is set (or
     * removed, for no child), and a collection it held before is sent to the orphans.
     */
    method SetItem(o: NodeId, key: string, c: Option<Child>) returns (r: Result<Value>)
      requires o in nodes && nodes[o].data.Object? && Readable(State(), ItemAt(State(), o, key))
      modifies this
      ensures (r, State()) == Assign(old(State()), o, key, c)
    {
      var items := nodes[o].data.items;
      var prior := if key in items then Some(items[key]) else None;
      var items' := if c.Some? then items[key := c.value] else items - {key};
      nodes := nodes[o := nodes[o].(data := NodeData.Object(items', nodes[o].data.id))];
      if prior.Some? && prior.value.Collection? {
        MoveToOrphan(prior.value.node);
      }
      r := Ok(ChildToValue(State(), prior));
    }

    /**
     * `delete(item)`: removes exactly the nodes reachable from `item` along the links the
     * worklist follows, leaves every other node as it was, and unmaps exactly the ids of the
     * removed nodes.
     */
    method Delete(item: NodeId)
      requires IdsExact(nodes, idToNode)
      modifies this
      ensures nextNode == old(nextNode) && root == old(root) && orphans == old(orphans)
      ensures Submap(old(nodes), nodes) && Closed(old(nodes), nodes) && item !in nodes
      ensures forall d :: d in old(nodes) ==> (d !in nodes <==> Reachable(old(nodes), item, d))
      ensures idToNode == Unmapped(old(idToNode), nodes) && IdsExact(nodes, idToNode)
    {
      nodes, idToNode := DeleteFrom(nodes, idToNode, item);
    }

    /**
     * `delete_orphans`: every orphan's subtree is deleted and the orphan set is emptied. Exactly
     * the nodes reachable from an orphan are removed, and every id that named one of them is
     * now unknown.
     */
    method DeleteOrphans()
      requires IdsExact(nodes, idToNode)
      modifies this
      ensures orphans == {} && nextNode == old(nextNode) && root == old(root)
      ensures Submap(old(nodes), nodes)
      ensures forall d :: d in old(nodes) ==> (d !in nodes <==> exists o :: o in old(orphans) && Reachable(old(nodes), o, d))
      ensures idToNode == Unmapped(old(idToNode), nodes) && IdsExact(nodes, idToNode)
      ensures forall id :: id in old(idToNode) && (exists o :: o in old(orphans) && Reachable(old(nodes), o, old(idToNode)[id]))
                ==> IdToNode(State(), id) == Err(UnknownId)
    {
      ghost var nodes0, ids0 := nodes, idToNode;
      assert ids0 == Unmapped(ids0, nodes0);
      var todo := orphans;
      while todo != {}
        invariant todo <= old(orphans) && orphans == old(orphans)
        invariant nextNode == old(nextNode) && root == old(root)
        invariant Submap(nodes0, nodes) && Closed(nodes0, nodes)
        invariant idToNode == Unmapped(ids0, nodes) && IdsExact(nodes, idToNode)
        invariant forall o :: o in old(orphans) && o !in todo ==> o !in nodes
        invariant forall d :: d in nodes0 && d !in nodes ==> exists o :: o in old(orphans) && Reachable(nodes0, o, d)
        decreases todo
      {
        Pick(todo);
        var o :| o in todo;
        ghost var nodes1 := nodes;
        Delete(o);
        ClosedTrans(nodes0, nodes1, nodes);
        UnmappedTrans(ids0, nodes1, nodes);
        forall d | d in nodes0 && d !in nodes ensures exists o' :: o' in old(orphans) && Reachable(nodes0, o', d) {
          if d in nodes1 {
            ReachableSubmap(nodes0, nodes1, o, d);
          }
        }
        todo := todo - {o};
      }
      forall d | d in nodes0 && (exists o :: o in old(orphans) && Reachable(nodes0, o, d)) ensures d !in nodes {
        var o :| o in old(orphans) && Reachable(nodes0, o, d);
        ClosedGone(nodes0, nodes, o, d);
      }
      orphans := {};
    }

    /** Sets every field from a value of the model. */
    method Load(t: Arena)
      modifies this
      ensures State() == t
    {
      nextNode, root, orphans, idToNode, nodes := t.nextNode, t.root, t.orphans, t.idToNode, t.nodes;
    }

    /**
     * `update`: the edit's operation, in place. Character and list edits go through the JSON
     * sequence code, which is modelled on values (JsonSequences); the result is loaded back.
     */
    method Update(e: Edit) returns (r: Result<()>)
      requires Wf(State())
      modifies this
      ensures (r, State()) == JsonUpdate.Update(old(State()), e)
    {
      match e
      case ArrayCreate(id) =>
        r := ConstructArray(id);
      case ArrayInsert(index, id, item) =>
        var (r1, t1) := InsertListItem(State(), index, id, item);
        Load(t1);
        r := r1;
      case ArrayDelete(id) =>
        var (r1, t1) := DeleteListItem(State(), id);
        Load(t1);
        r := Discard(r1);
      case MapCreate(id) =>
        r := ConstructObject(id);
      case MapInsert(parent, key, item) =>
        var r1 := ObjectAssign(parent, key, item);
        r := Discard(r1);
      case TextCreate(id) =>
        r := ConstructString(id);
      case TextInsert(index, id, character) =>
        var (r1, t1) := InsertCharacter(State(), index, id, character);
        Load(t1);
        r := r1;
      case TextDelete(id) =>
        var (r1, t1) := DeleteCharacter(State(), id);
        Load(t1);
        r := r1;
    }
  }
}
