/**
 * The operations of src/json/tree.rs on objects, stated on values: the readers, the
 * constructors, `reparent_item`, `move_to_orphan` and `object_assign`. Each returns the
 * source's result together with the new tree, and each is proved to keep `Wf`.
 *
 * Where the source can panic or leave a half-done edit, the function here is the corrected
 * behaviour; JsonFindings holds the code as written and the inputs that show the difference.
 */
module JsonOps {
  import opened Common
  import opened Segments
  import opened JsonNodes

  // ---------------------------------------------------------------------------------------
  // Readers

  /** `Tree::new`: no nodes, no ids, no orphans; the root id names nothing yet. */
  function New(rootId: Id): (t: Arena)
    ensures Wf(t) && t.nodes == map[] && t.idToNode == map[]
  {
    Arena(0, rootId, {}, map[], map[])
  }

  /** `id_to_node`. */
  function IdToNode(t: Arena, id: Id): Result<NodeId> {
    if id in t.idToNode then Ok(t.idToNode[id]) else Err(UnknownId)
  }

  /** `get_type`: the kind of node an id names. */
  function GetType(t: Arena, id: Id): (r: Result<NodeType>)
    requires IdsMapped(t)
    ensures r.Err? <==> id !in t.idToNode
    ensures r.Err? ==> r.error == UnknownId
    ensures r == Ok(NodeType.Object) <==> id in t.idToNode && t.nodes[t.idToNode[id]].data.Object?
    ensures r == Ok(NodeType.String) <==> id in t.idToNode && t.nodes[t.idToNode[id]].data.String?
    ensures r == Ok(NodeType.Array) <==> id in t.idToNode && t.nodes[t.idToNode[id]].data.Array?
    ensures r == Ok(NodeType.Character) <==> id in t.idToNode && t.nodes[t.idToNode[id]].data.StringSegment?
    ensures r == Ok(NodeType.ArrayEntry) <==> id in t.idToNode && t.nodes[t.idToNode[id]].data.ArraySegment?
  {
    match IdToNode(t, id)
    case Err(e) => Err(e)
    case Ok(n) => Ok(TypeOf(t.nodes[n].data))
  }

  /** In a well-formed tree a parent exists and is a collection, never a segment. */
  lemma ParentIsCollection(t: Arena, n: NodeId)
    requires Wf(t) && n in t.nodes && t.nodes[n].parent.Some?
    ensures t.nodes[n].parent.value in t.nodes && IsContainer(t.nodes[t.nodes[n].parent.value].data)
  {
    assert NodeOk(t, n);
  }

  /** `get_parent`: the external id of the collection holding `id`'s node, if any. */
  function GetParent(t: Arena, id: Id): (r: Result<Option<Id>>)
    requires Wf(t)
    ensures r.Err? <==> id !in t.idToNode
    ensures r.Ok? && r.value.Some? ==> var p := t.nodes[t.idToNode[id]].parent;
              p.Some? && p.value in t.nodes && IsContainer(t.nodes[p.value].data) && t.nodes[p.value].data.id == r.value.value
              && r.value.value in t.idToNode && t.idToNode[r.value.value] == p.value
    ensures r.Ok? && r.value.None? ==> t.nodes[t.idToNode[id]].parent.None?
  {
    match IdToNode(t, id)
    case Err(e) => Err(e)
    case Ok(n) =>
      match t.nodes[n].parent
      case None => Ok(None)
      case Some(p) =>
        ParentIsCollection(t, n);
        assert Owns(t.nodes[p].data, t.nodes[p].data.id);
        Ok(Some(IdOf(t.nodes[p]).value))
  }

  /** `value_to_child`: scalars map to themselves, a collection reference to its node. */
  function ValueToChild(t: Arena, v: Value): (r: Result<Option<Child>>)
    ensures r.Err? <==> (v.Object? || v.Array? || v.String?) && v.id !in t.idToNode
    ensures r.Err? ==> r.error == UnknownId
    ensures r == Ok(None) <==> v == Value.Unset
    ensures r.Ok? && (v.Object? || v.Array? || v.String?) ==> r.value == Some(Child.Collection(t.idToNode[v.id]))
  {
    match v
    case Object(id) => (match IdToNode(t, id) case Err(e) => Err(e) case Ok(n) => Ok(Some(Child.Collection(n))))
    case Array(id) => (match IdToNode(t, id) case Err(e) => Err(e) case Ok(n) => Ok(Some(Child.Collection(n))))
    case String(id) => (match IdToNode(t, id) case Err(e) => Err(e) case Ok(n) => Ok(Some(Child.Collection(n))))
    case True => Ok(Some(Child.True))
    case False => Ok(Some(Child.False))
    case Null => Ok(Some(Child.Null))
    case Int(i) => Ok(Some(Child.Int(i)))
    case Unset => Ok(None)
  }

  /** A child `child_to_value` can read without panicking: a collection whose id maps back to it. */
  ghost predicate Readable(t: Arena, c: Option<Child>) {
    c.Some? && c.value.Collection? ==>
      && c.value.node in t.nodes && IsContainer(t.nodes[c.value.node].data)
      && t.nodes[c.value.node].data.id in t.idToNode
      && t.idToNode[t.nodes[c.value.node].data.id] == c.value.node
  }

  /** `child_to_value`: the value a slot shows, a collection by its id and its kind. */
  function ChildToValue(t: Arena, c: Option<Child>): (r: Value)
    requires Readable(t, c)
    ensures c.None? <==> r == Value.Unset
    ensures c.Some? && c.value.Collection? ==> r == NodeValue(t.nodes[c.value.node].data)
  {
    match c
    case None => Value.Unset
    case Some(ch) =>
      match ch
      case True => Value.True
      case False => Value.False
      case Null => Value.Null
      case Int(i) => Value.Int(i)
      case Collection(n) =>
        var id := IdOf(t.nodes[n]).value;
        var ty := TypeOf(t.nodes[t.idToNode[id]].data);
        if ty == NodeType.String then Value.String(id)
        else if ty == NodeType.Object then Value.Object(id)
        else Value.Array(id)
  }

  /** A child stays readable, and reads the same, in an arena that keeps its node's data and id. */
  lemma ReadableKept(t: Arena, t': Arena, ch: Child)
    requires Readable(t, Some(ch))
    requires ch.Collection? ==> && ch.node in t'.nodes && t'.nodes[ch.node].data == t.nodes[ch.node].data
                                && t.nodes[ch.node].data.id in t'.idToNode && t'.idToNode[t.nodes[ch.node].data.id] == ch.node
    ensures Readable(t', Some(ch)) && ChildToValue(t', Some(ch)) == ChildToValue(t, Some(ch))
  {
  }

  /** The reference to a collection node, of its own kind. */
  function NodeValue(d: NodeData): Value
    requires IsContainer(d)
  {
    if d.String? then Value.String(d.id) else if d.Object? then Value.Object(d.id) else Value.Array(d.id)
  }

  /** A collection reference names a node of the kind it claims. */
  ghost predicate WellTyped(t: Arena, v: Value) {
    (v.Object? || v.Array? || v.String?) ==>
      && v.id in t.idToNode && t.idToNode[v.id] in t.nodes
      && var d := t.nodes[t.idToNode[v.id]].data;
         (v.Object? && d.Object?) || (v.Array? && d.Array?) || (v.String? && d.String?)
  }

  /** Reading back a child made from a well-typed value gives the value back. */
  lemma ValueChildRoundTrip(t: Arena, v: Value)
    requires Wf(t) && WellTyped(t, v) && ValueToChild(t, v).Ok?
    ensures Readable(t, ValueToChild(t, v).value)
    ensures ChildToValue(t, ValueToChild(t, v).value) == v
  {
    if v.Object? || v.Array? || v.String? {
      var n := t.idToNode[v.id];
      assert Owns(t.nodes[n].data, v.id);
    }
  }

  // ---------------------------------------------------------------------------------------
  // Constructors

  /** `construct_simple`: a fresh parentless orphan node holding `data`, mapped from `id`. */
  function ConstructSimple(t: Arena, id: Id, data: NodeData): (Result<NodeId>, Arena) {
    if id in t.idToNode then (Err(DuplicateId), t)
    else
      var n := t.nextNode;
      (Ok(n), t.(nextNode := n + 1, idToNode := t.idToNode[id := n], orphans := t.orphans + {n},
                 nodes := t.nodes[n := Node(data, None)]))
  }

  /**
   * A duplicate id changes nothing; otherwise the node is new, numbered by the counter, has
   * no parent, is an orphan and is what `id` names.
   */
  lemma ConstructSimpleSpec(t: Arena, id: Id, data: NodeData)
    requires IdsFresh(t)
    ensures var (r, t') := ConstructSimple(t, id, data);
            && (r.Err? <==> id in t.idToNode)
            && (r.Err? ==> r.error == DuplicateId && t' == t)
            && (r.Ok? ==> && r.value == t.nextNode && r.value !in t.nodes && t'.nextNode > r.value
                          && t'.nodes == t.nodes[r.value := Node(data, None)]
                          && t'.orphans == t.orphans + {r.value}
                          && t'.idToNode == t.idToNode[id := r.value] && t'.root == t.root)
  {
  }

  /** `construct_object`: an empty object. */
  function ConstructObject(t: Arena, id: Id): (Result<()>, Arena) {
    var (r, t') := ConstructSimple(t, id, NodeData.Object(map[], id));
    (if r.Ok? then Ok(()) else Err(r.error), t')
  }

  /**
   * `construct_string` (`isArray` false) and `construct_array` (true): the counter is advanced
   * for the segment first, then the container is made, then its one empty segment, whose prev,
   * next and parent are all the container.
   */
  function ConstructSequence(t: Arena, id: Id, isArray: bool): (Result<()>, Arena) {
    var s := t.nextNode;
    var t1 := t.(nextNode := s + 1);
    var data := if isArray then NodeData.Array(s, s, id) else NodeData.String(s, s, id);
    var (r, t2) := ConstructSimple(t1, id, data);
    if r.Err? then (Err(r.error), t1)
    else
      var c := r.value;
      var seg := if isArray then NodeData.ArraySegment(c, c, [], []) else NodeData.StringSegment(c, c, [], []);
      (Ok(()), t2.(nodes := t2.nodes[s := Node(seg, Some(c))]))
  }

  function ConstructString(t: Arena, id: Id): (Result<()>, Arena) {
    ConstructSequence(t, id, false)
  }

  function ConstructArray(t: Arena, id: Id): (Result<()>, Arena) {
    ConstructSequence(t, id, true)
  }

  /**
   * A new sequence: a duplicate id leaves everything but the counter unchanged; otherwise
   * `id` names a fresh parentless orphan container whose only segment is fresh and empty and
   * points back to it as prev, next and parent.
   */
  lemma ConstructSequenceSpec(t: Arena, id: Id, isArray: bool)
    requires IdsFresh(t)
    ensures var (r, t') := ConstructSequence(t, id, isArray);
            && (r.Err? <==> id in t.idToNode)
            && (r.Err? ==> r.error == DuplicateId && t' == t.(nextNode := t.nextNode + 1))
            && (r.Ok? ==>
                  var c := t'.idToNode[id];
                  && c !in t.nodes && c in t'.nodes && c in t'.orphans && t'.nodes[c].parent.None?
                  && IsSeqKind(t'.nodes[c].data, isArray) && t'.nodes[c].data.id == id
                  && var s := t'.nodes[c].data.start;
                     && s == t'.nodes[c].data.end && s != c && s !in t.nodes && s in t'.nodes
                     && t'.nodes[s].parent == Some(c) && IsSegmentKind(t'.nodes[s].data, isArray)
                     && t'.nodes[s].data.prev == c && t'.nodes[s].data.next == c
                     && t'.nodes[s].data.ids == []
                     && (if isArray then t'.nodes[s].data.elements == [] else t'.nodes[s].data.contents == []))
  {
  }

  /**
   * Adding nodes, ids and orphans while keeping every old node as it was keeps each old
   * node's invariant.
   */
  lemma ExtendKeepsNodeOk(t: Arena, t': Arena, m: NodeId)
    requires m in t.nodes && NodeOk(t, m)
    requires forall x :: x in t.nodes ==> x in t'.nodes && t'.nodes[x] == t.nodes[x]
    requires t.orphans <= t'.orphans && t'.root == t.root
    requires forall i :: i in t.idToNode ==> i in t'.idToNode && t'.idToNode[i] == t.idToNode[i]
    ensures NodeOk(t', m)
  {
    var d := t.nodes[m].data;
    if d.Object? {
      assert ItemsOk(t.nodes, d.items, m);
    } else if d.ArraySegment? {
      assert ElementsOk(t.nodes, d.elements, t.nodes[m].parent.value);
    }
    if t.nodes[m].parent.Some? {
      var p := t.nodes[m].parent.value;
      if t.nodes[p].data.Object? {
        assert InItems(t.nodes[p].data.items, m);
      }
    }
  }

  /** Adding ids for new nodes only, and keeping old nodes, keeps `IdsOwned`. */
  lemma ExtendKeepsIdsOwned(t: Arena, t': Arena)
    requires IdsOwned(t)
    requires forall x :: x in t.nodes ==> x in t'.nodes && t'.nodes[x] == t.nodes[x]
    requires forall i :: i in t.idToNode ==> i in t'.idToNode && t'.idToNode[i] == t.idToNode[i]
    requires forall x, i :: x in t'.nodes && x !in t.nodes && Owns(t'.nodes[x].data, i) ==> i in t'.idToNode && t'.idToNode[i] == x
    ensures IdsOwned(t')
  {
    forall x, i | x in t'.nodes && Owns(t'.nodes[x].data, i) ensures i in t'.idToNode && t'.idToNode[i] == x {
      if x in t.nodes {
        assert Owns(t.nodes[x].data, i);
      }
    }
  }

  /** A fresh object keeps the tree well formed. */
  lemma ConstructObjectKeepsWf(t: Arena, id: Id)
    requires Wf(t)
    ensures Wf(ConstructObject(t, id).1)
  {
    if id !in t.idToNode {
      ObjectAddedNodesOk(t, id);
      ObjectAddedIds(t, id);
      ObjectAddedAcyclic(t, id);
    }
  }

  /** A fresh object keeps the id and orphan parts of the invariant. */
  lemma ObjectAddedIds(t: Arena, id: Id)
    requires Wf(t) && id !in t.idToNode
    ensures var t' := ConstructSimple(t, id, NodeData.Object(map[], id)).1;
            IdsFresh(t') && IdsMapped(t') && IdsOwned(t') && OrphansParentless(t')
  {
    hide Wf;
    WfIds(t);
    var t' := ConstructSimple(t, id, NodeData.Object(map[], id)).1;
    assert t.nextNode !in t.nodes;
    ExtendKeepsIdsOwned(t, t');
  }

  /** A fresh parentless node keeps the parent links acyclic. */
  lemma ObjectAddedAcyclic(t: Arena, id: Id)
    requires Wf(t) && id !in t.idToNode
    ensures Acyclic(ConstructSimple(t, id, NodeData.Object(map[], id)).1.nodes)
  {
    hide NodeOk;
    var t' := ConstructSimple(t, id, NodeData.Object(map[], id)).1;
    assert t.nextNode !in t.nodes;
    SameParentsAcyclic(t.nodes, t'.nodes);
  }

  lemma ObjectAddedNodesOk(t: Arena, id: Id)
    requires Wf(t) && id !in t.idToNode
    ensures var t' := ConstructSimple(t, id, NodeData.Object(map[], id)).1;
            forall m :: m in t'.nodes ==> NodeOk(t', m)
  {
    var t' := ConstructSimple(t, id, NodeData.Object(map[], id)).1;
    var n := t.nextNode;
    assert n !in t.nodes;
    forall m | m in t'.nodes ensures NodeOk(t', m) {
      if m != n {
        ExtendKeepsNodeOk(t, t', m);
      }
    }
  }

  /** A fresh string or array keeps the tree well formed. */
  lemma ConstructSequenceKeepsWf(t: Arena, id: Id, isArray: bool)
    requires Wf(t)
    ensures Wf(ConstructSequence(t, id, isArray).1)
  {
    hide Wf;
    var s := t.nextNode;
    if id in t.idToNode {
      assert ConstructSequence(t, id, isArray).1 == t.(nextNode := s + 1);
      CounterBumpKeepsWf(t);
    } else {
      var c := s + 1;
      var data := if isArray then NodeData.Array(s, s, id) else NodeData.String(s, s, id);
      var seg := if isArray then NodeData.ArraySegment(c, c, [], []) else NodeData.StringSegment(c, c, [], []);
      var t' := Arena(s + 2, t.root, t.orphans + {c}, t.idToNode[id := c], t.nodes[c := Node(data, None)][s := Node(seg, Some(c))]);
      ConstructSequenceAdded(t, id, isArray);
      SequenceAddedWf(t, t', id, isArray, s, c, data, seg);
    }
  }

  /** Drawing a node number that is not used keeps the tree well formed. */
  lemma CounterBumpKeepsWf(t: Arena)
    requires Wf(t)
    ensures Wf(t.(nextNode := t.nextNode + 1))
  {
    var t' := t.(nextNode := t.nextNode + 1);
    forall m | m in t'.nodes ensures NodeOk(t', m) {
      ExtendKeepsNodeOk(t, t', m);
    }
  }

  /** With a fresh id, the counter's two numbers become the segment and the container. */
  lemma ConstructSequenceAdded(t: Arena, id: Id, isArray: bool)
    requires id !in t.idToNode
    ensures var s := t.nextNode;
            var c := s + 1;
            var data := if isArray then NodeData.Array(s, s, id) else NodeData.String(s, s, id);
            var seg := if isArray then NodeData.ArraySegment(c, c, [], []) else NodeData.StringSegment(c, c, [], []);
            ConstructSequence(t, id, isArray).1
              == Arena(s + 2, t.root, t.orphans + {c}, t.idToNode[id := c], t.nodes[c := Node(data, None)][s := Node(seg, Some(c))])
  {
  }

  /** The new container and segment keep each part of the invariant. */
  lemma SequenceAddedWf(t: Arena, t': Arena, id: Id, isArray: bool, s: NodeId, c: NodeId, data: NodeData, seg: NodeData)
    requires Wf(t) && id !in t.idToNode && s == t.nextNode && c == s + 1
    requires data == if isArray then NodeData.Array(s, s, id) else NodeData.String(s, s, id)
    requires seg == if isArray then NodeData.ArraySegment(c, c, [], []) else NodeData.StringSegment(c, c, [], [])
    requires t' == Arena(s + 2, t.root, t.orphans + {c}, t.idToNode[id := c], t.nodes[c := Node(data, None)][s := Node(seg, Some(c))])
    ensures Wf(t')
  {
    SequenceAddedIds(t, t', id, isArray, s, c, data, seg);
    SequenceAddedNodesOk(t, t', id, isArray, s, c, data, seg);
    SequenceAddedAcyclic(t, t', id, isArray, s, c, data, seg);
  }

  lemma SequenceAddedAcyclic(t: Arena, t': Arena, id: Id, isArray: bool, s: NodeId, c: NodeId, data: NodeData, seg: NodeData)
    requires Wf(t) && id !in t.idToNode && s == t.nextNode && c == s + 1
    requires t' == Arena(s + 2, t.root, t.orphans + {c}, t.idToNode[id := c], t.nodes[c := Node(data, None)][s := Node(seg, Some(c))])
    ensures Acyclic(t'.nodes)
  {
    assert s !in t.nodes && c !in t.nodes;
    var nodes2 := t.nodes[c := Node(data, None)];
    SameParentsAcyclic(t.nodes, nodes2);
    RedirectAcyclic(nodes2, t'.nodes, s, Some(c));
  }

  lemma SequenceAddedIds(t: Arena, t': Arena, id: Id, isArray: bool, s: NodeId, c: NodeId, data: NodeData, seg: NodeData)
    requires Wf(t) && id !in t.idToNode && s == t.nextNode && c == s + 1
    requires data == if isArray then NodeData.Array(s, s, id) else NodeData.String(s, s, id)
    requires seg == if isArray then NodeData.ArraySegment(c, c, [], []) else NodeData.StringSegment(c, c, [], [])
    requires t' == Arena(s + 2, t.root, t.orphans + {c}, t.idToNode[id := c], t.nodes[c := Node(data, None)][s := Node(seg, Some(c))])
    ensures IdsFresh(t') && IdsMapped(t') && IdsOwned(t') && OrphansParentless(t')
  {
    hide Wf;
    WfIds(t);
    assert Owns(data, id);
    SequenceAddedFresh(t, t', id, s, c, data, seg);
    SequenceAddedOwned(t, t', id, isArray, s, c, data, seg);
  }

  /** The two new nodes are below the counter and the new orphan is parentless. */
  lemma SequenceAddedFresh(t: Arena, t': Arena, id: Id, s: NodeId, c: NodeId, data: NodeData, seg: NodeData)
    requires IdsFresh(t) && IdsMapped(t) && OrphansParentless(t) && s == t.nextNode && c == s + 1
    requires Owns(data, id)
    requires t' == Arena(s + 2, t.root, t.orphans + {c}, t.idToNode[id := c], t.nodes[c := Node(data, None)][s := Node(seg, Some(c))])
    ensures IdsFresh(t') && IdsMapped(t') && OrphansParentless(t')
  {
    assert s !in t.nodes && c !in t.nodes;
  }

  /** Only the container answers to the new id; the old nodes keep their ids. */
  lemma SequenceAddedOwned(t: Arena, t': Arena, id: Id, isArray: bool, s: NodeId, c: NodeId, data: NodeData, seg: NodeData)
    requires IdsFresh(t) && IdsOwned(t) && id !in t.idToNode && s == t.nextNode && c == s + 1
    requires data == if isArray then NodeData.Array(s, s, id) else NodeData.String(s, s, id)
    requires seg == if isArray then NodeData.ArraySegment(c, c, [], []) else NodeData.StringSegment(c, c, [], [])
    requires t' == Arena(s + 2, t.root, t.orphans + {c}, t.idToNode[id := c], t.nodes[c := Node(data, None)][s := Node(seg, Some(c))])
    ensures IdsOwned(t')
  {
    assert s !in t.nodes && c !in t.nodes;
    forall x, i | x in t'.nodes && x !in t.nodes && Owns(t'.nodes[x].data, i)
      ensures i in t'.idToNode && t'.idToNode[i] == x
    {
      assert x == s || x == c;
    }
    ExtendKeepsIdsOwned(t, t');
  }

  lemma SequenceAddedNodesOk(t: Arena, t': Arena, id: Id, isArray: bool, s: NodeId, c: NodeId, data: NodeData, seg: NodeData)
    requires Wf(t) && id !in t.idToNode && s == t.nextNode && c == s + 1
    requires data == if isArray then NodeData.Array(s, s, id) else NodeData.String(s, s, id)
    requires seg == if isArray then NodeData.ArraySegment(c, c, [], []) else NodeData.StringSegment(c, c, [], [])
    requires t' == Arena(s + 2, t.root, t.orphans + {c}, t.idToNode[id := c], t.nodes[c := Node(data, None)][s := Node(seg, Some(c))])
    ensures forall m :: m in t'.nodes ==> NodeOk(t', m)
  {
    forall m | m in t'.nodes ensures NodeOk(t', m) {
      SequenceAddedNodeOk(t, t', id, isArray, s, c, data, seg, m);
    }
  }

  lemma SequenceAddedNodeOk(t: Arena, t': Arena, id: Id, isArray: bool, s: NodeId, c: NodeId, data: NodeData, seg: NodeData, m: NodeId)
    requires Wf(t) && id !in t.idToNode && s == t.nextNode && c == s + 1
    requires data == if isArray then NodeData.Array(s, s, id) else NodeData.String(s, s, id)
    requires seg == if isArray then NodeData.ArraySegment(c, c, [], []) else NodeData.StringSegment(c, c, [], [])
    requires t' == Arena(s + 2, t.root, t.orphans + {c}, t.idToNode[id := c], t.nodes[c := Node(data, None)][s := Node(seg, Some(c))])
    requires m in t'.nodes
    ensures NodeOk(t', m)
  {
    assert s !in t.nodes && c !in t.nodes;
    if m == c {
      assert SoleSegment(t'.nodes, c, isArray);
    } else if m == s {
      assert SegmentHome(t'.nodes, s, isArray);
      assert LiveCount([]) == 0;
    } else {
      ExtendKeepsNodeOk(t, t', m);
    }
  }

  // ---------------------------------------------------------------------------------------
  // Moving collections

  /** The state change of a successful `reparent_item`. */
  function Attach(t: Arena, item: NodeId, parent: NodeId): Arena
    requires item in t.nodes
  {
    t.(orphans := t.orphans - {item}, nodes := t.nodes[item := t.nodes[item].(parent := Some(parent))])
  }

  /** Taking an orphan's new parent away again gives back the tree it was attached in. */
  lemma AttachUndone(t: Arena, item: NodeId, parent: NodeId)
    requires item in t.nodes && t.nodes[item].parent.None? && item in t.orphans
    ensures var t' := Attach(t, item, parent);
            && t'.nodes[item := t'.nodes[item].(parent := None)] == t.nodes
            && t'.orphans + {item} == t.orphans
  {
  }

  /**
   * `reparent_item`, corrected: an item that has a parent cannot move, nor can an item onto
   * itself or one of its descendants; checked in that order. Where the source would then panic
   * on a parentless item that is not an orphan (the root), the move is refused as
   * `NodeAlreadyHadParent`.
   */
  function Reparent(t: Arena, item: NodeId, parent: NodeId): (Result<()>, Arena)
    requires Wf(t) && item in t.nodes && parent in t.nodes
  {
    if t.nodes[item].parent.Some? then (Err(NodeAlreadyHadParent), t)
    else if OnChain(t.nodes, Some(parent), item, Height(t.nodes, Some(parent))) then (Err(EditWouldCauseCycle), t)
    else if item !in t.orphans then (Err(NodeAlreadyHadParent), t)
    else (Ok(()), Attach(t, item, parent))
  }

  /**
   * What `reparent_item` decides: `EditWouldCauseCycle` exactly when a parentless item is the
   * target or one of its ancestors, `NodeAlreadyHadParent` when it has a parent or is the root;
   * on success the item hangs from the target, is no orphan, and the links stay acyclic.
   */
  lemma ReparentSpec(t: Arena, item: NodeId, parent: NodeId)
    requires Wf(t) && item in t.nodes && parent in t.nodes
    ensures var (r, t') := Reparent(t, item, parent);
            && (r.Err? ==> t' == t)
            && (r == Err(EditWouldCauseCycle) <==>
                  t.nodes[item].parent.None? && exists j: nat :: Up(t.nodes, Some(parent), j) == Some(item))
            && (r == Err(NodeAlreadyHadParent) <==>
                  t.nodes[item].parent.Some?
                  || (item !in t.orphans && forall j: nat :: Up(t.nodes, Some(parent), j) != Some(item)))
            && (r == Err(NodeAlreadyHadParent) && t.nodes[item].parent.None? ==> IsRoot(t, item))
            && (r.Ok? <==> t.nodes[item].parent.None? && item in t.orphans
                           && forall j: nat :: Up(t.nodes, Some(parent), j) != Some(item))
            && (r.Ok? ==> t' == Attach(t, item, parent) && Acyclic(t'.nodes) && item != parent)
  {
    OnChainIff(t.nodes, Some(parent), item, Height(t.nodes, Some(parent)));
    assert NodeOk(t, item);
    var (r, t') := Reparent(t, item, parent);
    if r.Ok? {
      assert Up(t.nodes, Some(parent), 0) == Some(parent);
      RedirectAcyclic(t.nodes, t'.nodes, item, Some(parent));
    }
  }

  /** `move_to_orphan`: the item loses its parent and joins the orphans. */
  function MoveToOrphan(t: Arena, item: NodeId): (t': Arena)
    requires item in t.nodes
    ensures t'.nodes.Keys == t.nodes.Keys && t'.idToNode == t.idToNode && t'.nextNode == t.nextNode
    ensures t'.nodes[item] == Node(t.nodes[item].data, None) && t'.orphans == t.orphans + {item}
    ensures forall m :: m in t.nodes && m != item ==> t'.nodes[m] == t.nodes[m]
  {
    t.(nodes := t.nodes[item := t.nodes[item].(parent := None)], orphans := t.orphans + {item})
  }

  // ---------------------------------------------------------------------------------------
  // Assigning to object keys

  /** What `object[key]` holds, if anything. */
  function ItemAt(t: Arena, o: NodeId, key: string): Option<Child>
    requires o in t.nodes && t.nodes[o].data.Object?
  {
    if key in t.nodes[o].data.items then Some(t.nodes[o].data.items[key]) else None
  }

  /** The key update of `object_assign`, on a tree where the new child is already attached. */
  function Assign(t: Arena, o: NodeId, key: string, child: Option<Child>): (Result<Value>, Arena)
    requires o in t.nodes && t.nodes[o].data.Object? && Readable(t, ItemAt(t, o, key))
  {
    var items := t.nodes[o].data.items;
    var prior := ItemAt(t, o, key);
    var items' := if child.Some? then items[key := child.value] else items - {key};
    var t2 := t.(nodes := t.nodes[o := t.nodes[o].(data := NodeData.Object(items', t.nodes[o].data.id))]);
    var t3 := if prior.Some? && prior.value.Collection? then MoveToOrphan(t2, prior.value.node) else t2;
    assert Readable(t3, prior);
    (Ok(ChildToValue(t3, prior)), t3)
  }

  /** In a well-formed tree every object slot is readable. */
  lemma ItemReadable(t: Arena, o: NodeId, key: string)
    requires Wf(t) && o in t.nodes && t.nodes[o].data.Object?
    ensures Readable(t, ItemAt(t, o, key))
  {
    assert NodeOk(t, o);
    var c := ItemAt(t, o, key);
    if c.Some? && c.value.Collection? {
      var n := c.value.node;
      assert Owns(t.nodes[n].data, t.nodes[n].data.id);
    }
  }

  /**
   * `object_assign` as the source orders it, with the two errors that come after the child is
   * reparented left unrolled: the first tree is the one the source leaves behind.
   */
  function ObjectAssignSteps(t: Arena, obj: Id, key: string, value: Value): (Result<Value>, Arena)
    requires Wf(t)
  {
    match ValueToChild(t, value)
    case Err(e) => (Err(e), t)
    case Ok(child) =>
      match IdToNode(t, obj)
      case Err(e) => (Err(e), t)
      case Ok(o) =>
        var (r, t1) := if child.Some? && child.value.Collection? then Reparent(t, child.value.node, o) else (Ok(()), t);
        if r.Err? then (Err(r.error), t1)
        else if !t1.nodes[o].data.Object? then (Err(UnexpectedNodeType), t1)
        else
          ItemReadable(t, o, key);
          if child.Some? && child.value.Collection? then
            ReparentSpec(t, child.value.node, o);
            Assign(t1, o, key, child)
          else
            Assign(t1, o, key, child)
  }

  /**
   * `object_assign`, corrected: the same results, but an error leaves the tree as it was (the
   * source reparents the child before it checks that the target is an object).
   */
  function ObjectAssign(t: Arena, obj: Id, key: string, value: Value): (Result<Value>, Arena)
    requires Wf(t)
  {
    var (r, t') := ObjectAssignSteps(t, obj, key, value);
    if r.Err? then (r, t) else (r, t')
  }
}
