/**
 * What `object_assign` (src/json/tree.rs:606-631) does to a well-formed tree: the key is set
 * or cleared, an assigned collection hangs from the object, a displaced collection becomes an
 * orphan, the previous value is returned, and the tree stays well formed.
 */
module JsonAssign {
  import opened Common
  import opened JsonNodes
  import opened JsonOps

  /** The collection node a slot holds, if any. */
  function CollectionIn(c: Option<Child>): (r: Option<NodeId>)
    ensures r.Some? <==> c.Some? && c.value.Collection?
    ensures r.Some? ==> c.value == Child.Collection(r.value)
  {
    if c.Some? && c.value.Collection? then Some(c.value.node) else None
  }

  /**
   * `reparent_item(c, o)` would succeed: the collection is a parentless orphan that is not `o`
   * or one of its ancestors (or there is no collection to move).
   */
  ghost predicate Movable(t: Arena, c: Option<NodeId>, o: NodeId) {
    c.Some? ==> && c.value in t.nodes && t.nodes[c.value].parent.None? && c.value in t.orphans
                && forall j: nat :: Up(t.nodes, Some(o), j) != Some(c.value)
  }

  /** What a successful assignment needs: the target is an object and the child can move there. */
  ghost predicate AssignPre(t: Arena, o: NodeId, child: Option<Child>) {
    Wf(t) && o in t.nodes && t.nodes[o].data.Object? && Movable(t, CollectionIn(child), o)
  }

  /** The items of `o` once `key` holds `child` (or nothing, for `None`). */
  function NewItems(items: map<string, Child>, key: string, child: Option<Child>): map<string, Child> {
    if child.Some? then items[key := child.value] else items - {key}
  }

  /**
   * The tree after the assignment: `o`'s items updated, the assigned collection under `o`,
   * the displaced one parentless and an orphan, and nothing else changed.
   */
  ghost predicate AssignShape(t: Arena, t': Arena, o: NodeId, key: string, child: Option<Child>)
    requires o in t.nodes && t.nodes[o].data.Object?
  {
    var c := CollectionIn(child);
    var p := CollectionIn(ItemAt(t, o, key));
    && t'.nodes.Keys == t.nodes.Keys && t'.idToNode == t.idToNode && t'.root == t.root && t'.nextNode == t.nextNode
    && t'.orphans == (if c.Some? then t.orphans - {c.value} else t.orphans) + (if p.Some? then {p.value} else {})
    && t'.nodes[o] == Node(NodeData.Object(NewItems(t.nodes[o].data.items, key, child), t.nodes[o].data.id), t.nodes[o].parent)
    && (c.Some? ==> c.value in t.nodes && t'.nodes[c.value] == t.nodes[c.value].(parent := Some(o)))
    && (p.Some? ==> p.value in t.nodes && t'.nodes[p.value] == t.nodes[p.value].(parent := None))
    && forall m :: m in t.nodes && m != o && Some(m) != c && Some(m) != p ==> t'.nodes[m] == t.nodes[m]
  }

  /** The facts about `o`, the assigned collection and the displaced one that the proofs share. */
  lemma AssignFacts(t: Arena, o: NodeId, key: string, child: Option<Child>)
    requires AssignPre(t, o, child)
    ensures var c := CollectionIn(child);
            c.Some? ==> && c.value != o && t.nodes[o].parent != Some(c.value) && IsContainer(t.nodes[c.value].data)
                        && forall x :: !Attached(t.nodes, c.value, x)
    ensures var p := CollectionIn(ItemAt(t, o, key));
            p.Some? ==> && Attached(t.nodes, p.value, o) && p.value != o && t.nodes[o].parent != Some(p.value)
                        && CollectionIn(child) != p
  {
    var c := CollectionIn(child);
    if c.Some? {
      assert Up(t.nodes, Some(o), 0) == Some(o);
      assert Up(t.nodes, Some(o), 1) == t.nodes[o].parent;
      assert NodeOk(t, c.value);
    }
    var p := CollectionIn(ItemAt(t, o, key));
    if p.Some? {
      assert NodeOk(t, o);
      assert ItemsOk(t.nodes, t.nodes[o].data.items, o);
      assert Attached(t.nodes, p.value, o);
      assert Up(t.nodes, Some(p.value), 1) == Some(o);
      if p.value == o {
        NotOwnAncestor(t.nodes, o, 1);
      }
      if t.nodes[o].parent == Some(p.value) {
        assert Up(t.nodes, Some(o), 2) == Up(t.nodes, Some(p.value), 1);
        NotOwnAncestor(t.nodes, o, 2);
      }
    }
  }

  /** The segment or start of a sequence is neither an object nor a collection being moved. */
  lemma SegmentUntouched(t: Arena, t': Arena, o: NodeId, key: string, child: Option<Child>, s: NodeId)
    requires AssignPre(t, o, child) && AssignShape(t, t', o, key, child)
    requires s in t.nodes && (t.nodes[s].data.ArraySegment? || t.nodes[s].data.StringSegment?)
    ensures s in t'.nodes && t'.nodes[s] == t.nodes[s]
  {
    AssignFacts(t, o, key, child);
  }

  /** The object keeps its invariant with its new items. */
  lemma AssignedObjectOk(t: Arena, t': Arena, o: NodeId, key: string, child: Option<Child>)
    requires AssignPre(t, o, child) && AssignShape(t, t', o, key, child)
    ensures NodeOk(t', o)
  {
    AssignFacts(t, o, key, child);
    assert NodeOk(t, o);
    var items := t.nodes[o].data.items;
    var items' := NewItems(items, key, child);
    var c := CollectionIn(child);
    var p := CollectionIn(ItemAt(t, o, key));
    assert ItemsOk(t.nodes, items, o);
    forall k | k in items' && items'[k].Collection? ensures Attached(t'.nodes, items'[k].node, o) {
      if k != key {
        var x := items[k].node;
        assert Attached(t.nodes, x, o);
        assert Up(t.nodes, Some(x), 1) == Some(o);
        if x == o {
          NotOwnAncestor(t.nodes, o, 1);
        }
        assert Some(x) != p by {
          if key in items {
            assert items[k] != items[key];
          }
        }
      }
    }
    forall k1, k2 | k1 in items' && k2 in items' && k1 != k2 && items'[k1].Collection?
      ensures items'[k1] != items'[k2]
    {
      if k1 == key {
        assert k2 in items && items'[k2] == items[k2];
        if items[k2].Collection? {
          assert Attached(t.nodes, items[k2].node, o);
        }
      } else if k2 == key {
        assert Attached(t.nodes, items[k1].node, o);
      }
    }
    assert ItemsOk(t'.nodes, items', o);
    match t.nodes[o].parent
    case None =>
    case Some(q) =>
      assert Holds(t.nodes, q, o);
      assert Up(t.nodes, Some(o), 1) == Some(q);
      if q == o {
        NotOwnAncestor(t.nodes, o, 1);
      }
      if t.nodes[q].data.Array? {
        var s := t.nodes[q].data.start;
        assert NodeOk(t, q);
        SegmentUntouched(t, t', o, key, child, s);
      }
      assert Holds(t'.nodes, q, o);
  }

  /** The assigned collection hangs from the object, under `key`. */
  lemma AssignedChildOk(t: Arena, t': Arena, o: NodeId, key: string, child: Option<Child>)
    requires AssignPre(t, o, child) && AssignShape(t, t', o, key, child) && CollectionIn(child).Some?
    ensures NodeOk(t', CollectionIn(child).value)
  {
    AssignFacts(t, o, key, child);
    var c := CollectionIn(child).value;
    var p := CollectionIn(ItemAt(t, o, key));
    assert NodeOk(t, c);
    var d := t.nodes[c].data;
    if d.Array? || d.String? {
      SegmentUntouched(t, t', o, key, child, d.start);
    } else if d.Object? {
      assert ItemsOk(t.nodes, d.items, c);
      forall k | k in d.items && d.items[k].Collection? ensures Attached(t'.nodes, d.items[k].node, c) {
        var x := d.items[k].node;
        assert Attached(t.nodes, x, c);
        assert Some(x) != p && x != o && x != c;
      }
      assert ItemsOk(t'.nodes, d.items, c);
    }
    assert NewItems(t.nodes[o].data.items, key, child)[key] == Child.Collection(c);
    assert Holds(t'.nodes, o, c);
  }

  /** The displaced collection is a parentless orphan that keeps its own contents. */
  lemma DisplacedOk(t: Arena, t': Arena, o: NodeId, key: string, child: Option<Child>)
    requires AssignPre(t, o, child) && AssignShape(t, t', o, key, child) && CollectionIn(ItemAt(t, o, key)).Some?
    ensures NodeOk(t', CollectionIn(ItemAt(t, o, key)).value)
  {
    AssignFacts(t, o, key, child);
    var c := CollectionIn(child);
    var p := CollectionIn(ItemAt(t, o, key)).value;
    assert NodeOk(t, p);
    var d := t.nodes[p].data;
    if d.Array? || d.String? {
      SegmentUntouched(t, t', o, key, child, d.start);
    } else if d.Object? {
      assert ItemsOk(t.nodes, d.items, p);
      forall k | k in d.items && d.items[k].Collection? ensures Attached(t'.nodes, d.items[k].node, p) {
        var x := d.items[k].node;
        assert Attached(t.nodes, x, p);
        assert Some(x) != c && x != o && x != p;
      }
      assert ItemsOk(t'.nodes, d.items, p);
    }
  }

  /** Every other node keeps its invariant: what it reads around it is unchanged. */
  lemma AssignOtherOk(t: Arena, t': Arena, o: NodeId, key: string, child: Option<Child>, m: NodeId)
    requires AssignPre(t, o, child) && AssignShape(t, t', o, key, child)
    requires m in t.nodes && m != o && Some(m) != CollectionIn(child) && Some(m) != CollectionIn(ItemAt(t, o, key))
    ensures NodeOk(t', m)
  {
    assert NodeOk(t, m);
    var d := t.nodes[m].data;
    if d.Array? || d.String? {
      SegmentUntouched(t, t', o, key, child, d.start);
    }
    if t.nodes[m].parent.Some? {
      OtherHeld(t, t', o, key, child, m);
    }
    AttachedKept(t, t', o, key, child, m);
    if d.ArraySegment? {
      assert t.nodes[t.nodes[m].parent.value].data.Array?;
      AttachedKept(t, t', o, key, child, t.nodes[m].parent.value);
    }
    NodeOkKept(t, t', m);
  }

  /** The parent of an untouched node still holds it. */
  lemma OtherHeld(t: Arena, t': Arena, o: NodeId, key: string, child: Option<Child>, m: NodeId)
    requires AssignPre(t, o, child) && AssignShape(t, t', o, key, child)
    requires m in t.nodes && m != o && Some(m) != CollectionIn(child) && Some(m) != CollectionIn(ItemAt(t, o, key))
    requires t.nodes[m].parent.Some?
    ensures var q := t.nodes[m].parent.value; q in t'.nodes && Holds(t'.nodes, q, m)
    ensures var q := t.nodes[m].parent.value; q != o ==> t'.nodes[q].data == t.nodes[q].data
  {
    AssignFacts(t, o, key, child);
    assert NodeOk(t, m);
    var q := t.nodes[m].parent.value;
    var items := t.nodes[o].data.items;
    assert Holds(t.nodes, q, m);
    if q == o {
      var k :| k in items && items[k] == Child.Collection(m);
      assert k != key;
      assert NewItems(items, key, child)[k] == Child.Collection(m);
    } else {
      assert t'.nodes[q].data == t.nodes[q].data;
      if t.nodes[q].data.Array? {
        assert NodeOk(t, q);
        SegmentUntouched(t, t', o, key, child, t.nodes[q].data.start);
      }
    }
  }

  /** Collections hanging from a node other than `o` still hang from it. */
  lemma AttachedKept(t: Arena, t': Arena, o: NodeId, key: string, child: Option<Child>, m: NodeId)
    requires AssignPre(t, o, child) && AssignShape(t, t', o, key, child) && m != o
    ensures forall x :: Attached(t.nodes, x, m) ==> Attached(t'.nodes, x, m)
  {
    AssignFacts(t, o, key, child);
    var p := CollectionIn(ItemAt(t, o, key));
    forall x | Attached(t.nodes, x, m) ensures Attached(t'.nodes, x, m) {
      assert Some(x) != p;
    }
  }

  /** The parent links after the assignment are acyclic. */
  lemma AssignAcyclic(t: Arena, t': Arena, o: NodeId, key: string, child: Option<Child>)
    requires AssignPre(t, o, child) && AssignShape(t, t', o, key, child)
    ensures Acyclic(t'.nodes)
  {
    AssignFacts(t, o, key, child);
    var c := CollectionIn(child);
    var p := CollectionIn(ItemAt(t, o, key));
    var nodes1 := if c.Some? then t.nodes[c.value := t.nodes[c.value].(parent := Some(o))] else t.nodes;
    if c.Some? {
      assert Terminates(t.nodes, Some(o));
      RedirectAcyclic(t.nodes, nodes1, c.value, Some(o));
    }
    if p.Some? {
      assert Up(nodes1, None, 0).None?;
      forall j: nat ensures Up(nodes1, None, j) != Some(p.value) {
      }
      RedirectAcyclic(nodes1, t'.nodes, p.value, None);
    } else {
      SameParentsAcyclic(nodes1, t'.nodes);
    }
  }

  /** An assignment of this shape keeps the tree well formed. */
  lemma AssignShapeWf(t: Arena, t': Arena, o: NodeId, key: string, child: Option<Child>)
    requires AssignPre(t, o, child) && AssignShape(t, t', o, key, child)
    ensures Wf(t')
  {
    AssignNodesOk(t, t', o, key, child);
    AssignIdsOk(t, t', o, key, child);
    AssignAcyclic(t, t', o, key, child);
  }

  /** After an assignment every node keeps its invariant. */
  lemma AssignNodesOk(t: Arena, t': Arena, o: NodeId, key: string, child: Option<Child>)
    requires AssignPre(t, o, child) && AssignShape(t, t', o, key, child)
    ensures forall m :: m in t'.nodes ==> NodeOk(t', m)
  {
    AssignFacts(t, o, key, child);
    var c := CollectionIn(child);
    var p := CollectionIn(ItemAt(t, o, key));
    forall m | m in t'.nodes ensures NodeOk(t', m) {
      if m == o {
        AssignedObjectOk(t, t', o, key, child);
      } else if Some(m) == c {
        AssignedChildOk(t, t', o, key, child);
      } else if Some(m) == p {
        DisplacedOk(t, t', o, key, child);
      } else {
        AssignOtherOk(t, t', o, key, child, m);
      }
    }
  }

  /** After an assignment the ids, the counter and the orphans still agree with the nodes. */
  lemma AssignIdsOk(t: Arena, t': Arena, o: NodeId, key: string, child: Option<Child>)
    requires AssignPre(t, o, child) && AssignShape(t, t', o, key, child)
    ensures IdsFresh(t') && IdsMapped(t') && IdsOwned(t') && OrphansParentless(t')
  {
    hide Wf, NodeOk;
    WfIds(t);
    AssignFacts(t, o, key, child);
    forall n, id | n in t'.nodes && Owns(t'.nodes[n].data, id) ensures id in t'.idToNode && t'.idToNode[id] == n {
      AssignOwns(t, t', o, key, child, n, id);
    }
    forall id | id in t'.idToNode ensures t'.idToNode[id] in t'.nodes && Owns(t'.nodes[t'.idToNode[id]].data, id) {
      AssignOwns(t, t', o, key, child, t.idToNode[id], id);
    }
  }

  /** Every node answers to the same ids as before. */
  lemma AssignOwns(t: Arena, t': Arena, o: NodeId, key: string, child: Option<Child>, n: NodeId, id: Id)
    requires AssignPre(t, o, child) && AssignShape(t, t', o, key, child) && n in t.nodes
    ensures Owns(t'.nodes[n].data, id) == Owns(t.nodes[n].data, id)
  {
    if n == o {
      assert t'.nodes[n].data.id == t.nodes[n].data.id;
    } else {
      assert t'.nodes[n].data == t.nodes[n].data;
    }
  }

  /** A successful `object_assign` attaches the collection, if any, and then assigns it. */
  lemma ObjectAssignUnfold(t: Arena, obj: Id, key: string, value: Value)
    requires Wf(t) && ObjectAssign(t, obj, key, value).0.Ok?
    ensures ValueToChild(t, value).Ok? && obj in t.idToNode
    ensures var o := t.idToNode[obj]; var child := ValueToChild(t, value).value;
            var c := CollectionIn(child);
            var t1 := if c.Some? then Attach(t, c.value, o) else t;
            && AssignPre(t, o, child) && o in t1.nodes && t1.nodes[o] == t.nodes[o]
            && Readable(t1, ItemAt(t1, o, key))
            && ObjectAssign(t, obj, key, value) == Assign(t1, o, key, child)
  {
    var child := ValueToChild(t, value).value;
    var o := t.idToNode[obj];
    var c := CollectionIn(child);
    var t1 := if c.Some? then Attach(t, c.value, o) else t;
    if c.Some? {
      ReparentSpec(t, c.value, o);
      assert Up(t.nodes, Some(o), 0) == Some(o);
    }
    ItemReadable(t, o, key);
    assert ItemAt(t1, o, key) == ItemAt(t, o, key);
    if ItemAt(t, o, key).Some? {
      ReadableKept(t, t1, ItemAt(t, o, key).value);
    }
  }

  /** A successful `object_assign` is an assignment of the shape above. */
  lemma ObjectAssignIsShape(t: Arena, obj: Id, key: string, value: Value)
    requires Wf(t) && ObjectAssign(t, obj, key, value).0.Ok?
    ensures ValueToChild(t, value).Ok? && obj in t.idToNode
    ensures var o := t.idToNode[obj]; var child := ValueToChild(t, value).value;
            && AssignPre(t, o, child) && AssignShape(t, ObjectAssign(t, obj, key, value).1, o, key, child)
  {
    hide ObjectAssign, Wf;
    ObjectAssignUnfold(t, obj, key, value);
    var child := ValueToChild(t, value).value;
    var o := t.idToNode[obj];
    var c := CollectionIn(child);
    var t1 := if c.Some? then Attach(t, c.value, o) else t;
    assert ItemAt(t1, o, key) == ItemAt(t, o, key);
    AssignFacts(t, o, key, child);
  }

  /** A successful `object_assign` returns the value the key held before. */
  lemma ObjectAssignPrior(t: Arena, obj: Id, key: string, value: Value)
    requires Wf(t) && ObjectAssign(t, obj, key, value).0.Ok?
    ensures obj in t.idToNode && t.idToNode[obj] in t.nodes && t.nodes[t.idToNode[obj]].data.Object?
    ensures var o := t.idToNode[obj];
            && Readable(t, ItemAt(t, o, key))
            && ObjectAssign(t, obj, key, value).0.value == ChildToValue(t, ItemAt(t, o, key))
  {
    hide ObjectAssign;
    ObjectAssignUnfold(t, obj, key, value);
    var child := ValueToChild(t, value).value;
    var o := t.idToNode[obj];
    var c := CollectionIn(child);
    var t1 := if c.Some? then Attach(t, c.value, o) else t;
    ItemReadable(t, o, key);
    assert ItemAt(t1, o, key) == ItemAt(t, o, key);
  }

  /** `object_assign` keeps the tree well formed, whether it succeeds or fails. */
  lemma ObjectAssignKeepsWf(t: Arena, obj: Id, key: string, value: Value)
    requires Wf(t)
    ensures Wf(ObjectAssign(t, obj, key, value).1)
  {
    if ObjectAssign(t, obj, key, value).0.Ok? {
      ObjectAssignIsShape(t, obj, key, value);
      AssignShapeWf(t, ObjectAssign(t, obj, key, value).1, t.idToNode[obj], key, ValueToChild(t, value).value);
    }
  }

  /**
   * The errors of `object_assign`, checked in the source's order: an unknown value or object
   * id, then a collection that already has a parent or would close a cycle, then a target
   * that is not an object. An error leaves the tree as it was.
   */
  lemma ObjectAssignErrors(t: Arena, obj: Id, key: string, value: Value)
    requires Wf(t)
    ensures var (r, t') := ObjectAssign(t, obj, key, value);
            && (r.Err? ==> t' == t)
            && ((ValueToChild(t, value).Err? || obj !in t.idToNode) ==> r == Err(UnknownId))
            && (ValueToChild(t, value).Ok? && obj in t.idToNode ==>
                  var o := t.idToNode[obj];
                  var c := CollectionIn(ValueToChild(t, value).value);
                  && (c.Some? ==> c.value in t.nodes)
                  && (c.Some? && t.nodes[c.value].parent.Some? ==> r == Err(NodeAlreadyHadParent))
                  && ((c.Some? && t.nodes[c.value].parent.None? && c.value !in t.orphans
                       && forall j: nat :: Up(t.nodes, Some(o), j) != Some(c.value)) ==> r == Err(NodeAlreadyHadParent))
                  && ((c.Some? && t.nodes[c.value].parent.None?
                       && exists j: nat :: Up(t.nodes, Some(o), j) == Some(c.value)) ==> r == Err(EditWouldCauseCycle))
                  && (Movable(t, c, o) && !t.nodes[o].data.Object? ==> r == Err(UnexpectedNodeType))
                  && (r.Ok? <==> Movable(t, c, o) && t.nodes[o].data.Object?))
  {
    var (r, t') := ObjectAssign(t, obj, key, value);
    if ValueToChild(t, value).Ok? && obj in t.idToNode {
      var o := t.idToNode[obj];
      var c := CollectionIn(ValueToChild(t, value).value);
      if c.Some? {
        ReparentSpec(t, c.value, o);
        var (r1, t1) := Reparent(t, c.value, o);
        if r1.Err? {
          assert ObjectAssignSteps(t, obj, key, value) == (Err(r1.error), t1);
        }
        if t.nodes[c.value].parent.None? && exists j: nat :: Up(t.nodes, Some(o), j) == Some(c.value) {
          EditWouldCauseCycleFor(t, c.value, o);
        }
      }
      if r.Ok? {
        ObjectAssignIsShape(t, obj, key, value);
      }
    }
  }

  /** The cycle check of `reparent_item` rejects a move under one's own descendant. */
  lemma EditWouldCauseCycleFor(t: Arena, c: NodeId, o: NodeId)
    requires Wf(t) && c in t.nodes && o in t.nodes
    requires t.nodes[c].parent.None? && exists j: nat :: Up(t.nodes, Some(o), j) == Some(c)
    ensures Reparent(t, c, o).0 == Err(EditWouldCauseCycle)
  {
    ReparentSpec(t, c, o);
  }

  /**
   * After a successful `object_assign`: `key` holds the new child (none for `Unset`), every
   * other key is as it was, the result is the value that was under `key`, a well-typed value
   * reads back as itself, an assigned collection's parent is the object, and a displaced
   * collection is a parentless orphan.
   */
  lemma ObjectAssignResult(t: Arena, obj: Id, key: string, value: Value)
    requires Wf(t) && ObjectAssign(t, obj, key, value).0.Ok?
    ensures var (r, t') := ObjectAssign(t, obj, key, value);
            && Wf(t') && ValueToChild(t, value).Ok? && obj in t.idToNode
            && var o := t.idToNode[obj];
               && o in t.nodes && t.nodes[o].data.Object? && o in t'.nodes && t'.nodes[o].data.Object?
               && ItemAt(t', o, key) == ValueToChild(t, value).value
               && (forall k :: k != key ==> ItemAt(t', o, k) == ItemAt(t, o, k))
               && Readable(t, ItemAt(t, o, key)) && r.value == ChildToValue(t, ItemAt(t, o, key))
               && (WellTyped(t, value) ==> Readable(t', ItemAt(t', o, key)) && ChildToValue(t', ItemAt(t', o, key)) == value)
               && ((value.Object? || value.Array? || value.String?) ==> GetParent(t', value.id) == Ok(Some(obj)))
               && (CollectionIn(ItemAt(t, o, key)).Some? ==>
                     var p := CollectionIn(ItemAt(t, o, key)).value;
                     p in t'.nodes && t'.nodes[p].parent.None? && p in t'.orphans)
  {
    hide ObjectAssign, ObjectAssignSteps, Wf;
    ObjectAssignIsShape(t, obj, key, value);
    ObjectAssignPrior(t, obj, key, value);
    ObjectAssignKeepsWf(t, obj, key, value);
    AssignFacts(t, t.idToNode[obj], key, ValueToChild(t, value).value);
    if WellTyped(t, value) {
      ObjectAssignReadBack(t, obj, key, value);
    }
    if value.Object? || value.Array? || value.String? {
      ObjectAssignParent(t, obj, key, value);
    }
  }

  /** A successful `object_assign` of a well-typed value reads back as that value. */
  lemma ObjectAssignReadBack(t: Arena, obj: Id, key: string, value: Value)
    requires Wf(t) && ObjectAssign(t, obj, key, value).0.Ok? && WellTyped(t, value)
    ensures ValueToChild(t, value).Ok? && obj in t.idToNode
    ensures var t' := ObjectAssign(t, obj, key, value).1; var o := t.idToNode[obj];
            && o in t'.nodes && t'.nodes[o].data.Object?
            && Readable(t', ItemAt(t', o, key)) && ChildToValue(t', ItemAt(t', o, key)) == value
  {
    hide ObjectAssign, ObjectAssignSteps;
    ObjectAssignIsShape(t, obj, key, value);
    var t' := ObjectAssign(t, obj, key, value).1;
    var o := t.idToNode[obj];
    var child := ValueToChild(t, value).value;
    AssignFacts(t, o, key, child);
    ValueChildRoundTrip(t, value);
    if child.Some? {
      if child.value.Collection? {
        assert t'.nodes[child.value.node].data == t.nodes[child.value.node].data;
      }
      ReadableKept(t, t', child.value);
    }
  }

  /** After a successful `object_assign` of a collection, the collection's parent is the object. */
  lemma ObjectAssignParent(t: Arena, obj: Id, key: string, value: Value)
    requires Wf(t) && ObjectAssign(t, obj, key, value).0.Ok? && (value.Object? || value.Array? || value.String?)
    ensures Wf(ObjectAssign(t, obj, key, value).1)
    ensures GetParent(ObjectAssign(t, obj, key, value).1, value.id) == Ok(Some(obj))
  {
    assert IdsOwned(t);
    hide ObjectAssign, ObjectAssignSteps, Wf;
    ObjectAssignIsShape(t, obj, key, value);
    ObjectAssignKeepsWf(t, obj, key, value);
    var t' := ObjectAssign(t, obj, key, value).1;
    var o := t.idToNode[obj];
    var child := ValueToChild(t, value).value;
    AssignFacts(t, o, key, child);
    var c := child.value.node;
    assert t'.nodes[o].data.id == obj by {
      assert Owns(t.nodes[o].data, obj);
    }
    assert t'.nodes[c].parent == Some(o);
  }
}
