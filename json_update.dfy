/**
 * `Tree::update` of src/json/tree.rs, which dispatches one `Edit` to the operation it names,
 * and the `new_with_*_root` constructors. Every edit keeps the tree well formed, never loses
 * or redirects an external id, and a failed edit leaves the tree as it was, except that a
 * failed string or array constructor has already advanced the node counter.
 */
module JsonUpdate {
  import opened Common
  import opened Segments
  import opened JsonNodes
  import opened JsonOps
  import opened JsonAssign
  import opened JsonSequences
  import opened JsonSequenceWf
  import opened JsonSequenceProps

  /** The `.map(|_| ())` the source applies to results it does not pass on. */
  function Discard<T>(r: Result<T>): (r': Result<()>)
    ensures r'.Ok? <==> r.Ok?
    ensures r.Err? ==> r'.error == r.error
  {
    match r
    case Ok(_) => Ok(())
    case Err(e) => Err(e)
  }

  /** `update`: the operation the edit names, with its result reduced to success or the error. */
  function Update(t: Arena, e: Edit): (Result<()>, Arena)
    requires Wf(t)
  {
    match e
    case ArrayCreate(id) => ConstructArray(t, id)
    case ArrayInsert(index, id, item) => InsertListItem(t, index, id, item)
    case ArrayDelete(id) =>
      var (r, t') := DeleteListItem(t, id);
      (Discard(r), t')
    case MapCreate(id) => ConstructObject(t, id)
    case MapInsert(parent, key, item) =>
      var (r, t') := ObjectAssign(t, parent, key, item);
      (Discard(r), t')
    case TextCreate(id) => ConstructString(t, id)
    case TextInsert(index, id, character) => InsertCharacter(t, index, id, character)
    case TextDelete(id) => DeleteCharacter(t, id)
  }

  /**
   * The new tree keeps the root id, never moves the node counter back, and keeps every external
   * id mapped to the node it named.
   */
  ghost predicate Grows(t: Arena, t': Arena) {
    && t'.root == t.root && t.nextNode <= t'.nextNode
    && forall id :: id in t.idToNode ==> id in t'.idToNode && t'.idToNode[id] == t.idToNode[id]
  }

  /** Nothing but the node counter differs. */
  ghost predicate SameButCounter(t: Arena, t': Arena) {
    t'.(nextNode := t.nextNode) == t
  }

  lemma ConstructGrows(t: Arena, id: Id)
    requires Wf(t)
    ensures Grows(t, ConstructObject(t, id).1) && Grows(t, ConstructSequence(t, id, true).1)
    ensures Grows(t, ConstructSequence(t, id, false).1)
  {
    ConstructSimpleSpec(t, id, NodeData.Object(map[], id));
    ConstructSequenceSpec(t, id, true);
    ConstructSequenceSpec(t, id, false);
  }

  lemma ObjectAssignGrows(t: Arena, obj: Id, key: string, value: Value)
    requires Wf(t)
    ensures Grows(t, ObjectAssign(t, obj, key, value).1)
  {
    ObjectAssignErrors(t, obj, key, value);
    if ObjectAssign(t, obj, key, value).0.Ok? {
      ObjectAssignIsShape(t, obj, key, value);
    }
  }

  lemma InsertCharacterGrows(t: Arena, appendId: Id, x: Id, ch: char)
    requires Wf(t)
    ensures Grows(t, InsertCharacter(t, appendId, x, ch).1)
  {
    InsertCharacterSpec(t, appendId, x, ch);
    if InsertCharacter(t, appendId, x, ch).0.Ok? {
      InsertCharacterIsEdit(t, appendId, x, ch);
    }
  }

  lemma DeleteCharacterGrows(t: Arena, id: Id)
    requires Wf(t)
    ensures Grows(t, DeleteCharacter(t, id).1)
  {
    WfSeqReady(t);
    DeleteCharacterSpec(t, id);
    var (r, t') := DeleteCharacter(t, id);
    if r.Ok? {
      var (s, i) := LookupIdIndex(t, id, false).value;
      if t.nodes[s].data.ids[i].offset.Some? {
        DeleteCharacterIsEdit(t, id);
      }
    }
  }

  lemma InsertListItemGrows(t: Arena, appendId: Id, x: Id, value: Value)
    requires Wf(t)
    ensures Grows(t, InsertListItem(t, appendId, x, value).1)
  {
    InsertListItemErrors(t, appendId, x, value);
    if InsertListItem(t, appendId, x, value).0.Ok? && value != Value.Unset {
      InsertListItemIsEdit(t, appendId, x, value);
    }
  }

  lemma DeleteListItemGrows(t: Arena, id: Id)
    requires Wf(t)
    ensures Grows(t, DeleteListItem(t, id).1)
  {
    WfSeqReady(t);
    DeleteListItemSpec(t, id);
    var (r, t') := DeleteListItem(t, id);
    if r.Ok? {
      var (s, i) := LookupIdIndex(t, id, true).value;
      if t.nodes[s].data.ids[i].offset.Some? {
        DeleteListItemIsEdit(t, id);
      }
    }
  }

  /** Every edit keeps the tree well formed. */
  lemma UpdateKeepsWf(t: Arena, e: Edit)
    requires Wf(t)
    ensures Wf(Update(t, e).1)
  {
    match e
    case ArrayCreate(id) => ConstructSequenceKeepsWf(t, id, true);
    case ArrayInsert(index, id, item) =>
      InsertListItemErrors(t, index, id, item);
      if InsertListItem(t, index, id, item).0.Ok? && item != Value.Unset {
        InsertListItemKeepsWf(t, index, id, item);
      }
    case ArrayDelete(id) => DeleteListItemSpec(t, id);
    case MapCreate(id) => ConstructObjectKeepsWf(t, id);
    case MapInsert(parent, key, item) => ObjectAssignKeepsWf(t, parent, key, item);
    case TextCreate(id) => ConstructSequenceKeepsWf(t, id, false);
    case TextInsert(index, id, character) => InsertCharacterSpec(t, index, id, character);
    case TextDelete(id) => DeleteCharacterSpec(t, id);
  }

  /** No edit loses an external id or redirects it to another node. */
  lemma UpdateGrows(t: Arena, e: Edit)
    requires Wf(t)
    ensures Grows(t, Update(t, e).1)
  {
    match e
    case ArrayCreate(id) => ConstructGrows(t, id);
    case ArrayInsert(index, id, item) => InsertListItemGrows(t, index, id, item);
    case ArrayDelete(id) => DeleteListItemGrows(t, id);
    case MapCreate(id) => ConstructGrows(t, id);
    case MapInsert(parent, key, item) => ObjectAssignGrows(t, parent, key, item);
    case TextCreate(id) => ConstructGrows(t, id);
    case TextInsert(index, id, character) => InsertCharacterGrows(t, index, id, character);
    case TextDelete(id) => DeleteCharacterGrows(t, id);
  }

  /**
   * A failed edit changes nothing but, for a string or array constructor whose id is taken,
   * the node counter, which the source advances before it checks the id.
   */
  lemma UpdateErrorUnchanged(t: Arena, e: Edit)
    requires Wf(t)
    ensures var (r, t') := Update(t, e);
            && (r.Err? ==> SameButCounter(t, t'))
            && (r.Err? && !e.ArrayCreate? && !e.TextCreate? ==> t' == t)
  {
    match e
    case ArrayCreate(id) => ConstructSequenceSpec(t, id, true);
    case ArrayInsert(index, id, item) => InsertListItemErrors(t, index, id, item);
    case ArrayDelete(id) => DeleteListItemSpec(t, id);
    case MapCreate(id) => ConstructSimpleSpec(t, id, NodeData.Object(map[], id));
    case MapInsert(parent, key, item) => ObjectAssignErrors(t, parent, key, item);
    case TextCreate(id) => ConstructSequenceSpec(t, id, false);
    case TextInsert(index, id, character) => InsertCharacterSpec(t, index, id, character);
    case TextDelete(id) => DeleteCharacterSpec(t, id);
  }

  /** A sequence of edits, each applied to the tree the one before it left. */
  function UpdateAll(t: Arena, es: seq<Edit>): (t': Arena)
    requires Wf(t)
    ensures Wf(t') && Grows(t, t')
    decreases |es|
  {
    if es == [] then t
    else
      UpdateKeepsWf(t, es[0]);
      UpdateGrows(t, es[0]);
      UpdateAll(Update(t, es[0]).1, es[1..])
  }

  // ---------------------------------------------------------------------------------------
  // Trees with a root

  /** Clearing the orphans keeps the tree well formed when the root is its only parentless node. */
  lemma ClearOrphansWf(t: Arena)
    requires Wf(t)
    requires forall n :: n in t.nodes && t.nodes[n].parent.None? ==> IsRoot(t, n)
    ensures Wf(t.(orphans := {}))
  {
    var t' := t.(orphans := {});
    forall n | n in t'.nodes ensures NodeOk(t', n) {
      ClearOrphansNodeOk(t, n);
    }
    SameIdsKept(t, t');
  }

  /** The id invariants read only the nodes and the id map. */
  lemma SameIdsKept(t: Arena, t': Arena)
    requires IdsMapped(t) && IdsOwned(t) && t'.nodes == t.nodes && t'.idToNode == t.idToNode
    ensures IdsMapped(t') && IdsOwned(t')
  {
  }

  lemma ClearOrphansNodeOk(t: Arena, n: NodeId)
    requires n in t.nodes && NodeOk(t, n)
    requires t.nodes[n].parent.None? ==> IsRoot(t, n)
    ensures NodeOk(t.(orphans := {}), n)
  {
  }

  /** `new_with_string_root`: an empty string named by the root id, and no orphans. */
  function NewWithStringRoot(rootId: Id): (t: Arena)
    ensures Wf(t) && t.orphans == {} && t.root == rootId && rootId in t.idToNode
    ensures var n := t.idToNode[rootId];
            && n in t.nodes && t.nodes[n].data.String? && t.nodes[n].parent.None? && StringCells(t, n) == []
  {
    var t0 := New(rootId);
    ConstructSequenceSpec(t0, rootId, false);
    ConstructSequenceKeepsWf(t0, rootId, false);
    var t1 := ConstructString(t0, rootId).1;
    ClearOrphansWf(t1);
    assert View([], []) == [];
    t1.(orphans := {})
  }

  /** `new_with_object_root`: an empty object named by the root id, and no orphans. */
  function NewWithObjectRoot(rootId: Id): (t: Arena)
    ensures Wf(t) && t.orphans == {} && t.root == rootId && rootId in t.idToNode
    ensures var n := t.idToNode[rootId];
            && n in t.nodes && t.nodes[n].data.Object? && t.nodes[n].data.items == map[] && t.nodes[n].parent.None?
  {
    var t0 := New(rootId);
    ConstructSimpleSpec(t0, rootId, NodeData.Object(map[], rootId));
    ConstructObjectKeepsWf(t0, rootId);
    var t1 := ConstructObject(t0, rootId).1;
    ClearOrphansWf(t1);
    t1.(orphans := {})
  }

  /** `new_with_array_root`: an empty array named by the root id, and no orphans. */
  function NewWithArrayRoot(rootId: Id): (t: Arena)
    ensures Wf(t) && t.orphans == {} && t.root == rootId && rootId in t.idToNode
    ensures var n := t.idToNode[rootId];
            && n in t.nodes && t.nodes[n].data.Array? && t.nodes[n].parent.None? && ArraySlots(t, n) == []
  {
    var t0 := New(rootId);
    ConstructSequenceSpec(t0, rootId, true);
    ConstructSequenceKeepsWf(t0, rootId, true);
    var t1 := ConstructArray(t0, rootId).1;
    ClearOrphansWf(t1);
    assert ElementView([], []) == [];
    t1.(orphans := {})
  }
}
