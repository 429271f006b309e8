/**
 * Three places where src/json/tree.rs, as written, does something its callers cannot have
 * intended. Each is stated twice: a function that follows the code line by line, with a small
 * concrete tree that shows the difference, and the corrected operation the rest of the model
 * uses (JsonOps.Reparent, JsonOps.ObjectAssign, JsonSequences.InsertListItem).
 */
module JsonFindings {
  import opened Common
  import opened Segments
  import opened JsonNodes
  import opened JsonOps
  import opened JsonAssign
  import opened JsonSequences
  import opened JsonUpdate

  // ---------------------------------------------------------------------------------------
  // reparent_item on the root

  /**
   * `reparent_item` as written (src/json/tree.rs:540-555): the parent check, then the walk up
   * from the target, then `orphans.remove(&item).unwrap()`. `None` is the panic of that
   * `unwrap`, reached when a parentless item is not an orphan.
   */
  function ReparentAsWritten(t: Arena, item: NodeId, parent: NodeId): Option<(Result<()>, Arena)>
    requires Wf(t) && item in t.nodes && parent in t.nodes
  {
    if t.nodes[item].parent.Some? then Some((Err(NodeAlreadyHadParent), t))
    else if OnChain(t.nodes, Some(parent), item, Height(t.nodes, Some(parent))) then Some((Err(EditWouldCauseCycle), t))
    else if item !in t.orphans then None
    else Some((Ok(()), Attach(t, item, parent)))
  }

  /**
   * The code as written panics exactly when the item is the root (the one parentless node that
   * is not an orphan) and the target is not below it; in every other case it does what the
   * corrected `Reparent` does.
   */
  lemma ReparentAsWrittenPanics(t: Arena, item: NodeId, parent: NodeId)
    requires Wf(t) && item in t.nodes && parent in t.nodes
    ensures ReparentAsWritten(t, item, parent).None? <==>
              && t.nodes[item].parent.None? && item !in t.orphans
              && !exists j: nat :: Up(t.nodes, Some(parent), j) == Some(item)
    ensures ReparentAsWritten(t, item, parent).None? ==> IsRoot(t, item)
    ensures ReparentAsWritten(t, item, parent).Some? ==> ReparentAsWritten(t, item, parent).value == Reparent(t, item, parent)
  {
    OnChainIff(t.nodes, Some(parent), item, Height(t.nodes, Some(parent)));
    assert NodeOk(t, item);
  }

  /** A tree with an object root (node 0) and one detached object (node 1, id 1). */
  function RootAndOrphan(): (t: Arena)
    ensures Wf(t)
  {
    var t0 := NewWithObjectRoot(Id(0));
    ConstructObjectKeepsWf(t0, Id(1));
    ConstructObject(t0, Id(1)).1
  }

  /**
   * `object_assign(1, "k", Object(0))` on that tree hands `reparent_item` the root and the
   * detached object: the code as written panics, the corrected operation is refused with
   * `NodeAlreadyHadParent` and leaves the tree as it was.
   */
  lemma RootReparentPanics()
    ensures var t := RootAndOrphan();
            && 0 in t.nodes && 1 in t.nodes
            && ValueToChild(t, Value.Object(Id(0))) == Ok(Some(Child.Collection(0))) && IdToNode(t, Id(1)) == Ok(1)
            && ReparentAsWritten(t, 0, 1).None?
            && Reparent(t, 0, 1) == (Err(NodeAlreadyHadParent), t)
            && ObjectAssign(t, Id(1), "k", Value.Object(Id(0))) == (Err(NodeAlreadyHadParent), t)
  {
    var t := RootAndOrphan();
    assert t.nodes == map[0 := Node(NodeData.Object(map[], Id(0)), None), 1 := Node(NodeData.Object(map[], Id(1)), None)];
    assert t.orphans == {1};
    assert t.idToNode == map[Id(0) := 0, Id(1) := 1];
    assert Up(t.nodes, Some(1), 1).None?;
    forall j: nat ensures Up(t.nodes, Some(1), j) != Some(0) {
      if j >= 1 {
        UpEnded(t.nodes, Some(1), 1, j);
      }
    }
    ReparentAsWrittenPanics(t, 0, 1);
    ReparentSpec(t, 0, 1);
    ObjectAssignErrors(t, Id(1), "k", Value.Object(Id(0)));
  }

  // ---------------------------------------------------------------------------------------
  // object_assign into a non-object

  /** A tree with an object root, a detached string (node 2, id 1) and a detached object (node 3, id 2). */
  function RootStringObject(): (t: Arena)
    ensures Wf(t)
  {
    var t0 := NewWithObjectRoot(Id(0));
    ConstructSequenceKeepsWf(t0, Id(1), false);
    var t1 := ConstructString(t0, Id(1)).1;
    ConstructObjectKeepsWf(t1, Id(2));
    ConstructObject(t1, Id(2)).1
  }

  /**
   * `object_assign(1, "k", Object(2))` assigns into a string. The code as written
   * (JsonOps.ObjectAssignSteps) moves the object under the string before it finds that the
   * target is not an object: it reports `UnexpectedNodeType` and leaves the object attached to
   * a string that does not hold it, no longer an orphan, so the tree breaks its invariant. The
   * corrected `ObjectAssign` reports the same error and changes nothing.
   */
  lemma AssignIntoStringBreaksTree()
    ensures var t := RootStringObject();
            var (r, t') := ObjectAssignSteps(t, Id(1), "k", Value.Object(Id(2)));
            && r == Err(UnexpectedNodeType)
            && 3 in t'.nodes && t'.nodes[3].parent == Some(2) && 3 !in t'.orphans
            && !Wf(t')
            && ObjectAssign(t, Id(1), "k", Value.Object(Id(2))) == (Err(UnexpectedNodeType), t)
  {
    AssignIntoStringAttaches();
    AttachUnderStringBreaks();
  }

  /** The nodes of a tree with just an object root. */
  lemma ObjectRootShape()
    ensures var t := NewWithObjectRoot(Id(0));
            && t.nodes == map[0 := Node(NodeData.Object(map[], Id(0)), None)]
            && t.orphans == {} && t.idToNode == map[Id(0) := 0] && t.nextNode == 1
  {
  }

  /** The nodes of that tree once the string is made. */
  lemma RootStringShape()
    ensures var t := ConstructString(NewWithObjectRoot(Id(0)), Id(1)).1;
            && t.nodes == map[0 := Node(NodeData.Object(map[], Id(0)), None),
                              1 := Node(NodeData.StringSegment(2, 2, [], []), Some(2)),
                              2 := Node(NodeData.String(1, 1, Id(1)), None)]
            && t.orphans == {2} && t.idToNode == map[Id(0) := 0, Id(1) := 2] && t.nextNode == 3
  {
    ObjectRootShape();
  }

  /** The nodes of that tree. */
  lemma RootStringObjectShape()
    ensures var t := RootStringObject();
            && t.nodes == map[0 := Node(NodeData.Object(map[], Id(0)), None),
                              1 := Node(NodeData.StringSegment(2, 2, [], []), Some(2)),
                              2 := Node(NodeData.String(1, 1, Id(1)), None),
                              3 := Node(NodeData.Object(map[], Id(2)), None)]
            && t.orphans == {2, 3}
            && t.idToNode == map[Id(0) := 0, Id(1) := 2, Id(2) := 3]
  {
    RootStringShape();
  }

  /** The code as written attaches the object under the string, then reports the wrong target. */
  lemma AssignIntoStringAttaches()
    ensures var t := RootStringObject();
            && 3 in t.nodes
            && ObjectAssignSteps(t, Id(1), "k", Value.Object(Id(2))) == (Err(UnexpectedNodeType), Attach(t, 3, 2))
  {
    hide RootStringObject, Wf, NodeOk;
    var t := RootStringObject();
    RootStringObjectShape();
    assert Up(t.nodes, Some(2), 1).None?;
    forall j: nat ensures Up(t.nodes, Some(2), j) != Some(3) {
      if j >= 1 {
        UpEnded(t.nodes, Some(2), 1, j);
      }
    }
    ReparentSpec(t, 3, 2);
    assert ValueToChild(t, Value.Object(Id(2))) == Ok(Some(Child.Collection(3)));
    assert IdToNode(t, Id(1)) == Ok(2);
    assert Reparent(t, 3, 2) == (Ok(()), Attach(t, 3, 2));
  }

  /** The string does not hold the object that now names it as parent. */
  lemma AttachUnderStringBreaks()
    ensures var t := RootStringObject();
            3 in t.nodes && !Wf(Attach(t, 3, 2))
  {
    var t := RootStringObject();
    RootStringObjectShape();
    var t' := Attach(t, 3, 2);
    assert !NodeOk(t', 3) by {
      assert !Holds(t'.nodes, 2, 3);
    }
  }

  // ---------------------------------------------------------------------------------------
  // insert_list_item with a taken id

  /** A tree with an array root (node 1, id 0) and a detached object (node 2, id 1). */
  function ArrayAndOrphan(): (t: Arena)
    ensures Wf(t)
  {
    var t0 := NewWithArrayRoot(Id(0));
    ConstructObjectKeepsWf(t0, Id(1));
    ConstructObject(t0, Id(1)).1
  }

  /**
   * `insert_list_item(0, 1, Object(1))` inserts the object into the array under an id that is
   * already taken. The code as written (JsonSequences.InsertListItemSteps) moves the object
   * under the array before the insert rejects the id: it reports `DuplicateId` and leaves the
   * object attached to an array that does not hold it. The corrected `InsertListItem` reports
   * the same error and changes nothing.
   */
  lemma InsertTakenIdBreaksTree()
    ensures var t := ArrayAndOrphan();
            var (r, t') := InsertListItemSteps(t, Id(0), Id(1), Value.Object(Id(1)));
            && r == Err(DuplicateId)
            && 2 in t'.nodes && t'.nodes[2].parent == Some(1) && 2 !in t'.orphans
            && !Wf(t')
            && InsertListItem(t, Id(0), Id(1), Value.Object(Id(1))) == (Err(DuplicateId), t)
  {
    InsertTakenIdAttaches();
    AttachUnderArrayBreaks();
  }

  /** The nodes of that tree. */
  lemma ArrayAndOrphanShape()
    ensures var t := ArrayAndOrphan();
            && t.nodes == map[0 := Node(NodeData.ArraySegment(1, 1, [], []), Some(1)),
                              1 := Node(NodeData.Array(0, 0, Id(0)), None),
                              2 := Node(NodeData.Object(map[], Id(1)), None)]
            && t.orphans == {2}
            && t.idToNode == map[Id(0) := 1, Id(1) := 2]
  {
    ArrayRootShape();
  }

  /** The nodes of a tree with just an array root. */
  lemma ArrayRootShape()
    ensures var t := NewWithArrayRoot(Id(0));
            && t.nodes == map[0 := Node(NodeData.ArraySegment(1, 1, [], []), Some(1)),
                              1 := Node(NodeData.Array(0, 0, Id(0)), None)]
            && t.orphans == {} && t.idToNode == map[Id(0) := 1] && t.nextNode == 2
  {
  }

  /** The code as written attaches the object under the array, then rejects the id. */
  lemma InsertTakenIdAttaches()
    ensures var t := ArrayAndOrphan();
            && 2 in t.nodes
            && InsertListItemSteps(t, Id(0), Id(1), Value.Object(Id(1))).0 == Err(DuplicateId)
            && InsertListItemSteps(t, Id(0), Id(1), Value.Object(Id(1))).1 == Attach(t, 2, 1)
  {
    var t := ArrayAndOrphan();
    ArrayAndOrphanShape();
    assert Up(t.nodes, Some(1), 1).None?;
    forall j: nat ensures Up(t.nodes, Some(1), j) != Some(2) {
      if j >= 1 {
        UpEnded(t.nodes, Some(1), 1, j);
      }
    }
    ReparentSpec(t, 2, 1);
  }

  /** The array does not hold the object that now names it as parent. */
  lemma AttachUnderArrayBreaks()
    ensures var t := ArrayAndOrphan();
            2 in t.nodes && !Wf(Attach(t, 2, 1))
  {
    var t := ArrayAndOrphan();
    ArrayAndOrphanShape();
    var t' := Attach(t, 2, 1);
    assert !NodeOk(t', 2) by {
      assert !Holds(t'.nodes, 1, 2);
    }
  }
}
