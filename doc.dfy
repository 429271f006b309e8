/**
 * The document of src/doc.rs: a JSON tree kept as an operation log. Each operation carries a
 * timestamp and a list of JSON edits; operations are ordered by timestamp alone, and the
 * document's tree is the log replayed, in that order, onto a tree holding an empty object root.
 */
module Doc {
  import opened Common
  import opened OrderedLog
  import opened Opset
  import opened JsonNodes
  import opened JsonUpdate
  import JsonTree

  /** Every `CACHE_GAP` replayed operations the log keeps a snapshot of the tree. */
  const CacheGap: nat := 10

  /** The id of the root object (`ROOT_ID`). */
  const RootId: Id := Id(0)

  /** `u64`: timestamps are unsigned 64-bit numbers. */
  newtype u64 = x: int | 0 <= x < 0x1_0000_0000_0000_0000

  /** `DocOp`: a timestamp and the edits it makes, in order. */
  datatype DocOp = DocOp(timestamp: u64, edits: seq<Edit>)

  /** A tree that keeps the arena invariant; the log's states are such trees. */
  type WfArena = t: Arena | Wf(t) witness NewWithObjectRoot(RootId)

  /** `Ord::cmp` for operations: by timestamp, whatever the edits. */
  function Cmp(a: DocOp, b: DocOp): (r: Ordering)
    ensures r == Less <==> a.timestamp < b.timestamp
    ensures r == Equal <==> a.timestamp == b.timestamp
    ensures r == Greater <==> a.timestamp > b.timestamp
  {
    CmpNat(a.timestamp as nat, b.timestamp as nat)
  }

  /** `PartialOrd::partial_cmp`: always the total order's answer. */
  function PartialCmp(a: DocOp, b: DocOp): Option<Ordering> {
    Some(Cmp(a, b))
  }

  /** `partial_cmp` always answers, agrees with `cmp`, and is antisymmetric. */
  lemma PartialCmpAgrees(a: DocOp, b: DocOp)
    ensures PartialCmp(a, b).Some? && PartialCmp(a, b).value == Cmp(a, b)
    ensures PartialCmp(a, b) == Some(Less) <==> PartialCmp(b, a) == Some(Greater)
    ensures PartialCmp(a, b) == Some(Equal) <==> a.timestamp == b.timestamp
  {
  }

  /** Ordering by timestamp is a total order, as the log requires. */
  lemma CmpTotalOrder()
    ensures TotalOrder(Cmp)
  {
    forall a: DocOp, b: DocOp, c: DocOp | Cmp(a, b) != Greater && Cmp(b, c) != Greater
      ensures Cmp(a, c) != Greater
    {
      assert a.timestamp <= b.timestamp <= c.timestamp;
    }
  }

  /** A log sorted by this order has strictly increasing timestamps. */
  lemma SortedByTimestamp(ops: seq<DocOp>)
    requires StrictlySorted(Cmp, ops)
    ensures forall i, j :: 0 <= i < j < |ops| ==> ops[i].timestamp < ops[j].timestamp
  {
    forall i, j | 0 <= i < j < |ops| ensures ops[i].timestamp < ops[j].timestamp {
      assert Cmp(ops[i], ops[j]) == Less;
    }
  }

  /**
   * `DocOp::apply` on a value: every edit in order, each on the tree the one before it left;
   * the result of each edit is dropped, so an edit that fails does not stop the ones after it.
   */
  function Apply(op: DocOp, t: WfArena): (t': WfArena)
    ensures Grows(t, t')
  {
    UpdateAll(t, op.edits)
  }

  /** One more edit at the end is one more update of the tree the others left. */
  lemma {:induction false} UpdateAllSnoc(t: Arena, es: seq<Edit>, e: Edit)
    requires Wf(t)
    ensures UpdateAll(t, es + [e]) == Update(UpdateAll(t, es), e).1
    decreases |es|
  {
    if es == [] {
      assert es + [e] == [e];
      assert [e][1..] == [];
    } else {
      assert (es + [e])[0] == es[0];
      assert (es + [e])[1..] == es[1..] + [e];
      UpdateKeepsWf(t, es[0]);
      UpdateAllSnoc(Update(t, es[0]).1, es[1..], e);
    }
  }

  /**
   * Failed edits are skipped: when an edit fails, applying it and the edits after it is
   * applying the edits after it to the tree it left, which differs from the one before it at
   * most in the node counter.
   */
  lemma FailedEditSkipped(t: Arena, e: Edit, rest: seq<Edit>)
    requires Wf(t) && Update(t, e).0.Err?
    ensures (UpdateKeepsWf(t, e); UpdateAll(t, [e] + rest) == UpdateAll(Update(t, e).1, rest))
    ensures SameButCounter(t, Update(t, e).1)
  {
    assert ([e] + rest)[0] == e;
    assert ([e] + rest)[1..] == rest;
    UpdateErrorUnchanged(t, e);
  }

  /** `DocOp::apply`: the loop over the edits, updating the tree in place. */
  method ApplyTo(op: DocOp, tree: JsonTree.Tree)
    requires Wf(tree.State())
    modifies tree
    ensures tree.State() == Apply(op, old(tree.State()))
  {
    hide Wf, NodeOk;
    ghost var t0 := tree.State();
    for i := 0 to |op.edits|
      invariant Wf(tree.State())
      invariant tree.State() == UpdateAll(t0, op.edits[..i])
    {
      UpdateAllSnoc(t0, op.edits[..i], op.edits[i]);
      assert op.edits[..i + 1] == op.edits[..i] + [op.edits[i]];
      var _ := tree.Update(op.edits[i]);
      UpdateKeepsWf(UpdateAll(t0, op.edits[..i]), op.edits[i]);
    }
    assert op.edits[..|op.edits|] == op.edits;
  }

  /** The tree of an empty document. */
  function Initial(): WfArena {
    NewWithObjectRoot(RootId)
  }

  /** `Doc`: the operation log, whose states are trees. */
  class Doc {
    var opset: Opset<DocOp, WfArena>

    /** The log orders by timestamp, applies operations as `DocOp::apply` and starts empty. */
    ghost predicate Valid()
      reads this, opset
    {
      && opset.Valid()
      && opset.cmp == Cmp && opset.apply == Apply && opset.initial == Initial()
      && opset.cacheGap == CacheGap
    }

    /** `Doc::new`: no operations, the tree an empty object named by the root id. */
    constructor ()
      ensures Valid() && fresh(opset)
      ensures opset.ops == []
      ensures Tree() == Initial()
    {
      CmpTotalOrder();
      opset := new Opset(Initial(), CacheGap, Apply, Cmp);
    }

    /**
     * `update`: adds one operation to the log. An operation whose timestamp is already in the
     * log compares equal to one there, which the log refuses with a panic; that is excluded.
     */
    method Update(op: DocOp)
      requires Valid()
      requires forall k :: 0 <= k < |opset.ops| ==> opset.ops[k].timestamp != op.timestamp
      modifies opset
      ensures Valid()
      ensures multiset(opset.ops) == old(multiset(opset.ops)) + multiset{op}
      ensures forall i, j :: 0 <= i < j < |opset.ops| ==> opset.ops[i].timestamp < opset.ops[j].timestamp
      ensures Tree() == ApplyAll(Apply, Initial(), opset.ops)
    {
      opset.Edit(op);
      SortedByTimestamp(opset.ops);
    }

    /**
     * `update_from_iter`: adds a batch of operations to the log. No two of them, and none of
     * them and an operation already in the log, may share a timestamp.
     */
    method UpdateFromIter(batch: seq<DocOp>)
      requires Valid()
      requires forall i, j :: 0 <= i < j < |batch| ==> batch[i].timestamp != batch[j].timestamp
      requires forall i, k :: 0 <= i < |batch| && 0 <= k < |opset.ops| ==> opset.ops[k].timestamp != batch[i].timestamp
      modifies opset
      ensures Valid()
      ensures multiset(opset.ops) == old(multiset(opset.ops)) + multiset(batch)
      ensures forall i, j :: 0 <= i < j < |opset.ops| ==> opset.ops[i].timestamp < opset.ops[j].timestamp
      ensures Tree() == ApplyAll(Apply, Initial(), opset.ops)
    {
      opset.EditFromIter(batch);
      SortedByTimestamp(opset.ops);
    }

    /** `tree`: the log's newest state, which is every operation replayed in timestamp order. */
    function Tree(): (t: WfArena)
      reads this, opset
      requires Valid()
      ensures t == ApplyAll(Apply, Initial(), opset.ops)
    {
      opset.State()
    }
  }

  /**
   * Two documents that received the same operations, in any order and in any batches, have
   * the same tree.
   */
  lemma SameOperationsSameTree(a: seq<DocOp>, b: seq<DocOp>)
    requires StrictlySorted(Cmp, a) && StrictlySorted(Cmp, b) && multiset(a) == multiset(b)
    ensures ApplyAll(Apply, Initial(), a) == ApplyAll(Apply, Initial(), b)
  {
    CmpTotalOrder();
    ReplayOrderIndependent(Cmp, Apply, Initial(), a, b);
  }
}
