/**
 * The older copy of the replay log, `OpSetCrdt`. It differs from `Opset` only in the test
 * that decides when the replay loop caches a snapshot: it caches while the newest snapshot
 * is fewer than `cacheGap` edits behind, so only the correctness of the snapshots and of
 * the final state is stated here.
 */
module Crdt {
  import opened Common
  import opened OrderedLog
  import opened Opset

  /** The counts part of the replay loop's invariant. */
  ghost predicate CrdtShape<S>(sts: seq<Snapshot<S>>, applied: nat) {
    && (|sts| == 0 ==> applied == 0)
    && (|sts| > 0 ==> sts[0].applied == 0 && sts[|sts| - 1].applied < applied)
    && Increasing(sts)
  }

  /** A well formed cache of this log: correct snapshots from the initial to the current state. */
  ghost predicate CrdtCached<E, S>(apply: (E, S) -> S, initial: S, edits: seq<E>, states: seq<Snapshot<S>>) {
    && |states| >= 1
    && states[0].applied == 0 && states[0].state == initial
    && Increasing(states)
    && states[|states| - 1].applied == |edits|
    && Snapshots(apply, initial, edits, states, |edits|)
  }

  /** The cache after one more step of the loop at src/crdt.rs:42-49. */
  function CrdtCacheStep<S>(gap: nat, sts: seq<Snapshot<S>>, applied: nat, state: S): seq<Snapshot<S>> {
    if |sts| == 0 || sts[|sts| - 1].applied + gap > applied then sts + [Snapshot(applied, state)] else sts
  }

  lemma CrdtShapeStep<S>(gap: nat, sts: seq<Snapshot<S>>, applied: nat, state: S)
    requires CrdtShape(sts, applied)
    ensures CrdtShape(CrdtCacheStep(gap, sts, applied, state), applied + 1)
  {
    if |sts| == 0 || sts[|sts| - 1].applied + gap > applied {
      IncreasingPush(sts, Snapshot(applied, state));
      assert (sts + [Snapshot(applied, state)])[0].applied == 0;
    }
  }

  lemma CrdtContentStep<E, S>(apply: (E, S) -> S, initial: S, edits: seq<E>, gap: nat,
                              sts: seq<Snapshot<S>>, applied: nat, state: S)
    requires ReplayContent(apply, initial, edits, sts, applied, state) && applied < |edits|
    ensures ReplayContent(apply, initial, edits, CrdtCacheStep(gap, sts, applied, state), applied + 1,
                          apply(edits[applied], state))
  {
    ApplyAllStep(apply, initial, edits, applied);
    if |sts| == 0 || sts[|sts| - 1].applied + gap > applied {
      PushSnapshot(apply, initial, edits, sts, Snapshot(applied, state));
    }
  }

  lemma CrdtDone<E, S>(apply: (E, S) -> S, initial: S, edits: seq<E>,
                       sts: seq<Snapshot<S>>, applied: nat, state: S)
    requires CrdtShape(sts, applied) && ReplayContent(apply, initial, edits, sts, applied, state)
    requires applied == |edits|
    ensures CrdtCached(apply, initial, edits, sts + [Snapshot(applied, state)])
  {
    var s := Snapshot(applied, state);
    IncreasingPush(sts, s);
    PushSnapshot(apply, initial, edits, sts, s);
    assert (sts + [s])[0].applied == 0;
    assert edits[..0] == [];
  }

  /** The snapshots before position `k` of a well formed cache, and the one at `k - 1`. */
  lemma CrdtKeepPrefix<E, S>(apply: (E, S) -> S, initial: S, edits: seq<E>, states: seq<Snapshot<S>>,
                             upTo: nat, k: nat)
    requires 1 <= k <= |states| && upTo <= |edits| && states[0].applied == 0
    requires Increasing(states)
    requires Snapshots(apply, initial, edits, states, upTo)
    requires forall j :: 0 <= j < k ==> states[j].applied <= upTo
    ensures CrdtShape(states[..k - 1], states[k - 1].applied)
    ensures ReplayContent(apply, initial, edits, states[..k - 1], states[k - 1].applied, states[k - 1].state)
  {
    var sts := states[..k - 1];
    assert forall i :: 0 <= i < k - 1 ==> sts[i] == states[i];
  }

  /** The replay loop of src/crdt.rs:41-50. */
  method CrdtReplay<E, S>(apply: (E, S) -> S, ghost initial: S, edits: seq<E>, gap: nat,
                          sts0: seq<Snapshot<S>>, applied0: nat, state0: S) returns (sts: seq<Snapshot<S>>)
    requires CrdtShape(sts0, applied0) && ReplayContent(apply, initial, edits, sts0, applied0, state0)
    ensures CrdtCached(apply, initial, edits, sts)
    ensures sts0 <= sts
  {
    sts := sts0;
    var applied := applied0;
    var state := state0;
    while applied < |edits|
      invariant CrdtShape(sts, applied) && ReplayContent(apply, initial, edits, sts, applied, state)
      invariant sts0 <= sts
      decreases |edits| - applied
    {
      CrdtShapeStep(gap, sts, applied, state);
      CrdtContentStep(apply, initial, edits, gap, sts, applied, state);
      if |sts| == 0 || sts[|sts| - 1].applied + gap > applied {
        sts := sts + [Snapshot(applied, state)];
      }
      state := apply(edits[applied], state);
      applied := applied + 1;
    }
    CrdtDone(apply, initial, edits, sts, applied, state);
    sts := sts + [Snapshot(applied, state)];
  }

  /** `OpSetCrdt`: the edit log, sorted by the edits' `Ord`, and its snapshot cache. */
  class OpSetCrdt<E(==,!new), S> {
    var edits: seq<E>
    var states: seq<Snapshot<S>>
    var cacheGap: nat
    const apply: (E, S) -> S
    const cmp: (E, E) -> Ordering
    ghost const initial: S

    ghost predicate Valid()
      reads this
    {
      TotalOrder(cmp) && StrictlySorted(cmp, edits) && CrdtCached(apply, initial, edits, states)
    }

    /** `OpSetCrdt::new`: no edits, and the initial state as the only snapshot. */
    constructor (initialState: S, cacheGap: nat, apply: (E, S) -> S, cmp: (E, E) -> Ordering)
      requires TotalOrder(cmp)
      ensures Valid()
      ensures edits == [] && states == [Snapshot(0, initialState)] && this.cacheGap == cacheGap
      ensures this.apply == apply && this.cmp == cmp && initial == initialState
    {
      edits := [];
      states := [Snapshot(0, initialState)];
      this.cacheGap := cacheGap;
      this.apply := apply;
      this.cmp := cmp;
      initial := initialState;
    }

    /** `state()`: the newest snapshot, the fold of `apply` over the sorted edits. */
    function State(): (r: S)
      reads this
      requires Valid()
      ensures r == ApplyAll(apply, initial, edits)
    {
      assert edits[..states[|states| - 1].applied] == edits;
      states[|states| - 1].state
    }

    /** `edit`: inserts at the binary-search position; an edit comparing equal makes it panic. */
    method Edit(edit: E)
      requires Valid()
      requires forall k :: 0 <= k < |edits| ==> cmp(edits[k], edit) != Equal
      modifies this
      ensures Valid()
      ensures multiset(edits) == old(multiset(edits)) + multiset{edit}
      ensures cacheGap == old(cacheGap)
      ensures State() == ApplyAll(apply, initial, edits)
    {
      var insertPoint := FindInsertionPoint(cmp, edits, edit);
      InsertKeepsSorted(cmp, edits, insertPoint, edit);
      ghost var oldEdits := edits;
      edits := InsertAt(edits, insertPoint, edit);
      PrefixSnapshots(apply, initial, oldEdits, edits, states, insertPoint);
      Recalculate(insertPoint);
    }

    /**
     * `recalculate`: keeps the snapshots taken at or before `insertPoint` edits, pops the
     * newest of them and replays the remaining edits from it.
     */
    method Recalculate(insertPoint: nat)
      requires insertPoint <= |edits|
      requires |states| >= 1 && states[0].applied == 0 && states[0].state == initial
      requires Increasing(states)
      requires Snapshots(apply, initial, edits, states, insertPoint)
      modifies this
      ensures CrdtCached(apply, initial, edits, states)
      ensures edits == old(edits) && cacheGap == old(cacheGap)
      ensures |Kept(old(states), insertPoint)| >= 1
      ensures Kept(old(states), insertPoint)[..|Kept(old(states), insertPoint)| - 1] <= states
    {
      var firstBad := FirstBadState(states, insertPoint);
      KeptIsPrefix(states, insertPoint, firstBad);
      CrdtKeepPrefix(apply, initial, edits, states, insertPoint, firstBad);
      var replayed := CrdtReplay(apply, initial, edits, cacheGap, states[..firstBad - 1],
                                 states[firstBad - 1].applied, states[firstBad - 1].state);
      states := replayed;
    }
  }
}
