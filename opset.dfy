/**
 * The op-set replay log: operations kept sorted by their `Ord`, and a cache of snapshots
 * (number of operations applied, state) from which the current state is recomputed after an
 * operation lands in the middle of the log.
 */
module Opset {
  import opened Common
  import opened OrderedLog

  /**
   * The position where `edit` belongs in the sorted log (`binary_search`, whose `Ok` case
   * is the source's panic on two operations that compare equal).
   */
  method FindInsertionPoint<E(!new)>(cmp: (E, E) -> Ordering, log: seq<E>, edit: E) returns (insertPoint: nat)
    requires TotalOrder(cmp) && StrictlySorted(cmp, log)
    requires forall k :: 0 <= k < |log| ==> cmp(log[k], edit) != Equal
    ensures insertPoint <= |log|
    ensures forall j :: 0 <= j < insertPoint ==> cmp(log[j], edit) == Less
    ensures forall j :: insertPoint <= j < |log| ==> cmp(log[j], edit) == Greater
  {
    SortedProbeMonotone(cmp, log, edit);
    var r := BinarySearchBy(log, e => cmp(e, edit));
    assert r.NotFound?;
    insertPoint := r.insertAt;
  }

  /**
   * Two sorted logs holding the same operations replay to the same state: the state does not
   * depend on the order operations were submitted in, nor on whether they came one by one
   * through `edit` or together through `edit_from_iter`.
   */
  lemma ReplayOrderIndependent<E(!new), S>(cmp: (E, E) -> Ordering, apply: (E, S) -> S, initial: S,
                                           a: seq<E>, b: seq<E>)
    requires TotalOrder(cmp) && StrictlySorted(cmp, a) && StrictlySorted(cmp, b)
    requires multiset(a) == multiset(b)
    ensures ApplyAll(apply, initial, a) == ApplyAll(apply, initial, b)
  {
    SortedIsUnique(cmp, a, b);
  }

  /** A cached state and the number of operations replayed to reach it. */
  datatype Snapshot<S> = Snapshot(applied: nat, state: S)

  /** Consecutive snapshots are at least `gap` operations apart. */
  ghost predicate FullySpaced<S>(states: seq<Snapshot<S>>, gap: nat) {
    forall i :: 0 < i < |states| ==> states[i - 1].applied + gap <= states[i].applied
  }

  /** The most operations two consecutive snapshots can be apart: `cacheGap`, and at least one. */
  function MaxStride(gap: nat): nat {
    if gap == 0 then 1 else gap
  }

  /**
   * No two consecutive snapshots are more than `MaxStride(gap)` operations apart: at most
   * `cacheGap` operations have to be replayed from a cached snapshot to reach any state.
   */
  ghost predicate Dense<S>(states: seq<Snapshot<S>>, gap: nat) {
    forall i :: 0 < i < |states| ==> states[i].applied <= states[i - 1].applied + MaxStride(gap)
  }

  /** Snapshot counts strictly increase. */
  ghost predicate Increasing<S>(states: seq<Snapshot<S>>) {
    forall i, j :: 0 <= i < j < |states| ==> states[i].applied < states[j].applied
  }

  /** Every snapshot at or below `upTo` operations is what replaying that prefix of `ops` yields. */
  ghost predicate Snapshots<E, S>(apply: (E, S) -> S, initial: S, ops: seq<E>, states: seq<Snapshot<S>>, upTo: nat) {
    forall i :: 0 <= i < |states| && states[i].applied <= upTo ==>
      states[i].applied <= |ops| && states[i].state == ApplyAll(apply, initial, ops[..states[i].applied])
  }

  /** Snapshots that cover at most the unchanged prefix of a log stay correct. */
  lemma PrefixSnapshots<E, S>(apply: (E, S) -> S, initial: S, oldOps: seq<E>, ops: seq<E>,
                              states: seq<Snapshot<S>>, upTo: nat)
    requires upTo <= |ops| && upTo <= |oldOps| && ops[..upTo] == oldOps[..upTo]
    requires Snapshots(apply, initial, oldOps, states, |oldOps|)
    requires forall i :: 0 <= i < |states| ==> states[i].applied <= |oldOps|
    ensures Snapshots(apply, initial, ops, states, upTo)
  {
    forall i | 0 <= i < |states| && states[i].applied <= upTo
      ensures states[i].state == ApplyAll(apply, initial, ops[..states[i].applied])
    {
      assert ops[..states[i].applied] == oldOps[..states[i].applied];
    }
  }

  /** Appending a correct snapshot that is newer than the rest keeps the cache well formed. */
  lemma PushSnapshot<E, S>(apply: (E, S) -> S, initial: S, ops: seq<E>, states: seq<Snapshot<S>>, s: Snapshot<S>)
    requires Snapshots(apply, initial, ops, states, |ops|)
    requires s.applied <= |ops| && s.state == ApplyAll(apply, initial, ops[..s.applied])
    ensures Snapshots(apply, initial, ops, states + [s], |ops|)
  {
    forall i | 0 <= i < |states| + 1 && (states + [s])[i].applied <= |ops|
      ensures (states + [s])[i].state == ApplyAll(apply, initial, ops[..(states + [s])[i].applied])
    {
      if i < |states| {
        assert (states + [s])[i] == states[i];
      }
    }
  }

  lemma IncreasingPush<S>(states: seq<Snapshot<S>>, s: Snapshot<S>)
    requires Increasing(states) && (|states| > 0 ==> states[|states| - 1].applied < s.applied)
    ensures Increasing(states + [s])
  {
    forall i, j | 0 <= i < j < |states| + 1
      ensures (states + [s])[i].applied < (states + [s])[j].applied
    {
      assert (states + [s])[i] == states[i];
      if j < |states| {
        assert (states + [s])[j] == states[j];
      } else {
        assert states[i].applied <= states[|states| - 1].applied;
      }
    }
  }

  lemma SpacedPush<S>(states: seq<Snapshot<S>>, s: Snapshot<S>, gap: nat)
    requires FullySpaced(states, gap) && (|states| > 0 ==> states[|states| - 1].applied + gap <= s.applied)
    ensures FullySpaced(states + [s], gap)
  {
    forall i | 0 < i < |states| + 1
      ensures (states + [s])[i - 1].applied + gap <= (states + [s])[i].applied
    {
      assert (states + [s])[i - 1] == states[i - 1];
      if i < |states| {
        assert (states + [s])[i] == states[i];
      }
    }
  }

  lemma DensePush<S>(states: seq<Snapshot<S>>, s: Snapshot<S>, gap: nat)
    requires Dense(states, gap) && (|states| > 0 ==> s.applied <= states[|states| - 1].applied + MaxStride(gap))
    ensures Dense(states + [s], gap)
  {
    forall i | 0 < i < |states| + 1
      ensures (states + [s])[i].applied <= (states + [s])[i - 1].applied + MaxStride(gap)
    {
      assert (states + [s])[i - 1] == states[i - 1];
      if i < |states| {
        assert (states + [s])[i] == states[i];
      }
    }
  }

  /**
   * `binary_search_by_key` over the snapshot counts: the number of snapshots taken at or
   * before `insertPoint` operations, which are the ones an edit there leaves valid.
   */
  method FirstBadState<S>(states: seq<Snapshot<S>>, insertPoint: nat) returns (firstBad: nat)
    requires |states| >= 1 && states[0].applied == 0 && Increasing(states)
    ensures 1 <= firstBad <= |states|
    ensures forall j :: 0 <= j < firstBad ==> states[j].applied <= insertPoint
    ensures forall j :: firstBad <= j < |states| ==> states[j].applied > insertPoint
  {
    var sr := BinarySearchBy(states, (st: Snapshot<S>) => CmpNat(st.applied, insertPoint));
    firstBad := if sr.Found? then sr.index + 1 else sr.insertAt;
  }

  /** The leading snapshots taken at or before `upTo` operations. */
  ghost function Kept<S>(states: seq<Snapshot<S>>, upTo: nat): seq<Snapshot<S>> {
    if states == [] || states[0].applied > upTo then [] else [states[0]] + Kept(states[1..], upTo)
  }

  lemma {:induction false} KeptIsPrefix<S>(states: seq<Snapshot<S>>, upTo: nat, k: nat)
    requires k <= |states|
    requires forall j :: 0 <= j < k ==> states[j].applied <= upTo
    requires forall j :: k <= j < |states| ==> states[j].applied > upTo
    ensures Kept(states, upTo) == states[..k]
    decreases k
  {
    if k == 0 {
      if states != [] {
        assert states[0].applied > upTo;
      }
    } else {
      KeptIsPrefix(states[1..], upTo, k - 1);
      assert states[..k] == [states[0]] + states[1..][..k - 1];
    }
  }

  /** Keeping the snapshots that precede position `k` of a well formed cache. */
  lemma KeepPrefix<E, S>(apply: (E, S) -> S, initial: S, ops: seq<E>, states: seq<Snapshot<S>>,
                         gap: nat, upTo: nat, k: nat)
    requires 1 <= k <= |states| && upTo <= |ops| && states[0].applied == 0
    requires Increasing(states) && FullySpaced(states[..|states| - 1], gap) && Dense(states, gap)
    requires Snapshots(apply, initial, ops, states, upTo)
    requires forall j :: 0 <= j < k ==> states[j].applied <= upTo
    ensures ReplayInv(apply, initial, ops, gap, states[..k - 1], states[k - 1].applied, states[k - 1].state)
  {
    var sts := states[..k - 1];
    assert sts == states[..|states| - 1][..k - 1];
    assert forall i :: 0 <= i < k - 1 ==> sts[i] == states[i];
    assert ReplayShape(gap, sts, states[k - 1].applied);
    assert ReplayContent(apply, initial, ops, sts, states[k - 1].applied, states[k - 1].state);
  }

  /**
   * What holds at each step of the replay loop: `state` is the replay of `applied`
   * operations, and the cached snapshots, all older than it, are correct and spaced.
   */
  ghost predicate ReplayInv<E, S>(apply: (E, S) -> S, initial: S, ops: seq<E>, gap: nat,
                                  sts: seq<Snapshot<S>>, applied: nat, state: S) {
    ReplayShape(gap, sts, applied) && ReplayContent(apply, initial, ops, sts, applied, state)
  }

  /** The counts part of `ReplayInv`. */
  ghost predicate ReplayShape<S>(gap: nat, sts: seq<Snapshot<S>>, applied: nat) {
    && (|sts| == 0 ==> applied == 0)
    && (|sts| > 0 ==> sts[0].applied == 0 && sts[|sts| - 1].applied < applied)
    && (|sts| > 0 ==> applied <= sts[|sts| - 1].applied + MaxStride(gap))
    && Increasing(sts) && FullySpaced(sts, gap) && Dense(sts, gap)
  }

  /** The states part of `ReplayInv`. */
  ghost predicate ReplayContent<E, S>(apply: (E, S) -> S, initial: S, ops: seq<E>,
                                      sts: seq<Snapshot<S>>, applied: nat, state: S) {
    && applied <= |ops| && state == ApplyAll(apply, initial, ops[..applied])
    && Snapshots(apply, initial, ops, sts, |ops|)
  }

  /** The cache the replay loop leaves after one more step. */
  function CacheStep<S>(gap: nat, sts: seq<Snapshot<S>>, applied: nat, state: S): seq<Snapshot<S>> {
    if |sts| == 0 || sts[|sts| - 1].applied + gap <= applied then sts + [Snapshot(applied, state)] else sts
  }

  lemma ShapeStep<S>(gap: nat, sts: seq<Snapshot<S>>, applied: nat, state: S)
    requires ReplayShape(gap, sts, applied)
    ensures ReplayShape(gap, CacheStep(gap, sts, applied, state), applied + 1)
  {
    if |sts| == 0 || sts[|sts| - 1].applied + gap <= applied {
      var s := Snapshot(applied, state);
      IncreasingPush(sts, s);
      SpacedPush(sts, s, gap);
      DensePush(sts, s, gap);
      assert (sts + [s])[0].applied == 0;
    }
  }

  lemma ContentStep<E, S>(apply: (E, S) -> S, initial: S, ops: seq<E>, gap: nat,
                          sts: seq<Snapshot<S>>, applied: nat, state: S)
    requires ReplayShape(gap, sts, applied) && ReplayContent(apply, initial, ops, sts, applied, state)
    requires applied < |ops|
    ensures ReplayContent(apply, initial, ops, CacheStep(gap, sts, applied, state), applied + 1,
                          apply(ops[applied], state))
  {
    ApplyAllStep(apply, initial, ops, applied);
    if |sts| == 0 || sts[|sts| - 1].applied + gap <= applied {
      PushSnapshot(apply, initial, ops, sts, Snapshot(applied, state));
    }
  }

  /** One turn of the replay loop keeps `ReplayInv` and only ever extends the cache. */
  lemma ReplayStep<E, S>(apply: (E, S) -> S, initial: S, ops: seq<E>, gap: nat,
                         sts: seq<Snapshot<S>>, applied: nat, state: S)
    requires ReplayInv(apply, initial, ops, gap, sts, applied, state) && applied < |ops|
    ensures ReplayInv(apply, initial, ops, gap, CacheStep(gap, sts, applied, state), applied + 1, apply(ops[applied], state))
    ensures sts <= CacheStep(gap, sts, applied, state)
  {
    ShapeStep(gap, sts, applied, state);
    ContentStep(apply, initial, ops, gap, sts, applied, state);
  }

  /** Once every operation is applied, caching the end state completes a well-kept cache. */
  lemma ReplayDone<E, S>(apply: (E, S) -> S, initial: S, ops: seq<E>, gap: nat,
                         sts: seq<Snapshot<S>>, applied: nat, state: S)
    requires ReplayInv(apply, initial, ops, gap, sts, applied, state) && applied >= |ops|
    ensures WellCached(apply, initial, ops, sts + [Snapshot(applied, state)], gap)
  {
    ShapeDone(gap, sts, applied, state);
    ContentDone(apply, initial, ops, gap, sts, applied, state);
  }

  /** The shape of the cache the replay loop leaves once every operation has been applied. */
  lemma ShapeDone<S>(gap: nat, sts: seq<Snapshot<S>>, applied: nat, state: S)
    requires ReplayShape(gap, sts, applied)
    ensures var r := sts + [Snapshot(applied, state)];
            Increasing(r) && FullySpaced(r[..|r| - 1], gap) && Dense(r, gap) && r[0].applied == 0
  {
    var s := Snapshot(applied, state);
    IncreasingPush(sts, s);
    DensePush(sts, s, gap);
    assert (sts + [s])[..|sts|] == sts;
    assert (sts + [s])[0].applied == 0;
  }

  /** The contents of the cache the replay loop leaves once every operation has been applied. */
  lemma ContentDone<E, S>(apply: (E, S) -> S, initial: S, ops: seq<E>, gap: nat,
                          sts: seq<Snapshot<S>>, applied: nat, state: S)
    requires ReplayShape(gap, sts, applied) && ReplayContent(apply, initial, ops, sts, applied, state)
    requires applied == |ops|
    ensures var r := sts + [Snapshot(applied, state)];
            r[0].state == initial && Snapshots(apply, initial, ops, r, |ops|)
  {
    PushSnapshot(apply, initial, ops, sts, Snapshot(applied, state));
    assert ops[..0] == [];
  }

  /**
   * The replay loop of `recalculate`: from the snapshot `(applied, state)`, applies the rest
   * of `ops` one at a time, caching the state before an operation whenever the newest cached
   * snapshot is at least `gap` operations behind (or none is left), and finally caches the
   * end state.
   */
  method Replay<E, S>(apply: (E, S) -> S, ghost initial: S, ops: seq<E>, gap: nat,
                      sts0: seq<Snapshot<S>>, applied0: nat, state0: S) returns (sts: seq<Snapshot<S>>)
    requires ReplayInv(apply, initial, ops, gap, sts0, applied0, state0)
    ensures WellCached(apply, initial, ops, sts, gap)
    ensures sts0 <= sts
  {
    hide ReplayInv, WellCached;
    sts := sts0;
    var applied := applied0;
    var state := state0;
    while applied < |ops|
      invariant ReplayInv(apply, initial, ops, gap, sts, applied, state)
      invariant sts0 <= sts
      decreases |ops| - applied
    {
      ReplayStep(apply, initial, ops, gap, sts, applied, state);
      ghost var next := CacheStep(gap, sts, applied, state);
      if |sts| == 0 || sts[|sts| - 1].applied + gap <= applied {
        sts := sts + [Snapshot(applied, state)];
      }
      assert sts == next;
      state := apply(ops[applied], state);
      applied := applied + 1;
    }
    ReplayDone(apply, initial, ops, gap, sts, applied, state);
    sts := sts + [Snapshot(applied, state)];
  }

  /**
   * What holds after the first `i` operations of a batch went into `log`: it is sorted, holds
   * the old log and those operations, and ties with none of the rest of the batch.
   */
  ghost predicate BatchLogInv<E(!new)>(cmp: (E, E) -> Ordering, ops: seq<E>, batch: seq<E>, i: nat, log: seq<E>) {
    && TotalOrder(cmp)
    && i <= |batch|
    && (forall a, b :: 0 <= a < b < |batch| ==> cmp(batch[a], batch[b]) != Equal)
    && StrictlySorted(cmp, log)
    && multiset(log) == multiset(ops) + multiset(batch[..i])
    && (forall k, j :: 0 <= k < |log| && i <= j < |batch| ==> cmp(log[k], batch[j]) != Equal)
  }

  /** `least` is the least insertion point so far, and `log` agrees with `ops` below it. */
  ghost predicate BatchLeastInv<E>(ops: seq<E>, i: nat, log: seq<E>, least: Option<nat>) {
    && (least.None? ==> i == 0 && log == ops)
    && (least.Some? ==> least.value <= |log| && least.value <= |ops|)
    && (least.Some? ==> log[..least.value] == ops[..least.value])
  }

  /** One insertion of the loop of `edit_from_iter` keeps `BatchLogInv`. */
  lemma BatchLogStep<E(!new)>(cmp: (E, E) -> Ordering, ops: seq<E>, batch: seq<E>, i: nat,
                              log: seq<E>, insertPoint: nat)
    requires BatchLogInv(cmp, ops, batch, i, log) && i < |batch|
    requires insertPoint <= |log|
    requires forall j :: 0 <= j < insertPoint ==> cmp(log[j], batch[i]) == Less
    requires forall j :: insertPoint <= j < |log| ==> cmp(log[j], batch[i]) == Greater
    ensures BatchLogInv(cmp, ops, batch, i + 1, InsertAt(log, insertPoint, batch[i]))
  {
    InsertKeepsSorted(cmp, log, insertPoint, batch[i]);
    assert batch[..i + 1] == batch[..i] + [batch[i]];
  }

  /** One insertion of the loop of `edit_from_iter` keeps `BatchLeastInv`. */
  lemma BatchLeastStep<E>(ops: seq<E>, i: nat, log: seq<E>, least: Option<nat>, insertPoint: nat, edit: E,
                          least': Option<nat>)
    requires BatchLeastInv(ops, i, log, least) && insertPoint <= |log| && |ops| <= |log|
    requires least' == if least.Some? && least.value < insertPoint then least else Some(insertPoint)
    requires least.None? ==> insertPoint <= |ops|
    ensures BatchLeastInv(ops, i + 1, InsertAt(log, insertPoint, edit), least')
  {
    var log' := InsertAt(log, insertPoint, edit);
    if least.Some? && least.value < insertPoint {
      assert log'[..least.value] == log[..least.value];
    } else {
      assert log'[..insertPoint] == log[..insertPoint];
    }
  }

  /**
   * A well formed cache: it starts at the initial state and ends at the replay of all of
   * `ops`, every snapshot is the replay of its prefix, and all but the newest are at least
   * `gap` operations apart while none are further apart than `MaxStride(gap)`.
   */
  ghost predicate WellCached<E, S>(apply: (E, S) -> S, initial: S, ops: seq<E>, states: seq<Snapshot<S>>, gap: nat) {
    && |states| >= 1
    && states[0].applied == 0 && states[0].state == initial
    && Increasing(states)
    && states[|states| - 1].applied == |ops|
    && Snapshots(apply, initial, ops, states, |ops|)
    && FullySpaced(states[..|states| - 1], gap)
    && Dense(states, gap)
  }

  /** The insertion loop of `edit_from_iter`, on a copy of the log. */
  method InsertBatch<E(!new)>(cmp: (E, E) -> Ordering, ops: seq<E>, batch: seq<E>) returns (log: seq<E>, least: Option<nat>)
    requires TotalOrder(cmp) && StrictlySorted(cmp, ops)
    requires forall i, j :: 0 <= i < j < |batch| ==> cmp(batch[i], batch[j]) != Equal
    requires forall i, k :: 0 <= i < |batch| && 0 <= k < |ops| ==> cmp(ops[k], batch[i]) != Equal
    ensures BatchLogInv(cmp, ops, batch, |batch|, log) && BatchLeastInv(ops, |batch|, log, least)
  {
    log := ops;
    least := None;
    var i := 0;
    BatchStart(cmp, ops, batch);
    while i < |batch|
      invariant BatchLogInv(cmp, ops, batch, i, log)
      invariant BatchLeastInv(ops, i, log, least)
      invariant |ops| <= |log|
    {
      log, least := InsertOne(cmp, ops, batch, i, log, least);
      i := i + 1;
    }
  }

  lemma BatchStart<E(!new)>(cmp: (E, E) -> Ordering, ops: seq<E>, batch: seq<E>)
    requires TotalOrder(cmp) && StrictlySorted(cmp, ops)
    requires forall i, j :: 0 <= i < j < |batch| ==> cmp(batch[i], batch[j]) != Equal
    requires forall i, k :: 0 <= i < |batch| && 0 <= k < |ops| ==> cmp(ops[k], batch[i]) != Equal
    ensures BatchLogInv(cmp, ops, batch, 0, ops) && BatchLeastInv(ops, 0, ops, None)
  {
    assert batch[..0] == [];
  }

  lemma BatchEnd<E(!new)>(cmp: (E, E) -> Ordering, ops: seq<E>, batch: seq<E>, log: seq<E>)
    requires BatchLogInv(cmp, ops, batch, |batch|, log)
    ensures StrictlySorted(cmp, log)
    ensures multiset(log) == multiset(ops) + multiset(batch)
  {
    assert batch[..|batch|] == batch;
  }

  /** One iteration of the insertion loop of `edit_from_iter`. */
  method InsertOne<E(!new)>(cmp: (E, E) -> Ordering, ghost ops: seq<E>, batch: seq<E>, i: nat,
                            log: seq<E>, least: Option<nat>) returns (log': seq<E>, least': Option<nat>)
    requires BatchLogInv(cmp, ops, batch, i, log) && BatchLeastInv(ops, i, log, least)
    requires |ops| <= |log| && i < |batch|
    ensures BatchLogInv(cmp, ops, batch, i + 1, log') && BatchLeastInv(ops, i + 1, log', least')
    ensures |ops| <= |log'|
  {
    var edit := batch[i];
    var insertPoint := FindInsertionPoint(cmp, log, edit);
    BatchLogStep(cmp, ops, batch, i, log, insertPoint);
    least' := if least.Some? && least.value < insertPoint then least else Some(insertPoint);
    BatchLeastStep(ops, i, log, least, insertPoint, edit, least');
    log' := InsertAt(log, insertPoint, edit);
  }

  /**
   * An operation log. `apply` and `cmp` are the `Operation` and `Ord` implementations of the
   * operation type; `initial` is the state the log was created with.
   */
  class Opset<E(==,!new), S> {
    var ops: seq<E>
    var states: seq<Snapshot<S>>
    var cacheGap: nat
    const apply: (E, S) -> S
    const cmp: (E, E) -> Ordering
    ghost const initial: S

    /** The order on operations is a total order and the log is sorted by it. */
    ghost predicate Valid()
      reads this
    {
      TotalOrder(cmp) && StrictlySorted(cmp, ops) && CacheValid()
    }

    /**
     * The cache starts at the initial state and ends at the current one, every snapshot is
     * the replay of its prefix, and all but the newest are at least `cacheGap` apart.
     */
    ghost predicate CacheValid()
      reads this
    {
      WellCached(apply, initial, ops, states, cacheGap)
    }

    /** `Opset::new`: an empty log whose only snapshot is the initial state. */
    constructor (initialState: S, cacheGap: nat, apply: (E, S) -> S, cmp: (E, E) -> Ordering)
      requires TotalOrder(cmp)
      ensures Valid()
      ensures ops == [] && states == [Snapshot(0, initialState)] && this.cacheGap == cacheGap
      ensures this.apply == apply && this.cmp == cmp && initial == initialState
    {
      ops := [];
      states := [Snapshot(0, initialState)];
      this.cacheGap := cacheGap;
      this.apply := apply;
      this.cmp := cmp;
      initial := initialState;
    }

    /** `state()`: the newest snapshot, which is the whole log replayed onto the initial state. */
    function State(): (r: S)
      reads this
      requires Valid()
      ensures r == ApplyAll(apply, initial, ops)
    {
      assert ops[..states[|states| - 1].applied] == ops;
      states[|states| - 1].state
    }

    /**
     * `edit`: inserts one operation in order and replays from its position. Two operations
     * that compare equal make the source panic, so that is excluded.
     */
    method Edit(edit: E)
      requires Valid()
      requires forall k :: 0 <= k < |ops| ==> cmp(ops[k], edit) != Equal
      modifies this
      ensures Valid()
      ensures multiset(ops) == old(multiset(ops)) + multiset{edit}
      ensures cacheGap == old(cacheGap)
      ensures State() == ApplyAll(apply, initial, ops)
    {
      var insertPoint := FindInsertionPoint(cmp, ops, edit);
      InsertKeepsSorted(cmp, ops, insertPoint, edit);
      ghost var oldOps := ops;
      ops := InsertAt(ops, insertPoint, edit);
      PrefixSnapshots(apply, initial, oldOps, ops, states, insertPoint);
      Recalculate(insertPoint);
    }

    /**
     * `edit_from_iter`: inserts a batch of operations one by one, then replays once from the
     * least insertion point seen. No operation may compare equal to another or to one
     * already in the log.
     */
    method EditFromIter(batch: seq<E>)
      requires Valid()
      requires forall i, j :: 0 <= i < j < |batch| ==> cmp(batch[i], batch[j]) != Equal
      requires forall i, k :: 0 <= i < |batch| && 0 <= k < |ops| ==> cmp(ops[k], batch[i]) != Equal
      modifies this
      ensures Valid()
      ensures multiset(ops) == old(multiset(ops)) + multiset(batch)
      ensures cacheGap == old(cacheGap)
      ensures State() == ApplyAll(apply, initial, ops)
    {
      var log, least := InsertBatch(cmp, ops, batch);
      BatchEnd(cmp, ops, batch, log);
      ghost var oldOps := ops;
      ops := log;
      if least.Some? {
        PrefixSnapshots(apply, initial, oldOps, ops, states, least.value);
        Recalculate(least.value);
      }
    }

    /**
     * `recalculate`: drops the snapshots taken after `insertPoint` operations, then replays
     * the rest of the log from the newest surviving snapshot, caching a snapshot whenever the
     * last one is at least `cacheGap` operations behind.
     */
    method Recalculate(insertPoint: nat)
      requires insertPoint <= |ops|
      requires |states| >= 1 && states[0].applied == 0 && states[0].state == initial
      requires Increasing(states)
      requires FullySpaced(states[..|states| - 1], cacheGap) && Dense(states, cacheGap)
      requires Snapshots(apply, initial, ops, states, insertPoint)
      modifies this
      ensures CacheValid()
      ensures ops == old(ops) && cacheGap == old(cacheGap)
      ensures |Kept(old(states), insertPoint)| >= 1
      ensures Kept(old(states), insertPoint)[..|Kept(old(states), insertPoint)| - 1] <= states
    {
      hide WellCached, ReplayInv, Snapshots, Dense, FullySpaced, Increasing;
      var firstBad := FirstBadState(states, insertPoint);
      KeptIsPrefix(states, insertPoint, firstBad);
      KeepPrefix(apply, initial, ops, states, cacheGap, insertPoint, firstBad);
      var replayed := Replay(apply, initial, ops, cacheGap, states[..firstBad - 1],
                             states[firstBad - 1].applied, states[firstBad - 1].state);
      states := replayed;
    }
  }
}
