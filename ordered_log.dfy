/**
 * Pieces shared by the two operation logs: Rust's `Ord` laws, sortedness, the binary search
 * used to find insertion points, and the left fold that replays operations onto a state.
 */
module OrderedLog {
  import opened Common

  /** The laws of Rust's `Ord`: `cmp` is antisymmetric and its `<=` is transitive. */
  ghost predicate TotalOrder<E(!new)>(cmp: (E, E) -> Ordering) {
    && (forall a, b :: cmp(a, b) == Less <==> cmp(b, a) == Greater)
    && (forall a, b, c {:trigger cmp(a, b), cmp(b, c), cmp(a, c)} :: cmp(a, b) != Greater && cmp(b, c) != Greater ==> cmp(a, c) != Greater)
  }

  /** Every earlier element compares `Less` than every later one. */
  ghost predicate StrictlySorted<E>(cmp: (E, E) -> Ordering, s: seq<E>) {
    forall i, j :: 0 <= i < j < |s| ==> cmp(s[i], s[j]) == Less
  }

  function Rank(o: Ordering): nat {
    match o
    case Less => 0
    case Equal => 1
    case Greater => 2
  }

  function CmpNat(a: nat, b: nat): (r: Ordering)
    ensures r == Less <==> a < b
    ensures r == Equal <==> a == b
  {
    if a < b then Less else if a == b then Equal else Greater
  }

  /** `Vec::binary_search_by`'s result: `Ok(index)` or `Err(insertion point)`. */
  datatype SearchResult = Found(index: nat) | NotFound(insertAt: nat)

  /**
   * Binary search over a sequence that `f` (which compares an element with the target)
   * partitions into `Less`, then `Equal`, then `Greater` elements.
   */
  method BinarySearchBy<T>(a: seq<T>, f: T -> Ordering) returns (r: SearchResult)
    requires forall i, j :: 0 <= i < j < |a| ==> Rank(f(a[i])) <= Rank(f(a[j]))
    ensures r.Found? ==> r.index < |a| && f(a[r.index]) == Equal
    ensures r.NotFound? ==> r.insertAt <= |a|
    ensures r.NotFound? ==> forall j :: 0 <= j < r.insertAt ==> f(a[j]) == Less
    ensures r.NotFound? ==> forall j :: r.insertAt <= j < |a| ==> f(a[j]) == Greater
  {
    var lo, hi := 0, |a|;
    while lo < hi
      invariant 0 <= lo <= hi <= |a|
      invariant forall j :: 0 <= j < lo ==> f(a[j]) == Less
      invariant forall j :: hi <= j < |a| ==> f(a[j]) == Greater
      decreases hi - lo
    {
      var mid := lo + (hi - lo) / 2;
      match f(a[mid])
      case Less =>
        lo := mid + 1;
      case Greater =>
        hi := mid;
      case Equal =>
        return Found(mid);
    }
    return NotFound(lo);
  }

  /** The elements of a strictly sorted sequence compared with a probe are monotone. */
  lemma SortedProbeMonotone<E(!new)>(cmp: (E, E) -> Ordering, s: seq<E>, x: E)
    requires TotalOrder(cmp) && StrictlySorted(cmp, s)
    ensures forall i, j :: 0 <= i < j < |s| ==> Rank(cmp(s[i], x)) <= Rank(cmp(s[j], x))
  {
    forall i, j | 0 <= i < j < |s|
      ensures Rank(cmp(s[i], x)) <= Rank(cmp(s[j], x))
    {
      assert cmp(s[i], s[j]) == Less;
      if cmp(s[j], x) == Equal {
        assert cmp(x, s[j]) != Greater;
      }
    }
  }

  /** Inserting at the insertion point the search reports keeps a log strictly sorted. */
  lemma InsertKeepsSorted<E(!new)>(cmp: (E, E) -> Ordering, s: seq<E>, i: nat, x: E)
    requires TotalOrder(cmp) && StrictlySorted(cmp, s) && i <= |s|
    requires forall j :: 0 <= j < i ==> cmp(s[j], x) == Less
    requires forall j :: i <= j < |s| ==> cmp(s[j], x) == Greater
    ensures StrictlySorted(cmp, InsertAt(s, i, x))
  {
  }

  /**
   * A strictly sorted sequence is determined by its elements: whatever order the elements
   * arrived in, the log that holds them is the same.
   */
  lemma {:induction false} SortedIsUnique<E(!new)>(cmp: (E, E) -> Ordering, a: seq<E>, b: seq<E>)
    requires TotalOrder(cmp) && StrictlySorted(cmp, a) && StrictlySorted(cmp, b)
    requires multiset(a) == multiset(b)
    ensures a == b
  {
    if a == [] {
      assert |multiset(b)| == 0;
    } else {
      assert b != [] by {
        assert a[0] in multiset(b);
      }
      HeadsAgree(cmp, a, b);
      TailMultiset(a, b);
      SortedIsUnique(cmp, a[1..], b[1..]);
      assert a == [a[0]] + a[1..] && b == [b[0]] + b[1..];
    }
  }

  lemma HeadsAgree<E(!new)>(cmp: (E, E) -> Ordering, a: seq<E>, b: seq<E>)
    requires TotalOrder(cmp) && StrictlySorted(cmp, a) && StrictlySorted(cmp, b)
    requires multiset(a) == multiset(b) && a != [] && b != []
    ensures a[0] == b[0]
  {
    assert a[0] in multiset(b) && b[0] in multiset(a);
    var k :| 0 <= k < |b| && b[k] == a[0];
    var m :| 0 <= m < |a| && a[m] == b[0];
  }

  lemma TailMultiset<E>(a: seq<E>, b: seq<E>)
    requires a != [] && b != [] && a[0] == b[0] && multiset(a) == multiset(b)
    ensures multiset(a[1..]) == multiset(b[1..])
  {
    assert a == [a[0]] + a[1..] && b == [b[0]] + b[1..];
    assert multiset(a[1..]) == multiset(a) - multiset{a[0]};
    assert multiset(b[1..]) == multiset(b) - multiset{b[0]};
  }

  /** The state after applying `ops` in order to `init` (the replay loop of `recalculate`). */
  function ApplyAll<E, S>(apply: (E, S) -> S, init: S, ops: seq<E>): S
    decreases |ops|
  {
    if ops == [] then init else apply(ops[|ops| - 1], ApplyAll(apply, init, ops[..|ops| - 1]))
  }

  /** Replaying one more operation of a log. */
  lemma ApplyAllStep<E, S>(apply: (E, S) -> S, init: S, ops: seq<E>, n: nat)
    requires n < |ops|
    ensures ApplyAll(apply, init, ops[..n + 1]) == apply(ops[n], ApplyAll(apply, init, ops[..n]))
  {
    assert ops[..n + 1][..n] == ops[..n];
  }

  /** Replaying a log in two parts, from the state reached after the first, is replaying it whole. */
  lemma {:induction false} ApplyAllAppend<E, S>(apply: (E, S) -> S, init: S, a: seq<E>, b: seq<E>)
    ensures ApplyAll(apply, init, a + b) == ApplyAll(apply, ApplyAll(apply, init, a), b)
    decreases |b|
  {
    if b == [] {
      assert a + b == a;
    } else {
      assert (a + b)[..|a + b| - 1] == a + b[..|b| - 1];
      ApplyAllAppend(apply, init, a, b[..|b| - 1]);
    }
  }
}
