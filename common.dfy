/** Types shared by every part of the model. */
module Common {

  datatype Option<T> = None | Some(value: T)

  /** Result of Rust's `Ord::cmp`. */
  datatype Ordering = Less | Equal | Greater

  /**
   * External identifier of a document element. The source is generic in its id type; the
   * document layer instantiates it with a struct holding one number, which is what this is.
   */
  datatype Id = Id(num: nat)

  /** Index of a node in a tree's arena (`NodeId(usize)`; the counter never wraps here). */
  type NodeId = int

  /** `s` with `x` inserted at position `i` (`Vec::insert`). */
  function InsertAt<E>(s: seq<E>, i: nat, x: E): (r: seq<E>)
    requires i <= |s|
    ensures |r| == |s| + 1 && r[i] == x
    ensures forall k :: 0 <= k < i ==> r[k] == s[k]
    ensures forall k :: i < k < |r| ==> r[k] == s[k - 1]
    ensures multiset(r) == multiset(s) + multiset{x}
  {
    assert s == s[..i] + s[i..];
    s[..i] + [x] + s[i..]
  }

  /** `s` without its element at position `i` (`String::remove`). */
  function RemoveAt<E>(s: seq<E>, i: nat): (r: seq<E>)
    requires i < |s|
    ensures |r| == |s| - 1
    ensures forall k :: 0 <= k < i ==> r[k] == s[k]
    ensures forall k :: i <= k < |r| ==> r[k] == s[k + 1]
  {
    s[..i] + s[i + 1..]
  }

  /** Removing position `i` removes exactly one occurrence of `s[i]` and nothing else. */
  lemma RemoveAtMultiset<E>(s: seq<E>, i: nat)
    requires i < |s|
    ensures multiset(RemoveAt(s, i)) == multiset(s) - multiset{s[i]}
  {
    assert s == s[..i] + [s[i]] + s[i + 1..];
  }
}
