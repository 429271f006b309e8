/**
 * `consider_join` of src/sequence.rs (and its rightward form in src/tree.rs) on values, and
 * the balance the two size constants keep. A join merges a segment into its left neighbour
 * when both are short (fewer than `JOIN_LEN` ids each) and together still fit below
 * `SPLIT_LEN`. `Balanced` says every segment of a string of two or more segments holds at
 * least `JOIN_LEN` ids; the edits keep it and, under it, a join never fires.
 */
module Balance {
  import opened Common
  import opened Segments
  import opened TreeNodes
  import opened TreeEdits
  import opened RingEdits
  import opened SplitJoin
  import opened Splits

  /**
   * The index of the segment `consider_join` of segment `j` of string `s` removes, if it
   * removes one. The pair looked at is `(j, j + 1)` rightward and `(j - 1, j)` leftward, and
   * its right member is the one merged away; nothing happens when an end of the pair is the
   * string node, when either member holds `JOIN_LEN` ids or more, or when the two hold
   * `SPLIT_LEN` or more together.
   */
  function JoinIndex(a: Arena, s: NodeId, j: nat, rightward: bool): Option<nat> {
    if s !in a.strings || j >= |a.strings[s]| then None
    else
      var k := if rightward then j + 1 else j;
      if k == 0 || k >= |a.strings[s]| then None
      else
        var l, r := LengthAt(a, s, k - 1), LengthAt(a, s, k);
        if l >= JOIN_LEN || r >= JOIN_LEN || l + r >= SPLIT_LEN then None else Some(k)
  }

  /** What a join of segments `k - 1` and `k` of string `s` needs: both are segments and `k` can be unlinked. */
  ghost predicate JoinPre(a: Arena, s: NodeId, k: nat) {
    && s in a.strings && 1 <= k < |a.strings[s]|
    && Deletable(a.nodes, a.strings[s][k]) && IsSegment(a.nodes, a.strings[s][k - 1])
    && IsSegment(SegmentDeleted(a.nodes, a.strings[s][k]), a.strings[s][k - 1])
  }

  /**
   * The tree after segment `k` of string `s` is merged into segment `k - 1`: `k` is unlinked,
   * its ids are mapped to the left segment, and its contents and ids (offsets moved past the
   * left segment's contents) are appended to the left segment's.
   */
  ghost function Join(a: Arena, s: NodeId, k: nat): Arena
    requires JoinPre(a, s, k)
  {
    var l, r := a.strings[s][k - 1], a.strings[s][k];
    var n1 := SegmentDeleted(a.nodes, r);
    var d := a.nodes[r].data;
    var c := n1[l].data.contents;
    Arena(n1[l := WithPayload(n1[l], c + d.contents, n1[l].data.ids + Shifted(d.ids, 0, |c|))],
          Remapped(a.idToNode, d.ids, l), a.nextNode, a.strings[s := RemoveAt(a.strings[s], k)])
  }

  /** Any two neighbouring segments of a well-formed tree can be joined. */
  lemma JoinReady(a: Arena, s: NodeId, k: nat)
    requires Wf(a.nodes, a.idToNode, a.nextNode, a.strings) && s in a.strings && 1 <= k < |a.strings[s]|
    ensures JoinPre(a, s, k)
    ensures var n1 := SegmentDeleted(a.nodes, a.strings[s][k]); var l := a.strings[s][k - 1];
            n1[l].data.contents == a.nodes[l].data.contents && n1[l].data.ids == a.nodes[l].data.ids
  {
    var ss := a.strings[s];
    assert Ring(a.nodes, s, ss);
    assert Linked(a.nodes, s, ss, k - 1);
    DeletableOfRing(a.nodes, s, ss, k);
    DeletedShape(a.nodes, SegmentDeleted(a.nodes, ss[k]), s, ss, k);
  }

  /**
   * A join keeps the tree well formed and every string's cells; the string loses segment `k`,
   * and the left segment then holds the ids of both.
   */
  lemma JoinOk(a: Arena, s: NodeId, k: nat)
    requires Wf(a.nodes, a.idToNode, a.nextNode, a.strings) && s in a.strings && 1 <= k < |a.strings[s]|
    ensures JoinPre(a, s, k)
    ensures var b := Join(a, s, k);
            && Wf(b.nodes, b.idToNode, b.nextNode, b.strings)
            && CellsKept(a.nodes, a.strings, b.nodes, b.strings)
            && b.strings == a.strings[s := RemoveAt(a.strings[s], k)]
            && LengthAt(b, s, k - 1) == LengthAt(a, s, k - 1) + LengthAt(a, s, k)
  {
    hide Wf;
    JoinReady(a, s, k);
    var ss := a.strings[s];
    var b := Join(a, s, k);
    var l := ss[k - 1];
    JoinWf(a.nodes, a.idToNode, a.nextNode, a.strings, s, k, SegmentDeleted(a.nodes, ss[k]), b.nodes, b.idToNode);
    assert RemoveAt(ss, k)[k - 1] == l;
    CellsKeptOfOthers(a.nodes, a.strings, b.nodes, s, RemoveAt(ss, k));
  }

  /** The fields of `Join`, in the terms the method computes them. */
  lemma JoinFields(a: Arena, s: NodeId, k: nat)
    requires JoinPre(a, s, k)
    ensures var l, r := a.strings[s][k - 1], a.strings[s][k]; var n1 := SegmentDeleted(a.nodes, r);
            && Join(a, s, k).nodes == n1[l := WithPayload(n1[l], n1[l].data.contents + a.nodes[r].data.contents,
                                              n1[l].data.ids + Shifted(a.nodes[r].data.ids, 0, |n1[l].data.contents|))]
            && Join(a, s, k).idToNode == Remapped(a.idToNode, a.nodes[r].data.ids, l)
            && Join(a, s, k).nextNode == a.nextNode
            && Join(a, s, k).strings == a.strings[s := RemoveAt(a.strings[s], k)]
  {
  }

  /**
   * `JoinIndex` in the terms `consider_join` reads: the pair is the segment and its neighbour on
   * the chosen side, there is none when that neighbour is the string node, and otherwise the
   * pair is joined unless the lengths rule it out.
   */
  lemma JoinIndexOf(a: Arena, s: NodeId, j: nat, rightward: bool)
    requires At(a, s, j)
    ensures a.strings[s][j] in a.nodes && a.nodes[a.strings[s][j]].data.StringSegment?
    ensures var seg := a.strings[s][j]; var d := a.nodes[seg].data;
            var left := if rightward then seg else d.prev;
            var right := if rightward then d.next else seg;
            && left in a.nodes && right in a.nodes
            && (a.nodes[left].data.String? || a.nodes[right].data.String? ==> JoinIndex(a, s, j, rightward).None?)
            && (!a.nodes[left].data.String? && !a.nodes[right].data.String? ==>
                  && a.nodes[left].data.StringSegment? && a.nodes[right].data.StringSegment?
                  && var k := if rightward then j + 1 else j;
                  var ll, rl := |a.nodes[left].data.ids|, |a.nodes[right].data.ids|;
                  && 1 <= k < |a.strings[s]| && a.strings[s][k - 1] == left && a.strings[s][k] == right
                  && JoinIndex(a, s, j, rightward) == if ll >= JOIN_LEN || rl >= JOIN_LEN || ll + rl >= SPLIT_LEN then None else Some(k))
  {
    Neighbours(a, s, j);
  }

  /** The links of segment `j` of string `s`, and what its neighbours are. */
  lemma Neighbours(a: Arena, s: NodeId, j: nat)
    requires At(a, s, j)
    ensures IsSegment(a.nodes, a.strings[s][j]) && IsString(a.nodes, s)
    ensures a.nodes[a.strings[s][j]].data.prev == Before(s, a.strings[s], j)
    ensures a.nodes[a.strings[s][j]].data.next == After(s, a.strings[s], j)
    ensures j >= 1 ==> IsSegment(a.nodes, a.strings[s][j - 1])
    ensures j + 1 < |a.strings[s]| ==> IsSegment(a.nodes, a.strings[s][j + 1])
  {
    var ss := a.strings[s];
    assert Ring(a.nodes, s, ss) && Linked(a.nodes, s, ss, j);
    if j >= 1 {
      assert Linked(a.nodes, s, ss, j - 1);
    }
    if j + 1 < |ss| {
      assert Linked(a.nodes, s, ss, j + 1);
    }
  }

  /** A join never leaves a segment that `consider_split` would cut. */
  lemma JoinFits(a: Arena, s: NodeId, j: nat, rightward: bool)
    requires Wf(a.nodes, a.idToNode, a.nextNode, a.strings) && JoinIndex(a, s, j, rightward).Some?
    ensures JoinPre(a, s, JoinIndex(a, s, j, rightward).value)
    ensures var k := JoinIndex(a, s, j, rightward).value;
            LengthAt(Join(a, s, k), s, k - 1) < SPLIT_LEN
  {
    hide Wf;
    JoinOk(a, s, JoinIndex(a, s, j, rightward).value);
  }

  /** Where the two ends `consider_split` returns sit in the string. */
  lemma SplitEnds(a: Arena, s: NodeId, j: nat, r: (Arena, seq<NodeId>))
    requires SplitOk(a, s, j, r)
    ensures s in r.0.strings && |r.1| >= 1 && j + |r.1| <= |r.0.strings[s]|
    ensures r.0.strings[s][j] == a.strings[s][j] && r.0.strings[s][j + |r.1| - 1] == r.1[|r.1| - 1]
  {
    hide Wf;
    var ss := a.strings[s];
    assert r.0.strings[s] == ss[..j] + r.1 + ss[j + 1..];
  }

  // ---------------------------------------------------------------------------------------
  // Balance

  /** Every segment of a string of two or more segments holds at least `JOIN_LEN` ids. */
  ghost predicate Balanced(a: Arena) {
    forall s, k :: s in a.strings && |a.strings[s]| >= 2 && 0 <= k < |a.strings[s]| ==> JOIN_LEN <= LengthAt(a, s, k)
  }

  /** In a balanced tree `consider_join` never joins. */
  lemma BalancedNoJoin(a: Arena, s: NodeId, j: nat, rightward: bool)
    requires Balanced(a)
    ensures JoinIndex(a, s, j, rightward) == None
  {
    if s in a.strings && j < |a.strings[s]| {
      var k := if rightward then j + 1 else j;
      if 1 <= k < |a.strings[s]| {
        assert JOIN_LEN <= LengthAt(a, s, k);
      }
    }
  }

  /**
   * Replacing segment `n` of a balanced tree by a segment with at least as many ids (a
   * character inserted or deleted), with the segment lists unchanged, keeps it balanced.
   */
  lemma BalancedGrow(a: Arena, b: Arena, n: NodeId)
    requires Balanced(a) && b.strings == a.strings && IsSegment(a.nodes, n) && IsSegment(b.nodes, n)
    requires |b.nodes[n].data.ids| >= |a.nodes[n].data.ids|
    requires forall m :: m in a.nodes && m != n ==> m in b.nodes && b.nodes[m] == a.nodes[m]
    ensures Balanced(b)
  {
    forall s, k | s in b.strings && |b.strings[s]| >= 2 && 0 <= k < |b.strings[s]|
      ensures JOIN_LEN <= LengthAt(b, s, k)
    {
      assert JOIN_LEN <= LengthAt(a, s, k);
    }
  }

  /**
   * Adding nodes and strings of one segment keeps a tree balanced: every string of two or
   * more segments is an old one, whose segments are unchanged.
   */
  lemma BalancedExtend(a: Arena, b: Arena)
    requires Wf(a.nodes, a.idToNode, a.nextNode, a.strings) && Balanced(a)
    requires forall m :: m in a.nodes ==> m in b.nodes && b.nodes[m] == a.nodes[m]
    requires forall t :: t in b.strings && |b.strings[t]| >= 2 ==> t in a.strings && b.strings[t] == a.strings[t]
    ensures Balanced(b)
  {
    forall t, k | t in b.strings && |b.strings[t]| >= 2 && 0 <= k < |b.strings[t]|
      ensures JOIN_LEN <= LengthAt(b, t, k)
    {
      assert Ring(a.nodes, t, a.strings[t]) && Linked(a.nodes, t, a.strings[t], k);
      assert JOIN_LEN <= LengthAt(a, t, k);
    }
  }

  /**
   * `consider_split` keeps a tree balanced: the pieces of a split are longer than `SPLIT_LEN / 2`,
   * an unsplit segment keeps its length, and every other segment keeps its payload.
   */
  lemma BalancedSplit(a: Arena, s: NodeId, j: nat)
    requires At(a, s, j) && Balanced(a)
    ensures Balanced(SplitAll(a, s, j).0)
  {
    hide Wf, SplitAll, PayloadsKept;
    SplitAllUnfold(a, s, j);
    if LengthAt(a, s, j) > SPLIT_LEN {
      var r := SplitAll(a, s, j);
      BalancedPieces(a, s, j, r);
    }
  }

  /** The pieces of a long segment are long; every other segment keeps its length. */
  lemma BalancedPieces(a: Arena, s: NodeId, j: nat, r: (Arena, seq<NodeId>))
    requires At(a, s, j) && Balanced(a) && SplitOk(a, s, j, r) && LengthAt(a, s, j) > SPLIT_LEN
    ensures Balanced(r.0)
  {
    hide Wf;
    var ss, x, pieces := a.strings[s], a.strings[s][j], r.1;
    forall t, k | t in r.0.strings && |r.0.strings[t]| >= 2 && 0 <= k < |r.0.strings[t]|
      ensures JOIN_LEN <= LengthAt(r.0, t, k)
    {
      if t == s && j <= k < j + |pieces| {
        assert PieceOk(r.0.nodes, pieces, k - j, a.nextNode, r.0.nextNode, PieceFloor(LengthAt(a, s, j)));
        assert r.0.strings[s][k] == pieces[k - j];
      } else {
        var k0 := if t == s && k >= j + |pieces| then k - |pieces| + 1 else k;
        assert r.0.strings[t][k] == a.strings[t][k0];
        SegmentsApart(a, s, j, t, k0);
        assert IsSegment(a.nodes - {x}, a.strings[t][k0]);
        assert JOIN_LEN <= LengthAt(a, t, k0);
      }
    }
  }

  /** Segment `k` of string `t` is a segment, and a different one from segment `j` of string `s` unless it is that one. */
  lemma SegmentsApart(a: Arena, s: NodeId, j: nat, t: NodeId, k: nat)
    requires At(a, s, j) && At(a, t, k)
    ensures IsSegment(a.nodes, a.strings[t][k])
    ensures (t != s || k != j) ==> a.strings[t][k] != a.strings[s][j]
  {
    assert Ring(a.nodes, t, a.strings[t]) && Linked(a.nodes, t, a.strings[t], k);
    assert Ring(a.nodes, s, a.strings[s]) && Linked(a.nodes, s, a.strings[s], j);
  }
}
