/**
 * The recursion of `consider_split` (src/tree/sequence.rs, src/tree.rs) on values. `Cut` is
 * one split of a segment at half its ids; `SplitAll` cuts again and again until every piece
 * holds at most `SPLIT_LEN` ids, first the left half and then the right one. The lemmas state
 * that the tree stays well formed, that no string's elements change, and what the pieces are.
 */
module Splits {
  import opened Common
  import opened Segments
  import opened TreeNodes
  import opened TreeEdits
  import opened RingEdits
  import opened SplitJoin

  /** The fields of a tree as one value: the arena, the id map, the counter and the segment lists. */
  datatype Arena = Arena(nodes: Nodes, idToNode: map<Id, NodeId>, nextNode: NodeId, strings: Strings)

  /** Segment `j` of string `s` of a well-formed tree. */
  ghost predicate At(a: Arena, s: NodeId, j: nat) {
    Wf(a.nodes, a.idToNode, a.nextNode, a.strings) && s in a.strings && j < |a.strings[s]|
  }


  /** The least size `consider_split` leaves a piece of a segment of `n` ids with. */
  function PieceFloor(n: nat): nat {
    if n < SPLIT_LEN / 2 then n else SPLIT_LEN / 2
  }

  /** The number of ids of segment `n` (none if `n` is not a segment). */
  function SegmentLength(nodes: Nodes, n: NodeId): nat {
    if IsSegment(nodes, n) then |nodes[n].data.ids| else 0
  }

  /** Piece `k` of `pieces` was numbered in `[lo, hi)` (unless it is the first) and is a segment of between `floor` and `SPLIT_LEN` ids. */
  ghost predicate PieceOk(nodes: Nodes, pieces: seq<NodeId>, k: int, lo: NodeId, hi: NodeId, floor: nat) {
    0 <= k < |pieces| ==>
      && (k >= 1 ==> lo <= pieces[k] < hi)
      && IsSegment(nodes, pieces[k]) && floor <= SegmentLength(nodes, pieces[k]) <= SPLIT_LEN
  }

  /**
   * `pieces` is what `consider_split` made of `segment`: `segment` comes first and `right`
   * last, the others were numbered in `[lo, hi)`, and each is a segment of between `floor`
   * and `SPLIT_LEN` ids.
   */
  ghost predicate SplitPieces(nodes: Nodes, pieces: seq<NodeId>, segment: NodeId, right: NodeId, lo: NodeId, hi: NodeId, floor: nat) {
    && |pieces| >= 1 && pieces[0] == segment && pieces[|pieces| - 1] == right
    && forall k :: PieceOk(nodes, pieces, k, lo, hi, floor)
  }

  /** Segment `j` of a string of a well-formed tree is a segment numbered below the counter. */
  lemma SegmentOfRing(nodes: Nodes, idToNode: map<Id, NodeId>, nextNode: NodeId, strings: Strings, s: NodeId, j: nat)
    requires Wf(nodes, idToNode, nextNode, strings) && s in strings && j < |strings[s]|
    ensures IsSegment(nodes, strings[s][j]) && strings[s][j] < nextNode
  {
    assert Ring(nodes, s, strings[s]);
    assert Linked(nodes, s, strings[s], j);
  }

  /** An unsplit segment is its own single piece. */
  lemma SplitNone(nodes: Nodes, strings: Strings, s: NodeId, j: nat, lo: NodeId, hi: NodeId)
    requires s in strings && j < |strings[s]| && IsSegment(nodes, strings[s][j])
    requires SegmentLength(nodes, strings[s][j]) <= SPLIT_LEN
    ensures strings == strings[s := strings[s][..j] + [strings[s][j]] + strings[s][j + 1..]]
    ensures SplitPieces(nodes, [strings[s][j]], strings[s][j], strings[s][j], lo, hi, PieceFloor(SegmentLength(nodes, strings[s][j])))
  {
    assert strings[s] == strings[s][..j] + [strings[s][j]] + strings[s][j + 1..];
    assert PieceOk(nodes, [strings[s][j]], 0, lo, hi, PieceFloor(SegmentLength(nodes, strings[s][j])));
  }

  /** The pieces of the two halves together are the pieces of the segment. */
  lemma SplitPiecesAppend(n1: Nodes, n2: Nodes, p1: seq<NodeId>, p2: seq<NodeId>, segment: NodeId, r1: NodeId, x: NodeId,
                          r2: NodeId, hi1: NodeId, hi2: NodeId, floor: nat)
    requires segment < x < hi1 <= hi2
    requires SplitPieces(n1, p1, segment, r1, x + 1, hi1, floor) && SplitPieces(n2, p2, x, r2, hi1, hi2, floor)
    requires PayloadsKept(n1 - {x}, n2)
    ensures SplitPieces(n2, p1 + p2, segment, r2, x, hi2, floor)
  {
    forall k
      ensures PieceOk(n2, p1 + p2, k, x, hi2, floor)
    {
      if 0 <= k < |p1| {
        assert PieceOk(n1, p1, k, x + 1, hi1, floor);
        assert p1[k] != x;
        assert IsSegment(n1 - {x}, p1[k]);
      } else if |p1| <= k < |p1 + p2| {
        assert PieceOk(n2, p2, k - |p1|, hi1, hi2, floor);
      }
    }
  }

  /** Replacing a segment by itself leaves the strings as they are. */
  lemma StringsUnsplit(strings: Strings, s: NodeId, j: nat)
    requires s in strings && j < |strings[s]|
    ensures strings[s := strings[s][..j] + [strings[s][j]] + strings[s][j + 1..]] == strings
  {
    assert strings[s][..j] + [strings[s][j]] + strings[s][j + 1..] == strings[s];
  }

  /** After the left half is split, the right half sits right after the left half's pieces. */
  lemma HalvesStrings1(strings: Strings, s: NodeId, j: nat, x: NodeId, p1: seq<NodeId>, st1: Strings)
    requires s in strings && j + 1 < |strings[s]| && strings[s][j + 1] == x
    requires st1 == strings[s := strings[s][..j] + p1 + strings[s][j + 1..]]
    ensures j + |p1| < |st1[s]| && st1[s][j + |p1|] == x
  {
    assert st1[s][j + |p1|] == strings[s][j + 1..][0];
  }

  /** After both halves are split, their pieces replace the two halves. */
  lemma HalvesStrings2(strings: Strings, s: NodeId, j: nat, k: nat, p1: seq<NodeId>, p2: seq<NodeId>, st1: Strings, st2: Strings)
    requires s in strings && j + 1 < |strings[s]| && k == j + |p1|
    requires st1 == strings[s := strings[s][..j] + p1 + strings[s][j + 1..]]
    requires st2 == st1[s := st1[s][..k] + p2 + st1[s][k + 1..]]
    ensures st2 == strings[s := strings[s][..j] + (p1 + p2) + strings[s][j + 2..]]
  {
    var ss := strings[s];
    var ss1 := ss[..j] + p1 + ss[j + 1..];
    assert ss1[..k] == ss[..j] + p1;
    assert ss1[k + 1..] == ss[j + 2..];
    assert ss1[..k] + p2 + ss1[k + 1..] == ss[..j] + (p1 + p2) + ss[j + 2..];
  }

  /** The cut adds the right half after segment `j`; the pieces of both halves replace it. */
  lemma CutStrings(strings: Strings, s: NodeId, j: nat, x: NodeId, pieces: seq<NodeId>, st2: Strings)
    requires s in strings && j < |strings[s]|
    requires st2 == strings[s := InsertAt(strings[s], j + 1, x)][s := InsertAt(strings[s], j + 1, x)[..j] + pieces + InsertAt(strings[s], j + 1, x)[j + 2..]]
    ensures st2 == strings[s := strings[s][..j] + pieces + strings[s][j + 1..]]
  {
    var ss := strings[s];
    var ss0 := InsertAt(ss, j + 1, x);
    assert ss0[..j] == ss[..j];
    assert ss0[j + 2..] == ss[j + 1..];
    assert strings[s := ss0][s := ss0[..j] + pieces + ss0[j + 2..]] == strings[s := ss[..j] + pieces + ss[j + 1..]];
  }

  /** A segment other than the one split first keeps its length through that split. */
  lemma HalvesLength(n: Nodes, n1: Nodes, segment: NodeId, x: NodeId)
    requires IsSegment(n, x) && x != segment && PayloadsKept(n - {segment}, n1)
    ensures SegmentLength(n1, x) == SegmentLength(n, x)
  {
    assert IsSegment(n - {segment}, x);
  }

  /** Segments other than the two halves keep their payloads through both splits. */
  lemma HalvesPayloadsKept(n: Nodes, n1: Nodes, n2: Nodes, segment: NodeId, x: NodeId)
    requires PayloadsKept(n - {segment}, n1) && PayloadsKept(n1 - {x}, n2)
    ensures PayloadsKept(n - {segment, x}, n2)
  {
    forall m | IsSegment(n - {segment, x}, m)
      ensures IsSegment(n2, m) && n2[m].data.contents == n[m].data.contents && n2[m].data.ids == n[m].data.ids
    {
      assert IsSegment(n - {segment}, m);
      assert IsSegment(n1 - {x}, m);
    }
  }

  /** Segments other than the cut one keep their payloads through the cut and the splits. */
  lemma CutPayloadsKept(n: Nodes, n0: Nodes, n2: Nodes, segment: NodeId, x: NodeId)
    requires x !in n && PayloadsKept(n - {segment}, n0) && PayloadsKept(n0 - {segment, x}, n2)
    ensures PayloadsKept(n - {segment}, n2)
  {
    forall m | IsSegment(n - {segment}, m)
      ensures IsSegment(n2, m) && n2[m].data.contents == n[m].data.contents && n2[m].data.ids == n[m].data.ids
    {
      assert IsSegment(n0 - {segment, x}, m);
    }
  }

  /** What the cut of segment `j` of string `s` needs: the segment, its successor and a cut point. */
  ghost predicate CutPre(a: Arena, s: NodeId, j: nat) {
    && s in a.strings && j < |a.strings[s]|
    && IsSegment(a.nodes, a.strings[s][j]) && Insertable(a.nodes, a.strings[s][j])
    && var ids := a.nodes[a.strings[s][j]].data.ids;
       && LiveCount(ids[..|ids| / 2]) <= |a.nodes[a.strings[s][j]].data.contents|
       && CanShift(ids[|ids| / 2..], 0, -(LiveCount(ids[..|ids| / 2]) as int))
       && var n1 := SegmentInserted(a.nodes, a.strings[s][j], a.nextNode);
          IsSegment(n1, a.strings[s][j]) && IsSegment(n1, a.nextNode)
  }

  /** Every segment of a well-formed tree can be cut. */
  lemma CutReady(a: Arena, s: NodeId, j: nat)
    requires At(a, s, j)
    ensures CutPre(a, s, j) && a.strings[s][j] < a.nextNode && a.nextNode !in a.nodes
    ensures OffsetsOk(a.nodes[a.strings[s][j]].data.contents, a.nodes[a.strings[s][j]].data.ids)
  {
    var x := a.strings[s][j];
    SegmentOfRing(a.nodes, a.idToNode, a.nextNode, a.strings, s, j);
    assert Ring(a.nodes, s, a.strings[s]);
    LinksOfRing(a.nodes, s, a.strings[s], j + 1);
    var d := a.nodes[x].data;
    assert SegmentOk(a.nodes, a.idToNode, x);
    SplitHalvesOf(a.nodes, x, d.contents, d.ids, |d.ids| / 2, LiveCount(d.ids[..|d.ids| / 2]));
    InsertedPayloads(a.nodes, a.nextNode, a.strings, s, j + 1, SegmentInserted(a.nodes, x, a.nextNode));
  }

  /**
   * The tree after `consider_split` cuts segment `j` of string `s`: its first `|ids| / 2` ids
   * and the characters before the first live one of the rest stay; the rest moves, offsets
   * shifted down, into the new segment `nextNode` linked in after it, whose ids now map to it.
   */
  ghost function Cut(a: Arena, s: NodeId, j: nat): Arena
    requires CutPre(a, s, j)
  {
    var x := a.strings[s][j];
    var c := a.nodes[x].data.contents;
    var ids := a.nodes[x].data.ids;
    var m := |ids| / 2;
    var sst := LiveCount(ids[..m]);
    var moved := Shifted(ids[m..], 0, -(sst as int));
    var n1 := SegmentInserted(a.nodes, x, a.nextNode);
    Arena(n1[x := WithPayload(n1[x], c[..sst], ids[..m])][a.nextNode := WithPayload(n1[a.nextNode], c[sst..], moved)],
          Remapped(a.idToNode, moved, a.nextNode), a.nextNode + 1, a.strings[s := InsertAt(a.strings[s], j + 1, a.nextNode)])
  }

  /** The fields of `Cut`, in the terms `SplitStepWf` takes them. */
  lemma CutFields(a: Arena, s: NodeId, j: nat)
    requires CutPre(a, s, j)
    ensures var x := a.strings[s][j]; var c := a.nodes[x].data.contents; var ids := a.nodes[x].data.ids;
            var m := |ids| / 2; var sst := LiveCount(ids[..m]); var n1 := SegmentInserted(a.nodes, x, a.nextNode);
            && Cut(a, s, j).nodes == n1[x := WithPayload(n1[x], c[..sst], ids[..m])]
                                       [a.nextNode := WithPayload(n1[a.nextNode], c[sst..], Shifted(ids[m..], 0, -(sst as int)))]
            && Cut(a, s, j).idToNode == Remapped(a.idToNode, Shifted(ids[m..], 0, -(sst as int)), a.nextNode)
            && Cut(a, s, j).nextNode == a.nextNode + 1
            && Cut(a, s, j).strings == a.strings[s := InsertAt(a.strings[s], j + 1, a.nextNode)]
  {
  }

  /**
   * A cut keeps the tree well formed and every string's elements; the cut segment keeps the
   * first half of its ids, the new segment `nextNode` after it holds the rest, and every other
   * segment keeps its payload.
   */
  lemma CutWf(a: Arena, s: NodeId, j: nat)
    requires At(a, s, j)
    ensures CutPre(a, s, j)
    ensures var r := Cut(a, s, j);
            && Wf(r.nodes, r.idToNode, r.nextNode, r.strings)
            && CellsKept(a.nodes, a.strings, r.nodes, r.strings)
            && PayloadsKept(a.nodes - {a.strings[s][j]}, r.nodes)
    ensures var r := Cut(a, s, j); var x := a.strings[s][j];
            && r.nextNode == a.nextNode + 1 && a.nextNode !in a.nodes && x < a.nextNode
            && r.strings == a.strings[s := InsertAt(a.strings[s], j + 1, a.nextNode)]
            && SegmentLength(r.nodes, x) == SegmentLength(a.nodes, x) / 2
            && SegmentLength(r.nodes, a.nextNode) == SegmentLength(a.nodes, x) - SegmentLength(a.nodes, x) / 2
  {
    hide Wf, PayloadsKept, CellsKept, Remapped;
    CutReady(a, s, j);
    var x := a.strings[s][j];
    var ids := a.nodes[x].data.ids;
    CutFields(a, s, j);
    SplitStepWf(a.nodes, a.idToNode, a.nextNode, a.strings, s, j, a.nodes[x].data.contents, ids, |ids| / 2, LiveCount(ids[..|ids| / 2]),
                SegmentInserted(a.nodes, x, a.nextNode), Cut(a, s, j).nodes, Cut(a, s, j).idToNode);
  }

  /** The number of ids of segment `j` of string `s` (none if there is no such segment). */
  function LengthAt(a: Arena, s: NodeId, j: nat): nat {
    if s in a.strings && j < |a.strings[s]| then SegmentLength(a.nodes, a.strings[s][j]) else 0
  }

  /**
   * `r` is what splitting segment `j` of string `s` of `a` may leave: a well-formed tree in
   * which a run of pieces, the segment first, takes the segment's place in its string, the
   * counter has not gone down, every other segment keeps its payload, every string keeps its
   * elements, and the pieces are segments of at most `SPLIT_LEN` ids, none shorter than
   * `PieceFloor` of the segment's length, all but the first numbered by the counter.
   */
  ghost predicate SplitOk(a: Arena, s: NodeId, j: nat, r: (Arena, seq<NodeId>)) {
    && s in a.strings && j < |a.strings[s]|
    && |r.1| >= 1 && r.1[0] == a.strings[s][j]
    && Wf(r.0.nodes, r.0.idToNode, r.0.nextNode, r.0.strings)
    && r.0.strings == a.strings[s := a.strings[s][..j] + r.1 + a.strings[s][j + 1..]]
    && a.nextNode <= r.0.nextNode
    && PayloadsKept(a.nodes - {a.strings[s][j]}, r.0.nodes)
    && CellsKept(a.nodes, a.strings, r.0.nodes, r.0.strings)
    && SplitPieces(r.0.nodes, r.1, a.strings[s][j], r.1[|r.1| - 1], a.nextNode, r.0.nextNode, PieceFloor(LengthAt(a, s, j)))
  }

  /**
   * `consider_split` of segment `j` of string `s`, as values: the tree it leaves and the run of
   * segments the segment became, in string order, as `SplitOk` describes them.
   */
  ghost function SplitAll(a: Arena, s: NodeId, j: nat): (r: (Arena, seq<NodeId>))
    requires At(a, s, j)
    decreases LengthAt(a, s, j)
    ensures SplitOk(a, s, j, r)
  {
    hide Wf, SplitOk, CutPre, Cut, PayloadsKept;
    if LengthAt(a, s, j) <= SPLIT_LEN then
      SplitNoneOk(a, s, j);
      (a, [a.strings[s][j]])
    else
      SplitAllCut(a, s, j);
      var r1 := SplitAll(Cut(a, s, j), s, j);
      SplitAllRight(a, s, j, r1);
      var r2 := SplitAll(r1.0, s, j + |r1.1|);
      SplitAllJoin(a, s, j, r1, r2);
      (r2.0, r1.1 + r2.1)
  }

  /** A segment of at most `SPLIT_LEN` ids is left as it is. */
  lemma SplitNoneOk(a: Arena, s: NodeId, j: nat)
    requires At(a, s, j) && LengthAt(a, s, j) <= SPLIT_LEN
    ensures SplitOk(a, s, j, (a, [a.strings[s][j]]))
  {
    SegmentOfRing(a.nodes, a.idToNode, a.nextNode, a.strings, s, j);
    SplitNone(a.nodes, a.strings, s, j, a.nextNode, a.nextNode);
  }

  /** A segment longer than `SPLIT_LEN` can be cut, and its left half is shorter than it. */
  lemma SplitAllCut(a: Arena, s: NodeId, j: nat)
    requires At(a, s, j) && LengthAt(a, s, j) > SPLIT_LEN
    ensures CutPre(a, s, j) && At(Cut(a, s, j), s, j) && Cut(a, s, j).strings[s][j] == a.strings[s][j]
    ensures LengthAt(Cut(a, s, j), s, j) < LengthAt(a, s, j)
  {
    hide Wf;
    CutWf(a, s, j);
    assert Cut(a, s, j).strings[s][j] == a.strings[s][j];
  }

  /** Once the left half of a cut is split, the right half is the next segment, and shorter than the whole. */
  lemma SplitAllRight(a: Arena, s: NodeId, j: nat, r1: (Arena, seq<NodeId>))
    requires At(a, s, j) && LengthAt(a, s, j) > SPLIT_LEN && CutPre(a, s, j)
    requires SplitOk(Cut(a, s, j), s, j, r1)
    ensures At(r1.0, s, j + |r1.1|) && r1.0.strings[s][j + |r1.1|] == a.nextNode
    ensures LengthAt(r1.0, s, j + |r1.1|) < LengthAt(a, s, j)
  {
    hide Wf, Cut;
    var x := a.strings[s][j];
    CutWf(a, s, j);
    var a1 := Cut(a, s, j);
    assert a1.strings[s][j] == x && a1.strings[s][j + 1] == a.nextNode;
    HalvesStrings1(a1.strings, s, j, a.nextNode, r1.1, r1.0.strings);
    HalvesLength(a1.nodes, r1.0.nodes, x, a.nextNode);
  }

  /** Splitting the left half and then the right half of a cut gives what `SplitOk` promises. */
  lemma SplitAllJoin(a: Arena, s: NodeId, j: nat, r1: (Arena, seq<NodeId>), r2: (Arena, seq<NodeId>))
    requires At(a, s, j) && LengthAt(a, s, j) > SPLIT_LEN && CutPre(a, s, j)
    requires SplitOk(Cut(a, s, j), s, j, r1) && SplitOk(r1.0, s, j + |r1.1|, r2)
    ensures SplitOk(a, s, j, (r2.0, r1.1 + r2.1))
  {
    hide Wf, Cut, PayloadsKept, CellsKept, SplitPieces;
    var x := a.strings[s][j];
    CutWf(a, s, j);
    var a1 := Cut(a, s, j);
    assert a1.strings[s][j] == x && a1.strings[s][j + 1] == a.nextNode;
    HalvesStrings1(a1.strings, s, j, a.nextNode, r1.1, r1.0.strings);
    HalvesStrings2(a1.strings, s, j, j + |r1.1|, r1.1, r2.1, r1.0.strings, r2.0.strings);
    CutStrings(a.strings, s, j, a.nextNode, r1.1 + r2.1, r2.0.strings);
    HalvesPayloadsKept(a1.nodes, r1.0.nodes, r2.0.nodes, x, a.nextNode);
    CutPayloadsKept(a.nodes, a1.nodes, r2.0.nodes, x, a.nextNode);
    CellsKeptTrans(a.nodes, a.strings, a1.nodes, a1.strings, r1.0.nodes, r1.0.strings);
    CellsKeptTrans(a.nodes, a.strings, r1.0.nodes, r1.0.strings, r2.0.nodes, r2.0.strings);
    HalvesLength(a1.nodes, r1.0.nodes, x, a.nextNode);
    assert PieceFloor(LengthAt(a1, s, j)) == PieceFloor(LengthAt(r1.0, s, j + |r1.1|)) == PieceFloor(LengthAt(a, s, j));
    SplitPiecesAppend(r1.0.nodes, r2.0.nodes, r1.1, r2.1, x, r1.1[|r1.1| - 1], a.nextNode, r2.1[|r2.1| - 1],
                      r1.0.nextNode, r2.0.nextNode, PieceFloor(LengthAt(a, s, j)));
    assert (r1.1 + r2.1)[|r1.1 + r2.1| - 1] == r2.1[|r2.1| - 1];
  }

  /** What `SplitOk` says of the pieces' number. */
  lemma SplitOkPieces(a: Arena, s: NodeId, j: nat, r: (Arena, seq<NodeId>))
    requires SplitOk(a, s, j, r)
    ensures |r.1| >= 1
  {
  }

  /** One step of `SplitAll`: what it is for a short segment, and for a long one in terms of its halves. */
  lemma SplitAllUnfold(a: Arena, s: NodeId, j: nat)
    requires At(a, s, j)
    ensures LengthAt(a, s, j) <= SPLIT_LEN ==> SplitAll(a, s, j) == (a, [a.strings[s][j]])
    ensures LengthAt(a, s, j) > SPLIT_LEN ==>
              && CutPre(a, s, j) && At(Cut(a, s, j), s, j) && Cut(a, s, j).strings[s][j] == a.strings[s][j]
              && LengthAt(Cut(a, s, j), s, j) < LengthAt(a, s, j)
              && var r1 := SplitAll(Cut(a, s, j), s, j);
                 && At(r1.0, s, j + |r1.1|) && r1.0.strings[s][j + |r1.1|] == a.nextNode
                 && LengthAt(r1.0, s, j + |r1.1|) < LengthAt(a, s, j)
                 && var r2 := SplitAll(r1.0, s, j + |r1.1|);
                    |r2.1| >= 1 && SplitAll(a, s, j) == (r2.0, r1.1 + r2.1)
  {
    hide Wf, Cut, CutPre, SplitOk, PayloadsKept, CellsKept, SplitPieces;
    if LengthAt(a, s, j) > SPLIT_LEN {
      SplitAllCut(a, s, j);
      var r1 := SplitAll(Cut(a, s, j), s, j);
      SplitAllRight(a, s, j, r1);
      SplitOkPieces(r1.0, s, j + |r1.1|, SplitAll(r1.0, s, j + |r1.1|));
    }
  }
}
