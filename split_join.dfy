/**
 * The payload moves of `consider_split` and `consider_join` (src/tree.rs, src/tree/sequence.rs)
 * on values. A split cuts a segment's `contents` and `ids` in two and moves the second half
 * into a freshly linked empty neighbour; a join unlinks the right neighbour and appends its
 * payload to the left one. Both remap the moved ids to their new segment. The lemmas state
 * that each keeps the tree invariant and leaves every string's elements as they were.
 */
module SplitJoin {
  import opened Common
  import opened Segments
  import opened TreeNodes
  import opened TreeEdits
  import opened RingEdits

  /** Segment `node` with its payload replaced and its links and parent kept. */
  function WithPayload(node: Node, c: seq<char>, ids: seq<Entry>): Node
    requires node.data.StringSegment?
  {
    Node(StringSegment(node.data.prev, node.data.next, c, ids), node.parent)
  }

  /**
   * `id_to_node` after `self.id_to_node[id] = target` for every entry of `ids`, in order.
   * `RemappedAt` states what it holds.
   */
  function Remapped(m: map<Id, NodeId>, ids: seq<Entry>, target: NodeId): map<Id, NodeId>
  {
    if ids == [] then m
    else Remapped(m, ids[..|ids| - 1], target)[ids[|ids| - 1].id := target]
  }

  /** `id_to_node[id] = target` for each entry of `ids`, in order. */
  method RemapIds(idToNode: map<Id, NodeId>, ids: seq<Entry>, target: NodeId) returns (m: map<Id, NodeId>)
    ensures m == Remapped(idToNode, ids, target)
  {
    m := idToNode;
    for i := 0 to |ids|
      invariant m == Remapped(idToNode, ids[..i], target)
    {
      assert ids[..i + 1][..i] == ids[..i];
      m := m[ids[i].id := target];
    }
    assert ids[..|ids|] == ids;
  }

  /** After the remapping, the ids of `ids` name `target` and every other mapping is kept. */
  lemma {:induction false} RemappedAt(m: map<Id, NodeId>, ids: seq<Entry>, target: NodeId)
    decreases |ids|
    ensures var r := Remapped(m, ids, target);
            && r.Keys == m.Keys + IdsOf(ids)
            && (forall id :: id in IdsOf(ids) ==> r[id] == target)
            && (forall id :: id in m && id !in IdsOf(ids) ==> r[id] == m[id])
  {
    if ids != [] {
      RemappedAt(m, ids[..|ids| - 1], target);
      assert IdsOf(ids) == IdsOf(ids[..|ids| - 1]) + {ids[|ids| - 1].id} by {
        assert ids == ids[..|ids| - 1] + [ids[|ids| - 1]];
      }
    }
  }

  /** Remapping ids that are all mapped already keeps the key set. */
  lemma RemappedKeys(m: map<Id, NodeId>, ids: seq<Entry>, target: NodeId)
    requires forall k :: 0 <= k < |ids| ==> ids[k].id in m
    ensures Remapped(m, ids, target).Keys == m.Keys
  {
    RemappedAt(m, ids, target);
    forall id | id in IdsOf(ids)
      ensures id in m
    {
      IdsOfAt(ids, id);
    }
  }

  lemma DistinctAppend(a: seq<Entry>, b: seq<Entry>)
    requires DistinctIds(a) && DistinctIds(b) && IdsOf(a) !! IdsOf(b)
    ensures DistinctIds(a + b)
  {
    forall i, j | 0 <= i < j < |a + b|
      ensures (a + b)[i].id != (a + b)[j].id
    {
      if i < |a| && j >= |a| {
        assert a[i] in a && b[j - |a|] in b;
        assert a[i].id in IdsOf(a) && b[j - |a|].id in IdsOf(b);
      } else if i >= |a| {
        assert (a + b)[i] == b[i - |a|] && (a + b)[j] == b[j - |a|];
      }
    }
  }

  lemma IdsOfAppend(a: seq<Entry>, b: seq<Entry>)
    ensures IdsOf(a + b) == IdsOf(a) + IdsOf(b)
  {
    forall id | id in IdsOf(a + b)
      ensures id in IdsOf(a) + IdsOf(b)
    {
      var e :| e in a + b && e.id == id;
    }
  }

  /** Rebasing offsets keeps the ids, hence their set and their distinctness. */
  lemma ShiftedIds(ids: seq<Entry>, from: nat, delta: int)
    requires CanShift(ids, from, delta)
    ensures IdsOf(Shifted(ids, from, delta)) == IdsOf(ids)
    ensures DistinctIds(ids) ==> DistinctIds(Shifted(ids, from, delta))
  {
    var r := Shifted(ids, from, delta);
    ShiftedShape(ids, from, delta);
    forall id | id in IdsOf(r)
      ensures id in IdsOf(ids)
    {
      IdsOfAt(r, id);
      var k :| 0 <= k < |r| && r[k].id == id;
      assert ids[k] in ids;
    }
    forall id | id in IdsOf(ids)
      ensures id in IdsOf(r)
    {
      IdsOfAt(ids, id);
      var k :| 0 <= k < |ids| && ids[k].id == id;
      assert r[k] in r;
    }
  }

  /** The two halves of a split hold distinct, disjoint ids that together are the original. */
  lemma SplitIds(ids: seq<Entry>, m: nat, delta: int)
    requires m <= |ids| && DistinctIds(ids) && CanShift(ids[m..], 0, delta)
    ensures DistinctIds(ids[..m]) && DistinctIds(Shifted(ids[m..], 0, delta))
    ensures IdsOf(ids[..m]) !! IdsOf(Shifted(ids[m..], 0, delta))
    ensures IdsOf(ids[..m]) + IdsOf(Shifted(ids[m..], 0, delta)) == IdsOf(ids)
  {
    ShiftedIds(ids[m..], 0, delta);
    assert ids == ids[..m] + ids[m..];
    IdsOfAppend(ids[..m], ids[m..]);
    assert IdsOf(ids[..m]) !! IdsOf(ids[m..]);
  }

  // ---------------------------------------------------------------------------------------
  // Elements around two neighbouring segments

  lemma ElementsPair(nodes: Nodes, a: NodeId, b: NodeId)
    ensures Elements(nodes, [a, b]) == Payload(nodes, a) + Payload(nodes, b)
  {
    assert [a, b][..1] == [a];
    assert [a][..0] == [];
    assert Elements(nodes, [a]) == Payload(nodes, a);
  }

  /** When only segments `ss[j]` and `ss[j + 1]` change, only their part of the elements does. */
  lemma ElementsChange2(nodes: Nodes, nodes': Nodes, ss: seq<NodeId>, j: nat)
    requires j + 1 < |ss|
    requires forall k :: 0 <= k < |ss| && k != j && k != j + 1 ==> Payload(nodes', ss[k]) == Payload(nodes, ss[k])
    ensures Elements(nodes', ss) ==
      Elements(nodes, ss[..j]) + Payload(nodes', ss[j]) + Payload(nodes', ss[j + 1]) + Elements(nodes, ss[j + 2..])
  {
    var pre, post := ss[..j], ss[j + 2..];
    assert Elements(nodes', pre) == Elements(nodes, pre) by {
      forall k | 0 <= k < |pre|
        ensures Payload(nodes', pre[k]) == Payload(nodes, pre[k])
      {
        assert pre[k] == ss[k];
      }
      ElementsFrame(nodes, nodes', pre);
    }
    assert Elements(nodes', post) == Elements(nodes, post) by {
      forall k | 0 <= k < |post|
        ensures Payload(nodes', post[k]) == Payload(nodes, post[k])
      {
        assert post[k] == ss[j + 2 + k];
      }
      ElementsFrame(nodes, nodes', post);
    }
    assert Elements(nodes', ss) == Elements(nodes', pre) + (Payload(nodes', ss[j]) + Payload(nodes', ss[j + 1])) + Elements(nodes', post) by {
      assert ss == pre + [ss[j], ss[j + 1]] + post;
      ElementsAppend(nodes', pre + [ss[j], ss[j + 1]], post);
      ElementsAppend(nodes', pre, [ss[j], ss[j + 1]]);
      ElementsPair(nodes', ss[j], ss[j + 1]);
    }
  }

  /**
   * Dropping segment `ss[j]` from the list while its predecessor takes over its elements
   * leaves the elements of the list as they were.
   */
  lemma ElementsJoin(nodes: Nodes, nodes': Nodes, ss: seq<NodeId>, j: nat)
    requires 1 <= j < |ss|
    requires forall k :: 0 <= k < |ss| && k != j - 1 && k != j ==> Payload(nodes', ss[k]) == Payload(nodes, ss[k])
    requires Payload(nodes', ss[j - 1]) == Payload(nodes, ss[j - 1]) + Payload(nodes, ss[j])
    ensures Elements(nodes', RemoveAt(ss, j)) == Elements(nodes, ss)
  {
    var pre, post := ss[..j - 1], ss[j + 1..];
    var ss' := RemoveAt(ss, j);
    assert Elements(nodes', ss') == Elements(nodes', pre) + Payload(nodes', ss[j - 1]) + Elements(nodes', post) by {
      assert ss'[..j - 1] == pre && ss'[j - 1] == ss[j - 1] && ss'[j..] == post;
      ElementsSplice(nodes', ss', j - 1);
    }
    ElementsFrameSlice(nodes, nodes', ss, 0, j - 1);
    ElementsFrameSlice(nodes, nodes', ss, j + 1, |ss|);
    assert ss[0..j - 1] == pre && ss[j + 1..|ss|] == post;
    ElementsChange2(nodes, nodes, ss, j - 1);
    Regroup(Elements(nodes, ss), Elements(nodes', ss'), Elements(nodes, pre),
            Payload(nodes, ss[j - 1]), Payload(nodes, ss[j]), Payload(nodes', ss[j - 1]), Elements(nodes, post));
  }

  /** Segments `ss[lo..hi]` whose elements did not change have the same elements. */
  lemma ElementsFrameSlice(nodes: Nodes, nodes': Nodes, ss: seq<NodeId>, lo: nat, hi: nat)
    requires lo <= hi <= |ss|
    requires forall k :: lo <= k < hi ==> Payload(nodes', ss[k]) == Payload(nodes, ss[k])
    ensures Elements(nodes', ss[lo..hi]) == Elements(nodes, ss[lo..hi])
  {
    var part := ss[lo..hi];
    forall k | 0 <= k < |part|
      ensures Payload(nodes', part[k]) == Payload(nodes, part[k])
    {
      assert part[k] == ss[lo + k];
    }
    ElementsFrame(nodes, nodes', part);
  }

  /** `a + p + q + b` regrouped, with `r` standing for `p + q` and an empty `z` dropped. */
  lemma RegroupEmpty<E>(e: seq<E>, e': seq<E>, a: seq<E>, p: seq<E>, q: seq<E>, r: seq<E>, z: seq<E>, b: seq<E>)
    requires e == a + p + q + b && e' == a + r + z + b && r == p + q && z == []
    ensures e' == e
  {
    assert a + r + z == a + r;
  }

  /** `a + p + q + b` regrouped, with `r` standing for `p + q`. */
  lemma Regroup<E>(e: seq<E>, e': seq<E>, a: seq<E>, p: seq<E>, q: seq<E>, r: seq<E>, b: seq<E>)
    requires e == a + p + q + b && e' == a + r + b && r == p + q
    ensures e' == e
  {
  }

  // ---------------------------------------------------------------------------------------
  // Split: the second half of `x` moves into its empty successor `y`

  /** The facts about a split's halves that the invariant needs. */
  ghost predicate SplitHalves(nodes: Nodes, x: NodeId, c1: seq<char>, i1: seq<Entry>, c2: seq<char>, i2: seq<Entry>)
    requires IsSegment(nodes, x)
  {
    && OffsetsOk(c1, i1) && OffsetsOk(c2, i2)
    && DistinctIds(i1) && DistinctIds(i2) && IdsOf(i1) !! IdsOf(i2)
    && IdsOf(i1) + IdsOf(i2) == IdsOf(nodes[x].data.ids)
  }

  lemma SplitSegmentsOk(nodes: Nodes, nodes': Nodes, idToNode: map<Id, NodeId>, idToNode': map<Id, NodeId>, x: NodeId, y: NodeId,
                        c1: seq<char>, i1: seq<Entry>, c2: seq<char>, i2: seq<Entry>)
    requires forall m :: IsSegment(nodes, m) ==> SegmentOk(nodes, idToNode, m)
    requires IsSegment(nodes, x) && IsSegment(nodes, y) && x != y && SplitHalves(nodes, x, c1, i1, c2, i2)
    requires nodes' == nodes[x := WithPayload(nodes[x], c1, i1)][y := WithPayload(nodes[y], c2, i2)]
    requires idToNode' == Remapped(idToNode, i2, y)
    ensures forall m :: IsSegment(nodes', m) ==> SegmentOk(nodes', idToNode', m)
  {
    RemappedAt(idToNode, i2, y);
    assert SegmentOk(nodes, idToNode, x);
    forall k | 0 <= k < |i1|
      ensures i1[k].id in idToNode' && idToNode'[i1[k].id] == x
    {
      assert i1[k] in i1;
      IdsOfAt(nodes[x].data.ids, i1[k].id);
    }
    forall k | 0 <= k < |i2|
      ensures i2[k].id in idToNode' && idToNode'[i2[k].id] == y
    {
      assert i2[k] in i2;
    }
    forall m | IsSegment(nodes', m) && m != x && m != y
      ensures SegmentOk(nodes', idToNode', m)
    {
      assert SegmentOk(nodes, idToNode, m);
      forall k | 0 <= k < |nodes[m].data.ids|
        ensures nodes[m].data.ids[k].id !in IdsOf(i2)
      {
        var id := nodes[m].data.ids[k].id;
        if id in IdsOf(i2) {
          IdsOfAt(nodes[x].data.ids, id);
        }
      }
    }
  }

  lemma SplitIdsOk(nodes: Nodes, nodes': Nodes, idToNode: map<Id, NodeId>, idToNode': map<Id, NodeId>, nextNode: NodeId,
                   x: NodeId, y: NodeId, c1: seq<char>, i1: seq<Entry>, c2: seq<char>, i2: seq<Entry>)
    requires forall id :: id in idToNode ==> IdOk(nodes, idToNode, nextNode, id)
    requires IsSegment(nodes, x) && IsSegment(nodes, y) && x != y && y < nextNode && nodes[y].data.ids == []
    requires SplitHalves(nodes, x, c1, i1, c2, i2)
    requires nodes' == nodes[x := WithPayload(nodes[x], c1, i1)][y := WithPayload(nodes[y], c2, i2)]
    requires idToNode' == Remapped(idToNode, i2, y)
    ensures forall id :: id in idToNode' ==> IdOk(nodes', idToNode', nextNode, id)
  {
    RemappedAt(idToNode, i2, y);
    forall id | id in idToNode'
      ensures IdOk(nodes', idToNode', nextNode, id)
    {
      if id !in IdsOf(i2) {
        assert IdOk(nodes, idToNode, nextNode, id);
      }
    }
  }

  /**
   * The last step of `consider_split` keeps the invariant: segment `ss[j]` keeps the first
   * half of its payload, its new empty successor `ss[j + 1]` receives the rebased second half,
   * and the moved ids are remapped to it. Provided the halves stand for the cells of the
   * original segment, no string's elements change.
   */
  lemma SplitPayloadWf(nodes: Nodes, idToNode: map<Id, NodeId>, nextNode: NodeId, strings: Strings, s: NodeId, j: nat,
                       c1: seq<char>, i1: seq<Entry>, c2: seq<char>, i2: seq<Entry>, nodes': Nodes, idToNode': map<Id, NodeId>)
    requires Wf(nodes, idToNode, nextNode, strings) && s in strings && j + 1 < |strings[s]|
    requires IsSegment(nodes, strings[s][j]) && IsSegment(nodes, strings[s][j + 1])
    requires nodes[strings[s][j + 1]].data.ids == [] && nodes[strings[s][j + 1]].data.contents == []
    requires SplitHalves(nodes, strings[s][j], c1, i1, c2, i2)
    requires View(c1, i1) + View(c2, i2) == Payload(nodes, strings[s][j])
    requires nodes' == nodes[strings[s][j] := WithPayload(nodes[strings[s][j]], c1, i1)]
                            [strings[s][j + 1] := WithPayload(nodes[strings[s][j + 1]], c2, i2)]
    requires idToNode' == Remapped(idToNode, i2, strings[s][j + 1])
    ensures Wf(nodes', idToNode', nextNode, strings)
    ensures CellsKept(nodes, strings, nodes', strings)
  {
    var ss := strings[s];
    var x, y := ss[j], ss[j + 1];
    assert Ring(nodes, s, ss) && Distinct(ss);
    SplitSegmentsOk(nodes, nodes', idToNode, idToNode', x, y, c1, i1, c2, i2);
    SplitIdsOk(nodes, nodes', idToNode, idToNode', nextNode, x, y, c1, i1, c2, i2);
    PayloadsShape(nodes, nodes', x, y, c1, i1, c2, i2);
    ShapeWf(nodes, nodes', idToNode, idToNode', nextNode, strings);
    SplitElements(nodes, nodes', strings, s, j, c1, i1, c2, i2);
  }

  /**
   * One step of `consider_split` on segment `x = ss[j]`, cut before list index `m`: a new
   * empty segment `nn` (the counter's value) is linked in after `x`, `x` keeps the first `m`
   * entries and the characters before the cut, `nn` takes the rest with offsets rebased, and
   * the moved ids name `nn`. The result is a well-formed tree in which `nn` is segment
   * `j + 1` of the string and no string's elements have changed.
   */
  lemma SplitStepWf(nodes: Nodes, idToNode: map<Id, NodeId>, nextNode: NodeId, strings: Strings, s: NodeId, j: nat,
                    c: seq<char>, ids: seq<Entry>, m: nat, sst: nat, nodes1: Nodes, nodes': Nodes, idToNode': map<Id, NodeId>)
    requires Wf(nodes, idToNode, nextNode, strings) && s in strings && j < |strings[s]|
    requires IsSegment(nodes, strings[s][j]) && nodes[strings[s][j]].data.contents == c && nodes[strings[s][j]].data.ids == ids
    requires m <= |ids| && sst == LiveCount(ids[..m])
    requires Insertable(nodes, strings[s][j]) && nodes1 == SegmentInserted(nodes, strings[s][j], nextNode)
    requires sst <= |c| && CanShift(ids[m..], 0, -(sst as int))
    requires nodes' == nodes1[strings[s][j] := WithPayload(nodes1[strings[s][j]], c[..sst], ids[..m])]
                             [nextNode := WithPayload(nodes1[nextNode], c[sst..], Shifted(ids[m..], 0, -(sst as int)))]
    requires idToNode' == Remapped(idToNode, Shifted(ids[m..], 0, -(sst as int)), nextNode)
    ensures Wf(nodes', idToNode', nextNode + 1, strings[s := InsertAt(strings[s], j + 1, nextNode)])
    ensures CellsKept(nodes, strings, nodes', strings[s := InsertAt(strings[s], j + 1, nextNode)])
    ensures PayloadsKept(nodes - {strings[s][j]}, nodes')
    ensures IsSegment(nodes', strings[s][j]) && nodes'[strings[s][j]].data.ids == ids[..m]
    ensures IsSegment(nodes', nextNode) && nodes'[nextNode].data.ids == Shifted(ids[m..], 0, -(sst as int))
  {
    var x := strings[s][j];
    var strings1 := strings[s := InsertAt(strings[s], j + 1, nextNode)];
    assert SegmentOk(nodes, idToNode, x);
    InsertSegmentWf(nodes, idToNode, nextNode, strings, s, j + 1, nodes1);
    InsertedPayloads(nodes, nextNode, strings, s, j + 1, nodes1);
    assert strings1[s][j] == x && strings1[s][j + 1] == nextNode;
    SplitHalvesOf(nodes1, x, c, ids, m, sst);
    SplitPayloadWf(nodes1, idToNode, nextNode + 1, strings1, s, j, c[..sst], ids[..m], c[sst..], Shifted(ids[m..], 0, -(sst as int)), nodes', idToNode');
    CellsKeptTrans(nodes, strings, nodes1, strings1, nodes', strings1);
    assert nextNode !in nodes;
    UpdatedPayloadsKept(nodes, nodes1, nodes', x, nextNode, WithPayload(nodes1[x], c[..sst], ids[..m]),
                        WithPayload(nodes1[nextNode], c[sst..], Shifted(ids[m..], 0, -(sst as int))));
  }

  /** Rewriting the payloads of `x` and of the new node `y` leaves every other segment's payload. */
  lemma UpdatedPayloadsKept(nodes: Nodes, nodes1: Nodes, nodes': Nodes, x: NodeId, y: NodeId, p: Node, q: Node)
    requires y !in nodes && PayloadsKept(nodes, nodes1) && nodes' == nodes1[x := p][y := q]
    ensures PayloadsKept(nodes - {x}, nodes')
  {
    forall n | IsSegment(nodes - {x}, n)
      ensures IsSegment(nodes', n) && nodes'[n].data.contents == nodes[n].data.contents && nodes'[n].data.ids == nodes[n].data.ids
    {
      assert IsSegment(nodes, n) && n != x && n != y;
    }
  }

  /** The halves of a cut segment satisfy what `SplitPayloadWf` asks of them. */
  lemma SplitHalvesOf(nodes: Nodes, x: NodeId, c: seq<char>, ids: seq<Entry>, m: nat, sst: nat)
    requires IsSegment(nodes, x) && nodes[x].data.contents == c && nodes[x].data.ids == ids
    requires OffsetsOk(c, ids) && DistinctIds(ids) && m <= |ids| && sst == LiveCount(ids[..m])
    ensures sst <= |c| && CanShift(ids[m..], 0, -(sst as int))
    ensures SplitHalves(nodes, x, c[..sst], ids[..m], c[sst..], Shifted(ids[m..], 0, -(sst as int)))
    ensures View(c[..sst], ids[..m]) + View(c[sst..], Shifted(ids[m..], 0, -(sst as int))) == Payload(nodes, x)
  {
    SplitKeepsOffsets(c, ids, m, sst);
    SplitIds(ids, m, -(sst as int));
  }

  /**
   * The cut `consider_split` makes in a segment's payload: the entries from list index
   * `|ids| / 2` on move to the new segment, and `sst`, the offset of the first live entry at
   * or after that index (or the length of `contents` when there is none), is the number of
   * characters that stay; the moved entries have their offsets rebased by it.
   */
  method CutPayload(contents: seq<char>, ids: seq<Entry>) returns (sst: nat, moved: seq<Entry>)
    requires OffsetsOk(contents, ids)
    ensures sst == LiveCount(ids[..|ids| / 2]) && sst <= |contents|
    ensures CanShift(ids[|ids| / 2..], 0, -(sst as int)) && moved == Shifted(ids[|ids| / 2..], 0, -(sst as int))
  {
    var m := |ids| / 2;
    sst := FindNextOffset(ids, m, |contents|);
    NextOffsetIsLiveCount(contents, ids, m);
    SplitKeepsOffsets(contents, ids, m, sst);
    moved := ShiftOffsets(ids[m..], 0, -(sst as int));
  }

  lemma CellsKeptTrans(n0: Nodes, s0: Strings, n1: Nodes, s1: Strings, n2: Nodes, s2: Strings)
    requires CellsKept(n0, s0, n1, s1) && CellsKept(n1, s1, n2, s2)
    ensures CellsKept(n0, s0, n2, s2)
  {
    forall t | t in s0
      ensures t in s2 && Elements(n2, s2[t]) == Elements(n0, s0[t])
    {
      assert t in s1;
    }
  }

  lemma PayloadsShape(nodes: Nodes, nodes': Nodes, x: NodeId, y: NodeId, c1: seq<char>, i1: seq<Entry>, c2: seq<char>, i2: seq<Entry>)
    requires IsSegment(nodes, x) && IsSegment(nodes, y)
    requires nodes' == nodes[x := WithPayload(nodes[x], c1, i1)][y := WithPayload(nodes[y], c2, i2)]
    ensures SameShape(nodes, nodes')
  {
  }

  lemma SplitElements(nodes: Nodes, nodes': Nodes, strings: Strings, s: NodeId, j: nat,
                      c1: seq<char>, i1: seq<Entry>, c2: seq<char>, i2: seq<Entry>)
    requires Rings(nodes, strings) && s in strings && j + 1 < |strings[s]|
    requires IsSegment(nodes, strings[s][j]) && IsSegment(nodes, strings[s][j + 1])
    requires nodes[strings[s][j + 1]].data.ids == []
    requires View(c1, i1) + View(c2, i2) == Payload(nodes, strings[s][j])
    requires nodes' == nodes[strings[s][j] := WithPayload(nodes[strings[s][j]], c1, i1)]
                            [strings[s][j + 1] := WithPayload(nodes[strings[s][j + 1]], c2, i2)]
    ensures forall t :: t in strings ==> Elements(nodes', strings[t]) == Elements(nodes, strings[t])
  {
    var ss := strings[s];
    assert Ring(nodes, s, ss) && Distinct(ss);
    assert Linked(nodes, s, ss, 0);
    hide Rings, Ring, Linked;
    forall k | 0 <= k < |ss| && k != j && k != j + 1
      ensures Payload(nodes', ss[k]) == Payload(nodes, ss[k])
    {
    }
    ElementsChange2(nodes, nodes', ss, j);
    ElementsChange2(nodes, nodes, ss, j);
    assert Payload(nodes, ss[j + 1]) == [];
    assert Payload(nodes', ss[j]) + Payload(nodes', ss[j + 1]) == Payload(nodes, ss[j]);
    RegroupEmpty(Elements(nodes', ss), Elements(nodes, ss), Elements(nodes, ss[..j]),
                 Payload(nodes', ss[j]), Payload(nodes', ss[j + 1]), Payload(nodes, ss[j]), Payload(nodes, ss[j + 1]),
                 Elements(nodes, ss[j + 2..]));
    OthersFrame(nodes, nodes', strings, s);
  }

  // ---------------------------------------------------------------------------------------
  // Join: segment `x` absorbs the payload of a segment already unlinked

  lemma JoinSegmentsOk(nodes: Nodes, nodes': Nodes, idToNode: map<Id, NodeId>, idToNode': map<Id, NodeId>, x: NodeId,
                       c': seq<char>, ids': seq<Entry>, moved: seq<Entry>)
    requires forall m :: IsSegment(nodes, m) ==> SegmentOk(nodes, idToNode, m)
    requires IsSegment(nodes, x) && OffsetsOk(c', ids') && DistinctIds(ids')
    requires IdsOf(ids') == IdsOf(nodes[x].data.ids) + IdsOf(moved)
    requires forall k :: 0 <= k < |moved| ==> moved[k].id in idToNode && !IsSegment(nodes, idToNode[moved[k].id])
    requires nodes' == nodes[x := WithPayload(nodes[x], c', ids')]
    requires idToNode' == Remapped(idToNode, moved, x)
    ensures forall m :: IsSegment(nodes', m) ==> SegmentOk(nodes', idToNode', m)
  {
    RemappedAt(idToNode, moved, x);
    assert SegmentOk(nodes, idToNode, x);
    forall k | 0 <= k < |ids'|
      ensures ids'[k].id in idToNode' && idToNode'[ids'[k].id] == x
    {
      assert ids'[k] in ids';
      if ids'[k].id !in IdsOf(moved) {
        IdsOfAt(nodes[x].data.ids, ids'[k].id);
      }
    }
    forall m | IsSegment(nodes', m) && m != x
      ensures SegmentOk(nodes', idToNode', m)
    {
      assert SegmentOk(nodes, idToNode, m);
      forall k | 0 <= k < |nodes[m].data.ids|
        ensures nodes[m].data.ids[k].id !in IdsOf(moved)
      {
        var id := nodes[m].data.ids[k].id;
        if id in IdsOf(moved) {
          IdsOfAt(moved, id);
        }
      }
    }
  }

  lemma JoinIdsOk(nodes: Nodes, nodes': Nodes, idToNode: map<Id, NodeId>, idToNode': map<Id, NodeId>, nextNode: NodeId, x: NodeId,
                  c': seq<char>, ids': seq<Entry>, moved: seq<Entry>)
    requires forall id :: id in idToNode ==> IdOk(nodes, idToNode, nextNode, id)
    requires IsSegment(nodes, x) && x < nextNode
    requires IdsOf(ids') == IdsOf(nodes[x].data.ids) + IdsOf(moved)
    requires nodes' == nodes[x := WithPayload(nodes[x], c', ids')]
    requires idToNode' == Remapped(idToNode, moved, x)
    ensures forall id :: id in idToNode' ==> IdOk(nodes', idToNode', nextNode, id)
  {
    RemappedAt(idToNode, moved, x);
    forall id | id in idToNode'
      ensures IdOk(nodes', idToNode', nextNode, id)
    {
      if id !in IdsOf(moved) {
        assert IdOk(nodes, idToNode, nextNode, id);
      }
    }
  }

  /**
   * The last step of `consider_join` keeps the invariant: segment `ss[j]` takes the joined
   * payload, which holds its own ids and the moved ones, and the moved ids (left mapped to
   * the unlinked neighbour, which is no segment any more) are remapped to it.
   */
  lemma JoinPayloadWf(nodes: Nodes, idToNode: map<Id, NodeId>, nextNode: NodeId, strings: Strings, s: NodeId, j: nat,
                      c': seq<char>, ids': seq<Entry>, moved: seq<Entry>, nodes': Nodes, idToNode': map<Id, NodeId>)
    requires Wf(nodes, idToNode, nextNode, strings) && s in strings && j < |strings[s]|
    requires IsSegment(nodes, strings[s][j]) && OffsetsOk(c', ids') && DistinctIds(ids')
    requires IdsOf(ids') == IdsOf(nodes[strings[s][j]].data.ids) + IdsOf(moved)
    requires forall k :: 0 <= k < |moved| ==> moved[k].id in idToNode && !IsSegment(nodes, idToNode[moved[k].id])
    requires nodes' == nodes[strings[s][j] := WithPayload(nodes[strings[s][j]], c', ids')]
    requires idToNode' == Remapped(idToNode, moved, strings[s][j])
    ensures Wf(nodes', idToNode', nextNode, strings)
  {
    var x := strings[s][j];
    assert x in nodes;
    JoinSegmentsOk(nodes, nodes', idToNode, idToNode', x, c', ids', moved);
    JoinIdsOk(nodes, nodes', idToNode, idToNode', nextNode, x, c', ids', moved);
    assert SameShape(nodes, nodes');
    ShapeWf(nodes, nodes', idToNode, idToNode', nextNode, strings);
  }

  /** The joined payload of two segments of a well-formed tree is well formed. */
  lemma JoinedPayload(nodes: Nodes, idToNode: map<Id, NodeId>, l: NodeId, r: NodeId)
    requires IsSegment(nodes, l) && IsSegment(nodes, r) && l != r
    requires SegmentOk(nodes, idToNode, l) && SegmentOk(nodes, idToNode, r)
    ensures CanShift(nodes[r].data.ids, 0, |nodes[l].data.contents|)
    ensures OffsetsOk(nodes[l].data.contents + nodes[r].data.contents,
                      nodes[l].data.ids + Shifted(nodes[r].data.ids, 0, |nodes[l].data.contents|))
    ensures DistinctIds(nodes[l].data.ids + Shifted(nodes[r].data.ids, 0, |nodes[l].data.contents|))
    ensures IdsOf(nodes[l].data.ids + Shifted(nodes[r].data.ids, 0, |nodes[l].data.contents|))
         == IdsOf(nodes[l].data.ids) + IdsOf(nodes[r].data.ids)
    ensures View(nodes[l].data.contents + nodes[r].data.contents,
                 nodes[l].data.ids + Shifted(nodes[r].data.ids, 0, |nodes[l].data.contents|))
         == Payload(nodes, l) + Payload(nodes, r)
  {
    var c1, i1, c2, i2 := nodes[l].data.contents, nodes[l].data.ids, nodes[r].data.contents, nodes[r].data.ids;
    JoinKeepsOffsets(c1, i1, c2, i2);
    var sh := Shifted(i2, 0, |c1|);
    ShiftedIds(i2, 0, |c1|);
    forall id | id in IdsOf(i1) && id in IdsOf(i2)
      ensures false
    {
      IdsOfAt(i1, id);
      IdsOfAt(i2, id);
    }
    DistinctAppend(i1, sh);
    IdsOfAppend(i1, sh);
  }

  /**
   * `consider_join` keeps the invariant: segment `ss[j]` is unlinked, its ids are remapped to
   * its predecessor `ss[j - 1]`, and its payload is appended to the predecessor's with the
   * offsets moved up by the predecessor's content length. The string loses that segment and
   * no string's elements change.
   */
  lemma JoinWf(nodes: Nodes, idToNode: map<Id, NodeId>, nextNode: NodeId, strings: Strings, s: NodeId, j: nat,
               nodes1: Nodes, nodes': Nodes, idToNode': map<Id, NodeId>)
    requires Wf(nodes, idToNode, nextNode, strings) && s in strings && 1 <= j < |strings[s]|
    requires Deletable(nodes, strings[s][j]) && nodes1 == SegmentDeleted(nodes, strings[s][j])
    requires IsSegment(nodes, strings[s][j - 1]) && IsSegment(nodes1, strings[s][j - 1])
    requires nodes' == nodes1[strings[s][j - 1] := WithPayload(nodes1[strings[s][j - 1]],
                        nodes[strings[s][j - 1]].data.contents + nodes[strings[s][j]].data.contents,
                        nodes[strings[s][j - 1]].data.ids + Shifted(nodes[strings[s][j]].data.ids, 0, |nodes[strings[s][j - 1]].data.contents|))]
    requires idToNode' == Remapped(idToNode, nodes[strings[s][j]].data.ids, strings[s][j - 1])
    ensures Wf(nodes', idToNode', nextNode, strings[s := RemoveAt(strings[s], j)])
    ensures Elements(nodes', RemoveAt(strings[s], j)) == Elements(nodes, strings[s])
    ensures OthersKept(nodes, nodes', strings, s)
  {
    var ss := strings[s];
    var l, r := ss[j - 1], ss[j];
    assert Ring(nodes, s, ss) && Distinct(ss);
    assert Linked(nodes, s, ss, j);
    DeletableOfRing(nodes, s, ss, j);
    DeletedShape(nodes, nodes1, s, ss, j);
    DeleteSegmentWf(nodes, idToNode, nextNode, strings, s, j, nodes1);
    var strings1 := strings[s := RemoveAt(ss, j)];
    JoinedPayload(nodes, idToNode, l, r);
    assert SegmentOk(nodes, idToNode, r);
    assert RemoveAt(ss, j)[j - 1] == l;
    JoinPayloadWf(nodes1, idToNode, nextNode, strings1, s, j - 1,
                  nodes[l].data.contents + nodes[r].data.contents,
                  nodes[l].data.ids + Shifted(nodes[r].data.ids, 0, |nodes[l].data.contents|),
                  nodes[r].data.ids, nodes', idToNode');
    UnlinkPayloads(nodes, nodes1, s, ss, r);
    JoinElements(nodes, nodes1, nodes', s, ss, j);
    OthersFrame(nodes, nodes', strings, s);
  }

  lemma UnlinkPayloads(nodes: Nodes, nodes': Nodes, s: NodeId, ss: seq<NodeId>, n: NodeId)
    requires UnlinkOnly(nodes, nodes', s, ss, n)
    ensures forall m :: m in nodes && m != n ==> Payload(nodes', m) == Payload(nodes, m)
  {
  }

  lemma JoinElements(nodes: Nodes, nodes1: Nodes, nodes': Nodes, s: NodeId, ss: seq<NodeId>, j: nat)
    requires Ring(nodes, s, ss) && 1 <= j < |ss|
    requires forall m :: m in nodes && m != ss[j] ==> Payload(nodes1, m) == Payload(nodes, m)
    requires IsSegment(nodes, ss[j - 1]) && IsSegment(nodes, ss[j]) && IsSegment(nodes1, ss[j - 1])
    requires CanShift(nodes[ss[j]].data.ids, 0, |nodes[ss[j - 1]].data.contents|)
    requires nodes' == nodes1[ss[j - 1] := WithPayload(nodes1[ss[j - 1]],
                        nodes[ss[j - 1]].data.contents + nodes[ss[j]].data.contents,
                        nodes[ss[j - 1]].data.ids + Shifted(nodes[ss[j]].data.ids, 0, |nodes[ss[j - 1]].data.contents|))]
    requires View(nodes[ss[j - 1]].data.contents + nodes[ss[j]].data.contents,
                  nodes[ss[j - 1]].data.ids + Shifted(nodes[ss[j]].data.ids, 0, |nodes[ss[j - 1]].data.contents|))
          == Payload(nodes, ss[j - 1]) + Payload(nodes, ss[j])
    ensures Elements(nodes', RemoveAt(ss, j)) == Elements(nodes, ss)
  {
    assert Distinct(ss);
    forall k | 0 <= k < |ss| && k != j - 1 && k != j
      ensures Payload(nodes', ss[k]) == Payload(nodes, ss[k])
    {
      assert Linked(nodes, s, ss, k);
    }
    ElementsJoin(nodes, nodes', ss, j);
  }
}
