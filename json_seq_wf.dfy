/**
 * Why the sequence edits keep a JSON tree well formed. All four change one segment's data and
 * at most two parent links: a collection inserted into an array gains the array as its parent,
 * a collection removed from one becomes a parentless orphan. `SegEditPre` and `SegEditShape`
 * describe such an edit once; `SegEditWf` proves it keeps `Wf`.
 */
module JsonSequenceWf {
  import opened Common
  import opened Segments
  import opened JsonNodes
  import opened JsonOps
  import opened JsonAssign
  import opened JsonSequences

  /** The collections in `es'` are those of `es`, less `p`, plus `c`. */
  ghost predicate ElementsMoved(es: seq<Child>, es': seq<Child>, c: Option<NodeId>, p: Option<NodeId>) {
    forall y: NodeId ::
      Child.Collection(y) in es' <==> (Child.Collection(y) in es && Some(y) != p) || Some(y) == c
  }

  /** No collection sits in two slots. */
  ghost predicate ElementsDistinct(es: seq<Child>) {
    forall i, j :: 0 <= i < j < |es| && es[i].Collection? ==> es[i] != es[j]
  }

  /**
   * An edit of segment `s` to `d'` that `Wf` allows: same kind and links, offsets laid out, the
   * ids of `s` plus at most a fresh `x`, and in an array the collections moved as `c` and `p`
   * say, where `c` may hang from the array and `p` was in the segment.
   */
  ghost predicate SegEditPre(t: Arena, s: NodeId, d': NodeData, x: Option<Id>, c: Option<NodeId>, p: Option<NodeId>) {
    && Wf(t) && s in t.nodes && IsSegment(t.nodes[s].data) && t.nodes[s].parent.Some?
    && var d := t.nodes[s].data;
       && IsSegment(d') && d'.ArraySegment? == d.ArraySegment? && d'.prev == d.prev && d'.next == d.next
       && (d'.StringSegment? ==> OffsetsOk(d'.contents, d'.ids) && c.None? && p.None?)
       && (d'.ArraySegment? ==> && ArrayOffsetsOk(d'.elements, d'.ids) && ElementsDistinct(d'.elements)
                                && ElementsMoved(d.elements, d'.elements, c, p))
       && DistinctIds(d'.ids)
       && (forall id :: Owns(d', id) <==> Owns(d, id) || Some(id) == x)
       && (x.Some? ==> x.value !in t.idToNode)
       && Movable(t, c, t.nodes[s].parent.value)
       && (p.Some? ==> d.ArraySegment? && Child.Collection(p.value) in d.elements)
  }

  /** The tree after the edit: `s` holds `d'`, `x` names `s`, `c` and `p` moved, nothing else changed. */
  ghost predicate SegEditShape(t: Arena, t': Arena, s: NodeId, d': NodeData, x: Option<Id>, c: Option<NodeId>, p: Option<NodeId>)
    requires s in t.nodes
  {
    && t'.nextNode == t.nextNode && t'.root == t.root && t'.nodes.Keys == t.nodes.Keys
    && t'.idToNode == (if x.Some? then t.idToNode[x.value := s] else t.idToNode)
    && t'.orphans == (if c.Some? then t.orphans - {c.value} else t.orphans) + (if p.Some? then {p.value} else {})
    && t'.nodes[s] == Node(d', t.nodes[s].parent)
    && (c.Some? ==> c.value in t.nodes && t'.nodes[c.value] == t.nodes[c.value].(parent := t.nodes[s].parent))
    && (p.Some? ==> p.value in t.nodes && t'.nodes[p.value] == t.nodes[p.value].(parent := None))
    && forall m :: m in t.nodes && m != s && Some(m) != c && Some(m) != p ==> t'.nodes[m] == t.nodes[m]
  }

  /** The facts about the container, the moved collections and the segment the proofs share. */
  lemma SegEditFacts(t: Arena, s: NodeId, d': NodeData, x: Option<Id>, c: Option<NodeId>, p: Option<NodeId>)
    requires SegEditPre(t, s, d', x, c, p)
    ensures var q := t.nodes[s].parent.value;
            && q in t.nodes && q != s && IsContainer(t.nodes[q].data) && !t.nodes[q].data.Object?
            && t.nodes[q].data.start == s && t.nodes[q].data.Array? == t.nodes[s].data.ArraySegment?
            && (c.Some? ==> && c.value in t.nodes && c.value != q && c.value != s && IsContainer(t.nodes[c.value].data)
                            && t.nodes[c.value].parent.None? && c != p
                            && Child.Collection(c.value) !in t.nodes[s].data.elements)
            && (p.Some? ==> Attached(t.nodes, p.value, q) && p.value != q && p.value != s)
  {
    var q := t.nodes[s].parent.value;
    assert NodeOk(t, s);
    assert LayoutOk(t.nodes, s);
    var d := t.nodes[s].data;
    if c.Some? {
      assert Up(t.nodes, Some(q), 0) == Some(q);
      assert NodeOk(t, c.value);
      assert LayoutOk(t.nodes, c.value);
      if d.ArraySegment? {
        assert ElementsOk(t.nodes, d.elements, q);
        forall i | 0 <= i < |d.elements| ensures d.elements[i] != Child.Collection(c.value) {
          if d.elements[i].Collection? {
            assert Attached(t.nodes, d.elements[i].node, q);
          }
        }
      }
    }
    if p.Some? {
      assert ElementsOk(t.nodes, d.elements, q);
      var i :| 0 <= i < |d.elements| && d.elements[i] == Child.Collection(p.value);
      assert Attached(t.nodes, p.value, q);
      assert Up(t.nodes, Some(p.value), 1) == Some(q);
      if p.value == q {
        NotOwnAncestor(t.nodes, q, 1);
      }
    }
  }

  /** The parent of a node the edit leaves alone still holds it, with the same data. */
  lemma SegHeld(t: Arena, t': Arena, s: NodeId, d': NodeData, x: Option<Id>, c: Option<NodeId>, p: Option<NodeId>, m: NodeId)
    requires SegEditPre(t, s, d', x, c, p) && SegEditShape(t, t', s, d', x, c, p)
    requires m in t.nodes && m != s && Some(m) != c && Some(m) != p && t.nodes[m].parent.Some?
    ensures var r := t.nodes[m].parent.value;
            && r in t.nodes && r != s && r in t'.nodes && t'.nodes[r].data == t.nodes[r].data && Holds(t'.nodes, r, m)
  {
    SegEditFacts(t, s, d', x, c, p);
    assert NodeOk(t, m);
    var r := t.nodes[m].parent.value;
    assert Holds(t.nodes, r, m);
    assert t'.nodes[r].data == t.nodes[r].data;
    if t.nodes[r].data.Array? && m != t.nodes[r].data.start {
      var st := t.nodes[r].data.start;
      if st == s {
        assert Child.Collection(m) in d'.elements;
      } else {
        assert Some(st) != c && Some(st) != p by {
          assert t.nodes[st].data.ArraySegment?;
        }
        assert t'.nodes[st] == t.nodes[st];
      }
    }
  }

  /** Collections hanging from a node other than the container still hang from it. */
  lemma SegAttachedKept(t: Arena, t': Arena, s: NodeId, d': NodeData, x: Option<Id>, c: Option<NodeId>, p: Option<NodeId>, m: NodeId)
    requires SegEditPre(t, s, d', x, c, p) && SegEditShape(t, t', s, d', x, c, p)
    requires m != t.nodes[s].parent.value
    ensures forall y :: Attached(t.nodes, y, m) ==> Attached(t'.nodes, y, m)
  {
    SegEditFacts(t, s, d', x, c, p);
    forall y | Attached(t.nodes, y, m) ensures Attached(t'.nodes, y, m) {
      assert y != s && Some(y) != c && Some(y) != p;
    }
  }

  /** The start segment of a container other than the edited one's is untouched. */
  lemma SegStartUntouched(t: Arena, t': Arena, s: NodeId, d': NodeData, x: Option<Id>, c: Option<NodeId>, p: Option<NodeId>, m: NodeId)
    requires SegEditPre(t, s, d', x, c, p) && SegEditShape(t, t', s, d', x, c, p)
    requires m in t.nodes && (t.nodes[m].data.Array? || t.nodes[m].data.String?) && m != t.nodes[s].parent.value
    ensures t.nodes[m].data.start in t.nodes && t'.nodes[t.nodes[m].data.start] == t.nodes[t.nodes[m].data.start]
  {
    SegEditFacts(t, s, d', x, c, p);
    assert NodeOk(t, m);
    assert LayoutOk(t.nodes, m);
    var st := t.nodes[m].data.start;
    assert IsSegment(t.nodes[st].data);
    assert st != s;
    assert Some(st) != c && Some(st) != p;
  }

  /** The edited segment keeps its invariant with its new data. */
  lemma EditedSegmentOk(t: Arena, t': Arena, s: NodeId, d': NodeData, x: Option<Id>, c: Option<NodeId>, p: Option<NodeId>)
    requires SegEditPre(t, s, d', x, c, p) && SegEditShape(t, t', s, d', x, c, p)
    ensures NodeOk(t', s)
  {
    SegEditFacts(t, s, d', x, c, p);
    var q := t.nodes[s].parent.value;
    var d := t.nodes[s].data;
    assert t'.nodes[q] == t.nodes[q];
    if d'.ArraySegment? {
      assert NodeOk(t, s);
      assert ElementsOk(t.nodes, d.elements, q);
      forall i | 0 <= i < |d'.elements| && d'.elements[i].Collection?
        ensures Attached(t'.nodes, d'.elements[i].node, q)
      {
        var y := d'.elements[i].node;
        assert Child.Collection(y) in d'.elements;
        if Some(y) != c {
          assert Child.Collection(y) in d.elements && Some(y) != p;
          var k :| 0 <= k < |d.elements| && d.elements[k] == Child.Collection(y);
          assert Attached(t.nodes, y, q);
          assert y != s;
        }
      }
      assert ChildrenOk(t'.nodes, s);
    }
    assert LayoutOk(t'.nodes, s);
    assert Holds(t'.nodes, q, s);
  }

  /** The container of the segment keeps its invariant. */
  lemma HomeOk(t: Arena, t': Arena, s: NodeId, d': NodeData, x: Option<Id>, c: Option<NodeId>, p: Option<NodeId>)
    requires SegEditPre(t, s, d', x, c, p) && SegEditShape(t, t', s, d', x, c, p)
    ensures NodeOk(t', t.nodes[s].parent.value)
  {
    SegEditFacts(t, s, d', x, c, p);
    var q := t.nodes[s].parent.value;
    assert NodeOk(t, q);
    assert t'.nodes[q] == t.nodes[q];
    assert LayoutOk(t'.nodes, q);
    if t.nodes[q].parent.Some? {
      SegHeld(t, t', s, d', x, c, p, q);
    }
    if IsRoot(t, q) {
      assert x.Some? ==> x.value != t.root;
    }
  }

  /** The collection moved into the array hangs from it and keeps its own contents. */
  lemma MovedInOk(t: Arena, t': Arena, s: NodeId, d': NodeData, x: Option<Id>, c: Option<NodeId>, p: Option<NodeId>)
    requires SegEditPre(t, s, d', x, c, p) && SegEditShape(t, t', s, d', x, c, p) && c.Some?
    ensures NodeOk(t', c.value)
  {
    SegEditFacts(t, s, d', x, c, p);
    var q := t.nodes[s].parent.value;
    var n := c.value;
    assert NodeOk(t, n);
    var d := t.nodes[n].data;
    if d.Array? || d.String? {
      SegStartUntouched(t, t', s, d', x, c, p, n);
    }
    SegAttachedKept(t, t', s, d', x, c, p, n);
    assert Child.Collection(n) in d'.elements;
    assert Holds(t'.nodes, q, n);
  }

  /** The collection removed from the array is a parentless orphan that keeps its contents. */
  lemma MovedOutOk(t: Arena, t': Arena, s: NodeId, d': NodeData, x: Option<Id>, c: Option<NodeId>, p: Option<NodeId>)
    requires SegEditPre(t, s, d', x, c, p) && SegEditShape(t, t', s, d', x, c, p) && p.Some?
    ensures NodeOk(t', p.value)
  {
    SegEditFacts(t, s, d', x, c, p);
    var n := p.value;
    assert NodeOk(t, n);
    var d := t.nodes[n].data;
    if d.Array? || d.String? {
      SegStartUntouched(t, t', s, d', x, c, p, n);
    }
    SegAttachedKept(t, t', s, d', x, c, p, n);
  }

  /** Every other node keeps its invariant. */
  lemma SegOtherOk(t: Arena, t': Arena, s: NodeId, d': NodeData, x: Option<Id>, c: Option<NodeId>, p: Option<NodeId>, m: NodeId)
    requires SegEditPre(t, s, d', x, c, p) && SegEditShape(t, t', s, d', x, c, p)
    requires m in t.nodes && m != s && m != t.nodes[s].parent.value && Some(m) != c && Some(m) != p
    ensures NodeOk(t', m)
  {
    hide Wf;
    SegEditFacts(t, s, d', x, c, p);
    WfNode(t, m);
    var d := t.nodes[m].data;
    if d.Array? || d.String? {
      SegStartUntouched(t, t', s, d', x, c, p, m);
    }
    if t.nodes[m].parent.Some? {
      SegHeld(t, t', s, d', x, c, p, m);
    }
    SegAttachedKept(t, t', s, d', x, c, p, m);
    if d.ArraySegment? {
      assert LayoutOk(t.nodes, m);
      SegAttachedKept(t, t', s, d', x, c, p, t.nodes[m].parent.value);
    }
    if IsRoot(t, m) {
      assert x.Some? ==> x.value != t.root;
    }
    NodeOkKept(t, t', m);
  }

  /** The parent links after the edit are acyclic. */
  lemma SegAcyclic(t: Arena, t': Arena, s: NodeId, d': NodeData, x: Option<Id>, c: Option<NodeId>, p: Option<NodeId>)
    requires SegEditPre(t, s, d', x, c, p) && SegEditShape(t, t', s, d', x, c, p)
    ensures Acyclic(t'.nodes)
  {
    hide Wf, NodeOk;
    SegEditFacts(t, s, d', x, c, p);
    WfAcyclic(t);
    var q := t.nodes[s].parent;
    var nodes1 := if c.Some? then t.nodes[c.value := t.nodes[c.value].(parent := q)] else t.nodes;
    if c.Some? {
      assert Terminates(t.nodes, q);
      RedirectAcyclic(t.nodes, nodes1, c.value, q);
    }
    if p.Some? {
      assert Up(nodes1, None, 0).None?;
      forall j: nat ensures Up(nodes1, None, j) != Some(p.value) {
      }
      RedirectAcyclic(nodes1, t'.nodes, p.value, None);
    } else {
      SameParentsAcyclic(nodes1, t'.nodes);
    }
  }

  /** Every node answers to the same ids as before, and the segment to `x` besides. */
  lemma SegOwns(t: Arena, t': Arena, s: NodeId, d': NodeData, x: Option<Id>, c: Option<NodeId>, p: Option<NodeId>, n: NodeId, id: Id)
    requires SegEditPre(t, s, d', x, c, p) && SegEditShape(t, t', s, d', x, c, p) && n in t.nodes
    ensures Owns(t'.nodes[n].data, id) == (Owns(t.nodes[n].data, id) || (n == s && Some(id) == x))
  {
    if n != s {
      assert t'.nodes[n].data == t.nodes[n].data;
    }
  }

  /** After a segment edit every node keeps its invariant. */
  lemma SegNodesOk(t: Arena, t': Arena, s: NodeId, d': NodeData, x: Option<Id>, c: Option<NodeId>, p: Option<NodeId>)
    requires SegEditPre(t, s, d', x, c, p) && SegEditShape(t, t', s, d', x, c, p)
    ensures forall m :: m in t'.nodes ==> NodeOk(t', m)
  {
    SegEditFacts(t, s, d', x, c, p);
    var q := t.nodes[s].parent.value;
    forall m | m in t'.nodes ensures NodeOk(t', m) {
      if m == s {
        EditedSegmentOk(t, t', s, d', x, c, p);
      } else if m == q {
        HomeOk(t, t', s, d', x, c, p);
      } else if Some(m) == c {
        MovedInOk(t, t', s, d', x, c, p);
      } else if Some(m) == p {
        MovedOutOk(t, t', s, d', x, c, p);
      } else {
        SegOtherOk(t, t', s, d', x, c, p, m);
      }
    }
  }

  /** After a segment edit the id map and the ids the nodes answer to still agree. */
  lemma SegIdsOk(t: Arena, t': Arena, s: NodeId, d': NodeData, x: Option<Id>, c: Option<NodeId>, p: Option<NodeId>)
    requires SegEditPre(t, s, d', x, c, p) && SegEditShape(t, t', s, d', x, c, p)
    ensures IdsMapped(t') && IdsOwned(t')
  {
    hide NodeOk;
    forall n, id | n in t'.nodes && Owns(t'.nodes[n].data, id) ensures id in t'.idToNode && t'.idToNode[id] == n {
      SegOwns(t, t', s, d', x, c, p, n, id);
    }
    forall id | id in t'.idToNode ensures t'.idToNode[id] in t'.nodes && Owns(t'.nodes[t'.idToNode[id]].data, id) {
      if Some(id) == x {
        SegOwns(t, t', s, d', x, c, p, s, id);
      } else {
        SegOwns(t, t', s, d', x, c, p, t.idToNode[id], id);
      }
    }
  }

  /** After a segment edit the node counter is still ahead and every orphan is still parentless. */
  lemma SegOrphansOk(t: Arena, t': Arena, s: NodeId, d': NodeData, x: Option<Id>, c: Option<NodeId>, p: Option<NodeId>)
    requires SegEditPre(t, s, d', x, c, p) && SegEditShape(t, t', s, d', x, c, p)
    ensures IdsFresh(t') && OrphansParentless(t')
  {
    hide Wf, NodeOk;
    SegEditFacts(t, s, d', x, c, p);
    WfIds(t);
    forall n | n in t'.orphans && n in t'.nodes ensures t'.nodes[n].parent.None? {
      if Some(n) != p {
        assert n != s by {
          assert t.nodes[s].parent.Some?;
        }
      }
    }
  }

  /** An edit of this shape keeps the tree well formed. */
  lemma SegEditWf(t: Arena, t': Arena, s: NodeId, d': NodeData, x: Option<Id>, c: Option<NodeId>, p: Option<NodeId>)
    requires SegEditPre(t, s, d', x, c, p) && SegEditShape(t, t', s, d', x, c, p)
    ensures Wf(t')
  {
    SegNodesOk(t, t', s, d', x, c, p);
    SegIdsOk(t, t', s, d', x, c, p);
    SegOrphansOk(t, t', s, d', x, c, p);
    SegAcyclic(t, t', s, d', x, c, p);
  }
}
