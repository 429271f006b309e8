/**
 * The JSON document arena of src/json/tree.rs: nodes live in a map from `NodeId` to node, a
 * second map sends external ids to the node that holds them, every node has an optional parent
 * back-pointer, and the `orphans` set records detached values. This module holds the data
 * model, the pure readers, the parent chain with its acyclicity lemmas, and the
 * well-formedness invariant that every operation keeps.
 *
 * A string or an array is a container node plus segments. The sequence code of the JSON
 * tree (src/json/sequence.rs) is not part of this model; sequences here keep their one
 * initial segment, which is what the tree's own constructors build.
 */
module JsonNodes {
  import opened Common
  import opened Segments

  datatype TreeError = UnknownId | UnexpectedNodeType | DuplicateId | NodeAlreadyHadParent | EditWouldCauseCycle

  datatype Result<T> = Ok(value: T) | Err(error: TreeError)

  /** What an object key or an array slot holds: a scalar or a collection node. */
  datatype Child = True | False | Int(i: int) | Null | Collection(node: NodeId)

  /** A JSON value as the tree's callers see it; collections are named by their external id. */
  datatype Value = True | False | Null | Int(i: int) | Unset | Object(id: Id) | Array(id: Id) | String(id: Id)

  datatype NodeType = String | Character | Object | Array | ArrayEntry

  datatype NodeData =
    | Object(items: map<string, Child>, id: Id)
    | Array(start: NodeId, end: NodeId, id: Id)
    | ArraySegment(prev: NodeId, next: NodeId, elements: seq<Child>, ids: seq<Entry>)
    | String(start: NodeId, end: NodeId, id: Id)
    | StringSegment(prev: NodeId, next: NodeId, contents: seq<char>, ids: seq<Entry>)

  datatype Node = Node(data: NodeData, parent: Option<NodeId>)

  type Nodes = map<NodeId, Node>

  /** The fields of `Tree`. */
  datatype Arena = Arena(nextNode: NodeId, root: Id, orphans: set<NodeId>, idToNode: map<Id, NodeId>, nodes: Nodes)

  /** `Edit`: one change a document operation asks of the tree. */
  datatype Edit =
    | ArrayCreate(id: Id)
    | ArrayInsert(index: Id, id: Id, item: Value)
    | ArrayDelete(id: Id)
    | MapCreate(id: Id)
    | MapInsert(parent: Id, key: string, item: Value)
    | TextCreate(id: Id)
    | TextInsert(index: Id, id: Id, character: char)
    | TextDelete(id: Id)

  // ---------------------------------------------------------------------------------------
  // Node kinds and readers

  /** Objects, arrays and strings carry an external id; segments do not. */
  predicate IsContainer(d: NodeData) {
    d.Object? || d.Array? || d.String?
  }

  /** The container of a sequence of the given kind (`array` selects arrays, else strings). */
  predicate IsSeqKind(d: NodeData, isArray: bool) {
    if isArray then d.Array? else d.String?
  }

  /** A segment of the given kind. */
  predicate IsSegmentKind(d: NodeData, isArray: bool) {
    if isArray then d.ArraySegment? else d.StringSegment?
  }

  /** `Node::id`: the external id of a container, none for a segment. */
  function IdOf(node: Node): (r: Option<Id>)
    ensures r.Some? <==> IsContainer(node.data)
    ensures r.Some? ==> r.value == node.data.id
  {
    match node.data
    case Object(_, id) => Some(id)
    case String(_, _, id) => Some(id)
    case StringSegment(_, _, _, _) => None
    case Array(_, _, id) => Some(id)
    case ArraySegment(_, _, _, _) => None
  }

  /** The type `get_type` reports for a node. */
  function TypeOf(d: NodeData): NodeType {
    match d
    case Object(_, _) => NodeType.Object
    case String(_, _, _) => NodeType.String
    case StringSegment(_, _, _, _) => NodeType.Character
    case Array(_, _, _) => NodeType.Array
    case ArraySegment(_, _, _, _) => NodeType.ArrayEntry
  }

  /** `segment_adjacencies`: `(prev, next)` of a segment, `(end, start)` of a sequence container. */
  function Adjacencies(d: NodeData): (r: (NodeId, NodeId))
    requires d.Array? || d.String? || d.ArraySegment? || d.StringSegment?
    ensures (d.Array? || d.String?) ==> r == (d.end, d.start)
    ensures (d.ArraySegment? || d.StringSegment?) ==> r == (d.prev, d.next)
  {
    match d
    case String(start, end, _) => (end, start)
    case StringSegment(prev, next, _, _) => (prev, next)
    case Array(start, end, _) => (end, start)
    case ArraySegment(prev, next, _, _) => (prev, next)
  }

  /** The entries of a segment's `ids` that carry `id`, searched from the front. */
  function FirstIndex(ids: seq<Entry>, id: Id, from: nat): (r: Option<nat>)
    requires from <= |ids|
    ensures r.Some? ==> from <= r.value < |ids| && ids[r.value].id == id
    ensures r.Some? ==> forall k :: from <= k < r.value ==> ids[k].id != id
    ensures r.None? ==> forall k :: from <= k < |ids| ==> ids[k].id != id
    decreases |ids| - from
  {
    if from == |ids| then None
    else if ids[from].id == id then Some(from)
    else FirstIndex(ids, id, from + 1)
  }

  /**
   * `segment_split_contents_into(other, k)` on two segments of one kind, `other` empty:
   * the first segment keeps its first `k` elements and `other` receives the rest.
   */
  function SplitContentsInto(seg: NodeData, other: NodeData, k: nat): (r: (NodeData, NodeData))
    requires (seg.StringSegment? && other.StringSegment? && other.contents == [] && k <= |seg.contents|)
          || (seg.ArraySegment? && other.ArraySegment? && other.elements == [] && k <= |seg.elements|)
    ensures seg.StringSegment? ==> r.0 == seg.(contents := seg.contents[..k]) && r.1 == other.(contents := seg.contents[k..])
    ensures seg.ArraySegment? ==> r.0 == seg.(elements := seg.elements[..k]) && r.1 == other.(elements := seg.elements[k..])
  {
    if seg.StringSegment? then
      (seg.(contents := seg.contents[..k]), other.(contents := seg.contents[k..]))
    else
      (seg.(elements := seg.elements[..k]), other.(elements := seg.elements[k..]))
  }

  /** Splitting contents keeps them: the two parts concatenate to the original. */
  lemma SplitContentsKeepsOrder(seg: NodeData, other: NodeData, k: nat)
    requires (seg.StringSegment? && other.StringSegment? && other.contents == [] && k <= |seg.contents|)
          || (seg.ArraySegment? && other.ArraySegment? && other.elements == [] && k <= |seg.elements|)
    ensures var r := SplitContentsInto(seg, other, k);
            && (seg.StringSegment? ==> |r.0.contents| == k && r.0.contents + r.1.contents == seg.contents)
            && (seg.ArraySegment? ==> |r.0.elements| == k && r.0.elements + r.1.elements == seg.elements)
            && r.0.ids == seg.ids && r.1.ids == other.ids
  {
    if seg.StringSegment? {
      assert seg.contents[..k] + seg.contents[k..] == seg.contents;
    } else {
      assert seg.elements[..k] + seg.elements[k..] == seg.elements;
    }
  }

  // ---------------------------------------------------------------------------------------
  // The parent chain

  /** The parent of `m`, if `m` is a node and has one. */
  function ParentOf(nodes: Nodes, m: NodeId): Option<NodeId> {
    if m in nodes then nodes[m].parent else None
  }

  /** The node reached from `x` after `k` steps up the parent chain. */
  ghost function Up(nodes: Nodes, x: Option<NodeId>, k: nat): Option<NodeId>
    decreases k
  {
    if k == 0 || x.None? then x else Up(nodes, ParentOf(nodes, x.value), k - 1)
  }

  /** The chain from `x` runs out. */
  ghost predicate Terminates(nodes: Nodes, x: Option<NodeId>) {
    exists k: nat :: Up(nodes, x, k).None?
  }

  /** Parent links are acyclic: every node's ancestor chain ends. */
  ghost predicate Acyclic(nodes: Nodes) {
    forall n :: n in nodes ==> Terminates(nodes, Some(n))
  }

  /** A number of steps after which the chain from `x` has ended. */
  ghost function Height(nodes: Nodes, x: Option<NodeId>): (k: nat)
    requires Terminates(nodes, x)
    ensures Up(nodes, x, k).None?
  {
    var k: nat :| Up(nodes, x, k).None?; k
  }

  /**
   * The walk of `reparent_item`: whether `item` is `x` or one of its ancestors. The ghost
   * `fuel` bounds the length of the chain.
   */
  function OnChain(nodes: Nodes, x: Option<NodeId>, item: NodeId, ghost fuel: nat): bool
    requires Up(nodes, x, fuel).None?
    decreases fuel
  {
    if x.None? then false
    else x.value == item || OnChain(nodes, ParentOf(nodes, x.value), item, fuel - 1)
  }

  /** `OnChain` holds exactly when `item` is some number of steps up from `x`. */
  lemma {:induction false} OnChainIff(nodes: Nodes, x: Option<NodeId>, item: NodeId, fuel: nat)
    requires Up(nodes, x, fuel).None?
    ensures OnChain(nodes, x, item, fuel) <==> exists j: nat :: Up(nodes, x, j) == Some(item)
    decreases fuel
  {
    if x.None? {
      forall j: nat ensures Up(nodes, x, j) != Some(item) {
      }
    } else if x.value == item {
      assert OnChain(nodes, x, item, fuel);
      assert Up(nodes, x, 0) == Some(item);
      assert exists j: nat :: Up(nodes, x, j) == Some(item);
    } else {
      var p := ParentOf(nodes, x.value);
      OnChainIff(nodes, p, item, fuel - 1);
      assert OnChain(nodes, x, item, fuel) == OnChain(nodes, p, item, fuel - 1);
      UpThroughParent(nodes, x.value, item);
    }
  }

  /** Below a node other than `item`, `item` is reached from it exactly when it is reached from its parent. */
  lemma UpThroughParent(nodes: Nodes, n: NodeId, item: NodeId)
    requires n != item
    ensures (exists j: nat :: Up(nodes, Some(n), j) == Some(item))
            <==> exists i: nat :: Up(nodes, ParentOf(nodes, n), i) == Some(item)
  {
    var p := ParentOf(nodes, n);
    if exists i: nat :: Up(nodes, p, i) == Some(item) {
      var i: nat :| Up(nodes, p, i) == Some(item);
      assert Up(nodes, Some(n), i + 1) == Some(item);
    }
    if exists j: nat :: Up(nodes, Some(n), j) == Some(item) {
      var j: nat :| Up(nodes, Some(n), j) == Some(item);
      assert j != 0;
      var i: nat := j - 1;
      assert Up(nodes, Some(n), j) == Up(nodes, p, i);
      assert Up(nodes, p, i) == Some(item);
    }
  }

  /** Walking `a` steps and then `b` more is walking `a + b` steps. */
  lemma {:induction false} UpAdd(nodes: Nodes, x: Option<NodeId>, a: nat, b: nat)
    ensures Up(nodes, x, a + b) == Up(nodes, Up(nodes, x, a), b)
    decreases a
  {
    if a != 0 && x.Some? {
      UpAdd(nodes, ParentOf(nodes, x.value), a - 1, b);
    }
  }

  /** Once a chain has ended it stays ended. */
  lemma UpEnded(nodes: Nodes, x: Option<NodeId>, a: nat, b: nat)
    requires a <= b && Up(nodes, x, a).None?
    ensures Up(nodes, x, b).None?
  {
    UpAdd(nodes, x, a, b - a);
  }

  /** Under acyclic links no node is its own proper ancestor. */
  lemma NotOwnAncestor(nodes: Nodes, n: NodeId, j: nat)
    requires Acyclic(nodes) && n in nodes && j >= 1
    ensures Up(nodes, Some(n), j) != Some(n)
  {
    if Up(nodes, Some(n), j) == Some(n) {
      var k := Height(nodes, Some(n));
      forall m: nat ensures Up(nodes, Some(n), m * j) == Some(n) {
        RepeatCycle(nodes, n, j, m);
      }
      assert k <= k * j;
      UpEnded(nodes, Some(n), k, k * j);
      assert false;
    }
  }

  lemma {:induction false} RepeatCycle(nodes: Nodes, n: NodeId, j: nat, m: nat)
    requires Up(nodes, Some(n), j) == Some(n)
    ensures Up(nodes, Some(n), m * j) == Some(n)
    decreases m
  {
    if m != 0 {
      RepeatCycle(nodes, n, j, m - 1);
      assert m * j == (m - 1) * j + j;
      UpAdd(nodes, Some(n), (m - 1) * j, j);
    }
  }

  /** Replacing a parent map by one that agrees everywhere changes no chain. */
  lemma {:induction false} UpSameParents(nodes: Nodes, nodes': Nodes, x: Option<NodeId>, k: nat)
    requires forall m :: ParentOf(nodes', m) == ParentOf(nodes, m)
    ensures Up(nodes', x, k) == Up(nodes, x, k)
    decreases k
  {
    if k != 0 && x.Some? {
      UpSameParents(nodes, nodes', ParentOf(nodes, x.value), k - 1);
    }
  }

  /** Changing node data or adding parentless nodes keeps the links acyclic. */
  lemma SameParentsAcyclic(nodes: Nodes, nodes': Nodes)
    requires Acyclic(nodes)
    requires forall m :: ParentOf(nodes', m) == ParentOf(nodes, m)
    ensures Acyclic(nodes')
  {
    forall n | n in nodes' ensures Terminates(nodes', Some(n)) {
      if n in nodes {
        var k := Height(nodes, Some(n));
        UpSameParents(nodes, nodes', Some(n), k);
      } else {
        assert Up(nodes', Some(n), 1).None?;
      }
    }
  }

  /** A chain that never meets `item` is the same once only `item`'s parent changes. */
  lemma {:induction false} UpAvoiding(nodes: Nodes, nodes': Nodes, item: NodeId, x: Option<NodeId>, k: nat)
    requires forall m :: m != item ==> ParentOf(nodes', m) == ParentOf(nodes, m)
    requires forall j: nat :: Up(nodes, x, j) != Some(item)
    ensures Up(nodes', x, k) == Up(nodes, x, k)
    decreases k
  {
    if k != 0 && x.Some? {
      assert Up(nodes, x, 0) != Some(item);
      var p := ParentOf(nodes, x.value);
      forall j: nat ensures Up(nodes, p, j) != Some(item) {
        assert Up(nodes, x, j + 1) == Up(nodes, p, j);
      }
      UpAvoiding(nodes, nodes', item, p, k - 1);
    }
  }

  /**
   * Changing only `item`'s parent, to a `target` whose chain ends without meeting `item`,
   * keeps every chain that ended before ending.
   */
  lemma {:induction false} RedirectTerminates(nodes: Nodes, nodes': Nodes, item: NodeId, target: Option<NodeId>,
                                              x: Option<NodeId>, k: nat)
    requires forall m :: m != item ==> ParentOf(nodes', m) == ParentOf(nodes, m)
    requires ParentOf(nodes', item) == target
    requires Terminates(nodes, target) && forall j: nat :: Up(nodes, target, j) != Some(item)
    requires Up(nodes, x, k).None?
    ensures Terminates(nodes', x)
    decreases k
  {
    if x.None? {
      assert Up(nodes', x, 0).None?;
    } else if x.value == item {
      var kt := Height(nodes, target);
      UpAvoiding(nodes, nodes', item, target, kt);
      assert Up(nodes', x, kt + 1) == Up(nodes', target, kt);
    } else {
      var p := ParentOf(nodes, x.value);
      RedirectTerminates(nodes, nodes', item, target, p, k - 1);
      var kp: nat :| Up(nodes', p, kp).None?;
      assert Up(nodes', x, kp + 1) == Up(nodes', p, kp);
    }
  }

  /** The acyclicity half of `reparent_item` and `move_to_orphan`. */
  lemma RedirectAcyclic(nodes: Nodes, nodes': Nodes, item: NodeId, target: Option<NodeId>)
    requires Acyclic(nodes) && nodes'.Keys <= nodes.Keys + {item}
    requires forall m :: m != item ==> ParentOf(nodes', m) == ParentOf(nodes, m)
    requires ParentOf(nodes', item) == target
    requires Terminates(nodes, target) && forall j: nat :: Up(nodes, target, j) != Some(item)
    ensures Acyclic(nodes')
  {
    forall n | n in nodes' ensures Terminates(nodes', Some(n)) {
      if n in nodes {
        RedirectTerminates(nodes, nodes', item, target, Some(n), Height(nodes, Some(n)));
      } else {
        assert Up(nodes, Some(n), 1).None?;
        RedirectTerminates(nodes, nodes', item, target, Some(n), 1);
      }
    }
  }

  // ---------------------------------------------------------------------------------------
  // Well-formedness

  /** The external ids a node answers to: a container its own id, a segment its entries'. */
  ghost predicate Owns(d: NodeData, id: Id) {
    if IsContainer(d) then d.id == id else exists k :: 0 <= k < |d.ids| && d.ids[k].id == id
  }

  /** Every node and every orphan was numbered by the counter. */
  ghost predicate IdsFresh(t: Arena) {
    && (forall n :: n in t.nodes ==> n < t.nextNode)
    && (forall n :: n in t.orphans ==> n < t.nextNode)
  }

  /** Every mapped id leads to a node that answers to it. */
  ghost predicate IdsMapped(t: Arena) {
    forall id :: id in t.idToNode ==> t.idToNode[id] in t.nodes && Owns(t.nodes[t.idToNode[id]].data, id)
  }

  /** Every id a node answers to is mapped to that node. */
  ghost predicate IdsOwned(t: Arena) {
    forall n, id :: n in t.nodes && Owns(t.nodes[n].data, id) ==> id in t.idToNode && t.idToNode[id] == n
  }

  /** The segment offsets of an array: one slot per live entry, as for characters. */
  ghost predicate ArrayOffsetsOk(elements: seq<Child>, ids: seq<Entry>) {
    OffsetsOk(Slots(|elements|), ids)
  }

  /** A stand-in string with one character per array slot. */
  function Slots(n: nat): (r: seq<char>)
    ensures |r| == n
  {
    seq(n, _ => ' ')
  }

  /** The offset invariant only looks at the length of the contents. */
  lemma OffsetsOkLength(c: seq<char>, c': seq<char>, ids: seq<Entry>)
    requires |c| == |c'| && OffsetsOk(c, ids)
    ensures OffsetsOk(c', ids)
  {
  }

  /** The sequence container `n`'s only segment is `start == end`, linked back to `n`. */
  ghost predicate SoleSegment(nodes: Nodes, n: NodeId, isArray: bool)
    requires n in nodes && IsSeqKind(nodes[n].data, isArray)
  {
    var d := nodes[n].data;
    && d.start == d.end && d.start in nodes
    && IsSegmentKind(nodes[d.start].data, isArray)
    && nodes[d.start].data.prev == n && nodes[d.start].data.next == n
    && nodes[d.start].parent == Some(n)
  }

  /** The segment `n` hangs off a container of its kind that starts at `n`. */
  ghost predicate SegmentHome(nodes: Nodes, n: NodeId, isArray: bool)
    requires n in nodes
  {
    && nodes[n].parent.Some? && nodes[n].parent.value in nodes
    && IsSeqKind(nodes[nodes[n].parent.value].data, isArray)
    && nodes[nodes[n].parent.value].data.start == n
  }

  /** The layout of sequences: containers and segments point at each other, offsets hold. */
  ghost predicate LayoutOk(nodes: Nodes, n: NodeId)
    requires n in nodes
  {
    match nodes[n].data
    case Object(_, _) => true
    case Array(_, _, _) => SoleSegment(nodes, n, true)
    case String(_, _, _) => SoleSegment(nodes, n, false)
    case ArraySegment(_, _, elements, ids) => SegmentHome(nodes, n, true) && ArrayOffsetsOk(elements, ids) && DistinctIds(ids)
    case StringSegment(_, _, contents, ids) => SegmentHome(nodes, n, false) && OffsetsOk(contents, ids) && DistinctIds(ids)
  }

  /** `c` is a collection node whose parent is `p`. */
  ghost predicate Attached(nodes: Nodes, c: NodeId, p: NodeId) {
    c in nodes && IsContainer(nodes[c].data) && nodes[c].parent == Some(p)
  }

  /** The collections under an object's keys are its children, each under one key only. */
  ghost predicate ItemsOk(nodes: Nodes, items: map<string, Child>, p: NodeId) {
    && (forall k :: k in items && items[k].Collection? ==> Attached(nodes, items[k].node, p))
    && (forall k1, k2 :: k1 in items && k2 in items && k1 != k2 && items[k1].Collection? ==> items[k1] != items[k2])
  }

  /** The collections in an array's slots are children of the array, each in one slot only. */
  ghost predicate ElementsOk(nodes: Nodes, es: seq<Child>, p: NodeId) {
    && (forall i :: 0 <= i < |es| && es[i].Collection? ==> Attached(nodes, es[i].node, p))
    && (forall i, j :: 0 <= i < j < |es| && es[i].Collection? ==> es[i] != es[j])
  }

  ghost predicate ChildrenOk(nodes: Nodes, n: NodeId)
    requires n in nodes
  {
    match nodes[n].data
    case Object(items, _) => ItemsOk(nodes, items, n)
    case ArraySegment(_, _, elements, _) => nodes[n].parent.Some? && ElementsOk(nodes, elements, nodes[n].parent.value)
    case _ => true
  }

  /** `items` holds the collection `c` under some key. */
  ghost predicate InItems(items: map<string, Child>, c: NodeId) {
    exists k :: k in items && items[k] == Child.Collection(c)
  }

  /** The node `p` holds `c`: under a key, as its segment, or in its segment's slots. */
  ghost predicate Holds(nodes: Nodes, p: NodeId, c: NodeId)
    requires p in nodes
  {
    match nodes[p].data
    case Object(items, _) => InItems(items, c)
    case Array(start, _, _) =>
      c == start || (start in nodes && nodes[start].data.ArraySegment? && Child.Collection(c) in nodes[start].data.elements)
    case String(start, _, _) => c == start
    case _ => false
  }

  /** A parent link points at a node that holds this one. */
  ghost predicate ParentOk(nodes: Nodes, n: NodeId)
    requires n in nodes
  {
    nodes[n].parent.Some? ==> nodes[n].parent.value in nodes && Holds(nodes, nodes[n].parent.value, n)
  }

  /** The node the root id names. */
  ghost predicate IsRoot(t: Arena, n: NodeId) {
    t.root in t.idToNode && t.idToNode[t.root] == n
  }

  /** A parentless node is an orphan or the root. */
  ghost predicate OrphanOk(t: Arena, n: NodeId) {
    n in t.nodes && t.nodes[n].parent.None? ==> n in t.orphans || IsRoot(t, n)
  }

  /** Orphans have no parent. */
  ghost predicate OrphansParentless(t: Arena) {
    forall n :: n in t.orphans && n in t.nodes ==> t.nodes[n].parent.None?
  }

  ghost predicate NodeOk(t: Arena, n: NodeId)
    requires n in t.nodes
  {
    LayoutOk(t.nodes, n) && ChildrenOk(t.nodes, n) && ParentOk(t.nodes, n) && OrphanOk(t, n)
  }

  /** The invariant of every tree the public operations build. */
  ghost predicate Wf(t: Arena) {
    && IdsFresh(t) && IdsMapped(t) && IdsOwned(t)
    && (forall n :: n in t.nodes ==> NodeOk(t, n))
    && Acyclic(t.nodes) && OrphansParentless(t)
  }

  /** The id and orphan parts of `Wf`, for proofs that keep the rest of it hidden. */
  lemma WfIds(t: Arena)
    requires Wf(t)
    ensures IdsFresh(t) && IdsMapped(t) && IdsOwned(t) && OrphansParentless(t)
  {
  }

  /** The acyclic part of `Wf`, for proofs that keep the rest of it hidden. */
  lemma WfAcyclic(t: Arena)
    requires Wf(t)
    ensures Acyclic(t.nodes)
  {
  }

  /** The per-node part of `Wf`, for proofs that keep the rest of it hidden. */
  lemma WfNode(t: Arena, n: NodeId)
    requires Wf(t) && n in t.nodes
    ensures NodeOk(t, n)
  {
  }

  /**
   * The adjacencies of a sequence close up in a well-formed tree: a container and its one
   * segment each name the other on both sides, as `construct_string` and `construct_array`
   * link them.
   */
  lemma AdjacenciesRing(t: Arena, n: NodeId)
    requires Wf(t) && n in t.nodes
    requires var d := t.nodes[n].data; d.Array? || d.String? || d.ArraySegment? || d.StringSegment?
    ensures var (a, b) := Adjacencies(t.nodes[n].data);
            && a == b && a in t.nodes && a != n
            && var e := t.nodes[a].data;
               && (e.Array? || e.String? || e.ArraySegment? || e.StringSegment?)
               && (e.Array? || e.String? <==> !(t.nodes[n].data.Array? || t.nodes[n].data.String?))
               && Adjacencies(e) == (n, n)
  {
    hide Wf;
    WfNode(t, n);
    var d := t.nodes[n].data;
    if d.ArraySegment? || d.StringSegment? {
      assert LayoutOk(t.nodes, n);
      var p := t.nodes[n].parent.value;
      WfNode(t, p);
      assert LayoutOk(t.nodes, p);
    } else {
      assert LayoutOk(t.nodes, n);
    }
  }

  /**
   * A node keeps its invariant when what the invariant reads around it is unchanged: the node
   * itself, its sequence's segment, its parent's data and hold on it, the links of the
   * collections it holds, and its standing as an orphan or the root.
   */
  lemma NodeOkKept(t: Arena, t': Arena, m: NodeId)
    requires m in t.nodes && NodeOk(t, m) && m in t'.nodes && t'.nodes[m] == t.nodes[m]
    requires var d := t.nodes[m].data;
             (d.Array? || d.String?) ==> d.start in t.nodes && d.start in t'.nodes && t'.nodes[d.start] == t.nodes[d.start]
    requires var d := t.nodes[m].data; var q := t.nodes[m].parent;
             (d.ArraySegment? || d.StringSegment?) ==>
               q.Some? && q.value in t.nodes && q.value in t'.nodes && t'.nodes[q.value].data == t.nodes[q.value].data
    requires var q := t.nodes[m].parent; q.Some? ==> q.value in t'.nodes && Holds(t'.nodes, q.value, m)
    requires forall x :: Attached(t.nodes, x, m) ==> Attached(t'.nodes, x, m)
    requires var q := t.nodes[m].parent;
             t.nodes[m].data.ArraySegment? && q.Some? ==> forall x :: Attached(t.nodes, x, q.value) ==> Attached(t'.nodes, x, q.value)
    requires m in t.orphans ==> m in t'.orphans
    requires IsRoot(t, m) ==> IsRoot(t', m)
    ensures NodeOk(t', m)
  {
    var d := t.nodes[m].data;
    if d.Object? {
      assert ItemsOk(t.nodes, d.items, m);
    } else if d.ArraySegment? {
      assert ElementsOk(t.nodes, d.elements, t.nodes[m].parent.value);
    }
  }
}
