/**
 * What the string operations of src/tree.rs do to the elements of a string, stated on the
 * sequence of cells (characters and tombstones) alone: inserting a character right after the
 * cell with a given id (or first), and turning the cell with a given id into a tombstone.
 * The tree's methods are proved to act on a string's cells exactly as these functions say.
 */
module Text {
  import opened Common
  import opened Segments

  /** The position of the first cell with id `id`. */
  function IndexOf(cells: seq<Cell>, id: Id): (r: Option<nat>)
    ensures r.Some? ==> r.value < |cells| && cells[r.value].id == id
    ensures r.Some? ==> forall k :: 0 <= k < r.value ==> cells[k].id != id
    ensures r.None? ==> forall k :: 0 <= k < |cells| ==> cells[k].id != id
  {
    if cells == [] then None
    else if cells[0].id == id then Some(0)
    else match IndexOf(cells[1..], id)
      case None => None
      case Some(p) => Some(p + 1)
  }

  /** The ids of `cells` are pairwise different. */
  ghost predicate UniqueIds(cells: seq<Cell>) {
    forall i, j :: 0 <= i < j < |cells| ==> cells[i].id != cells[j].id
  }

  /**
   * Where a character appended after `anchor` goes: first when the anchor is the string
   * itself (`None`), right after the anchor's cell otherwise, nowhere if the anchor is absent.
   */
  function InsertionIndex(cells: seq<Cell>, anchor: Option<Id>): (r: Option<nat>)
    ensures r.Some? ==> r.value <= |cells|
    ensures anchor.None? ==> r == Some(0)
    ensures anchor.Some? ==> (r.None? <==> forall k :: 0 <= k < |cells| ==> cells[k].id != anchor.value)
    ensures anchor.Some? && r.Some? ==> 1 <= r.value && cells[r.value - 1].id == anchor.value
  {
    match anchor
    case None => Some(0)
    case Some(a) =>
      match IndexOf(cells, a)
      case None => None
      case Some(p) => Some(p + 1)
  }

  /** `insert_character` on cells: `x` goes right after the anchor, ahead of what followed it. */
  function InsertAfter(cells: seq<Cell>, anchor: Option<Id>, x: Cell): (r: Option<seq<Cell>>)
    ensures r.Some? <==> InsertionIndex(cells, anchor).Some?
    ensures r.Some? ==>
      var p := InsertionIndex(cells, anchor).value;
      && |r.value| == |cells| + 1 && r.value[p] == x
      && r.value[..p] == cells[..p] && r.value[p + 1..] == cells[p..]
  {
    match InsertionIndex(cells, anchor)
    case None => None
    case Some(p) => Some(InsertAt(cells, p, x))
  }

  /** `delete_character` on cells: the first cell with id `id` loses its character. */
  function Tombstone(cells: seq<Cell>, id: Id): (r: Option<seq<Cell>>)
    ensures r.None? <==> forall k :: 0 <= k < |cells| ==> cells[k].id != id
    ensures r.Some? ==> |r.value| == |cells|
    ensures r.Some? ==> forall k :: 0 <= k < |cells| ==> r.value[k].id == cells[k].id
  {
    match IndexOf(cells, id)
    case None => None
    case Some(p) => Some(cells[p := Cell(id, None)])
  }

  // ---------------------------------------------------------------------------------------
  // Properties

  /** A cell with the id, preceded by none with it, is the one `IndexOf` finds. */
  lemma IndexOfAt(cells: seq<Cell>, id: Id, p: nat)
    requires p < |cells| && cells[p].id == id
    requires forall k :: 0 <= k < p ==> cells[k].id != id
    ensures IndexOf(cells, id) == Some(p)
  {
  }

  /** Removing the inserted cell gives back the cells before the insert. */
  lemma InsertAfterRemove(cells: seq<Cell>, anchor: Option<Id>, x: Cell)
    requires InsertAfter(cells, anchor, x).Some?
    ensures RemoveAt(InsertAfter(cells, anchor, x).value, InsertionIndex(cells, anchor).value) == cells
  {
    var p := InsertionIndex(cells, anchor).value;
    var r := InsertAfter(cells, anchor, x).value;
    assert r[..p] + r[p + 1..] == cells[..p] + cells[p..];
    assert cells[..p] + cells[p..] == cells;
  }

  /**
   * The anchor keeps its position and the new cell is found right after it; with a fresh id,
   * the new cell is the only one with that id.
   */
  lemma InsertAfterFindsNew(cells: seq<Cell>, anchor: Option<Id>, x: Cell)
    requires InsertAfter(cells, anchor, x).Some?
    requires forall k :: 0 <= k < |cells| ==> cells[k].id != x.id
    ensures IndexOf(InsertAfter(cells, anchor, x).value, x.id) == InsertionIndex(cells, anchor)
    ensures anchor.Some? ==> IndexOf(InsertAfter(cells, anchor, x).value, anchor.value) == IndexOf(cells, anchor.value)
  {
    var p := InsertionIndex(cells, anchor).value;
    var r := InsertAfter(cells, anchor, x).value;
    forall k | 0 <= k < p
      ensures r[k].id != x.id
    {
      assert r[k] == r[..p][k];
    }
    IndexOfAt(r, x.id, p);
    if anchor.Some? {
      var q := IndexOf(cells, anchor.value).value;
      assert r[q] == r[..p][q];
      forall k | 0 <= k < q
        ensures r[k].id != anchor.value
      {
        assert r[k] == r[..p][k];
      }
      IndexOfAt(r, anchor.value, q);
    }
  }

  /** Inserting a new cell keeps the ids unique. */
  lemma InsertAfterUnique(cells: seq<Cell>, anchor: Option<Id>, x: Cell)
    requires InsertAfter(cells, anchor, x).Some? && UniqueIds(cells)
    requires forall k :: 0 <= k < |cells| ==> cells[k].id != x.id
    ensures UniqueIds(InsertAfter(cells, anchor, x).value)
  {
    var p := InsertionIndex(cells, anchor).value;
    var r := InsertAfter(cells, anchor, x).value;
    forall k | 0 <= k < |r|
      ensures r[k] == if k < p then cells[k] else if k == p then x else cells[k - 1]
    {
      if k < p {
        assert r[k] == r[..p][k];
      } else if k > p {
        assert r[k] == r[p + 1..][k - p - 1];
      }
    }
  }

  /** Deleting a character twice is the same as deleting it once. */
  lemma TombstoneIdempotent(cells: seq<Cell>, id: Id)
    requires Tombstone(cells, id).Some?
    ensures Tombstone(Tombstone(cells, id).value, id) == Tombstone(cells, id)
  {
    var p := IndexOf(cells, id).value;
    var r := Tombstone(cells, id).value;
    IndexOfAt(r, id, p);
    assert r[p := Cell(id, None)] == r;
  }

  /** A tombstone stays findable, so a deleted character can still be an anchor. */
  lemma TombstoneKeepsAnchors(cells: seq<Cell>, id: Id, a: Id)
    requires Tombstone(cells, id).Some?
    ensures IndexOf(Tombstone(cells, id).value, a) == IndexOf(cells, a)
    ensures InsertionIndex(Tombstone(cells, id).value, Some(a)) == InsertionIndex(cells, Some(a))
  {
    var r := Tombstone(cells, id).value;
    match IndexOf(cells, a)
    case None =>
    case Some(q) => IndexOfAt(r, a, q);
  }

  /** Deleting a live character removes exactly that character from the visible text. */
  lemma {:induction false} TombstoneVisible(cells: seq<Cell>, p: nat)
    requires p < |cells|
    ensures Visible(cells[p := Cell(cells[p].id, None)]) ==
      Visible(cells[..p]) + Visible(cells[p + 1..])
    ensures Visible(cells) ==
      Visible(cells[..p]) + (if cells[p].ch.Some? then [cells[p].ch.value] else []) + Visible(cells[p + 1..])
  {
    var t := cells[p := Cell(cells[p].id, None)];
    assert t == cells[..p] + [Cell(cells[p].id, None)] + cells[p + 1..];
    assert cells == cells[..p] + [cells[p]] + cells[p + 1..];
    VisibleAppend(cells[..p] + [Cell(cells[p].id, None)], cells[p + 1..]);
    VisibleAppend(cells[..p], [Cell(cells[p].id, None)]);
    VisibleAppend(cells[..p] + [cells[p]], cells[p + 1..]);
    VisibleAppend(cells[..p], [cells[p]]);
    assert [Cell(cells[p].id, None)][..0] == [];
    assert [cells[p]][..0] == [];
  }

  // ---------------------------------------------------------------------------------------
  // The string tests of src/tree.rs, on cells

  function Ch(n: nat, c: char): Cell { Cell(Id(n), Some(c)) }

  /**
   * On the empty string 0: `a` after the string, `b` after `a`, `c` after `a`, `d` after the
   * string give the cells below, which read "dacb".
   */
  lemma InsertExample()
    ensures InsertAfter([], None, Ch(1, 'a')) == Some([Ch(1, 'a')])
    ensures InsertAfter([Ch(1, 'a')], Some(Id(1)), Ch(2, 'b')) == Some([Ch(1, 'a'), Ch(2, 'b')])
    ensures InsertAfter([Ch(1, 'a'), Ch(2, 'b')], Some(Id(1)), Ch(3, 'c')) == Some([Ch(1, 'a'), Ch(3, 'c'), Ch(2, 'b')])
    ensures InsertAfter([Ch(1, 'a'), Ch(3, 'c'), Ch(2, 'b')], None, Ch(4, 'd')) == Some([Ch(4, 'd'), Ch(1, 'a'), Ch(3, 'c'), Ch(2, 'b')])
  {
    hide InsertAfter;
    InsertAfterAt([], None, Ch(1, 'a'), 0, [Ch(1, 'a')]);
    InsertAfterFirst([Ch(1, 'a')], Ch(2, 'b'), [Ch(1, 'a'), Ch(2, 'b')]);
    InsertAfterFirst([Ch(1, 'a'), Ch(2, 'b')], Ch(3, 'c'), [Ch(1, 'a'), Ch(3, 'c'), Ch(2, 'b')]);
    InsertAfterAt([Ch(1, 'a'), Ch(3, 'c'), Ch(2, 'b')], None, Ch(4, 'd'), 0, [Ch(4, 'd'), Ch(1, 'a'), Ch(3, 'c'), Ch(2, 'b')]);
  }

  /** An insert after the first cell's id puts `x` second. */
  lemma InsertAfterFirst(cells: seq<Cell>, x: Cell, r: seq<Cell>)
    requires |cells| >= 1 && r == [cells[0], x] + cells[1..]
    ensures InsertAfter(cells, Some(cells[0].id), x) == Some(r)
  {
    IndexOfAt(cells, cells[0].id, 0);
    InsertAfterAt(cells, Some(cells[0].id), x, 1, r);
  }

  /** An insert at a known index gives the cells that are the old ones with `x` spliced in there. */
  lemma InsertAfterAt(cells: seq<Cell>, anchor: Option<Id>, x: Cell, p: nat, r: seq<Cell>)
    requires InsertionIndex(cells, anchor) == Some(p)
    requires r == cells[..p] + [x] + cells[p..]
    ensures InsertAfter(cells, anchor, x) == Some(r)
  {
  }

  lemma InsertExampleText()
    ensures Visible([Ch(4, 'd'), Ch(1, 'a'), Ch(3, 'c'), Ch(2, 'b')]) == "dacb"
  {
    var c4 := [Ch(4, 'd'), Ch(1, 'a'), Ch(3, 'c'), Ch(2, 'b')];
    assert c4[..1][..0] == [];
    assert Visible(c4[..1]) == "d";
    assert c4[..2][..1] == c4[..1];
    assert Visible(c4[..2]) == "da";
    assert c4[..3][..2] == c4[..2];
    assert Visible(c4[..3]) == "dac";
    assert c4[..3] == c4[..|c4| - 1];
  }

  /**
   * On "ab" (ids 1, 2): deleting 1 reads "b", deleting 1 again still "b", deleting 2 reads "".
   */
  lemma DeleteExample()
    ensures Tombstone([Ch(1, 'a'), Ch(2, 'b')], Id(1)) == Some([Cell(Id(1), None), Ch(2, 'b')])
    ensures Tombstone([Cell(Id(1), None), Ch(2, 'b')], Id(1)) == Some([Cell(Id(1), None), Ch(2, 'b')])
    ensures Tombstone([Cell(Id(1), None), Ch(2, 'b')], Id(2)) == Some([Cell(Id(1), None), Cell(Id(2), None)])
    ensures Visible([Cell(Id(1), None), Ch(2, 'b')]) == "b"
    ensures Visible([Cell(Id(1), None), Cell(Id(2), None)]) == ""
  {
    var c := [Ch(1, 'a'), Ch(2, 'b')];
    var d := [Cell(Id(1), None), Ch(2, 'b')];
    IndexOfAt(c, Id(1), 0);
    IndexOfAt(d, Id(1), 0);
    IndexOfAt(d, Id(2), 1);
    assert c[0 := Cell(Id(1), None)] == d;
    assert d[0 := Cell(Id(1), None)] == d;
    assert d[1 := Cell(Id(2), None)] == [Cell(Id(1), None), Cell(Id(2), None)];
    assert Visible(d[..1]) == "";
    assert d[..2] == d;
    var e := [Cell(Id(1), None), Cell(Id(2), None)];
    assert Visible(e[..1]) == "";
    assert e[..2] == e;
  }
}
