/**
 * One segment of a string: a `contents` string and an `ids` list. Each entry of `ids` pairs a
 * character id with the offset of that character in `contents`, or with no offset once the
 * character is deleted (a tombstone, kept so that later inserts can still refer to it).
 * Characters have width 1 here, so an offset counts characters.
 *
 * The edits a tree makes to segments (insert a character, tombstone one, split a segment in
 * two, join two) are stated on values; each comes with a proof that it keeps the offsets right
 * and changes the segment's elements exactly as intended.
 */
module Segments {
  import opened Common

  /** An `ids` entry, `(Id, Option<usize>)`. */
  datatype Entry = Entry(id: Id, offset: Option<nat>)

  /** What an entry stands for: a character, or a tombstone (`None`). */
  datatype Cell = Cell(id: Id, ch: Option<char>)

  /** Where an appended character goes: its offset in `contents` and its index in `ids`. */
  datatype Position = Position(stringIndex: nat, listIndex: nat)

  /** Number of live entries. */
  function LiveCount(ids: seq<Entry>): nat
  {
    if ids == [] then 0
    else LiveCount(ids[..|ids| - 1]) + (if ids[|ids| - 1].offset.Some? then 1 else 0)
  }

  /**
   * The offset invariant: `contents` holds one character per live entry, and the offset of a
   * live entry is the number of live entries before it.
   */
  ghost predicate OffsetsOk(contents: seq<char>, ids: seq<Entry>) {
    && |contents| == LiveCount(ids)
    && forall k :: 0 <= k < |ids| && ids[k].offset.Some? ==> ids[k].offset.value == LiveCount(ids[..k])
  }

  /** No id occurs twice in `ids`. */
  ghost predicate DistinctIds(ids: seq<Entry>) {
    forall i, j :: 0 <= i < j < |ids| ==> ids[i].id != ids[j].id
  }

  function CellOf(contents: seq<char>, e: Entry): Cell {
    Cell(e.id, if e.offset.Some? && e.offset.value < |contents| then Some(contents[e.offset.value]) else None)
  }

  /** The elements a segment stands for, in order. */
  function View(contents: seq<char>, ids: seq<Entry>): seq<Cell> {
    seq(|ids|, k requires 0 <= k < |ids| => CellOf(contents, ids[k]))
  }

  /** The characters of the live cells, in order: the text a reader sees. */
  function Visible(cells: seq<Cell>): seq<char> {
    if cells == [] then []
    else Visible(cells[..|cells| - 1]) + (if cells[|cells| - 1].ch.Some? then [cells[|cells| - 1].ch.value] else [])
  }

  // ---------------------------------------------------------------------------------------
  // Counting live entries

  lemma {:induction false} LiveCountAppend(a: seq<Entry>, b: seq<Entry>)
    ensures LiveCount(a + b) == LiveCount(a) + LiveCount(b)
    decreases |b|
  {
    if b == [] {
      assert a + b == a;
    } else {
      assert (a + b)[..|a + b| - 1] == a + b[..|b| - 1];
      LiveCountAppend(a, b[..|b| - 1]);
    }
  }

  lemma LiveCountStep(ids: seq<Entry>, k: nat)
    requires k < |ids|
    ensures LiveCount(ids[..k + 1]) == LiveCount(ids[..k]) + (if ids[k].offset.Some? then 1 else 0)
  {
    assert ids[..k + 1][..k] == ids[..k];
  }

  lemma LiveCountMono(ids: seq<Entry>, i: nat, j: nat)
    requires i <= j <= |ids|
    ensures LiveCount(ids[..i]) <= LiveCount(ids[..j])
  {
    assert ids[..j] == ids[..i] + ids[i..j];
    LiveCountAppend(ids[..i], ids[i..j]);
  }

  /** Only which entries are live matters to the count. */
  lemma {:induction false} LiveCountShape(a: seq<Entry>, b: seq<Entry>)
    requires |a| == |b|
    requires forall k :: 0 <= k < |a| ==> a[k].offset.Some? == b[k].offset.Some?
    ensures LiveCount(a) == LiveCount(b)
    decreases |a|
  {
    if a != [] {
      LiveCountShape(a[..|a| - 1], b[..|b| - 1]);
    }
  }

  /** Under the offset invariant, a live entry's character lies inside `contents`. */
  lemma OffsetInside(contents: seq<char>, ids: seq<Entry>, k: nat)
    requires OffsetsOk(contents, ids) && k < |ids| && ids[k].offset.Some?
    ensures ids[k].offset.value < |contents|
  {
    LiveCountStep(ids, k);
    LiveCountMono(ids, k + 1, |ids|);
    assert ids[..|ids|] == ids;
  }

  // ---------------------------------------------------------------------------------------
  // Shifting offsets

  /** Offsets from index `from` on can move by `delta` without going negative. */
  ghost predicate CanShift(ids: seq<Entry>, from: nat, delta: int) {
    forall k :: from <= k < |ids| && ids[k].offset.Some? ==> ids[k].offset.value + delta >= 0
  }

  function ShiftEntry(e: Entry, delta: int): Entry
    requires e.offset.Some? ==> e.offset.value + delta >= 0
  {
    match e.offset
    case None => e
    case Some(o) => Entry(e.id, Some(o + delta))
  }

  /** `ids` with the offset of every live entry from index `from` on moved by `delta`. */
  function Shifted(ids: seq<Entry>, from: nat, delta: int): seq<Entry>
    requires CanShift(ids, from, delta)
  {
    seq(|ids|, k requires 0 <= k < |ids| => if k < from then ids[k] else ShiftEntry(ids[k], delta))
  }

  /** The offset-moving loops of the source (`iter_mut().skip(n)` and the `map` over offsets). */
  method ShiftOffsets(ids: seq<Entry>, from: nat, delta: int) returns (r: seq<Entry>)
    requires CanShift(ids, from, delta)
    ensures r == Shifted(ids, from, delta)
  {
    r := ids;
    var k := from;
    while k < |r|
      invariant |r| == |ids|
      invariant forall j :: 0 <= j < |ids| ==> r[j] == if from <= j < k then ShiftEntry(ids[j], delta) else ids[j]
      decreases |r| - k
    {
      r := r[k := ShiftEntry(r[k], delta)];
      k := k + 1;
    }
  }

  /** Shifting keeps ids and liveness, hence the live count. */
  lemma ShiftedShape(ids: seq<Entry>, from: nat, delta: int)
    requires CanShift(ids, from, delta)
    ensures |Shifted(ids, from, delta)| == |ids|
    ensures forall k :: 0 <= k < |ids| ==> Shifted(ids, from, delta)[k].id == ids[k].id
    ensures forall k :: 0 <= k < |ids| ==> Shifted(ids, from, delta)[k].offset.Some? == ids[k].offset.Some?
    ensures LiveCount(Shifted(ids, from, delta)) == LiveCount(ids)
  {
    LiveCountShape(Shifted(ids, from, delta), ids);
  }

  // ---------------------------------------------------------------------------------------
  // Finding offsets and ids

  /** The offset of the first live entry at or after `from`, or `fallback` if there is none. */
  function NextOffset(ids: seq<Entry>, from: nat, fallback: nat): nat
    decreases |ids| - from
  {
    if from >= |ids| then fallback
    else if ids[from].offset.Some? then ids[from].offset.value
    else NextOffset(ids, from + 1, fallback)
  }

  /** `ids.iter().skip(from).find_map(..).unwrap_or(fallback)`. */
  method FindNextOffset(ids: seq<Entry>, from: nat, fallback: nat) returns (r: nat)
    ensures r == NextOffset(ids, from, fallback)
  {
    var k := from;
    while k < |ids| && ids[k].offset.None?
      invariant from <= k
      invariant NextOffset(ids, k, fallback) == NextOffset(ids, from, fallback)
      decreases |ids| - k
    {
      k := k + 1;
    }
    r := if k < |ids| then ids[k].offset.value else fallback;
  }

  /** Under the offset invariant the next offset is the number of live entries before `from`. */
  lemma {:induction false} NextOffsetIsLiveCount(contents: seq<char>, ids: seq<Entry>, from: nat)
    requires OffsetsOk(contents, ids) && from <= |ids|
    ensures NextOffset(ids, from, |contents|) == LiveCount(ids[..from])
    decreases |ids| - from
  {
    if from == |ids| {
      assert ids[..from] == ids;
    } else if ids[from].offset.None? {
      NextOffsetIsLiveCount(contents, ids, from + 1);
      LiveCountStep(ids, from);
    }
  }

  lemma {:induction false} NextOffsetSkip(ids: seq<Entry>, from: nat, upto: nat, fallback: nat)
    requires from <= upto <= |ids|
    requires forall k :: from <= k < upto ==> ids[k].offset.None?
    ensures NextOffset(ids, from, fallback) == NextOffset(ids, upto, fallback)
    decreases upto - from
  {
    if from < upto {
      NextOffsetSkip(ids, from + 1, upto, fallback);
    }
  }

  /** The search loop of `lookup_id_index`: the index of the first entry carrying `id`. */
  method FindId(ids: seq<Entry>, id: Id) returns (r: Option<nat>)
    ensures r.Some? ==> r.value < |ids| && ids[r.value].id == id
    ensures r.Some? ==> forall k :: 0 <= k < r.value ==> ids[k].id != id
    ensures r.None? ==> forall k :: 0 <= k < |ids| ==> ids[k].id != id
  {
    var i := 0;
    while i < |ids|
      invariant i <= |ids|
      invariant forall k :: 0 <= k < i ==> ids[k].id != id
    {
      if ids[i].id == id {
        return Some(i);
      }
      i := i + 1;
    }
    return None;
  }

  /**
   * The search loop of `lookup_insertion_point`: a character appended after `id` goes right
   * after its entry, at the offset of the next live entry (or at the end of `contents`).
   */
  method FindInsertion(ids: seq<Entry>, contentsLen: nat, id: Id) returns (r: Option<Position>)
    ensures r.None? <==> forall k :: 0 <= k < |ids| ==> ids[k].id != id
    ensures r.Some? ==> 1 <= r.value.listIndex <= |ids| && ids[r.value.listIndex - 1].id == id
    ensures r.Some? ==> r.value.stringIndex == NextOffset(ids, r.value.listIndex, contentsLen)
  {
    var found: Option<nat> := None;
    var i := 0;
    while i < |ids|
      invariant i <= |ids|
      invariant found.None? <==> forall k :: 0 <= k < i ==> ids[k].id != id
      invariant found.Some? ==> 1 <= found.value <= i && ids[found.value - 1].id == id
      invariant found.Some? ==> forall k :: found.value <= k < i ==> ids[k].offset.None?
    {
      if found.Some? && ids[i].offset.Some? {
        NextOffsetSkip(ids, found.value, i, contentsLen);
        return Some(Position(ids[i].offset.value, found.value));
      }
      if ids[i].id == id {
        found := Some(i + 1);
      }
      i := i + 1;
    }
    if found.Some? {
      NextOffsetSkip(ids, found.value, |ids|, contentsLen);
      return Some(Position(contentsLen, found.value));
    }
    return None;
  }


  // ---------------------------------------------------------------------------------------
  // Inserting a character

  /** The `ids` of a segment once the live entry `e` is inserted at `li`; later offsets move up. */
  function InsertedIds(ids: seq<Entry>, li: nat, e: Entry): seq<Entry>
    requires li <= |ids|
  {
    InsertAt(Shifted(ids, li, 1), li, e)
  }

  lemma InsertedPrefixBefore(ids: seq<Entry>, li: nat, e: Entry, k: nat)
    requires k <= li <= |ids|
    ensures LiveCount(InsertedIds(ids, li, e)[..k]) == LiveCount(ids[..k])
  {
    var ins := InsertedIds(ids, li, e);
    LiveCountShape(ins[..k], ids[..k]);
  }

  lemma InsertedPrefixAfter(ids: seq<Entry>, li: nat, e: Entry, k: nat)
    requires li < k <= |ids| + 1 && e.offset.Some?
    ensures LiveCount(InsertedIds(ids, li, e)[..k]) == LiveCount(ids[..k - 1]) + 1
  {
    InsertedCountSplit(ids, li, e, k);
    InsertedPrefixBefore(ids, li, e, li);
    LiveCountShape(Shifted(ids, li, 1)[li..k - 1], ids[li..k - 1]);
    LiveCountSplit(ids, li, k - 1);
  }

  /** The live entries of a prefix past the inserted one: those before it, it, and the shifted ones after. */
  lemma InsertedCountSplit(ids: seq<Entry>, li: nat, e: Entry, k: nat)
    requires li < k <= |ids| + 1 && e.offset.Some?
    ensures LiveCount(InsertedIds(ids, li, e)[..k])
         == LiveCount(InsertedIds(ids, li, e)[..li]) + 1 + LiveCount(Shifted(ids, li, 1)[li..k - 1])
  {
    var ins := InsertedIds(ids, li, e);
    var sh := Shifted(ids, li, 1);
    assert ins[..k] == ins[..li] + [e] + sh[li..k - 1];
    LiveCountAppend(ins[..li] + [e], sh[li..k - 1]);
    LiveCountAppend(ins[..li], [e]);
  }

  /** The live entries of a prefix are those of its two parts. */
  lemma LiveCountSplit(ids: seq<Entry>, i: nat, j: nat)
    requires i <= j <= |ids|
    ensures LiveCount(ids[..j]) == LiveCount(ids[..i]) + LiveCount(ids[i..j])
  {
    assert ids[..j] == ids[..i] + ids[i..j];
    LiveCountAppend(ids[..i], ids[i..j]);
  }

  lemma InsertedOffset(contents: seq<char>, ids: seq<Entry>, li: nat, e: Entry, k: nat)
    requires OffsetsOk(contents, ids) && li <= |ids| && e.offset == Some(LiveCount(ids[..li]))
    requires k < |ids| + 1 && InsertedIds(ids, li, e)[k].offset.Some?
    ensures InsertedIds(ids, li, e)[k].offset.value == LiveCount(InsertedIds(ids, li, e)[..k])
  {
    if k <= li {
      InsertedPrefixBefore(ids, li, e, k);
    } else {
      InsertedPrefixAfter(ids, li, e, k);
    }
  }

  lemma InsertedCellBefore(contents: seq<char>, ids: seq<Entry>, li: nat, e: Entry, ch: char, k: nat)
    requires OffsetsOk(contents, ids) && k < li <= |ids| && LiveCount(ids[..li]) <= |contents|
    ensures CellOf(InsertAt(contents, LiveCount(ids[..li]), ch), InsertedIds(ids, li, e)[k]) == CellOf(contents, ids[k])
  {
    assert InsertedIds(ids, li, e)[k] == ids[k];
    if ids[k].offset.Some? {
      LiveCountStep(ids, k);
      LiveCountMono(ids, k + 1, li);
    }
  }

  lemma InsertedCellAfter(contents: seq<char>, ids: seq<Entry>, li: nat, e: Entry, ch: char, k: nat)
    requires OffsetsOk(contents, ids) && li < k <= |ids| && LiveCount(ids[..li]) <= |contents|
    ensures CellOf(InsertAt(contents, LiveCount(ids[..li]), ch), InsertedIds(ids, li, e)[k]) == CellOf(contents, ids[k - 1])
  {
    assert InsertedIds(ids, li, e)[k] == ShiftEntry(ids[k - 1], 1);
    if ids[k - 1].offset.Some? {
      LiveCountMono(ids, li, k - 1);
      OffsetInside(contents, ids, k - 1);
    }
  }

  lemma InsertedCell(contents: seq<char>, ids: seq<Entry>, li: nat, id: Id, ch: char, k: nat)
    requires OffsetsOk(contents, ids) && li <= |ids| && k < |ids| + 1
    requires LiveCount(ids[..li]) <= |contents|
    ensures CellOf(InsertAt(contents, LiveCount(ids[..li]), ch), InsertedIds(ids, li, Entry(id, Some(LiveCount(ids[..li]))))[k])
         == InsertAt(View(contents, ids), li, Cell(id, Some(ch)))[k]
  {
    var e := Entry(id, Some(LiveCount(ids[..li])));
    if k < li {
      InsertedCellBefore(contents, ids, li, e, ch, k);
    } else if k > li {
      InsertedCellAfter(contents, ids, li, e, ch, k);
    }
  }

  /**
   * Inserting a character at list index `li`, at offset `LiveCount(ids[..li])` (what the
   * lookup yields), keeps the offset invariant and inserts one live cell at `li`.
   */
  lemma InsertKeepsOffsets(contents: seq<char>, ids: seq<Entry>, li: nat, id: Id, ch: char)
    requires OffsetsOk(contents, ids) && li <= |ids|
    ensures LiveCount(ids[..li]) <= |contents|
    ensures OffsetsOk(InsertAt(contents, LiveCount(ids[..li]), ch), InsertedIds(ids, li, Entry(id, Some(LiveCount(ids[..li])))))
    ensures View(InsertAt(contents, LiveCount(ids[..li]), ch), InsertedIds(ids, li, Entry(id, Some(LiveCount(ids[..li])))))
         == InsertAt(View(contents, ids), li, Cell(id, Some(ch)))
  {
    var si := LiveCount(ids[..li]);
    LiveCountMono(ids, li, |ids|);
    assert ids[..|ids|] == ids;
    var e := Entry(id, Some(si));
    var c' := InsertAt(contents, si, ch);
    var ins := InsertedIds(ids, li, e);
    InsertedPrefixAfter(ids, li, e, |ins|);
    assert ins[..|ins|] == ins;
    forall k | 0 <= k < |ins| && ins[k].offset.Some?
      ensures ins[k].offset.value == LiveCount(ins[..k])
    {
      InsertedOffset(contents, ids, li, e, k);
    }
    forall k | 0 <= k < |ins|
      ensures View(c', ins)[k] == InsertAt(View(contents, ids), li, Cell(id, Some(ch)))[k]
    {
      InsertedCell(contents, ids, li, id, ch, k);
    }
  }

  /** An insert keeps the old ids in order and puts the new entry at `li`. */
  lemma InsertedIdsAt(ids: seq<Entry>, li: nat, e: Entry)
    requires li <= |ids|
    ensures |InsertedIds(ids, li, e)| == |ids| + 1
    ensures forall k :: 0 <= k < li ==> InsertedIds(ids, li, e)[k].id == ids[k].id
    ensures InsertedIds(ids, li, e)[li] == e
    ensures forall k :: li < k <= |ids| ==> InsertedIds(ids, li, e)[k].id == ids[k - 1].id
  {
    ShiftedShape(ids, li, 1);
  }

  /** Inserting an entry whose id is new keeps the ids distinct. */
  lemma InsertedIdsDistinct(ids: seq<Entry>, li: nat, e: Entry)
    requires li <= |ids| && DistinctIds(ids)
    requires forall k :: 0 <= k < |ids| ==> ids[k].id != e.id
    ensures DistinctIds(InsertedIds(ids, li, e))
  {
    var ins := InsertedIds(ids, li, e);
    InsertedIdsAt(ids, li, e);
    forall a, b | 0 <= a < b < |ins|
      ensures ins[a].id != ins[b].id
    {
      var a' := if a < li then a else a - 1;
      var b' := if b < li then b else b - 1;
      if a != li && b != li {
        assert ins[a].id == ids[a'].id && ins[b].id == ids[b'].id;
      }
    }
  }

  // ---------------------------------------------------------------------------------------
  // Deleting a character

  /** The `ids` of a segment once the live entry at `i` is a tombstone; later offsets move down. */
  function DeletedIds(ids: seq<Entry>, i: nat): seq<Entry>
    requires i < |ids| && CanShift(ids[i := Entry(ids[i].id, None)], i, -1)
  {
    Shifted(ids[i := Entry(ids[i].id, None)], i, -1)
  }

  lemma DeleteCanShift(contents: seq<char>, ids: seq<Entry>, i: nat)
    requires OffsetsOk(contents, ids) && i < |ids| && ids[i].offset.Some?
    ensures CanShift(ids[i := Entry(ids[i].id, None)], i, -1)
  {
    var t := ids[i := Entry(ids[i].id, None)];
    LiveCountStep(ids, i);
    forall k | i <= k < |t| && t[k].offset.Some?
      ensures t[k].offset.value - 1 >= 0
    {
      LiveCountMono(ids, i + 1, k);
    }
  }

  /** A delete keeps every id where it was. */
  lemma DeletedIdsAt(ids: seq<Entry>, i: nat)
    requires i < |ids| && CanShift(ids[i := Entry(ids[i].id, None)], i, -1)
    ensures |DeletedIds(ids, i)| == |ids|
    ensures forall k :: 0 <= k < |ids| ==> DeletedIds(ids, i)[k].id == ids[k].id
  {
    ShiftedShape(ids[i := Entry(ids[i].id, None)], i, -1);
  }

  /** A delete keeps the ids distinct and the id set the same. */
  lemma DeletedIdsDistinct(ids: seq<Entry>, i: nat)
    requires i < |ids| && CanShift(ids[i := Entry(ids[i].id, None)], i, -1) && DistinctIds(ids)
    ensures DistinctIds(DeletedIds(ids, i))
    ensures forall e :: e in ids ==> exists k :: 0 <= k < |ids| && DeletedIds(ids, i)[k].id == e.id
  {
    DeletedIdsAt(ids, i);
    forall e | e in ids
      ensures exists k :: 0 <= k < |ids| && DeletedIds(ids, i)[k].id == e.id
    {
      var k :| 0 <= k < |ids| && ids[k] == e;
      assert DeletedIds(ids, i)[k].id == e.id;
    }
  }

  lemma DeletedPrefixCount(contents: seq<char>, ids: seq<Entry>, i: nat, k: nat)
    requires OffsetsOk(contents, ids) && i < |ids| && ids[i].offset.Some? && k <= |ids|
    ensures CanShift(ids[i := Entry(ids[i].id, None)], i, -1)
    ensures LiveCount(DeletedIds(ids, i)[..k]) == if k <= i then LiveCount(ids[..k]) else LiveCount(ids[..k]) - 1
  {
    hide OffsetsOk, LiveCount;
    DeleteCanShift(contents, ids, i);
    var d := DeletedIds(ids, i);
    assert |d| == |ids| && d[i].offset.None?;
    assert forall m :: 0 <= m < |d| && m != i ==> d[m].offset.Some? == ids[m].offset.Some?;
    LiveOneLess(d, ids, i, k);
  }

  /** Two entry lists alike in liveness except at `i`, live only in `ids`: one fewer live entry past `i`. */
  lemma LiveOneLess(d: seq<Entry>, ids: seq<Entry>, i: nat, k: nat)
    requires |d| == |ids| && i < |ids| && k <= |ids| && d[i].offset.None? && ids[i].offset.Some?
    requires forall m :: 0 <= m < |d| && m != i ==> d[m].offset.Some? == ids[m].offset.Some?
    ensures LiveCount(d[..k]) == if k <= i then LiveCount(ids[..k]) else LiveCount(ids[..k]) - 1
  {
    if k <= i {
      LiveCountShape(d[..k], ids[..k]);
    } else {
      assert d[..k] == d[..i] + [d[i]] + d[i + 1..k];
      assert ids[..k] == ids[..i] + [ids[i]] + ids[i + 1..k];
      LiveCountAppend(d[..i] + [d[i]], d[i + 1..k]);
      LiveCountAppend(d[..i], [d[i]]);
      LiveCountAppend(ids[..i] + [ids[i]], ids[i + 1..k]);
      LiveCountAppend(ids[..i], [ids[i]]);
      LiveCountShape(d[..i], ids[..i]);
      LiveCountShape(d[i + 1..k], ids[i + 1..k]);
    }
  }

  lemma DeletedCell(contents: seq<char>, ids: seq<Entry>, i: nat, k: nat)
    requires OffsetsOk(contents, ids) && i < |ids| && ids[i].offset.Some? && k < |ids|
    ensures ids[i].offset.value < |contents|
    ensures CanShift(ids[i := Entry(ids[i].id, None)], i, -1)
    ensures CellOf(RemoveAt(contents, ids[i].offset.value), DeletedIds(ids, i)[k])
         == View(contents, ids)[i := Cell(ids[i].id, None)][k]
  {
    OffsetInside(contents, ids, i);
    DeleteCanShift(contents, ids, i);
    if k < i && ids[k].offset.Some? {
      LiveCountStep(ids, k);
      LiveCountMono(ids, k + 1, i);
    } else if k > i && ids[k].offset.Some? {
      LiveCountStep(ids, i);
      LiveCountMono(ids, i + 1, k);
      OffsetInside(contents, ids, k);
    }
  }

  /**
   * Removing the character of the live entry at `i` and making the entry a tombstone keeps
   * the offset invariant and turns exactly that cell into a tombstone.
   */
  lemma DeleteKeepsOffsets(contents: seq<char>, ids: seq<Entry>, i: nat)
    requires OffsetsOk(contents, ids) && i < |ids| && ids[i].offset.Some?
    ensures ids[i].offset.value < |contents|
    ensures CanShift(ids[i := Entry(ids[i].id, None)], i, -1)
    ensures OffsetsOk(RemoveAt(contents, ids[i].offset.value), DeletedIds(ids, i))
    ensures View(RemoveAt(contents, ids[i].offset.value), DeletedIds(ids, i)) == View(contents, ids)[i := Cell(ids[i].id, None)]
  {
    OffsetInside(contents, ids, i);
    DeleteCanShift(contents, ids, i);
    var d := DeletedIds(ids, i);
    var c' := RemoveAt(contents, ids[i].offset.value);
    DeletedPrefixCount(contents, ids, i, |d|);
    assert d[..|d|] == d && ids[..|ids|] == ids;
    forall k | 0 <= k < |d| && d[k].offset.Some?
      ensures d[k].offset.value == LiveCount(d[..k])
    {
      DeletedPrefixCount(contents, ids, i, k);
    }
    forall k | 0 <= k < |d|
      ensures View(c', d)[k] == View(contents, ids)[i := Cell(ids[i].id, None)][k]
    {
      DeletedCell(contents, ids, i, k);
    }
  }

  // ---------------------------------------------------------------------------------------
  // Splitting and joining segments

  lemma SplitLeftOk(contents: seq<char>, ids: seq<Entry>, m: nat, ss: nat)
    requires OffsetsOk(contents, ids) && m <= |ids| && ss == LiveCount(ids[..m])
    ensures ss <= |contents|
    ensures OffsetsOk(contents[..ss], ids[..m])
  {
    LiveCountMono(ids, m, |ids|);
    assert ids[..|ids|] == ids;
    forall k | 0 <= k < m && ids[..m][k].offset.Some?
      ensures ids[..m][k].offset.value == LiveCount(ids[..m][..k])
    {
      assert ids[..m][..k] == ids[..k];
    }
  }

  lemma SplitRightCanShift(contents: seq<char>, ids: seq<Entry>, m: nat, ss: nat)
    requires OffsetsOk(contents, ids) && m <= |ids| && ss == LiveCount(ids[..m])
    ensures CanShift(ids[m..], 0, -(ss as int))
  {
    forall k | 0 <= k < |ids[m..]| && ids[m..][k].offset.Some?
      ensures ids[m..][k].offset.value >= ss
    {
      LiveCountMono(ids, m, m + k);
    }
  }

  lemma SplitRightOffset(contents: seq<char>, ids: seq<Entry>, m: nat, ss: nat, k: nat)
    requires OffsetsOk(contents, ids) && m <= |ids| && ss == LiveCount(ids[..m])
    requires CanShift(ids[m..], 0, -(ss as int))
    requires k < |ids| - m && Shifted(ids[m..], 0, -(ss as int))[k].offset.Some?
    ensures Shifted(ids[m..], 0, -(ss as int))[k].offset.value == LiveCount(Shifted(ids[m..], 0, -(ss as int))[..k])
  {
    var right := ids[m..];
    var r := Shifted(right, 0, -(ss as int));
    assert ids[..m + k] == ids[..m] + right[..k];
    LiveCountAppend(ids[..m], right[..k]);
    ShiftedShape(right, 0, -(ss as int));
    LiveCountShape(r[..k], right[..k]);
  }

  lemma SplitRightOk(contents: seq<char>, ids: seq<Entry>, m: nat, ss: nat)
    requires OffsetsOk(contents, ids) && m <= |ids| && ss == LiveCount(ids[..m])
    ensures ss <= |contents|
    ensures CanShift(ids[m..], 0, -(ss as int))
    ensures OffsetsOk(contents[ss..], Shifted(ids[m..], 0, -(ss as int)))
  {
    SplitRightCount(contents, ids, m, ss);
    SplitRightCanShift(contents, ids, m, ss);
    ShiftedShape(ids[m..], 0, -(ss as int));
    var r := Shifted(ids[m..], 0, -(ss as int));
    forall k | 0 <= k < |r| && r[k].offset.Some?
      ensures r[k].offset.value == LiveCount(r[..k])
    {
      SplitRightOffset(contents, ids, m, ss, k);
    }
  }

  /** The right part of a cut holds the characters after the left part's. */
  lemma SplitRightCount(contents: seq<char>, ids: seq<Entry>, m: nat, ss: nat)
    requires OffsetsOk(contents, ids) && m <= |ids| && ss == LiveCount(ids[..m])
    ensures ss <= |contents| && LiveCount(ids[m..]) == |contents| - ss
  {
    assert ids == ids[..m] + ids[m..];
    LiveCountAppend(ids[..m], ids[m..]);
  }

  lemma SplitCell(contents: seq<char>, ids: seq<Entry>, m: nat, ss: nat, k: nat)
    requires OffsetsOk(contents, ids) && m <= |ids| && ss == LiveCount(ids[..m]) && ss <= |contents|
    requires CanShift(ids[m..], 0, -(ss as int)) && k < |ids|
    ensures (View(contents[..ss], ids[..m]) + View(contents[ss..], Shifted(ids[m..], 0, -(ss as int))))[k]
         == View(contents, ids)[k]
  {
    if k < m && ids[k].offset.Some? {
      LiveCountStep(ids, k);
      LiveCountMono(ids, k + 1, m);
    } else if k >= m && ids[k].offset.Some? {
      OffsetInside(contents, ids, k);
      LiveCountMono(ids, m, k);
    }
  }

  /**
   * Cutting a segment before list index `m`, at offset `ss = LiveCount(ids[..m])`, and
   * rebasing the right half's offsets gives two segments that keep the offset invariant and
   * together stand for the same cells.
   */
  lemma SplitKeepsOffsets(contents: seq<char>, ids: seq<Entry>, m: nat, ss: nat)
    requires OffsetsOk(contents, ids) && m <= |ids| && ss == LiveCount(ids[..m])
    ensures ss <= |contents|
    ensures CanShift(ids[m..], 0, -(ss as int))
    ensures OffsetsOk(contents[..ss], ids[..m])
    ensures OffsetsOk(contents[ss..], Shifted(ids[m..], 0, -(ss as int)))
    ensures View(contents[..ss], ids[..m]) + View(contents[ss..], Shifted(ids[m..], 0, -(ss as int))) == View(contents, ids)
  {
    SplitLeftOk(contents, ids, m, ss);
    SplitRightOk(contents, ids, m, ss);
    forall k | 0 <= k < |ids|
      ensures (View(contents[..ss], ids[..m]) + View(contents[ss..], Shifted(ids[m..], 0, -(ss as int))))[k]
           == View(contents, ids)[k]
    {
      SplitCell(contents, ids, m, ss, k);
    }
  }

  lemma JoinOffset(c1: seq<char>, ids1: seq<Entry>, c2: seq<char>, ids2: seq<Entry>, k: nat)
    requires OffsetsOk(c1, ids1) && OffsetsOk(c2, ids2) && CanShift(ids2, 0, |c1|)
    requires k < |ids1| + |ids2| && (ids1 + Shifted(ids2, 0, |c1|))[k].offset.Some?
    ensures (ids1 + Shifted(ids2, 0, |c1|))[k].offset.value == LiveCount((ids1 + Shifted(ids2, 0, |c1|))[..k])
  {
    var r := Shifted(ids2, 0, |c1|);
    var j := ids1 + r;
    if k < |ids1| {
      assert j[..k] == ids1[..k];
    } else {
      assert j[..k] == ids1 + r[..k - |ids1|];
      assert ids1[..|ids1|] == ids1;
      LiveCountAppend(ids1, r[..k - |ids1|]);
      ShiftedShape(ids2, 0, |c1|);
      LiveCountShape(r[..k - |ids1|], ids2[..k - |ids1|]);
    }
  }

  lemma JoinCell(c1: seq<char>, ids1: seq<Entry>, c2: seq<char>, ids2: seq<Entry>, k: nat)
    requires OffsetsOk(c1, ids1) && OffsetsOk(c2, ids2) && CanShift(ids2, 0, |c1|)
    requires k < |ids1| + |ids2|
    ensures View(c1 + c2, ids1 + Shifted(ids2, 0, |c1|))[k] == (View(c1, ids1) + View(c2, ids2))[k]
  {
    if k < |ids1| && ids1[k].offset.Some? {
      OffsetInside(c1, ids1, k);
    } else if k >= |ids1| && ids2[k - |ids1|].offset.Some? {
      OffsetInside(c2, ids2, k - |ids1|);
    }
  }

  /**
   * Appending a segment to another, with the appended offsets moved up by the length of the
   * first one's contents, keeps the offset invariant and concatenates their cells.
   */
  lemma JoinKeepsOffsets(c1: seq<char>, ids1: seq<Entry>, c2: seq<char>, ids2: seq<Entry>)
    requires OffsetsOk(c1, ids1) && OffsetsOk(c2, ids2)
    ensures CanShift(ids2, 0, |c1|)
    ensures OffsetsOk(c1 + c2, ids1 + Shifted(ids2, 0, |c1|))
    ensures View(c1 + c2, ids1 + Shifted(ids2, 0, |c1|)) == View(c1, ids1) + View(c2, ids2)
  {
    var r := Shifted(ids2, 0, |c1|);
    var j := ids1 + r;
    ShiftedShape(ids2, 0, |c1|);
    LiveCountAppend(ids1, r);
    forall k | 0 <= k < |j| && j[k].offset.Some?
      ensures j[k].offset.value == LiveCount(j[..k])
    {
      JoinOffset(c1, ids1, c2, ids2, k);
    }
    forall k | 0 <= k < |j|
      ensures View(c1 + c2, j)[k] == (View(c1, ids1) + View(c2, ids2))[k]
    {
      JoinCell(c1, ids1, c2, ids2, k);
    }
  }

  /** Joining the two halves a split produces gives back the segment that was split. */
  lemma JoinUndoesSplit(contents: seq<char>, ids: seq<Entry>, m: nat, ss: nat)
    requires OffsetsOk(contents, ids) && m <= |ids| && ss == LiveCount(ids[..m])
    ensures ss <= |contents| && CanShift(ids[m..], 0, -(ss as int))
    ensures CanShift(Shifted(ids[m..], 0, -(ss as int)), 0, |contents[..ss]|)
    ensures contents[..ss] + contents[ss..] == contents
    ensures ids[..m] + Shifted(Shifted(ids[m..], 0, -(ss as int)), 0, |contents[..ss]|) == ids
  {
    SplitLeftOk(contents, ids, m, ss);
    SplitRightCanShift(contents, ids, m, ss);
    var r := Shifted(ids[m..], 0, -(ss as int));
    assert ids[..m] + Shifted(r, 0, ss) == ids;
  }

  // ---------------------------------------------------------------------------------------
  // Visible text

  /** The visible text of a concatenation is the concatenation of the visible texts. */
  lemma {:induction false} VisibleAppend(a: seq<Cell>, b: seq<Cell>)
    ensures Visible(a + b) == Visible(a) + Visible(b)
    decreases |b|
  {
    if b == [] {
      assert a + b == a;
    } else {
      assert (a + b)[..|a + b| - 1] == a + b[..|b| - 1];
      VisibleAppend(a, b[..|b| - 1]);
    }
  }

  lemma {:induction false} VisiblePrefix(contents: seq<char>, ids: seq<Entry>, k: nat)
    requires OffsetsOk(contents, ids) && k <= |ids|
    ensures LiveCount(ids[..k]) <= |contents|
    ensures Visible(View(contents, ids)[..k]) == contents[..LiveCount(ids[..k])]
  {
    LiveCountMono(ids, k, |ids|);
    assert ids[..|ids|] == ids;
    if k > 0 {
      VisiblePrefix(contents, ids, k - 1);
      LiveCountStep(ids, k - 1);
      var v, n := View(contents, ids), LiveCount(ids[..k - 1]);
      assert v[..k][..k - 1] == v[..k - 1];
      assert v[..k][k - 1] == CellOf(contents, ids[k - 1]);
      if ids[k - 1].offset.Some? {
        OffsetInside(contents, ids, k - 1);
        assert contents[..n + 1] == contents[..n] + [contents[n]];
      }
    }
  }

  /** Under the offset invariant the visible text of a segment is its `contents`. */
  lemma VisibleView(contents: seq<char>, ids: seq<Entry>)
    requires OffsetsOk(contents, ids)
    ensures Visible(View(contents, ids)) == contents
  {
    VisiblePrefix(contents, ids, |ids|);
    assert View(contents, ids)[..|ids|] == View(contents, ids);
    assert ids[..|ids|] == ids;
  }
}
