/** Slotted leaf pages: slots grow up after the header, cells grow down from
    the end of the page, and nothing lies between two cells. */
module LeafPage {
  import opened Bytes
  import opened Cells

  const NODE_TYPE_LEAF: byte := 1

  function NumCells(s: seq<byte>): nat
    requires |s| == PAGE_SIZE
  {
    U(s, 1, 4)
  }

  function NextLeaf(s: seq<byte>): nat
    requires |s| == PAGE_SIZE
  {
    U(s, 5, 4)
  }

  function DataStart(s: seq<byte>): nat
    requires |s| == PAGE_SIZE
  {
    U(s, 9, 2)
  }

  function SlotPos(i: nat): nat {
    LEAF_HEADER_SIZE + i * SLOT_SIZE
  }

  function SlotOff(s: seq<byte>, i: nat): nat
    requires SlotPos(i) + 4 <= |s|
  {
    U(s, SlotPos(i), 2)
  }

  function SlotLen(s: seq<byte>, i: nat): nat
    requires SlotPos(i) + 4 <= |s|
  {
    U(s, SlotPos(i) + 2, 2)
  }

  /** The cell slot i points to; an arbitrary cell if the slot is malformed. */
  function CellAt(s: seq<byte>, i: nat): Cell
    requires SlotPos(i) + 4 <= |s|
  {
    var off, len := SlotOff(s, i), SlotLen(s, i);
    if KEY_SIZE <= len && off + len <= |s|
    then Cell(I64FromLE(s[off..off + 8]), s[off + 8..off + len])
    else Cell(0, [])
  }

  /** The decoded leaf: the cells in slot order. */
  function LeafCells(s: seq<byte>): (cs: seq<Cell>)
    requires |s| == PAGE_SIZE
  {
    if SlotPos(NumCells(s)) > |s| then []
    else seq(NumCells(s), i requires 0 <= i < NumCells(s) => CellAt(s, i))
  }

  ghost predicate Disjoint(s: seq<byte>, i: nat, j: nat)
    requires SlotPos(i) + 4 <= |s| && SlotPos(j) + 4 <= |s|
  {
    SlotOff(s, i) + SlotLen(s, i) <= SlotOff(s, j) || SlotOff(s, j) + SlotLen(s, j) <= SlotOff(s, i)
  }

  /** Slot i holds cell c, inside [ds, 4096). */
  ghost predicate SlotHolds(s: seq<byte>, i: nat, c: Cell, ds: nat)
    requires SlotPos(i) + 4 <= |s|
  {
    && ds <= SlotOff(s, i)
    && SlotLen(s, i) == Size(c)
    && SlotOff(s, i) + SlotLen(s, i) <= |s|
    && CellAt(s, i) == c
  }

  /** The first |cs| slots hold cs; the cells are in bounds, pairwise disjoint,
      clear of the slot directory, and fill [ds, 4096) without a hole. */
  ghost predicate Layout(s: seq<byte>, cs: seq<Cell>, ds: nat) {
    && |s| == PAGE_SIZE
    && SlotPos(|cs|) <= ds
    && ds + DataBytes(cs) == PAGE_SIZE
    && (forall i :: 0 <= i < |cs| ==> SlotHolds(s, i, cs[i], ds))
    && (forall i, j :: 0 <= i < j < |cs| ==> Disjoint(s, i, j))
  }

  ghost predicate LeafOk(s: seq<byte>) {
    && |s| == PAGE_SIZE
    && s[0] == NODE_TYPE_LEAF
    && |LeafCells(s)| == NumCells(s)
    && Layout(s, LeafCells(s), DataStart(s))
  }

  /** A page whose header announces a laid-out list decodes to that list. */
  lemma LayoutDecodes(s: seq<byte>, cs: seq<Cell>)
    requires |s| == PAGE_SIZE && s[0] == NODE_TYPE_LEAF
    requires NumCells(s) == |cs| && Layout(s, cs, DataStart(s))
    ensures LeafOk(s) && LeafCells(s) == cs
  {
    forall i | 0 <= i < |cs| ensures LeafCells(s)[i] == cs[i] {
      assert SlotHolds(s, i, cs[i], DataStart(s));
    }
    assert LeafCells(s) == cs;
  }

  /** What the slot directory leaves free: leaf_free_space. */
  function FreeSpace(s: seq<byte>): nat
    requires |s| == PAGE_SIZE
  {
    var slotsEnd := SlotPos(NumCells(s));
    if DataStart(s) > slotsEnd then DataStart(s) - slotsEnd else 0
  }

  /** The header arithmetic measures exactly the decoded cells. */
  lemma FreeSpaceExact(s: seq<byte>)
    requires LeafOk(s)
    ensures TotalCost(LeafCells(s)) <= LEAF_CAPACITY
    ensures FreeSpace(s) == LEAF_CAPACITY - TotalCost(LeafCells(s))
  {
  }

  /** No page decodes to cells above the capacity: written one below the other,
      they reach into their own slot directory. */
  lemma OverfullHasNoPage(s: seq<byte>, cs: seq<Cell>)
    requires TotalCost(cs) > LEAF_CAPACITY
    ensures !(LeafOk(s) && LeafCells(s) == cs)
    ensures PAGE_SIZE - DataBytes(cs) < SlotPos(|cs|)
  {
  }

  /** A slot whose last byte is also the first byte of its own cell: the key
      read back ends in the high byte of the length. */
  lemma KeyUnderSlot(s: seq<byte>, i: nat)
    requires |s| == PAGE_SIZE && SlotPos(i) + 4 <= |s| && SlotOff(s, i) == SlotPos(i) + 3
    requires KEY_SIZE <= SlotLen(s, i) && SlotOff(s, i) + SlotLen(s, i) <= |s|
    ensures CellAt(s, i).key % 256 == SlotLen(s, i) / 256
  {
    hide I64FromLE, FromLE;
    var off := SlotOff(s, i);
    HighByte(s[off - 1..off + 1]);
    LowByte(s[off..off + 8]);
    assert s[off - 1..off + 1][1] == s[off] == s[off..off + 8][0];
  }

  lemma HighByte(b: seq<byte>)
    requires |b| == 2
    ensures FromLE(b) / 256 == b[1]
  {
    assert b[1..] == [b[1]] && [b[1]][1..] == [];
    assert FromLE([b[1]]) == b[1];
  }

  lemma LowByte(b: seq<byte>)
    requires |b| == 8
    ensures I64FromLE(b) % 256 == b[0]
  {
    assert FromLE(b) == b[0] + 256 * FromLE(b[1..]);
  }

  /** A slot outside the bytes that changed still points where it did. */
  lemma SlotSame(s: seq<byte>, r: seq<byte>, lo: nat, hi: nat, i: nat)
    requires SameOutside(s, r, lo, hi)
    requires SlotPos(i) + 4 <= |s| && (SlotPos(i) + 4 <= lo || hi <= SlotPos(i))
    ensures SlotOff(r, i) == SlotOff(s, i) && SlotLen(r, i) == SlotLen(s, i)
  {
    USame(s, r, lo, hi, SlotPos(i), 2);
    USame(s, r, lo, hi, SlotPos(i) + 2, 2);
  }

  lemma HeaderSame(s: seq<byte>, r: seq<byte>, lo: nat, hi: nat)
    requires SameOutside(s, r, lo, hi) && |s| == PAGE_SIZE && LEAF_HEADER_SIZE <= lo
    ensures r[0] == s[0] && NumCells(r) == NumCells(s) && NextLeaf(r) == NextLeaf(s) && DataStart(r) == DataStart(s)
  {
    USame(s, r, lo, hi, 1, 4);
    USame(s, r, lo, hi, 5, 4);
    USame(s, r, lo, hi, 9, 2);
  }

  method WriteSlot(a: array<byte>, i: nat, off: nat, len: nat)
    requires a.Length == PAGE_SIZE && SlotPos(i) + 4 <= PAGE_SIZE
    requires off < 65536 && len < 65536
    modifies a
    ensures SameOutside(old(a[..]), a[..], SlotPos(i), SlotPos(i) + 4)
    ensures SlotOff(a[..], i) == off && SlotLen(a[..], i) == len
  {
    Widths();
    WriteU(a, SlotPos(i), 2, off);
    ghost var s := a[..];
    WriteU(a, SlotPos(i) + 2, 2, len);
    USame(s, a[..], SlotPos(i) + 2, SlotPos(i) + 4, SlotPos(i), 2);
  }

  method InitLeaf(a: array<byte>)
    requires a.Length == PAGE_SIZE
    modifies a
    ensures LeafOk(a[..]) && LeafCells(a[..]) == [] && NextLeaf(a[..]) == 0
  {
    Widths();
    a[0] := NODE_TYPE_LEAF;
    WriteU(a, 1, 4, 0);
    ghost var s1 := a[..];
    WriteU(a, 5, 4, 0);
    ghost var s2 := a[..];
    WriteU(a, 9, 2, PAGE_SIZE);
    USame(s1, s2, 5, 9, 1, 4);
    USame(s2, a[..], 9, 11, 1, 4);
    USame(s2, a[..], 9, 11, 5, 4);
    LayoutDecodes(a[..], []);
  }

  method SetNextLeaf(a: array<byte>, v: nat)
    requires LeafOk(a[..]) && v < TWO32
    modifies a
    ensures LeafOk(a[..]) && LeafCells(a[..]) == old(LeafCells(a[..])) && NextLeaf(a[..]) == v
  {
    Widths();
    ghost var s := a[..];
    WriteU(a, 5, 4, v);
    USame(s, a[..], 5, 9, 1, 4);
    USame(s, a[..], 5, 9, 9, 2);
    LayoutSame(s, a[..], 5, 9, LeafCells(s), DataStart(s));
    LayoutDecodes(a[..], LeafCells(s));
  }

  /** Writes that stay out of the used slots and out of the data region keep a layout. */
  lemma LayoutSame(s: seq<byte>, r: seq<byte>, lo: nat, hi: nat, cs: seq<Cell>, ds: nat)
    requires Layout(s, cs, ds) && SameOutside(s, r, lo, hi)
    requires hi <= LEAF_HEADER_SIZE || (SlotPos(|cs|) <= lo && hi <= ds)
    ensures Layout(r, cs, ds)
  {
    forall i | 0 <= i < |cs|
      ensures SlotOff(r, i) == SlotOff(s, i) && SlotLen(r, i) == SlotLen(s, i)
      ensures SlotHolds(r, i, cs[i], ds)
    {
      assert SlotHolds(s, i, cs[i], ds);
      SlotSame(s, r, lo, hi, i);
      CellSame(s, r, lo, hi, i, cs[i], ds);
    }
    forall i, j | 0 <= i < j < |cs| ensures Disjoint(r, i, j) {
      assert Disjoint(s, i, j);
    }
  }

  lemma CellSame(s: seq<byte>, r: seq<byte>, lo: nat, hi: nat, i: nat, c: Cell, ds: nat)
    requires SameOutside(s, r, lo, hi) && SlotPos(i) + 4 <= |s|
    requires SlotHolds(s, i, c, ds) && hi <= ds
    requires SlotOff(r, i) == SlotOff(s, i) && SlotLen(r, i) == SlotLen(s, i)
    ensures SlotHolds(r, i, c, ds)
  {
    SliceSame(s, r, lo, hi, SlotOff(s, i), 8);
    SliceSame(s, r, lo, hi, SlotOff(s, i) + 8, SlotLen(s, i) - 8);
  }

  // ------------------------------------------------------------------
  // insert_into_leaf
  // ------------------------------------------------------------------

  /** The slot of cell i while slot gap is being vacated. */
  function Skip(gap: nat, i: nat): nat {
    if i < gap then i else i + 1
  }

  /** A layout whose slots from gap on have moved up by one. */
  ghost predicate Gapped(s: seq<byte>, cs: seq<Cell>, gap: nat, ds: nat) {
    && |s| == PAGE_SIZE
    && gap <= |cs|
    && SlotPos(|cs| + 1) <= ds <= PAGE_SIZE
    && (forall i :: 0 <= i < |cs| ==> SlotHolds(s, Skip(gap, i), cs[i], ds))
    && (forall i, j :: 0 <= i < j < |cs| ==> Disjoint(s, Skip(gap, i), Skip(gap, j)))
  }

  /** Writes to the header, to the vacated slot, or to free space keep it. */
  lemma GappedSame(s: seq<byte>, r: seq<byte>, lo: nat, hi: nat, cs: seq<Cell>, gap: nat, ds: nat)
    requires Gapped(s, cs, gap, ds) && SameOutside(s, r, lo, hi)
    requires || hi <= LEAF_HEADER_SIZE
             || (SlotPos(gap) <= lo && hi <= SlotPos(gap) + 4)
             || (SlotPos(|cs| + 1) <= lo && hi <= ds)
    ensures Gapped(r, cs, gap, ds)
  {
    forall i | 0 <= i < |cs|
      ensures SlotOff(r, Skip(gap, i)) == SlotOff(s, Skip(gap, i))
      ensures SlotLen(r, Skip(gap, i)) == SlotLen(s, Skip(gap, i))
      ensures SlotHolds(r, Skip(gap, i), cs[i], ds)
    {
      assert SlotHolds(s, Skip(gap, i), cs[i], ds);
      SlotSame(s, r, lo, hi, Skip(gap, i));
      CellSame(s, r, lo, hi, Skip(gap, i), cs[i], ds);
    }
    forall i, j | 0 <= i < j < |cs| ensures Disjoint(r, Skip(gap, i), Skip(gap, j)) {
      assert Disjoint(s, Skip(gap, i), Skip(gap, j));
    }
  }

  lemma FilledHolds(s: seq<byte>, cs: seq<Cell>, gap: nat, ds: nat, c: Cell, nds: nat, k: nat)
    requires Gapped(s, cs, gap, ds) && nds + Size(c) == ds
    requires SlotHolds(s, gap, c, nds) && k <= |cs|
    ensures SlotHolds(s, k, InsertAt(cs, gap, c)[k], nds)
  {
    hide U, CellAt;
    if k != gap {
      var i := if k < gap then k else k - 1;
      assert SlotHolds(s, Skip(gap, i), cs[i], ds);
    }
  }

  lemma FilledDisjoint(s: seq<byte>, cs: seq<Cell>, gap: nat, ds: nat, c: Cell, nds: nat, k: nat, l: nat)
    requires Gapped(s, cs, gap, ds) && nds + Size(c) == ds
    requires SlotHolds(s, gap, c, nds) && SlotOff(s, gap) == nds && k < l <= |cs|
    ensures Disjoint(s, k, l)
  {
    hide U, CellAt;
    var i := if k < gap then k else k - 1;
    var j := if l < gap then l else l - 1;
    if k != gap && l != gap {
      assert Disjoint(s, Skip(gap, i), Skip(gap, j));
    } else if k == gap {
      assert SlotHolds(s, Skip(gap, j), cs[j], ds);
    } else {
      assert SlotHolds(s, Skip(gap, i), cs[i], ds);
    }
  }

  /** Filling the vacated slot with a cell that ends where the others begin. */
  lemma GapFilled(s: seq<byte>, cs: seq<Cell>, gap: nat, ds: nat, c: Cell, nds: nat)
    requires Gapped(s, cs, gap, ds) && ds + DataBytes(cs) == PAGE_SIZE
    requires nds + Size(c) == ds && SlotPos(|cs| + 1) <= nds
    requires SlotHolds(s, gap, c, nds) && SlotOff(s, gap) == nds
    ensures Layout(s, InsertAt(cs, gap, c), nds)
  {
    hide SlotHolds, Disjoint, SlotOff, InsertAt, DataBytes;
    var r := InsertAt(cs, gap, c);
    InsertAtBytes(cs, gap, c);
    forall k | 0 <= k < |r| ensures SlotHolds(s, k, r[k], nds) {
      FilledHolds(s, cs, gap, ds, c, nds, k);
    }
    forall k, l | 0 <= k < l < |r| ensures Disjoint(s, k, l) {
      FilledDisjoint(s, cs, gap, ds, c, nds, k, l);
    }
  }

  /** One shifted slot: it moved, or not, and its cell did not. */
  lemma ShiftedSlot(s: seq<byte>, r: seq<byte>, cs: seq<Cell>, pos: nat, ds: nat, k: nat)
    requires Layout(s, cs, ds) && pos <= |cs| && SlotPos(|cs| + 1) <= ds && k < |cs|
    requires SameOutside(s, r, SlotPos(pos + 1), SlotPos(|cs| + 1))
    requires k >= pos ==> SlotOff(r, k + 1) == SlotOff(s, k) && SlotLen(r, k + 1) == SlotLen(s, k)
    ensures SlotOff(r, Skip(pos, k)) == SlotOff(s, k) && SlotLen(r, Skip(pos, k)) == SlotLen(s, k)
    ensures SlotHolds(r, Skip(pos, k), cs[k], ds)
  {
    hide U, DataBytes;
    assert SlotHolds(s, k, cs[k], ds);
    if k < pos {
      SlotSame(s, r, SlotPos(pos + 1), SlotPos(|cs| + 1), k);
    }
    SliceSame(s, r, SlotPos(pos + 1), SlotPos(|cs| + 1), SlotOff(s, k), 8);
    SliceSame(s, r, SlotPos(pos + 1), SlotPos(|cs| + 1), SlotOff(s, k) + 8, SlotLen(s, k) - 8);
  }

  /** Slots [pos..num) copied one up: the cells themselves did not move. */
  lemma ShiftedGap(s: seq<byte>, r: seq<byte>, cs: seq<Cell>, pos: nat, ds: nat)
    requires Layout(s, cs, ds) && pos <= |cs| && SlotPos(|cs| + 1) <= ds
    requires SameOutside(s, r, SlotPos(pos + 1), SlotPos(|cs| + 1))
    requires forall j :: pos <= j < |cs| ==> SlotOff(r, j + 1) == SlotOff(s, j) && SlotLen(r, j + 1) == SlotLen(s, j)
    ensures Gapped(r, cs, pos, ds)
  {
    hide U, SlotHolds, SlotOff, SlotLen, DataBytes;
    forall k | 0 <= k < |cs|
      ensures SlotOff(r, Skip(pos, k)) == SlotOff(s, k) && SlotLen(r, Skip(pos, k)) == SlotLen(s, k)
      ensures SlotHolds(r, Skip(pos, k), cs[k], ds)
    {
      ShiftedSlot(s, r, cs, pos, ds, k);
    }
    forall k, l | 0 <= k < l < |cs| ensures Disjoint(r, Skip(pos, k), Skip(pos, l)) {
      assert Disjoint(s, k, l);
    }
  }

  lemma SlotBounds(s: seq<byte>, cs: seq<Cell>, ds: nat, i: nat)
    requires Layout(s, cs, ds) && i < |cs|
    ensures SlotOff(s, i) <= PAGE_SIZE && SlotLen(s, i) <= PAGE_SIZE
  {
    hide U, CellAt;
    assert SlotHolds(s, i, cs[i], ds);
  }

  /** Shift the slots [pos..num) up by one, last first. */
  method ShiftSlots(a: array<byte>, pos: nat, num: nat)
    requires LeafOk(a[..]) && pos <= num == NumCells(a[..])
    requires SlotPos(num + 1) <= DataStart(a[..])
    modifies a
    ensures SameOutside(old(a[..]), a[..], SlotPos(pos + 1), SlotPos(num + 1))
    ensures Gapped(a[..], old(LeafCells(a[..])), pos, old(DataStart(a[..])))
  {
    hide U, SlotHolds, Disjoint;
    ghost var s, cs, ds := a[..], LeafCells(a[..]), DataStart(a[..]);
    var i := num;
    while i > pos
      invariant pos <= i <= num
      invariant SameOutside(s, a[..], SlotPos(i + 1), SlotPos(num + 1))
      invariant forall j :: i <= j < num ==>
        SlotOff(a[..], j + 1) == SlotOff(s, j) && SlotLen(a[..], j + 1) == SlotLen(s, j)
    {
      i := i - 1;
      SlotSame(s, a[..], SlotPos(i + 2), SlotPos(num + 1), i);
      SlotBounds(s, cs, ds, i);
      ghost var before := a[..];
      var off, len := SlotOff(a[..], i), SlotLen(a[..], i);
      WriteSlot(a, i + 1, off, len);
      forall j | i + 1 <= j < num
        ensures SlotOff(a[..], j + 1) == SlotOff(s, j) && SlotLen(a[..], j + 1) == SlotLen(s, j)
      {
        SlotSame(before, a[..], SlotPos(i + 1), SlotPos(i + 2), j + 1);
      }
    }
    ShiftedGap(s, a[..], cs, pos, ds);
  }

  /** The first slot whose key is not below key. */
  method FindSlot(a: array<byte>, key: i64) returns (pos: nat)
    requires LeafOk(a[..])
    ensures pos == LowerBound(KeysOf(LeafCells(a[..])), key)
  {
    hide LowerBound, U, CellAt;
    ghost var cs := LeafCells(a[..]);
    var num := NumCells(a[..]);
    pos := 0;
    while pos < num && CellAt(a[..], pos).key < key
      invariant pos <= num
      invariant forall i :: 0 <= i < pos ==> cs[i].key < key
    {
      pos := pos + 1;
    }
    LowerBoundIs(KeysOf(cs), key, pos);
  }

  /** Write a cell just below the data region and point slot gap at it. */
  method PutCell(a: array<byte>, ghost cs: seq<Cell>, gap: nat, oldStart: nat, c: Cell) returns (ds: nat)
    requires Gapped(a[..], cs, gap, oldStart) && oldStart + DataBytes(cs) == PAGE_SIZE
    requires SlotPos(|cs| + 1) + Size(c) <= oldStart
    modifies a
    ensures ds + Size(c) == oldStart && Layout(a[..], InsertAt(cs, gap, c), ds)
    ensures a[0] == old(a[0]) && NextLeaf(a[..]) == old(NextLeaf(a[..])) && DataStart(a[..]) == old(DataStart(a[..]))
  {
    hide U, DataBytes, InsertAt;
    ghost var s0 := a[..];
    ds := oldStart - Size(c);
    WriteI64(a, ds, c.key);
    ghost var s1 := a[..];
    GappedSame(s0, s1, ds, ds + 8, cs, gap, oldStart);
    Copy(a, ds + KEY_SIZE, c.row);
    ghost var s2 := a[..];
    GappedSame(s1, s2, ds + 8, oldStart, cs, gap, oldStart);
    SliceSame(s1, s2, ds + 8, oldStart, ds, 8);
    WriteSlot(a, gap, ds, Size(c));
    ghost var s3 := a[..];
    GappedSame(s2, s3, SlotPos(gap), SlotPos(gap) + 4, cs, gap, oldStart);
    SliceSame(s2, s3, SlotPos(gap), SlotPos(gap) + 4, ds, 8);
    SliceSame(s2, s3, SlotPos(gap), SlotPos(gap) + 4, ds + 8, |c.row|);
    assert SlotHolds(s3, gap, c, ds);
    GapFilled(s3, cs, gap, oldStart, c, ds);
    HeaderSame(s0, s1, ds, ds + 8);
    HeaderSame(s1, s2, ds + 8, oldStart);
    HeaderSame(s2, s3, SlotPos(gap), SlotPos(gap) + 4);
  }

  /** insert_into_leaf: the decoded list gains the cell at its lower bound,
      and every other cell keeps its key and row. */
  method InsertIntoLeaf(a: array<byte>, key: i64, row: seq<byte>)
    requires LeafOk(a[..]) && Cost(Cell(key, row)) <= FreeSpace(a[..])
    modifies a
    ensures LeafOk(a[..])
    ensures LeafCells(a[..]) == InsertCell(old(LeafCells(a[..])), Cell(key, row))
    ensures NextLeaf(a[..]) == old(NextLeaf(a[..]))
  {
    hide U, LowerBound, DataBytes, InsertAt, SlotHolds, Disjoint;
    Widths();
    ghost var s0, cs := a[..], LeafCells(a[..]);
    var cellSize := KEY_SIZE + |row|;
    var num := NumCells(a[..]);
    var pos := FindSlot(a, key);
    var start := DataStart(a[..]);
    ShiftSlots(a, pos, num);
    ghost var s1 := a[..];
    HeaderSame(s0, s1, SlotPos(pos + 1), SlotPos(num + 1));
    WriteU(a, 9, 2, start - cellSize);
    ghost var s2 := a[..];
    GappedSame(s1, s2, 9, 11, cs, pos, start);
    USame(s1, s2, 9, 11, 5, 4);
    var ds := PutCell(a, cs, pos, start, Cell(key, row));
    ghost var s3 := a[..];
    WriteU(a, 1, 4, num + 1);
    LayoutSame(s3, a[..], 1, 5, InsertCell(cs, Cell(key, row)), ds);
    USame(s3, a[..], 1, 5, 5, 4);
    USame(s3, a[..], 1, 5, 9, 2);
    LayoutDecodes(a[..], InsertCell(cs, Cell(key, row)));
  }

  // ------------------------------------------------------------------
  // collect_leaf_cells / write_leaf_cells
  // ------------------------------------------------------------------

  method CollectLeafCells(s: seq<byte>) returns (cells: seq<Cell>)
    requires LeafOk(s)
    ensures cells == LeafCells(s)
  {
    hide U, CellAt, Layout;
    ghost var cs := LeafCells(s);
    cells := [];
    var n := NumCells(s);
    for i := 0 to n
      invariant cells == cs[..i]
    {
      cells := cells + [CellAt(s, i)];
    }
  }

  /** write_leaf_cells: whatever the page held, it becomes a leaf of exactly
      these cells; it needs them to fit. */
  method WriteLeafCells(a: array<byte>, cells: seq<Cell>)
    requires a.Length == PAGE_SIZE && TotalCost(cells) <= LEAF_CAPACITY
    modifies a
    ensures LeafOk(a[..]) && LeafCells(a[..]) == cells && NextLeaf(a[..]) == 0
  {
    hide U, SlotHolds, Disjoint, DataBytes;
    Widths();
    InitLeaf(a);
    var ds := PAGE_SIZE;
    EmptyLayout(a[..]);
    for i := 0 to |cells|
      invariant 0 <= ds <= PAGE_SIZE && Layout(a[..], cells[..i], ds)
      invariant a[0] == NODE_TYPE_LEAF && NextLeaf(a[..]) == 0
    {
      PrefixFits(cells, i);
      GapAtEnd(a[..], cells[..i], ds);
      ds := PutCell(a, cells[..i], i, ds, cells[i]);
      assert InsertAt(cells[..i], i, cells[i]) == cells[..i + 1];
    }
    assert cells[..|cells|] == cells;
    ghost var s0 := a[..];
    WriteU(a, 1, 4, |cells|);
    ghost var s1 := a[..];
    LayoutSame(s0, s1, 1, 5, cells, ds);
    USame(s0, s1, 1, 5, 5, 4);
    WriteU(a, 9, 2, ds);
    LayoutSame(s1, a[..], 9, 11, cells, ds);
    USame(s1, a[..], 9, 11, 5, 4);
    USame(s1, a[..], 9, 11, 1, 4);
    LayoutDecodes(a[..], cells);
  }

  lemma EmptyLayout(s: seq<byte>)
    requires |s| == PAGE_SIZE
    ensures Layout(s, [], PAGE_SIZE)
  {
  }

  lemma GapAtEnd(s: seq<byte>, cs: seq<Cell>, ds: nat)
    requires Layout(s, cs, ds) && SlotPos(|cs| + 1) <= ds
    ensures Gapped(s, cs, |cs|, ds)
  {
    forall i | 0 <= i < |cs| ensures SlotHolds(s, Skip(|cs|, i), cs[i], ds) {
      assert SlotHolds(s, i, cs[i], ds);
    }
    forall i, j | 0 <= i < j < |cs| ensures Disjoint(s, Skip(|cs|, i), Skip(|cs|, j)) {
      assert Disjoint(s, i, j);
    }
  }

  lemma PrefixFits(cells: seq<Cell>, i: nat)
    requires i < |cells| && TotalCost(cells) <= LEAF_CAPACITY
    ensures SlotPos(i + 1) + DataBytes(cells[..i]) + Size(cells[i]) <= PAGE_SIZE
  {
    hide DataBytes;
    DataBytesOne(cells[i]);
    TotalCostAppend(cells[..i], [cells[i]]);
    assert cells[..i + 1] == cells[..i] + [cells[i]];
    TotalCostAppend(cells[..i + 1], cells[i + 1..]);
    assert cells == cells[..i + 1] + cells[i + 1..];
  }
}
