/** Where split_leaf cuts, and when both halves fit a page. */
module Split {
  import opened Bytes
  import opened Cells
  import LeafPage

  /** The split loop from a given prefix on. */
  function CountFrom(cs: seq<Cell>, half: nat, bytes: nat, count: nat): nat
    requires count <= |cs|
    decreases |cs| - count
  {
    if count == |cs| || (bytes + Cost(cs[count]) > half && count > 0) then count
    else CountFrom(cs, half, bytes + Cost(cs[count]), count + 1)
  }

  /** The number of cells left of the cut, after the two clamps. */
  function SplitPoint(cs: seq<Cell>): (r: nat)
    ensures r <= |cs| && (cs != [] ==> r < |cs|)
  {
    var n := CountFrom(cs, TotalCost(cs) / 2, 0, 0);
    var n := if n == 0 then 1 else n;
    if n >= |cs| then if |cs| == 0 then 0 else |cs| - 1 else n
  }

  lemma TotalCostStep(cs: seq<Cell>, i: nat)
    requires i < |cs|
    ensures TotalCost(cs[..i + 1]) == TotalCost(cs[..i]) + Cost(cs[i])
    ensures TotalCost(cs[..i]) + TotalCost(cs[i..]) == TotalCost(cs)
  {
    hide DataBytes;
    DataBytesOne(cs[i]);
    TotalCostAppend(cs[..i], [cs[i]]);
    assert cs[..i + 1] == cs[..i] + [cs[i]];
    TotalCostAppend(cs[..i], cs[i..]);
    assert cs == cs[..i] + cs[i..];
  }

  /** The cut is the longest prefix of at most half the bytes, or one cell. */
  lemma {:induction false} CountFromMeaning(cs: seq<Cell>, half: nat, count: nat)
    requires count <= |cs| && (count > 1 ==> TotalCost(cs[..count]) <= half)
    ensures var n := CountFrom(cs, half, TotalCost(cs[..count]), count);
      && count <= n <= |cs|
      && (n > 1 ==> TotalCost(cs[..n]) <= half)
      && (n < |cs| ==> n > 0 && TotalCost(cs[..n + 1]) > half)
    decreases |cs| - count
  {
    if count < |cs| {
      TotalCostStep(cs, count);
      if !(TotalCost(cs[..count]) + Cost(cs[count]) > half && count > 0) {
        CountFromMeaning(cs, half, count + 1);
      }
    }
  }

  lemma NoCells(cs: seq<Cell>)
    ensures TotalCost(cs[..0]) == 0
  {
  }

  /** For two cells or more both halves are non-empty and neither clamp fires. */
  lemma SplitPointMeaning(cs: seq<Cell>)
    requires |cs| >= 2
    ensures var n := SplitPoint(cs);
      && n == CountFrom(cs, TotalCost(cs) / 2, 0, 0)
      && 0 < n < |cs|
      && (n == 1 || TotalCost(cs[..n]) <= TotalCost(cs) / 2)
      && TotalCost(cs[..n + 1]) > TotalCost(cs) / 2
  {
    hide CountFrom, DataBytes;
    var half := TotalCost(cs) / 2;
    NoCells(cs);
    CountFromMeaning(cs, half, 0);
    assert cs[..|cs|] == cs;
  }

  ghost predicate CostsAtMost(cs: seq<Cell>, m: int) {
    forall c :: c in cs ==> Cost(c) <= m
  }

  /** A leaf that fits its page, and a cell for which it has no room. */
  ghost predicate Overfull(cs: seq<Cell>, c: Cell) {
    TotalCost(cs) <= LEAF_CAPACITY < TotalCost(cs) + Cost(c)
  }

  ghost predicate HalvesFit(cs: seq<Cell>) {
    && TotalCost(cs[..SplitPoint(cs)]) <= LEAF_CAPACITY
    && TotalCost(cs[SplitPoint(cs)..]) <= LEAF_CAPACITY
  }

  /** A cell that passes the size test of insert never overfills an empty leaf. */
  lemma OverfullHasTwo(cs: seq<Cell>, c: Cell)
    requires Overfull(cs, c) && Cost(c) <= LEAF_CAPACITY
    ensures |InsertCell(cs, c)| >= 2
  {
  }

  lemma {:induction false} InsertCellIn(cs: seq<Cell>, c: Cell, m: int)
    requires CostsAtMost(cs, m) && Cost(c) <= m
    ensures CostsAtMost(InsertCell(cs, c), m)
  {
    var i := LowerBound(KeysOf(cs), c.key);
    forall x | x in InsertCell(cs, c) ensures Cost(x) <= m {
      assert x in cs[..i] || x == c || x in cs[i..];
    }
  }

  /** The left half always fits: it is one legal cell or at most half of what
      one page and one cell can hold. */
  lemma LeftHalfFits(cs: seq<Cell>, c: Cell)
    requires Overfull(cs, c) && Cost(c) <= LEAF_CAPACITY
    ensures var all := InsertCell(cs, c); TotalCost(all[..SplitPoint(all)]) <= LEAF_CAPACITY
  {
    hide DataBytes, CountFrom;
    var all := InsertCell(cs, c);
    InsertCellCost(cs, c);
    OverfullHasTwo(cs, c);
    SplitPointMeaning(all);
    if SplitPoint(all) == 1 {
      CellInTotal(cs, c);
      assert all[..1] == [all[0]];
      DataBytesOne(all[0]);
    }
  }

  lemma CellInTotal(cs: seq<Cell>, c: Cell)
    requires TotalCost(cs) <= LEAF_CAPACITY && Cost(c) <= LEAF_CAPACITY
    ensures Cost(InsertCell(cs, c)[0]) <= LEAF_CAPACITY
  {
    if cs != [] {
      TotalCostStep(cs, 0);
    }
  }

  /** The bound: cells of at most 1362 bytes, slot included, always split into
      halves that fit a page. */
  lemma SmallCellsSplit(cs: seq<Cell>, c: Cell)
    requires Overfull(cs, c) && CostsAtMost(cs, 1362) && Cost(c) <= 1362
    ensures HalvesFit(InsertCell(cs, c))
  {
    hide DataBytes, CountFrom;
    var all := InsertCell(cs, c);
    InsertCellCost(cs, c);
    OverfullHasTwo(cs, c);
    SplitPointMeaning(all);
    LeftHalfFits(cs, c);
    InsertCellIn(cs, c, 1362);
    var n := SplitPoint(all);
    TotalCostStep(all, n);
    assert all[n] in all;
  }

  /** All overfull leaves of cells of at most m bytes split into fitting halves. */
  ghost predicate SplitsSafely(m: int) {
    forall cs: seq<Cell>, c: Cell ::
      Overfull(cs, c) && CostsAtMost(cs, m) && Cost(c) <= m ==> HalvesFit(InsertCell(cs, c))
  }

  /** Cells of cost 1362, 1363 (the new one), 1362 and 1361: the right half needs 4086 bytes. */
  lemma LargeCellsOverflow()
    ensures exists cs: seq<Cell>, c: Cell ::
      Overfull(cs, c) && CostsAtMost(cs, 1363) && Cost(c) <= 1363 && !HalvesFit(InsertCell(cs, c))
  {
    var c0, c1, c2, c3 := Cell(0, Zeros(1350)), Cell(1, Zeros(1351)), Cell(2, Zeros(1350)), Cell(3, Zeros(1349));
    var cs := [c0, c2, c3];
    Three(c0, c2, c3);
    LowerBoundIs(KeysOf(cs), 1, 1);
    var all := InsertCell(cs, c1);
    assert all == [c0, c1, c2, c3];
    InsertCellCost(cs, c1);
    var half := TotalCost(all) / 2;
    assert half == 2724;
    assert CountFrom(all, half, 1362, 1) == 1;
    assert CountFrom(all, half, 0, 0) == 1;
    assert all[1..] == [c1, c2, c3];
    Three(c1, c2, c3);
    assert Overfull(cs, c1) && CostsAtMost(cs, 1363) && Cost(c1) <= 1363 && !HalvesFit(InsertCell(cs, c1));
  }

  /** What the write leaves of that right half: its third cell starts at byte 22
      and its slot ends at byte 23, so whatever page results, the third key is
      not the one written. */
  lemma OverflowLosesKey(s: seq<byte>, right: seq<Cell>)
    requires right == [Cell(1, Zeros(1351)), Cell(2, Zeros(1350)), Cell(3, Zeros(1349))]
    requires |s| == PAGE_SIZE && LeafPage.SlotOff(s, 2) == PAGE_SIZE - DataBytes(right)
    requires LeafPage.SlotLen(s, 2) == Size(right[2])
    ensures LeafPage.CellAt(s, 2).key != right[2].key
  {
    hide DataBytes, FromLE;
    Three(right[0], right[1], right[2]);
    LeafPage.KeyUnderSlot(s, 2);
  }

  lemma Three(a: Cell, b: Cell, c: Cell)
    ensures TotalCost([a, b, c]) == Cost(a) + Cost(b) + Cost(c)
  {
    DataBytesOne(c);
    assert [a, b, c][1..] == [b, c] && [b, c][1..] == [c];
    assert DataBytes([b, c]) == Size(b) + Size(c);
  }

  /** 1362 is the exact bound; the advertised row limit allows cells of 2042. */
  lemma SplitBoundExact(m: int)
    ensures SplitsSafely(m) <==> m <= 1362
  {
    hide HalvesFit, InsertCell, Overfull;
    if m <= 1362 {
      forall cs: seq<Cell>, c: Cell | Overfull(cs, c) && CostsAtMost(cs, m) && Cost(c) <= m
        ensures HalvesFit(InsertCell(cs, c))
      {
        SmallCellsSplit(cs, c);
      }
    } else {
      LargeCellsOverflow();
      var cs: seq<Cell>, c: Cell :|
        Overfull(cs, c) && CostsAtMost(cs, 1363) && Cost(c) <= 1363 && !HalvesFit(InsertCell(cs, c));
      assert CostsAtMost(cs, m);
    }
  }

  /** The cut of split_leaf, as its loop computes it. */
  method ChooseSplit(cells: seq<Cell>) returns (leftCount: nat)
    requires |cells| > 0
    ensures leftCount == SplitPoint(cells)
  {
    var total := 0;
    for i := 0 to |cells|
      invariant total == TotalCost(cells[..i])
    {
      TotalCostStep(cells, i);
      total := total + Cost(cells[i]);
    }
    assert cells[..|cells|] == cells;
    var half := total / 2;
    var n := 0;
    var leftBytes: nat := 0;
    while n < |cells| && !(leftBytes + Cost(cells[n]) > half && n > 0)
      invariant 0 <= n <= |cells|
      invariant CountFrom(cells, half, leftBytes, n) == CountFrom(cells, half, 0, 0)
    {
      leftBytes := leftBytes + Cost(cells[n]);
      n := n + 1;
    }
    if n == 0 {
      n := 1;
    }
    if n >= |cells| {
      n := |cells| - 1;
    }
    leftCount := n;
  }
}
