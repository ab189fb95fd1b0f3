/** What a program sees of an insertion that runs out of pages half way. */
module OutOfPages {
  import opened Bytes
  import opened Cells
  import opened Split
  import opened Results
  import opened WalLog
  import opened Media
  import opened PageCache
  import opened TreeModel
  import TreeLeaves
  import opened TreeOrder
  import TreeChain
  import TreeReach
  import opened TreeRuns
  import Crash
  import opened Nodes
  import opened BTree
  import opened BTreeScan

  /** A cell whose row repeats its key. */
  function Marked(key: byte, cost: nat): (c: Cell)
    requires cost >= 12
    ensures c.key == key && Cost(c) == cost && |c.row| == cost - 12
  {
    Cell(key, seq(cost - 12, _ => key))
  }

  function One(): Cell { Marked(1, 1300) }

  function Two(): Cell { Marked(2, 1300) }

  function Three(): Cell { Marked(3, 1300) }

  function Four(): Cell { Marked(4, 1300) }

  function Five(): Cell { Marked(5, 300) }

  /** A new largest key goes last. */
  lemma GoesLast(cs: seq<Cell>, c: Cell)
    requires forall x :: x in cs ==> x.key < c.key
    ensures InsertCell(cs, c) == cs + [c]
  {
    forall i | 0 <= i < |cs| ensures KeysOf(cs)[i] < c.key {
      assert cs[i] in cs;
    }
    LowerBoundIs(KeysOf(cs), c.key, |cs|);
    assert cs[..|cs|] == cs && cs[|cs|..] == [];
  }

  lemma RootInPlace(page: nat, cs: seq<Cell>, next: nat, c: Cell, free: nat)
    requires HasRoom(cs, c) && forall x :: x in cs ==> x.key < c.key
    ensures InsertRoot(Leaf(page, cs, next), c, free) == (Leaf(page, cs + [c], next), free)
    ensures TreeLeaves.Pieces(LeafRec(page, cs, next), c, free) == [LeafRec(page, cs + [c], next)]
  {
    hide InsertCell, HasRoom;
    GoesLast(cs, c);
  }

  /** The fourth cell splits the only leaf two and two; the new root is missing. */
  lemma FourthSplits(page: nat)
    ensures var t, c := Leaf(page, [One(), Two(), Three()], 0), Four();
      && !HasRoom(t.cells, c) && HalvesFit(InsertCell(t.cells, c))
      && InsertRoot(t, c, 1023).1 == 1025
      && TreeReach.StuntedRoot(t, c, 1023, 1024) == Leaf(page, [One(), Two()], 1023)
      && TreeLeaves.Pieces(LeafRec(page, t.cells, 0), c, 1023) == [LeafRec(page, [One(), Two()], 1023), LeafRec(1023, [Three(), Four()], 0)]
  {
    hide Marked, DataBytes;
    var cs, all := [One(), Two(), Three()], [One(), Two(), Three(), Four()];
    GoesLast(cs, Four());
    assert cs + [Four()] == all;
    TreeRuns.FourCost(One(), Two(), Three(), Four());
    Split.Three(One(), Two(), Three());
    TwoCost(One(), Two());
    TwoCost(Three(), Four());
    assert CountFrom(all, 2600, 2600, 2) == 2;
    assert CountFrom(all, 2600, 1300, 1) == 2;
    assert SplitPoint(all) == 2;
    assert all[..2] == [One(), Two()] && all[2..] == [Three(), Four()];
  }

  lemma LeafTarget(page: nat, cs: seq<Cell>, next: nat, key: i64)
    ensures TreeChain.TargetLeaf(Leaf(page, cs, next), key) == LeafRec(page, cs, next)
  {
  }

  lemma OneLeafFits(v: seq<Page>, page: nat, cs: seq<Cell>, next: nat, c: Cell)
    requires HasRoom(cs, c) || HalvesFit(InsertCell(cs, c))
    ensures var t := Leaf(page, cs, next); Wf(t) && Unshared(t) && Splittable(t, c)
  {
  }

  lemma Rooms()
    ensures HasRoom([], One()) && HasRoom([One()], Two()) && HasRoom([One(), Two()], Three()) && HasRoom([One(), Two()], Five())
  {
    hide Marked, DataBytes;
    DataBytesOne(One());
    TwoCost(One(), Two());
    NoBytes();
  }

  lemma NoBytes()
    ensures TotalCost([]) == 0
  {
  }

  /** One insertion into a one-leaf tree with room. */
  method Grow(pager: Pager, page: nat, c: Cell, ghost cs: seq<Cell>, ghost next: nat)
    requires pager.Valid() && |pager.View()| <= MAX_PAGES && Cost(c) <= LEAF_CAPACITY
    requires Represents(pager.View(), Leaf(page, cs, next))
    requires HasRoom(cs, c) && forall x :: x in cs ==> x.key < c.key
    modifies pager
    ensures pager.Valid() && |pager.View()| == |old(pager.View())|
    ensures Represents(pager.View(), Leaf(page, cs + [c], next))
    ensures forall p :: 0 <= p < |pager.View()| && p != page ==> pager.View()[p] == old(pager.View())[p]
  {
    hide HasRoom, InsertCell, TakenInPlace, Spacious, LeafFor, NodeOf, InsertRoot, HalvesFit, Splittable, PiecesStored, HalfInserted;
    ghost var t := Leaf(page, cs, next);
    OneLeafFits(pager.View(), page, cs, next, c);
    RootInPlace(page, cs, next, c, |pager.View()|);
    var _ := InsertRow(pager, page, c.key, c.row, t);
  }

  /** A file of 1022 pages gets a table; the fourth row is refused for want of
      pages. A scan then returns it with the others, and the next row, accepted,
      is scanned before larger keys. */
  method RefusedRowIsScanned() returns (refused: Result<nat>, seen: seq<seq<byte>>, accepted: Result<nat>, later: seq<seq<byte>>)
    ensures refused == Err(PageLimit)
    ensures seen == [One().row, Two().row, Three().row, Four().row]
    ensures accepted.Ok?
    ensures later == [One().row, Two().row, Five().row, Three().row, Four().row]
  {
    hide HasRoom, InsertCell, TakenInPlace, Spacious, LeafFor, NodeOf, InsertRoot, HalvesFit, Splittable, Marked, TreeReach.StuntedRoot,
      TreeLeaves.Pieces, Replay, RowsOf, Cat, Recovered, TreeChain.TargetLeaf, Consistent;
    Crash.EmptyLog();
    Crash.NoReplay(seq(1022, _ => ZeroPage()));
    var pager := new Pager.Open(seq(1022, _ => ZeroPage()), []);
    var root := CreateTree(pager);
    var page := root.value;
    assert page == 1022;
    Rooms();
    Grow(pager, page, One(), [], 0);
    assert [] + [One()] == [One()] && [One()] + [Two()] == [One(), Two()] && [One(), Two()] + [Three()] == [One(), Two(), Three()];
    Grow(pager, page, Two(), [One()], 0);
    Grow(pager, page, Three(), [One(), Two()], 0);
    FourthSplits(page);
    ghost var t3 := Leaf(page, [One(), Two(), Three()], 0);
    OneLeafFits(pager.View(), page, t3.cells, 0, Four());
    LeafTarget(page, t3.cells, 0, 4);
    refused := InsertRow(pager, page, Four().key, Four().row, t3);
    ghost var a, b := LeafRec(page, [One(), Two()], 1023), LeafRec(1023, [Three(), Four()], 0);
    ghost var t4, ch := Leaf(page, [One(), Two()], 1023), [a, b];
    TwoLeaves(pager.View(), a, b);
    var scan := ScanAll(pager, page, t4, ch);
    seen := scan.value;
    RowsOfTwo(a, b);
    accepted, later := NextRow(pager, page);
  }

  /** The row after the refused one. */
  method NextRow(pager: Pager, page: nat) returns (accepted: Result<nat>, later: seq<seq<byte>>)
    requires pager.Valid() && |pager.View()| == MAX_PAGES && page == 1022
    requires Represents(pager.View(), Leaf(page, [One(), Two()], 1023))
    requires HasLeaf(pager.View(), LeafRec(1023, [Three(), Four()], 0))
    modifies pager
    ensures accepted.Ok? && later == [One().row, Two().row, Five().row, Three().row, Four().row]
  {
    hide HasRoom, InsertCell, TakenInPlace, Spacious, LeafFor, NodeOf, InsertRoot, HalvesFit, Splittable, Marked, TreeReach.StuntedRoot,
      TreeLeaves.Pieces, RowsOf, Cat, PiecesStored, HalfInserted;
    Rooms();
    ghost var cs := [One(), Two()];
    ghost var t, b := Leaf(page, cs, 1023), LeafRec(1023, [Three(), Four()], 0);
    OneLeafFits(pager.View(), page, cs, 1023, Five());
    RootInPlace(page, cs, 1023, Five(), |pager.View()|);
    assert cs + [Five()] == [One(), Two(), Five()];
    accepted := InsertRow(pager, page, Five().key, Five().row, t);
    ghost var a := LeafRec(page, [One(), Two(), Five()], 1023);
    TwoLeaves(pager.View(), a, b);
    var scan := ScanAll(pager, page, Leaf(page, a.cells, 1023), [a, b]);
    later := scan.value;
    RowsOfTwo(a, b);
  }

  /** Two linked leaves, the first of them the root. */
  lemma TwoLeaves(v: seq<Page>, a: LeafRec, b: LeafRec)
    requires a.next == b.page && b.next == 0 && 0 < a.page && 0 < b.page
    ensures var t, ch := Leaf(a.page, a.cells, a.next), [a, b];
      && Wf(t) && Leaves(t) == [a] && ch[0] == Leaves(t)[0] && TreeChain.Linked(ch) && TreeReach.NonZero(ch)
      && (HasLeaf(v, a) && HasLeaf(v, b) ==> ChainStored(v, ch))
      && (Represents(v, t) ==> HasLeaf(v, a))
  {
    hide NodeOf;
  }

  lemma RowsOfTwo(a: LeafRec, b: LeafRec)
    ensures RowsOf(Cat([a, b])) == RowsOf(a.cells) + RowsOf(b.cells)
    ensures forall x: Cell, y: Cell :: RowsOf([x, y]) == [x.row, y.row]
    ensures forall x: Cell, y: Cell, z: Cell :: RowsOf([x, y, z]) == [x.row, y.row, z.row]
  {
    CatAppend([a], [b]);
    CatOne(a);
    CatOne(b);
    assert [a] + [b] == [a, b];
    RowsAppend(a.cells, b.cells);
  }
}
