/** The scan: down the leftmost children, then along the next_leaf links. */
module BTreeScan {
  import opened Bytes
  import opened Cells
  import opened Split
  import opened Results
  import opened WalLog
  import opened PageCache
  import LeafPage
  import InternalPage
  import opened TreeModel
  import TreeLeaves
  import opened TreeOrder
  import opened TreeChain
  import TreeReach
  import opened Nodes
  import opened BTree

  /** The rows of the cells, in order. */
  function RowsOf(cs: seq<Cell>): (rs: seq<seq<byte>>)
    ensures |rs| == |cs| && forall i :: 0 <= i < |rs| ==> rs[i] == cs[i].row
  {
    seq(|cs|, i requires 0 <= i < |cs| => cs[i].row)
  }

  /** Every leaf of a stored tree is on its page. */
  lemma {:induction false} LeavesStored(v: seq<Page>, t: Tree, x: LeafRec)
    requires Represents(v, t) && x in Leaves(t)
    ensures HasLeaf(v, x)
    decreases t, 1
  {
    if t.Leaf? {
      StoredLeaf(v, t);
    } else {
      LeavesStoredF(v, t.kids, x);
    }
  }

  lemma {:induction false} LeavesStoredF(v: seq<Page>, ts: seq<Tree>, x: LeafRec)
    requires (forall u :: u in ts ==> Represents(v, u)) && x in LeavesF(ts)
    ensures HasLeaf(v, x)
    decreases ts, 0
  {
    hide Represents, Leaves, HasLeaf;
    if x in Leaves(ts[0]) {
      LeavesStored(v, ts[0], x);
    } else {
      forall u | u in ts[1..] ensures Represents(v, u) {
      }
      LeavesStoredF(v, ts[1..], x);
    }
  }

  ghost predicate ChainStored(v: seq<Page>, ch: seq<LeafRec>) {
    forall x :: x in ch ==> HasLeaf(v, x)
  }

  /** The head of the chain is the leftmost leaf. */
  lemma LeftmostLeaf(t: Tree)
    requires Wf(t) && t.Node?
    ensures Leaves(t) != [] && Leaves(t.kids[0]) != [] && Leaves(t)[0] == Leaves(t.kids[0])[0]
  {
    LeavesNonEmpty(t.kids[0]);
  }

  /** The rows of one leaf page. */
  method LeafRows(s: Page, ghost cells: seq<Cell>, ghost next: nat) returns (rows: seq<seq<byte>>)
    requires NodeOf(s) == LeafNode(cells, next)
    ensures rows == RowsOf(cells)
  {
    LeafIs(s, cells, next);
    hide NodeOf, LeafPage.CellAt, LeafPage.Layout, U;
    rows := [];
    for i := 0 to LeafPage.NumCells(s)
      invariant |rows| == i && forall j :: 0 <= j < i ==> rows[j] == cells[j].row
    {
      rows := rows + [LeafPage.CellAt(s, i).row];
    }
    assert rows == RowsOf(cells);
  }

  lemma RowsAppend(a: seq<Cell>, b: seq<Cell>)
    ensures RowsOf(a + b) == RowsOf(a) + RowsOf(b)
  {
  }

  /** The walk to the leftmost leaf. */
  method Leftmost(pager: Pager, root: nat, ghost t: Tree) returns (leaf: nat)
    requires pager.Valid() && |pager.View()| <= MAX_PAGES
    requires Represents(pager.View(), t) && t.page == root && Wf(t)
    modifies pager
    ensures pager.Valid() && SameFile(pager) && pager.View() == old(pager.View()) && pager.dirty == old(pager.dirty)
    ensures Leaves(t) != [] && leaf == Leaves(t)[0].page
  {
    hide NodeOf, Represents, Leaves, LeavesF;
    leaf := root;
    ghost var sub := t;
    PageInRange(pager.View(), t);
    LeavesNonEmpty(t);
    NodeType(pager.View(), sub);
    var p := pager.ReadPage(leaf);
    while p.value[0] != LeafPage.NODE_TYPE_LEAF
      invariant pager.Valid() && SameFile(pager) && pager.View() == old(pager.View()) && pager.dirty == old(pager.dirty)
      invariant Wf(sub) && Represents(pager.View(), sub)
      invariant leaf == sub.page < |pager.View()| && p == Ok(pager.View()[leaf])
      invariant sub.Leaf? <==> p.value[0] == LeafPage.NODE_TYPE_LEAF
      invariant Leaves(sub) != [] && Leaves(sub)[0] == Leaves(t)[0]
      decreases sub
    {
      StoredNode(pager.View(), sub);
      InternalIs(p.value, sub.keys, PagesOf(sub.kids));
      var nk := InternalPage.NumKeys(p.value);
      leaf := if nk > 0 then InternalPage.EntryChild(p.value, 0) else InternalPage.RightChild(p.value);
      FirstChild(p.value);
      KidHeld(pager.View(), sub, 0);
      LeftmostLeaf(sub);
      sub := sub.kids[0];
      NodeType(pager.View(), sub);
      p := pager.ReadPage(leaf);
    }
    LeafHead(sub);
  }

  lemma LeafHead(t: Tree)
    ensures t.Leaf? ==> Leaves(t) == [LeafRec(t.page, t.cells, t.next)]
  {
  }

  lemma FirstChild(s: Page)
    requires InternalPage.InternalOk(s)
    ensures InternalPage.Kids(s)[0]
      == if InternalPage.NumKeys(s) > 0 then InternalPage.EntryChild(s, 0) else InternalPage.RightChild(s)
  {
  }

  /** scan_all: the rows of the chain, leaf by leaf; the view does not change.
      The chain may hold leaves that the tree does not reach. */
  method ScanAll(pager: Pager, root: nat, ghost t: Tree, ghost ch: seq<LeafRec>) returns (r: Result<seq<seq<byte>>>)
    requires pager.Valid() && |pager.View()| <= MAX_PAGES
    requires Represents(pager.View(), t) && t.page == root && Wf(t)
    requires ch != [] && Leaves(t) != [] && ch[0] == Leaves(t)[0]
    requires Linked(ch) && TreeReach.NonZero(ch) && ChainStored(pager.View(), ch)
    modifies pager
    ensures pager.Valid() && SameFile(pager) && pager.View() == old(pager.View()) && pager.dirty == old(pager.dirty)
    ensures r == Ok(RowsOf(Cat(ch)))
  {
    hide NodeOf, Represents, Leaves, LeavesF, Cat, RowsOf;
    var cur := Leftmost(pager, root, t);
    var rows := [];
    ghost var i := 0;
    NoRows();
    while true
      invariant pager.Valid() && SameFile(pager) && pager.View() == old(pager.View()) && pager.dirty == old(pager.dirty)
      invariant i < |ch| && cur == ch[i].page && rows == RowsOf(Cat(ch[..i]))
      decreases |ch| - i
    {
      assert ch[i] in ch && HasLeaf(pager.View(), ch[i]);
      var p := pager.ReadPage(cur);
      var page := LeafRows(p.value, ch[i].cells, ch[i].next);
      rows := rows + page;
      RowsNext(ch, i);
      LeafIs(p.value, ch[i].cells, ch[i].next);
      assert ch[i].next == PageAfter(ch, i) && (i + 1 < |ch| ==> ch[i + 1] in ch);
      var next := LeafPage.NextLeaf(p.value);
      if next == 0 {
        assert ch[..i + 1] == ch;
        break;
      }
      cur := next;
      i := i + 1;
    }
    r := Ok(rows);
  }

  lemma NoRows()
    ensures forall ch: seq<LeafRec> :: RowsOf(Cat(ch[..0])) == []
  {
  }

  lemma RowsNext(ch: seq<LeafRec>, i: nat)
    requires i < |ch|
    ensures RowsOf(Cat(ch[..i + 1])) == RowsOf(Cat(ch[..i])) + RowsOf(ch[i].cells)
  {
    hide Cat, RowsOf;
    assert ch[..i + 1] == ch[..i] + [ch[i]];
    CatAppend(ch[..i], [ch[i]]);
    CatOne(ch[i]);
    RowsAppend(Cat(ch[..i]), ch[i].cells);
  }

  // ------------------------------------------------------------------
  // Small rows
  // ------------------------------------------------------------------

  /** Cells of at most 1362 bytes always split safely. */
  lemma SmallSplittable(v: seq<Page>, t: Tree, ch: seq<LeafRec>, c: Cell)
    requires Represents(v, t) && Wf(t) && forall x :: x in Leaves(t) ==> x in ch
    requires CostsAtMost(Cat(ch), 1362) && Cost(c) <= 1362
    ensures Splittable(t, c)
  {
    hide Represents, Leaves, Cat, HalvesFit, InsertCell, NodeOf, DataBytes;
    LeafForIsTarget(t, c.key);
    hide TreeLeaves.Target, TargetLeaf;
    TargetLeafIs(t, c.key);
    var x := TargetLeaf(t, c.key);
    var i := IndexOf(ch, x);
    LeavesStored(v, t, x);
    LeafIs(v[x.page], x.cells, x.next);
    LeafPage.FreeSpaceExact(v[x.page]);
    CatAround(ch, i);
    forall y | y in x.cells ensures Cost(y) <= 1362 {
      assert y in Cat(ch);
    }
    if !HasRoom(x.cells, c) {
      SmallCellsSplit(x.cells, c);
    }
  }
}
