/** The B+tree over the pager: descent, leaf and internal splits, a growing
    root, and the scan along the leaf chain. */
module BTree {
  import opened Bytes
  import opened Cells
  import opened Split
  import opened Results
  import opened WalLog
  import opened PageCache
  import LeafPage
  import InternalPage
  import opened TreeModel
  import TreePages
  import opened TreeReach
  import opened Nodes

  /** What insert keeps of the pager around its page writes. */
  twostate predicate SameFile(pager: Pager)
    reads pager
  {
    pager.disk == old(pager.disk) && pager.inTransaction == old(pager.inTransaction)
  }

  lemma LeafIs(s: Page, cells: seq<Cell>, next: nat)
    requires NodeOf(s) == LeafNode(cells, next)
    ensures LeafPage.LeafOk(s) && LeafPage.LeafCells(s) == cells && LeafPage.NextLeaf(s) == next
    ensures s[0] == LeafPage.NODE_TYPE_LEAF && next < TWO32
  {
    Widths();
    BoundLE(s[5..9]);
  }

  lemma IsLeaf(s: Page)
    requires LeafPage.LeafOk(s)
    ensures NodeOf(s) == LeafNode(LeafPage.LeafCells(s), LeafPage.NextLeaf(s))
  {
  }

  lemma InternalIs(s: Page, keys: seq<i64>, kids: seq<nat>)
    requires NodeOf(s) == InternalNode(keys, kids)
    ensures InternalPage.InternalOk(s) && InternalPage.Keys(s) == keys && InternalPage.Kids(s) == kids
    ensures s[0] != LeafPage.NODE_TYPE_LEAF
  {
  }

  lemma IsInternal(s: Page)
    requires InternalPage.InternalOk(s)
    ensures NodeOf(s) == InternalNode(InternalPage.Keys(s), InternalPage.Kids(s))
  {
  }

  /** create_tree: one empty leaf on a new page. */
  method CreateTree(pager: Pager) returns (r: Result<nat>)
    requires pager.Valid()
    modifies pager
    ensures pager.Valid() && SameFile(pager)
    ensures |old(pager.View())| >= MAX_PAGES ==> r == Err(PageLimit)
    ensures |old(pager.View())| < MAX_PAGES ==>
      && r == Ok(|old(pager.View())|)
      && |pager.View()| == |old(pager.View())| + 1
      && pager.View()[..|old(pager.View())|] == old(pager.View())
      && Represents(pager.View(), Leaf(r.value, [], 0))
  {
    var p := pager.AllocatePage();
    if p.Err? {
      return Err(PageLimit);
    }
    var b := pager.GetPageMut(p.value);
    if b.Err? {
      return Err(PageLimit);
    }
    var a := b.value;
    LeafPage.InitLeaf(a);
    IsLeaf(a[..]);
    pager.Store(p.value, a);
    r := p;
  }

  /** insert_into_leaf on page n of the cache. */
  method PutInLeaf(pager: Pager, n: nat, c: Cell, ghost cells: seq<Cell>, ghost next: nat)
    requires pager.Valid() && n < |pager.View()| && n < MAX_PAGES
    requires NodeOf(pager.View()[n]) == LeafNode(cells, next) && HasRoom(cells, c)
    modifies pager
    ensures pager.Valid() && SameFile(pager)
    ensures |pager.View()| == |old(pager.View())| && NodeWritten(old(pager.View()), pager.View(), n)
    ensures NodeOf(pager.View()[n]) == LeafNode(InsertCell(cells, c), next)
  {
    hide NodeOf;
    LeafIs(pager.View()[n], cells, next);
    var b := pager.GetPageMut(n);
    var a := b.value;
    LeafPage.FreeSpaceExact(a[..]);
    LeafPage.InsertIntoLeaf(a, c.key, c.row);
    IsLeaf(a[..]);
    pager.Store(n, a);
  }

  /** Page n becomes a leaf of these cells, linked to next. */
  method WriteLeaf(pager: Pager, n: nat, cells: seq<Cell>, next: nat)
    requires pager.Valid() && n < |pager.View()| && n < MAX_PAGES
    requires TotalCost(cells) <= LEAF_CAPACITY && next < TWO32
    modifies pager
    ensures pager.Valid() && SameFile(pager)
    ensures |pager.View()| == |old(pager.View())| && NodeWritten(old(pager.View()), pager.View(), n)
    ensures NodeOf(pager.View()[n]) == LeafNode(cells, next)
  {
    hide NodeOf;
    var b := pager.GetPageMut(n);
    var a := b.value;
    LeafPage.WriteLeafCells(a, cells);
    LeafPage.SetNextLeaf(a, next);
    IsLeaf(a[..]);
    pager.Store(n, a);
  }

  /** split_leaf: the cells and the new one, cut by bytes; the old page keeps
      the left part and links to the new page, which inherits the old link. */
  method SplitLeaf(pager: Pager, n: nat, c: Cell, ghost cells: seq<Cell>, ghost next: nat) returns (r: Result<(i64, nat)>)
    requires pager.Valid() && n < |pager.View()| && n < MAX_PAGES
    requires NodeOf(pager.View()[n]) == LeafNode(cells, next)
    requires HalvesFit(InsertCell(cells, c))
    modifies pager
    ensures pager.Valid() && SameFile(pager)
    ensures |old(pager.View())| >= MAX_PAGES ==>
      r == Err(PageLimit) && pager.View() == old(pager.View()) && pager.dirty == old(pager.dirty)
    ensures |old(pager.View())| < MAX_PAGES ==>
      var v0, v1, all, m := old(pager.View()), pager.View(), InsertCell(cells, c), SplitPoint(InsertCell(cells, c));
      && r == Ok((all[m].key, |v0|))
      && |v1| == |v0| + 1 && NodeWritten(v0, v1, n)
      && NodeOf(v1[n]) == LeafNode(all[..m], |v0|)
      && NodeOf(v1[|v0|]) == LeafNode(all[m..], next)
  {
    hide NodeOf, HalvesFit, SplitPoint, LowerBound, InsertCell;
    LeafIs(pager.View()[n], cells, next);
    var p := pager.ReadPage(n);
    var allCells := LeafPage.CollectLeafCells(p.value);
    var ins := CellPosition(allCells, c.key);
    InsertedCell(allCells, c, ins);
    allCells := InsertAt(allCells, ins, c);
    var leftCount := ChooseSplit(allCells);
    FitsHalves(allCells);
    var leftCells, rightCells := allCells[..leftCount], allCells[leftCount..];
    var oldNext := LeafPage.NextLeaf(p.value);

    var q := pager.AllocatePage();
    if q.Err? {
      return Err(PageLimit);
    }
    var newPage := q.value;
    WriteLeaf(pager, n, leftCells, newPage);
    WriteLeaf(pager, newPage, rightCells, oldNext);
    r := Ok((rightCells[0].key, newPage));
  }

  method CellPosition(cells: seq<Cell>, key: i64) returns (ins: nat)
    ensures ins == LowerBound(KeysOf(cells), key)
  {
    hide LowerBound;
    ins := 0;
    while ins < |cells| && cells[ins].key < key
      invariant ins <= |cells| && forall i :: 0 <= i < ins ==> cells[i].key < key
    {
      ins := ins + 1;
    }
    LowerBoundIs(KeysOf(cells), key, ins);
  }

  lemma InsertedCell(cells: seq<Cell>, c: Cell, ins: nat)
    requires ins == LowerBound(KeysOf(cells), c.key)
    ensures InsertAt(cells, ins, c) == InsertCell(cells, c)
  {
  }

  lemma FitsHalves(all: seq<Cell>)
    requires HalvesFit(all)
    ensures TotalCost(all[..SplitPoint(all)]) <= LEAF_CAPACITY && TotalCost(all[SplitPoint(all)..]) <= LEAF_CAPACITY
  {
  }

  // ------------------------------------------------------------------
  // Internal nodes
  // ------------------------------------------------------------------

  ghost predicate SmallPages(kids: seq<nat>) {
    forall i :: 0 <= i < |kids| ==> kids[i] < TWO32
  }

  /** insert_into_internal on page n of the cache. */
  method PutInNode(pager: Pager, n: nat, key: i64, child: nat, ghost keys: seq<i64>, ghost kids: seq<nat>)
    requires pager.Valid() && n < |pager.View()| && n < MAX_PAGES && child < TWO32
    requires NodeOf(pager.View()[n]) == InternalNode(keys, kids) && |keys| < InternalPage.MAX_KEYS
    requires |kids| == |keys| + 1
    modifies pager
    ensures pager.Valid() && SameFile(pager)
    ensures |pager.View()| == |old(pager.View())| && NodeWritten(old(pager.View()), pager.View(), n)
    ensures var pos := LowerBound(keys, key);
      NodeOf(pager.View()[n]) == InternalNode(InsertAt(keys, pos, key), InsertAt(kids, pos + 1, child))
  {
    hide NodeOf, LowerBound, InsertAt;
    InternalIs(pager.View()[n], keys, kids);
    var b := pager.GetPageMut(n);
    var a := b.value;
    InternalPage.InsertIntoInternal(a, key, child);
    IsInternal(a[..]);
    pager.Store(n, a);
  }

  /** Page n becomes an internal node of these entries. */
  method WriteNode(pager: Pager, n: nat, es: seq<(nat, i64)>, right: nat)
    requires pager.Valid() && n < |pager.View()| && n < MAX_PAGES
    requires |es| <= InternalPage.MAX_KEYS && SmallPages(InternalPage.EntryKids(es, right))
    modifies pager
    ensures pager.Valid() && SameFile(pager)
    ensures |pager.View()| == |old(pager.View())| && NodeWritten(old(pager.View()), pager.View(), n)
    ensures NodeOf(pager.View()[n]) == InternalNode(InternalPage.EntryKeys(es), InternalPage.EntryKids(es, right))
  {
    hide NodeOf;
    var b := pager.GetPageMut(n);
    var a := b.value;
    EntriesSmall(es, right);
    InternalPage.WriteEntries(a, es, right);
    IsInternal(a[..]);
    pager.Store(n, a);
  }

  lemma EntriesSmall(es: seq<(nat, i64)>, right: nat)
    requires SmallPages(InternalPage.EntryKids(es, right))
    ensures right < TWO32 && forall e :: e in es ==> e.0 < TWO32
  {
    var ks := InternalPage.EntryKids(es, right);
    assert ks[|es|] < TWO32;
    forall e | e in es ensures e.0 < TWO32 {
      var i :| 0 <= i < |es| && es[i] == e;
      assert ks[i] < TWO32;
    }
  }

  /** The entries of split_internal after its insertion: the new key, with the
      new child just right of it. */
  method InsertEntry(es: seq<(nat, i64)>, right: nat, key: i64, child: nat) returns (es': seq<(nat, i64)>, right': nat)
    ensures var ks, ps := InternalPage.EntryKeys(es), InternalPage.EntryKids(es, right);
      var pos := LowerBound(ks, key);
      && |es'| == |es| + 1
      && InternalPage.EntryKeys(es') == InsertAt(ks, pos, key)
      && InternalPage.EntryKids(es', right') == InsertAt(ps, pos + 1, child)
  {
    hide LowerBound, InsertAt;
    var ins := 0;
    while ins < |es| && es[ins].1 < key
      invariant ins <= |es| && forall i :: 0 <= i < ins ==> es[i].1 < key
    {
      ins := ins + 1;
    }
    LowerBoundIs(InternalPage.EntryKeys(es), key, ins);
    var entryChild := if ins < |es| then es[ins].0 else right;
    es' := InsertAt(es, ins, (entryChild, key));
    if ins + 1 < |es'| {
      es' := es'[ins + 1 := (child, es'[ins + 1].1)];
    }
    right' := if ins + 1 == |es'| then child else right;
    InsertAtIs(InternalPage.EntryKeys(es), ins, key, InternalPage.EntryKeys(es'));
    InsertAtIs(InternalPage.EntryKids(es, right), ins + 1, child, InternalPage.EntryKids(es', right'));
  }

  lemma CutEntries(es: seq<(nat, i64)>, right: nat, mid: nat)
    requires mid < |es|
    ensures var ks, ps := InternalPage.EntryKeys(es), InternalPage.EntryKids(es, right);
      && InternalPage.EntryKeys(es[..mid]) == ks[..mid]
      && InternalPage.EntryKids(es[..mid], es[mid].0) == ps[..mid + 1]
      && InternalPage.EntryKeys(es[mid + 1..]) == ks[mid + 1..]
      && InternalPage.EntryKids(es[mid + 1..], right) == ps[mid + 1..]
  {
  }

  /** Write the two halves of 341 entries: the first over page n, before the
      page of the second is allocated. If there is no page left, the second
      half is gone. */
  method WriteHalves(pager: Pager, n: nat, es: seq<(nat, i64)>, right: nat) returns (r: Result<(i64, nat)>)
    requires pager.Valid() && n < |pager.View()| && n < MAX_PAGES
    requires |es| == InternalPage.MAX_KEYS + 1 && SmallPages(InternalPage.EntryKids(es, right))
    modifies pager
    ensures pager.Valid() && SameFile(pager)
    ensures |old(pager.View())| >= MAX_PAGES ==>
      && r == Err(PageLimit) && |pager.View()| == |old(pager.View())| && NodeWritten(old(pager.View()), pager.View(), n)
      && NodeOf(pager.View()[n]) == InternalNode(InternalPage.EntryKeys(es)[..170], InternalPage.EntryKids(es, right)[..171])
    ensures |old(pager.View())| < MAX_PAGES ==>
      var v0, v1 := old(pager.View()), pager.View();
      var ks, ps := InternalPage.EntryKeys(es), InternalPage.EntryKids(es, right);
      && r == Ok((ks[170], |v0|))
      && |v1| == |v0| + 1 && NodeWritten(v0, v1, n)
      && NodeOf(v1[n]) == InternalNode(ks[..170], ps[..171])
      && NodeOf(v1[|v0|]) == InternalNode(ks[171..], ps[171..])
  {
    hide NodeOf;
    ghost var ps := InternalPage.EntryKids(es, right);
    var mid := |es| / 2;
    CutEntries(es, right, mid);
    SmallParts(ps, mid + 1);
    WriteNode(pager, n, es[..mid], es[mid].0);
    var q := pager.AllocatePage();
    if q.Err? {
      return Err(PageLimit);
    }
    WriteNode(pager, q.value, es[mid + 1..], right);
    r := Ok((es[mid].1, q.value));
  }

  /** split_internal: the middle key moves up, 170 keys stay on each side. */
  method SplitNode(pager: Pager, n: nat, key: i64, child: nat, ghost keys: seq<i64>, ghost kids: seq<nat>)
    returns (r: Result<(i64, nat)>)
    requires pager.Valid() && n < |pager.View()| && n < MAX_PAGES && child < TWO32
    requires NodeOf(pager.View()[n]) == InternalNode(keys, kids) && |keys| == InternalPage.MAX_KEYS
    requires |kids| == |keys| + 1 && SmallPages(kids)
    modifies pager
    ensures pager.Valid() && SameFile(pager)
    ensures |old(pager.View())| >= MAX_PAGES ==>
      var pos := LowerBound(keys, key);
      && r == Err(PageLimit) && |pager.View()| == |old(pager.View())| && NodeWritten(old(pager.View()), pager.View(), n)
      && NodeOf(pager.View()[n])
         == InternalNode(InsertAt(keys, pos, key)[..170], InsertAt(kids, pos + 1, child)[..171])
    ensures |old(pager.View())| < MAX_PAGES ==>
      var v0, v1 := old(pager.View()), pager.View();
      var pos := LowerBound(keys, key);
      var ks, ps := InsertAt(keys, pos, key), InsertAt(kids, pos + 1, child);
      && r == Ok((ks[170], |v0|))
      && |v1| == |v0| + 1 && NodeWritten(v0, v1, n)
      && NodeOf(v1[n]) == InternalNode(ks[..170], ps[..171])
      && NodeOf(v1[|v0|]) == InternalNode(ks[171..], ps[171..])
  {
    hide NodeOf, LowerBound, InsertAt, SmallPages, NodeWritten;
    InternalIs(pager.View()[n], keys, kids);
    var p := pager.ReadPage(n);
    var es, right := InternalPage.CollectEntries(p.value);
    es, right := InsertEntry(es, right, key, child);
    SmallInsert(kids, LowerBound(keys, key) + 1, child);
    r := WriteHalves(pager, n, es, right);
  }

  lemma SmallInsert(kids: seq<nat>, i: nat, child: nat)
    requires SmallPages(kids) && child < TWO32 && i <= |kids|
    ensures SmallPages(InsertAt(kids, i, child))
  {
  }

  lemma SmallParts(ps: seq<nat>, m: nat)
    requires SmallPages(ps) && m <= |ps|
    ensures SmallPages(ps[..m]) && SmallPages(ps[m..])
  {
  }

  // ------------------------------------------------------------------
  // insert
  // ------------------------------------------------------------------

  /** The subtrees met on the way down, and the recorded path. */
  ghost predicate Spine(v: seq<Page>, sp: seq<Tree>, path: seq<(nat, nat)>, key: i64) {
    && |sp| == |path| + 1
    && (forall j :: 0 <= j < |sp| ==> Wf(sp[j]) && Represents(v, sp[j]) && Unshared(sp[j]))
    && (forall j :: 0 <= j < |path| ==>
         sp[j].Node? && path[j] == (sp[j].page, ChildIdx(sp[j], key)) && sp[j + 1] == sp[j].kids[ChildIdx(sp[j], key)])
  }

  lemma SpineNext(v: seq<Page>, sp: seq<Tree>, path: seq<(nat, nat)>, key: i64)
    requires Spine(v, sp, path, key) && sp[|path|].Node?
    ensures var t := sp[|path|];
      var i := ChildIdx(t, key);
      && Spine(v, sp + [t.kids[i]], path + [(t.page, i)], key)
      && LeafFor(t, key) == LeafFor(t.kids[i], key)
  {
    hide LowerBound, Represents, TreePages.Uses;
    var t := sp[|path|];
    var i := ChildIdx(t, key);
    KidUnshared(t, i);
    KidHeld(v, t, i);
  }

  lemma KidHeld(v: seq<Page>, t: Tree, i: nat)
    requires Represents(v, t) && t.Node? && i < |t.kids|
    ensures Represents(v, t.kids[i])
  {
  }

  lemma StoredNode(v: seq<Page>, t: Tree)
    requires Represents(v, t) && t.Node? && Wf(t)
    ensures NodeOf(v[t.page]) == InternalNode(t.keys, PagesOf(t.kids))
    ensures |t.keys| <= InternalPage.MAX_KEYS && SmallPages(PagesOf(t.kids))
  {
    InternalIs(v[t.page], t.keys, PagesOf(t.kids));
    forall i | 0 <= i < |t.kids| ensures PagesOf(t.kids)[i] < TWO32 {
      InternalPage.KidWidth(v[t.page], i);
    }
  }

  lemma StoredLeaf(v: seq<Page>, t: Tree)
    requires Represents(v, t) && t.Leaf?
    ensures NodeOf(v[t.page]) == LeafNode(t.cells, t.next)
  {
  }

  /** Once a level does not split, nothing above it changes. */
  lemma {:induction false} DoneUp(v0: seq<Page>, v1: seq<Page>, sp: seq<Tree>, path: seq<(nat, nat)>, j: nat, c: Cell)
    requires Spine(v0, sp, path, c.key) && |sp| == |path| + 1 && j < |sp|
    requires Grew(v0, v1, sp[j], c) && Insert(sp[j], c, |v0|).res.One?
    ensures Grew(v0, v1, sp[0], c) && Insert(sp[0], c, |v0|).res.One?
  {
    hide *;
    if j > 0 {
      SpineAt(v0, sp, path, c.key, j - 1);
      GrewOne(v0, v1, sp[j - 1], c);
      DoneUp(v0, v1, sp, path, j - 1, c);
    }
  }

  lemma SpineAt(v: seq<Page>, sp: seq<Tree>, path: seq<(nat, nat)>, key: i64, j: nat)
    requires Spine(v, sp, path, key) && j < |path|
    ensures |sp| == |path| + 1
    ensures var t := sp[j];
      && Wf(t) && Represents(v, t) && Unshared(t) && t.Node? && |t.kids| == |t.keys| + 1
      && path[j] == (t.page, ChildIdx(t, key))
      && sp[j + 1] == t.kids[ChildIdx(t, key)]
  {
    hide Represents, Unshared, LowerBound;
  }

  lemma KidFree(t: Tree, c: Cell, free: nat)
    requires Wf(t) && t.Node?
    ensures var g := Insert(t.kids[ChildIdx(t, c.key)], c, free);
      && g.free <= Insert(t, c, free).free
      && (g.res.Two? && |t.keys| >= InternalPage.MAX_KEYS ==> g.free < Insert(t, c, free).free)
  {
    hide LowerBound, InsertAt;
  }

  /** Pages are only ever added on the way up. */
  lemma {:induction false} FreeUp(v: seq<Page>, sp: seq<Tree>, path: seq<(nat, nat)>, j: nat, c: Cell, free: nat)
    requires Spine(v, sp, path, c.key) && |sp| == |path| + 1 && j < |sp|
    ensures Insert(sp[j], c, free).free <= Insert(sp[0], c, free).free <= InsertRoot(sp[0], c, free).1
  {
    hide *;
    if j > 0 {
      SpineAt(v, sp, path, c.key, j - 1);
      KidFree(sp[j - 1], c, free);
      FreeUp(v, sp, path, j - 1, c, free);
    } else {
      SpineRoot(v, sp, path, c.key);
      RootFree(sp[0], c, free);
    }
  }

  lemma SpineRoot(v: seq<Page>, sp: seq<Tree>, path: seq<(nat, nat)>, key: i64)
    requires Spine(v, sp, path, key)
    ensures sp != [] && Wf(sp[0])
  {
    hide Represents, Unshared, LowerBound;
  }

  lemma RootFree(t: Tree, c: Cell, free: nat)
    requires Wf(t)
    ensures Insert(t, c, free).free <= InsertRoot(t, c, free).1
  {
    hide Insert;
  }

  /** Whether the leaf that receives c has room, or splits into halves that fit. */
  ghost predicate Splittable(t: Tree, c: Cell)
    requires Wf(t)
  {
    var u := LeafFor(t, c.key);
    HasRoom(u.cells, c) || HalvesFit(InsertCell(u.cells, c))
  }

  /** The descent of insert: from the root to the leaf, recording the path. */
  method Descend(pager: Pager, root: nat, key: i64, ghost t: Tree)
    returns (leaf: nat, path: seq<(nat, nat)>, ghost sp: seq<Tree>)
    requires pager.Valid() && |pager.View()| <= MAX_PAGES
    requires Represents(pager.View(), t) && t.page == root && Wf(t) && Unshared(t)
    modifies pager
    ensures pager.Valid() && SameFile(pager) && pager.View() == old(pager.View()) && pager.dirty == old(pager.dirty)
    ensures |sp| == |path| + 1 && Spine(pager.View(), sp, path, key) && sp[0] == t
    ensures var u := sp[|path|]; u.Leaf? && u == LeafFor(t, key) && leaf == u.page
  {
    hide NodeOf, LowerBound, TreePages.Uses, Represents, Spine;
    leaf, path := root, [];
    ghost var sub := t;
    sp := [t];
    SpineStart(pager.View(), t, key);
    PageInRange(pager.View(), t);
    var p := pager.ReadPage(leaf);
    NodeType(pager.View(), sub);
    while p.value[0] != LeafPage.NODE_TYPE_LEAF
      invariant pager.Valid() && SameFile(pager) && pager.View() == old(pager.View()) && pager.dirty == old(pager.dirty)
      invariant Spine(pager.View(), sp, path, key) && |sp| == |path| + 1 && sp[0] == t && sp[|path|] == sub
      invariant Wf(sub) && Represents(pager.View(), sub)
      invariant leaf == sub.page < |pager.View()| && LeafFor(t, key) == LeafFor(sub, key)
      invariant p == Ok(pager.View()[leaf])
      invariant sub.Leaf? <==> p.value[0] == LeafPage.NODE_TYPE_LEAF
      decreases sub
    {
      StoredNode(pager.View(), sub);
      InternalIs(p.value, sub.keys, PagesOf(sub.kids));
      var idx, child := InternalPage.FindChild(p.value, key);
      SpineNext(pager.View(), sp, path, key);
      KidHeld(pager.View(), sub, idx);
      path := path + [(leaf, idx)];
      leaf := child;
      sub := sub.kids[idx];
      sp := sp + [sub];
      PageInRange(pager.View(), sub);
      NodeType(pager.View(), sub);
      p := pager.ReadPage(leaf);
    }
  }

  lemma SpineStart(v: seq<Page>, t: Tree, key: i64)
    requires Wf(t) && Represents(v, t) && Unshared(t)
    ensures Spine(v, [t], [], key)
  {
  }

  /** The first byte tells leaves from internal nodes. */
  lemma NodeType(v: seq<Page>, t: Tree)
    requires Represents(v, t)
    ensures t.page < |v| && (t.Leaf? <==> v[t.page][0] == LeafPage.NODE_TYPE_LEAF)
  {
    if t.Leaf? {
      LeafIs(v[t.page], t.cells, t.next);
    } else {
      InternalIs(v[t.page], t.keys, PagesOf(t.kids));
    }
  }

  /** What a subtree has turned into on the pages, and the key and page it
      passes up if it split. */
  ghost predicate Passed(v0: seq<Page>, v1: seq<Page>, t: Tree, c: Cell, k: i64, child: nat)
    requires Wf(t)
  {
    var r := Insert(t, c, |v0|).res;
    Grew(v0, v1, t, c) && r.Two? && r.k == k && r.r.page == child
  }

  /** The leaf step of insert: in place, or split. */
  method InsertAtLeaf(pager: Pager, n: nat, c: Cell, ghost t: Tree) returns (r: Result<Option<(i64, nat)>>)
    requires pager.Valid() && |pager.View()| <= MAX_PAGES && t.Leaf? && t.page == n
    requires Represents(pager.View(), t)
    requires HasRoom(t.cells, c) || HalvesFit(InsertCell(t.cells, c))
    modifies pager
    ensures pager.Valid() && SameFile(pager)
    ensures r.Ok? ==> |old(pager.View())| <= |pager.View()| <= MAX_PAGES
    ensures var v0, v1 := old(pager.View()), pager.View();
      && (r.Ok? && r.value.None? ==> Grew(v0, v1, t, c) && Insert(t, c, |v0|).res.One?)
      && (r.Ok? && r.value.Some? ==> Passed(v0, v1, t, c, r.value.value.0, r.value.value.1))
      && (r.Err? ==> r == Err(PageLimit) && v1 == v0 && pager.dirty == old(pager.dirty) && |v0| == MAX_PAGES
                     && Insert(t, c, |v0|).free == MAX_PAGES + 1)
      && (if Spacious(t, c) then r == Ok(None) && TakenInPlace(v0, v1, t, c) else r.Ok? ==> r.value.Some?)
  {
    hide NodeOf, HalvesFit, SplitPoint, LowerBound, InsertCell, DataBytes;
    StoredLeaf(pager.View(), t);
    PageInRange(pager.View(), t);
    var p := pager.ReadPage(n);
    LeafIs(p.value, t.cells, t.next);
    LeafPage.FreeSpaceExact(p.value);
    var free := LeafPage.FreeSpace(p.value);
    if free >= SLOT_SIZE + KEY_SIZE + |c.row| {
      PutInLeaf(pager, n, c, t.cells, t.next);
      r := Ok(None);
    } else {
      var s := SplitLeaf(pager, n, c, t.cells, t.next);
      r := if s.Err? then Err(PageLimit) else Ok(Some(s.value));
    }
  }

  /** One level of the propagation: the parent takes the key in, or splits.
      Its page is the only old one written. */
  method InsertAtNode(pager: Pager, n: nat, k: i64, child: nat, ghost t: Tree, c: Cell, ghost v0: seq<Page>)
    returns (r: Result<Option<(i64, nat)>>)
    requires pager.Valid() && |v0| < |pager.View()| <= MAX_PAGES && t.page == n
    requires Wf(t) && t.Node? && Represents(v0, t) && Unshared(t)
    requires Passed(v0, pager.View(), t.kids[ChildIdx(t, c.key)], c, k, child)
    modifies pager
    ensures pager.Valid() && SameFile(pager)
    ensures |old(pager.View())| <= |pager.View()| && NodeWritten(old(pager.View()), pager.View(), n)
    ensures n < |old(pager.View())| && NodeOf(old(pager.View())[n]).InternalNode?
    ensures r.Ok? ==> |pager.View()| <= MAX_PAGES
    ensures var v1 := pager.View();
      && (r.Ok? && r.value.None? ==> Grew(v0, v1, t, c) && Insert(t, c, |v0|).res.One?)
      && (r.Ok? && r.value.Some? ==> Passed(v0, v1, t, c, r.value.value.0, r.value.value.1))
      && (r.Err? ==> r == Err(PageLimit) && |v1| == MAX_PAGES && RanOut(v0, v1, t, c))
  {
    hide NodeOf, LowerBound, InsertAt, Represents, TreePages.Uses, Insert, OnlyPath, Unshared, Stunted;
    ghost var i := ChildIdx(t, c.key);
    ghost var v1 := pager.View();
    ParentUntouched(v0, v1, t, c);
    StoredNode(v0, t);
    PageInRange(v0, t);
    var p := pager.ReadPage(n);
    InternalIs(p.value, t.keys, PagesOf(t.kids));
    ChildInRange(v0, v1, t.kids[i], c, k, child);
    var nk := InternalPage.NumKeys(p.value);
    if nk < InternalPage.MAX_KEYS {
      PutInNode(pager, n, k, child, t.keys, PagesOf(t.kids));
      GrewInto(v0, v1, pager.View(), t, c);
      r := Ok(None);
    } else {
      var s := SplitNode(pager, n, k, child, t.keys, PagesOf(t.kids));
      if s.Err? {
        RanOutHere(v0, v1, pager.View(), t, c);
        r := Err(PageLimit);
      } else {
        GrewApart(v0, v1, pager.View(), t, c);
        r := Ok(Some(s.value));
      }
    }
  }

  /** The parent's page is as it was when its child's subtree has grown. */
  lemma ParentUntouched(v0: seq<Page>, v1: seq<Page>, t: Tree, c: Cell)
    requires Wf(t) && t.Node? && Represents(v0, t) && Unshared(t)
    requires Grew(v0, v1, t.kids[ChildIdx(t, c.key)], c)
    ensures t.page < |v0| <= |v1| && v1[t.page] == v0[t.page]
  {
    hide LowerBound, NodeOf, TreePages.Uses, Insert, OnlyPath;
    KidUnshared(t, ChildIdx(t, c.key));
    OffPath(v0, v1, t.kids[ChildIdx(t, c.key)], c.key);
  }

  lemma ChildInRange(v0: seq<Page>, v1: seq<Page>, t: Tree, c: Cell, k: i64, child: nat)
    requires Wf(t) && Passed(v0, v1, t, c, k, child)
    ensures child < |v1|
  {
    hide Insert, NodeOf, OnlyPath;
  }

  /** From the root's result to the whole tree, without a new root. */
  lemma RootKept(v0: seq<Page>, v1: seq<Page>, t: Tree, c: Cell)
    requires Wf(t) && Grew(v0, v1, t, c) && Insert(t, c, |v0|).res.One?
    ensures Inserted(v0, v1, t, c) && InsertRoot(t, c, |v0|).0.page == t.page && InsertRoot(t, c, |v0|).1 == |v1|
  {
    TreePages.InsertPage(t, c, |v0|);
    hide Insert, Represents, OnlyPath;
  }

  /** With a new root over the two halves. */
  lemma RootAdded(v0: seq<Page>, v1: seq<Page>, v2: seq<Page>, t: Tree, c: Cell, k: i64, child: nat)
    requires Wf(t) && Represents(v0, t) && Passed(v0, v1, t, c, k, child)
    requires |v2| == |v1| + 1 && NodeWritten(v1, v2, |v1|)
    requires NodeOf(v2[|v1|]) == InternalNode([k], [t.page, child])
    ensures Inserted(v0, v2, t, c) && InsertRoot(t, c, |v0|).0.page == |v1|
  {
    hide NodeOf, Insert, Represents, TreePages.Uses, PagesOf, OnPath;
    TreePages.InsertPage(t, c, |v0|);
    var r := Insert(t, c, |v0|).res;
    RepresentsFrame(v1, v2, r.l);
    RepresentsFrame(v1, v2, r.r);
    PairHeld(v2, |v1|, k, r.l, r.r);
  }

  lemma PairHeld(v: seq<Page>, page: nat, k: i64, l: Tree, r: Tree)
    requires page < |v| && NodeOf(v[page]) == InternalNode([k], [l.page, r.page])
    requires Represents(v, l) && Represents(v, r)
    ensures Represents(v, Node(page, [k], [l, r]))
  {
    hide NodeOf;
    var ds := [l, r];
    assert PagesOf(ds) == [l.page, r.page];
    hide Represents;
    HeldNode(v, page, [k], ds);
  }

  /** The new root page of insert. */
  method NewRoot(pager: Pager, left: nat, k: i64, child: nat) returns (r: Result<nat>)
    requires pager.Valid() && left < TWO32 && child < TWO32
    modifies pager
    ensures pager.Valid() && SameFile(pager)
    ensures |old(pager.View())| >= MAX_PAGES ==> r == Err(PageLimit) && pager.View() == old(pager.View())
    ensures |old(pager.View())| < MAX_PAGES ==>
      var v0, v1 := old(pager.View()), pager.View();
      && r == Ok(|v0|) && |v1| == |v0| + 1 && NodeWritten(v0, v1, |v0|)
      && NodeOf(v1[|v0|]) == InternalNode([k], [left, child])
  {
    hide NodeOf;
    var q := pager.AllocatePage();
    if q.Err? {
      return Err(PageLimit);
    }
    var es := [(left, k)];
    assert InternalPage.EntryKeys(es) == [k] && InternalPage.EntryKids(es, child) == [left, child];
    WriteNode(pager, q.value, es, child);
    r := q;
  }

  lemma SpineLast(v: seq<Page>, sp: seq<Tree>, path: seq<(nat, nat)>, key: i64)
    requires Spine(v, sp, path, key)
    ensures |sp| == |path| + 1 && Wf(sp[|path|]) && Represents(v, sp[|path|])
  {
    hide Represents, Unshared, LowerBound;
  }

  /** A split has taken a page. */
  lemma PassedGrows(v0: seq<Page>, v1: seq<Page>, t: Tree, c: Cell, k: i64, child: nat)
    requires Wf(t) && Passed(v0, v1, t, c, k, child)
    ensures |v0| < |v1| && OnlyPath(v0, v1, t, c.key)
  {
    hide Insert, Represents, OnlyPath;
    InsertWf(t, c, |v0|);
  }

  /** A split root needs one more page. */
  lemma PassedFree(v0: seq<Page>, v1: seq<Page>, t: Tree, c: Cell, k: i64, child: nat)
    requires Wf(t) && Passed(v0, v1, t, c, k, child)
    ensures InsertRoot(t, c, |v0|).1 == |v1| + 1
    ensures Represents(v1, StuntedRoot(t, c, |v0|, |v1|))
  {
    hide Insert, Represents, OnlyPath;
  }

  /** Nothing above the level that ran out of pages changes. */
  lemma {:induction false} OutUp(v0: seq<Page>, v1: seq<Page>, sp: seq<Tree>, path: seq<(nat, nat)>, j: nat, c: Cell)
    requires Spine(v0, sp, path, c.key) && |sp| == |path| + 1 && j < |sp|
    requires RanOut(v0, v1, sp[j], c)
    ensures RanOut(v0, v1, sp[0], c)
  {
    hide *;
    if j > 0 {
      SpineAt(v0, sp, path, c.key, j - 1);
      RanOutUp(v0, v1, sp[j - 1], c);
      OutUp(v0, v1, sp, path, j - 1, c);
    }
  }

  lemma RootRanOut(v0: seq<Page>, v1: seq<Page>, t: Tree, c: Cell)
    requires Wf(t) && RanOut(v0, v1, t, c)
    ensures Represents(v1, StuntedRoot(t, c, |v0|, |v1|)) && OnlyPath(v0, v1, t, c.key) && |v0| < |v1|
    ensures InsertRoot(t, c, |v0|).1 > |v1|
  {
    hide Insert, Represents, OnlyPath, Stunted;
    RootFreeAfter(t, c, |v0|);
  }

  /** The pages v1 hold the tree that took c in, and only pages on the path to
      the leaf changed except new ones. */
  ghost predicate Inserted(v0: seq<Page>, v1: seq<Page>, t: Tree, c: Cell)
    requires Wf(t)
  {
    var (u, next) := InsertRoot(t, c, |v0|);
    |v1| == next && Represents(v1, u) && OnlyPath(v0, v1, t, c.key)
  }

  /** The pages v1 are all used, and hold the tree as far as the splits got. */
  ghost predicate HalfInserted(v0: seq<Page>, v1: seq<Page>, t: Tree, c: Cell)
    requires Wf(t)
  {
    |v0| < |v1| == MAX_PAGES && Represents(v1, StuntedRoot(t, c, |v0|, MAX_PAGES))
  }

  /** insert. A leaf with enough free bytes takes the cell where it is, and no
      other page changes; otherwise the insertion takes new pages.
      Success or failure, no old page off the path to the leaf changes.
      It fails exactly if the cell exceeds a page or the pages run out. In the
      second case nothing changes exactly if there was no page left to begin
      with; otherwise the leaf and the nodes above it have split as far as the
      pages went, and both halves of the leaf, the row among them, are stored. */
  method InsertRow(pager: Pager, root: nat, key: i64, row: seq<byte>, ghost t: Tree) returns (r: Result<nat>)
    requires pager.Valid() && |pager.View()| <= MAX_PAGES
    requires Represents(pager.View(), t) && t.page == root && Wf(t) && Unshared(t)
    requires Cost(Cell(key, row)) <= LEAF_CAPACITY ==> Splittable(t, Cell(key, row))
    modifies pager
    ensures pager.Valid() && SameFile(pager)
    ensures OnlyPath(old(pager.View()), pager.View(), t, key)
    ensures var c, v0, v1 := Cell(key, row), old(pager.View()), pager.View();
      var (u, next) := InsertRoot(t, c, |v0|);
      if Cost(c) > LEAF_CAPACITY then r == Err(RowTooLarge) && v1 == v0 && pager.dirty == old(pager.dirty)
      else if next <= MAX_PAGES then r == Ok(u.page) && Inserted(v0, v1, t, c) && PiecesStored(v1, t, c, |v0|)
      else
        && r == Err(PageLimit)
        && (v1 == v0 <==> |v0| == MAX_PAGES)
        && (|v0| == MAX_PAGES ==> pager.dirty == old(pager.dirty))
        && (|v0| < MAX_PAGES ==> HalfInserted(v0, v1, t, c) && PiecesStored(v1, t, c, |v0|))
    ensures var c, v0, v1, u := Cell(key, row), old(pager.View()), pager.View(), LeafFor(t, key);
      if Spacious(u, c) then r == Ok(root) && TakenInPlace(v0, v1, u, c)
      else r.Ok? ==> |v0| < |v1|
  {
    hide NodeOf, HalvesFit, LowerBound, Represents, TreePages.Uses, Insert, Spine, Unshared, InsertRoot, Grew, Passed,
      SplitPoint, Inserted, OnlyPath, PiecesStored, Stunted, StuntedRoot, RanOut, NodeWritten, TakenInPlace, LeafFor;
    var c := Cell(key, row);
    if KEY_SIZE + |row| > PAGE_SIZE - LEAF_HEADER_SIZE - SLOT_SIZE {
      NothingWritten(pager.View(), t, key);
      return Err(RowTooLarge);
    }
    ghost var v0 := pager.View();
    NothingWritten(v0, t, key);
    var cur, path;
    ghost var sp;
    cur, path, sp := Descend(pager, root, key, t);
    SpineLast(v0, sp, path, key);
    var up := InsertAtLeaf(pager, cur, c, sp[|path|]);
    FreeUp(v0, sp, path, |path|, c, |v0|);
    if up.Err? {
      return Err(PageLimit);
    }
    LeafTaken(v0, pager.View(), t, sp[|path|], c, up.value);
    if up.value.None? {
      DoneUp(v0, pager.View(), sp, path, |path|, c);
      RootKept(v0, pager.View(), t, c);
      InsertedOnly(v0, pager.View(), t, c);
      return Ok(root);
    }
    var promoteKey, promoteChild := up.value.value.0, up.value.value.1;
    PassedGrows(v0, pager.View(), sp[|path|], c, promoteKey, promoteChild);
    var j := |path|;
    while j > 0
      invariant 0 <= j <= |path| && |sp| == |path| + 1 && Spine(v0, sp, path, key) && sp[0] == t
      invariant Wf(sp[j])
      invariant pager.Valid() && SameFile(pager) && |v0| < |pager.View()| <= MAX_PAGES
      invariant Passed(v0, pager.View(), sp[j], c, promoteKey, promoteChild)
      invariant PiecesStored(pager.View(), t, c, |v0|)
    {
      j := j - 1;
      SpineAt(v0, sp, path, key, j);
      ghost var v := pager.View();
      up := InsertAtNode(pager, path[j].0, promoteKey, promoteChild, sp[j], c, v0);
      PiecesKept(v, pager.View(), path[j].0, t, c, |v0|);
      if up.Err? {
        OutUp(v0, pager.View(), sp, path, j, c);
        RootRanOut(v0, pager.View(), t, c);
        return Err(PageLimit);
      }
      if up.value.None? {
        DoneUp(v0, pager.View(), sp, path, j, c);
        RootKept(v0, pager.View(), t, c);
        InsertedOnly(v0, pager.View(), t, c);
        return Ok(root);
      }
      promoteKey, promoteChild := up.value.value.0, up.value.value.1;
      PassedGrows(v0, pager.View(), sp[j], c, promoteKey, promoteChild);
    }
    ChildInRange(v0, pager.View(), t, c, promoteKey, promoteChild);
    PageInRange(v0, t);
    ghost var v1 := pager.View();
    PassedFree(v0, v1, t, c, promoteKey, promoteChild);
    PassedGrows(v0, v1, t, c, promoteKey, promoteChild);
    r := NewRoot(pager, root, promoteKey, promoteChild);
    if r.Ok? {
      RootAdded(v0, v1, pager.View(), t, c, promoteKey, promoteChild);
      InsertedOnly(v0, pager.View(), t, c);
      PiecesKept(v1, pager.View(), |v1|, t, c, |v0|);
    }
  }

  lemma NothingWritten(v: seq<Page>, t: Tree, key: i64)
    requires Wf(t)
    ensures OnlyPath(v, v, t, key)
  {
  }

  lemma InsertedOnly(v0: seq<Page>, v1: seq<Page>, t: Tree, c: Cell)
    requires Wf(t) && Inserted(v0, v1, t, c)
    ensures OnlyPath(v0, v1, t, c.key) && |v1| == InsertRoot(t, c, |v0|).1
  {
    hide OnlyPath, InsertRoot, Represents;
  }

  lemma LeafTaken(v0: seq<Page>, v1: seq<Page>, t: Tree, u: Tree, c: Cell, r: Option<(i64, nat)>)
    requires Wf(t) && u.Leaf? && u == LeafFor(t, c.key)
    requires r.None? ==> Grew(v0, v1, u, c)
    requires r.Some? ==> Passed(v0, v1, u, c, r.value.0, r.value.1)
    ensures PiecesStored(v1, t, c, |v0|)
  {
    hide Grew, LeafFor, PiecesStored;
    GrewPieces(v0, v1, t, u, c);
  }
}
